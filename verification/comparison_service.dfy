/** The comparison assembler: fetch the requested vehicles through an
    `IN ($1, ..., $n)` list, reshape them into per-attribute columns, and
    store the result only when a user is known. */
module ComparisonService {
  import opened Common
  import opened Schema
  import opened Sorting

  /** What `createComparison` hands back: the stored row when a user is
      known, the bare payload otherwise. */
  datatype Outcome = Persisted(row: ComparisonRow) | Transient(data: ComparisonData)

  /** The payload of an outcome, stored or not. */
  function Payload(o: Outcome): ComparisonData
  {
    match o
    case Persisted(row) => row.data
    case Transient(data) => data
  }

  /** The columns the comparison query selects from a vehicle row. */
  function Project(v: Vehicle): ComparedVehicle
  {
    ComparedVehicle(v.id, v.name, v.brandId, v.category, v.fuelType, v.transmission, v.mileage,
                    v.maxPower, v.maxTorque, v.seatingCapacity, v.averageRating, v.startingPrice)
  }

  /** `vehicleIds.map((_, i) => '$' + (i + 1))`: one placeholder per id. */
  function Placeholders(n: nat): (r: seq<nat>)
    ensures |r| == n
  {
    seq(n, i requires 0 <= i < n => i + 1)
  }

  /** The values an `IN (...)` list of placeholders denotes under `args`. */
  function InListValues(slots: seq<nat>, args: seq<int>): set<int>
  {
    set k | 0 <= k < |slots| && 1 <= slots[k] <= |args| :: args[slots[k] - 1]
  }

  /** The placeholder list binds the id list positionally: the `IN` list
      denotes exactly the requested ids. */
  lemma PlaceholdersBindIds(ids: seq<int>)
    ensures forall x :: x in InListValues(Placeholders(|ids|), ids) <==> x in ids
  {
    var slots := Placeholders(|ids|);
    forall x | x in ids
      ensures x in InListValues(slots, ids)
    {
      var k :| 0 <= k < |ids| && ids[k] == x;
      assert slots[k] == k + 1;
    }
  }

  /** `SELECT ... FROM vehicles WHERE id IN (...)`, in table order. */
  function FetchCompared(s: Store, ids: seq<int>): (r: seq<ComparedVehicle>)
    ensures forall k :: 0 <= k < |r| ==> r[k].id in ids
  {
    PlaceholdersBindIds(ids);
    var wanted := InListValues(Placeholders(|ids|), ids);
    var rows := Filter(s.vehicles, (v: Vehicle) => v.id in wanted);
    seq(|rows|, i requires 0 <= i < |rows| => Project(rows[i]))
  }

  /** Every `specs` column has one entry per compared vehicle, holding that
      vehicle's attribute. */
  predicate SpecsAligned(d: ComparisonData)
  {
    var n := |d.vehicles|;
    && |d.specs.fuelType| == n && |d.specs.transmission| == n && |d.specs.mileage| == n
    && |d.specs.maxPower| == n && |d.specs.maxTorque| == n && |d.specs.seatCapacity| == n
    && |d.specs.price| == n
    && forall i :: 0 <= i < n ==>
         && d.specs.fuelType[i] == d.vehicles[i].fuelType
         && d.specs.transmission[i] == d.vehicles[i].transmission
         && d.specs.mileage[i] == d.vehicles[i].mileage
         && d.specs.maxPower[i] == d.vehicles[i].maxPower
         && d.specs.maxTorque[i] == d.vehicles[i].maxTorque
         && d.specs.seatCapacity[i] == d.vehicles[i].seatingCapacity
         && d.specs.price[i] == d.vehicles[i].startingPrice
  }

  /** The payload `{ vehicles, specs }`: the fetched rows and one column per
      attribute. */
  function Assemble(vs: seq<ComparedVehicle>): (d: ComparisonData)
    ensures d.vehicles == vs && SpecsAligned(d)
  {
    var n := |vs|;
    ComparisonData(vs, Specs(
      seq(n, i requires 0 <= i < n => vs[i].fuelType),
      seq(n, i requires 0 <= i < n => vs[i].transmission),
      seq(n, i requires 0 <= i < n => vs[i].mileage),
      seq(n, i requires 0 <= i < n => vs[i].maxPower),
      seq(n, i requires 0 <= i < n => vs[i].maxTorque),
      seq(n, i requires 0 <= i < n => vs[i].seatingCapacity),
      seq(n, i requires 0 <= i < n => vs[i].startingPrice)))
  }

  /** `createComparison(vehicleIds, userId)`. An empty id list makes the
      statement `IN ()`, which Postgres rejects. With a truthy user id the
      payload is stored under the next id, with the id list as given, and
      the stored row returned (a user id that no row has breaks the
      reference); otherwise nothing is written. */
  function CreateComparison(s: Store, ids: seq<int>, userId: Option<int>, now: int): (r: Result<(Store, Outcome), DbError>)
    ensures r == Failure(SyntaxError) <==> |ids| == 0
    ensures r == Failure(ForeignKeyViolation) <==> |ids| > 0 && TruthyInt(userId) && !UserExists(s, userId.value)
    ensures r.Success? ==>
      && Payload(r.value.1).vehicles == FetchCompared(s, ids)
      && SpecsAligned(Payload(r.value.1))
      && forall k :: 0 <= k < |Payload(r.value.1).vehicles| ==> Payload(r.value.1).vehicles[k].id in ids
    ensures r.Success? && TruthyInt(userId) ==>
      && r.value.1.Persisted?
      && r.value.1.row.id == s.nextComparisonId
      && r.value.1.row.userId == userId
      && r.value.1.row.vehicleIds == ids
      && r.value.1.row.createdAt == now
      && r.value.0 == s.(comparisons := s.comparisons + [r.value.1.row], nextComparisonId := s.nextComparisonId + 1)
    ensures r.Success? && !TruthyInt(userId) ==> r.value.0 == s && r.value.1.Transient?
  {
    if |ids| == 0 then Failure(SyntaxError)
    else
      var data := Assemble(FetchCompared(s, ids));
      if TruthyInt(userId) then
        if !UserExists(s, userId.value) then Failure(ForeignKeyViolation)
        else
          var row := ComparisonRow(s.nextComparisonId, userId, ids, data, now);
          Success((s.(comparisons := s.comparisons + [row], nextComparisonId := s.nextComparisonId + 1), Persisted(row)))
      else Success((s, Transient(data)))
  }

  /** The rows the `IN` list selects, before projection. */
  function Requested(s: Store, ids: seq<int>): seq<Vehicle>
  {
    Filter(s.vehicles, (v: Vehicle) => v.id in InListValues(Placeholders(|ids|), ids))
  }

  /** The payload lists the requested rows, projected. */
  lemma FetchIsRequested(s: Store, ids: seq<int>)
    ensures |FetchCompared(s, ids)| == |Requested(s, ids)|
    ensures forall k :: 0 <= k < |Requested(s, ids)| ==> FetchCompared(s, ids)[k] == Project(Requested(s, ids)[k])
  {
  }

  /** In a well-formed store the payload holds each requested vehicle that
      exists exactly once, however often it was requested, and silently
      drops ids no vehicle has. */
  lemma PayloadExact(s: Store, ids: seq<int>)
    requires WellFormed(s)
    ensures var vs := FetchCompared(s, ids);
      && (forall id :: id in ids && VehicleExists(s, id) ==> exists k :: 0 <= k < |vs| && vs[k].id == id)
      && (forall k :: 0 <= k < |vs| ==> VehicleExists(s, vs[k].id))
      && (forall i, j :: 0 <= i < j < |vs| ==> vs[i].id != vs[j].id)
  {
    PayloadCovers(s, ids);
    PayloadDistinct(s, ids);
  }

  /** A successful `createComparison` on a well-formed store hands back the
      fetched rows: each requested vehicle that exists once, however often
      it was requested, no other vehicle, and every spec column aligned
      with them. */
  lemma CreatePayloadExact(s: Store, ids: seq<int>, userId: Option<int>, now: int)
    requires WellFormed(s)
    requires CreateComparison(s, ids, userId, now).Success?
    ensures var d := Payload(CreateComparison(s, ids, userId, now).value.1);
      && SpecsAligned(d)
      && (forall id :: id in ids && VehicleExists(s, id) ==> exists k :: 0 <= k < |d.vehicles| && d.vehicles[k].id == id)
      && (forall k :: 0 <= k < |d.vehicles| ==> d.vehicles[k].id in ids && VehicleExists(s, d.vehicles[k].id))
      && (forall i, j :: 0 <= i < j < |d.vehicles| ==> d.vehicles[i].id != d.vehicles[j].id)
  {
    PayloadExact(s, ids);
  }

  /** Every requested id some vehicle has shows up, and nothing else. */
  lemma PayloadCovers(s: Store, ids: seq<int>)
    ensures var vs := FetchCompared(s, ids);
      && (forall id :: id in ids && VehicleExists(s, id) ==> exists k :: 0 <= k < |vs| && vs[k].id == id)
      && (forall k :: 0 <= k < |vs| ==> VehicleExists(s, vs[k].id))
  {
    PlaceholdersBindIds(ids);
    var rows := Requested(s, ids);
    var vs := FetchCompared(s, ids);
    FetchIsRequested(s, ids);
    forall id | id in ids && VehicleExists(s, id)
      ensures exists k :: 0 <= k < |vs| && vs[k].id == id
    {
      var j :| 0 <= j < |s.vehicles| && s.vehicles[j].id == id;
      assert s.vehicles[j] in rows;
      var k :| 0 <= k < |rows| && rows[k] == s.vehicles[j];
      assert vs[k].id == id;
    }
    forall k | 0 <= k < |vs|
      ensures VehicleExists(s, vs[k].id)
    {
      var j :| 0 <= j < |s.vehicles| && s.vehicles[j] == rows[k];
    }
  }

  /** With distinct vehicle ids no vehicle appears twice. */
  lemma PayloadDistinct(s: Store, ids: seq<int>)
    requires VehiclesWellFormed(s)
    ensures var vs := FetchCompared(s, ids);
      forall i, j :: 0 <= i < j < |vs| ==> vs[i].id != vs[j].id
  {
    var key := (v: Vehicle) => v.id;
    assert DistinctKeys(s.vehicles, key);
    FilterKeepsDistinct(s.vehicles, (v: Vehicle) => v.id in InListValues(Placeholders(|ids|), ids), key);
    FetchIsRequested(s, ids);
    var rows := Requested(s, ids);
    assert DistinctKeys(rows, key);
  }

  /** `JSON.parse` applied to what the driver hands back for a stored
      `comparison_data`: the decoded payload, or `None` when it throws. */
  type JsonParse = ComparisonData -> Option<ComparisonData>

  /** A row whose payload has gone through `JSON.parse`. */
  function Decoded(c: ComparisonRow, parse: JsonParse): ComparisonRow
    requires parse(c.data).Some?
  {
    c.(data := parse(c.data).value)
  }

  /** `SELECT * FROM comparisons WHERE id = $1`: the rows with that id. */
  function RowsWithId(s: Store, comparisonId: int): (r: seq<ComparisonRow>)
    ensures forall k :: 0 <= k < |r| ==> r[k] in s.comparisons && r[k].id == comparisonId
    ensures |r| == 0 <==> forall k :: 0 <= k < |s.comparisons| ==> s.comparisons[k].id != comparisonId
  {
    var p := (c: ComparisonRow) => c.id == comparisonId;
    FilterEmpty(s.comparisons, p);
    Filter(s.comparisons, p)
  }

  /** `getComparison(id)`: null when no row has the id; otherwise the first
      row, its payload replaced by `JSON.parse` of it, which may throw. */
  function GetComparison(s: Store, comparisonId: int, parse: JsonParse): (r: Result<Option<ComparisonRow>, DbError>)
    ensures r == Success(None) <==> forall k :: 0 <= k < |s.comparisons| ==> s.comparisons[k].id != comparisonId
    ensures r.Failure? ==> r.error == JsonParseError
    ensures r.Failure? || r.value.Some? <==> exists k :: 0 <= k < |s.comparisons| && s.comparisons[k].id == comparisonId
    ensures r.Failure? ==> exists k :: 0 <= k < |s.comparisons| && s.comparisons[k].id == comparisonId && parse(s.comparisons[k].data).None?
    ensures r.Success? && r.value.Some? ==>
      exists k :: 0 <= k < |s.comparisons| && s.comparisons[k].id == comparisonId &&
        parse(s.comparisons[k].data).Some? && r.value.value == Decoded(s.comparisons[k], parse)
  {
    var rows := RowsWithId(s, comparisonId);
    if |rows| == 0 then Success(None)
    else
      assert rows[0] in s.comparisons;
      match parse(rows[0].data)
      case None => Failure(JsonParseError)
      case Some(d) => Success(Some(rows[0].(data := d)))
  }

  /** Storing a comparison keeps the store well-formed. */
  lemma CreateKeepsWellFormed(s: Store, ids: seq<int>, userId: Option<int>, now: int)
    requires WellFormed(s)
    requires CreateComparison(s, ids, userId, now).Success?
    ensures WellFormed(CreateComparison(s, ids, userId, now).value.0)
  {
    var r := CreateComparison(s, ids, userId, now);
    var t := r.value.0;
    if TruthyInt(userId) {
      var row := r.value.1.row;
      assert UserExists(s, row.userId.value) by {
        assert r != Failure(ForeignKeyViolation);
      }
      assert t == s.(comparisons := s.comparisons + [row], nextComparisonId := s.nextComparisonId + 1);
      AppendComparisonWellFormed(s, row);
    } else {
      assert t == s;
    }
  }

  /** Appending a row numbered by the sequence, for an existing user, keeps
      the comparisons constraints. */
  lemma AppendComparisonWellFormed(s: Store, row: ComparisonRow)
    requires WellFormed(s)
    requires row.id == s.nextComparisonId && row.userId.Some? && UserExists(s, row.userId.value)
    ensures WellFormed(s.(comparisons := s.comparisons + [row], nextComparisonId := s.nextComparisonId + 1))
  {
    var r := s.(comparisons := s.comparisons + [row], nextComparisonId := s.nextComparisonId + 1);
    assert ComparisonsWellFormed(r) by {
      forall i | 0 <= i < |r.comparisons|
        ensures 1 <= r.comparisons[i].id < r.nextComparisonId
      {
        if i < |s.comparisons| {
          assert r.comparisons[i] == s.comparisons[i];
        }
      }
    }
  }

  /** Reading a stored comparison back under its id gives the row with its
      payload through `JSON.parse`, or the error `JSON.parse` throws; no
      round trip is assumed of the decoder. */
  lemma CreateThenGet(s: Store, ids: seq<int>, userId: Option<int>, now: int, parse: JsonParse)
    requires WellFormed(s)
    requires CreateComparison(s, ids, userId, now).Success?
    ensures var out := CreateComparison(s, ids, userId, now).value;
      out.1.Persisted? ==>
        GetComparison(out.0, out.1.row.id, parse) ==
          if parse(out.1.row.data).Some? then Success(Some(Decoded(out.1.row, parse))) else Failure(JsonParseError)
  {
    var out := CreateComparison(s, ids, userId, now).value;
    if out.1.Persisted? {
      AppendedRowFound(s.comparisons, out.1.row, s.nextComparisonId);
      assert RowsWithId(out.0, out.1.row.id) == [out.1.row];
    }
  }

  /** With the driver's default handling of `JSONB`, the column comes back
      already decoded, `JSON.parse` sees the text `[object Object]` and
      throws: every stored comparison is unreadable by id. */
  lemma StoredComparisonUnreadable(s: Store, comparisonId: int)
    requires exists k :: 0 <= k < |s.comparisons| && s.comparisons[k].id == comparisonId
    ensures GetComparison(s, comparisonId, _ => None) == Failure(JsonParseError)
  {
  }

  /** A row appended under an id above every existing id is the only row
      with that id. */
  lemma AppendedRowFound(cs: seq<ComparisonRow>, row: ComparisonRow, next: int)
    requires forall i :: 0 <= i < |cs| ==> cs[i].id < next
    requires row.id == next
    ensures Filter(cs + [row], (c: ComparisonRow) => c.id == row.id) == [row]
  {
    var p := (c: ComparisonRow) => c.id == row.id;
    FilterAppend(cs, [row], p);
    NoRowWithId(cs, next);
    assert Filter([row], p) == [row] + Filter([], p);
  }

  /** No row of `cs` has an id at or above `next`. */
  lemma NoRowWithId(cs: seq<ComparisonRow>, next: int)
    requires forall i :: 0 <= i < |cs| ==> cs[i].id < next
    ensures Filter(cs, (c: ComparisonRow) => c.id == next) == []
  {
  }

  /** Sort key of `ORDER BY created_at DESC`. */
  function NewestFirst(c: ComparisonRow): Key
  {
    Key(-(c.createdAt as real), 0.0)
  }

  /** `SELECT * FROM comparisons WHERE user_id = $1 ORDER BY created_at
      DESC`: every stored comparison of that user (and of no one else),
      newest first. */
  function UserComparisonRows(s: Store, userId: int): (r: seq<ComparisonRow>)
    ensures forall i, j :: 0 <= i < j < |r| ==> r[i].createdAt >= r[j].createdAt
    ensures forall x :: multiset(r)[x] == if x.userId == Some(userId) then multiset(s.comparisons)[x] else 0
  {
    var p := (c: ComparisonRow) => c.userId == Some(userId);
    var kept := Filter(s.comparisons, p);
    var r := SortBy(kept, NewestFirst);
    NewestFirstOrder(r);
    FilterCounts(s.comparisons, p);
    assert multiset(r) == multiset(kept);
    r
  }

  /** Every payload of `rows` survives `JSON.parse`. */
  predicate AllParse(rows: seq<ComparisonRow>, parse: JsonParse)
  {
    forall k :: 0 <= k < |rows| ==> parse(rows[k].data).Some?
  }

  /** `getUserComparisons(userId)`: the user's rows, newest first, each
      payload through `JSON.parse`; one payload it throws on fails the whole
      call. */
  function GetUserComparisons(s: Store, userId: int, parse: JsonParse): (r: Result<seq<ComparisonRow>, DbError>)
    ensures r.Failure? <==> !AllParse(UserComparisonRows(s, userId), parse)
    ensures r.Failure? ==> r.error == JsonParseError
    ensures r.Success? ==>
      var rows := UserComparisonRows(s, userId);
      && |r.value| == |rows|
      && forall k :: 0 <= k < |rows| ==> r.value[k] == Decoded(rows[k], parse)
  {
    var rows := UserComparisonRows(s, userId);
    if !AllParse(rows, parse) then Failure(JsonParseError)
    else Success(seq(|rows|, k requires 0 <= k < |rows| => Decoded(rows[k], parse)))
  }

  /** With the driver's default handling of `JSONB`, a user's comparisons
      can be listed only while there are none. */
  lemma UserComparisonsUnreadable(s: Store, userId: int)
    ensures GetUserComparisons(s, userId, _ => None).Success? <==>
              forall k :: 0 <= k < |s.comparisons| ==> s.comparisons[k].userId != Some(userId)
  {
    var rows := UserComparisonRows(s, userId);
    if exists k :: 0 <= k < |s.comparisons| && s.comparisons[k].userId == Some(userId) {
      var k :| 0 <= k < |s.comparisons| && s.comparisons[k].userId == Some(userId);
      assert multiset(s.comparisons)[s.comparisons[k]] > 0;
      assert s.comparisons[k] in multiset(rows);
    }
  }

  /** Sorting by `NewestFirst` puts later `createdAt` values first. */
  lemma NewestFirstOrder(r: seq<ComparisonRow>)
    requires SortedBy(r, NewestFirst)
    ensures forall i, j :: 0 <= i < j < |r| ==> r[i].createdAt >= r[j].createdAt
  {
    forall i, j | 0 <= i < j < |r|
      ensures r[i].createdAt >= r[j].createdAt
    {
      assert KeyLe(NewestFirst(r[i]), NewestFirst(r[j]));
    }
  }
}
