/** The comparison endpoints: creating a comparison of two or three
    vehicles (stored only for a signed-in user), reading one back by id, and
    the signed-in user's own comparisons. */
module ComparisonController {
  import opened Common
  import opened Schema
  import opened ComparisonService
  import opened Http
  import Numbers

  /** The `vehicleIds` field of the request body: absent (or `null`),
      something other than an array, or an array of ids. */
  datatype IdsBody = Missing | NotArray | IdArray(ids: seq<int>)

  /** The body names two or three vehicles; repeats are not looked at. */
  predicate Selectable(body: IdsBody)
  {
    body.IdArray? && 2 <= |body.ids| <= 3
  }

  /** The refusal for a body that does not name two or three vehicles. */
  const SelectTwoOrThree := "Please select 2-3 vehicles to compare"

  /** `create`: a body that does not name two or three vehicles is refused
      with 400 and nothing is written; otherwise the service builds the
      comparison for the optional signed-in user, and a store error is
      handed on with nothing written. */
  function Create(s: Store, user: Option<int>, body: IdsBody, now: int): (r: (Store, Reply<Outcome>))
    ensures r.1 == BadRequest(SelectTwoOrThree) <==> !Selectable(body)
    ensures r.1.Ok? || r.1.Unhandled? || r.1 == BadRequest(SelectTwoOrThree)
    ensures !r.1.Ok? ==> r.0 == s
    ensures Selectable(body) ==>
      var out := CreateComparison(s, body.ids, user, now);
      && (r.1.Ok? <==> out.Success?)
      && (r.1.Ok? ==> r == (out.value.0, Ok(out.value.1)))
      && (r.1.Unhandled? ==> r.1.cause == out.error)
  {
    if !Selectable(body) then (s, BadRequest(SelectTwoOrThree))
    else match CreateComparison(s, body.ids, user, now)
      case Success((t, o)) => (t, Ok(o))
      case Failure(e) => (s, Unhandled(e))
  }

  /** Because the controller checks the length first, the service never
      sees the empty id list it would turn into the invalid `IN ()`; the
      only store error left is an unknown signed-in user. */
  lemma CreateNeverSendsEmptyList(s: Store, user: Option<int>, body: IdsBody, now: int)
    ensures Create(s, user, body, now).1 != Unhandled(SyntaxError)
    ensures Create(s, user, body, now).1.Unhandled? <==>
              Selectable(body) && TruthyInt(user) && !UserExists(s, user.value)
  {
  }

  /** The same vehicle twice passes the check and, for a signed-in user,
      is stored as given. */
  lemma RepeatedVehicleAccepted(s: Store, u: int, v: int, now: int)
    requires u != 0 && UserExists(s, u)
    ensures var r := Create(s, Some(u), IdArray([v, v]), now);
      && r.1.Ok? && r.1.body.Persisted?
      && r.1.body.row.vehicleIds == [v, v]
      && r.1.body.row.userId == Some(u)
  {
  }

  /** `getComparison`: the path parameter goes through `parseInt`; a
      non-number reaches Postgres as `NaN` and the lookup fails; an unknown
      id is a 404; a payload `JSON.parse` throws on is handed on to the
      error middleware. */
  function GetComparisonById(s: Store, param: string, parse: JsonParse): (r: Reply<ComparisonRow>)
    ensures r == Unhandled(InvalidInteger) <==> Numbers.ParseInt(param).None?
    ensures r == NotFound("Comparison not found") <==>
              Numbers.ParseInt(param).Some? && GetComparison(s, Numbers.ParseInt(param).value, parse) == Success(None)
    ensures r == Unhandled(JsonParseError) <==>
              Numbers.ParseInt(param).Some? && GetComparison(s, Numbers.ParseInt(param).value, parse).Failure?
    ensures r.Ok? || r.Unhandled? || r == NotFound("Comparison not found")
    ensures r.Ok? ==>
              && Numbers.ParseInt(param) == Some(r.body.id)
              && exists k :: 0 <= k < |s.comparisons| && parse(s.comparisons[k].data).Some? && r.body == Decoded(s.comparisons[k], parse)
  {
    match Numbers.ParseInt(param)
    case None => Unhandled(InvalidInteger)
    case Some(id) =>
      match GetComparison(s, id, parse)
      case Failure(e) => Unhandled(e)
      case Success(None) => NotFound("Comparison not found")
      case Success(Some(row)) => Ok(row)
  }

  /** A comparison stored for a signed-in user, asked for through the
      endpoint under the decimal text of its id, comes back with its payload
      through `JSON.parse`, or as the error `JSON.parse` throws. */
  lemma CreatedComparisonIsReadable(s: Store, user: Option<int>, body: IdsBody, now: int, parse: JsonParse)
    requires WellFormed(s)
    requires Create(s, user, body, now).1.Ok?
    requires TruthyInt(user)
    ensures var r := Create(s, user, body, now);
      && r.1.body.Persisted?
      && r.1.body.row.id >= 1
      && GetComparisonById(r.0, Numbers.DecimalText(r.1.body.row.id), parse) ==
           if parse(r.1.body.row.data).Some? then Ok(Decoded(r.1.body.row, parse)) else Unhandled(JsonParseError)
  {
    var r := Create(s, user, body, now);
    CreateThenGet(s, body.ids, user, now, parse);
    Numbers.ParseIntRoundTrip(r.1.body.row.id);
  }

  /** `getUserComparisons`: 401 without a signed-in user, otherwise the
      user's comparisons, newest first, or the error `JSON.parse` throws on
      one of their payloads. */
  function GetMyComparisons(s: Store, user: Option<int>, parse: JsonParse): (r: Reply<seq<ComparisonRow>>)
    ensures r == Unauthorized() <==> user.None?
    ensures r.Ok? <==> user.Some? && GetUserComparisons(s, user.value, parse).Success?
    ensures user.Some? && !r.Ok? ==> r == Unhandled(JsonParseError)
    ensures r.Ok? ==> forall i, j :: 0 <= i < j < |r.body| ==> r.body[i].createdAt >= r.body[j].createdAt
  {
    if user.None? then Unauthorized()
    else match GetUserComparisons(s, user.value, parse)
      case Failure(e) => Unhandled(e)
      case Success(rows) =>
        DecodedKeepsOrder(UserComparisonRows(s, user.value), rows, parse);
        Ok(rows)
  }

  /** Decoding payloads keeps the `created_at` order. */
  lemma DecodedKeepsOrder(rows: seq<ComparisonRow>, out: seq<ComparisonRow>, parse: JsonParse)
    requires forall i, j :: 0 <= i < j < |rows| ==> rows[i].createdAt >= rows[j].createdAt
    requires |out| == |rows| && AllParse(rows, parse)
    requires forall k :: 0 <= k < |rows| ==> out[k] == Decoded(rows[k], parse)
    ensures forall i, j :: 0 <= i < j < |out| ==> out[i].createdAt >= out[j].createdAt
  {
    forall i, j | 0 <= i < j < |out|
      ensures out[i].createdAt >= out[j].createdAt
    {
      assert out[i].createdAt == rows[i].createdAt && out[j].createdAt == rows[j].createdAt;
    }
  }

  /** The signed-in user is answered exactly when `JSON.parse` accepts each of
      their stored payloads; otherwise the reply is the error it throws. */
  lemma MyComparisonsAnswered(s: Store, u: int, parse: JsonParse)
    ensures var r := GetMyComparisons(s, Some(u), parse);
      && (r.Ok? <==> forall i :: 0 <= i < |s.comparisons| && s.comparisons[i].userId == Some(u) ==> parse(s.comparisons[i].data).Some?)
      && (!r.Ok? ==> r == Unhandled(JsonParseError))
  {
    UserRowsAreMine(s, u);
    AllParseMine(s, u, UserComparisonRows(s, u), parse);
  }

  /** An answered user sees only their own comparisons, each a stored row
      decoded. */
  lemma MyComparisonsAreMine(s: Store, u: int, parse: JsonParse)
    requires GetMyComparisons(s, Some(u), parse).Ok?
    ensures var body := GetMyComparisons(s, Some(u), parse).body;
      forall k :: 0 <= k < |body| ==>
        body[k].userId == Some(u) &&
        exists i :: 0 <= i < |s.comparisons| && parse(s.comparisons[i].data).Some? && body[k] == Decoded(s.comparisons[i], parse)
  {
    var body := MyBody(s, u, parse);
    UserRowsAreMine(s, u);
    DecodedRowsAreMine(s, u, UserComparisonRows(s, u), body, parse);
  }

  /** An answered user sees every one of their stored comparisons, decoded. */
  lemma MyComparisonsAreAll(s: Store, u: int, parse: JsonParse)
    requires GetMyComparisons(s, Some(u), parse).Ok?
    ensures var body := GetMyComparisons(s, Some(u), parse).body;
      forall i :: 0 <= i < |s.comparisons| && s.comparisons[i].userId == Some(u) ==>
        parse(s.comparisons[i].data).Some? && Decoded(s.comparisons[i], parse) in body
  {
    var body := MyBody(s, u, parse);
    UserRowsAreMine(s, u);
    DecodedRowsAreMine(s, u, UserComparisonRows(s, u), body, parse);
  }

  /** The body of a successful reply, as the user's rows each decoded. */
  lemma MyBody(s: Store, u: int, parse: JsonParse) returns (body: seq<ComparisonRow>)
    requires GetMyComparisons(s, Some(u), parse).Ok?
    ensures body == GetMyComparisons(s, Some(u), parse).body
    ensures var xs := UserComparisonRows(s, u);
      && AllParse(xs, parse) && |body| == |xs|
      && forall k :: 0 <= k < |xs| ==> body[k] == Decoded(xs[k], parse)
  {
    var g := GetUserComparisons(s, u, parse);
    body := g.value;
  }

  /** `JSON.parse` accepts every listed payload exactly when it accepts every
      payload the user stored. */
  lemma AllParseMine(s: Store, u: int, xs: seq<ComparisonRow>, parse: JsonParse)
    requires forall k :: 0 <= k < |xs| ==> xs[k].userId == Some(u) && xs[k] in s.comparisons
    requires forall i :: 0 <= i < |s.comparisons| && s.comparisons[i].userId == Some(u) ==> s.comparisons[i] in xs
    ensures AllParse(xs, parse) <==>
              forall i :: 0 <= i < |s.comparisons| && s.comparisons[i].userId == Some(u) ==> parse(s.comparisons[i].data).Some?
  {
    if AllParse(xs, parse) {
      forall i | 0 <= i < |s.comparisons| && s.comparisons[i].userId == Some(u)
        ensures parse(s.comparisons[i].data).Some?
      {
        var k :| 0 <= k < |xs| && xs[k] == s.comparisons[i];
      }
    } else {
      var k :| 0 <= k < |xs| && parse(xs[k].data).None?;
      var i :| 0 <= i < |s.comparisons| && s.comparisons[i] == xs[k];
    }
  }

  /** Decoding the user's rows one by one keeps them theirs and misses none. */
  lemma DecodedRowsAreMine(s: Store, u: int, xs: seq<ComparisonRow>, out: seq<ComparisonRow>, parse: JsonParse)
    requires forall k :: 0 <= k < |xs| ==> xs[k].userId == Some(u) && xs[k] in s.comparisons
    requires forall i :: 0 <= i < |s.comparisons| && s.comparisons[i].userId == Some(u) ==> s.comparisons[i] in xs
    requires AllParse(xs, parse) && |out| == |xs|
    requires forall k :: 0 <= k < |xs| ==> out[k] == Decoded(xs[k], parse)
    ensures forall k :: 0 <= k < |out| ==>
              out[k].userId == Some(u) &&
              exists i :: 0 <= i < |s.comparisons| && parse(s.comparisons[i].data).Some? && out[k] == Decoded(s.comparisons[i], parse)
    ensures forall i :: 0 <= i < |s.comparisons| && s.comparisons[i].userId == Some(u) ==>
              parse(s.comparisons[i].data).Some? && Decoded(s.comparisons[i], parse) in out
  {
    forall k | 0 <= k < |out|
      ensures out[k].userId == Some(u)
      ensures exists i :: 0 <= i < |s.comparisons| && parse(s.comparisons[i].data).Some? && out[k] == Decoded(s.comparisons[i], parse)
    {
      var i :| 0 <= i < |s.comparisons| && s.comparisons[i] == xs[k];
    }
    forall i | 0 <= i < |s.comparisons| && s.comparisons[i].userId == Some(u)
      ensures parse(s.comparisons[i].data).Some? && Decoded(s.comparisons[i], parse) in out
    {
      var k :| 0 <= k < |xs| && xs[k] == s.comparisons[i];
      assert out[k] == Decoded(xs[k], parse);
    }
  }

  /** The listed rows are exactly the user's stored rows. */
  lemma UserRowsAreMine(s: Store, u: int)
    ensures var xs := UserComparisonRows(s, u);
      && (forall k :: 0 <= k < |xs| ==> xs[k].userId == Some(u) && xs[k] in s.comparisons)
      && (forall i :: 0 <= i < |s.comparisons| && s.comparisons[i].userId == Some(u) ==> s.comparisons[i] in xs)
  {
    var xs := UserComparisonRows(s, u);
    forall k | 0 <= k < |xs|
      ensures xs[k].userId == Some(u) && xs[k] in s.comparisons
    {
      assert multiset(xs)[xs[k]] > 0;
    }
    forall i | 0 <= i < |s.comparisons| && s.comparisons[i].userId == Some(u)
      ensures s.comparisons[i] in xs
    {
      assert multiset(s.comparisons)[s.comparisons[i]] > 0;
      assert multiset(xs)[s.comparisons[i]] > 0;
    }
  }
}
