/** The dynamic `WHERE` clause of the catalogue listing: which conditions the
    optional filters add, the `$k` placeholder each condition refers to, the
    `params` array those placeholders index, and what the finished clause
    selects. */
module VehicleQuery {
  import opened Common
  import opened Schema
  import Numbers

  /** The listing filters as they arrive from the query string. */
  datatype Filters = Filters(
    category: Option<string>,
    fuelType: Option<string>,
    transmission: Option<string>,
    minPrice: Option<string>,
    maxPrice: Option<string>,
    sortBy: Option<string>)

  /** The text columns compared for equality. */
  datatype TextColumn = CategoryColumn | FuelTypeColumn | TransmissionColumn

  /** A value bound to a placeholder: query-string text or a number. */
  datatype Param = TextParam(text: string) | IntParam(value: int)

  /** One conjunct of the clause; slots are 1-based placeholder numbers. */
  datatype Condition =
    | ColumnEquals(column: TextColumn, slot: nat)       // v.<column> = $slot
    | PriceBetween(low: nat, high: nat)                 // v.starting_price BETWEEN $low AND $high
    | ActiveOnly                                        // v.is_active = true

  /** The builder's state: `whereConditions`, `params` and `paramCount`. */
  datatype WhereBuilder = WhereBuilder(conditions: seq<Condition>, params: seq<Param>, paramCount: nat)

  /** The filter value for a text column. */
  function FilterValue(f: Filters, column: TextColumn): Option<string>
  {
    match column
    case CategoryColumn => f.category
    case FuelTypeColumn => f.fuelType
    case TransmissionColumn => f.transmission
  }

  /** A vehicle's value in a text column. */
  function ColumnValue(v: Vehicle, column: TextColumn): string
  {
    match column
    case CategoryColumn => v.category
    case FuelTypeColumn => v.fuelType
    case TransmissionColumn => v.transmission
  }

  /** The placeholders a condition mentions, left to right. */
  function ConditionSlots(c: Condition): seq<nat>
  {
    match c
    case ColumnEquals(_, k) => [k]
    case PriceBetween(lo, hi) => [lo, hi]
    case ActiveOnly => []
  }

  /** The placeholders of a clause, in the order they appear in its text. */
  function Slots(cs: seq<Condition>): seq<nat>
  {
    if |cs| == 0 then [] else Slots(cs[..|cs| - 1]) + ConditionSlots(cs[|cs| - 1])
  }

  /** The placeholder numbers `$1, ..., $n`, in order. */
  function Counting(n: nat): (r: seq<nat>)
    ensures |r| == n
  {
    if n == 0 then [] else Counting(n - 1) + [n]
  }

  /** The placeholder invariant of the builder: the clause mentions
      `$1, $2, ...` in order, once each, exactly as many as there are
      `params`, and `paramCount` is the next free number. */
  predicate Aligned(b: WhereBuilder)
  {
    && b.paramCount == |b.params| + 1
    && Slots(b.conditions) == Counting(|b.params|)
  }

  /** The placeholders of a clause grown by one condition. */
  lemma SlotsAppend(cs: seq<Condition>, c: Condition)
    ensures Slots(cs + [c]) == Slots(cs) + ConditionSlots(c)
  {
    assert (cs + [c])[..|cs|] == cs;
  }

  /** `r` only appends conditions and parameters to those of `b`. */
  predicate Extends(b: WhereBuilder, r: WhereBuilder)
  {
    && |b.conditions| <= |r.conditions| && r.conditions[..|b.conditions|] == b.conditions
    && |b.params| <= |r.params| && r.params[..|b.params|] == b.params
  }

  /** `if (value) { push(column = $paramCount++); params.push(value) }`. */
  function PushEquals(b: WhereBuilder, column: TextColumn, value: Option<string>): (r: WhereBuilder)
    ensures Extends(b, r)
  {
    if Truthy(value) then
      var c := ColumnEquals(column, b.paramCount);
      assert (b.conditions + [c])[..|b.conditions|] == b.conditions;
      WhereBuilder(b.conditions + [c], b.params + [TextParam(value.value)], b.paramCount + 1)
    else b
  }

  /** A column test takes the next free placeholder, so it keeps the
      alignment. */
  lemma PushEqualsAligned(b: WhereBuilder, column: TextColumn, value: Option<string>)
    requires Aligned(b)
    ensures Aligned(PushEquals(b, column, value))
  {
    if Truthy(value) {
      SlotsAppend(b.conditions, ColumnEquals(column, b.paramCount));
    }
  }

  /** The price bound is added only when both ends are truthy; it takes the
      next two placeholders. */
  function PushPrice(b: WhereBuilder, minPrice: Option<string>, maxPrice: Option<string>): (r: WhereBuilder)
    ensures Extends(b, r)
  {
    if Truthy(minPrice) && Truthy(maxPrice) then
      var c := PriceBetween(b.paramCount, b.paramCount + 1);
      assert (b.conditions + [c])[..|b.conditions|] == b.conditions;
      WhereBuilder(b.conditions + [c], b.params + [TextParam(minPrice.value), TextParam(maxPrice.value)], b.paramCount + 2)
    else b
  }

  /** The price test takes the next two free placeholders, so it keeps the
      alignment. */
  lemma PushPriceAligned(b: WhereBuilder, minPrice: Option<string>, maxPrice: Option<string>)
    requires Aligned(b)
    ensures Aligned(PushPrice(b, minPrice, maxPrice))
  {
    if Truthy(minPrice) && Truthy(maxPrice) {
      var n := |b.params|;
      SlotsAppend(b.conditions, PriceBetween(b.paramCount, b.paramCount + 1));
      assert Counting(n + 1) == Counting(n) + [n + 1];
      assert Counting(n + 2) == Counting(n) + [n + 1] + [n + 2];
    }
  }

  /** The clause `getAllVehicles` builds: the optional conditions in source
      order, then the fixed `v.is_active = true`. */
  function BuildWhere(f: Filters): (r: WhereBuilder)
    ensures Aligned(r)
    ensures |r.conditions| > 0 && r.conditions[|r.conditions| - 1] == ActiveOnly
  {
    var b0 := WhereBuilder([], [], 1);
    var b1 := PushEquals(b0, CategoryColumn, f.category);
    var b2 := PushEquals(b1, FuelTypeColumn, f.fuelType);
    var b3 := PushEquals(b2, TransmissionColumn, f.transmission);
    var b4 := PushPrice(b3, f.minPrice, f.maxPrice);
    PushEqualsAligned(b0, CategoryColumn, f.category);
    PushEqualsAligned(b1, FuelTypeColumn, f.fuelType);
    PushEqualsAligned(b2, TransmissionColumn, f.transmission);
    PushPriceAligned(b3, f.minPrice, f.maxPrice);
    AppendActiveAligned(b4);
    WhereBuilder(b4.conditions + [ActiveOnly], b4.params, b4.paramCount)
  }

  /** The closing `v.is_active = true` mentions no placeholder, so it keeps
      the alignment. */
  lemma AppendActiveAligned(b: WhereBuilder)
    requires Aligned(b)
    ensures Aligned(WhereBuilder(b.conditions + [ActiveOnly], b.params, b.paramCount))
  {
    SlotsAppend(b.conditions, ActiveOnly);
  }

  /** The text bound to placeholder `$k`, if `$k` is bound to text. */
  function BoundText(params: seq<Param>, k: nat): Option<string>
  {
    if 1 <= k <= |params| && params[k - 1].TextParam? then Some(params[k - 1].text) else None
  }

  /** The `numeric` value Postgres reads from placeholder `$k`. */
  function BoundNumber(params: seq<Param>, k: nat): Option<Numbers.Numeric>
  {
    match BoundText(params, k)
    case None => None
    case Some(t) => Numbers.ParseNumeric(t)
  }

  /** `price BETWEEN lo AND hi` in `numeric`'s order: inclusive on both
      ends; a NULL price or an unreadable bound never matches. */
  predicate PriceWithin(price: Option<int>, lo: Option<Numbers.Numeric>, hi: Option<Numbers.Numeric>)
  {
    && price.Some? && lo.Some? && hi.Some?
    && Numbers.NumericLe(lo.value, Numbers.Finite(price.value as real))
    && Numbers.NumericLe(Numbers.Finite(price.value as real), hi.value)
  }

  /** What the range test means for each kind of bound: finite bounds
      enclose the price as numbers; a `NaN` or `Infinity` lower bound or a
      `-Infinity` upper bound admits no price; `-Infinity` up to `Infinity`
      or `NaN` admits every price. */
  lemma PriceWithinBounds(p: int, lo: Numbers.Numeric, hi: Numbers.Numeric)
    ensures lo.Finite? && hi.Finite? ==>
              (PriceWithin(Some(p), Some(lo), Some(hi)) <==> lo.value <= p as real <= hi.value)
    ensures lo == Numbers.NaN || lo == Numbers.PlusInfinity || hi == Numbers.MinusInfinity ==>
              !PriceWithin(Some(p), Some(lo), Some(hi))
    ensures lo == Numbers.MinusInfinity && (hi == Numbers.PlusInfinity || hi == Numbers.NaN) ==>
              PriceWithin(Some(p), Some(lo), Some(hi))
    ensures !PriceWithin(None, Some(lo), Some(hi))
  {
  }

  /** Whether a vehicle satisfies one condition under the bound parameters. */
  predicate Holds(c: Condition, params: seq<Param>, v: Vehicle)
  {
    match c
    case ColumnEquals(col, k) => BoundText(params, k) == Some(ColumnValue(v, col))
    case PriceBetween(lo, hi) => PriceWithin(v.startingPrice, BoundNumber(params, lo), BoundNumber(params, hi))
    case ActiveOnly => v.isActive
  }

  /** Whether a vehicle satisfies every condition of the clause. */
  predicate Selects(b: WhereBuilder, v: Vehicle)
  {
    forall i :: 0 <= i < |b.conditions| ==> Holds(b.conditions[i], b.params, v)
  }

  /** Postgres can read every price bound the clause binds; otherwise the
      statement fails before returning any row. */
  predicate BoundsReadable(b: WhereBuilder)
  {
    forall i :: 0 <= i < |b.conditions| && b.conditions[i].PriceBetween? ==>
      BoundNumber(b.params, b.conditions[i].low).Some? && BoundNumber(b.params, b.conditions[i].high).Some?
  }

  /** Both price bounds are given (truthy). */
  predicate PriceFilterOn(f: Filters)
  {
    Truthy(f.minPrice) && Truthy(f.maxPrice)
  }

  /** The filters' own meaning, written without placeholders: an active
      vehicle equal to every truthy text criterion and, when both price
      bounds are given, priced inclusively between them. */
  predicate MatchesCriteria(f: Filters, v: Vehicle)
  {
    && v.isActive
    && (Truthy(f.category) ==> v.category == f.category.value)
    && (Truthy(f.fuelType) ==> v.fuelType == f.fuelType.value)
    && (Truthy(f.transmission) ==> v.transmission == f.transmission.value)
    && (PriceFilterOn(f) ==>
          PriceWithin(v.startingPrice, Numbers.ParseNumeric(f.minPrice.value), Numbers.ParseNumeric(f.maxPrice.value)))
  }

  /** What a condition of the clause must be bound to for filters `f`: a
      column test carries the (truthy) filter value of its column, the price
      test carries the two bounds as given. The binding puts every slot in
      range. */
  predicate ConditionBound(c: Condition, params: seq<Param>, f: Filters)
  {
    match c
    case ColumnEquals(col, k) => Truthy(FilterValue(f, col)) && BoundText(params, k) == FilterValue(f, col)
    case PriceBetween(lo, hi) => PriceFilterOn(f) && BoundText(params, lo) == f.minPrice && BoundText(params, hi) == f.maxPrice
    case ActiveOnly => true
  }

  /** Every condition of `b` is bound to the filter values it tests. */
  predicate BoundTo(b: WhereBuilder, f: Filters)
  {
    forall i :: 0 <= i < |b.conditions| ==> ConditionBound(b.conditions[i], b.params, f)
  }

  /** `b` tests the column `col`. */
  predicate HasColumnCondition(b: WhereBuilder, col: TextColumn)
  {
    exists i :: 0 <= i < |b.conditions| && b.conditions[i].ColumnEquals? && b.conditions[i].column == col
  }

  /** `b` tests the price range. */
  predicate HasPriceCondition(b: WhereBuilder)
  {
    exists i :: 0 <= i < |b.conditions| && b.conditions[i].PriceBetween?
  }

  /** Binding more parameters leaves the earlier placeholders' values alone. */
  lemma BoundTextExtends(params: seq<Param>, more: seq<Param>, k: nat)
    requires BoundText(params, k).Some?
    ensures BoundText(params + more, k) == BoundText(params, k)
  {
  }

  /** Appending conditions and parameters keeps the earlier conditions bound. */
  lemma ExtendKeepsBound(b: WhereBuilder, r: WhereBuilder, f: Filters)
    requires BoundTo(b, f) && Extends(b, r)
    ensures forall i :: 0 <= i < |b.conditions| ==> ConditionBound(r.conditions[i], r.params, f)
  {
    var more := r.params[|b.params|..];
    assert r.params == b.params + more;
    forall i | 0 <= i < |b.conditions|
      ensures ConditionBound(r.conditions[i], r.params, f)
    {
      assert r.conditions[i] == b.conditions[i];
      match b.conditions[i]
      case ColumnEquals(col, k) =>
        BoundTextExtends(b.params, more, k);
      case PriceBetween(lo, hi) =>
        BoundTextExtends(b.params, more, lo);
        BoundTextExtends(b.params, more, hi);
      case ActiveOnly =>
    }
  }

  /** Appending one condition that is itself bound keeps the clause bound. */
  lemma AppendBound(b: WhereBuilder, r: WhereBuilder, f: Filters)
    requires BoundTo(b, f) && Extends(b, r)
    requires |r.conditions| == |b.conditions| + 1
    requires ConditionBound(r.conditions[|b.conditions|], r.params, f)
    ensures BoundTo(r, f)
  {
    ExtendKeepsBound(b, r, f);
  }

  /** A column step keeps the clause bound to `f`. */
  lemma PushEqualsBound(b: WhereBuilder, f: Filters, col: TextColumn)
    requires Aligned(b) && BoundTo(b, f)
    ensures BoundTo(PushEquals(b, col, FilterValue(f, col)), f)
  {
    var v := FilterValue(f, col);
    var r := PushEquals(b, col, v);
    if Truthy(v) {
      var n := |b.params|;
      assert r.params == b.params + [TextParam(v.value)];
      assert r.params[n] == TextParam(v.value);
      assert r.conditions[|b.conditions|] == ColumnEquals(col, n + 1);
      assert BoundText(r.params, n + 1) == v;
      AppendBound(b, r, f);
    }
  }

  /** The price step keeps the clause bound to `f`. */
  lemma PushPriceBound(b: WhereBuilder, f: Filters)
    requires Aligned(b) && BoundTo(b, f)
    ensures BoundTo(PushPrice(b, f.minPrice, f.maxPrice), f)
  {
    var r := PushPrice(b, f.minPrice, f.maxPrice);
    if PriceFilterOn(f) {
      var n := |b.params|;
      assert r.params == b.params + [TextParam(f.minPrice.value), TextParam(f.maxPrice.value)];
      assert r.params[n] == TextParam(f.minPrice.value) && r.params[n + 1] == TextParam(f.maxPrice.value);
      assert r.conditions[|b.conditions|] == PriceBetween(n + 1, n + 2);
      assert BoundText(r.params, n + 1) == f.minPrice;
      assert BoundText(r.params, n + 2) == f.maxPrice;
      AppendBound(b, r, f);
    }
  }

  /** The built clause extends each builder step before it. */
  lemma BuildWhereSteps(f: Filters)
    ensures var b0 := WhereBuilder([], [], 1);
      var b1 := PushEquals(b0, CategoryColumn, f.category);
      var b2 := PushEquals(b1, FuelTypeColumn, f.fuelType);
      var b3 := PushEquals(b2, TransmissionColumn, f.transmission);
      var b4 := PushPrice(b3, f.minPrice, f.maxPrice);
      var b := BuildWhere(f);
      && b == WhereBuilder(b4.conditions + [ActiveOnly], b4.params, b4.paramCount)
      && Extends(b1, b) && Extends(b2, b) && Extends(b3, b) && Extends(b4, b)
  {
    var b0 := WhereBuilder([], [], 1);
    var b1 := PushEquals(b0, CategoryColumn, f.category);
    var b2 := PushEquals(b1, FuelTypeColumn, f.fuelType);
    var b3 := PushEquals(b2, TransmissionColumn, f.transmission);
    var b4 := PushPrice(b3, f.minPrice, f.maxPrice);
    var b := BuildWhere(f);
    assert b.conditions[..|b4.conditions|] == b4.conditions;
    ExtendsTrans(b3, b4, b);
    ExtendsTrans(b2, b3, b);
    ExtendsTrans(b1, b2, b);
  }

  /** Appending is transitive. */
  lemma ExtendsTrans(a: WhereBuilder, b: WhereBuilder, c: WhereBuilder)
    requires Extends(a, b) && Extends(b, c)
    ensures Extends(a, c)
  {
    assert c.conditions[..|a.conditions|] == c.conditions[..|b.conditions|][..|a.conditions|];
    assert c.params[..|a.params|] == c.params[..|b.params|][..|a.params|];
  }

  /** Every condition of the built clause carries the filter value it tests:
      `$k` is bound to exactly the text the condition compares against. */
  lemma BuildWhereBound(f: Filters)
    ensures BoundTo(BuildWhere(f), f)
  {
    var b4 := OptionalConditionsBound(f);
    var b := BuildWhere(f);
    BuildWhereSteps(f);
    ExtendKeepsBound(b4, b, f);
    assert ConditionBound(b.conditions[|b4.conditions|], b.params, f);
  }

  /** The optional conditions, before `v.is_active = true` is appended, are
      bound to the filters. */
  lemma OptionalConditionsBound(f: Filters) returns (b4: WhereBuilder)
    ensures b4 == PushPrice(PushEquals(PushEquals(PushEquals(WhereBuilder([], [], 1),
      CategoryColumn, f.category), FuelTypeColumn, f.fuelType), TransmissionColumn, f.transmission), f.minPrice, f.maxPrice)
    ensures BoundTo(b4, f)
  {
    var b0 := WhereBuilder([], [], 1);
    var b1 := PushEquals(b0, CategoryColumn, f.category);
    var b2 := PushEquals(b1, FuelTypeColumn, f.fuelType);
    var b3 := PushEquals(b2, TransmissionColumn, f.transmission);
    b4 := PushPrice(b3, f.minPrice, f.maxPrice);
    PushEqualsAligned(b0, CategoryColumn, f.category);
    PushEqualsAligned(b1, FuelTypeColumn, f.fuelType);
    PushEqualsAligned(b2, TransmissionColumn, f.transmission);
    PushEqualsBound(b0, f, CategoryColumn);
    PushEqualsBound(b1, f, FuelTypeColumn);
    PushEqualsBound(b2, f, TransmissionColumn);
    PushPriceBound(b3, f);
  }

  /** A truthy value gets its column test. */
  lemma PushEqualsTests(b: WhereBuilder, col: TextColumn, v: Option<string>)
    requires Truthy(v)
    ensures HasColumnCondition(PushEquals(b, col, v), col)
  {
    assert PushEquals(b, col, v).conditions[|b.conditions|].column == col;
  }

  /** Both truthy bounds get the price test. */
  lemma PushPriceTests(b: WhereBuilder, f: Filters)
    requires PriceFilterOn(f)
    ensures HasPriceCondition(PushPrice(b, f.minPrice, f.maxPrice))
  {
    assert PushPrice(b, f.minPrice, f.maxPrice).conditions[|b.conditions|].PriceBetween?;
  }

  /** Appending keeps an existing column test. */
  lemma ExtendKeepsColumn(b: WhereBuilder, r: WhereBuilder, col: TextColumn)
    requires Extends(b, r) && HasColumnCondition(b, col)
    ensures HasColumnCondition(r, col)
  {
    var i :| 0 <= i < |b.conditions| && b.conditions[i].ColumnEquals? && b.conditions[i].column == col;
    assert r.conditions[i] == b.conditions[i];
  }

  /** Appending keeps an existing price test. */
  lemma ExtendKeepsPrice(b: WhereBuilder, r: WhereBuilder)
    requires Extends(b, r) && HasPriceCondition(b)
    ensures HasPriceCondition(r)
  {
    var i :| 0 <= i < |b.conditions| && b.conditions[i].PriceBetween?;
    assert r.conditions[i] == b.conditions[i];
  }

  /** A truthy text criterion gets its condition in the built clause. */
  lemma BuildWhereTestsColumn(f: Filters, col: TextColumn)
    requires Truthy(FilterValue(f, col))
    ensures HasColumnCondition(BuildWhere(f), col)
  {
    var b0 := WhereBuilder([], [], 1);
    var b1 := PushEquals(b0, CategoryColumn, f.category);
    var b2 := PushEquals(b1, FuelTypeColumn, f.fuelType);
    BuildWhereSteps(f);
    match col
    case CategoryColumn =>
      PushEqualsTests(b0, CategoryColumn, f.category);
      ExtendKeepsColumn(b1, BuildWhere(f), CategoryColumn);
    case FuelTypeColumn =>
      PushEqualsTests(b1, FuelTypeColumn, f.fuelType);
      ExtendKeepsColumn(PushEquals(b1, FuelTypeColumn, f.fuelType), BuildWhere(f), FuelTypeColumn);
    case TransmissionColumn =>
      PushEqualsTests(b2, TransmissionColumn, f.transmission);
      ExtendKeepsColumn(PushEquals(b2, TransmissionColumn, f.transmission), BuildWhere(f), TransmissionColumn);
  }

  /** Every truthy criterion gets its condition in the built clause. */
  lemma BuildWhereCovers(f: Filters)
    ensures forall col :: Truthy(FilterValue(f, col)) ==> HasColumnCondition(BuildWhere(f), col)
    ensures PriceFilterOn(f) ==> HasPriceCondition(BuildWhere(f))
  {
    forall col | Truthy(FilterValue(f, col))
      ensures HasColumnCondition(BuildWhere(f), col)
    {
      BuildWhereTestsColumn(f, col);
    }
    if PriceFilterOn(f) {
      var b0 := WhereBuilder([], [], 1);
      var b1 := PushEquals(b0, CategoryColumn, f.category);
      var b2 := PushEquals(b1, FuelTypeColumn, f.fuelType);
      var b3 := PushEquals(b2, TransmissionColumn, f.transmission);
      BuildWhereSteps(f);
      PushPriceTests(b3, f);
      ExtendKeepsPrice(PushPrice(b3, f.minPrice, f.maxPrice), BuildWhere(f));
    }
  }

  /** The price bounds, when both are given, are numbers Postgres reads. */
  predicate PriceBoundsReadable(f: Filters)
  {
    PriceFilterOn(f) ==>
      Numbers.ParseNumeric(f.minPrice.value).Some? && Numbers.ParseNumeric(f.maxPrice.value).Some?
  }

  /** A bound condition holds for every vehicle meeting the criteria. */
  lemma BoundConditionHolds(c: Condition, params: seq<Param>, f: Filters, v: Vehicle)
    requires ConditionBound(c, params, f) && MatchesCriteria(f, v)
    ensures Holds(c, params, v)
  {
    match c
    case ColumnEquals(col, k) =>
      match col {
        case CategoryColumn =>
        case FuelTypeColumn =>
        case TransmissionColumn =>
      }
    case PriceBetween(lo, hi) =>
    case ActiveOnly =>
  }

  /** A vehicle passing a bound column test has the filter's value there. */
  lemma ColumnConditionMeans(c: Condition, params: seq<Param>, f: Filters, v: Vehicle)
    requires c.ColumnEquals? && ConditionBound(c, params, f) && Holds(c, params, v)
    ensures Some(ColumnValue(v, c.column)) == FilterValue(f, c.column)
  {
  }

  /** A clause bound to `f` selects every vehicle meeting the criteria. */
  lemma BoundClauseSelects(b: WhereBuilder, f: Filters, v: Vehicle)
    requires BoundTo(b, f) && MatchesCriteria(f, v)
    ensures Selects(b, v)
  {
    forall i | 0 <= i < |b.conditions|
      ensures Holds(b.conditions[i], b.params, v)
    {
      BoundConditionHolds(b.conditions[i], b.params, f, v);
    }
  }

  /** A clause bound to `f` that tests every truthy criterion and ends in the
      active test selects only vehicles meeting the criteria. */
  lemma CoveringClauseMeetsCriteria(b: WhereBuilder, f: Filters, v: Vehicle)
    requires BoundTo(b, f) && Selects(b, v)
    requires |b.conditions| > 0 && b.conditions[|b.conditions| - 1] == ActiveOnly
    requires forall col :: Truthy(FilterValue(f, col)) ==> HasColumnCondition(b, col)
    requires PriceFilterOn(f) ==> HasPriceCondition(b)
    ensures MatchesCriteria(f, v)
  {
    assert Holds(b.conditions[|b.conditions| - 1], b.params, v);
    forall col | Truthy(FilterValue(f, col))
      ensures Some(ColumnValue(v, col)) == FilterValue(f, col)
    {
      var i :| 0 <= i < |b.conditions| && b.conditions[i].ColumnEquals? && b.conditions[i].column == col;
      ColumnConditionMeans(b.conditions[i], b.params, f, v);
    }
    assert Truthy(f.category) ==> Some(ColumnValue(v, CategoryColumn)) == f.category;
    assert Truthy(f.fuelType) ==> Some(ColumnValue(v, FuelTypeColumn)) == f.fuelType;
    assert Truthy(f.transmission) ==> Some(ColumnValue(v, TransmissionColumn)) == f.transmission;
    if PriceFilterOn(f) {
      var i :| 0 <= i < |b.conditions| && b.conditions[i].PriceBetween?;
      assert Holds(b.conditions[i], b.params, v);
      assert ConditionBound(b.conditions[i], b.params, f);
    }
  }

  /** The built clause selects exactly the vehicles the filters describe:
      the placeholders carry the filter values to the right columns, and no
      criterion is dropped or added. */
  lemma WhereMeansCriteria(f: Filters, v: Vehicle)
    ensures Selects(BuildWhere(f), v) <==> MatchesCriteria(f, v)
  {
    BuildWhereBound(f);
    BuildWhereCovers(f);
    if MatchesCriteria(f, v) {
      BoundClauseSelects(BuildWhere(f), f, v);
    }
    if Selects(BuildWhere(f), v) {
      CoveringClauseMeetsCriteria(BuildWhere(f), f, v);
    }
  }

  /** The statement fails on its price bounds exactly when a bound that is
      given cannot be read as a number. */
  lemma ReadableMeansParsable(f: Filters)
    ensures BoundsReadable(BuildWhere(f)) <==> PriceBoundsReadable(f)
  {
    BuildWhereBound(f);
    BuildWhereCovers(f);
    BoundClauseReadable(BuildWhere(f), f);
  }

  /** A clause bound to `f` that has the price test whenever both bounds are
      given can read its bounds exactly when they are numbers. */
  lemma BoundClauseReadable(b: WhereBuilder, f: Filters)
    requires BoundTo(b, f)
    requires PriceFilterOn(f) ==> HasPriceCondition(b)
    ensures BoundsReadable(b) <==> PriceBoundsReadable(f)
  {
    if PriceFilterOn(f) {
      var i :| 0 <= i < |b.conditions| && b.conditions[i].PriceBetween?;
      assert ConditionBound(b.conditions[i], b.params, f);
    }
  }

  /** The `ORDER BY` choices of the listing. */
  datatype SortOrder = IdDesc | PriceAsc | PriceDesc | RatingDesc

  /** `sortBy` picks the order; any other value, or none, keeps `v.id DESC`. */
  function ChooseOrder(sortBy: Option<string>): (r: SortOrder)
    ensures r == PriceAsc <==> sortBy == Some("price_low")
    ensures r == PriceDesc <==> sortBy == Some("price_high")
    ensures r == RatingDesc <==> sortBy == Some("rating")
    ensures r == IdDesc <==> sortBy != Some("price_low") && sortBy != Some("price_high") && sortBy != Some("rating")
  {
    var order := IdDesc;
    var order := if sortBy == Some("price_low") then PriceAsc else order;
    var order := if sortBy == Some("price_high") then PriceDesc else order;
    if sortBy == Some("rating") then RatingDesc else order
  }

  /** The listing statement: its `WHERE` clause, its order, the placeholders
      of `LIMIT $n OFFSET $m`, and the argument array
      `[...params, limit, offset]`. */
  datatype ListingQuery = ListingQuery(
    where: WhereBuilder,
    order: SortOrder,
    limitSlot: nat,
    offsetSlot: nat,
    args: seq<Param>)

  /** The listing statement `getAllVehicles` issues: `LIMIT` and `OFFSET` take
      the two placeholders after the clause's, and the argument array binds
      them to `limit` and `(page - 1) * limit` after the clause's own values. */
  function BuildListing(f: Filters, page: int, limit: int): (q: ListingQuery)
    ensures q.where == BuildWhere(f) && q.order == ChooseOrder(f.sortBy)
    ensures q.limitSlot == |q.where.params| + 1 && q.offsetSlot == |q.where.params| + 2
    ensures |q.args| == q.offsetSlot && q.args[..|q.where.params|] == q.where.params
    ensures q.args[q.limitSlot - 1] == IntParam(limit)
    ensures q.args[q.offsetSlot - 1] == IntParam((page - 1) * limit)
  {
    var w := BuildWhere(f);
    var offset := (page - 1) * limit;
    ListingQuery(w, ChooseOrder(f.sortBy), w.paramCount, w.paramCount + 1, w.params + [IntParam(limit), IntParam(offset)])
  }
}

