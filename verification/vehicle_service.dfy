/** The catalogue queries: the filtered, ordered, paginated listing; lookup by
    slug or id; a vehicle's variants; the view counter; similar vehicles; and
    the capped case-insensitive search. */
module VehicleService {
  import opened Common
  import opened Schema
  import opened Sorting
  import Paging
  import opened VehicleQuery
  import Text

  /** The listing response `{ data, total, page, pages }`. `pages` is `None`
      for a zero limit, where `Math.ceil(total / 0)` is not a finite number. */
  datatype Listing = Listing(data: seq<VehicleRow>, total: nat, page: int, pages: Option<nat>)

  /** The row's brand is the one its `brand_id` names. */
  predicate BrandNamed(s: Store, row: VehicleRow)
  {
    FindBrand(s.brands, row.vehicle.brandId).Some? && FindBrand(s.brands, row.vehicle.brandId).value.name == row.brandName
  }

  /** Ascending prices with NULL after every price (Postgres puts NULL last
      in ascending order and first in descending order). */
  predicate PriceNullsLastLe(a: Option<int>, b: Option<int>)
  {
    b.None? || (a.Some? && a.value <= b.value)
  }

  /** `a` may be listed before `b` under the chosen order. */
  predicate Precedes(order: SortOrder, a: Vehicle, b: Vehicle)
  {
    match order
    case IdDesc => a.id >= b.id
    case PriceAsc => PriceNullsLastLe(a.startingPrice, b.startingPrice)
    case PriceDesc => PriceNullsLastLe(b.startingPrice, a.startingPrice)
    case RatingDesc => a.averageRating >= b.averageRating
  }

  /** Sort key of `v.starting_price ASC`. */
  function PriceAscKey(p: Option<int>): Key
  {
    if p.None? then Key(1.0, 0.0) else Key(0.0, p.value as real)
  }

  /** Sort key of `v.starting_price DESC`. */
  function PriceDescKey(p: Option<int>): Key
  {
    if p.None? then Key(-1.0, 0.0) else Key(0.0, -(p.value as real))
  }

  /** The sort key of each `ORDER BY` choice. */
  function OrderKey(order: SortOrder): VehicleRow -> Key
  {
    match order
    case IdDesc => (r: VehicleRow) => Key(-(r.vehicle.id as real), 0.0)
    case PriceAsc => (r: VehicleRow) => PriceAscKey(r.vehicle.startingPrice)
    case PriceDesc => (r: VehicleRow) => PriceDescKey(r.vehicle.startingPrice)
    case RatingDesc => (r: VehicleRow) => Key(-r.vehicle.averageRating, 0.0)
  }

  /** Each sort key orders rows exactly as its `ORDER BY` clause does. */
  lemma OrderKeyMeansPrecedes(order: SortOrder, a: VehicleRow, b: VehicleRow)
    ensures KeyLe(OrderKey(order)(a), OrderKey(order)(b)) <==> Precedes(order, a.vehicle, b.vehicle)
  {
  }

  /** The vehicles the filters describe, in table order. */
  function Matches(s: Store, f: Filters): seq<Vehicle>
  {
    Filter(s.vehicles, (v: Vehicle) => MatchesCriteria(f, v))
  }

  /** Every matching vehicle with its brand name, in listing order. */
  function Listed(s: Store, f: Filters): seq<VehicleRow>
  {
    SortBy(JoinBrands(Matches(s, f), s.brands), OrderKey(ChooseOrder(f.sortBy)))
  }

  /** What the listing is made of: rows of matching vehicles carrying their
      brand's name, each allowed to come before every later one under the
      chosen order, and no row gained or lost by sorting. */
  lemma ListedOrderAndContents(s: Store, f: Filters)
    ensures var xs := Listed(s, f);
      forall i, j :: 0 <= i < j < |xs| ==> Precedes(ChooseOrder(f.sortBy), xs[i].vehicle, xs[j].vehicle)
    ensures var xs := Listed(s, f);
      forall k :: 0 <= k < |xs| ==>
        xs[k].vehicle in s.vehicles && MatchesCriteria(f, xs[k].vehicle) && BrandNamed(s, xs[k])
    ensures multiset(Listed(s, f)) == multiset(JoinBrands(Matches(s, f), s.brands))
  {
    var order := ChooseOrder(f.sortBy);
    var xs := Listed(s, f);
    var joined := JoinBrands(Matches(s, f), s.brands);
    forall i, j | 0 <= i < j < |xs|
      ensures Precedes(order, xs[i].vehicle, xs[j].vehicle)
    {
      OrderKeyMeansPrecedes(order, xs[i], xs[j]);
    }
    forall k | 0 <= k < |xs|
      ensures xs[k].vehicle in s.vehicles && MatchesCriteria(f, xs[k].vehicle) && BrandNamed(s, xs[k])
    {
      assert xs[k] in multiset(joined);
      var m :| 0 <= m < |joined| && joined[m] == xs[k];
      var v := joined[m].vehicle;
      var n :| 0 <= n < |Matches(s, f)| && Matches(s, f)[n] == v;
    }
  }

  /** The clause the code builds selects the same vehicles as the filters'
      meaning. */
  lemma SelectionIsMatches(s: Store, f: Filters)
    ensures Filter(s.vehicles, (v: Vehicle) => Selects(BuildWhere(f), v)) == Matches(s, f)
  {
    forall i | 0 <= i < |s.vehicles|
      ensures Selects(BuildWhere(f), s.vehicles[i]) == MatchesCriteria(f, s.vehicles[i])
    {
      WhereMeansCriteria(f, s.vehicles[i]);
    }
    FilterCongruent(s.vehicles, (v: Vehicle) => Selects(BuildWhere(f), v), (v: Vehicle) => MatchesCriteria(f, v));
  }

  /** `getAllVehicles(filters, page, limit)`: the count statement, then the
      listing statement with `LIMIT`/`OFFSET` read from their placeholders.
      An unreadable price bound fails the count first; a negative offset or
      limit fails the listing. */
  function GetAllVehicles(s: Store, f: Filters, page: int, limit: int): (r: Result<Listing, DbError>)
    ensures r == Failure(InvalidNumber) <==> !PriceBoundsReadable(f)
    ensures PriceBoundsReadable(f) ==> (r == Failure(NegativeOffset) <==> Paging.Offset(page, limit) < 0)
    ensures PriceBoundsReadable(f) && Paging.Offset(page, limit) >= 0 ==> (r == Failure(NegativeLimit) <==> limit < 0)
    ensures r.Success? ==>
      && r.value.total == |Matches(s, f)|
      && r.value.data == Paging.Window(Listed(s, f), Paging.Offset(page, limit), limit)
      && r.value.page == page
      && r.value.pages == Paging.PageCount(r.value.total, limit)
  {
    var q := BuildListing(f, page, limit);
    ReadableMeansParsable(f);
    if !BoundsReadable(q.where) then Failure(InvalidNumber)
    else
      var selected := Filter(s.vehicles, (v: Vehicle) => Selects(q.where, v));
      SelectionIsMatches(s, f);
      var total := |selected|;
      var ordered := SortBy(JoinBrands(selected, s.brands), OrderKey(q.order));
      var limitArg := q.args[q.limitSlot - 1].value;
      var offsetArg := q.args[q.offsetSlot - 1].value;
      match Paging.LimitOffset(ordered, limitArg, offsetArg)
      case Failure(e) => Failure(if e.NegativeOffset? then NegativeOffset else NegativeLimit)
      case Success(rows) => Success(Listing(rows, total, page, Paging.PageCount(total, limitArg)))
  }

  /** A decimal price bound is a number to Postgres: asking for prices from
      `1.5` to `10` lists vehicles instead of failing, and an active vehicle
      priced 2 is among the matches. */
  lemma DecimalBoundsAccepted(s: Store, page: int, limit: int, v: Vehicle)
    ensures var f := Filters(None, None, None, Some("1.5"), Some("10"), None);
      && GetAllVehicles(s, f, page, limit) != Failure(InvalidNumber)
      && (v.isActive && v.startingPrice == Some(2) ==> MatchesCriteria(f, v))
  {
    Numbers.PointExample();
    Numbers.TenExample();
  }

  /** In a well-formed store every matching vehicle reaches the listing: the
      count and the joined rows agree. */
  lemma ListedCountsMatches(s: Store, f: Filters)
    requires VehiclesWellFormed(s)
    ensures |Listed(s, f)| == |Matches(s, f)|
  {
    var ms := Matches(s, f);
    VehicleBrandsResolve(s, ms);
    JoinKeepsEveryVehicle(ms, s.brands);
  }

  /** One request for page `p` of a positive limit, when every vehicle's
      brand exists: the `p`-th page of the listing the model orders, empty
      past the last page, and `pages` is the number of pages. Which of the
      rows tied under the sort fall on the page is the model's choice. */
  lemma ListingPageOfListed(s: Store, f: Filters, page: int, limit: int)
    requires VehiclesWellFormed(s) && PriceBoundsReadable(f)
    requires limit > 0 && page >= 1
    ensures GetAllVehicles(s, f, page, limit).Success?
    ensures GetAllVehicles(s, f, page, limit).value.pages == Some(|Paging.Pages(Listed(s, f), limit)|)
    ensures page <= |Paging.Pages(Listed(s, f), limit)| ==>
              GetAllVehicles(s, f, page, limit).value.data == Paging.Pages(Listed(s, f), limit)[page - 1]
    ensures page > |Paging.Pages(Listed(s, f), limit)| ==> GetAllVehicles(s, f, page, limit).value.data == []
  {
    var xs := Listed(s, f);
    Paging.WindowIsPage(xs, limit, page);
    var r := GetAllVehicles(s, f, page, limit);
    assert r.Success?;
    assert r.value.data == Paging.Window(xs, Paging.Offset(page, limit), limit);
    ListedCountsMatches(s, f);
    Paging.PagesCount(xs, limit);
    assert r.value.pages == Some(Paging.CeilDiv(|xs|, limit));
  }

  /** Under `v.id DESC`, walking pages 1, 2, ... of a positive limit reads
      the matches page by page whatever order Postgres settles on: for any
      arrangement `xs` of the matching rows in descending id, request `p`
      answers the `p`-th page of `xs` (empty past the last), and `pages` is
      their number. By `Paging.PagesPartition` the pages hold every match
      once. */
  lemma ListingWalksPages(s: Store, f: Filters, xs: seq<VehicleRow>, page: int, limit: int)
    requires VehiclesWellFormed(s) && PriceBoundsReadable(f) && ChooseOrder(f.sortBy) == IdDesc
    requires multiset(xs) == multiset(JoinBrands(Matches(s, f), s.brands))
    requires forall i, j :: 0 <= i < j < |xs| ==> xs[i].vehicle.id >= xs[j].vehicle.id
    requires limit > 0 && page >= 1
    ensures GetAllVehicles(s, f, page, limit).Success?
    ensures GetAllVehicles(s, f, page, limit).value.pages == Some(|Paging.Pages(xs, limit)|)
    ensures page <= |Paging.Pages(xs, limit)| ==> GetAllVehicles(s, f, page, limit).value.data == Paging.Pages(xs, limit)[page - 1]
    ensures page > |Paging.Pages(xs, limit)| ==> GetAllVehicles(s, f, page, limit).value.data == []
  {
    IdOrderDetermined(s, f, xs);
    ListingPageOfListed(s, f, page, limit);
  }

  /** Two listed rows with the same id, vehicles being well-formed, are the same
      row. */
  lemma ListedIdsDistinct(s: Store, f: Filters, x: VehicleRow, y: VehicleRow)
    requires VehiclesWellFormed(s)
    requires x in JoinBrands(Matches(s, f), s.brands) && y in JoinBrands(Matches(s, f), s.brands)
    requires x.vehicle.id == y.vehicle.id
    ensures x == y
  {
    var joined := JoinBrands(Matches(s, f), s.brands);
    var a :| 0 <= a < |joined| && joined[a] == x;
    var b :| 0 <= b < |joined| && joined[b] == y;
    var i :| 0 <= i < |s.vehicles| && s.vehicles[i] == x.vehicle;
    var j :| 0 <= j < |s.vehicles| && s.vehicles[j] == y.vehicle;
    assert i == j;
  }

  /** Under the default `v.id DESC` the listing is fully determined: any
      arrangement of the matching rows in descending id order is the one the
      model produces, so the pages partition the matches whatever order the
      store keeps its rows in. */
  lemma IdOrderDetermined(s: Store, f: Filters, xs: seq<VehicleRow>)
    requires VehiclesWellFormed(s) && ChooseOrder(f.sortBy) == IdDesc
    requires multiset(xs) == multiset(JoinBrands(Matches(s, f), s.brands))
    requires forall i, j :: 0 <= i < j < |xs| ==> xs[i].vehicle.id >= xs[j].vehicle.id
    ensures xs == Listed(s, f)
  {
    ListedOrderAndContents(s, f);
    IdDescSorted(xs);
    IdKeyInjective(s, f, xs);
    SortedPermutationUnique(xs, Listed(s, f), OrderKey(IdDesc));
  }

  /** Descending ids are ascending `v.id DESC` keys. */
  lemma IdDescSorted(xs: seq<VehicleRow>)
    requires forall i, j :: 0 <= i < j < |xs| ==> xs[i].vehicle.id >= xs[j].vehicle.id
    ensures SortedBy(xs, OrderKey(IdDesc))
  {
    forall i, j | 0 <= i < j < |xs|
      ensures KeyLe(OrderKey(IdDesc)(xs[i]), OrderKey(IdDesc)(xs[j]))
    {
      OrderKeyMeansPrecedes(IdDesc, xs[i], xs[j]);
    }
  }

  /** Among the matching rows, vehicles being well-formed, the `v.id DESC` key
      tells rows apart. */
  lemma IdKeyInjective(s: Store, f: Filters, xs: seq<VehicleRow>)
    requires VehiclesWellFormed(s)
    requires multiset(xs) == multiset(JoinBrands(Matches(s, f), s.brands))
    ensures forall x, y :: x in xs && y in xs && OrderKey(IdDesc)(x) == OrderKey(IdDesc)(y) ==> x == y
  {
    var joined := JoinBrands(Matches(s, f), s.brands);
    forall x, y | x in xs && y in xs && OrderKey(IdDesc)(x) == OrderKey(IdDesc)(y)
      ensures x == y
    {
      assert x in multiset(joined) && y in multiset(joined);
      ListedIdsDistinct(s, f, x, y);
    }
  }

  /** The first row of the brand-joined vehicles satisfying `p`, the way
      `result.rows[0] || null` reads it. */
  function FirstJoined(s: Store, p: Vehicle -> bool): (r: Option<VehicleRow>)
    ensures r.Some? ==> r.value.vehicle in s.vehicles && p(r.value.vehicle) && BrandNamed(s, r.value)
  {
    var rows := JoinBrands(Filter(s.vehicles, p), s.brands);
    if |rows| == 0 then None else Some(rows[0])
  }

  /** In a well-formed store a unique key finds its vehicle: `None` exactly
      when no row satisfies `p`, and otherwise the one row that does. */
  lemma FirstJoinedFinds(s: Store, p: Vehicle -> bool, i: nat)
    requires WellFormed(s)
    requires i < |s.vehicles| && p(s.vehicles[i])
    requires forall j :: 0 <= j < |s.vehicles| && p(s.vehicles[j]) ==> j == i
    ensures FirstJoined(s, p) == Some(VehicleRow(s.vehicles[i], FindBrand(s.brands, s.vehicles[i].brandId).value.name))
  {
    var hits := Filter(s.vehicles, p);
    assert s.vehicles[i] in hits;
    VehicleBrandsResolve(s, hits);
    JoinKeepsEveryVehicle(hits, s.brands);
    var rows := JoinBrands(hits, s.brands);
    var r := FirstJoined(s, p).value;
    var j :| 0 <= j < |s.vehicles| && s.vehicles[j] == r.vehicle;
  }

  /** Without a satisfying row there is nothing to find. */
  lemma FirstJoinedMisses(s: Store, p: Vehicle -> bool)
    requires forall j :: 0 <= j < |s.vehicles| ==> !p(s.vehicles[j])
    ensures FirstJoined(s, p) == None
  {
  }

  /** `getVehicleBySlug(slug)`: the vehicle with that slug and its brand
      name, whether active or not. */
  function GetVehicleBySlug(s: Store, slug: string): (r: Option<VehicleRow>)
    ensures r.Some? ==> r.value.vehicle in s.vehicles && r.value.vehicle.slug == slug && BrandNamed(s, r.value)
  {
    FirstJoined(s, (v: Vehicle) => v.slug == slug)
  }

  /** `getVehicleById(id)`: the vehicle with that id and its brand name,
      whether active or not. */
  function GetVehicleById(s: Store, id: int): (r: Option<VehicleRow>)
    ensures r.Some? ==> r.value.vehicle in s.vehicles && r.value.vehicle.id == id && BrandNamed(s, r.value)
  {
    FirstJoined(s, (v: Vehicle) => v.id == id)
  }

  /** In a well-formed store a slug lookup misses exactly when no vehicle,
      active or not, has that slug, and otherwise returns that vehicle. */
  lemma SlugLookupExact(s: Store, slug: string)
    requires WellFormed(s)
    ensures GetVehicleBySlug(s, slug).None? <==> forall j :: 0 <= j < |s.vehicles| ==> s.vehicles[j].slug != slug
    ensures forall i :: 0 <= i < |s.vehicles| && s.vehicles[i].slug == slug ==>
              GetVehicleBySlug(s, slug).value.vehicle == s.vehicles[i]
  {
    var p := (v: Vehicle) => v.slug == slug;
    if i :| 0 <= i < |s.vehicles| && s.vehicles[i].slug == slug {
      FirstJoinedFinds(s, p, i);
      forall k | 0 <= k < |s.vehicles| && s.vehicles[k].slug == slug
        ensures GetVehicleBySlug(s, slug).value.vehicle == s.vehicles[k]
      {
        assert k == i;
      }
    } else {
      FirstJoinedMisses(s, p);
    }
  }

  /** In a well-formed store an id lookup misses exactly when no vehicle,
      active or not, has that id, and otherwise returns that vehicle. */
  lemma IdLookupExact(s: Store, id: int)
    requires WellFormed(s)
    ensures GetVehicleById(s, id).None? <==> !VehicleExists(s, id)
    ensures forall i :: 0 <= i < |s.vehicles| && s.vehicles[i].id == id ==>
              GetVehicleById(s, id).value.vehicle == s.vehicles[i]
  {
    var p := (v: Vehicle) => v.id == id;
    if i :| 0 <= i < |s.vehicles| && s.vehicles[i].id == id {
      FirstJoinedFinds(s, p, i);
      forall k | 0 <= k < |s.vehicles| && s.vehicles[k].id == id
        ensures GetVehicleById(s, id).value.vehicle == s.vehicles[k]
      {
        assert k == i;
      }
    } else {
      FirstJoinedMisses(s, p);
    }
  }

  /** Sort key of `ORDER BY price ASC`. */
  function VariantPriceKey(x: Variant): Key
  {
    Key(x.price as real, 0.0)
  }

  /** `getVariantsByVehicleId(vehicleId)`: every variant of that vehicle (each
      copy kept, none of another vehicle), cheapest first. */
  function GetVariantsByVehicleId(s: Store, vehicleId: int): (r: seq<Variant>)
    ensures forall i, j :: 0 <= i < j < |r| ==> r[i].price <= r[j].price
    ensures forall x :: multiset(r)[x] == if x.vehicleId == vehicleId then multiset(s.variants)[x] else 0
  {
    var p := (x: Variant) => x.vehicleId == vehicleId;
    var rows := Filter(s.variants, p);
    var r := SortBy(rows, VariantPriceKey);
    assert forall x :: multiset(r)[x] == if x.vehicleId == vehicleId then multiset(s.variants)[x] else 0 by {
      forall x
        ensures multiset(r)[x] == if x.vehicleId == vehicleId then multiset(s.variants)[x] else 0
      {
        FilterMultiset(s.variants, p, x);
      }
    }
    r
  }

  /** One vehicle's counter raised. */
  function Bump(v: Vehicle, vehicleId: int): Vehicle
  {
    if v.id == vehicleId then v.(viewCount := v.viewCount + 1) else v
  }

  /** `incrementViewCount(vehicleId)`: the vehicle with that id gets one more
      view; every other row and column, and every other table, stays as it
      was. An unknown id changes nothing. */
  function IncrementViewCount(s: Store, vehicleId: int): (r: Store)
    ensures r == s.(vehicles := r.vehicles) && |r.vehicles| == |s.vehicles|
    ensures forall i :: 0 <= i < |s.vehicles| && s.vehicles[i].id == vehicleId ==>
              r.vehicles[i] == s.vehicles[i].(viewCount := s.vehicles[i].viewCount + 1)
    ensures forall i :: 0 <= i < |s.vehicles| && s.vehicles[i].id != vehicleId ==> r.vehicles[i] == s.vehicles[i]
    ensures !VehicleExists(s, vehicleId) ==> r == s
  {
    var vs := seq(|s.vehicles|, i requires 0 <= i < |s.vehicles| => Bump(s.vehicles[i], vehicleId));
    assert !VehicleExists(s, vehicleId) ==> vs == s.vehicles;
    s.(vehicles := vs)
  }

  /** `r`'s vehicles table has, position by position, the ids, slugs and
      brands of `s`'s; every other table is the same. */
  predicate SameVehicleKeys(s: Store, r: Store)
  {
    && r == s.(vehicles := r.vehicles)
    && |r.vehicles| == |s.vehicles|
    && forall i :: 0 <= i < |s.vehicles| ==>
         && r.vehicles[i].id == s.vehicles[i].id
         && r.vehicles[i].slug == s.vehicles[i].slug
         && r.vehicles[i].brandId == s.vehicles[i].brandId
  }

  /** Tables with the same keys satisfy the same vehicle references. */
  lemma SameVehicleExistence(s: Store, r: Store)
    requires SameVehicleKeys(s, r)
    ensures forall id :: VehicleExists(r, id) <==> VehicleExists(s, id)
  {
    forall id
      ensures VehicleExists(r, id) <==> VehicleExists(s, id)
    {
      if VehicleExists(r, id) {
        var i :| 0 <= i < |r.vehicles| && r.vehicles[i].id == id;
        assert s.vehicles[i].id == id;
      }
      if VehicleExists(s, id) {
        var i :| 0 <= i < |s.vehicles| && s.vehicles[i].id == id;
        assert r.vehicles[i].id == id;
      }
    }
  }

  /** The vehicles constraints only look at ids, slugs and brands. */
  lemma SameVehicleKeysVehicles(s: Store, r: Store)
    requires SameVehicleKeys(s, r) && VehiclesWellFormed(s)
    ensures VehiclesWellFormed(r)
  {
  }

  /** The references into `vehicles` only look at its ids. */
  lemma SameVehicleKeysReferences(s: Store, r: Store)
    requires SameVehicleKeys(s, r)
    requires VariantsWellFormed(s) && ReviewsWellFormed(s) && WishlistWellFormed(s)
    ensures VariantsWellFormed(r) && ReviewsWellFormed(r) && WishlistWellFormed(r)
  {
    SameVehicleExistence(s, r);
  }

  /** Rewriting columns of `vehicles` other than id, slug and brand keeps the
      store well-formed. */
  lemma SameVehicleKeysWellFormed(s: Store, r: Store)
    requires SameVehicleKeys(s, r) && WellFormed(s)
    ensures WellFormed(r)
  {
    SameVehicleKeysVehicles(s, r);
    SameVehicleKeysReferences(s, r);
  }

  /** Counting a view keeps the store well-formed. */
  lemma IncrementKeepsWellFormed(s: Store, vehicleId: int)
    requires WellFormed(s)
    ensures WellFormed(IncrementViewCount(s, vehicleId))
  {
    SameVehicleKeysWellFormed(s, IncrementViewCount(s, vehicleId));
  }

  /** A lookup after counting a view sees the same row with exactly one more
      view. */
  lemma IncrementSeenByLookup(s: Store, vehicleId: int)
    requires WellFormed(s)
    requires GetVehicleById(s, vehicleId).Some?
    ensures var before := GetVehicleById(s, vehicleId).value;
      GetVehicleById(IncrementViewCount(s, vehicleId), vehicleId)
        == Some(before.(vehicle := before.vehicle.(viewCount := before.vehicle.viewCount + 1)))
  {
    var r := IncrementViewCount(s, vehicleId);
    IncrementKeepsWellFormed(s, vehicleId);
    var before := GetVehicleById(s, vehicleId).value;
    var i :| 0 <= i < |s.vehicles| && s.vehicles[i] == before.vehicle;
    IdLookupExact(s, vehicleId);
    FirstJoinedFinds(s, (v: Vehicle) => v.id == vehicleId, i);
    assert r.vehicles[i].id == vehicleId;
    assert r.vehicles[i].brandId == s.vehicles[i].brandId;
    forall j | 0 <= j < |r.vehicles| && r.vehicles[j].id == vehicleId
      ensures j == i
    {
      assert s.vehicles[j].id == vehicleId;
    }
    FirstJoinedFinds(r, (v: Vehicle) => v.id == vehicleId, i);
  }

  /** Sort key of `ORDER BY v.average_rating DESC, v.view_count DESC`. */
  function SimilarKey(r: VehicleRow): Key
  {
    Key(-r.vehicle.averageRating, -(r.vehicle.viewCount as real))
  }

  /** `a` ranks strictly above `b`: a higher rating, or the same rating and
      more views. */
  predicate RanksAbove(a: Vehicle, b: Vehicle)
  {
    a.averageRating > b.averageRating || (a.averageRating == b.averageRating && a.viewCount > b.viewCount)
  }

  /** The rows a similar-vehicle query ranks: active vehicles of the given
      category, other than the given id, with their brand. */
  function SimilarCandidates(s: Store, category: string, vehicleId: int): seq<VehicleRow>
  {
    JoinBrands(Filter(s.vehicles, (v: Vehicle) => v.category == category && v.id != vehicleId && v.isActive), s.brands)
  }

  /** The first rows of a sorted arrangement of `xs` come from `xs` and are
      in order. */
  lemma TopWindow<T>(xs: seq<T>, key: T -> Key, limit: nat)
    ensures var r := Paging.Window(SortBy(xs, key), 0, limit);
      && (forall k :: 0 <= k < |r| ==> r[k] in xs)
      && SortedBy(r, key)
  {
    var ranked := SortBy(xs, key);
    var r := Paging.Window(ranked, 0, limit);
    forall k | 0 <= k < |r|
      ensures r[k] in xs
    {
      assert r[k] == ranked[k] && ranked[k] in multiset(xs);
    }
    forall i, j | 0 <= i < j < |r|
      ensures KeyLe(key(r[i]), key(r[j]))
    {
      assert r[i] == ranked[i] && r[j] == ranked[j];
    }
  }

  /** Ascending similarity keys never put a lower-ranked row first. */
  lemma SimilarKeyRanks(xs: seq<VehicleRow>)
    requires SortedBy(xs, SimilarKey)
    ensures forall i, j :: 0 <= i < j < |xs| ==> !RanksAbove(xs[j].vehicle, xs[i].vehicle)
  {
    forall i, j | 0 <= i < j < |xs|
      ensures !RanksAbove(xs[j].vehicle, xs[i].vehicle)
    {
      assert KeyLe(SimilarKey(xs[i]), SimilarKey(xs[j]));
    }
  }

  /** The best `limit` candidates, best first. */
  function TopSimilar(s: Store, category: string, vehicleId: int, limit: nat): (r: seq<VehicleRow>)
    ensures |r| <= limit
    ensures forall k :: 0 <= k < |r| ==> r[k] in SimilarCandidates(s, category, vehicleId)
    ensures forall i, j :: 0 <= i < j < |r| ==> !RanksAbove(r[j].vehicle, r[i].vehicle)
    ensures multiset(r) <= multiset(SimilarCandidates(s, category, vehicleId))
  {
    var candidates := SimilarCandidates(s, category, vehicleId);
    TopWindow(candidates, SimilarKey, limit);
    Paging.WindowWithin(SortBy(candidates, SimilarKey), 0, limit);
    SimilarKeyRanks(Paging.Window(SortBy(candidates, SimilarKey), 0, limit));
    Paging.Window(SortBy(candidates, SimilarKey), 0, limit)
  }

  /** `getSimilarVehicles(vehicleId, limit)`: nothing for an unknown vehicle;
      otherwise the best-ranked `limit` active vehicles of its category,
      never itself, best first. */
  function GetSimilarVehicles(s: Store, vehicleId: int, limit: nat): (r: seq<VehicleRow>)
    ensures GetVehicleById(s, vehicleId).None? ==> r == []
    ensures |r| <= limit
    ensures forall k :: 0 <= k < |r| ==>
              && r[k].vehicle in s.vehicles && r[k].vehicle.isActive && r[k].vehicle.id != vehicleId
              && r[k].vehicle.category == GetVehicleById(s, vehicleId).value.vehicle.category
              && BrandNamed(s, r[k])
    ensures forall i, j :: 0 <= i < j < |r| ==> !RanksAbove(r[j].vehicle, r[i].vehicle)
    ensures GetVehicleById(s, vehicleId).Some? ==>
              multiset(r) <= multiset(SimilarCandidates(s, GetVehicleById(s, vehicleId).value.vehicle.category, vehicleId))
  {
    match GetVehicleById(s, vehicleId)
    case None => []
    case Some(source) => TopSimilar(s, source.vehicle.category, vehicleId, limit)
  }

  /** The similar vehicles are the top of the ranking: a candidate ranked
      strictly above a returned row is returned before it, and fewer than
      `limit` rows come back only when every candidate did. */
  lemma SimilarAreTopRanked(s: Store, category: string, vehicleId: int, limit: nat)
    ensures var c := SimilarCandidates(s, category, vehicleId);
      var r := TopSimilar(s, category, vehicleId, limit);
      && |r| == (if |c| < limit then |c| else limit)
      && multiset(r) <= multiset(c)
      && (|c| <= limit ==> multiset(r) == multiset(c))
      && forall x, k :: x in c && 0 <= k < |r| && RanksAbove(x.vehicle, r[k].vehicle) ==> x in r[..k]
  {
    var c := SimilarCandidates(s, category, vehicleId);
    var r := TopSimilar(s, category, vehicleId, limit);
    assert r == Paging.Window(SortBy(c, SimilarKey), 0, limit);
    if |c| <= limit {
      assert r == SortBy(c, SimilarKey);
    }
    forall x, k | x in c && 0 <= k < |r| && RanksAbove(x.vehicle, r[k].vehicle)
      ensures x in r[..k]
    {
      RanksAboveKey(x, r[k]);
      TopWindowIsBest(c, SimilarKey, limit, x, k);
    }
  }

  /** A row ranked strictly above another has the strictly smaller key. */
  lemma RanksAboveKey(a: VehicleRow, b: VehicleRow)
    requires RanksAbove(a.vehicle, b.vehicle)
    ensures !KeyLe(SimilarKey(b), SimilarKey(a))
  {
  }

  /** The first `limit` rows of a sorted arrangement are its best: a row
      whose key is strictly smaller than that of the one at position `k` is
      already before `k`. */
  lemma TopWindowIsBest<T>(xs: seq<T>, key: T -> Key, limit: nat, x: T, k: nat)
    requires x in xs && k < |Paging.Window(SortBy(xs, key), 0, limit)|
    requires !KeyLe(key(Paging.Window(SortBy(xs, key), 0, limit)[k]), key(x))
    ensures x in Paging.Window(SortBy(xs, key), 0, limit)[..k]
  {
    var ranked := SortBy(xs, key);
    var r := Paging.Window(ranked, 0, limit);
    assert x in multiset(ranked);
    assert r[k] == ranked[k];
    TopOfSorted(ranked, key, x, k);
    assert r[..k] == ranked[..k];
  }

  /** The number of rows `searchVehicles` returns at most. */
  const SearchCap: nat := 10

  /** The search condition for pattern `p`: name, brand name or category
      matches it case-insensitively, and the vehicle is active. */
  predicate SearchCondition(row: VehicleRow, p: string)
  {
    (Text.ILike(row.vehicle.name, p) || Text.ILike(row.brandName, p) || Text.ILike(row.vehicle.category, p))
    && row.vehicle.isActive
  }

  /** `searchVehicles(term)`: up to ten active vehicles whose name, brand name
      or category matches `%term%` case-insensitively. */
  function SearchVehicles(s: Store, term: string): (r: seq<VehicleRow>)
    ensures |r| <= SearchCap
    ensures forall k :: 0 <= k < |r| ==>
              r[k].vehicle in s.vehicles && r[k].vehicle.isActive && BrandNamed(s, r[k])
              && SearchCondition(r[k], Text.Surround(term))
    ensures multiset(r) <= multiset(Filter(JoinBrands(s.vehicles, s.brands), (row: VehicleRow) => SearchCondition(row, Text.Surround(term))))
  {
    var p := Text.Surround(term);
    Paging.WindowWithin(Filter(JoinBrands(s.vehicles, s.brands), (row: VehicleRow) => SearchCondition(row, p)), 0, SearchCap);
    Paging.Window(Filter(JoinBrands(s.vehicles, s.brands), (row: VehicleRow) => SearchCondition(row, p)), 0, SearchCap)
  }

  /** The meaning of a search for a term free of `%`, `_` and `\`: an active
      vehicle whose name, brand name or category contains the term,
      ignoring ASCII case. */
  predicate SearchHit(row: VehicleRow, term: string)
  {
    && row.vehicle.isActive
    && (|| Text.Contains(Text.Lower(row.vehicle.name), Text.Lower(term))
        || Text.Contains(Text.Lower(row.brandName), Text.Lower(term))
        || Text.Contains(Text.Lower(row.vehicle.category), Text.Lower(term)))
  }

  /** For a plain term the search returns hits only, as many of them as the
      cap allows, and every hit when fewer than ten come back. Which ten
      of more hits is Postgres's choice: the statement has no `ORDER BY`. */
  lemma SearchIsContainment(s: Store, term: string)
    requires Text.LiteralPattern(term)
    ensures var hits := Filter(JoinBrands(s.vehicles, s.brands), (row: VehicleRow) => SearchHit(row, term));
      && |SearchVehicles(s, term)| == (if |hits| < SearchCap then |hits| else SearchCap)
      && multiset(SearchVehicles(s, term)) <= multiset(hits)
      && (forall k :: 0 <= k < |SearchVehicles(s, term)| ==> SearchHit(SearchVehicles(s, term)[k], term))
      && (|SearchVehicles(s, term)| < SearchCap ==>
            forall k :: 0 <= k < |hits| ==> hits[k] in SearchVehicles(s, term))
  {
    var p := Text.Surround(term);
    var joined := JoinBrands(s.vehicles, s.brands);
    forall i | 0 <= i < |joined|
      ensures SearchCondition(joined[i], p) == SearchHit(joined[i], term)
    {
      var row := joined[i];
      Text.ILikeSurroundIsContains(row.vehicle.name, term);
      Text.ILikeSurroundIsContains(row.brandName, term);
      Text.ILikeSurroundIsContains(row.vehicle.category, term);
    }
    FilterCongruent(joined, (row: VehicleRow) => SearchCondition(row, p), (row: VehicleRow) => SearchHit(row, term));
    var hits := Filter(joined, (row: VehicleRow) => SearchHit(row, term));
    var r := SearchVehicles(s, term);
    if |r| < SearchCap {
      forall k | 0 <= k < |hits|
        ensures hits[k] in r
      {
        assert r[k] == hits[k];
      }
    }
  }
}
