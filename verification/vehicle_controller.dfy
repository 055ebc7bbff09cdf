/** The vehicle endpoints: the listing with its query-string defaults, the
    detail page (which counts a view), the search box and the fixed
    category list. */
module VehicleController {
  import opened Common
  import opened Schema
  import opened VehicleQuery
  import opened VehicleService
  import opened Http
  import Numbers
  import Paging
  import Text

  /** The listing's query string: every parameter may be absent. */
  datatype ListingParams = ListingParams(
    page: Option<string>,
    limit: Option<string>,
    category: Option<string>,
    fuelType: Option<string>,
    transmission: Option<string>,
    minPrice: Option<string>,
    maxPrice: Option<string>,
    sortBy: Option<string>)

  /** The page used when the query gives none (or 0, or no number). */
  const DefaultPage := 1

  /** The page size used when the query gives none (or 0, or no number). */
  const DefaultLimit := 12

  /** How many similar vehicles the detail page shows. */
  const SimilarLimit: nat := 4

  /** The filters handed to the service: the six filter parameters exactly
      as they arrived. */
  function ForwardedFilters(q: ListingParams): (f: Filters)
    ensures f.category == q.category && f.fuelType == q.fuelType && f.transmission == q.transmission
    ensures f.minPrice == q.minPrice && f.maxPrice == q.maxPrice && f.sortBy == q.sortBy
  {
    Filters(q.category, q.fuelType, q.transmission, q.minPrice, q.maxPrice, q.sortBy)
  }

  /** `getAll`: `page = parseInt(page) || 1`, `limit = parseInt(limit) || 12`,
      then the service's listing, or its store error. */
  function GetAll(s: Store, q: ListingParams): (r: Reply<Listing>)
    ensures r.Ok? || r.Unhandled?
    ensures var page := Numbers.ParseIntOr(q.page, DefaultPage);
      var limit := Numbers.ParseIntOr(q.limit, DefaultLimit);
      && (r.Ok? <==> GetAllVehicles(s, ForwardedFilters(q), page, limit).Success?)
      && (r.Ok? ==> r.body == GetAllVehicles(s, ForwardedFilters(q), page, limit).value)
      && (r.Unhandled? ==> r.cause == GetAllVehicles(s, ForwardedFilters(q), page, limit).error)
  {
    var page := Numbers.ParseIntOr(q.page, DefaultPage);
    var limit := Numbers.ParseIntOr(q.limit, DefaultLimit);
    match GetAllVehicles(s, ForwardedFilters(q), page, limit)
    case Success(listing) => Ok(listing)
    case Failure(e) => Unhandled(e)
  }

  /** Without `page` and `limit` the client gets the first page of twelve:
      the first twelve rows of the ordered matches, and the number of
      twelve-row pages. */
  lemma FirstPageByDefault(s: Store, q: ListingParams)
    requires WellFormed(s) && PriceBoundsReadable(ForwardedFilters(q))
    requires q.page.None? && q.limit.None?
    ensures var r := GetAll(s, q);
      var pages := Paging.Pages(Listed(s, ForwardedFilters(q)), DefaultLimit);
      && r.Ok? && r.body.page == 1
      && r.body.pages == Some(|pages|)
      && r.body.data == (if |pages| == 0 then [] else pages[0])
  {
    ListingPageOfListed(s, ForwardedFilters(q), DefaultPage, DefaultLimit);
  }

  /** A page of `0` or a page that is not a number is page 1, as is a
      missing one. */
  lemma FalsyPageIsFirst(s: Store, q: ListingParams)
    requires q.page.Some?
    requires Numbers.ParseInt(q.page.value).None? || Numbers.ParseInt(q.page.value) == Some(0)
    ensures GetAll(s, q) == GetAll(s, q.(page := None))
  {
    assert ForwardedFilters(q) == ForwardedFilters(q.(page := None));
  }

  /** A negative page is passed through, and its offset makes the store
      refuse the listing. */
  lemma NegativePageFails(s: Store, q: ListingParams)
    requires PriceBoundsReadable(ForwardedFilters(q))
    requires q.page.Some? && Numbers.ParseInt(q.page.value).Some? && Numbers.ParseInt(q.page.value).value < 0
    requires q.limit.None?
    ensures GetAll(s, q) == Unhandled(NegativeOffset)
  {
    var page := Numbers.ParseInt(q.page.value).value;
    assert Paging.Offset(page, DefaultLimit) < 0;
  }

  /** What the detail page shows. */
  datatype Detail = Detail(vehicle: VehicleRow, variants: seq<Variant>, similar: seq<VehicleRow>)

  /** `getBySlug`: 404 for an unknown slug, with nothing else done;
      otherwise one view is counted, and the page shows the row as it was
      read before the count, with the variants and similar vehicles read
      after it. */
  function GetBySlug(s: Store, slug: string): (r: (Store, Reply<Detail>))
    ensures GetVehicleBySlug(s, slug).None? <==> r.1 == NotFound("Vehicle not found")
    ensures GetVehicleBySlug(s, slug).None? ==> r.0 == s
    ensures r.1.Ok? || r.1 == NotFound("Vehicle not found")
    ensures r.1.Ok? ==>
      var v := GetVehicleBySlug(s, slug).value;
      && r.0 == IncrementViewCount(s, v.vehicle.id)
      && r.1.body.vehicle == v
      && r.1.body.variants == GetVariantsByVehicleId(r.0, v.vehicle.id)
      && r.1.body.similar == GetSimilarVehicles(r.0, v.vehicle.id, SimilarLimit)
  {
    match GetVehicleBySlug(s, slug)
    case None => (s, NotFound("Vehicle not found"))
    case Some(v) =>
      var t := IncrementViewCount(s, v.vehicle.id);
      (t, Ok(Detail(v, GetVariantsByVehicleId(t, v.vehicle.id), GetSimilarVehicles(t, v.vehicle.id, SimilarLimit))))
  }

  /** The detail page shows the view count from before the visit: the
      stored count is one higher than the one shown. */
  lemma DetailShowsCountBeforeVisit(s: Store, slug: string)
    requires WellFormed(s)
    requires GetVehicleBySlug(s, slug).Some?
    ensures var r := GetBySlug(s, slug);
      var id := r.1.body.vehicle.vehicle.id;
      && r.1.Ok?
      && GetVehicleById(r.0, id).Some?
      && GetVehicleById(r.0, id).value.vehicle.viewCount == r.1.body.vehicle.vehicle.viewCount + 1
  {
    var v := GetVehicleBySlug(s, slug).value;
    var id := v.vehicle.id;
    var i :| 0 <= i < |s.vehicles| && s.vehicles[i] == v.vehicle;
    IdLookupExact(s, id);
    IncrementSeenByLookup(s, id);
  }

  /** `search`: 400 without a non-empty `q`, otherwise the service's rows,
      which are at most ten active vehicles matching `%q%`. */
  function Search(s: Store, q: Option<string>): (r: Reply<seq<VehicleRow>>)
    ensures r == BadRequest("Search query is required") <==> !Truthy(q)
    ensures r.Ok? <==> Truthy(q)
    ensures r.Ok? ==> r.body == SearchVehicles(s, q.value)
  {
    if !Truthy(q) then BadRequest("Search query is required") else Ok(SearchVehicles(s, q.value))
  }

  /** A search that gets an answer shows at most ten active vehicles, each
      matching the term in its name, brand name or category. */
  lemma SearchAnswerBounded(s: Store, q: Option<string>)
    requires Truthy(q)
    ensures var r := Search(s, q);
      && r.Ok? && |r.body| <= SearchCap
      && forall k :: 0 <= k < |r.body| ==>
           r.body[k].vehicle.isActive && SearchCondition(r.body[k], Text.Surround(q.value))
  {
  }

  /** `getCategories`: the same seven categories on every call. */
  function GetCategories(): (r: seq<string>)
    ensures |r| == 7
    ensures forall i, j :: 0 <= i < j < |r| ==> r[i] != r[j]
    ensures "SUV" in r && "EV" in r
  {
    ["SUV", "Sedan", "Hatchback", "MPV", "Cruiser", "Sports Bike", "EV"]
  }
}
