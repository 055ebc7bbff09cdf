/** The relational store: one record type per table of the schema, the store
    as a record of tables (each kept in insertion order) with the `SERIAL`
    counters that number new rows, and the constraints the schema declares
    (`UNIQUE`, `NOT NULL`, `REFERENCES`) as a well-formedness predicate.
    Timestamps are plain integers supplied by the caller. */
module Schema {
  import opened Common

  /** A row of `users`. */
  datatype User = User(
    id: int,
    email: string,
    password: string,          // the stored hash
    fullName: string,
    phone: Option<string>,
    city: Option<string>,
    state: Option<string>,
    avatarUrl: Option<string>,
    role: string,
    isVerified: bool,
    createdAt: int,
    updatedAt: int)

  /** A row of `brands`. */
  datatype Brand = Brand(
    id: int,
    name: string,
    logoUrl: Option<string>,
    country: Option<string>,
    website: Option<string>,
    createdAt: int)

  /** The descriptive columns of `vehicles` that no query of the core filters,
      sorts or reshapes; they travel with the row unchanged. */
  datatype VehicleDetails = VehicleDetails(
    engineDisplacement: Option<int>,
    acceleration: Option<string>,
    topSpeed: Option<string>,
    weight: Option<int>,
    dimensions: Option<string>,
    bootSpace: Option<int>,
    tankCapacity: Option<int>,
    wheelbase: Option<int>,
    groundClearance: Option<string>,
    warrantyBasic: Option<string>,
    warrantyPowertrain: Option<string>,
    imageUrl: Option<string>,
    description: Option<string>)

  /** A row of `vehicles`. Prices are whole currency units. */
  datatype Vehicle = Vehicle(
    id: int,
    brandId: int,
    name: string,
    slug: string,
    category: string,
    fuelType: string,
    transmission: string,
    bodyType: string,
    seatingCapacity: Option<int>,
    maxPower: Option<string>,
    maxTorque: Option<string>,
    mileage: Option<string>,
    startingPrice: Option<int>,
    averageRating: real,
    ratingCount: int,
    viewCount: int,
    isActive: bool,
    details: VehicleDetails,
    createdAt: int,
    updatedAt: int)

  /** The optional descriptive columns, all NULL. */
  const NoDetails: VehicleDetails :=
    VehicleDetails(None, None, None, None, None, None, None, None, None, None, None, None, None)

  /** A vehicle row as inserted with only its required columns given: the
      rating and view counters start at zero and the vehicle is active. */
  function NewVehicle(id: int, brandId: int, name: string, slug: string, category: string,
                      fuelType: string, transmission: string, bodyType: string, now: int): (v: Vehicle)
    ensures v.averageRating == 0.0 && v.ratingCount == 0 && v.viewCount == 0 && v.isActive
    ensures v.id == id && v.brandId == brandId && v.slug == slug && v.category == category
  {
    Vehicle(id, brandId, name, slug, category, fuelType, transmission, bodyType,
            None, None, None, None, None, 0.0, 0, 0, true, NoDetails, now, now)
  }

  /** A row of `variants`. */
  datatype Variant = Variant(
    id: int,
    vehicleId: int,
    name: string,
    price: int,
    features: Option<string>,
    colorOptions: Option<string>,
    transmission: Option<string>,
    fuelType: Option<string>,
    mileage: Option<string>,
    createdAt: int)

  /** A row of `reviews`; `userId` is nullable. */
  datatype Review = Review(
    id: int,
    vehicleId: int,
    userId: Option<int>,
    title: Option<string>,
    content: string,
    rating: real,
    reviewType: string,
    helpfulCount: int,
    verifiedPurchase: bool,
    createdAt: int,
    updatedAt: int)

  /** A row of `wishlist`. */
  datatype WishlistEntry = WishlistEntry(id: int, userId: int, vehicleId: int, createdAt: int)

  /** The columns the comparison query selects from `vehicles`. */
  datatype ComparedVehicle = ComparedVehicle(
    id: int,
    name: string,
    brandId: int,
    category: string,
    fuelType: string,
    transmission: string,
    mileage: Option<string>,
    maxPower: Option<string>,
    maxTorque: Option<string>,
    seatingCapacity: Option<int>,
    averageRating: real,
    startingPrice: Option<int>)

  /** The `specs` object: one column per compared attribute. */
  datatype Specs = Specs(
    fuelType: seq<string>,
    transmission: seq<string>,
    mileage: seq<Option<string>>,
    maxPower: seq<Option<string>>,
    maxTorque: seq<Option<string>>,
    seatCapacity: seq<Option<int>>,
    price: seq<Option<int>>)

  /** The comparison payload `{ vehicles, specs }`. */
  datatype ComparisonData = ComparisonData(vehicles: seq<ComparedVehicle>, specs: Specs)

  /** A row of `comparisons`. The `vehicles` text column holds the requested
      id list and `comparison_data` the payload; their JSON encoding is
      treated as lossless, so both are kept in structured form. */
  datatype ComparisonRow = ComparisonRow(
    id: int,
    userId: Option<int>,
    vehicleIds: seq<int>,
    data: ComparisonData,
    createdAt: int)

  /** The whole store, plus the next value of each `SERIAL` sequence that
      the core draws from. */
  datatype Store = Store(
    users: seq<User>,
    brands: seq<Brand>,
    vehicles: seq<Vehicle>,
    variants: seq<Variant>,
    reviews: seq<Review>,
    wishlist: seq<WishlistEntry>,
    comparisons: seq<ComparisonRow>,
    nextUserId: int,
    nextReviewId: int,
    nextWishlistId: int,
    nextComparisonId: int)

  /** Why a statement, or the handling of what it returns, throws. */
  datatype DbError =
    | ForeignKeyViolation     // a REFERENCES target is missing
    | UniqueViolation         // a UNIQUE column would repeat
    | InvalidNumber           // text bound to a numeric parameter does not parse
    | InvalidInteger          // `NaN` bound to an integer parameter
    | NegativeOffset          // OFFSET below zero
    | NegativeLimit           // LIMIT below zero
    | SyntaxError             // `IN ()` with an empty id list
    | JsonParseError          // `JSON.parse` throws on a column value read back

  /** A row of `users` with this id exists. */
  predicate UserExists(s: Store, id: int)
  {
    exists i :: 0 <= i < |s.users| && s.users[i].id == id
  }

  /** A row of `vehicles` with this id exists. */
  predicate VehicleExists(s: Store, id: int)
  {
    exists i :: 0 <= i < |s.vehicles| && s.vehicles[i].id == id
  }

  /** A row of `brands` with this id exists. */
  predicate HasBrand(brands: seq<Brand>, id: int)
  {
    exists i :: 0 <= i < |brands| && brands[i].id == id
  }

  /** `users`: `SERIAL` ids, `email UNIQUE`. */
  predicate UsersWellFormed(s: Store)
  {
    && 1 <= s.nextUserId
    && (forall i :: 0 <= i < |s.users| ==> 1 <= s.users[i].id < s.nextUserId)
    && (forall i, j :: 0 <= i < j < |s.users| ==>
          s.users[i].id != s.users[j].id && s.users[i].email != s.users[j].email)
  }

  /** `brands`: distinct ids, `name UNIQUE`. */
  predicate BrandsWellFormed(s: Store)
  {
    forall i, j :: 0 <= i < j < |s.brands| ==>
      s.brands[i].id != s.brands[j].id && s.brands[i].name != s.brands[j].name
  }

  /** `vehicles`: distinct ids, `slug UNIQUE`, `brand_id REFERENCES brands`. */
  predicate VehiclesWellFormed(s: Store)
  {
    && (forall i, j :: 0 <= i < j < |s.vehicles| ==>
          s.vehicles[i].id != s.vehicles[j].id && s.vehicles[i].slug != s.vehicles[j].slug)
    && (forall i :: 0 <= i < |s.vehicles| ==> HasBrand(s.brands, s.vehicles[i].brandId))
  }

  /** `variants`: distinct ids, `vehicle_id REFERENCES vehicles`. */
  predicate VariantsWellFormed(s: Store)
  {
    && (forall i, j :: 0 <= i < j < |s.variants| ==> s.variants[i].id != s.variants[j].id)
    && (forall i :: 0 <= i < |s.variants| ==> VehicleExists(s, s.variants[i].vehicleId))
  }

  /** `reviews`: `SERIAL` ids, `vehicle_id REFERENCES vehicles`, nullable
      `user_id REFERENCES users`. */
  predicate ReviewsWellFormed(s: Store)
  {
    && 1 <= s.nextReviewId
    && (forall i :: 0 <= i < |s.reviews| ==> 1 <= s.reviews[i].id < s.nextReviewId)
    && (forall i, j :: 0 <= i < j < |s.reviews| ==> s.reviews[i].id != s.reviews[j].id)
    && (forall i :: 0 <= i < |s.reviews| ==> VehicleExists(s, s.reviews[i].vehicleId))
    && (forall i :: 0 <= i < |s.reviews| && s.reviews[i].userId.Some? ==>
          UserExists(s, s.reviews[i].userId.value))
  }

  /** `wishlist`: `SERIAL` ids, both references, `UNIQUE(user_id, vehicle_id)`. */
  predicate WishlistWellFormed(s: Store)
  {
    && 1 <= s.nextWishlistId
    && (forall i :: 0 <= i < |s.wishlist| ==> 1 <= s.wishlist[i].id < s.nextWishlistId)
    && (forall i :: 0 <= i < |s.wishlist| ==>
          UserExists(s, s.wishlist[i].userId) && VehicleExists(s, s.wishlist[i].vehicleId))
    && (forall i, j :: 0 <= i < j < |s.wishlist| ==>
          && s.wishlist[i].id != s.wishlist[j].id
          && (s.wishlist[i].userId, s.wishlist[i].vehicleId)
             != (s.wishlist[j].userId, s.wishlist[j].vehicleId))
  }

  /** `comparisons`: `SERIAL` ids, nullable `user_id REFERENCES users`. */
  predicate ComparisonsWellFormed(s: Store)
  {
    && 1 <= s.nextComparisonId
    && (forall i :: 0 <= i < |s.comparisons| ==> 1 <= s.comparisons[i].id < s.nextComparisonId)
    && (forall i, j :: 0 <= i < j < |s.comparisons| ==> s.comparisons[i].id != s.comparisons[j].id)
    && (forall i :: 0 <= i < |s.comparisons| && s.comparisons[i].userId.Some? ==>
          UserExists(s, s.comparisons[i].userId.value))
  }

  /** Every constraint the schema declares holds. */
  predicate WellFormed(s: Store)
  {
    && UsersWellFormed(s)
    && BrandsWellFormed(s)
    && VehiclesWellFormed(s)
    && VariantsWellFormed(s)
    && ReviewsWellFormed(s)
    && WishlistWellFormed(s)
    && ComparisonsWellFormed(s)
  }

  /** A change confined to `reviews` and its sequence leaves every other
      table's constraints as they were. */
  lemma ReviewsOnlyChange(s: Store, t: Store)
    requires t == s.(reviews := t.reviews, nextReviewId := t.nextReviewId)
    requires WellFormed(s) && ReviewsWellFormed(t)
    ensures WellFormed(t)
  {
    assert t.users == s.users && t.vehicles == s.vehicles;
  }

  /** A listed vehicle: `v.*` joined with `b.name AS brand_name`. */
  datatype VehicleRow = VehicleRow(vehicle: Vehicle, brandName: string)

  /** The brand with this id, if any (ids are distinct, so at most one). */
  function FindBrand(brands: seq<Brand>, id: int): (r: Option<Brand>)
    ensures r.Some? <==> HasBrand(brands, id)
    ensures r.Some? ==> r.value in brands && r.value.id == id
  {
    if |brands| == 0 then None
    else if brands[0].id == id then Some(brands[0])
    else
      assert HasBrand(brands, id) ==> HasBrand(brands[1..], id) by {
        if HasBrand(brands, id) {
          var i :| 0 <= i < |brands| && brands[i].id == id;
          assert brands[1..][i - 1] == brands[i];
        }
      }
      FindBrand(brands[1..], id)
  }

  /** `FROM vehicles v JOIN brands b ON v.brand_id = b.id`: an inner join, so
      a vehicle whose brand is missing drops out. */
  function JoinBrands(vs: seq<Vehicle>, brands: seq<Brand>): (r: seq<VehicleRow>)
    ensures |r| <= |vs|
    ensures forall k :: 0 <= k < |r| ==> r[k].vehicle in vs
    ensures forall k :: 0 <= k < |r| ==> FindBrand(brands, r[k].vehicle.brandId) != None
    ensures forall k :: 0 <= k < |r| ==> FindBrand(brands, r[k].vehicle.brandId).value.name == r[k].brandName
    ensures forall i :: 0 <= i < |vs| && FindBrand(brands, vs[i].brandId) != None ==>
              VehicleRow(vs[i], FindBrand(brands, vs[i].brandId).value.name) in r
  {
    if |vs| == 0 then []
    else
      var rest := JoinBrands(vs[1..], brands);
      assert forall i :: 1 <= i < |vs| ==> vs[i] == vs[1..][i - 1];
      match FindBrand(brands, vs[0].brandId)
      case None => rest
      case Some(b) =>
        var r := [VehicleRow(vs[0], b.name)] + rest;
        assert r[0].vehicle == vs[0];
        assert forall k :: 0 <= k < |rest| ==> r[k + 1] == rest[k];
        assert forall k :: 0 <= k < |rest| ==> rest[k] in r;
        r
  }

  /** Because `brand_id REFERENCES brands`, the join loses no vehicle: the
      un-joined `COUNT(*)` and the joined listing see the same rows, in the
      same order. */
  lemma {:induction false} JoinKeepsEveryVehicle(vs: seq<Vehicle>, brands: seq<Brand>)
    requires forall i :: 0 <= i < |vs| ==> HasBrand(brands, vs[i].brandId)
    ensures |JoinBrands(vs, brands)| == |vs|
    ensures forall k :: 0 <= k < |vs| ==> JoinBrands(vs, brands)[k].vehicle == vs[k]
  {
    if |vs| > 0 {
      assert HasBrand(brands, vs[0].brandId);
      JoinKeepsEveryVehicle(vs[1..], brands);
      var r := JoinBrands(vs, brands);
      assert r == [VehicleRow(vs[0], FindBrand(brands, vs[0].brandId).value.name)] + JoinBrands(vs[1..], brands);
    }
  }

  /** Every vehicle of a store whose vehicles are well-formed has its brand
      row. */
  lemma VehicleBrandsResolve(s: Store, vs: seq<Vehicle>)
    requires VehiclesWellFormed(s)
    requires forall i :: 0 <= i < |vs| ==> vs[i] in s.vehicles
    ensures forall i :: 0 <= i < |vs| ==> HasBrand(s.brands, vs[i].brandId)
  {
    forall i | 0 <= i < |vs|
      ensures HasBrand(s.brands, vs[i].brandId)
    {
      var j :| 0 <= j < |s.vehicles| && s.vehicles[j] == vs[i];
      assert HasBrand(s.brands, s.vehicles[j].brandId);
    }
  }
}
