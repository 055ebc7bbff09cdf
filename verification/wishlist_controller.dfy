/** The saved-vehicle endpoints: the signed-in user's list, saving and
    unsaving a vehicle, and asking whether one is saved. Every endpoint
    answers 401 to a visitor who is not signed in, without touching the
    store. */
module WishlistController {
  import opened Common
  import opened Schema
  import opened VehicleService
  import opened Http
  import Numbers
  import WishlistService

  /** The answer to a successful save, whether or not it was saved before. */
  const Added := "Added to wishlist"

  /** The answer to an unsave, whether or not it was saved. */
  const Removed := "Removed from wishlist"

  /** `getWishlist`: 401, or the user's saved vehicles, newest first. */
  function GetWishlist(s: Store, user: Option<int>): (r: Reply<seq<VehicleRow>>)
    ensures r == Unauthorized() <==> user.None?
    ensures r.Ok? <==> user.Some?
    ensures r.Ok? ==> forall k :: 0 <= k < |r.body| ==>
      r.body[k].vehicle in s.vehicles && WishlistService.HasPair(s, user.value, r.body[k].vehicle.id)
    ensures r.Ok? ==> r.body == WishlistService.GetUserWishlist(s, user.value)
  {
    if user.None? then Unauthorized() else Ok(WishlistService.GetUserWishlist(s, user.value))
  }

  /** `addToWishlist`: 401; otherwise the vehicle id goes through
      `parseInt` and the pair is saved. The answer is the same whether the
      pair is new or was already saved; a vehicle id that is not a number,
      or a new pair naming a missing user or vehicle, is a store error with
      nothing written. */
  function AddToWishlist(s: Store, user: Option<int>, idParam: string, now: int): (r: (Store, Reply<string>))
    ensures r.1 == Unauthorized() <==> user.None?
    ensures r.1 == Ok(Added) || r.1.Unhandled? || r.1 == Unauthorized()
    ensures !r.1.Ok? ==> r.0 == s
    ensures user.Some? && Numbers.ParseInt(idParam).None? ==> r.1 == Unhandled(InvalidInteger)
    ensures user.Some? && Numbers.ParseInt(idParam).Some? ==>
      var out := WishlistService.AddToWishlist(s, user.value, Numbers.ParseInt(idParam).value, now);
      && (r.1.Ok? <==> out.Success?)
      && (r.1.Ok? ==> r.0 == out.value.0)
      && (r.1.Unhandled? ==> r.1.cause == out.error)
  {
    if user.None? then (s, Unauthorized())
    else match Numbers.ParseInt(idParam)
      case None => (s, Unhandled(InvalidInteger))
      case Some(vehicleId) =>
        match WishlistService.AddToWishlist(s, user.value, vehicleId, now)
        case Success((t, _)) => (t, Ok(Added))
        case Failure(e) => (s, Unhandled(e))
  }

  /** `removeFromWishlist`: 401; otherwise the pair goes (if it was there)
      and the answer is the same either way. */
  function RemoveFromWishlist(s: Store, user: Option<int>, idParam: string): (r: (Store, Reply<string>))
    ensures r.1 == Unauthorized() <==> user.None?
    ensures r.1 == Ok(Removed) <==> user.Some? && Numbers.ParseInt(idParam).Some?
    ensures user.Some? && Numbers.ParseInt(idParam).None? ==> r == (s, Unhandled(InvalidInteger))
    ensures !r.1.Ok? ==> r.0 == s
    ensures r.1.Ok? ==>
      && r.0 == s.(wishlist := r.0.wishlist)
      && !WishlistService.HasPair(r.0, user.value, Numbers.ParseInt(idParam).value)
  {
    if user.None? then (s, Unauthorized())
    else match Numbers.ParseInt(idParam)
      case None => (s, Unhandled(InvalidInteger))
      case Some(vehicleId) => (WishlistService.RemoveFromWishlist(s, user.value, vehicleId), Ok(Removed))
  }

  /** `isInWishlist`: 401; otherwise whether the pair is saved. A vehicle id
      that is not a number reaches Postgres as `NaN` and the query fails. */
  function IsInWishlist(s: Store, user: Option<int>, idParam: string): (r: Reply<bool>)
    ensures r == Unauthorized() <==> user.None?
    ensures user.Some? && Numbers.ParseInt(idParam).None? ==> r == Unhandled(InvalidInteger)
    ensures r.Ok? <==> user.Some? && Numbers.ParseInt(idParam).Some?
    ensures r.Ok? ==> (r.body <==> WishlistService.HasPair(s, user.value, Numbers.ParseInt(idParam).value))
  {
    if user.None? then Unauthorized()
    else match Numbers.ParseInt(idParam)
      case None => Unhandled(InvalidInteger)
      case Some(vehicleId) => Ok(WishlistService.IsInWishlist(s, user.value, vehicleId))
  }

  /** After a successful save the vehicle reads as saved and appears on the
      user's list; after an unsave it reads as not saved. */
  lemma SaveThenAsk(s: Store, u: int, idParam: string, now: int)
    requires WellFormed(s)
    requires AddToWishlist(s, Some(u), idParam, now).1.Ok?
    ensures var t := AddToWishlist(s, Some(u), idParam, now).0;
      var vehicleId := Numbers.ParseInt(idParam).value;
      && IsInWishlist(t, Some(u), idParam) == Ok(true)
      && (exists k :: 0 <= k < |GetWishlist(t, Some(u)).body| && GetWishlist(t, Some(u)).body[k].vehicle.id == vehicleId)
      && IsInWishlist(RemoveFromWishlist(t, Some(u), idParam).0, Some(u), idParam) == Ok(false)
  {
    var vehicleId := Numbers.ParseInt(idParam).value;
    var t := AddToWishlist(s, Some(u), idParam, now).0;
    WishlistService.AddThenIsIn(s, u, vehicleId, now);
    WishlistService.AddKeepsWellFormed(s, u, vehicleId, now);
    assert WishlistService.HasPair(t, u, vehicleId);
    assert IsInWishlist(t, Some(u), idParam) == Ok(true);
    WishlistService.WishlistShowsEverySaved(t, u, vehicleId);
    assert GetWishlist(t, Some(u)).body == WishlistService.GetUserWishlist(t, u);
    var w := RemoveFromWishlist(t, Some(u), idParam).0;
    assert !WishlistService.HasPair(w, u, vehicleId);
  }

  /** Saving a vehicle that is already saved answers exactly as the first
      save did and leaves the list as it was; only the id sequence moves. */
  lemma SaveTwiceSameAnswer(s: Store, u: int, idParam: string, now: int, later: int)
    requires AddToWishlist(s, Some(u), idParam, now).1.Ok?
    ensures var t := AddToWishlist(s, Some(u), idParam, now).0;
      var again := AddToWishlist(t, Some(u), idParam, later);
      && again.1 == Ok(Added)
      && again.0 == t.(nextWishlistId := t.nextWishlistId + 1)
  {
    var vehicleId := Numbers.ParseInt(idParam).value;
    WishlistService.AddThenIsIn(s, u, vehicleId, now);
  }
}
