/** The wishlist: a set of (user, vehicle) pairs kept unique by the table's
    constraint, an insert that ignores a pair already present, and each
    user's saved vehicles, most recently saved first. */
module WishlistService {
  import opened Common
  import opened Schema
  import opened Sorting
  import VehicleService

  /** The entry is the pair (`userId`, `vehicleId`). */
  predicate IsPair(e: WishlistEntry, userId: int, vehicleId: int)
  {
    e.userId == userId && e.vehicleId == vehicleId
  }

  /** The wishlist holds the pair. */
  predicate HasPair(s: Store, userId: int, vehicleId: int)
  {
    exists i :: 0 <= i < |s.wishlist| && IsPair(s.wishlist[i], userId, vehicleId)
  }

  /** `addToWishlist(userId, vehicleId)`. A pair already present hits
      `UNIQUE(user_id, vehicle_id)` and `ON CONFLICT DO NOTHING` returns no
      row; the id default is evaluated before the conflict is found, so the
      sequence still advances. A new pair must name an existing user and
      vehicle; the inserted row is returned. */
  function AddToWishlist(s: Store, userId: int, vehicleId: int, now: int): (r: Result<(Store, Option<WishlistEntry>), DbError>)
    ensures r.Failure? <==> !HasPair(s, userId, vehicleId) && (!UserExists(s, userId) || !VehicleExists(s, vehicleId))
    ensures r.Failure? ==> r.error == ForeignKeyViolation
    ensures HasPair(s, userId, vehicleId) ==> r == Success((s.(nextWishlistId := s.nextWishlistId + 1), None))
    ensures r.Success? && !HasPair(s, userId, vehicleId) ==>
      && r.value.1 == Some(WishlistEntry(s.nextWishlistId, userId, vehicleId, now))
      && r.value.0 == s.(wishlist := s.wishlist + [r.value.1.value], nextWishlistId := s.nextWishlistId + 1)
  {
    var t := s.(nextWishlistId := s.nextWishlistId + 1);
    if HasPair(s, userId, vehicleId) then Success((t, None))
    else if !UserExists(s, userId) || !VehicleExists(s, vehicleId) then Failure(ForeignKeyViolation)
    else
      var e := WishlistEntry(s.nextWishlistId, userId, vehicleId, now);
      Success((t.(wishlist := s.wishlist + [e]), Some(e)))
  }

  /** `removeFromWishlist(userId, vehicleId)`: the pair goes, every other
      pair and every other table stays; removing an absent pair changes
      nothing. */
  function RemoveFromWishlist(s: Store, userId: int, vehicleId: int): (r: Store)
    ensures r == s.(wishlist := r.wishlist)
    ensures !HasPair(r, userId, vehicleId)
    ensures forall x :: multiset(r.wishlist)[x] == if IsPair(x, userId, vehicleId) then 0 else multiset(s.wishlist)[x]
    ensures !HasPair(s, userId, vehicleId) ==> r == s
  {
    var keep := (e: WishlistEntry) => !IsPair(e, userId, vehicleId);
    var kept := Filter(s.wishlist, keep);
    assert forall x :: multiset(kept)[x] == if IsPair(x, userId, vehicleId) then 0 else multiset(s.wishlist)[x] by {
      forall x
        ensures multiset(kept)[x] == if IsPair(x, userId, vehicleId) then 0 else multiset(s.wishlist)[x]
      {
        FilterMultiset(s.wishlist, keep, x);
      }
    }
    if !HasPair(s, userId, vehicleId) then
      FilterKeepsAll(s.wishlist, keep);
      s
    else
      s.(wishlist := kept)
  }

  /** Removing one pair keeps exactly the other pairs. */
  lemma RemoveKeepsOtherPairs(s: Store, userId: int, vehicleId: int, u: int, v: int)
    requires u != userId || v != vehicleId
    ensures HasPair(RemoveFromWishlist(s, userId, vehicleId), u, v) <==> HasPair(s, u, v)
  {
    var r := RemoveFromWishlist(s, userId, vehicleId);
    if HasPair(s, u, v) {
      var i :| 0 <= i < |s.wishlist| && IsPair(s.wishlist[i], u, v);
      assert s.wishlist[i] in multiset(s.wishlist);
      assert s.wishlist[i] in multiset(r.wishlist);
      var k :| 0 <= k < |r.wishlist| && r.wishlist[k] == s.wishlist[i];
    }
    if HasPair(r, u, v) {
      var k :| 0 <= k < |r.wishlist| && IsPair(r.wishlist[k], u, v);
      assert r.wishlist[k] in multiset(r.wishlist);
      assert r.wishlist[k] in multiset(s.wishlist);
      var i :| 0 <= i < |s.wishlist| && s.wishlist[i] == r.wishlist[k];
    }
  }

  /** `isInWishlist(userId, vehicleId)`: some row holds the pair. */
  function IsInWishlist(s: Store, userId: int, vehicleId: int): (r: bool)
    ensures r <==> HasPair(s, userId, vehicleId)
  {
    var rows := Filter(s.wishlist, (e: WishlistEntry) => IsPair(e, userId, vehicleId));
    assert HasPair(s, userId, vehicleId) ==> |rows| > 0 by {
      if HasPair(s, userId, vehicleId) {
        var i :| 0 <= i < |s.wishlist| && IsPair(s.wishlist[i], userId, vehicleId);
        assert s.wishlist[i] in rows;
      }
    }
    assert |rows| > 0 ==> HasPair(s, userId, vehicleId) by {
      if |rows| > 0 {
        var i :| 0 <= i < |s.wishlist| && s.wishlist[i] == rows[0];
        assert IsPair(s.wishlist[i], userId, vehicleId);
      }
    }
    |rows| > 0
  }

  /** Right after a successful add the pair is in the wishlist. */
  lemma AddThenIsIn(s: Store, userId: int, vehicleId: int, now: int)
    requires AddToWishlist(s, userId, vehicleId, now).Success?
    ensures IsInWishlist(AddToWishlist(s, userId, vehicleId, now).value.0, userId, vehicleId)
  {
    var t := AddToWishlist(s, userId, vehicleId, now).value.0;
    if !HasPair(s, userId, vehicleId) {
      assert IsPair(t.wishlist[|s.wishlist|], userId, vehicleId);
    }
  }

  /** Right after a remove the pair is not in the wishlist. */
  lemma RemoveThenNotIn(s: Store, userId: int, vehicleId: int)
    ensures !IsInWishlist(RemoveFromWishlist(s, userId, vehicleId), userId, vehicleId)
  {
  }

  /** Adding is idempotent on the table: adding the same pair again returns
      no row and leaves the wishlist as the first add left it. */
  lemma AddIsIdempotent(s: Store, userId: int, vehicleId: int, now: int, later: int)
    requires AddToWishlist(s, userId, vehicleId, now).Success?
    ensures var t := AddToWishlist(s, userId, vehicleId, now).value.0;
      var again := AddToWishlist(t, userId, vehicleId, later);
      && again.Success?
      && again.value.1 == None
      && again.value.0.wishlist == t.wishlist
  {
    AddThenIsIn(s, userId, vehicleId, now);
  }

  /** Adding a new pair and removing it again restores the wishlist. */
  lemma AddThenRemove(s: Store, userId: int, vehicleId: int, now: int)
    requires !HasPair(s, userId, vehicleId)
    requires AddToWishlist(s, userId, vehicleId, now).Success?
    ensures RemoveFromWishlist(AddToWishlist(s, userId, vehicleId, now).value.0, userId, vehicleId).wishlist == s.wishlist
  {
    var t := AddToWishlist(s, userId, vehicleId, now).value.0;
    var e := t.wishlist[|s.wishlist|];
    var keep := (x: WishlistEntry) => !IsPair(x, userId, vehicleId);
    assert t.wishlist == s.wishlist + [e];
    FilterAppend(s.wishlist, [e], keep);
    FilterKeepsAll(s.wishlist, keep);
    assert Filter([e], keep) == Filter([], keep);
  }

  /** Adding keeps the store well-formed: in particular no pair is ever
      stored twice. */
  lemma AddKeepsWellFormed(s: Store, userId: int, vehicleId: int, now: int)
    requires WellFormed(s)
    requires AddToWishlist(s, userId, vehicleId, now).Success?
    ensures WellFormed(AddToWishlist(s, userId, vehicleId, now).value.0)
  {
    var r := AddToWishlist(s, userId, vehicleId, now);
    if HasPair(s, userId, vehicleId) {
      assert r.value.0 == s.(nextWishlistId := s.nextWishlistId + 1);
      SkipWishlistIdWellFormed(s);
    } else {
      var e := WishlistEntry(s.nextWishlistId, userId, vehicleId, now);
      assert r.value.0 == s.(wishlist := s.wishlist + [e], nextWishlistId := s.nextWishlistId + 1);
      AppendEntryWellFormed(s, e);
    }
  }

  /** Using up a sequence value without a row keeps the store well-formed. */
  lemma SkipWishlistIdWellFormed(s: Store)
    requires WellFormed(s)
    ensures WellFormed(s.(nextWishlistId := s.nextWishlistId + 1))
  {
  }

  /** Appending a row numbered by the sequence, naming an existing user
      and vehicle in a pair not yet stored, keeps the store well-formed. */
  lemma AppendEntryWellFormed(s: Store, e: WishlistEntry)
    requires WellFormed(s)
    requires e.id == s.nextWishlistId && UserExists(s, e.userId) && VehicleExists(s, e.vehicleId)
    requires !HasPair(s, e.userId, e.vehicleId)
    ensures WellFormed(s.(wishlist := s.wishlist + [e], nextWishlistId := s.nextWishlistId + 1))
  {
    var t := s.(wishlist := s.wishlist + [e], nextWishlistId := s.nextWishlistId + 1);
    assert WishlistWellFormed(t) by {
      forall i | 0 <= i < |t.wishlist|
        ensures 1 <= t.wishlist[i].id < t.nextWishlistId
        ensures UserExists(t, t.wishlist[i].userId) && VehicleExists(t, t.wishlist[i].vehicleId)
      {
        if i < |s.wishlist| {
          assert t.wishlist[i] == s.wishlist[i];
        }
      }
      forall i, j | 0 <= i < j < |t.wishlist|
        ensures t.wishlist[i].id != t.wishlist[j].id
        ensures (t.wishlist[i].userId, t.wishlist[i].vehicleId) != (t.wishlist[j].userId, t.wishlist[j].vehicleId)
      {
        assert t.wishlist[i] == s.wishlist[i];
        if j == |s.wishlist| {
          assert !IsPair(s.wishlist[i], e.userId, e.vehicleId);
        } else {
          assert t.wishlist[j] == s.wishlist[j];
        }
      }
    }
  }

  /** Sort key of `ORDER BY w.created_at DESC`. */
  function SavedNewestFirst(e: WishlistEntry): Key
  {
    Key(-(e.createdAt as real), 0.0)
  }

  /** `WHERE w.user_id = $1 ORDER BY w.created_at DESC`: the user's
      entries, each once, most recently saved first. */
  function SavedBy(s: Store, userId: int): (r: seq<WishlistEntry>)
    ensures forall i, j :: 0 <= i < j < |r| ==> r[i].createdAt >= r[j].createdAt
    ensures forall x :: multiset(r)[x] == if x.userId == userId then multiset(s.wishlist)[x] else 0
  {
    var p := (e: WishlistEntry) => e.userId == userId;
    var kept := Filter(s.wishlist, p);
    var r := SortBy(kept, SavedNewestFirst);
    NewestFirstOrder(r);
    FilterCounts(s.wishlist, p);
    assert multiset(r) == multiset(kept);
    r
  }

  /** Sorting by `SavedNewestFirst` puts later `createdAt` values first. */
  lemma NewestFirstOrder(r: seq<WishlistEntry>)
    requires SortedBy(r, SavedNewestFirst)
    ensures forall i, j :: 0 <= i < j < |r| ==> r[i].createdAt >= r[j].createdAt
  {
    forall i, j | 0 <= i < j < |r|
      ensures r[i].createdAt >= r[j].createdAt
    {
      assert KeyLe(SavedNewestFirst(r[i]), SavedNewestFirst(r[j]));
    }
  }

  /** The rows one entry contributes to `JOIN vehicles v ON w.vehicle_id =
      v.id JOIN brands b ON v.brand_id = b.id`. */
  function EntryRows(s: Store, e: WishlistEntry): (r: seq<VehicleRow>)
    ensures forall k :: 0 <= k < |r| ==>
      r[k].vehicle in s.vehicles && r[k].vehicle.id == e.vehicleId && VehicleService.BrandNamed(s, r[k])
  {
    var vs := Filter(s.vehicles, (v: Vehicle) => v.id == e.vehicleId);
    JoinBrands(vs, s.brands)
  }

  /** The join rows of a sequence of entries, in the entries' order. */
  function JoinEntries(s: Store, es: seq<WishlistEntry>): seq<VehicleRow>
  {
    if |es| == 0 then [] else EntryRows(s, es[0]) + JoinEntries(s, es[1..])
  }

  /** Every joined row is a stored vehicle, with its brand name, that one of
      the entries names. */
  lemma {:induction false} JoinedRowsValid(s: Store, es: seq<WishlistEntry>)
    ensures forall k :: 0 <= k < |JoinEntries(s, es)| ==>
      && JoinEntries(s, es)[k].vehicle in s.vehicles
      && VehicleService.BrandNamed(s, JoinEntries(s, es)[k])
      && exists m :: 0 <= m < |es| && es[m].vehicleId == JoinEntries(s, es)[k].vehicle.id
  {
    if |es| > 0 {
      var head := EntryRows(s, es[0]);
      var rest := JoinEntries(s, es[1..]);
      JoinedRowsValid(s, es[1..]);
      var r := head + rest;
      forall k | 0 <= k < |r|
        ensures && r[k].vehicle in s.vehicles
                && VehicleService.BrandNamed(s, r[k])
                && exists m :: 0 <= m < |es| && es[m].vehicleId == r[k].vehicle.id
      {
        if k < |head| {
          assert r[k] == head[k];
          assert es[0].vehicleId == r[k].vehicle.id;
        } else {
          var row := rest[k - |head|];
          assert r[k] == row;
          var m :| 0 <= m < |es[1..]| && es[1..][m].vehicleId == row.vehicle.id;
          assert es[m + 1].vehicleId == r[k].vehicle.id;
        }
      }
      assert JoinEntries(s, es) == r;
    }
  }

  /** `getUserWishlist(userId)`: vehicles (with their brand names) the user
      has saved, in the order of the user's entries, newest first. */
  function GetUserWishlist(s: Store, userId: int): (r: seq<VehicleRow>)
    ensures forall k :: 0 <= k < |r| ==>
      && r[k].vehicle in s.vehicles
      && VehicleService.BrandNamed(s, r[k])
      && HasPair(s, userId, r[k].vehicle.id)
  {
    var es := SavedBy(s, userId);
    SavedArePairs(s, userId);
    JoinedRowsValid(s, es);
    JoinedArePairs(s, userId, es);
    JoinEntries(s, es)
  }

  /** Every row joined from entries of stored pairs shows a stored pair. */
  lemma JoinedArePairs(s: Store, userId: int, es: seq<WishlistEntry>)
    requires forall k :: 0 <= k < |es| ==> HasPair(s, userId, es[k].vehicleId)
    ensures forall k :: 0 <= k < |JoinEntries(s, es)| ==> HasPair(s, userId, JoinEntries(s, es)[k].vehicle.id)
  {
    var r := JoinEntries(s, es);
    JoinedRowsValid(s, es);
    forall k | 0 <= k < |r|
      ensures HasPair(s, userId, r[k].vehicle.id)
    {
      var m :| 0 <= m < |es| && es[m].vehicleId == r[k].vehicle.id;
    }
  }

  /** Each saved entry is a pair the wishlist holds. */
  lemma SavedArePairs(s: Store, userId: int)
    ensures forall k :: 0 <= k < |SavedBy(s, userId)| ==> HasPair(s, userId, SavedBy(s, userId)[k].vehicleId)
  {
    var es := SavedBy(s, userId);
    SavedAreStored(s, userId);
    forall k | 0 <= k < |es|
      ensures HasPair(s, userId, es[k].vehicleId)
    {
      var i :| 0 <= i < |s.wishlist| && s.wishlist[i] == es[k];
      assert IsPair(s.wishlist[i], userId, es[k].vehicleId);
    }
  }

  /** Each saved entry is a stored row of the user's. */
  lemma SavedAreStored(s: Store, userId: int)
    ensures forall k :: 0 <= k < |SavedBy(s, userId)| ==>
      SavedBy(s, userId)[k] in s.wishlist && SavedBy(s, userId)[k].userId == userId
  {
    var es := SavedBy(s, userId);
    forall k | 0 <= k < |es|
      ensures es[k] in s.wishlist && es[k].userId == userId
    {
      assert es[k] in multiset(es);
    }
  }

  /** In a well-formed store an entry joins exactly one row: its vehicle,
      whose brand exists. */
  lemma EntryJoinsOnce(s: Store, e: WishlistEntry)
    requires VehiclesWellFormed(s) && VehicleExists(s, e.vehicleId)
    ensures |EntryRows(s, e)| == 1
  {
    var p := (v: Vehicle) => v.id == e.vehicleId;
    var vs := Filter(s.vehicles, p);
    var i :| 0 <= i < |s.vehicles| && s.vehicles[i].id == e.vehicleId;
    forall j | 0 <= j < |s.vehicles| && j != i
      ensures !p(s.vehicles[j])
    {
      if j < i {
        assert s.vehicles[j].id != s.vehicles[i].id;
      } else {
        assert s.vehicles[i].id != s.vehicles[j].id;
      }
    }
    FilterOneHit(s.vehicles, p, i);
    VehicleBrandsResolve(s, vs);
    JoinKeepsEveryVehicle(vs, s.brands);
  }

  /** When every entry joins exactly one row, the listing is those rows,
      one per entry, in the entries' order. */
  lemma {:induction false} JoinSingletons(s: Store, es: seq<WishlistEntry>)
    requires forall k :: 0 <= k < |es| ==> |EntryRows(s, es[k])| == 1
    ensures |JoinEntries(s, es)| == |es|
    ensures forall k :: 0 <= k < |es| ==> JoinEntries(s, es)[k] == EntryRows(s, es[k])[0]
  {
    if |es| > 0 {
      var head := EntryRows(s, es[0]);
      var rest := JoinEntries(s, es[1..]);
      assert forall k :: 0 <= k < |es[1..]| ==> |EntryRows(s, es[1..][k])| == 1 by {
        forall k | 0 <= k < |es[1..]|
          ensures |EntryRows(s, es[1..][k])| == 1
        {
          assert es[1..][k] == es[k + 1];
        }
      }
      JoinSingletons(s, es[1..]);
      var r := JoinEntries(s, es);
      assert r == head + rest;
      forall k | 0 <= k < |es|
        ensures r[k] == EntryRows(s, es[k])[0]
      {
        if k > 0 {
          assert r[k] == rest[k - 1];
          assert es[1..][k - 1] == es[k];
        }
      }
    }
  }

  /** In a well-formed store each entry yields exactly its own vehicle, so
      the listing follows the entries one for one. */
  lemma JoinEntriesExact(s: Store, es: seq<WishlistEntry>)
    requires VehiclesWellFormed(s)
    requires forall k :: 0 <= k < |es| ==> VehicleExists(s, es[k].vehicleId)
    ensures |JoinEntries(s, es)| == |es|
    ensures forall k :: 0 <= k < |es| ==> JoinEntries(s, es)[k].vehicle.id == es[k].vehicleId
  {
    forall k | 0 <= k < |es|
      ensures |EntryRows(s, es[k])| == 1
    {
      EntryJoinsOnce(s, es[k]);
    }
    JoinSingletons(s, es);
  }

  /** Every entry of a well-formed store names an existing vehicle. */
  lemma SavedVehiclesExist(s: Store, userId: int)
    requires WishlistWellFormed(s)
    ensures forall k :: 0 <= k < |SavedBy(s, userId)| ==> VehicleExists(s, SavedBy(s, userId)[k].vehicleId)
  {
    var es := SavedBy(s, userId);
    SavedAreStored(s, userId);
    forall k | 0 <= k < |es|
      ensures VehicleExists(s, es[k].vehicleId)
    {
      var i :| 0 <= i < |s.wishlist| && s.wishlist[i] == es[k];
    }
  }

  /** In a well-formed store the wishlist page shows one vehicle per saved
      entry, in the entries' order: newest entry first. */
  lemma WishlistFollowsEntries(s: Store, userId: int)
    requires VehiclesWellFormed(s) && WishlistWellFormed(s)
    ensures var es := SavedBy(s, userId);
      var r := GetUserWishlist(s, userId);
      && |r| == |es|
      && (forall k :: 0 <= k < |r| ==> r[k].vehicle.id == es[k].vehicleId)
  {
    SavedVehiclesExist(s, userId);
    JoinEntriesExact(s, SavedBy(s, userId));
  }

  /** A pair the wishlist holds is among the user's saved entries. */
  lemma SavedHasPair(s: Store, userId: int, vehicleId: int) returns (k: nat)
    requires HasPair(s, userId, vehicleId)
    ensures k < |SavedBy(s, userId)| && SavedBy(s, userId)[k].vehicleId == vehicleId
  {
    var es := SavedBy(s, userId);
    var i :| 0 <= i < |s.wishlist| && IsPair(s.wishlist[i], userId, vehicleId);
    var e := s.wishlist[i];
    assert e in multiset(s.wishlist);
    assert multiset(es)[e] == multiset(s.wishlist)[e];
    assert e in es;
    k :| 0 <= k < |es| && es[k] == e;
  }

  /** In a well-formed store every vehicle the user saved is on the page. */
  lemma WishlistShowsEverySaved(s: Store, userId: int, vehicleId: int)
    requires VehiclesWellFormed(s) && WishlistWellFormed(s) && HasPair(s, userId, vehicleId)
    ensures var r := GetUserWishlist(s, userId);
      exists k :: 0 <= k < |r| && r[k].vehicle.id == vehicleId
  {
    var k := SavedHasPair(s, userId, vehicleId);
    WishlistFollowsEntries(s, userId);
    assert GetUserWishlist(s, userId)[k].vehicle.id == vehicleId;
  }
}
