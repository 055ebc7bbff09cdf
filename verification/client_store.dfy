/** The front end's client-side state: the signed-in user, the comparison
    tray (up to three vehicle ids, repeats allowed) and the saved-vehicle
    list (no repeats). Each reducer is a pure function from the old state to
    the new one. */
module ClientStore {
  import opened Common

  /** The signed-in user as the client keeps it. */
  datatype AuthUser = AuthUser(id: int, email: string, fullName: string, role: string)

  /** The authentication slice of the client state. */
  datatype AuthState = AuthState(user: Option<AuthUser>, token: Option<string>, isLoading: bool)

  /** `logout`: forget the user and the token; the loading flag stays. */
  function Logout(s: AuthState): (r: AuthState)
    ensures r.user.None? && r.token.None?
    ensures r.isLoading == s.isLoading
  {
    s.(user := None, token := None)
  }

  /** Signing out twice is signing out once. */
  lemma LogoutIsIdempotent(s: AuthState)
    ensures Logout(Logout(s)) == Logout(s)
  {
  }

  // The comparison tray.

  /** How many vehicles the tray holds at most. */
  const TrayCapacity := 3

  /** `addVehicle(id)`: append the id while fewer than three are selected,
      otherwise leave the selection as it is. Repeats are not rejected. */
  function AddVehicle(selected: seq<int>, id: int): (r: seq<int>)
    ensures |selected| < TrayCapacity ==> r == selected + [id]
    ensures |selected| >= TrayCapacity ==> r == selected
    ensures |r| <= TrayCapacity || r == selected
  {
    if |selected| < TrayCapacity then selected + [id] else selected
  }

  /** `removeVehicle(id)`: every occurrence of the id goes, the rest keep
      their order. */
  function RemoveVehicle(selected: seq<int>, id: int): (r: seq<int>)
    ensures id !in r
    ensures |r| <= |selected|
    ensures forall x :: x != id ==> multiset(r)[x] == multiset(selected)[x]
  {
    var r := Filter(selected, (x: int) => x != id);
    forall x | x != id
      ensures multiset(r)[x] == multiset(selected)[x]
    {
      FilterMultiset(selected, (y: int) => y != id, x);
    }
    r
  }

  /** One step a user can take on the tray. */
  datatype TrayAction = Add(id: int) | Remove(id: int) | Clear

  /** The tray after one action; `clearComparison` empties it. */
  function ApplyTray(selected: seq<int>, a: TrayAction): seq<int>
  {
    match a
    case Add(id) => AddVehicle(selected, id)
    case Remove(id) => RemoveVehicle(selected, id)
    case Clear => []
  }

  /** The tray after a sequence of actions, starting from `selected`. */
  function RunTray(selected: seq<int>, actions: seq<TrayAction>): seq<int>
    decreases |actions|
  {
    if |actions| == 0 then selected else RunTray(ApplyTray(selected, actions[0]), actions[1..])
  }

  /** Whatever the user does, a tray that starts empty never holds more
      than three ids. */
  lemma {:induction false} TrayStaysBounded(selected: seq<int>, actions: seq<TrayAction>)
    requires |selected| <= TrayCapacity
    ensures |RunTray(selected, actions)| <= TrayCapacity
    decreases |actions|
  {
    if |actions| > 0 {
      var next := ApplyTray(selected, actions[0]);
      assert |next| <= TrayCapacity;
      TrayStaysBounded(next, actions[1..]);
    }
  }

  /** The same id can be added twice. */
  lemma TrayAllowsRepeats(id: int)
    ensures AddVehicle(AddVehicle([], id), id) == [id, id]
  {
  }

  /** A full tray ignores further additions. */
  lemma FullTrayIgnoresAdd(selected: seq<int>, id: int)
    requires |selected| == TrayCapacity
    ensures RunTray(selected, [Add(id)]) == selected
  {
  }

  /** Removal read left to right: nothing from nothing, and each later id is
      kept at the end exactly when it is not the removed one. Together these
      fix the result, so the ids that stay keep their order. */
  lemma RemoveVehicleKeepsOrder(selected: seq<int>, x: int, id: int)
    ensures RemoveVehicle([], id) == []
    ensures RemoveVehicle(selected + [x], id) == RemoveVehicle(selected, id) + (if x == id then [] else [x])
  {
    FilterAppend(selected, [x], (y: int) => y != id);
  }

  /** Removing an id that is not selected changes nothing. */
  lemma RemoveAbsentVehicle(selected: seq<int>, id: int)
    requires id !in selected
    ensures RemoveVehicle(selected, id) == selected
  {
    FilterKeepsAll(selected, (x: int) => x != id);
  }

  // The saved-vehicle list.

  /** No id occurs twice. */
  predicate NoRepeats(items: seq<int>)
  {
    forall i, j :: 0 <= i < j < |items| ==> items[i] != items[j]
  }

  /** `isInWishlist(id)`. */
  predicate IsInWishlist(items: seq<int>, id: int)
  {
    id in items
  }

  /** `addItem(id)`: append the id unless it is already saved. */
  function AddItem(items: seq<int>, id: int): (r: seq<int>)
    ensures IsInWishlist(r, id)
    ensures forall x :: IsInWishlist(r, x) <==> IsInWishlist(items, x) || x == id
    ensures IsInWishlist(items, id) ==> r == items
    ensures NoRepeats(items) ==> NoRepeats(r)
  {
    if id in items then items else items + [id]
  }

  /** `removeItem(id)`: the id goes, the rest keep their order. */
  function RemoveItem(items: seq<int>, id: int): (r: seq<int>)
    ensures !IsInWishlist(r, id)
    ensures forall x :: x != id ==> (IsInWishlist(r, x) <==> IsInWishlist(items, x))
    ensures NoRepeats(items) ==> NoRepeats(r)
  {
    var p := (x: int) => x != id;
    var r := Filter(items, p);
    forall x | x != id
      ensures (x in r) <==> (x in items)
    {
      FilterMultiset(items, p, x);
    }
    if NoRepeats(items) then
      assert DistinctKeys(items, (x: int) => x);
      FilterKeepsDistinct(items, p, (x: int) => x);
      assert DistinctKeys(r, (x: int) => x);
      r
    else
      r
  }

  /** Removal from the saved list read left to right, as for the tray: the
      ids that stay keep their order. */
  lemma RemoveItemKeepsOrder(items: seq<int>, x: int, id: int)
    ensures RemoveItem([], id) == []
    ensures RemoveItem(items + [x], id) == RemoveItem(items, id) + (if x == id then [] else [x])
  {
    FilterAppend(items, [x], (y: int) => y != id);
  }

  /** Saving an id twice is saving it once. */
  lemma AddItemIsIdempotent(items: seq<int>, id: int)
    ensures AddItem(AddItem(items, id), id) == AddItem(items, id)
  {
  }

  /** One step a user can take on the saved list. */
  datatype WishlistAction = AddItemAction(id: int) | RemoveItemAction(id: int)

  /** The saved list after a sequence of actions. */
  function RunWishlist(items: seq<int>, actions: seq<WishlistAction>): seq<int>
    decreases |actions|
  {
    if |actions| == 0 then items
    else
      var next := match actions[0]
        case AddItemAction(id) => AddItem(items, id)
        case RemoveItemAction(id) => RemoveItem(items, id);
      RunWishlist(next, actions[1..])
  }

  /** Whatever the user does, a saved list that starts without repeats
      never gets one. */
  lemma {:induction false} WishlistStaysUnique(items: seq<int>, actions: seq<WishlistAction>)
    requires NoRepeats(items)
    ensures NoRepeats(RunWishlist(items, actions))
    decreases |actions|
  {
    if |actions| > 0 {
      var next := match actions[0]
        case AddItemAction(id) => AddItem(items, id)
        case RemoveItemAction(id) => RemoveItem(items, id);
      assert NoRepeats(next);
      WishlistStaysUnique(next, actions[1..]);
    }
  }

  /** Right after `addItem(id)` the id is saved; right after
      `removeItem(id)` it is not. */
  lemma AddThenRemoveItem(items: seq<int>, id: int)
    ensures IsInWishlist(RunWishlist(items, [AddItemAction(id)]), id)
    ensures !IsInWishlist(RunWishlist(items, [AddItemAction(id), RemoveItemAction(id)]), id)
  {
    var added := AddItem(items, id);
    assert [AddItemAction(id), RemoveItemAction(id)][1..] == [RemoveItemAction(id)];
    assert RunWishlist(items, [AddItemAction(id), RemoveItemAction(id)])
        == RunWishlist(added, [RemoveItemAction(id)]);
    assert RunWishlist(added, [RemoveItemAction(id)]) == RunWishlist(RemoveItem(added, id), []);
  }
}
