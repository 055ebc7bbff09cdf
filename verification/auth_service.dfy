/** Accounts: registration, login against an abstract password checker,
    the profile lookup, and `updateUser`, which builds an `UPDATE users SET
    ...` statement whose placeholders are numbered as fields are added. */
module AuthService {
  import opened Common
  import opened Schema

  /** The request body of registration and of a profile update. */
  datatype UserPayload = UserPayload(
    email: Option<string>,
    password: Option<string>,
    fullName: Option<string>,
    phone: Option<string>,
    city: Option<string>,
    state: Option<string>)

  /** The columns registration and login hand back: `id, email, full_name,
      role`. */
  datatype PublicUser = PublicUser(id: int, email: string, fullName: string, role: string)

  /** The public columns of a user row. */
  function PublicOf(u: User): PublicUser
  {
    PublicUser(u.id, u.email, u.fullName, u.role)
  }

  /** Some user has this email. */
  predicate EmailTaken(s: Store, email: string)
  {
    exists i :: 0 <= i < |s.users| && s.users[i].email == email
  }

  /** The row registration inserts: the next id, the hash in place of the
      password, role `'user'`, the column defaults otherwise. */
  function NewUserRow(s: Store, email: string, hashed: string, fullName: string,
                      phone: Option<string>, city: Option<string>, state: Option<string>, now: int): User
  {
    User(s.nextUserId, email, hashed, fullName, phone, city, state, None, "user", false, now, now)
  }

  /** `register(data)` with the password already hashed (hashing is
      foreign): the row stores the hash and role `'user'` whatever the
      request says, a taken email breaks `UNIQUE`, and only the public
      columns come back. */
  function Register(s: Store, email: string, hashed: string, fullName: string,
                    phone: Option<string>, city: Option<string>, state: Option<string>, now: int): (r: Result<(Store, PublicUser), DbError>)
    ensures r.Failure? <==> EmailTaken(s, email)
    ensures r.Failure? ==> r.error == UniqueViolation
    ensures r.Success? ==>
      var u := NewUserRow(s, email, hashed, fullName, phone, city, state, now);
      && r.value.0 == s.(users := s.users + [u], nextUserId := s.nextUserId + 1)
      && u.role == "user" && u.password == hashed
      && r.value.1 == PublicUser(s.nextUserId, email, fullName, "user")
  {
    if EmailTaken(s, email) then Failure(UniqueViolation)
    else
      var u := NewUserRow(s, email, hashed, fullName, phone, city, state, now);
      Success((s.(users := s.users + [u], nextUserId := s.nextUserId + 1), PublicOf(u)))
  }

  /** Registration keeps the store well-formed: ids stay below the sequence
      and emails stay unique. */
  lemma RegisterKeepsWellFormed(s: Store, email: string, hashed: string, fullName: string,
                                phone: Option<string>, city: Option<string>, state: Option<string>, now: int)
    requires WellFormed(s)
    requires Register(s, email, hashed, fullName, phone, city, state, now).Success?
    ensures WellFormed(Register(s, email, hashed, fullName, phone, city, state, now).value.0)
  {
    var u := NewUserRow(s, email, hashed, fullName, phone, city, state, now);
    assert Register(s, email, hashed, fullName, phone, city, state, now).value.0 == s.(users := s.users + [u], nextUserId := s.nextUserId + 1);
    AppendUserWellFormed(s, u);
  }

  /** Appending a user numbered by the sequence with a fresh email keeps
      the store well-formed. */
  lemma AppendUserWellFormed(s: Store, u: User)
    requires WellFormed(s)
    requires u.id == s.nextUserId && !EmailTaken(s, u.email)
    ensures WellFormed(s.(users := s.users + [u], nextUserId := s.nextUserId + 1))
  {
    var t := s.(users := s.users + [u], nextUserId := s.nextUserId + 1);
    assert forall id :: UserExists(s, id) ==> UserExists(t, id) by {
      forall id | UserExists(s, id)
        ensures UserExists(t, id)
      {
        var i :| 0 <= i < |s.users| && s.users[i].id == id;
        assert t.users[i] == s.users[i];
      }
    }
    assert UsersWellFormed(t) by {
      forall i | 0 <= i < |t.users|
        ensures 1 <= t.users[i].id < t.nextUserId
      {
        if i < |s.users| {
          assert t.users[i] == s.users[i];
        }
      }
      forall i, j | 0 <= i < j < |t.users|
        ensures t.users[i].id != t.users[j].id && t.users[i].email != t.users[j].email
      {
        assert t.users[i] == s.users[i];
        if j < |s.users| {
          assert t.users[j] == s.users[j];
        }
      }
    }
  }

  /** Why `login` throws. */
  datatype LoginError = UserNotFound | InvalidPassword

  /** The first user row with this email (`SELECT * ... WHERE email = $1`,
      `rows[0]`). */
  function FindByEmail(users: seq<User>, email: string): (r: Option<User>)
    ensures r.Some? <==> exists i :: 0 <= i < |users| && users[i].email == email
    ensures r.Some? ==> r.value in users && r.value.email == email
  {
    if |users| == 0 then None
    else if users[0].email == email then Some(users[0])
    else
      assert (exists i :: 0 <= i < |users| && users[i].email == email) ==>
             (exists i :: 0 <= i < |users[1..]| && users[1..][i].email == email) by {
        if exists i :: 0 <= i < |users| && users[i].email == email {
          var i :| 0 <= i < |users| && users[i].email == email;
          assert users[1..][i - 1] == users[i];
        }
      }
      FindByEmail(users[1..], email)
  }

  /** `login(email, password)`. `accepts(password, hash)` stands for the
      foreign password comparison. An unknown email and a rejected password
      are told apart; on success only the public columns come back. */
  function Login(s: Store, email: string, password: string, accepts: (string, string) -> bool): (r: Result<PublicUser, LoginError>)
    ensures r == Failure(UserNotFound) <==> !EmailTaken(s, email)
    ensures r == Failure(InvalidPassword) <==>
              EmailTaken(s, email) && !accepts(password, FindByEmail(s.users, email).value.password)
    ensures r.Success? ==> exists i :: 0 <= i < |s.users| && s.users[i].email == email && r.value == PublicOf(s.users[i])
  {
    match FindByEmail(s.users, email)
    case None => Failure(UserNotFound)
    case Some(u) =>
      if !accepts(password, u.password) then Failure(InvalidPassword)
      else
        var i :| 0 <= i < |s.users| && s.users[i] == u;
        Success(PublicOf(u))
  }

  /** A user can log in right after registering, with any password checker
      that accepts the password against the hash that was stored, and sees
      the same public columns registration returned. */
  lemma RegisterThenLogin(s: Store, email: string, password: string, hashed: string, fullName: string,
                          phone: Option<string>, city: Option<string>, state: Option<string>, now: int,
                          accepts: (string, string) -> bool)
    requires Register(s, email, hashed, fullName, phone, city, state, now).Success?
    requires accepts(password, hashed)
    ensures var r := Register(s, email, hashed, fullName, phone, city, state, now).value;
      Login(r.0, email, password, accepts) == Success(r.1)
  {
    var r := Register(s, email, hashed, fullName, phone, city, state, now).value;
    var u := NewUserRow(s, email, hashed, fullName, phone, city, state, now);
    NoEarlierEmail(s.users, u);
  }

  /** With the email new to `users`, the appended row is the first with it. */
  lemma NoEarlierEmail(users: seq<User>, u: User)
    requires forall i :: 0 <= i < |users| ==> users[i].email != u.email
    ensures FindByEmail(users + [u], u.email) == Some(u)
  {
    if |users| > 0 {
      assert (users + [u])[1..] == users[1..] + [u];
      NoEarlierEmail(users[1..], u);
    }
  }

  /** The columns `getUserById` selects. */
  datatype Profile = Profile(
    id: int,
    email: string,
    fullName: string,
    phone: Option<string>,
    city: Option<string>,
    state: Option<string>,
    avatarUrl: Option<string>,
    role: string,
    createdAt: int)

  /** The profile columns of a user row. */
  function ProfileOf(u: User): Profile
  {
    Profile(u.id, u.email, u.fullName, u.phone, u.city, u.state, u.avatarUrl, u.role, u.createdAt)
  }

  /** `getUserById(userId)`: the user's profile, or null. */
  function GetUserById(s: Store, userId: int): (r: Option<Profile>)
    ensures r.None? <==> !UserExists(s, userId)
    ensures r.Some? ==>
      exists i :: 0 <= i < |s.users| && s.users[i].id == userId && r.value == ProfileOf(s.users[i])
  {
    var hit := Filter(s.users, (u: User) => u.id == userId);
    assert UserExists(s, userId) ==> |hit| > 0 by {
      if UserExists(s, userId) {
        var i :| 0 <= i < |s.users| && s.users[i].id == userId;
        assert s.users[i] in hit;
      }
    }
    if |hit| == 0 then None
    else
      var u := hit[0];
      var i :| 0 <= i < |s.users| && s.users[i] == u;
      Some(ProfileOf(u))
  }

  // ---------------------------------------------------------------------
  // updateUser: the SET clause builder

  /** The columns a profile update may set. */
  datatype Field = FullNameField | PhoneField | CityField | StateField

  /** The order in which `updateUser` tests the fields. */
  function Rank(f: Field): nat
  {
    match f
    case FullNameField => 0
    case PhoneField => 1
    case CityField => 2
    case StateField => 3
  }

  /** The value the request gives for a field. */
  function FieldValue(d: UserPayload, f: Field): Option<string>
  {
    match f
    case FullNameField => d.fullName
    case PhoneField => d.phone
    case CityField => d.city
    case StateField => d.state
  }

  /** The request gives no updatable field a truthy value. */
  predicate NothingToUpdate(d: UserPayload)
  {
    forall f: Field :: !Truthy(FieldValue(d, f))
  }

  /** One item of the SET list: `column = $slot`, or `updated_at =
      CURRENT_TIMESTAMP`. */
  datatype Assignment = SetField(field: Field, slot: nat) | SetUpdatedNow

  /** A bound value: a field's text, or the user id of the WHERE clause. */
  datatype Value = TextValue(text: string) | IdValue(id: int)

  /** The builder's state: `updates`, `values` and `paramCount`. */
  datatype SetBuilder = SetBuilder(updates: seq<Assignment>, values: seq<Value>, paramCount: nat)

  /** The statement `UPDATE users SET <updates> WHERE id = $idSlot`, bound
      to `values`. */
  datatype UpdateStatement = UpdateStatement(updates: seq<Assignment>, idSlot: nat, values: seq<Value>)

  /** The k-th SET item is `$k+1` and binds the k-th value, a text, and
      `paramCount` is the next free slot. */
  predicate SetAligned(b: SetBuilder)
  {
    && b.paramCount == |b.values| + 1
    && |b.updates| == |b.values|
    && forall k :: 0 <= k < |b.updates| ==>
         b.updates[k].SetField? && b.updates[k].slot == k + 1 && b.values[k].TextValue?
  }

  /** `if (data.f) { updates.push('f = $' + paramCount++); values.push(data.f) }`. */
  function PushField(b: SetBuilder, f: Field, value: Option<string>): (r: SetBuilder)
    requires SetAligned(b)
    ensures SetAligned(r)
    ensures Truthy(value) ==>
      && r.updates == b.updates + [SetField(f, |b.values| + 1)]
      && r.values == b.values + [TextValue(value.value)]
    ensures !Truthy(value) ==> r == b
  {
    if Truthy(value) then
      SetBuilder(b.updates + [SetField(f, b.paramCount)], b.values + [TextValue(value.value)], b.paramCount + 1)
    else b
  }

  /** The SET items of `b` are exactly the truthy fields of `d` ranked
      below `upTo`, in rank order, each bound to its request value. */
  predicate Covers(b: SetBuilder, d: UserPayload, upTo: nat)
    requires SetAligned(b)
  {
    && (forall k :: 0 <= k < |b.updates| ==>
          && Rank(b.updates[k].field) < upTo
          && Truthy(FieldValue(d, b.updates[k].field))
          && b.values[k] == TextValue(FieldValue(d, b.updates[k].field).value))
    && (forall i, j :: 0 <= i < j < |b.updates| ==> Rank(b.updates[i].field) < Rank(b.updates[j].field))
    && (forall f: Field :: Rank(f) < upTo && Truthy(FieldValue(d, f)) ==>
          exists k :: 0 <= k < |b.updates| && b.updates[k].field == f)
  }

  /** Testing the next field in rank order extends the coverage by it. */
  lemma PushCovers(b: SetBuilder, d: UserPayload, f: Field)
    requires SetAligned(b) && Covers(b, d, Rank(f))
    ensures Covers(PushField(b, f, FieldValue(d, f)), d, Rank(f) + 1)
  {
    PushItemsBound(b, d, f);
    PushKeepsRankOrder(b, d, f);
    PushKeepsFound(b, d, f);
  }

  /** Ranks tell the fields apart. */
  lemma RankInjective(f: Field, g: Field)
    requires Rank(f) == Rank(g)
    ensures f == g
  {
  }

  /** After the push every SET item is a truthy field ranked at most `f`,
      bound to its request value. */
  lemma PushItemsBound(b: SetBuilder, d: UserPayload, f: Field)
    requires SetAligned(b) && Covers(b, d, Rank(f))
    ensures var r := PushField(b, f, FieldValue(d, f));
      forall k :: 0 <= k < |r.updates| ==>
        && Rank(r.updates[k].field) < Rank(f) + 1
        && Truthy(FieldValue(d, r.updates[k].field))
        && r.values[k] == TextValue(FieldValue(d, r.updates[k].field).value)
  {
    var r := PushField(b, f, FieldValue(d, f));
    forall k | 0 <= k < |r.updates|
      ensures && Rank(r.updates[k].field) < Rank(f) + 1
              && Truthy(FieldValue(d, r.updates[k].field))
              && r.values[k] == TextValue(FieldValue(d, r.updates[k].field).value)
    {
      if k < |b.updates| {
        assert r.updates[k] == b.updates[k] && r.values[k] == b.values[k];
      }
    }
  }

  /** After the push the SET items are still in strictly increasing rank. */
  lemma PushKeepsRankOrder(b: SetBuilder, d: UserPayload, f: Field)
    requires SetAligned(b) && Covers(b, d, Rank(f))
    ensures var r := PushField(b, f, FieldValue(d, f));
      forall i, j :: 0 <= i < j < |r.updates| ==> Rank(r.updates[i].field) < Rank(r.updates[j].field)
  {
    var r := PushField(b, f, FieldValue(d, f));
    forall i, j | 0 <= i < j < |r.updates|
      ensures Rank(r.updates[i].field) < Rank(r.updates[j].field)
    {
      assert r.updates[i] == b.updates[i];
      if j < |b.updates| {
        assert r.updates[j] == b.updates[j];
      }
    }
  }

  /** After the push every truthy field ranked at most `f` has its item. */
  lemma PushKeepsFound(b: SetBuilder, d: UserPayload, f: Field)
    requires SetAligned(b) && Covers(b, d, Rank(f))
    ensures var r := PushField(b, f, FieldValue(d, f));
      forall g: Field :: Rank(g) < Rank(f) + 1 && Truthy(FieldValue(d, g)) ==>
        exists k :: 0 <= k < |r.updates| && r.updates[k].field == g
  {
    var r := PushField(b, f, FieldValue(d, f));
    forall g: Field | Rank(g) < Rank(f) + 1 && Truthy(FieldValue(d, g))
      ensures exists k :: 0 <= k < |r.updates| && r.updates[k].field == g
    {
      if Rank(g) == Rank(f) {
        RankInjective(f, g);
        assert r.updates[|b.updates|].field == f;
      } else {
        var k :| 0 <= k < |b.updates| && b.updates[k].field == g;
        assert r.updates[k] == b.updates[k];
      }
    }
  }

  /** The four tests of `updateUser`, in order. */
  function Collect(d: UserPayload): (b: SetBuilder)
    ensures SetAligned(b) && Covers(b, d, 4)
  {
    var b0 := SetBuilder([], [], 1);
    var b1 := PushField(b0, FullNameField, d.fullName);
    PushCovers(b0, d, FullNameField);
    var b2 := PushField(b1, PhoneField, d.phone);
    PushCovers(b1, d, PhoneField);
    var b3 := PushField(b2, CityField, d.city);
    PushCovers(b2, d, CityField);
    var b4 := PushField(b3, StateField, d.state);
    PushCovers(b3, d, StateField);
    b4
  }

  /** The statement `updateUser` issues, or `None` when no field is truthy
      (it then returns null without touching the store). Otherwise the
      chosen fields come first, in the fixed order full_name, phone, city,
      state, the k-th bound to `$k`; `updated_at = CURRENT_TIMESTAMP`
      follows; the id is bound to the next slot, after every field value. */
  function BuildUpdate(d: UserPayload, userId: int): (r: Option<UpdateStatement>)
    ensures r.None? <==> NothingToUpdate(d)
    ensures r.Some? ==> ShapedFor(r.value, d, userId)
  {
    var b := Collect(d);
    CollectEmpty(d);
    if |b.updates| == 0 then None
    else
      var st := UpdateStatement(b.updates + [SetUpdatedNow], b.paramCount, b.values + [IdValue(userId)]);
      CollectedShape(b, d, userId, st);
      Some(st)
  }

  /** The statement binds the request, its chosen fields in rank order, and
      the id in the slot after every field value. */
  predicate ShapedFor(st: UpdateStatement, d: UserPayload, userId: int)
  {
    && BindsRequest(st, d)
    && st.idSlot == |st.updates|
    && |st.values| == |st.updates|
    && st.values[|st.updates| - 1] == IdValue(userId)
    && forall i, j :: 0 <= i < j < |st.updates| - 1 ==>
         st.updates[i].SetField? && st.updates[j].SetField? &&
         Rank(st.updates[i].field) < Rank(st.updates[j].field)
  }

  /** The collected items followed by `updated_at` and the id make a
      statement shaped for the request. */
  lemma CollectedShape(b: SetBuilder, d: UserPayload, userId: int, st: UpdateStatement)
    requires SetAligned(b) && Covers(b, d, 4) && |b.updates| > 0
    requires st == UpdateStatement(b.updates + [SetUpdatedNow], b.paramCount, b.values + [IdValue(userId)])
    ensures ShapedFor(st, d, userId)
  {
    StatementKeepsItems(b, d, st.updates);
  }

  /** No SET item is collected exactly when no field is truthy. */
  lemma CollectEmpty(d: UserPayload)
    ensures |Collect(d).updates| == 0 <==> NothingToUpdate(d)
  {
    var b := Collect(d);
    if |b.updates| > 0 {
      assert Truthy(FieldValue(d, b.updates[0].field));
    }
    if !NothingToUpdate(d) {
      var f: Field :| Truthy(FieldValue(d, f));
      assert Rank(f) < 4;
    }
  }

  /** Appending `updated_at` keeps every collected item where it was. */
  lemma StatementKeepsItems(b: SetBuilder, d: UserPayload, updates: seq<Assignment>)
    requires SetAligned(b) && Covers(b, d, 4)
    requires updates == b.updates + [SetUpdatedNow]
    ensures forall f: Field :: Truthy(FieldValue(d, f)) ==>
              exists k :: 0 <= k < |b.updates| && updates[k].field == f
  {
    forall f: Field | Truthy(FieldValue(d, f))
      ensures exists k :: 0 <= k < |b.updates| && updates[k].field == f
    {
      assert Rank(f) < 4;
      var k :| 0 <= k < |b.updates| && b.updates[k].field == f;
      assert updates[k] == b.updates[k];
    }
  }

  /** The position of the first SET item that assigns `f`, if any. */
  function AssignmentOf(updates: seq<Assignment>, f: Field): (r: Option<nat>)
    ensures r.Some? ==> r.value < |updates| && updates[r.value].SetField? && updates[r.value].field == f
    ensures r.None? ==> forall k :: 0 <= k < |updates| ==> !(updates[k].SetField? && updates[k].field == f)
  {
    if |updates| == 0 then None
    else if updates[0].SetField? && updates[0].field == f then Some(0)
    else
      match AssignmentOf(updates[1..], f)
      case None => None
      case Some(k) => Some(k + 1)
  }

  /** The text the statement assigns to `f`: the value bound to the slot of
      `f`'s SET item, if `f` is assigned. */
  function AssignedText(st: UpdateStatement, f: Field): Option<string>
  {
    match AssignmentOf(st.updates, f)
    case None => None
    case Some(k) =>
      var slot := st.updates[k].slot;
      if 1 <= slot <= |st.values| && st.values[slot - 1].TextValue? then Some(st.values[slot - 1].text) else None
  }

  /** The id the WHERE clause binds. */
  function WhereId(st: UpdateStatement): Option<int>
  {
    if 1 <= st.idSlot <= |st.values| && st.values[st.idSlot - 1].IdValue? then Some(st.values[st.idSlot - 1].id) else None
  }

  /** What executing the SET list does to a matched row: each assigned
      column takes its bound text, `updated_at` the statement's time. */
  function Execute(u: User, st: UpdateStatement, now: int): User
  {
    var name := AssignedText(st, FullNameField);
    u.(fullName := if name.Some? then name.value else u.fullName,
       phone := if AssignedText(st, PhoneField).Some? then AssignedText(st, PhoneField) else u.phone,
       city := if AssignedText(st, CityField).Some? then AssignedText(st, CityField) else u.city,
       state := if AssignedText(st, StateField).Some? then AssignedText(st, StateField) else u.state,
       updatedAt := if SetUpdatedNow in st.updates then now else u.updatedAt)
  }

  /** The profile update as intended, column by column: a truthy request
      value replaces the column, anything else leaves it, and the row is
      stamped with the time. */
  function Merged(u: User, d: UserPayload, now: int): User
  {
    u.(fullName := if Truthy(d.fullName) then d.fullName.value else u.fullName,
       phone := if Truthy(d.phone) then d.phone else u.phone,
       city := if Truthy(d.city) then d.city else u.city,
       state := if Truthy(d.state) then d.state else u.state,
       updatedAt := now)
  }

  /** What the built statement promises about its SET items and bound
      values: the items before the last assign truthy fields, item k from
      slot k+1 holding that field's request text, and every truthy field
      has an item; the last item stamps `updated_at`. */
  predicate BindsRequest(st: UpdateStatement, d: UserPayload)
  {
    var n := |st.updates| - 1;
    && n >= 0
    && st.updates[n] == SetUpdatedNow
    && |st.values| == n + 1
    && (forall k :: 0 <= k < n ==>
          && st.updates[k].SetField?
          && st.updates[k].slot == k + 1
          && Truthy(FieldValue(d, st.updates[k].field))
          && st.values[k] == TextValue(FieldValue(d, st.updates[k].field).value))
    && (forall f: Field :: Truthy(FieldValue(d, f)) ==>
          exists k :: 0 <= k < n && st.updates[k].field == f)
  }

  /** Such a statement assigns each truthy field its request value and
      leaves every other field alone. */
  lemma AssignedTextIsRequest(st: UpdateStatement, d: UserPayload, f: Field)
    requires BindsRequest(st, d)
    ensures AssignedText(st, f) == if Truthy(FieldValue(d, f)) then FieldValue(d, f) else None
  {
    var n := |st.updates| - 1;
    match AssignmentOf(st.updates, f)
    case None =>
    case Some(k) =>
      assert k != n;
      assert st.updates[k].slot == k + 1;
  }

  /** The WHERE clause of the built statement binds the requested user. */
  lemma WhereIdIsUser(d: UserPayload, userId: int)
    requires BuildUpdate(d, userId).Some?
    ensures WhereId(BuildUpdate(d, userId).value) == Some(userId)
  {
  }

  /** Executing the built statement on a row is the intended merge. */
  lemma ExecuteMeansMerge(u: User, d: UserPayload, userId: int, now: int)
    requires BuildUpdate(d, userId).Some?
    ensures Execute(u, BuildUpdate(d, userId).value, now) == Merged(u, d, now)
  {
    var st := BuildUpdate(d, userId).value;
    assert BindsRequest(st, d);
    ExecuteStatement(u, st, d, now);
  }

  /** Executing any statement that binds the request is the merge. */
  lemma ExecuteStatement(u: User, st: UpdateStatement, d: UserPayload, now: int)
    requires BindsRequest(st, d)
    ensures Execute(u, st, now) == Merged(u, d, now)
  {
    AssignedTextIsRequest(st, d, FullNameField);
    AssignedTextIsRequest(st, d, PhoneField);
    AssignedTextIsRequest(st, d, CityField);
    AssignedTextIsRequest(st, d, StateField);
    assert st.updates[|st.updates| - 1] == SetUpdatedNow;
  }

  /** `updateUser(userId, data)`: with nothing truthy to set, null and no
      statement; otherwise the row with that id is updated by the built
      statement, and its `id, email, full_name, phone, city, state` come
      back, or null when no row has that id. */
  function UpdateUser(s: Store, userId: int, d: UserPayload, now: int): (r: (Store, Option<UserRowSummary>))
    ensures NothingToUpdate(d) ==> r == (s, None)
    ensures r.0 == s.(users := r.0.users) && |r.0.users| == |s.users|
    ensures forall i :: 0 <= i < |s.users| ==>
              r.0.users[i] == if s.users[i].id == userId && !NothingToUpdate(d) then Merged(s.users[i], d, now) else s.users[i]
    ensures r.1.Some? <==> !NothingToUpdate(d) && UserExists(s, userId)
    ensures r.1.Some? ==> exists i :: 0 <= i < |s.users| && s.users[i].id == userId && r.1.value == SummaryOf(Merged(s.users[i], d, now))
  {
    match BuildUpdate(d, userId)
    case None => (s, None)
    case Some(st) =>
      WhereIdIsUser(d, userId);
      var id := WhereId(st).value;
      var users := seq(|s.users|, i requires 0 <= i < |s.users| =>
                         if s.users[i].id == id then Execute(s.users[i], st, now) else s.users[i]);
      assert forall i :: 0 <= i < |s.users| ==>
               users[i] == if s.users[i].id == userId then Merged(s.users[i], d, now) else s.users[i] by {
        forall i | 0 <= i < |s.users|
          ensures users[i] == if s.users[i].id == userId then Merged(s.users[i], d, now) else s.users[i]
        {
          ExecuteMeansMerge(s.users[i], d, userId, now);
        }
      }
      var hit := Filter(users, (u: User) => u.id == id);
      SummaryOfHit(s, users, userId, d, now);
      (s.(users := users), if |hit| == 0 then None else Some(SummaryOf(hit[0])))
  }

  /** The columns `updateUser` returns. */
  datatype UserRowSummary = UserRowSummary(
    id: int,
    email: string,
    fullName: string,
    phone: Option<string>,
    city: Option<string>,
    state: Option<string>)

  /** The returned columns of a user row. */
  function SummaryOf(u: User): UserRowSummary
  {
    UserRowSummary(u.id, u.email, u.fullName, u.phone, u.city, u.state)
  }

  /** The `RETURNING` row is the merged row of that user, present exactly
      when the user exists. */
  lemma SummaryOfHit(s: Store, users: seq<User>, userId: int, d: UserPayload, now: int)
    requires |users| == |s.users|
    requires forall i :: 0 <= i < |s.users| ==>
               users[i] == if s.users[i].id == userId then Merged(s.users[i], d, now) else s.users[i]
    ensures var hit := Filter(users, (u: User) => u.id == userId);
      && (|hit| > 0 <==> UserExists(s, userId))
      && (|hit| > 0 ==> exists i :: 0 <= i < |s.users| && s.users[i].id == userId && hit[0] == Merged(s.users[i], d, now))
  {
    var hit := Filter(users, (u: User) => u.id == userId);
    if UserExists(s, userId) {
      var i :| 0 <= i < |s.users| && s.users[i].id == userId;
      assert users[i] in hit;
    }
    if |hit| > 0 {
      var i :| 0 <= i < |users| && users[i] == hit[0];
      assert s.users[i].id == userId;
    }
  }

  /** Updating keeps the store well-formed: ids and emails are untouched. */
  lemma UpdateKeepsWellFormed(s: Store, userId: int, d: UserPayload, now: int)
    requires WellFormed(s)
    ensures WellFormed(UpdateUser(s, userId, d, now).0)
  {
    var t := UpdateUser(s, userId, d, now).0;
    assert forall i :: 0 <= i < |s.users| ==> t.users[i].id == s.users[i].id && t.users[i].email == s.users[i].email;
    SameUserKeysWellFormed(s, t);
  }

  /** Rewriting user rows without touching their ids or emails keeps the
      store well-formed. */
  lemma SameUserKeysWellFormed(s: Store, t: Store)
    requires WellFormed(s)
    requires t == s.(users := t.users) && |t.users| == |s.users|
    requires forall i :: 0 <= i < |s.users| ==> t.users[i].id == s.users[i].id && t.users[i].email == s.users[i].email
    ensures WellFormed(t)
  {
    SameUserExistence(s, t);
    assert UsersWellFormed(t);
    SameUserReferences(s, t);
    assert t.vehicles == s.vehicles && t.brands == s.brands && t.variants == s.variants;
  }

  /** Users whose ids survive a rewrite still exist after it. */
  lemma SameUserExistence(s: Store, t: Store)
    requires |t.users| == |s.users|
    requires forall i :: 0 <= i < |s.users| ==> t.users[i].id == s.users[i].id
    ensures forall id :: UserExists(s, id) ==> UserExists(t, id)
  {
    forall id | UserExists(s, id)
      ensures UserExists(t, id)
    {
      var i :| 0 <= i < |s.users| && s.users[i].id == id;
      assert t.users[i].id == id;
    }
  }

  /** The references into `users` hold while every referenced user still
      exists and nothing else changed. */
  lemma SameUserReferences(s: Store, t: Store)
    requires t == s.(users := t.users)
    requires forall id :: UserExists(s, id) ==> UserExists(t, id)
    requires ReviewsWellFormed(s) && WishlistWellFormed(s) && ComparisonsWellFormed(s)
    ensures ReviewsWellFormed(t) && WishlistWellFormed(t) && ComparisonsWellFormed(t)
  {
    assert t.vehicles == s.vehicles;
  }

  /** Repeating the same update at the same time changes nothing more. */
  lemma UpdateIsIdempotent(s: Store, userId: int, d: UserPayload, now: int)
    ensures var t := UpdateUser(s, userId, d, now).0;
      UpdateUser(t, userId, d, now).0 == t
  {
    var t := UpdateUser(s, userId, d, now).0;
    var t2 := UpdateUser(t, userId, d, now).0;
    assert t2.users == t.users;
  }
}
