/** The account endpoints: registration, login, and reading and updating
    the signed-in user's profile. Password hashing and checking are foreign
    and arrive as functions; the signed token is not modelled. */
module AuthController {
  import opened Common
  import opened Schema
  import opened Http
  import AuthService

  /** The refusal of a registration without email, password or full name. */
  const MissingFields := "Missing required fields"

  /** The body has the three fields registration requires. */
  predicate CanRegister(body: AuthService.UserPayload)
  {
    Truthy(body.email) && Truthy(body.password) && Truthy(body.fullName)
  }

  /** `register`: 400 when email, password or full name is missing or
      empty; otherwise the user is registered with `hash(password)`, and a
      store error (a taken email) becomes a 400 carrying the error's own
      message instead of reaching the error middleware. */
  function Register(s: Store, body: AuthService.UserPayload, hash: string -> string, now: int): (r: (Store, Reply<AuthService.PublicUser>))
    ensures r.1 == BadRequest(MissingFields) <==> !CanRegister(body)
    ensures !r.1.Created? ==> r.0 == s
    ensures r.1.Created? || r.1 == BadRequest(MissingFields) || r.1 == Refused(400, StoreText(UniqueViolation))
    ensures CanRegister(body) ==>
      (r.1 == Refused(400, StoreText(UniqueViolation)) <==> AuthService.EmailTaken(s, body.email.value))
    ensures r.1.Created? ==>
      && CanRegister(body)
      && r.1.body == AuthService.PublicUser(s.nextUserId, body.email.value, body.fullName.value, "user")
      && r.0 == AuthService.Register(s, body.email.value, hash(body.password.value), body.fullName.value,
                                     body.phone, body.city, body.state, now).value.0
  {
    if !CanRegister(body) then (s, BadRequest(MissingFields))
    else match AuthService.Register(s, body.email.value, hash(body.password.value), body.fullName.value,
                                    body.phone, body.city, body.state, now)
      case Success((t, u)) => (t, Created(u))
      case Failure(e) => (s, Refused(400, StoreText(e)))
  }

  /** Registering the same email twice: the second attempt is a 400 and
      changes nothing, whatever the other fields say. */
  lemma SecondRegistrationRefused(s: Store, first: AuthService.UserPayload, second: AuthService.UserPayload,
                                  hash: string -> string, now: int, later: int)
    requires Register(s, first, hash, now).1.Created?
    requires CanRegister(second) && second.email == first.email
    ensures var t := Register(s, first, hash, now).0;
      Register(t, second, hash, later) == (t, Refused(400, StoreText(UniqueViolation)))
  {
    var t := Register(s, first, hash, now).0;
    var u := AuthService.NewUserRow(s, first.email.value, hash(first.password.value), first.fullName.value,
                                    first.phone, first.city, first.state, now);
    assert t.users[|s.users|] == u;
  }

  /** The login request body. */
  datatype Credentials = Credentials(email: Option<string>, password: Option<string>)

  /** The refusal of a login without email or password. */
  const CredentialsRequired := "Email and password are required"

  /** The message of each reason `login` throws. */
  function LoginMessage(e: AuthService.LoginError): (m: string)
    ensures e.UserNotFound? <==> m == "User not found"
    ensures e.InvalidPassword? <==> m == "Invalid password"
  {
    match e
    case UserNotFound => "User not found"
    case InvalidPassword => "Invalid password"
  }

  /** `login`: 400 when email or password is missing or empty; a failed
      login is a 401 that tells an unknown email from a wrong password;
      otherwise the user's public columns. `accepts(password, hash)` is the
      foreign password check. */
  function Login(s: Store, body: Credentials, accepts: (string, string) -> bool): (r: Reply<AuthService.PublicUser>)
    ensures r == BadRequest(CredentialsRequired) <==> !Truthy(body.email) || !Truthy(body.password)
    ensures r.Ok? || r == BadRequest(CredentialsRequired)
            || r == Refused(401, Message("User not found")) || r == Refused(401, Message("Invalid password"))
    ensures Truthy(body.email) && Truthy(body.password) ==>
      && (r == Refused(401, Message("User not found")) <==> !AuthService.EmailTaken(s, body.email.value))
      && (r == Refused(401, Message("Invalid password")) <==>
            && AuthService.EmailTaken(s, body.email.value)
            && !accepts(body.password.value, AuthService.FindByEmail(s.users, body.email.value).value.password))
      && (r.Ok? <==>
            && AuthService.EmailTaken(s, body.email.value)
            && accepts(body.password.value, AuthService.FindByEmail(s.users, body.email.value).value.password))
      && (r.Ok? ==> exists i :: 0 <= i < |s.users| && s.users[i].email == body.email.value
                                && accepts(body.password.value, s.users[i].password)
                                && r.body == AuthService.PublicOf(s.users[i]))
  {
    if !Truthy(body.email) || !Truthy(body.password) then BadRequest(CredentialsRequired)
    else match AuthService.Login(s, body.email.value, body.password.value, accepts)
      case Success(u) =>
        var found := AuthService.FindByEmail(s.users, body.email.value).value;
        var i :| 0 <= i < |s.users| && s.users[i] == found;
        Ok(u)
      case Failure(e) => Refused(401, Message(LoginMessage(e)))
  }

  /** Right after registering, logging in with the same email and password
      succeeds with the user registration returned, for any password check
      that accepts a password against its own hash. */
  lemma RegisterThenLogIn(s: Store, body: AuthService.UserPayload, hash: string -> string,
                          accepts: (string, string) -> bool, now: int)
    requires Register(s, body, hash, now).1.Created?
    requires forall p :: accepts(p, hash(p))
    ensures var (t, registered) := Register(s, body, hash, now);
      Login(t, Credentials(body.email, body.password), accepts) == Ok(registered.body)
  {
    var email := body.email.value;
    var password := body.password.value;
    assert accepts(password, hash(password));
    AuthService.RegisterThenLogin(s, email, password, hash(password), body.fullName.value,
                                  body.phone, body.city, body.state, now, accepts);
  }

  /** `getProfile`: 401 without a signed-in user, 404 when the user's row
      is gone, otherwise the profile columns. */
  function GetProfile(s: Store, user: Option<int>): (r: Reply<AuthService.Profile>)
    ensures r == Unauthorized() <==> user.None?
    ensures r == NotFound("User not found") <==> user.Some? && !UserExists(s, user.value)
    ensures r.Ok? || r == Unauthorized() || r == NotFound("User not found")
    ensures r.Ok? ==> user.Some? && r.body.id == user.value
    ensures r.Ok? ==> AuthService.GetUserById(s, user.value) == Some(r.body)
    ensures r.Ok? ==>
      exists i :: 0 <= i < |s.users| && s.users[i].id == user.value && r.body == AuthService.ProfileOf(s.users[i])
  {
    if user.None? then Unauthorized()
    else match AuthService.GetUserById(s, user.value)
      case None => NotFound("User not found")
      case Some(p) => Ok(p)
  }

  /** A freshly registered user sees their profile under the id
      registration returned, with the email and name they gave. */
  lemma RegisteredProfile(s: Store, body: AuthService.UserPayload, hash: string -> string, now: int)
    requires WellFormed(s)
    requires Register(s, body, hash, now).1.Created?
    ensures var (t, registered) := Register(s, body, hash, now);
      var r := GetProfile(t, Some(registered.body.id));
      && r.Ok?
      && r.body.email == body.email.value
      && r.body.fullName == body.fullName.value
  {
    var (t, registered) := Register(s, body, hash, now);
    var u := AuthService.NewUserRow(s, body.email.value, hash(body.password.value), body.fullName.value,
                                    body.phone, body.city, body.state, now);
    assert t.users[|s.users|] == u;
    assert UserExists(t, registered.body.id);
    var p := AuthService.GetUserById(t, u.id).value;
    var i :| 0 <= i < |t.users| && t.users[i].id == u.id && p == AuthService.ProfileOf(t.users[i]);
    assert i == |s.users|;
  }

  /** When `updateUser` returns null, it wrote nothing: either there was
      nothing to set, or no row has the id. */
  lemma NullUpdateWritesNothing(s: Store, userId: int, d: AuthService.UserPayload, now: int)
    requires AuthService.UpdateUser(s, userId, d, now).1.None?
    ensures AuthService.UpdateUser(s, userId, d, now).0 == s
  {
    var t := AuthService.UpdateUser(s, userId, d, now).0;
    if !AuthService.NothingToUpdate(d) {
      assert forall i :: 0 <= i < |s.users| ==> s.users[i].id != userId;
      assert t.users == s.users;
    }
  }

  /** `updateProfile`: 401 without a signed-in user; otherwise the body
      goes to `updateUser`, and a null answer is a 404 "User not found",
      including for a body with nothing to set. Only a 200 changes the
      store. */
  function UpdateProfile(s: Store, user: Option<int>, body: AuthService.UserPayload, now: int): (r: (Store, Reply<AuthService.UserRowSummary>))
    ensures r.1 == Unauthorized() <==> user.None?
    ensures r.1 == NotFound("User not found") <==>
              user.Some? && (AuthService.NothingToUpdate(body) || !UserExists(s, user.value))
    ensures r.1.Ok? || r.1 == Unauthorized() || r.1 == NotFound("User not found")
    ensures !r.1.Ok? ==> r.0 == s
    ensures r.1.Ok? ==>
      && user.Some?
      && r.0 == AuthService.UpdateUser(s, user.value, body, now).0
      && r.1.body.id == user.value
      && AuthService.UpdateUser(s, user.value, body, now).1 == Some(r.1.body)
      && exists i :: 0 <= i < |s.users| && s.users[i].id == user.value
                     && r.1.body == AuthService.SummaryOf(AuthService.Merged(s.users[i], body, now))
  {
    if user.None? then (s, Unauthorized())
    else
      var (t, row) := AuthService.UpdateUser(s, user.value, body, now);
      match row
      case None =>
        NullUpdateWritesNothing(s, user.value, body, now);
        (t, NotFound("User not found"))
      case Some(summary) => (t, Ok(summary))
  }

  /** A signed-in user who sends only an email or a password (fields
      `updateUser` never sets) gets a 404, as if their account did not
      exist. */
  lemma UnsettableFieldsLookLikeMissingUser(s: Store, u: int, email: Option<string>, password: Option<string>, now: int)
    ensures UpdateProfile(s, Some(u), AuthService.UserPayload(email, password, None, None, None, None), now)
              == (s, NotFound("User not found"))
  {
  }
}
