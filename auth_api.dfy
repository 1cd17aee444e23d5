/** The handlers of app/api/v1/endpoints/auth.py: register, login and the refresh chain. */
module AuthApi {
  import opened Prelude
  import opened Constants
  import opened Crud
  import opened Models
  import opened Schemas
  import opened Foreign
  import opened Api
  import UserService

  /** The token lifetimes, in seconds: minutes and days from the settings. */
  const AccessTokenLifetime: nat := AccessTokenExpireMinutes * SecondsPerMinute
  const RefreshTokenLifetime: nat := RefreshTokenExpireDays * SecondsPerDay

  /** The token pair issued for a user: both tokens carry `str(user.id)` as their subject. */
  function IssueTokens(x: Externals, id: Id): (t: Token)
    ensures TokenValid(t)
    ensures t.accessToken == x.createAccessToken(x.idText(id), AccessTokenLifetime)
    ensures t.refreshToken == x.createRefreshToken(x.idText(id), RefreshTokenLifetime)
  {
    var sub := x.idText(id);
    BearerToken(x.createAccessToken(sub, AccessTokenLifetime), x.createRefreshToken(sub, RefreshTokenLifetime))
  }

  /**
   * `register`: 422 for an invalid body; 400 "Email already registered" when the normalised email is taken;
   * otherwise the new user, stored under the normalised email, with status 201 and shown without its password.
   * A record the users columns cannot hold (a hash too long for its column) surfaces as 500.
   */
  method Register(users: Table<User>, x: Externals, obj: UserCreate, now: Time) returns (r: Response<UserPublic>)
    requires UserService.UsersTable(users)
    modifies users
    ensures UserService.UsersTable(users)
    ensures !UserCreateValid(x.emailStr, obj) ==> r == Error(422, InvalidRequest)
    ensures UserCreateValid(x.emailStr, obj) ==>
              var email := x.emailStr(obj.email).value;
              var u := NewUser(email, obj.fullName, x.hashPassword(obj.password));
              && (r == Error(400, "Email already registered") <==> UserService.EmailTaken(old(users.rows), email))
              && (r == Error(500, ServerError) <==> !UserService.EmailTaken(old(users.rows), email) && !UserColumnsOk(u))
              && (r.Ok? <==> !UserService.EmailTaken(old(users.rows), email) && UserColumnsOk(u))
              && (r.Ok? ==> && r.status == 201 && r.body == ToUserPublic(u)
                            && exists k: Id :: && k !in old(users.rows)
                                               && users.rows == old(users.rows)[k := Row(k, now, u)])
    ensures r.Error? ==> users.rows == old(users.rows)
  {
    if !UserCreateValid(x.emailStr, obj) {
      return Error(422, InvalidRequest);
    }
    var res := UserService.Create(users, x, ParseUserCreate(x.emailStr, obj), now);
    match res
    case AlreadyExists => r := Error(400, "Email already registered");
    case Refused(_) => r := Error(500, ServerError);
    case Created(row) =>
      assert users.rows[row.id] == row;
      r := Ok(201, ToUserPublic(row.rec));
  }

  /**
   * `login`: 401 "Invalid email or password" whenever authentication finds nobody; otherwise a bearer token
   * pair whose subject is the user's id.
   */
  function Login(users: Table<User>, x: Externals, username: string, password: string): (r: Response<Token>)
    reads users
    requires UserService.UsersTable(users)
    ensures r.Error? <==> UserService.Authenticate(users, x.verifyPassword, username, password).None?
    ensures r.Error? ==> r == Error(401, "Invalid email or password")
    ensures r.Ok? ==> exists k :: && k in users.rows && users.rows[k].rec.email == username
                                  && x.verifyPassword(password, users.rows[k].rec.hashedPassword)
                                  && r == Ok(200, IssueTokens(x, k))
  {
    match UserService.Authenticate(users, x.verifyPassword, username, password)
    case None => Error(401, "Invalid email or password")
    case Some(user) => Ok(200, IssueTokens(x, user.id))
  }

  /** Why a refresh token is refused, in the order the handler checks. */
  const InvalidRefreshToken: string := "Invalid refresh token"
  const InvalidTokenPayload: string := "Invalid token payload"
  const UserInactiveOrNotFound: string := "User inactive or not found"

  /** `service.get(session, user_id)` with the subject text; a text that is not a UUID finds nobody. */
  function UserOfSubject(users: Table<User>, x: Externals, sub: string): (r: Option<Row<User>>)
    reads users
    requires users.Valid()
    ensures r.Some? ==> x.parseUuid(sub) == Some(r.value.id) && r.value.id in users.rows && users.rows[r.value.id] == r.value
    ensures r.None? <==> x.parseUuid(sub).None? || x.parseUuid(sub).value !in users.rows
  {
    match x.parseUuid(sub)
    case None => None
    case Some(id) => users.Get(id)
  }

  /**
   * `refresh`: 401 "Invalid refresh token" when the token does not verify or its payload is empty, 401
   * "Invalid token payload" when it has no subject, 401 "User inactive or not found" when the subject names
   * no active user; otherwise a new pair for that user.
   */
  function Refresh(users: Table<User>, x: Externals, req: RefreshRequest): (r: Response<Token>)
    reads users
    requires users.Valid()
    ensures var payload := x.verifyRefreshToken(req.refreshToken);
            && (r == Error(401, InvalidRefreshToken) <==> payload.None? || payload.value == map[])
            && (r == Error(401, InvalidTokenPayload) <==>
                  payload.Some? && payload.value != map[] && ("sub" !in payload.value || payload.value["sub"] == ""))
            && (r == Error(401, UserInactiveOrNotFound) <==>
                  && payload.Some? && payload.value != map[] && "sub" in payload.value && payload.value["sub"] != ""
                  && var user := UserOfSubject(users, x, payload.value["sub"]);
                     user.None? || !user.value.rec.isActive)
    ensures r.Error? ==> r == Error(401, InvalidRefreshToken) || r == Error(401, InvalidTokenPayload) ||
                         r == Error(401, UserInactiveOrNotFound)
    ensures r.Ok? ==> exists k :: && k in users.rows && users.rows[k].rec.isActive
                                  && x.parseUuid(x.verifyRefreshToken(req.refreshToken).value["sub"]) == Some(k)
                                  && r == Ok(200, IssueTokens(x, k))
  {
    var payload := x.verifyRefreshToken(req.refreshToken);
    if payload.None? || payload.value == map[] then Error(401, InvalidRefreshToken)
    else if "sub" !in payload.value || payload.value["sub"] == "" then Error(401, InvalidTokenPayload)
    else
      var user := UserOfSubject(users, x, payload.value["sub"]);
      if user.None? || !user.value.rec.isActive then Error(401, UserInactiveOrNotFound)
      else Ok(200, IssueTokens(x, user.value.id))
  }

  /**
   * The refresh token a login issues to an active user can be exchanged for the same pair the login issued:
   * the subject survives the round trip through the token and through the id's text.
   */
  lemma LoginThenRefresh(users: Table<User>, x: Externals, username: string, password: string)
    requires UserService.UsersTable(users)
    requires TokensRoundTrip(x) && UuidTextRoundTrip(x)
    requires Login(users, x, username, password).Ok?
    requires UserService.Authenticate(users, x.verifyPassword, username, password).value.rec.isActive
    ensures Refresh(users, x, RefreshRequest(Login(users, x, username, password).body.refreshToken)) ==
            Login(users, x, username, password)
  {
    var id := UserService.Authenticate(users, x.verifyPassword, username, password).value.id;
    var sub := x.idText(id);
    var payload := x.verifyRefreshToken(x.createRefreshToken(sub, RefreshTokenLifetime));
    assert payload.Some? && "sub" in payload.value && payload.value["sub"] == sub;
    assert sub != [] && x.parseUuid(sub) == Some(id);
    assert payload.value != map[];
  }

  /**
   * Login does not look at the active flag: a deactivated user with the right password still receives a pair,
   * but the refresh token of that pair is refused.
   */
  lemma InactiveUserLogsInButCannotRefresh(users: Table<User>, x: Externals, k: Id, password: string)
    requires UserService.UsersTable(users) && PasswordCodecSound(x)
    requires TokensRoundTrip(x) && UuidTextRoundTrip(x)
    requires k in users.rows && !users.rows[k].rec.isActive
    requires users.rows[k].rec.hashedPassword == x.hashPassword(password)
    ensures Login(users, x, users.rows[k].rec.email, password) == Ok(200, IssueTokens(x, k))
    ensures Refresh(users, x, RefreshRequest(IssueTokens(x, k).refreshToken)) == Error(401, UserInactiveOrNotFound)
  {
    UserService.AuthenticateStored(users, x, k, password);
    var sub := x.idText(k);
    var payload := x.verifyRefreshToken(x.createRefreshToken(sub, RefreshTokenLifetime));
    assert payload.Some? && "sub" in payload.value && payload.value["sub"] == sub;
    assert sub != [] && x.parseUuid(sub) == Some(k);
    assert payload.value != map[];
  }
}
