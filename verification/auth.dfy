/** The admin session handlers `register`, `login`, `refreshToken` and
    `logout`, as transitions over the admin collection. */
module Auth {
  import opened Wrappers
  import opened Http

  /** A stored admin. `passwordHash` is what the save hook stored;
      `refreshToken` is the current session's token, absent when logged
      out. Timestamps are not modelled. */
  datatype Admin = Admin(id: string, email: string, passwordHash: string, refreshToken: Option<string>)

  /** The admin collection, in its natural (insertion) order. */
  type AdminStore = seq<Admin>

  /** The password primitives: `hash` is what the save hook stores for a
      new password, `compare(password, stored)` is `comparePassword`. */
  datatype Hasher = Hasher(hash: string -> string, compare: (string, string) -> bool)

  /** The one fact assumed of the primitives: a password matches its own
      hash. */
  ghost predicate Sound(h: Hasher)
  {
    forall password :: h.compare(password, h.hash(password))
  }

  /** The two tokens a handler signs for the admin it serves. */
  datatype Tokens = Tokens(refresh: string, access: string)

  /** What the handler sends: a message, the access token as JSON, or
      nothing at all (only cookies, no status and no body). */
  datatype Response =
    | Sent(status: int, body: Body, cookies: seq<Cookie>)
    | Unsent(cookies: seq<Cookie>)

  datatype Body = Message(text: string) | AccessToken(token: string)

  /** The response and the collection after a request. */
  datatype Outcome = Outcome(response: Response, admins: AdminStore)

  const InvalidCredentials: string := "Invalid email or password"
  const InvalidRefreshToken: string := "Invalid refresh token"
  const AlreadyExists: string := "Admin already exists"
  const Registered: string := "Admin registered successfully"
  const LoggedOut: string := "Logged out successfully"

  /** An error response from the shared catch block; no cookies are set. */
  function Fail(e: Thrown): (r: Response)
    ensures r.Sent? && r.cookies == []
  {
    var c := Catch(e);
    Sent(c.status, Message(c.message), [])
  }

  /** The two session cookies, refresh token first. */
  function SessionCookies(t: Tokens): (cs: seq<Cookie>)
    ensures |cs| == 2 && forall c :: c in cs ==> c.SetCookie?
    ensures SetCookie("refreshToken", t.refresh) in cs && SetCookie("accessToken", t.access) in cs
  {
    [SetCookie("refreshToken", t.refresh), SetCookie("accessToken", t.access)]
  }

  /** `findOne({ email })`: the first admin with that email. */
  function FindByEmail(admins: AdminStore, email: string): (r: Option<nat>)
    ensures r.Some? ==> r.value < |admins| && admins[r.value].email == email &&
                        forall j :: 0 <= j < r.value ==> admins[j].email != email
    ensures r.None? ==> forall j :: 0 <= j < |admins| ==> admins[j].email != email
    decreases |admins|
  {
    if |admins| == 0 then None
    else if admins[0].email == email then Some(0)
    else
      match FindByEmail(admins[1..], email)
      case None =>
        assert forall j :: 1 <= j < |admins| ==> admins[j] == admins[1..][j - 1];
        None
      case Some(k) => Some(k + 1)
  }

  /** `findOne({ refreshToken })`: the first admin holding that token. */
  function FindByToken(admins: AdminStore, token: string): (r: Option<nat>)
    ensures r.Some? ==> r.value < |admins| && admins[r.value].refreshToken == Some(token) &&
                        forall j :: 0 <= j < r.value ==> admins[j].refreshToken != Some(token)
    ensures r.None? ==> forall j :: 0 <= j < |admins| ==> admins[j].refreshToken != Some(token)
    decreases |admins|
  {
    if |admins| == 0 then None
    else if admins[0].refreshToken == Some(token) then Some(0)
    else
      match FindByToken(admins[1..], token)
      case None =>
        assert forall j :: 1 <= j < |admins| ==> admins[j] == admins[1..][j - 1];
        None
      case Some(k) => Some(k + 1)
  }

  /** No two admins share an email (the schema's unique index). */
  ghost predicate UniqueEmails(admins: AdminStore)
  {
    forall i, j :: 0 <= i < j < |admins| ==> admins[i].email != admins[j].email
  }

  /** No two admins share an id. */
  ghost predicate UniqueIds(admins: AdminStore)
  {
    forall i, j :: 0 <= i < j < |admins| ==> admins[i].id != admins[j].id
  }

  /** No two admins hold the same refresh token. */
  ghost predicate UniqueTokens(admins: AdminStore)
  {
    forall i, j :: 0 <= i < j < |admins| && admins[i].refreshToken.Some? ==>
      admins[i].refreshToken != admins[j].refreshToken
  }

  /** The collection's invariant: emails, ids and live refresh tokens are
      each unique. */
  ghost predicate Valid(admins: AdminStore)
  {
    UniqueEmails(admins) && UniqueIds(admins) && UniqueTokens(admins)
  }

  /** No admin holds `token`: a freshly signed token. */
  ghost predicate Unheld(admins: AdminStore, token: string)
  {
    forall j :: 0 <= j < |admins| ==> admins[j].refreshToken != Some(token)
  }

  /** `register`. `newId` is the fresh id the store assigns. An empty email
      or password fails the schema's `required` check with a 500. */
  function Register(admins: AdminStore, email: string, password: string, newId: string,
                    h: Hasher, t: Tokens): (o: Outcome)
    requires forall j :: 0 <= j < |admins| ==> admins[j].id != newId
    ensures FindByEmail(admins, email).Some? ==>
              o == Outcome(Sent(400, Message(AlreadyExists), []), admins)
    ensures o.response.Sent?
    ensures FindByEmail(admins, email).None? && (email == "" || password == "") ==>
              o == Outcome(Sent(500, Message(InternalServerError), []), admins)
    ensures o.response.status != 201 ==> o.admins == admins
    ensures o.response.status == 201 <==>
              FindByEmail(admins, email).None? && email != "" && password != ""
    ensures o.response.status == 201 ==>
              && o.admins == admins + [Admin(newId, email, h.hash(password), Some(t.refresh))]
              && o.response == Sent(201, Message(Registered), SessionCookies(t))
  {
    if FindByEmail(admins, email).Some? then
      Outcome(Fail(Api(ApiError(AlreadyExists, 400))), admins)
    else if email == "" || password == "" then
      Outcome(Fail(Untyped), admins)
    else
      Outcome(Sent(201, Message(Registered), SessionCookies(t)),
              admins + [Admin(newId, email, h.hash(password), Some(t.refresh))])
  }

  /** `login`. An unknown email and a wrong password give the same 401. On
      success only the admin's refresh token changes, the session cookies
      are set, and no status or body is ever sent. */
  function Login(admins: AdminStore, email: string, password: string, h: Hasher, t: Tokens)
    : (o: Outcome)
    ensures o.response.Sent? ==> o == Outcome(Sent(401, Message(InvalidCredentials), []), admins)
    ensures o.response.Unsent? <==>
              FindByEmail(admins, email).Some? &&
              h.compare(password, admins[FindByEmail(admins, email).value].passwordHash)
    ensures o.response.Unsent? ==>
              && o.response.cookies == SessionCookies(t)
              && var i := FindByEmail(admins, email).value;
              && o.admins == admins[i := admins[i].(refreshToken := Some(t.refresh))]
  {
    match FindByEmail(admins, email)
    case None => Outcome(Fail(Api(ApiError(InvalidCredentials, 401))), admins)
    case Some(i) =>
      if !h.compare(password, admins[i].passwordHash) then
        Outcome(Fail(Api(ApiError(InvalidCredentials, 401))), admins)
      else
        Outcome(Unsent(SessionCookies(t)), admins[i := admins[i].(refreshToken := Some(t.refresh))])
  }

  /** `refreshToken`: issue an access token to whoever holds the presented
      refresh token. Nothing is saved. */
  function Refresh(admins: AdminStore, token: string, access: string): (o: Outcome)
    ensures o.admins == admins
    ensures FindByToken(admins, token).None? <==> o.response == Sent(401, Message(InvalidRefreshToken), [])
    ensures FindByToken(admins, token).Some? ==>
              o.response == Sent(200, AccessToken(access), [SetCookie("accessToken", access)])
  {
    match FindByToken(admins, token)
    case None => Outcome(Fail(Api(ApiError(InvalidRefreshToken, 401))), admins)
    case Some(_) => Outcome(Sent(200, AccessToken(access), [SetCookie("accessToken", access)]), admins)
  }

  /** `logout`: clear the refresh token of whoever holds the presented one,
      and clear both cookies. */
  function Logout(admins: AdminStore, token: string): (o: Outcome)
    ensures FindByToken(admins, token).None? <==> o.response == Sent(401, Message(InvalidRefreshToken), [])
    ensures FindByToken(admins, token).None? ==> o.admins == admins
    ensures FindByToken(admins, token).Some? ==>
              var i := FindByToken(admins, token).value;
              && o.admins == admins[i := admins[i].(refreshToken := None)]
              && o.response == Sent(200, Message(LoggedOut),
                                    [ClearCookie("refreshToken"), ClearCookie("accessToken")])
  {
    match FindByToken(admins, token)
    case None => Outcome(Fail(Api(ApiError(InvalidRefreshToken, 401))), admins)
    case Some(i) =>
      Outcome(Sent(200, Message(LoggedOut), [ClearCookie("refreshToken"), ClearCookie("accessToken")]),
              admins[i := admins[i].(refreshToken := None)])
  }

  /** A registered password is stored as its hash and matches it, so
      logging in with the same email and password then succeeds and
      rotates that admin's refresh token. */
  lemma RegisterThenLogin(admins: AdminStore, email: string, password: string, newId: string,
                          h: Hasher, t: Tokens, t': Tokens)
    requires forall j :: 0 <= j < |admins| ==> admins[j].id != newId
    requires Sound(h)
    ensures var o := Register(admins, email, password, newId, h, t);
      o.response.status == 201 ==>
        && o.admins[|admins|].passwordHash == h.hash(password)
        && h.compare(password, o.admins[|admins|].passwordHash)
        && var o' := Login(o.admins, email, password, h, t');
        && o'.response == Unsent(SessionCookies(t'))
        && o'.admins == o.admins[|admins| := o.admins[|admins|].(refreshToken := Some(t'.refresh))]
  {
  }

  /** Registration keeps the collection valid when the signed refresh
      token is fresh. */
  lemma RegisterKeepsValid(admins: AdminStore, email: string, password: string, newId: string,
                           h: Hasher, t: Tokens)
    requires forall j :: 0 <= j < |admins| ==> admins[j].id != newId
    requires Valid(admins) && Unheld(admins, t.refresh)
    ensures Valid(Register(admins, email, password, newId, h, t).admins)
  {
  }

  /** Login keeps the collection valid when the signed refresh token is
      fresh; only the logged-in admin's token changes. */
  lemma LoginKeepsValid(admins: AdminStore, email: string, password: string, h: Hasher, t: Tokens)
    requires Valid(admins) && Unheld(admins, t.refresh)
    ensures Valid(Login(admins, email, password, h, t).admins)
  {
  }

  /** Refresh saves nothing, and logout only clears one token: both keep
      the collection valid. */
  lemma RefreshAndLogoutKeepValid(admins: AdminStore, token: string, access: string)
    requires Valid(admins)
    ensures Valid(Refresh(admins, token, access).admins)
    ensures Valid(Logout(admins, token).admins)
  {
  }

  /** An unknown email and a wrong password are indistinguishable to the
      caller, and neither changes the collection. */
  lemma LoginFailuresAlike(admins: AdminStore, e1: string, p1: string, e2: string, p2: string,
                           h: Hasher, t1: Tokens, t2: Tokens)
    requires FindByEmail(admins, e1).None?
    requires FindByEmail(admins, e2).Some?
    requires !h.compare(p2, admins[FindByEmail(admins, e2).value].passwordHash)
    ensures Login(admins, e1, p1, h, t1) == Login(admins, e2, p2, h, t2)
    ensures Login(admins, e1, p1, h, t1).admins == admins
  {
  }

  /** In a valid collection, a logged-out token is dead: a later refresh or
      logout with it fails with 401. */
  lemma LogoutRevokes(admins: AdminStore, token: string, access: string)
    requires Valid(admins)
    requires FindByToken(admins, token).Some?
    ensures var after := Logout(admins, token).admins;
      && Refresh(after, token, access).response == Sent(401, Message(InvalidRefreshToken), [])
      && Logout(after, token).response == Sent(401, Message(InvalidRefreshToken), [])
  {
  }
}
