/**
 * AuthController: the /api/auth endpoints. Login checks the password against the stored hash and
 * sets an access cookie and a refresh cookie; refresh turns a refresh cookie into a new access
 * cookie; logout clears both; me reports the request's identity; signup adds an account.
 *
 * The account table is a map from user name to account, the BCrypt check and hash are function
 * parameters, and each handler is modelled by the response it produces (status, body and the
 * Set-Cookie headers it adds).
 */
module AuthController {
  import opened Wrappers
  import JavaText
  import Http
  import JwtTokenProvider
  import SecurityConfig

  /** A row of the user table; `roles` is a comma-separated list such as "ROLE_USER,ROLE_ADMIN"
      and may be null. */
  datatype Account = Account(username: string, passwordHash: string, roles: Option<string>, active: bool)

  /** findByUsername: the account stored under a user name. */
  type Users = map<string, Account>

  datatype Body =
    | NoBody
    | Text(text: string)
    | LoginBody(username: string, roles: seq<string>)
    | OkFlag
    | Anonymous
    | Identity(name: string, roles: seq<string>)
    | SimpleRes(ok: bool, message: string)

  datatype Reply = Reply(status: int, body: Body, setCookies: seq<Http.SetCookie>)

  /** An exception that escapes a handler: a null roles column, or a token that cannot be
      signed. */
  datatype Failure = NullRoles | TokenFailure(error: JwtTokenProvider.JwtError)

  /** The collaborators and settings the controller is built with. */
  datatype Settings = Settings(jwt: JwtTokenProvider.JwtConfig, jose: JwtTokenProvider.Jose, cookieSecure: bool)

  const Ok200 := 200
  const BadRequest := 400
  const Unauthorized := 401
  const Conflict := 409

  /** Duration.ofMinutes(15) and Duration.ofDays(14), in seconds. */
  const AccessMaxAge := 15 * 60
  const RefreshMaxAge := 14 * 24 * 60 * 60

  const DefaultRoles := "ROLE_USER"

  function AccessCookie(token: string, secure: bool): Http.SetCookie {
    Http.LaxCookie(Http.AccessCookieName, token, Http.AccessCookiePath, AccessMaxAge, secure)
  }

  function RefreshCookie(token: string, secure: bool): Http.SetCookie {
    Http.LaxCookie(Http.RefreshCookieName, token, Http.RefreshCookiePath, RefreshMaxAge, secure)
  }

  /** The single answer to every failed login, whatever the reason. */
  const InvalidLogin := Reply(Unauthorized, Text("invalid"), [])

  /** The reasons a login is refused. */
  predicate LoginRefused(users: Users, matches: (string, string) -> bool, username: string, password: string) {
    username !in users || !users[username].active || !matches(password, users[username].passwordHash)
  }

  // ---------------------------------------------------------------------------
  // login
  // ---------------------------------------------------------------------------

  /** POST /api/auth/login at time `now`. */
  function Login(s: Settings, users: Users, matches: (string, string) -> bool, username: string, password: string, now: nat): (r: Result<Reply, Failure>)
    ensures r == Ok(InvalidLogin) <==> LoginRefused(users, matches, username, password)
    ensures !LoginRefused(users, matches, username, password) && users[username].roles.None? ==> r == Err(NullRoles)
    ensures !LoginRefused(users, matches, username, password) && users[username].roles.Some? ==>
              (r.Err? <==> JwtTokenProvider.Key(s.jwt).Err?)
    ensures r.Ok? && r != Ok(InvalidLogin) ==>
              var acc := users[username];
              var roles := JavaText.SplitCommaSpaced(acc.roles.value);
              r.value.status == Ok200
              && r.value.body == LoginBody(acc.username, roles)
              && r.value.setCookies == [
                   AccessCookie(JwtTokenProvider.CreateAccess(s.jwt, s.jose, Some(acc.username), roles, now).value, s.cookieSecure),
                   RefreshCookie(JwtTokenProvider.CreateRefresh(s.jwt, s.jose, Some(acc.username), now).value, s.cookieSecure)]
  {
    if username !in users then Ok(InvalidLogin)
    else
      var acc := users[username];
      if !acc.active || !matches(password, acc.passwordHash) then Ok(InvalidLogin)
      else if acc.roles.None? then Err(NullRoles)
      else
        var roles := JavaText.SplitCommaSpaced(acc.roles.value);
        match JwtTokenProvider.CreateAccess(s.jwt, s.jose, Some(acc.username), roles, now)
        case Err(e) => Err(TokenFailure(e))
        case Ok(access) =>
          match JwtTokenProvider.CreateRefresh(s.jwt, s.jose, Some(acc.username), now)
          case Err(e) => Err(TokenFailure(e))
          case Ok(refresh) =>
            Ok(Reply(Ok200, LoginBody(acc.username, roles),
                     [AccessCookie(access, s.cookieSecure), RefreshCookie(refresh, s.cookieSecure)]))
  }

  /** The two cookies of a successful login: the access token on "/" for 15 minutes and the
      refresh token on the refresh endpoint for 14 days, both HttpOnly and SameSite=Lax. */
  lemma LoginCookies(s: Settings, users: Users, matches: (string, string) -> bool, username: string, password: string, now: nat)
    requires Login(s, users, matches, username, password, now).Ok?
    requires !LoginRefused(users, matches, username, password)
    ensures var cs := Login(s, users, matches, username, password, now).value.setCookies;
            |cs| == 2
            && cs[0].name == Http.AccessCookieName && cs[0].path == "/" && cs[0].maxAgeSeconds == 900
            && cs[1].name == Http.RefreshCookieName && cs[1].path == "/api/auth/refresh" && cs[1].maxAgeSeconds == 1209600
            && forall i :: 0 <= i < 2 ==> cs[i].httpOnly && cs[i].sameSite == "Lax" && cs[i].secure == s.cookieSecure
  {
  }

  /** The cookies of a successful login carry tokens that read back, until they expire, as the
      account's user name and its roles. */
  lemma LoginTokensRoundTrip(s: Settings, users: Users, matches: (string, string) -> bool, username: string, password: string, issued: nat, now: int)
    requires JwtTokenProvider.WireFormat(s.jose) && JwtTokenProvider.Key(s.jwt).Ok?
    requires !LoginRefused(users, matches, username, password) && users[username].roles.Some?
    requires now <= JwtTokenProvider.AccessExpiry(s.jwt, issued) && now <= JwtTokenProvider.RefreshExpiry(s.jwt, issued)
    ensures Login(s, users, matches, username, password, issued).Ok?
    ensures var cs := Login(s, users, matches, username, password, issued).value.setCookies;
            var acc := users[username];
            JwtTokenProvider.GetUsername(s.jwt, s.jose, cs[0].value, now) == Ok(Some(acc.username))
            && JwtTokenProvider.GetRoles(s.jwt, s.jose, cs[0].value, now) == Ok(JavaText.SplitCommaSpaced(acc.roles.value))
            && JwtTokenProvider.GetUsername(s.jwt, s.jose, cs[1].value, now) == Ok(Some(acc.username))
  {
    var acc := users[username];
    var roles := JavaText.SplitCommaSpaced(acc.roles.value);
    JwtTokenProvider.AccessRoundTrip(s.jwt, s.jose, Some(acc.username), roles, issued, now);
    JwtTokenProvider.RefreshRoundTrip(s.jwt, s.jose, Some(acc.username), issued, now);
  }

  // ---------------------------------------------------------------------------
  // refresh
  // ---------------------------------------------------------------------------

  /** The roles text refresh issues for a user: the stored column, or "ROLE_USER" when the user
      is not found or the column is null. */
  function RolesFor(users: Users, username: Option<string>): (csv: string)
    ensures username.Some? && username.value in users && users[username.value].roles.Some? ==>
              csv == users[username.value].roles.value
    ensures !(username.Some? && username.value in users && users[username.value].roles.Some?) ==> csv == DefaultRoles
  {
    if username.Some? && username.value in users && users[username.value].roles.Some? then
      users[username.value].roles.value
    else DefaultRoles
  }

  const RefreshRefused := Reply(Unauthorized, NoBody, [])

  /** POST /api/auth/refresh with the refreshToken cookie, at time `now`. Every exception inside
      is caught and answered with 401. */
  function Refresh(s: Settings, users: Users, refreshToken: Option<string>, now: nat): (r: Reply)
    ensures refreshToken.None? ==> r == RefreshRefused
    ensures refreshToken.Some? && JwtTokenProvider.Parse(s.jwt, s.jose, refreshToken.value, now).Err? ==> r == RefreshRefused
    ensures r != RefreshRefused ==>
              refreshToken.Some?
              && var username := JwtTokenProvider.GetUsername(s.jwt, s.jose, refreshToken.value, now).value;
                 var roles := JavaText.SplitCommaSpaced(RolesFor(users, username));
                 r == Reply(Ok200, OkFlag,
                            [AccessCookie(JwtTokenProvider.CreateAccess(s.jwt, s.jose, username, roles, now).value, s.cookieSecure)])
    ensures r == RefreshRefused || (r.status == Ok200 && |r.setCookies| == 1)
  {
    if refreshToken.None? then RefreshRefused
    else
      match JwtTokenProvider.GetUsername(s.jwt, s.jose, refreshToken.value, now)
      case Err(_) => RefreshRefused
      case Ok(username) =>
        var roles := JavaText.SplitCommaSpaced(RolesFor(users, username));
        match JwtTokenProvider.CreateAccess(s.jwt, s.jose, username, roles, now)
        case Err(_) => RefreshRefused
        case Ok(access) => Reply(Ok200, OkFlag, [AccessCookie(access, s.cookieSecure)])
  }

  /** A token that parses is always accepted; only a missing cookie or a failed parse is
      refused. */
  lemma RefreshAcceptsParsedTokens(s: Settings, users: Users, token: string, now: nat)
    requires JwtTokenProvider.Parse(s.jwt, s.jose, token, now).Ok?
    ensures Refresh(s, users, Some(token), now).status == Ok200
  {
  }

  /** Nothing tells the two kinds of token apart: a live access token refreshes just like a
      refresh token. */
  lemma RefreshAcceptsAccessToken(s: Settings, users: Users, username: Option<string>, roles: seq<string>, issued: nat, now: nat)
    requires JwtTokenProvider.WireFormat(s.jose) && JwtTokenProvider.Key(s.jwt).Ok?
    requires now <= JwtTokenProvider.AccessExpiry(s.jwt, issued)
    ensures var token := JwtTokenProvider.CreateAccess(s.jwt, s.jose, username, roles, issued).value;
            Refresh(s, users, Some(token), now).status == Ok200
  {
    JwtTokenProvider.AccessRoundTrip(s.jwt, s.jose, username, roles, issued, now);
  }

  /** A valid token for a user who is not (or no longer) in the table still gets an access token,
      carrying "ROLE_USER". */
  lemma RefreshForMissingUser(s: Settings, users: Users, username: string, issued: nat, now: nat)
    requires JwtTokenProvider.WireFormat(s.jose) && JwtTokenProvider.Key(s.jwt).Ok?
    requires now <= JwtTokenProvider.RefreshExpiry(s.jwt, issued)
    requires username !in users
    ensures var token := JwtTokenProvider.CreateRefresh(s.jwt, s.jose, Some(username), issued).value;
            var r := Refresh(s, users, Some(token), now);
            r.status == Ok200
            && r.setCookies[0].value == JwtTokenProvider.CreateAccess(s.jwt, s.jose, Some(username), ["ROLE_USER"], now).value
  {
    JwtTokenProvider.RefreshRoundTrip(s.jwt, s.jose, Some(username), issued, now);
    JavaText.SplitCommaSpacedNoComma(DefaultRoles);
  }

  /** Refresh does not look at `active`: a deactivated user, who can no longer log in, keeps
      getting access tokens with the stored roles while the refresh token lives. */
  lemma InactiveUserKeepsRefreshing(s: Settings, users: Users, matches: (string, string) -> bool, username: string, password: string, issued: nat, now: nat)
    requires JwtTokenProvider.WireFormat(s.jose) && JwtTokenProvider.Key(s.jwt).Ok?
    requires now <= JwtTokenProvider.RefreshExpiry(s.jwt, issued)
    requires username in users && !users[username].active && users[username].username == username
    ensures Login(s, users, matches, username, password, now) == Ok(InvalidLogin)
    ensures var token := JwtTokenProvider.CreateRefresh(s.jwt, s.jose, Some(username), issued).value;
            Refresh(s, users, Some(token), now).status == Ok200
  {
    JwtTokenProvider.RefreshRoundTrip(s.jwt, s.jose, Some(username), issued, now);
  }

  // ---------------------------------------------------------------------------
  // logout and me
  // ---------------------------------------------------------------------------

  /** POST /api/auth/logout. */
  function Logout(secure: bool): (r: Reply)
    ensures r.status == Ok200 && r.body == NoBody
    ensures r.setCookies == SecurityConfig.Logout(secure).setCookies
  {
    Reply(Ok200, NoBody, Http.ClearTokenCookies(secure))
  }

  /** Logout clears each login cookie under the name and path it was set with. */
  lemma LogoutClearsLoginCookies(s: Settings, users: Users, matches: (string, string) -> bool, username: string, password: string, now: nat)
    requires Login(s, users, matches, username, password, now).Ok?
    requires !LoginRefused(users, matches, username, password)
    ensures var given := Login(s, users, matches, username, password, now).value.setCookies;
            var cleared := Logout(s.cookieSecure).setCookies;
            |given| == |cleared| == 2
            && forall i :: 0 <= i < 2 ==> (given[i].name == cleared[i].name && given[i].path == cleared[i].path
                                           && cleared[i].maxAgeSeconds == 0)
  {
    LoginCookies(s, users, matches, username, password, now);
  }

  /** GET /api/auth/me with the request's authentication, None for an anonymous request.
      getName() is "" when the principal is null. */
  function Me(authentication: Option<Http.Authentication>): (body: Body)
    ensures body == Anonymous <==> authentication.None? || !authentication.value.authenticated
    ensures body != Anonymous ==>
              body == Identity(authentication.value.name.GetOr(""), authentication.value.authorities)
  {
    if authentication.None? || !authentication.value.authenticated then Anonymous
    else Identity(authentication.value.name.GetOr(""), authentication.value.authorities)
  }

  // ---------------------------------------------------------------------------
  // signup
  // ---------------------------------------------------------------------------

  datatype SignupReq = SignupReq(username: string, password: string, passwordConfirm: string)

  const PasswordMismatch := "\U{BE44}\U{BC00}\U{BC88}\U{D638}\U{AC00} \U{C77C}\U{CE58}\U{D558}\U{C9C0} \U{C54A}\U{C2B5}\U{B2C8}\U{B2E4}."
  const UsernameTaken := "\U{C774}\U{BBF8} \U{C0AC}\U{C6A9} \U{C911}\U{C778} \U{C544}\U{C774}\U{B514}\U{C785}\U{B2C8}\U{B2E4}."
  const SignedUp := "\U{AC00}\U{C785} \U{C644}\U{B8CC}"

  /** The account signup inserts: the hashed password, "ROLE_USER", active. */
  function NewAccount(req: SignupReq, encode: string -> string): Account {
    Account(req.username, encode(req.password), Some(DefaultRoles), true)
  }

  /** The user table, as signup changes it. */
  class UserStore {
    var users: Users

    constructor (users0: Users)
      ensures users == users0
    {
      users := users0;
    }

    /** POST /api/auth/signup, with the password encoder's encode as `encode`. */
    method Signup(req: SignupReq, encode: string -> string) returns (reply: Reply)
      modifies this
      ensures req.password != req.passwordConfirm ==>
                reply == Reply(BadRequest, SimpleRes(false, PasswordMismatch), []) && users == old(users)
      ensures req.password == req.passwordConfirm && req.username in old(users) ==>
                reply == Reply(Conflict, SimpleRes(false, UsernameTaken), []) && users == old(users)
      ensures req.password == req.passwordConfirm && req.username !in old(users) ==>
                reply == Reply(Ok200, SimpleRes(true, SignedUp), [])
                && users == old(users)[req.username := NewAccount(req, encode)]
    {
      if req.password != req.passwordConfirm {
        return Reply(BadRequest, SimpleRes(false, PasswordMismatch), []);
      }
      if req.username in users {
        return Reply(Conflict, SimpleRes(false, UsernameTaken), []);
      }
      users := users[req.username := NewAccount(req, encode)];
      reply := Reply(Ok200, SimpleRes(true, SignedUp), []);
    }
  }

  /** A user who has just signed up can log in with the same password, and gets "ROLE_USER". */
  lemma SignedUpUserCanLogin(s: Settings, users: Users, req: SignupReq, encode: string -> string,
                             matches: (string, string) -> bool, now: nat)
    requires JwtTokenProvider.Key(s.jwt).Ok?
    requires matches(req.password, encode(req.password))
    ensures var after := users[req.username := NewAccount(req, encode)];
            var r := Login(s, after, matches, req.username, req.password, now);
            r.Ok? && r.value.status == Ok200 && r.value.body == LoginBody(req.username, ["ROLE_USER"])
  {
    JavaText.SplitCommaSpacedNoComma(DefaultRoles);
  }
}
