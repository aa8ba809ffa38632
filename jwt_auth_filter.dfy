/**
 * JwtAuthFilter: once per request, take a token from `Authorization: Bearer <token>` (section
 * 2.1 of RFC 6750) or else from the `accessToken` cookie, turn a token that verifies into the
 * identity of the request, ignore any failure, and pass the request down the chain.
 */
module JwtAuthFilter {
  import opened Wrappers
  import JavaText
  import Http
  import JwtTokenProvider

  const BearerPrefix := "Bearer "

  /** The token in the Authorization header: what follows "Bearer " (case and the single space
      exactly as written), possibly empty. */
  function BearerToken(authorization: Option<string>): (r: Option<string>)
    ensures r.Some? <==> authorization.Some? && JavaText.StartsWith(authorization.value, BearerPrefix)
    ensures r.Some? ==> authorization.value == BearerPrefix + r.value
  {
    if authorization.Some? && JavaText.StartsWith(authorization.value, BearerPrefix) then
      Some(authorization.value[|BearerPrefix|..])
    else None
  }

  /** The value of the first cookie with this name. */
  function FirstCookieValue(cookies: seq<Http.Cookie>, name: string): (r: Option<string>)
    ensures r.None? <==> forall i :: 0 <= i < |cookies| ==> cookies[i].name != name
    ensures r.Some? ==> exists i :: 0 <= i < |cookies| && cookies[i].name == name && cookies[i].value == r.value
                                    && forall j :: 0 <= j < i ==> cookies[j].name != name
  {
    if cookies == [] then None
    else if cookies[0].name == name then Some(cookies[0].value)
    else
      var r := FirstCookieValue(cookies[1..], name);
      assert forall j :: 1 <= j < |cookies| ==> cookies[j] == cookies[1..][j - 1];
      r
  }

  /** The token the filter works with: the header's, or else the first `accessToken` cookie's. */
  function TokenOf(req: Http.Request): (r: Option<string>)
    ensures BearerToken(req.authorization).Some? ==> r == BearerToken(req.authorization)
    ensures BearerToken(req.authorization).None? && req.cookies.Some? ==>
              r == FirstCookieValue(req.cookies.value, Http.AccessCookieName)
    ensures BearerToken(req.authorization).None? && req.cookies.None? ==> r.None?
  {
    if BearerToken(req.authorization).Some? then BearerToken(req.authorization)
    else if req.cookies.Some? then FirstCookieValue(req.cookies.value, Http.AccessCookieName)
    else None
  }

  /** `new SimpleGrantedAuthority(role)` refuses a role without text. */
  predicate AllRolesHaveText(roles: seq<string>) {
    forall i :: 0 <= i < |roles| ==> JavaText.HasText(roles[i])
  }

  /** The identity built from a token, or None when getUsername, getRoles or a granted
      authority throws. */
  function Authenticate(config: JwtTokenProvider.JwtConfig, jose: JwtTokenProvider.Jose, token: string, now: int): (r: Option<Http.Authentication>)
    ensures r.Some? <==> JwtTokenProvider.Parse(config, jose, token, now).Ok?
                         && AllRolesHaveText(JwtTokenProvider.GetRoles(config, jose, token, now).value)
    ensures r.Some? ==>
              r.value.name == JwtTokenProvider.GetUsername(config, jose, token, now).value
              && r.value.authorities == JwtTokenProvider.GetRoles(config, jose, token, now).value
              && r.value.authenticated
  {
    match JwtTokenProvider.GetUsername(config, jose, token, now)
    case Err(_) => None
    case Ok(username) =>
      var roles := JwtTokenProvider.GetRoles(config, jose, token, now).value;
      if AllRolesHaveText(roles) then Some(Http.Authentication(username, roles, true)) else None
  }

  class JwtAuthFilter {
    const config: JwtTokenProvider.JwtConfig
    const jose: JwtTokenProvider.Jose

    /** The security context's authentication for this request. */
    var authentication: Option<Http.Authentication>

    /** How many times the filter has passed a request down the chain. */
    var chainCalls: nat

    constructor (config: JwtTokenProvider.JwtConfig, jose: JwtTokenProvider.Jose)
      ensures this.config == config && this.jose == jose
      ensures authentication.None? && chainCalls == 0
    {
      this.config := config;
      this.jose := jose;
      authentication := None;
      chainCalls := 0;
    }

    /** doFilterInternal, with the clock read once as `now`. */
    method DoFilterInternal(req: Http.Request, now: int)
      modifies this
      ensures chainCalls == old(chainCalls) + 1
      ensures TokenOf(req).None? ==> authentication == old(authentication)
      ensures TokenOf(req).Some? && Authenticate(config, jose, TokenOf(req).value, now).None? ==>
                authentication == old(authentication)
      ensures TokenOf(req).Some? && Authenticate(config, jose, TokenOf(req).value, now).Some? ==>
                authentication == Authenticate(config, jose, TokenOf(req).value, now)
    {
      var token: Option<string> := None;
      var h := req.authorization;
      if h.Some? && JavaText.StartsWith(h.value, BearerPrefix) {
        token := Some(h.value[|BearerPrefix|..]);
      }

      if token.None? && req.cookies.Some? {
        token := CookieToken(req.cookies.value);
      }
      assert token == TokenOf(req);

      if token.Some? {
        var auth := Authenticate(config, jose, token.value, now);
        if auth.Some? {
          authentication := auth;
        }
      }
      chainCalls := chainCalls + 1;
    }
  }

  /** The loop over request.getCookies(): the value of the first `accessToken` cookie. */
  method CookieToken(cookies: seq<Http.Cookie>) returns (token: Option<string>)
    ensures token == FirstCookieValue(cookies, Http.AccessCookieName)
  {
    token := None;
    var i := 0;
    while i < |cookies|
      invariant 0 <= i <= |cookies|
      invariant FirstCookieValue(cookies, Http.AccessCookieName) == FirstCookieValue(cookies[i..], Http.AccessCookieName)
    {
      var rest := cookies[i..];
      assert rest[0] == cookies[i] && rest[1..] == cookies[i + 1..];
      if cookies[i].name == Http.AccessCookieName {
        return Some(cookies[i].value);
      }
      i := i + 1;
    }
    assert cookies[i..] == [];
  }

  /** A header token wins: the cookies are not looked at. */
  lemma HeaderWins(req: Http.Request, token: string)
    requires req.authorization == Some(BearerPrefix + token)
    ensures TokenOf(req) == Some(token)
  {
    assert (BearerPrefix + token)[|BearerPrefix|..] == token;
  }

  /** A header of exactly "Bearer " gives the empty token, which hides the cookie and can never
      authenticate, so the identity stays as it was. */
  lemma BareBearerHidesCookie(config: JwtTokenProvider.JwtConfig, jose: JwtTokenProvider.Jose, req: Http.Request, now: int)
    requires req.authorization == Some(BearerPrefix)
    ensures TokenOf(req) == Some("")
    ensures Authenticate(config, jose, "", now).None?
  {
    assert BearerPrefix[|BearerPrefix|..] == "";
    assert !JavaText.HasText("");
  }

  /** An authorization header that is not a bearer header leaves the choice to the cookies. */
  lemma OtherSchemeFallsBackToCookie(req: Http.Request)
    requires req.authorization.Some? && !JavaText.StartsWith(req.authorization.value, BearerPrefix)
    requires req.cookies.Some?
    ensures TokenOf(req) == FirstCookieValue(req.cookies.value, Http.AccessCookieName)
  {
  }

  /** A live access token whose roles all have text authenticates as exactly its subject and
      roles. */
  lemma AccessTokenAuthenticates(config: JwtTokenProvider.JwtConfig, jose: JwtTokenProvider.Jose,
                                 username: Option<string>, roles: seq<string>, issued: nat, now: int)
    requires JwtTokenProvider.WireFormat(jose) && JwtTokenProvider.Key(config).Ok?
    requires now <= JwtTokenProvider.AccessExpiry(config, issued)
    requires AllRolesHaveText(roles)
    ensures var token := JwtTokenProvider.CreateAccess(config, jose, username, roles, issued).value;
            Authenticate(config, jose, token, now) == Some(Http.Authentication(username, roles, true))
  {
    JwtTokenProvider.AccessRoundTrip(config, jose, username, roles, issued, now);
  }

  /** A refresh token sent as the access cookie authenticates its subject with no authorities. */
  lemma RefreshTokenAuthenticatesWithoutRoles(config: JwtTokenProvider.JwtConfig, jose: JwtTokenProvider.Jose,
                                              username: Option<string>, issued: nat, now: int)
    requires JwtTokenProvider.WireFormat(jose) && JwtTokenProvider.Key(config).Ok?
    requires now <= JwtTokenProvider.RefreshExpiry(config, issued)
    ensures var token := JwtTokenProvider.CreateRefresh(config, jose, username, issued).value;
            Authenticate(config, jose, token, now) == Some(Http.Authentication(username, [], true))
  {
    JwtTokenProvider.RefreshRoundTrip(config, jose, username, issued, now);
  }

  /** A role without text makes the whole token useless, even though it verifies. */
  lemma BlankRoleNeverAuthenticates(config: JwtTokenProvider.JwtConfig, jose: JwtTokenProvider.Jose,
                                    username: Option<string>, roles: seq<string>, issued: nat, now: int, k: nat)
    requires JwtTokenProvider.WireFormat(jose) && JwtTokenProvider.Key(config).Ok?
    requires now <= JwtTokenProvider.AccessExpiry(config, issued)
    requires k < |roles| && !JavaText.HasText(roles[k])
    ensures var token := JwtTokenProvider.CreateAccess(config, jose, username, roles, issued).value;
            Authenticate(config, jose, token, now).None?
  {
    JwtTokenProvider.AccessRoundTrip(config, jose, username, roles, issued, now);
  }
}
