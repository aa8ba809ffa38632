/**
 * SecurityConfig: the URL authorization rules, and the three handlers that answer a request the
 * security chain refuses or that asks to log out. Each handler is modelled by the response it
 * produces.
 */
module SecurityConfig {
  import opened Wrappers
  import JavaText
  import FormEncoding
  import Http

  // ---------------------------------------------------------------------------
  // Route table
  // ---------------------------------------------------------------------------

  /** A `requestMatchers(...)` rule with its decision, or the closing `anyRequest()` rule. */
  datatype Rule = PermitAll(patterns: seq<string>) | AnyRequestAuthenticated

  datatype Decision = Permit | RequireAuthentication

  const OpenPatterns := ["/", "/login", "/signup", "/error", "/logout", "/favicon.ico",
                         "/css/**", "/js/**", "/images/**", "/403", "/**"]

  const Rules := [PermitAll(OpenPatterns), PermitAll(["/api/auth/**"]), AnyRequestAuthenticated]

  /** A pattern ending in a slash and a double star matches its base path and everything below
      it; any other pattern matches only the path spelled the same. */
  predicate Matches(pattern: string, path: string) {
    if JavaText.EndsWith(pattern, "/**") then
      var base := pattern[..|pattern| - 3];
      path == base || JavaText.StartsWith(path, base + "/")
    else
      path == pattern
  }

  predicate RuleMatches(rule: Rule, path: string) {
    match rule
    case PermitAll(patterns) => exists i :: 0 <= i < |patterns| && Matches(patterns[i], path)
    case AnyRequestAuthenticated => true
  }

  /** The index of the first rule that matches, the one that decides. */
  function FirstMatch(rules: seq<Rule>, path: string): (k: nat)
    ensures k <= |rules|
    ensures k < |rules| ==> RuleMatches(rules[k], path)
    ensures forall j :: 0 <= j < k ==> !RuleMatches(rules[j], path)
  {
    if rules == [] then 0
    else if RuleMatches(rules[0], path) then 0
    else 1 + FirstMatch(rules[1..], path)
  }

  function Decide(rule: Rule): Decision {
    match rule
    case PermitAll(_) => Permit
    case AnyRequestAuthenticated => RequireAuthentication
  }

  /** The decision for a request path: the first matching rule's, so a permit exactly when one
      of the two permit lists matches. */
  function Authorize(path: string): (d: Decision)
    ensures d == Permit <==> RuleMatches(Rules[0], path) || RuleMatches(Rules[1], path)
  {
    var k := FirstMatch(Rules, path);
    assert RuleMatches(Rules[2], path);
    Decide(Rules[k])
  }

  /** The last open pattern is a slash and a double star, so the first rule matches every
      request path and neither the auth API rule nor `anyRequest().authenticated()` is ever
      consulted. */
  lemma EveryPathIsPermitted(path: string)
    requires path == [] || path[0] == '/'
    ensures FirstMatch(Rules, path) == 0
    ensures Authorize(path) == Permit
  {
    assert OpenPatterns[10] == "/**";
    assert Matches(OpenPatterns[10], path) by {
      assert "/**"[..0] == "";
      if path != [] {
        assert JavaText.StartsWith(path, "" + "/");
      }
    }
    assert RuleMatches(Rules[0], path);
  }

  // ---------------------------------------------------------------------------
  // Entry point and access-denied handler
  // ---------------------------------------------------------------------------

  /** What a handler does to the response. */
  datatype Response = SendError(status: int) | SendRedirect(location: string)

  const Unauthorized := 401
  const Forbidden := 403
  const MaxDestLength := 1800

  /** A browser request: an Accept header mentioning text/html. */
  predicate WantsHtml(req: Http.Request) {
    req.accept.Some? && JavaText.Contains(req.accept.value, "text/html")
  }

  /** Requests answered with a bare status code rather than a redirect. */
  predicate IsApiOrNotHtml(req: Http.Request) {
    JavaText.StartsWith(req.uri, "/api/") || !WantsHtml(req)
  }

  /** Requests that must not be sent back to themselves after login. */
  predicate IsLoginOrError(req: Http.Request) {
    req.uri == "/login" || JavaText.StartsWith(req.uri, "/error") || req.dispatcher == Http.ErrorDispatch
  }

  /** The original request: the URI, then "?" and the query string when there is one. */
  function Destination(req: Http.Request): (dest: string)
    ensures req.queryString.None? ==> dest == req.uri
    ensures req.queryString.Some? ==> dest == req.uri + "?" + req.queryString.value
  {
    req.uri + (if req.queryString.Some? then "?" + req.queryString.value else "")
  }

  /** The destination handed to the login page: kept when at most 1800 UTF-16 units long,
      replaced by "/" (not shortened) otherwise. */
  function BoundedDestination(req: Http.Request): (dest: string)
    ensures JavaText.Utf16Length(Destination(req)) <= MaxDestLength ==> dest == Destination(req)
    ensures JavaText.Utf16Length(Destination(req)) > MaxDestLength ==> dest == "/"
    ensures JavaText.Utf16Length(dest) <= MaxDestLength
  {
    if JavaText.Utf16Length(Destination(req)) > MaxDestLength then "/" else Destination(req)
  }

  const LoginRedirectPrefix := "/login?redirect="

  /** The authentication entry point. */
  function EntryPoint(req: Http.Request): (r: Response)
    ensures r == SendError(Unauthorized) <==> IsApiOrNotHtml(req)
    ensures r == SendRedirect("/login") <==> !IsApiOrNotHtml(req) && IsLoginOrError(req)
    ensures !IsApiOrNotHtml(req) && !IsLoginOrError(req) ==>
              r == SendRedirect(LoginRedirectPrefix + FormEncoding.Encode(BoundedDestination(req)))
  {
    if IsApiOrNotHtml(req) then SendError(Unauthorized)
    else if IsLoginOrError(req) then SendRedirect("/login")
    else SendRedirect(LoginRedirectPrefix + FormEncoding.Encode(BoundedDestination(req)))
  }

  /** When the entry point sends a browser to the login page with a parameter, the parameter is
      the only one, and it decodes to the original destination when that fits, or to "/". */
  lemma RedirectParameterDecodes(req: Http.Request)
    requires !IsApiOrNotHtml(req) && !IsLoginOrError(req)
    ensures EntryPoint(req).SendRedirect?
    ensures var loc := EntryPoint(req).location;
            JavaText.StartsWith(loc, LoginRedirectPrefix)
            && var param := loc[|LoginRedirectPrefix|..];
               ('&' !in param && '=' !in param && '#' !in param && '?' !in param)
               && (JavaText.Utf16Length(Destination(req)) <= MaxDestLength ==> FormEncoding.Decode(param) == Some(Destination(req)))
               && (JavaText.Utf16Length(Destination(req)) > MaxDestLength ==> FormEncoding.Decode(param) == Some("/"))
  {
    var dest := BoundedDestination(req);
    var param := FormEncoding.Encode(dest);
    var loc := LoginRedirectPrefix + param;
    assert EntryPoint(req).location == loc;
    assert loc[|LoginRedirectPrefix|..] == param;
    NoDelimiters(dest);
    FormEncoding.DecodeEncode(dest);
  }

  /** A form-encoded value holds none of the characters that end a query parameter or the
      query. */
  lemma NoDelimiters(s: string)
    ensures var e := FormEncoding.Encode(s);
            '&' !in e && '=' !in e && '#' !in e && '?' !in e
  {
    var e := FormEncoding.Encode(s);
    forall i | 0 <= i < |e|
      ensures e[i] != '&' && e[i] != '=' && e[i] != '#' && e[i] != '?'
    {
      assert FormEncoding.IsFormSafe(e[i]);
    }
  }

  /** The access-denied handler. */
  function AccessDenied(req: Http.Request): (r: Response)
    ensures r == SendError(Forbidden) <==> IsApiOrNotHtml(req)
    ensures r == SendRedirect("/403") <==> !IsApiOrNotHtml(req)
  {
    if IsApiOrNotHtml(req) then SendError(Forbidden) else SendRedirect("/403")
  }

  /** A request the entry point answers with 401 is answered with 403 by the access-denied
      handler, and a browser it redirects is redirected by that handler too. */
  lemma HandlersAgreeOnAudience(req: Http.Request)
    ensures EntryPoint(req).SendError? <==> AccessDenied(req).SendError?
  {
  }

  // ---------------------------------------------------------------------------
  // Logout
  // ---------------------------------------------------------------------------

  /** The effect of `GET /logout`: the headers added, then the redirect. */
  datatype LogoutResponse = LogoutResponse(setCookies: seq<Http.SetCookie>, location: string)

  /** Whether the logout filter handles the request: only a GET to "/logout". */
  predicate IsLogoutRequest(httpMethod: string, path: string) {
    httpMethod == "GET" && path == "/logout"
  }

  /** The logout handler and the success handler, with `app.jwt.cookie-secure` as `secure`. */
  function Logout(secure: bool): (r: LogoutResponse)
    ensures |r.setCookies| == 2 && r.location == "/"
    ensures r.setCookies[0].name == Http.AccessCookieName && r.setCookies[0].path == Http.AccessCookiePath
    ensures r.setCookies[1].name == Http.RefreshCookieName && r.setCookies[1].path == Http.RefreshCookiePath
    ensures forall i :: 0 <= i < 2 ==> r.setCookies[i].value == "" && r.setCookies[i].maxAgeSeconds == 0
                                       && r.setCookies[i].httpOnly && r.setCookies[i].sameSite == "Lax"
                                       && r.setCookies[i].secure == secure
  {
    LogoutResponse(Http.ClearTokenCookies(secure), "/")
  }

  /** The logout filter: it answers a GET to "/logout" with the logout response and lets every
      other request through (None), a POST to "/logout" included. */
  function LogoutFilter(httpMethod: string, path: string, secure: bool): (r: Option<LogoutResponse>)
    ensures r.Some? <==> httpMethod == "GET" && path == "/logout"
    ensures r.Some? ==> r.value == Logout(secure)
  {
    if IsLogoutRequest(httpMethod, path) then Some(Logout(secure)) else None
  }
}
