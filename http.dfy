/**
 * The parts of a servlet request and response the security layer reads and writes: the request
 * URI, query string, the Accept and Authorization headers and the cookies; Set-Cookie headers
 * (section 4.1 of RFC 6265) and the identity placed in the security context.
 */
module Http {
  import opened Wrappers

  /** A cookie sent by the client. */
  datatype Cookie = Cookie(name: string, value: string)

  /** DispatcherType.REQUEST for an ordinary request, ERROR for the container's error dispatch. */
  datatype DispatcherType = RequestDispatch | ErrorDispatch

  datatype Request = Request(
    uri: string,
    queryString: Option<string>,
    accept: Option<string>,
    authorization: Option<string>,
    cookies: Option<seq<Cookie>>,
    dispatcher: DispatcherType)

  /** A Set-Cookie header as ResponseCookie builds it. */
  datatype SetCookie = SetCookie(
    name: string,
    value: string,
    path: string,
    maxAgeSeconds: int,
    httpOnly: bool,
    secure: bool,
    sameSite: string)

  const AccessCookieName := "accessToken"
  const RefreshCookieName := "refreshToken"
  const AccessCookiePath := "/"
  const RefreshCookiePath := "/api/auth/refresh"

  /** An HttpOnly, SameSite=Lax cookie. */
  function LaxCookie(name: string, value: string, path: string, maxAgeSeconds: int, secure: bool): (c: SetCookie)
    ensures c.name == name && c.value == value && c.path == path && c.maxAgeSeconds == maxAgeSeconds
    ensures c.httpOnly && c.secure == secure && c.sameSite == "Lax"
  {
    SetCookie(name, value, path, maxAgeSeconds, true, secure, "Lax")
  }

  /** The two headers that clear the token cookies: empty values, Max-Age=0, each on the path it
      was set with. */
  function ClearTokenCookies(secure: bool): (cs: seq<SetCookie>)
    ensures |cs| == 2
    ensures cs[0].name == AccessCookieName && cs[0].path == AccessCookiePath
    ensures cs[1].name == RefreshCookieName && cs[1].path == RefreshCookiePath
    ensures forall i :: 0 <= i < 2 ==> cs[i].value == "" && cs[i].maxAgeSeconds == 0
                                       && cs[i].httpOnly && cs[i].secure == secure && cs[i].sameSite == "Lax"
  {
    [LaxCookie(AccessCookieName, "", AccessCookiePath, 0, secure),
     LaxCookie(RefreshCookieName, "", RefreshCookiePath, 0, secure)]
  }

  /** An authenticated UsernamePasswordAuthenticationToken: the principal name and the authority
      strings. */
  datatype Authentication = Authentication(name: Option<string>, authorities: seq<string>, authenticated: bool)
}
