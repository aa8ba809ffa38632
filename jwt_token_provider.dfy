/**
 * JwtTokenProvider: HS256-signed JSON Web Tokens (RFC 7519, signature per section 3.2 of
 * RFC 7518). An access token carries sub, roles, iat and exp; a refresh token carries sub, iat
 * and exp. Verification checks the signature, then the expiry.
 *
 * The compact serialization and HMAC-SHA256 are not modelled: they are the functions of a `Jose`
 * value, and the round-trip lemmas assume only that deserializing a serialized token gives it
 * back. Time is epoch milliseconds; the numeric dates in the claims are whole seconds.
 */
module JwtTokenProvider {
  import opened Wrappers
  import JavaText
  import Utf8

  /** The `roles` claim as the JSON reader hands it back: a list of strings, or another value. */
  datatype ClaimValue = StringList(items: seq<string>) | OtherValue

  /** The claims the provider reads and writes; iat and exp are NumericDate seconds. */
  datatype Claims = Claims(sub: Option<string>, roles: Option<ClaimValue>, iat: Option<int>, exp: Option<int>)

  /** A compact JWS taken apart: the claims and the signature over them. */
  datatype SignedToken = SignedToken(claims: Claims, signature: seq<Utf8.byte>)

  /** The compact serialization and the HMAC-SHA256 of the claims under a key. */
  datatype Jose = Jose(
    serialize: SignedToken -> string,
    deserialize: string -> Option<SignedToken>,
    hmac: (seq<Utf8.byte>, Claims) -> seq<Utf8.byte>)

  /** What a compact serialization promises: it is never blank, and reading it gives the token
      back. */
  ghost predicate WireFormat(jose: Jose) {
    forall t :: JavaText.HasText(jose.serialize(t)) && jose.deserialize(jose.serialize(t)) == Some(t)
  }

  /** `app.jwt.secret`, `app.jwt.access-exp-seconds` and `app.jwt.refresh-exp-seconds`. */
  datatype JwtConfig = JwtConfig(secret: string, accessExpSeconds: int, refreshExpSeconds: int)

  /** WeakKeyException from Keys.hmacShaKeyFor; IllegalArgumentException for a token without
      text; MalformedJwtException; SignatureException; ExpiredJwtException. */
  datatype JwtError = WeakKey | EmptyToken | Malformed | BadSignature | Expired

  const MinKeyBytes := 32

  /** key(): the UTF-8 bytes of the secret; fewer than 256 bits are refused. */
  function Key(config: JwtConfig): (r: Result<seq<Utf8.byte>, JwtError>)
    ensures r.Ok? <==> |Utf8.Encode(config.secret)| >= MinKeyBytes
    ensures r.Ok? ==> r.value == Utf8.Encode(config.secret)
    ensures r.Err? ==> r.error == WeakKey
  {
    var bytes := Utf8.Encode(config.secret);
    if |bytes| < MinKeyBytes then Err(WeakKey) else Ok(bytes)
  }

  /** A secret of 32 characters or more always gives a key, whatever the characters. */
  lemma LongSecretGivesKey(config: JwtConfig)
    requires |config.secret| >= MinKeyBytes
    ensures Key(config).Ok?
  {
  }

  /** java.util.Date.getTime() / 1000: epoch milliseconds to NumericDate seconds, truncating
      toward zero. */
  function EpochSeconds(ms: int): (s: int)
    ensures ms >= 0 ==> s * 1000 <= ms < s * 1000 + 1000
    ensures ms < 0 ==> s * 1000 - 1000 < ms <= s * 1000
  {
    if ms >= 0 then ms / 1000 else -((-ms) / 1000)
  }

  /** The claims createAccess puts in a token issued at `now`. */
  function AccessClaims(config: JwtConfig, username: Option<string>, roles: seq<string>, now: nat): Claims {
    Claims(username, Some(StringList(roles)), Some(EpochSeconds(now)),
           Some(EpochSeconds(now + config.accessExpSeconds * 1000)))
  }

  /** The claims createRefresh puts in a token issued at `now`: no roles claim. */
  function RefreshClaims(config: JwtConfig, username: Option<string>, now: nat): Claims {
    Claims(username, None, Some(EpochSeconds(now)), Some(EpochSeconds(now + config.refreshExpSeconds * 1000)))
  }

  /** signWith(key(), HS256).compact(). */
  function Sign(config: JwtConfig, jose: Jose, claims: Claims): (r: Result<string, JwtError>)
    ensures r.Err? <==> Key(config).Err?
    ensures r.Err? ==> r.error == WeakKey
    ensures r.Ok? && WireFormat(jose) ==>
              jose.deserialize(r.value) == Some(SignedToken(claims, jose.hmac(Key(config).value, claims)))
  {
    match Key(config)
    case Err(e) => Err(e)
    case Ok(key) => Ok(jose.serialize(SignedToken(claims, jose.hmac(key, claims))))
  }

  /** createAccess(username, roles) at time `now`. */
  function CreateAccess(config: JwtConfig, jose: Jose, username: Option<string>, roles: seq<string>, now: nat): Result<string, JwtError> {
    Sign(config, jose, AccessClaims(config, username, roles, now))
  }

  /** createRefresh(username) at time `now`. */
  function CreateRefresh(config: JwtConfig, jose: Jose, username: Option<string>, now: nat): Result<string, JwtError> {
    Sign(config, jose, RefreshClaims(config, username, now))
  }

  /** Whether a token with these claims has expired at `now`: only once the clock is past the
      expiry instant. */
  predicate IsExpired(claims: Claims, now: int) {
    claims.exp.Some? && now > claims.exp.value * 1000
  }

  /** parse(token) at time `now`: the claims of a token signed with this key that has not
      expired. */
  function Parse(config: JwtConfig, jose: Jose, token: string, now: int): (r: Result<Claims, JwtError>)
    ensures r.Ok? ==> Key(config).Ok? && JavaText.HasText(token)
                      && jose.deserialize(token) == Some(SignedToken(r.value, jose.hmac(Key(config).value, r.value)))
                      && !IsExpired(r.value, now)
    ensures Key(config).Err? ==> r == Err(WeakKey)
    ensures Key(config).Ok? && !JavaText.HasText(token) ==> r == Err(EmptyToken)
    ensures Key(config).Ok? && JavaText.HasText(token) && jose.deserialize(token).None? ==> r == Err(Malformed)
    ensures Key(config).Ok? && JavaText.HasText(token) && jose.deserialize(token).Some?
            && jose.deserialize(token).value.signature != jose.hmac(Key(config).value, jose.deserialize(token).value.claims)
            ==> r == Err(BadSignature)
    ensures Key(config).Ok? && JavaText.HasText(token) && jose.deserialize(token).Some?
            && jose.deserialize(token).value.signature == jose.hmac(Key(config).value, jose.deserialize(token).value.claims)
            ==> r == (if IsExpired(jose.deserialize(token).value.claims, now) then Err(Expired)
                      else Ok(jose.deserialize(token).value.claims))
  {
    match Key(config)
    case Err(e) => Err(e)
    case Ok(key) =>
      if !JavaText.HasText(token) then Err(EmptyToken)
      else
        match jose.deserialize(token)
        case None => Err(Malformed)
        case Some(t) =>
          if t.signature != jose.hmac(key, t.claims) then Err(BadSignature)
          else if IsExpired(t.claims, now) then Err(Expired)
          else Ok(t.claims)
  }

  /** getUsername(token): the subject, failing exactly when parse fails. */
  function GetUsername(config: JwtConfig, jose: Jose, token: string, now: int): (r: Result<Option<string>, JwtError>)
    ensures r.Err? <==> Parse(config, jose, token, now).Err?
    ensures r.Ok? ==> r.value == Parse(config, jose, token, now).value.sub
  {
    match Parse(config, jose, token, now)
    case Err(e) => Err(e)
    case Ok(claims) => Ok(claims.sub)
  }

  /** getRoles(token): the roles claim when it is a list, the empty list otherwise; failing
      exactly when parse fails. */
  function GetRoles(config: JwtConfig, jose: Jose, token: string, now: int): (r: Result<seq<string>, JwtError>)
    ensures r.Err? <==> Parse(config, jose, token, now).Err?
    ensures r.Ok? && r.value != [] ==> Parse(config, jose, token, now).value.roles == Some(StringList(r.value))
  {
    match Parse(config, jose, token, now)
    case Err(e) => Err(e)
    case Ok(claims) =>
      match claims.roles
      case Some(StringList(items)) => Ok(items)
      case _ => Ok([])
  }

  /** The instant an access token issued at `issued` expires, in milliseconds. */
  function AccessExpiry(config: JwtConfig, issued: nat): int {
    EpochSeconds(issued + config.accessExpSeconds * 1000) * 1000
  }

  function RefreshExpiry(config: JwtConfig, issued: nat): int {
    EpochSeconds(issued + config.refreshExpSeconds * 1000) * 1000
  }

  /** An access token read back before it expires gives the subject and the roles it was issued
      with. */
  lemma AccessRoundTrip(config: JwtConfig, jose: Jose, username: Option<string>, roles: seq<string>, issued: nat, now: int)
    requires WireFormat(jose) && Key(config).Ok?
    requires now <= AccessExpiry(config, issued)
    ensures CreateAccess(config, jose, username, roles, issued).Ok?
    ensures var token := CreateAccess(config, jose, username, roles, issued).value;
            GetUsername(config, jose, token, now) == Ok(username)
            && GetRoles(config, jose, token, now) == Ok(roles)
  {
    var claims := AccessClaims(config, username, roles, issued);
    var st := SignedToken(claims, jose.hmac(Key(config).value, claims));
    assert JavaText.HasText(jose.serialize(st)) && jose.deserialize(jose.serialize(st)) == Some(st);
  }

  /** A refresh token read back before it expires gives its subject and no roles. */
  lemma RefreshRoundTrip(config: JwtConfig, jose: Jose, username: Option<string>, issued: nat, now: int)
    requires WireFormat(jose) && Key(config).Ok?
    requires now <= RefreshExpiry(config, issued)
    ensures CreateRefresh(config, jose, username, issued).Ok?
    ensures var token := CreateRefresh(config, jose, username, issued).value;
            GetUsername(config, jose, token, now) == Ok(username)
            && GetRoles(config, jose, token, now) == Ok([])
  {
    var claims := RefreshClaims(config, username, issued);
    var st := SignedToken(claims, jose.hmac(Key(config).value, claims));
    assert JavaText.HasText(jose.serialize(st)) && jose.deserialize(jose.serialize(st)) == Some(st);
  }

  /** Once its expiry instant has passed, an access token is refused. */
  lemma AccessExpires(config: JwtConfig, jose: Jose, username: Option<string>, roles: seq<string>, issued: nat, now: int)
    requires WireFormat(jose) && Key(config).Ok?
    requires now > AccessExpiry(config, issued)
    ensures CreateAccess(config, jose, username, roles, issued).Ok?
    ensures Parse(config, jose, CreateAccess(config, jose, username, roles, issued).value, now) == Err(Expired)
  {
    var claims := AccessClaims(config, username, roles, issued);
    var st := SignedToken(claims, jose.hmac(Key(config).value, claims));
    assert JavaText.HasText(jose.serialize(st)) && jose.deserialize(jose.serialize(st)) == Some(st);
  }

  /** With a positive lifetime, a token is still good for the rest of the second it was issued
      in and for `ttl` seconds after it. */
  lemma AccessExpiryBounds(config: JwtConfig, issued: nat)
    requires config.accessExpSeconds >= 0
    ensures issued - 999 + config.accessExpSeconds * 1000 <= AccessExpiry(config, issued) <= issued + config.accessExpSeconds * 1000
  {
  }

  /** A token whose signature was not made with this key is refused, whatever its claims. */
  lemma ForeignSignatureRefused(config: JwtConfig, jose: Jose, claims: Claims, signature: seq<Utf8.byte>, now: int)
    requires WireFormat(jose) && Key(config).Ok?
    requires signature != jose.hmac(Key(config).value, claims)
    ensures Parse(config, jose, jose.serialize(SignedToken(claims, signature)), now) == Err(BadSignature)
  {
    var st := SignedToken(claims, signature);
    assert JavaText.HasText(jose.serialize(st)) && jose.deserialize(jose.serialize(st)) == Some(st);
  }

  /** Nothing marks a token as access or refresh: a valid access token passes getUsername just as
      a refresh token does, and a refresh token passes getRoles with no roles. */
  lemma TokenKindsInterchangeable(config: JwtConfig, jose: Jose, username: Option<string>, roles: seq<string>, issued: nat, now: int)
    requires WireFormat(jose) && Key(config).Ok?
    requires now <= AccessExpiry(config, issued) && now <= RefreshExpiry(config, issued)
    ensures GetUsername(config, jose, CreateAccess(config, jose, username, roles, issued).value, now)
            == GetUsername(config, jose, CreateRefresh(config, jose, username, issued).value, now)
  {
    AccessRoundTrip(config, jose, username, roles, issued, now);
    RefreshRoundTrip(config, jose, username, issued, now);
  }
}
