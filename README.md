# asBoard service-ticket tracker — a Dafny model of its core

asBoard is a Spring web application that farm-equipment technicians use to track after-sales
service tickets ("AS" tickets). Each ticket has a header, equipment rows, schedule rows and
attached files. This project models, in Dafny, the parts of the application that decide things:

- **Stateless security.** The route table and the two error handlers of `SecurityConfig`, the GET
  `/logout` handler, the token extraction and verification of `JwtAuthFilter`, token issue and
  parsing in `JwtTokenProvider` (JSON Web Tokens, RFC 7519, signed with HS256 as in section 3.2 of
  RFC 7518), and login, refresh, logout, me and signup in `AuthController`. Cookies carry the
  attributes of section 4.1.2 of RFC 6265.
- **Input normalisers and codecs.** The CSV filter parser of `AsController`, list-page and
  schedule-page parameter defaulting, the paging arithmetic with Java `int` wrap-around, export
  column selection, the visible days of the calendar week and the farm colour map. Also the
  dashboard period brackets of `DashService` (proleptic Gregorian calendar, Monday-to-Sunday
  weeks), the `'1'/'0'` database boolean codec, the strict JSON boolean parser, the trim-to-null
  string reader and the schedule completion label.
- **Upload paths.** Public-prefix normalisation, public path to absolute directory with the
  containment check against `..`, stored file names (UUID plus extension), `saveAll`, and the
  commit/rollback deletion callbacks of `TransactionalFileOps` as a class with pending-callback
  state.
- **Ticket writes** in `AsRestController`. Mapper calls are an append-only trace held by an
  `AsMapper` object. The DTOs are classes whose `asId`/`useFlag` fields the handlers stamp in
  place.

Shared helper modules give Java's semantics for the library calls the core relies on:

- `JavaText`: `trim`, `isBlank`, `split` (trailing empty strings dropped), `equalsIgnoreCase`
  against ASCII words, `replaceAll("^/+", "")`, `length()` in UTF-16 units.
- `UnixPaths`: `Paths.get`, `resolve`, `normalize`, `startsWith` on a Unix file system.
- `Utf8`: UTF-8 encoding and decoding.
- `FormEncoding`: `URLEncoder.encode` with its decoder.
- `Calendar`: ISO dates and day arithmetic.
- `Seqs`: stream `distinct` and `filter`.
- `Http`: requests and Set-Cookie values.

Nondeterminism becomes parameters. The clock is a `now` or `today` argument. UUIDs are a list of
strings. The HMAC and the compact JWS form are function fields of a `Jose` value; the round-trip
lemmas assume only that reading a serialized token gives it back. BCrypt is a `(raw, hash) -> bool`
parameter. Query results are function parameters of the mapper object. The disk is a set of paths.

Two behaviours follow the code even where a reader might expect otherwise:

- **Token expiry.** Section 4.1.4 of RFC 7519 says the current time must be before the expiration
  time for a token to be accepted. The parser in use (JJWT) refuses a token only once the clock is
  *after* `exp`, at millisecond resolution, with `exp` truncated to whole seconds, so a token is
  still accepted at the instant `exp` itself. `JwtTokenProvider.IsExpired` says what JJWT does.
- **Rollback cleanup.** `saveAll` registers its rollback cleanup while the `created` list is still
  empty (LocalFileStorageService.java lines 110-112). The emptiness guard of
  `registerRollbackCleanup` (TransactionalFileOps.java line 22) then registers nothing. The model
  keeps this: `SaveAll` leaves the registered callbacks unchanged, and `SaveAllThenRollback` shows
  that the saved files are still on disk after a rollback.

Other quirks the model keeps and proves:

- The permit list contains `"/**"`, so every path is public.
- A redirect destination over 1800 UTF-16 units becomes `"/"`.
- A header of exactly `"Bearer "` gives the empty token, which hides the cookie.
- `refresh` accepts an access token.
- `refresh` issues `ROLE_USER` for a user missing from the store, and refreshes an inactive user.
- A blank stored role lets the user log in but never authenticates their token.
- A first schedule without a plan date makes the calendar page throw.
- `WebConfig` and `publicBase` disagree on a blank prefix.

## Model

All source paths are relative to the repository root.

| member | source | states |
|---|---|---|
| SecurityConfig.FirstMatch | asBoard/src/main/java/com/inpro/asBoard/security/SecurityConfig.java:60-75 | The index of the first rule in the chain that matches the path (or the rule count), with no earlier rule matching |
| SecurityConfig.Authorize | asBoard/src/main/java/com/inpro/asBoard/security/SecurityConfig.java:62-75 | A path is permitted exactly when one of the two permitAll matcher groups matches it |
| SecurityConfig.EveryPathIsPermitted | asBoard/src/main/java/com/inpro/asBoard/security/SecurityConfig.java:62-65 | Because of `"/**"`, the first rule decides every request path and admits it; `/api/auth/**` and `anyRequest().authenticated()` never decide |
| SecurityConfig.Destination | asBoard/src/main/java/com/inpro/asBoard/security/SecurityConfig.java:101-102 | The destination is the URI, followed by `"?"` and the query only when a query string exists |
| SecurityConfig.BoundedDestination | asBoard/src/main/java/com/inpro/asBoard/security/SecurityConfig.java:103 | A destination over 1800 UTF-16 units is replaced by `"/"`, not truncated; the result is never over the bound |
| SecurityConfig.EntryPoint | asBoard/src/main/java/com/inpro/asBoard/security/SecurityConfig.java:84-106 | A bare 401 exactly for an `/api/` URI or a request whose Accept lacks `text/html`; a plain `/login` redirect exactly for HTML requests to `/login`, `/error…` or an ERROR dispatch; otherwise `/login?redirect=` plus the form-encoded bounded destination |
| SecurityConfig.RedirectParameterDecodes | asBoard/src/main/java/com/inpro/asBoard/security/SecurityConfig.java:101-105 | The redirect parameter has no `& = # ?`, and decodes to the original destination, or to `"/"` when the destination is too long |
| SecurityConfig.NoDelimiters | asBoard/src/main/java/com/inpro/asBoard/security/SecurityConfig.java:104 | Form encoding never produces a character that could start a query parameter or a fragment |
| SecurityConfig.AccessDenied | asBoard/src/main/java/com/inpro/asBoard/security/SecurityConfig.java:109-118 | 403 exactly for API or non-HTML requests; every other request is redirected to `/403` |
| SecurityConfig.HandlersAgreeOnAudience | asBoard/src/main/java/com/inpro/asBoard/security/SecurityConfig.java:84-118 | The entry point sends a bare error exactly when the access-denied handler does |
| SecurityConfig.LogoutFilter | asBoard/src/main/java/com/inpro/asBoard/security/SecurityConfig.java:125-147 | Only a GET to `/logout` is answered, with the logout response; every other request, a POST to `/logout` included, passes on |
| SecurityConfig.Logout | asBoard/src/main/java/com/inpro/asBoard/security/SecurityConfig.java:126-147 | Exactly two cleared cookies: accessToken at `/` and refreshToken at `/api/auth/refresh`, both empty, Max-Age 0, HttpOnly, SameSite=Lax, Secure as configured; then a redirect to `/` |
| Http.LaxCookie | src/main/java/com/inpro/asBoard/auth/AuthController.java:68-83 | A cookie with the given name, value, path and Max-Age, HttpOnly, SameSite=Lax and the configured Secure flag |
| Http.ClearTokenCookies | src/main/java/com/inpro/asBoard/auth/AuthController.java:144-160 | The two clearing cookies, with the same names and paths as the login cookies, empty and with Max-Age 0 |
| JwtAuthFilter.BearerToken | asBoard/src/main/java/com/inpro/asBoard/security/JwtAuthFilter.java:47-48 | A token exactly when the header starts with `"Bearer "` (case-sensitive), and the header is that prefix followed by the token |
| JwtAuthFilter.FirstCookieValue | asBoard/src/main/java/com/inpro/asBoard/security/JwtAuthFilter.java:50-54 | None exactly when no cookie has the name; otherwise the value of the first cookie with that name |
| JwtAuthFilter.CookieToken | asBoard/src/main/java/com/inpro/asBoard/security/JwtAuthFilter.java:50-54 | The cookie loop with its `break` returns the first `accessToken` cookie's value |
| JwtAuthFilter.TokenOf | asBoard/src/main/java/com/inpro/asBoard/security/JwtAuthFilter.java:45-54 | The header token wins; the cookie is consulted only when no header token was found; no cookies and no header give no token |
| JwtAuthFilter.Authenticate | asBoard/src/main/java/com/inpro/asBoard/security/JwtAuthFilter.java:56-64 | An identity exactly when the token parses and every role has text; it is the token's subject and roles claim, authenticated |
| JwtAuthFilter.JwtAuthFilter.constructor | asBoard/src/main/java/com/inpro/asBoard/security/JwtAuthFilter.java:19-21 | The filter starts with no identity set and no chain call |
| JwtAuthFilter.JwtAuthFilter.DoFilterInternal | asBoard/src/main/java/com/inpro/asBoard/security/JwtAuthFilter.java:33-67 | The chain runs exactly once; the identity is replaced only when a token was found and verifies, and is otherwise left as it was |
| JwtAuthFilter.HeaderWins | asBoard/src/main/java/com/inpro/asBoard/security/JwtAuthFilter.java:47-48 | A Bearer header gives the token after index 7, whatever the cookies hold |
| JwtAuthFilter.BareBearerHidesCookie | asBoard/src/main/java/com/inpro/asBoard/security/JwtAuthFilter.java:48-50 | A header of exactly `"Bearer "` gives the empty token, which blocks the cookie lookup and never authenticates |
| JwtAuthFilter.OtherSchemeFallsBackToCookie | asBoard/src/main/java/com/inpro/asBoard/security/JwtAuthFilter.java:47-54 | A header in another scheme is ignored and the cookie decides |
| JwtAuthFilter.AccessTokenAuthenticates | asBoard/src/main/java/com/inpro/asBoard/security/JwtAuthFilter.java:56-63 | A fresh access token whose roles have text authenticates as its subject with exactly its roles |
| JwtAuthFilter.RefreshTokenAuthenticatesWithoutRoles | asBoard/src/main/java/com/inpro/asBoard/security/JwtAuthFilter.java:58-63 | A fresh refresh token authenticates its subject with no authorities |
| JwtAuthFilter.BlankRoleNeverAuthenticates | asBoard/src/main/java/com/inpro/asBoard/security/JwtAuthFilter.java:59-64 | A role without text makes `SimpleGrantedAuthority` throw; the exception is swallowed and no identity is set |
| JwtTokenProvider.Key | asBoard/src/main/java/com/inpro/asBoard/security/JwtTokenProvider.java:47-50 | The key is the UTF-8 bytes of the secret; fewer than 32 bytes fail with a weak-key error |
| JwtTokenProvider.LongSecretGivesKey | asBoard/src/main/java/com/inpro/asBoard/security/JwtTokenProvider.java:49 | A secret of at least 32 characters always yields a key |
| JwtTokenProvider.EpochSeconds | asBoard/src/main/java/com/inpro/asBoard/security/JwtTokenProvider.java:66-67 | Milliseconds to the whole second of a NumericDate, rounding toward the epoch |
| JwtTokenProvider.Sign | asBoard/src/main/java/com/inpro/asBoard/security/JwtTokenProvider.java:63-69 | Signing fails exactly when the key is weak; otherwise the compact token reads back as the claims with their HMAC under the key |
| JwtTokenProvider.Parse | asBoard/src/main/java/com/inpro/asBoard/security/JwtTokenProvider.java:98-100 | Claims come back only from a token with text, readable, signed with this key and not expired; each failure has its own error |
| JwtTokenProvider.GetUsername | asBoard/src/main/java/com/inpro/asBoard/security/JwtTokenProvider.java:110 | Fails exactly when parse fails; otherwise the `sub` claim |
| JwtTokenProvider.GetRoles | asBoard/src/main/java/com/inpro/asBoard/security/JwtTokenProvider.java:121-124 | Fails exactly when parse fails; a non-empty result is the list held by the `roles` claim |
| JwtTokenProvider.AccessRoundTrip | asBoard/src/main/java/com/inpro/asBoard/security/JwtTokenProvider.java:61-69 | An access token read back before its expiry gives the subject and the roles it was created with |
| JwtTokenProvider.RefreshRoundTrip | asBoard/src/main/java/com/inpro/asBoard/security/JwtTokenProvider.java:80-88 | A refresh token read back before its expiry gives its subject and no roles |
| JwtTokenProvider.AccessExpires | asBoard/src/main/java/com/inpro/asBoard/security/JwtTokenProvider.java:67 | After its expiry an access token is refused as expired |
| JwtTokenProvider.AccessExpiryBounds | asBoard/src/main/java/com/inpro/asBoard/security/JwtTokenProvider.java:67 | The expiry lies within one second before issue time plus `accessExp` seconds |
| JwtTokenProvider.ForeignSignatureRefused | asBoard/src/main/java/com/inpro/asBoard/security/JwtTokenProvider.java:98-100 | A token whose signature is not this key's HMAC of its claims is refused |
| JwtTokenProvider.TokenKindsInterchangeable | asBoard/src/main/java/com/inpro/asBoard/security/JwtTokenProvider.java:98-110 | No claim tells the kinds apart: `getUsername` reads the same subject from an access and a refresh token |
| AuthController.Login | src/main/java/com/inpro/asBoard/auth/AuthController.java:52-90 | The same 401 "invalid" exactly for an unknown user, an inactive account or a wrong password; null roles throw; otherwise it fails only on a weak key and returns 200, the username, the comma-split roles and the two token cookies |
| AuthController.LoginCookies | src/main/java/com/inpro/asBoard/auth/AuthController.java:68-86 | A successful login sets accessToken at `/` for 900 s and refreshToken at `/api/auth/refresh` for 14 days, both HttpOnly, Lax, Secure as configured |
| AuthController.LoginTokensRoundTrip | src/main/java/com/inpro/asBoard/auth/AuthController.java:61-65 | The cookies of a login read back, while fresh, as the account's username and its split roles |
| AuthController.RolesFor | src/main/java/com/inpro/asBoard/auth/AuthController.java:109-110 | The stored roles of a user the store holds with roles, and `"ROLE_USER"` otherwise |
| AuthController.Refresh | src/main/java/com/inpro/asBoard/auth/AuthController.java:100-132 | 401 with no cookie when there is no token or it does not parse; otherwise 200 `{ok:true}` with exactly one new access cookie for the token's subject and the roles re-read from the store |
| AuthController.RefreshAcceptsParsedTokens | src/main/java/com/inpro/asBoard/auth/AuthController.java:104-127 | Every token that parses is accepted by refresh |
| AuthController.RefreshAcceptsAccessToken | src/main/java/com/inpro/asBoard/auth/AuthController.java:106 | Nothing checks the token type: a fresh access token works as a refresh token |
| AuthController.RefreshForMissingUser | src/main/java/com/inpro/asBoard/auth/AuthController.java:109-113 | Refreshing for a user missing from the store issues an access token with `ROLE_USER` |
| AuthController.InactiveUserKeepsRefreshing | src/main/java/com/inpro/asBoard/auth/AuthController.java:100-132 | An inactive user is refused at login but still refreshes with a refresh token issued earlier |
| AuthController.Logout | src/main/java/com/inpro/asBoard/auth/AuthController.java:142-162 | Always 200 with no body, clearing the same two cookies as the GET `/logout` handler |
| AuthController.LogoutClearsLoginCookies | src/main/java/com/inpro/asBoard/auth/AuthController.java:144-160 | Logout clears each login cookie under the same name and path, with Max-Age 0 |
| AuthController.Me | src/main/java/com/inpro/asBoard/auth/AuthController.java:172-183 | `{authenticated:false}` exactly for a missing or unauthenticated identity; otherwise its name and authorities |
| AuthController.UserStore.constructor | asBoard/src/main/java/com/inpro/asBoard/user/UserMapper.java:19-28 | The account store starts with the given accounts |
| AuthController.UserStore.Signup | src/main/java/com/inpro/asBoard/auth/AuthController.java:196-220 | 400 with the store unchanged on a password mismatch; 409 with the store unchanged for a taken name; otherwise 200 and exactly one new account: hashed password, `ROLE_USER`, active |
| AuthController.SignedUpUserCanLogin | src/main/java/com/inpro/asBoard/auth/AuthController.java:211-217 | A freshly signed-up user logs in with the password given and gets the roles `["ROLE_USER"]` |
| AsController.TrimAll | src/main/java/com/inpro/asBoard/as/controller/AsController.java:175 | Each field is trimmed, position by position |
| AsController.CsvToList | src/main/java/com/inpro/asBoard/as/controller/AsController.java:172-179 | Null or blank gives empty; otherwise exactly the non-empty trimmed comma fields, without duplicates |
| AsController.CsvToListOrder | src/main/java/com/inpro/asBoard/as/controller/AsController.java:177 | The values keep the order of their first occurrence in the input |
| AsController.CsvToListOfJoined | src/main/java/com/inpro/asBoard/as/controller/AsController.java:172-179 | Joining distinct plain values with commas and parsing gives the values back |
| AsController.WithoutEtc | src/main/java/com/inpro/asBoard/as/controller/AsController.java:118 | The forwarded types are exactly the parsed types other than `"기타"` |
| AsController.WithoutEtcKeepsOrder | src/main/java/com/inpro/asBoard/as/controller/AsController.java:117-118 | When `"기타"` is present, the forwarded list is the parsed list with that one entry cut out, order unchanged |
| AsController.WithoutEtcUnchanged | src/main/java/com/inpro/asBoard/as/controller/AsController.java:118 | Without `"기타"`, the forwarded list is the parsed list |
| AsController.Wrap32 | src/main/java/com/inpro/asBoard/as/controller/AsController.java:99 | Java `int` arithmetic: the 32-bit value congruent to the exact one |
| AsController.Offset | src/main/java/com/inpro/asBoard/as/controller/AsController.java:99 | `(page - 1) * size` as a Java `int`, exact whenever it fits |
| AsController.LargePageWrapsNegative | src/main/java/com/inpro/asBoard/as/controller/AsController.java:99 | Page 214748366 with size 10 wraps to a negative offset |
| AsController.CeilDiv | src/main/java/com/inpro/asBoard/as/controller/AsController.java:149 | For a positive divisor, the least q with `a <= q * b` |
| AsController.TotalPages | src/main/java/com/inpro/asBoard/as/controller/AsController.java:149 | ⌈total/size⌉ for a positive size; for size 0 the `int` cast of ±infinity or NaN |
| AsController.PageInRange | src/main/java/com/inpro/asBoard/as/controller/AsController.java:99-149 | A page's offset is below the total exactly when the page is at most `totalPages` |
| AsController.SearchText | src/main/java/com/inpro/asBoard/as/controller/AsController.java:133 | The query is null exactly when it is blank; otherwise it is trimmed |
| AsController.OrDefault | src/main/java/com/inpro/asBoard/as/controller/AsController.java:108-109 | A null or blank parameter takes the default; any other value is kept as given |
| AsController.DateByNorm | src/main/java/com/inpro/asBoard/as/controller/AsController.java:122 | `"reg"` exactly when `dateBy` equals `reg` ignoring case, else `"plan"` |
| AsController.QueryText | src/main/java/com/inpro/asBoard/as/controller/AsController.java:102-104 | A non-blank q wins, trimmed; otherwise a keyword with text, trimmed; otherwise null |
| AsController.ListQueryOf | src/main/java/com/inpro/asBoard/as/controller/AsController.java:99-144 | The list page's parameters: legacy keyword/asStatus fill in only when q/statuses are blank; includeHold iff `"보류"` is a status; includeEtc iff `"기타"` is a type; the types are the parsed types without `"기타"` (order by WithoutEtcKeepsOrder); equipName, period, startDate and endDate passed through; sort defaults `asId`/`desc`; normalised dateBy; the wrapped offset |
| AsController.TrimmedTextHasText | src/main/java/com/inpro/asBoard/as/controller/AsController.java:102-103 | A string whose trim is not blank is not blank itself |
| AsController.ScheduleFilterOf | src/main/java/com/inpro/asBoard/as/controller/AsController.java:328-351 | The schedule and export filter: trimmed q or null, parsed lists, includeEtc and the parsed types without `"기타"` in order, sort defaults `planDate`/`asc`, other fields passed through |
| AsController.SchedulePageOf | src/main/java/com/inpro/asBoard/as/controller/AsController.java:326-353 | The schedule list sends that filter with the wrapped offset and the size |
| AsController.SortDefaultsDiffer | src/main/java/com/inpro/asBoard/as/controller/AsController.java:108-109 | Blank sort parameters give `asId`/`desc` on the list page and `planDate`/`asc` on the schedule pages |
| AsController.DefaultColumnsDistinct | src/main/java/com/inpro/asBoard/as/controller/AsController.java:432-435 | The ten default columns are distinct |
| AsController.AllowedFields | src/main/java/com/inpro/asBoard/as/controller/AsController.java:439-440 | Exactly the requested trimmed names that are known columns |
| AsController.ExportColumns | src/main/java/com/inpro/asBoard/as/controller/AsController.java:432-441 | Never empty, never duplicated, only known columns; the ten defaults for blank `cols` or when nothing is allowed; otherwise exactly the allowed requested names |
| AsController.ExportColumnsOrder | src/main/java/com/inpro/asBoard/as/controller/AsController.java:439-440 | Chosen columns appear in the order the request first names them |
| AsController.WeekDay | src/main/java/com/inpro/asBoard/as/controller/AsController.java:199-200 | Day i after a Monday falls on ISO weekday i + 1 |
| AsController.FullWeek | src/main/java/com/inpro/asBoard/as/controller/AsController.java:197-201 | Seven consecutive days, Monday to Sunday, of the week holding today |
| AsController.AnyPlanOn | src/main/java/com/inpro/asBoard/as/controller/AsController.java:207-209 | `anyMatch` over plan dates: true only for a real match; with every plan date present, whether some schedule is planned that day |
| AsController.WeekdayKept | src/main/java/com/inpro/asBoard/as/controller/AsController.java:206 | Monday to Friday are always shown, without looking at the schedules |
| AsController.WeekendDayKept | src/main/java/com/inpro/asBoard/as/controller/AsController.java:207-209 | A Saturday or Sunday is shown exactly when a schedule is planned on it |
| AsController.VisibleWeekShape | src/main/java/com/inpro/asBoard/as/controller/AsController.java:203-211 | The visible week is Monday to Friday, then Saturday if planned, then Sunday if planned, in week order |
| AsController.WeekShape | src/main/java/com/inpro/asBoard/as/controller/AsController.java:203-211 | The day filter over any Monday-to-Sunday run keeps the weekdays and the planned weekend days in order |
| AsController.MissingPlanDateFails | src/main/java/com/inpro/asBoard/as/controller/AsController.java:209 | A first schedule without a plan date makes the page throw in the weekend check |
| AsController.Present | src/main/java/com/inpro/asBoard/as/controller/AsController.java:218 | Exactly the non-null farm codes |
| AsController.PresentAppend | src/main/java/com/inpro/asBoard/as/controller/AsController.java:218 | The non-null codes of a concatenation are those of each part in turn, so order and repetitions are kept |
| AsController.PresentSingle | src/main/java/com/inpro/asBoard/as/controller/AsController.java:218 | A null code contributes nothing; any other contributes its value |
| AsController.ColorKeys | src/main/java/com/inpro/asBoard/as/controller/AsController.java:216-222 | Exactly the trimmed non-empty codes, each once |
| AsController.ColorKeysOrder | src/main/java/com/inpro/asBoard/as/controller/AsController.java:216-222 | Colour keys come in the order their codes first appear among the trimmed non-null codes |
| AsController.FarmColorMap | src/main/java/com/inpro/asBoard/as/controller/AsController.java:214-227 | Keys are the colour keys, in first-appearance order by ColorKeysOrder; the i-th gets colour i mod 20; with at most 20 codes all colours differ |
| AsController.AssignColors | src/main/java/com/inpro/asBoard/as/controller/AsController.java:224-227 | The `colorIdx` loop maps each of the distinct codes, and nothing else, to its position mod 20 |
| AsController.ColoredPrefixStep | src/main/java/com/inpro/asBoard/as/controller/AsController.java:225-226 | One loop step colours the next code and keeps the loop invariant |
| AsController.DistinctColors | src/main/java/com/inpro/asBoard/as/controller/AsController.java:226 | Below the palette size, different positions get different colours |
| AsRestController.AsMapper.Record | src/main/java/com/inpro/asBoard/as/mapper/AsMapper.java:11 | A mapper call appends exactly that call to the trace |
| AsRestController.AsMapper.InsertHeader | asBoard/src/main/java/com/inpro/asBoard/as/controller/AsRestController.java:100-102 | `insertAsHeader` records the header row and writes the generated key into the DTO's `asId`, if one is generated |
| AsRestController.GetCategoryList | asBoard/src/main/java/com/inpro/asBoard/as/controller/AsRestController.java:45-50 | A blank farmCode is a 400 before any query; otherwise exactly one category query |
| AsRestController.GetEquipmentList | asBoard/src/main/java/com/inpro/asBoard/as/controller/AsRestController.java:60-72 | 400 before any query for a blank farmCode or a table outside the 26-entry whitelist; otherwise one query with a map of exactly farmCode and tableName |
| AsRestController.EquipInserts | asBoard/src/main/java/com/inpro/asBoard/as/controller/AsRestController.java:106-110 | One insert per equipment row, in list order, each carrying the header id and `useFlag = true` |
| AsRestController.ScheduleRows | asBoard/src/main/java/com/inpro/asBoard/as/controller/AsRestController.java:114-117 | One row per schedule DTO |
| AsRestController.ScheduleRowsElements | asBoard/src/main/java/com/inpro/asBoard/as/controller/AsRestController.java:114-117 | The snapshot of the schedule list holds each DTO's row in order |
| AsRestController.ScheduleInserts | asBoard/src/main/java/com/inpro/asBoard/as/controller/AsRestController.java:114-118 | One insert per schedule row, in list order, with the header id, `useFlag = true` and the row's own fields |
| AsRestController.StampEquips | asBoard/src/main/java/com/inpro/asBoard/as/controller/AsRestController.java:105-111 | The loop stamps every equipment DTO in place with the id and `useFlag = true` and inserts them in order |
| AsRestController.StampSchedules | asBoard/src/main/java/com/inpro/asBoard/as/controller/AsRestController.java:113-119 | The loop stamps every schedule DTO in place and inserts them in order; completion dates are untouched |
| AsRestController.InsertAs | asBoard/src/main/java/com/inpro/asBoard/as/controller/AsRestController.java:98-122 | The header gets `useFlag = true` and is inserted first; no generated id is an IllegalStateException after that insert alone; otherwise every child is stamped and inserted, equipment before schedules, and the id is returned |
| AsRestController.CollectTargets | asBoard/src/main/java/com/inpro/asBoard/as/controller/AsRestController.java:140-147 | The loop over the selected files resolves each absolute path in order, failing at the first directory outside the root |
| AsRestController.StoredNamesArePlain | src/main/java/com/inpro/asBoard/storage/LocalFileStorageService.java:121 | Every name `saveAll` stores is relative and has no `.` or `..` element; it may have several elements |
| AsRestController.StoredNameCanHaveSeveralElements | src/main/java/com/inpro/asBoard/storage/LocalFileStorageService.java:117-121 | The extension keeps a `/` after the last `.`: the original name `a.b/c` is stored as the UUID followed by `.b/c`, two path elements |
| AsRestController.TargetsStayUnderRoot | asBoard/src/main/java/com/inpro/asBoard/as/controller/AsRestController.java:142-146 | For stored names of that form, every deletion target lies under the upload root |
| AsRestController.TargetStaysUnderRoot | asBoard/src/main/java/com/inpro/asBoard/as/controller/AsRestController.java:143-144 | One file's target `dir.resolve(uuid).normalize()` stays under the root |
| AsRestController.UpdateReplacesChildren | asBoard/src/main/java/com/inpro/asBoard/as/controller/AsRestController.java:149-170 | The update trace: header update, then the equipment hard delete before every equipment insert, then the schedule delete before every schedule insert, and a file hard delete last exactly when ids were given |
| AsRestController.UpdateAs | asBoard/src/main/java/com/inpro/asBoard/as/controller/AsRestController.java:137-175 | Paths are resolved before any write, and a bad path aborts with only the select recorded; otherwise the full update trace, children stamped, and one after-commit deletion registered exactly when there are targets |
| AsRestController.ApplyUpdate | asBoard/src/main/java/com/inpro/asBoard/as/controller/AsRestController.java:149-172 | The writes of an update after the paths are known: the row replacement, then the file step |
| AsRestController.ReplaceRows | asBoard/src/main/java/com/inpro/asBoard/as/controller/AsRestController.java:149-167 | Header update, equipment delete and reinserts, schedule delete and reinserts, every child stamped with the ticket id |
| AsRestController.RemoveAttachments | asBoard/src/main/java/com/inpro/asBoard/as/controller/AsRestController.java:169-172 | Given ids: the rows are hard-deleted and one after-commit deletion of the targets is registered; no ids: nothing happens |
| AsRestController.DeleteAs | asBoard/src/main/java/com/inpro/asBoard/as/controller/AsRestController.java:187-196 | Exactly the four soft deletes: equipment, files, schedules, header, in that order |
| AsRestController.FileSizeColumn | asBoard/src/main/java/com/inpro/asBoard/as/controller/AsRestController.java:223 | The size clamped to `Integer.MAX_VALUE`, then narrowed to `int`; sizes that fit are unchanged |
| AsRestController.FileInserts | asBoard/src/main/java/com/inpro/asBoard/as/controller/AsRestController.java:217-227 | One file row per saved file, in order, with the ticket id, stored name, public directory, clamped size and `useFlag = true` |
| AsRestController.InsertFileRows | asBoard/src/main/java/com/inpro/asBoard/as/controller/AsRestController.java:217-227 | The insert loop records exactly those rows |
| AsRestController.UploadAsFiles | asBoard/src/main/java/com/inpro/asBoard/as/controller/AsRestController.java:208-229 | 400 with nothing stored or inserted for null/empty files or a null id; otherwise files are written by `saveAll`, and on success one row is inserted per saved file; no callback is registered |
| AsRestController.FailedUploadKeepsEarlierFiles | asBoard/src/main/java/com/inpro/asBoard/as/controller/AsRestController.java:215 | When the k-th kept file cannot be stored, the upload fails and exactly the first k files are left on disk |
| AsRestController.DecimalLength | asBoard/src/main/java/com/inpro/asBoard/as/controller/AsRestController.java:256 | Numbers below 10, 100, 1000 and 10000 print in at most 1, 2, 3 and 4 digits |
| AsRestController.ZeroPadExact | asBoard/src/main/java/com/inpro/asBoard/as/controller/AsRestController.java:256 | Zero-padding to two or four digits gives exactly that width |
| AsRestController.CompletionTextLayout | asBoard/src/main/java/com/inpro/asBoard/as/controller/AsRestController.java:255-256 | `yyyy-MM-dd HH:mm` is sixteen characters with separators at 4, 7, 10, 13 and digits elsewhere; seconds and nanoseconds do not show |
| AsRestController.CompleteFromClientPayload | asBoard/src/main/java/com/inpro/asBoard/as/controller/AsRestController.java:241-258 | A mismatched id is a 400 with no update and the payload untouched; otherwise completeDate becomes server time, the payload is updated, and the formatted time is returned |
| AsScheduleRowDto.CompletionLabel | src/main/java/com/inpro/asBoard/as/dto/AsScheduleRowDto.java:30-34 | `"완료"` exactly when a completeDate exists and its date is not after today; `"미완료"` otherwise |
| AsScheduleRowDto.CompletedByDayNumber | src/main/java/com/inpro/asBoard/as/dto/AsScheduleRowDto.java:33 | Completed exactly when the completion day is on or before today; the time of day never matters, and the day before completion shows not completed |
| CustomBooleanDeserializer.Deserialize | src/main/java/com/inpro/asBoard/as/common/CustomBooleanDeserializer.java:28-41 | Null or whitespace gives null; trimmed `1`/`true` (any case) give true; `0`/`false` give false; anything else, `Y`/`N` included, is an error carrying the trimmed text |
| CustomBooleanDeserializer.DeserializeIgnoresPadding | src/main/java/com/inpro/asBoard/as/common/CustomBooleanDeserializer.java:35 | The result for s equals the result for trim(s) |
| CustomBooleanDeserializer.DeserializeWrittenBoolean | src/main/java/com/inpro/asBoard/as/common/CustomBooleanDeserializer.java:37-38 | The JSON words `true` and `false` read back as the booleans they name |
| OneZeroBooleanTypeHandler.SetNonNullParameter | src/main/java/com/inpro/asBoard/config/OneZeroBooleanTypeHandler.java:19 | `"1"` exactly for true; `"0"` otherwise |
| OneZeroBooleanTypeHandler.ToBoolean | src/main/java/com/inpro/asBoard/config/OneZeroBooleanTypeHandler.java:22-28 | Null gives null; trimmed `1`/`Y`/`TRUE` (any case) give true; `0`/`N`/`FALSE` give false; anything else gives null rather than failing |
| OneZeroBooleanTypeHandler.ReadWritten | src/main/java/com/inpro/asBoard/config/OneZeroBooleanTypeHandler.java:19-28 | Round trip: decoding the encoded value gives the value back |
| OneZeroBooleanTypeHandler.ColumnAgreesWithJson | src/main/java/com/inpro/asBoard/config/OneZeroBooleanTypeHandler.java:22-28 | Any text the JSON parser reads as a boolean, the column reader reads as the same boolean |
| OneZeroBooleanTypeHandler.TextAgrees | src/main/java/com/inpro/asBoard/config/OneZeroBooleanTypeHandler.java:25-26 | The JSON parser's true and false words are among the column reader's |
| JacksonConfig.TrimToNull | src/main/java/com/inpro/asBoard/config/JacksonConfig.java:27-32 | Null, or text that trims to empty, gives null; otherwise the trimmed text, non-empty and with no trimmable character at either end |
| JacksonConfig.TrimToNullIdempotent | src/main/java/com/inpro/asBoard/config/JacksonConfig.java:28-31 | Applying the conversion to its own output changes nothing |
| DashService.BuildPeriodParam | asBoard/src/main/java/com/inpro/asBoard/as/service/DashService.java:183-207 | `1d`: today to today; `1w`: a Monday to the Sunday six days later around today; `1m`: day 1 to the last day of today's month; any other code: an empty map |
| DashService.WeekParam | asBoard/src/main/java/com/inpro/asBoard/as/service/DashService.java:192-197 | The Monday on or before today to the Sunday on or after it, six days apart |
| DashService.MonthParam | asBoard/src/main/java/com/inpro/asBoard/as/service/DashService.java:198-203 | The first of today's month to the day whose next day starts a new month, with Gregorian month lengths |
| DashService.WeekSpan | asBoard/src/main/java/com/inpro/asBoard/as/service/DashService.java:193-194 | `previousOrSame(MONDAY)` and `nextOrSame(SUNDAY)` are exactly six days apart |
| DashService.PeriodsNest | asBoard/src/main/java/com/inpro/asBoard/as/service/DashService.java:188-203 | Every period brackets today, and the day lies inside the week and inside the month |
| DashService.Labelled | asBoard/src/main/java/com/inpro/asBoard/as/service/DashService.java:217-230 | Null rows give nothing; otherwise one DTO per row, in row order, with the period label, the row's label and its count |
| DashService.CollectSummary | asBoard/src/main/java/com/inpro/asBoard/as/service/DashService.java:217-230 | The append loop builds exactly those DTOs |
| DashService.GetSummary | asBoard/src/main/java/com/inpro/asBoard/as/service/DashService.java:49-56 | The four groups, queried with all/1m/1w/1d and concatenated |
| DashService.BlocksInPeriodOrder | asBoard/src/main/java/com/inpro/asBoard/as/service/DashService.java:49-56 | The labelled groups come in the order 전체, 이번달, 이번주, 오늘 and use no other label |
| DashService.FourBlocks | asBoard/src/main/java/com/inpro/asBoard/as/service/DashService.java:50-55 | Four blocks, each of one label, concatenated in that order, are in period order |
| DashService.SummaryInPeriodOrder | asBoard/src/main/java/com/inpro/asBoard/as/service/DashService.java:49-56 | The whole summary is in period order, whatever the database returns |
| DashService.EquipmentListByFarm | asBoard/src/main/java/com/inpro/asBoard/as/service/DashService.java:96-99 | Null or blank farmCode gives an empty list; otherwise the query result |
| DashService.FarmListByEquipment | asBoard/src/main/java/com/inpro/asBoard/as/service/DashService.java:108-111 | Null or blank tableName gives an empty list; otherwise the query result |
| DashService.GuardsIgnoreDatabase | asBoard/src/main/java/com/inpro/asBoard/as/service/DashService.java:96-111 | A blank argument gives the empty list whatever the database holds; otherwise the result depends only on the query |
| LocalFileStorageService.WithLeadingSlash | src/main/java/com/inpro/asBoard/storage/LocalFileStorageService.java:34 | The text starts with `/`, adding one only when missing |
| LocalFileStorageService.WithoutOneTrailingSlash | src/main/java/com/inpro/asBoard/storage/LocalFileStorageService.java:35 | Exactly one trailing `/` is removed, and only when present |
| LocalFileStorageService.PublicBase | src/main/java/com/inpro/asBoard/storage/LocalFileStorageService.java:31-37 | Null or blank gives `/upload`; otherwise a leading `/` is ensured and one trailing `/` removed; the result is empty or starts with `/` |
| LocalFileStorageService.PublicBaseOfSlashes | src/main/java/com/inpro/asBoard/storage/LocalFileStorageService.java:34-35 | `"/"` becomes `""`, `"//"` becomes `"/"`, `"upload/"` becomes `"/upload"` |
| LocalFileStorageService.BuildPublicDir | src/main/java/com/inpro/asBoard/storage/LocalFileStorageService.java:48-51 | The public directory starts with the public base and a `/`; PublicDirRoundTrip maps it back to the directory of the same parts |
| LocalFileStorageService.Root | src/main/java/com/inpro/asBoard/storage/LocalFileStorageService.java:63-64 | The absolute normalised upload root; only a NUL character makes `Paths.get` fail |
| LocalFileStorageService.ResolveUnder | src/main/java/com/inpro/asBoard/storage/LocalFileStorageService.java:65-66 | The normalised resolution of a path under the root, kept only when it starts with the root; otherwise IllegalStateException |
| LocalFileStorageService.ResolveParsed | src/main/java/com/inpro/asBoard/storage/LocalFileStorageService.java:87-90 | A parsed path resolved under the root: a normal path that starts with the root |
| LocalFileStorageService.EnsureDirResolves | src/main/java/com/inpro/asBoard/storage/LocalFileStorageService.java:62-66 | `ensureDir(parts)` resolves `Paths.get("", parts)` under the root |
| LocalFileStorageService.EnsureDirContained | src/main/java/com/inpro/asBoard/storage/LocalFileStorageService.java:62-66 | A directory it returns is normal and under the root; the containment error happens exactly when the normalised path leaves the root |
| LocalFileStorageService.ToAbsoluteDirContained | src/main/java/com/inpro/asBoard/storage/LocalFileStorageService.java:82-91 | Any directory it returns lies under the upload root, whatever the public path |
| LocalFileStorageService.ParseJoinPath | src/main/java/com/inpro/asBoard/storage/LocalFileStorageService.java:65 | `Paths.get("", parts)` fails exactly on a NUL character, and otherwise names the non-empty segments of the parts |
| LocalFileStorageService.EnsureDirAcceptsPartsWithoutParent | src/main/java/com/inpro/asBoard/storage/LocalFileStorageService.java:62-66 | Parts without NUL, leading slash or `..` always give a directory |
| LocalFileStorageService.PublicDirRoundTrip | src/main/java/com/inpro/asBoard/storage/LocalFileStorageService.java:82-91 | The public directory built for some parts maps back to the directory `ensureDir` gives for them |
| LocalFileStorageService.LastIndexOf | src/main/java/com/inpro/asBoard/storage/LocalFileStorageService.java:119 | The last position of the character, or -1 |
| LocalFileStorageService.Extension | src/main/java/com/inpro/asBoard/storage/LocalFileStorageService.java:117-120 | Empty exactly when there is no name or no `.`; otherwise the suffix from the last `.` |
| LocalFileStorageService.StoredName | src/main/java/com/inpro/asBoard/storage/LocalFileStorageService.java:121 | The UUID followed by the extension |
| LocalFileStorageService.StoredNameHasNoDotNames | src/main/java/com/inpro/asBoard/storage/LocalFileStorageService.java:121 | A stored name has no `.` or `..` path element, whatever the original name |
| LocalFileStorageService.StoredFileStaysInDir | src/main/java/com/inpro/asBoard/storage/LocalFileStorageService.java:123 | `absDir.resolve(uuid).normalize()` stays inside the directory |
| LocalFileStorageService.Decimal | src/main/java/com/inpro/asBoard/storage/LocalFileStorageService.java:106 | Decimal digits, at least as many as the value's magnitude needs |
| LocalFileStorageService.ZeroPad | src/main/java/com/inpro/asBoard/storage/LocalFileStorageService.java:106 | Digits, at least the requested width |
| LocalFileStorageService.DateText | src/main/java/com/inpro/asBoard/storage/LocalFileStorageService.java:106 | `LocalDate.toString()`: at least ten characters, digits, `-` and `+` only |
| LocalFileStorageService.PublicDirEndsWithDate | src/main/java/com/inpro/asBoard/storage/LocalFileStorageService.java:106-107 | The public directory of a save ends with `/` and today's date |
| LocalFileStorageService.Kept | src/main/java/com/inpro/asBoard/storage/LocalFileStorageService.java:115 | The stored entries, never more than the input holds |
| LocalFileStorageService.KeptMembers | src/main/java/com/inpro/asBoard/storage/LocalFileStorageService.java:115 | A file is kept exactly when some entry holds it and it is not empty: null and empty entries are skipped |
| LocalFileStorageService.KeptSingle | src/main/java/com/inpro/asBoard/storage/LocalFileStorageService.java:115 | One entry gives its file when present and non-empty, and nothing otherwise; with KeptAppend this fixes the order too |
| LocalFileStorageService.KeptAppend | src/main/java/com/inpro/asBoard/storage/LocalFileStorageService.java:114-115 | The kept entries of a concatenation are those of each part in turn |
| LocalFileStorageService.SavedFor | src/main/java/com/inpro/asBoard/storage/LocalFileStorageService.java:117-136 | The SavedFile of one entry carries its stored name, original name, size, content type and the shared public directory |
| LocalFileStorageService.SaveEach | src/main/java/com/inpro/asBoard/storage/LocalFileStorageService.java:114-137 | One result per kept entry, or a stop at the first entry that cannot be stored |
| LocalFileStorageService.SaveEachSaved | src/main/java/com/inpro/asBoard/storage/LocalFileStorageService.java:129-136 | The k-th result is the SavedFile of the k-th kept entry, so order is input order |
| LocalFileStorageService.SaveEachStopsAtFirstFailure | src/main/java/com/inpro/asBoard/storage/LocalFileStorageService.java:124-125 | When entry k is the first failure, the save stops and exactly the first k files were written |
| LocalFileStorageService.SaveEachStaysInDir | src/main/java/com/inpro/asBoard/storage/LocalFileStorageService.java:123 | Every saved file lies inside the day's directory |
| LocalFileStorageService.SaveAll | src/main/java/com/inpro/asBoard/storage/LocalFileStorageService.java:103-139 | Null or empty input gives an empty list; a bad directory fails before writing; otherwise the kept entries are saved in order and their files added to the disk; the rollback registration sees an empty list and registers nothing |
| LocalFileStorageService.StoreUnder | src/main/java/com/inpro/asBoard/storage/LocalFileStorageService.java:110-138 | The part of `saveAll` after the directory is known: the empty registration, then the save loop |
| LocalFileStorageService.StoreEach | src/main/java/com/inpro/asBoard/storage/LocalFileStorageService.java:114-137 | The `for` loop writes exactly the files of the saved entries and returns them in order |
| LocalFileStorageService.SaveAllThenRollback | src/main/java/com/inpro/asBoard/storage/LocalFileStorageService.java:110-112 | After a successful `saveAll` and a rollback, every saved file is still on disk |
| LocalFileStorageService.DeleteAfterCommit | src/main/java/com/inpro/asBoard/storage/LocalFileStorageService.java:150-154 | Null or empty input registers nothing; otherwise exactly one after-commit deletion of those files |
| TransactionalFileOps.FileList.Add | src/main/java/com/inpro/asBoard/storage/LocalFileStorageService.java:127 | The file is appended to the collection the callback will iterate |
| TransactionalFileOps.TargetsByStatus | asBoard/src/main/java/com/inpro/asBoard/storage/TransactionalFileOps.java:21-47 | A file is deleted at completion exactly when a rollback cleanup holding it meets a rollback, or an after-commit deletion holding it meets a commit |
| TransactionalFileOps.RollbackWithoutCleanupDeletesNothing | asBoard/src/main/java/com/inpro/asBoard/storage/TransactionalFileOps.java:42-45 | With only after-commit deletions registered, a rollback deletes nothing |
| TransactionalFileOps.TransactionalFileOps.constructor | asBoard/src/main/java/com/inpro/asBoard/storage/TransactionalFileOps.java:11 | A transaction starts with no callbacks |
| TransactionalFileOps.TransactionalFileOps.RegisterRollbackCleanup | asBoard/src/main/java/com/inpro/asBoard/storage/TransactionalFileOps.java:21-30 | Null or empty (at registration time) registers nothing; otherwise one rollback cleanup over that collection |
| TransactionalFileOps.TransactionalFileOps.RegisterDeleteAfterCommit | asBoard/src/main/java/com/inpro/asBoard/storage/TransactionalFileOps.java:40-47 | Null or empty registers nothing; otherwise one after-commit deletion over that collection |
| TransactionalFileOps.TransactionalFileOps.Complete | asBoard/src/main/java/com/inpro/asBoard/storage/TransactionalFileOps.java:23-45 | Completion removes every file the callbacks fire on, reading the collections as they are now, except files whose deletion fails; then no callbacks remain |
| TransactionalFileOps.DeleteEach | asBoard/src/main/java/com/inpro/asBoard/storage/TransactionalFileOps.java:26 | Each file is deleted if it exists; a failing file is skipped without stopping the rest |
| WebConfig.AddResourceHandlers | src/main/java/com/inpro/asBoard/config/WebConfig.java:29-39 | The pattern is the prefix with a leading `/` ensured and one trailing `/` removed, plus `/**`, served from the absolute upload root with a 3600 s cache; a null prefix throws |
| WebConfig.HandlerServesPublicDirs | src/main/java/com/inpro/asBoard/config/WebConfig.java:31-36 | For a non-blank prefix the pattern covers every public directory `buildPublicDir` makes, and the location is the upload root |
| WebConfig.BlankPublicBaseDisagrees | src/main/java/com/inpro/asBoard/config/WebConfig.java:32-34 | An empty prefix gives the pattern `/**` while `publicBase` gives `/upload` |
| JavaText.Trim | src/main/java/com/inpro/asBoard/as/common/CustomBooleanDeserializer.java:35 | `String.trim`: the infix left after removing characters up to U+0020 at both ends |
| JavaText.TrimIdempotent | src/main/java/com/inpro/asBoard/config/JacksonConfig.java:30 | Trimming twice is trimming once |
| JavaText.TrimEmptyIff | src/main/java/com/inpro/asBoard/as/common/CustomBooleanDeserializer.java:31 | A string trims to empty exactly when all its characters are trimmable |
| JavaText.HasTextIffNotBlank | asBoard/src/main/java/com/inpro/asBoard/security/JwtAuthFilter.java:59-60 | Spring's `hasText` and Java's `isBlank` are complements |
| JavaText.ContainsAt | asBoard/src/main/java/com/inpro/asBoard/security/SecurityConfig.java:87 | `contains` holds exactly when the text occurs at some position |
| JavaText.SplitOn | src/main/java/com/inpro/asBoard/as/controller/AsController.java:174 | The pieces between separators; none holds the separator |
| JavaText.SplitJoin | src/main/java/com/inpro/asBoard/as/controller/AsController.java:174 | Splitting a join of separator-free pieces gives them back |
| JavaText.JoinSplit | src/main/java/com/inpro/asBoard/as/controller/AsController.java:174 | Joining the pieces of a split gives the text back |
| JavaText.DropTrailingEmpty | src/main/java/com/inpro/asBoard/as/controller/AsController.java:174 | `split` drops exactly the trailing empty strings |
| JavaText.SplitCommaSpacedJoin | src/main/java/com/inpro/asBoard/auth/AuthController.java:61 | `split("\\s*,\\s*")` of roles joined by commas gives the roles back |
| JavaText.SplitCommaSpacedNoComma | src/main/java/com/inpro/asBoard/auth/AuthController.java:113 | Text without a comma splits into itself, so `"ROLE_USER"` gives one role |
| JavaText.Utf16Length | asBoard/src/main/java/com/inpro/asBoard/security/SecurityConfig.java:103 | `length()` counts UTF-16 units: between one and two per character |
| JavaText.StripLeadingSlashes | src/main/java/com/inpro/asBoard/storage/LocalFileStorageService.java:86 | `replaceAll("^/+", "")` removes exactly the leading slashes |
| UnixPaths.Parse | src/main/java/com/inpro/asBoard/storage/LocalFileStorageService.java:63 | `Paths.get` fails exactly on NUL; it is absolute exactly when the text starts with `/` |
| UnixPaths.Resolve | src/main/java/com/inpro/asBoard/storage/LocalFileStorageService.java:65 | An absolute argument replaces the base; a relative one appends its names |
| UnixPaths.NormalizeAbsolute | src/main/java/com/inpro/asBoard/storage/LocalFileStorageService.java:63 | Normalising an absolute path leaves no `.` or `..` |
| UnixPaths.ResolveWithoutParentStaysUnder | src/main/java/com/inpro/asBoard/storage/LocalFileStorageService.java:65-66 | A relative path without `..` resolved under a normal root stays under it |
| UnixPaths.NormalizeNormal | src/main/java/com/inpro/asBoard/storage/LocalFileStorageService.java:63 | A normal absolute path is its own normal form |
| UnixPaths.NamesJoinPath | src/main/java/com/inpro/asBoard/storage/LocalFileStorageService.java:65 | The names of `Paths.get(first, more)` are those of each part in turn |
| UnixPaths.JoinPathRelative | src/main/java/com/inpro/asBoard/storage/LocalFileStorageService.java:65 | Joining parts without leading slashes gives a relative path |
| UnixPaths.JoinPathChars | src/main/java/com/inpro/asBoard/storage/LocalFileStorageService.java:65 | A character other than `/` occurs in the joined path exactly when it occurs in a part |
| Utf8.EncodeChar | asBoard/src/main/java/com/inpro/asBoard/security/JwtTokenProvider.java:49 | One to four bytes per character, a single byte exactly for ASCII |
| Utf8.Encode | asBoard/src/main/java/com/inpro/asBoard/security/JwtTokenProvider.java:49 | Between one and four bytes per character |
| Utf8.DecodeFirst | asBoard/src/main/java/com/inpro/asBoard/security/SecurityConfig.java:104 | A decoded character consumes at least one and at most the available bytes |
| Utf8.DecodeFirstEncodeChar | asBoard/src/main/java/com/inpro/asBoard/security/SecurityConfig.java:104 | Decoding the bytes of one character gives it back with its length |
| Utf8.DecodeEncode | asBoard/src/main/java/com/inpro/asBoard/security/SecurityConfig.java:104 | Decoding the UTF-8 encoding of any text gives it back |
| Utf8.EncodeAppend | asBoard/src/main/java/com/inpro/asBoard/security/SecurityConfig.java:104 | The encoding of a concatenation is the concatenation of the encodings |
| FormEncoding.HexValue | asBoard/src/main/java/com/inpro/asBoard/security/SecurityConfig.java:104 | An upper-case hex digit reads back as the value that prints it |
| FormEncoding.PercentEncode | asBoard/src/main/java/com/inpro/asBoard/security/SecurityConfig.java:104 | Three characters, `%` and two hex digits, per byte |
| FormEncoding.EncodeChar | asBoard/src/main/java/com/inpro/asBoard/security/SecurityConfig.java:104 | One character becomes letters, digits, `. - * _ +` and well-formed `%XX` escapes only |
| FormEncoding.Encode | asBoard/src/main/java/com/inpro/asBoard/security/SecurityConfig.java:104 | `URLEncoder.encode(s, UTF_8)` produces only form-safe characters and well-formed escapes |
| FormEncoding.ToBytesEncode | asBoard/src/main/java/com/inpro/asBoard/security/SecurityConfig.java:104 | Undoing the escapes of the encoding gives the UTF-8 bytes of the text |
| FormEncoding.DecodeEncode | asBoard/src/main/java/com/inpro/asBoard/security/SecurityConfig.java:104 | Form decoding inverts form encoding for every text |
| Calendar.DaysInMonth | asBoard/src/main/java/com/inpro/asBoard/as/service/DashService.java:200 | Gregorian month lengths: 28 to 31 days, with 29 in February exactly in leap years |
| Calendar.NextDay | asBoard/src/main/java/com/inpro/asBoard/as/service/DashService.java:200 | The valid date one day later |
| Calendar.PrevDay | src/main/java/com/inpro/asBoard/as/dto/AsScheduleRowDto.java:33 | The valid date one day earlier |
| Calendar.PlusDays | src/main/java/com/inpro/asBoard/as/controller/AsController.java:200 | `plusDays(n)`: the valid date n days away |
| Calendar.DayOfWeek | src/main/java/com/inpro/asBoard/as/controller/AsController.java:205 | `getDayOfWeek()`: an ISO weekday number from Monday (1) to Sunday (7) |
| Calendar.DayOfWeekPlusDays | src/main/java/com/inpro/asBoard/as/controller/AsController.java:205 | Moving n days moves the ISO weekday by n modulo 7 |
| Calendar.IsAfterIffLaterDayNumber | src/main/java/com/inpro/asBoard/as/dto/AsScheduleRowDto.java:33 | `isAfter` on dates is the order of their day numbers |
| Calendar.DayNumberInjective | src/main/java/com/inpro/asBoard/as/dto/AsScheduleRowDto.java:33 | Different valid dates have different day numbers |
| Calendar.PreviousOrSame | asBoard/src/main/java/com/inpro/asBoard/as/service/DashService.java:193 | The date on the given weekday on or before d, within six days |
| Calendar.NextOrSame | asBoard/src/main/java/com/inpro/asBoard/as/service/DashService.java:194 | The date on the given weekday on or after d, within six days |
| Calendar.WithDayOfWeek | src/main/java/com/inpro/asBoard/as/controller/AsController.java:197-198 | `with(DayOfWeek)`: the same ISO week, moved to that weekday |
| Calendar.FirstDayOfMonth | asBoard/src/main/java/com/inpro/asBoard/as/service/DashService.java:199 | Day 1 of the same month and year |
| Calendar.LastDayOfMonth | asBoard/src/main/java/com/inpro/asBoard/as/service/DashService.java:200 | The day of the same month whose next day is a first of month |
| Calendar.MonthBrackets | asBoard/src/main/java/com/inpro/asBoard/as/service/DashService.java:198-203 | Every date lies between the first and the last day of its month |
| Seqs.FirstIndex | src/main/java/com/inpro/asBoard/as/controller/AsController.java:177 | The first position of an element |
| Seqs.Distinct | src/main/java/com/inpro/asBoard/as/controller/AsController.java:177 | `distinct()`: the same elements, each once |
| Seqs.DistinctKeepsFirstOccurrenceOrder | src/main/java/com/inpro/asBoard/as/controller/AsController.java:177 | `distinct()` keeps elements in the order of their first occurrence |
| Seqs.DistinctOfNoDuplicates | src/main/java/com/inpro/asBoard/as/controller/AsController.java:177 | `distinct()` leaves a list without duplicates unchanged |
| Seqs.Filter | src/main/java/com/inpro/asBoard/as/controller/AsController.java:176 | `filter`: exactly the elements that pass |
| Seqs.FilterKeepsFirstOccurrenceOrder | src/main/java/com/inpro/asBoard/as/controller/AsController.java:440 | `filter` keeps the relative order of first occurrences |
| Seqs.FilterKeepsAll | src/main/java/com/inpro/asBoard/as/controller/AsController.java:176 | A filter every element passes changes nothing |
| Seqs.FilterOutOne | src/main/java/com/inpro/asBoard/as/controller/AsController.java:118 | Filtering out one value of a duplicate-free list cuts exactly that entry |
| Seqs.FilterOrThrowKeepsPrefix | src/main/java/com/inpro/asBoard/as/controller/AsController.java:203-211 | Leading elements the predicate keeps pass through ahead of the rest, and a later throw still throws |
| Seqs.MapOrFail | asBoard/src/main/java/com/inpro/asBoard/as/controller/AsRestController.java:142-146 | A loop that may throw: all results in order when every step succeeds; otherwise the error of the first failing step |
| Seqs.MapOrFailStops | asBoard/src/main/java/com/inpro/asBoard/as/controller/AsRestController.java:142-146 | The first failing step decides the error |

## Left out

- Each handler's `Model` attributes and view names, `ResponseEntity` and `ResponseCookie` rendering, and the HTTP status line are modelled as small datatypes. No header text is produced.
- The Spring filter-chain builder, CSRF/CORS/session settings and the `SecurityContextHolder` thread-local. The identity is a field of the filter object.
- `WebAuthenticationDetails` on the authentication token: request details have no effect on any decision modelled here.
- The trailing-slash and case options of the Ant path matchers. A pattern here matches the exact path, or any path under a `/**` prefix.
- HMAC-SHA256, the JJWT compact serialization and header (`alg`, `typ`), `Keys.hmacShaKeyFor` internals beyond the 256-bit minimum, and BCrypt. They are parameters of the model.
- JwtTokenProvider.Parse: the `nbf` claim and clock skew are not modelled; the provider never sets `nbf`, and the parser is built without skew.
- JwtTokenProvider.GetRoles: the contract pins down only a non-empty result; that a missing or non-list claim gives the empty list is in the body alone. A list mixing strings with other JSON values is not modelled; the roles this provider signs are all strings.
- The clock (`Instant.now`, `LocalDate.now`, `LocalDateTime.now`, the Asia/Seoul zone), `UUID.randomUUID` and the file system's real behaviour. They are parameters, and the disk is a set of paths.
- `Files.createDirectories`, `MultipartFile.transferTo` and `File.delete` failures caused by the operating system. A write fails here only when the target does not parse as a path; a delete fails only for files in the `failing` set.
- The SQL behind `AsMapper`, `DashMapper` and `UserMapper`. Reads are function parameters; writes are a trace of calls. MyBatis is assumed to set the generated key on `insertAsHeader`.
- `@Transactional` rollback of database writes. Only the file callbacks of a transaction are modelled.
- The Apache POI spreadsheet export body and `writeDateCell` (AsController.java lines 443-491 and 507-513). Only the export's parameter building and column choice are modelled.
- `searchFarmList`, `DashService.aggregate` and the other one-line pass-through methods. They forward their arguments to a query unchanged.
- `auth.js`, `DashRestController`, `DashController`, `PageController`, `RootRedirectController`, `RequestPathAdvice` and `MssqlDbConfig`. These are browser code, pass-through controllers and a commented-out configuration.
- Null request fields other than those the handlers test explicitly, and `findByUsername(null)`.
- The clock is read once per request. The source reads it again for each parse in the filter
  (`getUsername` and `getRoles`), for each token login creates, and for each period bracket of the
  dashboard summary. The model does not cover a token expiring between two parses, or midnight
  falling between two period brackets.
- AsController.AssignColors: `colorIdx` overflow after 2^31 farm codes is not modelled.
- AsController.TotalPages: a negative `size` is not specified; the body follows `Math.ceil` on the exact quotient, and the double division is exact for `int` operands.
- Aliasing between DTO lists: each list is assumed to hold distinct objects; the frames of the stamping loops name every object in the list.
- The `uuidName` of a file row is taken as stored. A row edited in the database to hold `..` is not covered by `AsRestController.TargetsStayUnderRoot`, and `toAbsoluteDirFromPublic` still checks the directory part.
- Unpaired UTF-16 surrogates. Dafny characters are Unicode scalar values; `length()` counts each supplementary character as two units.
