# HR backend: JWT authentication middleware and HMO request dispatch, modelled in Dafny

This project models the authentication core of a PHP human-resources backend, together with the request dispatch of its HMO (health-plan) controller.

- `AuthMiddleware` issues HS256 JSON Web Tokens (JWS compact serialisation, RFC 7515 section 7.1; HMAC-SHA256 as in RFC 7518 section 3.2). It validates them in three steps, in this order: the split into three parts, the signature, then the payload and its `exp` claim (RFC 7519 section 4.1.4). It extracts the Bearer credential from the `Authorization` header. It confirms the user through a directory lookup, and only when every one of those steps succeeds does it store the decoded claims in the process-wide `current_user` slot. `hasRole` and `hasAnyRole` read that slot.
- `base64url_encode` / `base64url_decode` implement the URL-safe alphabet of RFC 4648 section 5 without padding, by post-processing PHP's `base64_encode` and pre-processing its non-strict `base64_decode`.
- `HMOController::handleRequest` maps (HTTP method, id present?, sub-resource) to exactly one handler or to `methodNotAllowed`. The list handlers prune empty filters. `createHMOEnrollment` gates on the caller's role and builds the enrollment record.

Modules:

- `ByteStrings` holds the byte type and ASCII constants.
- `PhpStrings` holds the PHP string built-ins: `strtr`, `rtrim`, `str_pad`, `explode`, `implode` and string truthiness.
- `Base64` holds PHP's `base64_encode` and non-strict `base64_decode`.
- `Base64Url` holds the two helper functions of the middleware.
- `PhpValues` models what `json_decode($s, true)` returns, with PHP truthiness, `isset`, the loose `<` used for `exp`, and the `(int)` cast.
- `Jwt` holds the pure logic of the middleware: issuance, validation and Bearer extraction.
- `Auth` holds the `AuthMiddleware` class, with `Authenticate` and the role checks, and the shared `Globals` object that stands for `$GLOBALS`.
- `HmoRoutes` holds the controller logic.

The foreign primitives are passed in as the `Jwt.Primitives` value: HMAC-SHA256, `json_encode` and `json_decode`. Every theorem therefore holds for any HMAC and any JSON codec. There are two exceptions, `Jwt.GenerateThenValidate` (issue, then validate) and `Auth.AuthenticateIssuedToken` (issue, then authenticate). Both additionally require that the codec reads back the claims object it wrote.

The clock (`time()`), the environment (`getenv`), the request headers (`getallheaders()`), today's date (`date('Y-m-d')`) and the user-directory lookup (`verifyUser`, modelled as the oracle `userActive`) are all parameters.

In several places the code departs from the usual JWT and Bearer-token conventions (RFC 7519, RFC 6750), and the model follows the code:

- HTTP header names are case-insensitive, but the code looks up the exact key `Authorization`.
- An HS256 token never has an empty header or signature part, but the split lets empty parts through (`Jwt.EmptyPartsPassSplit`).
- The Bearer pattern is not anchored. The credential is taken at the leftmost position where the whole pattern matches, which may lie anywhere in the header (`Jwt.BearerTokenSound`, `Jwt.BearerTokenComplete`). That position need not be the first `bearer`: in `bearer a\nbearer b` the first one fails, because a newline that is not the last byte follows it, and the credential is `b` (`Jwt.LaterBearerMatches`).
- A token is still accepted when now == exp, because `exp < time()` rejects only a strictly past expiry. RFC 7519 section 4.1.4 rejects a token on or after its expiry.
- A credential equal to `"0"` is treated as absent, because `!$token` is true for it.

## Model

| member | source | states |
|---|---|---|
| `Base64Url.Base64UrlEncode` | api/middlewares/AuthMiddleware.php:171-173 | base64url_encode: base64_encode, then `+/` translated to `-_`, then trailing `=` trimmed. Its partners are UrlRoundTrip (inverse), UrlAlphabet and UrlEncodedLength |
| `Base64Url.Base64UrlDecodeAsWritten` | api/middlewares/AuthMiddleware.php:178-180 | base64url_decode exactly as written (pad target `strlen % 4`). AsWrittenDecodesAlike proves it equal to the corrected decoder |
| `Base64Url.Base64UrlDecode` | api/middlewares/AuthMiddleware.php:178-180 | base64url_decode with the padding the code evidently intends. UrlRoundTrip proves it inverts Base64UrlEncode |
| `Base64Url.UrlAlphabet` | api/middlewares/AuthMiddleware.php:171-173 | base64url_encode output uses only A-Z a-z 0-9 `-` `_`: never `=`, `+`, `/` or `.` |
| `Base64Url.UrlEncodedLength` | api/middlewares/AuthMiddleware.php:171-173 | the unpadded output has ceil(4n/3) characters for n bytes (`rtrim` removes exactly the padding) |
| `Base64Url.UrlRoundTrip` | api/middlewares/AuthMiddleware.php:171-180 | base64url_decode(base64url_encode(b)) == b for every byte string |
| `Base64Url.QuantumLength` | api/middlewares/AuthMiddleware.php:179 | the intended padding target is the least multiple of four that is not below the length |
| `Base64Url.AsWrittenPadIsNoOp` | api/middlewares/AuthMiddleware.php:179 | as written, `str_pad` to `strlen % 4` never changes its argument |
| `Base64Url.AsWrittenPadLeavesPartialQuantum` | api/middlewares/AuthMiddleware.php:179 | counterexample: "QQ" stays two characters long as written, and becomes "QQ==" with the intended padding |
| `Base64Url.CorrectedPadFillsQuantum` | api/middlewares/AuthMiddleware.php:179 | the corrected padding keeps the input and fills the last quantum with `=` to a multiple of four |
| `Base64Url.AsWrittenDecodesAlike` | api/middlewares/AuthMiddleware.php:178-180 | the as-written and the corrected decoder agree on every input, because the padding is ignored anyway |
| `Base64Url.DecodeIgnoresPadding` | api/middlewares/AuthMiddleware.php:179 | any amount of `=` padding leaves the non-strict decode unchanged |
| `Base64.Base64Encode` | api/middlewares/AuthMiddleware.php:172 | PHP's `base64_encode`: 4 alphabet characters per 3 bytes, `=` padding for a final 1 or 2 bytes. EncodedLength (length) and DecodeEncode (inverse) are its partners |
| `Base64.Base64Decode` | api/middlewares/AuthMiddleware.php:179 | PHP's non-strict `base64_decode`: bytes outside the alphabet, `=` included, are skipped and leftover bits dropped. DecodeEncode (inverse of the encoder) and Base64Url.DecodeIgnoresPadding (padding is ignored) are its partners |
| `Base64.DecodeEncode` | api/middlewares/AuthMiddleware.php:172-179 | PHP's non-strict base64_decode undoes base64_encode |
| `Base64.EncodedLength` | api/middlewares/AuthMiddleware.php:172 | base64_encode emits 4 characters per started group of 3 bytes |
| `PhpStrings.IsTruthy` | api/middlewares/AuthMiddleware.php:25 | PHP truthiness of a string, as in `!$token` here and the `?:` of line 16: only "" and "0" are falsy. ConfiguredSecret proves the chosen secret truthy, and BearerHeaderExtracts proves an issued token truthy |
| `PhpStrings.StrTr` | api/middlewares/AuthMiddleware.php:172 | `strtr` keeps the length and maps each byte on its own, the last occurrence in `from` deciding |
| `PhpStrings.RTrim` | api/middlewares/AuthMiddleware.php:172 | `rtrim` returns the longest prefix that does not end in the trimmed byte; everything removed is that byte |
| `PhpStrings.RTrimRun` | api/middlewares/AuthMiddleware.php:172 | `rtrim` removes exactly a run of `=` appended to a string that does not end in `=` |
| `PhpStrings.StrPad` | api/middlewares/AuthMiddleware.php:179 | `str_pad` keeps its input as a prefix, pads only up to a target beyond the length, and pads only with the pad byte |
| `PhpStrings.Explode` | api/middlewares/AuthMiddleware.php:68 | `explode` always returns at least one part. ExplodeCount, ExplodePartsFree and ImplodeExplode give its meaning |
| `PhpStrings.ExplodeCount` | api/middlewares/AuthMiddleware.php:68-69 | `explode` returns one more part than the separator count |
| `PhpStrings.ExplodePartsFree` | api/middlewares/AuthMiddleware.php:68 | no part returned by `explode` contains the separator |
| `PhpStrings.ImplodeExplode` | api/middlewares/AuthMiddleware.php:68 | joining the parts of `explode` with the separator restores the input |
| `PhpStrings.ExplodeImplode` | api/middlewares/AuthMiddleware.php:68 | `explode` recovers separator-free parts joined by the separator |
| `PhpStrings.ExplodeThree` | api/middlewares/AuthMiddleware.php:68-73 | three dot-free strings joined by dots split back into exactly those three parts |
| `PhpValues.Isset` | api/middlewares/AuthMiddleware.php:92 | `isset($payloadData['exp'])`: the key is present with a non-null value. ExpiryBoundary proves a missing or null `exp` never expires |
| `PhpValues.Truthy` | api/middlewares/AuthMiddleware.php:87-89 | PHP truthiness of a decoded payload: null, false, 0, "", "0" and the empty array are falsy. ClaimsFields proves the issued claims truthy, and ValidIsSigned proves every accepted payload truthy |
| `PhpValues.LessThanInt` | api/middlewares/AuthMiddleware.php:92 | loose `$exp < time()` against an integer: integers by value, false below any non-zero integer, arrays never smaller. ExpiryBoundary is its partner |
| `PhpValues.IntCast` | api/routes/hmo.php:178-179 | PHP `(int)`. IntCastDecimal (inverse of decimal printing) and IntCastPrefix are its partners |
| `PhpValues.Index` | api/middlewares/AuthMiddleware.php:92 | `$v['key']` is non-null only for an array that holds the key |
| `PhpValues.IntCastDecimal` | api/routes/hmo.php:178-179 | `(int)` reads every integer back from its decimal string |
| `PhpValues.IntCastPrefix` | api/routes/hmo.php:178-179 | `(int)` skips leading whitespace and stops at the first non-digit |
| `Jwt.GenerateToken` | api/middlewares/AuthMiddleware.php:123-142 | generateToken, with the two `time()` readings as parameters. GeneratedTokenShape and GenerateThenValidate are its partners |
| `Jwt.HasExpired` | api/middlewares/AuthMiddleware.php:92 | isset(exp) and exp < now. ExpiryBoundary proves the boundary |
| `Jwt.ValidateToken` | api/middlewares/AuthMiddleware.php:67-97 | validateToken: a reported wrong part count is never 3, and an accepted payload is truthy and unexpired. PartCountCheck, SignatureCheckedBeforePayload, ValidIsSigned and GenerateThenValidate are its partners |
| `Jwt.ClaimsFields` | api/middlewares/AuthMiddleware.php:125-133 | the issued claims are truthy and hold user_id, employee_id, username, role_id, role_name, iat and exp exactly as given |
| `Jwt.GeneratedTokenShape` | api/middlewares/AuthMiddleware.php:123-141 | an issued token splits into exactly three parts: the encoded header `{typ: JWT, alg: HS256}`, the encoded claims, and base64url(HMAC(secret, header "." payload)). The claims carry iat = first clock reading and exp = second clock reading + 86400, so exp >= iat + 86400 when the clock does not go back |
| `Jwt.GenerateThenValidate` | api/middlewares/AuthMiddleware.php:67-142 | with the same secret, validateToken returns an issued token's claims while now <= exp, and reports it expired after that |
| `Jwt.PartCountCheck` | api/middlewares/AuthMiddleware.php:68-71 | a token is rejected at the split exactly when it does not contain two dots; the reported count is the dot count + 1 |
| `Jwt.EmptyPartsPassSplit` | api/middlewares/AuthMiddleware.php:68-71 | `..` (three empty parts) passes the split |
| `Jwt.SignatureCheckedBeforePayload` | api/middlewares/AuthMiddleware.php:73-85 | a wrong signature means rejection whatever the payload and whatever the JSON decoder; the payload is decoded only after the signature matches |
| `Jwt.ValidIsSigned` | api/middlewares/AuthMiddleware.php:67-97 | an accepted token is three dot-joined parts, signed by the secret, whose decoded payload is truthy, unexpired and returned |
| `Jwt.ExpiryBoundary` | api/middlewares/AuthMiddleware.php:91-94 | an integer exp is expired iff exp < now (exp == now passes, exp == now - 1 fails); a missing or null exp never expires |
| `Jwt.BearerToken` | api/middlewares/AuthMiddleware.php:57-61 | $matches[1] of `/Bearer\s+(.*)$/i`. BearerTokenSound (found implies the leftmost match) and BearerTokenComplete (a match anywhere implies found, and the leftmost match is what is found) are its partners |
| `Jwt.TokenFromRequest` | api/middlewares/AuthMiddleware.php:53-62 | getTokenFromRequest: BearerToken of `$headers['Authorization'] ?? ''`. BearerHeaderExtracts is its partner |
| `Jwt.MatchAt` | api/middlewares/AuthMiddleware.php:57 | a capture of `(.*)` never holds a newline |
| `Jwt.MatchAtSound` | api/middlewares/AuthMiddleware.php:57 | a capture at j has `bearer` at j, then a non-empty whitespace run ending at k; the capture is h[k..], or h[k..] less its final newline |
| `Jwt.MatchFromSound` | api/middlewares/AuthMiddleware.php:57 | a match from i is the match at the first position j >= i where the pattern matches, and `bearer` occurs at j |
| `Jwt.BearerTokenSound` | api/middlewares/AuthMiddleware.php:53-62 | an extracted credential holds no newline. It is taken at the leftmost matching position j: `bearer` in any case at j, then a non-empty whitespace run ending at k, and the credential is h[k..], or h[k..] less a final newline |
| `Jwt.NoBearerNoToken` | api/middlewares/AuthMiddleware.php:57-61 | a header without `bearer`, in any case, yields no token |
| `Jwt.BearerTokenOf` | api/middlewares/AuthMiddleware.php:57-58 | `Bearer` in any case, then whitespace, then a credential without a newline or leading whitespace: the credential is extracted unchanged |
| `Jwt.MatchFromComplete` | api/middlewares/AuthMiddleware.php:57 | if the first position from i where the pattern matches is j, the match from i is the match at j |
| `Jwt.MatchFromFound` | api/middlewares/AuthMiddleware.php:57 | if the pattern matches at some j >= i, a match from i is found |
| `Jwt.BearerTokenComplete` | api/middlewares/AuthMiddleware.php:57-58 | a match at any position j means a credential is extracted, and when no earlier position matches, it is the capture at j |
| `Jwt.LaterBearerMatches` | api/middlewares/AuthMiddleware.php:57-58 | for the header `bearer a\nbearer b`, `$` fails after the first `bearer` and the credential is `b` |
| `Auth.Authentication` | api/middlewares/AuthMiddleware.php:22-48 | what authenticate stores. AuthenticationSteps states its steps and AuthenticateIssuedToken its issued-token case. Authenticate is proved against it |
| `Auth.ConfiguredSecret` | api/middlewares/AuthMiddleware.php:16 | the secret is JWT_SECRET when it is set and truthy, else the default; it is never "" or "0" |
| `Auth.AuthMiddleware.constructor` | api/middlewares/AuthMiddleware.php:13-17 | the middleware keeps the configured secret and the shared global slot |
| `Auth.AuthMiddleware.Authenticate` | api/middlewares/AuthMiddleware.php:22-48 | returns true iff the composed steps succeed; then current_user is the validated payload; on every false path current_user is unchanged |
| `Auth.AuthMiddleware.CurrentUser` | api/middlewares/AuthMiddleware.php:147-149 | getCurrentUser reads the shared slot, None when nothing was stored |
| `Auth.AuthMiddleware.HasRole` | api/middlewares/AuthMiddleware.php:154-157 | true only for a truthy current user whose role_name is exactly the required string |
| `Auth.AuthMiddleware.HasAnyRole` | api/middlewares/AuthMiddleware.php:162-165 | false without a current user; true only when role_name is a string |
| `Auth.AuthenticationSteps` | api/middlewares/AuthMiddleware.php:22-48 | authentication succeeds iff a truthy Bearer token is extracted, validates, and verifyUser(user_id) holds; what is stored is that validated, truthy, unexpired payload |
| `Auth.IssuedTokenBytes` | api/middlewares/AuthMiddleware.php:135-141 | an issued token consists of URL-safe characters and dots |
| `Auth.BearerHeaderExtracts` | api/middlewares/AuthMiddleware.php:53-62 | "Authorization: Bearer t" yields t for any issued-style token t, and t is truthy |
| `Auth.AuthenticateIssuedToken` | api/middlewares/AuthMiddleware.php:22-62 | a request carrying an issued token authenticates iff the token has not expired and the user is still active; a deactivated user is refused although the token is valid |
| `Auth.AnyRoleIsSomeRole` | api/middlewares/AuthMiddleware.php:154-165 | hasAnyRole(list) holds iff hasRole(r) holds for some r in the list |
| `Auth.NoUserNoRole` | api/middlewares/AuthMiddleware.php:154-165 | without a current user both checks are false |
| `Auth.HasRoleExact` | api/middlewares/AuthMiddleware.php:154-157 | hasRole holds for at most one role name |
| `Auth.IssuedRoleGrantsRole` | api/middlewares/AuthMiddleware.php:154-157 | with issued claims stored, hasRole(x) holds iff x is the issued role name |
| `HmoRoutes.HandleRequest` | api/routes/hmo.php:27-67 | the switch of handleRequest. DispatchFollowsTable proves it agrees with the route table in both directions |
| `HmoRoutes.DispatchFollowsTable` | api/routes/hmo.php:27-67 | handleRequest picks handler h iff h is the one row of the route table that matches (GET/null id: providers, enrollments, else plans; GET/id: one plan; POST: enrollment iff sub-resource is enrollments, else plan; PUT/PATCH/DELETE need an id) |
| `HmoRoutes.MethodNotAllowedCases` | api/routes/hmo.php:49-66 | methodNotAllowed is chosen iff the method is unknown, or is PUT, PATCH or DELETE with a null id |
| `HmoRoutes.IgnoredArguments` | api/routes/hmo.php:28-48 | POST ignores the id; GET with an id ignores the sub-resource |
| `HmoRoutes.PruneFilters` | api/routes/hmo.php:81-83 | pruning never adds entries |
| `HmoRoutes.PruneFiltersMembers` | api/routes/hmo.php:81-83 | an entry survives iff it was present and its value is neither null nor '' |
| `HmoRoutes.PruneFiltersAppend` | api/routes/hmo.php:81-83 | pruning works entry by entry in order (it distributes over concatenation) |
| `HmoRoutes.PruneFiltersIdempotent` | api/routes/hmo.php:81-83 | pruning twice equals pruning once |
| `HmoRoutes.FalsyFiltersKept` | api/routes/hmo.php:81-83 | '0', 0 and false are kept; null and '' are removed |
| `HmoRoutes.PlanFilters` | api/routes/hmo.php:76-83 | getHMOPlans' pruned filters. PlanFiltersKept is its partner |
| `HmoRoutes.EnrollmentFilters` | api/routes/hmo.php:128-135 | getHMOEnrollments' pruned filters. EnrollmentFiltersKept is its partner |
| `HmoRoutes.PlanFiltersKept` | api/routes/hmo.php:76-83 | provider_id and is_active are each kept iff non-empty, and nothing else appears |
| `HmoRoutes.EnrollmentFiltersKept` | api/routes/hmo.php:128-135 | employee_id and status are each kept iff non-empty, and nothing else appears |
| `HmoRoutes.CreateEnrollmentOutcome` | api/routes/hmo.php:162-184 | how createHMOEnrollment ends: forbidden, validation failure, or the created record. EnrollmentGate is its partner |
| `HmoRoutes.BuildEnrollment` | api/routes/hmo.php:177-184 | the record handed to HMO::createHMOEnrollment. EnrollmentRecord is its partner |
| `HmoRoutes.EnrollmentGate` | api/routes/hmo.php:162-174 | forbidden is chosen iff hasAnyRole(['System Admin','HR Manager']) is false; a record is built only for one of those two roles and with no validation errors |
| `HmoRoutes.EnrollmentRecord` | api/routes/hmo.php:177-184 | the record has status 'Active'; employee_id and plan_id pass through (int), so a decimal string or an integer reads back as itself; a date that is absent or null becomes today's date, and any other is kept |

## Left out

- HMAC-SHA256 (`hash_hmac`) is a parameter of the model, not an implementation. Tamper resistance beyond "an accepted token carries the HMAC of its first two parts" (`Jwt.ValidIsSigned`) depends on the collision resistance of HMAC, which cannot be stated about an arbitrary function.
- `hash_equals` is plain equality. Comparing in constant time is a timing property and is not expressible.
- JSON syntax is not modelled. `json_encode` and `json_decode` are parameters. The model does not capture the key order of the encoded objects, floats, or PHP's treatment of numeric-string keys as integer keys.
- Jwt.GenerateThenValidate: it holds only under the requirement that `json_decode(json_encode(claims), true)` returns the claims object. The model cannot prove that about PHP's JSON functions, which are not part of it.
- `verifyUser` runs an SQL query. It is the oracle `userActive` on the user_id value. A PDOException, and any other exception caught by `authenticate`, is the oracle answering false. A PHP `Error` (for example a TypeError, which `catch (Exception)` does not catch) is not modelled.
- `time()`, `getenv('JWT_SECRET')`, `getallheaders()` and `date('Y-m-d')` become parameters. The constructor's `$pdo` wiring is not modelled.
- Concurrency: the slot `$GLOBALS['current_user']` is one shared `Globals` object. The model does not cover interleaving requests that share it.
- PhpValues.LessThanInt: an `exp` that decodes to a string is treated as not expired. PHP's loose comparison of strings against integers is not modelled. Floats are not representable at all (see above). Integers, booleans and arrays compare as in PHP.
- PhpValues.Index: a non-numeric string key on a list, a string or a scalar reads as null. PHP's string-offset error for strings is not modelled, and neither are numeric-string keys.
- PhpValues.IntCast: does not model exponent and fraction forms such as "1e3" (which PHP reads as 1000), or saturation at 64 bits. It reads optional whitespace, a sign and leading digits.
- Auth.AuthMiddleware.HasAnyRole: `in_array` is loose. The model matches a string role_name by equality. A non-string role_name, for example `true`, which PHP would loosely equal to any non-empty string, is treated as a non-match.
- HmoRoutes.HandleRequest: the `switch` compares loosely (`==`). Every case label is a non-numeric string, so PHP compares a string `$method` with the labels as strings, and the model's byte-string equality is exactly that. A non-string `$method` (for example `true`, which `==` equates with `'GET'`) is not covered: the model takes the method as a string.
- `Response::*`, `Request::*` (`getData`, `getPagination`, `validateRequired`) and api/utils are not part of this model. Request values and the errors reported by `validateRequired` are parameters. `HmoRoutes.CreateEnrollmentOutcome` assumes that `Response::forbidden` and `Response::validationError` end the request, which cannot be checked without that code.
- The handler bodies past the dispatch are not modelled. That covers the pending stubs, the calls into api/models/HMO.php and api/models/Department.php (query construction and execution), the pagination, and the logging. test_db.php is a connection smoke test and is not modelled either.

## Findings

| source | as written | input that shows it | evidently intended | confidence | as-written member | corrected member |
|---|---|---|---|---|---|---|
| api/middlewares/AuthMiddleware.php:179 | `str_pad($s, strlen($data) % 4, '=')` pads to a length never larger than the string, so it never adds padding | "QQ" (base64url of the byte 'A') stays "QQ" instead of "QQ==" | pad with `=` up to the next multiple of four | not executed; harmless in effect, because PHP's non-strict base64_decode ignores padding (proved by `Base64Url.AsWrittenDecodesAlike`) | `Base64Url.AsWrittenPadLeavesPartialQuantum` | `Base64Url.CorrectedPadFillsQuantum` |
