/**
 * The stateful half of AuthMiddleware (api/middlewares/AuthMiddleware.php):
 * the secret chosen at construction, authenticate, which writes the shared
 * current-user slot only when every step succeeds, and the role checks
 * that read that slot.
 */
module Auth {

  import opened Wrappers
  import opened ByteStrings
  import opened PhpStrings
  import opened PhpValues
  import opened Base64Url
  import opened Jwt

  const DEFAULT_SECRET: Bytes := Ascii("your-secret-key-change-in-production")

  /** The value of an Authorization header that presents a credential as a Bearer token. */
  const BEARER_PREFIX: Bytes := Ascii("Bearer ")

  /** getenv('JWT_SECRET') ?: the default; `env` is None when the variable is unset. */
  function ConfiguredSecret(env: Option<Bytes>): (k: Bytes)
    ensures IsTruthy(k)
    ensures env.Some? && IsTruthy(env.value) ==> k == env.value
    ensures env.None? || !IsTruthy(env.value) ==> k == DEFAULT_SECRET
  {
    if env.Some? && IsTruthy(env.value) then env.value else DEFAULT_SECRET
  }

  /**
   * What authenticate stores, or None when it returns false. verifyUser is
   * the oracle `userActive`, false also when its query throws.
   */
  function Authentication(p: Primitives, secret: Bytes, headers: map<Bytes, Bytes>, now: int,
                          userActive: Json -> bool): Option<Json>
  {
    match TokenFromRequest(headers)
    case None => None
    case Some(token) =>
      if !IsTruthy(token) then None
      else
        match ValidateToken(p, secret, token, now)
        case Valid(payload) => if userActive(Index(payload, USER_ID)) then Some(payload) else None
        case _ => None
  }

  /** `$GLOBALS`, of which the middleware uses the 'current_user' slot. */
  class Globals {
    var currentUser: Option<Json>

    constructor ()
      ensures currentUser == None
    {
      currentUser := None;
    }
  }

  class AuthMiddleware {
    const secretKey: Bytes
    const prims: Primitives
    /** The process-wide slot every AuthMiddleware instance reads and writes. */
    const globals: Globals

    constructor (env: Option<Bytes>, prims: Primitives, globals: Globals)
      ensures secretKey == ConfiguredSecret(env) && this.globals == globals
      ensures this.prims == prims
    {
      secretKey := ConfiguredSecret(env);
      this.prims := prims;
      this.globals := globals;
    }

    /**
     * authenticate: extract the Bearer token, validate it, confirm the
     * user; the slot is written only when all three succeed.
     */
    method Authenticate(headers: map<Bytes, Bytes>, now: int, userActive: Json -> bool)
      returns (ok: bool)
      modifies globals
      ensures ok <==> Authentication(prims, secretKey, headers, now, userActive).Some?
      ensures ok ==> globals.currentUser == Authentication(prims, secretKey, headers, now, userActive)
      ensures !ok ==> globals.currentUser == old(globals.currentUser)
    {
      var token := TokenFromRequest(headers);
      if token.None? || !IsTruthy(token.value) {
        return false;
      }
      var verdict := ValidateToken(prims, secretKey, token.value, now);
      if !verdict.Valid? {
        return false;
      }
      if !userActive(Index(verdict.payload, USER_ID)) {
        return false;
      }
      globals.currentUser := Some(verdict.payload);
      return true;
    }

    /** getCurrentUser: the shared slot, None when nothing was stored. */
    function CurrentUser(): (u: Option<Json>)
      reads globals
      ensures u == globals.currentUser
    {
      globals.currentUser
    }

    /** hasRole: a (truthy) current user whose role_name is exactly `required`. */
    function HasRole(required: Bytes): (r: bool)
      reads globals
      ensures r ==> CurrentUser().Some? && Truthy(CurrentUser().value)
      ensures r ==> Index(CurrentUser().value, ROLE_NAME) == JStr(required)
    {
      var u := globals.currentUser;
      u.Some? && Truthy(u.value) && Index(u.value, ROLE_NAME) == JStr(required)
    }

    /** hasAnyRole: a (truthy) current user whose role_name is one of `required`. */
    function HasAnyRole(required: seq<Bytes>): (r: bool)
      reads globals
      ensures CurrentUser().None? ==> !r
      ensures r ==> Index(CurrentUser().value, ROLE_NAME).JStr?
    {
      var u := globals.currentUser;
      u.Some? && Truthy(u.value) && Index(u.value, ROLE_NAME).JStr?
        && Index(u.value, ROLE_NAME).s in required
    }
  }

  /**
   * authenticate succeeds exactly when a truthy Bearer token is extracted,
   * validates, and its user_id is confirmed; what it stores is that
   * validated payload.
   */
  lemma AuthenticationSteps(p: Primitives, secret: Bytes, headers: map<Bytes, Bytes>, now: int,
                            userActive: Json -> bool, payload: Json)
    ensures Authentication(p, secret, headers, now, userActive) == Some(payload) <==>
      && TokenFromRequest(headers).Some?
      && IsTruthy(TokenFromRequest(headers).value)
      && ValidateToken(p, secret, TokenFromRequest(headers).value, now) == Valid(payload)
      && userActive(Index(payload, USER_ID))
    ensures Authentication(p, secret, headers, now, userActive) == Some(payload) ==>
      Truthy(payload) && !HasExpired(payload, now)
  {
    var t := TokenFromRequest(headers);
    if t.Some? && IsTruthy(t.value) && ValidateToken(p, secret, t.value, now).Valid? {
      ValidIsSigned(p, secret, t.value, now);
    }
  }

  /** Every byte of an issued token is from the URL-safe alphabet or a dot. */
  lemma IssuedTokenBytes(p: Primitives, secret: Bytes, userId: Json, employeeId: Json,
                         username: Json, roleId: Json, roleName: Json, clockIat: int, clockExp: int)
    ensures var token := GenerateToken(p, secret, userId, employeeId, username, roleId, roleName, clockIat, clockExp);
      DOT in token && forall i :: 0 <= i < |token| ==> IsUrlChar(token[i]) || token[i] == DOT
  {
    var hb := p.jsonEncode(Header());
    var cb := p.jsonEncode(Claims(userId, employeeId, username, roleId, roleName, clockIat, clockExp + TOKEN_LIFETIME));
    var header := Base64UrlEncode(hb);
    var payload := Base64UrlEncode(cb);
    var signature := Signature(p, secret, header, payload);
    UrlAlphabet(hb);
    UrlAlphabet(cb);
    UrlAlphabet(p.hmac(secret, header + [DOT] + payload));
    DotJoinedUrl(header, payload);
    DotJoinedUrl(header + [DOT] + payload, signature);
    assert (header + [DOT] + payload)[|header|] == DOT;
  }

  /** Two strings of URL-safe characters and dots, joined by a dot, are again such a string. */
  lemma DotJoinedUrl(a: Bytes, b: Bytes)
    requires forall i :: 0 <= i < |a| ==> IsUrlChar(a[i]) || a[i] == DOT
    requires forall i :: 0 <= i < |b| ==> IsUrlChar(b[i]) || b[i] == DOT
    ensures forall i :: 0 <= i < |a + [DOT] + b| ==> IsUrlChar((a + [DOT] + b)[i]) || (a + [DOT] + b)[i] == DOT
  {
  }

  /**
   * The request "Authorization: Bearer <issued token>" authenticates
   * exactly while the token has not expired and its user is still active;
   * a deactivated user is refused although the token itself is valid.
   */
  lemma AuthenticateIssuedToken(p: Primitives, secret: Bytes, userId: Json, employeeId: Json,
                                username: Json, roleId: Json, roleName: Json,
                                clockIat: int, clockExp: int, now: int, userActive: Json -> bool)
    requires var c := Claims(userId, employeeId, username, roleId, roleName, clockIat, clockExp + TOKEN_LIFETIME);
      p.jsonDecode(p.jsonEncode(c)) == c
    ensures var token := GenerateToken(p, secret, userId, employeeId, username, roleId, roleName, clockIat, clockExp);
      Authentication(p, secret, map[AUTHORIZATION := BEARER_PREFIX + token], now, userActive)
      == if now <= clockExp + TOKEN_LIFETIME && userActive(userId)
         then Some(Claims(userId, employeeId, username, roleId, roleName, clockIat, clockExp + TOKEN_LIFETIME))
         else None
  {
    var token := GenerateToken(p, secret, userId, employeeId, username, roleId, roleName, clockIat, clockExp);
    IssuedTokenBytes(p, secret, userId, employeeId, username, roleId, roleName, clockIat, clockExp);
    BearerHeaderExtracts(token);
    GenerateThenValidate(p, secret, userId, employeeId, username, roleId, roleName, clockIat, clockExp, now);
    ClaimsFields(userId, employeeId, username, roleId, roleName, clockIat, clockExp + TOKEN_LIFETIME);
  }

  /** "Authorization: Bearer <t>" yields t when t is made of URL-safe characters and dots. */
  lemma BearerHeaderExtracts(token: Bytes)
    requires DOT in token && forall i :: 0 <= i < |token| ==> IsUrlChar(token[i]) || token[i] == DOT
    ensures TokenFromRequest(map[AUTHORIZATION := BEARER_PREFIX + token]) == Some(token)
    ensures IsTruthy(token)
  {
    var word := Ascii("Bearer");
    assert BEARER_PREFIX == word + [SPACE];
    assert LF !in token;
    BearerTokenOf(word, [SPACE], token);
    assert DOT !in [DIGIT_ZERO];
  }

  /** hasAnyRole is hasRole for some member of the list. */
  lemma AnyRoleIsSomeRole(a: AuthMiddleware, roles: seq<Bytes>)
    ensures a.HasAnyRole(roles) <==> exists i :: 0 <= i < |roles| && a.HasRole(roles[i])
  {
    if a.HasAnyRole(roles) {
      var name := Index(a.CurrentUser().value, ROLE_NAME).s;
      var i :| 0 <= i < |roles| && roles[i] == name;
      assert a.HasRole(roles[i]);
    }
  }

  /** With nothing authenticated, every role check fails. */
  lemma NoUserNoRole(a: AuthMiddleware, role: Bytes, roles: seq<Bytes>)
    requires a.CurrentUser().None?
    ensures !a.HasRole(role) && !a.HasAnyRole(roles)
  {
  }

  /** hasRole is exact: two different names cannot both be the current role. */
  lemma HasRoleExact(a: AuthMiddleware, r1: Bytes, r2: Bytes)
    requires a.HasRole(r1) && a.HasRole(r2)
    ensures r1 == r2
  {
  }

  /** A stored issued payload grants exactly the role it was issued with. */
  lemma IssuedRoleGrantsRole(a: AuthMiddleware, userId: Json, employeeId: Json, username: Json,
                             roleId: Json, role: Bytes, issuedAt: int, expiresAt: int, other: Bytes)
    requires a.CurrentUser() == Some(Claims(userId, employeeId, username, roleId, JStr(role), issuedAt, expiresAt))
    ensures a.HasRole(role)
    ensures a.HasRole(other) <==> other == role
  {
    ClaimsFields(userId, employeeId, username, roleId, JStr(role), issuedAt, expiresAt);
  }
}
