/**
 * The pure half of AuthMiddleware (api/middlewares/AuthMiddleware.php):
 * token issuance (JWS compact serialisation, RFC 7515 section 7.1, with
 * HS256, RFC 7518 section 3.2), token validation, and the extraction of a
 * Bearer credential from the request headers.
 */
module Jwt {

  import opened Wrappers
  import opened ByteStrings
  import opened PhpStrings
  import opened PhpValues
  import opened Base64Url

  /**
   * The foreign primitives the middleware calls: hash_hmac('sha256', msg,
   * key, true) as hmac(key, msg), json_encode, and json_decode($s, true),
   * which yields null for text that is not JSON.
   */
  datatype Primitives = Primitives(
    hmac: (Bytes, Bytes) -> Bytes,
    jsonEncode: Json -> Bytes,
    jsonDecode: Bytes -> Json)

  /** 24 hours, the fixed lifetime of an issued token. */
  const TOKEN_LIFETIME: int := 24 * 60 * 60

  const USER_ID: Bytes := Ascii("user_id")
  const EMPLOYEE_ID: Bytes := Ascii("employee_id")
  const USERNAME: Bytes := Ascii("username")
  const ROLE_ID: Bytes := Ascii("role_id")
  const ROLE_NAME: Bytes := Ascii("role_name")
  const ISSUED_AT: Bytes := Ascii("iat")
  const EXPIRES: Bytes := Ascii("exp")

  /** The JOSE header {"typ": "JWT", "alg": "HS256"}. */
  function Header(): Json
  {
    JObject(map[Ascii("typ") := JStr(Ascii("JWT")), Ascii("alg") := JStr(Ascii("HS256"))])
  }

  /** The claims object generateToken encodes. */
  function Claims(userId: Json, employeeId: Json, username: Json, roleId: Json, roleName: Json,
                  issuedAt: int, expiresAt: int): Json
  {
    JObject(map[USER_ID := userId, EMPLOYEE_ID := employeeId, USERNAME := username,
                ROLE_ID := roleId, ROLE_NAME := roleName,
                ISSUED_AT := JInt(issuedAt), EXPIRES := JInt(expiresAt)])
  }

  /** The third part: base64url of the HMAC of "header.payload" under the secret. */
  function Signature(p: Primitives, secret: Bytes, header: Bytes, payload: Bytes): Bytes
  {
    Base64UrlEncode(p.hmac(secret, header + [DOT] + payload))
  }

  /**
   * generateToken. `time()` is read twice, once for "iat" and once for
   * "exp", so the two clock readings are separate parameters.
   */
  function GenerateToken(p: Primitives, secret: Bytes, userId: Json, employeeId: Json,
                         username: Json, roleId: Json, roleName: Json,
                         clockIat: int, clockExp: int): Bytes
  {
    var header := Base64UrlEncode(p.jsonEncode(Header()));
    var payload := Base64UrlEncode(p.jsonEncode(
      Claims(userId, employeeId, username, roleId, roleName, clockIat, clockExp + TOKEN_LIFETIME)));
    header + [DOT] + payload + [DOT] + Signature(p, secret, header, payload)
  }

  /** Why validateToken rejected a token, or the payload it accepted. */
  datatype Verdict =
    | Valid(payload: Json)
    | WrongPartCount(count: nat)
    | SignatureMismatch
    | FalsyPayload
    | Expired

  /** isset($payloadData['exp']) && $payloadData['exp'] < time(). */
  predicate HasExpired(payload: Json, now: int)
  {
    Isset(payload, EXPIRES) && LessThanInt(Index(payload, EXPIRES), now)
  }

  /** validateToken: split, then signature, then payload decoding, then expiry. */
  function ValidateToken(p: Primitives, secret: Bytes, token: Bytes, now: int): (v: Verdict)
    ensures v.WrongPartCount? ==> v.count != 3
    ensures v.Valid? ==> Truthy(v.payload) && !HasExpired(v.payload, now)
  {
    var parts := Explode(DOT, token);
    if |parts| != 3 then WrongPartCount(|parts|)
    else if Signature(p, secret, parts[0], parts[1]) != parts[2] then SignatureMismatch
    else
      var payload := p.jsonDecode(Base64UrlDecode(parts[1]));
      if !Truthy(payload) then FalsyPayload
      else if HasExpired(payload, now) then Expired
      else Valid(payload)
  }

  /** The claims hold exactly the values generateToken was given. */
  lemma ClaimsFields(userId: Json, employeeId: Json, username: Json, roleId: Json, roleName: Json,
                     issuedAt: int, expiresAt: int)
    ensures var c := Claims(userId, employeeId, username, roleId, roleName, issuedAt, expiresAt);
      && Truthy(c)
      && Index(c, USER_ID) == userId && Index(c, EMPLOYEE_ID) == employeeId
      && Index(c, USERNAME) == username && Index(c, ROLE_ID) == roleId
      && Index(c, ROLE_NAME) == roleName
      && Index(c, ISSUED_AT) == JInt(issuedAt) && Index(c, EXPIRES) == JInt(expiresAt)
  {
    var c := Claims(userId, employeeId, username, roleId, roleName, issuedAt, expiresAt);
    assert USER_ID[0] != ROLE_ID[0] && ISSUED_AT[0] != EXPIRES[0];
    assert USER_ID in c.members;
  }

  /**
   * An issued token has exactly three parts: the encoded header, the
   * encoded claims whose "exp" is the second clock reading plus 24 hours,
   * and the signature over the first two.
   */
  lemma GeneratedTokenShape(p: Primitives, secret: Bytes, userId: Json, employeeId: Json,
                            username: Json, roleId: Json, roleName: Json,
                            clockIat: int, clockExp: int)
    ensures var parts := Explode(DOT, GenerateToken(p, secret, userId, employeeId, username, roleId, roleName, clockIat, clockExp));
      && |parts| == 3
      && Base64UrlDecode(parts[0]) == p.jsonEncode(Header())
      && Base64UrlDecode(parts[1]) == p.jsonEncode(
           Claims(userId, employeeId, username, roleId, roleName, clockIat, clockExp + TOKEN_LIFETIME))
      && parts[2] == Signature(p, secret, parts[0], parts[1])
    ensures var c := Claims(userId, employeeId, username, roleId, roleName, clockIat, clockExp + TOKEN_LIFETIME);
      && Index(c, ISSUED_AT) == JInt(clockIat) && Index(c, EXPIRES) == JInt(clockExp + TOKEN_LIFETIME)
      && (clockIat <= clockExp ==> Index(c, EXPIRES).i >= Index(c, ISSUED_AT).i + TOKEN_LIFETIME)
  {
    ClaimsFields(userId, employeeId, username, roleId, roleName, clockIat, clockExp + TOKEN_LIFETIME);
    var hb := p.jsonEncode(Header());
    var cb := p.jsonEncode(Claims(userId, employeeId, username, roleId, roleName, clockIat, clockExp + TOKEN_LIFETIME));
    var header := Base64UrlEncode(hb);
    var payload := Base64UrlEncode(cb);
    var sig := Signature(p, secret, header, payload);
    UrlAlphabet(hb);
    UrlAlphabet(cb);
    UrlAlphabet(p.hmac(secret, header + [DOT] + payload));
    ExplodeThree(DOT, header, payload, sig);
    UrlRoundTrip(hb);
    UrlRoundTrip(cb);
  }

  /**
   * Round trip: with the same secret and a JSON codec that reads back the
   * claims it wrote, validateToken accepts an issued token and returns its
   * claims until "exp" has passed, and reports it expired from then on.
   */
  lemma GenerateThenValidate(p: Primitives, secret: Bytes, userId: Json, employeeId: Json,
                             username: Json, roleId: Json, roleName: Json,
                             clockIat: int, clockExp: int, now: int)
    requires var c := Claims(userId, employeeId, username, roleId, roleName, clockIat, clockExp + TOKEN_LIFETIME);
      p.jsonDecode(p.jsonEncode(c)) == c
    ensures ValidateToken(p, secret, GenerateToken(p, secret, userId, employeeId, username, roleId, roleName, clockIat, clockExp), now)
      == if now <= clockExp + TOKEN_LIFETIME
         then Valid(Claims(userId, employeeId, username, roleId, roleName, clockIat, clockExp + TOKEN_LIFETIME))
         else Expired
  {
    GeneratedTokenShape(p, secret, userId, employeeId, username, roleId, roleName, clockIat, clockExp);
    ClaimsFields(userId, employeeId, username, roleId, roleName, clockIat, clockExp + TOKEN_LIFETIME);
  }

  /** A token is rejected at the split exactly when it does not hold two dots. */
  lemma PartCountCheck(p: Primitives, secret: Bytes, token: Bytes, now: int)
    ensures ValidateToken(p, secret, token, now).WrongPartCount? <==> multiset(token)[DOT] != 2
    ensures ValidateToken(p, secret, token, now).WrongPartCount? ==>
      ValidateToken(p, secret, token, now).count == multiset(token)[DOT] + 1
  {
    ExplodeCount(DOT, token);
  }

  /** Empty parts are not rejected by the split: ".." gets as far as the signature check. */
  lemma EmptyPartsPassSplit(p: Primitives, secret: Bytes, now: int)
    ensures !ValidateToken(p, secret, [DOT, DOT], now).WrongPartCount?
  {
    PartCountCheck(p, secret, [DOT, DOT], now);
    assert [DOT, DOT] == [DOT] + [DOT];
    assert multiset([DOT, DOT])[DOT] == 2;
  }

  /**
   * A three-part token whose third part is not the signature of the first
   * two is rejected whatever its payload and whatever the JSON decoder.
   */
  lemma SignatureCheckedBeforePayload(p: Primitives, q: Primitives, secret: Bytes,
                                      header: Bytes, payload: Bytes, sig: Bytes, now: int)
    requires DOT !in header && DOT !in payload && DOT !in sig
    requires sig != Signature(p, secret, header, payload)
    requires q.hmac == p.hmac
    ensures ValidateToken(p, secret, header + [DOT] + payload + [DOT] + sig, now) == SignatureMismatch
    ensures ValidateToken(q, secret, header + [DOT] + payload + [DOT] + sig, now) == SignatureMismatch
  {
    ExplodeThree(DOT, header, payload, sig);
  }

  /**
   * Whatever validateToken accepts is a signed three-part token whose
   * decoded payload is truthy and not expired.
   */
  lemma ValidIsSigned(p: Primitives, secret: Bytes, token: Bytes, now: int)
    requires ValidateToken(p, secret, token, now).Valid?
    ensures var parts := Explode(DOT, token);
      && |parts| == 3
      && token == parts[0] + [DOT] + parts[1] + [DOT] + parts[2]
      && parts[2] == Signature(p, secret, parts[0], parts[1])
      && ValidateToken(p, secret, token, now).payload == p.jsonDecode(Base64UrlDecode(parts[1]))
      && Truthy(ValidateToken(p, secret, token, now).payload)
      && !HasExpired(ValidateToken(p, secret, token, now).payload, now)
  {
    ImplodeThree(DOT, token);
  }

  /**
   * The expiry boundary: an integer "exp" passes while now <= exp, so a
   * token is still good in the second it expires; a missing or null "exp"
   * never expires.
   */
  lemma ExpiryBoundary(members: map<Bytes, Json>, now: int)
    ensures EXPIRES in members && members[EXPIRES].JInt? ==>
      (HasExpired(JObject(members), now) <==> members[EXPIRES].i < now)
    ensures (EXPIRES !in members || members[EXPIRES] == JNull) ==> !HasExpired(JObject(members), now)
    ensures HasExpired(JObject(members[EXPIRES := JInt(now - 1)]), now)
    ensures !HasExpired(JObject(members[EXPIRES := JInt(now)]), now)
  {
  }

  // ---- Credential extraction: preg_match('/Bearer\s+(.*)$/i', $authHeader) ----

  const AUTHORIZATION: Bytes := Ascii("Authorization")
  const BEARER: Bytes := Ascii("bearer")

  /** "bearer", in any mix of upper and lower case, starts at position i. */
  predicate BearerWordAt(h: Bytes, i: nat)
  {
    i + |BEARER| <= |h| && forall k :: 0 <= k < |BEARER| ==> ToLower(h[i + k]) == BEARER[k]
  }

  /** The end of the longest run of `\s` starting at j. */
  function SpaceRunEnd(h: Bytes, j: nat): (k: nat)
    requires j <= |h|
    ensures j <= k <= |h|
    ensures forall m :: j <= m < k ==> IsSpace(h[m])
    ensures k == |h| || !IsSpace(h[k])
    decreases |h| - j
  {
    if j < |h| && IsSpace(h[j]) then SpaceRunEnd(h, j + 1) else j
  }

  /**
   * The capture when the match starts at i: `\s+` takes the whole run of
   * whitespace, `(.*)` then takes everything up to the end, which may not
   * hold a newline except as the very last byte (where `$` still matches).
   */
  function MatchAt(h: Bytes, i: nat): (r: Option<Bytes>)
    ensures r.Some? ==> LF !in r.value
  {
    if !BearerWordAt(h, i) then None
    else
      var k := SpaceRunEnd(h, i + |BEARER|);
      if k == i + |BEARER| then None
      else
        var rest := h[k..];
        if LF !in rest then Some(rest)
        else if rest[|rest| - 1] == LF && LF !in rest[..|rest| - 1] then Some(rest[..|rest| - 1])
        else None
  }

  /** The leftmost match at or after position i. */
  function MatchFrom(h: Bytes, i: nat): Option<Bytes>
    decreases |h| - i
  {
    if i >= |h| then None
    else if MatchAt(h, i).Some? then MatchAt(h, i)
    else MatchFrom(h, i + 1)
  }

  /** $matches[1] of the Bearer pattern, or None when the pattern does not match. */
  function BearerToken(h: Bytes): Option<Bytes>
  {
    MatchFrom(h, 0)
  }

  /** `$headers['Authorization'] ?? ''`: the key is looked up exactly as written. */
  function AuthorizationHeader(headers: map<Bytes, Bytes>): Bytes
  {
    if AUTHORIZATION in headers then headers[AUTHORIZATION] else []
  }

  /** getTokenFromRequest, with getallheaders() as a parameter. */
  function TokenFromRequest(headers: map<Bytes, Bytes>): Option<Bytes>
  {
    BearerToken(AuthorizationHeader(headers))
  }

  /** The pattern matches at no position from i up to (not including) j. */
  predicate NoMatchBetween(h: Bytes, i: nat, j: nat)
  {
    forall j' :: i <= j' < j ==> MatchAt(h, j').None?
  }

  /** A match from i is the match at the first position j >= i where the pattern matches. */
  lemma {:induction false} MatchFromSound(h: Bytes, i: nat)
    requires MatchFrom(h, i).Some?
    ensures exists j :: (i <= j < |h| && BearerWordAt(h, j) && MatchAt(h, j) == MatchFrom(h, i)
      && NoMatchBetween(h, i, j))
    decreases |h| - i
  {
    if MatchAt(h, i).None? {
      MatchFromSound(h, i + 1);
      var j :| i + 1 <= j < |h| && BearerWordAt(h, j) && MatchAt(h, j) == MatchFrom(h, i + 1)
        && NoMatchBetween(h, i + 1, j);
      assert NoMatchBetween(h, i, j);
    } else {
      assert BearerWordAt(h, i);
      assert NoMatchBetween(h, i, i);
    }
  }

  /**
   * A capture taken at position j: "bearer" starts at j, a non-empty run of
   * whitespace follows it, and the capture is everything after that run,
   * less a final newline.
   */
  lemma MatchAtSound(h: Bytes, j: nat)
    requires MatchAt(h, j).Some?
    ensures BearerWordAt(h, j)
    ensures var k := SpaceRunEnd(h, j + |BEARER|); var t := MatchAt(h, j).value;
      k > j + |BEARER| && (t == h[k..] || t + [LF] == h[k..])
  {
    var k := SpaceRunEnd(h, j + |BEARER|);
    var rest := h[k..];
    var t := MatchAt(h, j).value;
    if LF in rest {
      assert t == rest[..|rest| - 1];
      assert t + [LF] == rest;
    }
  }

  /**
   * Whatever is extracted holds no newline and is taken at the leftmost
   * position j where the pattern matches: a case-insensitive "bearer" at j,
   * a non-empty run of whitespace after it, and then the rest of the
   * header, less a final newline.
   */
  lemma BearerTokenSound(h: Bytes)
    requires BearerToken(h).Some?
    ensures LF !in BearerToken(h).value
    ensures exists j :: (0 <= j < |h| && BearerWordAt(h, j) && NoMatchBetween(h, 0, j)
      && SpaceRunEnd(h, j + |BEARER|) > j + |BEARER|
      && (BearerToken(h).value == h[SpaceRunEnd(h, j + |BEARER|)..]
          || BearerToken(h).value + [LF] == h[SpaceRunEnd(h, j + |BEARER|)..]))
  {
    MatchFromSound(h, 0);
    var j :| 0 <= j < |h| && BearerWordAt(h, j) && MatchAt(h, j) == MatchFrom(h, 0)
      && NoMatchBetween(h, 0, j);
    MatchAtSound(h, j);
  }

  /** Completeness: the first position j >= i where the pattern matches gives the match from i. */
  lemma {:induction false} MatchFromComplete(h: Bytes, i: nat, j: nat)
    requires i <= j && MatchAt(h, j).Some? && NoMatchBetween(h, i, j)
    ensures MatchFrom(h, i) == MatchAt(h, j)
    decreases j - i
  {
    if i < j {
      MatchFromSkip(h, i, j);
      MatchFromComplete(h, i + 1, j);
    } else {
      MatchFromHere(h, j);
    }
  }

  /** Where the pattern does not match, the search moves on to the next position. */
  lemma MatchFromSkip(h: Bytes, i: nat, j: nat)
    requires i < j && MatchAt(h, j).Some? && NoMatchBetween(h, i, j)
    ensures MatchFrom(h, i) == MatchFrom(h, i + 1) && NoMatchBetween(h, i + 1, j)
  {
    assert BearerWordAt(h, j);
    assert MatchAt(h, i).None?;
  }

  /** Where the pattern matches, the search stops. */
  lemma MatchFromHere(h: Bytes, j: nat)
    requires MatchAt(h, j).Some?
    ensures MatchFrom(h, j) == MatchAt(h, j)
  {
    assert BearerWordAt(h, j);
  }

  /** Whenever the pattern matches at some position, a match is found from any earlier position. */
  lemma {:induction false} MatchFromFound(h: Bytes, i: nat, j: nat)
    requires i <= j && MatchAt(h, j).Some?
    ensures MatchFrom(h, i).Some?
    decreases j - i
  {
    if i < j && MatchAt(h, i).None? {
      MatchFromFound(h, i + 1, j);
    }
  }

  /**
   * The credential is the capture at the leftmost position where the
   * whole pattern matches, wherever in the header that position is, and a
   * match anywhere means a credential is found.
   */
  lemma BearerTokenComplete(h: Bytes, j: nat)
    requires MatchAt(h, j).Some?
    ensures BearerToken(h).Some?
    ensures NoMatchBetween(h, 0, j) ==> BearerToken(h) == MatchAt(h, j)
  {
    MatchFromFound(h, 0, j);
    if NoMatchBetween(h, 0, j) {
      MatchFromComplete(h, 0, j);
    }
  }

  /** The header "bearer a\nbearer b". */
  function TwoBearers(): (h: Bytes)
    ensures |h| == 17 && h[..6] == BEARER && h[9..15] == BEARER
  {
    [98, 101, 97, 114, 101, 114, SPACE, 97, LF, 98, 101, 97, 114, 101, 114, SPACE, 98]
  }

  /** At the first "bearer", `$` fails: the newline after "a" is not the last byte. */
  lemma FirstBearerFails()
    ensures MatchAt(TwoBearers(), 0).None?
  {
    var h := TwoBearers();
    SpaceRunAll(h, 6, 7);
    var rest := h[7..];
    assert rest[1] == LF;
    assert rest[|rest| - 1] != LF;
  }

  /** At the second "bearer" the pattern matches and captures "b". */
  lemma SecondBearerMatches()
    ensures MatchAt(TwoBearers(), 9) == Some([98])
  {
    var h := TwoBearers();
    assert BearerWordAt(h, 9) by {
      forall k | 0 <= k < |BEARER| ensures ToLower(h[9 + k]) == BEARER[k] {
        assert h[9 + k] == h[9..15][k];
      }
    }
    SpaceRunAll(h, 15, 16);
    assert h[16..] == [98];
  }

  /**
   * The leftmost "bearer" need not start the credential: in "bearer a\nbearer b"
   * the credential is "b".
   */
  lemma LaterBearerMatches()
    ensures BearerToken(TwoBearers()) == Some([98])
  {
    var h := TwoBearers();
    FirstBearerFails();
    SecondBearerMatches();
    NoBearerInside();
    assert NoMatchBetween(h, 0, 9);
    BearerTokenComplete(h, 9);
  }

  /** Between the two "bearer"s no position starts the word, so nothing matches there. */
  lemma NoBearerInside()
    ensures NoMatchBetween(TwoBearers(), 1, 9)
  {
    var h := TwoBearers();
    assert h[1..9] == [101, 97, 114, 101, 114, SPACE, 97, LF];
    forall j' | 1 <= j' < 9 ensures MatchAt(h, j').None? {
      assert h[j'] == h[1..9][j' - 1];
      NoMatchAtNonB(h, j');
    }
  }

  /** A position holding neither 'b' nor 'B' cannot start the pattern. */
  lemma NoMatchAtNonB(h: Bytes, j: nat)
    requires j < |h| && h[j] != 98 && h[j] != 66
    ensures MatchAt(h, j).None?
  {
    assert ToLower(h[j]) != BEARER[0];
  }

  /** A header without "bearer" (in any case) yields no token. */
  lemma {:induction false} NoBearerNoToken(h: Bytes, i: nat)
    requires forall j :: i <= j < |h| ==> !BearerWordAt(h, j)
    ensures MatchFrom(h, i) == None
    decreases |h| - i
  {
    if i < |h| {
      NoBearerNoToken(h, i + 1);
    }
  }

  /**
   * "Bearer", in any case, then whitespace, then a credential that has no
   * newline and does not itself start with whitespace: the credential is
   * extracted as it is.
   */
  lemma BearerTokenOf(word: Bytes, space: Bytes, t: Bytes)
    requires |word| == |BEARER| && forall k :: 0 <= k < |BEARER| ==> ToLower(word[k]) == BEARER[k]
    requires space != [] && forall k :: 0 <= k < |space| ==> IsSpace(space[k])
    requires LF !in t && (t == [] || !IsSpace(t[0]))
    ensures BearerToken(word + space + t) == Some(t)
  {
    var h := word + space + t;
    assert BearerWordAt(h, 0);
    SpaceRunAll(h, |BEARER|, |BEARER| + |space|);
    assert h[|BEARER| + |space|..] == t;
  }

  lemma {:induction false} SpaceRunAll(h: Bytes, j: nat, k: nat)
    requires j <= k <= |h|
    requires forall m :: j <= m < k ==> IsSpace(h[m])
    requires k == |h| || !IsSpace(h[k])
    ensures SpaceRunEnd(h, j) == k
    decreases k - j
  {
    if j < k {
      SpaceRunAll(h, j + 1, k);
    }
  }
}
