/**
 * The PHP values json_decode($s, true) produces, with the PHP semantics the
 * middleware and the routes apply to them: truthiness, `$v['key']` and
 * `isset`, the loose `<` against an integer, and the `(int)` cast.
 */
module PhpValues {

  import opened ByteStrings
  import opened PhpStrings

  /** A decoded JSON value; objects are associative arrays keyed by strings. */
  datatype Json =
    | JNull
    | JBool(b: bool)
    | JInt(i: int)
    | JStr(s: Bytes)
    | JList(items: seq<Json>)
    | JObject(members: map<Bytes, Json>)

  /** PHP truthiness: null, false, 0, "", "0" and the empty array are falsy. */
  predicate Truthy(v: Json)
  {
    match v
    case JNull => false
    case JBool(b) => b
    case JInt(i) => i != 0
    case JStr(s) => IsTruthy(s)
    case JList(items) => items != []
    case JObject(members) => members != map[]
  }

  /** `$v[$key]` for a non-numeric string key: null unless `v` is an array holding that key. */
  function Index(v: Json, key: Bytes): (r: Json)
    ensures r != JNull ==> v.JObject? && key in v.members
  {
    if v.JObject? && key in v.members then v.members[key] else JNull
  }

  /** `isset($v[$key])`. */
  predicate Isset(v: Json, key: Bytes)
  {
    Index(v, key) != JNull
  }

  /**
   * `$v < $now` for an integer `$now`, as PHP compares: integers by value,
   * a boolean against the integer's truthiness (false < true), an array is
   * never smaller than an integer. Strings are not compared (see README).
   */
  predicate LessThanInt(v: Json, now: int)
  {
    match v
    case JInt(i) => i < now
    case JBool(b) => !b && now != 0
    case _ => false
  }

  function SkipLeadingSpace(s: Bytes): (r: Bytes)
    ensures |r| <= |s| && r == s[|s| - |r|..]
    ensures r == [] || !IsSpace(r[0])
    decreases |s|
  {
    if s != [] && IsSpace(s[0]) then SkipLeadingSpace(s[1..]) else s
  }

  /** The longest prefix of decimal digits. */
  function LeadingDigits(s: Bytes): (r: Bytes)
    ensures |r| <= |s| && r == s[..|r|]
    ensures forall i :: 0 <= i < |r| ==> IsDigit(r[i])
    ensures |r| == |s| || !IsDigit(s[|r|])
    decreases |s|
  {
    if s != [] && IsDigit(s[0]) then [s[0]] + LeadingDigits(s[1..]) else []
  }

  /** The value of a string of decimal digits, most significant first. */
  function DigitsValue(ds: Bytes): nat
    requires forall i :: 0 <= i < |ds| ==> IsDigit(ds[i])
    decreases |ds|
  {
    if ds == [] then 0
    else
      var d := ds[|ds| - 1];
      assert IsDigit(d);
      DigitsValue(ds[..|ds| - 1]) * 10 + (d as int - DIGIT_ZERO as int)
  }

  /** `(int)$s`: optional leading whitespace, an optional sign, then the leading digits. */
  function StringToInt(s: Bytes): int
  {
    var t := SkipLeadingSpace(s);
    if t != [] && t[0] == DASH then -(DigitsValue(LeadingDigits(t[1..])) as int)
    else if t != [] && t[0] == PLUS then DigitsValue(LeadingDigits(t[1..]))
    else DigitsValue(LeadingDigits(t))
  }

  /** PHP's `(int)` cast. */
  function IntCast(v: Json): int
  {
    match v
    case JNull => 0
    case JBool(b) => if b then 1 else 0
    case JInt(i) => i
    case JStr(s) => StringToInt(s)
    case JList(items) => if items == [] then 0 else 1
    case JObject(members) => if members == map[] then 0 else 1
  }

  /** The decimal digits of a natural number, as PHP prints it. */
  function NatDigits(n: nat): (ds: Bytes)
    ensures ds != [] && forall i :: 0 <= i < |ds| ==> IsDigit(ds[i])
    decreases n
  {
    if n < 10 then [(DIGIT_ZERO as int + n) as byte]
    else NatDigits(n / 10) + [(DIGIT_ZERO as int + n % 10) as byte]
  }

  /** The decimal string of an integer, as PHP prints it. */
  function Decimal(n: int): Bytes
  {
    if n < 0 then [DASH] + NatDigits(-n) else NatDigits(n)
  }

  lemma {:induction false} DigitsValueNatDigits(n: nat)
    ensures DigitsValue(NatDigits(n)) == n
    decreases n
  {
    if n >= 10 {
      var ds := NatDigits(n);
      assert ds[..|ds| - 1] == NatDigits(n / 10);
      DigitsValueNatDigits(n / 10);
    }
  }

  lemma {:induction false} LeadingDigitsAll(ds: Bytes, rest: Bytes)
    requires forall i :: 0 <= i < |ds| ==> IsDigit(ds[i])
    requires rest == [] || !IsDigit(rest[0])
    ensures LeadingDigits(ds + rest) == ds
    decreases |ds|
  {
    if ds == [] {
      assert ds + rest == rest;
    } else {
      assert (ds + rest)[1..] == ds[1..] + rest;
      LeadingDigitsAll(ds[1..], rest);
    }
  }

  lemma NoLeadingSpace(s: Bytes)
    requires s == [] || !IsSpace(s[0])
    ensures SkipLeadingSpace(s) == s
  {
  }

  /** `(int)` reads back every integer from its decimal string. */
  lemma IntCastDecimal(n: int)
    ensures IntCast(JStr(Decimal(n))) == n
  {
    var m: nat := if n < 0 then -n else n;
    var ds := NatDigits(m);
    LeadingDigitsAll(ds, []);
    assert ds + [] == ds;
    DigitsValueNatDigits(m);
    NoLeadingSpace(Decimal(n));
    if n < 0 {
      assert ([DASH] + ds)[1..] == ds;
    }
  }

  lemma {:induction false} SkipSpacePrefix(space: Bytes, t: Bytes)
    requires forall i :: 0 <= i < |space| ==> IsSpace(space[i])
    requires t == [] || !IsSpace(t[0])
    ensures SkipLeadingSpace(space + t) == t
    decreases |space|
  {
    if space == [] {
      assert space + t == t;
      NoLeadingSpace(t);
    } else {
      assert (space + t)[1..] == space[1..] + t;
      SkipSpacePrefix(space[1..], t);
    }
  }

  /** Leading whitespace and trailing non-digits do not change `(int)`. */
  lemma IntCastPrefix(space: Bytes, n: nat, rest: Bytes)
    requires forall i :: 0 <= i < |space| ==> IsSpace(space[i])
    requires rest == [] || !IsDigit(rest[0])
    ensures IntCast(JStr(space + NatDigits(n) + rest)) == n
  {
    var ds := NatDigits(n);
    assert space + ds + rest == space + (ds + rest);
    SkipSpacePrefix(space, ds + rest);
    LeadingDigitsAll(ds, rest);
    DigitsValueNatDigits(n);
  }
}
