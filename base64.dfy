/**
 * PHP's base64_encode (RFC 4648 section 4, padded) and its default,
 * non-strict base64_decode: bytes outside the alphabet ('=' included) are
 * skipped, and leftover bits after the last complete byte are dropped.
 */
module Base64 {

  import opened Wrappers
  import opened ByteStrings

  /** A six-bit group, the value carried by one base64 character. */
  type Sextet = x: int | 0 <= x < 64

  /** The character for a sextet in the standard alphabet A-Z a-z 0-9 + /. */
  function EncodeSextet(v: Sextet): (c: byte)
  {
    if v < 26 then (65 + v) as byte
    else if v < 52 then (97 + v - 26) as byte
    else if v < 62 then (48 + v - 52) as byte
    else if v == 62 then PLUS
    else SLASH
  }

  /** The sextet a character of the standard alphabet stands for. */
  function DecodeChar(c: byte): (r: Option<Sextet>)
    ensures r.Some? ==> EncodeSextet(r.value) == c
  {
    if 65 <= c <= 90 then Some(c as int - 65)
    else if 97 <= c <= 122 then Some(c as int - 97 + 26)
    else if 48 <= c <= 57 then Some(c as int - 48 + 52)
    else if c == PLUS then Some(62)
    else if c == SLASH then Some(63)
    else None
  }

  lemma DecodeEncodeChar(v: Sextet)
    ensures DecodeChar(EncodeSextet(v)) == Some(v)
  {
  }

  /** The sextets of a byte string: three bytes give four sextets, a final one or two bytes give two or three. */
  function Quantums(b: Bytes): seq<Sextet>
    decreases |b|
  {
    if |b| == 0 then []
    else if |b| == 1 then [b[0] as int / 4, (b[0] as int % 4) * 16]
    else if |b| == 2 then
      [b[0] as int / 4, (b[0] as int % 4) * 16 + b[1] as int / 16, (b[1] as int % 16) * 4]
    else
      [b[0] as int / 4, (b[0] as int % 4) * 16 + b[1] as int / 16,
       (b[1] as int % 16) * 4 + b[2] as int / 64, b[2] as int % 64] + Quantums(b[3..])
  }

  /** The '=' padding base64_encode appends. */
  function Padding(n: nat): (p: Bytes)
  {
    if n % 3 == 1 then [EQUALS, EQUALS] else if n % 3 == 2 then [EQUALS] else []
  }

  function Chars(v: seq<Sextet>): (s: Bytes)
    ensures |s| == |v| && forall i :: 0 <= i < |v| ==> s[i] == EncodeSextet(v[i])
  {
    seq(|v|, i requires 0 <= i < |v| => EncodeSextet(v[i]))
  }

  /** base64_encode($data). */
  function Base64Encode(b: Bytes): (s: Bytes)
  {
    Chars(Quantums(b)) + Padding(|b|)
  }

  /** The sextets of the alphabet characters of `s`, in order; every other byte is skipped. */
  function Sextets(s: Bytes): seq<Sextet>
    decreases |s|
  {
    if s == [] then []
    else
      match DecodeChar(s[0])
      case Some(v) => [v] + Sextets(s[1..])
      case None => Sextets(s[1..])
  }

  /** Packs sextets into bytes, eight bits at a time; at most six leftover bits are dropped. */
  function Regroup(v: seq<Sextet>): Bytes
    decreases |v|
  {
    if |v| < 2 then []
    else
      var b0 := (v[0] as int * 4 + v[1] as int / 16) as byte;
      if |v| == 2 then [b0]
      else
        var b1 := ((v[1] as int % 16) * 16 + v[2] as int / 4) as byte;
        if |v| == 3 then [b0, b1]
        else [b0, b1, ((v[2] as int % 4) * 64 + v[3] as int) as byte] + Regroup(v[4..])
  }

  /** base64_decode($data) in its default, non-strict mode. */
  function Base64Decode(s: Bytes): (b: Bytes)
  {
    Regroup(Sextets(s))
  }

  /** base64_encode's output has 4 characters for every started group of three bytes. */
  lemma EncodedLength(b: Bytes)
    ensures |Quantums(b)| == (4 * |b| + 2) / 3
    ensures |Base64Encode(b)| == 4 * ((|b| + 2) / 3)
  {
    var n := |b|;
    QuantumsLength(b);
    assert |Base64Encode(b)| == (4 * n + 2) / 3 + |Padding(n)|;
    var k := n / 3;
    assert n == 3 * k + n % 3;
    if n % 3 == 0 {
      assert (4 * n + 2) / 3 == 4 * k && (n + 2) / 3 == k;
    } else if n % 3 == 1 {
      assert (4 * n + 2) / 3 == 4 * k + 2 && (n + 2) / 3 == k + 1;
    } else {
      assert (4 * n + 2) / 3 == 4 * k + 3 && (n + 2) / 3 == k + 1;
    }
  }

  lemma {:induction false} QuantumsLength(b: Bytes)
    ensures |Quantums(b)| == (4 * |b| + 2) / 3
    decreases |b|
  {
    if |b| >= 3 {
      QuantumsLength(b[3..]);
      assert 4 * |b| + 2 == (4 * |b[3..]| + 2) + 3 * 4;
    }
  }

  lemma {:induction false} SextetsAppend(a: Bytes, b: Bytes)
    ensures Sextets(a + b) == Sextets(a) + Sextets(b)
    decreases |a|
  {
    if a != [] {
      assert (a + b)[1..] == a[1..] + b;
      SextetsAppend(a[1..], b);
    } else {
      assert a + b == b;
    }
  }

  /** Decoding the characters of a sextet sequence recovers it. */
  lemma {:induction false} SextetsOfChars(v: seq<Sextet>)
    ensures Sextets(Chars(v)) == v
    decreases |v|
  {
    if v != [] {
      assert Chars(v)[1..] == Chars(v[1..]);
      DecodeEncodeChar(v[0]);
      SextetsOfChars(v[1..]);
    }
  }

  /** Bytes outside the alphabet contribute nothing. */
  lemma {:induction false} SextetsSkipped(s: Bytes)
    requires forall i :: 0 <= i < |s| ==> DecodeChar(s[i]).None?
    ensures Sextets(s) == []
    decreases |s|
  {
    if s != [] {
      SextetsSkipped(s[1..]);
    }
  }

  lemma {:induction false} RegroupQuantums(b: Bytes)
    ensures Regroup(Quantums(b)) == b
    decreases |b|
  {
    if |b| == 1 {
      assert Regroup(Quantums(b)) == [b[0]];
    } else if |b| == 2 {
      assert Regroup(Quantums(b)) == [b[0], b[1]];
    } else if |b| >= 3 {
      var q := Quantums(b);
      var head := [b[0] as int / 4, (b[0] as int % 4) * 16 + b[1] as int / 16,
                   (b[1] as int % 16) * 4 + b[2] as int / 64, b[2] as int % 64];
      assert q == head + Quantums(b[3..]);
      assert |q| >= 4;
      assert q[4..] == Quantums(b[3..]);
      RegroupQuantums(b[3..]);
      assert Regroup(q) == [b[0], b[1], b[2]] + b[3..];
      assert [b[0], b[1], b[2]] + b[3..] == b;
    }
  }

  /** Non-strict base64_decode undoes base64_encode. */
  lemma DecodeEncode(b: Bytes)
    ensures Base64Decode(Base64Encode(b)) == b
  {
    var q := Quantums(b);
    SextetsAppend(Chars(q), Padding(|b|));
    SextetsOfChars(q);
    SextetsSkipped(Padding(|b|));
    assert Sextets(Base64Encode(b)) == q + [] == q;
    RegroupQuantums(b);
  }
}
