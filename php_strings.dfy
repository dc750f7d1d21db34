/**
 * The PHP string built-ins the middleware relies on: strtr, rtrim, str_pad,
 * explode and implode, and PHP's truthiness of a string.
 */
module PhpStrings {

  import opened ByteStrings

  /** A PHP string is falsy exactly when it is "" or "0". */
  predicate IsTruthy(s: Bytes)
  {
    s != [] && s != [DIGIT_ZERO]
  }

  /**
   * strtr($s, $from, $to) on one byte: only the first min(|from|, |to|)
   * bytes of `from` are used, and when a byte occurs in `from` more than
   * once the last occurrence decides.
   */
  function TrByte(c: byte, from: Bytes, to: Bytes): (r: byte)
    ensures r == c || r in to
    decreases |from|
  {
    var n := if |from| <= |to| then |from| else |to|;
    if n == 0 then c
    else if from[n - 1] == c then to[n - 1]
    else TrByte(c, from[..n - 1], to[..n - 1])
  }

  /** strtr($s, $from, $to): a byte-for-byte translation. */
  function StrTr(s: Bytes, from: Bytes, to: Bytes): (r: Bytes)
    ensures |r| == |s|
    ensures forall i :: 0 <= i < |s| ==> r[i] == TrByte(s[i], from, to)
  {
    seq(|s|, i requires 0 <= i < |s| => TrByte(s[i], from, to))
  }

  lemma StrTrAppend(a: Bytes, b: Bytes, from: Bytes, to: Bytes)
    ensures StrTr(a + b, from, to) == StrTr(a, from, to) + StrTr(b, from, to)
  {
  }

  /** rtrim($s, $c) for a single-byte character list: drops every trailing `c`. */
  function RTrim(s: Bytes, c: byte): (r: Bytes)
    ensures |r| <= |s| && r == s[..|r|]
    ensures r == [] || r[|r| - 1] != c
    ensures forall i :: |r| <= i < |s| ==> s[i] == c
    decreases |s|
  {
    if |s| > 0 && s[|s| - 1] == c then RTrim(s[..|s| - 1], c) else s
  }

  /** rtrim removes a run of `c` appended to a string that does not end in `c`. */
  lemma {:induction false} RTrimRun(s: Bytes, run: Bytes, c: byte)
    requires s == [] || s[|s| - 1] != c
    requires forall i :: 0 <= i < |run| ==> run[i] == c
    ensures RTrim(s + run, c) == s
    decreases |run|
  {
    if run != [] {
      assert (s + run)[..|s + run| - 1] == s + run[..|run| - 1];
      RTrimRun(s, run[..|run| - 1], c);
    } else {
      assert s + run == s;
    }
  }

  /** A run of `n` copies of `c`. */
  function Repeat(c: byte, n: nat): (r: Bytes)
    ensures |r| == n && forall i :: 0 <= i < n ==> r[i] == c
  {
    seq(n, i => c)
  }

  /**
   * str_pad($s, $length, $c, STR_PAD_RIGHT) with a one-byte pad string:
   * a target length that is not larger than |s| leaves `s` as it is.
   */
  function StrPad(s: Bytes, length: int, c: byte): (r: Bytes)
    ensures |r| == if length <= |s| then |s| else length
    ensures r[..|s|] == s
    ensures forall i :: |s| <= i < |r| ==> r[i] == c
  {
    if length <= |s| then s else s + Repeat(c, length - |s|)
  }

  /** explode($sep, $s) for a one-byte separator. */
  function Explode(sep: byte, s: Bytes): (parts: seq<Bytes>)
    ensures |parts| >= 1
    decreases |s|
  {
    if s == [] then [[]]
    else
      var rest := Explode(sep, s[1..]);
      if s[0] == sep then [[]] + rest
      else [[s[0]] + rest[0]] + rest[1..]
  }

  /** implode($sep, $parts), the inverse of explode. */
  function Implode(sep: byte, parts: seq<Bytes>): (s: Bytes)
    decreases |parts|
  {
    if parts == [] then []
    else if |parts| == 1 then parts[0]
    else parts[0] + [sep] + Implode(sep, parts[1..])
  }

  /** explode yields one more part than there are separators in the input. */
  lemma {:induction false} ExplodeCount(sep: byte, s: Bytes)
    ensures |Explode(sep, s)| == multiset(s)[sep] + 1
    decreases |s|
  {
    if s != [] {
      ExplodeCount(sep, s[1..]);
      assert s == [s[0]] + s[1..];
      assert multiset(s) == multiset([s[0]]) + multiset(s[1..]);
    }
  }

  /** No part that explode returns contains the separator. */
  lemma {:induction false} ExplodePartsFree(sep: byte, s: Bytes)
    ensures forall k :: 0 <= k < |Explode(sep, s)| ==> sep !in Explode(sep, s)[k]
    decreases |s|
  {
    if s != [] {
      ExplodePartsFree(sep, s[1..]);
    }
  }

  /** Joining the parts with the separator gives back the input. */
  lemma {:induction false} ImplodeExplode(sep: byte, s: Bytes)
    ensures Implode(sep, Explode(sep, s)) == s
    decreases |s|
  {
    if s != [] {
      var rest := Explode(sep, s[1..]);
      ImplodeExplode(sep, s[1..]);
      if s[0] == sep {
        assert ([[]] + rest)[1..] == rest;
      } else {
        var parts := [[s[0]] + rest[0]] + rest[1..];
        if |rest| == 1 {
          assert Implode(sep, rest) == rest[0];
        } else {
          assert parts[1..] == rest[1..];
          assert Implode(sep, rest) == rest[0] + [sep] + Implode(sep, rest[1..]);
        }
      }
    }
  }

  /** A separator-free prefix followed by the separator becomes one part of its own. */
  lemma {:induction false} ExplodeLeading(sep: byte, a: Bytes, rest: Bytes)
    requires sep !in a
    ensures Explode(sep, a + [sep] + rest) == [a] + Explode(sep, rest)
    decreases |a|
  {
    if a == [] {
      assert a + [sep] + rest == [sep] + rest;
      assert ([sep] + rest)[1..] == rest;
    } else {
      var s := a + [sep] + rest;
      assert s[1..] == a[1..] + [sep] + rest;
      ExplodeLeading(sep, a[1..], rest);
      assert [a[0]] + a[1..] == a;
    }
  }

  /** A separator-free string is a single part. */
  lemma {:induction false} ExplodeSingle(sep: byte, a: Bytes)
    requires sep !in a
    ensures Explode(sep, a) == [a]
    decreases |a|
  {
    if a != [] {
      ExplodeSingle(sep, a[1..]);
      assert [a[0]] + a[1..] == a;
    }
  }

  /** explode undoes implode when no part contains the separator. */
  lemma {:induction false} ExplodeImplode(sep: byte, parts: seq<Bytes>)
    requires |parts| >= 1
    requires forall k :: 0 <= k < |parts| ==> sep !in parts[k]
    ensures Explode(sep, Implode(sep, parts)) == parts
    decreases |parts|
  {
    if |parts| == 1 {
      ExplodeSingle(sep, parts[0]);
    } else {
      ExplodeImplode(sep, parts[1..]);
      ExplodeLeading(sep, parts[0], Implode(sep, parts[1..]));
      assert [parts[0]] + parts[1..] == parts;
    }
  }

  /** A string with exactly two separators and its three parts, in both directions. */
  lemma ExplodeThree(sep: byte, a: Bytes, b: Bytes, c: Bytes)
    requires sep !in a && sep !in b && sep !in c
    ensures Explode(sep, a + [sep] + b + [sep] + c) == [a, b, c]
  {
    var parts := [a, b, c];
    assert parts[1..] == [b, c] && [b, c][1..] == [c];
    assert Implode(sep, [c]) == c;
    assert Implode(sep, [b, c]) == b + [sep] + c;
    assert Implode(sep, parts) == a + [sep] + (b + [sep] + c);
    assert a + [sep] + b + [sep] + c == a + [sep] + (b + [sep] + c);
    ExplodeImplode(sep, parts);
  }

  lemma ImplodeThree(sep: byte, s: Bytes)
    requires |Explode(sep, s)| == 3
    ensures var parts := Explode(sep, s);
      s == parts[0] + [sep] + parts[1] + [sep] + parts[2]
  {
    var parts := Explode(sep, s);
    ImplodeExplode(sep, s);
    assert parts == [parts[0], parts[1], parts[2]];
    assert parts[1..] == [parts[1], parts[2]] && [parts[1], parts[2]][1..] == [parts[2]];
    assert Implode(sep, [parts[2]]) == parts[2];
    assert Implode(sep, [parts[1], parts[2]]) == parts[1] + [sep] + parts[2];
    assert Implode(sep, parts) == parts[0] + [sep] + (parts[1] + [sep] + parts[2]);
  }
}
