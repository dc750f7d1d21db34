/**
 * PHP strings are byte strings. This module fixes the byte type and the
 * handful of ASCII constants the middleware and the routes use.
 */
module ByteStrings {

  newtype byte = x: int | 0 <= x < 256

  type Bytes = seq<byte>

  const LF: byte := 10
  const SPACE: byte := 32
  const PLUS: byte := 43
  const DASH: byte := 45
  const DOT: byte := 46
  const SLASH: byte := 47
  const DIGIT_ZERO: byte := 48
  const EQUALS: byte := 61
  const UNDERSCORE: byte := 95

  /** The bytes of an ASCII string literal. */
  function Ascii(s: string): (b: Bytes)
    requires forall i :: 0 <= i < |s| ==> s[i] as int < 128
    ensures |b| == |s|
    ensures forall i :: 0 <= i < |s| ==> b[i] as int == s[i] as int
  {
    seq(|s|, i requires 0 <= i < |s| => s[i] as int as byte)
  }

  /** ASCII upper case letters are mapped to lower case, every other byte is kept. */
  function ToLower(c: byte): (r: byte)
  {
    if 65 <= c <= 90 then c + 32 else c
  }

  predicate IsDigit(c: byte)
  {
    48 <= c <= 57
  }

  /**
   * ASCII whitespace: space, \t, \n, \v, \f, \r. This is both the PCRE
   * class `\s` and the whitespace PHP skips before a numeric string.
   */
  predicate IsSpace(c: byte)
  {
    c == SPACE || 9 <= c <= 13
  }
}
