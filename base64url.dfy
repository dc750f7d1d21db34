/**
 * base64url_encode and base64url_decode (api/middlewares/AuthMiddleware.php):
 * the URL-safe alphabet of RFC 4648 section 5 without padding, obtained by
 * post-processing PHP's base64_encode and pre-processing its base64_decode.
 */
module Base64Url {

  import opened ByteStrings
  import opened PhpStrings
  import opened Base64

  const STD_SYMBOLS: Bytes := [PLUS, SLASH]
  const URL_SYMBOLS: Bytes := [DASH, UNDERSCORE]

  /** The alphabet of RFC 4648 section 5: A-Z a-z 0-9 - _. */
  predicate IsUrlChar(c: byte)
  {
    65 <= c <= 90 || 97 <= c <= 122 || 48 <= c <= 57 || c == DASH || c == UNDERSCORE
  }

  /** base64url_encode: strtr('+/', '-_') then rtrim('='). */
  function Base64UrlEncode(data: Bytes): Bytes
  {
    RTrim(StrTr(Base64Encode(data), STD_SYMBOLS, URL_SYMBOLS), EQUALS)
  }

  /**
   * The padding step of base64url_decode as written: the str_pad target is
   * strlen($data) % 4, which never exceeds the length, so no '=' is added.
   */
  function PaddedAsWritten(data: Bytes): Bytes
  {
    StrPad(StrTr(data, URL_SYMBOLS, STD_SYMBOLS), |data| % 4, EQUALS)
  }

  /** The length rounded up to a whole number of four-character quanta. */
  function QuantumLength(n: nat): (m: nat)
    ensures m % 4 == 0 && n <= m < n + 4
  {
    n + (4 - n % 4) % 4
  }

  /** The padding step evidently intended: '=' up to a multiple of four. */
  function PaddedToQuantum(data: Bytes): Bytes
  {
    StrPad(StrTr(data, URL_SYMBOLS, STD_SYMBOLS), QuantumLength(|data|), EQUALS)
  }

  /** base64url_decode as written. */
  function Base64UrlDecodeAsWritten(data: Bytes): Bytes
  {
    Base64Decode(PaddedAsWritten(data))
  }

  /** base64url_decode with the intended padding; this is the decoder the rest of the model uses. */
  function Base64UrlDecode(data: Bytes): Bytes
  {
    Base64Decode(PaddedToQuantum(data))
  }

  lemma ToUrlByte(c: byte)
    ensures TrByte(c, STD_SYMBOLS, URL_SYMBOLS) ==
            if c == PLUS then DASH else if c == SLASH then UNDERSCORE else c
  {
    assert STD_SYMBOLS[..1] == [PLUS] && URL_SYMBOLS[..1] == [DASH];
    assert [PLUS][..0] == [] && [DASH][..0] == [];
  }

  lemma FromUrlByte(c: byte)
    ensures TrByte(c, URL_SYMBOLS, STD_SYMBOLS) ==
            if c == DASH then PLUS else if c == UNDERSCORE then SLASH else c
  {
    assert URL_SYMBOLS[..1] == [DASH] && STD_SYMBOLS[..1] == [PLUS];
    assert [PLUS][..0] == [] && [DASH][..0] == [];
  }

  /** One sextet's character after the '+/' to '-_' translation. */
  lemma UrlSextet(v: Sextet)
    ensures IsUrlChar(TrByte(EncodeSextet(v), STD_SYMBOLS, URL_SYMBOLS))
    ensures TrByte(TrByte(EncodeSextet(v), STD_SYMBOLS, URL_SYMBOLS), URL_SYMBOLS, STD_SYMBOLS) == EncodeSextet(v)
  {
    ToUrlByte(EncodeSextet(v));
    FromUrlByte(TrByte(EncodeSextet(v), STD_SYMBOLS, URL_SYMBOLS));
  }

  /** The encoding is the translated sextet characters: the padding is gone. */
  lemma UrlEncodeChars(data: Bytes)
    ensures Base64UrlEncode(data) == StrTr(Chars(Quantums(data)), STD_SYMBOLS, URL_SYMBOLS)
  {
    var chars := Chars(Quantums(data));
    var pad := Padding(|data|);
    StrTrAppend(chars, pad, STD_SYMBOLS, URL_SYMBOLS);
    var t := StrTr(chars, STD_SYMBOLS, URL_SYMBOLS);
    var tp := StrTr(pad, STD_SYMBOLS, URL_SYMBOLS);
    forall i | 0 <= i < |tp| ensures tp[i] == EQUALS {
      ToUrlByte(pad[i]);
    }
    if t != [] {
      UrlSextet(Quantums(data)[|t| - 1]);
    }
    RTrimRun(t, tp, EQUALS);
  }

  /** base64url_encode emits only the URL-safe alphabet: never '=', '+', '/' or '.'. */
  lemma UrlAlphabet(data: Bytes)
    ensures forall i :: 0 <= i < |Base64UrlEncode(data)| ==> IsUrlChar(Base64UrlEncode(data)[i])
    ensures EQUALS !in Base64UrlEncode(data) && PLUS !in Base64UrlEncode(data)
    ensures SLASH !in Base64UrlEncode(data) && DOT !in Base64UrlEncode(data)
  {
    UrlEncodeChars(data);
    var q := Quantums(data);
    forall i | 0 <= i < |q| ensures IsUrlChar(Base64UrlEncode(data)[i]) {
      UrlSextet(q[i]);
    }
  }

  /** The unpadded length: ceil(4n/3) characters for n bytes. */
  lemma UrlEncodedLength(data: Bytes)
    ensures |Base64UrlEncode(data)| == (4 * |data| + 2) / 3
  {
    UrlEncodeChars(data);
    EncodedLength(data);
  }

  /** Translating back to the standard alphabet restores base64_encode's characters. */
  lemma UrlToStandard(data: Bytes)
    ensures StrTr(Base64UrlEncode(data), URL_SYMBOLS, STD_SYMBOLS) == Chars(Quantums(data))
  {
    UrlEncodeChars(data);
    var q := Quantums(data);
    forall i | 0 <= i < |q|
      ensures StrTr(Base64UrlEncode(data), URL_SYMBOLS, STD_SYMBOLS)[i] == Chars(q)[i]
    {
      UrlSextet(q[i]);
    }
  }

  /** '=' padding, however much, is skipped by the non-strict decoder. */
  lemma DecodeIgnoresPadding(s: Bytes, length: int)
    ensures Base64Decode(StrPad(s, length, EQUALS)) == Base64Decode(s)
  {
    var p := StrPad(s, length, EQUALS);
    if length > |s| {
      var run := Repeat(EQUALS, length - |s|);
      assert p == s + run;
      SextetsAppend(s, run);
      SextetsSkipped(run);
      assert Sextets(s) + [] == Sextets(s);
    }
  }

  /** base64url_decode undoes base64url_encode. */
  lemma UrlRoundTrip(data: Bytes)
    ensures Base64UrlDecode(Base64UrlEncode(data)) == data
  {
    var u := Base64UrlEncode(data);
    UrlToStandard(data);
    DecodeIgnoresPadding(StrTr(u, URL_SYMBOLS, STD_SYMBOLS), QuantumLength(|u|));
    assert PaddedToQuantum(u) == StrPad(StrTr(u, URL_SYMBOLS, STD_SYMBOLS), QuantumLength(|u|), EQUALS);
    SextetsOfChars(Quantums(data));
    RegroupQuantums(data);
  }

  /** As written, the padding step never changes its argument. */
  lemma AsWrittenPadIsNoOp(data: Bytes)
    ensures PaddedAsWritten(data) == StrTr(data, URL_SYMBOLS, STD_SYMBOLS)
  {
  }

  /** "QQ" (the encoding of the byte 'A') stays two characters long instead of becoming "QQ==". */
  lemma AsWrittenPadLeavesPartialQuantum()
    ensures PaddedAsWritten([81, 81]) == [81, 81]
    ensures |PaddedAsWritten([81, 81])| % 4 != 0
    ensures PaddedToQuantum([81, 81]) == [81, 81, EQUALS, EQUALS]
  {
    FromUrlByte(81);
    assert StrTr([81, 81], URL_SYMBOLS, STD_SYMBOLS) == [81, 81];
  }

  /** The corrected padding fills the last quantum with '=' and keeps the input in front. */
  lemma CorrectedPadFillsQuantum(data: Bytes)
    ensures var t := StrTr(data, URL_SYMBOLS, STD_SYMBOLS);
      var p := PaddedToQuantum(data);
      |p| % 4 == 0 && |p| < |t| + 4 && p[..|t|] == t && forall i :: |t| <= i < |p| ==> p[i] == EQUALS
  {
  }

  /** The missing padding is harmless: both versions decode every input alike. */
  lemma AsWrittenDecodesAlike(data: Bytes)
    ensures Base64UrlDecodeAsWritten(data) == Base64UrlDecode(data)
  {
    var t := StrTr(data, URL_SYMBOLS, STD_SYMBOLS);
    DecodeIgnoresPadding(t, |data| % 4);
    DecodeIgnoresPadding(t, QuantumLength(|data|));
  }
}
