/** The `\u` escape as evidently intended, beside the code as written: hexadecimal
    letters worth 10 to 15, and a surrogate pair written as the four UTF-8 bytes of
    its supplementary code point (section 7 of RFC 8259, section 3 of RFC 3629). */
module IntendedEscapes {
  import opened Common
  import opened JsonString

  /** The value of a hexadecimal digit: `A` to `F` and `a` to `f` are worth 10 to 15. */
  function HexValue(c: char): (d: Option<int>)
    ensures d.Some? <==> IsHexDigit(c)
    ensures d.Some? ==> 0 <= d.value < 16
  {
    if '0' <= c <= '9' then Some(c as int - '0' as int)
    else if 'A' <= c <= 'F' then Some(c as int - 'A' as int + 10)
    else if 'a' <= c <= 'f' then Some(c as int - 'a' as int + 10)
    else None
  }

  /** The upper-case digit for a value below 16. */
  function HexChar(d: int): (c: char)
    requires 0 <= d < 16
    ensures IsHexDigit(c) && HexValue(c) == Some(d)
  {
    if d < 10 then ('0' as int + d) as char else ('A' as int + d - 10) as char
  }

  lemma HexValueIsDigitMap()
    ensures IsDigitMap(HexValue)
  {
  }

  /** The four digits of a 16-bit code unit, most significant first. */
  function Hex4(v: int): (s: string)
    requires 0 <= v < 0x1_0000
    ensures |s| == 4
  {
    [HexChar(v / 0x1000), HexChar(v / 0x100 % 0x10), HexChar(v / 0x10 % 0x10), HexChar(v % 0x10)]
  }

  /** A 16-bit value is its four hexadecimal digits, weighted. */
  lemma HexSplit(v: int)
    requires 0 <= v < 0x1_0000
    ensures v / 0x1000 < 0x10
    ensures ((v / 0x1000 * 0x10 + v / 0x100 % 0x10) * 0x10 + v / 0x10 % 0x10) * 0x10 + v % 0x10 == v
  {
    var a, b, c, d := v / 0x1000, v / 0x100 % 0x10, v / 0x10 % 0x10, v % 0x10;
    assert v / 0x100 == a * 0x10 + b;
    assert v / 0x10 == (a * 0x10 + b) * 0x10 + c;
  }

  /** With the intended digit values, reading the four digits a code unit prints as
      gives the code unit back. */
  lemma HexRoundTrip(v: int)
    requires 0 <= v < 0x1_0000
    ensures Parse4HexadecimalDigits(HexValue, "u" + Hex4(v), 0) == Some((v, 4))
  {
    var t := "u" + Hex4(v);
    HexSplit(v);
    assert t[1] == HexChar(v / 0x1000) && t[2] == HexChar(v / 0x100 % 0x10);
    assert t[3] == HexChar(v / 0x10 % 0x10) && t[4] == HexChar(v % 0x10);
  }

  /** As written, a letter digit counts from 0, so the escape `\u004A` (the letter
      `J`) is read as 0x0040 and decodes to `@`. */
  lemma AsWrittenMisreadsLetter()
    ensures Parse4HexadecimalDigits(HexDigitValue, "u004A", 0) == Some((0x40, 4))
    ensures UnicodeEscape("u004A", 0) == Some(("@", 4))
  {
    var t := "u004A";
    HexDigitValueIsDigitMap();
    assert t[1] == '0' && t[2] == '0' && t[3] == '4' && t[4] == 'A';
    assert EncodeUtf8(0x40) == "@";
  }

  /** With the intended digit values the same escape reads as 0x004A. */
  lemma IntendedReadsLetter()
    ensures Parse4HexadecimalDigits(HexValue, "u004A", 0) == Some((0x4A, 4))
  {
    HexRoundTrip(0x4A);
    assert Hex4(0x4A) == "004A";
  }

  /** The code a UTF-8 sequence of one to four bytes carries in its payload bits. */
  function Utf8CodePoint(bytes: string): int {
    if |bytes| == 4 then
      (bytes[0] as int % 0x08) * 0x4_0000 + (bytes[1] as int % 0x40) * 0x1000
      + (bytes[2] as int % 0x40) * 0x40 + bytes[3] as int % 0x40
    else Utf8Payload(bytes)
  }

  lemma FourByteSplit(cp: int)
    requires 0x1_0000 <= cp <= 0x10_FFFF
    ensures cp / 0x4_0000 < 0x08
    ensures (0xF0 + cp / 0x4_0000) % 0x08 == cp / 0x4_0000
    ensures (0x80 + cp / 0x1000 % 0x40) % 0x40 == cp / 0x1000 % 0x40
    ensures (0x80 + cp / 0x40 % 0x40) % 0x40 == cp / 0x40 % 0x40
    ensures (0x80 + cp % 0x40) % 0x40 == cp % 0x40
    ensures (cp / 0x4_0000) * 0x4_0000 + (cp / 0x1000 % 0x40) * 0x1000
      + (cp / 0x40 % 0x40) * 0x40 + cp % 0x40 == cp
  {
    var a, b, c, d := cp / 0x4_0000, cp / 0x1000 % 0x40, cp / 0x40 % 0x40, cp % 0x40;
    assert cp / 0x1000 == a * 0x40 + b;
    assert cp / 0x40 == (a * 0x40 + b) * 0x40 + c;
  }

  /** UTF-8 for every code point: the source's one to three bytes below 0x10000, and
      four bytes, `11110xxx` then three continuation bytes, above. */
  function EncodeUtf8Full(cp: int): (r: string)
    requires 0 <= cp <= 0x10_FFFF
    ensures cp < 0x1_0000 ==> r == EncodeUtf8(cp)
    ensures 0x1_0000 <= cp ==>
      |r| == 4 && 0xF0 <= r[0] as int < 0xF8
      && IsContinuation(r[1]) && IsContinuation(r[2]) && IsContinuation(r[3])
    ensures Utf8CodePoint(r) == cp
  {
    if cp < 0x1_0000 then EncodeUtf8(cp)
    else
      FourByteSplit(cp);
      [(0xF0 + cp / 0x4_0000) as char, (0x80 + cp / 0x1000 % 0x40) as char,
       (0x80 + cp / 0x40 % 0x40) as char, (0x80 + cp % 0x40) as char]
  }

  /** The combined code point of a pair is stored in 16 bits. With the source's own
      letter values this store is never reached: `\uD83D` reads as 0x3833, no surrogate
      at all. Once the letter values are corrected it is: the pair `\uD83D\uDE00`
      (U+1F600) keeps only 0xF600 and is written as three bytes instead of four. */
  lemma AsWrittenTruncatesPair()
    ensures Parse4HexadecimalDigits(HexDigitValue, "uD83D\\uDE00", 0) == Some((0x3833, 4))
    ensures SurrogatePairCodePoint(0xD83D, 0xDE00) == 0x1_F600
    ensures CombineSurrogates(0xD83D, 0xDE00) == 0xF600
    ensures ParseCodePoint(HexValue, "uD83D\\uDE00", 0) == Some((EncodeUtf8(0xF600), 10))
    ensures |EncodeUtf8(0xF600)| == 3 && |EncodeUtf8Full(0x1_F600)| == 4
  {
    var t := "uD83D\\uDE00";
    HexDigitValueIsDigitMap();
    assert t[1] == 'D' && t[2] == '8' && t[3] == '3' && t[4] == 'D';
    PairDigits();
  }

  /** The digits of the pair `\uD83D\uDE00` under the intended values. */
  lemma PairDigits()
    ensures var t := "uD83D\\uDE00";
      && |t| == 11 && t[5] == '\\' && t[6] == 'u'
      && Parse4HexadecimalDigits(HexValue, t, 0) == Some((0xD83D, 4))
      && Parse4HexadecimalDigits(HexValue, t, 6) == Some((0xDE00, 10))
  {
    var t := "uD83D\\uDE00";
    HexValueIsDigitMap();
    assert t[1] == 'D' && t[2] == '8' && t[3] == '3' && t[4] == 'D';
    assert t[5] == '\\' && t[6] == 'u';
    assert t[7] == 'D' && t[8] == 'E' && t[9] == '0' && t[10] == '0';
  }

  /** `ParseCodePoint` as evidently intended: hexadecimal letters worth 10 to 15, and a
      surrogate pair written as the UTF-8 of the full code point it stands for. It
      accepts and rejects exactly what the code as written accepts and rejects under
      the same digit values. */
  function ParseCodePointIntended(t: string, cur: nat): (r: Option<(string, nat)>)
    requires cur <= |t|
    ensures r.Some? <==> ParseCodePoint(HexValue, t, cur).Some?
    ensures r.Some? ==> r.value.1 == ParseCodePoint(HexValue, t, cur).value.1
    ensures r.Some? ==>
      var code := Parse4HexadecimalDigits(HexValue, t, cur).value.0;
      var q := Parse4HexadecimalDigits(HexValue, t, cur).value.1;
      && (!IsHighSurrogate(code) ==> r.value.0 == EncodeUtf8(code) && Utf8CodePoint(r.value.0) == code)
      && (IsHighSurrogate(code) ==>
            var low := Parse4HexadecimalDigits(HexValue, t, q + 2).value.0;
            |r.value.0| == 4 && Utf8CodePoint(r.value.0) == SurrogatePairCodePoint(code, low))
  {
    HexValueIsDigitMap();
    match Parse4HexadecimalDigits(HexValue, t, cur)
    case None => None
    case Some((code, q)) =>
      if IsHighSurrogate(code) then
        if q + 2 < |t| && t[q + 1] == '\\' && t[q + 2] == 'u' then
          match Parse4HexadecimalDigits(HexValue, t, q + 2)
          case None => None
          case Some((low, q3)) =>
            if IsLowSurrogate(low) then Some((EncodeUtf8Full(SurrogatePairCodePoint(code, low)), q3))
            else None
        else None
      else if IsLowSurrogate(code) then None
      else Some((EncodeUtf8(code), q))
  }

  /** With the corrections, the pair `\uD83D\uDE00` decodes to the four bytes of
      U+1F600. */
  lemma IntendedKeepsPair()
    ensures ParseCodePointIntended("uD83D\\uDE00", 0) == Some((EncodeUtf8Full(0x1_F600), 10))
  {
    PairDigits();
    assert SurrogatePairCodePoint(0xD83D, 0xDE00) == 0x1_F600;
  }
}
