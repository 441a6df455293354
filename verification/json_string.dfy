/** JSON string literals: reading one (escapes, `\u` code units, surrogate pairs and
    their UTF-8 bytes) and writing one (`SerializeString`). */
module JsonString {
  import opened Common
  import opened InputStream

  const Backspace: char := '\U{8}'
  const Tab: char := '\t'
  const LineFeed: char := '\n'
  const FormFeed: char := '\U{c}'
  const CarriageReturn: char := '\r'

  /** The characters a string literal may not hold raw: 0x00 through 0x1F, and 0x7F.
      (In the source `char` is signed, so bytes from 0x80 up are never control characters.) */
  predicate IsControl(c: char) {
    c <= '\U{1f}' || c == '\U{7f}'
  }

  predicate IsHexDigit(c: char) {
    '0' <= c <= '9' || 'A' <= c <= 'F' || 'a' <= c <= 'f'
  }

  /** A mapping from characters to hexadecimal digit values. */
  type DigitMap = char -> Option<int>

  /** A digit mapping accepts exactly the hexadecimal digits and gives values below 16. */
  ghost predicate IsDigitMap(hex: DigitMap) {
    forall c :: (hex(c).Some? <==> IsHexDigit(c)) && (hex(c).Some? ==> 0 <= hex(c).value < 16)
  }

  /** Digit values as the source computes them: a letter counts from `A` or `a`,
      so `A` is worth 0 and `F` 5, and no digit is worth more than 9. */
  function HexDigitValue(c: char): (d: Option<int>)
    ensures d.Some? <==> IsHexDigit(c)
    ensures d.Some? ==> 0 <= d.value <= 9
    ensures '0' <= c <= '9' ==> d == Some(c as int - '0' as int)
  {
    if '0' <= c <= '9' then Some(c as int - '0' as int)
    else if 'A' <= c <= 'F' then Some(c as int - 'A' as int)
    else if 'a' <= c <= 'f' then Some(c as int - 'a' as int)
    else None
  }

  lemma HexDigitValueIsDigitMap()
    ensures IsDigitMap(HexDigitValue)
  {
  }

  /** True when position `i` of the text holds a hexadecimal digit. */
  predicate HexAt(t: string, i: nat) {
    i < |t| && IsHexDigit(t[i])
  }

  /** The loop of `Parse4HexadecimalDigits`: reads `n` more digits with `NextChar`,
      accumulating into a 16-bit unsigned value. */
  function HexDigits(hex: DigitMap, t: string, cur: nat, n: nat, acc: int): (r: Option<(int, nat)>)
    requires cur <= |t|
    ensures r.Some? && n > 0 ==> 0 <= r.value.0 < 0x1_0000
    decreases n
  {
    if n == 0 then Some((acc, cur))
    else
      var (c, q) := NextChar(t, cur);
      match hex(c)
      case None => None
      case Some(d) => HexDigits(hex, t, q, n - 1, (acc * 16 + d) % 0x1_0000)
  }

  /** The digit loop succeeds exactly when each of the `n` characters after the cursor
      is a hexadecimal digit. */
  lemma {:induction false} HexDigitsAccepts(hex: DigitMap, t: string, cur: nat, n: nat, acc: int)
    requires IsDigitMap(hex)
    requires cur <= |t|
    ensures HexDigits(hex, t, cur, n, acc).Some? <==> forall i :: cur < i <= cur + n ==> HexAt(t, i)
    ensures HexDigits(hex, t, cur, n, acc).Some? ==> HexDigits(hex, t, cur, n, acc).value.1 == cur + n
    decreases n
  {
    if n > 0 {
      var (c, q) := NextChar(t, cur);
      if hex(c).None? {
        assert !HexAt(t, cur + 1);
      } else {
        HexDigitsAccepts(hex, t, q, n - 1, (acc * 16 + hex(c).value) % 0x1_0000);
      }
    }
  }

  /** The value of four hexadecimal digits under a digit mapping. */
  function Quad(hex: DigitMap, a: char, b: char, c: char, d: char): int
    requires hex(a).Some? && hex(b).Some? && hex(c).Some? && hex(d).Some?
  {
    ((hex(a).value * 16 + hex(b).value) * 16 + hex(c).value) * 16 + hex(d).value
  }

  /** True when the four characters after the cursor exist and are hexadecimal digits. */
  predicate FourHexDigitsAfter(t: string, cur: nat) {
    cur + 4 < |t| && IsHexDigit(t[cur + 1]) && IsHexDigit(t[cur + 2])
    && IsHexDigit(t[cur + 3]) && IsHexDigit(t[cur + 4])
  }

  /** `Parse4HexadecimalDigits`: the four characters after the cursor, read as a
      16-bit value; the cursor ends on the last of them. */
  function Parse4HexadecimalDigits(hex: DigitMap, t: string, cur: nat): (r: Option<(int, nat)>)
    requires IsDigitMap(hex)
    requires cur <= |t|
    ensures r.Some? <==> FourHexDigitsAfter(t, cur)
    ensures r.Some? ==> r.value.1 == cur + 4
    ensures r.Some? ==> r.value.0 == Quad(hex, t[cur + 1], t[cur + 2], t[cur + 3], t[cur + 4])
    ensures r.Some? ==> 0 <= r.value.0 < 0x1_0000
  {
    FourDigitSteps(hex, t, cur);
    HexDigits(hex, t, cur, 4, 0)
  }

  /** One turn of the digit loop: the character after the cursor decides. */
  lemma HexStep(hex: DigitMap, t: string, cur: nat, n: nat, acc: int, next: nat, m: nat, acc': int)
    requires IsDigitMap(hex)
    requires cur <= |t| && n > 0 && 0 <= acc < 0x1000
    requires next == cur + 1 && m == n - 1
    ensures !(next < |t| && IsHexDigit(t[next])) ==> HexDigits(hex, t, cur, n, acc).None?
    ensures next < |t| && IsHexDigit(t[next]) && acc' == acc * 16 + hex(t[next]).value ==>
      HexDigits(hex, t, cur, n, acc) == HexDigits(hex, t, next, m, acc')
  {
    if next < |t| && IsHexDigit(t[next]) {
      var d := hex(t[next]).value;
      assert 0 <= d < 16;
      assert 0 <= acc * 16 + d < 0x1_0000;
      assert (acc * 16 + d) % 0x1_0000 == acc * 16 + d;
    }
  }

  lemma FourDigitSteps(hex: DigitMap, t: string, cur: nat)
    requires IsDigitMap(hex)
    requires cur <= |t|
    ensures var r := HexDigits(hex, t, cur, 4, 0);
      && (r.Some? <==> FourHexDigitsAfter(t, cur))
      && (r.Some? ==> r.value.1 == cur + 4)
      && (r.Some? ==> r.value.0 == Quad(hex, t[cur + 1], t[cur + 2], t[cur + 3], t[cur + 4]))
      && (r.Some? ==> 0 <= r.value.0 < 0x1_0000)
  {
    var q1, q2, q3, q4 := cur + 1, cur + 2, cur + 3, cur + 4;
    if !(q1 < |t| && IsHexDigit(t[q1])) {
      HexStep(hex, t, cur, 4, 0, q1, 3, 0);
      return;
    }
    var a1 := hex(t[q1]).value;
    HexStep(hex, t, cur, 4, 0, q1, 3, a1);
    if !(q2 < |t| && IsHexDigit(t[q2])) {
      HexStep(hex, t, q1, 3, a1, q2, 2, 0);
      return;
    }
    var a2 := a1 * 16 + hex(t[q2]).value;
    HexStep(hex, t, q1, 3, a1, q2, 2, a2);
    if !(q3 < |t| && IsHexDigit(t[q3])) {
      HexStep(hex, t, q2, 2, a2, q3, 1, 0);
      return;
    }
    var a3 := a2 * 16 + hex(t[q3]).value;
    HexStep(hex, t, q2, 2, a2, q3, 1, a3);
    if !(q4 < |t| && IsHexDigit(t[q4])) {
      HexStep(hex, t, q3, 1, a3, q4, 0, 0);
      return;
    }
    var a4 := a3 * 16 + hex(t[q4]).value;
    HexStep(hex, t, q3, 1, a3, q4, 0, a4);
    assert HexDigits(hex, t, q4, 0, a4) == Some((a4, q4));
  }

  /** Under the source's digit mapping no `\u` escape decodes above 0x9999, so no
      surrogate code unit (0xD800 and up) can ever be decoded. */
  lemma {:induction false} AsWrittenCodeUnitsStayLow(t: string, cur: nat)
    requires cur <= |t|
    ensures Parse4HexadecimalDigits(HexDigitValue, t, cur).Some? ==>
        Parse4HexadecimalDigits(HexDigitValue, t, cur).value.0 <= 0x9999
  {
  }

  predicate IsHighSurrogate(code: int) { 0xD800 <= code <= 0xDBFF }
  predicate IsLowSurrogate(code: int) { 0xDC00 <= code <= 0xDFFF }

  /** The code point a surrogate pair stands for: 0x10000 and up. */
  function SurrogatePairCodePoint(high: int, low: int): (cp: int)
    requires IsHighSurrogate(high) && IsLowSurrogate(low)
    ensures 0x1_0000 <= cp <= 0x10_FFFF
  {
    (high - 0xD800) * 0x400 + (low - 0xDC00) + 0x1_0000
  }

  /** The surrogate-pair combination as the source stores it: into a 16-bit variable,
      so only the low 16 bits of the code point are kept. */
  function CombineSurrogates(high: int, low: int): (code: int)
    requires IsHighSurrogate(high) && IsLowSurrogate(low)
    ensures 0 <= code < 0x1_0000
    ensures code == SurrogatePairCodePoint(high, low) % 0x1_0000
  {
    assert high % 0x400 == high - 0xD800;
    assert low % 0x400 == low - 0xDC00;
    ((high % 0x400) * 0x400 + low % 0x400 + 0x1_0000) % 0x1_0000
  }

  /** The code a sequence of one, two or three UTF-8 bytes carries in its payload bits. */
  function Utf8Payload(bytes: string): int {
    if |bytes| == 1 then bytes[0] as int
    else if |bytes| == 2 then (bytes[0] as int % 0x20) * 0x40 + bytes[1] as int % 0x40
    else if |bytes| == 3 then
      (bytes[0] as int % 0x10) * 0x1000 + (bytes[1] as int % 0x40) * 0x40 + bytes[2] as int % 0x40
    else 0
  }

  /** True when `b` is a UTF-8 continuation byte, 10xxxxxx. */
  predicate IsContinuation(b: char) { 0x80 <= b as int < 0xC0 }

  /** The UTF-8 bytes the source appends for a 16-bit code: one, two or three bytes,
      never four. The bit-or of a lead pattern with payload bits is an addition here,
      the two having no bit in common. */
  function EncodeUtf8(code: int): (r: string)
    requires 0 <= code < 0x1_0000
    ensures code < 0x80 ==> |r| == 1 && r[0] as int == code
    ensures 0x80 <= code < 0x800 ==>
      |r| == 2 && 0xC0 <= r[0] as int < 0xE0 && IsContinuation(r[1])
    ensures 0x800 <= code ==>
      |r| == 3 && 0xE0 <= r[0] as int < 0xF0 && IsContinuation(r[1]) && IsContinuation(r[2])
    ensures Utf8Payload(r) == code
  {
    if code < 0x80 then
      [code as char]
    else if code < 0x800 then
      TwoByteSplit(code);
      [(0xC0 + code / 0x40) as char, (0x80 + code % 0x40) as char]
    else
      ThreeByteSplit(code);
      [(0xE0 + code / 0x1000) as char, (0x80 + code / 0x40 % 0x40) as char, (0x80 + code % 0x40) as char]
  }

  lemma TwoByteSplit(code: int)
    requires 0x80 <= code < 0x800
    ensures 0x2 <= code / 0x40 < 0x20
    ensures (0xC0 + code / 0x40) % 0x20 == code / 0x40
    ensures (0x80 + code % 0x40) % 0x40 == code % 0x40
    ensures (code / 0x40) * 0x40 + code % 0x40 == code
  {
  }

  lemma ThreeByteSplit(code: int)
    requires 0x800 <= code < 0x1_0000
    ensures code / 0x1000 < 0x10
    ensures (0xE0 + code / 0x1000) % 0x10 == code / 0x1000
    ensures (0x80 + code / 0x40 % 0x40) % 0x40 == code / 0x40 % 0x40
    ensures (0x80 + code % 0x40) % 0x40 == code % 0x40
    ensures (code / 0x1000) * 0x1000 + (code / 0x40 % 0x40) * 0x40 + code % 0x40 == code
  {
    var hi, mid, lo := code / 0x1000, code / 0x40 % 0x40, code % 0x40;
    assert code / 0x40 == hi * 0x40 + mid;
  }

  /** `ParseCodePoint`: the cursor is on the `u` of a `\u` escape. Reads one code unit;
      a high surrogate must be followed at once by `\u` and a low surrogate, and the pair
      is combined; a lone low surrogate is refused. Appends the code's UTF-8 bytes. */
  function ParseCodePoint(hex: DigitMap, t: string, cur: nat): (r: Option<(string, nat)>)
    requires IsDigitMap(hex)
    requires cur <= |t|
    ensures r.Some? ==> cur + 4 <= r.value.1 <= |t|
    ensures Parse4HexadecimalDigits(hex, t, cur).None? ==> r.None?
    ensures Parse4HexadecimalDigits(hex, t, cur).Some? ==>
      var (code, q) := Parse4HexadecimalDigits(hex, t, cur).value;
      && (IsLowSurrogate(code) ==> r.None?)
      && (!IsHighSurrogate(code) && !IsLowSurrogate(code) ==> r == Some((EncodeUtf8(code), q)))
      && (IsHighSurrogate(code) ==>
            (r.Some? <==>
               q + 2 < |t| && t[q + 1] == '\\' && t[q + 2] == 'u'
               && Parse4HexadecimalDigits(hex, t, q + 2).Some?
               && IsLowSurrogate(Parse4HexadecimalDigits(hex, t, q + 2).value.0)))
      && (IsHighSurrogate(code) && r.Some? ==>
            var low := Parse4HexadecimalDigits(hex, t, q + 2).value.0;
            r == Some((EncodeUtf8(CombineSurrogates(code, low)), q + 6)))
  {
    match Parse4HexadecimalDigits(hex, t, cur)
    case None => None
    case Some((code, q)) =>
      if IsHighSurrogate(code) then
        var (backslash, q1) := NextChar(t, q);
        var (u, q2) := NextChar(t, q1);
        if backslash != '\\' || u != 'u' then None
        else
          match Parse4HexadecimalDigits(hex, t, q2)
          case None => None
          case Some((low, q3)) =>
            if IsLowSurrogate(low) then Some((EncodeUtf8(CombineSurrogates(code, low)), q3))
            else None
      else if IsLowSurrogate(code) then None
      else Some((EncodeUtf8(code), q))
  }

  /** The letters that may follow a backslash on their own: `"`, `\\`, `/`, `b`, `f`,
      `n`, `r` and `t`. */
  predicate IsSimpleEscape(e: char) {
    e == '"' || e == '\\' || e == '/' || e == 'b' || e == 'f' || e == 'n' || e == 'r' || e == 't'
  }

  /** The character a simple escape letter stands for (`\"`, `\\`, `\/`, `\b`, `\f`,
      `\n`, `\r`, `\t`); `u` and every other letter are not simple escapes. */
  function UnescapeLetter(e: char): (r: Option<char>)
    ensures r.Some? <==> IsSimpleEscape(e)
  {
    if e == '"' then Some('"')
    else if e == '\\' then Some('\\')
    else if e == '/' then Some('/')
    else if e == 'b' then Some(Backspace)
    else if e == 'f' then Some(FormFeed)
    else if e == 'n' then Some(LineFeed)
    else if e == 'r' then Some(CarriageReturn)
    else if e == 't' then Some(Tab)
    else None
  }

  /** A `\\u` escape inside a string literal, read with the source's digit mapping. */
  function UnicodeEscape(t: string, cur: nat): (r: Option<(string, nat)>)
    requires cur <= |t|
    ensures r.Some? ==> cur + 4 <= r.value.1 <= |t|
    ensures r.Some? <==> FourHexDigitsAfter(t, cur)
    ensures r.Some? ==> r.value.1 == cur + 4 && 1 <= |r.value.0| <= 3
    ensures r.Some? ==>
      Utf8Payload(r.value.0) == Parse4HexadecimalDigits(HexDigitValue, t, cur).value.0
  {
    HexDigitValueIsDigitMap();
    AsWrittenCodeUnitsStayLow(t, cur);
    ParseCodePoint(HexDigitValue, t, cur)
  }

  /** What one turn of the `ParseString` loop leads to: the loop stops with a result
      (the string and the cursor past the closing quote, or failure), or it goes on
      from a later cursor with more decoded bytes. */
  datatype Turn = Stop(result: Option<(string, nat)>) | Continue(acc: string, cur: nat)

  /** One turn of the `ParseString` loop. The cursor `cur` is on the last character
      consumed; `acc` holds the bytes decoded so far. */
  function ScanTurn(t: string, cur: nat, acc: string): (r: Turn)
    requires cur <= |t|
    ensures r.Continue? ==> cur < r.cur <= |t|
    ensures r.Stop? && r.result.Some? ==>
      cur + 2 <= r.result.value.1 <= |t| && t[r.result.value.1 - 1] == '"'
  {
    var (c, q) := NextChar(t, cur);
    if c == '"' then
      // the closing quote is under the cursor: step past it
      var (more, e) := Next(t, q);
      Stop(if GetChar(t, q) == '"' && more then Some((acc, e)) else None)
    else if IsControl(c) then
      Stop(None)
    else if c == '\\' then
      var (letter, q2) := NextChar(t, q);
      if letter == 'u' then
        match UnicodeEscape(t, q2)
        case None => Stop(None)
        case Some((bytes, q3)) => Continue(acc + bytes, q3)
      else
        match UnescapeLetter(letter)
        case None => Stop(None)
        case Some(ch) => Continue(acc + [ch], q2)
    else
      Continue(acc + [c], q)
  }

  /** The loop of `ParseString`: turns until one stops. */
  function ScanString(t: string, cur: nat, acc: string): (r: Option<(string, nat)>)
    requires cur <= |t|
    ensures r.Some? ==> cur + 2 <= r.value.1 <= |t| && t[r.value.1 - 1] == '"'
    decreases |t| - cur
  {
    match ScanTurn(t, cur, acc)
    case Stop(result) => result
    case Continue(acc', cur') => ScanString(t, cur', acc')
  }

  /** `ParseString`: skips whitespace, requires an opening quote and reads up to the
      closing quote, leaving the cursor just past it. */
  function ParseString(t: string, p: nat): (r: Option<(string, nat)>)
    requires p <= |t|
    ensures r.Some? ==> GetToken(t, p) == '"'
    ensures r.Some? ==> Trim(t, p) + 2 <= r.value.1 <= |t| && t[r.value.1 - 1] == '"'
  {
    var q := Trim(t, p);
    if GetChar(t, q) != '"' then None else ScanString(t, q, "")
  }

  /** The escape letter `SerializeString` writes after a backslash for `c`, if any. */
  function EscapeLetter(c: char): (r: Option<char>)
    ensures r.Some? ==> UnescapeLetter(r.value) == Some(c)
    ensures r.Some? <==> c == '"' || c == '\\' || c == '/' || c == Backspace || c == FormFeed
                         || c == LineFeed || c == CarriageReturn || c == Tab
  {
    if c == '"' then Some('"')
    else if c == '\\' then Some('\\')
    else if c == '/' then Some('/')
    else if c == Backspace then Some('b')
    else if c == FormFeed then Some('f')
    else if c == LineFeed then Some('n')
    else if c == CarriageReturn then Some('r')
    else if c == Tab then Some('t')
    else None
  }

  /** The text `SerializeString` writes for one character. */
  function EscapeChar(c: char): (r: string)
    ensures EscapeLetter(c).Some? ==> r == ['\\', EscapeLetter(c).value]
    ensures EscapeLetter(c).None? ==> r == [c]
  {
    match EscapeLetter(c)
    case Some(e) => ['\\', e]
    case None => [c]
  }

  /** The body of a serialized string: every character escaped in turn. */
  function Escape(s: string): (r: string)
    ensures |s| <= |r| <= 2 * |s|
  {
    if |s| == 0 then "" else EscapeChar(s[0]) + Escape(s[1..])
  }

  /** `SerializeString`: the escaped text between double quotes. */
  function SerializeString(s: string): (r: string)
    ensures |r| >= 2 && r[0] == '"' && r[|r| - 1] == '"'
    ensures r[1..|r| - 1] == Escape(s)
  {
    "\"" + Escape(s) + "\""
  }

  /** A string survives serialization and parsing when it holds no control character
      except the five that have a short escape (BS, TAB, LF, FF, CR). */
  predicate Serializable(s: string) {
    forall i :: 0 <= i < |s| ==> !IsControl(s[i]) || EscapeLetter(s[i]).Some?
  }

  /** One plain character: the loop appends it and moves on. */
  lemma ScanPlain(t: string, cur: nat, acc: string, c: char)
    requires cur + 1 < |t| && t[cur + 1] == c
    requires c != '"' && c != '\\' && !IsControl(c)
    ensures ScanString(t, cur, acc) == ScanString(t, cur + 1, acc + [c])
  {
  }

  /** One simple escape: the loop appends the character it stands for and moves on. */
  lemma ScanSimpleEscape(t: string, cur: nat, acc: string, letter: char, c: char)
    requires cur + 2 < |t| && t[cur + 1] == '\\' && t[cur + 2] == letter
    requires UnescapeLetter(letter) == Some(c)
    ensures ScanString(t, cur, acc) == ScanString(t, cur + 2, acc + [c])
  {
  }

  /** The closing quote: the loop stops with what it has decoded, just past the quote. */
  lemma ScanClose(t: string, cur: nat, acc: string)
    requires cur + 1 < |t| && t[cur + 1] == '"'
    ensures ScanString(t, cur, acc) == Some((acc, cur + 2))
  {
  }

  /** A raw control character, or the end of the text, stops the loop with failure. */
  lemma ScanControl(t: string, cur: nat, acc: string)
    requires cur <= |t|
    requires IsControl(GetChar(t, cur + 1))
    ensures ScanString(t, cur, acc).None?
  {
  }

  /** A backslash and a letter that is neither a simple escape nor `u` stop the loop with failure. */
  lemma ScanUnknownEscape(t: string, cur: nat, acc: string, letter: char)
    requires cur + 2 < |t| && t[cur + 1] == '\\' && t[cur + 2] == letter
    requires !IsSimpleEscape(letter) && letter != 'u'
    ensures ScanString(t, cur, acc).None?
  {
  }

  /** A `\\u` escape the code-point reader refuses stops the loop with failure. */
  lemma ScanBadCodePoint(t: string, cur: nat, acc: string)
    requires cur + 2 < |t| && t[cur + 1] == '\\' && t[cur + 2] == 'u'
    requires UnicodeEscape(t, cur + 2).None?
    ensures ScanString(t, cur, acc).None?
  {
  }

  /** The loop from equal cursors with equal decoded prefixes gives equal results. */
  lemma ScanAt(t: string, cur: nat, cur': nat, acc: string, acc': string)
    requires cur == cur' <= |t| && acc == acc'
    ensures ScanString(t, cur, acc) == ScanString(t, cur', acc')
  {
  }

  /** One character of a serializable string, in its escaped form: the loop decodes it
      and moves over its escaped form, to `next`. */
  lemma ScanEscapedChar(t: string, cur: nat, next: nat, acc: string, c: char)
    requires !IsControl(c) || EscapeLetter(c).Some?
    requires TextAt(t, cur + 1, EscapeChar(c))
    requires next == cur + |EscapeChar(c)|
    ensures ScanString(t, cur, acc) == ScanString(t, next, acc + [c])
  {
    var e := EscapeChar(c);
    assert t[cur + 1] == e[0] by {
      assert t[cur + 1..cur + 1 + |e|][0] == e[0];
    }
    if EscapeLetter(c).Some? {
      assert t[cur + 2] == e[1] by {
        assert t[cur + 1..cur + 1 + |e|][1] == e[1];
      }
      ScanSimpleEscape(t, cur, acc, EscapeLetter(c).value, c);
    } else {
      ScanPlain(t, cur, acc, c);
    }
  }

  /** The escaped form of a non-empty string, after the loop's cursor, is the escaped
      first character followed by the escaped rest; the rest stays serializable. */
  lemma EscapeFirst(t: string, cur: nat, next: nat, s: string)
    requires |s| > 0 && Serializable(s)
    requires TextAt(t, cur + 1, Escape(s))
    requires next == cur + |EscapeChar(s[0])|
    ensures !IsControl(s[0]) || EscapeLetter(s[0]).Some?
    ensures Serializable(s[1..])
    ensures next + |Escape(s[1..])| == cur + |Escape(s)| <= |t|
    ensures TextAt(t, cur + 1, EscapeChar(s[0]))
    ensures TextAt(t, next + 1, Escape(s[1..]))
  {
    TextAtSplit(t, cur + 1, EscapeChar(s[0]), Escape(s[1..]));
    assert Serializable(s[1..]) by {
      forall i | 0 <= i < |s[1..]| ensures !IsControl(s[1..][i]) || EscapeLetter(s[1..][i]).Some? {
        assert s[1..][i] == s[i + 1];
      }
    }
  }

  /** Scanning over the escaped form of a serializable string decodes exactly that
      string and moves the cursor over exactly its escaped form, to `end`. */
  lemma {:induction false} ScanEscaped(t: string, cur: nat, end: nat, acc: string, s: string)
    requires Serializable(s)
    requires TextAt(t, cur + 1, Escape(s))
    requires end == cur + |Escape(s)|
    ensures end <= |t|
    ensures ScanString(t, cur, acc) == ScanString(t, end, acc + s)
    decreases |s|
  {
    if |s| > 0 {
      var next := cur + |EscapeChar(s[0])|;
      EscapeFirst(t, cur, next, s);
      assert acc + s == (acc + [s[0]]) + s[1..] by {
        assert s == [s[0]] + s[1..];
      }
      ScanEscapedChar(t, cur, next, acc, s[0]);
      ScanEscaped(t, next, end, acc + [s[0]], s[1..]);
    } else {
      assert acc + s == acc;
      ScanAt(t, cur, end, acc, acc + s);
    }
  }

  /** The opening quote and a well-formed prefix: the loop stands after the prefix,
      at `end`, with the prefix decoded. */
  lemma OpenThenEscaped(t: string, p: nat, end: nat, s: string)
    requires Serializable(s)
    requires TextAt(t, p, "\"" + Escape(s))
    requires end == p + |Escape(s)|
    ensures end < |t|
    ensures Trim(t, p) == p && GetChar(t, p) == '"'
    ensures ScanString(t, p, "") == ScanString(t, end, s)
  {
    TextAtSplit(t, p, "\"", Escape(s));
    TextAtChar(t, p, '"');
    TrimStopsAt(t, p, p);
    assert "" + s == s;
    ScanEscaped(t, p, end, "", s);
  }

  /** What `ParseString` gives once it has seen the opening quote at `p`. */
  lemma ParseStringAtQuote(t: string, p: nat)
    requires p <= |t|
    requires Trim(t, p) == p && GetChar(t, p) == '"'
    ensures ParseString(t, p) == ScanString(t, p, "")
  {
  }

  /** String round trip: parsing the serialization of a serializable string at the
      cursor gives back the string and leaves the cursor just past the closing quote,
      whatever text follows. */
  lemma ParseSerializedString(t: string, p: nat, s: string)
    requires Serializable(s)
    requires TextAt(t, p, SerializeString(s))
    ensures ParseString(t, p) == Some((s, p + |SerializeString(s)|))
  {
    var e := Escape(s);
    var end := p + |e|;
    assert SerializeString(s) == "\"" + e + "\"";
    TextAtSplit(t, p, "\"" + e, "\"");
    TextAtChar(t, end + 1, '"');
    ScanClose(t, end, s);
    OpenThenEscaped(t, p, end, s);
    ParseStringAtQuote(t, p);
  }

  /** The loop after `n` more turns: stopped with its result, or about to read on from
      a later cursor with more decoded bytes. */
  function ScanSteps(t: string, cur: nat, acc: string, n: nat): (r: Turn)
    requires cur <= |t|
    ensures r.Continue? ==> cur + n <= r.cur <= |t|
    decreases n
  {
    if n == 0 then Continue(acc, cur)
    else
      match ScanTurn(t, cur, acc)
      case Stop(result) => Stop(result)
      case Continue(acc', cur') => ScanSteps(t, cur', acc', n - 1)
  }

  /** Whatever the loop has passed over, its result is the result of going on from
      where it stands, or the result it stopped with. */
  lemma {:induction false} ScanStepsThenScan(t: string, cur: nat, acc: string, n: nat)
    requires cur <= |t|
    ensures ScanSteps(t, cur, acc, n).Stop? ==>
      ScanString(t, cur, acc) == ScanSteps(t, cur, acc, n).result
    ensures ScanSteps(t, cur, acc, n).Continue? ==>
      ScanString(t, cur, acc) == ScanString(t, ScanSteps(t, cur, acc, n).cur, ScanSteps(t, cur, acc, n).acc)
    decreases n
  {
    if n > 0 {
      match ScanTurn(t, cur, acc)
      case Stop(_) =>
      case Continue(acc', cur') => ScanStepsThenScan(t, cur', acc', n - 1);
    }
  }

  /** A raw control character wherever the loop, started at the opening quote, stands
      after any number of turns makes the whole string fail; the NUL that marks the end
      of the text counts as one, so an unterminated string fails too. */
  lemma ParseStringRejectsControl(t: string, p: nat, n: nat, acc: string, cur: nat)
    requires p <= |t| && GetToken(t, p) == '"'
    requires ScanSteps(t, Trim(t, p), "", n) == Continue(acc, cur)
    requires IsControl(GetChar(t, cur + 1))
    ensures ParseString(t, p).None?
  {
    ScanStepsThenScan(t, Trim(t, p), "", n);
    ScanControl(t, cur, acc);
  }

  /** A backslash followed by a letter that is neither a simple escape nor `u`, wherever
      the loop reaches it, makes the whole string fail. */
  lemma ParseStringRejectsUnknownEscape(t: string, p: nat, n: nat, acc: string, cur: nat, letter: char)
    requires p <= |t| && GetToken(t, p) == '"'
    requires ScanSteps(t, Trim(t, p), "", n) == Continue(acc, cur)
    requires cur + 2 < |t| && t[cur + 1] == '\\' && t[cur + 2] == letter
    requires !IsSimpleEscape(letter) && letter != 'u'
    ensures ParseString(t, p).None?
  {
    ScanStepsThenScan(t, Trim(t, p), "", n);
    ScanUnknownEscape(t, cur, acc, letter);
  }

  /** A `\\u` escape the code-point reader refuses (a missing or non-hexadecimal digit),
      wherever the loop reaches it, makes the whole string fail. */
  lemma ParseStringRejectsBadCodePoint(t: string, p: nat, n: nat, acc: string, cur: nat)
    requires p <= |t| && GetToken(t, p) == '"'
    requires ScanSteps(t, Trim(t, p), "", n) == Continue(acc, cur)
    requires cur + 2 < |t| && t[cur + 1] == '\\' && t[cur + 2] == 'u'
    requires UnicodeEscape(t, cur + 2).None?
    ensures ParseString(t, p).None?
  {
    ScanStepsThenScan(t, Trim(t, p), "", n);
    ScanBadCodePoint(t, cur, acc);
  }

  /** `ParseSerializedString` with the cursor after the closing quote named. */
  lemma ParseSerializedStringAt(t: string, p: nat, s: string, end: nat)
    requires Serializable(s)
    requires TextAt(t, p, SerializeString(s))
    requires end == p + |SerializeString(s)|
    ensures ParseString(t, p) == Some((s, end))
  {
    ParseSerializedString(t, p, s);
  }
}
