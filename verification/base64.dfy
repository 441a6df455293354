/** The base64 codec: encoding bytes to the alphabet of section 4 of RFC 4648 with
    `=` padding, recognising encoded text, predicting the decoded size and decoding.
    Bytes are the integers 0..255; the bit masks and shifts of the codec are written
    as division and remainder by powers of two. `std::string::npos` from a failed
    table search is -1, whose Euclidean remainders (`-1 % 64 == 63`) are the low bits
    of `SIZE_MAX`, so a mask applied to it gives the value the C++ mask gives. */
module Base64 {
  import opened Common

  /** One byte of input or output. */
  type Byte = x: int | 0 <= x < 256

  /** `kBase64Table`: the 64 digits in value order, the alphabet of section 4 of
      RFC 4648. */
  const Base64Table: string :=
    "ABCDEFGHIJKLMNOPQRSTUVWXYZ" + "abcdefghijklmnopqrstuvwxyz" + "0123456789" + "+/"

  /** `kBase64Table[i]`, by the ranges of the alphabet (`TableText` shows the two agree). */
  function Digit(i: int): (r: char)
    requires 0 <= i < 64
    ensures IsDigit(r) && r != '='
  {
    if i < 26 then ('A' as int + i) as char
    else if i < 52 then ('a' as int + i - 26) as char
    else if i < 62 then ('0' as int + i - 52) as char
    else if i == 62 then '+'
    else '/'
  }

  /** The table holds exactly the digits, in value order. */
  lemma TableText(i: int)
    requires 0 <= i < 64
    ensures |Base64Table| == 64
    ensures Base64Table[i] == Digit(i)
  {
  }

  /** The digits are 64 distinct characters, none of them the pad `=`. */
  lemma DigitsDistinct(i: int, j: int)
    requires 0 <= i < 64 && 0 <= j < 64
    ensures Digit(i) != '='
    ensures Digit(i) == Digit(j) ==> i == j
  {
  }

  // ---------------------------------------------------------------- searches

  /** `base64_table.find(ch)` from index `i`: the first position of `ch`, or -1 for
      `npos`. */
  function FindFrom(ch: char, i: nat): (r: int)
    requires i <= 64
    ensures r == -1 ==> forall j :: i <= j < 64 ==> Digit(j) != ch
    ensures r != -1 ==> i <= r < 64 && Digit(r) == ch
    ensures r != -1 ==> forall j :: i <= j < r ==> Digit(j) != ch
    decreases 64 - i
  {
    if i == 64 then -1
    else if Digit(i) == ch then i
    else FindFrom(ch, i + 1)
  }

  /** A character of the table: an ASCII letter, a decimal digit, `+` or `/`. */
  predicate IsDigit(ch: char) {
    ('A' <= ch <= 'Z') || ('a' <= ch <= 'z') || ('0' <= ch <= '9') || ch == '+' || ch == '/'
  }

  /** The value a character of the table stands for. */
  function DigitValue(ch: char): (r: int)
    requires IsDigit(ch)
    ensures 0 <= r < 64 && Digit(r) == ch
  {
    if 'A' <= ch <= 'Z' then ch as int - 'A' as int
    else if 'a' <= ch <= 'z' then ch as int - 'a' as int + 26
    else if '0' <= ch <= '9' then ch as int - '0' as int + 52
    else if ch == '+' then 62
    else 63
  }

  /** `base64_table.find(ch)`: the position of a table character, -1 for any other
      (`FindIsSearch` shows this is the table search). */
  function Find(ch: char): (r: int)
    ensures r == -1 <==> !IsDigit(ch)
    ensures r != -1 ==> 0 <= r < 64 && Digit(r) == ch
  {
    if IsDigit(ch) then DigitValue(ch) else -1
  }

  /** The value of a character is the first position of the table that holds it. */
  lemma FindIsSearch(ch: char)
    ensures Find(ch) == FindFrom(ch, 0)
  {
    var r := FindFrom(ch, 0);
    if IsDigit(ch) {
      var v := DigitValue(ch);
      assert r != -1;
      DigitsDistinct(r, v);
    }
  }

  /** Searching for a digit finds its value. */
  lemma FindDigit(c: int)
    requires 0 <= c < 64
    ensures Find(Digit(c)) == c
  {
    DigitsDistinct(Find(Digit(c)), c);
  }

  /** `test.find_first_not_of(kBase64Table)`: the first position of a character that
      is not a digit, or `None` for `npos`. */
  function FirstNotInTable(s: string): (r: Option<nat>)
    ensures r.None? <==> forall k :: 0 <= k < |s| ==> IsDigit(s[k])
    ensures r.Some? ==> r.value < |s| && !IsDigit(s[r.value])
    ensures r.Some? ==> forall k :: 0 <= k < r.value ==> IsDigit(s[k])
    decreases |s|
  {
    if |s| == 0 then None
    else if !IsDigit(s[0]) then Some(0)
    else
      match FirstNotInTable(s[1..])
      case None => None
      case Some(k) => Some(k + 1)
  }

  /** `test.find_first_not_of('=', pos)`: the first position from `pos` on that is not
      a pad, or `None` for `npos`. */
  function FirstNotPad(s: string, pos: nat): (r: Option<nat>)
    requires pos <= |s|
    ensures r.None? <==> forall k :: pos <= k < |s| ==> s[k] == '='
    ensures r.Some? ==> pos <= r.value < |s| && s[r.value] != '='
    decreases |s| - pos
  {
    if pos == |s| then None
    else if s[pos] != '=' then Some(pos)
    else FirstNotPad(s, pos + 1)
  }

  /** `test.find_last_not_of('=')`: the last position that is not a pad, or `None` for
      `npos`. */
  function LastNotPad(s: string): (r: Option<nat>)
    ensures r.None? <==> forall k :: 0 <= k < |s| ==> s[k] == '='
    ensures r.Some? ==> r.value < |s| && s[r.value] != '='
    ensures r.Some? ==> forall k :: r.value < k < |s| ==> s[k] == '='
    decreases |s|
  {
    if |s| == 0 then None
    else if s[|s| - 1] != '=' then Some(|s| - 1)
    else LastNotPad(s[..|s| - 1])
  }

  // ---------------------------------------------------------- reference shape

  /** How many `=` the text ends with. */
  function PadCount(s: string): (r: nat)
    ensures r <= |s|
    ensures forall k :: |s| - r <= k < |s| ==> s[k] == '='
    ensures r < |s| ==> s[|s| - r - 1] != '='
    decreases |s|
  {
    if |s| == 0 || s[|s| - 1] != '=' then 0 else 1 + PadCount(s[..|s| - 1])
  }

  /** Every character is a digit. */
  predicate AllDigits(s: string) {
    forall k :: 0 <= k < |s| ==> IsDigit(s[k])
  }

  /** Encoded text as RFC 4648 shapes it: whole groups of four, digits, then at most
      two pads. */
  predicate WellPadded(s: string) {
    |s| > 0 && |s| % 4 == 0 && PadCount(s) <= 2 && AllDigits(s[..|s| - PadCount(s)])
  }

  // ------------------------------------------------------------------ encode

  /** `(x >> 2) & 0x3f`: the first six-bit value of a group. */
  function High6(x: Byte): (r: int)
    ensures 0 <= r < 64
  {
    x / 4
  }

  /** `((x << 4) & 0x30) | ((y >> 4) & 0x0f)`: the second six-bit value, from the low
      two bits of the first byte and the high four of the second (0 when missing). */
  function Mid6a(x: Byte, y: Byte): (r: int)
    ensures 0 <= r < 64
  {
    (x % 4) * 16 + y / 16
  }

  /** `((y << 2) & 0x3c) | ((z >> 6) & 0x03)`: the third six-bit value, from the low
      four bits of the second byte and the high two of the third (0 when missing). */
  function Mid6b(y: Byte, z: Byte): (r: int)
    ensures 0 <= r < 64
  {
    (y % 16) * 4 + z / 64
  }

  /** `z & 0x3f`: the fourth six-bit value. */
  function Low6(z: Byte): (r: int)
    ensures 0 <= r < 64
  {
    z % 64
  }

  /** One group of one to three bytes as four characters: the loop body of
      `EncodeBase64`, with `=` for every missing byte. */
  function EncodeGroup(g: seq<Byte>): (r: string)
    requires 1 <= |g| <= 3
    ensures |r| == 4
    ensures IsDigit(r[0]) && IsDigit(r[1])
    ensures |g| > 1 ==> IsDigit(r[2])
    ensures |g| > 2 ==> IsDigit(r[3])
    ensures r[2] == '=' <==> |g| == 1
    ensures r[3] == '=' <==> |g| < 3
  {
    var x := g[0];
    var y := if |g| > 1 then g[1] else 0;
    var z := if |g| > 2 then g[2] else 0;
    [Digit(High6(x)), Digit(Mid6a(x, y)),
     if |g| > 1 then Digit(Mid6b(y, z)) else '=',
     if |g| > 2 then Digit(Low6(z)) else '=']
  }

  /** `EncodeBase64`: three bytes at a time, the last group padded. */
  function Encode(b: seq<Byte>): (r: string)
    ensures |r| == 4 * ((|b| + 2) / 3)
    decreases |b|
  {
    if |b| == 0 then ""
    else if |b| <= 3 then EncodeGroup(b)
    else
      assert (|b| + 2) / 3 == (|b| - 3 + 2) / 3 + 1;
      EncodeGroup(b[..3]) + Encode(b[3..])
  }

  // ---------------------------------------------------------------- validate

  /** `IsBase64`: a null pointer counts as the empty text; the text must be a
      non-empty multiple of four long, and any character that is not a digit must sit
      in the last two places and be followed only by pads. */
  function IsBase64(p: Option<string>): (r: bool)
    ensures p.None? ==> !r
  {
    var test := NullOptionPtr(p, "");
    if |test| == 0 || |test| % 4 != 0 then false
    else
      match FirstNotInTable(test)
      case None => true
      case Some(pos) => pos >= |test| - 2 && FirstNotPad(test, pos).None?
  }

  /** `GetBase64Size`: zero for text that is not base64; otherwise three bytes per
      group of four, less one per trailing pad. A text of pads alone would make
      `find_last_not_of` give `npos`, whose successor wraps to 0; base64 text always
      holds a digit, so that case does not arise. */
  function GetBase64Size(p: Option<string>): (r: nat)
    ensures !IsBase64(p) ==> r == 0
    ensures IsBase64(p) ==> r == 3 * (|p.value| / 4) - PadCount(p.value)
  {
    if !IsBase64(p) then 0
    else
      var test := p.value;
      IsBase64Shape(p);
      LastNotPadCountsPads(test);
      var afterLast := match LastNotPad(test) case Some(pos) => pos + 1 case None => 0;
      (|test| / 4) * 3 - (|test| - afterLast)
  }

  // ------------------------------------------------------------------ decode

  /** `((s1 & 0x3f) << 2) | ((s2 & 0x30) >> 4)`: the first byte of a group. */
  function Byte1(s1: int, s2: int): (r: Byte)
    ensures r / 4 == s1 % 64 && r % 4 == (s2 % 64) / 16
  {
    Split4(s1 % 64, (s2 % 64) / 16);
    (s1 % 64) * 4 + (s2 % 64) / 16
  }

  /** `((s2 & 0x0f) << 4) | ((s3 & 0x3c) >> 2)`: the second byte of a group. */
  function Byte2(s2: int, s3: int): (r: Byte)
    ensures r / 16 == s2 % 16 && r % 16 == (s3 % 64) / 4
  {
    Split16(s2 % 16, (s3 % 64) / 4);
    (s2 % 16) * 16 + (s3 % 64) / 4
  }

  /** `((s3 & 0x03) << 6) | (s4 & 0x3f)`: the third byte of a group. */
  function Byte3(s3: int, s4: int): (r: Byte)
    ensures r / 64 == s3 % 4 && r % 64 == s4 % 64
  {
    Split64(s3 % 4, s4 % 64);
    (s3 % 4) * 64 + s4 % 64
  }

  /** The bytes one group of four characters decodes to: the loop body of
      `DecodeBase64`. The second byte is written only when the third character is a
      digit, the third only when the fourth is too. */
  function DecodeGroup(g: string): (r: seq<Byte>)
    requires |g| == 4
    ensures |r| == (if !IsDigit(g[2]) then 1 else if !IsDigit(g[3]) then 2 else 3)
  {
    var s1, s2, s3, s4 := Find(g[0]), Find(g[1]), Find(g[2]), Find(g[3]);
    if s3 == -1 then [Byte1(s1, s2)]
    else if s4 == -1 then [Byte1(s1, s2), Byte2(s2, s3)]
    else [Byte1(s1, s2), Byte2(s2, s3), Byte3(s3, s4)]
  }

  /** Every group of four in turn. */
  function DecodeGroups(s: string): (r: seq<Byte>)
    requires |s| % 4 == 0
    ensures |s| <= 4 * |r| <= 3 * |s|
    decreases |s|
  {
    if |s| == 0 then [] else DecodeGroup(s[..4]) + DecodeGroups(s[4..])
  }

  /** `DecodeBase64`: whether the text is base64, and the bytes written through the
      output iterator, of which there are none when it is not. */
  function Decode(p: Option<string>): (r: (bool, seq<Byte>))
    ensures r.0 <==> IsBase64(p)
    ensures !r.0 ==> r.1 == []
    ensures r.0 ==> |r.1| == GetBase64Size(p)
  {
    if !IsBase64(p) then (false, [])
    else
      IsBase64Shape(p);
      DecodedLength(p.value);
      (true, DecodeGroups(p.value))
  }

  // ------------------------------------------------------------------ lemmas

  /** `IsBase64` accepts exactly the well-padded texts. */
  lemma IsBase64Shape(p: Option<string>)
    ensures IsBase64(p) <==> p.Some? && WellPadded(p.value)
  {
    if p.Some? {
      if IsBase64(p) {
        AcceptedIsWellPadded(p.value);
      }
      if WellPadded(p.value) {
        WellPaddedIsAccepted(p.value);
      }
    }
  }

  /** Accepted text is digits followed by at most two pads. */
  lemma AcceptedIsWellPadded(s: string)
    requires IsBase64(Some(s))
    ensures WellPadded(s)
  {
    match FirstNotInTable(s)
    case None =>
      assert PadCount(s) == 0;
      assert s[..|s|] == s;
    case Some(pos) =>
      assert IsDigit(s[pos - 1]);
      assert PadCount(s) == |s| - pos;
      var body := s[..pos];
      forall k | 0 <= k < pos ensures IsDigit(body[k]) {
        assert body[k] == s[k];
      }
  }

  /** Digits followed by at most two pads are accepted. */
  lemma WellPaddedIsAccepted(s: string)
    requires WellPadded(s)
    ensures IsBase64(Some(s))
  {
    var n := PadCount(s);
    DigitsBeforePads(s);
    if n > 0 {
      var pos := |s| - n;
      assert !IsDigit(s[pos]);
      assert FirstNotInTable(s) == Some(pos);
      assert FirstNotPad(s, pos).None?;
    }
  }

  /** The last character that is not a pad comes just before the trailing pads. */
  lemma LastNotPadCountsPads(s: string)
    requires PadCount(s) < |s|
    ensures LastNotPad(s) == Some(|s| - PadCount(s) - 1)
  {
  }

  /** Trailing pads are counted within the last part, as long as it holds a non-pad. */
  lemma {:induction false} PadAppend(a: string, r: string)
    requires PadCount(r) < |r|
    ensures PadCount(a + r) == PadCount(r)
    decreases |r|
  {
    var s := a + r;
    if r[|r| - 1] == '=' {
      assert s[..|s| - 1] == a + r[..|r| - 1];
      PadAppend(a, r[..|r| - 1]);
    }
  }

  /** Past the first group, encoding carries on with the rest of the bytes. */
  lemma EncodeSplit(b: seq<Byte>)
    requires |b| > 3
    ensures Encode(b) == EncodeGroup(b[..3]) + Encode(b[3..])
  {
  }

  /** A whole group of three bytes encodes to four digits. */
  lemma FullGroupDigits(g: seq<Byte>)
    requires |g| == 3
    ensures AllDigits(EncodeGroup(g))
  {
    var e := EncodeGroup(g);
    assert IsDigit(e[0]) && IsDigit(e[1]) && IsDigit(e[2]) && IsDigit(e[3]);
  }

  /** Decoding a text of groups starts with its first group. */
  lemma DecodeGroupsCons(g: string, r: string)
    requires |g| == 4 && |r| % 4 == 0
    ensures DecodeGroups(g + r) == DecodeGroup(g) + DecodeGroups(r)
  {
    var s := g + r;
    assert s[..4] == g;
    assert s[4..] == r;
  }

  /** Four digits in front of a well-padded text keep it well-padded, with the same
      pads. */
  lemma WellPaddedCons(g: string, r: string)
    requires |g| == 4 && AllDigits(g) && WellPadded(r)
    ensures WellPadded(g + r) && PadCount(g + r) == PadCount(r)
  {
    var s := g + r;
    var n := PadCount(r);
    PadAppend(g, r);
    var body, restBody := s[..|s| - n], r[..|r| - n];
    forall k | 0 <= k < |body| ensures IsDigit(body[k]) {
      if k < 4 {
        assert body[k] == g[k];
      } else {
        assert body[k] == restBody[k - 4];
      }
    }
  }

  /** A well-padded text longer than one group starts with four digits and goes on
      with a well-padded text holding the same pads. */
  lemma WellPaddedSplit(s: string)
    requires WellPadded(s) && |s| > 4
    ensures AllDigits(s[..4]) && WellPadded(s[4..]) && PadCount(s[4..]) == PadCount(s)
  {
    LeadingGroup(s);
    TailPads(s);
    TailBody(s, PadCount(s));
    FourMore(|s|, |s[4..]|);
  }

  /** The first group of a well-padded text longer than one group is all digits, and
      so is the character after it. */
  lemma LeadingGroup(s: string)
    requires WellPadded(s) && |s| > 4
    ensures AllDigits(s[..4]) && IsDigit(s[4])
  {
    DigitsBeforePads(s);
    var g := s[..4];
    forall k | 0 <= k < 4 ensures IsDigit(g[k]) {
      assert g[k] == s[k];
    }
  }

  /** Past a first group, a text that goes on with a digit keeps its pads. */
  lemma TailPads(s: string)
    requires |s| > 4 && IsDigit(s[4])
    ensures PadCount(s[4..]) == PadCount(s) < |s| - 4
  {
    var g, rest := s[..4], s[4..];
    LeadingDigitNotAllPads(rest);
    assert s == g + rest;
    PadAppend(g, rest);
  }

  /** What comes before the pads past a first group is digits. */
  lemma TailBody(s: string, n: nat)
    requires |s| > 4 && n < |s| - 4
    requires AllDigits(s[..|s| - n])
    ensures AllDigits(s[4..][..|s| - 4 - n])
  {
    var body, restBody := s[..|s| - n], s[4..][..|s| - 4 - n];
    forall k | 0 <= k < |restBody| ensures IsDigit(restBody[k]) {
      assert restBody[k] == body[k + 4];
    }
  }

  /** Four characters more leave the remainder by four unchanged. */
  lemma FourMore(n: int, m: int)
    requires n == m + 4
    ensures n % 4 == m % 4
  {
  }

  /** Every character of a well-padded text before its pads is a digit. */
  lemma DigitsBeforePads(s: string)
    requires WellPadded(s)
    ensures forall k :: 0 <= k < |s| - PadCount(s) ==> IsDigit(s[k])
  {
    var body := s[..|s| - PadCount(s)];
    forall k | 0 <= k < |body| ensures IsDigit(s[k]) {
      assert s[k] == body[k];
    }
  }

  /** A text that starts with a digit is not all pads. */
  lemma LeadingDigitNotAllPads(r: string)
    requires |r| > 0 && IsDigit(r[0])
    ensures PadCount(r) < |r|
  {
  }

  /** A well-padded group of four decodes to three bytes less one per pad. */
  lemma LastGroupLength(g: string)
    requires WellPadded(g) && |g| == 4
    ensures |DecodeGroup(g)| == 3 - PadCount(g)
  {
    var n := PadCount(g);
    var body := g[..4 - n];
    assert body[0] == g[0] && body[1] == g[1];
    if n == 0 {
      assert body[2] == g[2] && body[3] == g[3];
    } else if n == 1 {
      assert body[2] == g[2];
    }
  }

  /** A well-padded text decodes to three bytes per group, less one per pad. */
  lemma {:induction false} DecodedLength(s: string)
    requires WellPadded(s)
    ensures |DecodeGroups(s)| == 3 * (|s| / 4) - PadCount(s)
    decreases |s|
  {
    var g, rest := s[..4], s[4..];
    assert s == g + rest;
    DecodeGroupsCons(g, rest);
    if |s| == 4 {
      assert g == s;
      LastGroupLength(g);
    } else {
      WellPaddedSplit(s);
      assert |DecodeGroup(g)| == 3;
      DecodedLength(rest);
    }
  }

  /** Encoding `n` bytes gives `4 * ceil(n / 3)` characters. */
  lemma {:induction false} EncodedCount(b: seq<Byte>)
    ensures |Encode(b)| == 4 * ((|b| + 2) / 3)
    decreases |b|
  {
    if |b| > 3 {
      var later := b[3..];
      EncodeSplit(b);
      EncodedCount(later);
      assert (|b| + 2) / 3 == (|later| + 2) / 3 + 1;
    }
  }

  /** An encoding is whole groups of four characters. */
  lemma EncodedGroups(b: seq<Byte>)
    ensures |Encode(b)| == 4 * ((|b| + 2) / 3)
    ensures |Encode(b)| % 4 == 0
  {
    EncodedCount(b);
    FourTimes(|Encode(b)|, (|b| + 2) / 3);
  }

  /** Three more leaves the same remainder by three. */
  lemma ThreeMore(n: int, m: int)
    requires n == m + 3
    ensures n % 3 == m % 3
  {
  }

  /** Four times a count is a multiple of four. */
  lemma FourTimes(n: int, k: int)
    requires n == 4 * k
    ensures n % 4 == 0
  {
  }

  /** Encoding `n` bytes gives `4 * ceil(n / 3)` characters, each a digit or `=`. */
  lemma {:induction false} EncodeLength(b: seq<Byte>)
    ensures |Encode(b)| == 4 * ((|b| + 2) / 3)
    ensures forall k :: 0 <= k < |Encode(b)| ==> IsDigit(Encode(b)[k]) || Encode(b)[k] == '='
    decreases |b|
  {
    EncodedGroups(b);
    if |b| > 3 {
      EncodeSplit(b);
      EncodeLength(b[3..]);
      var g, r := EncodeGroup(b[..3]), Encode(b[3..]);
      FullGroupDigits(b[..3]);
      forall k | 0 <= k < |g + r| ensures IsDigit((g + r)[k]) || (g + r)[k] == '=' {
        if k < 4 {
          assert (g + r)[k] == g[k];
        } else {
          assert (g + r)[k] == r[k - 4];
        }
      }
    }
  }

  /** An encoding of at least one byte is well-padded, and its padding follows the
      length modulo three: two pads for one left-over byte, one for two, none for
      whole groups. */
  lemma {:induction false} EncodeShape(b: seq<Byte>)
    requires |b| > 0
    ensures WellPadded(Encode(b))
    ensures |b| % 3 == 1 ==> PadCount(Encode(b)) == 2
    ensures |b| % 3 == 2 ==> PadCount(Encode(b)) == 1
    ensures |b| % 3 == 0 ==> PadCount(Encode(b)) == 0
    decreases |b|
  {
    if |b| <= 3 {
      GroupShape(b);
    } else {
      var first, later := b[..3], b[3..];
      EncodeSplit(b);
      EncodeShape(later);
      FullGroupDigits(first);
      WellPaddedCons(EncodeGroup(first), Encode(later));
      ThreeMore(|b|, |later|);
    }
  }

  /** A single group is well-padded, with one pad per missing byte. */
  lemma GroupShape(g: seq<Byte>)
    requires 1 <= |g| <= 3
    ensures WellPadded(EncodeGroup(g))
    ensures PadCount(EncodeGroup(g)) == 3 - |g|
  {
    var e := EncodeGroup(g);
    assert e[..3][..2] == e[..2];
    assert e[..3] == e[..2] + [e[2]];
  }

  /** An encoding of at least one byte is base64. */
  lemma EncodeIsBase64(b: seq<Byte>)
    requires |b| > 0
    ensures IsBase64(Some(Encode(b)))
  {
    EncodeShape(b);
    IsBase64Shape(Some(Encode(b)));
  }

  /** Splitting `q * 4 + r` with `r` below 4 gives back `q` and `r`. */
  lemma Split4(q: int, r: int)
    requires 0 <= r < 4
    ensures (q * 4 + r) / 4 == q && (q * 4 + r) % 4 == r
  {
  }

  /** Splitting `q * 16 + r` with `r` below 16 gives back `q` and `r`. */
  lemma Split16(q: int, r: int)
    requires 0 <= r < 16
    ensures (q * 16 + r) / 16 == q && (q * 16 + r) % 16 == r
  {
  }

  /** Splitting `q * 64 + r` with `r` below 64 gives back `q` and `r`. */
  lemma Split64(q: int, r: int)
    requires 0 <= r < 64
    ensures (q * 64 + r) / 64 == q && (q * 64 + r) % 64 == r
  {
  }

  /** The first byte is the high six bits of the first value and the top two of the
      second. */
  lemma Recombine1(x: Byte, y: Byte)
    ensures Byte1(High6(x), Mid6a(x, y)) == x
  {
    var hi, lo := x / 4, x % 4;
    Split64(0, hi);
    Split16(lo, y / 16);
    Split64(0, lo * 16 + y / 16);
    assert Byte1(High6(x), Mid6a(x, y)) == hi * 4 + lo;
  }

  /** The second byte is the low four bits of the second value and the top four of
      the third. */
  lemma Recombine2(x: Byte, y: Byte, z: Byte)
    ensures Byte2(Mid6a(x, y), Mid6b(y, z)) == y
  {
    var hi, lo := y / 16, y % 16;
    Split16(x % 4, hi);
    Split4(lo, z / 64);
    Split64(0, lo * 4 + z / 64);
    assert Byte2(Mid6a(x, y), Mid6b(y, z)) == hi * 16 + lo;
  }

  /** The third byte is the low two bits of the third value and all of the fourth. */
  lemma Recombine3(y: Byte, z: Byte)
    ensures Byte3(Mid6b(y, z), Low6(z)) == z
  {
    var hi, lo := z / 64, z % 64;
    Split4(y % 16, hi);
    Split64(0, lo);
    assert Byte3(Mid6b(y, z), Low6(z)) == hi * 64 + lo;
  }

  /** A group decodes to the bytes it encodes. */
  lemma DecodeEncodeGroup(g: seq<Byte>)
    requires 1 <= |g| <= 3
    ensures DecodeGroup(EncodeGroup(g)) == g
  {
    var x := g[0];
    if |g| == 1 {
      assert g == [x];
      DecodeEncode1(x);
    } else if |g| == 2 {
      var y := g[1];
      assert g == [x, y];
      DecodeEncode2(x, y);
    } else {
      var y, z := g[1], g[2];
      assert g == [x, y, z];
      DecodeEncode3(x, y, z);
    }
  }

  /** A lone byte survives its group. */
  lemma DecodeEncode1(x: Byte)
    ensures DecodeGroup(EncodeGroup([x])) == [x]
  {
    var c1, c2 := High6(x), Mid6a(x, 0);
    assert EncodeGroup([x]) == [Digit(c1), Digit(c2), '=', '='];
    DecodeDigits(c1, c2, -1, -1);
    Recombine1(x, 0);
  }

  /** Two bytes survive their group. */
  lemma DecodeEncode2(x: Byte, y: Byte)
    ensures DecodeGroup(EncodeGroup([x, y])) == [x, y]
  {
    var c1, c2, c3 := High6(x), Mid6a(x, y), Mid6b(y, 0);
    assert EncodeGroup([x, y]) == [Digit(c1), Digit(c2), Digit(c3), '='];
    DecodeDigits(c1, c2, c3, -1);
    Recombine1(x, y);
    Recombine2(x, y, 0);
  }

  /** Three bytes survive their group. */
  lemma DecodeEncode3(x: Byte, y: Byte, z: Byte)
    ensures DecodeGroup(EncodeGroup([x, y, z])) == [x, y, z]
  {
    var c1, c2, c3, c4 := High6(x), Mid6a(x, y), Mid6b(y, z), Low6(z);
    assert EncodeGroup([x, y, z]) == [Digit(c1), Digit(c2), Digit(c3), Digit(c4)];
    DecodeDigits(c1, c2, c3, c4);
    Recombine1(x, y);
    Recombine2(x, y, z);
    Recombine3(y, z);
  }

  /** The character a six-bit value encodes to, or the pad for -1. */
  function DigitOrPad(c: int): char
    requires -1 <= c < 64
  {
    if c == -1 then '=' else Digit(c)
  }

  /** Decoding a group of digits, the last one or two possibly pads, recombines the
      values the digits stand for. */
  lemma DecodeDigits(c1: int, c2: int, c3: int, c4: int)
    requires 0 <= c1 < 64 && 0 <= c2 < 64 && -1 <= c3 < 64 && -1 <= c4 < 64
    requires c3 == -1 ==> c4 == -1
    ensures DecodeGroup([Digit(c1), Digit(c2), DigitOrPad(c3), DigitOrPad(c4)]) ==
      if c3 == -1 then [Byte1(c1, c2)]
      else if c4 == -1 then [Byte1(c1, c2), Byte2(c2, c3)]
      else [Byte1(c1, c2), Byte2(c2, c3), Byte3(c3, c4)]
  {
    FindDigit(c1);
    FindDigit(c2);
    if c3 != -1 {
      FindDigit(c3);
    }
    if c4 != -1 {
      FindDigit(c4);
    }
  }

  /** Group by group, decoding undoes encoding. */
  lemma {:induction false} DecodeGroupsEncode(b: seq<Byte>)
    ensures |Encode(b)| % 4 == 0
    ensures DecodeGroups(Encode(b)) == b
    decreases |b|
  {
    EncodedGroups(b);
    if 0 < |b| <= 3 {
      DecodeLastGroup(b);
    } else if |b| > 3 {
      DecodeGroupsEncode(b[3..]);
      DecodeFirstGroup(b);
    }
  }

  /** Decoding a longer encoding gives the first three bytes, then whatever the rest
      decodes to. */
  lemma DecodeFirstGroup(b: seq<Byte>)
    requires |b| > 3
    ensures |Encode(b[3..])| % 4 == 0
    ensures DecodeGroups(Encode(b)) == b[..3] + DecodeGroups(Encode(b[3..]))
  {
    var first, later := b[..3], b[3..];
    var g, r := EncodeGroup(first), Encode(later);
    EncodeSplit(b);
    EncodedGroups(later);
    DecodeGroupsCons(g, r);
    DecodeEncodeGroup(first);
  }

  /** A short byte sequence is one group, and decodes back. */
  lemma DecodeLastGroup(b: seq<Byte>)
    requires 0 < |b| <= 3
    ensures DecodeGroups(Encode(b)) == b
  {
    var g := EncodeGroup(b);
    assert Encode(b) == g;
    assert g + "" == g;
    DecodeGroupsCons(g, "");
    DecodeEncodeGroup(b);
  }

  /** Decoding the encoding of a non-empty byte sequence succeeds and gives the bytes
      back. */
  lemma DecodeEncode(b: seq<Byte>)
    requires |b| > 0
    ensures Decode(Some(Encode(b))) == (true, b)
  {
    EncodeIsBase64(b);
    DecodeGroupsEncode(b);
  }

  /** The size predicted for an encoding is the number of bytes encoded. */
  lemma EncodedSize(b: seq<Byte>)
    requires |b| > 0
    ensures GetBase64Size(Some(Encode(b))) == |b|
  {
    var s := Encode(b);
    EncodeIsBase64(b);
    EncodeLength(b);
    EncodeShape(b);
    var q, m := |b| / 3, |b| % 3;
    assert |b| == 3 * q + m;
    if m == 0 {
      assert (|b| + 2) / 3 == q;
    } else {
      assert (|b| + 2) / 3 == q + 1;
    }
    assert GetBase64Size(Some(s)) == 3 * (|s| / 4) - PadCount(s);
  }

  /** Encoding nothing gives the empty text, which is not base64, so the round trip
      starts at one byte; a null pointer is not base64 either. */
  lemma EmptyIsNotBase64()
    ensures Encode([]) == ""
    ensures !IsBase64(Some(""))
    ensures !IsBase64(None) && GetBase64Size(None) == 0 && Decode(None) == (false, [])
  {
  }
}
