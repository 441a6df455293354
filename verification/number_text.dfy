/** Decimal integer text: the integer reader the JSON number classifier relies on,
    and the decimal writer a number serializer would need. */
module NumberText {
  import opened Common

  predicate IsDigit(c: char) { '0' <= c <= '9' }

  /** `isspace` in the "C" locale: space, and TAB through CR. */
  predicate IsCSpace(c: char) { c == ' ' || '\t' <= c <= '\r' }

  predicate AllDigits(s: string) {
    forall i :: 0 <= i < |s| ==> IsDigit(s[i])
  }

  function DigitValue(c: char): (d: nat)
    requires IsDigit(c)
    ensures d < 10
  {
    c as int - '0' as int
  }

  function DigitChar(d: nat): (c: char)
    requires d < 10
    ensures IsDigit(c) && DigitValue(c) == d
  {
    (d + '0' as int) as char
  }

  /** Value of a digit string, most significant digit first. */
  function DigitsValue(s: string): nat
    requires AllDigits(s)
  {
    if |s| == 0 then 0 else DigitsValue(s[..|s| - 1]) * 10 + DigitValue(s[|s| - 1])
  }

  /** Index of the first character of `s` at or after `i` that is not C whitespace. */
  function SkipCSpace(s: string, i: nat): (k: nat)
    requires i <= |s|
    ensures i <= k <= |s|
    ensures forall j :: i <= j < k ==> IsCSpace(s[j])
    ensures k < |s| ==> !IsCSpace(s[k])
    decreases |s| - i
  {
    if i < |s| && IsCSpace(s[i]) then SkipCSpace(s, i + 1) else i
  }

  /** The integer a strtol-style reader takes from `s` when it consumes all of it:
      leading C whitespace, an optional sign, then one or more decimal digits and
      nothing else. No range limit is applied here. */
  function ParseDecimal(s: string): (r: Option<int>)
  {
    var k := SkipCSpace(s, 0);
    var neg := k < |s| && s[k] == '-';
    var d := if k < |s| && (s[k] == '-' || s[k] == '+') then k + 1 else k;
    var digits := s[d..];
    if |digits| > 0 && AllDigits(digits) then
      var magnitude: int := DigitsValue(digits);
      Some(if neg then -magnitude else magnitude)
    else
      None
  }

  /** `TryStringToInteger(s, 10, &out)` for an output type whose range is `lo..hi`:
      succeeds exactly when the whole text is one decimal integer inside the range.
      The helper is declared in a header outside this model; this is the behaviour
      its tests exercise (a sign is accepted, a letter or an out-of-range value is not). */
  function TryStringToInteger(s: string, lo: int, hi: int): (r: Option<int>)
    ensures r.Some? <==> ParseDecimal(s).Some? && lo <= ParseDecimal(s).value <= hi
    ensures r.Some? ==> r == ParseDecimal(s)
  {
    match ParseDecimal(s)
    case Some(x) => if lo <= x <= hi then Some(x) else None
    case None => None
  }

  /** Decimal digits of a natural number, without leading zeros. */
  function NatText(n: nat): (s: string)
    ensures |s| > 0 && AllDigits(s)
    ensures s[0] == '0' ==> n == 0
    decreases n
  {
    if n < 10 then [DigitChar(n)] else NatText(n / 10) + [DigitChar(n % 10)]
  }

  /** `printf("%d")` of an integer: an optional minus sign and the digits of its magnitude. */
  function DecimalText(x: int): (s: string)
    ensures |s| > 0 && (IsDigit(s[0]) || s[0] == '-')
    ensures forall i :: 0 < i < |s| ==> IsDigit(s[i])
  {
    if x < 0 then "-" + NatText(-x) else NatText(x)
  }

  lemma {:induction false} NatTextValue(n: nat)
    ensures DigitsValue(NatText(n)) == n
    decreases n
  {
    if n >= 10 {
      var s := NatText(n / 10);
      var t := s + [DigitChar(n % 10)];
      assert t[..|t| - 1] == s;
      NatTextValue(n / 10);
    }
  }

  /** Reading back a formatted integer gives the integer: the integer reader is a
      left inverse of the decimal writer. */
  lemma DecimalTextRoundTrip(x: int)
    ensures ParseDecimal(DecimalText(x)) == Some(x)
  {
    var s := DecimalText(x);
    assert SkipCSpace(s, 0) == 0;
    if x < 0 {
      NatTextValue(-x);
      assert s[1..] == NatText(-x);
    } else {
      NatTextValue(x);
      assert s[0..] == s;
    }
  }
}
