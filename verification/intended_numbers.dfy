/** Number serialization as evidently intended, beside the code as written: the
    formatting calls commented out in `SerializeValue` (`%d` for the two integer
    representations, `%g` for a double). */
module IntendedNumbers {
  import opened Common
  import opened NumberText
  import opened InputStream
  import opened JsonValue
  import opened JsonSerializer
  import opened JsonParser
  import JsonRoundTrip
  import JsonParseProperties

  /** As written a number writes nothing, so an array holding one number serializes
      as `[]` and reads back as the empty array: the number is lost. */
  lemma AsWrittenDropsNumber(fl: FloatLib, x: Int32)
    ensures SerializeValue(Array([Num(I32(x))])) == "[]"
    ensures ParseArrayText(fl, SerializeValue(Array([Num(I32(x))]))) == Some([])
  {
    SerializeShapes(Array([Num(I32(x))]));
    SerializeShapes(Num(I32(x)));
    SerializeShapes(Array([]));
    assert SerializeValue(Array([])) == "[]";
    JsonParseProperties.ParseArrayTextOfSerialized(fl, [], "");
    assert SerializeValue(Array([])) + "" == "[]";
  }

  /** The text a number writes as intended: the decimal digits of an integer, and
      `printf("%g")` of a double, which stays a parameter like the rest of the
      floating-point library. */
  function SerializeNumberIntended(formatG: Double -> string, n: Number): (r: string)
    ensures n.I32? ==> ParseDecimal(r) == Some(n.i32 as int)
    ensures n.I64? ==> ParseDecimal(r) == Some(n.i64 as int)
    ensures n.Dbl? ==> r == formatG(n.dbl)
  {
    match n
    case I32(x) => DecimalTextRoundTrip(x); DecimalText(x)
    case I64(y) => DecimalTextRoundTrip(y); DecimalText(y)
    case Dbl(d) => formatG(d)
  }

  /** The intended text is all number characters and starts with no whitespace. */
  lemma DecimalTextIsNumberRun(x: int)
    ensures Trim(DecimalText(x), 0) == 0
    ensures NumberRun(DecimalText(x), 0) == |DecimalText(x)|
  {
    var s := DecimalText(x);
    assert !IsWhitespace(s[0]);
    NumberRunToEnd(s, 0);
  }

  /** A run of number characters reaching the end of the text. */
  lemma {:induction false} NumberRunToEnd(s: string, p: nat)
    requires p <= |s|
    requires forall i :: p <= i < |s| ==> IsNumberChar(s[i])
    ensures NumberRun(s, p) == |s|
    decreases |s| - p
  {
    if p < |s| {
      NumberRunToEnd(s, p + 1);
    }
  }

  /** The parser reads an intended integer text back as the same integer, in the
      narrowest representation that holds it. */
  lemma IntendedIntegerRoundTrip(fl: FloatLib, formatG: Double -> string, n: Number)
    requires !n.Dbl?
    ensures var s := SerializeNumberIntended(formatG, n);
      var x: Int64 := if n.I32? then n.i32 else n.i64;
      ParseNumber(fl, s, 0) ==
        Some((if Int32Min <= x <= Int32Max then I32(x) else I64(x), |s|))
  {
    var x: Int64 := if n.I32? then n.i32 else n.i64;
    var s := SerializeNumberIntended(formatG, n);
    assert s == DecimalText(x);
    DecimalTextIsNumberRun(x);
    ClassifyDecimalText(fl, x);
    assert s[0..|s|] == s;
  }
}
