/** The JSON value model: the closed hierarchy of value kinds and the coercions
    every value offers (`ToBoolean`, `ToString`, `ToInt32`). */
module JsonValue {
  import opened Common
  import opened NumberText

  /** An IEEE double, kept as its bit pattern; the model never interprets it. */
  datatype Double = Double(bits: bv64)

  /** A JSON number holds exactly one of three representations. */
  datatype Number =
    | I32(i32: Int32)
    | I64(i64: Int64)
    | Dbl(dbl: Double)

  /** One node of a JSON tree. An object is an association list of members;
      an array is a sequence of values. */
  datatype Value =
    | Null
    | Boolean(b: bool)
    | String(s: string)
    | Num(n: Number)
    | Object(members: seq<Member>)
    | Array(elements: seq<Value>)

  /** One name/value mapping of an object. */
  datatype Member = Member(name: string, value: Value)

  /** The floating-point services of the C library the core calls:
      - `strtod(s)` gives the converted value and how many characters it consumed;
      - `isHugeVal(d)` tells whether `d` is `HUGE_VAL` or `-HUGE_VAL`;
      - `toInt32(d)` is `static_cast<std::int32_t>(d)`.
      They stay parameters because the model does not interpret doubles. */
  datatype FloatLib = FloatLib(
    strtod: string -> (Double, nat),
    isHugeVal: Double -> bool,
    toInt32: Double -> Int32)

  /** Index of the first character of `s` that is not a space, or `|s|` when there is none. */
  function FirstNotSpace(s: string, i: nat): (k: nat)
    requires i <= |s|
    ensures i <= k <= |s|
    ensures forall j :: i <= j < k ==> s[j] == ' '
    ensures k < |s| ==> s[k] != ' '
    decreases |s| - i
  {
    if i < |s| && s[i] == ' ' then FirstNotSpace(s, i + 1) else i
  }

  /** True when `s` is empty or only spaces. */
  predicate Blank(s: string) {
    forall i :: 0 <= i < |s| ==> s[i] == ' '
  }

  /** True when the first character of `s` that is not a space is `+`. */
  predicate LeadingPlus(s: string) {
    exists k :: 0 <= k < |s| && s[k] == '+' && Blank(s[..k])
  }

  /** `Blank` and `LeadingPlus` are decided by the first character that is not a space. */
  lemma FirstNonSpaceDecides(s: string)
    ensures var k := FirstNotSpace(s, 0);
      && (Blank(s) <==> k == |s|)
      && (LeadingPlus(s) <==> k < |s| && s[k] == '+')
  {
    var k := FirstNotSpace(s, 0);
    if LeadingPlus(s) {
      var j :| 0 <= j < |s| && s[j] == '+' && Blank(s[..j]);
      assert j == k by {
        if j > k {
          assert false;
        }
      }
    }
    if k < |s| && s[k] == '+' {
      assert Blank(s[..k]);
    }
  }

  /** `NumberStringToJsonValue`: classifies a numeric literal into the narrowest
      representation that holds it, or gives `None`. */
  function NumberStringToJsonValue(fl: FloatLib, s: string): (r: Option<Number>)
    ensures Blank(s) ==> r.None?
    ensures LeadingPlus(s) ==> r.None?
    ensures !Blank(s) && !LeadingPlus(s) ==>
      match TryStringToInteger(CString(s), Int32Min, Int32Max)
      case Some(x) => r == Some(I32(x))
      case None =>
        match TryStringToInteger(CString(s), Int64Min, Int64Max)
        case Some(y) => r == Some(I64(y))
        case None =>
          var (d, used) := fl.strtod(CString(s));
          r == (if used == |CString(s)| && !fl.isHugeVal(d) then Some(Dbl(d)) else None)
  {
    var k := FirstNotSpace(s, 0);
    FirstNonSpaceDecides(s);
    if k == |s| || s[k] == '+' then
      None
    else
      var text := CString(s);
      match TryStringToInteger(text, Int32Min, Int32Max)
      case Some(x) => Some(I32(x))
      case None =>
        match TryStringToInteger(text, Int64Min, Int64Max)
        case Some(y) => Some(I64(y))
        case None =>
          var (d, used) := fl.strtod(text);
          if used == |text| && !fl.isHugeVal(d) then Some(Dbl(d)) else None
  }

  /** The representation chosen is the narrowest one: a 64-bit integer only when the
      value does not fit 32 bits, a double only when the text is no 64-bit integer. */
  lemma ClassificationIsNarrowest(fl: FloatLib, s: string)
    ensures match NumberStringToJsonValue(fl, s)
      case Some(I64(y)) => ParseDecimal(CString(s)) == Some(y) && !(Int32Min <= y <= Int32Max)
      case Some(Dbl(_)) =>
        ParseDecimal(CString(s)).None? || !(Int64Min <= ParseDecimal(CString(s)).value <= Int64Max)
      case Some(I32(x)) => ParseDecimal(CString(s)) == Some(x)
      case None => true
  {
  }

  /** Every integer printed by `%d` is classified back to itself, in the
      narrowest representation that holds it. */
  lemma ClassifyDecimalText(fl: FloatLib, x: Int64)
    ensures NumberStringToJsonValue(fl, DecimalText(x)) ==
      if Int32Min <= x <= Int32Max then Some(I32(x)) else Some(I64(x))
  {
    var s := DecimalText(x);
    DecimalTextRoundTrip(x);
    FirstNonSpaceDecides(s);
    CStringWithoutNul(s);
  }

  lemma CStringWithoutNul(s: string)
    requires '\0' !in s
    ensures CString(s) == s
  {
  }

  /** `ToBoolean`: a boolean is itself and a string is a boolean only when it is
      exactly "true" or "false"; every other kind (numbers included) gives `None`. */
  function ToBoolean(v: Value): (r: Option<bool>)
    ensures r == Some(true) <==> v == Boolean(true) || v == String("true")
    ensures r == Some(false) <==> v == Boolean(false) || v == String("false")
  {
    match v
    case Boolean(b) => Some(b)
    case String(s) => if s == "true" then Some(true) else if s == "false" then Some(false) else None
    case _ => None
  }

  /** The text a boolean renders as. */
  function BoolText(b: bool): string {
    if b then "true" else "false"
  }

  /** `SerializeValue` of a number: every representation renders as the empty text,
      the formatting call being commented out in the source. */
  function SerializeNumber(n: Number): (r: string)
    ensures |r| == 0
  {
    match n
    case I32(_) => ""
    case I64(_) => ""
    case Dbl(_) => ""
  }

  /** `ToString`: null has no text; booleans, strings and numbers give their text;
      containers give a tag that is not their content. */
  function ToString(v: Value): (r: Option<string>)
    ensures r.None? <==> v.Null?
    ensures v.String? ==> r == Some(v.s)
    ensures v.Boolean? ==> r == Some(BoolText(v.b))
    ensures v.Num? ==> r == Some("")
    ensures v.Object? ==> r == Some("object")
    ensures v.Array? ==> r == Some("array")
  {
    match v
    case Null => None
    case Boolean(b) => Some(BoolText(b))
    case String(s) => Some(s)
    case Num(n) => Some(SerializeNumber(n))
    case Object(_) => Some("object")
    case Array(_) => Some("array")
  }

  /** `JsonNumber::ToInt32`: a 32-bit integer is itself, a 64-bit integer is narrowed,
      a double is cast by the C++ conversion. */
  function NumberToInt32(fl: FloatLib, n: Number): (r: Int32)
    ensures n.I32? ==> r == n.i32
    ensures n.I64? ==> (n.i64 - r) % 0x1_0000_0000 == 0
    ensures n.Dbl? ==> r == fl.toInt32(n.dbl)
  {
    match n
    case I32(x) => x
    case I64(y) => NarrowToInt32(y)
    case Dbl(d) => fl.toInt32(d)
  }

  /** `ToInt32`: booleans give 1 or 0, numbers are narrowed, a string goes through the
      number classifier first; null and containers give `None`. */
  function ToInt32(fl: FloatLib, v: Value): (r: Option<Int32>)
    ensures r.Some? <==>
      v.Boolean? || v.Num? || (v.String? && NumberStringToJsonValue(fl, v.s).Some?)
    ensures v.Boolean? ==> r == Some(if v.b then 1 else 0)
    ensures v.Num? ==> r == Some(NumberToInt32(fl, v.n))
    ensures v.String? && r.Some? ==>
      r.value == NumberToInt32(fl, NumberStringToJsonValue(fl, v.s).value)
  {
    match v
    case Boolean(b) => Some(if b then 1 else 0)
    case String(s) =>
      (match NumberStringToJsonValue(fl, s)
       case Some(n) => Some(NumberToInt32(fl, n))
       case None => None)
    case Num(n) => Some(NumberToInt32(fl, n))
    case _ => None
  }

  /** Whatever `ToBoolean` accepts renders back, through `ToString`, as the text of
      the boolean it gave; and that text coerces back to the same boolean. */
  lemma BooleanCoercionAgreesWithText(v: Value)
    ensures ToBoolean(v).Some? ==> ToString(v) == Some(BoolText(ToBoolean(v).value))
    ensures ToBoolean(v).Some? ==> ToBoolean(String(BoolText(ToBoolean(v).value))) == ToBoolean(v)
  {
  }

  /** A string holding a decimal integer coerces to the integer, narrowed like a number. */
  lemma StringToInt32OfDecimal(fl: FloatLib, x: Int64)
    ensures ToInt32(fl, String(DecimalText(x))) == Some(NumberToInt32(fl, I64(x)))
  {
    ClassifyDecimalText(fl, x);
  }
}
