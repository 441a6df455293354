/** `SerializeValue` over the whole value tree. Containers write every child followed
    by a comma and then erase the last comma; the model keeps that construction and
    proves it equal to the plain comma-joined form. Object members are written in list
    order, standing for the source's unspecified `unordered_map` iteration order. */
module JsonSerializer {
  import opened Common
  import opened JsonValue
  import opened JsonString

  /** `serial.erase(serial.size() - 1)` applied only when something was written. */
  function EraseLast(s: string): (r: string)
    ensures |s| > 0 ==> s == r + [s[|s| - 1]]
    ensures |s| == 0 ==> r == s
  {
    if |s| == 0 then s else s[..|s| - 1]
  }

  /** `SerializeValue`: the text a value writes. */
  function SerializeValue(v: Value): (r: string)
    ensures v.Num? <==> |r| == 0
    ensures |r| > 0 ==>
      && (r[0] == 'n' <==> v.Null?)
      && (r[0] == 't' || r[0] == 'f' <==> v.Boolean?)
      && (r[0] == '"' <==> v.String?)
      && (r[0] == '{' <==> v.Object?)
      && (r[0] == '[' <==> v.Array?)
    ensures v.Object? ==> r[|r| - 1] == '}'
    ensures v.Array? ==> r[|r| - 1] == ']'
    decreases v
  {
    match v
    case Null => "null"
    case Boolean(b) => BoolText(b)
    case String(s) => SerializeString(s)
    case Num(n) => SerializeNumber(n)
    case Object(ms) => "{" + EraseLast(MemberTexts(ms)) + "}"
    case Array(es) => "[" + EraseLast(ElementTexts(es)) + "]"
  }

  /** The object loop: each member's name, a colon, its value and a comma. */
  function MemberTexts(ms: seq<Member>): (r: string)
    ensures |ms| == 0 <==> |r| == 0
    ensures |ms| > 0 ==> MemberText(ms[0]) <= r && r[|r| - 1] == ','
    decreases ms
  {
    if |ms| == 0 then ""
    else SerializeString(ms[0].name) + ":" + SerializeValue(ms[0].value) + "," + MemberTexts(ms[1..])
  }

  /** The array loop: each element's text and a comma. */
  function ElementTexts(es: seq<Value>): (r: string)
    ensures |es| == 0 <==> |r| == 0
    ensures |es| > 0 ==> SerializeValue(es[0]) <= r && r[|r| - 1] == ','
    decreases es
  {
    if |es| == 0 then "" else SerializeValue(es[0]) + "," + ElementTexts(es[1..])
  }

  /** The text of one member: its serialized name, a colon and its value. */
  function MemberText(m: Member): string {
    SerializeString(m.name) + ":" + SerializeValue(m.value)
  }

  /** Member texts separated by commas, with no comma after the last. */
  function JoinMembers(ms: seq<Member>): (r: string)
    ensures |ms| == 0 <==> |r| == 0
    ensures |ms| > 0 ==> MemberText(ms[0]) <= r
  {
    if |ms| == 0 then ""
    else if |ms| == 1 then MemberText(ms[0])
    else MemberText(ms[0]) + "," + JoinMembers(ms[1..])
  }

  /** Element texts separated by commas, with no comma after the last. */
  function JoinElements(es: seq<Value>): (r: string)
    ensures |es| == 0 ==> |r| == 0
    ensures |es| > 0 ==> SerializeValue(es[0]) <= r
  {
    if |es| == 0 then ""
    else if |es| == 1 then SerializeValue(es[0])
    else SerializeValue(es[0]) + "," + JoinElements(es[1..])
  }

  /** Writing a comma after every member and erasing the last one joins the members
      with commas. */
  lemma {:induction false} MemberTextsJoin(ms: seq<Member>)
    ensures |ms| > 0 ==> MemberTexts(ms) == JoinMembers(ms) + ","
    ensures EraseLast(MemberTexts(ms)) == JoinMembers(ms)
  {
    if |ms| > 0 {
      assert MemberTexts(ms) == MemberText(ms[0]) + "," + MemberTexts(ms[1..]);
    }
    if |ms| > 1 {
      MemberTextsJoin(ms[1..]);
    }
    if |ms| > 0 {
      var s := MemberTexts(ms);
      assert s[..|s| - 1] == JoinMembers(ms);
    }
  }

  /** Writing a comma after every element and erasing the last one joins the elements
      with commas. */
  lemma {:induction false} ElementTextsJoin(es: seq<Value>)
    ensures |es| > 0 ==> ElementTexts(es) == JoinElements(es) + ","
    ensures EraseLast(ElementTexts(es)) == JoinElements(es)
  {
    if |es| > 0 {
      assert ElementTexts(es) == SerializeValue(es[0]) + "," + ElementTexts(es[1..]);
    }
    if |es| > 1 {
      ElementTextsJoin(es[1..]);
    }
    if |es| > 0 {
      var s := ElementTexts(es);
      assert s[..|s| - 1] == JoinElements(es);
    }
  }

  /** The shape of every serialization: literals for null and booleans, the quoted
      string, nothing for a number, and containers as their joined children between
      brackets with no whitespace. */
  lemma SerializeShapes(v: Value)
    ensures v.Null? ==> SerializeValue(v) == "null"
    ensures v.Boolean? ==> SerializeValue(v) == (if v.b then "true" else "false")
    ensures v.String? ==> SerializeValue(v) == "\"" + Escape(v.s) + "\""
    ensures v.Num? ==> SerializeValue(v) == ""
    ensures v.Object? ==> SerializeValue(v) == "{" + JoinMembers(v.members) + "}"
    ensures v.Array? ==> SerializeValue(v) == "[" + JoinElements(v.elements) + "]"
  {
    match v
    case Object(ms) => MemberTextsJoin(ms);
    case Array(es) => ElementTextsJoin(es);
    case _ =>
  }
}
