/** Parsing what the serializer writes gives the tree back, for every tree the
    serializer can write faithfully: no numbers (they serialize to nothing), strings and
    names free of the control characters that have no short escape, and unique names in
    every object. Whatever text follows the serialization is never looked at. */
module JsonRoundTrip {
  import opened Common
  import opened InputStream
  import opened JsonValue
  import opened JsonString
  import opened Members
  import opened JsonParser
  import opened JsonSerializer

  /** A tree the serializer writes in a form the parser reads back. */
  predicate Printable(v: Value)
    decreases v
  {
    match v
    case Null => true
    case Boolean(_) => true
    case String(s) => Serializable(s)
    case Num(_) => false
    case Object(ms) => UniqueNames(ms) && PrintableMembers(ms)
    case Array(es) => PrintableElements(es)
  }

  /** Every member has a serializable name and a printable value. */
  predicate PrintableMembers(ms: seq<Member>)
    decreases ms
  {
    |ms| == 0 || (Serializable(ms[0].name) && Printable(ms[0].value) && PrintableMembers(ms[1..]))
  }

  /** Every element is printable. */
  predicate PrintableElements(es: seq<Value>)
    decreases es
  {
    |es| == 0 || (Printable(es[0]) && PrintableElements(es[1..]))
  }

  /** The first character of a word found in the text. */
  lemma TextAtFirst(t: string, p: nat, w: string)
    requires TextAt(t, p, w) && |w| > 0
    ensures p < |t| && t[p] == w[0]
  {
    assert t[p..p + |w|][0] == w[0];
  }

  /** A cursor on a character that is not whitespace stays where it is when trimmed. */
  lemma TrimAtToken(t: string, p: nat)
    requires p < |t| && !IsWhitespace(t[p])
    ensures Trim(t, p) == p && GetChar(t, p) == t[p]
  {
    TrimStopsAt(t, p, p);
  }

  /** The pieces of `a + b + c + d` found at the cursor, each at its own named cursor. */
  lemma TextAtFour(t: string, p: nat, a: string, b: string, c: string, d: string,
                   pb: nat, pc: nat, pd: nat)
    requires TextAt(t, p, a + b + c + d)
    requires pb == p + |a| && pc == pb + |b| && pd == pc + |c|
    ensures TextAt(t, p, a) && TextAt(t, pb, b) && TextAt(t, pc, c) && TextAt(t, pd, d)
  {
    TextAtSplit(t, p, a + b + c, d);
    TextAtSplit(t, p, a + b, c);
    TextAtSplit(t, p, a, b);
  }

  /** Round trip of one value: parsing a printable value's serialization at the cursor
      gives the value back and leaves the cursor at `end`, just past its text. */
  lemma {:induction false} ParseSerializedValue(fl: FloatLib, t: string, p: nat, v: Value, end: nat)
    requires Printable(v)
    requires TextAt(t, p, SerializeValue(v))
    requires end == p + |SerializeValue(v)|
    ensures ParseValue(fl, t, p) == Some((v, end))
    decreases v, 1
  {
    match v
    case Null => ParseSerializedNull(fl, t, p, end);
    case Boolean(b) => ParseSerializedBoolean(fl, t, p, b, end);
    case String(s) => ParseSerializedStringValue(fl, t, p, s, end);
    case Object(ms) =>
      ObjectTextAt(t, p, ms, end);
      ParseSerializedObject(fl, t, p, ms, end);
      UniqueObjectValue(fl, t, p, ms, end);
    case Array(es) =>
      ArrayTextAt(t, p, es, end);
      ParseSerializedArray(fl, t, p, es, end);
      ValueIsArray(fl, t, p, es, end);
  }

  /** An object read from members with unique names is a value holding exactly them. */
  lemma UniqueObjectValue(fl: FloatLib, t: string, p: nat, ms: seq<Member>, end: nat)
    requires UniqueNames(ms)
    requires p < |t| && Trim(t, p) == p && t[p] == '{'
    requires ParseObject(fl, t, p) == Some((PutAll([], ms), end))
    ensures ParseValue(fl, t, p) == Some((Object(ms), end))
  {
    assert [] + ms == ms;
    PutAllFresh([], ms);
    ValueIsObject(fl, t, p, ms, end);
  }

  /** Round trip of `null`. */
  lemma ParseSerializedNull(fl: FloatLib, t: string, p: nat, end: nat)
    requires TextAt(t, p, SerializeValue(Null)) && end == p + |SerializeValue(Null)|
    ensures ParseValue(fl, t, p) == Some((Null, end))
  {
    TextAtFirst(t, p, "null");
    TrimAtToken(t, p);
    ValueIsNull(fl, t, p, end);
  }

  /** Round trip of `true` and `false`. */
  lemma ParseSerializedBoolean(fl: FloatLib, t: string, p: nat, b: bool, end: nat)
    requires TextAt(t, p, SerializeValue(Boolean(b))) && end == p + |SerializeValue(Boolean(b))|
    ensures ParseValue(fl, t, p) == Some((Boolean(b), end))
  {
    TextAtFirst(t, p, BoolText(b));
    TrimAtToken(t, p);
    ValueIsBoolean(fl, t, p, b, end);
  }

  /** Round trip of a string value. */
  lemma ParseSerializedStringValue(fl: FloatLib, t: string, p: nat, s: string, end: nat)
    requires Serializable(s)
    requires TextAt(t, p, SerializeValue(String(s))) && end == p + |SerializeValue(String(s))|
    ensures ParseValue(fl, t, p) == Some((String(s), end))
  {
    TextAtFirst(t, p, SerializeString(s));
    TrimAtToken(t, p);
    ParseSerializedString(t, p, s);
    ValueIsString(fl, t, p, s, end);
  }

  /** An object's serialization at the cursor: a brace, the joined members and a brace. */
  lemma ObjectTextAt(t: string, p: nat, ms: seq<Member>, end: nat)
    requires TextAt(t, p, SerializeValue(Object(ms))) && end == p + |SerializeValue(Object(ms))|
    ensures TextAt(t, p, "{" + JoinMembers(ms) + "}") && end == p + |JoinMembers(ms)| + 2
    ensures p < |t| && Trim(t, p) == p && t[p] == '{'
  {
    SerializeShapes(Object(ms));
    TextAtFirst(t, p, "{" + JoinMembers(ms) + "}");
    TrimAtToken(t, p);
  }

  /** An array's serialization at the cursor: a bracket, the joined elements and a
      bracket. */
  lemma ArrayTextAt(t: string, p: nat, es: seq<Value>, end: nat)
    requires TextAt(t, p, SerializeValue(Array(es))) && end == p + |SerializeValue(Array(es))|
    ensures TextAt(t, p, "[" + JoinElements(es) + "]") && end == p + |JoinElements(es)| + 2
    ensures p < |t| && Trim(t, p) == p && t[p] == '['
  {
    SerializeShapes(Array(es));
    TextAtFirst(t, p, "[" + JoinElements(es) + "]");
    TrimAtToken(t, p);
  }

  /** Round trip of an object's text, repeated names allowed: the members are put one
      after another, so the object read holds each name once with its last value. */
  lemma {:induction false} ParseSerializedObject(fl: FloatLib, t: string, p: nat, ms: seq<Member>, end: nat)
    requires PrintableMembers(ms)
    requires TextAt(t, p, "{" + JoinMembers(ms) + "}")
    requires end == p + |JoinMembers(ms)| + 2
    ensures ParseObject(fl, t, p) == Some((PutAll([], ms), end))
    decreases ms, 3
  {
    var p1 := p + 1;
    BracketsTextAt(t, p, "{", JoinMembers(ms), "}", p1, end);
    TrimAtToken(t, p);
    TrimAtToken(t, p1);
    if |ms| == 0 {
      ObjectStep(fl, t, p, p1, p1);
    } else {
      ParseSerializedMembers(fl, t, p1, [], ms, end);
      ObjectStep(fl, t, p, p1, p1);
    }
  }

  /** A container's text at `p`: the opening character, then at `p1` either the
      closing character right away or the joined children and the closing character. */
  lemma BracketsTextAt(t: string, p: nat, open: string, j: string, close: string, p1: nat, end: nat)
    requires |open| == 1 && |close| == 1 && !IsWhitespace(close[0])
    requires TextAt(t, p, open + j + close)
    requires p1 == p + 1 && end == p + |j| + 2
    requires |j| > 0 ==> j[0] == '"' || j[0] == '{' || j[0] == '[' || j[0] == 'n' || j[0] == 't' || j[0] == 'f'
    ensures p < |t| && t[p] == open[0]
    ensures p1 < |t| && !IsWhitespace(t[p1])
    ensures |j| == 0 ==> t[p1] == close[0] && end == p1 + 1
    ensures |j| > 0 ==> t[p1] == j[0] && TextAt(t, p1, j + close) && end == p1 + |j| + 1
  {
    assert open + j + close == open + (j + close);
    TextAtSplit(t, p, open, j + close);
    TextAtFirst(t, p, open);
    TextAtFirst(t, p1, j + close);
  }

  /** Round trip of a non-empty member list and the closing brace after it, onto
      members already read: each member is put in turn. */
  lemma {:induction false} ParseSerializedMembers(fl: FloatLib, t: string, p: nat, acc: seq<Member>,
                                                  ms: seq<Member>, end: nat)
    requires |ms| > 0 && PrintableMembers(ms)
    requires TextAt(t, p, JoinMembers(ms) + "}")
    requires end == p + |JoinMembers(ms)| + 1
    ensures ParseMembers(fl, t, p, acc) == Some((PutAll(acc, ms), end))
    decreases ms, 2
  {
    var m := ms[0];
    var q1 := p + |SerializeString(m.name)|;
    var v0 := q1 + 1;
    var q3 := v0 + |SerializeValue(m.value)|;
    var p' := q3 + 1;
    var acc' := Put(acc, m.name, m.value);
    MembersTextAt(t, p, ms, q1, v0, q3, p', end);
    TrimAtToken(t, q3);
    ParseSerializedMember(fl, t, p, ms, q1, v0, q3);
    if |ms| > 1 {
      ParseSerializedMembers(fl, t, p', acc', ms[1..], end);
      MembersComma(fl, t, p, acc, m, q3, q3);
      MembersAt(fl, t, q3 + 1, p', acc', acc');
    } else {
      MembersClose(fl, t, p, acc, m, q3, q3);
    }
  }

  /** Round trip of the first member of a list: its name, the colon at `q1` and its
      value from `v0` up to `q3`. */
  lemma {:induction false} ParseSerializedMember(fl: FloatLib, t: string, p: nat, ms: seq<Member>,
                                                 q1: nat, v0: nat, q3: nat)
    requires |ms| > 0 && PrintableMembers(ms)
    requires TextAt(t, p, SerializeString(ms[0].name))
    requires q1 == p + |SerializeString(ms[0].name)| && q1 < |t| && t[q1] == ':' && v0 == q1 + 1
    requires TextAt(t, v0, SerializeValue(ms[0].value)) && q3 == v0 + |SerializeValue(ms[0].value)|
    ensures ParseMember(fl, t, p) == Some((ms[0], q3))
    decreases ms, 1
  {
    TrimAtToken(t, q1);
    assert Serializable(ms[0].name) && Printable(ms[0].value);
    ParseSerializedStringAt(t, p, ms[0].name, q1);
    ParseSerializedValue(fl, t, v0, ms[0].value, q3);
    MemberIs(fl, t, p, ms[0].name, q1, v0, ms[0].value, q3);
  }

  /** The joined members and closing brace at `p`: the first name up to `q1`, the
      colon, the first value from `v0` up to `q3`, then either the closing brace or a
      comma and the rest from `p'`. */
  lemma MembersTextAt(t: string, p: nat, ms: seq<Member>, q1: nat, v0: nat, q3: nat, p': nat, end: nat)
    requires |ms| > 0
    requires TextAt(t, p, JoinMembers(ms) + "}")
    requires end == p + |JoinMembers(ms)| + 1
    requires q1 == p + |SerializeString(ms[0].name)| && v0 == q1 + 1
    requires q3 == v0 + |SerializeValue(ms[0].value)| && p' == q3 + 1
    ensures TextAt(t, p, SerializeString(ms[0].name))
    ensures q1 < |t| && t[q1] == ':'
    ensures TextAt(t, v0, SerializeValue(ms[0].value))
    ensures q3 < |t| && !IsWhitespace(t[q3])
    ensures |ms| == 1 ==> t[q3] == '}' && end == p'
    ensures |ms| > 1 ==> t[q3] == ','
    ensures |ms| > 1 ==> TextAt(t, p', JoinMembers(ms[1..]) + "}")
    ensures |ms| > 1 ==> end == p' + |JoinMembers(ms[1..])| + 1
  {
    var ns := SerializeString(ms[0].name);
    var vs := SerializeValue(ms[0].value);
    if |ms| == 1 {
      assert JoinMembers(ms) == ns + ":" + vs;
      TextAtSeparator(t, p, ns, ':', vs, "}", q1, v0);
      TextAtClose(t, v0, vs, "}", q3);
    } else {
      var j' := JoinMembers(ms[1..]);
      assert JoinMembers(ms) == ns + ":" + vs + "," + j';
      TextAtMember(t, p, ns, vs, j', "}", q1, v0);
      TextAtSeparator(t, v0, vs, ',', j', "}", q3, p');
    }
  }

  /** A name, a colon, a value, a comma and the rest at the cursor. */
  lemma TextAtMember(t: string, p: nat, w: string, v: string, w': string, close: string, q: nat, q': nat)
    requires TextAt(t, p, w + ":" + v + "," + w' + close) && q == p + |w| && q' == q + 1
    ensures TextAt(t, p, w) && q < |t| && t[q] == ':' && TextAt(t, q', v + "," + w' + close)
  {
    assert w + ":" + v + "," + w' + close == w + ":" + (v + "," + w') + close;
    TextAtSeparator(t, p, w, ':', v + "," + w', close, q, q');
  }

  /** A word, a separator character (the colon after a name or the comma after a
      member or element) and the rest at the cursor. */
  lemma TextAtSeparator(t: string, p: nat, w: string, sep: char, w': string, close: string, q: nat, q': nat)
    requires TextAt(t, p, w + [sep] + w' + close) && q == p + |w| && q' == q + 1
    ensures TextAt(t, p, w) && q < |t| && t[q] == sep && TextAt(t, q', w' + close)
  {
    assert w + [sep] + w' + close == w + ([sep] + (w' + close));
    TextAtSplit(t, p, w, [sep] + (w' + close));
    TextAtSplit(t, q, [sep], w' + close);
    TextAtChar(t, q, sep);
  }

  /** Round trip of an array's text. */
  lemma {:induction false} ParseSerializedArray(fl: FloatLib, t: string, p: nat, es: seq<Value>, end: nat)
    requires PrintableElements(es)
    requires TextAt(t, p, "[" + JoinElements(es) + "]")
    requires end == p + |JoinElements(es)| + 2
    ensures ParseArray(fl, t, p) == Some((es, end))
    decreases es, 1
  {
    var p1 := p + 1;
    if |es| > 0 {
      SerializeShapes(es[0]);
      assert |SerializeValue(es[0])| > 0 && SerializeValue(es[0])[0] == JoinElements(es)[0];
    }
    BracketsTextAt(t, p, "[", JoinElements(es), "]", p1, end);
    TrimAtToken(t, p);
    TrimAtToken(t, p1);
    if |es| == 0 {
      ArrayStep(fl, t, p, p1, p1);
    } else {
      assert [] + es == es;
      ParseSerializedElements(fl, t, p1, [], es, end);
      ArrayStep(fl, t, p, p1, p1);
    }
  }

  /** Round trip of a non-empty element list and the closing bracket after it. */
  lemma {:induction false} ParseSerializedElements(fl: FloatLib, t: string, p: nat, acc: seq<Value>,
                                                   es: seq<Value>, end: nat)
    requires |es| > 0 && PrintableElements(es)
    requires TextAt(t, p, JoinElements(es) + "]")
    requires end == p + |JoinElements(es)| + 1
    ensures ParseElements(fl, t, p, acc) == Some((acc + es, end))
    decreases es, 0
  {
    var q1 := p + |SerializeValue(es[0])|;
    var p' := q1 + 1;
    ElementsTextAt(t, p, es, q1, p', end);
    TrimAtToken(t, q1);
    ConsSplit(acc, es);
    ParseSerializedValue(fl, t, p, es[0], q1);
    if |es| > 1 {
      ParseSerializedElements(fl, t, p', acc + [es[0]], es[1..], end);
      ElementsComma(fl, t, p, acc, es[0], q1, q1);
      ElementsAt(fl, t, q1 + 1, p', acc + [es[0]], acc + [es[0]]);
    } else {
      ElementsClose(fl, t, p, acc, es[0], q1, q1);
    }
  }

  /** Moving the first element of a list onto the accumulator keeps the whole. */
  lemma ConsSplit<T>(acc: seq<T>, xs: seq<T>)
    requires |xs| > 0
    ensures acc + xs == (acc + [xs[0]]) + xs[1..]
    ensures |xs| == 1 ==> acc + xs == acc + [xs[0]]
  {
  }

  /** The joined elements and closing bracket at `p`: the first element's text, then
      at `q1` either the closing bracket or a comma and the rest from `p'`. */
  lemma ElementsTextAt(t: string, p: nat, es: seq<Value>, q1: nat, p': nat, end: nat)
    requires |es| > 0
    requires TextAt(t, p, JoinElements(es) + "]")
    requires end == p + |JoinElements(es)| + 1
    requires q1 == p + |SerializeValue(es[0])| && p' == q1 + 1
    ensures TextAt(t, p, SerializeValue(es[0]))
    ensures q1 < |t| && !IsWhitespace(t[q1])
    ensures |es| == 1 ==> t[q1] == ']' && end == p'
    ensures |es| > 1 ==> t[q1] == ','
    ensures |es| > 1 ==> TextAt(t, p', JoinElements(es[1..]) + "]")
    ensures |es| > 1 ==> end == p' + |JoinElements(es[1..])| + 1
  {
    var vs := SerializeValue(es[0]);
    if |es| == 1 {
      assert JoinElements(es) == vs;
      TextAtClose(t, p, vs, "]", q1);
    } else {
      var j' := JoinElements(es[1..]);
      assert JoinElements(es) == vs + "," + j';
      TextAtSeparator(t, p, vs, ',', j', "]", q1, p');
    }
  }

  /** A word and a closing character at the cursor. */
  lemma TextAtClose(t: string, p: nat, w: string, close: string, q: nat)
    requires |close| == 1 && TextAt(t, p, w + close) && q == p + |w|
    ensures TextAt(t, p, w) && q < |t| && t[q] == close[0]
  {
    TextAtSplit(t, p, w, close);
    TextAtFirst(t, q, close);
  }
}
