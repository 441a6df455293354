/** What the parser promises about whole containers: empty containers with whitespace
    inside, failure on a trailing comma, the last value of a repeated name winning,
    unique names at every depth of whatever is read, and the entry points reading back
    what the serializer wrote whatever follows it. */
module JsonParseProperties {
  import opened Common
  import opened InputStream
  import opened JsonValue
  import opened JsonString
  import opened Members
  import opened JsonParser
  import opened JsonSerializer
  import opened JsonRoundTrip

  /** True when every character of `w` is whitespace the parser skips. */
  predicate AllWhitespace(w: string) {
    forall i :: 0 <= i < |w| ==> IsWhitespace(w[i])
  }

  /** The cursor positions of `w1 + open + w2 + close + rest`: whitespace, then the
      opening character at `a`, whitespace, and the closing character at `b`. */
  lemma EmptyContainerText(w1: string, open: char, w2: string, close: char, rest: string, a: nat, b: nat)
    requires AllWhitespace(w1) && AllWhitespace(w2)
    requires !IsWhitespace(open) && !IsWhitespace(close)
    requires a == |w1| && b == a + 1 + |w2|
    ensures var t := w1 + [open] + w2 + [close] + rest;
      b < |t| && Trim(t, 0) == a && t[a] == open && Trim(t, a + 1) == b && t[b] == close
  {
    var t := w1 + [open] + w2 + [close] + rest;
    assert t[a] == open && t[b] == close;
    assert forall i :: 0 <= i < a ==> t[i] == w1[i];
    assert forall i :: a < i < b ==> t[i] == w2[i - a - 1];
    TrimStopsAt(t, 0, a);
    TrimStopsAt(t, a + 1, b);
  }

  /** `{}` is an empty object, with any whitespace before the brace and between the
      braces, and anything after the closing brace. */
  lemma EmptyObjectText(fl: FloatLib, w1: string, w2: string, rest: string)
    requires AllWhitespace(w1) && AllWhitespace(w2)
    ensures ParseObjectText(fl, w1 + "{" + w2 + "}" + rest) == Some([])
  {
    var a, b := |w1|, |w1| + 1 + |w2|;
    EmptyContainerText(w1, '{', w2, '}', rest, a, b);
    var t := w1 + "{" + w2 + "}" + rest;
    assert t == w1 + ['{'] + w2 + ['}'] + rest;
    ObjectStep(fl, t, a, a + 1, b);
  }

  /** `[]` is an empty array, with any whitespace before the bracket and between the
      brackets, and anything after the closing bracket. */
  lemma EmptyArrayText(fl: FloatLib, w1: string, w2: string, rest: string)
    requires AllWhitespace(w1) && AllWhitespace(w2)
    ensures ParseArrayText(fl, w1 + "[" + w2 + "]" + rest) == Some([])
  {
    var a, b := |w1|, |w1| + 1 + |w2|;
    EmptyContainerText(w1, '[', w2, ']', rest, a, b);
    var t := w1 + "[" + w2 + "]" + rest;
    assert t == w1 + ['['] + w2 + [']'] + rest;
    ArrayStep(fl, t, a, a + 1, b);
  }

  /** A member list must start with a name: any other token fails it. */
  lemma MembersNeedName(fl: FloatLib, t: string, p: nat, acc: seq<Member>)
    requires p <= |t| && GetToken(t, p) != '"'
    ensures ParseMembers(fl, t, p, acc).None?
  {
  }

  /** A member name must be followed by a colon: any other token fails the member
      list, and with it the object. */
  lemma MembersNeedColon(fl: FloatLib, t: string, p: nat, acc: seq<Member>, name: string, q1: nat)
    requires p <= |t|
    requires ParseString(t, p) == Some((name, q1)) && GetToken(t, q1) != ':'
    ensures ParseMember(fl, t, p).None?
    ensures ParseMembers(fl, t, p, acc).None?
  {
    MemberStep(fl, t, p, name, q1);
  }

  /** The first characters a value can start with: the literals' first letters, a
      quote, a brace, a bracket, or a number character. */
  predicate StartsValue(c: char) {
    c == 'n' || c == 't' || c == 'f' || c == '"' || c == '{' || c == '[' || IsNumberChar(c)
  }

  /** A token no value starts with (a closing bracket, a comma, the end of the text)
      fails the value: it is read as a number with no characters. */
  lemma ValueNeedsStart(fl: FloatLib, t: string, p: nat)
    requires p <= |t| && !StartsValue(GetToken(t, p))
    ensures ParseValue(fl, t, p).None?
  {
    var q := Trim(t, p);
    TrimIdempotent(t, p);
    assert NumberRun(t, q) == q;
    assert Blank(t[q..q]);
  }

  /** An element list must start with a value. */
  lemma ElementsNeedValue(fl: FloatLib, t: string, p: nat, acc: seq<Value>)
    requires p <= |t| && !StartsValue(GetToken(t, p))
    ensures ParseElements(fl, t, p, acc).None?
  {
    ValueNeedsStart(fl, t, p);
  }

  /** A comma after the last member, right before the closing brace, fails the whole
      object: nothing read so far is kept. */
  lemma ObjectRejectsTrailingComma(fl: FloatLib, t: string, p: nat, acc: seq<Member>, m: Member, q1: nat)
    requires p <= |t|
    requires ParseMember(fl, t, p) == Some((m, q1))
    requires GetToken(t, q1) == ',' && GetToken(t, Trim(t, q1) + 1) == '}'
    ensures ParseMembers(fl, t, p, acc).None?
  {
    MembersTurn(fl, t, p, acc, m, q1);
    AfterMemberRejectsComma(fl, t, acc, m, q1);
  }

  /** `ObjectRejectsTrailingComma` from the cursor after the last member. */
  lemma AfterMemberRejectsComma(fl: FloatLib, t: string, acc: seq<Member>, m: Member, q1: nat)
    requires q1 <= |t|
    requires GetToken(t, q1) == ',' && GetToken(t, Trim(t, q1) + 1) == '}'
    ensures MembersAfter(fl, t, acc, m, q1).None?
  {
    AfterMemberRejectsClose(fl, t, acc, m, q1, Trim(t, q1));
  }

  /** `AfterMemberRejectsComma` with the comma's position named. */
  lemma AfterMemberRejectsClose(fl: FloatLib, t: string, acc: seq<Member>, m: Member, q1: nat, q2: nat)
    requires q1 <= |t| && q2 == Trim(t, q1)
    requires GetChar(t, q2) == ',' && GetToken(t, q2 + 1) == '}'
    ensures MembersAfter(fl, t, acc, m, q1).None?
  {
    MembersAfterComma(fl, t, acc, m, q1, q2);
    MembersNeedName(fl, t, q2 + 1, Put(acc, m.name, m.value));
  }

  /** A comma after the last element, right before the closing bracket, fails the
      whole array. */
  lemma ArrayRejectsTrailingComma(fl: FloatLib, t: string, p: nat, acc: seq<Value>, v: Value, q1: nat)
    requires p <= |t|
    requires ParseValue(fl, t, p) == Some((v, q1))
    requires GetToken(t, q1) == ',' && GetToken(t, Trim(t, q1) + 1) == ']'
    ensures ParseElements(fl, t, p, acc).None?
  {
    ElementsTurn(fl, t, p, acc, v, q1);
    AfterElementRejectsComma(fl, t, acc, v, q1);
  }

  /** `ArrayRejectsTrailingComma` from the cursor after the last element. */
  lemma AfterElementRejectsComma(fl: FloatLib, t: string, acc: seq<Value>, v: Value, q1: nat)
    requires q1 <= |t|
    requires GetToken(t, q1) == ',' && GetToken(t, Trim(t, q1) + 1) == ']'
    ensures ElementsAfter(fl, t, acc, v, q1).None?
  {
    AfterElementRejectsClose(fl, t, acc, v, q1, Trim(t, q1));
  }

  /** `AfterElementRejectsComma` with the comma's position named. */
  lemma AfterElementRejectsClose(fl: FloatLib, t: string, acc: seq<Value>, v: Value, q1: nat, q2: nat)
    requires q1 <= |t| && q2 == Trim(t, q1)
    requires GetChar(t, q2) == ',' && GetToken(t, q2 + 1) == ']'
    ensures ElementsAfter(fl, t, acc, v, q1).None?
  {
    ElementsAfterComma(fl, t, acc, v, q1, q2);
    ElementsNeedValue(fl, t, q2 + 1, acc + [v]);
  }

  /** An object written with a repeated name reads back with the name once, holding
      the value of its last occurrence; every other name keeps its value. */
  lemma RepeatedNameKeepsLast(fl: FloatLib, t: string, p: nat, ms: seq<Member>, end: nat)
    requires PrintableMembers(ms)
    requires TextAt(t, p, "{" + JoinMembers(ms) + "}")
    requires end == p + |JoinMembers(ms)| + 2
    ensures ParseObject(fl, t, p).Some?
    ensures UniqueNames(ParseObject(fl, t, p).value.0)
    ensures forall k :: Lookup(ParseObject(fl, t, p).value.0, k) == LastLookup(ms, k)
  {
    ParseSerializedObject(fl, t, p, ms, end);
    PutAllKeepsUnique([], ms);
    forall k ensures Lookup(PutAll([], ms), k) == LastLookup(ms, k) {
      PutAllLookup([], ms, k);
    }
  }

  /** `JsonObject::Parse` reads back the serialization of an object, whatever text
      follows it. */
  lemma ParseObjectTextOfSerialized(fl: FloatLib, ms: seq<Member>, rest: string)
    requires Printable(Object(ms))
    ensures ParseObjectText(fl, SerializeValue(Object(ms)) + rest) == Some(ms)
  {
    var w := SerializeValue(Object(ms));
    var t := w + rest;
    assert t[0..|t|] == t;
    TextAtSplit(t, 0, w, rest);
    ObjectAtStart(fl, t, ms, |w|);
  }

  /** A printable object's serialization at the start of a text parses back as it. */
  lemma ObjectAtStart(fl: FloatLib, t: string, ms: seq<Member>, end: nat)
    requires Printable(Object(ms))
    requires TextAt(t, 0, SerializeValue(Object(ms))) && end == |SerializeValue(Object(ms))|
    ensures ParseObject(fl, t, 0) == Some((ms, end))
  {
    ObjectTextAt(t, 0, ms, end);
    ParseSerializedObject(fl, t, 0, ms, end);
    FreshMembersRead(fl, t, ms, end);
  }

  /** Members with unique names, put one after another into an empty object, are read
      back as they stand. */
  lemma FreshMembersRead(fl: FloatLib, t: string, ms: seq<Member>, end: nat)
    requires UniqueNames(ms)
    requires ParseObject(fl, t, 0) == Some((PutAll([], ms), end))
    ensures ParseObject(fl, t, 0) == Some((ms, end))
  {
    assert [] + ms == ms;
    PutAllFresh([], ms);
  }

  /** `JsonArray::Parse` reads back the serialization of an array, whatever text
      follows it. */
  lemma ParseArrayTextOfSerialized(fl: FloatLib, es: seq<Value>, rest: string)
    requires Printable(Array(es))
    ensures ParseArrayText(fl, SerializeValue(Array(es)) + rest) == Some(es)
  {
    var w := SerializeValue(Array(es));
    var t := w + rest;
    assert t[0..|t|] == t;
    TextAtSplit(t, 0, w, rest);
    ArrayTextAt(t, 0, es, |w|);
    ParseSerializedArray(fl, t, 0, es, |w|);
  }

  /** Every value the parser reads is well-formed: each object in it, at every depth,
      holds each name once. */
  lemma {:induction false} ParsedValueWellFormed(fl: FloatLib, t: string, p: nat)
    requires p <= |t|
    ensures ParseValue(fl, t, p).Some? ==> WellFormed(ParseValue(fl, t, p).value.0)
    decreases |t| - p, 1
  {
    var q := Trim(t, p);
    var c := GetChar(t, q);
    if c == '{' {
      ParsedObjectWellFormed(fl, t, q);
    } else if c == '[' {
      ParsedArrayWellFormed(fl, t, q);
    }
  }

  /** The members of every object the parser reads form a well-formed object. */
  lemma {:induction false} ParsedObjectWellFormed(fl: FloatLib, t: string, p: nat)
    requires p <= |t|
    ensures ParseObject(fl, t, p).Some? ==> WellFormed(Object(ParseObject(fl, t, p).value.0))
    decreases |t| - p, 0
  {
    var q := Trim(t, p);
    if GetChar(t, q) == '{' && GetChar(t, Trim(t, q + 1)) != '}' {
      ParsedMembersWellFormed(fl, t, q + 1, []);
    }
  }

  /** The member loop keeps the members read well-formed. */
  lemma {:induction false} ParsedMembersWellFormed(fl: FloatLib, t: string, p: nat, acc: seq<Member>)
    requires p <= |t| && WellFormed(Object(acc))
    ensures ParseMembers(fl, t, p, acc).Some? ==> WellFormed(Object(ParseMembers(fl, t, p, acc).value.0))
    decreases |t| - p, 3
  {
    ParsedMemberWellFormed(fl, t, p);
    match ParseMember(fl, t, p)
    case None =>
    case Some((m, q1)) =>
      MembersTurn(fl, t, p, acc, m, q1);
      MembersAfterWellFormed(fl, t, acc, m, q1);
  }

  /** The member loop after a member with a well-formed value. */
  lemma {:induction false} MembersAfterWellFormed(fl: FloatLib, t: string, acc: seq<Member>, m: Member, q1: nat)
    requires q1 <= |t| && WellFormed(Object(acc)) && WellFormed(m.value)
    ensures MembersAfter(fl, t, acc, m, q1).Some? ==> WellFormed(Object(MembersAfter(fl, t, acc, m, q1).value.0))
    decreases |t| - q1, 3
  {
    PutKeepsWellFormed(acc, m.name, m.value);
    var q2 := Trim(t, q1);
    if GetChar(t, q2) == ',' {
      ParsedMembersWellFormed(fl, t, q2 + 1, Put(acc, m.name, m.value));
    }
  }

  /** Every member the parser reads has a well-formed value. */
  lemma {:induction false} ParsedMemberWellFormed(fl: FloatLib, t: string, p: nat)
    requires p <= |t|
    ensures ParseMember(fl, t, p).Some? ==> WellFormed(ParseMember(fl, t, p).value.0.value)
    decreases |t| - p, 2
  {
    match ParseString(t, p)
    case None =>
    case Some((name, q1)) =>
      MemberStep(fl, t, p, name, q1);
      MemberValueWellFormed(fl, t, name, q1);
  }

  /** The rest of a member has a well-formed value. */
  lemma {:induction false} MemberValueWellFormed(fl: FloatLib, t: string, name: string, q1: nat)
    requires q1 <= |t|
    ensures ParseMemberValue(fl, t, name, q1).Some? ==>
      WellFormed(ParseMemberValue(fl, t, name, q1).value.0.value)
    decreases |t| - q1, 2
  {
    var q2 := Trim(t, q1);
    if GetChar(t, q2) == ':' {
      ParsedValueWellFormed(fl, t, q2 + 1);
    }
  }

  /** The elements of every array the parser reads are well-formed. */
  lemma {:induction false} ParsedArrayWellFormed(fl: FloatLib, t: string, p: nat)
    requires p <= |t|
    ensures ParseArray(fl, t, p).Some? ==> WellFormed(Array(ParseArray(fl, t, p).value.0))
    decreases |t| - p, 0
  {
    var q := Trim(t, p);
    if GetChar(t, q) == '[' && GetChar(t, Trim(t, q + 1)) != ']' {
      ParsedElementsWellFormed(fl, t, q + 1, []);
    }
  }

  /** The element loop keeps the elements read well-formed. */
  lemma {:induction false} ParsedElementsWellFormed(fl: FloatLib, t: string, p: nat, acc: seq<Value>)
    requires p <= |t| && WellFormed(Array(acc))
    ensures ParseElements(fl, t, p, acc).Some? ==> WellFormed(Array(ParseElements(fl, t, p, acc).value.0))
    decreases |t| - p, 3
  {
    ParsedValueWellFormed(fl, t, p);
    match ParseValue(fl, t, p)
    case None =>
    case Some((v, q1)) =>
      ElementsTurn(fl, t, p, acc, v, q1);
      ElementsAfterWellFormed(fl, t, acc, v, q1);
  }

  /** The element loop after a well-formed value. */
  lemma {:induction false} ElementsAfterWellFormed(fl: FloatLib, t: string, acc: seq<Value>, v: Value, q1: nat)
    requires q1 <= |t| && WellFormed(Array(acc)) && WellFormed(v)
    ensures ElementsAfter(fl, t, acc, v, q1).Some? ==> WellFormed(Array(ElementsAfter(fl, t, acc, v, q1).value.0))
    decreases |t| - q1, 3
  {
    assert WellFormed(Array(acc + [v])) by {
      assert forall i :: 0 <= i < |acc| ==> (acc + [v])[i] == acc[i];
    }
    var q2 := Trim(t, q1);
    if GetChar(t, q2) == ',' {
      ParsedElementsWellFormed(fl, t, q2 + 1, acc + [v]);
    }
  }

  /** `JsonObject::Parse` and `JsonArray::Parse` give well-formed containers. */
  lemma ParsedTextsWellFormed(fl: FloatLib, json: string)
    ensures ParseObjectText(fl, json).Some? ==> WellFormed(Object(ParseObjectText(fl, json).value))
    ensures ParseArrayText(fl, json).Some? ==> WellFormed(Array(ParseArrayText(fl, json).value))
  {
    ParsedObjectWellFormed(fl, json, 0);
    ParsedArrayWellFormed(fl, json, 0);
  }
}

