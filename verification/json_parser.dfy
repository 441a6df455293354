/** The recursive-descent parser. Every parse function reads the text `t` from the
    cursor `p` and gives the value read together with the cursor just past it, or
    `None` where the source gives a null pointer. Whitespace is skipped before every
    token; nothing after the value is looked at. */
module JsonParser {
  import opened Common
  import opened InputStream
  import opened JsonValue
  import opened JsonString
  import opened Members

  /** The characters `ParseNumber` collects: digits, signs, the decimal point and the
      exponent letters. */
  predicate IsNumberChar(c: char) {
    '0' <= c <= '9' || c == '+' || c == '-' || c == '.' || c == 'e' || c == 'E'
  }

  /** The end of the maximal run of number characters starting at `p`. */
  function NumberRun(t: string, p: nat): (q: nat)
    requires p <= |t|
    ensures p <= q <= |t|
    ensures forall i :: p <= i < q ==> IsNumberChar(t[i])
    ensures q < |t| ==> !IsNumberChar(t[q])
    decreases |t| - p
  {
    if p < |t| && IsNumberChar(t[p]) then NumberRun(t, p + 1) else p
  }

  /** `ParseNumber`: skips whitespace, collects the run of number characters and
      classifies it. An empty run is no number. */
  function ParseNumber(fl: FloatLib, t: string, p: nat): (r: Option<(Number, nat)>)
    requires p <= |t|
    ensures r.Some? ==> r.value.1 == NumberRun(t, Trim(t, p)) && Trim(t, p) < r.value.1
    ensures r.Some? <==>
      NumberStringToJsonValue(fl, t[Trim(t, p)..NumberRun(t, Trim(t, p))]).Some?
    ensures r.Some? ==>
      r.value.0 == NumberStringToJsonValue(fl, t[Trim(t, p)..NumberRun(t, Trim(t, p))]).value
  {
    var q := Trim(t, p);
    var e := NumberRun(t, q);
    match NumberStringToJsonValue(fl, t[q..e])
    case None => None
    case Some(n) => Some((n, e))
  }

  /** `ParseValue`: dispatches on the first token: the three literals are matched word
      for word, a quote starts a string, a brace an object, a bracket an array, and
      anything else is read as a number. */
  function ParseValue(fl: FloatLib, t: string, p: nat): (r: Option<(Value, nat)>)
    requires p <= |t|
    ensures r.Some? ==> Trim(t, p) < r.value.1 <= |t|
    decreases |t| - p, 1
  {
    var q := Trim(t, p);
    var c := GetChar(t, q);
    if c == 'n' then
      (match CompareAndNext(t, q, "null")
       case None => None
       case Some(e) => Some((Null, e)))
    else if c == 't' then
      (match CompareAndNext(t, q, "true")
       case None => None
       case Some(e) => Some((Boolean(true), e)))
    else if c == 'f' then
      (match CompareAndNext(t, q, "false")
       case None => None
       case Some(e) => Some((Boolean(false), e)))
    else if c == '"' then
      (match ParseString(t, q)
       case None => None
       case Some((s, e)) => Some((String(s), e)))
    else if c == '{' then
      (match ParseObject(fl, t, q)
       case None => None
       case Some((ms, e)) => Some((Object(ms), e)))
    else if c == '[' then
      (match ParseArray(fl, t, q)
       case None => None
       case Some((es, e)) => Some((Array(es), e)))
    else
      (match ParseNumber(fl, t, q)
       case None => None
       case Some((n, e)) => Some((Num(n), e)))
  }

  /** `ParseObject`: an opening brace, then either a closing brace or members. */
  function ParseObject(fl: FloatLib, t: string, p: nat): (r: Option<(seq<Member>, nat)>)
    requires p <= |t|
    ensures r.Some? ==> GetToken(t, p) == '{'
    ensures r.Some? ==> Trim(t, p) < r.value.1 <= |t|
    decreases |t| - p, 0
  {
    var q := Trim(t, p);
    if GetChar(t, q) != '{' then None
    else
      var q2 := Trim(t, q + 1);
      if GetChar(t, q2) == '}' then Some(([], q2 + 1))
      else ParseMembers(fl, t, q + 1, [])
  }

  /** One member: a name, then the rest of the member after it. */
  function ParseMember(fl: FloatLib, t: string, p: nat): (r: Option<(Member, nat)>)
    requires p <= |t|
    ensures r.Some? ==> p < r.value.1 <= |t|
    ensures r.Some? ==> ParseString(t, p).Some? && r.value.0.name == ParseString(t, p).value.0
    decreases |t| - p, 2
  {
    match ParseString(t, p)
    case None => None
    case Some((name, q1)) => ParseMemberValue(fl, t, name, q1)
  }

  /** The rest of a member after its name, read up to `q1`: a colon and a value. */
  function ParseMemberValue(fl: FloatLib, t: string, name: string, q1: nat): (r: Option<(Member, nat)>)
    requires q1 <= |t|
    ensures r.Some? ==> q1 < r.value.1 <= |t|
    ensures r.Some? ==> GetToken(t, q1) == ':' && r.value.0.name == name
    decreases |t| - q1, 2
  {
    var q2 := Trim(t, q1);
    if GetChar(t, q2) != ':' then None
    else
      match ParseValue(fl, t, q2 + 1)
      case None => None
      case Some((v, q3)) => Some((Member(name, v), q3))
  }

  /** The member loop of `ParseObject`, from the cursor after the opening brace or a
      comma: a member, then what follows it. */
  function ParseMembers(fl: FloatLib, t: string, p: nat, acc: seq<Member>)
    : (r: Option<(seq<Member>, nat)>)
    requires p <= |t|
    ensures r.Some? ==> p < r.value.1 <= |t|
    ensures r.Some? ==> GetToken(t, p) == '"'
    decreases |t| - p, 3
  {
    match ParseMember(fl, t, p)
    case None => None
    case Some((m, q1)) => MembersAfter(fl, t, acc, m, q1)
  }

  /** The member loop after a member read up to `q1`: the member is put into `acc` (a
      repeated name replaces the earlier value), then a comma and more members or the
      closing brace. */
  function MembersAfter(fl: FloatLib, t: string, acc: seq<Member>, m: Member, q1: nat)
    : (r: Option<(seq<Member>, nat)>)
    requires q1 <= |t|
    ensures r.Some? ==> q1 < r.value.1 <= |t|
    ensures r.Some? ==> GetToken(t, q1) == ',' || GetToken(t, q1) == '}'
    decreases |t| - q1, 3
  {
    var acc' := Put(acc, m.name, m.value);
    var q2 := Trim(t, q1);
    if GetChar(t, q2) == ',' then ParseMembers(fl, t, q2 + 1, acc')
    else if GetChar(t, q2) == '}' then Some((acc', q2 + 1))
    else None
  }

  /** `ParseArray`: an opening bracket, then either a closing bracket or elements. */
  function ParseArray(fl: FloatLib, t: string, p: nat): (r: Option<(seq<Value>, nat)>)
    requires p <= |t|
    ensures r.Some? ==> GetToken(t, p) == '['
    ensures r.Some? ==> Trim(t, p) < r.value.1 <= |t|
    decreases |t| - p, 0
  {
    var q := Trim(t, p);
    if GetChar(t, q) != '[' then None
    else
      var q2 := Trim(t, q + 1);
      if GetChar(t, q2) == ']' then Some(([], q2 + 1))
      else ParseElements(fl, t, q + 1, [])
  }

  /** The element loop of `ParseArray`, from the cursor after the opening bracket or a
      comma: a value, then what follows it. */
  function ParseElements(fl: FloatLib, t: string, p: nat, acc: seq<Value>)
    : (r: Option<(seq<Value>, nat)>)
    requires p <= |t|
    ensures r.Some? ==> p < r.value.1 <= |t|
    decreases |t| - p, 3
  {
    match ParseValue(fl, t, p)
    case None => None
    case Some((v, q1)) => ElementsAfter(fl, t, acc, v, q1)
  }

  /** The element loop after a value read up to `q1`: the value is appended to `acc`,
      then a comma and more elements or the closing bracket. */
  function ElementsAfter(fl: FloatLib, t: string, acc: seq<Value>, v: Value, q1: nat)
    : (r: Option<(seq<Value>, nat)>)
    requires q1 <= |t|
    ensures r.Some? ==> q1 < r.value.1 <= |t|
    ensures r.Some? ==> GetToken(t, q1) == ',' || GetToken(t, q1) == ']'
    decreases |t| - q1, 3
  {
    var q2 := Trim(t, q1);
    if GetChar(t, q2) == ',' then ParseElements(fl, t, q2 + 1, acc + [v])
    else if GetChar(t, q2) == ']' then Some((acc + [v], q2 + 1))
    else None
  }

  /** `JsonObject::Parse`: an object at the start of the text; whatever follows it is
      ignored. */
  function ParseObjectText(fl: FloatLib, json: string): (r: Option<seq<Member>>)
    ensures r.Some? <==> ParseObject(fl, json, 0).Some?
    ensures r.Some? ==> r.value == ParseObject(fl, json, 0).value.0
  {
    match ParseObject(fl, json, 0)
    case None => None
    case Some((ms, _)) => Some(ms)
  }

  /** `JsonArray::Parse`: an array at the start of the text; whatever follows it is
      ignored. */
  function ParseArrayText(fl: FloatLib, json: string): (r: Option<seq<Value>>)
    ensures r.Some? <==> ParseArray(fl, json, 0).Some?
    ensures r.Some? ==> r.value == ParseArray(fl, json, 0).value.0
  {
    match ParseArray(fl, json, 0)
    case None => None
    case Some((es, _)) => Some(es)
  }

  /** A member whose name was read up to `q1` goes on with the rest of the member. */
  lemma MemberStep(fl: FloatLib, t: string, p: nat, name: string, q1: nat)
    requires p <= |t|
    requires ParseString(t, p) == Some((name, q1))
    ensures ParseMember(fl, t, p) == ParseMemberValue(fl, t, name, q1)
  {
  }

  /** `ParseValue` at equal cursors. */
  lemma ValueAt(fl: FloatLib, t: string, p: nat, p': nat)
    requires p == p' <= |t|
    ensures ParseValue(fl, t, p) == ParseValue(fl, t, p')
  {
  }

  /** The rest of a member: the colon after the name and the value from `v0`, just
      after the colon. */
  lemma MemberValueStep(fl: FloatLib, t: string, name: string, q1: nat, v0: nat, v: Value, q3: nat)
    requires q1 <= |t|
    requires GetChar(t, Trim(t, q1)) == ':' && v0 == Trim(t, q1) + 1
    requires ParseValue(fl, t, v0) == Some((v, q3))
    ensures ParseMemberValue(fl, t, name, q1) == Some((Member(name, v), q3))
  {
    ValueAt(fl, t, v0, Trim(t, q1) + 1);
  }

  /** A whole member: the name read up to `q1`, the colon and the value from `v0`. */
  lemma MemberIs(fl: FloatLib, t: string, p: nat, name: string, q1: nat, v0: nat, v: Value, q3: nat)
    requires p <= |t|
    requires ParseString(t, p) == Some((name, q1))
    requires GetChar(t, Trim(t, q1)) == ':' && v0 == Trim(t, q1) + 1
    requires ParseValue(fl, t, v0) == Some((v, q3))
    ensures ParseMember(fl, t, p) == Some((Member(name, v), q3))
  {
    MemberStep(fl, t, p, name, q1);
    MemberValueStep(fl, t, name, q1, v0, v, q3);
  }

  /** One turn of the member loop: the member read up to `q1` and the token at `q2`
      deciding whether the loop goes on, ends the object or fails. */
  lemma MembersStep(fl: FloatLib, t: string, p: nat, acc: seq<Member>, m: Member, q1: nat, q2: nat)
    requires p <= |t|
    requires ParseMember(fl, t, p) == Some((m, q1))
    requires q2 == Trim(t, q1)
    ensures GetChar(t, q2) == ',' ==> ParseMembers(fl, t, p, acc) == ParseMembers(fl, t, q2 + 1, Put(acc, m.name, m.value))
    ensures GetChar(t, q2) == '}' ==> ParseMembers(fl, t, p, acc) == Some((Put(acc, m.name, m.value), q2 + 1))
    ensures GetChar(t, q2) != ',' && GetChar(t, q2) != '}' ==> ParseMembers(fl, t, p, acc).None?
  {
    if GetChar(t, q2) == ',' {
      MembersComma(fl, t, p, acc, m, q1, q2);
    } else if GetChar(t, q2) == '}' {
      MembersClose(fl, t, p, acc, m, q1, q2);
    } else {
      MembersFail(fl, t, p, acc, m, q1, q2);
    }
  }

  /** A member read up to `q1` hands the loop on to `MembersAfter`. */
  lemma MembersTurn(fl: FloatLib, t: string, p: nat, acc: seq<Member>, m: Member, q1: nat)
    requires p <= |t|
    requires ParseMember(fl, t, p) == Some((m, q1))
    ensures ParseMembers(fl, t, p, acc) == MembersAfter(fl, t, acc, m, q1)
  {
  }

  /** A comma after a member: the loop goes on after it. */
  lemma MembersComma(fl: FloatLib, t: string, p: nat, acc: seq<Member>, m: Member, q1: nat, q2: nat)
    requires p <= |t|
    requires ParseMember(fl, t, p) == Some((m, q1))
    requires q2 == Trim(t, q1) && GetChar(t, q2) == ','
    ensures ParseMembers(fl, t, p, acc) == ParseMembers(fl, t, q2 + 1, Put(acc, m.name, m.value))
  {
    MembersTurn(fl, t, p, acc, m, q1);
    MembersAfterComma(fl, t, acc, m, q1, q2);
  }

  /** `MembersComma` from the cursor after the member. */
  lemma MembersAfterComma(fl: FloatLib, t: string, acc: seq<Member>, m: Member, q1: nat, q2: nat)
    requires q1 <= |t|
    requires q2 == Trim(t, q1) && GetChar(t, q2) == ','
    ensures MembersAfter(fl, t, acc, m, q1) == ParseMembers(fl, t, q2 + 1, Put(acc, m.name, m.value))
  {
  }

  /** A closing brace after a member: the loop ends after it. */
  lemma MembersClose(fl: FloatLib, t: string, p: nat, acc: seq<Member>, m: Member, q1: nat, q2: nat)
    requires p <= |t|
    requires ParseMember(fl, t, p) == Some((m, q1))
    requires q2 == Trim(t, q1) && GetChar(t, q2) == '}'
    ensures ParseMembers(fl, t, p, acc) == Some((Put(acc, m.name, m.value), q2 + 1))
  {
    MembersTurn(fl, t, p, acc, m, q1);
    MembersAfterClose(fl, t, acc, m, q1, q2);
  }

  /** `MembersClose` from the cursor after the member. */
  lemma MembersAfterClose(fl: FloatLib, t: string, acc: seq<Member>, m: Member, q1: nat, q2: nat)
    requires q1 <= |t|
    requires q2 == Trim(t, q1) && GetChar(t, q2) == '}'
    ensures MembersAfter(fl, t, acc, m, q1) == Some((Put(acc, m.name, m.value), q2 + 1))
  {
  }

  /** Any other token after a member: the object is malformed. */
  lemma MembersFail(fl: FloatLib, t: string, p: nat, acc: seq<Member>, m: Member, q1: nat, q2: nat)
    requires p <= |t|
    requires ParseMember(fl, t, p) == Some((m, q1))
    requires q2 == Trim(t, q1) && GetChar(t, q2) != ',' && GetChar(t, q2) != '}'
    ensures ParseMembers(fl, t, p, acc).None?
  {
    MembersTurn(fl, t, p, acc, m, q1);
    MembersAfterFail(fl, t, acc, m, q1, q2);
  }

  /** `MembersFail` from the cursor after the member. */
  lemma MembersAfterFail(fl: FloatLib, t: string, acc: seq<Member>, m: Member, q1: nat, q2: nat)
    requires q1 <= |t|
    requires q2 == Trim(t, q1) && GetChar(t, q2) != ',' && GetChar(t, q2) != '}'
    ensures MembersAfter(fl, t, acc, m, q1).None?
  {
  }

  /** The member loop at equal cursors with equal members read so far. */
  lemma MembersAt(fl: FloatLib, t: string, p: nat, p': nat, acc: seq<Member>, acc': seq<Member>)
    requires p == p' <= |t| && acc == acc'
    ensures ParseMembers(fl, t, p, acc) == ParseMembers(fl, t, p', acc')
  {
  }

  /** One turn of the element loop: the value read up to `q1` and the token at `q2`
      deciding whether the loop goes on, ends the array or fails. */
  lemma ElementsStep(fl: FloatLib, t: string, p: nat, acc: seq<Value>, v: Value, q1: nat, q2: nat)
    requires p <= |t|
    requires ParseValue(fl, t, p) == Some((v, q1))
    requires q2 == Trim(t, q1)
    ensures GetChar(t, q2) == ',' ==> ParseElements(fl, t, p, acc) == ParseElements(fl, t, q2 + 1, acc + [v])
    ensures GetChar(t, q2) == ']' ==> ParseElements(fl, t, p, acc) == Some((acc + [v], q2 + 1))
    ensures GetChar(t, q2) != ',' && GetChar(t, q2) != ']' ==> ParseElements(fl, t, p, acc).None?
  {
    if GetChar(t, q2) == ',' {
      ElementsComma(fl, t, p, acc, v, q1, q2);
    } else if GetChar(t, q2) == ']' {
      ElementsClose(fl, t, p, acc, v, q1, q2);
    } else {
      ElementsFail(fl, t, p, acc, v, q1, q2);
    }
  }

  /** A element read up to `q1` hands the loop on to `ElementsAfter`. */
  lemma ElementsTurn(fl: FloatLib, t: string, p: nat, acc: seq<Value>, v: Value, q1: nat)
    requires p <= |t|
    requires ParseValue(fl, t, p) == Some((v, q1))
    ensures ParseElements(fl, t, p, acc) == ElementsAfter(fl, t, acc, v, q1)
  {
  }

  /** A comma after an element: the loop goes on after it. */
  lemma ElementsComma(fl: FloatLib, t: string, p: nat, acc: seq<Value>, v: Value, q1: nat, q2: nat)
    requires p <= |t|
    requires ParseValue(fl, t, p) == Some((v, q1))
    requires q2 == Trim(t, q1) && GetChar(t, q2) == ','
    ensures ParseElements(fl, t, p, acc) == ParseElements(fl, t, q2 + 1, acc + [v])
  {
    ElementsTurn(fl, t, p, acc, v, q1);
    ElementsAfterComma(fl, t, acc, v, q1, q2);
  }

  /** `ElementsComma` from the cursor after the element. */
  lemma ElementsAfterComma(fl: FloatLib, t: string, acc: seq<Value>, v: Value, q1: nat, q2: nat)
    requires q1 <= |t|
    requires q2 == Trim(t, q1) && GetChar(t, q2) == ','
    ensures ElementsAfter(fl, t, acc, v, q1) == ParseElements(fl, t, q2 + 1, acc + [v])
  {
  }

  /** A closing bracket after an element: the loop ends after it. */
  lemma ElementsClose(fl: FloatLib, t: string, p: nat, acc: seq<Value>, v: Value, q1: nat, q2: nat)
    requires p <= |t|
    requires ParseValue(fl, t, p) == Some((v, q1))
    requires q2 == Trim(t, q1) && GetChar(t, q2) == ']'
    ensures ParseElements(fl, t, p, acc) == Some((acc + [v], q2 + 1))
  {
    ElementsTurn(fl, t, p, acc, v, q1);
    ElementsAfterClose(fl, t, acc, v, q1, q2);
  }

  /** `ElementsClose` from the cursor after the element. */
  lemma ElementsAfterClose(fl: FloatLib, t: string, acc: seq<Value>, v: Value, q1: nat, q2: nat)
    requires q1 <= |t|
    requires q2 == Trim(t, q1) && GetChar(t, q2) == ']'
    ensures ElementsAfter(fl, t, acc, v, q1) == Some((acc + [v], q2 + 1))
  {
  }

  /** Any other token after an element: the array is malformed. */
  lemma ElementsFail(fl: FloatLib, t: string, p: nat, acc: seq<Value>, v: Value, q1: nat, q2: nat)
    requires p <= |t|
    requires ParseValue(fl, t, p) == Some((v, q1))
    requires q2 == Trim(t, q1) && GetChar(t, q2) != ',' && GetChar(t, q2) != ']'
    ensures ParseElements(fl, t, p, acc).None?
  {
    ElementsTurn(fl, t, p, acc, v, q1);
    ElementsAfterFail(fl, t, acc, v, q1, q2);
  }

  /** `ElementsFail` from the cursor after the element. */
  lemma ElementsAfterFail(fl: FloatLib, t: string, acc: seq<Value>, v: Value, q1: nat, q2: nat)
    requires q1 <= |t|
    requires q2 == Trim(t, q1) && GetChar(t, q2) != ',' && GetChar(t, q2) != ']'
    ensures ElementsAfter(fl, t, acc, v, q1).None?
  {
  }

  /** The element loop at equal cursors with equal elements read so far. */
  lemma ElementsAt(fl: FloatLib, t: string, p: nat, p': nat, acc: seq<Value>, acc': seq<Value>)
    requires p == p' <= |t| && acc == acc'
    ensures ParseElements(fl, t, p, acc) == ParseElements(fl, t, p', acc')
  {
  }

  /** `ParseValue` on the word `null`. */
  lemma ValueIsNull(fl: FloatLib, t: string, p: nat, e: nat)
    requires p <= |t| && Trim(t, p) == p && TextAt(t, p, "null") && e == p + 4
    ensures ParseValue(fl, t, p) == Some((Null, e))
  {
  }

  /** `ParseValue` on the word `true` or `false`. */
  lemma ValueIsBoolean(fl: FloatLib, t: string, p: nat, b: bool, e: nat)
    requires p <= |t| && Trim(t, p) == p && TextAt(t, p, BoolText(b)) && e == p + |BoolText(b)|
    ensures ParseValue(fl, t, p) == Some((Boolean(b), e))
  {
    assert t[p] == BoolText(b)[0];
  }

  /** `ParseValue` on an opening quote. */
  lemma ValueIsString(fl: FloatLib, t: string, p: nat, s: string, e: nat)
    requires p < |t| && Trim(t, p) == p && t[p] == '"'
    requires ParseString(t, p) == Some((s, e))
    ensures ParseValue(fl, t, p) == Some((String(s), e))
  {
  }

  /** `ParseValue` on an opening brace. */
  lemma ValueIsObject(fl: FloatLib, t: string, p: nat, ms: seq<Member>, e: nat)
    requires p < |t| && Trim(t, p) == p && t[p] == '{'
    requires ParseObject(fl, t, p) == Some((ms, e))
    ensures ParseValue(fl, t, p) == Some((Object(ms), e))
  {
  }

  /** `ParseValue` on an opening bracket. */
  lemma ValueIsArray(fl: FloatLib, t: string, p: nat, es: seq<Value>, e: nat)
    requires p < |t| && Trim(t, p) == p && t[p] == '['
    requires ParseArray(fl, t, p) == Some((es, e))
    ensures ParseValue(fl, t, p) == Some((Array(es), e))
  {
  }

  /** `ParseObject` past an opening brace at `p`, with the cursors named: `p1` just
      after the brace and `q` where the next token stands. */
  lemma ObjectStep(fl: FloatLib, t: string, p: nat, p1: nat, q: nat)
    requires p < |t| && Trim(t, p) == p && t[p] == '{'
    requires p1 == p + 1 && q == Trim(t, p1)
    ensures GetChar(t, q) == '}' ==> ParseObject(fl, t, p) == Some(([], q + 1))
    ensures GetChar(t, q) != '}' ==> ParseObject(fl, t, p) == ParseMembers(fl, t, p1, [])
  {
    assert GetChar(t, Trim(t, p)) == '{';
  }

  /** `ParseArray` past an opening bracket at `p`, with the cursors named: `p1` just
      after the bracket and `q` where the next token stands. */
  lemma ArrayStep(fl: FloatLib, t: string, p: nat, p1: nat, q: nat)
    requires p < |t| && Trim(t, p) == p && t[p] == '['
    requires p1 == p + 1 && q == Trim(t, p1)
    ensures GetChar(t, q) == ']' ==> ParseArray(fl, t, p) == Some(([], q + 1))
    ensures GetChar(t, q) != ']' ==> ParseArray(fl, t, p) == ParseElements(fl, t, p1, [])
  {
    assert GetChar(t, Trim(t, p)) == '[';
  }
}
