/** The `JsonObject` facade: the operations a caller applies to an object, over the
    object's association list of members. Names are unique in every object the
    library builds, and the contracts speak of the map the list stands for. */
module JsonObjects {
  import opened Common
  import opened JsonValue
  import opened InputStream
  import opened Members
  import opened JsonSerializer
  import opened JsonParser
  import JsonRoundTrip
  import JsonParseProperties

  /** `Has`: whether the object maps the name. */
  function Has(o: seq<Member>, name: string): (r: bool)
    ensures r <==> name in ToMap(o)
  {
    HasName(o, name)
  }

  /** `GetNames`: every name the object maps, each once when the names are unique. */
  function GetNames(o: seq<Member>): (r: seq<string>)
    ensures |r| == |o|
    ensures forall k :: k in r <==> k in ToMap(o)
    ensures UniqueNames(o) ==> forall i, j :: 0 <= i < j < |r| ==> r[i] != r[j]
  {
    NamesAreKeys(o);
    Names(o)
  }

  /** The names of a list are exactly the names it maps, and distinct when unique. */
  lemma NamesAreKeys(o: seq<Member>)
    ensures forall k :: k in Names(o) <==> k in ToMap(o)
    ensures UniqueNames(o) ==> forall i, j :: 0 <= i < j < |Names(o)| ==> Names(o)[i] != Names(o)[j]
  {
    if UniqueNames(o) {
      NamesAreMapKeys(o);
    }
    forall k ensures k in Names(o) <==> HasName(o, k) {
      if k in Names(o) {
        var i :| 0 <= i < |Names(o)| && Names(o)[i] == k;
        assert o[i].name == k;
      }
      if HasName(o, k) {
        var i :| 0 <= i < |o| && o[i].name == k;
        assert Names(o)[i] == k;
      }
    }
  }

  /** `IsNull`: a missing name reads as null, as does a name mapped to null. */
  function IsNull(o: seq<Member>, name: string): (r: bool)
    ensures r <==> name !in ToMap(o) || ToMap(o)[name] == Null
  {
    LookupIsMapLookup(o, name);
    match Lookup(o, name)
    case None => true
    case Some(v) => v == Null
  }

  /** `GetBoolean`: the boolean mapped to the name, and nothing for any other kind. */
  function GetBoolean(o: seq<Member>, name: string): (r: Option<bool>)
    ensures r.Some? <==> name in ToMap(o) && ToMap(o)[name].Boolean?
    ensures r.Some? ==> r.value == ToMap(o)[name].b
  {
    LookupIsMapLookup(o, name);
    match Lookup(o, name)
    case Some(Boolean(b)) => Some(b)
    case _ => None
  }

  /** `ToBoolean`: the value mapped to the name, coerced to a boolean. */
  function ToBoolean(o: seq<Member>, name: string): (r: Option<bool>)
    ensures r == Some(true) <==>
      name in ToMap(o) && (ToMap(o)[name] == Boolean(true) || ToMap(o)[name] == String("true"))
    ensures r == Some(false) <==>
      name in ToMap(o) && (ToMap(o)[name] == Boolean(false) || ToMap(o)[name] == String("false"))
  {
    LookupIsMapLookup(o, name);
    match Lookup(o, name)
    case None => None
    case Some(v) => JsonValue.ToBoolean(v)
  }

  /** `GetString`: the string mapped to the name, and nothing for any other kind. */
  function GetString(o: seq<Member>, name: string): (r: Option<string>)
    ensures r.Some? <==> name in ToMap(o) && ToMap(o)[name].String?
    ensures r.Some? ==> r.value == ToMap(o)[name].s
  {
    LookupIsMapLookup(o, name);
    match Lookup(o, name)
    case Some(String(s)) => Some(s)
    case _ => None
  }

  /** `ToString`: the value mapped to the name, coerced to text; nothing for a
      missing name or null. */
  function ToString(o: seq<Member>, name: string): (r: Option<string>)
    ensures r.None? <==> name !in ToMap(o) || ToMap(o)[name] == Null
    ensures name in ToMap(o) ==> r == JsonValue.ToString(ToMap(o)[name])
  {
    LookupIsMapLookup(o, name);
    match Lookup(o, name)
    case None => None
    case Some(v) => JsonValue.ToString(v)
  }

  /** `GetInt32`: the number mapped to the name, narrowed to 32 bits, and nothing for
      any other kind. */
  function GetInt32(fl: FloatLib, o: seq<Member>, name: string): (r: Option<Int32>)
    ensures r.Some? <==> name in ToMap(o) && ToMap(o)[name].Num?
    ensures r.Some? ==> r.value == NumberToInt32(fl, ToMap(o)[name].n)
  {
    LookupIsMapLookup(o, name);
    match Lookup(o, name)
    case Some(Num(n)) => Some(NumberToInt32(fl, n))
    case _ => None
  }

  /** `ToInt32`: the value mapped to the name, coerced to a 32-bit integer. */
  function ToInt32(fl: FloatLib, o: seq<Member>, name: string): (r: Option<Int32>)
    ensures name !in ToMap(o) ==> r.None?
    ensures name in ToMap(o) ==> r == JsonValue.ToInt32(fl, ToMap(o)[name])
  {
    LookupIsMapLookup(o, name);
    match Lookup(o, name)
    case None => None
    case Some(v) => JsonValue.ToInt32(fl, v)
  }

  /** `GetObject`: the object mapped to the name; a null pointer for anything else. */
  function GetObject(o: seq<Member>, name: string): (r: Option<seq<Member>>)
    ensures r.Some? <==> name in ToMap(o) && ToMap(o)[name].Object?
    ensures r.Some? ==> r.value == ToMap(o)[name].members
  {
    LookupIsMapLookup(o, name);
    match Lookup(o, name)
    case Some(Object(ms)) => Some(ms)
    case _ => None
  }

  /** `GetArray`: the array mapped to the name; a null pointer for anything else. */
  function GetArray(o: seq<Member>, name: string): (r: Option<seq<Value>>)
    ensures r.Some? <==> name in ToMap(o) && ToMap(o)[name].Array?
    ensures r.Some? ==> r.value == ToMap(o)[name].elements
  {
    LookupIsMapLookup(o, name);
    match Lookup(o, name)
    case Some(Array(es)) => Some(es)
    case _ => None
  }

  /** `PutValue`: `container_[name] = value` maps the name to the value and leaves
      every other name alone, keeping the names unique and the tree well-formed. */
  function PutValue(o: seq<Member>, name: string, v: Value): (r: seq<Member>)
    ensures ToMap(r) == ToMap(o)[name := v]
    ensures UniqueNames(o) ==> UniqueNames(r)
    ensures WellFormed(Object(o)) && WellFormed(v) ==> WellFormed(Object(r))
  {
    PutFacts(o, name, v);
    Put(o, name, v)
  }

  /** What a put keeps, gathered for `PutValue`. */
  lemma PutFacts(o: seq<Member>, name: string, v: Value)
    ensures ToMap(Put(o, name, v)) == ToMap(o)[name := v]
    ensures UniqueNames(o) ==> UniqueNames(Put(o, name, v))
    ensures WellFormed(Object(o)) && WellFormed(v) ==> WellFormed(Object(Put(o, name, v)))
  {
    PutIsMapUpdate(o, name, v);
    if UniqueNames(o) {
      PutKeepsUnique(o, name, v);
    }
    if WellFormed(Object(o)) && WellFormed(v) {
      PutKeepsWellFormed(o, name, v);
    }
  }

  /** `PutNull`: the name maps to null. */
  function PutNull(o: seq<Member>, name: string): (r: seq<Member>)
    ensures ToMap(r) == ToMap(o)[name := Null]
    ensures UniqueNames(o) ==> UniqueNames(r)
  {
    PutValue(o, name, Null)
  }

  /** `PutBoolean`: the name maps to the boolean. */
  function PutBoolean(o: seq<Member>, name: string, b: bool): (r: seq<Member>)
    ensures ToMap(r) == ToMap(o)[name := Boolean(b)]
    ensures UniqueNames(o) ==> UniqueNames(r)
  {
    PutValue(o, name, Boolean(b))
  }

  /** `PutString`: the name maps to the string. */
  function PutString(o: seq<Member>, name: string, s: string): (r: seq<Member>)
    ensures ToMap(r) == ToMap(o)[name := String(s)]
    ensures UniqueNames(o) ==> UniqueNames(r)
  {
    PutValue(o, name, String(s))
  }

  /** `PutInt32`: the name maps to a number holding the 32-bit integer. */
  function PutInt32(o: seq<Member>, name: string, x: Int32): (r: seq<Member>)
    ensures ToMap(r) == ToMap(o)[name := Num(I32(x))]
    ensures UniqueNames(o) ==> UniqueNames(r)
  {
    PutValue(o, name, Num(I32(x)))
  }

  /** `PutObject`: the name maps to the object handed over. */
  function PutObject(o: seq<Member>, name: string, child: seq<Member>): (r: seq<Member>)
    ensures ToMap(r) == ToMap(o)[name := Object(child)]
    ensures UniqueNames(o) ==> UniqueNames(r)
  {
    PutValue(o, name, Object(child))
  }

  /** `PutArray`: the name maps to the array handed over. */
  function PutArray(o: seq<Member>, name: string, child: seq<Value>): (r: seq<Member>)
    ensures ToMap(r) == ToMap(o)[name := Array(child)]
    ensures UniqueNames(o) ==> UniqueNames(r)
  {
    PutValue(o, name, Array(child))
  }

  /** `Remove`: reports whether the name was mapped, and drops it. */
  function Remove(o: seq<Member>, name: string): (r: (bool, seq<Member>))
    ensures r.0 <==> name in ToMap(o)
    ensures ToMap(r.1) == ToMap(o) - {name}
    ensures UniqueNames(o) ==> UniqueNames(r.1)
  {
    RemoveFacts(o, name);
    (HasName(o, name), Members.Remove(o, name))
  }

  /** What a removal keeps, gathered for `Remove`. */
  lemma RemoveFacts(o: seq<Member>, name: string)
    ensures ToMap(Members.Remove(o, name)) == ToMap(o) - {name}
    ensures UniqueNames(o) ==> UniqueNames(Members.Remove(o, name))
  {
    RemoveIsMapRemove(o, name);
    if UniqueNames(o) {
      RemoveKeepsUnique(o, name);
    }
  }

  /** `Serialize`: the braces around the members' texts, joined by commas. */
  function Serialize(o: seq<Member>): (r: string)
    ensures r == "{" + JoinMembers(o) + "}"
  {
    SerializeShapes(Object(o));
    SerializeValue(Object(o))
  }

  /** `JsonObject::Parse`: the object the text opens with, if it is one; every parsed
      object has unique names at every depth. */
  function Parse(fl: FloatLib, json: string): (r: Option<seq<Member>>)
    ensures r.Some? ==> WellFormed(Object(r.value))
    ensures r.Some? ==> GetChar(json, Trim(json, 0)) == '{'
  {
    JsonParseProperties.ParsedTextsWellFormed(fl, json);
    ParseObjectText(fl, json)
  }

  /** Every getter reads back what the matching put stored under the name. */
  lemma PutThenGet(fl: FloatLib, o: seq<Member>, name: string, b: bool, s: string, x: Int32,
                   child: seq<Member>, items: seq<Value>)
    ensures IsNull(PutNull(o, name), name)
    ensures GetBoolean(PutBoolean(o, name, b), name) == Some(b)
    ensures GetString(PutString(o, name, s), name) == Some(s)
    ensures GetInt32(fl, PutInt32(o, name, x), name) == Some(x)
    ensures GetObject(PutObject(o, name, child), name) == Some(child)
    ensures GetArray(PutArray(o, name, items), name) == Some(items)
  {
  }

  /** A put leaves every other name reading as before. */
  lemma PutLeavesOthers(fl: FloatLib, o: seq<Member>, name: string, v: Value, k: string)
    requires k != name
    ensures Has(PutValue(o, name, v), k) == Has(o, k)
    ensures ToString(PutValue(o, name, v), k) == ToString(o, k)
    ensures ToInt32(fl, PutValue(o, name, v), k) == ToInt32(fl, o, k)
    ensures GetObject(PutValue(o, name, v), k) == GetObject(o, k)
  {
  }

  /** Removing a name just put into an object without it restores the object. */
  lemma RemoveUndoesPut(o: seq<Member>, name: string, v: Value)
    requires !Has(o, name)
    ensures Remove(PutValue(o, name, v), name) == (true, o)
  {
    RemoveUndoesFreshPut(o, name, v);
  }

  /** Parsing the serialization of an object whose names and values print faithfully
      gives the object back. */
  lemma ParseSerialize(fl: FloatLib, o: seq<Member>)
    requires JsonRoundTrip.Printable(Object(o))
    ensures Parse(fl, Serialize(o)) == Some(o)
  {
    JsonParseProperties.ParseObjectTextOfSerialized(fl, o, "");
    assert SerializeValue(Object(o)) + "" == SerializeValue(Object(o));
  }
}
