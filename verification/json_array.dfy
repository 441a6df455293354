/** The `JsonArray` facade: the operations a caller applies to an array, over the
    array's sequence of elements. Indexes are `std::size_t`, so never negative; an
    index past the end is answered, never an error. */
module JsonArrays {
  import opened Common
  import opened JsonValue
  import opened InputStream
  import opened Members
  import opened JsonSerializer
  import opened JsonParser
  import JsonRoundTrip
  import JsonParseProperties

  /** `GetSize`: the number of elements. */
  function GetSize(a: seq<Value>): (r: nat)
    ensures r == |a|
  {
    |a|
  }

  /** `IsNull`: an index past the end reads as null, as does a null element. */
  function IsNull(a: seq<Value>, i: nat): (r: bool)
    ensures r <==> !(i < |a| && a[i] != Null)
  {
    i >= |a| || a[i] == Null
  }

  /** `GetBoolean`: the boolean at the index, and nothing for any other kind. */
  function GetBoolean(a: seq<Value>, i: nat): (r: Option<bool>)
    ensures r.Some? <==> i < |a| && a[i].Boolean?
    ensures r.Some? ==> a[i] == Boolean(r.value)
  {
    if i < |a| && a[i].Boolean? then JsonValue.ToBoolean(a[i]) else None
  }

  /** `ToBoolean`: the element at the index, coerced to a boolean. */
  function ToBoolean(a: seq<Value>, i: nat): (r: Option<bool>)
    ensures r == Some(true) <==> i < |a| && (a[i] == Boolean(true) || a[i] == String("true"))
    ensures r == Some(false) <==> i < |a| && (a[i] == Boolean(false) || a[i] == String("false"))
  {
    if i < |a| then JsonValue.ToBoolean(a[i]) else None
  }

  /** `GetString`: the string at the index, and nothing for any other kind. */
  function GetString(a: seq<Value>, i: nat): (r: Option<string>)
    ensures r.Some? <==> i < |a| && a[i].String?
    ensures r.Some? ==> a[i] == String(r.value)
  {
    if i < |a| && a[i].String? then JsonValue.ToString(a[i]) else None
  }

  /** `ToString`: the element at the index, coerced to text; nothing past the end or
      for null. */
  function ToString(a: seq<Value>, i: nat): (r: Option<string>)
    ensures r.None? <==> i >= |a| || a[i] == Null
    ensures i < |a| ==> r == JsonValue.ToString(a[i])
  {
    if i < |a| then JsonValue.ToString(a[i]) else None
  }

  /** `GetInt32`: the number at the index, narrowed to 32 bits, and nothing for any
      other kind. */
  function GetInt32(fl: FloatLib, a: seq<Value>, i: nat): (r: Option<Int32>)
    ensures r.Some? <==> i < |a| && a[i].Num?
    ensures r.Some? ==> r.value == NumberToInt32(fl, a[i].n)
  {
    if i < |a| && a[i].Num? then JsonValue.ToInt32(fl, a[i]) else None
  }

  /** `ToInt32`: the element at the index, coerced to a 32-bit integer. */
  function ToInt32(fl: FloatLib, a: seq<Value>, i: nat): (r: Option<Int32>)
    ensures i >= |a| ==> r.None?
    ensures i < |a| ==> r == JsonValue.ToInt32(fl, a[i])
  {
    if i < |a| then JsonValue.ToInt32(fl, a[i]) else None
  }

  /** `GetObject`: the object at the index; a null pointer for anything else. */
  function GetObject(a: seq<Value>, i: nat): (r: Option<seq<Member>>)
    ensures r.Some? <==> i < |a| && a[i].Object?
    ensures r.Some? ==> a[i] == Object(r.value)
  {
    if i < |a| && a[i].Object? then Some(a[i].members) else None
  }

  /** `GetArray`: the array at the index; a null pointer for anything else. */
  function GetArray(a: seq<Value>, i: nat): (r: Option<seq<Value>>)
    ensures r.Some? <==> i < |a| && a[i].Array?
    ensures r.Some? ==> a[i] == Array(r.value)
  {
    if i < |a| && a[i].Array? then Some(a[i].elements) else None
  }

  /** `AppendValue`: the value becomes the new last element; the others stay put. */
  function AppendValue(a: seq<Value>, v: Value): (r: seq<Value>)
    ensures |r| == |a| + 1
    ensures r[|a|] == v
    ensures forall i :: 0 <= i < |a| ==> r[i] == a[i]
    ensures WellFormed(Array(a)) && WellFormed(v) ==> WellFormed(Array(r))
  {
    a + [v]
  }

  /** `AppendNull`: null becomes the new last element. */
  function AppendNull(a: seq<Value>): (r: seq<Value>)
    ensures |r| == |a| + 1 && r[|a|] == Null && r[..|a|] == a
  {
    AppendValue(a, Null)
  }

  /** `AppendBoolean`: the boolean becomes the new last element. */
  function AppendBoolean(a: seq<Value>, b: bool): (r: seq<Value>)
    ensures |r| == |a| + 1 && r[|a|] == Boolean(b) && r[..|a|] == a
  {
    AppendValue(a, Boolean(b))
  }

  /** `AppendString`: the string becomes the new last element. */
  function AppendString(a: seq<Value>, s: string): (r: seq<Value>)
    ensures |r| == |a| + 1 && r[|a|] == String(s) && r[..|a|] == a
  {
    AppendValue(a, String(s))
  }

  /** `AppendInt32`: a number holding the 32-bit integer becomes the new last element. */
  function AppendInt32(a: seq<Value>, x: Int32): (r: seq<Value>)
    ensures |r| == |a| + 1 && r[|a|] == Num(I32(x)) && r[..|a|] == a
  {
    AppendValue(a, Num(I32(x)))
  }

  /** `AppendObject`: the object handed over becomes the new last element. */
  function AppendObject(a: seq<Value>, child: seq<Member>): (r: seq<Value>)
    ensures |r| == |a| + 1 && r[|a|] == Object(child) && r[..|a|] == a
  {
    AppendValue(a, Object(child))
  }

  /** `AppendArray`: the array handed over becomes the new last element. */
  function AppendArray(a: seq<Value>, child: seq<Value>): (r: seq<Value>)
    ensures |r| == |a| + 1 && r[|a|] == Array(child) && r[..|a|] == a
  {
    AppendValue(a, Array(child))
  }

  /** `Remove`: an index inside the array erases that element and shifts the later
      ones down, reporting success; any other index changes nothing. */
  function Remove(a: seq<Value>, i: nat): (r: (bool, seq<Value>))
    ensures r.0 <==> i < |a|
    ensures !r.0 ==> r.1 == a
    ensures r.0 ==> |r.1| == |a| - 1
    ensures r.0 ==> forall j :: 0 <= j < i ==> r.1[j] == a[j]
    ensures r.0 ==> forall j :: i <= j < |r.1| ==> r.1[j] == a[j + 1]
  {
    if i < |a| then (true, a[..i] + a[i + 1..]) else (false, a)
  }

  /** `Serialize`: the brackets around the elements' texts, joined by commas. */
  function Serialize(a: seq<Value>): (r: string)
    ensures r == "[" + JoinElements(a) + "]"
  {
    SerializeShapes(Array(a));
    SerializeValue(Array(a))
  }

  /** `JsonArray::Parse`: the array the text opens with, if it is one; every object
      inside has unique names. */
  function Parse(fl: FloatLib, json: string): (r: Option<seq<Value>>)
    ensures r.Some? ==> WellFormed(Array(r.value))
    ensures r.Some? ==> GetChar(json, Trim(json, 0)) == '['
  {
    JsonParseProperties.ParsedTextsWellFormed(fl, json);
    ParseArrayText(fl, json)
  }

  /** Every getter at the old size reads back what the matching append added, and
      the size grows by one. */
  lemma AppendThenGet(fl: FloatLib, a: seq<Value>, b: bool, s: string, x: Int32,
                      child: seq<Member>, items: seq<Value>)
    ensures GetSize(AppendNull(a)) == GetSize(a) + 1
    ensures IsNull(AppendNull(a), |a|)
    ensures GetBoolean(AppendBoolean(a, b), |a|) == Some(b)
    ensures GetString(AppendString(a, s), |a|) == Some(s)
    ensures GetInt32(fl, AppendInt32(a, x), |a|) == Some(x)
    ensures GetObject(AppendObject(a, child), |a|) == Some(child)
    ensures GetArray(AppendArray(a, items), |a|) == Some(items)
  {
  }

  /** Removing the element just appended restores the array. */
  lemma RemoveUndoesAppend(a: seq<Value>, v: Value)
    ensures Remove(AppendValue(a, v), |a|) == (true, a)
  {
    var r := AppendValue(a, v);
    assert r[..|a|] == a;
    assert r[|a| + 1..] == [];
    assert Remove(r, |a|).1 == r[..|a|] + r[|a| + 1..];
    assert Remove(r, |a|).0;
    assert Remove(r, |a|).1 == a;
  }

  /** Removing an index leaves exactly the other elements, in order: putting the
      removed element back at its index restores the array. */
  lemma RemoveThenInsert(a: seq<Value>, i: nat)
    requires i < |a|
    ensures Remove(a, i).1[..i] + [a[i]] + Remove(a, i).1[i..] == a
  {
  }

  /** Parsing the serialization of an array whose values print faithfully gives the
      array back. */
  lemma ParseSerialize(fl: FloatLib, a: seq<Value>)
    requires JsonRoundTrip.Printable(Array(a))
    ensures Parse(fl, Serialize(a)) == Some(a)
  {
    JsonParseProperties.ParseArrayTextOfSerialized(fl, a, "");
    assert SerializeValue(Array(a)) + "" == SerializeValue(Array(a));
  }
}
