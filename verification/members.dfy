/** The contents of a JSON object: an association list of members standing for the
    source's `unordered_map` from names to values. Lookups take the first member with
    the name; every list the library builds has unique names, so the first is the only. */
module Members {
  import opened Common
  import opened JsonValue

  /** The names of the members, in list order. */
  function Names(ms: seq<Member>): (r: seq<string>)
    ensures |r| == |ms|
    ensures forall i :: 0 <= i < |ms| ==> r[i] == ms[i].name
  {
    if |ms| == 0 then [] else [ms[0].name] + Names(ms[1..])
  }

  /** No name occurs twice: the invariant of a map. */
  predicate UniqueNames(ms: seq<Member>) {
    forall i, j :: 0 <= i < j < |ms| ==> ms[i].name != ms[j].name
  }

  /** True when some member has the name. */
  predicate HasName(ms: seq<Member>, name: string) {
    exists i :: 0 <= i < |ms| && ms[i].name == name
  }

  /** The position of the first member with the name. */
  function IndexOf(ms: seq<Member>, name: string): (r: Option<nat>)
    ensures r.None? <==> !HasName(ms, name)
    ensures r.Some? ==> r.value < |ms| && ms[r.value].name == name
    ensures r.Some? ==> forall i :: 0 <= i < r.value ==> ms[i].name != name
  {
    if |ms| == 0 then None
    else if ms[0].name == name then Some(0)
    else
      match IndexOf(ms[1..], name)
      case None =>
        assert forall i :: 1 <= i < |ms| ==> ms[i] == ms[1..][i - 1];
        None
      case Some(k) =>
        assert ms[k + 1] == ms[1..][k];
        assert forall i :: 1 <= i <= k ==> ms[i] == ms[1..][i - 1];
        Some(k + 1)
  }

  /** `container_.at(name)`: the value mapped by the name, if any. */
  function Lookup(ms: seq<Member>, name: string): (r: Option<Value>)
    ensures r.None? <==> !HasName(ms, name)
    ensures r.Some? ==> exists i :: 0 <= i < |ms| && ms[i] == Member(name, r.value)
  {
    match IndexOf(ms, name)
    case None => None
    case Some(i) => Some(ms[i].value)
  }

  /** `container_[name] = value`: replaces the value of an existing member where it
      stands, or appends a new member. */
  function Put(ms: seq<Member>, name: string, v: Value): (r: seq<Member>)
    ensures HasName(ms, name) ==> |r| == |ms|
    ensures HasName(ms, name) ==> r == ms[IndexOf(ms, name).value := Member(name, v)]
    ensures !HasName(ms, name) ==> r == ms + [Member(name, v)]
  {
    match IndexOf(ms, name)
    case None => ms + [Member(name, v)]
    case Some(i) => ms[i := Member(name, v)]
  }

  /** Putting a present name overwrites it where it stands: the names, and their order,
      stay as they were. */
  lemma PutKeepsNames(ms: seq<Member>, name: string, v: Value)
    requires HasName(ms, name)
    ensures Names(Put(ms, name, v)) == Names(ms)
  {
    var r := Put(ms, name, v);
    assert forall i :: 0 <= i < |ms| ==> r[i].name == ms[i].name;
  }

  /** `container_.erase(name)`: drops every member with the name. */
  function Remove(ms: seq<Member>, name: string): (r: seq<Member>)
    ensures |r| <= |ms|
    ensures !HasName(r, name)
    ensures forall m :: m in r <==> m in ms && m.name != name
    ensures HasName(ms, name) <==> |r| < |ms|
  {
    if |ms| == 0 then []
    else
      var rest := Remove(ms[1..], name);
      assert forall m :: m in ms <==> m == ms[0] || m in ms[1..];
      if ms[0].name == name then
        assert HasName(ms, name);
        rest
      else
        assert HasName(ms, name) ==> HasName(ms[1..], name) by {
          if HasName(ms, name) {
            var i :| 0 <= i < |ms| && ms[i].name == name;
            assert ms[1..][i - 1] == ms[i];
          }
        }
        assert HasName(ms[1..], name) ==> HasName(ms, name) by {
          if HasName(ms[1..], name) {
            var i :| 0 <= i < |ms[1..]| && ms[1..][i].name == name;
            assert ms[i + 1] == ms[1..][i];
          }
        }
        [ms[0]] + rest
  }

  /** The map an association list stands for; the first member with a name wins. */
  function ToMap(ms: seq<Member>): (r: map<string, Value>)
    ensures forall k :: k in r <==> HasName(ms, k)
    decreases |ms|
  {
    if |ms| == 0 then map[]
    else
      var rest := ToMap(ms[1..]);
      assert forall k :: HasName(ms, k) <==> k == ms[0].name || HasName(ms[1..], k) by {
        forall k ensures HasName(ms, k) <==> k == ms[0].name || HasName(ms[1..], k) {
          if HasName(ms[1..], k) {
            var i :| 0 <= i < |ms[1..]| && ms[1..][i].name == k;
            assert ms[i + 1] == ms[1..][i];
          }
          if HasName(ms, k) && k != ms[0].name {
            var i :| 0 <= i < |ms| && ms[i].name == k;
            assert ms[1..][i - 1] == ms[i];
          }
        }
      }
      rest[ms[0].name := ms[0].value]
  }

  /** Looking a name up in the list is looking it up in the map the list stands for. */
  lemma {:induction false} LookupIsMapLookup(ms: seq<Member>, name: string)
    ensures Lookup(ms, name) == if name in ToMap(ms) then Some(ToMap(ms)[name]) else None
    decreases |ms|
  {
    if |ms| > 0 && ms[0].name != name {
      LookupIsMapLookup(ms[1..], name);
      LookupTail(ms, name);
    }
  }

  /** Past a first member with another name, looking up is looking up in the rest. */
  lemma LookupTail(ms: seq<Member>, name: string)
    requires |ms| > 0 && ms[0].name != name
    ensures Lookup(ms, name) == Lookup(ms[1..], name)
  {
  }

  /** The first position holding a name is the one `IndexOf` finds. */
  lemma IndexOfFirst(ms: seq<Member>, name: string, i: nat)
    requires i < |ms| && ms[i].name == name
    requires forall j :: 0 <= j < i ==> ms[j].name != name
    ensures IndexOf(ms, name) == Some(i)
  {
  }

  /** Putting changes what the putted name looks up to and nothing else. */
  lemma PutLookup(ms: seq<Member>, name: string, v: Value, k: string)
    ensures Lookup(Put(ms, name, v), k) == if k == name then Some(v) else Lookup(ms, k)
  {
    var r := Put(ms, name, v);
    assert forall j :: 0 <= j < |ms| ==> r[j].name == ms[j].name;
    match IndexOf(ms, name)
    case None =>
      if k == name {
        IndexOfFirst(r, k, |ms|);
      } else if HasName(ms, k) {
        IndexOfFirst(r, k, IndexOf(ms, k).value);
      }
    case Some(i) =>
      if k == name {
        IndexOfFirst(r, k, i);
      } else if HasName(ms, k) {
        IndexOfFirst(r, k, IndexOf(ms, k).value);
      } else {
        assert !HasName(r, k);
      }
  }

  /** Putting preserves unique names. */
  lemma PutKeepsUnique(ms: seq<Member>, name: string, v: Value)
    requires UniqueNames(ms)
    ensures UniqueNames(Put(ms, name, v))
  {
  }

  /** After putting, the name maps to the new value and every other name keeps its
      mapping: the map is updated at exactly one name. */
  lemma PutIsMapUpdate(ms: seq<Member>, name: string, v: Value)
    ensures ToMap(Put(ms, name, v)) == ToMap(ms)[name := v]
  {
    var a := ToMap(Put(ms, name, v));
    var b := ToMap(ms)[name := v];
    forall k ensures (k in a <==> k in b) && (k in a ==> a[k] == b[k]) {
      LookupIsMapLookup(Put(ms, name, v), k);
      LookupIsMapLookup(ms, k);
      PutLookup(ms, name, v, k);
    }
  }

  /** With unique names, a name looks up to the value of the one member holding it. */
  lemma UniqueLookup(ms: seq<Member>, name: string)
    requires UniqueNames(ms)
    ensures forall i :: 0 <= i < |ms| && ms[i].name == name ==> Lookup(ms, name) == Some(ms[i].value)
  {
  }

  /** Removing a name drops it from the map and keeps every other mapping. */
  lemma RemoveIsMapRemove(ms: seq<Member>, name: string)
    ensures ToMap(Remove(ms, name)) == ToMap(ms) - {name}
  {
    var a := ToMap(Remove(ms, name));
    var b := ToMap(ms) - {name};
    forall k ensures (k in a <==> k in b) && (k in a ==> a[k] == b[k]) {
      LookupIsMapLookup(Remove(ms, name), k);
      LookupIsMapLookup(ms, k);
      RemoveLookup(ms, name, k);
    }
  }

  /** Removing makes the removed name look up to nothing and changes no other lookup. */
  lemma {:induction false} RemoveLookup(ms: seq<Member>, name: string, k: string)
    ensures Lookup(Remove(ms, name), k) == if k == name then None else Lookup(ms, k)
    decreases |ms|
  {
    if |ms| > 0 && k != name {
      RemoveLookup(ms[1..], name, k);
      var rest := Remove(ms[1..], name);
      if ms[0].name == name {
        LookupTail(ms, k);
      } else if ms[0].name == k {
        IndexOfFirst([ms[0]] + rest, k, 0);
      } else {
        LookupTail(ms, k);
        assert ([ms[0]] + rest)[1..] == rest;
        LookupTail([ms[0]] + rest, k);
      }
    }
  }

  /** Removing keeps the names unique. */
  lemma {:induction false} RemoveKeepsUnique(ms: seq<Member>, name: string)
    requires UniqueNames(ms)
    ensures UniqueNames(Remove(ms, name))
    decreases |ms|
  {
    if |ms| > 0 {
      TailUnique(ms);
      RemoveKeepsUnique(ms[1..], name);
      if ms[0].name != name {
        HeadNotInTail(ms);
        ConsUnique(ms[0], Remove(ms[1..], name));
      }
    }
  }

  /** The members after the first of a list with unique names have unique names. */
  lemma TailUnique(ms: seq<Member>)
    requires |ms| > 0 && UniqueNames(ms)
    ensures UniqueNames(ms[1..])
  {
    forall i, j | 0 <= i < j < |ms[1..]| ensures ms[1..][i].name != ms[1..][j].name {
      assert ms[1..][i] == ms[i + 1] && ms[1..][j] == ms[j + 1];
    }
  }

  /** With unique names, the first name occurs nowhere after the first member. */
  lemma HeadNotInTail(ms: seq<Member>)
    requires |ms| > 0 && UniqueNames(ms)
    ensures forall m :: m in ms[1..] ==> m.name != ms[0].name
  {
    forall m | m in ms[1..] ensures m.name != ms[0].name {
      var i :| 0 <= i < |ms[1..]| && ms[1..][i] == m;
      assert ms[i + 1] == m;
    }
  }

  /** A member whose name occurs nowhere in a list with unique names can head it. */
  lemma ConsUnique(m: Member, rest: seq<Member>)
    requires UniqueNames(rest)
    requires forall x :: x in rest ==> x.name != m.name
    ensures UniqueNames([m] + rest)
  {
    var r := [m] + rest;
    forall i, j | 0 <= i < j < |r| ensures r[i].name != r[j].name {
      assert r[j] == rest[j - 1];
      if i > 0 {
        assert r[i] == rest[i - 1];
      }
    }
  }

  /** With unique names, the names listed are the map's keys, each exactly once. */
  lemma NamesAreMapKeys(ms: seq<Member>)
    requires UniqueNames(ms)
    ensures forall k :: k in Names(ms) <==> k in ToMap(ms)
    ensures forall i, j :: 0 <= i < j < |Names(ms)| ==> Names(ms)[i] != Names(ms)[j]
  {
    var ns := Names(ms);
    forall k ensures k in ns <==> k in ToMap(ms) {
      if k in ns {
        var i :| 0 <= i < |ns| && ns[i] == k;
        assert ms[i].name == k;
      }
      if k in ToMap(ms) {
        var i :| 0 <= i < |ms| && ms[i].name == k;
        assert ns[i] == k;
      }
    }
  }

  /** A tree the library can hold: every object, at every depth, has unique names. */
  predicate WellFormed(v: Value) {
    match v
    case Object(ms) => UniqueNames(ms) && forall i :: 0 <= i < |ms| ==> WellFormed(ms[i].value)
    case Array(es) => forall i :: 0 <= i < |es| ==> WellFormed(es[i])
    case _ => true
  }

  /** Putting a well-formed value into a well-formed object keeps it well-formed. */
  lemma PutKeepsWellFormed(ms: seq<Member>, name: string, v: Value)
    requires WellFormed(Object(ms)) && WellFormed(v)
    ensures WellFormed(Object(Put(ms, name, v)))
  {
    PutKeepsUnique(ms, name, v);
    var r := Put(ms, name, v);
    forall i | 0 <= i < |r| ensures WellFormed(r[i].value) {
      if i < |ms| && r[i] != Member(name, v) {
        assert r[i] == ms[i];
      }
    }
  }

  /** The members read one after another, each put in turn: a later member with a
      name already put replaces the earlier value. */
  function PutAll(acc: seq<Member>, ms: seq<Member>): (r: seq<Member>)
    decreases |ms|
  {
    if |ms| == 0 then acc else PutAll(Put(acc, ms[0].name, ms[0].value), ms[1..])
  }

  /** The value of the last member with the name, if any. */
  function LastLookup(ms: seq<Member>, name: string): (r: Option<Value>)
    ensures r.None? <==> !HasName(ms, name)
    ensures r.Some? ==> exists i :: 0 <= i < |ms| && ms[i] == Member(name, r.value) &&
                                   (forall j :: i < j < |ms| ==> ms[j].name != name)
    decreases |ms|
  {
    if |ms| == 0 then None
    else
      assert forall j :: 1 <= j < |ms| ==> ms[j] == ms[1..][j - 1];
      match LastLookup(ms[1..], name)
      case Some(v) =>
        var i :| 0 <= i < |ms[1..]| && ms[1..][i] == Member(name, v)
                 && forall j :: i < j < |ms[1..]| ==> ms[1..][j].name != name;
        assert ms[i + 1] == Member(name, v);
        Some(v)
      case None =>
        assert HasName(ms, name) ==> ms[0].name == name;
        if ms[0].name == name then Some(ms[0].value) else None
  }

  /** After putting a list of members one by one, every name looks up to the value of
      its last member in the list, or, for a name not in the list, to what it did
      before. */
  lemma {:induction false} PutAllLookup(acc: seq<Member>, ms: seq<Member>, k: string)
    ensures Lookup(PutAll(acc, ms), k) ==
      if HasName(ms, k) then LastLookup(ms, k) else Lookup(acc, k)
    decreases |ms|
  {
    if |ms| > 0 {
      var acc' := Put(acc, ms[0].name, ms[0].value);
      PutAllLookup(acc', ms[1..], k);
      PutLookup(acc, ms[0].name, ms[0].value, k);
    }
  }

  /** Putting keeps a list with unique names free of repeats, whatever is put. */
  lemma {:induction false} PutAllKeepsUnique(acc: seq<Member>, ms: seq<Member>)
    requires UniqueNames(acc)
    ensures UniqueNames(PutAll(acc, ms))
    decreases |ms|
  {
    if |ms| > 0 {
      PutKeepsUnique(acc, ms[0].name, ms[0].value);
      PutAllKeepsUnique(Put(acc, ms[0].name, ms[0].value), ms[1..]);
    }
  }

  /** Members whose names are all new are appended in order. */
  lemma {:induction false} PutAllFresh(acc: seq<Member>, ms: seq<Member>)
    requires UniqueNames(acc + ms)
    ensures PutAll(acc, ms) == acc + ms
    decreases |ms|
  {
    if |ms| > 0 {
      assert (acc + ms)[|acc|] == ms[0];
      assert !HasName(acc, ms[0].name) by {
        forall i | 0 <= i < |acc| ensures acc[i].name != ms[0].name {
          assert (acc + ms)[i] == acc[i];
        }
      }
      assert acc + ms == (acc + [ms[0]]) + ms[1..];
      PutAllFresh(acc + [ms[0]], ms[1..]);
    }
  }

  /** Removing a name that was just put into a list without it gives the list back. */
  lemma {:induction false} RemoveUndoesFreshPut(ms: seq<Member>, name: string, v: Value)
    requires !HasName(ms, name)
    ensures Remove(Put(ms, name, v), name) == ms
    decreases |ms|
  {
    var m := Member(name, v);
    if |ms| > 0 {
      assert (ms + [m])[1..] == ms[1..] + [m];
      assert !HasName(ms[1..], name) by {
        forall i | 0 <= i < |ms[1..]| ensures ms[1..][i].name != name {
          assert ms[1..][i] == ms[i + 1];
        }
      }
      RemoveUndoesFreshPut(ms[1..], name, v);
      assert [ms[0]] + ms[1..] == ms;
    }
  }
}
