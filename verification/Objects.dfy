/** Objects as maps: pushKV, pushKVs, first-match lookup and getObjMap. */
module Objects {
  import opened Bytes
  import opened Values

  // findKey: the first index of a key.
  function FindKey(keys: seq<bytes>, key: bytes): (r: Option<nat>)
    ensures r.Some? ==> r.value < |keys| && keys[r.value] == key && key !in keys[..r.value]
    ensures r.None? <==> key !in keys
  {
    if |keys| == 0 then None
    else if keys[0] == key then Some(0)
    else
      var r := FindKey(keys[1..], key);
      assert keys == [keys[0]] + keys[1..];
      if r.None? then None
      else
        assert keys[..r.value + 1] == [keys[0]] + keys[1..][..r.value];
        Some(r.value + 1)
  }

  lemma FindKeyUnique(keys: seq<bytes>, key: bytes, i: nat)
    requires i < |keys| && keys[i] == key && key !in keys[..i]
    ensures FindKey(keys, key) == Some(i)
  {
  }

  // Index i holds the first occurrence of a key.
  predicate IsFirst(v: Value, key: bytes, i: nat) {
    i < |v.keys| && v.keys[i] == key && forall j :: 0 <= j < i ==> v.keys[j] != key
  }

  lemma FirstIsFound(v: Value, key: bytes, i: nat)
    requires IsFirst(v, key, i)
    ensures FindKey(v.keys, key) == Some(i)
  {
    FindKeyUnique(v.keys, key, i);
  }

  // The value first-match lookup finds.
  function First(v: Value, key: bytes): Option<Value>
    requires |v.keys| <= |v.values|
  {
    var i := FindKey(v.keys, key);
    if i.Some? then Some(v.values[i.value]) else None
  }

  // What getObjMap collects: later bindings overwrite earlier ones.
  function ObjMap(keys: seq<bytes>, values: seq<Value>): map<bytes, Value>
    requires |keys| <= |values|
  {
    if |keys| == 0 then map[]
    else
      var n := |keys| - 1;
      ObjMap(keys[..n], values)[keys[n] := values[n]]
  }

  // __pushKV
  function Appended(v: Value, key: bytes, x: Value): Value {
    v.(keys := v.keys + [key], values := v.values + [x])
  }

  // An object with a value for every key; nothing is asked of other types.
  predicate InStep(v: Value) {
    v.typ == VOBJ ==> |v.keys| <= |v.values|
  }

  // A key whose first occurrence has no value, as a failed read can leave one.
  predicate Lacking(v: Value, key: bytes) {
    key in v.keys && FindKey(v.keys, key).value >= |v.values|
  }

  // pushKV on an object.
  function PushKV(v: Value, key: bytes, x: Value): Value
    requires !Lacking(v, key)
  {
    var i := FindKey(v.keys, key);
    if i.Some? then v.(values := v.values[i.value := x]) else Appended(v, key, x)
  }

  // pushKVs between two objects whose keys all have values.
  function PushKVs(v: Value, obj: Value): Value
    requires |obj.keys| == |obj.values|
  {
    v.(keys := v.keys + obj.keys, values := v.values + obj.values)
  }

  /** On any object, duplicate keys or not: pushKV changes the value under the
      first occurrence of the key and nothing else, or appends at the end. */
  lemma PushKVEffect(v: Value, key: bytes, x: Value, i: nat)
    requires !Lacking(v, key)
    ensures var w := PushKV(v, key, x);
      && w.typ == v.typ && w.val == v.val
      && (IsFirst(v, key, i) ==>
            && w.keys == v.keys && |w.values| == |v.values| && w.values[i] == x
            && forall j :: 0 <= j < |v.values| && j != i ==> w.values[j] == v.values[j])
      && (key !in v.keys ==> w.keys == v.keys + [key] && w.values == v.values + [x])
  {
    hide FindKey;
    if IsFirst(v, key, i) {
      FirstIsFound(v, key, i);
    }
  }

  // pushKVs appends in the order of the other object.
  lemma PushKVsEffect(a: Value, b: Value)
    requires |b.keys| == |b.values|
    ensures var c := PushKVs(a, b);
      && c.typ == a.typ && c.val == a.val && |c.keys| == |a.keys| + |b.keys| && |c.values| == |a.values| + |b.values|
      && c.keys[..|a.keys|] == a.keys && c.keys[|a.keys|..] == b.keys
      && c.values[..|a.values|] == a.values && c.values[|a.values|..] == b.values
  {
  }

  // ---- Runs of pushKV ----

  const EMPTY_OBJECT := Leaf(VOBJ, [])

  // An object with distinct keys and a value per key.
  predicate MapLike(v: Value) {
    v.typ == VOBJ && |v.keys| == |v.values|
    && forall i, j :: 0 <= i < j < |v.keys| ==> v.keys[i] != v.keys[j]
  }

  lemma PushKVMapLike(v: Value, key: bytes, x: Value)
    requires MapLike(v)
    ensures MapLike(PushKV(v, key, x))
  {
  }

  function PushAll(v: Value, kvs: seq<(bytes, Value)>): Value
    requires MapLike(v)
    decreases |kvs|
  {
    if |kvs| == 0 then v
    else
      PushKVMapLike(v, kvs[0].0, kvs[0].1);
      PushAll(PushKV(v, kvs[0].0, kvs[0].1), kvs[1..])
  }

  // The same pushes on a mathematical map.
  function UpdateAll(m: map<bytes, Value>, kvs: seq<(bytes, Value)>): map<bytes, Value>
    decreases |kvs|
  {
    if |kvs| == 0 then m else UpdateAll(m[kvs[0].0 := kvs[0].1], kvs[1..])
  }

  // The lookups of an object, all read off one map.
  ghost predicate Represents(v: Value, m: map<bytes, Value>) {
    MapLike(v)
    && (forall k :: k in v.keys <==> k in m)
    && forall i :: 0 <= i < |v.keys| ==> m[v.keys[i]] == v.values[i]
  }

  lemma {:induction false} ObjMapBinding(keys: seq<bytes>, values: seq<Value>, i: nat)
    requires |keys| <= |values| && i < |keys|
    requires forall j :: i < j < |keys| ==> keys[j] != keys[i]
    ensures keys[i] in ObjMap(keys, values) && ObjMap(keys, values)[keys[i]] == values[i]
  {
    var n := |keys| - 1;
    if i < n {
      ObjMapBinding(keys[..n], values, i);
    }
  }

  lemma {:induction false} ObjMapKeys(keys: seq<bytes>, values: seq<Value>)
    requires |keys| <= |values|
    ensures forall k :: k in ObjMap(keys, values) <==> k in keys
  {
    if |keys| > 0 {
      var n := |keys| - 1;
      ObjMapKeys(keys[..n], values);
      assert keys == keys[..n] + [keys[n]];
    }
  }

  // An object that represents m answers first-match lookup, exists and getObjMap from m.
  lemma RepresentsLookups(v: Value, m: map<bytes, Value>, key: bytes)
    requires Represents(v, m)
    ensures FindKey(v.keys, key).Some? <==> key in m
    ensures First(v, key) == if key in m then Some(m[key]) else None
    ensures ObjMap(v.keys, v.values) == m
  {
    hide FindKey, ObjMap;
    ObjMapKeys(v.keys, v.values);
    var om := ObjMap(v.keys, v.values);
    forall k | k in om
      ensures om[k] == m[k]
    {
      var i :| 0 <= i < |v.keys| && v.keys[i] == k;
      ObjMapBinding(v.keys, v.values, i);
    }
  }

  lemma PushKVRepresents(v: Value, m: map<bytes, Value>, key: bytes, x: Value)
    requires Represents(v, m)
    ensures Represents(PushKV(v, key, x), m[key := x])
  {
    hide FindKey;
    var w := PushKV(v, key, x);
    PushKVMapLike(v, key, x);
    if key in v.keys {
      assert w.keys == v.keys;
    } else {
      assert forall k :: k in w.keys <==> k in v.keys || k == key;
    }
  }

  lemma {:induction false} PushAllRepresents(v: Value, m: map<bytes, Value>, kvs: seq<(bytes, Value)>)
    requires Represents(v, m)
    ensures Represents(PushAll(v, kvs), UpdateAll(m, kvs))
    decreases |kvs|
  {
    hide PushKV, Represents;
    if |kvs| > 0 {
      PushKVRepresents(v, m, kvs[0].0, kvs[0].1);
      MapLikeOf(v, m);
      PushAllRepresents(PushKV(v, kvs[0].0, kvs[0].1), m[kvs[0].0 := kvs[0].1], kvs[1..]);
    }
  }

  lemma MapLikeOf(v: Value, m: map<bytes, Value>)
    requires Represents(v, m)
    ensures MapLike(v)
  {
  }

  /** Any run of pushKV on an empty object refines map update: distinct keys, a
      value per key, and every lookup answers as the map does. */
  lemma PushRunIsMap(kvs: seq<(bytes, Value)>, key: bytes)
    ensures var v := PushAll(EMPTY_OBJECT, kvs); var m := UpdateAll(map[], kvs);
      && MapLike(v)
      && (FindKey(v.keys, key).Some? <==> key in m)
      && First(v, key) == (if key in m then Some(m[key]) else None)
      && ObjMap(v.keys, v.values) == m
  {
    PushAllRepresents(EMPTY_OBJECT, map[], kvs);
    RepresentsLookups(PushAll(EMPTY_OBJECT, kvs), UpdateAll(map[], kvs), key);
  }

  // ---- pushKVs ----

  lemma FirstOfConcat(a: seq<bytes>, b: seq<bytes>, key: bytes)
    ensures FindKey(a + b, key) ==
            if key in a then FindKey(a, key)
            else if key in b then Some(|a| + FindKey(b, key).value) else None
  {
    hide FindKey;
    var c := a + b;
    if key in a {
      var i := FindKey(a, key).value;
      assert c[..i] == a[..i];
      FindKeyUnique(c, key, i);
    } else if key in b {
      var i := FindKey(b, key).value;
      assert c[..|a| + i] == a + b[..i];
      assert c[|a| + i] == b[i];
      FindKeyUnique(c, key, |a| + i);
    } else {
      assert key !in c;
    }
  }

  lemma {:induction false} ObjMapOfConcat(ka: seq<bytes>, va: seq<Value>, kb: seq<bytes>, vb: seq<Value>)
    requires |ka| == |va| && |kb| == |vb|
    ensures ObjMap(ka + kb, va + vb) == ObjMap(ka, va) + ObjMap(kb, vb)
    decreases |kb|
  {
    if |kb| == 0 {
      assert ka + kb == ka && va + vb == va;
    } else {
      var n := |kb| - 1;
      ObjMapOfConcat(ka, va, kb[..n], vb[..n]);
      assert (ka + kb)[..|ka| + n] == ka + kb[..n];
      assert va + vb == (va + vb[..n]) + [vb[n]];
      ObjMapPrefix(ka + kb[..n], va + vb[..n], [vb[n]]);
      assert vb == vb[..n] + [vb[n]];
      ObjMapPrefix(kb[..n], vb[..n], [vb[n]]);
    }
  }

  // Values beyond the keys do not matter.
  lemma {:induction false} ObjMapPrefix(keys: seq<bytes>, values: seq<Value>, more: seq<Value>)
    requires |keys| <= |values|
    ensures ObjMap(keys, values + more) == ObjMap(keys, values)
  {
    if |keys| > 0 {
      ObjMapPrefix(keys[..|keys| - 1], values, more);
    }
  }

  /** After pushKVs, first-match lookup keeps the bindings that were there and adds
      the new ones, while getObjMap lets the appended ones win. */
  lemma PushKVsLookups(a: Value, b: Value, key: bytes)
    requires |a.keys| == |a.values| && |b.keys| == |b.values|
    ensures var c := PushKVs(a, b);
      && First(c, key) == (if key in a.keys then First(a, key) else First(b, key))
      && ObjMap(c.keys, c.values) == ObjMap(a.keys, a.values) + ObjMap(b.keys, b.values)
  {
    hide FindKey, ObjMap;
    FirstOfConcat(a.keys, b.keys, key);
    ObjMapOfConcat(a.keys, a.values, b.keys, b.values);
  }
}
