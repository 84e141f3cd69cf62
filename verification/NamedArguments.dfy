/** transformNamedArguments: named parameters to positional ones. */
module NamedArguments {
  import opened Bytes
  import opened Objects
  import opened Protocol
  import opened Values

  // ---- Alias lists ----

  const BAR: byte := 0x7C

  // boost::split at '|': one piece more than there are bars.
  function Split(s: bytes): (names: seq<bytes>)
    ensures |names| > 0
  {
    if |s| == 0 then [[]]
    else
      var rest := Split(s[1..]);
      if s[0] == BAR then [[]] + rest else [[s[0]] + rest[0]] + rest[1..]
  }

  function Join(names: seq<bytes>): bytes
    requires |names| > 0
  {
    if |names| == 1 then names[0] else names[0] + [BAR] + Join(names[1..])
  }

  // The pieces hold no bar, and joining them with bars gives the pattern back.
  lemma {:induction false} SplitJoins(s: bytes)
    ensures Join(Split(s)) == s
    ensures forall i :: 0 <= i < |Split(s)| ==> BAR !in Split(s)[i]
  {
    if |s| > 0 {
      var rest := Split(s[1..]);
      SplitJoins(s[1..]);
      if s[0] == BAR {
        assert ([[]] + rest)[1..] == rest;
        assert s == [] + [BAR] + s[1..];
      } else {
        var names := [[s[0]] + rest[0]] + rest[1..];
        assert names[1..] == rest[1..];
        assert s == [s[0]] + s[1..];
        if |rest| > 1 {
          assert Join(names) == [s[0]] + rest[0] + [BAR] + Join(rest[1..]);
          assert [s[0]] + rest[0] + [BAR] + Join(rest[1..]) == [s[0]] + (rest[0] + [BAR] + Join(rest[1..]));
        }
      }
    }
  }

  // ---- Which argument each pattern takes ----

  type Args = map<bytes, Value>

  // The first of the names that is still there.
  function FirstPresent(names: seq<bytes>, args: Args): (r: Option<bytes>)
    ensures r.None? <==> forall i :: 0 <= i < |names| ==> names[i] !in args
    ensures r.Some? ==> r.value in names && IsFirstPresent(names, args, r.value)
  {
    if |names| == 0 then None
    else if names[0] in args then Some(names[0])
    else
      assert names == [names[0]] + names[1..];
      FirstPresent(names[1..], args)
  }

  // name is in args and no name before it is.
  predicate IsFirstPresent(names: seq<bytes>, args: Args, name: bytes) {
    name in args && exists i :: 0 <= i < |names| && names[i] == name && forall j :: 0 <= j < i ==> names[j] !in args
  }

  // The keys a list of hits has consumed.
  function Consumed(hits: seq<Option<bytes>>): set<bytes> {
    set i | 0 <= i < |hits| && hits[i].Some? :: hits[i].value
  }

  // For each pattern in turn, the first of its aliases supplied and not yet consumed.
  function Hits(patterns: seq<bytes>, args: Args): (hits: seq<Option<bytes>>)
    ensures |hits| == |patterns|
  {
    if |patterns| == 0 then []
    else
      var n := |patterns| - 1;
      var before := Hits(patterns[..n], args);
      before + [FirstPresent(Split(patterns[n]), args - Consumed(before))]
  }

  // One past the last hit.
  function PlacedLength(hits: seq<Option<bytes>>): (n: nat)
    ensures n <= |hits|
    ensures n > 0 ==> hits[n - 1].Some?
    ensures forall i :: n <= i < |hits| ==> hits[i].None?
  {
    if |hits| == 0 then 0
    else if hits[|hits| - 1].Some? then |hits|
    else PlacedLength(hits[..|hits| - 1])
  }

  predicate HitsSupplied(hits: seq<Option<bytes>>, args: Args) {
    forall i :: 0 <= i < |hits| && hits[i].Some? ==> hits[i].value in args
  }

  // The positional parameters: each hit at its pattern's index, null in the gaps, nothing after the last hit.
  function Placed(hits: seq<Option<bytes>>, args: Args): seq<Value>
    requires HitsSupplied(hits, args)
  {
    seq(PlacedLength(hits), i requires 0 <= i < PlacedLength(hits) =>
      if hits[i].Some? then args[hits[i].value] else NullValue)
  }

  lemma ConsumedAppend(hits: seq<Option<bytes>>, h: Option<bytes>)
    ensures Consumed(hits + [h]) == Consumed(hits) + (if h.Some? then {h.value} else {})
  {
    var all := hits + [h];
    forall k | k in Consumed(hits)
      ensures k in Consumed(all)
    {
      var i :| 0 <= i < |hits| && hits[i].Some? && hits[i].value == k;
      assert all[i] == hits[i];
    }
    if h.Some? {
      assert all[|hits|] == h;
    }
  }

  lemma {:induction false} HitsAreSupplied(patterns: seq<bytes>, args: Args)
    ensures HitsSupplied(Hits(patterns, args), args)
  {
    if |patterns| > 0 {
      HitsAreSupplied(patterns[..|patterns| - 1], args);
    }
  }

  lemma {:induction false} HitsPrefix(patterns: seq<bytes>, args: Args, i: nat)
    requires i <= |patterns|
    ensures Hits(patterns[..i], args) == Hits(patterns, args)[..i]
  {
    if i < |patterns| {
      var n := |patterns| - 1;
      HitsPrefix(patterns[..n], args, i);
      assert patterns[..n][..i] == patterns[..i];
    } else {
      assert patterns[..i] == patterns;
    }
  }

  /** What a hit is: pattern i takes k exactly when k is the first of its aliases
      that was supplied and that no earlier pattern took. */
  lemma HitIsFirstFree(patterns: seq<bytes>, args: Args, i: nat)
    requires i < |patterns|
    ensures Hits(patterns, args)[i]
            == FirstPresent(Split(patterns[i]), args - Consumed(Hits(patterns, args)[..i]))
  {
    hide Split, FirstPresent;
    HitsPrefix(patterns, args, i);
    HitsPrefix(patterns, args, i + 1);
    assert patterns[..i + 1][..i] == patterns[..i];
    assert Hits(patterns, args)[..i + 1][i] == Hits(patterns, args)[i];
  }

  // Each key is consumed by at most one pattern.
  lemma HitsDistinct(patterns: seq<bytes>, args: Args, i: nat, j: nat)
    requires i < j < |patterns|
    requires Hits(patterns, args)[i].Some? && Hits(patterns, args)[j].Some?
    ensures Hits(patterns, args)[i].value != Hits(patterns, args)[j].value
  {
    hide Split, Hits;
    HitIsFirstFree(patterns, args, j);
    assert Hits(patterns, args)[..j][i] == Hits(patterns, args)[i];
  }

  // ---- Success ----

  // Every supplied key was consumed.
  predicate AllConsumed(patterns: seq<bytes>, args: Args) {
    args.Keys <= Consumed(Hits(patterns, args))
  }

  predicate DisjointAliases(patterns: seq<bytes>) {
    forall i, j, k :: 0 <= i < j < |patterns| && k in Split(patterns[i]) ==> k !in Split(patterns[j])
  }

  predicate Belongs(key: bytes, patterns: seq<bytes>) {
    exists i :: 0 <= i < |patterns| && key in Split(patterns[i])
  }

  // No pattern is given two of its aliases.
  ghost predicate NoClash(patterns: seq<bytes>, args: Args) {
    forall i, j, k | 0 <= i < |patterns| && j in args && k in args :: Clash(patterns[i], j, k) ==> j == k
  }

  predicate Clash(pattern: bytes, j: bytes, k: bytes) {
    j in Split(pattern) && k in Split(pattern)
  }

  lemma HitOf(patterns: seq<bytes>, args: Args, key: bytes) returns (i: nat)
    requires key in Consumed(Hits(patterns, args))
    ensures i < |patterns| && Hits(patterns, args)[i] == Some(key) && key in Split(patterns[i])
  {
    hide Split, Hits;
    i :| 0 <= i < |patterns| && Hits(patterns, args)[i].Some? && Hits(patterns, args)[i].value == key;
    HitIsFirstFree(patterns, args, i);
  }

  // With disjoint aliases, a pattern one of whose aliases was supplied has a hit.
  lemma DisjointHit(patterns: seq<bytes>, args: Args, i: nat, key: bytes)
    requires DisjointAliases(patterns) && i < |patterns| && key in args && key in Split(patterns[i])
    ensures Hits(patterns, args)[i].Some?
    ensures Hits(patterns, args)[i].value in args && Hits(patterns, args)[i].value in Split(patterns[i])
  {
    hide Split, Hits;
    var hits := Hits(patterns, args);
    HitIsFirstFree(patterns, args, i);
    if key in Consumed(hits[..i]) {
      var j :| 0 <= j < i && hits[..i][j].Some? && hits[..i][j].value == key;
      HitIsFirstFree(patterns, args, j);
      assert false;
    }
  }

  /** With disjoint alias lists the call succeeds exactly when every supplied key
      is some pattern's alias and no pattern is given two of them. */
  lemma DisjointSuccess(patterns: seq<bytes>, args: Args)
    requires DisjointAliases(patterns)
    ensures AllConsumed(patterns, args) <==>
            (forall k :: k in args ==> Belongs(k, patterns)) && NoClash(patterns, args)
  {
    hide Split, Hits;
    if AllConsumed(patterns, args) {
      forall k | k in args
        ensures Belongs(k, patterns)
      {
        var i := HitOf(patterns, args, k);
      }
      forall i, j, k | 0 <= i < |patterns| && j in args && k in args && Clash(patterns[i], j, k)
        ensures j == k
      {
        var a := HitOf(patterns, args, j);
        var b := HitOf(patterns, args, k);
        assert a == i && b == i;
      }
    }
    if (forall k :: k in args ==> Belongs(k, patterns)) && NoClash(patterns, args) {
      forall k | k in args
        ensures k in Consumed(Hits(patterns, args))
      {
        var i :| 0 <= i < |patterns| && k in Split(patterns[i]);
        DisjointHit(patterns, args, i, k);
        assert Clash(patterns[i], Hits(patterns, args)[i].value, k);
      }
    }
  }

  // ---- The transformation ----

  datatype Request = Request(id: Value, strMethod: bytes, params: Value,
                             fHelp: bool, uri: bytes, authUser: bytes, peerAddr: bytes)

  // What a C++ call does: return, throw a UniValue, or throw a std::exception.
  datatype Outcome<+T> = Returned(value: T) | ThrewValue(error: Value) | ThrewStd(what: bytes)

  const NOT_OBJECT := "JSON value is not an object as expected"
  const UNKNOWN_PARAMETER := "Unknown named parameter "

  // The key begin() of a non-empty unordered_map points at: some key, chosen by the container.
  ghost predicate ValidBegin(begin: Args -> bytes) {
    forall m: Args :: m != map[] ==> begin(m) in m
  }

  function UnknownParameter(key: bytes): Outcome<Request> {
    ThrewValue(ErrorValue(RPC_INVALID_PARAMETER, Ascii(UNKNOWN_PARAMETER) + key))
  }

  function ArgsOf(params: Value): Args
    requires |params.keys| <= |params.values|
  {
    ObjMap(params.keys, params.values)
  }

  function Transformed(r: Request, argNames: seq<bytes>, begin: Args -> bytes): Outcome<Request>
    requires InStep(r.params)
  {
    if r.params.typ != VOBJ then ThrewStd(Ascii(NOT_OBJECT))
    else
      var args := ArgsOf(r.params);
      var hits := Hits(argNames, args);
      HitsAreSupplied(argNames, args);
      var left := args - Consumed(hits);
      if left != map[] then
        UnknownParameter(begin(left))
      else Returned(r.(params := Value(VARR, [], [], Placed(hits, args))))
  }

  // boost::algorithm::split and the search for the first alias still in the map.
  method FindAlias(argNamePattern: bytes, argsIn: Args) returns (fr: Option<bytes>)
    ensures fr == FirstPresent(Split(argNamePattern), argsIn)
  {
    var vargNames := Split(argNamePattern);
    var j := 0;
    while j < |vargNames|
      invariant 0 <= j <= |vargNames|
      invariant FirstPresent(vargNames, argsIn) == FirstPresent(vargNames[j..], argsIn)
    {
      if vargNames[j] in argsIn {
        return Some(vargNames[j]);
      }
      assert vargNames[j..][1..] == vargNames[j + 1..];
      j := j + 1;
    }
    return None;
  }

  method TransformNamedArguments(r: Request, argNames: seq<bytes>, begin: Args -> bytes)
    returns (out: Outcome<Request>)
    requires InStep(r.params)
    ensures out == Transformed(r, argNames, begin)
    ensures r.params.typ != VOBJ ==> out == ThrewStd(Ascii("JSON value is not an object as expected"))
  {
    hide Split, FirstPresent, ObjMap, Consumed, Placed;
    if r.params.typ != VOBJ {
      return ThrewStd(Ascii(NOT_OBJECT));
    }
    PlacedNone(ArgsOf(r.params));
    var keys, values := r.params.keys, r.params.values;
    var argsIn := CollectArguments(keys, values);
    ghost var args := argsIn;
    ghost var hits: seq<Option<bytes>> := [];
    var params: seq<Value> := [];
    var hole := 0;
    var n := 0;
    while n < |argNames|
      invariant 0 <= n <= |argNames|
      invariant hits == Hits(argNames[..n], args) && HitsSupplied(hits, args)
      invariant argsIn == args - Consumed(hits)
      invariant params == Placed(hits, args)
      invariant hole == n - |params|
    {
      ghost var before := hits;
      var fr := FindAlias(argNames[n], argsIn);
      assert argNames[..n + 1][..n] == argNames[..n];
      hits := hits + [fr];
      ConsumedAppend(before, fr);
      if fr.Some? {
        PlacedHit(before, fr.value, args);
        params := FillAndPush(params, hole, argsIn[fr.value]);
        hole := 0;
        argsIn := argsIn - {fr.value};
      } else {
        PlacedMiss(before, args);
        hole := hole + 1;
      }
      n := n + 1;
    }
    assert argNames[..n] == argNames;
    if argsIn != map[] {
      var e := JSONRPCError(RPC_INVALID_PARAMETER, Ascii(UNKNOWN_PARAMETER) + begin(argsIn));
      return ThrewValue(e);
    }
    return Returned(r.(params := Value(VARR, [], [], params)));
  }

  // The hole before a matched argument is filled with nulls.
  method FillAndPush(params0: seq<Value>, hole: nat, v: Value) returns (params: seq<Value>)
    ensures params == params0 + seq(hole, _ => NullValue) + [v]
  {
    params := params0;
    var i := 0;
    while i < hole
      invariant 0 <= i <= hole
      invariant params == params0 + seq(i, _ => NullValue)
    {
      params := params + [NullValue];
      i := i + 1;
    }
    params := params + [v];
  }

  lemma PlacedNone(args: Args)
    ensures Hits([], args) == [] && Consumed([]) == {} && Placed([], args) == []
  {
  }

  lemma PlacedHit(before: seq<Option<bytes>>, key: bytes, args: Args)
    requires HitsSupplied(before, args) && key in args
    ensures HitsSupplied(before + [Some(key)], args)
    ensures |before| >= |Placed(before, args)|
    ensures Placed(before + [Some(key)], args)
            == Placed(before, args) + seq(|before| - |Placed(before, args)|, _ => NullValue) + [args[key]]
  {
    var hits := before + [Some(key)];
    assert HitsSupplied(hits, args);
  }

  lemma PlacedMiss(before: seq<Option<bytes>>, args: Args)
    requires HitsSupplied(before, args)
    ensures HitsSupplied(before + [None], args)
    ensures Placed(before + [None], args) == Placed(before, args)
  {
    var hits := before + [None];
    assert hits[..|hits| - 1] == before;
  }

  // for each i: argsIn[keys[i]] = &values[i]
  method CollectArguments(keys: seq<bytes>, values: seq<Value>) returns (argsIn: Args)
    requires |keys| <= |values|
    ensures argsIn == ObjMap(keys, values)
  {
    argsIn := map[];
    var i := 0;
    while i < |keys|
      invariant 0 <= i <= |keys|
      invariant argsIn == ObjMap(keys[..i], values)
    {
      argsIn := argsIn[keys[i] := values[i]];
      assert keys[..i + 1][..i] == keys[..i];
      i := i + 1;
    }
    assert keys[..i] == keys;
  }

  // Positions by pattern: each pattern's argument at its index, null in the gaps, nothing after the last.
  predicate IsPlacement(ps: seq<Value>, patterns: seq<bytes>, args: Args) {
    var hits := Hits(patterns, args);
    && |ps| <= |patterns|
    && (|ps| > 0 ==> hits[|ps| - 1].Some?)
    && (forall i :: |ps| <= i < |patterns| ==> hits[i].None?)
    && forall i :: 0 <= i < |ps| ==>
         if hits[i].Some? then hits[i].value in args && ps[i] == args[hits[i].value] else ps[i] == NullValue
  }

  lemma PlacementUnique(ps: seq<Value>, qs: seq<Value>, patterns: seq<bytes>, args: Args)
    requires IsPlacement(ps, patterns, args) && IsPlacement(qs, patterns, args)
    ensures ps == qs
  {
    hide Hits;
  }

  /** The call throws RPC_INVALID_PARAMETER exactly when some key is left over, and
      the message then names such a key; otherwise the positional parameters end
      at the last matched pattern, with each argument in its pattern's place. */
  lemma TransformOutcome(r: Request, argNames: seq<bytes>, begin: Args -> bytes)
    requires InStep(r.params) && r.params.typ == VOBJ && ValidBegin(begin)
    ensures var args := ArgsOf(r.params); var out := Transformed(r, argNames, begin);
      && (out.Returned? <==> AllConsumed(argNames, args))
      && (!out.Returned? ==>
            (exists k | k in args :: k !in Consumed(Hits(argNames, args)) && out == UnknownParameter(k)))
      && (out.Returned? ==>
            var ps := out.value.params.values;
            out.value == r.(params := Value(VARR, [], [], ps)) && IsPlacement(ps, argNames, args))
  {
    hide Hits, ArgsOf;
    var args := ArgsOf(r.params);
    var hits := Hits(argNames, args);
    HitsAreSupplied(argNames, args);
    var left := args - Consumed(hits);
    if left == map[] {
      forall k | k in args
        ensures k in Consumed(hits)
      {
        assert k !in left;
      }
    } else {
      assert begin(left) in left;
    }
  }
}
