/** The UniValue object: fields updated in place by setters, pushes and read. */
module UniValueClass {
  import opened Bytes
  import opened Integers
  import opened Lexer
  import opened Machine
  import opened Objects
  import opened Reader
  import opened TokenLists
  import opened Values
  import opened Writer

  // A getter's result: a value, or the std::runtime_error or std::out_of_range it throws.
  datatype Fetched<+T> = Got(value: T) | Thrown(what: string)

  const NOT_INTEGER := "JSON value is not an integer as expected"
  const INTEGER_RANGE := "JSON integer out of range"
  const VECTOR_AT := "vector::at"

  // ---- The expect mask ----

  const EXP_OBJ_NAME: bv32 := 1
  const EXP_COLON: bv32 := 2
  const EXP_ARR_VALUE: bv32 := 4
  const EXP_VALUE: bv32 := 8
  const EXP_NOT_VALUE: bv32 := 16

  // The mask between tokens, for each mode of the token machine.
  function MaskOf(mode: Mode): bv32 {
    match mode
    case Start => 0
    case ObjName => EXP_OBJ_NAME
    case ArrValue => EXP_ARR_VALUE
    case ColonNext => EXP_COLON | EXP_NOT_VALUE
    case ValueNext => EXP_VALUE
    case NotValue => EXP_NOT_VALUE
  }

  // jsonTokenIsValue
  predicate TokenIsValue(tok: Token) {
    tok.KwNull? || tok.KwTrue? || tok.KwFalse? || tok.Number? || tok.String?
  }

  predicate IsValueOpen(tok: Token) {
    TokenIsValue(tok) || tok.ObjOpen? || tok.ArrOpen?
  }

  // What the expectation tests let through.
  predicate Passes(mode: Mode, tok: Token) {
    match mode
    case Start => !tok.Colon?
    case ObjName => tok.ObjClose? || tok.String?
    case ArrValue => IsValueOpen(tok) || tok.ArrClose?
    case ColonNext => tok.Colon?
    case ValueNext => IsValueOpen(tok)
    case NotValue => !IsValueOpen(tok) && !tok.Colon?
  }

  // What is left of the mask after they did.
  function PassedMask(mode: Mode): bv32 {
    if mode == ObjName then EXP_OBJ_NAME else 0
  }

  lemma BlockedIsRejected(m: Machine, tok: Token)
    requires Inv(m) && !Passes(m.mode, tok)
    ensures m.mode == Start || |m.frames| > 0
    ensures Step(m, tok) == Reject
  {
    hide Deliver, Close, PlainFrame;
  }

  // The tests at the head of the read loop.
  method CheckExpected(expectMask0: bv32, tok: Token, ghost mode: Mode) returns (ok: bool, expectMask: bv32)
    requires expectMask0 == MaskOf(mode)
    ensures ok <==> Passes(mode, tok)
    ensures ok ==> expectMask == PassedMask(mode)
  {
    expectMask := expectMask0;
    var isValueOpen := TokenIsValue(tok) || tok.ObjOpen? || tok.ArrOpen?;
    if expectMask & EXP_VALUE != 0 {
      if !isValueOpen {
        return false, expectMask;
      }
      expectMask := expectMask & !EXP_VALUE;
    } else if expectMask & EXP_ARR_VALUE != 0 {
      var isArrValue := isValueOpen || tok.ArrClose?;
      if !isArrValue {
        return false, expectMask;
      }
      expectMask := expectMask & !EXP_ARR_VALUE;
    } else if expectMask & EXP_OBJ_NAME != 0 {
      var isObjName := tok.ObjClose? || tok.String?;
      if !isObjName {
        return false, expectMask;
      }
    } else if expectMask & EXP_COLON != 0 {
      if !tok.Colon? {
        return false, expectMask;
      }
      expectMask := expectMask & !EXP_COLON;
    } else if expectMask & EXP_COLON == 0 && tok.Colon? {
      return false, expectMask;
    }
    if expectMask & EXP_NOT_VALUE != 0 {
      if isValueOpen {
        return false, expectMask;
      }
      expectMask := expectMask & !EXP_NOT_VALUE;
    }
    return true, expectMask;
  }

  // What last_tok remembers of the machine: a comma just read; no comma or '[' after a finished item.
  predicate LastOk(m: Machine, lastTok: Token) {
    (m.comma <==> lastTok.Comma?)
    && (m.mode == NotValue ==> !lastTok.Comma? && !lastTok.ArrOpen?)
  }

  /** After a passed comma the tests of last_tok in the comma branch cannot fail:
      whenever a comma gets that far with a container open, they hold already. */
  lemma CommaTestsIdle(m: Machine, lastTok: Token)
    requires Inv(m) && LastOk(m, lastTok) && Passes(m.mode, Token.Comma) && |m.frames| > 0
    ensures !lastTok.Comma? && !lastTok.ArrOpen?
    ensures Step(m, Token.Comma).Continue?
  {
  }

  lemma StepLast(m: Machine, tok: Token)
    requires Inv(m)
    ensures m.mode == Start || |m.frames| > 0
    ensures Step(m, tok).Continue? ==> LastOk(Step(m, tok).m, tok)
  {
    hide PlainFrame;
  }

  // Before the switch: the expectation tests passed and the fields hold the machine's tree.
  predicate Ready(m: Machine, tok: Token, lastTok: Token, expectMask: bv32, depth: nat, tree: Value) {
    Inv(m) && LastOk(m, lastTok) && Passes(m.mode, tok) && !IsEnd(tok)
    && expectMask == PassedMask(m.mode) && depth == |m.frames| && tree == Tree(m)
  }

  // After the switch: the mask, the stack and the tree follow the token machine's step.
  predicate Applied(m: Machine, tok: Token, ok: bool, expectMask: bv32, depth: nat, tree: Value, before: Value)
    requires m.mode == Start || |m.frames| > 0
  {
    match Step(m, tok)
    case Reject => !ok && tree == before
    case Continue(n) => ok && expectMask == MaskOf(n.mode) && depth == |n.frames| > 0 && tree == Tree(n)
    case Done(v) => ok && depth == 0 && tree == v
  }

  lemma NotEnd(m: Machine, tok: Token, lastTok: Token, expectMask: bv32, depth: nat, tree: Value)
    requires Ready(m, tok, lastTok, expectMask, depth, tree)
    ensures !IsEnd(tok)
  {
  }

  lemma TreeOfFrames(m: Machine)
    requires |m.frames| > 0
    ensures Tree(m) == Assemble(m.frames)
  {
  }

  class UniValue {
    var typ: VType
    var val: bytes
    var keys: seq<bytes>
    var values: seq<Value>

    function Get(): Value
      reads this
    {
      Value(typ, val, keys, values)
    }

    constructor (initialType: VType, initialStr: bytes)
      ensures Get() == Leaf(initialType, initialStr)
    {
      typ, val, keys, values := initialType, initialStr, [], [];
    }

    // operator=
    method Assign(v: Value)
      modifies this
      ensures Get() == v
    {
      typ, val, keys, values := v.typ, v.val, v.keys, v.values;
    }

    method Clear()
      modifies this
      ensures Get() == NullValue
    {
      typ := VNULL;
      val := [];
      keys := [];
      values := [];
    }

    method SetBool(b: bool) returns (ok: bool)
      modifies this
      ensures ok && Get() == Value(VBOOL, if b then [0x31] else [], [], [])
    {
      Clear();
      typ := VBOOL;
      if b {
        val := [0x31];
      }
      return true;
    }

    method SetStr(s: bytes) returns (ok: bool)
      modifies this
      ensures ok && Get() == Leaf(VSTR, s)
    {
      Clear();
      typ := VSTR;
      val := s;
      return true;
    }

    method SetArray() returns (ok: bool)
      modifies this
      ensures ok && Get() == Leaf(VARR, [])
    {
      Clear();
      typ := VARR;
      return true;
    }

    method SetObject() returns (ok: bool)
      modifies this
      ensures ok && Get() == Leaf(VOBJ, [])
    {
      Clear();
      typ := VOBJ;
      return true;
    }

    method SetNumStr(s: bytes) returns (ok: bool)
      modifies this
      ensures ok <==> FirstIsNumber(s)
      ensures Get() == if ok then Leaf(VNUM, s) else old(Get())
    {
      var tok, consumed := GetJsonToken(s + [NUL], 0, |s|);
      assert (s + [NUL])[0..|s|] == s;
      if !tok.Number? {
        return false;
      }
      Clear();
      typ := VNUM;
      val := s;
      return true;
    }

    // setInt of int64_t and of uint64_t print the same way.
    method SetInt(n: int) returns (ok: bool)
      requires INT64_MIN <= n <= UINT64_MAX
      modifies this
      ensures ok && Get() == Leaf(VNUM, PrintInt(n))
    {
      PrintIsNumber(n);
      NumStrAccepts(PrintInt(n));
      ok := SetNumStr(PrintInt(n));
    }

    method PushBack(v: Value) returns (ok: bool)
      modifies this
      ensures ok <==> old(typ) == VARR
      ensures Get() == if ok then old(Get()).(values := old(values) + [v]) else old(Get())
    {
      if typ != VARR {
        return false;
      }
      values := values + [v];
      return true;
    }

    method FindKeyIndex(key: bytes) returns (found: bool, retIdx: nat)
      ensures FindKey(keys, key) == if found then Some(retIdx) else None
    {
      var i := 0;
      while i < |keys|
        invariant 0 <= i <= |keys| && key !in keys[..i]
      {
        if keys[i] == key {
          FindKeyUnique(keys, key, i);
          return true, i;
        }
        assert keys[..i + 1] == keys[..i] + [keys[i]];
        i := i + 1;
      }
      assert keys[..i] == keys;
      return false, 0;
    }

    // Unchecked: keys and values in step, whatever the type.
    method PushKVUnchecked(key: bytes, v: Value)
      modifies this
      ensures keys == old(keys) + [key] && values == old(values) + [v]
      ensures typ == old(typ) && val == old(val)
    {
      keys := keys + [key];
      values := values + [v];
    }

    method PushKV(key: bytes, v: Value) returns (ok: bool)
      requires typ == VOBJ ==> !Lacking(Get(), key)
      modifies this
      ensures ok <==> old(typ) == VOBJ
      ensures Get() == if ok then Objects.PushKV(old(Get()), key, v) else old(Get())
    {
      if typ != VOBJ {
        return false;
      }
      var found, idx := FindKeyIndex(key);
      if found {
        values := values[idx := v];
      } else {
        PushKVUnchecked(key, v);
      }
      return true;
    }

    // Copies pair by pair; at(i) throws where obj has a key without a value.
    method PushKVs(obj: UniValue) returns (r: Fetched<bool>)
      requires obj != this
      modifies this
      ensures old(typ) != VOBJ || obj.typ != VOBJ ==> r == Got(false) && Get() == old(Get())
      ensures old(typ) == VOBJ && obj.typ == VOBJ ==>
                var n := if |obj.keys| <= |obj.values| then |obj.keys| else |obj.values|;
                && r == (if n == |obj.keys| then Got(true) else Thrown(VECTOR_AT))
                && Get() == Objects.PushKVs(old(Get()), Value(VOBJ, [], obj.keys[..n], obj.values[..n]))
    {
      if typ != VOBJ || obj.typ != VOBJ {
        return Got(false);
      }
      assert keys + obj.keys[..0] == keys && values + obj.values[..0] == values;
      var i := 0;
      while i < |obj.keys|
        invariant 0 <= i <= |obj.keys| && i <= |obj.values|
        invariant typ == VOBJ && val == old(val)
        invariant keys == old(keys) + obj.keys[..i] && values == old(values) + obj.values[..i]
      {
        if i >= |obj.values| {
          return Thrown(VECTOR_AT);
        }
        PushKVUnchecked(obj.keys[i], obj.values[i]);
        assert obj.keys[..i + 1] == obj.keys[..i] + [obj.keys[i]];
        assert obj.values[..i + 1] == obj.values[..i] + [obj.values[i]];
        i := i + 1;
      }
      return Got(true);
    }

    // Overwrites kv only for an object.
    method GetObjMap(kv0: map<bytes, Value>) returns (kv: map<bytes, Value>)
      requires typ == VOBJ ==> |keys| <= |values|
      ensures kv == if typ == VOBJ then ObjMap(keys, values) else kv0
    {
      if typ != VOBJ {
        return kv0;
      }
      kv := map[];
      var i := 0;
      while i < |keys|
        invariant 0 <= i <= |keys|
        invariant kv == ObjMap(keys[..i], values)
      {
        kv := kv[keys[i] := values[i]];
        assert keys[..i + 1][..i] == keys[..i];
        i := i + 1;
      }
      assert keys[..i] == keys;
    }

    // checkObject: every member type asked for is there. t holds the entries of the std::map in its order.
    method CheckObject(t: seq<(bytes, VType)>) returns (r: Fetched<bool>)
      ensures typ != VOBJ ==> r == Got(false)
      ensures typ == VOBJ ==> (r == Got(true) <==> forall i :: 0 <= i < |t| ==> HasMember(Get(), t[i]))
      ensures typ == VOBJ && r != Got(true) ==>
                exists i :: 0 <= i < |t| && FirstUnmet(Get(), t, i) && r == Refusal(Get(), t[i].0)
    {
      if typ != VOBJ {
        return Got(false);
      }
      var i := 0;
      while i < |t|
        invariant 0 <= i <= |t|
        invariant forall j :: 0 <= j < i ==> HasMember(Get(), t[j])
      {
        var found, idx := FindKeyIndex(t[i].0);
        if !found {
          assert FirstUnmet(Get(), t, i);
          return Got(false);
        }
        if idx >= |values| {
          assert FirstUnmet(Get(), t, i);
          return Thrown(VECTOR_AT);
        }
        if values[idx].typ != t[i].1 {
          assert FirstUnmet(Get(), t, i);
          return Got(false);
        }
        i := i + 1;
      }
      return Got(true);
    }

    // operator[](key)
    method Index(key: bytes) returns (r: Fetched<Value>)
      ensures r == if typ == VOBJ then Lookup(Get(), key) else Got(NullValue)
    {
      if typ != VOBJ {
        return Got(NullValue);
      }
      var found, index := FindKeyIndex(key);
      if !found {
        return Got(NullValue);
      }
      if index >= |values| {
        return Thrown(VECTOR_AT);
      }
      return Got(values[index]);
    }

    method GetInt64() returns (r: Fetched<int>)
      ensures typ != VNUM ==> r == Thrown("JSON value is not an integer as expected")
      ensures typ == VNUM ==> r == IntegerIn(val, -9_223_372_036_854_775_808, 9_223_372_036_854_775_807)
    {
      if typ != VNUM {
        return Thrown(NOT_INTEGER);
      }
      var ok, n := ParseInt64(val);
      if !ok {
        return Thrown(INTEGER_RANGE);
      }
      return Got(n);
    }

    // get_int, on a platform whose long is longMin..longMax.
    method GetInt(longMin: int, longMax: int) returns (r: Fetched<int>)
      requires longMin <= INT32_MIN && INT32_MAX <= longMax
      ensures typ != VNUM ==> r == Thrown("JSON value is not an integer as expected")
      ensures typ == VNUM ==> r == IntegerIn(val, -2_147_483_648, 2_147_483_647)
    {
      if typ != VNUM {
        return Thrown(NOT_INTEGER);
      }
      var ok, n := ParseInt32(val, longMin, longMax);
      if !ok {
        return Thrown(INTEGER_RANGE);
      }
      return Got(n);
    }

    // write; None for the std::out_of_range of an object with too few values.
    method WriteText(prettyIndent: nat, indentLevel: nat) returns (r: Option<bytes>)
      ensures r == if Writable(Get()) then Some(Text(Get(), prettyIndent, indentLevel)) else None
    {
      r := Write(Get(), prettyIndent, indentLevel);
    }

    // stack.back()->values.push_back(v), the stack being depth pointers deep.
    method PushToTop(depth: nat, v: Value, ghost frames: seq<Value>)
      requires |frames| == depth > 0 && Get() == Assemble(frames)
      modifies this
      ensures Get() == Assemble(Under(frames) + [AddValue(Top(frames), v)])
    {
      AssembleChain(frames);
      AssembleReplace(frames, AddValue(Top(frames), v));
      var top := NodeAt(Get(), depth);
      Assign(ReplaceAt(Get(), depth, top.(values := top.values + [v])));
    }

    method PushKeyToTop(depth: nat, key: bytes, ghost frames: seq<Value>)
      requires |frames| == depth > 0 && Get() == Assemble(frames)
      modifies this
      ensures Get() == Assemble(Under(frames) + [AddKey(Top(frames), key)])
    {
      AssembleChain(frames);
      AssembleReplace(frames, AddKey(Top(frames), key));
      var top := NodeAt(Get(), depth);
      Assign(ReplaceAt(Get(), depth, top.(keys := top.keys + [key])));
    }

    // A finished scalar: *this = v without a stack, else into the top container.
    method Place(depth: nat, v: Value, ghost m: Machine)
      requires Inv(m) && |m.frames| == depth && Get() == Tree(m)
      modifies this
      ensures Get() == if depth == 0 then v else Tree(Deliver(m.frames, v).m)
    {
      if depth == 0 {
        Assign(v);
      } else {
        PushToTop(depth, v, m.frames);
      }
    }

    // The opening tokens: a new container, pushed on the stack.
    method Open(depth: nat, utyp: VType, ghost m: Machine) returns (depth': nat)
      requires Inv(m) && |m.frames| == depth && Get() == Tree(m)
      requires utyp == VOBJ || utyp == VARR
      modifies this
      ensures depth' == depth + 1 && Get() == Assemble(m.frames + [Leaf(utyp, [])])
    {
      if depth == 0 {
        if utyp == VOBJ {
          var _ := SetObject();
        } else {
          var _ := SetArray();
        }
        assert m.frames + [Leaf(utyp, [])] == [Leaf(utyp, [])];
      } else {
        AssembleNested(m.frames, Leaf(utyp, []));
        PushToTop(depth, Leaf(utyp, []), m.frames);
      }
      depth' := depth + 1;
    }

    // The cases of the switch: JTOK_OBJ_OPEN, JTOK_ARR_OPEN, JTOK_OBJ_CLOSE, JTOK_ARR_CLOSE.
    method ApplyBracket(tok: Token, lastTok: Token, expectMask0: bv32, depth0: nat, ghost m: Machine)
      returns (ok: bool, expectMask: bv32, depth: nat)
      requires Ready(m, tok, lastTok, expectMask0, depth0, Get())
      requires tok.ObjOpen? || tok.ArrOpen? || tok.ObjClose? || tok.ArrClose?
      modifies this
      ensures Applied(m, tok, ok, expectMask, depth, Get(), old(Get()))
    {
      hide Frame, Tree, Assemble;
      expectMask, depth := expectMask0, depth0;
      if tok.ObjOpen? || tok.ArrOpen? {
        var utyp := if tok.ObjOpen? then VOBJ else VARR;
        depth := Open(depth, utyp, m);
        if utyp == VOBJ {
          expectMask := expectMask | EXP_OBJ_NAME;
        } else {
          expectMask := expectMask | EXP_ARR_VALUE;
        }
        TreeOfFrames(Machine(m.frames + [Leaf(utyp, [])], if utyp == VOBJ then ObjName else ArrValue, false));
      } else {
        if depth == 0 || lastTok.Comma? {
          return false, expectMask, depth;
        }
        var utyp := if tok.ObjClose? then VOBJ else VARR;
        TreeOfFrames(m);
        AssembleChain(m.frames);
        if utyp != NodeAt(Get(), depth).typ {
          return false, expectMask, depth;
        }
        CloseTree(m.frames);
        depth := depth - 1;
        expectMask := expectMask & !EXP_OBJ_NAME;
        expectMask := expectMask | EXP_NOT_VALUE;
      }
      return true, expectMask, depth;
    }

    // JTOK_COLON and JTOK_COMMA.
    method ApplySeparator(tok: Token, lastTok: Token, expectMask0: bv32, depth: nat, ghost m: Machine)
      returns (ok: bool, expectMask: bv32)
      requires Ready(m, tok, lastTok, expectMask0, depth, Get())
      requires tok.Colon? || tok.Comma?
      ensures Applied(m, tok, ok, expectMask, depth, Get(), Get())
    {
      hide PlainFrame, Tree, Assemble;
      expectMask := expectMask0;
      if depth == 0 {
        return false, expectMask;
      }
      TreeOfFrames(m);
      AssembleChain(m.frames);
      if tok.Colon? {
        if NodeAt(Get(), depth).typ != VOBJ {
          return false, expectMask;
        }
        expectMask := expectMask | EXP_VALUE;
        TreeOfFrames(m.(mode := ValueNext, comma := false));
      } else {
        if lastTok.Comma? || lastTok.ArrOpen? {
          return false, expectMask;
        }
        if NodeAt(Get(), depth).typ == VOBJ {
          expectMask := expectMask | EXP_OBJ_NAME;
        } else {
          expectMask := expectMask | EXP_ARR_VALUE;
        }
        TreeOfFrames(Machine(m.frames, if Top(m.frames).typ == VOBJ then ObjName else ArrValue, true));
      }
      return true, expectMask;
    }

    // JTOK_KW_NULL, JTOK_KW_TRUE, JTOK_KW_FALSE, JTOK_NUMBER and JTOK_STRING.
    method ApplyScalar(tok: Token, lastTok: Token, expectMask0: bv32, depth: nat, ghost m: Machine)
      returns (expectMask: bv32)
      requires Ready(m, tok, lastTok, expectMask0, depth, Get())
      requires TokenIsValue(tok)
      modifies this
      ensures Applied(m, tok, true, expectMask, depth, Get(), old(Get()))
    {
      hide Frame, Assemble;
      expectMask := expectMask0;
      if tok.KwNull? || tok.KwTrue? || tok.KwFalse? {
        var tmp := new UniValue(VNULL, []);
        if tok.KwTrue? {
          var _ := tmp.SetBool(true);
        } else if tok.KwFalse? {
          var _ := tmp.SetBool(false);
        }
        Place(depth, tmp.Get(), m);
        if depth == 0 {
          return;
        }
      } else if tok.Number? {
        Place(depth, Leaf(VNUM, tok.text), m);
        if depth == 0 {
          return;
        }
      } else if expectMask & EXP_OBJ_NAME != 0 {
        PushKeyToTop(depth, tok.text, m.frames);
        expectMask := expectMask & !EXP_OBJ_NAME;
        expectMask := expectMask | EXP_COLON;
      } else {
        Place(depth, Leaf(VSTR, tok.text), m);
        if depth == 0 {
          return;
        }
      }
      expectMask := expectMask | EXP_NOT_VALUE;
    }

    // The switch of the read loop, after the expectation tests.
    method ApplyToken(tok: Token, lastTok: Token, expectMask0: bv32, depth0: nat, ghost m: Machine)
      returns (ok: bool, expectMask: bv32, depth: nat)
      requires Ready(m, tok, lastTok, expectMask0, depth0, Get())
      modifies this
      ensures Applied(m, tok, ok, expectMask, depth, Get(), old(Get()))
    {
      hide Ready, Applied;
      if tok.ObjOpen? || tok.ArrOpen? || tok.ObjClose? || tok.ArrClose? {
        ok, expectMask, depth := ApplyBracket(tok, lastTok, expectMask0, depth0, m);
      } else if tok.Colon? || tok.Comma? {
        depth := depth0;
        ok, expectMask := ApplySeparator(tok, lastTok, expectMask0, depth0, m);
      } else {
        NotEnd(m, tok, lastTok, expectMask0, depth0, Get());
        ok, depth := true, depth0;
        expectMask := ApplyScalar(tok, lastTok, expectMask0, depth0, m);
      }
    }

    /** read(raw, size). The tree is built in place; a failed read leaves what was
        built before the failure. */
    method ReadText(raw: bytes) returns (ok: bool)
      modifies this
      ensures ReadResult(ok, Get()) == Read(raw)
    {
      hide LexToken, Inv, Step, Tree, Passes, MaskOf, PassedMask, LastOk;
      Clear();
      var buf, end, pos := raw + [NUL], |raw|, 0;
      var expectMask: bv32, depth: nat := 0, 0;
      var tok, lastTok := TokNone, TokNone;
      ghost var m := INITIAL;
      var consumed: nat;
      StartOk(m);
      assert buf[0..end] == raw;
      var first := true;
      while first || depth != 0
        invariant 0 <= pos <= end
        invariant first ==> depth == 0
        invariant first || depth != 0 ==>
                    && Inv(m) && LastOk(m, tok) && expectMask == MaskOf(m.mode) && depth == |m.frames|
                    && Get() == Tree(m)
                    && Read(raw) == ReadFrom(m, buf[pos..end])
        invariant !first && depth == 0 ==>
                    Read(raw) == ReadResult(LexToken(buf[pos..end]).tok.TokNone?, Get())
        decreases end - pos, first
      {
        first := false;
        lastTok := tok;
        tok, consumed := GetJsonToken(buf, pos, end);
        if tok.TokNone? || tok.TokErr? {
          return false;
        }
        LexProgress(buf[pos..end]);
        SubSlice(buf, pos, end, consumed, end - pos);
        pos := pos + consumed;
        StepContinues(m, tok);
        var passed: bool;
        passed, expectMask := CheckExpected(expectMask, tok, m.mode);
        if !passed {
          BlockedIsRejected(m, tok);
          return false;
        }
        var applied: bool;
        applied, expectMask, depth := ApplyToken(tok, lastTok, expectMask, depth, m);
        if !applied {
          return false;
        }
        StepLast(m, tok);
        if Step(m, tok).Continue? {
          m := Step(m, tok).m;
        }
      }
      tok, consumed := GetJsonToken(buf, pos, end);
      if !tok.TokNone? {
        return false;
      }
      return true;
    }
  }

  // First-match lookup: null if the key is absent, an exception if it has no value.
  function Lookup(v: Value, key: bytes): Fetched<Value> {
    if key !in v.keys then Got(NullValue)
    else if Lacking(v, key) then Thrown(VECTOR_AT)
    else Got(v.values[FindKey(v.keys, key).value])
  }

  /** Lookup answers from the first occurrence of the key, on any object. */
  lemma LookupIsFirst(v: Value, key: bytes, i: nat)
    ensures key !in v.keys ==> Lookup(v, key) == Got(NullValue)
    ensures IsFirst(v, key, i) ==>
              Lookup(v, key) == if i < |v.values| then Got(v.values[i]) else Thrown(VECTOR_AT)
  {
    hide FindKey;
    if IsFirst(v, key, i) {
      FirstIsFound(v, key, i);
    }
  }

  // The first member under a key has a type.
  predicate HasMember(v: Value, e: (bytes, VType)) {
    e.0 in v.keys && !Lacking(v, e.0) && v.values[FindKey(v.keys, e.0).value].typ == e.1
  }

  // How an entry that is not satisfied ends checkObject.
  function Refusal(v: Value, key: bytes): Fetched<bool> {
    if Lacking(v, key) then Thrown(VECTOR_AT) else Got(false)
  }

  // Entry i is the first one that v does not satisfy.
  predicate FirstUnmet(v: Value, t: seq<(bytes, VType)>, i: nat)
    requires i < |t|
  {
    !HasMember(v, t[i]) && forall j :: 0 <= j < i ==> HasMember(v, t[j])
  }

  // The value a stored number denotes, if it is an integer in range.
  function IntegerIn(text: bytes, lo: int, hi: int): Fetched<int> {
    var n := Denotes(text);
    if n.Some? && lo <= n.value <= hi then Got(n.value) else Thrown(INTEGER_RANGE)
  }

  lemma IntegerInMeaning(text: bytes, lo: int, hi: int, n: int)
    ensures IntegerIn(text, lo, hi) == Got(n) <==> Denotes(text) == Some(n) && lo <= n <= hi
    ensures IntegerIn(text, lo, hi).Thrown? ==> IntegerIn(text, lo, hi).what == "JSON integer out of range"
  {
  }

  // find_value: like operator[], but without looking at the type.
  method FindValue(obj: UniValue, name: bytes) returns (r: Fetched<Value>)
    ensures r == Lookup(obj.Get(), name)
  {
    var i := 0;
    while i < |obj.keys|
      invariant 0 <= i <= |obj.keys| && name !in obj.keys[..i]
    {
      if obj.keys[i] == name {
        FindKeyUnique(obj.keys, name, i);
        if i >= |obj.values| {
          return Thrown(VECTOR_AT);
        }
        return Got(obj.values[i]);
      }
      assert obj.keys[..i + 1] == obj.keys[..i] + [obj.keys[i]];
      i := i + 1;
    }
    assert obj.keys[..i] == obj.keys;
    return Got(NullValue);
  }

  lemma StartOk(m: Machine)
    requires m == INITIAL
    ensures Inv(m) && LastOk(m, TokNone) && MaskOf(m.mode) == 0 && Tree(m) == NullValue
  {
  }

  // Popping the stack leaves the tree as it is: the closed container is already in place.
  lemma CloseTree(frames: seq<Value>)
    requires |frames| > 0
    ensures match Deliver(Under(frames), Top(frames))
      case Reject => false
      case Continue(n) => Tree(n) == Assemble(frames) && |n.frames| == |frames| - 1 > 0 && n.mode == NotValue
      case Done(v) => |frames| == 1 && v == Assemble(frames)
  {
    if |frames| == 1 {
      CloseOutermost(frames);
    } else {
      hide Assemble, Deliver, Tree, Under, Top;
      UnderTop(frames);
      CloseNested(Under(frames), Top(frames));
    }
  }

  lemma CloseOutermost(frames: seq<Value>)
    requires |frames| == 1
    ensures Deliver(Under(frames), Top(frames)) == Done(Assemble(frames))
  {
  }

  lemma CloseNested(outer: seq<Value>, inner: Value)
    requires |outer| > 0
    ensures var o := Deliver(outer, inner);
      o.Continue? && Tree(o.m) == Assemble(outer + [inner]) && |o.m.frames| == |outer| && o.m.mode == NotValue
  {
    hide Assemble, AddValue, Under, Top;
    AssembleNested(outer, inner);
    TreeOfFrames(Deliver(outer, inner).m);
    UnderTop(outer);
  }

  lemma UnderTop(frames: seq<Value>)
    requires |frames| > 0
    ensures |Under(frames)| == |frames| - 1
    ensures frames == Under(frames) + [Top(frames)]
  {
  }
}
