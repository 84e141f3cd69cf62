/** The pushdown machine behind read, on tokens, and the proof that it accepts
    exactly the token lists of the grammar and builds their parse trees. */
module Machine {
  import opened Bytes
  import opened Values

  /** What the machine expects next. Start is before the first token; the other
      five are the non-empty contents the expect mask ever has between tokens. */
  datatype Mode = Start | ObjName | ArrValue | ColonNext | ValueNext | NotValue

  /** frames: the containers still open, outermost first, each without the open
      one inside it. comma: was the last token a comma? */
  datatype Machine = Machine(frames: seq<Value>, mode: Mode, comma: bool)

  const INITIAL := Machine([], Start, false)

  datatype Outcome = Reject | Continue(m: Machine) | Done(v: Value)

  function AddValue(f: Value, v: Value): Value {
    f.(values := f.values + [v])
  }

  function AddKey(f: Value, k: bytes): Value {
    f.(keys := f.keys + [k])
  }

  function Top(frames: seq<Value>): Value
    requires |frames| > 0
  {
    frames[|frames| - 1]
  }

  function Under(frames: seq<Value>): seq<Value>
    requires |frames| > 0
  {
    frames[..|frames| - 1]
  }

  // A finished value goes into the innermost open container, or is the result.
  function Deliver(frames: seq<Value>, v: Value): Outcome {
    if |frames| == 0 then Done(v)
    else Continue(Machine(Under(frames) + [AddValue(Top(frames), v)], NotValue, false))
  }

  function Scalar(tok: Token): Option<Value> {
    match tok
    case KwNull => Some(NullValue)
    case KwTrue => Some(TRUE_VALUE)
    case KwFalse => Some(FALSE_VALUE)
    case Number(text) => Some(Leaf(VNUM, text))
    case String(text) => Some(Leaf(VSTR, text))
    case _ => None
  }

  function StartValue(frames: seq<Value>, tok: Token): Outcome {
    if tok.ObjOpen? then Continue(Machine(frames + [Leaf(VOBJ, [])], ObjName, false))
    else if tok.ArrOpen? then Continue(Machine(frames + [Leaf(VARR, [])], ArrValue, false))
    else if Scalar(tok).Some? then Deliver(frames, Scalar(tok).value)
    else Reject
  }

  function Close(frames: seq<Value>, typ: VType): Outcome
    requires |frames| > 0
  {
    if Top(frames).typ != typ then Reject else Deliver(Under(frames), Top(frames))
  }

  // One token.
  function Step(m: Machine, tok: Token): Outcome
    requires m.mode == Start || |m.frames| > 0
  {
    match m.mode
    case Start => StartValue(m.frames, tok)
    case ValueNext => StartValue(m.frames, tok)
    case ArrValue =>
      if tok.ArrClose? then (if m.comma then Reject else Close(m.frames, VARR))
      else StartValue(m.frames, tok)
    case ObjName =>
      if tok.ObjClose? then (if m.comma then Reject else Close(m.frames, VOBJ))
      else if tok.String? then
        Continue(Machine(Under(m.frames) + [AddKey(Top(m.frames), tok.text)], ColonNext, false))
      else Reject
    case ColonNext =>
      if tok.Colon? then Continue(m.(mode := ValueNext, comma := false)) else Reject
    case NotValue =>
      if tok.ObjClose? then Close(m.frames, VOBJ)
      else if tok.ArrClose? then Close(m.frames, VARR)
      else if tok.Comma? then
        Continue(Machine(m.frames, if Top(m.frames).typ == VOBJ then ObjName else ArrValue, true))
      else Reject
  }

  // ---- Invariant ----

  predicate PlainFrame(f: Value) {
    (f.typ == VARR || f.typ == VOBJ) && f.val == [] && (f.typ == VARR ==> f.keys == []) && AllShape(f.values)
  }

  // An object's keys are one ahead of its values exactly while a key waits for its value.
  predicate Frame(f: Value, keyWaiting: bool) {
    PlainFrame(f) && (f.typ == VOBJ ==> |f.keys| == |f.values| + (if keyWaiting then 1 else 0))
  }

  // Below the top, the key of the open container inside is still waiting.
  predicate Below(frames: seq<Value>) {
    forall i :: 0 <= i < |frames| ==> Frame(frames[i], true)
  }

  predicate Inv(m: Machine) {
    if |m.frames| == 0 then m == INITIAL
    else
      var top := Top(m.frames);
      && m.mode != Start
      && Below(Under(m.frames))
      && Frame(top, m.mode == ColonNext || m.mode == ValueNext)
      && (m.mode == ObjName || m.mode == ColonNext || m.mode == ValueNext ==> top.typ == VOBJ)
      && (m.mode == ArrValue ==> top.typ == VARR)
      && (m.comma ==> m.mode == ObjName || m.mode == ArrValue)
      && (m.mode == ObjName || m.mode == ArrValue ==> (m.comma <==> |top.values| > 0))
      && (m.mode == NotValue ==> |top.values| > 0)
  }

  // ---- What has been read so far ----

  // Everything of an open container that precedes its next value.
  function BeforeValue(f: Value): seq<Token>
    requires Frame(f, true)
  {
    if f.typ == VARR then [ArrOpen] + Separated(Elements(f.values))
    else
      var n := |f.values|;
      [ObjOpen] + Separated(Members(f.keys[..n], f.values)) + [String(f.keys[n]), Token.Colon]
  }

  // A container with no key waiting, but for its closing token.
  function Contents(f: Value): seq<Token>
    requires Frame(f, false)
  {
    if f.typ == VARR then [ArrOpen] + Elements(f.values) else [ObjOpen] + Members(f.keys, f.values)
  }

  function BelowYield(frames: seq<Value>): seq<Token>
    requires Below(frames)
  {
    if |frames| == 0 then []
    else BelowYield(Under(frames)) + BeforeValue(Top(frames))
  }

  function TopYield(m: Machine): seq<Token>
    requires Inv(m) && |m.frames| > 0
  {
    var top := Top(m.frames);
    if m.mode == ColonNext then
      var n := |top.values|;
      [ObjOpen] + Separated(Members(top.keys[..n], top.values)) + [String(top.keys[n])]
    else if m.mode == ValueNext then BeforeValue(top)
    else if m.comma then Contents(top) + [Token.Comma]
    else Contents(top)
  }

  // The tokens a machine state has consumed.
  function Yield(m: Machine): seq<Token>
    requires Inv(m)
  {
    if |m.frames| == 0 then [] else BelowYield(Under(m.frames)) + TopYield(m)
  }

  // ---- One step keeps the invariant and extends the yield by its token ----

  predicate StepOk(m: Machine, tok: Token, o: Outcome)
    requires Inv(m)
  {
    match o
    case Reject => true
    case Continue(n) => Inv(n) && Yield(n) == Yield(m) + [tok] && |n.frames| > 0
    case Done(v) => Shape(v) && Flatten(v) == Yield(m) + [tok]
  }

  predicate WantsValue(m: Machine) {
    m.mode == Start || m.mode == ValueNext || m.mode == ArrValue
  }

  // Where a value may come, the yield is all that precedes a value.
  lemma YieldBeforeValue(m: Machine)
    requires Inv(m) && WantsValue(m)
    ensures Below(m.frames) && Yield(m) == BelowYield(m.frames)
  {
    hide PlainFrame, BeforeValue, TopYield;
    if |m.frames| > 0 {
      assert m.frames == Under(m.frames) + [Top(m.frames)];
      TopBeforeValue(m);
    }
  }

  lemma TopBeforeValue(m: Machine)
    requires Inv(m) && WantsValue(m) && |m.frames| > 0
    ensures Frame(Top(m.frames), true) && TopYield(m) == BeforeValue(Top(m.frames))
  {
    hide Shape, Members, Flatten, Below;
    if m.mode == ArrValue {
      ElementsEmpty(Top(m.frames).values);
    }
  }

  lemma AddValueOk(f: Value, v: Value)
    requires Frame(f, true) && Shape(v)
    ensures Frame(AddValue(f, v), false) && BeforeValue(f) + Flatten(v) == Contents(AddValue(f, v))
  {
    hide Shape, Flatten;
    var g := AddValue(f, v);
    assert g.values[..|f.values|] == f.values;
    if f.typ == VARR {
      assert Elements(g.values) == Separated(Elements(f.values)) + Flatten(v);
    } else {
      MembersExtend(f.keys, f.values, v);
    }
  }

  lemma BelowYieldStep(frames: seq<Value>)
    requires Below(frames)
    ensures |frames| == 0 ==> BelowYield(frames) == []
    ensures |frames| > 0 ==>
              Below(Under(frames)) && BelowYield(frames) == BelowYield(Under(frames)) + BeforeValue(Top(frames))
  {
    hide Frame, BeforeValue;
  }

  lemma DeliverOk(frames: seq<Value>, v: Value)
    requires Below(frames) && Shape(v)
    ensures match Deliver(frames, v)
      case Reject => false
      case Continue(n) => Inv(n) && |n.frames| > 0 && Yield(n) == BelowYield(frames) + Flatten(v)
      case Done(w) => frames == [] && w == v && BelowYield(frames) + Flatten(v) == Flatten(v)
  {
    hide PlainFrame, Shape, Flatten, BeforeValue, Contents, BelowYield;
    BelowYieldStep(frames);
    if |frames| > 0 {
      var f := Top(frames);
      AddValueOk(f, v);
      var g := AddValue(f, v);
      var n := Machine(Under(frames) + [g], NotValue, false);
      assert Under(n.frames) == Under(frames) && Top(n.frames) == g;
      assert TopYield(n) == Contents(g);
      assert BelowYield(frames) + Flatten(v) == BelowYield(Under(frames)) + (BeforeValue(f) + Flatten(v));
    }
  }

  lemma MembersExtend(ks: seq<bytes>, vs: seq<Value>, v: Value)
    requires |ks| == |vs| + 1 && AllShape(vs) && Shape(v)
    ensures AllShape(vs + [v])
    ensures Members(ks, vs + [v]) ==
            Separated(Members(ks[..|vs|], vs)) + [String(ks[|vs|]), Token.Colon] + Flatten(v)
  {
    assert (vs + [v])[..|vs|] == vs;
  }

  lemma ScalarFlatten(tok: Token)
    requires Scalar(tok).Some?
    ensures Shape(Scalar(tok).value) && Flatten(Scalar(tok).value) == [tok]
  {
  }

  lemma OpenOk(frames: seq<Value>, typ: VType)
    requires Below(frames) && (typ == VOBJ || typ == VARR)
    ensures var n := Machine(frames + [Leaf(typ, [])], if typ == VOBJ then ObjName else ArrValue, false);
      Inv(n) && Yield(n) == BelowYield(frames) + [if typ == VOBJ then ObjOpen else ArrOpen]
  {
    var n := Machine(frames + [Leaf(typ, [])], if typ == VOBJ then ObjName else ArrValue, false);
    assert Under(n.frames) == frames;
    assert Contents(Leaf(typ, [])) == [if typ == VOBJ then ObjOpen else ArrOpen];
  }

  lemma StartValueOk(m: Machine, tok: Token)
    requires Inv(m) && WantsValue(m)
    ensures StepOk(m, tok, StartValue(m.frames, tok))
  {
    hide Inv, Yield, Deliver;
    YieldBeforeValue(m);
    if tok.ObjOpen? {
      OpenOk(m.frames, VOBJ);
    } else if tok.ArrOpen? {
      OpenOk(m.frames, VARR);
    } else if Scalar(tok).Some? {
      ScalarFlatten(tok);
      DeliverOk(m.frames, Scalar(tok).value);
    }
  }

  // Closing turns the contents of the top container into a finished value.
  lemma CloseOk(m: Machine, typ: VType, tok: Token)
    requires Inv(m) && |m.frames| > 0 && !m.comma && (m.mode == NotValue || m.mode == ObjName || m.mode == ArrValue)
    requires (typ == VOBJ && tok == ObjClose) || (typ == VARR && tok == ArrClose)
    ensures StepOk(m, tok, Close(m.frames, typ))
  {
    hide Deliver, Shape, Flatten, PlainFrame, Contents, BelowYield;
    var top := Top(m.frames);
    if top.typ == typ {
      ClosedFrame(top, tok);
      DeliverOk(Under(m.frames), top);
      assert Yield(m) + [tok] == BelowYield(Under(m.frames)) + Flatten(top);
    }
  }

  lemma ClosedFrame(f: Value, tok: Token)
    requires Frame(f, false) && tok == if f.typ == VOBJ then ObjClose else ArrClose
    ensures Shape(f) && Flatten(f) == Contents(f) + [tok]
  {
  }

  lemma KeyOk(m: Machine, k: bytes)
    requires Inv(m) && m.mode == ObjName
    ensures StepOk(m, String(k), Step(m, String(k)))
  {
    hide Shape, Flatten, Members, Elements, Close, StartValue, BelowYield, Below;
    var top := Top(m.frames);
    var n := Step(m, String(k)).m;
    assert Under(n.frames) == Under(m.frames);
    var g := AddKey(top, k);
    assert g.keys[..|top.values|] == top.keys;
    MembersEmpty(top.keys, top.values);
    assert TopYield(n) == TopYield(m) + [String(k)];
  }

  lemma MembersEmpty(ks: seq<bytes>, vs: seq<Value>)
    requires |ks| == |vs| && AllShape(vs)
    ensures |Members(ks, vs)| == 0 <==> |vs| == 0
  {
    if |vs| > 0 {
      FlattenNonEmpty(vs[|vs| - 1]);
    }
  }

  lemma ElementsEmpty(vs: seq<Value>)
    requires AllShape(vs)
    ensures |Elements(vs)| == 0 <==> |vs| == 0
  {
    if |vs| > 0 {
      FlattenNonEmpty(vs[|vs| - 1]);
    }
  }

  lemma ColonOk(m: Machine)
    requires Inv(m) && m.mode == ColonNext
    ensures StepOk(m, Token.Colon, Step(m, Token.Colon))
  {
    hide Shape, Members, Elements, Close, StartValue, BelowYield, Below;
    var n := Step(m, Token.Colon).m;
    assert TopYield(n) == TopYield(m) + [Token.Colon];
  }

  lemma CommaOk(m: Machine)
    requires Inv(m) && m.mode == NotValue
    ensures StepOk(m, Token.Comma, Step(m, Token.Comma))
  {
    hide Shape, Members, Elements, Close, StartValue, BelowYield, Below;
    var n := Step(m, Token.Comma).m;
    assert TopYield(n) == TopYield(m) + [Token.Comma];
  }

  /** Every accepted step keeps the machine invariant and extends what has been
      read by its token; a result is a value whose token list has been read. */
  lemma StepKeeps(m: Machine, tok: Token)
    requires Inv(m)
    ensures m.mode == Start || |m.frames| > 0
    ensures StepOk(m, tok, Step(m, tok))
  {
    if WantsValue(m) && !(m.mode == ArrValue && tok.ArrClose?) {
      hide StepOk, StartValue;
      StartValueOk(m, tok);
    } else {
      hide StepOk, Close;
      if tok.ObjClose? && (m.mode == NotValue || m.mode == ObjName) && !m.comma {
        CloseOk(m, VOBJ, tok);
      } else if tok.ArrClose? && (m.mode == NotValue || m.mode == ArrValue) && !m.comma {
        CloseOk(m, VARR, tok);
      } else if m.mode == ObjName && tok.String? {
        KeyOk(m, tok.text);
      } else if m.mode == ColonNext && tok.Colon? {
        ColonOk(m);
      } else if m.mode == NotValue && tok.Comma? {
        CommaOk(m);
      } else {
        RejectOk(m, tok);
      }
    }
  }

  lemma RejectOk(m: Machine, tok: Token)
    requires Inv(m)
    ensures StepOk(m, tok, Reject)
  {
  }

  // ---- Whole token lists ----

  function Run(m: Machine, ts: seq<Token>): Option<Value>
    requires Inv(m)
    decreases |ts|
  {
    if |ts| == 0 then None else
    StepKeeps(m, ts[0]);
    match Step(m, ts[0])
    case Reject => None
    case Continue(n) => Run(n, ts[1..])
    case Done(v) => if |ts| == 1 then Some(v) else None
  }

  // Soundness: what the machine returns is a parse tree of what it has read.
  lemma {:induction false} RunSound(m: Machine, ts: seq<Token>)
    requires Inv(m)
    ensures Run(m, ts).Some? ==> Shape(Run(m, ts).value) && Flatten(Run(m, ts).value) == Yield(m) + ts
    decreases |ts|
  {
    hide Step, Inv, Yield, Shape, Flatten;
    if Run(m, ts).Some? {
      StepKeeps(m, ts[0]);
      match Step(m, ts[0])
      case Reject =>
      case Continue(n) =>
        RunSound(n, ts[1..]);
        assert Yield(m) + ts == (Yield(m) + [ts[0]]) + ts[1..];
      case Done(v) =>
        assert ts == [ts[0]];
    }
  }

  // The machine's answer after an outcome, given the tokens that follow.
  function After(o: Outcome, rest: seq<Token>): Option<Value>
    requires o.Continue? ==> Inv(o.m)
  {
    match o
    case Reject => None
    case Continue(n) => Run(n, rest)
    case Done(v) => if |rest| == 0 then Some(v) else None
  }

  lemma RunStep(m: Machine, tok: Token, rest: seq<Token>)
    requires Inv(m)
    ensures m.mode == Start || |m.frames| > 0
    ensures Step(m, tok).Continue? ==> Inv(Step(m, tok).m)
    ensures Run(m, [tok] + rest) == After(Step(m, tok), rest)
  {
    hide Step, Inv;
    StepKeeps(m, tok);
    assert ([tok] + rest)[1..] == rest;
  }

  // Completeness: reading the tokens of a value delivers that value.
  lemma {:induction false} RunValue(m: Machine, v: Value, rest: seq<Token>)
    requires Inv(m) && WantsValue(m) && Shape(v)
    ensures Deliver(m.frames, v).Continue? ==> Inv(Deliver(m.frames, v).m)
    ensures Run(m, Flatten(v) + rest) == After(Deliver(m.frames, v), rest)
    decreases v, 1
  {
    YieldBeforeValue(m);
    DeliverOk(m.frames, v);
    hide Inv, Deliver, StartValue, Close, After, Run;
    match v.typ
    case VARR =>
      RunArray(m, v, rest);
    case VOBJ =>
      RunObject(m, v, rest);
    case _ =>
      FlattenScalar(v);
      RunStep(m, Flatten(v)[0], rest);
      StepScalar(m, Flatten(v)[0]);
  }

  lemma FlattenScalar(v: Value)
    requires Shape(v) && v.typ != VARR && v.typ != VOBJ
    ensures |Flatten(v)| == 1 && Scalar(Flatten(v)[0]) == Some(v)
    ensures Flatten(v) == [Flatten(v)[0]]
  {
  }

  lemma StepScalar(m: Machine, tok: Token)
    requires Inv(m) && WantsValue(m) && Scalar(tok).Some?
    ensures Step(m, tok) == Deliver(m.frames, Scalar(tok).value)
  {
    hide Deliver;
  }

  // The array or object read so far, after its first items.
  function Partial(frames: seq<Value>, f: Value): Machine {
    Machine(frames + [f], NotValue, false)
  }

  // The same, before its next item.
  function NextItem(frames: seq<Value>, f: Value): Machine {
    Machine(frames + [f], if f.typ == VOBJ then ObjName else ArrValue, |f.values| > 0)
  }

  lemma PartialOk(frames: seq<Value>, f: Value)
    requires Below(frames) && Frame(f, false)
    ensures |f.values| > 0 ==> Inv(Partial(frames, f))
    ensures Inv(NextItem(frames, f))
    ensures |f.values| > 0 ==> Step(Partial(frames, f), Token.Comma) == Continue(NextItem(frames, f))
  {
    hide Shape, Close;
    assert Under(frames + [f]) == frames && Top(frames + [f]) == f;
  }

  lemma {:induction false} RunArray(m: Machine, v: Value, rest: seq<Token>)
    requires Inv(m) && WantsValue(m) && Shape(v) && v.typ == VARR
    requires Deliver(m.frames, v).Continue? ==> Inv(Deliver(m.frames, v).m)
    ensures Run(m, Flatten(v) + rest) == After(Deliver(m.frames, v), rest)
    decreases v, 0
  {
    YieldBeforeValue(m);
    OpenOk(m.frames, VARR);
    hide Inv, Deliver, After, Run, Flatten;
    var n := Machine(m.frames + [Leaf(VARR, [])], ArrValue, false);
    var tail := [ArrClose] + rest;
    FlattenThen(v, rest);
    RunStep(m, ArrOpen, Elements(v.values) + tail);
    AfterContinue(n, Elements(v.values) + tail);
    if |v.values| == 0 {
      assert Elements(v.values) + tail == tail;
      RunStep(n, ArrClose, rest);
      assert Under(n.frames) == m.frames;
      assert Top(n.frames) == v;
    } else {
      RunElements(m.frames, v.values, tail);
      var p := Partial(m.frames, v);
      assert ArrayOf(v.values) == v && n == NextItem(m.frames, ArrayOf([]));
      RunStep(p, ArrClose, rest);
      assert Under(p.frames) == m.frames;
    }
  }

  lemma AfterContinue(n: Machine, rest: seq<Token>)
    requires Inv(n)
    ensures After(Continue(n), rest) == Run(n, rest)
  {
  }

  lemma FlattenThen(v: Value, rest: seq<Token>)
    requires Shape(v)
    ensures v.typ == VARR ==>
              Flatten(v) + rest == [ArrOpen] + (Elements(v.values) + ([ArrClose] + rest))
    ensures v.typ == VOBJ ==>
              Flatten(v) + rest == [ObjOpen] + (Members(v.keys, v.values) + ([ObjClose] + rest))
  {
  }

  function ArrayOf(vs: seq<Value>): Value {
    Value(VARR, [], [], vs)
  }

  lemma {:induction false} RunElements(frames: seq<Value>, vs: seq<Value>, rest: seq<Token>)
    requires Below(frames) && AllShape(vs) && |vs| > 0
    ensures Inv(NextItem(frames, ArrayOf([]))) && Inv(Partial(frames, ArrayOf(vs)))
    ensures Run(NextItem(frames, ArrayOf([])), Elements(vs) + rest) == Run(Partial(frames, ArrayOf(vs)), rest)
    decreases vs
  {
    hide Step, Run, Inv, Below, Flatten, Shape;
    var front, last := vs[..|vs| - 1], vs[|vs| - 1];
    var f := ArrayOf(front);
    PartialOk(frames, ArrayOf([]));
    PartialOk(frames, ArrayOf(vs));
    PartialOk(frames, f);
    assert vs == front + [last];
    RunItem(frames, f, last, rest);
    if |front| == 0 {
      assert Elements(vs) + rest == Flatten(last) + rest;
    } else {
      var more := Flatten(last) + rest;
      ElementsEmpty(front);
      assert Elements(vs) + rest == Elements(front) + ([Token.Comma] + more);
      RunElements(frames, front, [Token.Comma] + more);
      RunStep(Partial(frames, f), Token.Comma, more);
      AfterContinue(NextItem(frames, f), more);
    }
  }

  // One element.
  lemma {:induction false} RunItem(frames: seq<Value>, f: Value, last: Value, rest: seq<Token>)
    requires Inv(NextItem(frames, f)) && f.typ == VARR && Shape(last)
    requires Inv(Partial(frames, AddValue(f, last)))
    ensures Run(NextItem(frames, f), Flatten(last) + rest) == Run(Partial(frames, AddValue(f, last)), rest)
    decreases last, 2
  {
    hide Run, Inv, Shape, Flatten;
    var q := NextItem(frames, f);
    RunValue(q, last, rest);
    assert Under(q.frames) == frames && Top(q.frames) == f;
    AfterContinue(Partial(frames, AddValue(f, last)), rest);
  }

  lemma {:induction false} RunObject(m: Machine, v: Value, rest: seq<Token>)
    requires Inv(m) && WantsValue(m) && Shape(v) && v.typ == VOBJ
    requires Deliver(m.frames, v).Continue? ==> Inv(Deliver(m.frames, v).m)
    ensures Run(m, Flatten(v) + rest) == After(Deliver(m.frames, v), rest)
    decreases v, 0
  {
    YieldBeforeValue(m);
    OpenOk(m.frames, VOBJ);
    hide Inv, Deliver, After, Run, Flatten;
    var n := Machine(m.frames + [Leaf(VOBJ, [])], ObjName, false);
    var tail := [ObjClose] + rest;
    var members := Members(v.keys, v.values);
    FlattenThen(v, rest);
    RunStep(m, ObjOpen, members + tail);
    AfterContinue(n, members + tail);
    if |v.values| == 0 {
      assert members + tail == tail;
      RunStep(n, ObjClose, rest);
      assert Under(n.frames) == m.frames;
      assert Top(n.frames) == v;
    } else {
      RunMembers(m.frames, v.keys, v.values, tail);
      var p := Partial(m.frames, v);
      assert ObjectOf(v.keys, v.values) == v && n == NextItem(m.frames, ObjectOf([], []));
      RunStep(p, ObjClose, rest);
      assert Under(p.frames) == m.frames;
    }
  }

  function ObjectOf(ks: seq<bytes>, vs: seq<Value>): Value {
    Value(VOBJ, [], ks, vs)
  }

  lemma {:induction false} RunMembers(frames: seq<Value>, ks: seq<bytes>, vs: seq<Value>, rest: seq<Token>)
    requires Below(frames) && AllShape(vs) && |ks| == |vs| > 0
    ensures Inv(NextItem(frames, ObjectOf([], []))) && Inv(Partial(frames, ObjectOf(ks, vs)))
    ensures Run(NextItem(frames, ObjectOf([], [])), Members(ks, vs) + rest)
            == Run(Partial(frames, ObjectOf(ks, vs)), rest)
    decreases vs
  {
    hide Step, Run, Inv, Below, Flatten, Shape;
    var i := |vs| - 1;
    var front, key, last := vs[..i], ks[i], vs[i];
    var f := ObjectOf(ks[..i], front);
    PartialOk(frames, ObjectOf([], []));
    PartialOk(frames, ObjectOf(ks, vs));
    PartialOk(frames, f);
    assert ks == ks[..i] + [key] && vs == front + [last];
    RunMember(frames, f, NextItem(frames, f), key, last, rest);
    var more := [String(key), Token.Colon] + Flatten(last) + rest;
    if |front| == 0 {
      assert Members(ks, vs) + rest == more;
    } else {
      MembersEmpty(ks[..i], front);
      assert Members(ks, vs) + rest == Members(ks[..i], front) + ([Token.Comma] + more);
      RunMembers(frames, ks[..i], front, [Token.Comma] + more);
      RunStep(Partial(frames, f), Token.Comma, more);
      AfterContinue(NextItem(frames, f), more);
    }
  }

  // One member: key, colon, value.
  lemma {:induction false} RunMember(frames: seq<Value>, f: Value, q: Machine, key: bytes, last: Value,
                                     rest: seq<Token>)
    requires Inv(q) && q.mode == ObjName && q.frames == frames + [f] && Shape(last)
    ensures var p := Partial(frames, AddValue(AddKey(f, key), last));
      Inv(p) && Run(q, [String(key), Token.Colon] + Flatten(last) + rest) == Run(p, rest)
    decreases last, 2
  {
    hide Run, Shape, Flatten;
    var g := AddKey(f, key);
    var c := Machine(frames + [g], ColonNext, false);
    var d := Machine(frames + [g], ValueNext, false);
    var more := Flatten(last) + rest;
    assert Under(q.frames) == frames && Top(q.frames) == f;
    assert Step(q, String(key)) == Continue(c);
    assert Step(c, Token.Colon) == Continue(d);
    assert [String(key), Token.Colon] + Flatten(last) + rest == [String(key)] + ([Token.Colon] + more);
    RunStep(q, String(key), [Token.Colon] + more);
    RunStep(c, Token.Colon, more);
    RunValue(d, last, rest);
    assert Under(d.frames) == frames && Top(d.frames) == g;
    assert Deliver(d.frames, last) == Continue(Partial(frames, AddValue(g, last)));
  }

  /** Parser exactness on tokens: the machine accepts exactly the token lists the
      grammar derives, and returns the parse tree. */
  lemma RunExact(ts: seq<Token>, v: Value)
    ensures Run(INITIAL, ts) == Some(v) <==> Shape(v) && Flatten(v) == ts
  {
    RunSound(INITIAL, ts);
    assert [] + ts == ts;
    if Shape(v) && Flatten(v) == ts {
      RunValue(INITIAL, v, []);
      assert ts + [] == ts;
    }
  }

  // The grammar is unambiguous.
  lemma FlattenInjective(v: Value, w: Value)
    requires Shape(v) && Shape(w) && Flatten(v) == Flatten(w)
    ensures v == w
  {
    RunExact(Flatten(v), v);
    RunExact(Flatten(v), w);
  }
}
