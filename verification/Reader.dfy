/** read on whole inputs: the token machine run over the lexer, and what it accepts. */
module Reader {
  import opened Bytes
  import opened Lexer
  import opened Machine
  import opened Numbers
  import opened TokenLists
  import opened Values

  // ---- The tree under construction and the pointer stack into it ----

  /** The stack of pointers holds the root and then, each time, the last child of
      the entry before, so a depth describes it: a tree with such a chain. */
  predicate Chain(t: Value, depth: nat)
    decreases depth
  {
    depth <= 1 || (|t.values| > 0 && Chain(t.values[|t.values| - 1], depth - 1))
  }

  // stack[depth - 1]
  function NodeAt(t: Value, depth: nat): Value
    requires depth > 0 && Chain(t, depth)
    decreases depth
  {
    if depth == 1 then t else NodeAt(t.values[|t.values| - 1], depth - 1)
  }

  // The tree after writing through stack[depth - 1].
  function ReplaceAt(t: Value, depth: nat, node: Value): Value
    requires depth > 0 && Chain(t, depth)
    decreases depth
  {
    if depth == 1 then node
    else
      var n := |t.values| - 1;
      t.(values := t.values[..n] + [ReplaceAt(t.values[n], depth - 1, node)])
  }

  // The tree whose open containers are these frames: each holds the next one as its last child.
  function Assemble(frames: seq<Value>): Value
    requires |frames| > 0
    decreases |frames|
  {
    if |frames| == 1 then frames[0] else AddValue(frames[0], Assemble(frames[1..]))
  }

  // The tree of a machine state; VNULL before anything is read.
  function Tree(m: Machine): Value {
    if |m.frames| == 0 then NullValue else Assemble(m.frames)
  }

  lemma {:induction false} AssembleChain(frames: seq<Value>)
    requires |frames| > 0
    ensures Chain(Assemble(frames), |frames|)
    ensures NodeAt(Assemble(frames), |frames|) == Top(frames)
    decreases |frames|
  {
    if |frames| > 1 {
      AssembleChain(frames[1..]);
      var t := Assemble(frames);
      assert t.values[|t.values| - 1] == Assemble(frames[1..]);
    }
  }

  lemma {:induction false} AssembleReplace(frames: seq<Value>, node: Value)
    requires |frames| > 0
    ensures Chain(Assemble(frames), |frames|)
    ensures ReplaceAt(Assemble(frames), |frames|, node) == Assemble(Under(frames) + [node])
    decreases |frames|
  {
    AssembleChain(frames);
    if |frames| == 1 {
      assert Under(frames) + [node] == [node];
    } else {
      var t := Assemble(frames);
      AssembleReplace(frames[1..], node);
      assert (Under(frames) + [node])[1..] == Under(frames[1..]) + [node];
      assert t.values[|t.values| - 1] == Assemble(frames[1..]);
      assert t.values[..|t.values| - 1] == frames[0].values;
    }
  }

  // An open container is already in place as the last child of the one around it.
  lemma {:induction false} AssembleNested(frames: seq<Value>, inner: Value)
    requires |frames| > 0
    ensures Assemble(frames + [inner]) == Assemble(Under(frames) + [AddValue(Top(frames), inner)])
    decreases |frames|
  {
    var outer := Under(frames) + [AddValue(Top(frames), inner)];
    if |frames| == 1 {
      assert (frames + [inner])[1..] == [inner];
      assert outer == [AddValue(frames[0], inner)];
    } else {
      AssembleNested(frames[1..], inner);
      assert (frames + [inner])[1..] == frames[1..] + [inner];
      assert outer[1..] == Under(frames[1..]) + [AddValue(Top(frames[1..]), inner)];
    }
  }

  // ---- read ----

  datatype ReadResult = ReadResult(ok: bool, tree: Value)

  // The rest of the read loop from a machine state; on failure the tree built so far stays.
  function ReadFrom(m: Machine, s: bytes): ReadResult
    requires Inv(m)
    decreases |s|
  {
    var r := LexToken(s);
    if IsEnd(r.tok) then ReadResult(false, Tree(m))
    else
      StepKeeps(m, r.tok);
      match Step(m, r.tok)
      case Reject => ReadResult(false, Tree(m))
      case Continue(n) => ReadFrom(n, s[r.consumed..])
      case Done(v) => ReadResult(LexToken(s[r.consumed..]).tok.TokNone?, v)
  }

  function Read(s: bytes): ReadResult {
    ReadFrom(INITIAL, s)
  }

  // Lexing as it goes or lexing first makes no difference to what is accepted.
  lemma {:induction false} ReadFromRuns(m: Machine, s: bytes)
    requires Inv(m)
    ensures ReadFrom(m, s).ok <==> LexAll(s).Some? && Run(m, LexAll(s).value).Some?
    ensures ReadFrom(m, s).ok ==> Some(ReadFrom(m, s).tree) == Run(m, LexAll(s).value)
    decreases |s|
  {
    hide LexToken, Inv, Step, Tree;
    var r := LexToken(s);
    if !IsEnd(r.tok) {
      var rest := s[r.consumed..];
      StepKeeps(m, r.tok);
      if LexAll(rest).Some? {
        assert LexAll(s).value == [r.tok] + LexAll(rest).value;
        RunStep(m, r.tok, LexAll(rest).value);
      }
      match Step(m, r.tok)
      case Reject =>
      case Continue(n) =>
        StepContinues(m, r.tok);
        ReadFromRuns(n, rest);
      case Done(v) =>
        LexAllEnd(rest);
    }
  }

  lemma StepContinues(m: Machine, tok: Token)
    requires Inv(m)
    ensures m.mode == Start || |m.frames| > 0
    ensures Step(m, tok).Continue? ==> Inv(Step(m, tok).m)
  {
    hide Inv, Step;
    StepKeeps(m, tok);
  }

  lemma LexAllEnd(s: bytes)
    ensures LexToken(s).tok.TokNone? <==> LexAll(s) == Some([])
  {
    hide LexToken;
    var r := LexToken(s);
    if !IsEnd(r.tok) {
      var rest := LexAll(s[r.consumed..]);
    }
  }

  /** Parser exactness: read succeeds with v exactly when the input splits into
      the tokens of v, with nothing but whitespace between and around them. */
  lemma ReadExact(s: bytes, v: Value)
    ensures Read(s) == ReadResult(true, v) <==> Shape(v) && LexAll(s) == Some(Flatten(v))
  {
    hide LexAll, Run, ReadFrom, Shape, Flatten;
    ReadFromRuns(INITIAL, s);
    if LexAll(s).Some? {
      RunExact(LexAll(s).value, v);
    }
  }

  lemma ReadAccepts(s: bytes)
    ensures Read(s).ok <==> exists v :: Shape(v) && LexAll(s) == Some(Flatten(v))
  {
    hide LexAll, ReadFrom, Shape, Flatten;
    ReadExact(s, Read(s).tree);
    if v :| Shape(v) && LexAll(s) == Some(Flatten(v)) {
      ReadExact(s, v);
    }
  }

  // ---- What read produces ----

  const LONE_MINUS := Leaf(VNUM, [MINUS])

  // A token list that ends in a number is that number alone.
  lemma FlattenEndsInNumber(v: Value)
    requires Shape(v) && Flatten(v)[|Flatten(v)| - 1] == Number([MINUS])
    ensures v == LONE_MINUS
  {
  }

  // Everything read yields is well-formed, but for the input "-" (up to whitespace before it).
  lemma ReadWellFormed(s: bytes)
    requires Read(s).ok
    ensures WellFormed(Read(s).tree) || Read(s).tree == LONE_MINUS
  {
    hide LexAll, ReadFrom, Shape, WellFormed;
    var v := Read(s).tree;
    ReadExact(s, v);
    LexAllTokens(s);
    var ts := Flatten(v);
    if TokensOk(ts) {
      WellFormedTokens(v);
    } else {
      FlattenEndsInNumber(v);
    }
  }

  lemma LoneMinusIllFormed()
    ensures !WellFormed(LONE_MINUS) && Shape(LONE_MINUS)
  {
    LoneMinus([MINUS], 1);
  }

  // ---- The invariant of the machine, on the tree and the stack themselves ----

  predicate IsLastChild(child: Value, parent: Value) {
    |parent.values| > 0 && child == parent.values[|parent.values| - 1]
  }

  lemma {:induction false} NextNode(t: Value, i: nat)
    requires 0 < i && Chain(t, i) && Chain(t, i + 1)
    ensures IsLastChild(NodeAt(t, i + 1), NodeAt(t, i))
    decreases i
  {
    if i > 1 {
      NextNode(t.values[|t.values| - 1], i - 1);
    }
  }

  /** Between tokens, with the stack not empty: each entry above the first is the
      last child of the one below, every object below the top has a value per key, and the top object
      has one key more exactly while a colon or a member's value is expected. */
  lemma StackInvariant(m: Machine, i: nat)
    requires Inv(m) && 0 < i <= |m.frames|
    ensures Chain(Tree(m), |m.frames|) && Chain(Tree(m), i)
    ensures var node := NodeAt(Tree(m), i);
      && (node.typ == VOBJ || node.typ == VARR)
      && (node.typ == VOBJ ==>
            |node.keys| == |node.values| +
            (if i == |m.frames| && (m.mode == ColonNext || m.mode == ValueNext) then 1 else 0))
    ensures i < |m.frames| ==>
              Chain(Tree(m), i + 1) && IsLastChild(NodeAt(Tree(m), i + 1), NodeAt(Tree(m), i))
  {
    hide Shape, AllShape;
    AssembleChain(m.frames);
    ChainPrefix(Assemble(m.frames), |m.frames|, i);
    if i < |m.frames| {
      ChainPrefix(Assemble(m.frames), |m.frames|, i + 1);
      NextNode(Assemble(m.frames), i);
      AssembleNode(m.frames, i);
      var f := Under(m.frames)[i - 1];
      assert Frame(f, true);
    }
  }

  lemma {:induction false} ChainPrefix(t: Value, depth: nat, i: nat)
    requires 0 < i <= depth && Chain(t, depth)
    ensures Chain(t, i)
    decreases depth
  {
    if i > 1 {
      ChainPrefix(t.values[|t.values| - 1], depth - 1, i - 1);
    }
  }

  lemma {:induction false} AssembleNode(frames: seq<Value>, i: nat)
    requires 0 < i < |frames|
    ensures Chain(Assemble(frames), i)
    ensures NodeAt(Assemble(frames), i) == AddValue(frames[i - 1], Assemble(frames[i..]))
    decreases |frames|
  {
    AssembleChain(frames);
    ChainPrefix(Assemble(frames), |frames|, i);
    if i > 1 {
      AssembleNode(frames[1..], i - 1);
      assert frames[1..][i - 1..] == frames[i..];
      var t := Assemble(frames);
      assert t.values[|t.values| - 1] == Assemble(frames[1..]);
    }
  }
}
