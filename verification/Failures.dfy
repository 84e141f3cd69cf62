/** Where a failing read stops, and the tree it leaves. */
module Failures {
  import opened Bytes
  import opened Lexer
  import opened Machine
  import opened Reader
  import opened TokenLists
  import opened Values

  // The first k bytes of s are these tokens, one after the other.
  predicate LexesTo(s: bytes, ts: seq<Token>, k: nat)
    decreases |ts|
  {
    if |ts| == 0 then k == 0
    else
      var r := LexToken(s);
      && !IsEnd(r.tok) && r.tok == ts[0] && r.consumed <= k
      && LexesTo(s[r.consumed..], ts[1..], k - r.consumed)
  }

  // Some document starts with these tokens.
  ghost predicate Extendable(ts: seq<Token>) {
    exists v :: Shape(v) && ts <= Flatten(v)
  }

  // The tree of the containers open after these tokens, with all that is finished in them.
  ghost predicate IsPartial(tree: Value, ts: seq<Token>) {
    exists m :: Inv(m) && Yield(m) == ts && tree == Tree(m)
  }

  // What was read is a document and more than whitespace follows, or it is a part of one and the next
  // token is missing, broken, or one that no document has there.
  ghost predicate Stops(tree: Value, ts: seq<Token>, rest: bytes) {
    || (Shape(tree) && Flatten(tree) == ts && !AllSpace(rest))
    || (IsPartial(tree, ts) && (IsEnd(LexToken(rest).tok) || !Extendable(ts + [LexToken(rest).tok])))
  }

  // The machine is in state m after these tokens.
  ghost predicate Reaches(ts: seq<Token>, m: Machine) {
    Inv(m) && Yield(m) == ts && forall rest :: Run(INITIAL, ts + rest) == Run(m, rest)
  }

  lemma ReachesStart()
    ensures Reaches([], INITIAL)
  {
    hide Run;
    forall rest
      ensures Run(INITIAL, [] + rest) == Run(INITIAL, rest)
    {
      assert [] + rest == rest;
    }
  }

  lemma RunsNext(ts: seq<Token>, m: Machine, tok: Token, rest: seq<Token>)
    requires Reaches(ts, m)
    ensures Inv(INITIAL)
    ensures m.mode == Start || |m.frames| > 0
    ensures Step(m, tok).Continue? ==> Inv(Step(m, tok).m)
    ensures Run(INITIAL, (ts + [tok]) + rest) == After(Step(m, tok), rest)
  {
    assert Inv(INITIAL);
    hide Run, Step, Inv, Yield;
    Concat3(ts, [tok], rest);
    assert Run(INITIAL, ts + ([tok] + rest)) == Run(m, [tok] + rest);
    RunStep(m, tok, rest);
  }

  lemma RejectedForGood(ts: seq<Token>, m: Machine, tok: Token)
    requires Reaches(ts, m)
    ensures m.mode == Start || |m.frames| > 0
    ensures Step(m, tok) == Reject ==> !Extendable(ts + [tok])
  {
    hide Run, Step, Inv, Yield, Shape, Flatten, Reaches;
    RunsNext(ts, m, tok, []);
    if Step(m, tok) == Reject {
      if v :| Shape(v) && ts + [tok] <= Flatten(v) {
        var rest := Flatten(v)[|ts + [tok]|..];
        assert Flatten(v) == (ts + [tok]) + rest;
        RunsNext(ts, m, tok, rest);
        RunExact(Flatten(v), v);
        assert false;
      }
    }
  }

  lemma ReachesNext(ts: seq<Token>, m: Machine, tok: Token)
    requires Reaches(ts, m)
    ensures m.mode == Start || |m.frames| > 0
    ensures Step(m, tok).Continue? ==> Reaches(ts + [tok], Step(m, tok).m)
    ensures Step(m, tok).Done? ==> Shape(Step(m, tok).v) && Flatten(Step(m, tok).v) == ts + [tok]
  {
    hide Run, Step, Inv, Yield, Shape, Flatten;
    StepKeeps(m, tok);
    if Step(m, tok).Continue? {
      var n := Step(m, tok).m;
      RunsNext(ts, m, tok, []);
      forall rest
        ensures Run(INITIAL, (ts + [tok]) + rest) == Run(n, rest)
      {
        RunsNext(ts, m, tok, rest);
        AfterContinue(n, rest);
      }
    }
  }

  lemma {:induction false} FailedFrom(m: Machine, before: seq<Token>, s: bytes) returns (ts: seq<Token>, k: nat)
    requires Reaches(before, m) && !ReadFrom(m, s).ok
    ensures k <= |s| && LexesTo(s, ts, k) && Stops(ReadFrom(m, s).tree, before + ts, s[k..])
    decreases |s|
  {
    hide LexToken, Run, Step, Tree, Inv, Yield, Extendable, Shape, Flatten, AllSpace;
    var r := LexToken(s);
    ts, k := [], 0;
    assert before + ts == before && s[0..] == s;
    if IsEnd(r.tok) {
      assert Inv(m) && Yield(m) == before;
    } else {
      StepKeeps(m, r.tok);
      ReachesNext(before, m, r.tok);
      RejectedForGood(before, m, r.tok);
      var rest := s[r.consumed..];
      match Step(m, r.tok)
      case Reject =>
        assert Inv(m) && Yield(m) == before;
      case Done(v) =>
        ts, k := [r.tok], r.consumed;
        LexProgress(rest);
        assert ts[1..] == [] && LexesTo(rest, [], 0);
      case Continue(n) =>
        var more, j := FailedFrom(n, before + [r.tok], rest);
        ts, k := [r.tok] + more, r.consumed + j;
        assert ts[1..] == more;
        Concat3(before, [r.tok], more);
        assert s[k..] == rest[j..];
    }
  }

  /** A failed read stops at the first token that cannot be part of any document
      at its place, or at the end of the tokens, or behind a whole document; and
      the tree it leaves holds exactly what was read before that. */
  lemma FailedRead(s: bytes) returns (ts: seq<Token>, k: nat)
    requires !Read(s).ok
    ensures k <= |s| && LexesTo(s, ts, k) && Stops(Read(s).tree, ts, s[k..])
  {
    hide ReadFrom, LexesTo, Stops, Reaches;
    ReachesStart();
    ts, k := FailedFrom(INITIAL, [], s);
    assert [] + ts == ts;
  }
}
