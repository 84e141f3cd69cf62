/** What the filter does over whole runs of calls: a reference description of
    the accepted runs and of their output, and the normal form of every output. */
module FilterRuns {
  import opened Bytes
  import opened Utf8
  import opened Filter

  function Run(f: State, es: seq<Event>): State
    decreases |es|
  {
    if |es| == 0 then f else Run(Push(f, es[0]), es[1..])
  }

  // The string a run of calls yields, if finalize accepts it.
  function Filtered(es: seq<Event>): Option<bytes> {
    var f := Run(INITIAL, es);
    if Accepting(f) then Some(f.out) else None
  }

  function RawEvents(s: bytes): (es: seq<Event>)
    ensures |es| == |s|
  {
    seq(|s|, i requires 0 <= i < |s| => Raw(s[i]))
  }

  lemma {:induction false} RunConcat(f: State, a: seq<Event>, b: seq<Event>)
    ensures Run(f, a + b) == Run(Run(f, a), b)
    decreases |a|
  {
    hide Push;
    if |a| == 0 {
      assert a + b == b;
    } else {
      assert (a + b)[1..] == a[1..] + b;
      RunConcat(Push(f, a[0]), a[1..], b);
    }
  }

  lemma {:induction false} RunKeepsInv(f: State, es: seq<Event>)
    requires Inv(f)
    ensures Inv(Run(f, es))
    ensures !f.valid ==> !Run(f, es).valid
    decreases |es|
  {
    hide Push, Inv;
    if |es| > 0 {
      PushKeepsInv(f, es[0]);
      RunKeepsInv(Push(f, es[0]), es[1..]);
    }
  }

  // ---- Normal form ----

  lemma PushCodeKeepsNormal(f: State, u: nat)
    requires Normal(f.out)
    ensures Normal(PushCode(f, u).out)
  {
    if u > MAX_CODE {
      assert f.out + Encode(u) == f.out;
    } else {
      hide Encode;
      if IsLow(u) && f.high != 0 {
        CollateIsOr(f.high, u);
        NormalAppend(f.out, Collate(f.high, u));
      } else if IsScalar(u) {
        NormalAppend(f.out, u);
      }
    }
  }

  lemma PushKeepsNormal(f: State, e: Event)
    requires Inv(f) && Normal(f.out)
    ensures Normal(Push(f, e).out)
  {
    hide Normal, EncodeAll;
    match e
    case Code(u) => PushCodeKeepsNormal(f, u);
    case Raw(b) =>
      hide PushCode;
      if f.need == 0 && b < 0x80 {
        NormalAppend(f.out, b);
      } else if f.need == 6 {
        PushCodeKeepsNormal(f.(need := 0, code := 0), f.code + b % 64);
        PushCodeKeepsNormal(f.(valid := false, need := 0, code := 0), f.code + b % 64);
      }
  }

  // Whatever the calls, valid or not, the text written so far is in normal form.
  lemma {:induction false} RunKeepsNormal(f: State, es: seq<Event>)
    requires Inv(f) && Normal(f.out)
    ensures Normal(Run(f, es).out)
    decreases |es|
  {
    hide Push, Inv, Normal;
    if |es| > 0 {
      PushKeepsInv(f, es[0]);
      PushKeepsNormal(f, es[0]);
      RunKeepsNormal(Push(f, es[0]), es[1..]);
    }
  }

  // ---- Running over one unit ----

  // Between characters, a whole unit acts as one code point (or one ASCII byte).
  function PushUnit(f: State, u: bytes): State
    requires IsUnit(u)
  {
    if |u| == 1 then f.(out := f.out + u) else PushCode(f, UnitValue(u))
  }

  lemma RunRawStep(f: State, u: bytes)
    requires |u| > 0
    ensures Run(f, RawEvents(u)) == Run(PushRaw(f, u[0]), RawEvents(u[1..]))
  {
    hide PushRaw;
    assert RawEvents(u)[1..] == RawEvents(u[1..]);
  }

  // One, two or three continuation bytes complete the prefix p read so far.
  lemma RunTrail1(f: State, p: nat, t: bytes)
    requires f.need == 6 && f.code == 64 * p && |t| == 1 && IsTrail(t[0])
    ensures Run(f, RawEvents(t)) == PushCode(f.(need := 0, code := 0), Extend(p, t[0]))
  {
    hide PushCode;
    RunRawStep(f, t);
  }

  lemma RunTrail2(f: State, p: nat, t: bytes)
    requires f.need == 12 && f.code == 4096 * p && |t| == 2 && IsTrail(t[0]) && IsTrail(t[1])
    ensures Run(f, RawEvents(t)) == PushCode(f.(need := 0, code := 0), Extend(Extend(p, t[0]), t[1]))
  {
    hide PushCode, Run;
    RunRawStep(f, t);
    RunTrail1(PushRaw(f, t[0]), Extend(p, t[0]), t[1..]);
  }

  lemma RunTrail3(f: State, p: nat, t: bytes)
    requires f.need == 18 && f.code == 262144 * p
    requires |t| == 3 && IsTrail(t[0]) && IsTrail(t[1]) && IsTrail(t[2])
    ensures Run(f, RawEvents(t)) ==
            PushCode(f.(need := 0, code := 0), Extend(Extend(Extend(p, t[0]), t[1]), t[2]))
  {
    hide PushCode, Run;
    RunRawStep(f, t);
    RunTrail2(PushRaw(f, t[0]), Extend(p, t[0]), t[1..]);
  }

  lemma RunUnit(f: State, u: bytes)
    requires f.need == 0 && f.code == 0 && IsUnit(u)
    ensures Run(f, RawEvents(u)) == PushUnit(f, u)
  {
    hide PushCode, Run, Extend;
    RunRawStep(f, u);
    var g, p := PushRaw(f, u[0]), LeadBits(u[0]);
    if |u| == 1 {
      assert u == [u[0]];
      assert RawEvents(u[1..]) == [];
      RunEmpty(g);
    } else if |u| == 2 {
      RunTrail1(g, p, u[1..]);
    } else if |u| == 3 {
      RunTrail2(g, p, u[1..]);
    } else {
      RunTrail3(g, p, u[1..]);
    }
  }

  lemma RunEmpty(f: State)
    ensures Run(f, []) == f
  {
  }

  // A unit cut short: a lead byte with too few continuation bytes so far.
  predicate IsPartial(u: bytes) {
    |u| > 0 && TrailCount(u[0]).Some? && |u| <= TrailCount(u[0]).value
    && forall i :: 0 < i < |u| ==> IsTrail(u[i])
  }

  lemma RunPartial(f: State, u: bytes)
    requires f.need == 0 && IsPartial(u)
    ensures Run(f, RawEvents(u)).need != 0
  {
    hide PushCode;
    RunRawStep(f, u);
    var g := PushRaw(f, u[0]);
    if |u| > 1 {
      RunRawStep(g, u[1..]);
      if |u| > 2 {
        RunRawStep(PushRaw(g, u[1]), u[2..]);
        assert u[1..][1..] == u[2..];
      }
    }
  }

  // ---- Fixed points ----

  lemma {:induction false} RunNormal(f: State, cs: seq<nat>)
    requires f.need == 0 && f.code == 0 && f.high == 0 && AllScalars(cs)
    ensures Run(f, RawEvents(EncodeAll(cs))) == f.(out := f.out + EncodeAll(cs))
  {
    hide Encode, PushRaw;
    if |cs| > 0 {
      var front, c := cs[..|cs| - 1], cs[|cs| - 1];
      var u := Encode(c);
      RunNormal(f, front);
      EncodeIsUnit(c);
      var g := f.(out := f.out + EncodeAll(front));
      RunUnit(g, u);
      RunConcat(f, RawEvents(EncodeAll(front)), RawEvents(u));
      assert RawEvents(EncodeAll(cs)) == RawEvents(EncodeAll(front)) + RawEvents(u);
      assert PushUnit(g, u) == g.(out := g.out + u) by {
        if |u| == 1 {
          SingleUnit(c);
        }
      }
      assert f.out + EncodeAll(cs) == g.out + u;
    } else {
      assert f.out + [] == f.out;
    }
  }

  lemma SingleUnit(c: nat)
    requires c <= MAX_CODE && |Encode(c)| == 1
    ensures Encode(c) == [c]
  {
  }

  // A byte string passes the filter unchanged exactly when it is in normal form.
  lemma FixedPoint(s: bytes)
    ensures Filtered(RawEvents(s)) == Some(s) <==> Normal(s)
  {
    hide Encode;
    NormalEmpty();
    RunKeepsNormal(INITIAL, RawEvents(s));
    if Normal(s) {
      var cs :| AllScalars(cs) && EncodeAll(cs) == s;
      RunNormal(INITIAL, cs);
      assert [] + s == s;
    }
  }

  // Every output, even of a rejected run, survives a second pass unchanged.
  lemma NormalForm(es: seq<Event>)
    ensures Normal(Run(INITIAL, es).out)
    ensures Filtered(RawEvents(Run(INITIAL, es).out)) == Some(Run(INITIAL, es).out)
  {
    NormalEmpty();
    RunKeepsNormal(INITIAL, es);
    FixedPoint(Run(INITIAL, es).out);
  }

  // All of RFC 3629's UTF-8 passes through unchanged.
  lemma Utf8Passes(s: bytes)
    requires Utf8Octets(s)
    ensures Filtered(RawEvents(s)) == Some(s)
  {
    hide Utf8Octets, EncodeAll, AllScalars;
    Utf8IsEncoding(s);
    FixedPoint(s);
  }

  // What passes unchanged is RFC 3629's UTF-8 exactly when its code points do not exceed 10FFFF.
  lemma UnchangedIsUtf8(s: bytes)
    requires Filtered(RawEvents(s)) == Some(s)
    ensures Normal(s)
    ensures forall cs :: AllScalars(cs) && EncodeAll(cs) == s ==> (Utf8Octets(s) <==> AllUnicode(cs))
  {
    hide Utf8Octets, EncodeAll, AllScalars, AllUnicode;
    FixedPoint(s);
    forall cs | AllScalars(cs) && EncodeAll(cs) == s
      ensures Utf8Octets(s) <==> AllUnicode(cs)
    {
      EncodedIsUtf8(cs);
    }
  }

  // ---- Reference description of the accepted runs ----

  // What a run is made of: plain ASCII bytes, and code points.
  datatype Item = Ascii(b: byte) | Point(c: nat)

  function UnitItem(u: bytes): Item
    requires IsUnit(u)
  {
    if |u| == 1 then Ascii(u[0]) else Point(UnitValue(u))
  }

  // The calls es[..n] push one complete unit, byte by byte.
  predicate StartsWithUnit(es: seq<Event>, n: nat) {
    0 < n <= |es| && es[0].Raw? && TrailCount(es[0].b) == Some(n - 1)
    && forall i :: 0 < i < n ==> es[i].Raw? && IsTrail(es[i].b)
  }

  function UnitBytes(es: seq<Event>, n: nat): (u: bytes)
    requires StartsWithUnit(es, n)
    ensures IsUnit(u) && |u| == n && RawEvents(u) == es[..n]
  {
    seq(n, i requires 0 <= i < n => es[i].b)
  }

  // Splits a run into items; None if a unit is broken or a byte cannot start one.
  function Items(es: seq<Event>): Option<seq<Item>>
    decreases |es|
  {
    if |es| == 0 then Some([])
    else if es[0].Code? then Cons(Point(es[0].u), Items(es[1..]))
    else
      var k := TrailCount(es[0].b);
      if k.Some? && StartsWithUnit(es, k.value + 1) then
        Cons(UnitItem(UnitBytes(es, k.value + 1)), Items(es[k.value + 1..]))
      else None
  }

  function Cons<T>(x: T, xs: Option<seq<T>>): Option<seq<T>> {
    if xs.Some? then Some([x] + xs.value) else None
  }

  // The code points among the items; ASCII bytes never reach push_back_u.
  function Points(items: seq<Item>): seq<nat> {
    if |items| == 0 then []
    else (if items[0].Point? then [items[0].c] else []) + Points(items[1..])
  }

  // Every high half is directly followed by a low half, every low half directly preceded by a high one.
  predicate Paired(cs: seq<nat>) {
    && (forall i :: 0 <= i < |cs| && IsHigh(cs[i]) ==> i + 1 < |cs| && IsLow(cs[i + 1]))
    && (forall i :: 0 <= i < |cs| && IsLow(cs[i]) ==> i > 0 && IsHigh(cs[i - 1]))
  }

  // The text for a list of items: pairs collated where their low half stands.
  function Emit(high: High, items: seq<Item>): bytes
    decreases |items|
  {
    if |items| == 0 then []
    else
      match items[0]
      case Ascii(b) => [b] + Emit(high, items[1..])
      case Point(c) =>
        if IsHigh(c) then Emit(c, items[1..])
        else if IsLow(c) && high != 0 then Encode(Collate(high, c)) + Emit(0, items[1..])
        else Encode(c) + Emit(0, items[1..])
  }

  // The code points seen so far, if a high half is still waiting.
  function Waiting(high: High): seq<nat> {
    if high == 0 then [] else [high]
  }

  lemma PairedStep(high: High, c: nat, cs: seq<nat>)
    ensures Paired(Waiting(high) + ([c] + cs)) <==>
            if IsHigh(c) then high == 0 && Paired(Waiting(c) + cs)
            else if IsLow(c) then high != 0 && Paired(Waiting(0) + cs)
            else high == 0 && Paired(Waiting(0) + cs)
  {
    var w := Waiting(high) + ([c] + cs);
    if high == 0 {
      assert w == [c] + cs;
      if IsHigh(c) {
        assert w == Waiting(c) + cs;
      } else {
        assert Waiting(0) + cs == cs;
        PairedTail(w);
        assert w[1..] == cs;
      }
    } else {
      assert IsHigh(w[0]) && w[1] == c;
      if IsLow(c) {
        assert Waiting(0) + cs == cs;
        PairedTail2(w);
        assert w[2..] == cs;
      }
    }
  }

  lemma PairedTail(w: seq<nat>)
    requires |w| > 0 && !IsHigh(w[0])
    ensures Paired(w) <==> !IsLow(w[0]) && Paired(w[1..])
  {
    var t := w[1..];
    assert forall i :: 0 <= i < |t| ==> t[i] == w[i + 1];
    assert forall i :: 0 < i < |w| ==> w[i] == t[i - 1];
  }

  lemma PairedTail2(w: seq<nat>)
    requires |w| > 1 && IsHigh(w[0]) && IsLow(w[1])
    ensures Paired(w) <==> Paired(w[2..])
  {
    var t := w[2..];
    assert forall i :: 0 <= i < |t| ==> t[i] == w[i + 2];
    assert forall i :: 1 < i < |w| ==> w[i] == t[i - 2];
  }

  // The reference verdict and output for a run started between characters.
  predicate Expected(f: State, es: seq<Event>) {
    f.valid && Items(es).Some? && Paired(Waiting(f.high) + Points(Items(es).value))
  }

  predicate Agrees(f: State, es: seq<Event>) {
    var g := Run(f, es);
    (Accepting(g) <==> Expected(f, es))
    && (Accepting(g) ==> g.out == f.out + Emit(f.high, Items(es).value))
  }

  lemma {:induction false} RunRefines(f: State, es: seq<Event>)
    requires Inv(f) && f.need == 0
    ensures Agrees(f, es)
    decreases |es|
  {
    hide Encode, PushRaw, PushCode, IsUnit, UnitValue, Paired;
    if |es| == 0 {
      RefinesEmpty(f);
      assert es == [];
    } else if es[0].Code? {
      PushCodeKeepsInv(f, es[0].u);
      RunRefines(PushCode(f, es[0].u), es[1..]);
      RefinesPoint(f, es[0].u, es[1..], PushCode(f, es[0].u), es);
    } else if TrailCount(es[0].b).Some? && StartsWithUnit(es, TrailCount(es[0].b).value + 1) {
      var n := TrailCount(es[0].b).value + 1;
      var u := UnitBytes(es, n);
      RunUnit(f, u);
      RunConcat(f, es[..n], es[n..]);
      assert es == es[..n] + es[n..];
      RunKeepsInv(f, es[..n]);
      var g := PushUnit(f, u);
      PushUnitIdle(f, u);
      RunRefines(g, es[n..]);
      if n == 1 {
        RefinesAscii(f, u[0], es[n..], g, es);
      } else {
        RefinesPoint(f, UnitValue(u), es[n..], g, es);
      }
    } else {
      RunBroken(f, es);
    }
  }

  lemma PushUnitIdle(f: State, u: bytes)
    requires f.need == 0 && IsUnit(u)
    ensures PushUnit(f, u).need == 0
  {
    hide Encode;
  }

  lemma RefinesEmpty(f: State)
    requires f.need == 0
    ensures Agrees(f, [])
  {
    hide Encode;
    assert Waiting(f.high) + [] == Waiting(f.high);
    assert f.out + [] == f.out;
    if f.high != 0 {
      assert IsHigh(Waiting(f.high)[0]);
    }
  }

  lemma RefinesAscii(f: State, b: byte, rest: seq<Event>, g: State, es: seq<Event>)
    requires f.need == 0 && g == f.(out := f.out + [b])
    requires Agrees(g, rest) && Run(f, es) == Run(g, rest)
    requires Items(es) == Cons(Ascii(b), Items(rest))
    ensures Agrees(f, es)
  {
    hide Encode, Paired, Run, Items;
    if Items(rest).Some? {
      var items := Items(rest).value;
      assert ([Ascii(b)] + items)[1..] == items;
      assert Points([Ascii(b)] + items) == Points(items);
      assert Emit(f.high, [Ascii(b)] + items) == [b] + Emit(f.high, items);
      assert f.out + ([b] + Emit(f.high, items)) == g.out + Emit(f.high, items);
    }
  }

  lemma RefinesPoint(f: State, c: nat, rest: seq<Event>, g: State, es: seq<Event>)
    requires f.need == 0 && g == PushCode(f, c)
    requires Agrees(g, rest) && Run(f, es) == Run(g, rest)
    requires Items(es) == Cons(Point(c), Items(rest))
    ensures Agrees(f, es)
  {
    hide Encode, Collate, Paired, Run, Items;
    if Items(rest).Some? {
      var items := Items(rest).value;
      assert ([Point(c)] + items)[1..] == items;
      assert Points([Point(c)] + items) == [c] + Points(items);
      PairedStep(f.high, c, Points(items));
      assert Emit(f.high, [Point(c)] + items) ==
             if IsHigh(c) then Emit(c, items)
             else if IsLow(c) && f.high != 0 then Encode(Collate(f.high, c)) + Emit(0, items)
             else Encode(c) + Emit(0, items);
      if Expected(f, es) {
        assert f.out + Emit(f.high, [Point(c)] + items) == g.out + Emit(g.high, items);
      }
    }
  }

  // A run that starts with a broken unit, or with a byte that starts none, is rejected.
  lemma RunBroken(f: State, es: seq<Event>)
    requires Inv(f) && f.need == 0 && |es| > 0 && es[0].Raw?
    requires TrailCount(es[0].b).None? || !StartsWithUnit(es, TrailCount(es[0].b).value + 1)
    ensures !Accepting(Run(f, es))
  {
    hide Encode, PushCode;
    if TrailCount(es[0].b).None? {
      PushKeepsInv(f, es[0]);
      RunKeepsInv(Push(f, es[0]), es[1..]);
    } else {
      var k := TrailCount(es[0].b).value;
      var j := 1;
      while j <= k && j < |es| && es[j].Raw? && IsTrail(es[j].b)
        invariant 1 <= j <= k + 1 && j <= |es|
        invariant forall i :: 0 < i < j ==> es[i].Raw? && IsTrail(es[i].b)
      {
        j := j + 1;
      }
      assert j <= k;
      var u := seq(j, i requires 0 <= i < j => es[i].b);
      assert RawEvents(u) == es[..j];
      RunPartial(f, u);
      RunKeepsInv(f, es[..j]);
      RunConcat(f, es[..j], es[j..]);
      assert es == es[..j] + es[j..];
      if j < |es| {
        RunIntoBroken(Run(f, es[..j]), es[j..]);
      }
    }
  }

  lemma RunIntoBroken(g: State, es: seq<Event>)
    requires Inv(g) && g.need != 0 && |es| > 0
    requires es[0].Raw? ==> !IsTrail(es[0].b)
    ensures !Accepting(Run(g, es))
  {
    hide Encode;
    PushKeepsInv(g, es[0]);
    RunKeepsInv(Push(g, es[0]), es[1..]);
  }

  /** The filter refines its description: over any run of calls, finalize accepts
      exactly the runs that split into complete units with properly paired
      surrogates, and the text is then the collated code points re-encoded. */
  lemma FilterRefines(es: seq<Event>)
    ensures Filtered(es).Some? <==>
            Items(es).Some? && Paired(Points(Items(es).value))
    ensures Filtered(es).Some? ==> Filtered(es).value == Emit(0, Items(es).value)
  {
    RunRefines(INITIAL, es);
    if Items(es).Some? {
      assert Waiting(0) + Points(Items(es).value) == Points(Items(es).value);
    }
    if Filtered(es).Some? {
      assert [] + Emit(0, Items(es).value) == Emit(0, Items(es).value);
    }
  }

  // ---- Surrogate pairs against RFC 2781 ----

  // Section 2.2 of RFC 2781: the value of a surrogate pair.
  function Utf16Value(hi: nat, lo: nat): nat
    requires IsHigh(hi) && IsLow(lo)
  {
    (hi - 0xD800) * 0x400 + (lo - 0xDC00) + 0x1_0000
  }

  /** The code agrees with RFC 2781 exactly when bit 6 of the high half's payload
      is clear (planes 1, 3, 5, ...); otherwise it lands one plane lower. Its
      four bytes are in any case read back by the filter as the same code point. */
  lemma SurrogatePair(f: State, hi: nat, lo: nat)
    requires IsHigh(hi) && IsLow(lo)
    requires f.need == 0 && f.code == 0 && f.high == 0
    ensures Collate(hi, lo) == Utf16Value(hi, lo) <==> (hi - 0xD800) / 64 % 2 == 0
    ensures Collate(hi, lo) != Utf16Value(hi, lo) ==> Collate(hi, lo) == Utf16Value(hi, lo) - 0x1_0000
    ensures 0x1_0000 <= Collate(hi, lo) <= 0xF_FFFF
    ensures Run(f, RawEvents(Encode(Collate(hi, lo)))) == PushCode(f, Collate(hi, lo))
    ensures Run(f, [Code(hi), Code(lo)]) == PushCode(f, Collate(hi, lo))
  {
    CollateIsOr(hi, lo);
    var c := Collate(hi, lo);
    assert ((hi - 0xD800) * 1024 + (lo - 0xDC00)) / 0x1_0000 == (hi - 0xD800) / 64;
    EncodeIsUnit(c);
    RunUnit(f, Encode(c));
    var g := PushCode(f, hi);
    assert Run(f, [Code(hi), Code(lo)]) == Run(g, [Code(lo)]) by {
      assert [Code(hi), Code(lo)][1..] == [Code(lo)];
    }
    assert Run(g, [Code(lo)]) == PushCode(g, lo) by {
      assert [Code(lo)][1..] == [];
    }
  }

  // U+20000 written as the pair D840 DC00 comes out as U+10000.
  lemma SurrogateCounterexample()
    ensures Utf16Value(0xD840, 0xDC00) == 0x2_0000
    ensures Collate(0xD840, 0xDC00) == 0x1_0000
  {
  }
}
