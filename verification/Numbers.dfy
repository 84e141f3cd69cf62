/** JSON numbers: section 6 of RFC 8259 as a grammar, the lexer's scan, and the
    proof that the scan finds the grammar's numbers. */
module Numbers {
  import opened Bytes

  // ---- Section 6 of RFC 8259: number = [ minus ] int [ frac ] [ exp ] ----

  datatype Exponent = Exponent(mark: byte, sign: Option<byte>, digits: bytes)

  datatype Parts = Parts(minus: bool, whole: bytes, frac: Option<bytes>, exp: Option<Exponent>)

  predicate IsDigits(s: bytes) {
    |s| > 0 && AllDigits(s)
  }

  predicate ValidExponent(e: Exponent) {
    && (e.mark == 0x65 || e.mark == 0x45)
    && (e.sign.Some? ==> e.sign.value == 0x2B || e.sign.value == 0x2D)
    && IsDigits(e.digits)
  }

  predicate ValidParts(p: Parts) {
    && IsDigits(p.whole) && (p.whole[0] == ZERO ==> |p.whole| == 1)
    && (p.frac.Some? ==> IsDigits(p.frac.value))
    && (p.exp.Some? ==> ValidExponent(p.exp.value))
  }

  function FracText(frac: Option<bytes>): bytes {
    if frac.Some? then [DOT] + frac.value else []
  }

  function ExpText(exp: Option<Exponent>): bytes {
    if exp.None? then []
    else if exp.value.sign.Some? then [exp.value.mark, exp.value.sign.value] + exp.value.digits
    else [exp.value.mark] + exp.value.digits
  }

  function SignText(minus: bool): bytes {
    if minus then [MINUS] else []
  }

  // Fraction and exponent.
  function TailText(p: Parts): bytes {
    FracText(p.frac) + ExpText(p.exp)
  }

  function PartsText(p: Parts): bytes {
    SignText(p.minus) + p.whole + TailText(p)
  }

  ghost predicate IsNumber(s: bytes) {
    exists p :: ValidParts(p) && PartsText(p) == s
  }

  // ---- The scan: how many bytes of s the lexer takes, None if it rejects them ----

  predicate IsMark(b: byte) {
    b == 0x65 || b == 0x45
  }

  predicate IsSign(b: byte) {
    b == 0x2D || b == 0x2B
  }

  function ScanExp(s: bytes): (r: Option<nat>)
    ensures r.Some? ==> r.value <= |s|
  {
    if |s| > 0 && IsMark(s[0]) then
      var i := if |s| > 1 && IsSign(s[1]) then 2 else 1;
      if i >= |s| || !IsDigit(s[i]) then None else Some(i + DigitCount(s[i..]))
    else Some(0)
  }

  function ScanFrac(s: bytes): (r: Option<nat>)
    ensures r.Some? ==> r.value <= |s|
  {
    if |s| > 0 && s[0] == DOT then
      if |s| <= 1 || !IsDigit(s[1]) then None else Some(1 + DigitCount(s[1..]))
    else Some(0)
  }

  function ScanTail(s: bytes): (r: Option<nat>)
    ensures r.Some? ==> r.value <= |s|
  {
    var f := ScanFrac(s);
    if f.None? then None
    else
      var e := ScanExp(s[f.value..]);
      if e.None? then None else Some(f.value + e.value)
  }

  function ScanNumber(s: bytes): (r: Option<nat>)
    requires |s| > 0 && (s[0] == MINUS || IsDigit(s[0]))
    ensures r.Some? ==> 0 < r.value <= |s|
  {
    var first := if s[0] == MINUS then 1 else 0;
    if first + 1 < |s| && s[first] == ZERO && IsDigit(s[first + 1]) then None
    else if s[0] == MINUS && |s| > 1 && !IsDigit(s[1]) then None
    else
      var i := 1 + DigitCount(s[1..]);
      var t := ScanTail(s[i..]);
      if t.None? then None else Some(i + t.value)
  }

  // ---- What may follow a number for the scan to stop there ----

  // No longer number could have been taken: rest starts with nothing that could extend p.
  predicate Follows(p: Parts, rest: bytes) {
    |rest| > 0 ==>
      && !IsDigit(rest[0])
      && (p.frac.None? && p.exp.None? ==> rest[0] != DOT)
      && (p.exp.None? ==> !IsMark(rest[0]))
  }

  // Bytes after which a number always ends, whatever its parts.
  predicate EndsNumber(rest: bytes) {
    |rest| > 0 ==> !IsDigit(rest[0]) && rest[0] != DOT && !IsMark(rest[0])
  }

  // ---- Completeness ----

  lemma DigitsThen(d: bytes, rest: bytes)
    requires AllDigits(d) && (|rest| > 0 ==> !IsDigit(rest[0]))
    ensures DigitCount(d + rest) == |d|
  {
    var s := d + rest;
    assert s[..|d|] == d;
    DigitCountUnique(s, |d|);
  }

  lemma TailDigits(d: bytes)
    requires IsDigits(d)
    ensures AllDigits(d[1..])
    ensures |d| > 1 ==> IsDigit(d[1])
  {
  }

  lemma FirstIsDigit(d: bytes)
    requires IsDigits(d)
    ensures IsDigit(d[0])
  {
  }

  lemma ScanExpSigned(mark: byte, sign: byte, d: bytes, rest: bytes)
    requires IsMark(mark) && IsSign(sign) && IsDigits(d) && (|rest| > 0 ==> !IsDigit(rest[0]))
    ensures ScanExp([mark, sign] + (d + rest)) == Some(2 + |d|)
  {
    hide DigitCount, AllDigits;
    var s := [mark, sign] + (d + rest);
    DigitsThen(d, rest);
    FirstIsDigit(d);
    assert s[2..] == d + rest;
  }

  lemma ScanExpUnsigned(mark: byte, d: bytes, rest: bytes)
    requires IsMark(mark) && IsDigits(d) && (|rest| > 0 ==> !IsDigit(rest[0]))
    ensures ScanExp([mark] + (d + rest)) == Some(1 + |d|)
  {
    hide DigitCount, AllDigits;
    var s := [mark] + (d + rest);
    DigitsThen(d, rest);
    FirstIsDigit(d);
    assert s[1..] == d + rest;
  }

  lemma ScanExpText(e: Option<Exponent>, rest: bytes)
    requires e.Some? ==> ValidExponent(e.value)
    requires |rest| > 0 ==> !IsDigit(rest[0]) && (e.None? ==> !IsMark(rest[0]))
    ensures ScanExp(ExpText(e) + rest) == Some(|ExpText(e)|)
  {
    hide DigitCount, AllDigits;
    if e.None? {
      assert [] + rest == rest;
    } else if e.value.sign.Some? {
      hide ScanExp;
      ScanExpSigned(e.value.mark, e.value.sign.value, e.value.digits, rest);
      Concat3([e.value.mark, e.value.sign.value], e.value.digits, rest);
    } else {
      hide ScanExp;
      ScanExpUnsigned(e.value.mark, e.value.digits, rest);
      Concat3([e.value.mark], e.value.digits, rest);
    }
  }

  lemma ScanFracText(f: Option<bytes>, rest: bytes)
    requires f.Some? ==> IsDigits(f.value)
    requires |rest| > 0 ==> !IsDigit(rest[0]) && (f.None? ==> rest[0] != DOT)
    ensures ScanFrac(FracText(f) + rest) == Some(|FracText(f)|)
  {
    hide DigitCount;
    var s := FracText(f) + rest;
    if f.Some? {
      DigitsThen(f.value, rest);
      assert s[1..] == f.value + rest;
    }
  }

  lemma ScanTailText(p: Parts, rest: bytes)
    requires ValidParts(p) && Follows(p, rest)
    ensures ScanTail(TailText(p) + rest) == Some(|TailText(p)|)
  {
    hide ScanExp, ScanFrac;
    var tail := ExpText(p.exp) + rest;
    assert TailText(p) + rest == FracText(p.frac) + tail;
    ScanExpText(p.exp, rest);
    ScanFracText(p.frac, tail);
    assert (FracText(p.frac) + tail)[|FracText(p.frac)|..] == tail;
  }

  lemma TailStops(p: Parts, rest: bytes)
    requires ValidParts(p) && Follows(p, rest)
    ensures |TailText(p) + rest| > 0 ==> !IsDigit((TailText(p) + rest)[0])
  {
  }

  // The integer part, without and with a minus sign.
  lemma ScanPlain(whole: bytes, after: bytes)
    requires IsDigits(whole) && (whole[0] == ZERO ==> |whole| == 1) && ScanTail(after).Some?
    requires |after| > 0 ==> !IsDigit(after[0])
    ensures IsDigit(whole[0]) && (whole + after)[0] == whole[0]
    ensures ScanNumber(whole + after) == Some(|whole| + ScanTail(after).value)
  {
    hide ScanTail, DigitCount, AllDigits;
    var s := whole + after;
    TailDigits(whole);
    FirstIsDigit(whole);
    CountAfterFirst(whole, after);
    assert s[|whole|..] == after;
    assert |whole| > 1 ==> s[1] == whole[1];
  }

  lemma CountAfterFirst(whole: bytes, after: bytes)
    requires IsDigits(whole) && (|after| > 0 ==> !IsDigit(after[0]))
    ensures DigitCount((whole + after)[1..]) == |whole| - 1
  {
    hide DigitCount, AllDigits;
    TailDigits(whole);
    DigitsThen(whole[1..], after);
    assert (whole + after)[1..] == whole[1..] + after;
  }

  lemma ScanMinus(whole: bytes, after: bytes)
    requires IsDigits(whole) && (whole[0] == ZERO ==> |whole| == 1) && ScanTail(after).Some?
    requires |after| > 0 ==> !IsDigit(after[0])
    ensures ScanNumber([MINUS] + (whole + after)) == Some(1 + |whole| + ScanTail(after).value)
  {
    hide ScanTail, DigitCount, AllDigits;
    var s := [MINUS] + (whole + after);
    TailDigits(whole);
    FirstIsDigit(whole);
    DigitsThen(whole, after);
    assert s[1] == whole[0];
    assert s[1..] == whole + after;
    assert s[1 + |whole|..] == after;
  }

  lemma ScanComplete(p: Parts, rest: bytes)
    requires ValidParts(p) && Follows(p, rest)
    ensures |PartsText(p)| > 0 && (PartsText(p)[0] == MINUS || IsDigit(PartsText(p)[0]))
    ensures ScanNumber(PartsText(p) + rest) == Some(|PartsText(p)|)
  {
    hide ScanTail, ScanNumber, TailText, Follows, AllDigits;
    var after := TailText(p) + rest;
    ScanTailText(p, rest);
    TailStops(p, rest);
    FirstIsDigit(p.whole);
    Concat3(SignText(p.minus) + p.whole, TailText(p), rest);
    Concat3(SignText(p.minus), p.whole, after);
    if p.minus {
      ScanMinus(p.whole, after);
    } else {
      ScanPlain(p.whole, after);
      assert [] + (p.whole + after) == p.whole + after;
    }
  }

  // ---- Soundness ----

  lemma ScanExpSound(s: bytes) returns (e: Option<Exponent>)
    requires ScanExp(s).Some?
    ensures e.Some? ==> ValidExponent(e.value)
    ensures ExpText(e) == s[..ScanExp(s).value]
    ensures var rest := s[ScanExp(s).value..];
      |rest| > 0 ==> (e.Some? ==> !IsDigit(rest[0])) && (e.None? ==> !IsMark(rest[0]))
  {
    var n := ScanExp(s).value;
    if |s| > 0 && IsMark(s[0]) {
      if |s| > 1 && IsSign(s[1]) {
        e := Some(Exponent(s[0], Some(s[1]), s[2..n]));
        assert s[2..][..n - 2] == s[2..n];
        assert [s[0], s[1]] + s[2..n] == s[..n];
      } else {
        e := Some(Exponent(s[0], None, s[1..n]));
        assert s[1..][..n - 1] == s[1..n];
        assert [s[0]] + s[1..n] == s[..n];
      }
    } else {
      e := None;
    }
  }

  lemma ScanFracSound(s: bytes) returns (f: Option<bytes>)
    requires ScanFrac(s).Some?
    ensures f.Some? ==> IsDigits(f.value)
    ensures FracText(f) == s[..ScanFrac(s).value]
    ensures var rest := s[ScanFrac(s).value..];
      |rest| > 0 ==> (f.Some? ==> !IsDigit(rest[0])) && (f.None? ==> rest[0] != DOT)
  {
    var n := ScanFrac(s).value;
    if |s| > 0 && s[0] == DOT {
      f := Some(s[1..n]);
      assert s[1..][..n - 1] == s[1..n];
      assert [DOT] + s[1..n] == s[..n];
    } else {
      f := None;
    }
  }

  lemma ScanTailSound(s: bytes) returns (f: Option<bytes>, e: Option<Exponent>)
    requires ScanTail(s).Some?
    ensures f.Some? ==> IsDigits(f.value)
    ensures e.Some? ==> ValidExponent(e.value)
    ensures FracText(f) + ExpText(e) == s[..ScanTail(s).value]
    ensures var rest := s[ScanTail(s).value..];
      |rest| > 0 ==>
        && (f.Some? || e.Some? ==> !IsDigit(rest[0]))
        && (f.None? && e.None? ==> rest[0] != DOT && rest == s)
        && (e.None? ==> !IsMark(rest[0]))
  {
    hide ScanExp, ScanFrac;
    var x := ScanFrac(s).value;
    var t := s[x..];
    var y := ScanExp(t).value;
    f := ScanFracSound(s);
    e := ScanExpSound(t);
    assert s[..x + y] == s[..x] + t[..y];
    assert t[y..] == s[x + y..];
    if e.None? {
      assert y == 0;
      if f.None? {
        assert x == 0;
      }
    }
  }

  lemma ScanSound(s: bytes) returns (p: Parts)
    requires |s| > 0 && (s[0] == MINUS || IsDigit(s[0]))
    requires ScanNumber(s).Some? && s != [MINUS]
    ensures ValidParts(p) && PartsText(p) == s[..ScanNumber(s).value]
    ensures Follows(p, s[ScanNumber(s).value..])
  {
    hide ScanTail, DigitCount, ValidExponent, FracText, ExpText, AllDigits;
    var m := if s[0] == MINUS then 1 else 0;
    var i := 1 + DigitCount(s[1..]);
    var t := ScanTail(s[i..]).value;
    var whole := WholeDigits(s, m);
    var f, e := ScanTailSound(s[i..]);
    p := Parts(s[0] == MINUS, whole, f, e);
    SliceOfSlice(s, m, i, t);
    assert SignText(p.minus) == s[..m];
    assert PartsText(p) == s[..m] + s[m..i] + s[i..][..t];
  }

  lemma SliceOfSlice(s: bytes, m: nat, i: nat, t: nat)
    requires m <= i && i + t <= |s|
    ensures s[i..][t..] == s[i + t..]
    ensures s[..m] + s[m..i] + s[i..][..t] == s[..i + t]
  {
  }

  lemma WholeDigits(s: bytes, m: nat) returns (whole: bytes)
    requires |s| > 0 && (s[0] == MINUS || IsDigit(s[0])) && s != [MINUS]
    requires m == if s[0] == MINUS then 1 else 0
    requires ScanNumber(s).Some?
    ensures var i := 1 + DigitCount(s[1..]);
      m <= i && whole == s[m..i] && IsDigits(whole) && (whole[0] == ZERO ==> |whole| == 1)
      && (i < |s| ==> !IsDigit(s[i]))
  {
    hide ScanTail;
    var n := DigitCount(s[1..]);
    whole := s[m..1 + n];
    var run := s[1..][..n];
    forall j | 0 <= j < |whole|
      ensures IsDigit(whole[j])
    {
      if m + j > 0 {
        assert whole[j] == run[m + j - 1];
      }
    }
    if m == 1 {
      assert s[1..][0] == s[1];
      assert IsDigit(s[1]) && n > 0;
    }
    assert |whole| > 1 ==> IsDigit(whole[1]);
  }

  /** The scan takes n bytes exactly when they are the number p followed by
      nothing that could extend it, or the input is a lone minus sign. */
  lemma ScanExact(s: bytes, n: nat)
    requires |s| > 0 && (s[0] == MINUS || IsDigit(s[0])) && n <= |s|
    ensures ScanNumber(s) == Some(n) <==>
            (exists p :: ValidParts(p) && PartsText(p) == s[..n] && Follows(p, s[n..])) || (s == [MINUS] && n == 1)
  {
    hide ScanNumber, PartsText, ValidParts, Follows;
    if s == [MINUS] {
      LoneMinus(s, n);
    } else {
      if ScanNumber(s) == Some(n) {
        var p := ScanSound(s);
      }
      if p :| ValidParts(p) && PartsText(p) == s[..n] && Follows(p, s[n..]) {
        ScanComplete(p, s[n..]);
        assert s == s[..n] + s[n..];
      }
    }
  }

  lemma LoneMinus(s: bytes, n: nat)
    requires s == [MINUS] && n <= |s|
    ensures ScanNumber(s) == Some(n) <==> n == 1
    ensures !IsNumber(s) && !exists p :: ValidParts(p) && PartsText(p) == s[..n]
  {
    forall p | ValidParts(p)
      ensures PartsText(p) != s && PartsText(p) != s[..n]
    {
      ScanComplete(p, []);
      assert PartsText(p) + [] == PartsText(p);
      assert p.whole[0] in PartsText(p);
    }
  }

  // After a byte that ends any number, a number is taken whole.
  lemma ScanNumberText(s: bytes, rest: bytes)
    requires IsNumber(s) && EndsNumber(rest)
    ensures |s| > 0 && (s[0] == MINUS || IsDigit(s[0]))
    ensures ScanNumber(s + rest) == Some(|s|)
  {
    var p :| ValidParts(p) && PartsText(p) == s;
    ScanComplete(p, rest);
  }
}
