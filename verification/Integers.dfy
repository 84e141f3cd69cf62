/** Decimal printing and the strtol family, ParseInt32 and ParseInt64. */
module Integers {
  import opened Bytes
  import opened Lexer
  import opened Numbers
  import opened TokenLists

  const INT32_MIN := -0x8000_0000
  const INT32_MAX := 0x7FFF_FFFF
  const INT64_MIN := -0x8000_0000_0000_0000
  const INT64_MAX := 0x7FFF_FFFF_FFFF_FFFF
  const UINT64_MAX := 0xFFFF_FFFF_FFFF_FFFF

  // ---- Printing: ostream << n ----

  function PrintNat(n: nat): (s: bytes)
    ensures IsDigits(s)
  {
    if n < 10 then [ZERO + n] else PrintNat(n / 10) + [ZERO + n % 10]
  }

  function PrintInt(n: int): bytes {
    if n < 0 then [MINUS] + PrintNat(-n) else PrintNat(n)
  }

  // ---- Reading ----

  function DecimalValue(s: bytes): nat
    requires AllDigits(s)
  {
    if |s| == 0 then 0 else 10 * DecimalValue(s[..|s| - 1]) + (s[|s| - 1] - ZERO)
  }

  // isspace in the C locale, which has \v and \f beyond JSON's whitespace.
  predicate CSpace(b: byte) {
    b == 0x20 || 0x09 <= b <= 0x0D
  }

  function CSpaceCount(s: bytes): (n: nat)
    ensures n <= |s|
  {
    if |s| > 0 && CSpace(s[0]) then 1 + CSpaceCount(s[1..]) else 0
  }

  // Where the digits start after whitespace and a sign.
  function DigitsAt(s: bytes): (i: nat)
    ensures i <= |s|
  {
    var w := CSpaceCount(s);
    if w < |s| && IsSign(s[w]) then w + 1 else w
  }

  predicate Negative(s: bytes) {
    var w := CSpaceCount(s);
    w < |s| && s[w] == MINUS
  }

  /** What strtol and strtoll report in base 10: the value clamped to [lo, hi],
      the index of the first byte not used, and whether errno became ERANGE. */
  datatype Conversion = Conversion(value: int, end: nat, erange: bool)

  function Strtol(s: bytes, lo: int, hi: int): Conversion {
    var i := DigitsAt(s);
    var d := DigitCount(s[i..]);
    if d == 0 then Conversion(0, 0, false)
    else
      var v := Signed(Negative(s), DecimalValue(s[i..][..d]));
      if v < lo then Conversion(lo, i + d, true)
      else if v > hi then Conversion(hi, i + d, true)
      else Conversion(v, i + d, false)
  }

  method ParsePrechecks(str: bytes) returns (ok: bool)
    ensures ok <==> |str| > 0 && !IsSpace(str[0]) && !IsSpace(str[|str| - 1]) && NUL !in str
  {
    if |str| == 0 {
      return false;
    }
    if |str| >= 1 && (IsSpace(str[0]) || IsSpace(str[|str| - 1])) {
      return false;
    }
    if |str| != Strlen(str) {
      return false;
    }
    return true;
  }

  // strlen of the NUL-terminated copy.
  function Strlen(s: bytes): (n: nat)
    ensures n <= |s| && NUL !in s[..n] && (n < |s| ==> s[n] == NUL)
  {
    if |s| == 0 || s[0] == NUL then 0
    else
      assert s[0] == [s[0]][0];
      var n := 1 + Strlen(s[1..]);
      assert s[..n] == [s[0]] + s[1..][..n - 1];
      n
  }

  predicate Prechecks(s: bytes) {
    |s| > 0 && !IsSpace(s[0]) && !IsSpace(s[|s| - 1]) && NUL !in s
  }

  function Signed(negative: bool, m: nat): int {
    if negative then 0 - m else m
  }

  // The integer a whole string denotes: optional \v and \f, optional sign, digits to the end.
  function Denotes(s: bytes): Option<int> {
    var digits := s[DigitsAt(s)..];
    if Prechecks(s) && IsDigits(digits) then Some(Signed(Negative(s), DecimalValue(digits))) else None
  }

  // A conversion to int32_t keeps the low 32 bits.
  function ToInt32(n: int): int {
    var r := n % 0x1_0000_0000;
    if r > INT32_MAX then r - 0x1_0000_0000 else r
  }

  // longMin..longMax is the range of long, at least that of int32_t.
  method ParseInt32(str: bytes, longMin: int, longMax: int) returns (ok: bool, out: int)
    requires longMin <= INT32_MIN && INT32_MAX <= longMax
    ensures ok <==> Denotes(str).Some? && INT32_MIN <= Denotes(str).value <= INT32_MAX
    ensures ok ==> out == Denotes(str).value
  {
    out := 0;
    ok := ParsePrechecks(str);
    if !ok {
      return;
    }
    var n := Strtol(str, longMin, longMax);
    StrtolDenotes(str, longMin, longMax);
    out := ToInt32(n.value);
    ok := n.end == |str| && !n.erange && n.value >= INT32_MIN && n.value <= INT32_MAX;
  }

  method ParseInt64(str: bytes) returns (ok: bool, out: int)
    ensures ok <==> Denotes(str).Some? && INT64_MIN <= Denotes(str).value <= INT64_MAX
    ensures ok ==> out == Denotes(str).value
  {
    out := 0;
    ok := ParsePrechecks(str);
    if !ok {
      return;
    }
    var n := Strtol(str, INT64_MIN, INT64_MAX);
    StrtolDenotes(str, INT64_MIN, INT64_MAX);
    out := n.value;
    ok := n.end == |str| && !n.erange && n.value >= INT64_MIN && n.value <= INT64_MAX;
  }

  // Converting the whole string without overflow is denoting an integer in range.
  lemma StrtolDenotes(s: bytes, lo: int, hi: int)
    requires Prechecks(s)
    ensures var n := Strtol(s, lo, hi);
      && (n.end == |s| <==> Denotes(s).Some?)
      && (n.end == |s| && !n.erange <==> Denotes(s).Some? && lo <= Denotes(s).value <= hi)
      && (n.end == |s| && !n.erange ==> n.value == Denotes(s).value)
  {
    hide DecimalValue, CSpaceCount, DigitCount;
    var i := DigitsAt(s);
    var digits := s[i..];
    var d := DigitCount(digits);
    if d == |digits| {
      assert digits[..d] == digits;
    } else {
      assert !IsDigit(digits[d]);
    }
  }

  // Appending a digit shifts the number by one decimal place.
  lemma DecimalStep(s: bytes, d: byte)
    requires AllDigits(s) && '0' as int <= d <= '9' as int
    ensures AllDigits(s + [d]) && DecimalValue([]) == 0
    ensures DecimalValue(s + [d]) == 10 * DecimalValue(s) + (d - '0' as int)
  {
    assert (s + [d])[..|s|] == s;
  }

  // What strtoll takes of a whole string: C whitespace, a sign or none, decimal digits to the end.
  predicate IsSigned(w: bytes, sign: bytes, digits: bytes) {
    && (forall i :: 0 <= i < |w| ==> 0x09 <= w[i] <= 0x0D || w[i] == 0x20)
    && (sign == [] || sign == ['+' as int] || sign == ['-' as int])
    && IsDigits(digits)
  }

  function SignedValue(sign: bytes, digits: bytes): int
    requires AllDigits(digits)
  {
    if sign == ['-' as int] then 0 - DecimalValue(digits) else DecimalValue(digits)
  }

  lemma {:induction false} SpacesThenMore(w: bytes, rest: bytes)
    requires forall i :: 0 <= i < |w| ==> CSpace(w[i])
    requires |rest| > 0 && !CSpace(rest[0])
    ensures CSpaceCount(w + rest) == |w|
    decreases |w|
  {
    if |w| == 0 {
      assert w + rest == rest;
    } else {
      assert (w + rest)[1..] == w[1..] + rest;
      SpacesThenMore(w[1..], rest);
    }
  }

  lemma {:induction false} CSpacesCounted(s: bytes)
    ensures forall i :: 0 <= i < CSpaceCount(s) ==> CSpace(s[i])
  {
    if |s| > 0 && CSpace(s[0]) {
      CSpacesCounted(s[1..]);
      assert forall i :: 0 < i < CSpaceCount(s) ==> s[i] == s[1..][i - 1];
    }
  }

  /** A string without padding denotes n exactly when it is C whitespace, a sign
      and digits whose decimal value, with the sign, is n. */
  lemma DenotesMeaning(s: bytes, n: int)
    ensures Denotes(s) == Some(n) <==>
            Prechecks(s)
            && exists w, sign, digits ::
                 IsSigned(w, sign, digits) && s == w + sign + digits && n == SignedValue(sign, digits)
  {
    hide DecimalValue, Prechecks, CSpaceCount;
    if Denotes(s) == Some(n) {
      CSpacesCounted(s);
      var k, i := CSpaceCount(s), DigitsAt(s);
      var w, sign, digits := s[..k], s[k..i], s[i..];
      assert IsSigned(w, sign, digits) && s == w + sign + digits;
      assert Negative(s) <==> sign == ['-' as int];
    }
    if Prechecks(s) {
      forall w, sign, digits | IsSigned(w, sign, digits) && s == w + sign + digits
        ensures Denotes(s) == Some(SignedValue(sign, digits))
      {
        assert s == w + (sign + digits);
        SpacesThenMore(w, sign + digits);
        assert s[|w|] == (sign + digits)[0];
        assert s[|w| + |sign|..] == digits;
      }
    }
  }

  // ---- Numbers of the grammar ----

  lemma {:induction false} PrintNatValue(n: nat)
    ensures DecimalValue(PrintNat(n)) == n
    ensures PrintNat(n)[0] == ZERO ==> n == 0
    ensures n == 0 ==> |PrintNat(n)| == 1
  {
    if n >= 10 {
      PrintNatValue(n / 10);
      var s := PrintNat(n);
      assert s[..|s| - 1] == PrintNat(n / 10);
    } else {
      assert PrintNat(n)[..0] == [];
    }
  }

  // The grammar's view of a printed integer: no fraction, no exponent, no leading zero.
  function IntegerParts(n: int): Parts {
    Parts(n < 0, PrintNat(if n < 0 then -n else n), None, None)
  }

  lemma PrintIsNumber(n: int)
    ensures ValidParts(IntegerParts(n)) && PartsText(IntegerParts(n)) == PrintInt(n)
    ensures IsNumber(PrintInt(n))
  {
    hide PrintNat;
    PrintNatValue(if n < 0 then -n else n);
    assert TailText(IntegerParts(n)) == [];
    assert ValidParts(IntegerParts(n));
  }

  /** A number of the grammar denotes an integer exactly when it has neither
      fraction nor exponent, and then the integer its digits spell. */
  lemma NumberDenotes(p: Parts)
    requires ValidParts(p)
    ensures Denotes(PartsText(p)).Some? <==> p.frac.None? && p.exp.None?
    ensures p.frac.None? && p.exp.None? ==>
              Denotes(PartsText(p)) == Some(Signed(p.minus, DecimalValue(p.whole)))
  {
    hide DecimalValue, Prechecks;
    var s := PartsText(p);
    NumberStart(p);
    var i := if p.minus then 1 else 0;
    var digits := s[i..];
    assert digits == p.whole + TailText(p);
    if p.frac.None? && p.exp.None? {
      assert TailText(p) == [];
      assert digits == p.whole;
    } else {
      TailNotDigit(p);
      assert digits[|p.whole|] == TailText(p)[0];
    }
    NumberPrechecks(p);
  }

  lemma NumberStart(p: Parts)
    requires ValidParts(p)
    ensures var s := PartsText(p);
      CSpaceCount(s) == 0 && DigitsAt(s) == (if p.minus then 1 else 0) && (Negative(s) <==> p.minus)
  {
    hide DecimalValue, TailText;
    var s := PartsText(p);
    assert s[0] == if p.minus then MINUS else p.whole[0];
  }

  lemma TailNotDigit(p: Parts)
    requires ValidParts(p) && (p.frac.Some? || p.exp.Some?)
    ensures |TailText(p)| > 0 && !IsDigit(TailText(p)[0])
  {
  }

  predicate AllVisible(s: bytes) {
    forall i :: 0 <= i < |s| ==> s[i] > 0x20
  }

  lemma VisibleConcat(a: bytes, b: bytes)
    requires AllVisible(a) && AllVisible(b)
    ensures AllVisible(a + b)
  {
  }

  lemma VisibleExp(e: Option<Exponent>)
    requires e.Some? ==> ValidExponent(e.value)
    ensures AllVisible(ExpText(e))
  {
  }

  lemma VisibleFrac(f: Option<bytes>)
    requires f.Some? ==> IsDigits(f.value)
    ensures AllVisible(FracText(f))
  {
  }

  // Numbers hold no whitespace and no control character.
  lemma NumberVisible(p: Parts)
    requires ValidParts(p)
    ensures AllVisible(PartsText(p)) && |PartsText(p)| > 0
  {
    hide FracText, ExpText, ValidExponent;
    VisibleFrac(p.frac);
    VisibleExp(p.exp);
    VisibleConcat(FracText(p.frac), ExpText(p.exp));
    VisibleConcat(SignText(p.minus), p.whole);
    VisibleConcat(SignText(p.minus) + p.whole, TailText(p));
  }

  lemma NumberPrechecks(p: Parts)
    requires ValidParts(p)
    ensures Prechecks(PartsText(p))
  {
    hide PartsText;
    NumberVisible(p);
  }

  lemma PrintDenotes(n: int)
    ensures Denotes(PrintInt(n)) == Some(n)
  {
    hide PrintNat, PartsText, Denotes, ValidParts;
    PrintIsNumber(n);
    NumberDenotes(IntegerParts(n));
    PrintNatValue(if n < 0 then -n else n);
  }

  // ---- setNumStr's test ----

  // validNumStr: only the first token is looked at.
  function FirstIsNumber(s: bytes): bool {
    LexToken(s).tok.Number?
  }

  /** setNumStr takes every number, and what it takes is one exactly when the first
      token is the whole string and not a lone minus sign. */
  lemma NumStrAccepts(s: bytes)
    ensures IsNumber(s) ==> FirstIsNumber(s)
    ensures FirstIsNumber(s) ==>
              (IsNumber(s) <==> LexToken(s).consumed == |s| && SpaceCount(s) == 0 && s != [MINUS])
  {
    hide IsNumber, LexToken;
    if IsNumber(s) {
      NumberLexes(s, []);
      assert s + [] == s;
      ScanNumberText(s, []);
      SpaceCountUnique(s, 0);
      LoneMinus([MINUS], 1);
    }
    if FirstIsNumber(s) {
      NumberToken(s);
      assert s[0..|s|] == s;
    }
  }

  // "1x" is taken.
  lemma NumStrTrailingText()
    ensures FirstIsNumber([0x31, 0x78]) && !IsNumber([0x31, 0x78])
  {
    hide LexToken;
    var s: bytes := [0x31, 0x78];
    var one: bytes := [0x31];
    assert one == PrintInt(1);
    PrintIsNumber(1);
    NumberLexes(one, [0x78]);
    assert one + [0x78] == s;
    NumStrAccepts(s);
  }
}
