/** The C++ bit operators on unsigned integers, defined bit by bit on naturals,
    and the few facts that turn the filter's shifts and masks into arithmetic. */
module Bits {

  const TWO_TO_32 := 0x1_0000_0000

  type uint32 = x: int | 0 <= x < TWO_TO_32

  function BitAnd(a: nat, b: nat): nat {
    if a == 0 || b == 0 then 0
    else (if a % 2 == 1 && b % 2 == 1 then 1 else 0) + 2 * BitAnd(a / 2, b / 2)
  }

  function BitOr(a: nat, b: nat): nat
    decreases a + b
  {
    if a == 0 && b == 0 then 0
    else (if a % 2 == 1 || b % 2 == 1 then 1 else 0) + 2 * BitOr(a / 2, b / 2)
  }

  // Left shift by k bits with no width limit.
  function ShiftUp(a: nat, k: nat): (r: nat)
    ensures r >= a
  {
    if k == 0 then a else 2 * ShiftUp(a, k - 1)
  }

  // Left shift of a 32-bit unsigned integer: bits pushed past bit 31 are lost.
  function Shl(a: uint32, k: nat): uint32 {
    ShiftUp(a, k) % TWO_TO_32
  }

  function Shr(a: nat, k: nat): nat {
    if k == 0 then a else Shr(a / 2, k - 1)
  }

  // The k lowest bits of x.
  function Low(x: nat, k: nat): nat {
    if k == 0 then 0 else x % 2 + 2 * Low(x / 2, k - 1)
  }

  // Is bit k of x set?
  predicate BitAt(x: nat, k: nat) {
    Shr(x, k) % 2 == 1
  }

  // ---- Shifts by the amounts the filter uses, as arithmetic ----

  lemma {:induction false} Shift3(x: nat)
    ensures ShiftUp(x, 3) == 8 * x && Shr(x, 3) == x / 8 && Low(x, 3) == x % 8
  {
    assert ShiftUp(x, 1) == 2 * x;
    assert Shr(x / 2 / 2, 1) == x / 2 / 2 / 2;
    assert Low(x / 2 / 2, 1) == x / 2 / 2 % 2;
    assert Shr(x / 2, 2) == x / 2 / 2 / 2;
    assert Low(x / 2, 2) == x / 2 % 4;
  }

  lemma {:induction false} Shift6(x: nat)
    ensures ShiftUp(x, 6) == 64 * x && Shr(x, 6) == x / 64 && Low(x, 6) == x % 64
  {
    Shift3(x);
    Shift3(8 * x);
    Shift3(x / 8);
    Shift3(x / 8 % 8);
    ShiftUpAdd(x, 3, 3);
    ShrAdd(x, 3, 3);
    LowAdd(x, 3, 3);
  }

  lemma {:induction false} Shift12(x: nat)
    ensures ShiftUp(x, 12) == 4096 * x && Shr(x, 12) == x / 4096
  {
    Shift6(x);
    Shift6(x / 64);
    ShiftUpAdd(x, 6, 6);
    Shift6(ShiftUp(x, 6));
    ShrAdd(x, 6, 6);
  }

  lemma {:induction false} Shift18(x: nat)
    ensures ShiftUp(x, 18) == 262144 * x && Shr(x, 18) == x / 262144
  {
    Shift12(x);
    Shift6(x / 4096);
    ShiftUpAdd(x, 12, 6);
    Shift6(ShiftUp(x, 12));
    ShrAdd(x, 12, 6);
  }

  lemma {:induction false} Shift10(x: nat)
    ensures ShiftUp(x, 10) == 1024 * x && Shr(x, 10) == x / 1024
  {
    Shift6(x);
    Shift3(64 * x);
    ShiftUpAdd(x, 6, 3);
    Shift3(x / 64);
    ShrAdd(x, 6, 3);
    ShrAdd(x, 9, 1);
    assert Shr(x / 512, 1) == x / 512 / 2;
  }

  lemma {:induction false} ShiftUpAdd(x: nat, j: nat, k: nat)
    ensures ShiftUp(x, j + k) == ShiftUp(ShiftUp(x, j), k)
  {
    if k > 0 {
      ShiftUpAdd(x, j, k - 1);
    }
  }

  lemma {:induction false} ShrAdd(x: nat, j: nat, k: nat)
    ensures Shr(x, j + k) == Shr(Shr(x, j), k)
  {
    if j > 0 {
      ShrAdd(x / 2, j - 1, k);
    }
  }

  lemma {:induction false} LowAdd(x: nat, j: nat, k: nat)
    ensures Low(x, j + k) == Low(x, j) + ShiftUp(Low(Shr(x, j), k), j)
  {
    if j > 0 {
      LowAdd(x / 2, j - 1, k);
    }
  }

  // ---- Masks ----

  // Masking with k ones keeps the k lowest bits.
  lemma {:induction false} AndMask(x: nat, k: nat)
    ensures BitAnd(x, ShiftUp(1, k) - 1) == Low(x, k)
  {
    if k > 0 {
      AndMask(x / 2, k - 1);
      AndOdd(x, ShiftUp(1, k - 1) - 1);
    }
  }

  lemma {:induction false} AndOdd(x: nat, m: nat)
    ensures BitAnd(x, 2 * m + 1) == x % 2 + 2 * BitAnd(x / 2, m)
  {
  }

  lemma {:induction false} AndEven(a: nat, b: nat)
    ensures BitAnd(a, 2 * b) == 2 * BitAnd(a / 2, b)
  {
  }

  lemma {:induction false} AndScale(a: nat, b: nat, k: nat)
    ensures BitAnd(a, ShiftUp(b, k)) == ShiftUp(BitAnd(Shr(a, k), b), k)
  {
    if k > 0 {
      AndEven(a, ShiftUp(b, k - 1));
      AndScale(a / 2, b, k - 1);
    }
  }

  lemma {:induction false} AndMasks(x: nat)
    ensures BitAnd(x, 0x3F) == x % 64
    ensures BitAnd(x, 0x1F) == x % 32
    ensures BitAnd(x, 0x0F) == x % 16
    ensures BitAnd(x, 0x07) == x % 8
  {
    Low4(x);
    Low5(x);
    Shift3(x);
    Shift6(x);
    Shift6(1);
    Shift3(1);
    AndMask(x, 6);
    AndMask(x, 5);
    AndMask(x, 4);
    AndMask(x, 3);
  }

  lemma {:induction false} LowStep(x: nat, k: nat)
    requires k > 0
    ensures Low(x, k) == x % 2 + 2 * Low(x / 2, k - 1)
  {
  }

  lemma {:induction false} Low4(x: nat)
    ensures Low(x, 4) == x % 16
  {
    hide Low;
    LowStep(x, 4);
    Shift3(x / 2);
  }

  lemma {:induction false} Low5(x: nat)
    ensures Low(x, 5) == x % 32
  {
    hide Low;
    LowStep(x, 5);
    Low4(x / 2);
    var h := x / 2;
    assert x == 32 * (h / 16) + (2 * (h % 16) + x % 2);
  }

  lemma {:induction false} TwoBits(x: nat)
    requires x < 4
    ensures ShiftUp(1, 2) == 4 && Low(x, 2) == x
  {
  }

  // The test (ch & 0xc0) == 0x80 singles out the continuation bytes.
  lemma {:induction false} TopBits(ch: nat)
    requires ch < 256
    ensures BitAnd(ch, 0xC0) == 0x80 <==> 0x80 <= ch < 0xC0
  {
    Shift6(3);
    Shift6(ch);
    AndScale(ch, 3, 6);
    AndMask(ch / 64, 2);
    TwoBits(ch / 64);
    hide BitAnd, ShiftUp, Low;
    Shift6(ch / 64);
  }

  // ---- Or ----

  lemma {:induction false} OrEven(a: nat, b: nat)
    ensures BitOr(2 * a, b) == b % 2 + 2 * BitOr(a, b / 2)
  {
  }

  lemma {:induction false} OrZero(h: nat)
    ensures BitOr(h, 0) == h
  {
    if h > 0 {
      OrZero(h / 2);
    }
  }

  // Or-ing bits into positions that are still clear adds them.
  lemma {:induction false} OrDisjoint(h: nat, l: nat, k: nat)
    requires l < ShiftUp(1, k)
    ensures BitOr(ShiftUp(h, k), l) == ShiftUp(h, k) + l
  {
    if k == 0 {
      OrZero(h);
    } else {
      OrDisjoint(h, l / 2, k - 1);
      OrEven(ShiftUp(h, k - 1), l);
    }
  }

  // Or-ing in one bit does nothing when it is already set: this is where | and + part.
  lemma {:induction false} OrBit(x: nat, k: nat)
    ensures BitOr(ShiftUp(1, k), x) == if BitAt(x, k) then x else x + ShiftUp(1, k)
  {
    if k == 0 {
      OrEven(0, x / 2);
      OrZero(x / 2);
      OrCommutes(0, x / 2);
    } else {
      OrBit(x / 2, k - 1);
      OrEven(ShiftUp(1, k - 1), x);
    }
  }

  lemma {:induction false} OrCommutes(a: nat, b: nat)
    ensures BitOr(a, b) == BitOr(b, a)
    decreases a + b
  {
    if a + b > 0 {
      OrCommutes(a / 2, b / 2);
    }
  }

  lemma {:induction false} OrAssociates(a: nat, b: nat, c: nat)
    ensures BitOr(BitOr(a, b), c) == BitOr(a, BitOr(b, c))
    decreases a + b + c
  {
    if a + b + c > 0 {
      OrAssociates(a / 2, b / 2, c / 2);
      OrHalves(a, b);
      OrHalves(b, c);
      OrHalves(BitOr(a, b), c);
      OrHalves(a, BitOr(b, c));
    }
  }

  lemma {:induction false} OrHalves(a: nat, b: nat)
    ensures BitOr(a, b) / 2 == BitOr(a / 2, b / 2)
    ensures BitOr(a, b) % 2 == 1 <==> a % 2 == 1 || b % 2 == 1
  {
  }
}
