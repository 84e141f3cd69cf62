/** The string filter: a byte transducer that decodes UTF-8, joins surrogate
    pairs and re-encodes the result. */
module Filter {
  import opened Bytes
  import opened Bits
  import opened Utf8

  // One call on the filter: push_back(b) or push_back_u(u).
  datatype Event = Raw(b: byte) | Code(u: nat)

  /** The filter between two calls. `need` is the bit position the next
      continuation byte fills (0 between characters), `code` the bits so far
      (0 between characters) and `high` an unpaired high surrogate (0 if none). */
  datatype State = State(out: bytes, valid: bool, need: nat, code: nat, high: High)

  // An unpaired high surrogate, or 0.
  type High = h: nat | h == 0 || IsHigh(h)

  const INITIAL := State([], true, 0, 0, 0)

  ghost predicate Inv(f: State) {
    && (f.need == 0 || f.need == 6 || f.need == 12 || f.need == 18)
    && (f.need == 0 ==> f.code == 0)
    && (f.need == 6 ==> f.code % 64 == 0 && f.code + 64 <= 0x20_0000)
    && (f.need == 12 ==> f.code % 4096 == 0 && f.code + 4096 <= 0x20_0000)
    && (f.need == 18 ==> f.code % 262144 == 0 && f.code + 262144 <= 0x20_0000)
  }

  // The code point a surrogate pair stands for in this code, which joins with | and not +.
  function Collate(hi: nat, lo: nat): nat
    requires IsHigh(hi) && IsLow(lo)
  {
    var v := (hi - 0xD800) * 1024 + (lo - 0xDC00);
    if v / 0x1_0000 % 2 == 1 then v else v + 0x1_0000
  }

  function PushCode(f: State, u: nat): State
  {
    var g := if f.need != 0 then f.(valid := false) else f;
    if IsHigh(u) then
      if f.high != 0 then g.(valid := false) else g.(high := u)
    else if IsLow(u) then
      if f.high != 0 then g.(out := g.out + Encode(Collate(f.high, u)), high := 0)
      else g.(valid := false)
    else
      if f.high != 0 then g.(valid := false) else g.(out := g.out + Encode(u))
  }

  function PushRaw(f: State, b: byte): State
  {
    if f.need == 0 then
      if b < 0x80 then f.(out := f.out + [b])
      else if b < 0xC0 then f.(valid := false)
      else if b < 0xE0 then f.(need := 6, code := (b - 0xC0) * 64)
      else if b < 0xF0 then f.(need := 12, code := (b - 0xE0) * 4096)
      else if b < 0xF8 then f.(need := 18, code := (b - 0xF0) * 262144)
      else f.(valid := false)
    else
      var g := if IsTrail(b) then f else f.(valid := false);
      if f.need == 18 then g.(need := 12, code := f.code + b % 64 * 4096)
      else if f.need == 12 then g.(need := 6, code := f.code + b % 64 * 64)
      else PushCode(g.(need := 0, code := 0), f.code + b % 64)
  }

  function Push(f: State, e: Event): State
  {
    match e
    case Raw(b) => PushRaw(f, b)
    case Code(u) => PushCode(f, u)
  }

  predicate Accepting(f: State) {
    f.valid && f.need == 0 && f.high == 0
  }

  lemma PushCodeKeepsInv(f: State, u: nat)
    requires Inv(f)
    ensures Inv(PushCode(f, u))
    ensures PushCode(f, u).need == f.need && PushCode(f, u).code == f.code
    ensures !f.valid || f.need != 0 ==> !PushCode(f, u).valid
  {
    hide Encode, Collate;
  }

  lemma PushRawKeepsInv(f: State, b: byte)
    requires Inv(f)
    ensures Inv(PushRaw(f, b))
    ensures !f.valid ==> !PushRaw(f, b).valid
  {
    hide PushCode;
    if f.need == 18 {
      Placed4(f.code, b);
    } else if f.need == 12 {
      Placed3(f.code, b);
    } else if f.need == 6 {
      var g := (if IsTrail(b) then f else f.(valid := false)).(need := 0, code := 0);
      PushCodeKeepsInv(g, f.code + b % 64);
    }
  }

  // Six more bits keep the prefix aligned and within 21 bits.
  lemma Placed4(code: nat, b: byte)
    requires code % 262144 == 0 && code + 262144 <= 0x20_0000
    ensures var c := code + b % 64 * 4096; c % 4096 == 0 && c + 4096 <= 0x20_0000
  {
  }

  lemma Placed3(code: nat, b: byte)
    requires code % 4096 == 0 && code + 4096 <= 0x20_0000
    ensures var c := code + b % 64 * 64; c % 64 == 0 && c + 64 <= 0x20_0000
  {
  }

  lemma PushKeepsInv(f: State, e: Event)
    requires Inv(f)
    ensures Inv(Push(f, e))
    ensures !f.valid ==> !Push(f, e).valid
  {
    hide PushCode, PushRaw, Inv;
    match e
    case Raw(b) => PushRawKeepsInv(f, b);
    case Code(u) => PushCodeKeepsInv(f, u);
  }

  /** The filter object. `codepoint` is left holding stale bits between
      characters; Model forgets them. */
  class JSONUTF8StringFilter {
    var str: bytes
    var isValid: bool
    var codepoint: uint32
    var state: nat
    var surpair: High

    ghost function Model(): State
      reads this
    {
      State(str, isValid, state, if state == 0 then 0 else codepoint, surpair)
    }

    ghost predicate Valid()
      reads this
    {
      Inv(Model())
    }

    constructor ()
      ensures Valid() && Model() == INITIAL
    {
      str, isValid, codepoint, state, surpair := [], true, 0, 0, 0;
    }

    method PushBack(ch: byte)
      requires Valid()
      modifies this
      ensures Valid() && Model() == PushRaw(old(Model()), ch)
    {
      hide Encode, BitAnd, BitOr, ShiftUp, Shl, PushCode;
      PushRawKeepsInv(Model(), ch);
      if state == 0 {
        if ch < 0x80 {
          str := str + [ch];
        } else if ch < 0xC0 {
          isValid := false;
        } else if ch < 0xE0 {
          Lead2(ch);
          codepoint := Shl(BitAnd(ch, 0x1F), 6);
          state := 6;
        } else if ch < 0xF0 {
          Lead3(ch);
          codepoint := Shl(BitAnd(ch, 0x0F), 12);
          state := 12;
        } else if ch < 0xF8 {
          Lead4(ch);
          codepoint := Shl(BitAnd(ch, 0x07), 18);
          state := 18;
        } else {
          isValid := false;
        }
      } else {
        TopBits(ch);
        if BitAnd(ch, 0xC0) != 0x80 {
          isValid := false;
        }
        state := state - 6;
        TrailArithmetic(codepoint, ch, state);
        codepoint := BitOr(codepoint, Shl(BitAnd(ch, 0x3F), state));
        if state == 0 {
          PushBackU(codepoint);
        }
      }
    }

    method PushBackU(u: uint32)
      requires Valid()
      modifies this
      ensures Valid() && Model() == PushCode(old(Model()), u)
    {
      if state != 0 {
        isValid := false;
      }
      if u >= 0xD800 && u < 0xDC00 {
        if surpair != 0 {
          isValid := false;
        } else {
          surpair := u;
        }
      } else if u >= 0xDC00 && u < 0xE000 {
        if surpair != 0 {
          CollateIsOr(surpair, u);
          AppendCodepoint(BitOr(BitOr(0x10000, Shl(surpair - 0xD800, 10)), u - 0xDC00));
          surpair := 0;
        } else {
          isValid := false;
        }
      } else {
        if surpair != 0 {
          isValid := false;
        } else {
          AppendCodepoint(u);
        }
      }
    }

    method Finalize() returns (ok: bool)
      modifies `isValid
      ensures ok == Accepting(old(Model()))
      ensures Model() == old(Model()).(valid := ok)
    {
      if state != 0 || surpair != 0 {
        isValid := false;
      }
      ok := isValid;
    }

    method AppendCodepoint(c: uint32)
      modifies `str
      ensures str == old(str) + Encode(c)
    {
      hide BitAnd, BitOr, Shr;
      EncodeByBits(c);
      if c <= 0x7F {
        str := str + [c];
      } else if c <= 0x7FF {
        str := str + [BitOr(0xC0, Shr(c, 6))];
        str := str + [BitOr(0x80, BitAnd(c, 0x3F))];
      } else if c <= 0xFFFF {
        str := str + [BitOr(0xE0, Shr(c, 12))];
        str := str + [BitOr(0x80, BitAnd(Shr(c, 6), 0x3F))];
        str := str + [BitOr(0x80, BitAnd(c, 0x3F))];
      } else if c <= 0x1F_FFFF {
        str := str + [BitOr(0xF0, Shr(c, 18))];
        str := str + [BitOr(0x80, BitAnd(Shr(c, 12), 0x3F))];
        str := str + [BitOr(0x80, BitAnd(Shr(c, 6), 0x3F))];
        str := str + [BitOr(0x80, BitAnd(c, 0x3F))];
      }
    }
  }

  // ---- The filter's bit operations, as the arithmetic of the specification ----

  lemma Lead2(ch: byte)
    requires 0xC0 <= ch < 0xE0
    ensures BitAnd(ch, 0x1F) < 32 && Shl(BitAnd(ch, 0x1F), 6) == (ch - 0xC0) * 64
  {
    hide BitAnd, ShiftUp;
    AndMasks(ch);
    assert ch % 32 == ch - 0xC0;
    Shift6(ch - 0xC0);
  }

  lemma Lead3(ch: byte)
    requires 0xE0 <= ch < 0xF0
    ensures BitAnd(ch, 0x0F) < 16 && Shl(BitAnd(ch, 0x0F), 12) == (ch - 0xE0) * 4096
  {
    hide BitAnd, ShiftUp;
    AndMasks(ch);
    assert ch % 16 == ch - 0xE0;
    Shift12(ch - 0xE0);
  }

  lemma Lead4(ch: byte)
    requires 0xF0 <= ch < 0xF8
    ensures BitAnd(ch, 0x07) < 8 && Shl(BitAnd(ch, 0x07), 18) == (ch - 0xF0) * 262144
  {
    hide BitAnd, ShiftUp;
    AndMasks(ch);
    assert ch % 8 == ch - 0xF0;
    Shift18(ch - 0xF0);
  }

  lemma TrailArithmetic(codepoint: uint32, ch: byte, state: nat)
    requires state == 0 || state == 6 || state == 12
    requires codepoint + 64 <= 0x20_0000
    requires state == 0 ==> codepoint % 64 == 0
    requires state == 6 ==> codepoint % 4096 == 0
    requires state == 12 ==> codepoint % 262144 == 0
    ensures BitAnd(ch, 0x3F) == ch % 64
    ensures state == 0 ==> BitOr(codepoint, Shl(ch % 64, 0)) == codepoint + ch % 64
    ensures state == 6 ==> BitOr(codepoint, Shl(ch % 64, 6)) == codepoint + ch % 64 * 64
    ensures state == 12 ==> BitOr(codepoint, Shl(ch % 64, 12)) == codepoint + ch % 64 * 4096
  {
    AndMasks(ch);
    if state == 0 {
      OrPlaced6(codepoint / 64, ch % 64);
    } else if state == 6 {
      OrPlaced12(codepoint / 4096, ch % 64);
    } else {
      OrPlaced18(codepoint / 262144, ch % 64);
    }
  }

  lemma OrPlaced6(h: nat, l: uint32)
    requires l < 64
    ensures BitOr(64 * h, Shl(l, 0)) == 64 * h + l
  {
    hide BitOr, ShiftUp, Shl;
    Shift6(1);
    Shift6(h);
    ShlNothing(l);
    OrDisjoint(h, l, 6);
  }

  lemma ShlNothing(x: uint32)
    ensures Shl(x, 0) == x
  {
  }

  // Shifts of small payloads stay within 32 bits.
  lemma ShlSmall(x: uint32)
    requires x < 1024
    ensures Shl(x, 6) == 64 * x && Shl(x, 10) == 1024 * x && Shl(x, 12) == 4096 * x
  {
    hide ShiftUp;
    Shift6(x);
    Shift10(x);
    Shift12(x);
  }

  lemma OrPlaced12(h: nat, l: uint32)
    requires l < 64
    ensures BitOr(4096 * h, Shl(l, 6)) == 4096 * h + l * 64
  {
    hide BitOr, ShiftUp, Shl;
    Shift12(1);
    Shift12(h);
    ShlSmall(l);
    OrDisjoint(h, l * 64, 12);
  }

  lemma OrPlaced18(h: nat, l: uint32)
    requires l < 64
    ensures BitOr(262144 * h, Shl(l, 12)) == 262144 * h + l * 4096
  {
    hide BitOr, ShiftUp, Shl;
    Shift18(1);
    Shift18(h);
    ShlSmall(l);
    OrDisjoint(h, l * 4096, 18);
  }

  // An or with a lead pattern whose payload bits are clear is an addition.
  lemma OrSmall(top: nat, k: nat, low: nat)
    requires low < ShiftUp(1, k)
    ensures BitOr(ShiftUp(top, k), low) == ShiftUp(top, k) + low
  {
    OrDisjoint(top, low, k);
  }

  lemma OrContinuation(x: nat)
    ensures BitAnd(x, 0x3F) == x % 64
    ensures BitOr(0x80, x % 64) == 0x80 + x % 64
  {
    AndMasks(x);
    Shift6(2);
    Shift6(1);
    OrSmall(2, 6, x % 64);
  }

  lemma OrLeads(x: nat)
    ensures x < 32 ==> BitOr(0xC0, x) == 0xC0 + x
    ensures x < 16 ==> BitOr(0xE0, x) == 0xE0 + x
    ensures x < 8 ==> BitOr(0xF0, x) == 0xF0 + x
  {
    Shift3(1);
    Shift3(24);
    Shift3(28);
    Shift3(30);
    assert ShiftUp(1, 4) == 16 && ShiftUp(1, 5) == 32 by {
      assert ShiftUp(1, 4) == 2 * ShiftUp(1, 3);
    }
    assert ShiftUp(14, 4) == 0xE0 by {
      Shift3(14);
      assert ShiftUp(14, 4) == 2 * ShiftUp(14, 3);
    }
    assert ShiftUp(6, 5) == 0xC0 by {
      Shift3(6);
      assert ShiftUp(6, 4) == 2 * ShiftUp(6, 3);
    }
    if x < 8 {
      OrSmall(30, 3, x);
    }
    if x < 16 {
      OrSmall(14, 4, x);
    }
    if x < 32 {
      OrSmall(6, 5, x);
    }
  }

  lemma EncodeByBits(c: nat)
    ensures Shr(c, 6) == c / 64 && Shr(c, 12) == c / 64 / 64 && Shr(c, 18) == c / 64 / 64 / 64
    ensures BitOr(0x80, BitAnd(c, 0x3F)) == 0x80 + c % 64
    ensures BitOr(0x80, BitAnd(c / 64, 0x3F)) == 0x80 + c / 64 % 64
    ensures BitOr(0x80, BitAnd(c / 64 / 64, 0x3F)) == 0x80 + c / 64 / 64 % 64
    ensures c <= 0x7FF ==> BitOr(0xC0, c / 64) == 0xC0 + c / 64
    ensures c <= 0xFFFF ==> BitOr(0xE0, c / 64 / 64) == 0xE0 + c / 64 / 64
    ensures c <= 0x1F_FFFF ==> BitOr(0xF0, c / 64 / 64 / 64) == 0xF0 + c / 64 / 64 / 64
  {
    hide BitAnd, BitOr, ShiftUp, Shr, Low;
    Shift6(c);
    Shift12(c);
    Shift18(c);
    OrContinuation(c);
    OrContinuation(c / 64);
    OrContinuation(c / 64 / 64);
    OrLeads(c / 64);
    OrLeads(c / 64 / 64);
    OrLeads(c / 64 / 64 / 64);
  }

  // 0x10000 | (hi - 0xD800) << 10 | (lo - 0xDC00) is Collate(hi, lo).
  lemma CollateIsOr(hi: nat, lo: nat)
    requires IsHigh(hi) && IsLow(lo)
    ensures BitOr(BitOr(0x10000, Shl(hi - 0xD800, 10)), lo - 0xDC00) == Collate(hi, lo)
    ensures 0x1_0000 <= Collate(hi, lo) <= 0xF_FFFF
  {
    hide BitOr, ShiftUp, Shl;
    var h, l := hi - 0xD800, lo - 0xDC00;
    ShlSmall(h);
    Shift10(h);
    Shift10(1);
    OrSmall(h, 10, l);
    OrAssociates(0x10000, h * 1024, l);
    Bit16(h * 1024 + l);
  }

  lemma Bit16(v: nat)
    ensures BitOr(0x10000, v) == if v / 0x1_0000 % 2 == 1 then v else v + 0x1_0000
  {
    hide BitOr, ShiftUp, Shr, Low;
    Shift10(64);
    Shift6(1);
    ShiftUpAdd(1, 6, 10);
    Shift6(v);
    Shift10(v / 64);
    ShrAdd(v, 6, 10);
    OrBit(v, 16);
  }
}
