/** Integers through UniValue: stored, fetched, written and read back. */
module IntegerRoundTrip {
  import opened Integers
  import opened Numbers
  import opened Reader
  import opened RoundTrip
  import opened UniValueClass
  import opened Values
  import opened Writer

  // What setInt stores for n.
  function IntValue(n: int): Value {
    Leaf(VNUM, PrintInt(n))
  }

  /** Whatever setInt stored is well-formed and comes back from its text; get_int64
      returns it exactly when it fits int64 (so a uint64 above 2^63-1 throws), and
      get_int exactly when it fits int32. */
  lemma StoredInteger(n: int, p: nat, level: nat)
    ensures WellFormed(IntValue(n)) && Writable(IntValue(n))
    ensures Read(Text(IntValue(n), p, level)) == ReadResult(true, IntValue(n))
    ensures IntegerIn(IntValue(n).val, INT64_MIN, INT64_MAX)
            == if INT64_MIN <= n <= INT64_MAX then Got(n) else Thrown(INTEGER_RANGE)
    ensures IntegerIn(IntValue(n).val, INT32_MIN, INT32_MAX)
            == if INT32_MIN <= n <= INT32_MAX then Got(n) else Thrown(INTEGER_RANGE)
  {
    hide PrintInt, IsNumber, Denotes, Read;
    PrintIsNumber(n);
    PrintDenotes(n);
    ReadOfWrite(IntValue(n), p, level);
  }

  /** On any number of the grammar the integer getters succeed exactly when it has
      no fraction, no exponent and a value in range, and return that value. */
  lemma GrammarInteger(p: Parts, lo: int, hi: int)
    requires ValidParts(p)
    ensures IntegerIn(PartsText(p), lo, hi).Got? <==>
            p.frac.None? && p.exp.None? && lo <= Signed(p.minus, DecimalValue(p.whole)) <= hi
    ensures IntegerIn(PartsText(p), lo, hi).Got? ==>
              IntegerIn(PartsText(p), lo, hi).value == Signed(p.minus, DecimalValue(p.whole))
  {
    hide PartsText, Denotes, DecimalValue;
    NumberDenotes(p);
  }
}
