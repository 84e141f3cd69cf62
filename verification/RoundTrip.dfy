/** Reading back what was written, and writing what was read. */
module RoundTrip {
  import opened Bytes
  import opened Lexer
  import opened Numbers
  import opened Reader
  import opened TokenLists
  import opened Values
  import opened Writer

  // Pretty printing is invisible to the lexer: any indentation gives the value's token list.
  lemma PrettyPrintIrrelevant(v: Value, p: nat, level: nat)
    requires WellFormed(v)
    ensures Writable(v)
    ensures LexAll(Text(v, p, level)) == Some(Flatten(v))
  {
    hide LexAll, Text, Flatten, WellFormed;
    WellFormedShape(v);
    LexText(v, p, level, []);
    LexEmpty();
    assert Text(v, p, level) + [] == Text(v, p, level);
    assert Flatten(v) + [] == Flatten(v);
  }

  // The minus sign that ends the input, the one ill-formed value that survives.
  lemma LoneMinusReads(p: nat, level: nat)
    ensures Text(LONE_MINUS, p, level) == [MINUS]
    ensures Read([MINUS]) == ReadResult(true, LONE_MINUS)
  {
    var s := [MINUS];
    SpaceCountUnique(s, 0);
    assert s[0..] == s;
    LoneMinus(s, 1);
    ScanExact(s, 1);
    assert LexToken(s) == Lexed(Number(s), 1);
    LexEmpty();
    assert s[1..] == [];
    assert Flatten(LONE_MINUS) == [Number(s)];
    ReadExact(s, LONE_MINUS);
  }

  /** The round trip, exactly: for every value that can be written at all and
      every indentation, reading the text gives the value back if and only if
      the value is well-formed or is the number "-". */
  lemma ReadOfWrite(v: Value, p: nat, level: nat)
    requires Writable(v)
    ensures Read(Text(v, p, level)) == ReadResult(true, v) <==> WellFormed(v) || v == LONE_MINUS
  {
    hide LexAll, Read, Text, WellFormed, Flatten;
    if WellFormed(v) {
      WellFormedShape(v);
      PrettyPrintIrrelevant(v, p, level);
      ReadExact(Text(v, p, level), v);
    }
    LoneMinusReads(p, level);
    if Read(Text(v, p, level)) == ReadResult(true, v) {
      ReadWellFormed(Text(v, p, level));
    }
  }

  // Whitespace after the text changes nothing.
  lemma ReadOfWriteThenSpace(v: Value, p: nat, level: nat, w: bytes)
    requires WellFormed(v) && AllSpace(w)
    ensures Writable(v)
    ensures Read(Text(v, p, level) + w) == ReadResult(true, v)
  {
    hide LexAll, Text, Flatten, WellFormed, Read;
    WellFormedShape(v);
    LexText(v, p, level, w);
    LexAllSkipsSpace(w, []);
    LexEmpty();
    assert w + [] == w;
    assert Flatten(v) + [] == Flatten(v);
    ReadExact(Text(v, p, level) + w, v);
  }

  /** Read then write normalises: what was read can be written, reads back as the
      same value, and writing that again gives the same text. */
  lemma WriteOfRead(s: bytes, p: nat, level: nat)
    requires Read(s).ok
    ensures Writable(Read(s).tree)
    ensures Read(Text(Read(s).tree, p, level)) == Read(s)
    ensures var t := Text(Read(s).tree, p, level);
      Writable(Read(t).tree) && Text(Read(t).tree, p, level) == t
  {
    hide Read, Text, WellFormed, Shape;
    var v := Read(s).tree;
    ReadExact(s, v);
    ShapeWritable(v);
    ReadWellFormed(s);
    ReadOfWrite(v, p, level);
  }

  // The values read can produce are exactly the well-formed ones and the number "-".
  lemma ReadImage(v: Value)
    ensures (exists s :: Read(s) == ReadResult(true, v)) <==> WellFormed(v) || v == LONE_MINUS
  {
    hide Read, Text, WellFormed;
    if s :| Read(s) == ReadResult(true, v) {
      ReadWellFormed(s);
    }
    LoneMinusReads(0, 0);
    if WellFormed(v) {
      PrettyPrintIrrelevant(v, 0, 0);
      ReadOfWrite(v, 0, 0);
    }
  }

  // Different well-formed values never share a text, whatever the indentations.
  lemma TextInjective(v: Value, w: Value, p: nat, q: nat, k: nat, l: nat)
    requires WellFormed(v) && WellFormed(w)
    ensures Writable(v) && Writable(w)
    ensures Text(v, p, k) == Text(w, q, l) ==> v == w
  {
    hide Read, Text, WellFormed;
    PrettyPrintIrrelevant(v, p, k);
    PrettyPrintIrrelevant(w, q, l);
    ReadOfWrite(v, p, k);
    ReadOfWrite(w, q, l);
  }
}
