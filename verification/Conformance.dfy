/** The texts read accepts against RFC 8259 in full: UTF-8 (section 8.1), the
    meaning of escapes (section 7), and the inputs on which the two part. */
module Conformance {
  import opened Bytes
  import opened Filter
  import opened FilterRuns
  import opened Grammar
  import opened Numbers
  import opened Reader
  import opened Syntaxes
  import opened Utf8
  import opened Values

  // ---- What a string means ----

  // An escape that names half of a surrogate pair.
  predicate IsHalf(c: StringChar)
    requires ValidChar(c)
  {
    c.Hex? && (IsHigh(CodeUnit(c.digits)) || IsLow(CodeUnit(c.digits)))
  }

  // A character outside the Basic Multilingual Plane: two escapes, high half then low half.
  predicate StartsPair(cs: seq<StringChar>)
    requires ValidChars(cs)
  {
    |cs| > 1 && cs[0].Hex? && cs[1].Hex? && IsHigh(CodeUnit(cs[0].digits)) && IsLow(CodeUnit(cs[1].digits))
  }

  // Halves occur only in such pairs.
  predicate ProperPairs(cs: seq<StringChar>)
    requires ValidChars(cs)
    decreases |cs|
  {
    |cs| == 0 || if StartsPair(cs) then ProperPairs(cs[2..]) else !IsHalf(cs[0]) && ProperPairs(cs[1..])
  }

  // Each pair's high half has the bit clear that decides whether it is joined as RFC 2781 says.
  predicate PairsAgree(cs: seq<StringChar>)
    requires ValidChars(cs)
    decreases |cs|
  {
    |cs| == 0
    || if StartsPair(cs) then (CodeUnit(cs[0].digits) - 0xD800) / 64 % 2 == 0 && PairsAgree(cs[2..])
       else PairsAgree(cs[1..])
  }

  function CharMeaning(c: StringChar): bytes
    requires ValidChar(c)
  {
    match c
    case Plain(b) => [b]
    case Short(letter) => [EscapeMeaning(letter)]
    case Hex(digits) => Encode(CodeUnit(digits))
  }

  // The string in UTF-8, each escape replaced by the character it names.
  function Meaning(cs: seq<StringChar>): bytes
    requires ValidChars(cs)
    decreases |cs|
  {
    if |cs| == 0 then []
    else if StartsPair(cs) then
      Encode(Utf16Value(CodeUnit(cs[0].digits), CodeUnit(cs[1].digits))) + Meaning(cs[2..])
    else CharMeaning(cs[0]) + Meaning(cs[1..])
  }

  // ---- Strings in UTF-8 are whole characters ----

  // Bytes above ASCII stand for themselves.
  lemma PlainStep(cs: seq<StringChar>)
    requires ValidChars(cs) && |CharsText(cs)| > 0 && CharsText(cs)[0] >= 0x80
    ensures |cs| > 0 && cs[0] == Plain(CharsText(cs)[0]) && CharsText(cs)[1..] == CharsText(cs[1..])
  {
    assert CharsText(cs)[0] == CharText(cs[0])[0];
  }

  lemma {:induction false} PlainRun(cs: seq<StringChar>, n: nat)
    requires ValidChars(cs) && n <= |CharsText(cs)|
    requires forall i :: 0 <= i < n ==> CharsText(cs)[i] >= 0x80
    ensures n <= |cs| && forall i :: 0 <= i < n ==> cs[i] == Plain(CharsText(cs)[i])
    ensures CharsText(cs)[n..] == CharsText(cs[n..])
    decreases |cs|
  {
    hide CharsText, ValidChar;
    if n == 0 {
      assert cs[0..] == cs;
    } else {
      PlainStep(cs);
      var s, t := CharsText(cs), CharsText(cs[1..]);
      PlainRun(cs[1..], n - 1);
      assert cs[1..][n - 1..] == cs[n..] && s[n..] == t[n - 1..];
      forall i | 0 <= i < n
        ensures cs[i] == Plain(s[i])
      {
        if i > 0 {
          assert cs[1..][i - 1] == Plain(t[i - 1]);
        }
      }
    }
  }

  lemma {:induction false} PlainMeaning(cs: seq<StringChar>, n: nat)
    requires ValidChars(cs) && n <= |cs| && forall i :: 0 <= i < n ==> cs[i].Plain?
    ensures Meaning(cs) == seq(n, i requires 0 <= i < n => cs[i].b) + Meaning(cs[n..])
    ensures ProperPairs(cs) <==> ProperPairs(cs[n..])
    ensures PairsAgree(cs) <==> PairsAgree(cs[n..])
    decreases n
  {
    if n == 0 {
      assert cs[0..] == cs;
    } else {
      PlainMeaning(cs[1..], n - 1);
      assert cs[1..][n - 1..] == cs[n..];
    }
  }

  // A run of events that opens with one raw character.
  lemma UnitFirst(es: seq<Event>, u: bytes, rest: seq<Event>)
    requires IsUnit(u) && es == RawEvents(u) + rest
    ensures Items(es) == Cons(UnitItem(u), Items(rest))
  {
    hide UnitValue;
    var n := |u|;
    assert es[0] == Raw(u[0]);
    assert forall i :: 0 <= i < n ==> es[i] == Raw(u[i]);
    assert StartsWithUnit(es, n);
    assert UnitBytes(es, n) == u;
    assert es[n..] == rest;
  }

  lemma PointFirst(u: nat, rest: seq<Event>)
    ensures Items([Code(u)] + rest) == Cons(Point(u), Items(rest))
  {
    assert ([Code(u)] + rest)[1..] == rest;
  }

  // What the filter makes of a string against what the string means.
  predicate Agreed(cs: seq<StringChar>)
    requires ValidChars(cs)
  {
    var items := Items(CharEvents(cs));
    items.Some?
    && (ProperPairs(cs) ==>
          && Paired(Points(items.value))
          && |Emit(0, items.value)| == |Meaning(cs)|
          && (Emit(0, items.value) == Meaning(cs) <==> PairsAgree(cs)))
  }

  lemma ConcatEqual<T>(a: seq<T>, b: seq<T>, c: seq<T>, d: seq<T>)
    requires |a| == |c|
    ensures a + b == c + d <==> a == c && b == d
  {
    if a + b == c + d {
      assert a == (a + b)[..|a|] && b == (a + b)[|a|..];
      assert c == (c + d)[..|a|] && d == (c + d)[|a|..];
    }
  }

  // A character that is no surrogate half goes through as it is.
  lemma ItemCase(cs: seq<StringChar>, item: Item, u: bytes, rest: seq<StringChar>)
    requires ValidChars(cs) && ValidChars(rest) && Agreed(rest)
    requires Items(CharEvents(cs)) == Cons(item, Items(CharEvents(rest)))
    requires if item.Ascii? then u == [item.b] else !IsHigh(item.c) && !IsLow(item.c) && u == Encode(item.c)
    requires ProperPairs(cs) ==>
               ProperPairs(rest) && Meaning(cs) == u + Meaning(rest) && (PairsAgree(cs) <==> PairsAgree(rest))
    ensures Agreed(cs)
  {
    hide Encode, Items, CharEvents, Paired, ValidChars, ProperPairs, PairsAgree, Meaning, Collate;
    var more := Items(CharEvents(rest)).value;
    EmitCons(0, item, more);
    hide Emit, Points;
    ConcatEqual(u, Emit(0, more), u, Meaning(rest));
    if item.Ascii? {
      assert [] + Points(more) == Points(more);
    } else {
      PairedStep(0, item.c, Points(more));
      assert Waiting(0) + ([item.c] + Points(more)) == [item.c] + Points(more);
      assert Waiting(0) + Points(more) == Points(more);
    }
  }

  lemma EncodeInjective(c: nat, d: nat)
    requires c <= MAX_CODE && d <= MAX_CODE && Encode(c) == Encode(d)
    ensures c == d
  {
    EncodeIsUnit(c);
    EncodeIsUnit(d);
  }

  lemma SupplementaryLength(c: nat)
    requires 0x1_0000 <= c <= 0x10_FFFF
    ensures |Encode(c)| == 4
  {
  }

  // The encoding of a pair's code point is the right one exactly when the bit is clear.
  lemma PairEncoding(hi: nat, lo: nat)
    requires IsHigh(hi) && IsLow(lo)
    ensures |Encode(Collate(hi, lo))| == |Encode(Utf16Value(hi, lo))|
    ensures Encode(Collate(hi, lo)) == Encode(Utf16Value(hi, lo)) <==> (hi - 0xD800) / 64 % 2 == 0
  {
    hide Encode, Collate;
    SurrogatePair(Filter.INITIAL, hi, lo);
    SupplementaryLength(Collate(hi, lo));
    SupplementaryLength(Utf16Value(hi, lo));
    if Encode(Collate(hi, lo)) == Encode(Utf16Value(hi, lo)) {
      EncodeInjective(Collate(hi, lo), Utf16Value(hi, lo));
    }
  }

  lemma PairedPair(hi: nat, lo: nat, cs: seq<nat>)
    requires IsHigh(hi) && IsLow(lo) && Paired(cs)
    ensures Paired([hi, lo] + cs)
  {
    var w := [hi, lo] + cs;
    assert w[2..] == cs;
    PairedTail2(w);
  }

  // An adjacent pair of escapes is joined into one character.
  lemma PairCase(cs: seq<StringChar>)
    requires ValidChars(cs) && StartsPair(cs) && Agreed(cs[2..])
    ensures Agreed(cs)
  {
    hide CodeUnit, DigitMeaning, EscapeMeaning, Items, Paired, Collate, Encode, Emit;
    var hi, lo, rest := CodeUnit(cs[0].digits), CodeUnit(cs[1].digits), cs[2..];
    assert CharEvents(cs) == [Code(hi)] + ([Code(lo)] + CharEvents(rest));
    PointFirst(hi, [Code(lo)] + CharEvents(rest));
    PointFirst(lo, CharEvents(rest));
    hide CharEvents;
    var more := Items(CharEvents(rest)).value;
    var items := [Point(hi), Point(lo)] + more;
    assert [Point(hi)] + ([Point(lo)] + more) == items;
    PairItems(hi, lo, more);
    PairEncoding(hi, lo);
    ConcatEqual(Encode(Collate(hi, lo)), Emit(0, more), Encode(Utf16Value(hi, lo)), Meaning(rest));
    if ProperPairs(cs) {
      PairedPair(hi, lo, Points(more));
    }
  }

  lemma EmitCons(high: High, item: Item, more: seq<Item>)
    ensures Points([item] + more) == (if item.Point? then [item.c] else []) + Points(more)
    ensures Emit(high, [item] + more) ==
            if item.Ascii? then [item.b] + Emit(high, more)
            else if IsHigh(item.c) then Emit(item.c, more)
            else if IsLow(item.c) && high != 0 then Encode(Collate(high, item.c)) + Emit(0, more)
            else Encode(item.c) + Emit(0, more)
  {
    hide Encode, Collate;
    assert ([item] + more)[1..] == more;
  }

  lemma PairItems(hi: nat, lo: nat, more: seq<Item>)
    requires IsHigh(hi) && IsLow(lo)
    ensures var items := [Point(hi), Point(lo)] + more;
      Emit(0, items) == Encode(Collate(hi, lo)) + Emit(0, more) && Points(items) == [hi, lo] + Points(more)
  {
    hide Encode, Collate, Emit, Points;
    EmitCons(0, Point(hi), [Point(lo)] + more);
    EmitCons(hi, Point(lo), more);
    assert [Point(hi)] + ([Point(lo)] + more) == [Point(hi), Point(lo)] + more;
    assert [hi] + ([lo] + Points(more)) == [hi, lo] + Points(more);
  }

  lemma {:induction false} AsciiPrefix(a: bytes, b: bytes)
    requires Utf8Octets(a + b) && forall i :: 0 <= i < |a| ==> a[i] < 0x80
    ensures Utf8Octets(b)
    decreases |a|
  {
    if |a| == 0 {
      assert a + b == b;
    } else {
      assert (a + b)[1..] == a[1..] + b;
      AsciiPrefix(a[1..], b);
    }
  }

  lemma CharAscii(c: StringChar)
    requires ValidChar(c) && (c.Plain? ==> c.b < 0x80)
    ensures forall i :: 0 <= i < |CharText(c)| ==> CharText(c)[i] < 0x80
    ensures c.Short? ==> EscapeMeaning(c.letter) < 0x80
  {
    hide CodeUnit;
  }

  // The bytes of a character beyond ASCII.
  lemma PlainUnit(cs: seq<StringChar>) returns (n: nat, u: bytes)
    requires ValidChars(cs) && Utf8Octets(CharsText(cs)) && |cs| > 0 && cs[0].Plain? && cs[0].b >= 0x80
    ensures 1 < n <= |cs| && |u| == n && Utf8Char(u) && forall i :: 0 <= i < n ==> cs[i] == Plain(u[i])
    ensures Utf8Octets(CharsText(cs[n..]))
  {
    var s := CharsText(cs);
    assert s[0] == cs[0].b;
    n := 1 + TrailCount(s[0]).value;
    u := s[..n];
    assert forall i :: 0 < i < n ==> IsTrail(u[i]);
    PlainRun(cs, n);
  }

  lemma PlainCase(cs: seq<StringChar>, n: nat, u: bytes)
    requires ValidChars(cs) && 1 < n <= |cs| && |u| == n && Utf8Char(u)
    requires forall i :: 0 <= i < n ==> cs[i] == Plain(u[i])
    requires Agreed(cs[n..])
    ensures Agreed(cs)
  {
    var rest := cs[n..];
    PlainMeaning(cs, n);
    assert seq(n, i requires 0 <= i < n => cs[i].b) == u;
    assert CharEvents(cs) == RawEvents(u) + CharEvents(rest);
    UnitFirst(CharEvents(cs), u, CharEvents(rest));
    Utf8CharIsEncode(u);
    hide Encode, Items, CharEvents, Agreed, ProperPairs, PairsAgree, Meaning;
    ItemCase(cs, UnitItem(u), u, rest);
  }

  // An escape that is no half of a pair, or an ASCII character.
  lemma SingleCase(cs: seq<StringChar>)
    requires ValidChars(cs) && |cs| > 0 && !StartsPair(cs) && (cs[0].Plain? ==> cs[0].b < 0x80)
    requires Agreed(cs[1..])
    ensures Agreed(cs)
  {
    var rest := cs[1..];
    assert CharEvents(cs) == [CharEvent(cs[0])] + CharEvents(rest);
    if cs[0].Hex? {
      var c := CodeUnit(cs[0].digits);
      PointFirst(c, CharEvents(rest));
      hide Encode, Items, CharEvents, CodeUnit;
      if !IsHalf(cs[0]) {
        ItemCase(cs, Point(c), Encode(c), rest);
      }
    } else {
      var b := CharEvent(cs[0]).b;
      CharAscii(cs[0]);
      assert RawEvents([b]) == [Raw(b)];
      UnitFirst(CharEvents(cs), [b], CharEvents(rest));
      hide Encode, Items, CharEvents, Agreed;
      ItemCase(cs, Ascii(b), [b], rest);
    }
  }

  /** A string in UTF-8 consists of whole characters, however it is escaped; and
      if its surrogate escapes come in pairs it is accepted, with the text it
      means exactly when all pairs have the decisive bit clear. */
  lemma {:induction false} Utf8Literal(cs: seq<StringChar>)
    requires ValidChars(cs) && Utf8Octets(CharsText(cs))
    ensures Agreed(cs)
    decreases |cs|
  {
    hide Agreed;
    if |cs| == 0 {
      EmptyAgreed();
      assert cs == [];
    } else if cs[0].Plain? && cs[0].b >= 0x80 {
      var n, u := PlainUnit(cs);
      Utf8Literal(cs[n..]);
      PlainCase(cs, n, u);
    } else {
      CharAscii(cs[0]);
      AsciiPrefix(CharText(cs[0]), CharsText(cs[1..]));
      Utf8Literal(cs[1..]);
      if StartsPair(cs) {
        CharAscii(cs[1]);
        AsciiPrefix(CharText(cs[1]), CharsText(cs[1..][1..]));
        assert cs[1..][1..] == cs[2..];
        Utf8Literal(cs[2..]);
        PairCase(cs);
      } else {
        SingleCase(cs);
      }
    }
  }

  lemma EmptyAgreed()
    ensures Agreed([])
  {
  }

  // ---- The strings of a UTF-8 text are in UTF-8 ----

  lemma NumberFirst(t: bytes)
    requires IsNumber(t)
    ensures |t| > 0 && t[0] < 0x80
  {
    var p :| ValidParts(p) && PartsText(p) == t;
  }

  lemma SpellsFirst(t: bytes, l: Lexeme)
    requires Spells(t, l)
    ensures |t| > 0 && t[0] < 0x80
  {
    hide IsNumber, CharsText;
    if l.Bare? && l.tok.Number? {
      NumberFirst(t);
    }
  }

  lemma LayoutFirst(ps: seq<Piece>, end: bytes, ls: seq<Lexeme>)
    requires IsLayout(Layout(ps) + end, ls, ps, end) && |Layout(ps) + end| > 0
    ensures !IsTrail((Layout(ps) + end)[0])
  {
    hide Spells;
    if |ps| > 0 {
      var p := ps[0];
      SpellsFirst(p.text, ls[0]);
      assert (Layout(ps) + end)[0] == if |p.space| > 0 then p.space[0] else p.text[0];
    }
  }

  lemma LayoutRest(ps: seq<Piece>, end: bytes, ls: seq<Lexeme>)
    requires IsLayout(Layout(ps) + end, ls, ps, end) && |ps| > 0
    ensures IsLayout(Layout(ps[1..]) + end, ls[1..], ps[1..], end)
  {
    hide Spells, Layout;
    assert forall i :: 0 <= i < |ps| - 1 ==> ps[1..][i] == ps[i + 1] && ls[1..][i] == ls[i + 1];
  }

  lemma {:induction false} LayoutUtf8(ps: seq<Piece>, end: bytes, ls: seq<Lexeme>, i: nat)
    requires IsLayout(Layout(ps) + end, ls, ps, end) && Utf8Octets(Layout(ps) + end) && i < |ps|
    ensures Utf8Octets(ps[i].text) && Spells(ps[i].text, ls[i])
    decreases i
  {
    hide Spells, Utf8Octets;
    var p, rest := ps[0], Layout(ps[1..]) + end;
    assert Layout(ps) + end == p.space + (p.text + rest);
    LayoutRest(ps, end, ls);
    if rest != [] {
      LayoutFirst(ps[1..], end, ls[1..]);
    }
    SpellsFirst(p.text, ls[0]);
    Utf8Cut(p.space, p.text + rest);
    Utf8Cut(p.text, rest);
    if i > 0 {
      LayoutUtf8(ps[1..], end, ls[1..], i - 1);
    }
  }

  lemma QuotedUtf8(cs: seq<StringChar>)
    requires Utf8Octets([QUOTE] + CharsText(cs) + [QUOTE])
    ensures Utf8Octets(CharsText(cs))
  {
    Utf8Cut([QUOTE] + CharsText(cs), [QUOTE]);
    AsciiPrefix([QUOTE], CharsText(cs));
  }

  // Every string of a text, names included, has the property.
  predicate AllStrings(t: Syntax, ok: seq<StringChar> -> bool) {
    forall i :: 0 <= i < |Lexemes(t)| && Lexemes(t)[i].Quoted? ==> ok(Lexemes(t)[i].chars)
  }

  predicate HalvesPaired(cs: seq<StringChar>) {
    ValidChars(cs) && Items(CharEvents(cs)).Some? ==> Paired(Points(Items(CharEvents(cs)).value))
  }

  predicate Proper(cs: seq<StringChar>) {
    ValidChars(cs) && ProperPairs(cs)
  }

  lemma Utf8Strings(s: bytes, t: Syntax, i: nat)
    requires JsonText(s, t) && Utf8Octets(s) && i < |Lexemes(t)| && Lexemes(t)[i].Quoted?
    ensures var cs := Lexemes(t)[i].chars; ValidChars(cs) && Agreed(cs)
  {
    hide Lexemes, Utf8Octets, Agreed;
    var ps: seq<Piece>, end: bytes :| IsLayout(s, Lexemes(t), ps, end);
    assert s == Layout(ps) + end;
    LayoutUtf8(ps, end, Lexemes(t), i);
    QuotedUtf8(Lexemes(t)[i].chars);
    Utf8Literal(Lexemes(t)[i].chars);
  }

  /** RFC 8259 asks for UTF-8. Of the JSON texts in UTF-8, read rejects exactly
      those with a surrogate escape out of place. */
  lemma Utf8TextRead(s: bytes, t: Syntax)
    requires JsonText(s, t) && Utf8Octets(s)
    ensures Read(s).ok <==> AllStrings(t, HalvesPaired)
    ensures Read(s).ok ==> Read(s).tree == Stored(t)
  {
    hide Utf8Octets, Read, Items, CharEvents, Points, Paired, Stored, Lexemes, ProperPairs, JsonText;
    JsonTextRead(s, t);
    forall i | 0 <= i < |Lexemes(t)|
      ensures SoundLexeme(Lexemes(t)[i]) <==> (Lexemes(t)[i].Quoted? ==> HalvesPaired(Lexemes(t)[i].chars))
    {
      if Lexemes(t)[i].Quoted? {
        Utf8Strings(s, t, i);
      }
    }
  }

  /** If surrogate escapes come in adjacent pairs, as section 7 has them, the text
      is accepted, and a string is stored with the text it means exactly when
      each of its pairs has the decisive bit clear. */
  lemma ProperTextRead(s: bytes, t: Syntax)
    requires JsonText(s, t) && Utf8Octets(s) && AllStrings(t, Proper)
    ensures Read(s) == ReadResult(true, Stored(t))
    ensures forall i :: 0 <= i < |Lexemes(t)| && Lexemes(t)[i].Quoted? ==>
              var cs := Lexemes(t)[i].chars; (StringText(cs) == Meaning(cs) <==> PairsAgree(cs))
  {
    hide Utf8Octets, Read, Items, CharEvents, Points, Paired, Stored, Lexemes, ProperPairs, JsonText;
    hide Meaning, PairsAgree;
    JsonTextRead(s, t);
    forall i | 0 <= i < |Lexemes(t)| && Lexemes(t)[i].Quoted?
      ensures var cs := Lexemes(t)[i].chars; LiteralSound(cs) && (StringText(cs) == Meaning(cs) <==> PairsAgree(cs))
    {
      Utf8Strings(s, t, i);
      assert Proper(Lexemes(t)[i].chars);
    }
    assert Sound(t);
  }

  // What read accepts is RFC 8259 in full exactly when it is UTF-8 and no lone minus sign.
  lemma AcceptedIsJson(s: bytes)
    requires Read(s).ok
    ensures (exists t :: JsonText(s, t)) <==> !MinusText(s)
  {
    hide Read, JsonText, MinusText, Sound, Stored;
    ReadIsJson(s, Read(s).tree);
    if t :| JsonText(s, t) {
      MinusIsNoJson(s, t);
    }
  }

  // ---- Inputs on which read and RFC 8259 part ----

  // A text that is one string.
  lemma StringTextRead(cs: seq<StringChar>)
    requires ValidChars(cs)
    ensures var s := [QUOTE] + CharsText(cs) + [QUOTE];
      && JsonText(s, JString(cs))
      && Read(s).ok == LiteralSound(cs)
      && (LiteralSound(cs) ==> Read(s) == ReadResult(true, Leaf(VSTR, StringText(cs))))
  {
    hide LiteralSound, StringText, Read, CharsText, ValidChars;
    var s := [QUOTE] + CharsText(cs) + [QUOTE];
    var ps := [Piece([], s)];
    assert ps[1..] == [] && Layout(ps) + [] == s;
    assert IsLayout(s, Lexemes(JString(cs)), ps, []);
    JsonTextRead(s, JString(cs));
    assert Lexemes(JString(cs)) == [Quoted(cs)];
    assert Sound(JString(cs)) <==> SoundLexeme([Quoted(cs)][0]);
  }

  lemma CharsOf1(a: StringChar)
    requires ValidChar(a)
    ensures ValidChars([a]) && CharsText([a]) == CharText(a) && CharEvents([a]) == [CharEvent(a)]
  {
    hide CharText, CharEvent, ValidChar;
    assert [a][1..] == [];
  }

  lemma CharsCons(a: StringChar, cs: seq<StringChar>)
    requires ValidChar(a) && ValidChars(cs)
    ensures ValidChars([a] + cs)
    ensures CharsText([a] + cs) == CharText(a) + CharsText(cs)
    ensures CharEvents([a] + cs) == [CharEvent(a)] + CharEvents(cs)
  {
    hide CharText, CharEvent, ValidChar;
    assert ([a] + cs)[1..] == cs;
  }

  lemma CharsConcat(a: StringChar, b: StringChar)
    requires ValidChar(a) && ValidChar(b)
    ensures ValidChars([a, b]) && CharsText([a, b]) == CharText(a) + CharText(b)
    ensures CharEvents([a, b]) == [CharEvent(a), CharEvent(b)]
  {
    hide CharText, CharEvent, ValidChar, CharsText, CharEvents, ValidChars;
    CharsOf1(b);
    CharsCons(a, [b]);
    assert [a] + [b] == [a, b];
  }

  // An escape naming half of a pair, alone in a string, is a JSON text in UTF-8 and is rejected.
  lemma LoneHalf(d: bytes)
    requires Digits4(d) && (IsHigh(CodeUnit(d)) || IsLow(CodeUnit(d)))
    ensures var s := [QUOTE] + CharText(Hex(d)) + [QUOTE];
      Utf8Octets(s) && JsonText(s, JString([Hex(d)])) && !Read(s).ok
  {
    hide CodeUnit, DigitMeaning, Read, Utf8Octets;
    var cs, u := [Hex(d)], CodeUnit(d);
    CharsOf1(Hex(d));
    HexAscii(d);
    AsciiUtf8([QUOTE] + CharText(Hex(d)) + [QUOTE]);
    StringTextRead(cs);
    hide CharsText, CharText;
    PointFirst(u, []);
    assert [Code(u)] + [] == CharEvents(cs) && [Point(u)] + [] == [Point(u)];
    assert Items([]) == Some([]);
    assert Points([Point(u)]) == [u];
    assert [u][0] == u;
  }

  lemma HexAscii(d: bytes)
    requires Digits4(d)
    ensures forall i :: 0 <= i < 4 ==> d[i] < 0x80
  {
    hide CodeUnit;
    assert DigitMeaning(d[0]).Some? && DigitMeaning(d[1]).Some? && DigitMeaning(d[2]).Some? && DigitMeaning(d[3]).Some?;
  }

  // "\uDEAD"
  lemma LoneHalfRejected()
    ensures var s: bytes := [0x22, 0x5C, 0x75, 0x44, 0x45, 0x41, 0x44, 0x22];
      Utf8Octets(s) && (exists t :: JsonText(s, t)) && !Read(s).ok
  {
    hide Read, Utf8Octets, JsonText;
    var d: bytes := [0x44, 0x45, 0x41, 0x44];
    hide CodeUnit;
    LoneHalf(d);
    var s: bytes := [0x22, 0x5C, 0x75, 0x44, 0x45, 0x41, 0x44, 0x22];
    assert [QUOTE] + CharText(Hex(d)) + [QUOTE] == s;
    assert JsonText(s, JString([Hex(d)]));
  }

  lemma {:induction false} AsciiUtf8(s: bytes)
    requires forall i :: 0 <= i < |s| ==> s[i] < 0x80
    ensures Utf8Octets(s)
  {
    if |s| > 0 {
      AsciiUtf8(s[1..]);
    }
  }

  lemma PlainUnitRead(u: bytes)
    requires IsUnit(u) && |u| > 1
    requires !IsHigh(UnitValue(u)) && !IsLow(UnitValue(u))
    ensures Read([QUOTE] + u + [QUOTE]) == ReadResult(true, Leaf(VSTR, Encode(UnitValue(u))))
  {
    var c := UnitValue(u);
    var cs := seq(|u|, i requires 0 <= i < |u| => Plain(u[i]));
    PlainText(u, cs);
    assert CharEvents(cs) == RawEvents(u) + [];
    UnitFirst(CharEvents(cs), u, []);
    hide Encode, Read, IsUnit, UnitValue, CharEvents;
    assert [Point(c)] + [] == [Point(c)];
    assert Items([]) == Some([]);
    assert Points([Point(c)]) == [c];
    PairedTail([c]);
    assert Emit(0, [Point(c)]) == Encode(c) + [];
    StringTextRead(cs);
  }

  lemma {:induction false} PlainText(u: bytes, cs: seq<StringChar>)
    requires |cs| == |u| && forall i :: 0 <= i < |u| ==> cs[i] == Plain(u[i]) && u[i] >= 0x80
    ensures ValidChars(cs) && CharsText(cs) == u
  {
    if |u| > 0 {
      PlainText(u[1..], cs[1..]);
      assert u == [u[0]] + u[1..];
    }
  }

  const OVERLONG: bytes := [0xC0, 0x80]
  const BEYOND: bytes := [0xF4, 0x90, 0x80, 0x80]

  lemma ForeignUnits()
    ensures IsUnit(OVERLONG) && UnitValue(OVERLONG) == 0 && Encode(0) == [NUL] && !Utf8Char(OVERLONG)
    ensures IsUnit(BEYOND) && UnitValue(BEYOND) == 0x11_0000 && Encode(0x11_0000) == BEYOND && !Utf8Char(BEYOND)
  {
  }

  // The overlong form C0 80 is no UTF-8; it is accepted as NUL.
  lemma OverlongAccepted()
    ensures !Utf8Octets([QUOTE] + OVERLONG + [QUOTE])
    ensures Read([QUOTE] + OVERLONG + [QUOTE]) == ReadResult(true, Leaf(VSTR, [NUL]))
  {
    hide Encode, UnitValue, IsUnit, Read, Utf8Octets, Utf8Char;
    ForeignUnits();
    PlainUnitRead(OVERLONG);
    NotUtf8Unit(OVERLONG);
  }

  // F4 90 80 80 lies beyond Unicode; it is accepted as it is.
  lemma BeyondUnicodeAccepted()
    ensures !Utf8Octets([QUOTE] + BEYOND + [QUOTE])
    ensures Read([QUOTE] + BEYOND + [QUOTE]) == ReadResult(true, Leaf(VSTR, BEYOND))
  {
    hide Encode, UnitValue, IsUnit, Read, Utf8Octets, Utf8Char;
    ForeignUnits();
    PlainUnitRead(BEYOND);
    NotUtf8Unit(BEYOND);
  }

  lemma NotUtf8Unit(u: bytes)
    requires IsUnit(u) && !Utf8Char(u)
    ensures !Utf8Octets([QUOTE] + u + [QUOTE])
  {
    var s := [QUOTE] + u + [QUOTE];
    assert u[..|u|] == u;
    hide Utf8Char;
    if Utf8Octets(s) {
      Utf8Cut([QUOTE] + u, [QUOTE]);
      AsciiPrefix([QUOTE], u);
    }
  }

  /** A pair of escapes with one ASCII character between its halves is accepted:
      the character comes out first and the pair is joined behind it. */
  lemma PairAcross(h: bytes, b: byte, l: bytes)
    requires Digits4(h) && Digits4(l) && IsHigh(CodeUnit(h)) && IsLow(CodeUnit(l))
    requires ValidChar(Plain(b)) && b < 0x80
    ensures Read([QUOTE] + (CharText(Hex(h)) + ([b] + CharText(Hex(l)))) + [QUOTE]) ==
            ReadResult(true, Leaf(VSTR, [b] + Encode(Collate(CodeUnit(h), CodeUnit(l)))))
  {
    hide CodeUnit, DigitMeaning, Read, CharText, Collate, Encode, CharsText, CharEvents;
    var hi, lo := CodeUnit(h), CodeUnit(l);
    CharsConcat(Plain(b), Hex(l));
    var cs := [Hex(h)] + [Plain(b), Hex(l)];
    CharsCons(Hex(h), [Plain(b), Hex(l)]);
    StringTextRead(cs);
    AcrossEvents(hi, b, lo);
    assert CharEvents(cs) == [Code(hi)] + [Raw(b), Code(lo)];
    assert CharText(Plain(b)) == [b] by {
      PlainCharText(b);
    }
    assert [QUOTE] + CharsText(cs) + [QUOTE] == [QUOTE] + (CharText(Hex(h)) + ([b] + CharText(Hex(l)))) + [QUOTE];
  }

  lemma PlainCharText(b: byte)
    ensures CharText(Plain(b)) == [b]
  {
  }

  lemma AcrossEvents(hi: nat, b: byte, lo: nat)
    requires IsHigh(hi) && IsLow(lo) && b < 0x80
    ensures var items := Items([Code(hi)] + [Raw(b), Code(lo)]);
      && items.Some? && Paired(Points(items.value))
      && Emit(0, items.value) == [b] + Encode(Collate(hi, lo))
  {
    hide Encode, Collate;
    assert [Raw(b), Code(lo)] == RawEvents([b]) + [Code(lo)];
    assert [Code(lo)] == [Code(lo)] + [];
    PointFirst(lo, []);
    UnitFirst([Raw(b), Code(lo)], [b], [Code(lo)]);
    PointFirst(hi, [Raw(b), Code(lo)]);
    hide Items;
    AcrossItems(hi, b, lo);
    assert Items([]) == Some([]) by {
      NoItems();
    }
    assert [Point(hi)] + ([Ascii(b)] + ([Point(lo)] + [])) == [Point(hi), Ascii(b), Point(lo)];
  }

  lemma NoItems()
    ensures Items([]) == Some([])
  {
  }

  lemma AcrossItems(hi: nat, b: byte, lo: nat)
    requires IsHigh(hi) && IsLow(lo)
    ensures var items := [Point(hi), Ascii(b), Point(lo)];
      Paired(Points(items)) && Emit(0, items) == [b] + Encode(Collate(hi, lo))
  {
    hide Encode, Collate, Emit, Points, Paired;
    EmitCons(hi, Point(lo), []);
    EmitCons(hi, Ascii(b), [Point(lo)]);
    EmitCons(0, Point(hi), [Ascii(b), Point(lo)]);
    assert [Point(lo)] + [] == [Point(lo)] && [Ascii(b)] + [Point(lo)] == [Ascii(b), Point(lo)];
    assert [Point(hi)] + [Ascii(b), Point(lo)] == [Point(hi), Ascii(b), Point(lo)];
    NothingEmitted();
    PairedPair(hi, lo, []);
    assert Encode(Collate(hi, lo)) + [] == Encode(Collate(hi, lo));
    assert [lo] + [] == [lo] && [] + [lo] == [lo] && [hi, lo] + [] == [hi] + [lo];
  }

  lemma NothingEmitted()
    ensures Emit(0, []) == [] && Points([]) == [] && Paired([])
  {
  }

  /** A pair of escapes is stored as the collated code point; it means the one RFC 2781 gives. */
  lemma EscapedPair(h: bytes, l: bytes)
    requires Digits4(h) && Digits4(l) && IsHigh(CodeUnit(h)) && IsLow(CodeUnit(l))
    ensures var cs := [Hex(h), Hex(l)];
      && ValidChars(cs) && Meaning(cs) == Encode(Utf16Value(CodeUnit(h), CodeUnit(l)))
    ensures Read([QUOTE] + (CharText(Hex(h)) + CharText(Hex(l))) + [QUOTE]) ==
            ReadResult(true, Leaf(VSTR, Encode(Collate(CodeUnit(h), CodeUnit(l)))))
  {
    hide CodeUnit, DigitMeaning, Read, CharText, Collate, Encode, CharsText, CharEvents;
    var hi, lo := CodeUnit(h), CodeUnit(l);
    var cs := [Hex(h), Hex(l)];
    CharsConcat(Hex(h), Hex(l));
    assert cs[2..] == [];
    StringTextRead(cs);
    PointFirst(lo, []);
    PointFirst(hi, [Code(lo)] + []);
    assert CharEvents(cs) == [Code(hi)] + ([Code(lo)] + []);
    NoItems();
    hide Items;
    PairItems(hi, lo, []);
    PairedPair(hi, lo, []);
    assert [Point(hi)] + ([Point(lo)] + []) == [Point(hi), Point(lo)] + [];
  }

  const D840_DIGITS: bytes := [0x64, 0x38, 0x34, 0x30]
  const D800_DIGITS: bytes := [0x64, 0x38, 0x30, 0x30]
  const DC00_DIGITS: bytes := [0x64, 0x63, 0x30, 0x30]

  lemma DigitMeanings()
    ensures Digits4(D840_DIGITS) && CodeUnit(D840_DIGITS) == 0xD840
    ensures Digits4(D800_DIGITS) && CodeUnit(D800_DIGITS) == 0xD800
    ensures Digits4(DC00_DIGITS) && CodeUnit(DC00_DIGITS) == 0xDC00
  {
  }

  // The escape of four digits, as bytes.
  function Escaped(d: bytes): bytes {
    [BACKSLASH, 0x75] + d
  }

  lemma CollatedPlanes()
    ensures Collate(0xD840, 0xDC00) == 0x1_0000 && Utf16Value(0xD840, 0xDC00) == 0x2_0000
    ensures Collate(0xD800, 0xDC00) == 0x1_0000 && Encode(0x1_0000) == [0xF0, 0x90, 0x80, 0x80]
  {
    SurrogateCounterexample();
  }

  // "\ud840\udc00" means U+20000 and is stored as U+10000.
  lemma WrongPlane()
    ensures Read([QUOTE] + (Escaped(D840_DIGITS) + Escaped(DC00_DIGITS)) + [QUOTE]) ==
            ReadResult(true, Leaf(VSTR, Encode(0x1_0000)))
    ensures var cs := [Hex(D840_DIGITS), Hex(DC00_DIGITS)];
      && ValidChars(cs) && CharsText(cs) == Escaped(D840_DIGITS) + Escaped(DC00_DIGITS)
      && Meaning(cs) == Encode(0x2_0000)
  {
    hide CodeUnit, Encode, Read, Meaning, ValidChars, DigitMeaning, Digits4, CharsText, Collate;
    CollatedPlanes();
    DigitMeanings();
    CharsConcat(Hex(D840_DIGITS), Hex(DC00_DIGITS)) by {
      assert ValidChar(Hex(D840_DIGITS)) && ValidChar(Hex(DC00_DIGITS)) by {
        DigitsValid(D840_DIGITS);
        DigitsValid(DC00_DIGITS);
      }
    }
    EscapedPair(D840_DIGITS, DC00_DIGITS);
  }

  lemma DigitsValid(d: bytes)
    requires Digits4(d)
    ensures ValidChar(Hex(d))
  {
  }

  // "\ud800x\udc00" is stored as the x and U+10000.
  lemma PairAcrossLetter()
    ensures Read([QUOTE] + (Escaped(D800_DIGITS) + ([0x78] + Escaped(DC00_DIGITS))) + [QUOTE]) ==
            ReadResult(true, Leaf(VSTR, [0x78] + [0xF0, 0x90, 0x80, 0x80]))
  {
    hide CodeUnit, Encode, Read, DigitMeaning, Digits4, Collate;
    CollatedPlanes();
    DigitMeanings();
    PairAcross(D800_DIGITS, 0x78, DC00_DIGITS);
  }
}
