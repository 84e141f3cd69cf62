/** What write prints, byte by byte: compact text is the tokens and nothing else,
    pretty text is a list of indented lines. */
module Printing {
  import opened Bytes
  import opened Integers
  import opened Numbers
  import opened Strings
  import opened Syntaxes
  import opened Utf8
  import opened Values
  import opened Writer

  // ---- The escape table ----

  // Control characters, the quotation mark, the reverse solidus and DEL.
  predicate MustEscape(b: byte) {
    b < 0x20 || b == 0x22 || b == 0x5C || b == 0x7F
  }

  // The bytes written with a letter: backspace, tab, line feed, form feed, carriage return, quotation
  // mark and reverse solidus.
  predicate HasLetter(b: byte) {
    b == 0x08 || b == 0x09 || b == 0x0A || b == 0x0C || b == 0x0D || b == 0x22 || b == 0x5C
  }

  predicate LowerDigits(d: bytes) {
    Digits4(d) && forall i :: 0 <= i < 4 ==> !(0x41 <= d[i] <= 0x46)
  }

  // What must be escaped is written with its letter if it has one, else as \u and four lower-case
  // digits of its value; everything else stands for itself.
  lemma EscapeTable(b: byte)
    ensures !MustEscape(b) ==> EscapeByte(b) == [b]
    ensures MustEscape(b) && HasLetter(b) ==>
              var e := EscapeByte(b);
              |e| == 2 && e[0] == 0x5C && IsEscapeLetter(e[1]) && EscapeMeaning(e[1]) == b
    ensures MustEscape(b) && !HasLetter(b) ==>
              var e := EscapeByte(b);
              |e| == 6 && e[0] == 0x5C && e[1] == 0x75 && LowerDigits(e[2..]) && CodeUnit(e[2..]) == b
  {
    if MustEscape(b) && !HasLetter(b) {
      var d := EscapeByte(b)[2..];
      assert d == [0x30, 0x30, HexDigit(b / 16), HexDigit(b % 16)];
      LowerDigit(b / 16);
      LowerDigit(b % 16);
    }
  }

  lemma LowerDigit(n: nat)
    requires n < 16
    ensures DigitMeaning(HexDigit(n)) == Some(n) && !(0x41 <= HexDigit(n) <= 0x46)
  {
  }

  // ---- Compact text ----

  function TokenText(t: Token): bytes {
    match t
    case ObjOpen => [0x7B]
    case ObjClose => [0x7D]
    case ArrOpen => [0x5B]
    case ArrClose => [0x5D]
    case Colon => [0x3A]
    case Comma => [0x2C]
    case KwNull => [0x6E, 0x75, 0x6C, 0x6C]
    case KwTrue => [0x74, 0x72, 0x75, 0x65]
    case KwFalse => [0x66, 0x61, 0x6C, 0x73, 0x65]
    case Number(text) => text
    case String(text) => [0x22] + Escape(text) + [0x22]
    case _ => []
  }

  // The tokens one after the other, with nothing between them.
  function TokensText(ts: seq<Token>): bytes {
    if |ts| == 0 then [] else TokensText(ts[..|ts| - 1]) + TokenText(ts[|ts| - 1])
  }

  lemma {:induction false} TokensTextConcat(a: seq<Token>, b: seq<Token>)
    ensures TokensText(a + b) == TokensText(a) + TokensText(b)
    decreases |b|
  {
    hide TokenText;
    if |b| == 0 {
      assert a + b == a;
    } else {
      var n := |b| - 1;
      assert (a + b)[..|a| + n] == a + b[..n];
      TokensTextConcat(a, b[..n]);
      Concat3(TokensText(a), TokensText(b[..n]), TokenText(b[n]));
    }
  }

  lemma TokensTextOne(t: Token)
    ensures TokensText([t]) == TokenText(t)
  {
    hide TokenText;
    assert [t][..0] == [];
  }

  lemma ScalarText(v: Value, p: nat, level: nat)
    requires Shape(v) && v.typ != VARR && v.typ != VOBJ
    ensures |Flatten(v)| == 1 && Text(v, p, level) == TokenText(Flatten(v)[0])
  {
    hide Escape;
  }

  lemma CompactBrackets(open: bytes, body: bytes, close: bytes, level: nat)
    requires level > 0
    ensures InBrackets(open, body, close, 0, level) == open + body + close
  {
  }

  /** Without pretty printing, the text of a value is its tokens, spelled, and not
      a byte more, at any level. */
  lemma {:induction false} CompactText(v: Value, level: nat)
    requires Shape(v)
    ensures Writable(v)
    ensures Text(v, 0, level) == TokensText(Flatten(v))
    decreases v
  {
    hide TokensText, InBrackets, Elements, Members;
    ShapeWritable(v);
    var inner := if level == 0 then 1 else level;
    if v.typ == VARR {
      assert v.values[..|v.values|] == v.values;
      CompactItemsText(v.values, |v.values|, inner);
      CompactBrackets([LBRACKET], Items(v.values, |v.values|, 0, inner), [RBRACKET], inner);
      BracketsText(ArrOpen, Elements(v.values), ArrClose);
    } else if v.typ == VOBJ {
      assert v.values[..|v.values|] == v.values && v.keys[..|v.keys|] == v.keys;
      CompactPairsText(v.keys, v.values, |v.keys|, inner);
      CompactBrackets([LBRACE], Pairs(v.keys, v.values, |v.keys|, 0, inner), [RBRACE], inner);
      BracketsText(ObjOpen, Members(v.keys, v.values), ObjClose);
    } else {
      ScalarText(v, 0, level);
      TokensTextOne(Flatten(v)[0]);
      assert Flatten(v) == [Flatten(v)[0]];
    }
  }

  lemma BracketsText(open: Token, ts: seq<Token>, close: Token)
    ensures TokensText([open] + ts + [close]) == TokenText(open) + TokensText(ts) + TokenText(close)
  {
    hide TokenText, TokensText;
    TokensTextConcat([open], ts);
    TokensTextConcat([open] + ts, [close]);
    TokensTextOne(open);
    TokensTextOne(close);
  }

  // One more item: its tokens after the comma that ends the items before.
  lemma NextText(before: seq<Token>, ts: seq<Token>, n: nat, total: nat)
    requires |ts| > 0 && 0 < n <= total
    ensures TokensText(Interim(Separated(before) + ts, n, total)) ==
            TokensText(Interim(before, n - 1, total)) + (TokensText(ts) + Separator(n - 1, total))
  {
    hide TokensText;
    TokensTextConcat(Separated(before), ts);
    TokensTextConcat(Separated(before) + ts, [Token.Comma]);
    TokensTextOne(Token.Comma);
    assert TokensText(ts) + [] == TokensText(ts);
    Concat3(TokensText(Separated(before)), TokensText(ts), [COMMA]);
  }

  lemma {:induction false} CompactItemsText(vs: seq<Value>, n: nat, level: nat)
    requires n <= |vs| && AllShape(vs)
    ensures forall i :: 0 <= i < |vs| ==> Writable(vs[i])
    ensures Items(vs, n, 0, level) == TokensText(Interim(Elements(vs[..n]), n, |vs|))
    decreases vs, n
  {
    hide Text, Flatten, Shape, Separator, Writable;
    AllShapeWritable(vs);
    if n > 0 {
      hide TokensText;
      var i := n - 1;
      CompactItemsText(vs, i, level);
      CompactText(vs[i], level + 1);
      FlattenNonEmpty(vs[i]);
      ElementsUnfold(vs, n);
      hide Elements, Interim;
      NextText(Elements(vs[..i]), Flatten(vs[i]), n, |vs|);
      CompactItem(vs, i, level);
      hide Item;
    }
  }

  lemma CompactItem(vs: seq<Value>, i: nat, level: nat)
    requires i < |vs| && Writable(vs[i])
    ensures Item(vs, i, 0, level) == Text(vs[i], 0, level + 1) + Separator(i, |vs|)
  {
    hide Text, Separator, Writable;
  }

  lemma {:induction false} CompactPairsText(ks: seq<bytes>, vs: seq<Value>, n: nat, level: nat)
    requires n <= |ks| == |vs| && AllShape(vs)
    ensures forall i :: 0 <= i < |vs| ==> Writable(vs[i])
    ensures Pairs(ks, vs, n, 0, level) == TokensText(Interim(Members(ks[..n], vs[..n]), n, |vs|))
    decreases vs, n
  {
    hide Text, Flatten, Shape, Separator, Writable, Escape, TokensText, Members, Interim, Pair;
    AllShapeWritable(vs);
    if n == 0 {
      NoPairs(ks, vs);
    } else {
      var i := n - 1;
      CompactPairsText(ks, vs, i, level);
      CompactText(vs[i], level + 1);
      MembersUnfold(ks, vs, n);
      CompactPair(ks, vs, i, level);
      NextPairText(Members(ks[..i], vs[..i]), ks[i], Flatten(vs[i]), n, |vs|);
    }
  }

  lemma NameText(k: bytes, ts: seq<Token>)
    ensures TokensText([String(k), Token.Colon] + ts) == Writer.Quoted(k) + ([COLON] + TokensText(ts))
  {
    hide Escape, TokensText;
    assert [String(k), Token.Colon] + ts == [String(k)] + ([Token.Colon] + ts);
    TokensTextConcat([String(k)], [Token.Colon] + ts);
    TokensTextConcat([Token.Colon], ts);
    TokensTextOne(String(k));
    TokensTextOne(Token.Colon);
  }

  lemma NoPairs(ks: seq<bytes>, vs: seq<Value>)
    requires |ks| == |vs| && AllShape(vs)
    ensures TokensText(Interim(Members(ks[..0], vs[..0]), 0, |vs|)) == []
  {
    hide Shape, Flatten;
  }

  lemma NextPairText(before: seq<Token>, k: bytes, ts: seq<Token>, n: nat, total: nat)
    requires 0 < n <= total
    ensures TokensText(Interim(Separated(before) + ([String(k), Token.Colon] + ts), n, total)) ==
            TokensText(Interim(before, n - 1, total))
            + (Writer.Quoted(k) + ([COLON] + TokensText(ts)) + Separator(n - 1, total))
  {
    hide TokensText, Interim, Separator, Escape;
    NextText(before, [String(k), Token.Colon] + ts, n, total);
    NameText(k, ts);
  }

  lemma CompactPair(ks: seq<bytes>, vs: seq<Value>, i: nat, level: nat)
    requires i < |ks| && i < |vs| && Writable(vs[i])
    ensures Pair(ks, vs, i, 0, level) ==
            Writer.Quoted(ks[i]) + ([COLON] + Text(vs[i], 0, level + 1)) + Separator(i, |vs|)
  {
    hide Text, Writer.Quoted, Separator, Writable;
    var t, e := Text(vs[i], 0, level + 1), Separator(i, |vs|);
    assert Pair(ks, vs, i, 0, level) == Writer.Quoted(ks[i]) + ([COLON] + (t + e));
  }

  // ---- A compact text is one line ----

  // No control character, in particular no newline.
  predicate OneLine(s: bytes) {
    forall i :: 0 <= i < |s| ==> s[i] >= 0x20
  }

  predicate NumbersOneLine(ts: seq<Token>) {
    forall i :: 0 <= i < |ts| && ts[i].Number? ==> OneLine(ts[i].text)
  }

  lemma EscapeByteOneLine(b: byte)
    ensures OneLine(EscapeByte(b))
  {
  }

  lemma {:induction false} EscapeOneLine(s: bytes)
    ensures OneLine(Escape(s))
  {
    hide EscapeByte;
    if |s| > 0 {
      EscapeOneLine(s[..|s| - 1]);
      EscapeByteOneLine(s[|s| - 1]);
    }
  }

  lemma TokenOneLine(t: Token)
    requires t.Number? ==> OneLine(t.text)
    ensures OneLine(TokenText(t))
  {
    hide Escape;
    if t.String? {
      EscapeOneLine(t.text);
    }
  }

  lemma {:induction false} TokensOneLine(ts: seq<Token>)
    requires NumbersOneLine(ts)
    ensures OneLine(TokensText(ts))
  {
    hide TokenText;
    if |ts| > 0 {
      TokensOneLine(ts[..|ts| - 1]);
      TokenOneLine(ts[|ts| - 1]);
    }
  }

  lemma NumberOneLine(t: bytes)
    requires IsNumber(t)
    ensures OneLine(t)
  {
    hide ValidParts, PartsText;
    var p :| ValidParts(p) && PartsText(p) == t;
    NumberVisible(p);
  }

  /** Compact text holds no control character, strings and keys being escaped and
      numbers having none. */
  lemma CompactOneLine(v: Value, level: nat)
    requires Shape(v) && NumbersOneLine(Flatten(v))
    ensures Writable(v) && OneLine(Text(v, 0, level))
  {
    hide Text, TokensText, Flatten;
    CompactText(v, level);
    TokensOneLine(Flatten(v));
  }

  lemma WellFormedOneLine(v: Value, level: nat)
    requires WellFormed(v)
    ensures Writable(v) && OneLine(Text(v, 0, level))
  {
    hide Text, IsNumber, Normal, OneLine, WellFormed;
    WellFormedShape(v);
    WellFormedTokens(v);
    var ts := Flatten(v);
    forall i | 0 <= i < |ts| && ts[i].Number?
      ensures OneLine(ts[i].text)
    {
      assert TokenOk(ts[i]);
      NumberOneLine(ts[i].text);
    }
    CompactOneLine(v, level);
  }

  // ---- Pretty text ----

  // A line of a value's text: how deep it is nested in the value, and what stands on it.
  datatype Line = Line(depth: nat, text: bytes)

  // Brackets stand on lines of their own, around the lines of the items one level deeper. A key, a colon
  // and one space precede the value on its first line; a comma follows all items but the last.
  function Lines(v: Value): (ls: seq<Line>)
    requires Shape(v)
    ensures |ls| > 0
    decreases v
  {
    match v.typ
    case VARR => [Line(0, [0x5B])] + ItemLines(v.values) + [Line(0, [0x5D])]
    case VOBJ => [Line(0, [0x7B])] + MemberLines(v.keys, v.values) + [Line(0, [0x7D])]
    case _ => [Line(0, TokensText(Flatten(v)))]
  }

  function ItemLines(vs: seq<Value>): seq<Line>
    requires AllShape(vs)
    decreases vs
  {
    if |vs| == 0 then []
    else CommaAfter(ItemLines(vs[..|vs| - 1])) + Deeper(Lines(vs[|vs| - 1]))
  }

  function MemberLines(ks: seq<bytes>, vs: seq<Value>): seq<Line>
    requires |ks| == |vs| && AllShape(vs)
    decreases vs
  {
    if |vs| == 0 then []
    else
      var n := |vs| - 1;
      CommaAfter(MemberLines(ks[..n], vs[..n])) + Deeper(Named(ks[n], Lines(vs[n])))
  }

  function CommaAfter(ls: seq<Line>): seq<Line> {
    if |ls| == 0 then []
    else ls[..|ls| - 1] + [Line(ls[|ls| - 1].depth, ls[|ls| - 1].text + [0x2C])]
  }

  function Deeper(ls: seq<Line>): (r: seq<Line>)
    ensures |r| == |ls|
  {
    seq(|ls|, i requires 0 <= i < |ls| => Line(ls[i].depth + 1, ls[i].text))
  }

  function Named(key: bytes, ls: seq<Line>): (r: seq<Line>)
    requires |ls| > 0
    ensures |r| == |ls|
  {
    [Line(ls[0].depth, [0x22] + Escape(key) + [0x22, 0x3A, 0x20] + ls[0].text)] + ls[1..]
  }

  function Blanks(n: nat): bytes {
    seq(n, _ => 0x20)
  }

  // A line below another: p spaces for each level it is nested.
  function LineBelow(l: Line, p: nat, base: nat): bytes {
    [0x0A] + (Blanks(p * (base + l.depth)) + l.text)
  }

  function Below(ls: seq<Line>, p: nat, base: nat): bytes {
    if |ls| == 0 then []
    else Below(ls[..|ls| - 1], p, base) + LineBelow(ls[|ls| - 1], p, base)
  }

  // The first line stands where the text starts.
  function LinesText(ls: seq<Line>, p: nat, base: nat): bytes
    requires |ls| > 0
  {
    ls[0].text + Below(ls[1..], p, base)
  }

  lemma {:induction false} BelowConcat(a: seq<Line>, b: seq<Line>, p: nat, base: nat)
    ensures Below(a + b, p, base) == Below(a, p, base) + Below(b, p, base)
    decreases |b|
  {
    hide LineBelow;
    if |b| == 0 {
      assert a + b == a;
    } else {
      var n := |b| - 1;
      assert (a + b)[..|a| + n] == a + b[..n] && (a + b)[|a| + n] == b[n];
      BelowConcat(a, b[..n], p, base);
      Concat3(Below(a, p, base), Below(b[..n], p, base), LineBelow(b[n], p, base));
    }
  }

  lemma {:induction false} BelowDeeper(ls: seq<Line>, p: nat, base: nat)
    ensures Below(Deeper(ls), p, base) == Below(ls, p, base + 1)
    decreases |ls|
  {
    hide Blanks;
    if |ls| > 0 {
      var n := |ls| - 1;
      assert Deeper(ls)[..n] == Deeper(ls[..n]);
      BelowDeeper(ls[..n], p, base);
      assert base + (ls[n].depth + 1) == base + 1 + ls[n].depth;
    }
  }

  lemma BelowOne(l: Line, p: nat, base: nat)
    ensures Below([l], p, base) == LineBelow(l, p, base)
  {
    hide LineBelow;
    assert [l][..0] == [];
  }

  lemma BelowComma(ls: seq<Line>, p: nat, base: nat)
    requires |ls| > 0
    ensures Below(CommaAfter(ls), p, base) == Below(ls, p, base) + [0x2C]
  {
    var n := |ls| - 1;
    var front, last := ls[..n], ls[n];
    var comma := Line(last.depth, last.text + [0x2C]);
    assert ls == front + [last] && CommaAfter(ls) == front + [comma];
    assert LineBelow(comma, p, base) == LineBelow(last, p, base) + [0x2C];
    hide LineBelow, Below, CommaAfter;
    BelowConcat(front, [last], p, base);
    BelowConcat(front, [comma], p, base);
    BelowOne(last, p, base);
    BelowOne(comma, p, base);
    Concat3(Below(front, p, base), LineBelow(last, p, base), [0x2C]);
  }

  // A value below its predecessor: newline, indentation, its text one level deeper.
  lemma BelowValue(ls: seq<Line>, p: nat, base: nat)
    requires |ls| > 0 && ls[0].depth == 0
    ensures Below(Deeper(ls), p, base) == [0x0A] + (Blanks(p * (base + 1)) + LinesText(ls, p, base + 1))
  {
    hide Blanks, Below, Deeper;
    BelowDeeper(ls, p, base);
    assert ls == [ls[0]] + ls[1..];
    BelowConcat([ls[0]], ls[1..], p, base + 1);
    BelowOne(ls[0], p, base + 1);
    var b, t, r := Blanks(p * (base + 1)), ls[0].text, Below(ls[1..], p, base + 1);
    assert ([0x0A] + (b + t)) + r == [0x0A] + (b + (t + r));
  }

  lemma FirstDepth(v: Value)
    requires Shape(v)
    ensures Lines(v)[0].depth == 0
  {
  }

  // The lines of the first n items of a longer list end with a comma.
  function SoFar(ls: seq<Line>, n: nat, total: nat): seq<Line> {
    if n == total then ls else CommaAfter(ls)
  }

  lemma NextBelow(before: seq<Line>, ls: seq<Line>, n: nat, total: nat, p: nat, base: nat)
    requires |ls| > 0 && 0 < n <= total
    ensures Below(SoFar(CommaAfter(before) + ls, n, total), p, base) ==
            Below(SoFar(before, n - 1, total), p, base) + (Below(ls, p, base) + Separator(n - 1, total))
  {
    hide Below, CommaAfter;
    BelowConcat(CommaAfter(before), ls, p, base);
    BelowComma(CommaAfter(before) + ls, p, base);
    var a, b := Below(CommaAfter(before), p, base), Below(ls, p, base);
    assert b + [] == b && (a + b) + [0x2C] == a + (b + [0x2C]);
  }

  // The newlines after the items, seen as newlines before them.
  lemma NewlinesMoved(items: bytes, below: bytes, b: bytes, t: bytes, e: bytes)
    requires [0x0A] + items == below + [0x0A]
    ensures [0x0A] + (items + (b + (t + (e + [0x0A])))) == below + (([0x0A] + (b + t)) + e) + [0x0A]
  {
    assert [0x0A] + (items + (b + (t + (e + [0x0A])))) == ([0x0A] + items) + (b + (t + (e + [0x0A])));
    assert (below + [0x0A]) + (b + (t + (e + [0x0A]))) == below + (([0x0A] + (b + t)) + e) + [0x0A];
  }

  lemma IndentIsBlanks(p: nat, level: nat)
    requires p > 0
    ensures Indent(p, level) == Blanks(p * level) && Newline(p) == [0x0A] && Gap(p) == [0x20]
  {
  }

  // One more item after those already written, in text and in lines.
  lemma NextPretty(items: bytes, item: bytes, before: seq<Line>, ls: seq<Line>, n: nat, total: nat, p: nat, level: nat)
    requires 0 < n <= total && level > 0 && |ls| > 0 && ls[0].depth == 0
    requires [0x0A] + items == Below(SoFar(before, n - 1, total), p, level - 1) + [0x0A]
    requires item == Blanks(p * level) + (LinesText(ls, p, level) + (Separator(n - 1, total) + [0x0A]))
    ensures [0x0A] + (items + item) ==
            Below(SoFar(CommaAfter(before) + Deeper(ls), n, total), p, level - 1) + [0x0A]
  {
    hide Below, SoFar, Blanks, LinesText, Separator, CommaAfter, Deeper;
    NextBelow(before, Deeper(ls), n, total, p, level - 1);
    BelowValue(ls, p, level - 1);
    NewlinesMoved(items, Below(SoFar(before, n - 1, total), p, level - 1), Blanks(p * level),
                  LinesText(ls, p, level), Separator(n - 1, total));
  }

  lemma ItemText(vs: seq<Value>, i: nat, p: nat, level: nat)
    requires i < |vs| && Writable(vs[i]) && p > 0
    ensures Item(vs, i, p, level) ==
            Blanks(p * level) + (Text(vs[i], p, level + 1) + (Separator(i, |vs|) + [0x0A]))
  {
    IndentIsBlanks(p, level);
    hide Text, Separator, Writable, Indent, Blanks, Newline;
  }

  lemma {:induction false} PrettyItems(vs: seq<Value>, n: nat, p: nat, level: nat)
    requires n <= |vs| && AllShape(vs) && p > 0 && level > 0
    ensures forall i :: 0 <= i < |vs| ==> Writable(vs[i])
    ensures [0x0A] + Items(vs, n, p, level) ==
            Below(SoFar(ItemLines(vs[..n]), n, |vs|), p, level - 1) + [0x0A]
    decreases vs, n
  {
    hide Text, Shape, Separator, Writable, Lines, Indent, Blanks, LinesText;
    AllShapeWritable(vs);
    if n > 0 {
      hide Below;
      var i := n - 1;
      PrettyItems(vs, i, p, level);
      PrettyText(vs[i], p, level + 1);
      FirstDepth(vs[i]);
      ItemLinesUnfold(vs, n);
      ItemText(vs, i, p, level);
      hide ItemLines, SoFar, Item, CommaAfter, Deeper;
      NextPretty(Items(vs, i, p, level), Item(vs, i, p, level), ItemLines(vs[..i]), Lines(vs[i]), n, |vs|, p, level);
    } else {
      NothingBelow(|vs|, p, level - 1);
      assert vs[..0] == [];
    }
  }

  lemma NothingBelow(total: nat, p: nat, base: nat)
    ensures [0x0A] + [] == Below(SoFar([], 0, total), p, base) + [0x0A]
  {
  }

  lemma ItemLinesUnfold(vs: seq<Value>, n: nat)
    requires 0 < n <= |vs| && AllShape(vs)
    ensures ItemLines(vs[..n]) == CommaAfter(ItemLines(vs[..n - 1])) + Deeper(Lines(vs[n - 1]))
  {
    hide Lines, Shape;
    assert vs[..n][..n - 1] == vs[..n - 1];
  }

  lemma MemberLinesUnfold(ks: seq<bytes>, vs: seq<Value>, n: nat)
    requires 0 < n <= |vs| && |ks| == |vs| && AllShape(vs)
    ensures MemberLines(ks[..n], vs[..n]) ==
            CommaAfter(MemberLines(ks[..n - 1], vs[..n - 1])) + Deeper(Named(ks[n - 1], Lines(vs[n - 1])))
  {
    hide Lines, Shape, Named;
    assert vs[..n][..n - 1] == vs[..n - 1] && ks[..n][..n - 1] == ks[..n - 1];
  }

  // What precedes a member's value.
  function KeyText(key: bytes): bytes {
    [0x22] + Escape(key) + [0x22, 0x3A, 0x20]
  }

  lemma NamedText(key: bytes, ls: seq<Line>, p: nat, base: nat)
    requires |ls| > 0
    ensures LinesText(Named(key, ls), p, base) == KeyText(key) + LinesText(ls, p, base)
    ensures Named(key, ls)[0].depth == ls[0].depth
  {
    hide Escape, Below;
    assert Named(key, ls)[1..] == ls[1..];
    Concat3(KeyText(key), ls[0].text, Below(ls[1..], p, base));
  }

  lemma PairText(ks: seq<bytes>, vs: seq<Value>, i: nat, p: nat, level: nat)
    requires i < |ks| && i < |vs| && Writable(vs[i]) && p > 0
    ensures Pair(ks, vs, i, p, level) ==
            Blanks(p * level) + ((KeyText(ks[i]) + Text(vs[i], p, level + 1)) + (Separator(i, |vs|) + [0x0A]))
  {
    IndentIsBlanks(p, level);
    hide Text, Separator, Writable, Escape, Indent, Blanks, Newline, Gap;
    KeyJoined(Escape(ks[i]), Text(vs[i], p, level + 1), Separator(i, |vs|) + [0x0A]);
  }

  lemma KeyJoined(k: bytes, t: bytes, e: bytes)
    ensures ([0x22] + k + [0x22]) + ([0x3A] + ([0x20] + (t + e))) == ([0x22] + k + [0x22, 0x3A, 0x20] + t) + e
  {
    assert [0x22] + k + [0x22, 0x3A, 0x20] == ([0x22] + k + [0x22]) + ([0x3A] + [0x20]);
  }

  lemma {:induction false} PrettyPairs(ks: seq<bytes>, vs: seq<Value>, n: nat, p: nat, level: nat)
    requires n <= |ks| == |vs| && AllShape(vs) && p > 0 && level > 0
    ensures forall i :: 0 <= i < |vs| ==> Writable(vs[i])
    ensures [0x0A] + Pairs(ks, vs, n, p, level) ==
            Below(SoFar(MemberLines(ks[..n], vs[..n]), n, |vs|), p, level - 1) + [0x0A]
    decreases vs, n
  {
    hide Text, Shape, Separator, Writable, Lines, Blanks, LinesText, KeyText, Named;
    AllShapeWritable(vs);
    if n > 0 {
      hide Below;
      var i := n - 1;
      PrettyPairs(ks, vs, i, p, level);
      PrettyText(vs[i], p, level + 1);
      FirstDepth(vs[i]);
      MemberLinesUnfold(ks, vs, n);
      PairText(ks, vs, i, p, level);
      hide MemberLines, SoFar, Pair, CommaAfter, Deeper;
      NamedText(ks[i], Lines(vs[i]), p, level);
      NextPretty(Pairs(ks, vs, i, p, level), Pair(ks, vs, i, p, level), MemberLines(ks[..i], vs[..i]),
                 Named(ks[i], Lines(vs[i])), n, |vs|, p, level);
    } else {
      NothingBelow(|vs|, p, level - 1);
      assert vs[..0] == [] && ks[..0] == [];
    }
  }

  // Brackets around lines.
  lemma PrettyBrackets(open: byte, items: bytes, inside: seq<Line>, close: byte, p: nat, level: nat)
    requires p > 0 && level > 0 && [0x0A] + items == Below(inside, p, level - 1) + [0x0A]
    ensures InBrackets([open], items, [close], p, level) ==
            LinesText([Line(0, [open])] + inside + [Line(0, [close])], p, level - 1)
  {
    IndentIsBlanks(p, level - 1);
    hide Below, Blanks, Indent, Newline;
    var ls, last := [Line(0, [open])] + inside + [Line(0, [close])], Line(0, [close]);
    assert ls[1..] == inside + [last];
    BelowConcat(inside, [last], p, level - 1);
    BelowOne(last, p, level - 1);
    var b, m := Blanks(p * (level - 1)), Below(inside, p, level - 1);
    assert [open] + [0x0A] + items + b + [close] == [open] + ((([0x0A] + items) + b) + [close]);
    assert ((m + [0x0A]) + b) + [close] == m + ([0x0A] + (b + [close]));
  }

  /** With pretty printing, the text of a value is its lines, each indented by
      prettyIndent spaces for every level, counted from the level of the call. */
  lemma {:induction false} PrettyText(v: Value, p: nat, level: nat)
    requires Shape(v) && p > 0
    ensures Writable(v)
    ensures Text(v, p, level) == LinesText(Lines(v), p, if level == 0 then 0 else level - 1)
    decreases v
  {
    hide TokensText, InBrackets, LinesText, ItemLines, MemberLines, Below, Flatten;
    ShapeWritable(v);
    var inner := if level == 0 then 1 else level;
    if v.typ == VARR {
      assert v.values[..|v.values|] == v.values;
      PrettyItems(v.values, |v.values|, p, inner);
      PrettyBrackets(0x5B, Items(v.values, |v.values|, p, inner), ItemLines(v.values), 0x5D, p, inner);
    } else if v.typ == VOBJ {
      assert v.values[..|v.values|] == v.values && v.keys[..|v.keys|] == v.keys;
      PrettyPairs(v.keys, v.values, |v.keys|, p, inner);
      PrettyBrackets(0x7B, Pairs(v.keys, v.values, |v.keys|, p, inner), MemberLines(v.keys, v.values), 0x7D, p, inner);
    } else {
      ScalarText(v, p, level);
      ScalarLines(v, p, inner - 1);
    }
  }

  lemma ScalarLines(v: Value, p: nat, base: nat)
    requires Shape(v) && v.typ != VARR && v.typ != VOBJ
    ensures |Flatten(v)| == 1 && LinesText(Lines(v), p, base) == TokenText(Flatten(v)[0])
  {
    hide TokenText, TokensText;
    assert Lines(v)[1..] == [];
    assert Flatten(v) == [Flatten(v)[0]];
    TokensTextOne(Flatten(v)[0]);
  }
}
