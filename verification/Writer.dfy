/** write, writeArray and writeObject, and what the lexer makes of their output. */
module Writer {
  import opened Bytes
  import opened Lexer
  import opened Numbers
  import opened Strings
  import opened TokenLists
  import opened Utf8
  import opened Values

  // write reaches a value for every key it prints; otherwise values.at(i) throws.
  predicate Writable(v: Value) {
    match v.typ
    case VARR => forall i :: 0 <= i < |v.values| ==> Writable(v.values[i])
    case VOBJ => |v.keys| <= |v.values| && forall i :: 0 <= i < |v.keys| ==> Writable(v.values[i])
    case _ => true
  }

  function Spaces(n: nat): (s: bytes)
    ensures |s| == n && AllSpace(s)
  {
    seq(n, _ => SPACE)
  }

  // What pretty printing puts in front of an item.
  function Indent(p: nat, level: nat): bytes {
    if p == 0 then [] else Spaces(p * level)
  }

  function Newline(p: nat): bytes {
    if p == 0 then [] else [NEWLINE]
  }

  function Quoted(s: bytes): bytes {
    [QUOTE] + Escape(s) + [QUOTE]
  }

  // The separator after item i of n.
  function Separator(i: nat, n: nat): bytes {
    if i != n - 1 then [COMMA] else []
  }

  function InBrackets(open: bytes, body: bytes, close: bytes, p: nat, level: nat): bytes
    requires level > 0
  {
    open + Newline(p) + body + Indent(p, level - 1) + close
  }

  // The text write returns.
  function Text(v: Value, p: nat, level: nat): bytes
    requires Writable(v)
    decreases v
  {
    var inner := if level == 0 then 1 else level;
    match v.typ
    case VNULL => NULL_TEXT
    case VBOOL => if v.val == [0x31] then TRUE_TEXT else FALSE_TEXT
    case VSTR => Quoted(v.val)
    case VNUM => v.val
    case VARR => InBrackets([LBRACKET], Items(v.values, |v.values|, p, inner), [RBRACKET], p, inner)
    case VOBJ => InBrackets([LBRACE], Pairs(v.keys, v.values, |v.keys|, p, inner), [RBRACE], p, inner)
  }

  // The first n items of an array.
  function Items(vs: seq<Value>, n: nat, p: nat, level: nat): bytes
    requires n <= |vs| && forall i :: 0 <= i < n ==> Writable(vs[i])
    decreases vs, n
  {
    if n == 0 then []
    else Items(vs, n - 1, p, level) + Item(vs, n - 1, p, level)
  }

  function Item(vs: seq<Value>, i: nat, p: nat, level: nat): bytes
    requires i < |vs| && Writable(vs[i])
    decreases vs, i
  {
    Indent(p, level) + (Text(vs[i], p, level + 1) + (Separator(i, |vs|) + Newline(p)))
  }

  // The first n members of an object.
  function Pairs(ks: seq<bytes>, vs: seq<Value>, n: nat, p: nat, level: nat): bytes
    requires n <= |ks| && n <= |vs| && forall i :: 0 <= i < n ==> Writable(vs[i])
    decreases vs, n
  {
    if n == 0 then []
    else Pairs(ks, vs, n - 1, p, level) + Pair(ks, vs, n - 1, p, level)
  }

  function Pair(ks: seq<bytes>, vs: seq<Value>, i: nat, p: nat, level: nat): bytes
    requires i < |ks| && i < |vs| && Writable(vs[i])
    decreases vs, i
  {
    var after := Separator(i, |vs|) + Newline(p);
    Indent(p, level) + (Quoted(ks[i]) + ([COLON] + (Gap(p) + (Text(vs[i], p, level + 1) + after))))
  }

  // The space after a colon when pretty printing.
  function Gap(p: nat): bytes {
    if p == 0 then [] else [SPACE]
  }

  // ---- The writer itself ----

  // write(prettyIndent, indentLevel); None for the std::out_of_range that values.at(i) throws.
  method Write(v: Value, prettyIndent: nat, indentLevel: nat) returns (r: Option<bytes>)
    ensures r == if Writable(v) then Some(Text(v, prettyIndent, indentLevel)) else None
    decreases v, 1
  {
    hide Escape;
    var s: bytes := [];
    var modIndent := indentLevel;
    if modIndent == 0 {
      modIndent := 1;
    }
    match v.typ {
      case VNULL =>
        s := s + NULL_TEXT;
        assert s == NULL_TEXT;
      case VOBJ =>
        r := WriteObject(v, prettyIndent, modIndent, s);
        assert r.Some? ==> r.value == Text(v, prettyIndent, indentLevel);
        return;
      case VARR =>
        r := WriteArray(v, prettyIndent, modIndent, s);
        assert r.Some? ==> r.value == Text(v, prettyIndent, indentLevel);
        return;
      case VSTR =>
        var e := JsonEscape(v.val);
        s := s + ([QUOTE] + e + [QUOTE]);
        assert s == Quoted(v.val);
      case VNUM =>
        s := s + v.val;
        assert s == v.val;
      case VBOOL =>
        s := s + (if v.val == [0x31] then TRUE_TEXT else FALSE_TEXT);
        assert s == if v.val == [0x31] then TRUE_TEXT else FALSE_TEXT;
    }
    return Some(s);
  }

  // s.append(prettyIndent * indentLevel, ' ')
  method IndentStr(prettyIndent: nat, indentLevel: nat, s: bytes) returns (r: bytes)
    ensures |r| == |s| + prettyIndent * indentLevel && s <= r
    ensures forall i :: |s| <= i < |r| ==> r[i] == SPACE
  {
    r := s;
    var n := 0;
    while n < prettyIndent * indentLevel
      invariant 0 <= n <= prettyIndent * indentLevel
      invariant |r| == |s| + n && s <= r
      invariant forall i :: |s| <= i < |r| ==> r[i] == SPACE
    {
      r := r + [SPACE];
      n := n + 1;
    }
  }

  lemma Indented(s: bytes, r: bytes, n: nat)
    requires |r| == |s| + n && s <= r && forall i :: |s| <= i < |r| ==> r[i] == SPACE
    ensures r == s + Spaces(n)
  {
    assert r == r[..|s|] + r[|s|..];
    assert r[|s|..] == Spaces(n);
  }

  method WriteArray(v: Value, prettyIndent: nat, indentLevel: nat, s0: bytes) returns (r: Option<bytes>)
    requires v.typ == VARR && indentLevel > 0
    ensures r.Some? <==> Writable(v)
    ensures r.Some? ==>
              r.value == s0 + InBrackets([LBRACKET], Items(v.values, |v.values|, prettyIndent, indentLevel),
                                         [RBRACKET], prettyIndent, indentLevel)
    decreases v, 0
  {
    hide Text, Item, Spaces;
    var s := s0 + [LBRACKET];
    if prettyIndent != 0 {
      s := s + [NEWLINE];
    }
    ghost var head := [LBRACKET] + Newline(prettyIndent);
    var i := 0;
    while i < |v.values|
      invariant 0 <= i <= |v.values|
      invariant forall j :: 0 <= j < i ==> Writable(v.values[j])
      invariant s == s0 + (head + Items(v.values, i, prettyIndent, indentLevel))
    {
      ghost var before := s;
      if prettyIndent != 0 {
        s := IndentStr(prettyIndent, indentLevel, s);
        Indented(before, s, prettyIndent * indentLevel);
      }
      var t := Write(v.values[i], prettyIndent, indentLevel + 1);
      if t.None? {
        return None;
      }
      s := s + t.value;
      if i != |v.values| - 1 {
        s := s + [COMMA];
      }
      if prettyIndent != 0 {
        s := s + [NEWLINE];
      }
      ItemSteps(v.values, i, prettyIndent, indentLevel, before, t.value, s);
      Concat3(s0, head + Items(v.values, i, prettyIndent, indentLevel), Item(v.values, i, prettyIndent, indentLevel));
      Concat3(head, Items(v.values, i, prettyIndent, indentLevel), Item(v.values, i, prettyIndent, indentLevel));
      i := i + 1;
    }
    ghost var body := head + Items(v.values, |v.values|, prettyIndent, indentLevel);
    if prettyIndent != 0 {
      ghost var before := s;
      s := IndentStr(prettyIndent, indentLevel - 1, s);
      Indented(before, s, prettyIndent * (indentLevel - 1));
    }
    s := s + [RBRACKET];
    Bracketed(s0, body, Indent(prettyIndent, indentLevel - 1), [RBRACKET], s);
    return Some(s);
  }

  method WriteObject(v: Value, prettyIndent: nat, indentLevel: nat, s0: bytes) returns (r: Option<bytes>)
    requires v.typ == VOBJ && indentLevel > 0
    ensures r.Some? <==> Writable(v)
    ensures r.Some? ==>
              r.value == s0 + InBrackets([LBRACE], Pairs(v.keys, v.values, |v.keys|, prettyIndent, indentLevel),
                                         [RBRACE], prettyIndent, indentLevel)
    decreases v, 0
  {
    hide Text, Escape, Pair, Spaces;
    var s := s0 + [LBRACE];
    if prettyIndent != 0 {
      s := s + [NEWLINE];
    }
    ghost var head := [LBRACE] + Newline(prettyIndent);
    var i := 0;
    while i < |v.keys|
      invariant 0 <= i <= |v.keys| && i <= |v.values|
      invariant forall j :: 0 <= j < i ==> Writable(v.values[j])
      invariant s == s0 + (head + Pairs(v.keys, v.values, i, prettyIndent, indentLevel))
    {
      ghost var before := s;
      if prettyIndent != 0 {
        s := IndentStr(prettyIndent, indentLevel, s);
        Indented(before, s, prettyIndent * indentLevel);
      }
      var e := JsonEscape(v.keys[i]);
      s := s + ([QUOTE] + e + [QUOTE, COLON]);
      if prettyIndent != 0 {
        s := s + [SPACE];
      }
      if i >= |v.values| {
        return None;
      }
      var t := Write(v.values[i], prettyIndent, indentLevel + 1);
      if t.None? {
        return None;
      }
      s := s + t.value;
      if i != |v.values| - 1 {
        s := s + [COMMA];
      }
      if prettyIndent != 0 {
        s := s + [NEWLINE];
      }
      PairSteps(v.keys, v.values, i, prettyIndent, indentLevel, before, e, t.value, s);
      ghost var pairs := Pairs(v.keys, v.values, i, prettyIndent, indentLevel);
      ghost var pair := Pair(v.keys, v.values, i, prettyIndent, indentLevel);
      Concat3(s0, head + pairs, pair);
      Concat3(head, pairs, pair);
      i := i + 1;
    }
    ghost var body := head + Pairs(v.keys, v.values, |v.keys|, prettyIndent, indentLevel);
    if prettyIndent != 0 {
      ghost var before := s;
      s := IndentStr(prettyIndent, indentLevel - 1, s);
      Indented(before, s, prettyIndent * (indentLevel - 1));
    }
    s := s + [RBRACE];
    Bracketed(s0, body, Indent(prettyIndent, indentLevel - 1), [RBRACE], s);
    return Some(s);
  }

  lemma Bracketed(s0: bytes, body: bytes, indent: bytes, close: bytes, s: bytes)
    requires s == ((s0 + body) + indent) + close || (indent == [] && s == (s0 + body) + close)
    ensures s == s0 + (body + indent + close)
  {
  }

  lemma ItemSteps(vs: seq<Value>, i: nat, p: nat, level: nat, before: bytes, t: bytes, s: bytes)
    requires i < |vs| && Writable(vs[i]) && t == Text(vs[i], p, level + 1)
    requires s == before + Indent(p, level) + t + Separator(i, |vs|) + Newline(p)
    ensures s == before + Item(vs, i, p, level)
  {
    hide Text, Spaces, Indent;
  }

  lemma PairSteps(ks: seq<bytes>, vs: seq<Value>, i: nat, p: nat, level: nat,
                  before: bytes, e: bytes, t: bytes, s: bytes)
    requires i < |ks| && i < |vs| && Writable(vs[i])
    requires e == Escape(ks[i]) && t == Text(vs[i], p, level + 1)
    requires s == before + Indent(p, level) + ([QUOTE] + e + [QUOTE, COLON]) + Gap(p) + t
                  + Separator(i, |vs|) + Newline(p)
    ensures s == before + Pair(ks, vs, i, p, level)
  {
    hide Text, Escape, Spaces, Indent, Separator, Newline, Gap;
    assert [QUOTE] + e + [QUOTE, COLON] == Quoted(ks[i]) + [COLON];
    var a, b, c, d, g := before + Indent(p, level), Quoted(ks[i]), Gap(p), Separator(i, |vs|), Newline(p);
    Concat3(a, b, [COLON]);
    Concat3(a + b, [COLON], c);
    Regroup(a + b, [COLON], c, t, d, g);
    Concat3(a, b, [COLON] + (c + (t + (d + g))));
    Concat3(before, Indent(p, level), b + ([COLON] + (c + (t + (d + g)))));
  }

  lemma Regroup(a: bytes, b: bytes, c: bytes, d: bytes, e: bytes, f: bytes)
    ensures a + b + c + d + e + f == a + (b + (c + (d + (e + f))))
  {
  }

  // ---- Lexing what was written ----

  lemma ShapeWritable(v: Value)
    requires Shape(v)
    ensures Writable(v)
    decreases v
  {
    forall i | 0 <= i < |v.values|
      ensures Shape(v.values[i]) ==> Writable(v.values[i])
    {
      if Shape(v.values[i]) {
        ShapeWritable(v.values[i]);
      }
    }
  }

  lemma AllShapeWritable(vs: seq<Value>)
    requires AllShape(vs)
    ensures forall i :: 0 <= i < |vs| ==> Writable(vs[i])
  {
    forall i | 0 <= i < |vs|
      ensures Writable(vs[i])
    {
      ShapeWritable(vs[i]);
    }
  }

  // One punctuation byte.
  lemma LexPunctuation(b: byte, tok: Token, rest: bytes)
    requires (b == LBRACE && tok == ObjOpen) || (b == RBRACE && tok == ObjClose)
             || (b == LBRACKET && tok == ArrOpen) || (b == RBRACKET && tok == ArrClose)
             || (b == COLON && tok == Token.Colon) || (b == COMMA && tok == Token.Comma)
    ensures LexAll([b] + rest) == Prepend([tok], LexAll(rest))
  {
    var s := [b] + rest;
    SpaceCountUnique(s, 0);
    assert s[0..] == s;
    assert LexToken(s) == Lexed(tok, 1);
    LexAllStep([b], tok, rest);
  }

  lemma LexKeyword(text: bytes, tok: Token, rest: bytes)
    requires (text == NULL_TEXT && tok == KwNull) || (text == TRUE_TEXT && tok == KwTrue)
             || (text == FALSE_TEXT && tok == KwFalse)
    ensures LexAll(text + rest) == Prepend([tok], LexAll(rest))
  {
    var s := text + rest;
    SpaceCountUnique(s, 0);
    assert s[0..] == s && s[0] == text[0] && s[1] == text[1];
    assert text <= s;
    assert LexToken(s) == Lexed(tok, |text|);
    LexAllStep(text, tok, rest);
  }

  lemma LexQuoted(t: bytes, rest: bytes)
    requires Normal(t)
    ensures LexAll(Quoted(t) + rest) == Prepend([String(t)], LexAll(rest))
  {
    hide Escape, Normal, LexToken, LexAll;
    EscapedStringLexes(t, rest);
    LexAllStep(Quoted(t), String(t), rest);
  }

  lemma LexNumberText(t: bytes, rest: bytes)
    requires IsNumber(t) && EndsNumber(rest)
    ensures LexAll(t + rest) == Prepend([Number(t)], LexAll(rest))
  {
    hide IsNumber, LexAll;
    NumberLexes(t, rest);
    LexAllStep(t, Number(t), rest);
  }

  lemma LexSpaces(w: bytes, rest: bytes)
    requires AllSpace(w)
    ensures LexAll(w + rest) == LexAll(rest)
  {
    LexAllSkipsSpace(w, rest);
  }

  /** Whatever the indentation, the text of a well-formed value lexes to the
      value's tokens, then to the tokens of what follows. */
  lemma {:induction false} LexText(v: Value, p: nat, level: nat, rest: bytes)
    requires WellFormed(v) && EndsNumber(rest)
    ensures Writable(v)
    ensures LexAll(Text(v, p, level) + rest) == Prepend(Flatten(v), LexAll(rest))
    decreases v
  {
    hide LexAll, Prepend, Escape, IsNumber, Normal, EndsNumber;
    ShapeWritable(v);
    var inner := if level == 0 then 1 else level;
    match v.typ
    case VNULL => LexKeyword(NULL_TEXT, KwNull, rest);
    case VBOOL =>
      if v.val == [0x31] {
        LexKeyword(TRUE_TEXT, KwTrue, rest);
      } else {
        LexKeyword(FALSE_TEXT, KwFalse, rest);
      }
    case VSTR => LexQuoted(v.val, rest);
    case VNUM => LexNumberText(v.val, rest);
    case VARR =>
      AllShapeWritable(v.values);
      assert v.values[..|v.values|] == v.values;
      LexItems(v.values, |v.values|, p, inner, Indent(p, inner - 1) + ([RBRACKET] + rest));
      LexBrackets(LBRACKET, ArrOpen, Items(v.values, |v.values|, p, inner), Elements(v.values),
                  p, inner, RBRACKET, ArrClose, rest);
    case VOBJ =>
      AllShapeWritable(v.values);
      assert v.values[..|v.values|] == v.values && v.keys[..|v.keys|] == v.keys;
      LexPairs(v.keys, v.values, |v.keys|, p, inner, Indent(p, inner - 1) + ([RBRACE] + rest));
      LexBrackets(LBRACE, ObjOpen, Pairs(v.keys, v.values, |v.keys|, p, inner), Members(v.keys, v.values),
                  p, inner, RBRACE, ObjClose, rest);
  }

  // A body that lexes to ts, in brackets.
  lemma LexBrackets(open: byte, openTok: Token, body: bytes, ts: seq<Token>, p: nat, inner: nat,
                    close: byte, closeTok: Token, rest: bytes)
    requires inner > 0
    requires (open == LBRACE && openTok == ObjOpen && close == RBRACE && closeTok == ObjClose)
             || (open == LBRACKET && openTok == ArrOpen && close == RBRACKET && closeTok == ArrClose)
    requires var tail := Indent(p, inner - 1) + ([close] + rest);
      LexAll(body + tail) == Prepend(ts, LexAll(tail))
    ensures LexAll(InBrackets([open], body, [close], p, inner) + rest)
            == Prepend([openTok] + ts + [closeTok], LexAll(rest))
  {
    hide LexAll, Prepend, Spaces;
    var tail := Indent(p, inner - 1) + ([close] + rest);
    assert InBrackets([open], body, [close], p, inner) + rest
        == [open] + (Newline(p) + (body + tail));
    LexPunctuation(open, openTok, Newline(p) + (body + tail));
    LexSpaces(Newline(p), body + tail);
    LexSpaces(Indent(p, inner - 1), [close] + rest);
    LexPunctuation(close, closeTok, rest);
    PrependPrepend(ts, [closeTok], LexAll(rest));
    PrependPrepend([openTok], ts + [closeTok], LexAll(rest));
    assert [openTok] + (ts + [closeTok]) == [openTok] + ts + [closeTok];
  }

  // What may stand after the last item: whitespace or a closing bracket.
  predicate AfterItems(rest: bytes) {
    |rest| > 0 && (IsSpace(rest[0]) || rest[0] == RBRACKET || rest[0] == RBRACE)
  }

  // The tokens of the first n items of a longer list end with a comma.
  function Interim(ts: seq<Token>, n: nat, total: nat): seq<Token> {
    if n == total then ts else Separated(ts)
  }

  // Adding item n to the n - 1 before it.
  lemma InterimStep(before: seq<Token>, ts: seq<Token>, n: nat, total: nat)
    requires |ts| > 0 && 0 < n <= total
    ensures Interim(before, n - 1, total) == Separated(before)
    ensures Separated(before) + Interim(ts, n, total) == Interim(Separated(before) + ts, n, total)
  {
  }

  // A separator and a newline.
  lemma LexSeparator(i: nat, n: nat, p: nat, rest: bytes)
    requires i < n
    ensures LexAll(Separator(i, n) + Newline(p) + rest)
            == if i + 1 == n then LexAll(rest) else Prepend([Token.Comma], LexAll(rest))
  {
    hide LexAll, Prepend;
    assert Separator(i, n) + Newline(p) + rest == Separator(i, n) + (Newline(p) + rest);
    LexSpaces(Newline(p), rest);
    if i + 1 == n {
      assert [] + (Newline(p) + rest) == Newline(p) + rest;
    } else {
      LexPunctuation(COMMA, Token.Comma, Newline(p) + rest);
    }
  }

  lemma {:induction false} LexItem(vs: seq<Value>, i: nat, p: nat, level: nat, rest: bytes)
    requires i < |vs| && Shape(vs[i]) && WellFormed(vs[i]) && Writable(vs[i])
    requires i + 1 == |vs| ==> AfterItems(rest)
    ensures LexAll(Item(vs, i, p, level) + rest)
            == Prepend(Interim(Flatten(vs[i]), i + 1, |vs|), LexAll(rest))
    decreases vs, i
  {
    hide LexAll, Prepend, Text, Flatten, Spaces, WellFormed, Writable;
    var last := Separator(i, |vs|) + Newline(p) + rest;
    LexSeparator(i, |vs|, p, rest);
    assert EndsNumber(last);
    LexText(vs[i], p, level + 1, last);
    var text := Text(vs[i], p, level + 1);
    assert Item(vs, i, p, level) + rest == Indent(p, level) + (text + last);
    LexSpaces(Indent(p, level), text + last);
    WellFormedShape(vs[i]);
    PrependPrepend(Flatten(vs[i]), [Token.Comma], LexAll(rest));
  }

  lemma WellFormedShape(v: Value)
    requires WellFormed(v)
    ensures Shape(v) && |Flatten(v)| > 0
  {
    FlattenNonEmpty(v);
  }

  // One more item after those already lexed.
  lemma LexOneMore(body: bytes, item: bytes, rest: bytes, before: seq<Token>, ts: seq<Token>, n: nat, total: nat)
    requires |ts| > 0 && 0 < n <= total
    requires LexAll(item + rest) == Prepend(Interim(ts, n, total), LexAll(rest))
    requires LexAll(body + (item + rest)) == Prepend(Interim(before, n - 1, total), LexAll(item + rest))
    ensures LexAll((body + item) + rest) == Prepend(Interim(Separated(before) + ts, n, total), LexAll(rest))
  {
    hide LexAll, Prepend, Interim, Separated;
    Concat3(body, item, rest);
    InterimStep(before, ts, n, total);
    PrependPrepend(Separated(before), Interim(ts, n, total), LexAll(rest));
  }

  lemma LexNothing(rest: bytes, total: nat)
    ensures LexAll([] + rest) == Prepend(Interim([], 0, total), LexAll(rest))
  {
    hide LexAll;
    assert [] + rest == rest;
    PrependNothing(LexAll(rest));
  }

  lemma {:induction false} LexItems(vs: seq<Value>, n: nat, p: nat, level: nat, rest: bytes)
    requires n <= |vs| && AllShape(vs) && AllWellFormed(vs)
    requires forall i :: 0 <= i < |vs| ==> Writable(vs[i])
    requires n == |vs| ==> AfterItems(rest)
    ensures LexAll(Items(vs, n, p, level) + rest)
            == Prepend(Interim(Elements(vs[..n]), n, |vs|), LexAll(rest))
    decreases vs, n
  {
    hide LexAll, Flatten, WellFormed, Writable, Shape, Item, AfterItems, Prepend, Separated, Interim;
    if n == 0 {
      LexNothing(rest, |vs|);
    } else {
      hide Elements;
      var i := n - 1;
      WellFormedShape(vs[i]);
      ElementsUnfold(vs, n);
      LexItem(vs, i, p, level, rest);
      LexItems(vs, i, p, level, Item(vs, i, p, level) + rest);
      LexOneMore(Items(vs, i, p, level), Item(vs, i, p, level), rest, Elements(vs[..i]), Flatten(vs[i]), n, |vs|);
    }
  }

  lemma ElementsUnfold(vs: seq<Value>, n: nat)
    requires 0 < n <= |vs| && AllShape(vs)
    ensures Elements(vs[..n]) == Separated(Elements(vs[..n - 1])) + Flatten(vs[n - 1])
  {
    assert vs[..n][..n - 1] == vs[..n - 1];
  }

  lemma {:induction false} LexPair(ks: seq<bytes>, vs: seq<Value>, i: nat, p: nat, level: nat, rest: bytes)
    requires i < |ks| && i < |vs| && Shape(vs[i]) && WellFormed(vs[i]) && Writable(vs[i]) && Normal(ks[i])
    requires i + 1 == |vs| ==> AfterItems(rest)
    ensures LexAll(Pair(ks, vs, i, p, level) + rest)
            == Prepend(Interim([String(ks[i]), Token.Colon] + Flatten(vs[i]), i + 1, |vs|), LexAll(rest))
    decreases vs, i
  {
    hide LexAll, Prepend, Text, Flatten, Spaces, WellFormed, Writable, Normal, Quoted, Shape;
    var last := Separator(i, |vs|) + Newline(p) + rest;
    LexSeparator(i, |vs|, p, rest);
    assert EndsNumber(last);
    LexText(vs[i], p, level + 1, last);
    var text := Text(vs[i], p, level + 1);
    var afterColon := Gap(p) + (text + last);
    var afterIndent := Quoted(ks[i]) + ([COLON] + afterColon);
    assert Pair(ks, vs, i, p, level) + rest == Indent(p, level) + afterIndent;
    LexSpaces(Indent(p, level), afterIndent);
    LexQuoted(ks[i], [COLON] + afterColon);
    LexPunctuation(COLON, Token.Colon, afterColon);
    LexSpaces(Gap(p), text + last);
    WellFormedShape(vs[i]);
    var ts := Flatten(vs[i]);
    PrependPrepend(ts, [Token.Comma], LexAll(rest));
    var all := Interim(ts, i + 1, |vs|);
    PrependPrepend([Token.Colon], all, LexAll(rest));
    PrependPrepend([String(ks[i])], [Token.Colon] + all, LexAll(rest));
    assert [String(ks[i])] + ([Token.Colon] + all) == Interim([String(ks[i]), Token.Colon] + ts, i + 1, |vs|);
  }

  lemma {:induction false} LexPairs(ks: seq<bytes>, vs: seq<Value>, n: nat, p: nat, level: nat, rest: bytes)
    requires n <= |ks| == |vs| && AllShape(vs) && AllWellFormed(vs) && AllNormal(ks)
    requires forall i :: 0 <= i < |vs| ==> Writable(vs[i])
    requires n == |vs| ==> AfterItems(rest)
    ensures LexAll(Pairs(ks, vs, n, p, level) + rest)
            == Prepend(Interim(Members(ks[..n], vs[..n]), n, |vs|), LexAll(rest))
    decreases vs, n
  {
    hide LexAll, Flatten, WellFormed, Writable, Shape, Pair, Normal, AfterItems, Prepend, Separated, Interim;
    if n == 0 {
      LexNothing(rest, |vs|);
    } else {
      hide Members;
      var i := n - 1;
      MembersUnfold(ks, vs, n);
      LexPair(ks, vs, i, p, level, rest);
      LexPairs(ks, vs, i, p, level, Pair(ks, vs, i, p, level) + rest);
      LexOneMore(Pairs(ks, vs, i, p, level), Pair(ks, vs, i, p, level), rest, Members(ks[..i], vs[..i]),
                 [String(ks[i]), Token.Colon] + Flatten(vs[i]), n, |vs|);
    }
  }

  lemma MembersUnfold(ks: seq<bytes>, vs: seq<Value>, n: nat)
    requires 0 < n <= |vs| && |ks| == |vs| && AllShape(vs)
    ensures Members(ks[..n], vs[..n])
            == Separated(Members(ks[..n - 1], vs[..n - 1])) + ([String(ks[n - 1]), Token.Colon] + Flatten(vs[n - 1]))
  {
    assert vs[..n][..n - 1] == vs[..n - 1] && ks[..n][..n - 1] == ks[..n - 1];
  }

  // ---- Compact output ----

  // Without pretty printing the indentation level leaves no trace.
  lemma {:induction false} CompactLevel(v: Value, k: nat, l: nat)
    requires Writable(v)
    ensures Text(v, 0, k) == Text(v, 0, l)
    decreases v
  {
    hide Quoted;
    var inner, other := if k == 0 then 1 else k, if l == 0 then 1 else l;
    if v.typ == VARR {
      CompactItems(v.values, |v.values|, inner, other);
    } else if v.typ == VOBJ {
      CompactPairs(v.keys, v.values, |v.keys|, inner, other);
    }
  }

  lemma {:induction false} CompactItems(vs: seq<Value>, n: nat, k: nat, l: nat)
    requires n <= |vs| && forall i :: 0 <= i < n ==> Writable(vs[i])
    ensures Items(vs, n, 0, k) == Items(vs, n, 0, l)
    decreases vs, n
  {
    hide Text;
    if n > 0 {
      CompactItems(vs, n - 1, k, l);
      CompactLevel(vs[n - 1], k + 1, l + 1);
    }
  }

  lemma {:induction false} CompactPairs(ks: seq<bytes>, vs: seq<Value>, n: nat, k: nat, l: nat)
    requires n <= |ks| && n <= |vs| && forall i :: 0 <= i < n ==> Writable(vs[i])
    ensures Pairs(ks, vs, n, 0, k) == Pairs(ks, vs, n, 0, l)
    decreases vs, n
  {
    hide Text, Quoted;
    if n > 0 {
      CompactPairs(ks, vs, n - 1, k, l);
      CompactLevel(vs[n - 1], k + 1, l + 1);
    }
  }
}
