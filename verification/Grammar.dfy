/** The proof of exactly which JSON texts read accepts, and what it stores for them. */
module Grammar {
  import opened Bytes
  import opened FilterRuns
  import opened Lexer
  import opened Numbers
  import opened Reader
  import opened Strings
  import opened Syntaxes
  import opened TokenLists
  import opened Values

  // ---- Strings ----

  // The lexer knows exactly the escape letters of the grammar.
  lemma EscapeLetters(b: byte)
    ensures SimpleEscape(b) == if IsEscapeLetter(b) then Some(EscapeMeaning(b)) else None
  {
  }

  // ... and exactly its hexadecimal digits.
  lemma HexDigits(b: byte)
    ensures HexValue(b) == DigitMeaning(b)
  {
  }

  lemma HexIsCodeUnit(d: bytes)
    requires |d| == 4
    ensures AllHex(d) <==> Digits4(d)
    ensures Digits4(d) ==> HexNumber(d) == CodeUnit(d)
    ensures Digits4(d) ==> CodeUnit(d) < 0x1_0000
  {
    HexDigits(d[0]);
    HexDigits(d[1]);
    HexDigits(d[2]);
    HexDigits(d[3]);
    hide HexValue, DigitMeaning;
    if AllHex(d) {
      HexNumber4(d);
    }
  }

  // The lexer skips exactly the whitespace of the grammar.
  lemma WsIsSpace(s: bytes)
    ensures AllWs(s) <==> AllSpace(s)
  {
  }

  lemma BodyOfChar(c: StringChar, t: bytes)
    requires ValidChar(c)
    ensures StringBody(CharText(c) + t) == Before([CharEvent(c)], |CharText(c)|, StringBody(t))
  {
    var s := CharText(c) + t;
    assert s[|CharText(c)|..] == t;
    match c
    case Plain(_) =>
    case Short(letter) => EscapeLetters(letter);
    case Hex(digits) =>
      HexIsCodeUnit(digits);
      hide HexNumber, HexValue, CodeUnit, Digits4;
      assert s[2..6] == digits;
  }

  lemma {:induction false} BodyOfChars(cs: seq<StringChar>, rest: bytes)
    requires ValidChars(cs)
    ensures StringBody(CharsText(cs) + ([QUOTE] + rest)) == Some(Body(CharEvents(cs), |CharsText(cs)| + 1))
    decreases |cs|
  {
    hide CharText, CharEvent, ValidChar;
    var t := [QUOTE] + rest;
    if |cs| == 0 {
      assert [] + t == t;
    } else {
      hide StringBody;
      var more := CharsText(cs[1..]) + t;
      BodyOfChars(cs[1..], rest);
      BodyOfChar(cs[0], more);
      Concat3(CharText(cs[0]), CharsText(cs[1..]), t);
      assert CharEvents(cs) == [CharEvent(cs[0])] + CharEvents(cs[1..]);
    }
  }

  lemma FirstChar(s: bytes) returns (c: StringChar)
    requires StringBody(s).Some? && s[0] != QUOTE
    ensures ValidChar(c) && |CharText(c)| <= |s| && s[..|CharText(c)|] == CharText(c) && |CharText(c)| > 0
    ensures StringBody(s) == Before([CharEvent(c)], |CharText(c)|, StringBody(s[|CharText(c)|..]))
  {
    if s[0] == BACKSLASH {
      EscapeLetters(s[1]);
      if SimpleEscape(s[1]).None? {
        HexIsCodeUnit(s[2..6]);
      }
    }
    hide HexNumber, SimpleEscape, HexValue, IsEscapeLetter, EscapeMeaning, Digits4, CodeUnit;
    c := if s[0] != BACKSLASH then Plain(s[0])
         else if SimpleEscape(s[1]).Some? then Short(s[1])
         else Hex(s[2..6]);
    assert s[..|CharText(c)|] == CharText(c);
  }

  lemma {:induction false} CharsOfBody(s: bytes) returns (cs: seq<StringChar>)
    requires StringBody(s).Some?
    ensures ValidChars(cs) && CharEvents(cs) == StringBody(s).value.events
    ensures CharsText(cs) + [QUOTE] == s[..StringBody(s).value.length]
    decreases |s|
  {
    hide SimpleEscape, ValidChar, CharText, CharEvent;
    if s[0] == QUOTE {
      cs := [];
    } else {
      hide StringBody;
      var c := FirstChar(s);
      var k := |CharText(c)|;
      var more := CharsOfBody(s[k..]);
      cs := [c] + more;
      assert cs[1..] == more;
      Concat3(CharText(c), CharsText(more), [QUOTE]);
      var n := StringBody(s[k..]).value.length;
      assert s[..k + n] == s[..k] + s[k..][..n];
      assert CharEvents(cs) == [CharEvent(c)] + CharEvents(more);
    }
  }

  // The first bytes of s are these characters and a closing quote, standing for these filter calls.
  ghost predicate SpellsBody(cs: seq<StringChar>, s: bytes, body: Body)
    requires body.length <= |s|
  {
    ValidChars(cs) && CharsText(cs) + [QUOTE] == s[..body.length] && CharEvents(cs) == body.events
  }

  lemma SpelledBody(cs: seq<StringChar>, s: bytes, body: Body)
    requires body.length <= |s| && SpellsBody(cs, s, body)
    ensures StringBody(s) == Some(body)
  {
    hide StringBody, CharEvents, CharsText, ValidChars;
    BodyOfChars(cs, s[body.length..]);
    assert s == CharsText(cs) + ([QUOTE] + s[body.length..]);
  }

  /** The lexer reads a string body exactly when it is characters of the grammar
      up to a closing quote, and makes the filter calls they stand for. */
  lemma StringBodyExact(s: bytes, body: Body)
    requires body.length <= |s|
    ensures StringBody(s) == Some(body) <==> exists cs :: SpellsBody(cs, s, body)
  {
    hide StringBody, CharEvents, CharsText, ValidChars;
    if StringBody(s) == Some(body) {
      var cs := CharsOfBody(s);
      assert SpellsBody(cs, s, body);
    }
    hide SpellsBody;
    if cs :| SpellsBody(cs, s, body) {
      SpelledBody(cs, s, body);
    }
  }

  // ---- The stored value is the text's tree ----

  lemma TokensOfConcat(a: seq<Lexeme>, b: seq<Lexeme>)
    ensures TokensOf(a + b) == TokensOf(a) + TokensOf(b)
  {
  }

  lemma TokensOfWithComma(ls: seq<Lexeme>)
    ensures TokensOf(WithComma(ls)) == Separated(TokensOf(ls))
  {
  }

  // The stored value has the parse tree the text has.
  lemma {:induction false} StoredTokens(t: Syntax)
    ensures Shape(Stored(t)) && Flatten(Stored(t)) == TokensOf(Lexemes(t))
    decreases t
  {
    hide TokenOf, StringText;
    match t
    case JNull => BareToken(KwNull);
    case JTrue => BareToken(KwTrue);
    case JFalse => BareToken(KwFalse);
    case JNumber(text) => BareToken(Number(text));
    case JString(chars) => QuotedToken(chars);
    case JArray(items) =>
      StoredItemTokens(items);
      Bracketed(ArrOpen, ItemLexemes(items), ArrClose);
    case JObject(members) =>
      StoredMemberTokens(members);
      Bracketed(ObjOpen, MemberLexemes(members), ObjClose);
  }

  lemma BareToken(tok: Token)
    ensures TokensOf([Bare(tok)]) == [tok] && TokenOf(Bare(tok)) == tok
  {
  }

  lemma QuotedToken(cs: seq<StringChar>)
    ensures TokensOf([Quoted(cs)]) == [String(StringText(cs))]
  {
  }

  lemma Bracketed(open: Token, ls: seq<Lexeme>, close: Token)
    ensures TokensOf([Bare(open)] + ls + [Bare(close)]) == [open] + TokensOf(ls) + [close]
  {
  }

  lemma SplitLast<T>(s: seq<T>) returns (front: seq<T>, last: T)
    requires |s| > 0
    ensures front == s[..|s| - 1] && last == s[|s| - 1] && s == front + [last]
  {
    front, last := s[..|s| - 1], s[|s| - 1];
  }

  lemma ItemAppended(first: seq<Syntax>, t: Syntax)
    ensures ItemLexemes(first + [t]) == WithComma(ItemLexemes(first)) + Lexemes(t)
    ensures StoredItems(first + [t]) == StoredItems(first) + [Stored(t)]
  {
    hide Lexemes, Stored;
    assert (first + [t])[..|first|] == first;
  }

  lemma MemberAppended(first: seq<Member>, m: Member)
    ensures MemberLexemes(first + [m]) ==
            WithComma(MemberLexemes(first)) + [Quoted(m.name), Bare(Token.Colon)] + Lexemes(m.value)
    ensures StoredNames(first + [m]) == StoredNames(first) + [StringText(m.name)]
    ensures StoredMembers(first + [m]) == StoredMembers(first) + [Stored(m.value)]
  {
    hide Lexemes, Stored, StringText;
    assert (first + [m])[..|first|] == first;
  }

  lemma ElementsAppended(vs: seq<Value>, v: Value)
    requires AllShape(vs) && Shape(v)
    ensures AllShape(vs + [v])
    ensures Elements(vs + [v]) == Separated(Elements(vs)) + Flatten(v)
  {
    hide Shape, Flatten;
    assert (vs + [v])[..|vs|] == vs;
  }

  lemma MembersAppended(ks: seq<bytes>, vs: seq<Value>, k: bytes, v: Value)
    requires |ks| == |vs| && AllShape(vs) && Shape(v)
    ensures AllShape(vs + [v])
    ensures Members(ks + [k], vs + [v]) == Separated(Members(ks, vs)) + [String(k), Token.Colon] + Flatten(v)
  {
    hide Shape, Flatten;
    assert (vs + [v])[..|vs|] == vs && (ks + [k])[..|ks|] == ks;
  }

  lemma {:induction false} StoredItemTokens(items: seq<Syntax>)
    ensures AllShape(StoredItems(items)) && Elements(StoredItems(items)) == TokensOf(ItemLexemes(items))
    decreases items
  {
    if |items| > 0 {
      hide Stored, Shape, Flatten, Lexemes, TokensOf, WithComma, AllShape, ItemLexemes, StoredItems, Elements;
      var front, last := SplitLast(items);
      StoredItemTokens(front);
      StoredTokens(last);
      ItemAppended(front, last);
      ElementsAppended(StoredItems(front), Stored(last));
      TokensOfWithComma(ItemLexemes(front));
      TokensOfConcat(WithComma(ItemLexemes(front)), Lexemes(last));
    }
  }

  lemma {:induction false} StoredMemberTokens(members: seq<Member>)
    ensures AllShape(StoredMembers(members))
    ensures Members(StoredNames(members), StoredMembers(members)) == TokensOf(MemberLexemes(members))
    decreases members
  {
    if |members| > 0 {
      hide Stored, Shape, Flatten, Lexemes, TokensOf, WithComma, StringText, AllShape, MemberLexemes, Members;
      var front, last := SplitLast(members);
      StoredMemberTokens(front);
      StoredTokens(last.value);
      MemberAppended(front, last);
      MembersAppended(StoredNames(front), StoredMembers(front), StringText(last.name), Stored(last.value));
      MemberTokens(MemberLexemes(front), last.name, Lexemes(last.value));
    }
  }

  lemma MemberTokens(front: seq<Lexeme>, cs: seq<StringChar>, value: seq<Lexeme>)
    ensures TokensOf(WithComma(front) + [Quoted(cs), Bare(Token.Colon)] + value) ==
            Separated(TokensOf(front)) + [String(StringText(cs)), Token.Colon] + TokensOf(value)
  {
    hide StringText;
    var head, name := WithComma(front), [Quoted(cs), Bare(Token.Colon)];
    assert TokensOf(name) == [String(StringText(cs)), Token.Colon];
    hide TokensOf;
    TokensOfWithComma(front);
    hide WithComma;
    TokensOfConcat(head, name);
    TokensOfConcat(head + name, value);
  }

  // ---- From a layout to tokens ----

  // The filter's verdict on a string and its text, by the reference description of its runs.
  lemma LiteralFiltered(cs: seq<StringChar>)
    requires ValidChars(cs)
    ensures Filtered(CharEvents(cs)) == if LiteralSound(cs) then Some(StringText(cs)) else None
  {
    hide ValidChars, CharEvents, Items, Paired, Points, Emit, Run;
    FilterRefines(CharEvents(cs));
  }

  lemma QuotedLexes(cs: seq<StringChar>, rest: bytes)
    requires ValidChars(cs)
    ensures var t := [QUOTE] + CharsText(cs) + [QUOTE];
      LexToken(t + rest) == if LiteralSound(cs) then Lexed(String(StringText(cs)), |t|) else FAILED
  {
    hide StringBody, Filtered, CharEvents, CharsText, ValidChars, LexNumber, Keyword, SpaceCount;
    hide LiteralSound, StringText;
    var t := [QUOTE] + CharsText(cs) + [QUOTE];
    BodyOfChars(cs, rest);
    LiteralFiltered(cs);
    var s := t + rest;
    assert s[1..] == CharsText(cs) + ([QUOTE] + rest);
    SpaceCountUnique(s, 0);
    assert s[0..] == s;
  }

  lemma SpelledLexes(t: bytes, l: Lexeme, rest: bytes)
    requires Spells(t, l) && (IsNumeral(l) ==> EndsNumber(rest))
    ensures LexToken(t + rest) == if SoundLexeme(l) then Lexed(TokenOf(l), |t|) else FAILED
    ensures !IsEnd(TokenOf(l)) && |t| > 0
  {
    hide IsNumber, LexNumber, LexString, CharsText, LiteralSound, StringText;
    if l.Quoted? {
      QuotedLexes(l.chars, rest);
    } else if IsNumeral(l) {
      NumberLexes(t, rest);
      ScanNumberText(t, rest);
    } else {
      var s := t + rest;
      assert s[0] == t[0];
      SpaceCountUnique(s, 0);
      assert s[0..] == s && t <= s;
      assert l.tok.KwTrue? || l.tok.KwFalse? ==> s[1] == t[1];
    }
  }

  predicate IsNumeral(l: Lexeme) {
    l.Bare? && l.tok.Number?
  }

  // What may follow a number in a document.
  predicate Closes(l: Lexeme) {
    l.Bare? && (l.tok.Comma? || l.tok.ArrClose? || l.tok.ObjClose?)
  }

  predicate NumbersEnd(ls: seq<Lexeme>) {
    forall i :: 0 <= i < |ls| - 1 && IsNumeral(ls[i]) ==> Closes(ls[i + 1])
  }

  lemma NumbersEndConcat(a: seq<Lexeme>, b: seq<Lexeme>)
    requires NumbersEnd(a) && NumbersEnd(b)
    requires |a| > 0 && |b| > 0 && IsNumeral(a[|a| - 1]) ==> Closes(b[0])
    ensures NumbersEnd(a + b)
  {
    var c := a + b;
    forall i | 0 <= i < |c| - 1 && IsNumeral(c[i])
      ensures Closes(c[i + 1])
    {
      if i < |a| - 1 {
        assert c[i] == a[i] && c[i + 1] == a[i + 1];
      } else if i >= |a| {
        assert c[i] == b[i - |a|] && c[i + 1] == b[i + 1 - |a|];
      }
    }
  }

  // In the grammar, a number is followed by a comma, a closing bracket or the end.
  lemma {:induction false} LexemesNumbersEnd(t: Syntax)
    ensures NumbersEnd(Lexemes(t))
    decreases t
  {
    match t
    case JNull =>
    case JTrue =>
    case JFalse =>
    case JNumber(_) =>
    case JString(_) =>
    case JArray(items) =>
      ItemsNumbersEnd(items);
      NumbersEndConcat([Bare(ArrOpen)], ItemLexemes(items));
      NumbersEndConcat([Bare(ArrOpen)] + ItemLexemes(items), [Bare(ArrClose)]);
    case JObject(members) =>
      MembersNumbersEnd(members);
      NumbersEndConcat([Bare(ObjOpen)], MemberLexemes(members));
      NumbersEndConcat([Bare(ObjOpen)] + MemberLexemes(members), [Bare(ObjClose)]);
  }

  lemma {:induction false} ItemsNumbersEnd(items: seq<Syntax>)
    ensures NumbersEnd(ItemLexemes(items))
    decreases items
  {
    if |items| > 0 {
      hide NumbersEnd, Lexemes;
      var front, last := items[..|items| - 1], items[|items| - 1];
      ItemsNumbersEnd(front);
      LexemesNumbersEnd(last);
      WithCommaNumbersEnd(ItemLexemes(front));
      NumbersEndConcat(WithComma(ItemLexemes(front)), Lexemes(last));
    }
  }

  lemma {:induction false} MembersNumbersEnd(members: seq<Member>)
    ensures NumbersEnd(MemberLexemes(members))
    decreases members
  {
    if |members| > 0 {
      hide Lexemes;
      var front, last := members[..|members| - 1], members[|members| - 1];
      var head, name := WithComma(MemberLexemes(front)), [Quoted(last.name), Bare(Token.Colon)];
      MembersNumbersEnd(front);
      LexemesNumbersEnd(last.value);
      WithCommaNumbersEnd(MemberLexemes(front));
      assert NumbersEnd(name);
      hide NumbersEnd;
      NumbersEndConcat(head, name);
      NumbersEndConcat(head + name, Lexemes(last.value));
    }
  }

  lemma WithCommaNumbersEnd(ls: seq<Lexeme>)
    requires NumbersEnd(ls)
    ensures NumbersEnd(WithComma(ls))
    ensures |WithComma(ls)| > 0 ==> !IsNumeral(WithComma(ls)[|WithComma(ls)| - 1])
  {
    if |ls| > 0 {
      NumbersEndConcat(ls, [Bare(Token.Comma)]);
    }
  }

  // What comes after a number's piece cannot extend it.
  lemma LayoutEndsNumber(ps: seq<Piece>, end: bytes, ls: seq<Lexeme>)
    requires IsLayout(Layout(ps) + end, ls, ps, end)
    requires |ls| > 0 ==> Closes(ls[0])
    ensures EndsNumber(Layout(ps) + end)
  {
    if |ps| > 0 {
      var p := ps[0];
      assert Spells(p.text, ls[0]);
      var s := Layout(ps) + end;
      assert s[0] == if |p.space| > 0 then p.space[0] else p.text[0];
    }
  }

  // A layout lexes to its tokens, or to nothing if a string in it is unsound.
  lemma {:induction false} LayoutLexes(ps: seq<Piece>, end: bytes, ls: seq<Lexeme>)
    requires IsLayout(Layout(ps) + end, ls, ps, end) && NumbersEnd(ls)
    ensures LexAll(Layout(ps) + end) == if AllSound(ls) then Some(TokensOf(ls)) else None
    decreases |ps|
  {
    hide LexToken, Spells, LexAll, SoundLexeme, TokenOf;
    if |ps| == 0 {
      LexAllSkipsSpace(end, []);
      LexEmpty();
      assert [] + end == end && end + [] == end;
    } else {
      var p, rest := ps[0], Layout(ps[1..]) + end;
      LayoutTail(ps, end, ls);
      LayoutLexes(ps[1..], end, ls[1..]);
      if IsNumeral(ls[0]) {
        LayoutEndsNumber(ps[1..], end, ls[1..]);
      }
      assert Spells(p.text, ls[0]);
      SpelledLexes(p.text, ls[0], rest);
      LexAllSkipsSpace(p.space, p.text + rest);
      assert Layout(ps) + end == p.space + (p.text + rest);
      if SoundLexeme(ls[0]) {
        LexAllStep(p.text, TokenOf(ls[0]), rest);
        assert TokensOf(ls) == [TokenOf(ls[0])] + TokensOf(ls[1..]);
        AllSoundStep(ls);
      } else {
        LexAllFails(p.text + rest);
      }
    }
  }

  lemma AllSoundStep(ls: seq<Lexeme>)
    requires |ls| > 0
    ensures AllSound(ls) <==> SoundLexeme(ls[0]) && AllSound(ls[1..])
  {
    hide SoundLexeme;
    assert forall i :: 0 < i < |ls| ==> ls[i] == ls[1..][i - 1];
  }

  lemma LexAllFails(s: bytes)
    requires LexToken(s) == FAILED
    ensures LexAll(s).None?
  {
    hide LexToken;
  }

  lemma LayoutTail(ps: seq<Piece>, end: bytes, ls: seq<Lexeme>)
    requires IsLayout(Layout(ps) + end, ls, ps, end) && NumbersEnd(ls) && |ps| > 0
    ensures IsLayout(Layout(ps[1..]) + end, ls[1..], ps[1..], end) && NumbersEnd(ls[1..])
    ensures IsNumeral(ls[0]) && |ls| > 1 ==> Closes(ls[1..][0])
  {
    hide Spells, Layout;
    assert forall i :: 0 <= i < |ls| - 1 ==> ls[1..][i] == ls[i + 1];
    assert forall i :: 0 <= i < |ps| - 1 ==> ps[1..][i] == ps[i + 1];
  }

  // ---- From tokens to a layout ----

  // A lexeme that spells a token: a sound string for a string, the token itself otherwise.
  ghost predicate Writes(l: Lexeme, tok: Token) {
    TokenOf(l) == tok && SoundLexeme(l) && (l.Bare? ==> !l.tok.String?)
  }

  // A token of the grammar is spelled by the bytes the lexer took for it.
  lemma BareSpells(s: bytes) returns (l: Lexeme)
    requires |s| > 0 && !LexBare(s).tok.TokErr? && TokenOk(LexBare(s).tok)
    ensures Spells(s[..LexBare(s).consumed], l) && Writes(l, LexBare(s).tok)
  {
    hide IsNumber, ScanNumber, LexString, Spells, LiteralSound, StringText;
    var r := LexBare(s);
    if r.tok.String? {
      KeywordKinds(s);
      if s[0] == MINUS || IsDigit(s[0]) {
        NumberKinds(s);
      }
      l := StringSpells(s);
    } else {
      l := Bare(r.tok);
      OtherSpells(s);
    }
  }

  lemma OtherSpells(s: bytes)
    requires |s| > 0 && !LexBare(s).tok.TokErr? && !LexBare(s).tok.String? && TokenOk(LexBare(s).tok)
    ensures Spells(s[..LexBare(s).consumed], Bare(LexBare(s).tok))
  {
    hide IsNumber, ScanNumber, LexString;
  }

  lemma StringSpells(s: bytes) returns (l: Lexeme)
    requires |s| > 0 && s[0] == QUOTE && LexString(s[1..]).Some?
    ensures var t := LexString(s[1..]).value;
      Spells(s[..1 + t.length], l) && Writes(l, String(t.text))
  {
    hide StringBody, Filtered, CharEvents, LiteralSound, StringText, ValidChars, CharsText;
    var body := StringBody(s[1..]).value;
    var cs := CharsOfBody(s[1..]);
    LiteralFiltered(cs);
    l := Quoted(cs);
    assert s[..1 + body.length] == [QUOTE] + s[1..][..body.length];
    assert [QUOTE] + (CharsText(cs) + [QUOTE]) == [QUOTE] + CharsText(cs) + [QUOTE];
  }

  ghost predicate AllWrite(ls: seq<Lexeme>, ts: seq<Token>) {
    |ls| == |ts| && forall i :: 0 <= i < |ls| ==> Writes(ls[i], ts[i])
  }

  lemma AllWriteCons(l: Lexeme, ls: seq<Lexeme>, tok: Token, ts: seq<Token>)
    requires Writes(l, tok) && AllWrite(ls, ts)
    ensures AllWrite([l] + ls, [tok] + ts)
  {
    hide Writes;
  }

  lemma {:induction false} TokensLaidOut(s: bytes) returns (ls: seq<Lexeme>, ps: seq<Piece>, end: bytes)
    requires LexAll(s).Some? && TokensOk(LexAll(s).value)
    ensures IsLayout(s, ls, ps, end) && AllWrite(ls, LexAll(s).value)
    decreases |s|
  {
    hide LexToken, LexBare, Spells, TokenOk, Writes;
    var r := LexToken(s);
    if r.tok.TokNone? {
      LexProgress(s);
      ls, ps, end := [], [], s;
      assert [] + s == s;
    } else {
      TokenAfterSpace(s);
      var w, n := SpaceCount(s), r.consumed;
      var ts := LexAll(s[n..]).value;
      assert LexAll(s).value == [r.tok] + ts;
      TokensOkConcat([r.tok], ts);
      assert TokenOk([r.tok][0]);
      var l := BareSpells(s[w..]);
      assert s[w..][..n - w] == s[w..n];
      var p := Piece(s[..w], s[w..n]);
      hide LexAll, SpaceCount, TokensOk;
      var lexemes: seq<Lexeme>, more: seq<Piece>;
      lexemes, more, end := TokensLaidOut(s[n..]);
      LayoutCons(p, more, end, s, l, lexemes);
      hide IsLayout;
      ls, ps := [l] + lexemes, [p] + more;
      AllWriteCons(l, lexemes, r.tok, ts);
    }
  }

  lemma LayoutCons(p: Piece, more: seq<Piece>, end: bytes, s: bytes, l: Lexeme, ls: seq<Lexeme>)
    requires AllWs(p.space) && Spells(p.text, l)
    requires |p.space| + |p.text| <= |s| && s[..|p.space|] == p.space
    requires s[|p.space|..|p.space| + |p.text|] == p.text
    requires IsLayout(s[|p.space| + |p.text|..], ls, more, end)
    ensures IsLayout(s, [l] + ls, [p] + more, end)
  {
    hide Spells, AllWs;
    var ps, all := [p] + more, [l] + ls;
    forall i | 0 <= i < |ps|
      ensures AllWs(ps[i].space) && Spells(ps[i].text, all[i])
    {
      if i > 0 {
        assert ps[i] == more[i - 1] && all[i] == ls[i - 1];
      }
    }
    LayoutConsText(p, more, end, s);
  }

  lemma LayoutConsText(p: Piece, more: seq<Piece>, end: bytes, s: bytes)
    requires |p.space| + |p.text| <= |s| && s[..|p.space|] == p.space
    requires s[|p.space|..|p.space| + |p.text|] == p.text
    requires s[|p.space| + |p.text|..] == Layout(more) + end
    ensures s == Layout([p] + more) + end
  {
    assert ([p] + more)[1..] == more;
    Concat3(p.text, Layout(more), end);
    Concat3(p.space, p.text + Layout(more), end);
    assert s == s[..|p.space|] + (s[|p.space|..|p.space| + |p.text|] + s[|p.space| + |p.text|..]);
  }

  // ---- From the lexemes of a stored value back to syntax ----

  lemma AllWriteSlice(ls: seq<Lexeme>, ts: seq<Token>, i: nat, j: nat)
    requires AllWrite(ls, ts) && i <= j <= |ls|
    ensures AllWrite(ls[i..j], ts[i..j])
  {
    hide Writes;
  }

  lemma RespelledScalar(v: Value, l: Lexeme) returns (t: Syntax)
    requires Shape(v) && v.typ != VARR && v.typ != VOBJ
    requires Writes(l, Flatten(v)[0])
    ensures Lexemes(t) == [l] && Stored(t) == v
  {
    hide LiteralSound, StringText;
    if v.typ == VSTR {
      t := JString(l.chars);
    } else {
      WritesBare(l, Flatten(v)[0]);
      t := if v.typ == VNULL then JNull
           else if v.typ == VNUM then JNumber(v.val)
           else if v.val == [0x31] then JTrue
           else JFalse;
    }
  }

  // Lexemes that write the tokens of a value are those of a syntax tree that is stored as the value.
  lemma {:induction false} Respelled(v: Value, ls: seq<Lexeme>) returns (t: Syntax)
    requires Shape(v) && AllWrite(ls, Flatten(v))
    ensures Lexemes(t) == ls && Stored(t) == v
    decreases v
  {
    hide Writes;
    if v.typ == VARR {
      hide AllWrite;
      InnerTokens(ls, ArrOpen, Elements(v.values), ArrClose);
      var items := RespelledItems(v.values, ls[1..|ls| - 1]);
      t := JArray(items);
    } else if v.typ == VOBJ {
      hide AllWrite;
      InnerTokens(ls, ObjOpen, Members(v.keys, v.values), ObjClose);
      var members := RespelledMembers(v.keys, v.values, ls[1..|ls| - 1]);
      t := JObject(members);
    } else {
      AllWriteAt(ls, Flatten(v), 0);
      t := RespelledScalar(v, ls[0]);
    }
  }

  lemma InnerTokens(ls: seq<Lexeme>, open: Token, ts: seq<Token>, close: Token)
    requires AllWrite(ls, [open] + ts + [close]) && !open.String? && !close.String?
    ensures |ls| >= 2 && AllWrite(ls[1..|ls| - 1], ts)
    ensures ls == [Bare(open)] + ls[1..|ls| - 1] + [Bare(close)]
  {
    hide Writes, AllWrite;
    var all, n := [open] + ts + [close], |ls|;
    AllWriteAt(ls, all, 0);
    AllWriteAt(ls, all, n - 1);
    AllWriteSlice(ls, all, 1, n - 1);
    assert all[1..n - 1] == ts;
    WritesBare(ls[0], open);
    WritesBare(ls[n - 1], close);
    assert ls == [ls[0]] + ls[1..n - 1] + [ls[n - 1]];
  }

  lemma AllWriteAt(ls: seq<Lexeme>, ts: seq<Token>, i: nat)
    requires AllWrite(ls, ts) && i < |ts|
    ensures |ls| == |ts| && Writes(ls[i], ts[i])
  {
    hide Writes;
  }

  lemma WritesBare(l: Lexeme, tok: Token)
    requires Writes(l, tok) && !tok.String?
    ensures l == Bare(tok)
  {
    hide LiteralSound, StringText;
  }

  lemma AllWriteSplit(ls: seq<Lexeme>, a: seq<Token>, b: seq<Token>) returns (x: seq<Lexeme>, y: seq<Lexeme>)
    requires AllWrite(ls, a + b)
    ensures AllWrite(x, a) && AllWrite(y, b) && ls == x + y
  {
    hide Writes;
    x, y := ls[..|a|], ls[|a|..];
    AllWriteSlice(ls, a + b, 0, |a|);
    AllWriteSlice(ls, a + b, |a|, |ls|);
    assert (a + b)[0..|a|] == a && (a + b)[|a|..|ls|] == b;
  }

  // The lexemes before the last item: none, or items and a comma.
  lemma CutComma(ls: seq<Lexeme>, ts: seq<Token>) returns (front: seq<Lexeme>)
    requires AllWrite(ls, Separated(ts))
    ensures AllWrite(front, ts) && WithComma(front) == ls
  {
    hide Writes;
    if |ts| == 0 {
      front := [];
    } else {
      front := ls[..|ts|];
      AllWriteSlice(ls, ts + [Token.Comma], 0, |ts|);
      AllWriteAt(ls, ts + [Token.Comma], |ts|);
      WritesBare(ls[|ts|], Token.Comma);
      assert ls == front + [Bare(Token.Comma)];
      assert (ts + [Token.Comma])[0..|ts|] == ts;
    }
  }

  lemma {:induction false} RespelledItems(vs: seq<Value>, ls: seq<Lexeme>) returns (items: seq<Syntax>)
    requires AllShape(vs) && AllWrite(ls, Elements(vs))
    ensures ItemLexemes(items) == ls && StoredItems(items) == vs
    decreases vs
  {
    hide Writes, Lexemes, Stored, Shape, Flatten;
    if |vs| == 0 {
      items := [];
    } else {
      var front, last := SplitLast(vs);
      var head, tail := CutItem(ls, Elements(front), Flatten(last));
      hide AllWrite, ItemLexemes, StoredItems, WithComma, Elements;
      var first := RespelledItems(front, head);
      var t := Respelled(last, tail);
      items := first + [t];
      ItemAppended(first, t);
    }
  }

  // The lexemes of the items before the last, and those of the last.
  lemma CutItem(ls: seq<Lexeme>, front: seq<Token>, last: seq<Token>) returns (head: seq<Lexeme>, tail: seq<Lexeme>)
    requires AllWrite(ls, Separated(front) + last)
    ensures AllWrite(head, front) && AllWrite(tail, last) && ls == WithComma(head) + tail
  {
    hide Writes;
    var before, rest := AllWriteSplit(ls, Separated(front), last);
    hide AllWrite, WithComma, Separated;
    head := CutComma(before, front);
    tail := rest;
  }

  lemma {:induction false} RespelledMembers(ks: seq<bytes>, vs: seq<Value>, ls: seq<Lexeme>)
    returns (members: seq<Member>)
    requires |ks| == |vs| && AllShape(vs) && AllWrite(ls, Members(ks, vs))
    ensures MemberLexemes(members) == ls && StoredNames(members) == ks && StoredMembers(members) == vs
    decreases vs
  {
    hide Writes, Lexemes, Stored, Shape, Flatten, StringText;
    if |vs| == 0 {
      members := [];
    } else {
      var keys, key := SplitLast(ks);
      var front, last := SplitLast(vs);
      var head, name, tail := CutMember(ls, Members(keys, front), key, Flatten(last));
      hide AllWrite, MemberLexemes, StoredNames, StoredMembers, WithComma, Members;
      var first := RespelledMembers(keys, front, head);
      var t := Respelled(last, tail);
      members := first + [Member(name, t)];
      MemberAppended(first, Member(name, t));
    }
  }

  // The lexemes of the members before the last, the last name, and the lexemes of its value.
  lemma CutMember(ls: seq<Lexeme>, front: seq<Token>, key: bytes, value: seq<Token>)
    returns (head: seq<Lexeme>, name: seq<StringChar>, tail: seq<Lexeme>)
    requires AllWrite(ls, Separated(front) + [String(key), Token.Colon] + value)
    ensures AllWrite(head, front) && StringText(name) == key && AllWrite(tail, value)
    ensures ls == WithComma(head) + [Quoted(name), Bare(Token.Colon)] + tail
  {
    hide Writes, StringText;
    var pair := [String(key), Token.Colon];
    var last, rest := AllWriteSplit(ls, Separated(front) + pair, value);
    var before, named := AllWriteSplit(last, Separated(front), pair);
    hide AllWrite, WithComma, Separated;
    head := CutComma(before, front);
    name := NameOf(named, key);
    tail := rest;
  }

  lemma NameOf(ls: seq<Lexeme>, key: bytes) returns (cs: seq<StringChar>)
    requires AllWrite(ls, [String(key), Token.Colon])
    ensures ls == [Quoted(cs), Bare(Token.Colon)] && StringText(cs) == key
  {
    hide LiteralSound, StringText;
    assert Writes(ls[0], String(key)) && Writes(ls[1], Token.Colon);
    cs := ls[0].chars;
  }

  lemma AllWriteSound(ls: seq<Lexeme>, ts: seq<Token>)
    requires AllWrite(ls, ts)
    ensures AllSound(ls)
  {
    hide SoundLexeme, TokenOf;
  }

  // ---- The language read accepts ----

  // Whitespace and a minus sign.
  ghost predicate MinusText(s: bytes) {
    exists w :: AllSpace(w) && s == w + [MINUS]
  }

  lemma MinusTextReads(s: bytes)
    requires MinusText(s)
    ensures LexAll(s) == Some(Flatten(LONE_MINUS))
  {
    hide LexToken;
    var w :| AllSpace(w) && s == w + [MINUS];
    var minus: bytes := [MINUS];
    LoneMinusToken();
    LexAllSkipsSpace(w, minus);
    assert minus + [] == minus;
    LexAllStep(minus, Number(minus), []);
    LexEmpty();
    LoneMinusFlat();
    assert [Number(minus)] + [] == [Number(minus)];
  }

  lemma LoneMinusToken()
    ensures LexToken([MINUS]) == Lexed(Number([MINUS]), 1)
  {
    var s := [MINUS];
    SpaceCountUnique(s, 0);
    assert s[0..] == s;
    LoneMinus(s, 1);
    ScanExact(s, 1);
  }

  lemma OnlyMinusReads(s: bytes)
    requires LexAll(s) == Some([Number([MINUS])])
    ensures MinusText(s)
  {
    hide LexToken, SpaceCount;
    var r := LexToken(s);
    assert LexAll(s).value[0] == r.tok;
    NumberToken(s);
    LoneMinus([MINUS], 1);
    var w := SpaceCount(s);
    assert s[w..|s|] == [MINUS];
    assert s == s[..w] + [MINUS];
    assert AllSpace(s[..w]);
  }

  lemma LoneMinusFlat()
    ensures Shape(LONE_MINUS) && Flatten(LONE_MINUS) == [Number([MINUS])]
  {
  }

  ghost predicate Spelled(l: Lexeme) {
    exists text :: Spells(text, l)
  }

  lemma JsonTextLexes(s: bytes, t: Syntax)
    requires JsonText(s, t)
    ensures LexAll(s) == if Sound(t) then Some(TokensOf(Lexemes(t))) else None
    ensures forall i :: 0 <= i < |Lexemes(t)| ==> Spelled(Lexemes(t)[i])
  {
    hide Lexemes, Spells, LexAll, AllSound, TokensOf, NumbersEnd;
    var ps: seq<Piece>, end: bytes :| IsLayout(s, Lexemes(t), ps, end);
    LexemesNumbersEnd(t);
    LayoutLexes(ps, end, Lexemes(t));
    forall i | 0 <= i < |Lexemes(t)|
      ensures Spelled(Lexemes(t)[i])
    {
      assert Spells(ps[i].text, Lexemes(t)[i]);
    }
  }

  /** Of the JSON texts, read accepts exactly those whose strings are all made of
      whole characters with paired surrogate halves, and stores their tree. */
  lemma JsonTextRead(s: bytes, t: Syntax)
    requires JsonText(s, t)
    ensures Read(s).ok <==> Sound(t)
    ensures Sound(t) ==> Read(s).tree == Stored(t)
  {
    hide Read, LexAll, Lexemes, Stored, Flatten, Shape, JsonText, AllSound;
    JsonTextLexes(s, t);
    StoredTokens(t);
    ReadExact(s, Stored(t));
    ReadAccepts(s);
  }

  // A lone minus sign is no JSON text.
  lemma MinusIsNoJson(s: bytes, t: Syntax)
    requires JsonText(s, t)
    ensures !MinusText(s)
  {
    hide LexAll, JsonText, AllSound, MinusText;
    if MinusText(s) {
      JsonTextLexes(s, t);
      MinusTextReads(s);
      LoneMinusFlat();
      var ls := Lexemes(t);
      assert TokensOf(ls)[0] == TokenOf(ls[0]) == Number([MINUS]);
      assert Spelled(ls[0]);
      LoneMinus([MINUS], 1);
      assert false;
    }
  }

  /** On bytes: what read accepts is the JSON texts of sections 2 to 7 of RFC 8259
      whose strings are sound, with the tree stored for them, and besides these
      whitespace and a lone minus sign. */
  lemma ReadIsJson(s: bytes, v: Value)
    ensures Read(s) == ReadResult(true, v) <==>
            (exists t :: JsonText(s, t) && Sound(t) && Stored(t) == v) || (MinusText(s) && v == LONE_MINUS)
  {
    hide Read, LexAll, Flatten, Shape, IsLayout, MinusText, JsonText, Sound, Stored;
    ReadExact(s, v);
    if Read(s) == ReadResult(true, v) {
      LexAllTokens(s);
      if TokensOk(LexAll(s).value) {
        var t := SyntaxRead(s, v);
        assert JsonText(s, t) && Sound(t) && Stored(t) == v;
      } else {
        FlattenEndsInNumber(v);
        LoneMinusFlat();
        OnlyMinusReads(s);
      }
    }
    if t :| JsonText(s, t) && Sound(t) && Stored(t) == v {
      JsonTextRead(s, t);
    }
    if MinusText(s) {
      MinusTextReads(s);
      LoneMinusIllFormed();
    }
  }

  lemma SyntaxRead(s: bytes, v: Value) returns (t: Syntax)
    requires Shape(v) && LexAll(s) == Some(Flatten(v)) && TokensOk(Flatten(v))
    ensures JsonText(s, t) && Sound(t) && Stored(t) == v
  {
    hide LexAll, Flatten, Shape, IsLayout, Lexemes, Stored, AllWrite, AllSound;
    var ls, ps, end := TokensLaidOut(s);
    t := Respelled(v, ls);
    AllWriteSound(ls, Flatten(v));
  }
}
