/** Token lists of whole inputs, and what every token the lexer returns satisfies. */
module TokenLists {
  import opened Bytes
  import opened Lexer
  import opened Numbers
  import opened Strings
  import opened Utf8
  import opened Values

  predicate IsEnd(t: Token) {
    t.TokErr? || t.TokNone?
  }

  function Prepend(ts: seq<Token>, rest: Option<seq<Token>>): Option<seq<Token>> {
    if rest.Some? then Some(ts + rest.value) else None
  }

  // The tokens of s up to the end of input; None if some part of s is no token.
  function LexAll(s: bytes): Option<seq<Token>>
    decreases |s|
  {
    var r := LexToken(s);
    if r.tok.TokErr? then None
    else if r.tok.TokNone? then Some([])
    else Prepend([r.tok], LexAll(s[r.consumed..]))
  }

  lemma PrependPrepend(a: seq<Token>, b: seq<Token>, rest: Option<seq<Token>>)
    ensures Prepend(a, Prepend(b, rest)) == Prepend(a + b, rest)
  {
    if rest.Some? {
      assert a + (b + rest.value) == (a + b) + rest.value;
    }
  }

  lemma PrependNothing(rest: Option<seq<Token>>)
    ensures Prepend([], rest) == rest
  {
    if rest.Some? {
      assert [] + rest.value == rest.value;
    }
  }

  // ---- Progress and whitespace ----

  /** Every token but the end markers consumes at least one and at most all of
      the remaining bytes; the end marker means exactly that only whitespace is left. */
  lemma LexProgress(s: bytes)
    ensures !IsEnd(LexToken(s).tok) ==> 1 <= LexToken(s).consumed <= |s|
    ensures IsEnd(LexToken(s).tok) ==> LexToken(s).consumed == 0
    ensures LexToken(s).tok.TokNone? <==> AllSpace(s)
  {
    hide LexBare;
    if AllSpace(s) {
      SpaceCountUnique(s, |s|);
      assert s[..|s|] == s;
    } else if SpaceCount(s) == |s| {
      assert s[..|s|] == s;
    }
  }

  // Leading whitespace changes only the number of bytes consumed, by its own length.
  lemma LexSkipsSpace(w: bytes, s: bytes)
    requires AllSpace(w)
    ensures LexToken(w + s).tok == LexToken(s).tok
    ensures LexToken(w + s).consumed == if IsEnd(LexToken(s).tok) then 0 else |w| + LexToken(s).consumed
  {
    hide LexBare, SpaceCount;
    var n := SpaceCount(s);
    var t := w + s;
    assert t[..|w| + n] == w + s[..n];
    assert |w| + n < |t| ==> t[|w| + n] == s[n];
    SpaceCountUnique(t, |w| + n);
    assert t[|w| + n..] == s[n..];
  }

  lemma LexAllSkipsSpace(w: bytes, s: bytes)
    requires AllSpace(w)
    ensures LexAll(w + s) == LexAll(s)
  {
    hide LexToken;
    LexSkipsSpace(w, s);
    var n := LexToken(s).consumed;
    if !IsEnd(LexToken(s).tok) {
      assert (w + s)[|w| + n..] == s[n..];
    }
  }

  lemma LexAllStep(t: bytes, tok: Token, rest: bytes)
    requires LexToken(t + rest) == Lexed(tok, |t|) && !IsEnd(tok)
    ensures LexAll(t + rest) == Prepend([tok], LexAll(rest))
  {
    hide LexToken;
    assert (t + rest)[|t|..] == rest;
  }

  // ---- Number tokens ----

  /** A number token is the consumed source text after the whitespace, and that
      text is a number of RFC 8259; the one exception is a lone minus sign that
      ends the input. */
  lemma NumberToken(s: bytes)
    requires LexToken(s).tok.Number?
    ensures var r := LexToken(s); var w := SpaceCount(s);
      && w < r.consumed && r.tok.text == s[w..r.consumed]
      && (IsNumber(r.tok.text) || (r.tok.text == [MINUS] && r.consumed == |s|))
      && (IsNumber(r.tok.text) <==> r.tok.text != [MINUS])
  {
    hide LexToken, LexBare, LexNumber, IsNumber;
    var w := SpaceCount(s);
    TokenAfterSpace(s);
    BareNumber(s[w..]);
    NumberText(s[w..]);
    var n := LexNumber(s[w..]).consumed;
    assert s[w..][..n] == s[w..w + n];
  }

  lemma TokenAfterSpace(s: bytes)
    requires !IsEnd(LexToken(s).tok)
    ensures var w := SpaceCount(s);
      && w < |s|
      && LexToken(s) == Lexed(LexBare(s[w..]).tok, w + LexBare(s[w..]).consumed)
  {
    hide LexBare, SpaceCount;
  }

  lemma BareNumber(t: bytes)
    requires |t| > 0 && LexBare(t).tok.Number?
    ensures t[0] == MINUS || IsDigit(t[0])
    ensures LexBare(t) == LexNumber(t)
  {
    hide LexString, LexNumber;
    KeywordKinds(t);
  }

  lemma NumberText(t: bytes)
    requires |t| > 0 && (t[0] == MINUS || IsDigit(t[0])) && LexNumber(t).tok.Number?
    ensures var r := LexNumber(t);
      && 0 < r.consumed <= |t| && r.tok.text == t[..r.consumed]
      && (IsNumber(r.tok.text) || (r.tok.text == [MINUS] && r.consumed == |t|))
      && (IsNumber(r.tok.text) <==> r.tok.text != [MINUS])
  {
    hide ScanNumber, IsNumber, ValidParts, PartsText, Follows;
    var n := ScanNumber(t).value;
    LoneMinus([MINUS], 1);
    ScanExact(t, n);
    if t == [MINUS] {
      LoneMinus(t, n);
    } else {
      var p :| ValidParts(p) && PartsText(p) == t[..n];
      PartsAreNumber(p);
    }
  }

  lemma PartsAreNumber(p: Parts)
    requires ValidParts(p)
    ensures IsNumber(PartsText(p))
  {
  }

  // A number of RFC 8259 before a byte that cannot extend any number lexes to exactly itself.
  lemma NumberLexes(t: bytes, rest: bytes)
    requires IsNumber(t) && EndsNumber(rest)
    ensures LexToken(t + rest) == Lexed(Number(t), |t|)
  {
    hide IsNumber, ScanNumber;
    ScanNumberText(t, rest);
    var s := t + rest;
    assert s[0] == t[0];
    SpaceCountUnique(s, 0);
    assert s[0..] == s && s[..|t|] == t;
  }

  // ---- String tokens ----

  /** A quote, json_escape(s) and a quote lex to the string token s, whatever
      follows, exactly when s is a fixed point of the filter. */
  lemma EscapedStringLexes(s: bytes, rest: bytes)
    ensures LexToken([QUOTE] + Escape(s) + [QUOTE] + rest) == Lexed(String(s), |Escape(s)| + 2) <==> Normal(s)
  {
    hide Escape, Normal, LexString, Keyword, LexNumber;
    var t := [QUOTE] + Escape(s) + [QUOTE] + rest;
    SpaceCountUnique(t, 0);
    assert t[0..] == t && t[1..] == Escape(s) + [QUOTE] + rest;
    EscapeRoundTrip(s, rest);
    StringTokensNormal(t[1..]);
  }

  // ---- All tokens ----

  // What the lexer guarantees of a token: text as the grammar has it, or the minus that ends the input.
  lemma TokenFromLexer(s: bytes)
    ensures var r := LexToken(s);
      TokenOk(r.tok) || (r.tok == Number([MINUS]) && r.consumed == |s|)
  {
    hide SpaceCount, IsNumber, Normal, LexString, LexNumber, Keyword;
    var r := LexToken(s);
    if r.tok.Number? {
      NumberToken(s);
    } else if r.tok.String? {
      var t := s[SpaceCount(s)..];
      KeywordKinds(t);
      if t[0] == MINUS || IsDigit(t[0]) {
        NumberKinds(t);
      }
      StringTokensNormal(t[1..]);
    }
  }

  lemma KeywordKinds(s: bytes)
    ensures !Keyword(s).tok.String? && !Keyword(s).tok.Number?
  {
  }

  lemma NumberKinds(s: bytes)
    requires |s| > 0 && (s[0] == MINUS || IsDigit(s[0]))
    ensures !LexNumber(s).tok.String?
  {
  }

  // Every token of an input is as the grammar has it, but the last may be a lone minus sign.
  lemma {:induction false} LexAllTokens(s: bytes)
    requires LexAll(s).Some?
    ensures var ts := LexAll(s).value;
      TokensOk(ts) || (|ts| > 0 && ts[|ts| - 1] == Number([MINUS]) && TokensOk(ts[..|ts| - 1]))
    decreases |s|
  {
    hide LexToken, TokenOk;
    var r := LexToken(s);
    if !IsEnd(r.tok) {
      var rest := s[r.consumed..];
      LexAllTokens(rest);
      TokenFromLexer(s);
      var ts := LexAll(rest).value;
      assert LexAll(s).value == [r.tok] + ts;
      if TokenOk(r.tok) {
        TokensOkConcat([r.tok], ts);
        if |ts| > 0 {
          TokensOkConcat([r.tok], ts[..|ts| - 1]);
          assert ([r.tok] + ts)[..|ts|] == [r.tok] + ts[..|ts| - 1];
        }
      } else {
        assert rest == [];
        LexEmpty();
      }
    }
  }

  lemma LexEmpty()
    ensures LexAll([]) == Some([])
  {
  }

  // No token list contains the end markers.
  lemma {:induction false} LexAllReal(s: bytes)
    requires LexAll(s).Some?
    ensures forall i :: 0 <= i < |LexAll(s).value| ==> !IsEnd(LexAll(s).value[i])
    decreases |s|
  {
    hide LexToken;
    var r := LexToken(s);
    if !IsEnd(r.tok) {
      LexAllReal(s[r.consumed..]);
    }
  }
}
