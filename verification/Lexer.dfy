/** getJsonToken: the token at the front of a byte string, and the token list of a whole input. */
module Lexer {
  import opened Bytes
  import opened Bits
  import opened Filter
  import opened FilterRuns
  import opened Numbers
  import opened Strings
  import opened Values

  // A token and how many bytes of input it takes, leading whitespace included.
  datatype Lexed = Lexed(tok: Token, consumed: nat)

  const FAILED := Lexed(TokErr, 0)

  function Keyword(s: bytes): Lexed {
    if NULL_TEXT <= s then Lexed(KwNull, 4)
    else if TRUE_TEXT <= s then Lexed(KwTrue, 4)
    else if FALSE_TEXT <= s then Lexed(KwFalse, 5)
    else FAILED
  }

  function LexNumber(s: bytes): Lexed
    requires |s| > 0 && (s[0] == MINUS || IsDigit(s[0]))
  {
    var n := ScanNumber(s);
    if n.Some? then Lexed(Number(s[..n.value]), n.value) else FAILED
  }

  // The token of an input that starts with no whitespace.
  function LexBare(s: bytes): (r: Lexed)
    requires |s| > 0
    ensures r.tok.TokErr? ==> r.consumed == 0
    ensures !r.tok.TokErr? ==> 1 <= r.consumed <= |s| && !r.tok.TokNone?
  {
    var c := s[0];
    if c == LBRACE then Lexed(ObjOpen, 1)
    else if c == RBRACE then Lexed(ObjClose, 1)
    else if c == LBRACKET then Lexed(ArrOpen, 1)
    else if c == RBRACKET then Lexed(ArrClose, 1)
    else if c == COLON then Lexed(Token.Colon, 1)
    else if c == COMMA then Lexed(Token.Comma, 1)
    else if c == 0x6E || c == 0x74 || c == 0x66 then Keyword(s)
    else if c == MINUS || IsDigit(c) then LexNumber(s)
    else if c == QUOTE then
      var t := LexString(s[1..]);
      if t.Some? then Lexed(String(t.value.text), 1 + t.value.length) else FAILED
    else FAILED
  }

  function LexToken(s: bytes): (r: Lexed)
    ensures r.tok.TokErr? || r.tok.TokNone? ==> r.consumed == 0
    ensures !r.tok.TokErr? && !r.tok.TokNone? ==> 1 <= r.consumed <= |s|
  {
    var w := SpaceCount(s);
    if w == |s| then Lexed(TokNone, 0)
    else
      var r := LexBare(s[w..]);
      if r.tok.TokErr? then FAILED else Lexed(r.tok, w + r.consumed)
  }

  // ---- The lexer itself ----

  // strncmp(buf + at, text, |text|) == 0: compares byte by byte and stops at the first difference.
  predicate StrncmpEqual(buf: bytes, at: nat, text: bytes)
    requires at <= |buf|
    decreases |text|
  {
    |text| == 0 || (at < |buf| && buf[at] == text[0] && StrncmpEqual(buf, at + 1, text[1..]))
  }

  // The NUL after the input keeps the comparison inside it.
  lemma {:induction false} StrncmpIsPrefix(buf: bytes, at: nat, end: nat, text: bytes)
    requires at <= end < |buf| && buf[end] == NUL && NUL !in text
    ensures StrncmpEqual(buf, at, text) <==> text <= buf[at..end]
    decreases |text|
  {
    if |text| > 0 {
      var s := buf[at..end];
      assert text[0] in text;
      if at < end && buf[at] == text[0] {
        StrncmpIsPrefix(buf, at + 1, end, text[1..]);
        assert s[1..] == buf[at + 1..end];
        assert text == [text[0]] + text[1..] && s == [s[0]] + s[1..];
      } else if at < end {
        assert s[0] != text[0];
      }
    }
  }

  // hatoui: converts the leading hexadecimal digits, wrapping at 32 bits.
  method Hatoui(buf: bytes, first: nat, last: nat) returns (stop: nat, out: uint32)
    requires first <= last <= |buf|
    ensures first <= stop <= last && AllHex(buf[first..stop])
    ensures stop < last ==> HexValue(buf[stop]).None?
    ensures out == HexNumber(buf[first..stop]) % TWO_TO_32
  {
    hide HexNumber, HexValue;
    out, stop := 0, first;
    HexStep(buf, first, first);
    while stop != last
      invariant first <= stop <= last && AllHex(buf[first..stop])
      invariant out == HexNumber(buf[first..stop]) % TWO_TO_32
    {
      var digit := HexValue(buf[stop]);
      if digit.None? {
        break;
      }
      HexStep(buf, first, stop);
      WrapStep(HexNumber(buf[first..stop]), digit.value);
      out := (16 * out + digit.value) % TWO_TO_32;
      stop := stop + 1;
    }
  }

  lemma HexStep(buf: bytes, first: nat, stop: nat)
    requires first <= stop <= |buf| && AllHex(buf[first..stop])
    ensures AllHex(buf[first..first]) && HexNumber(buf[first..first]) == 0
    ensures stop < |buf| && HexValue(buf[stop]).Some? ==>
              AllHex(buf[first..stop + 1])
              && HexNumber(buf[first..stop + 1]) == 16 * HexNumber(buf[first..stop]) + HexValue(buf[stop]).value
  {
    hide HexValue;
    if stop < |buf| {
      assert buf[first..stop + 1][..stop - first] == buf[first..stop];
    }
  }

  lemma WrapStep(n: nat, d: nat)
    ensures (16 * (n % TWO_TO_32) + d) % TWO_TO_32 == (16 * n + d) % TWO_TO_32
  {
    var q := n / TWO_TO_32;
    WrapMultiple(16 * (n % TWO_TO_32) + d, 16 * q);
  }

  lemma WrapMultiple(x: nat, k: nat)
    ensures (x + k * TWO_TO_32) % TWO_TO_32 == x % TWO_TO_32
  {
  }

  // while (raw < end && json_isdigit(*raw)) { numStr += *raw; raw++; }
  method CopyDigits(buf: bytes, raw0: nat, end: nat, numStr0: bytes) returns (raw: nat, numStr: bytes)
    requires raw0 <= end <= |buf|
    ensures raw == raw0 + DigitCount(buf[raw0..end])
    ensures numStr == numStr0 + buf[raw0..raw]
  {
    hide DigitCount;
    raw, numStr := raw0, numStr0;
    while raw < end && IsDigit(buf[raw])
      invariant raw0 <= raw <= end
      invariant numStr == numStr0 + buf[raw0..raw]
      invariant DigitCount(buf[raw0..end]) == raw - raw0 + DigitCount(buf[raw..end])
    {
      DigitCountStep(buf, raw, end);
      assert buf[raw0..raw + 1] == buf[raw0..raw] + [buf[raw]];
      numStr := numStr + [buf[raw]];
      raw := raw + 1;
    }
    DigitCountStep(buf, raw, end);
  }

  lemma DigitCountStep(buf: bytes, raw: nat, end: nat)
    requires raw <= end <= |buf|
    ensures DigitCount(buf[raw..end]) ==
            if raw < end && IsDigit(buf[raw]) then 1 + DigitCount(buf[raw + 1..end]) else 0
  {
    if raw < end {
      assert buf[raw..end][1..] == buf[raw + 1..end];
    }
  }

  // The scan of a number, read off the buffer.
  lemma ScanNumberAt(buf: bytes, first: nat, end: nat)
    requires first < end < |buf| && buf[end] == NUL
    requires buf[first] == MINUS || IsDigit(buf[first])
    ensures var d := if IsDigit(buf[first]) then first else first + 1;
      d <= end && (buf[d] == ZERO ==> d < end)
      && ScanNumber(buf[first..end]) ==
         if buf[d] == ZERO && IsDigit(buf[d + 1]) then None
         else if buf[first] == MINUS && first + 1 < end && !IsDigit(buf[first + 1]) then None
         else
           var i := 1 + DigitCount(buf[first + 1..end]);
           var t := ScanTail(buf[first + i..end]);
           if t.None? then None else Some(i + t.value)
  {
    hide ScanTail, DigitCount;
    var s := buf[first..end];
    assert s[0] == buf[first] && (first + 1 < end ==> s[1] == buf[first + 1]);
    assert first + 2 < end ==> s[2] == buf[first + 2];
    assert s[1..] == buf[first + 1..end];
    var i := 1 + DigitCount(s[1..]);
    assert s[i..] == buf[first + i..end];
  }

  // The JTOK_NUMBER case; first is where the number starts.
  method ReadNumber(buf: bytes, first: nat, end: nat) returns (tok: Token, raw: nat)
    requires first < end < |buf| && buf[end] == NUL
    requires buf[first] == MINUS || IsDigit(buf[first])
    ensures first <= raw <= end
    ensures Lexed(tok, if tok.TokErr? then 0 else raw - first) == LexNumber(buf[first..end])
  {
    hide ScanNumber, ScanTail, DigitCount, LexNumber;
    ScanNumberAt(buf, first, end);
    LexNumberAt(buf, first, end);
    raw := first;
    var firstDigit := first;
    if !IsDigit(buf[firstDigit]) {
      firstDigit := firstDigit + 1;
    }
    if buf[firstDigit] == ZERO && IsDigit(buf[firstDigit + 1]) {
      return TokErr, raw;
    }
    var numStr := [buf[raw]];
    raw := raw + 1;
    if buf[first] == MINUS && raw < end && !IsDigit(buf[raw]) {
      return TokErr, raw;
    }
    raw, numStr := CopyDigits(buf, raw, end, numStr);
    ghost var i := raw;
    var ok: bool;
    ok, raw, numStr := ReadTail(buf, raw, end, numStr);
    if !ok {
      return TokErr, raw;
    }
    OneSlice(buf, first);
    JoinSlices(buf, first, first + 1, i);
    JoinSlices(buf, first, i, raw);
    return Number(numStr), raw;
  }

  lemma LexNumberAt(buf: bytes, first: nat, end: nat)
    requires first < end < |buf| && (buf[first] == MINUS || IsDigit(buf[first]))
    ensures var n := ScanNumber(buf[first..end]);
      LexNumber(buf[first..end]) ==
        if n.Some? then Lexed(Number(buf[first..first + n.value]), n.value) else FAILED
  {
    hide ScanNumber;
    var n := ScanNumber(buf[first..end]);
    if n.Some? {
      assert buf[first..end][..n.value] == buf[first..first + n.value];
    }
  }

  // Parts 2 and 3 of the number case: fraction, then exponent.
  method ReadTail(buf: bytes, raw0: nat, end: nat, numStr0: bytes)
    returns (ok: bool, raw: nat, numStr: bytes)
    requires raw0 <= end < |buf|
    ensures raw0 <= raw <= end
    ensures ok <==> ScanTail(buf[raw0..end]).Some?
    ensures ok ==> raw == raw0 + ScanTail(buf[raw0..end]).value && numStr == numStr0 + buf[raw0..raw]
  {
    hide ScanFrac, ScanExp;
    ok, raw, numStr := ReadFrac(buf, raw0, end, numStr0);
    if ok {
      ghost var mid := raw;
      assert buf[raw0..end][mid - raw0..] == buf[mid..end];
      ok, raw, numStr := ReadExp(buf, raw, end, numStr);
      JoinSlices(buf, raw0, mid, raw);
      Concat3(numStr0, buf[raw0..mid], buf[mid..raw]);
    }
  }

  method ReadFrac(buf: bytes, raw0: nat, end: nat, numStr0: bytes)
    returns (ok: bool, raw: nat, numStr: bytes)
    requires raw0 <= end < |buf|
    ensures raw0 <= raw <= end
    ensures ok <==> ScanFrac(buf[raw0..end]).Some?
    ensures ok ==> raw == raw0 + ScanFrac(buf[raw0..end]).value && numStr == numStr0 + buf[raw0..raw]
  {
    hide DigitCount;
    raw, numStr := raw0, numStr0;
    if raw < end && buf[raw] == DOT {
      numStr := numStr + [buf[raw]];
      raw := raw + 1;
      if raw >= end || !IsDigit(buf[raw]) {
        return false, raw, numStr;
      }
      assert buf[raw0..end][1..] == buf[raw..end];
      raw, numStr := CopyDigits(buf, raw, end, numStr);
      assert [buf[raw0]] + buf[raw0 + 1..raw] == buf[raw0..raw];
    }
    return true, raw, numStr;
  }

  method ReadExp(buf: bytes, raw0: nat, end: nat, numStr0: bytes)
    returns (ok: bool, raw: nat, numStr: bytes)
    requires raw0 <= end < |buf|
    ensures raw0 <= raw <= end
    ensures ok <==> ScanExp(buf[raw0..end]).Some?
    ensures ok ==> raw == raw0 + ScanExp(buf[raw0..end]).value && numStr == numStr0 + buf[raw0..raw]
  {
    hide DigitCount, ScanExp;
    ScanExpAt(buf, raw0, end);
    raw, numStr := raw0, numStr0;
    if raw < end && (buf[raw] == 0x65 || buf[raw] == 0x45) {
      numStr := numStr + [buf[raw]];
      raw := raw + 1;
      if raw < end && (buf[raw] == 0x2D || buf[raw] == 0x2B) {
        numStr := numStr + [buf[raw]];
        raw := raw + 1;
      }
      assert numStr == numStr0 + buf[raw0..raw];
      if raw >= end || !IsDigit(buf[raw]) {
        return false, raw, numStr;
      }
      ghost var mid := raw;
      raw, numStr := CopyDigits(buf, raw, end, numStr);
      JoinSlices(buf, raw0, mid, raw);
      Concat3(numStr0, buf[raw0..mid], buf[mid..raw]);
    }
    return true, raw, numStr;
  }

  // The scan of an exponent, read off the buffer.
  lemma ScanExpAt(buf: bytes, raw: nat, end: nat)
    requires raw <= end <= |buf|
    ensures ScanExp(buf[raw..end]) ==
            if raw < end && IsMark(buf[raw]) then
              var i := if raw + 1 < end && IsSign(buf[raw + 1]) then raw + 2 else raw + 1;
              if i >= end || !IsDigit(buf[i]) then None else Some(i - raw + DigitCount(buf[i..end]))
            else Some(0)
  {
    hide DigitCount;
    var s := buf[raw..end];
    if raw + 1 < end {
      assert s[1] == buf[raw + 1] && s[1..] == buf[raw + 1..end];
    }
    if raw + 2 < end {
      assert s[2] == buf[raw + 2] && s[2..] == buf[raw + 2..end];
    }
  }

  // The escape after a backslash at raw0; raw is past the escaped character.
  method ReadEscape(buf: bytes, raw0: nat, end: nat, writer: JSONUTF8StringFilter)
    returns (ok: bool, raw: nat, ghost e: Event)
    requires raw0 < end < |buf| && buf[raw0] == BACKSLASH
    requires writer.Valid()
    modifies writer
    ensures raw0 < raw <= end && writer.Valid()
    ensures ok ==> StringBody(buf[raw0..end]) == Before([e], raw - raw0, StringBody(buf[raw..end]))
    ensures ok ==> writer.Model() == Push(old(writer.Model()), e)
    ensures !ok ==> StringBody(buf[raw0..end]).None?
  {
    hide PushRaw, PushCode, HexNumber, HexValue, Inv;
    ghost var s := buf[raw0..end];
    e := Raw(0);
    raw := raw0 + 1;
    if raw >= end {
      return false, raw, e;
    }
    assert s[1] == buf[raw];
    if SimpleEscape(buf[raw]).Some? {
      var b := SimpleEscape(buf[raw]).value;
      writer.PushBack(b);
      e := Raw(b);
      assert s[2..] == buf[raw + 1..end];
    } else if buf[raw] == 0x75 {
      if raw + 1 + 4 >= end {
        return false, raw, e;
      }
      var stop, codepoint := Hatoui(buf, raw + 1, raw + 1 + 4);
      SubSlice(buf, raw0, end, 2, 6);
      if stop != raw + 1 + 4 {
        assert s[2..6][stop - raw - 1] == buf[stop];
        return false, raw, e;
      }
      HexNumber4(s[2..6]);
      writer.PushBackU(codepoint);
      e := Code(codepoint);
      assert s[6..] == buf[raw + 5..end];
      raw := raw + 4;
    } else {
      return false, raw, e;
    }
    raw := raw + 1;
    return true, raw, e;
  }

  // How a string body starts, by its first byte.
  lemma BodySteps(buf: bytes, raw: nat, end: nat)
    requires raw <= end <= |buf|
    ensures raw == end || buf[raw] < 0x20 ==> StringBody(buf[raw..end]).None?
    ensures raw < end && buf[raw] == QUOTE ==> StringBody(buf[raw..end]) == Some(Body([], 1))
    ensures raw < end && buf[raw] >= 0x20 && buf[raw] != QUOTE && buf[raw] != BACKSLASH ==>
              StringBody(buf[raw..end]) == Before([Raw(buf[raw])], 1, StringBody(buf[raw + 1..end]))
  {
    if raw < end {
      assert buf[raw..end][1..] == buf[raw + 1..end];
    }
  }

  // The string case; raw0 is just after the opening quote.
  method ReadString(buf: bytes, raw0: nat, end: nat) returns (tok: Token, raw: nat)
    requires raw0 <= end < |buf|
    ensures raw0 <= raw
    ensures LexString(buf[raw0..end]) == if tok.String? then Some(StringToken(tok.text, raw - raw0)) else None
    ensures tok.String? || tok.TokErr?
  {
    hide PushRaw, PushCode, Run, StringBody, Inv;
    raw := raw0;
    var writer := new JSONUTF8StringFilter();
    ghost var whole := StringBody(buf[raw0..end]);
    ghost var es: seq<Event> := [];
    RunEmpty(INITIAL);
    BeforeNothing(StringBody(buf[raw..end]));
    var open := true;
    while open
      invariant fresh(writer) && writer.Valid()
      invariant raw0 <= raw <= end
      invariant writer.Model() == Run(INITIAL, es)
      invariant whole == if open then Before(es, raw - raw0, StringBody(buf[raw..end]))
                         else Some(Body(es, raw - raw0))
      decreases end - raw, open
    {
      ghost var raw1 := raw;
      BodySteps(buf, raw, end);
      if raw >= end || buf[raw] < 0x20 {
        return TokErr, raw;
      } else if buf[raw] == BACKSLASH {
        var ok: bool;
        ghost var e: Event;
        ok, raw, e := ReadEscape(buf, raw, end, writer);
        if !ok {
          return TokErr, raw;
        }
        BeforeBefore(es, raw1 - raw0, [e], raw - raw1, StringBody(buf[raw..end]));
        RunAppend(INITIAL, es, e);
        es := es + [e];
      } else if buf[raw] == QUOTE {
        raw := raw + 1;
        open := false;
        assert es + [] == es;
      } else {
        writer.PushBack(buf[raw]);
        raw := raw + 1;
        BeforeBefore(es, raw1 - raw0, [Raw(buf[raw1])], 1, StringBody(buf[raw..end]));
        RunAppend(INITIAL, es, Raw(buf[raw1]));
        es := es + [Raw(buf[raw1])];
      }
    }
    var valid := writer.Finalize();
    if !valid {
      return TokErr, raw;
    }
    return String(writer.str), raw;
  }

  lemma RunAppend(f: State, es: seq<Event>, e: Event)
    ensures Run(f, es + [e]) == Push(Run(f, es), e)
  {
    hide Run, Push;
    RunConcat(f, es, [e]);
    RunOne(Run(f, es), e);
  }

  method SkipSpace(buf: bytes, raw0: nat, end: nat) returns (raw: nat)
    requires raw0 <= end <= |buf|
    ensures raw == raw0 + SpaceCount(buf[raw0..end])
  {
    hide SpaceCount;
    raw := raw0;
    while raw < end && IsSpace(buf[raw])
      invariant raw0 <= raw <= end
      invariant SpaceCount(buf[raw0..end]) == raw - raw0 + SpaceCount(buf[raw..end])
    {
      SpaceCountStep(buf, raw, end);
      raw := raw + 1;
    }
    SpaceCountStep(buf, raw, end);
  }

  lemma SpaceCountStep(buf: bytes, raw: nat, end: nat)
    requires raw <= end <= |buf|
    ensures SpaceCount(buf[raw..end]) ==
            if raw < end && IsSpace(buf[raw]) then 1 + SpaceCount(buf[raw + 1..end]) else 0
  {
    if raw < end {
      assert buf[raw..end][1..] == buf[raw + 1..end];
    }
  }

  /** getJsonToken(tokenVal, consumed, buf + rawStart, buf + end). The text in
      tokenVal comes back inside the token. buf[end] is the terminating NUL of
      the string, at which the keyword and number cases may look. */
  method GetJsonToken(buf: bytes, rawStart: nat, end: nat) returns (tok: Token, consumed: nat)
    requires rawStart <= end < |buf| && buf[end] == NUL
    ensures Lexed(tok, consumed) == LexToken(buf[rawStart..end])
  {
    hide SpaceCount, LexString, LexNumber;
    consumed := 0;
    var raw := SkipSpace(buf, rawStart, end);
    ghost var s := buf[rawStart..end];
    ghost var w := raw - rawStart;
    assert s[w..] == buf[raw..end];
    if raw >= end {
      return TokNone, 0;
    }
    var c := buf[raw];
    assert s[w..][0] == c;
    if c == LBRACE {
      raw := raw + 1;
      return ObjOpen, raw - rawStart;
    } else if c == RBRACE {
      raw := raw + 1;
      return ObjClose, raw - rawStart;
    } else if c == LBRACKET {
      raw := raw + 1;
      return ArrOpen, raw - rawStart;
    } else if c == RBRACKET {
      raw := raw + 1;
      return ArrClose, raw - rawStart;
    } else if c == COLON {
      raw := raw + 1;
      return Token.Colon, raw - rawStart;
    } else if c == COMMA {
      raw := raw + 1;
      return Token.Comma, raw - rawStart;
    } else if c == 0x6E || c == 0x74 || c == 0x66 {
      KeywordIsStrncmp(buf, raw, end);
      if StrncmpEqual(buf, raw, NULL_TEXT) {
        raw := raw + 4;
        return KwNull, raw - rawStart;
      } else if StrncmpEqual(buf, raw, TRUE_TEXT) {
        raw := raw + 4;
        return KwTrue, raw - rawStart;
      } else if StrncmpEqual(buf, raw, FALSE_TEXT) {
        raw := raw + 5;
        return KwFalse, raw - rawStart;
      } else {
        return TokErr, 0;
      }
    } else if c == MINUS || IsDigit(c) {
      tok, raw := ReadNumber(buf, raw, end);
      consumed := if tok.TokErr? then 0 else raw - rawStart;
    } else if c == QUOTE {
      assert s[w..][1..] == buf[raw + 1..end];
      tok, raw := ReadString(buf, raw + 1, end);
      consumed := if tok.TokErr? then 0 else raw - rawStart;
    } else {
      return TokErr, 0;
    }
  }

  lemma KeywordIsStrncmp(buf: bytes, raw: nat, end: nat)
    requires raw < end < |buf| && buf[end] == NUL
    ensures StrncmpEqual(buf, raw, NULL_TEXT) <==> NULL_TEXT <= buf[raw..end]
    ensures StrncmpEqual(buf, raw, TRUE_TEXT) <==> TRUE_TEXT <= buf[raw..end]
    ensures StrncmpEqual(buf, raw, FALSE_TEXT) <==> FALSE_TEXT <= buf[raw..end]
  {
    StrncmpIsPrefix(buf, raw, end, NULL_TEXT);
    StrncmpIsPrefix(buf, raw, end, TRUE_TEXT);
    StrncmpIsPrefix(buf, raw, end, FALSE_TEXT);
  }
}
