/** JSON strings: the escape table, the writer's escaping, the lexer's unescaping
    into filter calls, and the proof that the second undoes the first. */
module Strings {
  import opened Bytes
  import opened Utf8
  import opened Filter
  import opened FilterRuns

  // ---- Hexadecimal ----

  function HexDigit(n: nat): byte
    requires n < 16
  {
    if n < 10 then 0x30 + n else 0x61 + (n - 10)
  }

  function HexValue(b: byte): (v: Option<nat>)
    ensures v.Some? ==> v.value < 16
  {
    if IsDigit(b) then Some(b - 0x30)
    else if 0x61 <= b <= 0x66 then Some(b - 0x61 + 10)
    else if 0x41 <= b <= 0x46 then Some(b - 0x41 + 10)
    else None
  }

  predicate AllHex(s: bytes) {
    forall i :: 0 <= i < |s| ==> HexValue(s[i]).Some?
  }

  function HexNumber(s: bytes): (n: nat)
    requires AllHex(s)
  {
    if |s| == 0 then 0 else 16 * HexNumber(s[..|s| - 1]) + HexValue(s[|s| - 1]).value
  }

  lemma HexNumber4(s: bytes)
    requires AllHex(s) && |s| == 4
    ensures HexNumber(s) < 0x1_0000
    ensures HexNumber(s) == HexValue(s[0]).value * 4096 + HexValue(s[1]).value * 256
                            + HexValue(s[2]).value * 16 + HexValue(s[3]).value
  {
    assert s[..3][..2] == s[..2] && s[..2][..1] == s[..1] && s[..1][..0] == [];
    assert HexNumber(s[..1]) == HexValue(s[0]).value;
    assert HexNumber(s[..2]) == 16 * HexNumber(s[..1]) + HexValue(s[1]).value;
    assert HexNumber(s[..3]) == 16 * HexNumber(s[..2]) + HexValue(s[2]).value;
  }

  // ---- The escape table ----

  // \u00XX
  function UnicodeEscape(b: byte): bytes {
    [BACKSLASH, 0x75, ZERO, ZERO, HexDigit(b / 16), HexDigit(b % 16)]
  }

  // escapes[b]: None where the table holds NULL.
  function EscapeOf(b: byte): Option<bytes> {
    if b == 0x08 then Some([BACKSLASH, 0x62])
    else if b == 0x09 then Some([BACKSLASH, 0x74])
    else if b == 0x0A then Some([BACKSLASH, 0x6E])
    else if b == 0x0C then Some([BACKSLASH, 0x66])
    else if b == 0x0D then Some([BACKSLASH, 0x72])
    else if b == QUOTE then Some([BACKSLASH, QUOTE])
    else if b == BACKSLASH then Some([BACKSLASH, BACKSLASH])
    else if b < 0x20 || b == 0x7F then Some(UnicodeEscape(b))
    else None
  }

  function EscapeByte(b: byte): bytes {
    if EscapeOf(b).Some? then EscapeOf(b).value else [b]
  }

  function Escape(s: bytes): bytes {
    if |s| == 0 then [] else Escape(s[..|s| - 1]) + EscapeByte(s[|s| - 1])
  }

  method JsonEscape(inS: bytes) returns (outS: bytes)
    ensures outS == Escape(inS)
  {
    outS := [];
    var i := 0;
    while i < |inS|
      invariant 0 <= i <= |inS|
      invariant outS == Escape(inS[..i])
    {
      var ch := inS[i];
      var escStr := EscapeOf(ch);
      assert inS[..i + 1][..i] == inS[..i];
      if escStr.Some? {
        outS := outS + escStr.value;
      } else {
        outS := outS + [ch];
      }
      i := i + 1;
    }
    assert inS[..i] == inS;
  }

  // ---- Reading a string body ----

  // The byte a two-character escape stands for.
  function SimpleEscape(b: byte): Option<byte> {
    if b == QUOTE then Some(QUOTE)
    else if b == BACKSLASH then Some(BACKSLASH)
    else if b == 0x2F then Some(0x2F)
    else if b == 0x62 then Some(0x08)
    else if b == 0x66 then Some(0x0C)
    else if b == 0x6E then Some(0x0A)
    else if b == 0x72 then Some(0x0D)
    else if b == 0x74 then Some(0x09)
    else None
  }

  // The filter calls a string body makes, and its length with the closing quote.
  datatype Body = Body(events: seq<Event>, length: nat)

  function Before(events: seq<Event>, n: nat, body: Option<Body>): Option<Body> {
    if body.Some? then Some(Body(events + body.value.events, n + body.value.length)) else None
  }

  // s starts after the opening quote.
  function StringBody(s: bytes): (r: Option<Body>)
    ensures r.Some? ==> 0 < r.value.length <= |s|
    decreases |s|
  {
    if |s| == 0 || s[0] < 0x20 then None
    else if s[0] == BACKSLASH then
      if |s| == 1 then None
      else if SimpleEscape(s[1]).Some? then
        Before([Raw(SimpleEscape(s[1]).value)], 2, StringBody(s[2..]))
      else if s[1] == 0x75 && |s| > 6 && AllHex(s[2..6]) then
        Before([Code(HexNumber(s[2..6]))], 6, StringBody(s[6..]))
      else None
    else if s[0] == QUOTE then Some(Body([], 1))
    else Before([Raw(s[0])], 1, StringBody(s[1..]))
  }

  datatype StringToken = StringToken(text: bytes, length: nat)

  // A whole string after its opening quote: the body, filtered.
  function LexString(s: bytes): (r: Option<StringToken>)
    ensures r.Some? ==> 0 < r.value.length <= |s|
  {
    var body := StringBody(s);
    if body.None? then None
    else
      var text := Filtered(body.value.events);
      if text.None? then None else Some(StringToken(text.value, body.value.length))
  }

  lemma BeforeBefore(a: seq<Event>, m: nat, b: seq<Event>, n: nat, body: Option<Body>)
    ensures Before(a, m, Before(b, n, body)) == Before(a + b, m + n, body)
  {
    if body.Some? {
      assert a + (b + body.value.events) == (a + b) + body.value.events;
    }
  }

  lemma BeforeNothing(body: Option<Body>)
    ensures Before([], 0, body) == body
  {
    if body.Some? {
      assert [] + body.value.events == body.value.events;
    }
  }

  // Every string token is in normal form.
  lemma StringTokensNormal(s: bytes)
    ensures LexString(s).Some? ==> Normal(LexString(s).value.text)
  {
    hide StringBody, Run;
    if LexString(s).Some? {
      NormalForm(StringBody(s).value.events);
    }
  }

  // ---- Reading back what was escaped ----

  // The filter call an escaped byte turns into.
  function EscapedEvent(b: byte): Event {
    if EscapeOf(b) == Some(UnicodeEscape(b)) then Code(b) else Raw(b)
  }

  function EscapedEvents(s: bytes): (es: seq<Event>)
    ensures |es| == |s|
  {
    seq(|s|, i requires 0 <= i < |s| => EscapedEvent(s[i]))
  }

  lemma UnicodeEscapeValue(b: byte)
    ensures AllHex(UnicodeEscape(b)[2..6]) && HexNumber(UnicodeEscape(b)[2..6]) == b
  {
    var t := UnicodeEscape(b)[2..6];
    assert t == [ZERO, ZERO, HexDigit(b / 16), HexDigit(b % 16)];
    assert AllHex(t);
    HexNumber4(t);
  }

  lemma BodyOfEscapedByte(b: byte, t: bytes)
    ensures StringBody(EscapeByte(b) + t) == Before([EscapedEvent(b)], |EscapeByte(b)|, StringBody(t))
  {
    hide HexNumber, HexValue, HexDigit;
    var e := EscapeByte(b);
    var s := e + t;
    assert s[|e|..] == t;
    if EscapeOf(b).None? {
      assert s[0] == b;
    } else if EscapeOf(b) == Some(UnicodeEscape(b)) {
      UnicodeEscapeValue(b);
      assert s[0] == BACKSLASH && s[1] == 0x75 && SimpleEscape(0x75).None?;
      assert s[2..6] == UnicodeEscape(b)[2..6];
    } else {
      assert |e| == 2 && s[0] == BACKSLASH && s[1] == e[1];
      assert SimpleEscape(e[1]) == Some(b);
    }
  }

  lemma {:induction false} BodyOfEscaped(s: bytes, t: bytes)
    ensures StringBody(Escape(s) + t) == Before(EscapedEvents(s), |Escape(s)|, StringBody(t))
    decreases |s|
  {
    hide StringBody, EscapeByte, EscapedEvent;
    if |s| == 0 {
      assert Escape(s) + t == t;
      assert StringBody(t).Some? ==> EscapedEvents(s) + StringBody(t).value.events == StringBody(t).value.events;
    } else {
      var front, b := s[..|s| - 1], s[|s| - 1];
      assert Escape(s) + t == Escape(front) + (EscapeByte(b) + t);
      BodyOfEscaped(front, EscapeByte(b) + t);
      BodyOfEscapedByte(b, t);
      BeforeBefore(EscapedEvents(front), |Escape(front)|, [EscapedEvent(b)], |EscapeByte(b)|, StringBody(t));
      assert EscapedEvents(s) == EscapedEvents(front) + [EscapedEvent(b)];
    }
  }

  // Escaped or not, a shortest-form encoding reaches the filter as the same character.
  lemma RunEscapedEncode(f: State, c: nat)
    requires f.need == 0 && f.code == 0 && f.high == 0 && IsScalar(c)
    ensures Run(f, EscapedEvents(Encode(c))) == f.(out := f.out + Encode(c))
  {
    hide Run;
    var u := Encode(c);
    if |u| == 1 {
      SingleUnit(c);
      assert EscapedEvents(u) == [EscapedEvent(c)];
      RunOne(f, EscapedEvent(c));
      assert Encode(c) == [c];
    } else {
      RunNormal(f, [c]);
      assert [c][..0] == [];
      assert EncodeAll([c]) == u;
      EncodeHighBytes(c);
      assert EscapedEvents(u) == RawEvents(u);
    }
  }

  lemma RunOne(f: State, e: Event)
    ensures Run(f, [e]) == Push(f, e)
  {
    hide Push;
    assert [e][1..] == [];
  }

  lemma EncodeHighBytes(c: nat)
    requires |Encode(c)| > 1
    ensures forall i :: 0 <= i < |Encode(c)| ==> Encode(c)[i] >= 0x80
  {
  }

  lemma {:induction false} RunEscapedNormal(f: State, cs: seq<nat>)
    requires f.need == 0 && f.code == 0 && f.high == 0 && AllScalars(cs)
    ensures Run(f, EscapedEvents(EncodeAll(cs))) == f.(out := f.out + EncodeAll(cs))
    decreases |cs|
  {
    hide Encode, EscapedEvent, Push;
    if |cs| == 0 {
      assert f.out + [] == f.out;
    } else {
      var front, c := cs[..|cs| - 1], cs[|cs| - 1];
      var g := f.(out := f.out + EncodeAll(front));
      RunEscapedNormal(f, front);
      RunEscapedEncode(g, c);
      RunConcat(f, EscapedEvents(EncodeAll(front)), EscapedEvents(Encode(c)));
      assert EscapedEvents(EncodeAll(cs)) == EscapedEvents(EncodeAll(front)) + EscapedEvents(Encode(c));
      assert f.out + EncodeAll(cs) == g.out + Encode(c);
    }
  }

  lemma EscapedNormalFiltered(s: bytes)
    requires Normal(s)
    ensures Filtered(EscapedEvents(s)) == Some(s)
  {
    var cs :| AllScalars(cs) && EncodeAll(cs) == s;
    RunEscapedNormal(INITIAL, cs);
    assert [] + s == s;
  }

  /** Reading json_escape(s) and a closing quote gives s back, whatever follows,
      exactly when s is a fixed point of the filter. */
  lemma EscapeRoundTrip(s: bytes, rest: bytes)
    ensures LexString(Escape(s) + [QUOTE] + rest) == Some(StringToken(s, |Escape(s)| + 1)) <==> Normal(s)
  {
    hide Normal, Escape, Filtered, EscapedEvents;
    var t := [QUOTE] + rest;
    assert Escape(s) + [QUOTE] + rest == Escape(s) + t;
    StringTokensNormal(Escape(s) + t);
    if Normal(s) {
      BodyOfEscaped(s, t);
      assert StringBody(t) == Some(Body([], 1));
      hide StringBody;
      assert EscapedEvents(s) + [] == EscapedEvents(s);
      EscapedNormalFiltered(s);
    }
  }
}
