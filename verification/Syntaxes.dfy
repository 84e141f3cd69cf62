/** JSON text by the grammar of RFC 8259, on bytes: characters of strings, values,
    whitespace. And what the program makes of such a text: which strings are
    sound, and the value stored. */
module Syntaxes {
  import opened Bytes
  import opened Filter
  import opened FilterRuns
  import opened Numbers
  import opened Values

  // ---- Section 7: string = quotation-mark *char quotation-mark ----

  // An unescaped byte, a two-character escape, or \uXXXX.
  datatype StringChar = Plain(b: byte) | Short(letter: byte) | Hex(digits: bytes)

  predicate ValidChar(c: StringChar) {
    match c
    case Plain(b) => b >= 0x20 && b != 0x22 && b != 0x5C
    case Short(letter) => IsEscapeLetter(letter)
    case Hex(digits) => Digits4(digits)
  }

  // quotation mark, reverse solidus, solidus, b, f, n, r, t
  predicate IsEscapeLetter(b: byte) {
    b == 0x22 || b == 0x5C || b == 0x2F || b == 0x62 || b == 0x66 || b == 0x6E || b == 0x72 || b == 0x74
  }

  // quotation mark, reverse solidus, solidus, backspace, form feed, line feed, carriage return, tab
  function EscapeMeaning(letter: byte): byte
    requires IsEscapeLetter(letter)
  {
    if letter == 0x22 then 0x22
    else if letter == 0x5C then 0x5C
    else if letter == 0x2F then 0x2F
    else if letter == 0x62 then 0x08
    else if letter == 0x66 then 0x0C
    else if letter == 0x6E then 0x0A
    else if letter == 0x72 then 0x0D
    else 0x09
  }

  // The hexadecimal digits, letters in either case.
  function DigitMeaning(b: byte): Option<nat> {
    match b
    case 0x30 => Some(0)
    case 0x31 => Some(1)
    case 0x32 => Some(2)
    case 0x33 => Some(3)
    case 0x34 => Some(4)
    case 0x35 => Some(5)
    case 0x36 => Some(6)
    case 0x37 => Some(7)
    case 0x38 => Some(8)
    case 0x39 => Some(9)
    case 0x41 | 0x61 => Some(10)
    case 0x42 | 0x62 => Some(11)
    case 0x43 | 0x63 => Some(12)
    case 0x44 | 0x64 => Some(13)
    case 0x45 | 0x65 => Some(14)
    case 0x46 | 0x66 => Some(15)
    case _ => None
  }

  predicate Digits4(d: bytes) {
    |d| == 4 && forall i :: 0 <= i < 4 ==> DigitMeaning(d[i]).Some?
  }

  // The 16-bit number four digits write.
  function CodeUnit(d: bytes): nat
    requires Digits4(d)
  {
    0x1000 * DigitMeaning(d[0]).value + 0x100 * DigitMeaning(d[1]).value
    + 0x10 * DigitMeaning(d[2]).value + DigitMeaning(d[3]).value
  }

  predicate ValidChars(cs: seq<StringChar>) {
    forall i :: 0 <= i < |cs| ==> ValidChar(cs[i])
  }

  function CharText(c: StringChar): bytes {
    match c
    case Plain(b) => [b]
    case Short(letter) => [0x5C, letter]
    case Hex(digits) => [0x5C, 0x75] + digits
  }

  function CharsText(cs: seq<StringChar>): bytes {
    if |cs| == 0 then [] else CharText(cs[0]) + CharsText(cs[1..])
  }

  function CharEvent(c: StringChar): Event
    requires ValidChar(c)
  {
    match c
    case Plain(b) => Raw(b)
    case Short(letter) => Raw(EscapeMeaning(letter))
    case Hex(digits) => Code(CodeUnit(digits))
  }

  function CharEvents(cs: seq<StringChar>): seq<Event>
    requires ValidChars(cs)
  {
    seq(|cs|, i requires 0 <= i < |cs| => CharEvent(cs[i]))
  }

  // ---- Sections 3 to 6: values ----

  // A value as the text writes it; strings are kept character by character.
  datatype Syntax =
    | JNull
    | JTrue
    | JFalse
    | JNumber(text: bytes)
    | JString(chars: seq<StringChar>)
    | JArray(items: seq<Syntax>)
    | JObject(members: seq<Member>)

  datatype Member = Member(name: seq<StringChar>, value: Syntax)

  // What stands between whitespace: a string, or any other token.
  datatype Lexeme = Quoted(chars: seq<StringChar>) | Bare(tok: Token)

  // value = false / null / true / object / array / number / string
  function Lexemes(t: Syntax): seq<Lexeme>
    decreases t
  {
    match t
    case JNull => [Bare(KwNull)]
    case JTrue => [Bare(KwTrue)]
    case JFalse => [Bare(KwFalse)]
    case JNumber(text) => [Bare(Number(text))]
    case JString(chars) => [Quoted(chars)]
    case JArray(items) => [Bare(ArrOpen)] + ItemLexemes(items) + [Bare(ArrClose)]
    case JObject(members) => [Bare(ObjOpen)] + MemberLexemes(members) + [Bare(ObjClose)]
  }

  // [ value *( value-separator value ) ]
  function ItemLexemes(items: seq<Syntax>): seq<Lexeme>
    decreases items
  {
    if |items| == 0 then []
    else WithComma(ItemLexemes(items[..|items| - 1])) + Lexemes(items[|items| - 1])
  }

  // [ member *( value-separator member ) ], member = string name-separator value
  function MemberLexemes(members: seq<Member>): seq<Lexeme>
    decreases members
  {
    if |members| == 0 then []
    else
      var last := members[|members| - 1];
      WithComma(MemberLexemes(members[..|members| - 1])) + [Quoted(last.name), Bare(Token.Colon)] + Lexemes(last.value)
  }

  function WithComma(ls: seq<Lexeme>): seq<Lexeme> {
    if |ls| == 0 then [] else ls + [Bare(Token.Comma)]
  }

  ghost predicate Spells(t: bytes, l: Lexeme) {
    match l
    case Quoted(cs) => ValidChars(cs) && t == [0x22] + CharsText(cs) + [0x22]
    case Bare(tok) => SpellsToken(t, tok)
  }

  ghost predicate SpellsToken(t: bytes, tok: Token) {
    match tok
    case TokErr => false
    case TokNone => false
    case ObjOpen => t == [0x7B]
    case ObjClose => t == [0x7D]
    case ArrOpen => t == [0x5B]
    case ArrClose => t == [0x5D]
    case Colon => t == [0x3A]
    case Comma => t == [0x2C]
    case KwNull => t == [0x6E, 0x75, 0x6C, 0x6C]
    case KwTrue => t == [0x74, 0x72, 0x75, 0x65]
    case KwFalse => t == [0x66, 0x61, 0x6C, 0x73, 0x65]
    case Number(text) => t == text && IsNumber(text)
    case String(_) => false
  }

  // ---- Section 2: whitespace ----

  // space, horizontal tab, line feed, carriage return
  predicate IsWs(b: byte) {
    b == 0x20 || b == 0x09 || b == 0x0A || b == 0x0D
  }

  predicate AllWs(s: bytes) {
    forall i :: 0 <= i < |s| ==> IsWs(s[i])
  }

  // A lexeme with the whitespace before it.
  datatype Piece = Piece(space: bytes, text: bytes)

  function Layout(ps: seq<Piece>): bytes {
    if |ps| == 0 then [] else ps[0].space + (ps[0].text + Layout(ps[1..]))
  }

  // s is these lexemes, spelled, with whitespace before, between and after them.
  ghost predicate IsLayout(s: bytes, ls: seq<Lexeme>, ps: seq<Piece>, end: bytes) {
    s == Layout(ps) + end && AllWs(end) && |ps| == |ls|
    && forall i :: 0 <= i < |ps| ==> AllWs(ps[i].space) && Spells(ps[i].text, ls[i])
  }

  // JSON-text = ws value ws, with t the syntax tree of the value.
  ghost predicate JsonText(s: bytes, t: Syntax) {
    exists ps, end :: IsLayout(s, Lexemes(t), ps, end)
  }

  // ---- What the program stores for a syntax tree, and when it does ----

  // The bytes and escapes of a string form whole characters, and its surrogate halves are paired.
  predicate LiteralSound(cs: seq<StringChar>) {
    ValidChars(cs) && Items(CharEvents(cs)).Some? && Paired(Points(Items(CharEvents(cs)).value))
  }

  // Its characters, shortest form, surrogate pairs collated.
  function StringText(cs: seq<StringChar>): bytes {
    if ValidChars(cs) && Items(CharEvents(cs)).Some? then Emit(0, Items(CharEvents(cs)).value) else []
  }

  predicate SoundLexeme(l: Lexeme) {
    l.Quoted? ==> LiteralSound(l.chars)
  }

  predicate AllSound(ls: seq<Lexeme>) {
    forall i :: 0 <= i < |ls| ==> SoundLexeme(ls[i])
  }

  // Every string in it, names included, is sound.
  predicate Sound(t: Syntax) {
    AllSound(Lexemes(t))
  }

  function Stored(t: Syntax): Value
    decreases t
  {
    match t
    case JNull => NullValue
    case JTrue => TRUE_VALUE
    case JFalse => FALSE_VALUE
    case JNumber(text) => Leaf(VNUM, text)
    case JString(chars) => Leaf(VSTR, StringText(chars))
    case JArray(items) => Value(VARR, [], [], StoredItems(items))
    case JObject(members) => Value(VOBJ, [], StoredNames(members), StoredMembers(members))
  }

  function StoredItems(items: seq<Syntax>): seq<Value>
    decreases items
  {
    seq(|items|, i requires 0 <= i < |items| => Stored(items[i]))
  }

  function StoredNames(members: seq<Member>): seq<bytes> {
    seq(|members|, i requires 0 <= i < |members| => StringText(members[i].name))
  }

  function StoredMembers(members: seq<Member>): seq<Value>
    decreases members
  {
    seq(|members|, i requires 0 <= i < |members| => Stored(members[i].value))
  }

  function TokenOf(l: Lexeme): Token {
    match l
    case Quoted(cs) => String(StringText(cs))
    case Bare(tok) => tok
  }

  function TokensOf(ls: seq<Lexeme>): (ts: seq<Token>)
    ensures |ts| == |ls|
  {
    seq(|ls|, i requires 0 <= i < |ls| => TokenOf(ls[i]))
  }
}
