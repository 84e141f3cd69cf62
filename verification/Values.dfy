/** JSON values as UniValue stores them, the tokens of JSON text, and the grammar
    that connects the two: Flatten(v) is the token list of which v is the parse tree. */
module Values {
  import opened Bytes
  import opened Utf8
  import opened Numbers

  datatype VType = VNULL | VOBJ | VARR | VSTR | VNUM | VBOOL

  // A snapshot of a UniValue; the children are held by value.
  datatype Value = Value(typ: VType, val: bytes, keys: seq<bytes>, values: seq<Value>)

  const NullValue := Value(VNULL, [], [], [])

  // UniValue(type, text): no children.
  function Leaf(typ: VType, val: bytes): Value {
    Value(typ, val, [], [])
  }

  const TRUE_VALUE := Leaf(VBOOL, [0x31])
  const FALSE_VALUE := Leaf(VBOOL, [])

  datatype Token =
    | TokErr
    | TokNone
    | ObjOpen
    | ObjClose
    | ArrOpen
    | ArrClose
    | Colon
    | Comma
    | KwNull
    | KwTrue
    | KwFalse
    | Number(text: bytes)
    | String(text: bytes)

  // A value the parser can build: each type uses only its own fields, objects have a value per key.
  predicate Shape(v: Value) {
    match v.typ
    case VNULL => v.val == [] && v.keys == [] && v.values == []
    case VBOOL => (v.val == [] || v.val == [0x31]) && v.keys == [] && v.values == []
    case VSTR => v.keys == [] && v.values == []
    case VNUM => v.keys == [] && v.values == []
    case VARR => v.val == [] && v.keys == [] && AllShape(v.values)
    case VOBJ => v.val == [] && |v.keys| == |v.values| && AllShape(v.values)
  }

  predicate AllShape(vs: seq<Value>) {
    forall i :: 0 <= i < |vs| ==> Shape(vs[i])
  }

  // Well-formed: the shape, one RFC 8259 number in every VNUM, filtered text in every string and key.
  ghost predicate WellFormed(v: Value) {
    Shape(v)
    && (v.typ.VNUM? ==> IsNumber(v.val))
    && (v.typ.VSTR? ==> Normal(v.val))
    && (v.typ.VOBJ? ==> AllNormal(v.keys))
    && AllWellFormed(v.values)
  }

  ghost predicate AllWellFormed(vs: seq<Value>) {
    forall i :: 0 <= i < |vs| ==> WellFormed(vs[i])
  }

  ghost predicate AllNormal(ks: seq<bytes>) {
    forall i :: 0 <= i < |ks| ==> Normal(ks[i])
  }

  // value = false / null / true / object / array / number / string
  function Flatten(v: Value): (ts: seq<Token>)
    requires Shape(v)
    decreases v
  {
    match v.typ
    case VNULL => [KwNull]
    case VBOOL => if v.val == [0x31] then [KwTrue] else [KwFalse]
    case VSTR => [String(v.val)]
    case VNUM => [Number(v.val)]
    case VARR => [ArrOpen] + Elements(v.values) + [ArrClose]
    case VOBJ => [ObjOpen] + Members(v.keys, v.values) + [ObjClose]
  }

  // [ value *( value-separator value ) ]
  function Elements(vs: seq<Value>): (ts: seq<Token>)
    requires AllShape(vs)
    decreases vs
  {
    if |vs| == 0 then []
    else Separated(Elements(vs[..|vs| - 1])) + Flatten(vs[|vs| - 1])
  }

  // [ member *( value-separator member ) ], member = string name-separator value
  function Members(ks: seq<bytes>, vs: seq<Value>): (ts: seq<Token>)
    requires |ks| == |vs| && AllShape(vs)
    decreases vs
  {
    if |vs| == 0 then []
    else Separated(Members(ks[..|ks| - 1], vs[..|vs| - 1])) + [String(ks[|ks| - 1]), Colon] + Flatten(vs[|vs| - 1])
  }

  // A separator goes between items, so only after a non-empty list.
  function Separated(ts: seq<Token>): seq<Token> {
    if |ts| == 0 then [] else ts + [Comma]
  }

  // Token texts the lexer may produce inside a document.
  ghost predicate TokenOk(t: Token) {
    (t.Number? ==> IsNumber(t.text)) && (t.String? ==> Normal(t.text))
  }

  ghost predicate TokensOk(ts: seq<Token>) {
    forall i :: 0 <= i < |ts| ==> TokenOk(ts[i])
  }

  lemma TokensOkConcat(a: seq<Token>, b: seq<Token>)
    ensures TokensOk(a + b) <==> TokensOk(a) && TokensOk(b)
  {
    var c := a + b;
    assert forall i :: 0 <= i < |a| ==> c[i] == a[i];
    assert forall i :: 0 <= i < |b| ==> c[|a| + i] == b[i];
  }

  // Being well-formed is a property of the tokens.
  lemma {:induction false} WellFormedTokens(v: Value)
    requires Shape(v)
    ensures WellFormed(v) <==> TokensOk(Flatten(v))
    decreases v
  {
    hide IsNumber, Normal;
    match v.typ
    case VNULL =>
    case VBOOL =>
    case VSTR => assert Flatten(v)[0] == String(v.val);
    case VNUM => assert Flatten(v)[0] == Number(v.val);
    case VARR =>
      ElementsTokens(v.values);
      TokensOkConcat([ArrOpen] + Elements(v.values), [ArrClose]);
      TokensOkConcat([ArrOpen], Elements(v.values));
    case VOBJ =>
      MembersTokens(v.keys, v.values);
      TokensOkConcat([ObjOpen] + Members(v.keys, v.values), [ObjClose]);
      TokensOkConcat([ObjOpen], Members(v.keys, v.values));
  }

  lemma {:induction false} ElementsTokens(vs: seq<Value>)
    requires AllShape(vs)
    ensures TokensOk(Elements(vs)) <==> AllWellFormed(vs)
    decreases vs
  {
    hide IsNumber, Normal, WellFormed;
    if |vs| > 0 {
      var front, last := vs[..|vs| - 1], vs[|vs| - 1];
      ElementsTokens(front);
      WellFormedTokens(last);
      TokensOkConcat(Elements(front), [Comma]);
      TokensOkConcat(Separated(Elements(front)), Flatten(last));
      SplitWellFormed(vs);
    }
  }

  lemma {:induction false} MembersTokens(ks: seq<bytes>, vs: seq<Value>)
    requires |ks| == |vs| && AllShape(vs)
    ensures TokensOk(Members(ks, vs)) <==> AllWellFormed(vs) && AllNormal(ks)
    decreases vs
  {
    hide IsNumber, Normal, WellFormed;
    if |vs| > 0 {
      hide AllWellFormed, AllNormal, TokensOk;
      var n := |vs| - 1;
      var head, key := Members(ks[..n], vs[..n]), [String(ks[n]), Colon];
      MembersTokens(ks[..n], vs[..n]);
      WellFormedTokens(vs[n]);
      SplitWellFormed(vs);
      SplitNormal(ks);
      MemberTokens(head, ks[n], Flatten(vs[n]));
    }
  }

  lemma MemberTokens(head: seq<Token>, key: bytes, value: seq<Token>)
    ensures TokensOk(Separated(head) + [String(key), Colon] + value) <==>
            TokensOk(head) && Normal(key) && TokensOk(value)
  {
    hide IsNumber, Normal;
    TokensOkConcat(head, [Comma]);
    TokensOkConcat(Separated(head), [String(key), Colon]);
    TokensOkConcat(Separated(head) + [String(key), Colon], value);
    assert [String(key), Colon][0] == String(key);
  }

  lemma {:induction false} SplitWellFormed(vs: seq<Value>)
    requires |vs| > 0
    ensures AllWellFormed(vs) <==> AllWellFormed(vs[..|vs| - 1]) && WellFormed(vs[|vs| - 1])
  {
    hide WellFormed;
    var front := vs[..|vs| - 1];
    assert forall i :: 0 <= i < |front| ==> vs[i] == front[i];
  }

  lemma SplitNormal(ks: seq<bytes>)
    requires |ks| > 0
    ensures AllNormal(ks) <==> AllNormal(ks[..|ks| - 1]) && Normal(ks[|ks| - 1])
  {
    hide Normal;
    var front := ks[..|ks| - 1];
    assert forall i :: 0 <= i < |front| ==> ks[i] == front[i];
  }

  lemma {:induction false} FlattenNonEmpty(v: Value)
    requires Shape(v)
    ensures |Flatten(v)| > 0
  {
  }
}
