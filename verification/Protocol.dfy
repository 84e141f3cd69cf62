/** JSON-RPC errors and replies. */
module Protocol {
  import opened Bytes
  import opened Integers
  import opened Objects
  import opened Printing
  import opened Reader
  import opened RoundTrip
  import opened UniValueClass
  import opened Utf8
  import opened Values
  import opened Writer

  const RPC_INVALID_REQUEST := -32600
  const RPC_METHOD_NOT_FOUND := -32601
  const RPC_PARSE_ERROR := -32700
  const RPC_MISC_ERROR := -1
  const RPC_INVALID_PARAMETER := -8

  // A C++ string literal as bytes.
  function Ascii(s: string): (b: bytes)
    ensures |b| == |s| && forall i :: 0 <= i < |b| ==> b[i] < 0x80
    ensures forall i :: 0 <= i < |b| && s[i] as int < 0x80 ==> b[i] == s[i] as int
  {
    seq(|s|, i requires 0 <= i < |s| => if s[i] as int < 0x80 then s[i] as int else 0x3F)
  }

  function ErrorValue(code: int, message: bytes): Value {
    Value(VOBJ, [], [Ascii("code"), Ascii("message")], [Leaf(VNUM, PrintInt(code)), Leaf(VSTR, message)])
  }

  // An object of exactly a code, as an integer, and a message.
  predicate IsError(e: Value, code: int, message: bytes) {
    e.typ == VOBJ && e.val == [] && e.keys == [Ascii("code"), Ascii("message")] && |e.values| == 2
    && e.values[0].typ == VNUM && Denotes(e.values[0].val) == Some(code)
    && e.values[1] == Leaf(VSTR, message)
  }

  lemma ErrorHolds(code: int, message: bytes)
    ensures IsError(ErrorValue(code, message), code, message)
  {
    hide PrintInt, Denotes;
    PrintDenotes(code);
  }

  method JSONRPCError(code: int, message: bytes) returns (r: Value)
    requires INT32_MIN <= code <= INT32_MAX
    ensures r == ErrorValue(code, message)
  {
    var error := new UniValue(VOBJ, []);
    var number := new UniValue(VNULL, []);
    var _ := number.SetInt(code);
    var _ := error.PushKV(Ascii("code"), number.Get());
    var _ := error.PushKV(Ascii("message"), Leaf(VSTR, message));
    r := error.Get();
  }

  // The reply has these three keys in this order.
  function ReplyKeys(): seq<bytes> {
    [Ascii("result"), Ascii("error"), Ascii("id")]
  }

  function ReplyValue(result: Value, error: Value, id: Value): Value {
    Value(VOBJ, [], ReplyKeys(), [if error.typ != VNULL then NullValue else result, error, id])
  }

  method JSONRPCReplyObj(result: Value, error: Value, id: Value) returns (r: Value)
    ensures r == ReplyValue(result, error, id)
  {
    var reply := new UniValue(VOBJ, []);
    if error.typ != VNULL {
      var _ := reply.PushKV(Ascii("result"), NullValue);
    } else {
      var _ := reply.PushKV(Ascii("result"), result);
    }
    var _ := reply.PushKV(Ascii("error"), error);
    var _ := reply.PushKV(Ascii("id"), id);
    r := reply.Get();
  }

  method JSONRPCReply(result: Value, error: Value, id: Value) returns (r: Option<bytes>)
    ensures var v := ReplyValue(result, error, id);
      r == if Writable(v) then Some(Text(v, 0, 0) + [NEWLINE]) else None
    ensures WellFormed(result) && WellFormed(error) && WellFormed(id) ==>
              && r.Some? && Read(r.value) == ReadResult(true, ReplyValue(result, error, id))
              && |r.value| > 0 && r.value[|r.value| - 1] == NEWLINE && OneLine(r.value[..|r.value| - 1])
  {
    hide Read, WellFormed, Text, Writable, OneLine;
    var reply := JSONRPCReplyObj(result, error, id);
    var text := Write(reply, 0, 0);
    if WellFormed(result) && WellFormed(error) && WellFormed(id) {
      ReplyWellFormed(result, error, id);
      ReadOfWriteThenSpace(reply, 0, 0, [NEWLINE]);
      WellFormedOneLine(reply, 0);
      assert (Text(reply, 0, 0) + [NEWLINE])[..|Text(reply, 0, 0)|] == Text(reply, 0, 0);
    }
    r := if text.Some? then Some(text.value + [NEWLINE]) else None;
  }

  // A null result goes with every error, and each part is found under its key.
  lemma ReplyLookups(result: Value, error: Value, id: Value)
    ensures var r := ReplyValue(result, error, id);
      && MapLike(r)
      && First(r, Ascii("error")) == Some(error)
      && First(r, Ascii("id")) == Some(id)
      && First(r, Ascii("result")) == Some(if error.typ == VNULL then result else NullValue)
  {
    hide FindKey;
    var ks := ReplyKeys();
    FindKeyUnique(ks, Ascii("result"), 0);
    assert ks[..1] == [Ascii("result")];
    FindKeyUnique(ks, Ascii("error"), 1);
    assert ks[..2] == [Ascii("result"), Ascii("error")];
    FindKeyUnique(ks, Ascii("id"), 2);
  }

  lemma NullWellFormed()
    ensures WellFormed(NullValue)
  {
  }

  lemma ReplyWellFormed(result: Value, error: Value, id: Value)
    requires WellFormed(error) && WellFormed(id)
    requires error.typ == VNULL ==> WellFormed(result)
    ensures WellFormed(ReplyValue(result, error, id))
  {
    hide WellFormed, Normal, Ascii;
    NullWellFormed();
    ReplyKeysNormal();
    var r := ReplyValue(result, error, id);
    ThreeWellFormed(r.values);
    ObjectWellFormed(r);
  }

  lemma ReplyKeysNormal()
    ensures AllNormal(ReplyKeys())
  {
    hide Normal, Ascii;
    NormalAscii(Ascii("result"));
    NormalAscii(Ascii("error"));
    NormalAscii(Ascii("id"));
  }

  lemma ThreeWellFormed(vs: seq<Value>)
    requires |vs| == 3 && WellFormed(vs[0]) && WellFormed(vs[1]) && WellFormed(vs[2])
    ensures AllWellFormed(vs)
  {
    hide WellFormed;
  }

  lemma ObjectWellFormed(v: Value)
    requires v.typ == VOBJ && v.val == [] && |v.keys| == |v.values|
    requires AllNormal(v.keys) && AllWellFormed(v.values)
    ensures WellFormed(v)
  {
    assert AllShape(v.values);
  }

  lemma ErrorWellFormed(code: int, message: bytes)
    requires Normal(message)
    ensures WellFormed(ErrorValue(code, message))
  {
    var e := ErrorValue(code, message);
    PrintIsNumber(code);
    NormalAscii(Ascii("code"));
    NormalAscii(Ascii("message"));
    assert WellFormed(Leaf(VNUM, PrintInt(code))) && WellFormed(Leaf(VSTR, message));
    ObjectWellFormed(e);
  }
}
