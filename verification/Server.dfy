/** JSON-RPC requests: parsing one, executing it and answering a batch. */
module Server {
  import opened Bytes
  import opened Integers
  import opened NamedArguments
  import opened Objects
  import opened Printing
  import opened Protocol
  import opened Reader
  import opened RoundTrip
  import opened UniValueClass
  import opened Utf8
  import opened Values
  import opened Writer

  // A command: any function of the request that returns or throws, and its argument patterns.
  datatype Command = Command(actor: Request -> Outcome<Value>, argNames: seq<bytes>)

  // The command table, and the order the unordered_map of arguments iterates in.
  datatype Rpc = Rpc(table: map<bytes, Command>, begin: Args -> bytes)

  const INVALID_REQUEST := "Invalid Request object"
  const MISSING_METHOD := "Missing method"
  const METHOD_STRING := "Method must be a string"
  const PARAMS_TYPE := "Params must be an array or object"
  const METHOD_NOT_FOUND := "Method not found"

  function RpcError(code: int, message: string): Value {
    ErrorValue(code, Ascii(message))
  }

  // What a lookup throws, seen by the handlers around it: std::out_of_range is a std::exception.
  function OutOfRange(what: string): Outcome<()> {
    ThrewStd(Ascii(what))
  }

  // find_value where it throws nothing.
  function Member(v: Value, name: bytes): Value {
    match Lookup(v, name)
    case Got(x) => x
    case Thrown(_) => NullValue
  }

  // ---- JSONRPCRequest::parse ----

  // The request after parse, and how parse ends.
  datatype Parsed = Parsed(request: Request, end: Outcome<()>)

  function Invalid(r: Request, message: string): Parsed {
    Parsed(r, ThrewValue(RpcError(RPC_INVALID_REQUEST, message)))
  }

  // The fields set before an exception stay set.
  function ParseRequest(r: Request, v: Value): Parsed {
    if v.typ != VOBJ then Invalid(r, INVALID_REQUEST)
    else
      match Lookup(v, Ascii("id"))
      case Thrown(what) => Parsed(r, OutOfRange(what))
      case Got(id) => ParseMethod(r.(id := id), v)
  }

  function ParseMethod(r: Request, v: Value): Parsed {
    match Lookup(v, Ascii("method"))
    case Thrown(what) => Parsed(r, OutOfRange(what))
    case Got(valMethod) =>
      if valMethod.typ == VNULL then Invalid(r, MISSING_METHOD)
      else if valMethod.typ != VSTR then Invalid(r, METHOD_STRING)
      else ParseParams(r.(strMethod := valMethod.val), v)
  }

  function ParseParams(r: Request, v: Value): Parsed {
    match Lookup(v, Ascii("params"))
    case Thrown(what) => Parsed(r, OutOfRange(what))
    case Got(params) =>
      if params.typ == VARR || params.typ == VOBJ then Parsed(r.(params := params), Returned(()))
      else if params.typ == VNULL then Parsed(r.(params := Leaf(VARR, [])), Returned(()))
      else Invalid(r, PARAMS_TYPE)
  }

  class JSONRPCRequest {
    var id: Value
    var strMethod: bytes
    var params: Value
    var fHelp: bool
    var uri: bytes
    var authUser: bytes
    var peerAddr: bytes

    function Get(): Request
      reads this
    {
      Request(id, strMethod, params, fHelp, uri, authUser, peerAddr)
    }

    // A copy of another request.
    constructor (r: Request)
      ensures Get() == r
    {
      id, strMethod, params, fHelp := r.id, r.strMethod, r.params, r.fHelp;
      uri, authUser, peerAddr := r.uri, r.authUser, r.peerAddr;
    }

    method Parse(valRequest: Value) returns (end: Outcome<()>)
      modifies this
      ensures Parsed(Get(), end) == ParseRequest(old(Get()), valRequest)
    {
      hide ErrorValue, Lookup;
      if valRequest.typ != VOBJ {
        var e := JSONRPCError(RPC_INVALID_REQUEST, Ascii(INVALID_REQUEST));
        return ThrewValue(e);
      }
      var request := new UniValue(VOBJ, []);
      request.Assign(valRequest);
      var found := FindValue(request, Ascii("id"));
      if found.Thrown? {
        return OutOfRange(found.what);
      }
      id := found.value;
      found := FindValue(request, Ascii("method"));
      if found.Thrown? {
        return OutOfRange(found.what);
      }
      var valMethod := found.value;
      if valMethod.typ == VNULL {
        var e := JSONRPCError(RPC_INVALID_REQUEST, Ascii(MISSING_METHOD));
        return ThrewValue(e);
      }
      if valMethod.typ != VSTR {
        var e := JSONRPCError(RPC_INVALID_REQUEST, Ascii(METHOD_STRING));
        return ThrewValue(e);
      }
      strMethod := valMethod.val;
      found := FindValue(request, Ascii("params"));
      if found.Thrown? {
        return OutOfRange(found.what);
      }
      var valParams := found.value;
      if valParams.typ == VARR || valParams.typ == VOBJ {
        params := valParams;
      } else if valParams.typ == VNULL {
        params := Leaf(VARR, []);
      } else {
        var e := JSONRPCError(RPC_INVALID_REQUEST, Ascii(PARAMS_TYPE));
        return ThrewValue(e);
      }
      return Returned(());
    }
  }

  // ---- CRPCTable::execute ----

  // A std::exception leaving the command becomes a JSON-RPC error; other throws pass through.
  function Caught(o: Outcome<Value>): Outcome<Value> {
    if o.ThrewStd? then ThrewValue(ErrorValue(RPC_MISC_ERROR, o.what)) else o
  }

  function Executed(rpc: Rpc, r: Request): Outcome<Value>
    requires InStep(r.params)
  {
    if r.strMethod !in rpc.table then ThrewValue(RpcError(RPC_METHOD_NOT_FOUND, METHOD_NOT_FOUND))
    else
      var cmd := rpc.table[r.strMethod];
      if r.params.typ == VOBJ then
        var t := Transformed(r, cmd.argNames, rpc.begin);
        Caught(if t.Returned? then cmd.actor(t.value)
               else if t.ThrewValue? then ThrewValue(t.error)
               else ThrewStd(t.what))
      else Caught(cmd.actor(r))
  }

  method Execute(rpc: Rpc, request: Request) returns (out: Outcome<Value>)
    requires InStep(request.params)
    ensures out == Executed(rpc, request)
  {
    hide Transformed, ErrorValue;
    if request.strMethod !in rpc.table {
      var e := JSONRPCError(RPC_METHOD_NOT_FOUND, Ascii(METHOD_NOT_FOUND));
      return ThrewValue(e);
    }
    var pcmd := rpc.table[request.strMethod];
    if request.params.typ == VOBJ {
      var t := TransformNamedArguments(request, pcmd.argNames, rpc.begin);
      out := match t
        case Returned(r) => pcmd.actor(r)
        case ThrewValue(e) => ThrewValue(e)
        case ThrewStd(what) => ThrewStd(what);
    } else {
      out := pcmd.actor(request);
    }
    if out.ThrewStd? {
      var e := JSONRPCError(RPC_MISC_ERROR, out.what);
      return ThrewValue(e);
    }
  }

  // Nothing but a UniValue is ever thrown out of execute; parse is the one source of std exceptions.
  lemma ExecuteThrowsValues(rpc: Rpc, r: Request)
    requires InStep(r.params)
    ensures !Executed(rpc, r).ThrewStd?
  {
    hide Transformed;
  }

  // ---- One reply ----

  // Named parameters have a value per key; execute reads the values unchecked.
  predicate Answerable(req: Value) {
    InStep(Member(req, Ascii("params")))
  }

  predicate AllAnswerable(reqs: seq<Value>) {
    forall i :: 0 <= i < |reqs| ==> Answerable(reqs[i])
  }

  // std::exceptions from parse or execute are answered as parse errors.
  function ParseErrorReply(what: bytes, id: Value): Value {
    ReplyValue(NullValue, ErrorValue(RPC_PARSE_ERROR, what), id)
  }

  function Reply(rpc: Rpc, jreq: Request, req: Value): Value
    requires Answerable(req)
  {
    var p := ParseRequest(jreq, req);
    match p.end
    case ThrewValue(error) => ReplyValue(NullValue, error, p.request.id)
    case ThrewStd(what) => ParseErrorReply(what, p.request.id)
    case Returned(_) =>
      ParsedParams(jreq, req);
      match Executed(rpc, p.request)
      case Returned(result) => ReplyValue(result, NullValue, p.request.id)
      case ThrewValue(error) => ReplyValue(NullValue, error, p.request.id)
      case ThrewStd(what) => ParseErrorReply(what, p.request.id)
  }

  // After parse, params are the request's own, or an empty array.
  lemma ParsedParams(jreq: Request, req: Value)
    requires ParseRequest(jreq, req).end.Returned?
    ensures req.typ == VOBJ
    ensures var params := ParseRequest(jreq, req).request.params;
      params == Member(req, Ascii("params")) || params == Leaf(VARR, [])
    ensures Answerable(req) ==> InStep(ParseRequest(jreq, req).request.params)
  {
    hide Lookup, ErrorValue;
  }

  lemma MemberShape(v: Value, name: bytes)
    requires Shape(v) && v.typ == VOBJ
    ensures Lookup(v, name).Got? && Shape(Member(v, name))
    ensures WellFormed(v) ==> WellFormed(Member(v, name))
  {
    hide FindKey;
    NullWellFormed();
    if name in v.keys {
      var i := FindKey(v.keys, name).value;
      assert AllShape(v.values) && Shape(v.values[i]);
      if WellFormed(v) {
        assert AllWellFormed(v.values) && WellFormed(v.values[i]);
      }
    }
  }

  // Everything read from text can be answered, and parse finds a value for every key.
  lemma ReadAnswerable(jreq: Request, req: Value)
    requires Shape(req)
    ensures Answerable(req) && !ParseRequest(jreq, req).end.ThrewStd?
  {
    hide Lookup;
    if req.typ == VOBJ {
      MemberShape(req, Ascii("id"));
      MemberShape(req, Ascii("method"));
      MemberShape(req, Ascii("params"));
    } else {
      NoKeys(req, Ascii("params"));
    }
  }

  lemma NoKeys(v: Value, name: bytes)
    requires Shape(v) && v.typ != VOBJ
    ensures Member(v, name) == NullValue
  {
  }

  /** The third handler answers exactly the requests in which one of the keys id,
      method and params is looked up and lacks its value. A key that is looked up
      later is reached only if the earlier ones did not end the parse. */
  lemma ThirdHandler(rpc: Rpc, jreq: Request, req: Value)
    requires Answerable(req)
    ensures ParseRequest(jreq, req).end.ThrewStd? <==>
            req.typ == VOBJ
            && (Lacking(req, Ascii("id"))
                || Lacking(req, Ascii("method"))
                || (Lacking(req, Ascii("params")) && Member(req, Ascii("method")).typ == VSTR))
    ensures ParseRequest(jreq, req).end.ThrewStd? ==>
              Reply(rpc, jreq, req) == ParseErrorReply(Ascii(VECTOR_AT), ParseRequest(jreq, req).request.id)
  {
    hide FindKey, ErrorValue, ReplyValue, Answerable;
  }

  // The request is copied in, so nothing a reply does is seen by the caller or by another item.
  method JSONRPCExecOne(rpc: Rpc, jreq: Request, req: Value) returns (reply: Value)
    requires Answerable(req)
    ensures reply == Reply(rpc, jreq, req)
  {
    hide ParseRequest, Executed, ErrorValue, ReplyValue, Answerable;
    var copy := new JSONRPCRequest(jreq);
    var out: Outcome<Value>;
    var end := copy.Parse(req);
    match end {
      case Returned(_) =>
        ParsedParams(jreq, req);
        out := Execute(rpc, copy.Get());
      case ThrewValue(error) =>
        out := ThrewValue(error);
      case ThrewStd(what) =>
        out := ThrewStd(what);
    }
    match out {
      case Returned(result) =>
        reply := JSONRPCReplyObj(result, NullValue, copy.id);
      case ThrewValue(objError) =>
        reply := JSONRPCReplyObj(NullValue, objError, copy.id);
      case ThrewStd(what) =>
        var e := JSONRPCError(RPC_PARSE_ERROR, what);
        reply := JSONRPCReplyObj(NullValue, e, copy.id);
    }
  }

  // ---- A batch ----

  function Replies(rpc: Rpc, jreq: Request, reqs: seq<Value>): (rs: seq<Value>)
    requires AllAnswerable(reqs)
    ensures |rs| == |reqs|
    ensures forall i :: 0 <= i < |reqs| ==> rs[i] == Reply(rpc, jreq, reqs[i])
  {
    seq(|reqs|, i requires 0 <= i < |reqs| => Reply(rpc, jreq, reqs[i]))
  }

  function ArrayValue(vs: seq<Value>): Value {
    Value(VARR, [], [], vs)
  }

  // ---- What the replies are ----

  // Commands that return and throw well-formed values, and whose exception messages are filtered text.
  ghost predicate WellBehaved(rpc: Rpc) {
    ValidBegin(rpc.begin)
    && forall name, r | name in rpc.table :: OutcomeOk(rpc.table[name].actor(r))
  }

  ghost predicate OutcomeOk(o: Outcome<Value>) {
    match o
    case Returned(v) => WellFormed(v)
    case ThrewValue(e) => WellFormed(e)
    case ThrewStd(what) => Normal(what)
  }

  // The id of the request, or the caller's if there is none to be had.
  function ReplyId(jreq: Request, req: Value): Value {
    if req.typ == VOBJ && Lookup(req, Ascii("id")).Got? then Lookup(req, Ascii("id")).value else jreq.id
  }

  /** Every reply has exactly the keys result, error and id; a null result goes
      with every error; the id is the request's own first "id", or the caller's
      when the item is no object (or the key has no value). */
  lemma ReplyForm(rpc: Rpc, jreq: Request, req: Value)
    requires Answerable(req)
    ensures var r := Reply(rpc, jreq, req);
      && r.typ == VOBJ && r.keys == ReplyKeys() && MapLike(r)
      && (Member(r, Ascii("error")) != NullValue ==> Member(r, Ascii("result")) == NullValue)
      && Member(r, Ascii("id")) == ReplyId(jreq, req)
  {
    hide Executed, ErrorValue, ReplyValue, Answerable, MapLike, First, Lookup, ParseRequest, ReplyId;
    var p := ParseRequest(jreq, req);
    ParsedId(jreq, req);
    match p.end
    case ThrewValue(error) => ReplyParts(NullValue, error, p.request.id);
    case ThrewStd(what) => ReplyParts(NullValue, ErrorValue(RPC_PARSE_ERROR, what), p.request.id);
    case Returned(_) =>
      ParsedParams(jreq, req);
      match Executed(rpc, p.request)
      case Returned(result) => ReplyParts(result, NullValue, p.request.id);
      case ThrewValue(error) => ReplyParts(NullValue, error, p.request.id);
      case ThrewStd(what) => ReplyParts(NullValue, ErrorValue(RPC_PARSE_ERROR, what), p.request.id);
  }

  lemma ParsedId(jreq: Request, req: Value)
    ensures ParseRequest(jreq, req).request.id == ReplyId(jreq, req)
  {
    hide ErrorValue, Lookup;
  }

  lemma ReplyParts(result: Value, error: Value, id: Value)
    requires result == NullValue || error == NullValue
    ensures var r := ReplyValue(result, error, id);
      && r.typ == VOBJ && r.keys == ReplyKeys() && MapLike(r)
      && Member(r, Ascii("error")) == error && Member(r, Ascii("id")) == id
      && Member(r, Ascii("result")) == result
  {
    hide First, MapLike, Lookup;
    ReplyLookups(result, error, id);
    var r := ReplyValue(result, error, id);
    MemberIsFirst(r, Ascii("error"));
    MemberIsFirst(r, Ascii("id"));
    MemberIsFirst(r, Ascii("result"));
  }

  lemma MemberIsFirst(v: Value, name: bytes)
    requires MapLike(v)
    ensures |v.keys| == |v.values|
    ensures Member(v, name) == if First(v, name).Some? then First(v, name).value else NullValue
  {
    hide FindKey;
  }

  // A parse error or an unknown method is answered without running any command.
  lemma ReplyErrors(rpc: Rpc, jreq: Request, req: Value)
    requires Answerable(req)
    ensures req.typ != VOBJ ==>
              Reply(rpc, jreq, req) == ReplyValue(NullValue, RpcError(RPC_INVALID_REQUEST, INVALID_REQUEST), jreq.id)
    ensures var p := ParseRequest(jreq, req);
      p.end.Returned? && p.request.strMethod !in rpc.table ==>
        Reply(rpc, jreq, req) == ReplyValue(NullValue, RpcError(RPC_METHOD_NOT_FOUND, METHOD_NOT_FOUND),
                                            Member(req, Ascii("id")))
  {
    hide ErrorValue, ReplyValue, Lookup, Answerable;
    ParsedId(jreq, req);
    if ParseRequest(jreq, req).end.Returned? {
      ParsedParams(jreq, req);
    }
  }

  // ---- Replies to well-formed requests are well-formed ----

  lemma RpcErrorWellFormed(code: int, message: string)
    ensures WellFormed(RpcError(code, message))
  {
    hide WellFormed;
    NormalAscii(Ascii(message));
    ErrorWellFormed(code, Ascii(message));
  }

  lemma ParsedWellFormed(jreq: Request, req: Value)
    requires WellFormed(req) && Shape(req) && WellFormed(jreq.id)
    ensures var p := ParseRequest(jreq, req);
      && WellFormed(p.request.id)
      && !p.end.ThrewStd?
      && (p.end.ThrewValue? ==> WellFormed(p.end.error))
      && (p.end.Returned? ==> WellFormed(p.request.params) || p.request.params == Leaf(VARR, []))
  {
    hide WellFormed, RpcError, Lookup, Shape;
    ReadAnswerable(jreq, req);
    RpcErrorWellFormed(RPC_INVALID_REQUEST, INVALID_REQUEST);
    RpcErrorWellFormed(RPC_INVALID_REQUEST, MISSING_METHOD);
    RpcErrorWellFormed(RPC_INVALID_REQUEST, METHOD_STRING);
    RpcErrorWellFormed(RPC_INVALID_REQUEST, PARAMS_TYPE);
    if req.typ == VOBJ {
      MemberShape(req, Ascii("id"));
      MemberShape(req, Ascii("params"));
    }
  }

  lemma TransformedWellFormed(rpc: Rpc, r: Request, argNames: seq<bytes>)
    requires ValidBegin(rpc.begin) && r.params.typ == VOBJ && InStep(r.params)
    requires AllNormal(r.params.keys)
    ensures var t := Transformed(r, argNames, rpc.begin);
      t.Returned? || (t.ThrewValue? && WellFormed(t.error))
  {
    hide Hits, WellFormed, Normal, PrintInt;
    var t := Transformed(r, argNames, rpc.begin);
    TransformOutcome(r, argNames, rpc.begin);
    if !t.Returned? {
      var k :| k in ArgsOf(r.params) && t == UnknownParameter(k);
      ObjMapKeys(r.params.keys, r.params.values);
      var i :| 0 <= i < |r.params.keys| && r.params.keys[i] == k;
      assert Normal(r.params.keys[i]);
      NormalAscii(Ascii(UNKNOWN_PARAMETER));
      NormalConcat(Ascii(UNKNOWN_PARAMETER), k);
      ErrorWellFormed(RPC_INVALID_PARAMETER, Ascii(UNKNOWN_PARAMETER) + k);
      assert UnknownParameter(k) == ThrewValue(ErrorValue(RPC_INVALID_PARAMETER, Ascii(UNKNOWN_PARAMETER) + k));
    }
  }

  lemma CaughtWellFormed(o: Outcome<Value>)
    requires OutcomeOk(o)
    ensures !Caught(o).ThrewStd? && OutcomeOk(Caught(o))
  {
    hide WellFormed, Normal, ErrorValue;
    if o.ThrewStd? {
      ErrorWellFormed(RPC_MISC_ERROR, o.what);
    }
  }

  lemma ExecutedWellFormed(rpc: Rpc, r: Request)
    requires WellBehaved(rpc) && InStep(r.params)
    requires r.params.typ == VOBJ ==> AllNormal(r.params.keys)
    ensures OutcomeOk(Executed(rpc, r)) && !Executed(rpc, r).ThrewStd?
  {
    hide WellFormed, Normal, Transformed, RpcError, ValidBegin, Caught;
    if r.strMethod !in rpc.table {
      RpcErrorWellFormed(RPC_METHOD_NOT_FOUND, METHOD_NOT_FOUND);
    } else {
      var cmd := rpc.table[r.strMethod];
      if r.params.typ == VOBJ {
        TransformedWellFormed(rpc, r, cmd.argNames);
        var t := Transformed(r, cmd.argNames, rpc.begin);
        CaughtWellFormed(if t.Returned? then cmd.actor(t.value) else ThrewValue(t.error));
      } else {
        CaughtWellFormed(cmd.actor(r));
      }
    }
  }

  lemma ReplyIsWellFormed(rpc: Rpc, jreq: Request, req: Value)
    requires WellBehaved(rpc) && WellFormed(req) && Shape(req) && WellFormed(jreq.id)
    ensures Answerable(req) && WellFormed(Reply(rpc, jreq, req))
  {
    hide WellFormed, ReplyValue, Executed, Shape, ParseRequest, Answerable, WellBehaved;
    var p := ParseRequest(jreq, req);
    ReadAnswerable(jreq, req);
    ParsedWellFormed(jreq, req);
    NullWellFormed();
    if p.end.ThrewValue? {
      ReplyWellFormed(NullValue, p.end.error, p.request.id);
    } else {
      ParsedParams(jreq, req);
      ParamKeys(p.request.params);
      ExecutedWellFormed(rpc, p.request);
      match Executed(rpc, p.request)
      case Returned(result) => ReplyWellFormed(result, NullValue, p.request.id);
      case ThrewValue(error) => ReplyWellFormed(NullValue, error, p.request.id);
    }
  }

  lemma ParamKeys(params: Value)
    requires WellFormed(params) || params == Leaf(VARR, [])
    ensures params.typ == VOBJ ==> AllNormal(params.keys)
  {
  }

  /** A batch of requests read from text is answered by one line that reads back
      as the array of the replies, one per request, in order. Each reply depends
      on its own request alone. */
  lemma BatchReadsBack(rpc: Rpc, jreq: Request, vReq: Value)
    requires WellBehaved(rpc) && WellFormed(vReq) && WellFormed(jreq.id)
    ensures AllAnswerable(vReq.values)
    ensures var rs := Replies(rpc, jreq, vReq.values); var v := ArrayValue(rs);
      && |rs| == |vReq.values|
      && Writable(v) && OneLine(Text(v, 0, 0))
      && Read(Text(v, 0, 0) + [NEWLINE]) == ReadResult(true, v)
  {
    var reqs := vReq.values;
    ChildrenOk(vReq);
    hide Reply, Read, Text, WellBehaved, Answerable;
    forall i | 0 <= i < |reqs|
      ensures Answerable(reqs[i]) && WellFormed(Reply(rpc, jreq, reqs[i]))
    {
      assert WellFormed(reqs[i]) && Shape(reqs[i]);
      ReplyIsWellFormed(rpc, jreq, reqs[i]);
    }
    var rs := Replies(rpc, jreq, reqs);
    ArrayWellFormed(rs);
    ReadOfWriteThenSpace(ArrayValue(rs), 0, 0, [NEWLINE]);
    WellFormedOneLine(ArrayValue(rs), 0);
  }

  /** From the body of a request to the body of the answer: if the body reads as an
      array, the batch answer reads as the array of replies to its items. */
  lemma BatchFromText(rpc: Rpc, jreq: Request, body: bytes)
    requires WellBehaved(rpc) && WellFormed(jreq.id)
    requires Read(body).ok && Read(body).tree.typ == VARR
    ensures AllAnswerable(Read(body).tree.values)
    ensures var reqs := Read(body).tree.values; var v := ArrayValue(Replies(rpc, jreq, reqs));
      Writable(v) && Read(Text(v, 0, 0) + [NEWLINE]) == ReadResult(true, v)
  {
    hide Read, WellFormed, WellBehaved, Reply, Text;
    ReadWellFormed(body);
    BatchReadsBack(rpc, jreq, Read(body).tree);
  }

  lemma ChildrenOk(v: Value)
    requires WellFormed(v)
    ensures Shape(v) && AllShape(v.values) && AllWellFormed(v.values)
  {
  }

  lemma ArrayWellFormed(vs: seq<Value>)
    requires forall i :: 0 <= i < |vs| ==> WellFormed(vs[i])
    ensures WellFormed(ArrayValue(vs))
  {
    assert AllWellFormed(vs) && AllShape(vs);
  }

  /** The replies of a batch, written on one line; None would be an exception out
      of write. For requests read from text and well-behaved commands there is
      none, and the line reads back as the array of replies. */
  method JSONRPCExecBatch(rpc: Rpc, jreq: Request, vReq: Value) returns (text: Option<bytes>)
    requires AllAnswerable(vReq.values)
    ensures var v := ArrayValue(Replies(rpc, jreq, vReq.values));
      && text == (if Writable(v) then Some(Text(v, 0, 0) + [NEWLINE]) else None)
      && (WellBehaved(rpc) && WellFormed(vReq) && WellFormed(jreq.id) ==>
            && text.Some? && Read(text.value) == ReadResult(true, v)
            && |text.value| > 0 && text.value[|text.value| - 1] == NEWLINE && OneLine(text.value[..|text.value| - 1]))
  {
    hide Reply, Text, Writable, WellBehaved, WellFormed, Read, OneLine;
    var ret := new UniValue(VARR, []);
    var reqIdx := 0;
    while reqIdx < |vReq.values|
      invariant 0 <= reqIdx <= |vReq.values|
      invariant ret.Get() == ArrayValue(Replies(rpc, jreq, vReq.values[..reqIdx]))
    {
      var one := JSONRPCExecOne(rpc, jreq, vReq.values[reqIdx]);
      var _ := ret.PushBack(one);
      assert Replies(rpc, jreq, vReq.values[..reqIdx + 1]) == Replies(rpc, jreq, vReq.values[..reqIdx]) + [one];
      reqIdx := reqIdx + 1;
    }
    assert vReq.values[..reqIdx] == vReq.values;
    var written := ret.WriteText(0, 0);
    text := if written.Some? then Some(written.value + [NEWLINE]) else None;
    if WellBehaved(rpc) && WellFormed(vReq) && WellFormed(jreq.id) {
      BatchReadsBack(rpc, jreq, vReq);
      var line := Text(ArrayValue(Replies(rpc, jreq, vReq.values)), 0, 0);
      assert (line + [NEWLINE])[..|line|] == line;
    }
  }
}
