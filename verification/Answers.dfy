/** What a request is answered, said from the command: what parse takes from an
    item, what the command is run on, and where its outcome ends up. */
module Answers {
  import opened Bytes
  import opened NamedArguments
  import opened Objects
  import opened Protocol
  import opened Reader
  import opened Server
  import opened UniValueClass
  import opened Values
  import opened Writer

  // ---- parse ----

  // An object whose first "method" is a string and whose first "params" are absent, null, an array or an
  // object, with a value wherever parse looks.
  predicate Parses(req: Value) {
    && req.typ == VOBJ
    && Lookup(req, Ascii("id")).Got?
    && var name := Lookup(req, Ascii("method"));
    && name.Got? && name.value.typ == VSTR
    && var params := Lookup(req, Ascii("params"));
    && params.Got? && (params.value.typ == VNULL || params.value.typ == VARR || params.value.typ == VOBJ)
  }

  // The request with id, method and params of the item; missing params are an empty array.
  function Taken(jreq: Request, req: Value): Request
    requires Parses(req)
  {
    var params := Lookup(req, Ascii("params")).value;
    Request(Lookup(req, Ascii("id")).value, Lookup(req, Ascii("method")).value.val,
            if params.typ == VNULL then Value(VARR, [], [], []) else params,
            jreq.fHelp, jreq.uri, jreq.authUser, jreq.peerAddr)
  }

  /** parse succeeds exactly on these items, and takes exactly these fields. */
  lemma ParseTakes(jreq: Request, req: Value)
    ensures ParseRequest(jreq, req).end.Returned? <==> Parses(req)
    ensures Parses(req) ==> ParseRequest(jreq, req).request == Taken(jreq, req)
  {
    hide Lookup, ErrorValue;
  }

  predicate Rejected(end: Outcome<()>, message: string) {
    end.ThrewValue? && IsError(end.error, -32600, Ascii(message))
  }

  /** Every way parse fails, with the fields it has set by then. */
  lemma ParseFails(jreq: Request, req: Value)
    ensures var p := ParseRequest(jreq, req);
      var id, name, params := Lookup(req, Ascii("id")), Lookup(req, Ascii("method")), Lookup(req, Ascii("params"));
      if req.typ != VOBJ then p.request == jreq && Rejected(p.end, "Invalid Request object")
      else if id.Thrown? then p == Parsed(jreq, ThrewStd(Ascii(id.what)))
      else
        var r := jreq.(id := id.value);
        if name.Thrown? then p == Parsed(r, ThrewStd(Ascii(name.what)))
        else if name.value.typ == VNULL then p.request == r && Rejected(p.end, "Missing method")
        else if name.value.typ != VSTR then p.request == r && Rejected(p.end, "Method must be a string")
        else
          var q := r.(strMethod := name.value.val);
          if params.Thrown? then p == Parsed(q, ThrewStd(Ascii(params.what)))
          else if params.value.typ != VNULL && params.value.typ != VARR && params.value.typ != VOBJ then
            p.request == q && Rejected(p.end, "Params must be an array or object")
          else p.end.Returned?
  {
    hide Lookup, ErrorValue, IsError;
    ErrorHolds(-32600, Ascii("Invalid Request object"));
    ErrorHolds(-32600, Ascii("Missing method"));
    ErrorHolds(-32600, Ascii("Method must be a string"));
    ErrorHolds(-32600, Ascii("Params must be an array or object"));
  }

  // ---- execute ----

  // The outcome of a command, with a std::exception turned into error -1 and its message.
  predicate PassedOn(out: Outcome<Value>, o: Outcome<Value>) {
    match o
    case Returned(_) => out == o
    case ThrewValue(_) => out == o
    case ThrewStd(what) => out.ThrewValue? && IsError(out.error, -1, what)
  }

  // The request a command with named parameters is given.
  predicate IsPositional(q: Request, r: Request, patterns: seq<bytes>)
    requires InStep(r.params) && r.params.typ == VOBJ
  {
    q == r.(params := Value(VARR, [], [], q.params.values))
    && IsPlacement(q.params.values, patterns, ObjMap(r.params.keys, r.params.values))
  }

  lemma CaughtPassedOn(o: Outcome<Value>)
    ensures PassedOn(Caught(o), o)
  {
    hide IsError, ErrorValue;
    if o.ThrewStd? {
      ErrorHolds(-1, o.what);
    }
  }

  // Without named parameters the command is run on the request itself.
  lemma ExecutesPlain(rpc: Rpc, r: Request)
    requires r.strMethod in rpc.table && r.params.typ != VOBJ
    ensures PassedOn(Executed(rpc, r), rpc.table[r.strMethod].actor(r))
  {
    hide PassedOn, Caught;
    CaughtPassedOn(rpc.table[r.strMethod].actor(r));
  }

  /** With named parameters that are all consumed, the command is run on the
      request with the parameters placed by pattern. */
  lemma ExecutesNamed(rpc: Rpc, r: Request) returns (q: Request)
    requires r.strMethod in rpc.table && r.params.typ == VOBJ && InStep(r.params) && ValidBegin(rpc.begin)
    requires AllConsumed(rpc.table[r.strMethod].argNames, ObjMap(r.params.keys, r.params.values))
    ensures IsPositional(q, r, rpc.table[r.strMethod].argNames)
    ensures PassedOn(Executed(rpc, r), rpc.table[r.strMethod].actor(q))
  {
    hide PassedOn, Caught, Transformed, Hits, ObjMap;
    var cmd := rpc.table[r.strMethod];
    TransformOutcome(r, cmd.argNames, rpc.begin);
    q := Transformed(r, cmd.argNames, rpc.begin).value;
    CaughtPassedOn(cmd.actor(q));
  }

  // What is thrown for a left-over key.
  predicate NamesLeftOver(out: Outcome<Value>, patterns: seq<bytes>, args: Args) {
    out.ThrewValue?
    && exists k | k in args :: k !in Consumed(Hits(patterns, args))
                               && IsError(out.error, -8, Ascii("Unknown named parameter ") + k)
  }

  /** With a key left over the command is not run: the error names such a key, and
      is the same whatever the command would have done. */
  lemma ExecutesLeftOver(rpc: Rpc, r: Request, other: Request -> Outcome<Value>)
    requires r.strMethod in rpc.table && r.params.typ == VOBJ && InStep(r.params) && ValidBegin(rpc.begin)
    requires !AllConsumed(rpc.table[r.strMethod].argNames, ObjMap(r.params.keys, r.params.values))
    ensures NamesLeftOver(Executed(rpc, r), rpc.table[r.strMethod].argNames, ObjMap(r.params.keys, r.params.values))
    ensures var cmd := Command(other, rpc.table[r.strMethod].argNames);
      Executed(rpc.(table := rpc.table[r.strMethod := cmd]), r) == Executed(rpc, r)
  {
    hide Transformed, Hits, ObjMap, IsError, ErrorValue, Consumed;
    var cmd := rpc.table[r.strMethod];
    TransformOutcome(r, cmd.argNames, rpc.begin);
    var args := ObjMap(r.params.keys, r.params.values);
    var t := Transformed(r, cmd.argNames, rpc.begin);
    var k :| k in args && k !in Consumed(Hits(cmd.argNames, args)) && t == UnknownParameter(k);
    ErrorHolds(-8, Ascii("Unknown named parameter ") + k);
  }

  lemma ExecutesUnknown(rpc: Rpc, r: Request)
    requires r.strMethod !in rpc.table && InStep(r.params)
    ensures Executed(rpc, r).ThrewValue? && IsError(Executed(rpc, r).error, -32601, Ascii("Method not found"))
  {
    hide IsError, ErrorValue;
    ErrorHolds(-32601, Ascii("Method not found"));
  }

  // ---- The reply ----

  // An object of exactly a result, an error and an id.
  predicate IsReply(v: Value, result: Value, error: Value, id: Value) {
    v == Value(VOBJ, [], [Ascii("result"), Ascii("error"), Ascii("id")], [result, error, id])
  }

  // The outcome of a command, as a reply.
  predicate Answers(v: Value, o: Outcome<Value>, id: Value) {
    match o
    case Returned(x) => IsReply(v, x, NullValue, id)
    case ThrewValue(e) => IsReply(v, NullValue, e, id)
    case ThrewStd(what) => IsErrorReply(v, -1, what, id)
  }

  predicate IsErrorReply(v: Value, code: int, message: bytes, id: Value) {
    |v.values| == 3 && IsReply(v, NullValue, v.values[1], id) && IsError(v.values[1], code, message)
  }

  // An item that parses, its method being known, and the command it asks for.
  predicate Known(rpc: Rpc, req: Value) {
    Parses(req) && Lookup(req, Ascii("method")).value.val in rpc.table
  }

  function CommandOf(rpc: Rpc, req: Value): Command
    requires Known(rpc, req)
  {
    rpc.table[Lookup(req, Ascii("method")).value.val]
  }

  // The named parameters of an item.
  predicate IsNamed(req: Value)
    requires Parses(req)
  {
    Lookup(req, Ascii("params")).value.typ == VOBJ
  }

  lemma ReplyOfOutcome(rpc: Rpc, jreq: Request, req: Value, o: Outcome<Value>)
    requires Answerable(req) && Parses(req)
    requires InStep(Taken(jreq, req).params) && PassedOn(Executed(rpc, Taken(jreq, req)), o)
    ensures Answers(Reply(rpc, jreq, req), o, Lookup(req, Ascii("id")).value)
  {
    hide Lookup, Executed, IsError, ErrorValue, ParseRequest, Parses, Answerable;
    ParseTakes(jreq, req);
  }

  /** A request without named parameters is answered with what its command does on
      the request taken from it. */
  lemma RepliesPlain(rpc: Rpc, jreq: Request, req: Value)
    requires Known(rpc, req) && !IsNamed(req)
    ensures Answerable(req)
    ensures Answers(Reply(rpc, jreq, req), CommandOf(rpc, req).actor(Taken(jreq, req)), Lookup(req, Ascii("id")).value)
  {
    hide Lookup, Executed, PassedOn, Answers, Reply;
    ExecutesPlain(rpc, Taken(jreq, req));
    ReplyOfOutcome(rpc, jreq, req, CommandOf(rpc, req).actor(Taken(jreq, req)));
  }

  /** A request with named parameters, all consumed, is answered with what its
      command does on the request with positional ones. */
  lemma RepliesNamed(rpc: Rpc, jreq: Request, req: Value) returns (q: Request)
    requires Known(rpc, req) && IsNamed(req) && Answerable(req) && ValidBegin(rpc.begin)
    requires var params := Lookup(req, Ascii("params")).value;
      AllConsumed(CommandOf(rpc, req).argNames, ObjMap(params.keys, params.values))
    ensures IsPositional(q, Taken(jreq, req), CommandOf(rpc, req).argNames)
    ensures Answers(Reply(rpc, jreq, req), CommandOf(rpc, req).actor(q), Lookup(req, Ascii("id")).value)
  {
    hide Lookup, Executed, PassedOn, Answers, Reply, Hits, ObjMap;
    q := ExecutesNamed(rpc, Taken(jreq, req));
    ReplyOfOutcome(rpc, jreq, req, CommandOf(rpc, req).actor(q));
  }

  /** A left-over named parameter, an unknown method and every parse failure are
      answered with their errors, no command being run. */
  lemma RepliesLeftOver(rpc: Rpc, jreq: Request, req: Value) returns (k: bytes)
    requires Known(rpc, req) && IsNamed(req) && Answerable(req) && ValidBegin(rpc.begin)
    requires var params := Lookup(req, Ascii("params")).value;
      !AllConsumed(CommandOf(rpc, req).argNames, ObjMap(params.keys, params.values))
    ensures var params := Lookup(req, Ascii("params")).value; var args := ObjMap(params.keys, params.values);
      k in args && k !in Consumed(Hits(CommandOf(rpc, req).argNames, args))
    ensures IsErrorReply(Reply(rpc, jreq, req), -8, Ascii("Unknown named parameter ") + k,
                         Lookup(req, Ascii("id")).value)
  {
    hide Lookup, Executed, Reply, Hits, ObjMap, IsError, Consumed;
    var r := Taken(jreq, req);
    var args := ObjMap(r.params.keys, r.params.values);
    ExecutesLeftOver(rpc, r, CommandOf(rpc, req).actor);
    k :| k in args && k !in Consumed(Hits(CommandOf(rpc, req).argNames, args))
         && IsError(Executed(rpc, r).error, -8, Ascii("Unknown named parameter ") + k);
    ReplyOfOutcome(rpc, jreq, req, Executed(rpc, r));
  }

  lemma RepliesUnknown(rpc: Rpc, jreq: Request, req: Value)
    requires Parses(req) && Answerable(req) && Lookup(req, Ascii("method")).value.val !in rpc.table
    ensures IsErrorReply(Reply(rpc, jreq, req), -32601, Ascii("Method not found"), Lookup(req, Ascii("id")).value)
  {
    hide Lookup, Executed, Reply, IsError;
    var r := Taken(jreq, req);
    ExecutesUnknown(rpc, r);
    ReplyOfOutcome(rpc, jreq, req, Executed(rpc, r));
  }

  // With ParseFails this gives the reply to every item that does not parse.
  lemma RepliesUnparsed(rpc: Rpc, jreq: Request, req: Value)
    requires Answerable(req) && !Parses(req)
    ensures var p := ParseRequest(jreq, req);
      if p.end.ThrewValue? then IsReply(Reply(rpc, jreq, req), NullValue, p.end.error, p.request.id)
      else p.end.ThrewStd? && IsErrorReply(Reply(rpc, jreq, req), -32700, p.end.what, p.request.id)
  {
    hide Lookup, Executed, ParseRequest, Parses, Answerable, IsError, ErrorValue;
    ParseTakes(jreq, req);
    var p := ParseRequest(jreq, req);
    if p.end.ThrewStd? {
      ErrorHolds(-32700, p.end.what);
    }
  }

  // ---- A batch ----

  /** Entry i of the text a batch is answered with, read back, is what the command
      of item i does on the request taken from item i. */
  lemma BatchAnswersPlain(rpc: Rpc, jreq: Request, body: bytes, i: nat)
    requires WellBehaved(rpc) && WellFormed(jreq.id)
    requires Read(body).ok && Read(body).tree.typ == VARR && i < |Read(body).tree.values|
    requires var req := Read(body).tree.values[i]; Known(rpc, req) && !IsNamed(req)
    ensures AllAnswerable(Read(body).tree.values)
    ensures var reqs := Read(body).tree.values;
      var v := ArrayValue(Replies(rpc, jreq, reqs));
      && Writable(v) && Read(Text(v, 0, 0) + [NEWLINE]) == ReadResult(true, v) && |v.values| == |reqs|
      && Answers(v.values[i], CommandOf(rpc, reqs[i]).actor(Taken(jreq, reqs[i])), Lookup(reqs[i], Ascii("id")).value)
  {
    hide Read, WellFormed, WellBehaved, Reply, Text, Answers, Lookup, Known, IsNamed;
    BatchFromText(rpc, jreq, body);
    RepliesPlain(rpc, jreq, Read(body).tree.values[i]);
  }

  lemma BatchAnswersNamed(rpc: Rpc, jreq: Request, body: bytes, i: nat) returns (q: Request)
    requires WellBehaved(rpc) && WellFormed(jreq.id)
    requires Read(body).ok && Read(body).tree.typ == VARR && i < |Read(body).tree.values|
    requires var req := Read(body).tree.values[i];
      && Known(rpc, req) && IsNamed(req) && Answerable(req)
      && var params := Lookup(req, Ascii("params")).value;
      AllConsumed(CommandOf(rpc, req).argNames, ObjMap(params.keys, params.values))
    ensures AllAnswerable(Read(body).tree.values)
    ensures var reqs := Read(body).tree.values;
      var v := ArrayValue(Replies(rpc, jreq, reqs));
      && Writable(v) && Read(Text(v, 0, 0) + [NEWLINE]) == ReadResult(true, v) && |v.values| == |reqs|
      && InStep(Taken(jreq, reqs[i]).params)
      && IsPositional(q, Taken(jreq, reqs[i]), CommandOf(rpc, reqs[i]).argNames)
      && Answers(v.values[i], CommandOf(rpc, reqs[i]).actor(q), Lookup(reqs[i], Ascii("id")).value)
  {
    hide Read, WellFormed, Reply, Text, Answers, Lookup, Hits, ObjMap, OutcomeOk;
    BatchFromText(rpc, jreq, body);
    q := RepliesNamed(rpc, jreq, Read(body).tree.values[i]);
  }
}
