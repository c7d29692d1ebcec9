/** vex/server.go: a server keeps one handler per command byte and, for each
    connection, reads requests one after another, hands each to its handler
    and answers with one response frame. A handler is modelled as a pure
    transformer of some state `S` (the state the handlers close over, such
    as a cache), so that serving a connection is a function of the handlers,
    the state and the bytes the client sends. */
module VexServer {
  import opened Primitives
  import opened Streams
  import opened Protocol
  import opened VexRequest
  import opened VexResponse

  /** func(args [][]byte) (body []byte, err error), over the state it uses. */
  type Handler<!S> = (S, seq<Bytes>) -> (S, Bytes, Option<Error>)

  /** commandHandlerNotFoundErr. */
  const HANDLER_NOT_FOUND: Bytes := Str("failed to find a handler of command")

  /** What handleRequest returns, together with the handlers' new state. */
  datatype Outcome<S> = Outcome(state: S, reply: byte, body: Bytes, err: Option<Error>)

  /** handleRequest(command, args): an unknown command is answered with
      ErrorReply, no body and the not-found error, and the state is left as
      it is; a known one runs its handler, and the reply is ErrorReply exactly
      when the handler fails, with whatever body it returned. */
  function Dispatch<S>(handlers: map<byte, Handler<S>>, state: S, command: byte, args: seq<Bytes>): (o: Outcome<S>)
    ensures command !in handlers ==> o == Outcome(state, ERROR_REPLY, [], Some(Custom(HANDLER_NOT_FOUND)))
    ensures command in handlers ==> (o.state, o.body, o.err) == handlers[command](state, args)
    ensures o.reply == (if o.err.Some? then ERROR_REPLY else SUCCESS_REPLY)
  {
    if command !in handlers then Outcome(state, ERROR_REPLY, [], Some(Custom(HANDLER_NOT_FOUND)))
    else
      var (state', body, err) := handlers[command](state, args);
      Outcome(state', if err.Some? then ERROR_REPLY else SUCCESS_REPLY, body, err)
  }

  /** After RegisterHandler(command, handler), a request for `command` runs
      that handler, answered ErrorReply exactly when it fails, and every
      other command is dispatched as before. */
  lemma DispatchAfterRegister<S>(handlers: map<byte, Handler<S>>, command: byte, handler: Handler<S>, state: S, c: byte, args: seq<Bytes>)
    ensures c == command ==>
      var o := Dispatch(handlers[command := handler], state, c, args);
      (o.state, o.body, o.err) == handler(state, args) && o.reply == (if o.err.Some? then ERROR_REPLY else SUCCESS_REPLY)
    ensures c != command ==>
      Dispatch(handlers[command := handler], state, c, args) == Dispatch(handlers, state, c, args)
  {
  }

  /** The frame handleConn sends for one outcome: a failed request is
      answered with the error's text as the body (writeErrorResponseTo), any
      other with the reply and body. */
  function Answer<S>(o: Outcome<S>): Bytes
  {
    if o.err.Some? then EncodeResponse(ERROR_REPLY, Message(o.err.value))
    else EncodeResponse(o.reply, o.body)
  }

  /** One request handled: the handlers' new state and the writer after
      the answer is written. */
  function Handle<S>(handlers: map<byte, Handler<S>>, state: S, req: Request, w: Writer): (S, Writer)
  {
    var o := Dispatch(handlers, state, req.command, req.args);
    (o.state, Write(w, Answer(o)).0)
  }

  /** handleConn over the bytes the client sends, starting at `pos`: a frame
      with the wrong version is skipped, any other read error ends the
      connection, and every request read is answered in order. Write errors
      do not end the loop. The result is the handlers' final state and the
      writer. */
  function Serve<S>(handlers: map<byte, Handler<S>>, state: S, input: Bytes, pos: nat, w: Writer): (r: (S, Writer))
    requires pos <= |input|
    decreases |input| - pos
  {
    var rd := ReadRequest(input, pos);
    if rd.0.Err? then
      if rd.0.error == VersionMismatch then Serve(handlers, state, input, rd.1, w)
      else (state, w)
    else
      var h := Handle(handlers, state, rd.0.value, w);
      Serve(handlers, h.0, input, rd.1, h.1)
  }

  /** A server: its handler table, filled in by RegisterHandler. */
  class Server<S> {
    var handlers: map<byte, Handler<S>>

    /** NewServer(): no handler is registered. */
    constructor ()
      ensures handlers == map[]
    {
      handlers := map[];
    }

    /** RegisterHandler(command, handler): the handler for `command` is
        replaced, every other entry is kept. */
    method RegisterHandler(command: byte, handler: Handler<S>)
      modifies this
      ensures handlers == old(handlers)[command := handler]
    {
      handlers := handlers[command := handler];
    }

    /** handleConn(conn): the read-dispatch-answer loop, which runs until a
        read fails with anything but a version mismatch. */
    method HandleConn(state: S, input: Bytes, w: Writer) returns (state': S, w': Writer)
      ensures (state', w') == Serve(handlers, state, input, 0, w)
    {
      var pos: nat := 0;
      state', w' := state, w;
      while true
        invariant pos <= |input|
        invariant Serve(handlers, state', input, pos, w') == Serve(handlers, state, input, 0, w)
        decreases |input| - pos
      {
        var command, args, err, next := ReadRequestFrom(input, pos);
        if err.Some? {
          if err.value == VersionMismatch {
            pos := next;
            continue;
          }
          return;
        }
        var o := Dispatch(handlers, state', command, args);
        state' := o.state;
        if o.err.Some? {
          var n, werr;
          w', n, werr := WriteErrorResponseTo(w', Message(o.err.value));
          pos := next;
          continue;
        }
        var n, werr;
        w', n, werr := WriteResponseTo(w', o.reply, o.body);
        pos := next;
      }
    }
  }

  // ---------------------------------------------------------------------------
  // What a connection carrying well-formed requests gets back

  /** The frames of a sequence of requests, back to back. */
  function EncodeAll(reqs: seq<Request>): Bytes
  {
    if reqs == [] then [] else EncodeRequest(reqs[0].command, reqs[0].args) + EncodeAll(reqs[1..])
  }

  predicate AllEncodable(reqs: seq<Request>)
  {
    forall i :: 0 <= i < |reqs| ==> Encodable(reqs[i].args)
  }

  /** Answering `reqs` one after the other, first to last. */
  function Replies<S>(handlers: map<byte, Handler<S>>, state: S, reqs: seq<Request>, w: Writer): (S, Writer)
  {
    if reqs == [] then (state, w)
    else
      var h := Handle(handlers, state, reqs[0], w);
      Replies(handlers, h.0, reqs[1..], h.1)
  }

  /** One well-formed request at `pos` is handled, and serving goes on
      right after it. */
  lemma ServeStep<S>(handlers: map<byte, Handler<S>>, state: S, input: Bytes, pos: nat, w: Writer, req: Request, next: nat)
    requires pos <= |input| && ReadRequest(input, pos) == (Ok(req), next)
    ensures var h := Handle(handlers, state, req, w);
      Serve(handlers, state, input, pos, w) == Serve(handlers, h.0, input, next, h.1)
  {
  }

  /** A connection closed by the client ends the loop with nothing sent. */
  lemma ServeAtEnd<S>(handlers: map<byte, Handler<S>>, state: S, input: Bytes, w: Writer)
    ensures Serve(handlers, state, input, |input|, w) == (state, w)
  {
    assert ReadRequest(input, |input|).0 == Err(Eof);
  }

  lemma AllEncodableTail(reqs: seq<Request>)
    requires reqs != [] && AllEncodable(reqs)
    ensures Encodable(reqs[0].args) && AllEncodable(reqs[1..])
  {
    assert forall i :: 0 <= i < |reqs[1..]| ==> reqs[1..][i] == reqs[i + 1];
  }

  /** The requests the server reads from `pos` on are `reqs`, one after
      another, and then the connection ends. */
  ghost predicate ReadsAs(input: Bytes, pos: nat, reqs: seq<Request>)
    requires pos <= |input|
    decreases |reqs|
  {
    if reqs == [] then pos == |input|
    else
      var rd := ReadRequest(input, pos);
      rd.0 == Ok(reqs[0]) && ReadsAs(input, rd.1, reqs[1..])
  }

  /** What follows `pos` splits into the bytes `u` at `pos` and the bytes
      `v` after them. */
  lemma SplitAt(input: Bytes, pos: nat, u: Bytes, v: Bytes)
    requires pos <= |input| && input[pos..] == u + v
    ensures pos + |u| <= |input|
    ensures input[pos..pos + |u|] == u && input[pos + |u|..] == v
  {
    var s := input[pos..];
    assert s[..|u|] == u && s[|u|..] == v;
  }

  lemma EncodeAllHead(reqs: seq<Request>)
    requires reqs != []
    ensures EncodeAll(reqs) == EncodeRequest(reqs[0].command, reqs[0].args) + EncodeAll(reqs[1..])
  {
  }

  /** A request frame at `pos`, followed by `rest`, is read whole, and
      reading goes on at `rest`. */
  lemma FrameAt(input: Bytes, pos: nat, r: Request, rest: Bytes)
    requires pos <= |input| && input[pos..] == EncodeRequest(r.command, r.args) + rest
    requires Encodable(r.args)
    ensures pos + |EncodeRequest(r.command, r.args)| <= |input|
    ensures ReadRequest(input, pos) == (Ok(r), pos + |EncodeRequest(r.command, r.args)|)
    ensures input[pos + |EncodeRequest(r.command, r.args)|..] == rest
  {
    SplitAt(input, pos, EncodeRequest(r.command, r.args), rest);
    RequestAt(input, pos, r);
  }

  /** Well-formed request frames back to back read as those requests. */
  lemma {:induction false} EncodedReadsAs(input: Bytes, pos: nat, reqs: seq<Request>)
    requires pos <= |input| && input[pos..] == EncodeAll(reqs)
    requires AllEncodable(reqs)
    ensures ReadsAs(input, pos, reqs)
    decreases |reqs|
  {
    if reqs != [] {
      var next := pos + |EncodeRequest(reqs[0].command, reqs[0].args)|;
      AllEncodableTail(reqs);
      assert next <= |input| && ReadRequest(input, pos) == (Ok(reqs[0]), next) && input[next..] == EncodeAll(reqs[1..]) by {
        EncodeAllHead(reqs);
        FrameAt(input, pos, reqs[0], EncodeAll(reqs[1..]));
      }
      EncodedReadsAs(input, next, reqs[1..]);
    }
  }

  /** Answering a nonempty sequence answers its first request first. */
  lemma RepliesStep<S>(handlers: map<byte, Handler<S>>, state: S, reqs: seq<Request>, w: Writer)
    requires reqs != []
    ensures var h := Handle(handlers, state, reqs[0], w);
      Replies(handlers, state, reqs, w) == Replies(handlers, h.0, reqs[1..], h.1)
  {
  }

  /** A connection that reads as `reqs` is answered as `reqs` are. */
  lemma {:induction false} ServeReads<S>(handlers: map<byte, Handler<S>>, state: S, input: Bytes, pos: nat, reqs: seq<Request>, w: Writer)
    requires pos <= |input| && ReadsAs(input, pos, reqs)
    ensures Serve(handlers, state, input, pos, w) == Replies(handlers, state, reqs, w)
    decreases |reqs|
  {
    if reqs == [] {
      ServeAtEnd(handlers, state, input, w);
    } else {
      var next := ReadRequest(input, pos).1;
      var h := Handle(handlers, state, reqs[0], w);
      ServeStep(handlers, state, input, pos, w, reqs[0], next);
      ServeReads(handlers, h.0, input, next, reqs[1..], h.1);
      RepliesStep(handlers, state, reqs, w);
    }
  }

  /** A connection whose remaining bytes are well-formed requests, after
      which the client closes, gets one response per request, in the order
      the requests were sent, and the handlers see the requests in that
      order. */
  lemma ServeRequests<S>(handlers: map<byte, Handler<S>>, state: S, input: Bytes, pos: nat, reqs: seq<Request>, w: Writer)
    requires pos <= |input| && input[pos..] == EncodeAll(reqs)
    requires AllEncodable(reqs)
    ensures Serve(handlers, state, input, pos, w) == Replies(handlers, state, reqs, w)
  {
    EncodedReadsAs(input, pos, reqs);
    ServeReads(handlers, state, input, pos, reqs, w);
  }

  /** With a working writer, the bytes sent are the answers, in order. */
  function Answers<S>(handlers: map<byte, Handler<S>>, state: S, reqs: seq<Request>): Bytes
  {
    if reqs == [] then []
    else
      var o := Dispatch(handlers, state, reqs[0].command, reqs[0].args);
      Answer(o) + Answers(handlers, o.state, reqs[1..])
  }

  lemma {:induction false} RepliesSent<S>(handlers: map<byte, Handler<S>>, state: S, reqs: seq<Request>, sent: Bytes)
    ensures Replies(handlers, state, reqs, Writer(sent, None)).1 == Writer(sent + Answers(handlers, state, reqs), None)
    decreases |reqs|
  {
    if reqs != [] {
      var o := Dispatch(handlers, state, reqs[0].command, reqs[0].args);
      RepliesSent(handlers, o.state, reqs[1..], sent + Answer(o));
      assert sent + Answer(o) + Answers(handlers, o.state, reqs[1..]) == sent + Answers(handlers, state, reqs);
    }
  }

  /** A frame of the wrong version is skipped, header only, with no answer
      and no change of state. */
  lemma SkipMismatchedFrame<S>(handlers: map<byte, Handler<S>>, state: S, input: Bytes, pos: nat, w: Writer)
    requires pos + HEADER_LENGTH <= |input| && input[pos] != PROTOCOL_VERSION
    ensures Serve(handlers, state, input, pos, w) == Serve(handlers, state, input, pos + HEADER_LENGTH, w)
  {
    VersionMismatchSkipsHeader(input, pos);
  }

  /** A connection that ends partway through a frame, in its header or
      after it, ends the loop there: the partial request is neither handled
      nor answered. */
  lemma TruncatedRequestEnds<S>(handlers: map<byte, Handler<S>>, state: S, before: Bytes, command: byte, args: seq<Bytes>, k: nat, w: Writer)
    requires Encodable(args) && k < |EncodeRequest(command, args)|
    ensures Serve(handlers, state, before + EncodeRequest(command, args)[..k], |before|, w) == (state, w)
  {
    var input := before + EncodeRequest(command, args)[..k];
    RequestTruncated(before, command, args, k);
    EncodeRequestLength(command, args);
    if k >= HEADER_LENGTH {
      assert input[|before|] == PROTOCOL_VERSION;
    }
    assert ReadRequest(input, |before|).0.error != VersionMismatch;
  }
}
