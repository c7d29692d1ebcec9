/** vex/client.go: a client owns one connection; Do writes one request and
    reads one response from it. The connection is modelled by the writer of
    the client's side and the bytes the server sends back, read from a
    cursor. */
module VexClient {
  import opened Primitives
  import opened Streams
  import opened Protocol
  import opened VexRequest
  import opened VexResponse
  import VexServer

  /** What Do returns, with the writer and the read cursor after it. */
  datatype Exchanged = Exchanged(body: Bytes, err: Option<Error>, writer: Writer, pos: nat)

  /** Do(command, args): a failed write returns no body and the write's
      error, and nothing is read; a failed read returns no body and the
      read's error; an ErrorReply returns the body and also an error whose
      text is the body; any other reply returns the body and no error. */
  function Exchange(w: Writer, incoming: Bytes, pos: nat, command: byte, args: seq<Bytes>): (x: Exchanged)
    requires pos <= |incoming|
    ensures pos <= x.pos <= |incoming|
  {
    var (w', _, werr) := Write(w, EncodeRequest(command, args));
    if werr.Some? then Exchanged([], werr, w', pos)
    else
      var rd := ReadResponse(incoming, pos);
      if rd.0.Err? then Exchanged([], Some(rd.0.error), w', rd.1)
      else if rd.0.value.reply == ERROR_REPLY then Exchanged(rd.0.value.body, Some(Custom(rd.0.value.body)), w', rd.1)
      else Exchanged(rd.0.value.body, None, w', rd.1)
  }

  class Client {
    /** The client's side of the connection. */
    var writer: Writer
    /** Everything the server sends on this connection. */
    const incoming: Bytes
    /** How much of `incoming` the buffered reader has consumed. */
    var pos: nat

    ghost predicate Valid()
      reads this
    {
      pos <= |incoming|
    }

    /** NewClient over an established connection. */
    constructor (writer: Writer, incoming: Bytes)
      ensures Valid()
      ensures this.writer == writer && this.incoming == incoming && pos == 0
    {
      this.writer := writer;
      this.incoming := incoming;
      pos := 0;
    }

    method Do(command: byte, args: seq<Bytes>) returns (body: Bytes, err: Option<Error>)
      requires Valid()
      modifies this
      ensures Valid()
      ensures Exchanged(body, err, writer, pos) == Exchange(old(writer), incoming, old(pos), command, args)
    {
      var n, werr;
      writer, n, werr := WriteRequestTo(writer, command, args);
      if werr.Some? {
        return [], werr;
      }
      var reply, next;
      reply, body, err, next := ReadResponseFrom(incoming, pos);
      pos := next;
      if err.Some? {
        return body, err;
      }
      if reply == ERROR_REPLY {
        return body, Some(Custom(body));
      }
      return body, None;
    }
  }

  /** A client whose writer works and whose server sends back one response
      frame gets that frame's body, with an error carrying the body exactly
      when the reply is ErrorReply; its request is what was sent, and the
      cursor ends right after the frame. */
  lemma ExchangeWithResponse(w: Writer, before: Bytes, reply: byte, body: Bytes, after: Bytes, command: byte, args: seq<Bytes>)
    requires w.broken.None? && |body| < TWO_TO_32
    ensures var x := Exchange(w, before + EncodeResponse(reply, body) + after, |before|, command, args);
      x.body == body &&
      x.err == (if reply == ERROR_REPLY then Some(Custom(body)) else None) &&
      x.writer == Writer(w.sent + EncodeRequest(command, args), None) &&
      x.pos == |before| + |EncodeResponse(reply, body)|
  {
    ResponseRoundTrip(before, reply, body, after);
  }

  /** A broken connection fails Do at once with the connection's error; the
      request is not sent and nothing is read. */
  lemma ExchangeOnBrokenWriter(w: Writer, incoming: Bytes, pos: nat, command: byte, args: seq<Bytes>)
    requires pos <= |incoming| && w.broken.Some?
    ensures Exchange(w, incoming, pos, command, args) == Exchanged([], w.broken, w, pos)
  {
  }

  /** Client and server together: what the client reads for a request the
      server answered with outcome `o`. A handler's error reaches the client
      as an error with the same text, and the body is that text; a success
      reaches it as the handler's body and no error. */
  lemma ExchangeWithServer<S>(w: Writer, before: Bytes, o: VexServer.Outcome<S>, after: Bytes, command: byte, args: seq<Bytes>)
    requires w.broken.None?
    requires o.reply == (if o.err.Some? then ERROR_REPLY else SUCCESS_REPLY)
    requires o.err.Some? ==> |Message(o.err.value)| < TWO_TO_32
    requires o.err.None? ==> |o.body| < TWO_TO_32
    ensures var x := Exchange(w, before + VexServer.Answer(o) + after, |before|, command, args);
      (o.err.Some? ==> x.body == Message(o.err.value) && x.err == Some(Custom(Message(o.err.value)))) &&
      (o.err.None? ==> x.body == o.body && x.err.None?) &&
      x.pos == |before| + |VexServer.Answer(o)|
  {
    if o.err.Some? {
      ExchangeWithResponse(w, before, ERROR_REPLY, Message(o.err.value), after, command, args);
    } else {
      ExchangeWithResponse(w, before, o.reply, o.body, after, command, args);
    }
  }
}
