/** vex/response.go: a response frame is the header [version, reply, body
    length] followed by the body. The reply byte is passed through as it is:
    0 and 1 are the conventions, nothing checks them. */
module VexResponse {
  import opened Primitives
  import opened Streams
  import opened Protocol

  datatype Response = Response(reply: byte, body: Bytes)

  /** The frame writeResponseTo sends; the length is truncated to 32 bits. */
  function EncodeResponse(reply: byte, body: Bytes): Bytes
  {
    [PROTOCOL_VERSION, reply] + PutUint32(|body|) + body
  }

  /** The message a client sees for a response with the wrong version. */
  function ResponseMismatchMessage(): Bytes
  {
    Str("response ") + Message(VersionMismatch)
  }

  lemma EncodeResponseLength(reply: byte, body: Bytes)
    ensures |EncodeResponse(reply, body)| == HEADER_LENGTH + |body|
    ensures EncodeResponse(reply, body)[..HEADER_LENGTH] == [PROTOCOL_VERSION, reply] + PutUint32(|body|)
    ensures EncodeResponse(reply, body)[HEADER_LENGTH..] == body
  {
  }

  /** writeResponseTo(writer, reply, body): the header and the body in one
      buffer, sent with a single Write. */
  method WriteResponseTo(w: Writer, reply: byte, body: Bytes) returns (w': Writer, n: nat, err: Option<Error>)
    ensures (w', n, err) == Write(w, EncodeResponse(reply, body))
  {
    var bodyLengthBytes := PutUint32(|body|);
    var response := [PROTOCOL_VERSION, reply];
    response := response + bodyLengthBytes;
    response := response + body;
    var r := Write(w, response);
    w', n, err := r.0, r.1, r.2;
  }

  /** writeErrorResponseTo(writer, msg): the message as the body of an
      ErrorReply. */
  method WriteErrorResponseTo(w: Writer, msg: Bytes) returns (w': Writer, n: nat, err: Option<Error>)
    ensures (w', n, err) == Write(w, EncodeResponse(ERROR_REPLY, msg))
  {
    w', n, err := WriteResponseTo(w, ERROR_REPLY, msg);
  }

  /** readResponseFrom(reader) with the reader at `pos`: the response and
      the position after it. A wrong version byte is reported, once the
      header is read, with its own message. */
  function ReadResponse(input: Bytes, pos: nat): (r: (Result<Response>, nat))
    requires pos <= |input|
    ensures pos <= r.1 <= |input|
    ensures r.0.Ok? ==> r.1 == pos + HEADER_LENGTH + |r.0.value.body|
  {
    var h := ReadFull(input, pos, HEADER_LENGTH);
    if h.0.Err? then (Err(h.0.error), h.1)
    else if h.0.value[0] != PROTOCOL_VERSION then (Err(Custom(ResponseMismatchMessage())), h.1)
    else
      var b := ReadFull(input, h.1, Uint32(h.0.value[2..]));
      if b.0.Err? then (Err(b.0.error), b.1)
      else (Ok(Response(h.0.value[1], b.0.value)), b.1)
  }

  /** readResponseFrom(reader): on any error the reply is ErrorReply and the
      body empty. */
  method ReadResponseFrom(input: Bytes, pos: nat) returns (reply: byte, body: Bytes, err: Option<Error>, next: nat)
    requires pos <= |input|
    ensures next == ReadResponse(input, pos).1
    ensures ReadResponse(input, pos).0.Ok? ==>
      err.None? && Response(reply, body) == ReadResponse(input, pos).0.value
    ensures ReadResponse(input, pos).0.Err? ==>
      err == Some(ReadResponse(input, pos).0.error) && reply == ERROR_REPLY && body == []
  {
    var h := ReadFull(input, pos, HEADER_LENGTH);
    if h.0.Err? {
      return ERROR_REPLY, [], Some(h.0.error), h.1;
    }
    var header := h.0.value;
    if header[0] != PROTOCOL_VERSION {
      return ERROR_REPLY, [], Some(Custom(Str("response ") + Message(VersionMismatch))), h.1;
    }
    reply := header[1];
    var b := ReadFull(input, h.1, Uint32(header[2..]));
    if b.0.Err? {
      return ERROR_REPLY, [], Some(b.0.error), b.1;
    }
    body, err, next := b.0.value, None, b.1;
  }

  // ---------------------------------------------------------------------------
  // Properties of the codec

  /** Round trip: a response written into the stream, with anything before
      and after it, reads back with the same reply byte, whatever its value,
      and the same body, and is consumed exactly. */
  lemma ResponseRoundTrip(before: Bytes, reply: byte, body: Bytes, after: Bytes)
    requires |body| < TWO_TO_32
    ensures var e := EncodeResponse(reply, body);
      ReadResponse(before + e + after, |before|) == (Ok(Response(reply, body)), |before| + |e|)
  {
    var e := EncodeResponse(reply, body);
    var input := before + e + after;
    var p := |before|;
    var q := p + HEADER_LENGTH;
    assert input[p..q] == e[..HEADER_LENGTH];
    var header := input[p..q];
    assert header[2..] == PutUint32(|body|);
    Uint32OfPutUint32(|body|);
    assert header[2..][..4] == header[2..];
    assert input[q..q + |body|] == body by {
      assert input[q..q + |body|] == e[HEADER_LENGTH..];
    }
  }

  /** A response that reads successfully is exactly the encoding of the
      reply and body read. */
  lemma EncodeOfReadResponse(input: Bytes, pos: nat)
    requires pos <= |input| && ReadResponse(input, pos).0.Ok?
    ensures var r := ReadResponse(input, pos);
      |r.0.value.body| < TWO_TO_32 && input[pos..r.1] == EncodeResponse(r.0.value.reply, r.0.value.body)
  {
    var r := ReadResponse(input, pos);
    var q := pos + HEADER_LENGTH;
    var header := input[pos..q];
    var n := Uint32(header[2..]);
    assert header[2..][..4] == header[2..];
    Pow256Values();
    BEOfPutBE(n, 4);
    BEInjective(PutUint32(n), header[2..]);
    assert header == [header[0], header[1]] + header[2..];
    assert input[pos..r.1] == header + input[q..r.1];
  }

  /** A response with the wrong version byte yields ErrorReply semantics:
      the error "response " followed by the mismatch message, with the
      reader right after the header. */
  lemma ResponseVersionMismatch(input: Bytes, pos: nat)
    requires pos + HEADER_LENGTH <= |input| && input[pos] != PROTOCOL_VERSION
    ensures ReadResponse(input, pos) == (Err(Custom(ResponseMismatchMessage())), pos + HEADER_LENGTH)
    ensures Message(ReadResponse(input, pos).0.error) == Str("response " + VERSION_MISMATCH_TEXT)
  {
    assert input[pos..pos + HEADER_LENGTH][0] == input[pos];
    StrAppend("response ", VERSION_MISMATCH_TEXT);
  }

  /** A response cut short anywhere fails to read. */
  lemma ResponseTruncated(before: Bytes, reply: byte, body: Bytes, k: nat)
    requires |body| < TWO_TO_32 && k < |EncodeResponse(reply, body)|
    ensures ReadResponse(before + EncodeResponse(reply, body)[..k], |before|).0.Err?
  {
    var e := EncodeResponse(reply, body);
    var input := before + e[..k];
    var p := |before|;
    if k >= HEADER_LENGTH {
      var header := input[p..p + HEADER_LENGTH];
      assert header == e[..HEADER_LENGTH];
      assert header[2..] == PutUint32(|body|);
      Uint32OfPutUint32(|body|);
      assert header[2..][..4] == header[2..];
    }
  }
}
