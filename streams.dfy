/** The two ends of a connection as values. A reader is a cursor into the
    bytes the peer sends before it closes the connection; a writer is the
    sequence of bytes sent so far, and may be broken, in which case every
    write fails with the same error and sends nothing. */
module Streams {
  import opened Primitives

  /** io.ReadFull(reader, buf) with len(buf) == n, reading `input` from `pos`.
      It yields the next `n` bytes, or io.EOF when nothing is left, or
      io.ErrUnexpectedEOF when only part of them is left, in which case that
      part is consumed. */
  function ReadFull(input: Bytes, pos: nat, n: nat): (r: (Result<Bytes>, nat))
    requires pos <= |input|
    ensures pos <= r.1 <= |input|
    ensures r.0.Ok? <==> pos + n <= |input|
    ensures r.0.Ok? ==> r.0.value == input[pos..pos + n] && r.1 == pos + n
    ensures r.0.Err? ==> r.1 == |input|
    ensures r.0.Err? ==> r.0.error == (if pos == |input| then Eof else UnexpectedEof)
  {
    if pos + n <= |input| then (Ok(input[pos..pos + n]), pos + n)
    else if pos == |input| then (Err(Eof), pos)
    else (Err(UnexpectedEof), |input|)
  }

  datatype Writer = Writer(sent: Bytes, broken: Option<Error>)

  /** writer.Write(b): all of `b` is sent, or nothing and the writer's error. */
  function Write(w: Writer, b: Bytes): (r: (Writer, nat, Option<Error>))
    ensures r.0.broken == w.broken
    ensures w.broken.None? ==> r == (Writer(w.sent + b, None), |b|, None)
    ensures w.broken.Some? ==> r == (w, 0, w.broken)
  {
    if w.broken.Some? then (w, 0, w.broken) else (Writer(w.sent + b, None), |b|, None)
  }
}
