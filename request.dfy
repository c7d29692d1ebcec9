/** vex/request.go: a request frame is the header [version, command,
    argument count] followed by every argument as a 4-byte big-endian length
    and its bytes. The writer builds the whole frame and writes it at once;
    the reader consumes it from the connection piece by piece. */
module VexRequest {
  import opened Primitives
  import opened Streams
  import opened Protocol

  datatype Request = Request(command: byte, args: seq<Bytes>)

  // ---------------------------------------------------------------------------
  // Encoding

  /** One argument on the wire: its length, then its bytes. */
  function EncodeArg(a: Bytes): Bytes
  {
    PutUint32(|a|) + a
  }

  function EncodeArgs(args: seq<Bytes>): Bytes
  {
    if args == [] then [] else EncodeArg(args[0]) + EncodeArgs(args[1..])
  }

  /** The frame writeRequestTo sends. The argument count and every length
      are truncated to 32 bits, as uint32(...) does. */
  function EncodeRequest(command: byte, args: seq<Bytes>): Bytes
  {
    [PROTOCOL_VERSION, command] + PutUint32(|args|) + EncodeArgs(args)
  }

  /** The bytes the arguments take on the wire: 4 + |a| each. */
  function ArgsSize(args: seq<Bytes>): nat
  {
    if args == [] then 0 else ARG_LENGTH + |args[0]| + ArgsSize(args[1..])
  }

  /** Requests whose counts fit the 32-bit fields. */
  predicate Encodable(args: seq<Bytes>)
  {
    |args| < TWO_TO_32 && forall i :: 0 <= i < |args| ==> |args[i]| < TWO_TO_32
  }

  lemma {:induction false} EncodeArgsLength(args: seq<Bytes>)
    ensures |EncodeArgs(args)| == ArgsSize(args)
    decreases |args|
  {
    if args != [] {
      EncodeArgsLength(args[1..]);
    }
  }

  /** A request takes 6 + sum(4 + |a|) bytes; without arguments it is the
      6-byte header [1, command, 0, 0, 0, 0]. */
  lemma EncodeRequestLength(command: byte, args: seq<Bytes>)
    ensures |EncodeRequest(command, args)| == HEADER_LENGTH + ArgsSize(args)
    ensures args == [] ==> EncodeRequest(command, args) == [1, command, 0, 0, 0, 0]
  {
    EncodeArgsLength(args);
  }

  lemma {:induction false} EncodeArgsAppend(args: seq<Bytes>, a: Bytes)
    ensures EncodeArgs(args + [a]) == EncodeArgs(args) + EncodeArg(a)
    decreases |args|
  {
    if args == [] {
      assert [a][1..] == [];
    } else {
      assert (args + [a])[1..] == args[1..] + [a];
      EncodeArgsAppend(args[1..], a);
    }
  }

  /** writeRequestTo(writer, command, args): the header, then each argument
      appended in order, sent with a single Write. */
  method WriteRequestTo(w: Writer, command: byte, args: seq<Bytes>) returns (w': Writer, n: nat, err: Option<Error>)
    ensures (w', n, err) == Write(w, EncodeRequest(command, args))
  {
    var request := [PROTOCOL_VERSION, command] + PutUint32(|args|);
    ghost var header := request;
    var i := 0;
    while i < |args|
      invariant 0 <= i <= |args|
      invariant request == header + EncodeArgs(args[..i])
    {
      EncodeArgsAppend(args[..i], args[i]);
      assert args[..i + 1] == args[..i] + [args[i]];
      request := request + PutUint32(|args[i]|);
      request := request + args[i];
      assert request == header + (EncodeArgs(args[..i]) + EncodeArg(args[i]));
      i := i + 1;
    }
    assert args[..|args|] == args;
    var r := Write(w, request);
    w', n, err := r.0, r.1, r.2;
  }

  // ---------------------------------------------------------------------------
  // Decoding

  /** One argument from `pos`: its 4-byte length, then that many bytes,
      each read with io.ReadFull. An argument read successfully is framed as
      the writer frames it (ReadArgFrame); a failure is a short read, which
      has consumed the rest of the input. */
  function ReadArg(input: Bytes, pos: nat): (r: (Result<Bytes>, nat))
    requires pos <= |input|
    ensures pos <= r.1 <= |input|
    ensures r.0.Ok? ==> |r.0.value| < TWO_TO_32 && r.1 == pos + ARG_LENGTH + |r.0.value|
    ensures r.0.Err? ==> r.1 == |input| && (r.0.error == Eof || r.0.error == UnexpectedEof)
  {
    var len := ReadFull(input, pos, ARG_LENGTH);
    if len.0.Err? then (Err(len.0.error), len.1)
    else ReadFull(input, len.1, Uint32(len.0.value))
  }

  /** Reading `count` arguments from `pos`, one after another. */
  function DecodeArgs(input: Bytes, pos: nat, count: nat): (r: (Result<seq<Bytes>>, nat))
    requires pos <= |input|
    ensures pos <= r.1 <= |input|
    ensures r.0.Ok? ==> |r.0.value| == count
    ensures r.0.Err? ==> r.1 == |input| && (r.0.error == Eof || r.0.error == UnexpectedEof)
    decreases count
  {
    if count == 0 then (Ok([]), pos)
    else
      var arg := ReadArg(input, pos);
      if arg.0.Err? then (Err(arg.0.error), arg.1)
      else
        var rest := DecodeArgs(input, arg.1, count - 1);
        if rest.0.Err? then (Err(rest.0.error), rest.1)
        else (Ok([arg.0.value] + rest.0.value), rest.1)
  }

  /** readRequestFrom(reader) with the reader at `pos`: the request and the
      position after it. A wrong version byte is reported once the 6-byte
      header is read, and nothing more is consumed. */
  function ReadRequest(input: Bytes, pos: nat): (r: (Result<Request>, nat))
    requires pos <= |input|
    ensures pos <= r.1 <= |input|
    ensures r.0.Ok? ==> r.1 >= pos + HEADER_LENGTH
    ensures r.0.Err? && r.0.error == VersionMismatch ==> r.1 == pos + HEADER_LENGTH
    ensures r.0.Err? && r.0.error != VersionMismatch ==> r.1 == |input|
  {
    var h := ReadFull(input, pos, HEADER_LENGTH);
    if h.0.Err? then (Err(h.0.error), h.1)
    else if h.0.value[0] != PROTOCOL_VERSION then (Err(VersionMismatch), h.1)
    else
      var a := DecodeArgs(input, h.1, Uint32(h.0.value[2..]));
      if a.0.Err? then (Err(a.0.error), a.1)
      else (Ok(Request(h.0.value[1], a.0.value)), a.1)
  }

  /** The arguments read so far, put in front of what reading the rest
      yields. */
  function Then(prefix: seq<Bytes>, r: (Result<seq<Bytes>>, nat)): (Result<seq<Bytes>>, nat)
  {
    if r.0.Ok? then (Ok(prefix + r.0.value), r.1) else r
  }

  /** readRequestFrom(reader): the header, then one argument per iteration.
      On any error it returns command 0, no arguments and the error. */
  method ReadRequestFrom(input: Bytes, pos: nat) returns (command: byte, args: seq<Bytes>, err: Option<Error>, next: nat)
    requires pos <= |input|
    ensures next == ReadRequest(input, pos).1
    ensures ReadRequest(input, pos).0.Ok? ==>
      err.None? && Request(command, args) == ReadRequest(input, pos).0.value
    ensures ReadRequest(input, pos).0.Err? ==>
      err == Some(ReadRequest(input, pos).0.error) && command == 0 && args == []
  {
    var h := ReadFull(input, pos, HEADER_LENGTH);
    if h.0.Err? {
      return 0, [], Some(h.0.error), h.1;
    }
    var header := h.0.value;
    if header[0] != PROTOCOL_VERSION {
      return 0, [], Some(VersionMismatch), h.1;
    }
    command := header[1];
    var argsLength := Uint32(header[2..]);
    args := [];
    next := h.1;
    var i := 0;
    if DecodeArgs(input, next, argsLength).0.Ok? {
      assert [] + DecodeArgs(input, next, argsLength).0.value == DecodeArgs(input, next, argsLength).0.value;
    }
    while i < argsLength
      invariant 0 <= i <= argsLength && |args| == i
      invariant h.1 <= next <= |input|
      invariant DecodeArgs(input, h.1, argsLength) == Then(args, DecodeArgs(input, next, argsLength - i))
    {
      var len := ReadFull(input, next, ARG_LENGTH);
      if len.0.Err? {
        return 0, [], Some(len.0.error), len.1;
      }
      var arg := ReadFull(input, len.1, Uint32(len.0.value));
      assert ReadArg(input, next) == arg;
      if arg.0.Err? {
        return 0, [], Some(arg.0.error), arg.1;
      }
      ghost var rest := DecodeArgs(input, arg.1, argsLength - i - 1);
      if rest.0.Ok? {
        assert args + ([arg.0.value] + rest.0.value) == (args + [arg.0.value]) + rest.0.value;
      }
      args := args + [arg.0.value];
      next := arg.1;
      i := i + 1;
    }
    err := None;
  }

  // ---------------------------------------------------------------------------
  // Properties of the codec

  /** An argument written at `pos`, followed by `t`: it reads back, and `t`
      follows it. */
  lemma EncodedArgAt(input: Bytes, pos: nat, a: Bytes, t: Bytes)
    requires |a| < TWO_TO_32
    requires pos + ARG_LENGTH + |a| + |t| <= |input|
    requires input[pos..pos + ARG_LENGTH + |a| + |t|] == EncodeArg(a) + t
    ensures ReadArg(input, pos) == (Ok(a), pos + ARG_LENGTH + |a|)
    ensures input[pos + ARG_LENGTH + |a|..pos + ARG_LENGTH + |a| + |t|] == t
  {
    var p1 := pos + ARG_LENGTH;
    ArgWindow(input, pos, a, t);
    assert Uint32(input[pos..p1]) == |a| by {
      Uint32OfPutUint32(|a|);
    }
  }

  /** The pieces of an argument frame written at `pos`, followed by `t`. */
  lemma ArgWindow(input: Bytes, pos: nat, a: Bytes, t: Bytes)
    requires pos + ARG_LENGTH + |a| + |t| <= |input|
    requires input[pos..pos + ARG_LENGTH + |a| + |t|] == EncodeArg(a) + t
    ensures input[pos..pos + ARG_LENGTH] == PutUint32(|a|)
    ensures input[pos + ARG_LENGTH..pos + ARG_LENGTH + |a|] == a
    ensures input[pos + ARG_LENGTH + |a|..pos + ARG_LENGTH + |a| + |t|] == t
  {
    var p1 := pos + ARG_LENGTH;
    var p2 := p1 + |a|;
    var window := input[pos..p2 + |t|];
    assert input[pos..p1] == window[..ARG_LENGTH];
    assert input[p1..p2] == window[ARG_LENGTH..ARG_LENGTH + |a|];
    assert input[p2..p2 + |t|] == window[ARG_LENGTH + |a|..];
  }

  /** Reading back the arguments written at `pos` yields them and stops
      right after them, whatever follows. */
  lemma {:induction false} DecodeArgsOfEncode(input: Bytes, pos: nat, args: seq<Bytes>)
    requires Encodable(args)
    requires pos + |EncodeArgs(args)| <= |input|
    requires input[pos..pos + |EncodeArgs(args)|] == EncodeArgs(args)
    ensures DecodeArgs(input, pos, |args|) == (Ok(args), pos + |EncodeArgs(args)|)
    decreases |args|
  {
    if args != [] {
      var a := args[0];
      var t := EncodeArgs(args[1..]);
      var p2 := pos + ARG_LENGTH + |a|;
      assert ReadArg(input, pos) == (Ok(a), p2) && p2 + |t| <= |input| && input[p2..p2 + |t|] == t by {
        assert EncodeArgs(args) == EncodeArg(a) + t;
        assert |a| < TWO_TO_32;
        EncodedArgAt(input, pos, a, t);
      }
      assert Encodable(args[1..]) by {
        assert forall i :: 0 <= i < |args[1..]| ==> args[1..][i] == args[i + 1];
      }
      DecodeArgsOfEncode(input, p2, args[1..]);
      assert [a] + args[1..] == args;
    }
  }

  /** The header of a request written at `pos`: it reads as the version,
      the command and the argument count, and the arguments follow it. */
  lemma EncodedHeaderAt(input: Bytes, pos: nat, command: byte, args: seq<Bytes>)
    requires |args| < TWO_TO_32
    requires pos + |EncodeRequest(command, args)| <= |input|
    requires input[pos..pos + |EncodeRequest(command, args)|] == EncodeRequest(command, args)
    ensures var header := input[pos..pos + HEADER_LENGTH];
      header[0] == PROTOCOL_VERSION && header[1] == command && Uint32(header[2..]) == |args|
    ensures var q := pos + HEADER_LENGTH;
      input[q..q + |EncodeArgs(args)|] == EncodeArgs(args)
  {
    var e := EncodeRequest(command, args);
    var q := pos + HEADER_LENGTH;
    var header := input[pos..q];
    assert header == e[..HEADER_LENGTH];
    assert header[2..] == PutUint32(|args|);
    Uint32OfPutUint32(|args|);
    assert header[2..][..4] == header[2..];
    assert input[q..q + |EncodeArgs(args)|] == e[HEADER_LENGTH..];
  }

  /** Round trip: a request written into the stream, with anything before
      and after it, reads back as the same command and arguments and is
      consumed exactly. */
  lemma RequestRoundTrip(before: Bytes, command: byte, args: seq<Bytes>, after: Bytes)
    requires Encodable(args)
    ensures var e := EncodeRequest(command, args);
      ReadRequest(before + e + after, |before|) == (Ok(Request(command, args)), |before| + |e|)
  {
    var e := EncodeRequest(command, args);
    var input := before + e + after;
    assert input[|before|..|before| + |e|] == e;
    RequestAt(input, |before|, Request(command, args));
  }

  /** The same, for a frame found anywhere in the input. */
  lemma RequestAt(input: Bytes, pos: nat, r: Request)
    requires Encodable(r.args)
    requires pos + |EncodeRequest(r.command, r.args)| <= |input|
    requires input[pos..pos + |EncodeRequest(r.command, r.args)|] == EncodeRequest(r.command, r.args)
    ensures ReadRequest(input, pos) == (Ok(r), pos + |EncodeRequest(r.command, r.args)|)
  {
    var q := pos + HEADER_LENGTH;
    var header := input[pos..q];
    var n := |EncodeArgs(r.args)|;
    assert header[0] == PROTOCOL_VERSION && header[1] == r.command && Uint32(header[2..]) == |r.args| &&
      q + n <= |input| && input[q..q + n] == EncodeArgs(r.args) by {
      EncodedHeaderAt(input, pos, r.command, r.args);
    }
    assert DecodeArgs(input, q, |r.args|) == (Ok(r.args), q + n) by {
      DecodeArgsOfEncode(input, q, r.args);
    }
  }

  /** One argument read successfully from `pos` is the encoding of what was
      read: its length is the 4-byte length in front of it. */
  lemma ArgFrame(input: Bytes, pos: nat)
    requires pos + ARG_LENGTH <= |input|
    requires pos + ARG_LENGTH + Uint32(input[pos..pos + ARG_LENGTH]) <= |input|
    ensures var p1 := pos + ARG_LENGTH;
      var a := input[p1..p1 + Uint32(input[pos..p1])];
      |a| < TWO_TO_32 && input[pos..p1 + |a|] == EncodeArg(a)
  {
    var p1 := pos + ARG_LENGTH;
    var len := input[pos..p1];
    var a := input[p1..p1 + Uint32(len)];
    Pow256Values();
    BEOfPutBE(|a|, 4);
    assert len[..4] == len;
    BEInjective(PutUint32(|a|), len);
    assert input[pos..p1 + |a|] == len + a;
  }

  /** An argument read successfully is framed as the writer frames it. */
  lemma ReadArgFrame(input: Bytes, pos: nat)
    requires pos <= |input| && ReadArg(input, pos).0.Ok?
    ensures var r := ReadArg(input, pos);
      input[pos..r.1] == EncodeArg(r.0.value)
  {
    ArgFrame(input, pos);
  }

  /** A successful read of `count` > 0 arguments is a successful read of
      the first, followed by a successful read of the rest. */
  lemma DecodeArgsHead(input: Bytes, pos: nat, count: nat)
    requires pos <= |input| && count > 0 && DecodeArgs(input, pos, count).0.Ok?
    ensures var arg := ReadArg(input, pos);
      arg.0.Ok? &&
      var rest := DecodeArgs(input, arg.1, count - 1);
      rest.0.Ok? && DecodeArgs(input, pos, count) == (Ok([arg.0.value] + rest.0.value), rest.1)
  {
  }

  /** Every argument read has a length that fits the 32-bit field. */
  lemma {:induction false} DecodeArgsBounded(input: Bytes, pos: nat, count: nat)
    requires pos <= |input|
    requires DecodeArgs(input, pos, count).0.Ok?
    ensures var args := DecodeArgs(input, pos, count).0.value;
      forall i :: 0 <= i < |args| ==> |args[i]| < TWO_TO_32
    decreases count
  {
    if count > 0 {
      DecodeArgsHead(input, pos, count);
      DecodeArgsBounded(input, ReadArg(input, pos).1, count - 1);
    }
  }

  /** An argument's frame followed by the frames of `rest` is the frame of
      the argument list [a] + rest. */
  lemma FramesJoin(input: Bytes, pos: nat, mid: nat, end: nat, a: Bytes, rest: seq<Bytes>)
    requires pos <= mid <= end <= |input|
    requires input[pos..mid] == EncodeArg(a) && input[mid..end] == EncodeArgs(rest)
    ensures input[pos..end] == EncodeArgs([a] + rest)
  {
    assert ([a] + rest)[1..] == rest;
    assert input[pos..end] == input[pos..mid] + input[mid..end];
  }

  /** Whatever reads successfully is the encoding of what was read: each
      argument's length is the 4-byte length in front of it. */
  lemma {:induction false} EncodeOfDecodeArgs(input: Bytes, pos: nat, count: nat)
    requires pos <= |input|
    requires DecodeArgs(input, pos, count).0.Ok?
    ensures var r := DecodeArgs(input, pos, count);
      input[pos..r.1] == EncodeArgs(r.0.value)
    decreases count
  {
    if count > 0 {
      DecodeArgsHead(input, pos, count);
      var arg := ReadArg(input, pos);
      var rest := DecodeArgs(input, arg.1, count - 1);
      EncodeOfDecodeArgs(input, arg.1, count - 1);
      ReadArgFrame(input, pos);
      FramesJoin(input, pos, arg.1, rest.1, arg.0.value, rest.0.value);
    }
  }

  /** A request that reads successfully is exactly the encoding of the
      command and arguments read, and its counts fit their fields. */
  lemma EncodeOfReadRequest(input: Bytes, pos: nat)
    requires pos <= |input| && ReadRequest(input, pos).0.Ok?
    ensures var r := ReadRequest(input, pos);
      Encodable(r.0.value.args) && input[pos..r.1] == EncodeRequest(r.0.value.command, r.0.value.args)
  {
    var r := ReadRequest(input, pos);
    var q := pos + HEADER_LENGTH;
    var header := input[pos..q];
    var count := Uint32(header[2..]);
    var d := DecodeArgs(input, q, count);
    assert r == (Ok(Request(header[1], d.0.value)), d.1) && header[0] == PROTOCOL_VERSION;
    assert Encodable(d.0.value) by {
      DecodeArgsBounded(input, q, count);
    }
    assert header[2..] == PutUint32(count) by {
      assert header[2..][..4] == header[2..];
      Pow256Values();
      BEOfPutBE(count, 4);
      BEInjective(PutUint32(count), header[2..]);
    }
    assert input[q..d.1] == EncodeArgs(d.0.value) by {
      EncodeOfDecodeArgs(input, q, count);
    }
    assert header == [header[0], header[1]] + header[2..];
    assert input[pos..d.1] == header + input[q..d.1];
  }

  /** A frame with the wrong version byte is rejected once its 6-byte header
      is read: the error is the version mismatch and the reader stands right
      after the header, before the frame's arguments. */
  lemma VersionMismatchSkipsHeader(input: Bytes, pos: nat)
    requires pos + HEADER_LENGTH <= |input| && input[pos] != PROTOCOL_VERSION
    ensures ReadRequest(input, pos) == (Err(VersionMismatch), pos + HEADER_LENGTH)
  {
    assert input[pos..pos + HEADER_LENGTH][0] == input[pos];
  }

  /** The arguments cut short anywhere fail to read. */
  lemma {:induction false} DecodeArgsTruncated(input: Bytes, pos: nat, args: seq<Bytes>)
    requires Encodable(args)
    requires pos <= |input| < pos + |EncodeArgs(args)|
    requires input[pos..] == EncodeArgs(args)[..|input| - pos]
    ensures DecodeArgs(input, pos, |args|).0.Err?
    decreases |args|
  {
    var a := args[0];
    var e := EncodeArgs(args);
    var p1 := pos + ARG_LENGTH;
    assert e == PutUint32(|a|) + a + EncodeArgs(args[1..]);
    if p1 <= |input| {
      assert input[pos..p1] == PutUint32(|a|) by {
        assert input[pos..p1] == input[pos..][..ARG_LENGTH];
      }
      Uint32OfPutUint32(|a|);
      assert input[pos..p1][..4] == input[pos..p1];
      var p2 := p1 + |a|;
      if p2 <= |input| {
        assert Encodable(args[1..]) by {
          assert forall i :: 0 <= i < |args[1..]| ==> args[1..][i] == args[i + 1];
        }
        assert input[p2..] == EncodeArgs(args[1..])[..|input| - p2] by {
          assert input[p2..] == input[pos..][ARG_LENGTH + |a|..];
          assert e[ARG_LENGTH + |a|..] == EncodeArgs(args[1..]);
        }
        DecodeArgsTruncated(input, p2, args[1..]);
      }
    }
  }

  /** A request cut short anywhere, even right after an argument, fails to
      read: the reader reports a short read instead of a request. */
  lemma RequestTruncated(before: Bytes, command: byte, args: seq<Bytes>, k: nat)
    requires Encodable(args) && k < |EncodeRequest(command, args)|
    ensures ReadRequest(before + EncodeRequest(command, args)[..k], |before|).0.Err?
  {
    var e := EncodeRequest(command, args);
    var input := before + e[..k];
    var p := |before|;
    if k >= HEADER_LENGTH {
      var q := p + HEADER_LENGTH;
      var header := input[p..q];
      assert header == e[..HEADER_LENGTH];
      assert header[2..] == PutUint32(|args|);
      Uint32OfPutUint32(|args|);
      assert header[2..][..4] == header[2..];
      assert input[q..] == EncodeArgs(args)[..|input| - q] by {
        assert input[q..] == e[HEADER_LENGTH..k];
        assert e[HEADER_LENGTH..] == EncodeArgs(args);
      }
      DecodeArgsTruncated(input, q, args);
    }
  }
}
