# A verified model of the Cache server's core

This project models three parts of a small distributed cache server, written
in Go, and proves what each part promises.

- **The sharded cache engine** (`caches/`). A cache is a fixed array of
  segments. A key is routed to one segment by a 31-multiplier hash of its
  bytes, computed in wrapping 64-bit arithmetic. Each segment keeps a map
  from keys to entries. An entry has a sliding time-to-live: a read
  refreshes it, and an entry not read within its ttl is dead. Each segment
  also keeps a status object that counts entries, key bytes and value bytes.
  The model proves that every operation keeps the status equal to the tally
  of the map. It also proves the capacity check on `set`
  (`MaxEntrySize*1024*2014/SegmentSize`, with the source's factor 2014), the
  bounded garbage collection, and that an operation on a key touches only
  that key's segment and that key's entry.
- **The "vex" binary protocol** (`vex/`). A request frame is
  `[1, command, u32 argument count]`, then each argument as `u32 length`
  followed by its bytes. A response frame is `[1, reply, u32 body length]`
  followed by the body. All integers are big-endian. The model proves:
  - exact lengths;
  - round trips in both directions (decode of encode, and encode of decode);
  - errors on every truncation;
  - the version-mismatch behaviour.

  It also models the server's per-connection loop over the bytes a client
  sends: one answer per request, in order, and a mismatched frame skipped
  header only. And it models the client's `Do`.
- **The TCP command handlers and the cluster client** (`services/`). The
  handlers check the argument count, then check that this node owns the key.
  A key owned elsewhere gets the error `"redirect to node " + owner`. The
  set handler decodes a big-endian ttl. The cluster client follows
  redirects a fixed five times. Its `Status` sums the nodes' counters. The
  `host:port` string of `helpers/net.go` is modelled too.

The wall clock is a parameter `now`. A reader is a cursor into the bytes the
peer sends. A writer is the sequence of bytes sent so far, and may be broken.
Four things the code calls into are parameters:

- the consistent-hash ring (`selectNode`, `circle.Get`, `circle.Members`);
- the connection pool (`getOrCreateClient`);
- the remote `Do` calls of the cluster client;
- JSON decoding of a node's status.

A handler of the vex server is a pure function. It maps the state it closes
over, and the arguments, to a new state, a body and an error.

Files: `primitives.dfy` (bytes, errors, 64-bit and big-endian integers),
`streams.dfy`, `status.dfy`, `value.dfy`, `options.dfy`, `segment.dfy`,
`caches.dfy`, `protocol.dfy`, `request.dfy`, `response.dfy`, `server.dfy`,
`client.dfy`, `tcp.dfy`, `tcp_client.dfy`, `net.dfy`.

## Model

| member | source | states |
|---|---|---|
| Primitives.TrimPrefix | services/tcp_client.go:164 | strings.TrimPrefix: with the prefix, prefix + result is the input; without it, the input is returned unchanged |
| Primitives.Wrap64 | caches/caches.go:59 | the int64 Go leaves of a mathematical value is in int64 range, congruent to it modulo 2^64, and equal to it when it already fits |
| Primitives.Uint64Of | services/tcp_client.go:198 | uint64(x) of an int64 is x when x >= 0 and x + 2^64 otherwise, always below 2^64 |
| Primitives.Int64Of | services/tcp.go:97 | int64(u) of a uint64 is an int64 whose uint64 conversion gives u back |
| Primitives.Int64OfUint64Of | services/tcp_client.go:197-198 | converting an int64 to uint64 and back gives the same int64, so a ttl crosses the wire intact |
| Primitives.GoDivBounds | caches/segment.go:74 | Go's division truncates toward zero: the quotient has the sign of the dividend and the remainder is smaller than the divisor |
| Primitives.Uint32 | vex/request.go:28 | binary.BigEndian.Uint32 of the first four bytes is below 2^32 |
| Primitives.PutUint32 | vex/request.go:53 | binary.BigEndian.PutUint32 writes exactly four bytes |
| Primitives.Uint32OfPutUint32 | vex/request.go:28 | decoding the four bytes PutUint32 wrote gives the number back, for every uint32 |
| Primitives.BEOfPutBE | vex/request.go:53 | big-endian decoding of a k-byte big-endian encoding is the number, whenever it fits in k bytes |
| Primitives.BEInjective | vex/request.go:38 | two byte strings of equal length with the same big-endian value are equal, so a length prefix has one encoding |
| Primitives.BitAndAtMost | caches/caches.go:65 | h & mask never exceeds mask, so the segment index is in range |
| Streams.ReadFull | vex/request.go:12 | io.ReadFull: the next n bytes when n are left; io.EOF with nothing consumed at the end; io.ErrUnexpectedEOF with the rest consumed otherwise |
| Streams.Write | vex/request.go:64 | a write sends all its bytes and reports their count, or sends nothing and reports the connection's error |
| Stats.SubtractedAfterAdded | caches/status.go:17-27 | subEntry after addEntry of the same key and value (and the reverse) restores the counters exactly |
| Stats.AddedGrowsSize | caches/status.go:17-31 | addEntry grows entrySize() by len(key)+len(value); subEntry shrinks it by the same |
| Stats.ApplyIsNet | caches/status.go:17-27 | applying a series of addEntry/subEntry calls adds their net effect to the counters |
| Stats.NetAppend | caches/status.go:17-27 | the net effect of two series of calls run one after the other is the sum of their net effects |
| Stats.NetPermutation | caches/status.go:17-27 | two series of calls with the same multiset of calls have the same net effect |
| Stats.ApplyOrderIndependent | caches/status.go:17-27 | the final counters depend only on the multiset of addEntry/subEntry calls, not on their order |
| Stats.Status.constructor | caches/status.go:9-15 | NewStatus: Count, KeySize and ValueSize are all 0 |
| Stats.Status.AddEntry | caches/status.go:17-21 | Count grows by 1, KeySize by len(key), ValueSize by len(value), and nothing else changes |
| Stats.Status.SubEntry | caches/status.go:23-27 | Count shrinks by 1, KeySize by len(key), ValueSize by len(value), and nothing else changes |
| Stats.Status.EntrySize | caches/status.go:29-31 | entrySize() is KeySize + ValueSize and reads the status without changing it |
| Values.NeverDieAlwaysAlive | caches/value.go:27-29 | an entry whose ttl is NeverDie (0) is alive at every time |
| Values.FreshValueAlive | caches/value.go:19-29 | a freshly created entry is alive at its creation time exactly when its ttl is not negative: NeverDie and positive ttls live, a negative ttl is dead on arrival |
| Values.SlidingExpiry | caches/value.go:27-34 | after visit(t) the entry is alive at t' exactly when ttl == 0 or t' - t < ttl |
| Values.NegativeTtlDead | caches/value.go:27-29 | an entry with a negative ttl is dead at every time from its stamp on |
| Values.ReadsWithinTtlKeepAlive | caches/value.go:27-34 | reads less than ttl apart keep a positive-ttl entry alive forever, with its data, stamped with the last read |
| Values.IdleGapExpires | caches/value.go:27-34 | a read ttl or more seconds after the previous touch finds a positive-ttl entry dead, however many reads came before |
| CacheOptions.DefaultCapacity | caches/options.go:26-37 | the default options are usable and give each segment 4*1024*2014/1024 = 8056 bytes |
| CacheOptions.CapacityIsShare | caches/segment.go:73-75 | without overflow, a segment's budget is the global budget divided by SegmentSize, rounded toward zero |
| Segments.TallyEmpty | caches/segment.go:15-22 | an empty map tallies to the zero status that newSegment starts with |
| Segments.TallyCount | caches/segment.go:67-71 | the Count of a map's tally is the number of its entries |
| Segments.TallyRemove | caches/segment.go:58-65 | a map's tally is any one entry added on top of the tally of the others, so deleting it subtracts exactly its sizes |
| Segments.TallyStore | caches/segment.go:53-54 | storing an entry at a key replaces that key's share of the tally by the new entry's |
| Segments.TallySameData | caches/segment.go:37 | replacing an entry by one with the same data, as visit does, leaves the tally unchanged |
| Segments.TallyReplace | caches/segment.go:43-54 | subtracting the old entry and then adding the new one, as set does, yields the tally of the updated map |
| Segments.SweepStart | caches/segment.go:77-91 | before the gc loop nothing has been removed and every entry is still to be visited |
| Segments.SweepKeep | caches/segment.go:77-91 | visiting a live entry keeps it and keeps the sweep invariant |
| Segments.SweepDrop | caches/segment.go:77-91 | visiting a dead entry drops it, keeps the sweep invariant and counts one more removal |
| Segments.SweepDone | caches/segment.go:77-91 | a loop that stops at MaxGcCount removals, or runs out of entries, has removed only dead entries, at most max(MaxGcCount,1) of them, and left no dead one unless it hit the bound |
| Segments.Segment.constructor | caches/segment.go:15-22 | newSegment: an empty map, zero counters, and the status equal to the tally |
| Segments.Segment.Get | caches/segment.go:24-38 | a missing key is (nil,false) with no change; a dead entry is deleted with its sizes and is (nil,false); a live entry returns its data, its ctime becomes now, and the counters are kept |
| Segments.Segment.Set | caches/segment.go:40-56 | succeeds exactly when the size without the key's old entry, plus the new key and value, fits MaxEntrySize*1024*2014/SegmentSize; on success stores newValue at the key and leaves every other key alone; on failure returns the entry-size error with map and counters unchanged; the counters stay equal to the tally |
| Segments.Segment.Delete | caches/segment.go:58-65 | a present key is removed and its sizes subtracted; an absent key changes nothing |
| Segments.Segment.Status | caches/segment.go:67-71 | status() returns a copy of the counters, which equal the map's tally, with Count the number of entries, and changes nothing |
| Segments.Segment.Gc | caches/segment.go:77-91 | gc removes only dead entries, at most max(MaxGcCount,1) of them, keeps every other entry as it was, and leaves none dead unless it stopped at the bound |
| Caches.HashFold | caches/caches.go:55-60 | the accumulator 31*h + b over the key's bytes stays an int64 |
| Caches.Hash | caches/caches.go:55-62 | index(key) is an int64 |
| Caches.Index | caches/caches.go:55-62 | the source's loop over the bytes computes the folded hash xor'd with itself arithmetically shifted right by 16, in wrapping int64 |
| Caches.SegmentIndex | caches/caches.go:64-66 | index(key) & (segmentSize-1) is a valid position in the segment slice |
| Caches.SingleSegment | caches/caches.go:64-66 | with one segment every key goes to segment 0 |
| Caches.ShortKeys | caches/caches.go:55-62 | the empty key hashes to 0 and a one-byte key to that byte |
| Caches.NewSegments | caches/caches.go:47-53 | newSegments returns SegmentSize fresh, distinct, empty segments with zero counters and the given options |
| Caches.Cache.constructor | caches/caches.go:27-37 | NewCacheWith with no dump file: SegmentSize segments, each with an empty map and zero status, and the cache invariant holds |
| Caches.Cache.KeptValid | caches/caches.go:64-85 | an operation that changes only one slot, leaving it valid, keeps the cache valid and every key routed elsewhere unchanged |
| Caches.Cache.KeyOnlyChanged | caches/caches.go:68-85 | an operation whose segment differs only at its key keeps the cache valid and every other key's entry unchanged |
| Caches.Cache.Get | caches/caches.go:68-71 | the segment's get on segmentOf(key): a miss or a dead entry is (nil,false) and leaves no entry, a live entry returns its data and is refreshed; no other segment or key changes |
| Caches.Cache.Set | caches/caches.go:73-75 | Set is SetWithTTL with NeverDie: it succeeds exactly when segmentOf(key) admits the entry; on success the key holds newValue(value, 0, now); on failure the entry-size error with the key unchanged; no other key changes |
| Caches.Cache.SetWithTtl | caches/caches.go:76-79 | succeeds exactly when segmentOf(key) admits the entry; on success the key holds newValue(value, ttl, now); on failure the entry-size error with the key unchanged; no other key changes |
| Caches.Cache.Delete | caches/caches.go:81-85 | the key has no entry afterwards, the error is always nil, and no other key changes |
| Caches.Cache.TotalCountsEntries | caches/caches.go:87-96 | in a valid cache the summed Count is the number of entries stored across all segments |
| Caches.Cache.Status | caches/caches.go:87-96 | the field-wise sum of every segment's status, in slice order |
| Caches.Cache.SweepSlot | caches/caches.go:110-113 | one goroutine's segment.gc: that segment is swept, the others unchanged, and the cache stays valid |
| Caches.Cache.Gc | caches/caches.go:104-116 | every segment receives exactly one gc sweep, and the cache stays valid |
| VexRequest.EncodeArgsLength | vex/request.go:55-63 | the arguments take sum(4 + len(arg)) bytes |
| VexRequest.EncodeRequestLength | vex/request.go:49-65 | a request takes 6 + sum(4 + len(arg)) bytes; with no arguments it is exactly [1, command, 0, 0, 0, 0] |
| VexRequest.EncodeArgsAppend | vex/request.go:58-62 | appending one more argument appends its length and bytes to the encoding |
| VexRequest.WriteRequestTo | vex/request.go:49-65 | the appending loop builds exactly the header then each argument's length and bytes in order, sent with one Write |
| VexRequest.ReadArg | vex/request.go:34-43 | one argument read is at most 2^32-1 bytes and consumes 4 + its length; a failure is io.EOF or io.ErrUnexpectedEOF and consumes the rest |
| VexRequest.ReadArgFrame | vex/request.go:34-43 | an argument read successfully is framed exactly as the writer frames it |
| VexRequest.ArgFrame | vex/request.go:38 | the bytes after a 4-byte length, that many of them, are encoded by that same length prefix |
| VexRequest.EncodedArgAt | vex/request.go:34-43 | an argument written at a position reads back as the same bytes and stops right after them |
| VexRequest.DecodeArgs | vex/request.go:28-45 | reading count arguments yields exactly count of them, or a read error that consumes the rest |
| VexRequest.DecodeArgsHead | vex/request.go:33-44 | a successful read of several arguments is a read of the first followed by a read of the rest |
| VexRequest.DecodeArgsBounded | vex/request.go:38 | every argument read has a length that fits its 32-bit field |
| VexRequest.DecodeArgsOfEncode | vex/request.go:28-45 | written arguments read back exactly and consume exactly their encoding, whatever follows |
| VexRequest.EncodeOfDecodeArgs | vex/request.go:28-45 | whatever arguments read successfully are exactly the encoding of what was read |
| VexRequest.ReadRequest | vex/request.go:8-47 | a request read consumes at least its header; a version mismatch consumes exactly the 6 header bytes; any other error consumes the rest |
| VexRequest.ReadRequestFrom | vex/request.go:8-47 | the step-by-step reader returns the request readRequestFrom defines, and on error command 0, no arguments and that error |
| VexRequest.EncodedHeaderAt | vex/request.go:10-28 | a written header reads as version 1, the command, and the argument count |
| VexRequest.RequestRoundTrip | vex/request.go:8-65 | readRequestFrom(writeRequestTo(c, args)) gives back (c, args, nil) and consumes the encoding exactly, whatever surrounds it |
| VexRequest.RequestAt | vex/request.go:8-65 | a request frame written anywhere in the input reads back as that request and ends right after the frame |
| VexRequest.EncodeOfReadRequest | vex/request.go:8-47 | a request that reads successfully is exactly writeRequestTo's encoding of the command and arguments read, and its counts fit their fields |
| VexRequest.VersionMismatchSkipsHeader | vex/request.go:10-20 | a first byte other than 1 gives ProtocolVersionMismatchErr after consuming exactly the 6 header bytes |
| VexRequest.DecodeArgsTruncated | vex/request.go:34-42 | arguments cut short anywhere fail to read |
| VexRequest.RequestTruncated | vex/request.go:12-42 | a request cut short anywhere, in the header, a length or an argument's bytes, is an error and not a request |
| VexResponse.EncodeResponseLength | vex/response.go:41-51 | a response is [1, reply] + BE32(len(body)) + body, 6 + len(body) bytes |
| VexResponse.WriteResponseTo | vex/response.go:41-51 | writeResponseTo sends exactly that frame with one Write |
| VexResponse.WriteErrorResponseTo | vex/response.go:54-56 | writeErrorResponseTo(msg) sends the frame of ErrorReply (1) with msg as body |
| VexResponse.ReadResponse | vex/response.go:14-38 | a response read consumes its header and exactly its body |
| VexResponse.ReadResponseFrom | vex/response.go:14-38 | the step-by-step reader returns the response readResponseFrom defines, and on error ErrorReply, a nil body and that error |
| VexResponse.ResponseRoundTrip | vex/response.go:14-51 | readResponseFrom(writeResponseTo(r, b)) gives back (r, b, nil) for every reply byte, unvalidated, and consumes the frame exactly |
| VexResponse.EncodeOfReadResponse | vex/response.go:14-38 | a response that reads successfully is exactly writeResponseTo's encoding of the reply and body read |
| VexResponse.ResponseVersionMismatch | vex/response.go:22-25 | a version byte other than 1 gives the error "response " + the mismatch message, after the 6 header bytes |
| VexResponse.ResponseTruncated | vex/response.go:17-35 | a response cut short anywhere, in the header or the body, is an error |
| VexServer.Server.constructor | vex/server.go:23-27 | NewServer has no handler registered |
| VexServer.Server.RegisterHandler | vex/server.go:29-31 | the command maps to the new handler, overwriting any earlier one; other commands are unchanged |
| VexServer.DispatchAfterRegister | vex/server.go:88-101 | once a handler is registered for a command, handleRequest runs it for that command, answering ErrorReply exactly when it fails and SuccessReply otherwise, and dispatches every other command as before |
| VexServer.Server.HandleConn | vex/server.go:59-86 | the read-dispatch-answer loop ends in the state and output the connection semantics Serve defines |
| VexServer.ServeStep | vex/server.go:64-85 | a request read successfully is handled and answered, and serving goes on right after it |
| VexServer.ServeAtEnd | vex/server.go:65-70 | a connection the client has closed ends the loop with nothing sent |
| VexServer.EncodedReadsAs | vex/server.go:64-71 | back-to-back request frames are read one by one, each exactly, until the end of the input |
| VexServer.ServeReads | vex/server.go:64-85 | when the input reads as a series of requests, serving it handles them in order, one answer each |
| VexServer.ServeRequests | vex/server.go:64-85 | a connection carrying well-formed requests gets exactly one answer per request, in request order, and the handlers see them in that order |
| VexServer.RepliesSent | vex/server.go:74-81 | with a working connection the bytes sent are the answers in order; a handler error is answered with writeErrorResponseTo(err.Error()) and its body is discarded |
| VexServer.SkipMismatchedFrame | vex/server.go:66-69 | a frame with the wrong version gets no answer and no state change, and reading resumes right after its header, not after its arguments |
| VexServer.TruncatedRequestEnds | vex/server.go:65-70 | a connection ending partway through a frame, inside its 6-byte header or after it, ends the loop there; the partial request is neither handled nor answered |
| VexClient.Exchange | vex/client.go:27-44 | Do never moves the reader backwards nor past the end of the input |
| VexClient.Client.constructor | vex/client.go:16-24 | a client over a connection starts with its reader at the beginning |
| VexClient.Client.Do | vex/client.go:27-44 | Do writes the request, then reads one response; the body and error are those Exchange defines |
| VexClient.ExchangeWithResponse | vex/client.go:29-43 | with a working connection the request sent is exactly writeRequestTo's frame; the body is the response's; the error is the body as text exactly when the reply is ErrorReply; the reader ends after the frame |
| VexClient.ExchangeOnBrokenWriter | vex/client.go:29-32 | a write error returns (nil, err) at once, with nothing read |
| VexClient.ExchangeWithServer | vex/client.go:35-43 | a handler's error reaches the client as an error with the same text; a success reaches it as the handler's body and no error |
| TcpHandlers.Admission | services/tcp.go:58-72 | a handler proceeds exactly when there are enough arguments and the ring names this node; too few arguments give "command needs more arguments"; another owner gives "redirect to node " + owner |
| TcpHandlers.DecodeTtl | services/tcp.go:97 | int64(binary.BigEndian.Uint64(b)) of the first 8 bytes is an int64 |
| TcpHandlers.TcpServer.constructor | services/tcp.go:34-45 | a server over a cache, with its own address and the ring |
| TcpHandlers.TcpServer.GetHandler | services/tcp.go:56-78 | a refused key leaves the cache untouched and returns the refusal; an owned live key returns its data and refreshes it; an owned missing or dead key gives "not found" and no entry remains; other keys are unchanged |
| TcpHandlers.TcpServer.SetHandler | services/tcp.go:80-103 | a refused key leaves the cache untouched, checked before the ttl is decoded; an owned key is stored with value args[2] and the ttl decoded from args[0], or gets the cache's capacity error; the body is always nil |
| TcpHandlers.TcpServer.DeleteHandler | services/tcp.go:105-127 | a refused key leaves the cache untouched; an owned key's entry is removed and (nil, nil) returned; other keys are unchanged |
| TcpClient.RedirectTarget | services/tcp_client.go:163-164 | the target is the error text after "redirect to node", as it is |
| TcpClient.RedirectOfServer | services/tcp_client.go:163-164 | a server's redirect is recognised, and the target the client takes from it is the owner's address with a leading space |
| TcpClient.TtlBytes | services/tcp_client.go:197-198 | the ttl is sent as exactly 8 bytes |
| TcpClient.SetArgsRoundTrip | services/tcp_client.go:197-199 | Set sends [ttl, key, value], from which setHandler reads back the key, the value and every int64 ttl; Get and Delete send [key] |
| TcpClient.Cluster.constructor | services/tcp_client.go:37-43 | a cluster client over the given ring, pool and remote calls |
| TcpClient.Cluster.Next | services/tcp_client.go:163-170 | after a redirect for which a client can be had, the next attempt goes to the redirect target; otherwise it stays on the same client |
| TcpClient.Cluster.DoCommand | services/tcp_client.go:156-182 | exactly 5 attempts, with no early exit on success, each on the client the earlier redirects led to; the result is the last attempt's body and error |
| TcpClient.Cluster.NoRedirectStays | services/tcp_client.go:159-171 | when no attempt is redirected, every attempt goes to the starting node |
| TcpClient.Cluster.RedirectsExhausted | services/tcp_client.go:159-181 | when every attempt is redirected, the result is the last redirect error and not an error of doCommand's own |
| TcpClient.Cluster.FollowsServerRedirect | services/tcp_client.go:163-170 | a server's redirect to a node moves the next attempt to " " + node when a client can be had for it, and keeps the current client otherwise |
| TcpClient.Cluster.Command | services/tcp_client.go:145-154 | a ring error or a connection error is returned with no body; otherwise the result is doCommand from the key's owner |
| TcpClient.Cluster.Get | services/tcp_client.go:184-190 | Get sends command 1 with [key] to the key's owner through doCommand |
| TcpClient.Cluster.Set | services/tcp_client.go:192-201 | Set sends command 2 with [ttl bytes, key, value] and returns only the error |
| TcpClient.Cluster.Delete | services/tcp_client.go:203-210 | Delete sends command 3 with [key] and returns only the error |
| TcpClient.Cluster.Status | services/tcp_client.go:212-236 | the result is the members' counters summed over those a client can be had for; the first failed Do or decode aborts with its error |
| TcpClient.Cluster.SummedStaysFailed | services/tcp_client.go:222-230 | once one member's status fails, the whole result is that error, whatever the later members answer |
| TcpClient.Cluster.SummedAllReachable | services/tcp_client.go:215-235 | when every member answers, the result is the field-wise sum of their statuses |
| NetHelpers.Digits | helpers/net.go:6 | the decimal digits of a non-negative number: at least one, all digits, no leading zero |
| NetHelpers.PortText | helpers/net.go:6 | the port text holds no ':'; it is all digits for p >= 0, and a '-' followed by digits otherwise |
| NetHelpers.ParseDigitsOfDigits | helpers/net.go:6 | reading back the digits of n gives n |
| NetHelpers.ParseIntOfItoa | helpers/net.go:6 | reading back Itoa(p) gives p, negative ports included |
| NetHelpers.SplitAddressAndPort | helpers/net.go:6 | splitting fails exactly when the string holds no ':' |
| NetHelpers.SplitOfJoin | helpers/net.go:5-7 | splitting the joined string at its last ':' gives back the address and the port, even when the address holds colons |

## Left out

- Locking is not modelled: the segments' RWMutex, the `dumping` flag and `waitForDumping`'s spin-wait. Every operation runs alone.
- The background timers are not modelled: `AutoGc`, `AutoDump`, and the ring refresh of the cluster client.
- Snapshots are not modelled: `dump`, `recoverFromDumpFile` and `caches/dump.go` do file I/O and gob encoding. The constructor is the path of `NewCacheWith` where no dump file can be read.
- Caches.Cache.Gc: the source runs one goroutine per segment. In Go before 1.22 the closure captures the loop variable `segment`, so some segments may be swept twice and others never. The model sweeps every segment exactly once, as the code evidently intends.
- Caches.Cache.Status: the source accumulates into a fresh `*Status` that nothing else sees. The model accumulates into a status value.
- Stats.Status.AddEntry: the counters are unbounded integers, so int64 overflow of Count, KeySize and ValueSize is not modelled. The same holds for the size sum in `checkEntrySize`.
- The source allocates the map capacity hint (`MapSizeOfSegment`) and copies the value (`helpers.Copy`). Both are implicit here, because maps and sequences are values.
- `segment.go` calls `newStatus()`, but `status.go` defines `NewStatus`. The model uses `NewStatus`, the evident intent.
- `ListenAndServer`, `Close`, `NewClient`, `NewTcpServer`, `newNode` and `NewTCPClient` are left out: they listen, accept and dial sockets. The server loop and `Do` are modelled over the bytes of one connection.
- Go's buffered reader and partial writes are not modelled. A write sends everything or nothing.
- VexRequest.ReadRequestFrom: the source allocates the argument slice (vex/request.go:29) and each argument's buffer (vex/request.go:38) from 32-bit counts the peer sends, before any of that data arrives. A corrupt or hostile header can therefore exhaust the Go process's memory. The model has no allocation: it reads until the input ends and reports io.ErrUnexpectedEOF.
- VexResponse.ReadResponseFrom: the same holds for the body buffer sized from the response header (vex/response.go:31). Running out of memory is not modelled.
- nil and empty slices are the same empty sequence in the model.
- VexServer.Server.HandleConn: handlers are pure functions of a state they close over. The model does not link the table to the TcpServer methods. Those methods are modelled on the cache itself.
- `statusHandler` and `nodesHandler` are left out, because they only marshal JSON. In the cluster client, a node's decoded status is the parameter `fetchStatus`.
- The consistent-hash ring, `selectNode`, `isCurrentNode`, `circle.Get`, `circle.Members`, `getOrCreateClient` and the `cachego` client pool are parameters. They wrap invisible libraries. `isCurrentNode` is equality of addresses.
- doCommand has a branch on errors ending in "closed by the remote host.". It calls `nodes()` and, inverted, updates the ring only when that call fails. This changes neither body nor error, and the ring is a parameter, so it is not modelled.
- `reachedMaxRetriedTimesErr` is declared but never returned by the source, so the model has no such error.
- TcpHandlers.TcpServer.SetHandler: `binary.BigEndian.Uint64` panics when the ttl argument is shorter than 8 bytes. The model requires 8 bytes for an admitted key instead of modelling the panic.
- The HTTP front end, the async client, the demos, `main.go` and the services' options are not part of this model.
- CacheOptions: only MaxEntrySize, MaxGcCount and SegmentSize are modelled. The timer periods, the dump file, the map size hint and the spin-wait sleep are left out.
- Go's map iteration order in `segment.gc` is unspecified. The model allows any order.
