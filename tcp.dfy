/** services/tcp.go: the TCP server's command handlers. Every key belongs to
    one node of the cluster, chosen by a consistent-hash ring; a node answers
    only for its own keys and tells the client where to go for the rest. The
    ring is a parameter of the model (`selectNode`), as is the clock
    (`now`). */
module TcpHandlers {
  import opened Primitives
  import opened Values
  import opened Segments
  import opened Caches

  /** The command bytes. */
  const GET_COMMAND: byte := 1
  const SET_COMMAND: byte := 2
  const DELETE_COMMAND: byte := 3
  const STATUS_COMMAND: byte := 4
  const NODES_COMMAND: byte := 5

  /** commandNeedsMoreArgumentsErr and notFoundErr. */
  const NEEDS_MORE_ARGS: Bytes := Str("command needs more arguments")
  const NOT_FOUND: Bytes := Str("not found")

  /** fmt.Errorf("redirect to node %s", node). */
  function RedirectMessage(node: Bytes): Bytes
  {
    Str("redirect to node ") + node
  }

  /** The checks every key handler makes before it touches the cache: enough
      arguments, a ring that can place the key held at `keyAt`, and this node
      as the key's owner. None means the handler goes on, which is exactly
      when the arguments suffice and the ring names this node; when the ring
      names another node, the error names that node. */
  function Admission(selectNode: Bytes -> Result<Bytes>, self: Bytes, args: seq<Bytes>, need: nat, keyAt: nat): (r: Option<Error>)
    requires keyAt < need
    ensures r.None? <==> |args| >= need && selectNode(args[keyAt]) == Ok(self)
    ensures |args| < need ==> r == Some(Custom(NEEDS_MORE_ARGS))
    ensures |args| >= need && selectNode(args[keyAt]).Ok? && selectNode(args[keyAt]).value != self ==>
      r == Some(Custom(RedirectMessage(selectNode(args[keyAt]).value)))
  {
    if |args| < need then Some(Custom(NEEDS_MORE_ARGS))
    else
      match selectNode(args[keyAt])
      case Err(e) => Some(e)
      case Ok(node) => if node != self then Some(Custom(RedirectMessage(node))) else None
  }

  /** int64(binary.BigEndian.Uint64(b)): the first eight bytes as a
      big-endian two's-complement 64-bit integer. */
  function DecodeTtl(b: Bytes): (ttl: int)
    requires |b| >= 8
    ensures IsInt64(ttl)
  {
    Pow256Values();
    Int64Of(BE(b[..8]))
  }

  class TcpServer {
    const cache: Cache
    /** This node's address, as the ring names it. */
    const self: Bytes
    /** The ring's selectNode(key). */
    const selectNode: Bytes -> Result<Bytes>

    constructor (cache: Cache, self: Bytes, selectNode: Bytes -> Result<Bytes>)
      ensures this.cache == cache && this.self == self && this.selectNode == selectNode
    {
      this.cache := cache;
      this.self := self;
      this.selectNode := selectNode;
    }

    /** getHandler(args) at `now`: an admitted key is looked up, which
        refreshes a live entry and drops a dead one; a miss is "not found". */
    method GetHandler(args: seq<Bytes>, now: int) returns (body: Bytes, err: Option<Error>)
      requires cache.Valid()
      modifies cache.Repr
      ensures cache.Valid()
      ensures Admission(selectNode, self, args, 1, 0).Some? ==>
        body == [] && err == Admission(selectNode, self, args, 1, 0) && unchanged(cache.Repr)
      ensures Admission(selectNode, self, args, 1, 0).None? ==>
        var key := args[0];
        var before := old(cache.Lookup(key));
        && (forall k :: k != key ==> cache.Lookup(k) == old(cache.Lookup(k)))
        && (before.Some? && before.value.Alive(now) ==>
              body == before.value.data && err.None? && cache.Lookup(key) == Some(before.value.Visited(now)))
        && (!(before.Some? && before.value.Alive(now)) ==>
              body == [] && err == Some(Custom(NOT_FOUND)) && cache.Lookup(key).None?)
    {
      err := Admission(selectNode, self, args, 1, 0);
      if err.Some? {
        return [], err;
      }
      assert cache.SlotValid(SegmentIndex(args[0], cache.segmentSize));
      var ok;
      body, ok := cache.Get(args[0], now);
      if !ok {
        err := Some(Custom(NOT_FOUND));
      }
    }

    /** setHandler(args) at `now`: args are [ttl, key, value]; for an admitted
        key the ttl is decoded from the first argument and the entry stored,
        or the cache's capacity error is returned. The ttl is decoded only
        after the key is admitted, so a short first argument fails only
        there. */
    method SetHandler(args: seq<Bytes>, now: int) returns (body: Bytes, err: Option<Error>)
      requires cache.Valid()
      requires Admission(selectNode, self, args, 3, 1).None? ==> |args[0]| >= 8
      modifies cache.Repr
      ensures cache.Valid() && body == []
      ensures Admission(selectNode, self, args, 3, 1).Some? ==>
        err == Admission(selectNode, self, args, 3, 1) && unchanged(cache.Repr)
      ensures Admission(selectNode, self, args, 3, 1).None? ==>
        var key := args[1];
        && (forall k :: k != key ==> cache.Lookup(k) == old(cache.Lookup(k)))
        && (err.None? <==> old(cache.SegmentOf(key).Admits(key, args[2])))
        && (err.None? ==> cache.Lookup(key) == Some(NewValue(args[2], DecodeTtl(args[0]), now)))
        && (err.Some? ==> err == Some(Custom(ENTRY_SIZE_EXCEEDED)) && cache.Lookup(key) == old(cache.Lookup(key)))
    {
      body := [];
      err := Admission(selectNode, self, args, 3, 1);
      if err.Some? {
        return;
      }
      var ttl := DecodeTtl(args[0]);
      assert cache.SlotValid(SegmentIndex(args[1], cache.segmentSize));
      err := cache.SetWithTtl(args[1], args[2], ttl, now);
    }

    /** deleteHandler(args): an admitted key's entry is removed. */
    method DeleteHandler(args: seq<Bytes>) returns (body: Bytes, err: Option<Error>)
      requires cache.Valid()
      modifies cache.Repr
      ensures cache.Valid() && body == []
      ensures Admission(selectNode, self, args, 1, 0).Some? ==>
        err == Admission(selectNode, self, args, 1, 0) && unchanged(cache.Repr)
      ensures Admission(selectNode, self, args, 1, 0).None? ==>
        err.None? && cache.Lookup(args[0]).None? &&
        forall k :: k != args[0] ==> cache.Lookup(k) == old(cache.Lookup(k))
    {
      body := [];
      err := Admission(selectNode, self, args, 1, 0);
      if err.Some? {
        return;
      }
      assert cache.SlotValid(SegmentIndex(args[0], cache.segmentSize));
      err := cache.Delete(args[0]);
    }
  }
}
