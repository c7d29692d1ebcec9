/** services/tcp_client.go: the cluster client. It picks a node for a key
    from its own copy of the ring, sends the command there, and follows the
    "redirect to node" errors the servers answer with. The ring, the pool of
    connections and the servers themselves are parameters of the model:

    - `owner(key)` is circle.Get(key);
    - `connect(node)` is the error getOrCreateClient(node) returns, None when
      it yields a client (a client is known by its node's address);
    - `exchange(i, node, command, args)` is what Do(command, args) returns on
      the client for `node` at the i-th attempt of a doCommand call, so that
      repeated attempts may be answered differently;
    - `members` is circle.Members() and `fetchStatus(node)` the status that
      Do(statusCommand) and json.Unmarshal yield for a node. */
module TcpClient {
  import opened Primitives
  import opened Stats
  import TcpHandlers

  /** maxRedirectTime and redirectPrefix (with no trailing space). */
  const MAX_REDIRECT_TIME: nat := 5
  const REDIRECT_PREFIX: Bytes := Str("redirect to node")

  /** What Do returns: a body and an error. */
  datatype Reply = Reply(body: Bytes, err: Option<Error>)

  /** An error counts as a redirect when its text starts with the prefix. */
  predicate IsRedirect(err: Option<Error>)
  {
    err.Some? && HasPrefix(Message(err.value), REDIRECT_PREFIX)
  }

  /** The node a redirect names: the text after the prefix, as it is. */
  function RedirectTarget(err: Option<Error>): (node: Bytes)
    requires IsRedirect(err)
    ensures REDIRECT_PREFIX + node == Message(err.value)
  {
    TrimPrefix(Message(err.value), REDIRECT_PREFIX)
  }

  /** A server's redirect, read by the cluster client: it is recognised, and
      the target it yields is the owner's address with the space that
      separates it from the prefix still in front of it. */
  lemma RedirectOfServer(node: Bytes)
    ensures IsRedirect(Some(Custom(TcpHandlers.RedirectMessage(node))))
    ensures RedirectTarget(Some(Custom(TcpHandlers.RedirectMessage(node)))) == Str(" ") + node
  {
    StrAppend("redirect to node", " ");
    var m := TcpHandlers.RedirectMessage(node);
    assert m == REDIRECT_PREFIX + (Str(" ") + node);
    assert m[..|REDIRECT_PREFIX|] == REDIRECT_PREFIX;
  }

  /** 8 bytes of big-endian uint64(ttl), as Set sends the ttl. */
  function TtlBytes(ttl: int): (b: Bytes)
    ensures |b| == 8
  {
    PutBE(Uint64Of(ttl), 8)
  }

  /** The argument lists Get, Set and Delete send. */
  function GetArgs(key: Bytes): seq<Bytes> { [key] }
  function DeleteArgs(key: Bytes): seq<Bytes> { [key] }
  function SetArgs(key: Bytes, value: Bytes, ttl: int): seq<Bytes> { [TtlBytes(ttl), key, value] }

  /** What a server's setHandler reads from the arguments Set sends: the key
      at 1, the value at 2, and the ttl, which survives the trip for every
      int64; getHandler and deleteHandler find the key at 0. */
  lemma SetArgsRoundTrip(key: Bytes, value: Bytes, ttl: int)
    requires IsInt64(ttl)
    ensures var args := SetArgs(key, value, ttl);
      |args| == 3 && args[1] == key && args[2] == value &&
      |args[0]| >= 8 && TcpHandlers.DecodeTtl(args[0]) == ttl
    ensures |GetArgs(key)| == 1 && GetArgs(key)[0] == key
    ensures |DeleteArgs(key)| == 1 && DeleteArgs(key)[0] == key
  {
    Pow256Values();
    var b := TtlBytes(ttl);
    assert b[..8] == b;
    BEOfPutBE(Uint64Of(ttl), 8);
    Int64OfUint64Of(ttl);
  }

  class Cluster {
    const owner: Bytes -> Result<Bytes>
    const connect: Bytes -> Option<Error>
    const exchange: (nat, Bytes, byte, seq<Bytes>) -> Reply
    const members: seq<Bytes>
    const fetchStatus: Bytes -> Result<StatusValue>

    constructor (owner: Bytes -> Result<Bytes>, connect: Bytes -> Option<Error>,
                 exchange: (nat, Bytes, byte, seq<Bytes>) -> Reply,
                 members: seq<Bytes>, fetchStatus: Bytes -> Result<StatusValue>)
      ensures this.owner == owner && this.connect == connect && this.exchange == exchange
      ensures this.members == members && this.fetchStatus == fetchStatus
    {
      this.owner := owner;
      this.connect := connect;
      this.exchange := exchange;
      this.members := members;
      this.fetchStatus := fetchStatus;
    }

    /** The client after an attempt answered with `reply`: the redirect
        target's when the reply is a redirect and a client for the target
        can be had, the same one otherwise. */
    function Next(client: Bytes, reply: Reply): (next: Bytes)
      reads this
      ensures next == client || (IsRedirect(reply.err) && next == RedirectTarget(reply.err) && connect(next).None?)
      ensures IsRedirect(reply.err) && connect(RedirectTarget(reply.err)).None? ==> next == RedirectTarget(reply.err)
    {
      if IsRedirect(reply.err) && connect(RedirectTarget(reply.err)).None? then RedirectTarget(reply.err)
      else client
    }

    /** The client doCommand uses for attempt `i`, starting from `start`. */
    function ClientAt(start: Bytes, command: byte, args: seq<Bytes>, i: nat): Bytes
      reads this
    {
      if i == 0 then start
      else
        var c := ClientAt(start, command, args, i - 1);
        Next(c, exchange(i - 1, c, command, args))
    }

    /** What doCommand returns: the reply to the last of its attempts. */
    function Run(start: Bytes, command: byte, args: seq<Bytes>): Reply
      reads this
    {
      var last := MAX_REDIRECT_TIME - 1;
      exchange(last, ClientAt(start, command, args, last), command, args)
    }

    /** doCommand(client, command, args): exactly MAX_REDIRECT_TIME attempts,
        with no early exit when one succeeds, each on the client the previous
        ones led to; the result is the last attempt's reply. The errors that
        getOrCreateClient and nodes() report inside the loop are local to it
        and never reach the result. */
    method DoCommand(client: Bytes, command: byte, args: seq<Bytes>) returns (body: Bytes, err: Option<Error>)
      ensures Reply(body, err) == Run(client, command, args)
    {
      var current := client;
      body, err := [], None;
      var i := 0;
      while i < MAX_REDIRECT_TIME
        invariant 0 <= i <= MAX_REDIRECT_TIME
        invariant current == ClientAt(client, command, args, i)
        invariant i > 0 ==> Reply(body, err) == exchange(i - 1, ClientAt(client, command, args, i - 1), command, args)
      {
        var reply := exchange(i, current, command, args);
        body, err := reply.body, reply.err;
        if IsRedirect(err) {
          var node := RedirectTarget(err);
          var connErr := connect(node);
          if connErr.None? {
            current := node;
          }
        }
        i := i + 1;
      }
    }

    /** A node that never redirects keeps every attempt: all of them go to
        the node doCommand started with. */
    lemma {:induction false} NoRedirectStays(start: Bytes, command: byte, args: seq<Bytes>, i: nat)
      requires forall j :: 0 <= j < i ==> !IsRedirect(exchange(j, start, command, args).err)
      ensures ClientAt(start, command, args, i) == start
    {
      if i > 0 {
        NoRedirectStays(start, command, args, i - 1);
      }
    }

    /** When every attempt is redirected, doCommand gives up with the last
        redirect error, not with an error of its own. */
    lemma RedirectsExhausted(start: Bytes, command: byte, args: seq<Bytes>)
      requires forall j :: 0 <= j < MAX_REDIRECT_TIME ==>
        IsRedirect(exchange(j, ClientAt(start, command, args, j), command, args).err)
      ensures IsRedirect(Run(start, command, args).err)
    {
      assert IsRedirect(exchange(MAX_REDIRECT_TIME - 1, ClientAt(start, command, args, MAX_REDIRECT_TIME - 1), command, args).err);
    }

    /** A server's redirect to `node` moves the next attempt to the address
        " " + node when a client can be had for it, and otherwise leaves it
        where it was. */
    lemma FollowsServerRedirect(start: Bytes, command: byte, args: seq<Bytes>, i: nat, node: Bytes)
      requires exchange(i, ClientAt(start, command, args, i), command, args).err == Some(Custom(TcpHandlers.RedirectMessage(node)))
      ensures ClientAt(start, command, args, i + 1) ==
        if connect(Str(" ") + node).None? then Str(" ") + node else ClientAt(start, command, args, i)
    {
      RedirectOfServer(node);
    }

    /** clientOf(key) then doCommand: the ring's error or the connection's
        error when there is one, and otherwise the run from the key's owner. */
    function Command(key: Bytes, command: byte, args: seq<Bytes>): (r: Reply)
      reads this
      ensures owner(key).Err? ==> r == Reply([], Some(owner(key).error))
      ensures owner(key).Ok? && connect(owner(key).value).Some? ==> r == Reply([], connect(owner(key).value))
      ensures owner(key).Ok? && connect(owner(key).value).None? ==> r == Run(owner(key).value, command, args)
    {
      match owner(key)
      case Err(e) => Reply([], Some(e))
      case Ok(node) => if connect(node).Some? then Reply([], connect(node)) else Run(node, command, args)
    }

    /** Get(key). */
    method Get(key: Bytes) returns (body: Bytes, err: Option<Error>)
      ensures Reply(body, err) == Command(key, TcpHandlers.GET_COMMAND, GetArgs(key))
    {
      var node := owner(key);
      if node.Err? {
        return [], Some(node.error);
      }
      var connErr := connect(node.value);
      if connErr.Some? {
        return [], connErr;
      }
      body, err := DoCommand(node.value, TcpHandlers.GET_COMMAND, [key]);
    }

    /** Set(key, value, ttl): only the error is returned. */
    method Set(key: Bytes, value: Bytes, ttl: int) returns (err: Option<Error>)
      ensures err == Command(key, TcpHandlers.SET_COMMAND, SetArgs(key, value, ttl)).err
    {
      var node := owner(key);
      if node.Err? {
        return Some(node.error);
      }
      var connErr := connect(node.value);
      if connErr.Some? {
        return connErr;
      }
      var ttlBytes := PutBE(Uint64Of(ttl), 8);
      var body;
      body, err := DoCommand(node.value, TcpHandlers.SET_COMMAND, [ttlBytes, key, value]);
    }

    /** Delete(key): only the error is returned. */
    method Delete(key: Bytes) returns (err: Option<Error>)
      ensures err == Command(key, TcpHandlers.DELETE_COMMAND, DeleteArgs(key)).err
    {
      var node := owner(key);
      if node.Err? {
        return Some(node.error);
      }
      var connErr := connect(node.value);
      if connErr.Some? {
        return connErr;
      }
      var body;
      body, err := DoCommand(node.value, TcpHandlers.DELETE_COMMAND, [key]);
    }

    /** The cluster's counters over members 0 to n-1: members no client can
        be had for are skipped, and the first member whose status cannot be
        fetched makes the whole result that error. */
    function Summed(n: nat): Result<StatusValue>
      requires n <= |members|
      reads this
    {
      if n == 0 then Ok(ZERO)
      else
        match Summed(n - 1)
        case Err(e) => Err(e)
        case Ok(total) =>
          if connect(members[n - 1]).Some? then Ok(total)
          else
            match fetchStatus(members[n - 1])
            case Err(e) => Err(e)
            case Ok(s) => Ok(Plus(total, s))
    }

    /** Status(): the members' counters summed field by field. */
    method Status() returns (r: Result<StatusValue>)
      ensures r == Summed(|members|)
    {
      var total := ZERO;
      var i := 0;
      while i < |members|
        invariant 0 <= i <= |members|
        invariant Summed(i) == Ok(total)
      {
        var connErr := connect(members[i]);
        if connErr.None? {
          var status := fetchStatus(members[i]);
          if status.Err? {
            SummedStaysFailed(i + 1, |members|);
            return Err(status.error);
          }
          total := StatusValue(total.count + status.value.count, total.keySize + status.value.keySize,
                               total.valueSize + status.value.valueSize);
        }
        i := i + 1;
      }
      r := Ok(total);
    }

    /** Once the sum has failed it stays failed with the same error. */
    lemma {:induction false} SummedStaysFailed(i: nat, n: nat)
      requires i <= n <= |members| && Summed(i).Err?
      ensures Summed(n) == Summed(i)
      decreases n - i
    {
      if i < n {
        SummedStaysFailed(i, n - 1);
      }
    }

    /** When every member can be reached and reports its status, the result
        is the field-wise sum of their statuses, in member order. */
    lemma {:induction false} SummedAllReachable(n: nat, statuses: seq<StatusValue>)
      requires n <= |members| && |statuses| == n
      requires forall j :: 0 <= j < n ==> connect(members[j]).None? && fetchStatus(members[j]) == Ok(statuses[j])
      ensures Summed(n) == Ok(Sum(statuses))
    {
      if n > 0 {
        SummedAllReachable(n - 1, statuses[..n - 1]);
      }
    }
  }
}
