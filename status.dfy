/** caches/status.go: the three counters a segment keeps about its entries.
    `Status` is the object the segment updates in place by reference;
    `StatusValue` is the struct copied out of it by `segment.status()` and
    summed by `Cache.Status()`. Go's `int` and `int64` counters are unbounded
    integers here. */
module Stats {
  import opened Primitives

  datatype StatusValue = StatusValue(count: int, keySize: int, valueSize: int)

  /** The counters of NewStatus(). */
  const ZERO := StatusValue(0, 0, 0)

  /** The counters after addEntry(key, value). */
  function Added(s: StatusValue, key: Bytes, value: Bytes): StatusValue
  {
    StatusValue(s.count + 1, s.keySize + |key|, s.valueSize + |value|)
  }

  /** The counters after subEntry(key, value). */
  function Subtracted(s: StatusValue, key: Bytes, value: Bytes): StatusValue
  {
    StatusValue(s.count - 1, s.keySize - |key|, s.valueSize - |value|)
  }

  /** entrySize(): the bytes of keys and values together. */
  function Size(s: StatusValue): int
  {
    s.keySize + s.valueSize
  }

  /** Field-wise sum of two status values. */
  function Plus(a: StatusValue, b: StatusValue): StatusValue
  {
    StatusValue(a.count + b.count, a.keySize + b.keySize, a.valueSize + b.valueSize)
  }

  /** Field-wise sum of a sequence of status values, as Cache.Status() and
      the cluster client's Status() accumulate them. */
  function Sum(ss: seq<StatusValue>): StatusValue
  {
    if ss == [] then ZERO else Plus(Sum(ss[..|ss| - 1]), ss[|ss| - 1])
  }

  lemma SubtractedAfterAdded(s: StatusValue, key: Bytes, value: Bytes)
    ensures Subtracted(Added(s, key, value), key, value) == s
    ensures Added(Subtracted(s, key, value), key, value) == s
  {
  }

  lemma AddedGrowsSize(s: StatusValue, key: Bytes, value: Bytes)
    ensures Size(Added(s, key, value)) == Size(s) + |key| + |value|
    ensures Size(Subtracted(s, key, value)) == Size(s) - |key| - |value|
  {
  }

  // ---------------------------------------------------------------------------
  // Order independence of addEntry/subEntry

  /** One call of addEntry or subEntry. */
  datatype Call = AddEntry(key: Bytes, value: Bytes) | SubEntry(key: Bytes, value: Bytes)

  function Step(s: StatusValue, c: Call): StatusValue
  {
    match c
    case AddEntry(k, v) => Added(s, k, v)
    case SubEntry(k, v) => Subtracted(s, k, v)
  }

  /** The status after the calls, in order. */
  function Apply(s: StatusValue, calls: seq<Call>): StatusValue
    decreases |calls|
  {
    if calls == [] then s else Apply(Step(s, calls[0]), calls[1..])
  }

  /** What one call adds to the counters. */
  function Effect(c: Call): StatusValue
  {
    match c
    case AddEntry(k, v) => StatusValue(1, |k|, |v|)
    case SubEntry(k, v) => StatusValue(-1, -|k|, -|v|)
  }

  function Net(calls: seq<Call>): StatusValue
  {
    if calls == [] then ZERO else Plus(Effect(calls[0]), Net(calls[1..]))
  }

  lemma {:induction false} ApplyIsNet(s: StatusValue, calls: seq<Call>)
    ensures Apply(s, calls) == Plus(s, Net(calls))
    decreases |calls|
  {
    if calls != [] {
      ApplyIsNet(Step(s, calls[0]), calls[1..]);
    }
  }

  lemma {:induction false} NetAppend(a: seq<Call>, b: seq<Call>)
    ensures Net(a + b) == Plus(Net(a), Net(b))
    decreases |a|
  {
    if a != [] {
      assert (a + b)[1..] == a[1..] + b;
      NetAppend(a[1..], b);
    } else {
      assert a + b == b;
    }
  }

  /** The counters depend only on the multiset of calls made, not on their
      order. */
  lemma {:induction false} ApplyOrderIndependent(s: StatusValue, calls: seq<Call>, others: seq<Call>)
    requires multiset(calls) == multiset(others)
    ensures Apply(s, calls) == Apply(s, others)
  {
    NetPermutation(calls, others);
    ApplyIsNet(s, calls);
    ApplyIsNet(s, others);
  }

  lemma {:induction false} NetPermutation(calls: seq<Call>, others: seq<Call>)
    requires multiset(calls) == multiset(others)
    ensures Net(calls) == Net(others)
    decreases |calls|
  {
    if calls == [] {
      assert |others| == |multiset(others)| == 0;
    } else {
      var c := calls[0];
      assert c in multiset(others);
      var i :| 0 <= i < |others| && others[i] == c;
      var before, after := others[..i], others[i + 1..];
      RemoveOne(calls, others, i);
      NetPermutation(calls[1..], before + after);
      NetSplit(before, c, after);
      assert others == before + [c] + after;
    }
  }

  lemma RemoveOne(calls: seq<Call>, others: seq<Call>, i: nat)
    requires multiset(calls) == multiset(others)
    requires calls != [] && i < |others| && others[i] == calls[0]
    ensures multiset(calls[1..]) == multiset(others[..i] + others[i + 1..])
  {
    var c := calls[0];
    var rest := others[..i] + others[i + 1..];
    assert calls == [c] + calls[1..];
    assert others == others[..i] + [c] + others[i + 1..];
    var a, b := multiset(calls[1..]), multiset(rest);
    assert multiset{c} + a == multiset{c} + b;
    forall x
      ensures a[x] == b[x]
    {
      assert (multiset{c} + a)[x] == (multiset{c} + b)[x];
    }
  }

  lemma NetSplit(before: seq<Call>, c: Call, after: seq<Call>)
    ensures Net(before + [c] + after) == Plus(Effect(c), Net(before + after))
  {
    var x, y, z := Net(before), Effect(c), Net(after);
    assert Net([c]) == y by {
      assert [c][1..] == [];
    }
    NetAppend(before, [c]);
    assert Net(before + [c]) == Plus(x, y);
    NetAppend(before + [c], after);
    assert Net(before + [c] + after) == Plus(Plus(x, y), z);
    NetAppend(before, after);
    assert Net(before + after) == Plus(x, z);
  }

  // ---------------------------------------------------------------------------
  // The Status object

  class Status {
    var count: int
    var keySize: int
    var valueSize: int

    function View(): StatusValue
      reads this
    {
      StatusValue(count, keySize, valueSize)
    }

    /** NewStatus() */
    constructor ()
      ensures View() == ZERO
    {
      count, keySize, valueSize := 0, 0, 0;
    }

    method AddEntry(key: Bytes, value: Bytes)
      modifies this
      ensures View() == Added(old(View()), key, value)
    {
      count := count + 1;
      keySize := keySize + |key|;
      valueSize := valueSize + |value|;
    }

    method SubEntry(key: Bytes, value: Bytes)
      modifies this
      ensures View() == Subtracted(old(View()), key, value)
    {
      count := count - 1;
      keySize := keySize - |key|;
      valueSize := valueSize - |value|;
    }

    function EntrySize(): (n: int)
      reads this
      ensures n == Size(View())
    {
      keySize + valueSize
    }
  }
}
