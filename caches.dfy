/** caches/caches.go: the cache as a fixed array of segments, each key routed
    to one segment by a hash of its bytes. The dump file, the dumping flag and
    its spin-wait, and the timers are not part of this model; `now` stands
    for the wall clock. */
module Caches {
  import opened Primitives
  import opened Stats
  import opened Values
  import opened CacheOptions
  import opened Segments

  // ---------------------------------------------------------------------------
  // Routing

  /** The hash accumulator after the bytes of `key`: h := 31*h + b in Go's
      wrapping 64-bit int. */
  function HashFold(key: Bytes): (h: int)
    ensures IsInt64(h)
  {
    if |key| == 0 then 0 else Wrap64(31 * HashFold(key[..|key| - 1]) + key[|key| - 1] as int)
  }

  /** index(key): the folded hash mixed with itself shifted right by 16
      (an arithmetic shift, that is floor division by 2^16), as a two's
      complement xor. */
  function Hash(key: Bytes): (h: int)
    ensures IsInt64(h)
  {
    var f := HashFold(key);
    Wrap64(BitXor(Uint64Of(f), Uint64Of(f / 65536)))
  }

  /** The position segmentOf(key) picks: index(key) & (segmentSize-1). The
      mask is non-negative, so the two's complement and of the hash equals the
      and of its unsigned pattern; the result never exceeds the mask, so it
      lies inside the segment slice. */
  function SegmentIndex(key: Bytes, segmentSize: int): (i: int)
    requires 1 <= segmentSize <= MAX_INT64
    ensures 0 <= i < segmentSize
  {
    BitAndAtMost(Uint64Of(Hash(key)), segmentSize - 1);
    BitAnd(Uint64Of(Hash(key)), segmentSize - 1)
  }

  /** index(key), as the source computes it: a loop over the bytes. */
  method Index(key: Bytes) returns (index: int)
    ensures index == Hash(key)
  {
    var h := 0;
    var i := 0;
    while i < |key|
      invariant 0 <= i <= |key|
      invariant h == HashFold(key[..i])
    {
      assert key[..i + 1][..i] == key[..i];
      h := Wrap64(31 * h + key[i] as int);
      i := i + 1;
    }
    assert key[..|key|] == key;
    index := BitXor(Uint64Of(h), Uint64Of(h / 65536));
    index := Wrap64(index);
  }

  /** With a single segment every key goes to segment 0. */
  lemma SingleSegment(key: Bytes)
    ensures SegmentIndex(key, 1) == 0
  {
  }

  /** The hash of the empty key is 0, and of a one-byte key the byte. */
  lemma ShortKeys(b: byte)
    ensures Hash([]) == 0
    ensures Hash([b]) == b as int
  {
    assert [b][..0] == [];
    assert BitXor(0, 0) == 0;
    BitXorZero(b as int);
  }

  lemma {:induction false} BitXorZero(a: nat)
    ensures BitXor(a, 0) == a
    decreases a
  {
    if a != 0 {
      BitXorZero(a / 2);
    }
  }

  // ---------------------------------------------------------------------------
  // The cache

  class Cache {
    const segmentSize: int
    const segments: seq<Segment>
    const options: Options

    /** The objects the cache's state lives in: every segment and its status. */
    ghost const Repr: set<object>

    /** The shape NewCacheWith builds: one segment per slot, no two sharing
        a segment or a status object, all of them in Repr. It depends on
        constants only, so no operation can break it. */
    ghost predicate Shape()
    {
      && Usable(options)
      && segmentSize == options.segmentSize
      && |segments| == segmentSize
      && (forall i :: 0 <= i < |segments| ==> segments[i] in Repr && segments[i].status in Repr)
      && (forall i, j :: 0 <= i < j < |segments| ==>
            segments[i] != segments[j] && segments[i].status != segments[j].status)
    }

    /** Slot `i` holds a segment with the cache's options and exact counters,
        and every key in it routes to slot `i`. */
    ghost predicate SlotValid(i: int)
      requires Shape() && 0 <= i < |segments|
      reads segments[i], segments[i].status
    {
      && segments[i].options == options
      && segments[i].Valid()
      && (forall k :: k in segments[i].data ==> SegmentIndex(k, segmentSize) == i)
    }

    /** The invariant every operation keeps. */
    ghost predicate Valid()
      reads this, Repr
    {
      Shape() && forall i :: 0 <= i < |segments| ==> SlotValid(i)
    }

    /** segmentOf(key) */
    function SegmentOf(key: Bytes): (s: Segment)
      requires 1 <= segmentSize <= MAX_INT64 && |segments| == segmentSize
    {
      segments[SegmentIndex(key, segmentSize)]
    }

    /** The entry the cache holds for `key`, as a map would answer. */
    ghost function Lookup(key: Bytes): Option<Value>
      reads this, Repr
      requires Valid()
    {
      var s := SegmentOf(key);
      if key in s.data then Some(s.data[key]) else None
    }

    /** NewCacheWith(options) when no dump file can be read: SegmentSize fresh
        empty segments sharing the options. */
    constructor (options: Options)
      requires Usable(options)
      ensures Valid() && fresh(Repr)
      ensures this.options == options && segmentSize == options.segmentSize
      ensures |segments| == options.segmentSize
      ensures forall i :: 0 <= i < |segments| ==> segments[i].data == map[] && segments[i].status.View() == ZERO
    {
      var segs := NewSegments(options);
      segmentSize := options.segmentSize;
      segments := segs;
      this.options := options;
      Repr := (set i | 0 <= i < |segs| :: segs[i] as object) + (set i | 0 <= i < |segs| :: segs[i].status as object);
    }

    /** Every slot but `i` is as it was. */
    twostate predicate OnlySlot(i: int)
      requires Shape()
      reads this, Repr
    {
      forall j :: 0 <= j < |segments| && j != i ==>
        unchanged(segments[j]) && unchanged(segments[j].status)
    }

    /** When only slot `i` changed and it is still valid, the cache is valid
        and every key routed elsewhere finds what it found before. */
    twostate lemma KeptValid(i: int)
      requires old(Valid()) && 0 <= i < |segments|
      requires OnlySlot(i) && SlotValid(i)
      ensures Valid()
      ensures forall k :: SegmentIndex(k, segmentSize) != i ==> Lookup(k) == old(Lookup(k))
    {
      forall j | 0 <= j < |segments| && j != i
        ensures SlotValid(j)
      {
        assert old(SlotValid(j));
      }
    }

    /** After an operation on `key` changed only its slot, leaving a valid
        segment whose map differs from the old one at most at `key`: the
        cache is valid and no other key's entry changed. */
    twostate lemma KeyOnlyChanged(key: Bytes)
      requires old(Valid())
      requires OnlySlot(SegmentIndex(key, segmentSize))
      requires SegmentOf(key).Valid()
      requires SegmentOf(key).data - {key} == old(SegmentOf(key).data) - {key}
      ensures Valid()
      ensures forall k :: k != key ==> Lookup(k) == old(Lookup(k))
    {
      var i := SegmentIndex(key, segmentSize);
      assert SlotValid(i) by {
        assert old(SlotValid(i));
        forall k | k in segments[i].data
          ensures SegmentIndex(k, segmentSize) == i
        {
          if k != key {
            assert k in segments[i].data - {key};
          }
        }
      }
      KeptValid(i);
      forall k | k != key && SegmentIndex(k, segmentSize) == i
        ensures Lookup(k) == old(Lookup(k))
      {
        assert k in segments[i].data <==> k in segments[i].data - {key};
        assert k in old(segments[i].data) <==> k in old(segments[i].data) - {key};
        if k in segments[i].data {
          assert segments[i].data[k] == (segments[i].data - {key})[k];
          assert old(segments[i].data)[k] == (old(segments[i].data) - {key})[k];
        }
      }
    }

    /** Get(key) at `now`: the segment's get. A dead entry is removed; a live
        one is visited; no other key's entry changes. */
    method Get(key: Bytes, now: int) returns (value: Bytes, ok: bool)
      requires Valid()
      modifies SegmentOf(key), SegmentOf(key).status
      ensures Valid() && OnlySlot(SegmentIndex(key, segmentSize))
      ensures old(Lookup(key)).None? ==> !ok && value == [] && Lookup(key).None?
      ensures old(Lookup(key)).Some? && !old(Lookup(key)).value.Alive(now) ==>
        !ok && value == [] && Lookup(key).None?
      ensures old(Lookup(key)).Some? && old(Lookup(key)).value.Alive(now) ==>
        ok && value == old(Lookup(key)).value.data && Lookup(key) == Some(old(Lookup(key)).value.Visited(now))
      ensures forall k :: k != key ==> Lookup(k) == old(Lookup(k))
    {
      var i := SegmentIndex(key, segmentSize);
      assert segments[i].Valid() by {
        assert SlotValid(i);
      }
      ghost var before := segments[i].data;
      value, ok := segments[i].Get(key, now);
      RemoveExcept(before, key);
      if key in before {
        UpdateExcept(before, key, before[key].Visited(now));
      }
      KeyOnlyChanged(key);
    }

    /** Set(key, value) is SetWithTTL(key, value, NeverDie). */
    method Set(key: Bytes, value: Bytes, now: int) returns (err: Option<Error>)
      requires Valid()
      modifies SegmentOf(key), SegmentOf(key).status
      ensures Valid() && OnlySlot(SegmentIndex(key, segmentSize))
      ensures err.None? <==> old(SegmentOf(key).Admits(key, value))
      ensures err.None? ==> Lookup(key) == Some(NewValue(value, NEVER_DIE, now))
      ensures err.Some? ==> err == Some(Custom(ENTRY_SIZE_EXCEEDED)) && Lookup(key) == old(Lookup(key))
      ensures forall k :: k != key ==> Lookup(k) == old(Lookup(k))
    {
      err := SetWithTtl(key, value, NEVER_DIE, now);
    }

    /** SetWithTTL(key, value, ttl): the segment's set, which succeeds exactly
        when the segment's budget, counted without the key's current entry,
        allows it. */
    method SetWithTtl(key: Bytes, value: Bytes, ttl: int, now: int) returns (err: Option<Error>)
      requires Valid()
      modifies SegmentOf(key), SegmentOf(key).status
      ensures Valid() && OnlySlot(SegmentIndex(key, segmentSize))
      ensures err.None? <==> old(SegmentOf(key).Admits(key, value))
      ensures err.None? ==> Lookup(key) == Some(NewValue(value, ttl, now))
      ensures err.Some? ==> err == Some(Custom(ENTRY_SIZE_EXCEEDED)) && Lookup(key) == old(Lookup(key))
      ensures forall k :: k != key ==> Lookup(k) == old(Lookup(k))
    {
      var i := SegmentIndex(key, segmentSize);
      assert segments[i].Valid() by {
        assert SlotValid(i);
      }
      ghost var before := segments[i].data;
      err := segments[i].Set(key, value, ttl, now);
      UpdateExcept(before, key, NewValue(value, ttl, now));
      KeyOnlyChanged(key);
    }

    /** Delete(key): the segment's delete; the error is always nil. */
    method Delete(key: Bytes) returns (err: Option<Error>)
      requires Valid()
      modifies SegmentOf(key), SegmentOf(key).status
      ensures Valid() && OnlySlot(SegmentIndex(key, segmentSize))
      ensures err.None?
      ensures Lookup(key).None?
      ensures forall k :: k != key ==> Lookup(k) == old(Lookup(k))
    {
      var i := SegmentIndex(key, segmentSize);
      assert segments[i].Valid() by {
        assert SlotValid(i);
      }
      ghost var before := segments[i].data;
      segments[i].Delete(key);
      RemoveExcept(before, key);
      KeyOnlyChanged(key);
      return None;
    }

    /** The counters of slots 0 to n-1, summed field by field. */
    ghost function Total(n: int): StatusValue
      requires Shape() && 0 <= n <= |segments|
      reads Repr
      decreases n
    {
      if n == 0 then ZERO else Plus(Total(n - 1), segments[n - 1].status.View())
    }

    /** The number of entries stored in slots 0 to n-1. */
    ghost function EntryCount(n: int): int
      requires Shape() && 0 <= n <= |segments|
      reads Repr
      decreases n
    {
      if n == 0 then 0 else EntryCount(n - 1) + |segments[n - 1].data|
    }

    /** In a valid cache the summed counters count the stored entries. */
    lemma {:induction false} TotalCountsEntries(n: int)
      requires Valid() && 0 <= n <= |segments|
      ensures Total(n).count == EntryCount(n)
      decreases n
    {
      if n > 0 {
        TotalCountsEntries(n - 1);
        assert SlotValid(n - 1);
        TallyCount(segments[n - 1].data);
      }
    }

    /** Adding slot `i`'s counters to the sum of the slots before it gives
        the sum up to and including slot `i`. */
    lemma TotalStep(i: int, st: StatusValue)
      requires Shape() && 0 <= i < |segments| && st == segments[i].status.View()
      ensures Total(i + 1) == StatusValue(Total(i).count + st.count, Total(i).keySize + st.keySize, Total(i).valueSize + st.valueSize)
    {
    }

    /** Status(): the field-wise sum of the segments' counters. The source
        accumulates into a fresh Status that nothing else can see; here the
        accumulator is the value it holds. */
    method Status() returns (result: StatusValue)
      requires Valid()
      ensures result == Total(|segments|)
    {
      result := ZERO;
      var i := 0;
      while i < |segments|
        invariant 0 <= i <= |segments|
        invariant result == Total(i)
      {
        assert segments[i].Valid() by {
          assert SlotValid(i);
        }
        var st := segments[i].Status();
        var sum := StatusValue(result.count + st.count, result.keySize + st.keySize, result.valueSize + st.valueSize);
        assert sum == Total(i + 1) by {
          TotalStep(i, st);
        }
        result := sum;
        i := i + 1;
      }
    }

    /** Slot `j` holds the sweep at `now` of the map `before`. */
    ghost predicate SweptSlot(j: int, before: map<Bytes, Value>, now: int)
      requires Shape() && 0 <= j < |segments|
      reads segments[j]
    {
      SweptBy(before, segments[j].data, now, options.maxGcCount)
    }

    /** The sweep of slot `i`, the body of one of gc()'s goroutines. */
    method SweepSlot(i: int, now: int)
      requires Valid() && 0 <= i < |segments|
      modifies segments[i], segments[i].status
      ensures Valid() && OnlySlot(i)
      ensures SweptSlot(i, old(segments[i].data), now)
    {
      assert SlotValid(i);
      segments[i].Gc(now);
      assert SlotValid(i);
      KeptValid(i);
    }

    /** gc() at `now`: every segment swept once. The source sweeps them in
        parallel goroutines; they share nothing, so one after the other. */
    method Gc(now: int)
      requires Valid()
      modifies Repr
      ensures Valid()
      ensures forall i :: 0 <= i < |segments| ==> SweptSlot(i, old(segments[i].data), now)
    {
      var i := 0;
      while i < |segments|
        invariant 0 <= i <= |segments|
        invariant Valid()
        invariant forall j :: 0 <= j < i ==> SweptSlot(j, old(segments[j].data), now)
        invariant forall j :: i <= j < |segments| ==> segments[j].data == old(segments[j].data)
      {
        SweepSlot(i, now);
        i := i + 1;
      }
    }
  }

  /** Storing at `key` leaves every other key's entry as it was. */
  lemma UpdateExcept(m: map<Bytes, Value>, key: Bytes, v: Value)
    ensures m[key := v] - {key} == m - {key}
  {
  }

  /** Removing `key` leaves every other key's entry as it was. */
  lemma RemoveExcept(m: map<Bytes, Value>, key: Bytes)
    ensures (m - {key}) - {key} == m - {key}
  {
  }

  /** newSegments(options): options.SegmentSize fresh, empty segments. */
  method NewSegments(options: Options) returns (segs: seq<Segment>)
    requires Usable(options)
    ensures |segs| == options.segmentSize
    ensures forall i :: 0 <= i < |segs| ==> fresh(segs[i]) && fresh(segs[i].status)
    ensures forall i :: 0 <= i < |segs| ==>
      segs[i].options == options && segs[i].Valid() && segs[i].data == map[] && segs[i].status.View() == ZERO
    ensures forall i, j :: 0 <= i < j < |segs| ==> segs[i] != segs[j] && segs[i].status != segs[j].status
  {
    segs := [];
    var i := 0;
    while i < options.segmentSize
      invariant 0 <= i <= options.segmentSize && |segs| == i
      invariant forall j :: 0 <= j < i ==> fresh(segs[j]) && fresh(segs[j].status)
      invariant forall j :: 0 <= j < i ==>
        segs[j].options == options && segs[j].Valid() && segs[j].data == map[] && segs[j].status.View() == ZERO
      invariant forall j, l :: 0 <= j < l < i ==> segs[j] != segs[l] && segs[j].status != segs[l].status
    {
      var s := new Segment(options);
      segs := segs + [s];
      i := i + 1;
    }
  }
}
