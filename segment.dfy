/** caches/segment.go: one shard of the cache, a map from keys to entries
    together with a status object that every operation keeps equal to the
    tally of the map. Locking is not modelled: every operation runs alone. */
module Segments {
  import opened Primitives
  import opened Stats
  import opened Values
  import opened CacheOptions

  /** The counters that describe a map exactly: one per entry, the bytes of
      its keys and the bytes of its values. */
  ghost function Tally(m: map<Bytes, Value>): StatusValue
    decreases |m|
  {
    if |m| == 0 then ZERO
    else
      var k := Pick(m);
      Added(Tally(m - {k}), k, m[k].data)
  }

  /** Some key of a map that has one. */
  ghost function Pick(m: map<Bytes, Value>): (k: Bytes)
    requires |m| > 0
    ensures k in m
  {
    assert m.Keys != {};
    var k :| k in m; k
  }

  /** The tally of a map counts any one of its entries on top of the others,
      whichever entry that is. */
  lemma {:induction false} TallyRemove(m: map<Bytes, Value>, k: Bytes)
    requires k in m
    ensures Tally(m) == Added(Tally(m - {k}), k, m[k].data)
    decreases |m|
  {
    var j := Pick(m);
    if j != k {
      var both := (m - {j}) - {k};
      var t := Tally(both);
      assert Tally(m - {j}) == Added(t, k, m[k].data) by {
        assert (m - {j})[k] == m[k];
        TallyRemove(m - {j}, k);
      }
      assert Tally(m - {k}) == Added(t, j, m[j].data) by {
        assert both == (m - {k}) - {j};
        assert (m - {k})[j] == m[j];
        TallyRemove(m - {k}, j);
      }
    }
  }

  lemma TallyEmpty()
    ensures Tally(map[]) == ZERO
  {
  }

  /** The count of the tally is the number of entries. */
  lemma {:induction false} TallyCount(m: map<Bytes, Value>)
    ensures Tally(m).count == |m|
    decreases |m|
  {
    if |m| > 0 {
      var k :| k in m;
      TallyRemove(m, k);
      TallyCount(m - {k});
    }
  }

  /** Storing `v` at `k` replaces whatever the map held there. */
  lemma TallyStore(m: map<Bytes, Value>, k: Bytes, v: Value)
    ensures Tally(m[k := v]) == Added(Tally(m - {k}), k, v.data)
  {
    TallyRemove(m[k := v], k);
    assert m[k := v] - {k} == m - {k};
  }

  /** Replacing an entry by one with the same data leaves the tally as is. */
  lemma TallySameData(m: map<Bytes, Value>, k: Bytes, v: Value)
    requires k in m && m[k].data == v.data
    ensures Tally(m[k := v]) == Tally(m)
  {
    TallyStore(m, k, v);
    TallyRemove(m, k);
  }

  /** The segment's budget left aside the current entry for `key`, as set()
      computes it after subtracting that entry. */
  function SizeWithout(s: StatusValue, m: map<Bytes, Value>, key: Bytes): int
  {
    if key in m then Size(s) - |key| - |m[key].data| else Size(s)
  }

  /** Whether an entry for `key` with `value` fits a segment whose counters
      are `s` and whose map is `m`: the counters without the current entry
      for `key`, plus the new entry, within the segment's budget. */
  predicate Fits(s: StatusValue, m: map<Bytes, Value>, key: Bytes, value: Bytes, o: Options)
  {
    o.segmentSize >= 1 && SizeWithout(s, m, key) + |key| + |value| <= Capacity(o)
  }

  /** The counters of `m`, less the entry `key` had, plus `v`, are the
      counters of the map with `v` stored at `key`. */
  lemma TallyReplace(s: StatusValue, m: map<Bytes, Value>, key: Bytes, v: Value)
    requires s == Tally(m)
    ensures Added(if key in m then Subtracted(s, key, m[key].data) else s, key, v.data) == Tally(m[key := v])
  {
    if key in m {
      TallyRemove(m, key);
    } else {
      assert m - {key} == m;
    }
    TallyStore(m, key, v);
  }

  const ENTRY_SIZE_EXCEEDED := Str("the entry size will exceed if you set this entry")

  function Max(a: int, b: int): int
  {
    if a >= b then a else b
  }

  /** What one gc sweep at `now` may do to a map: drop dead entries only, at
      most max(maxGcCount, 1) of them, keep the rest untouched, and leave no
      dead entry behind unless it stopped at its bound. */
  ghost predicate SweptBy(before: map<Bytes, Value>, after: map<Bytes, Value>, now: int, maxGcCount: int)
  {
    && after.Keys <= before.Keys
    && (forall k :: k in after ==> after[k] == before[k])
    && (forall k :: k in before && k !in after ==> !before[k].Alive(now))
    && |before.Keys - after.Keys| <= Max(maxGcCount, 1)
    && (|before.Keys - after.Keys| < Max(maxGcCount, 1) ==> forall k :: k in after ==> after[k].Alive(now))
  }

  /** Part-way through a sweep: the entries not yet looked at are still in
      the map, the rest of the map is untouched and alive, and only dead
      entries have gone. */
  ghost predicate Sweeping(before: map<Bytes, Value>, after: map<Bytes, Value>, unvisited: set<Bytes>, now: int)
  {
    && unvisited <= after.Keys && after.Keys <= before.Keys
    && (forall k :: k in after ==> after[k] == before[k])
    && (forall k :: k in before && k !in after ==> !before[k].Alive(now))
    && (forall k :: k in after && k !in unvisited ==> after[k].Alive(now))
  }

  lemma SweepStart(m: map<Bytes, Value>, now: int)
    ensures Sweeping(m, m, m.Keys, now)
    ensures m.Keys - m.Keys == {}
  {
  }

  /** Looking at a live entry keeps it. */
  lemma SweepKeep(before: map<Bytes, Value>, after: map<Bytes, Value>, unvisited: set<Bytes>, key: Bytes, now: int)
    requires Sweeping(before, after, unvisited, now)
    requires key in unvisited && after[key].Alive(now)
    ensures Sweeping(before, after, unvisited - {key}, now)
  {
  }

  /** Looking at a dead entry drops it, one more removal. */
  lemma SweepDrop(before: map<Bytes, Value>, after: map<Bytes, Value>, unvisited: set<Bytes>, key: Bytes, now: int)
    requires Sweeping(before, after, unvisited, now)
    requires key in unvisited && !after[key].Alive(now)
    ensures Sweeping(before, after - {key}, unvisited - {key}, now)
    ensures |before.Keys - (after - {key}).Keys| == |before.Keys - after.Keys| + 1
  {
    assert before.Keys - (after - {key}).Keys == (before.Keys - after.Keys) + {key};
  }

  /** A sweep that stops, at its bound or with nothing left to look at, has
      swept the map. */
  lemma SweepDone(before: map<Bytes, Value>, after: map<Bytes, Value>, unvisited: set<Bytes>, now: int, maxGcCount: int)
    requires Sweeping(before, after, unvisited, now)
    requires |before.Keys - after.Keys| <= Max(maxGcCount, 1)
    requires unvisited == {} || |before.Keys - after.Keys| == Max(maxGcCount, 1)
    ensures SweptBy(before, after, now, maxGcCount)
  {
  }

  class Segment {
    var data: map<Bytes, Value>
    const status: Status
    const options: Options

    /** The status object describes the map exactly. */
    ghost predicate Valid()
      reads this, status
    {
      options.segmentSize >= 1 && status.View() == Tally(data)
    }

    /** newSegment(options) */
    constructor (options: Options)
      requires options.segmentSize >= 1
      ensures Valid() && fresh(status)
      ensures data == map[] && status.View() == ZERO && this.options == options
    {
      data := map[];
      status := new Status();
      this.options := options;
      new;
      TallyEmpty();
    }

    /** get(key) at `now`: a missing key is a miss; a dead entry is deleted and
        is a miss; a live entry is visited and its data returned. */
    method Get(key: Bytes, now: int) returns (value: Bytes, ok: bool)
      requires Valid()
      modifies this, status
      ensures Valid()
      ensures key !in old(data) ==> !ok && value == [] && data == old(data) && status.View() == old(status.View())
      ensures key in old(data) && !old(data)[key].Alive(now) ==>
        && !ok && value == [] && data == old(data) - {key}
        && status.View() == Subtracted(old(status.View()), key, old(data)[key].data)
      ensures key in old(data) && old(data)[key].Alive(now) ==>
        && ok && value == old(data)[key].data
        && data == old(data)[key := old(data)[key].Visited(now)]
        && status.View() == old(status.View())
    {
      if key !in data {
        return [], false;
      }
      var v := data[key];
      if !v.Alive(now) {
        Delete(key);
        return [], false;
      }
      TallySameData(data, key, v.Visited(now));
      data := data[key := v.Visited(now)];
      return v.data, true;
    }

    /** set(key, value, ttl) at `now`: store a new entry if the segment's size,
        counted without the current entry for `key`, stays within the budget;
        otherwise fail and leave map and counters as they were. */
    method Set(key: Bytes, value: Bytes, ttl: int, now: int) returns (err: Option<Error>)
      requires Valid()
      modifies this, status
      ensures Valid()
      ensures err.None? <==> Fits(old(status.View()), old(data), key, value, options)
      ensures err.None? ==> data == old(data)[key := NewValue(value, ttl, now)]
      ensures err.Some? ==>
        && err == Some(Custom(ENTRY_SIZE_EXCEEDED))
        && data == old(data) && status.View() == old(status.View())
    {
      ghost var before := status.View();
      if key in data {
        status.SubEntry(key, data[key].data);
      }
      assert status.EntrySize() == SizeWithout(before, data, key);
      if !CheckEntrySize(key, value) {
        if key in data {
          status.AddEntry(key, data[key].data);
        }
        return Some(Custom(ENTRY_SIZE_EXCEEDED));
      }
      status.AddEntry(key, value);
      assert status.View() == Tally(data[key := NewValue(value, ttl, now)]) by {
        TallyReplace(before, data, key, NewValue(value, ttl, now));
      }
      data := data[key := NewValue(value, ttl, now)];
      return None;
    }

    /** delete(key): remove the entry and its sizes if there is one. */
    method Delete(key: Bytes)
      requires Valid()
      modifies this, status
      ensures Valid()
      ensures data == old(data) - {key}
      ensures key in old(data) ==> status.View() == Subtracted(old(status.View()), key, old(data)[key].data)
      ensures key !in old(data) ==> status.View() == old(status.View())
    {
      if key in data {
        TallyRemove(data, key);
        status.SubEntry(key, data[key].data);
        data := data - {key};
      } else {
        assert data - {key} == data;
      }
    }

    /** status(): a copy of the counters, which are the tally of the map. */
    method Status() returns (s: StatusValue)
      requires Valid()
      ensures s == status.View() == Tally(data)
      ensures s.count == |data|
    {
      TallyCount(data);
      s := status.View();
    }

    /** Whether set(key, value) succeeds: the counters without the current
        entry for `key`, plus the new entry, fit in the segment's budget. */
    ghost predicate Admits(key: Bytes, value: Bytes)
      reads this, status
    {
      Fits(status.View(), data, key, value, options)
    }

    /** checkEntrySize(newKey, newValue): the counters plus the new entry fit
        in the segment's budget. */
    predicate CheckEntrySize(newKey: Bytes, newValue: Bytes)
      reads this, status
      requires options.segmentSize >= 1
    {
      status.EntrySize() + |newKey| + |newValue| <= Capacity(options)
    }

    /** gc() at `now`: walk the entries in any order, deleting dead ones, and
        stop after MaxGcCount deletions (after the first when MaxGcCount < 1). */
    method Gc(now: int)
      requires Valid()
      modifies this, status
      ensures Valid()
      ensures SweptBy(old(data), data, now, options.maxGcCount)
    {
      var count := 0;
      var keys := data.Keys;
      SweepStart(data, now);
      while keys != {}
        invariant Valid()
        invariant Sweeping(old(data), data, keys, now)
        invariant count == |old(data).Keys - data.Keys| < Max(options.maxGcCount, 1)
        decreases keys
      {
        var key :| key in keys;
        if data[key].Alive(now) {
          SweepKeep(old(data), data, keys, key, now);
          keys := keys - {key};
        } else {
          SweepDrop(old(data), data, keys, key, now);
          keys := keys - {key};
          Delete(key);
          count := count + 1;
          if count >= options.maxGcCount {
            SweepDone(old(data), data, keys, now, options.maxGcCount);
            return;
          }
        }
      }
      SweepDone(old(data), data, keys, now, options.maxGcCount);
    }
  }
}
