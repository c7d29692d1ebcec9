/** caches/value.go: a cache entry with a time-to-live that slides. The
    wall clock `time.Now().Unix()` is the parameter `now` (seconds). Every
    successful read refreshes `ctime`, so `ttl` is an idle timeout, not an
    expiry measured from creation. */
module Values {
  import opened Primitives

  /** The ttl that never expires (NeverDie). */
  const NEVER_DIE := 0

  datatype Value = Value(data: Bytes, ttl: int, ctime: int) {

    /** alive(): never expiring, or touched less than `ttl` seconds ago. */
    predicate Alive(now: int)
    {
      ttl == NEVER_DIE || ttl > now - ctime
    }

    /** The entry after visit() at `now`; visit() returns `data`. */
    function Visited(now: int): Value
    {
      this.(ctime := now)
    }
  }

  /** newValue(data, ttl) at time `now` (helpers.Copy is implicit: a sequence
      is a value). */
  function NewValue(data: Bytes, ttl: int, now: int): Value
  {
    Value(data, ttl, now)
  }

  lemma NeverDieAlwaysAlive(v: Value, now: int)
    requires v.ttl == NEVER_DIE
    ensures v.Alive(now)
  {
  }

  /** A new entry is alive when it is created exactly when its ttl is not
      negative: NeverDie and every positive ttl give it a life, a negative
      ttl is dead on arrival. */
  lemma FreshValueAlive(data: Bytes, ttl: int, now: int)
    ensures NewValue(data, ttl, now).Alive(now) <==> ttl >= 0
  {
  }

  /** Sliding expiry: after a visit at `t` the entry is alive at `t'` exactly
      when it never dies or fewer than `ttl` seconds have passed since `t`. */
  lemma SlidingExpiry(v: Value, t: int, t': int)
    ensures v.Visited(t).Alive(t') <==> v.ttl == 0 || t' - t < v.ttl
  {
  }

  /** A negative ttl is dead from its stamp on. */
  lemma NegativeTtlDead(v: Value, now: int)
    requires v.ttl < 0 && now >= v.ctime
    ensures !v.Alive(now)
  {
  }

  // ---------------------------------------------------------------------------
  // Repeated reads

  /** The entry after a series of reads at the given times, each of which
      finds it alive and visits it; None once a read finds it dead (the
      segment then removes it). */
  function ReadAt(v: Value, times: seq<int>): Option<Value>
    decreases |times|
  {
    if times == [] then Some(v)
    else if !v.Alive(times[0]) then None
    else ReadAt(v.Visited(times[0]), times[1..])
  }

  /** Reads less than `ttl` apart, starting less than `ttl` after the last
      touch, keep the entry alive indefinitely; it ends up stamped with the
      last read time. */
  lemma {:induction false} ReadsWithinTtlKeepAlive(v: Value, times: seq<int>)
    requires v.ttl > 0
    requires times != [] ==> times[0] - v.ctime < v.ttl
    requires forall i :: 0 < i < |times| ==> times[i] - times[i - 1] < v.ttl
    ensures ReadAt(v, times).Some?
    ensures ReadAt(v, times).value.data == v.data
    ensures times != [] ==> ReadAt(v, times).value.ctime == times[|times| - 1]
    decreases |times|
  {
    if times != [] {
      var w := v.Visited(times[0]);
      assert forall i :: 0 < i < |times[1..]| ==> times[1..][i] - times[1..][i - 1] < w.ttl by {
        forall i | 0 < i < |times[1..]|
          ensures times[1..][i] - times[1..][i - 1] < w.ttl
        {
          assert times[1..][i] == times[i + 1] && times[1..][i - 1] == times[i];
        }
      }
      ReadsWithinTtlKeepAlive(w, times[1..]);
      if |times| > 1 {
        assert times[1..][|times[1..]| - 1] == times[|times| - 1];
      }
    }
  }

  /** A read that comes `ttl` or more seconds after the previous touch finds
      a positive-ttl entry gone, however many reads came before. */
  lemma {:induction false} IdleGapExpires(v: Value, times: seq<int>, k: nat)
    requires v.ttl > 0
    requires k < |times|
    requires k == 0 ==> times[0] - v.ctime >= v.ttl
    requires k > 0 ==> times[k] - times[k - 1] >= v.ttl
    ensures ReadAt(v, times).None?
    decreases k
  {
    if k == 0 {
      assert !v.Alive(times[0]);
    } else if v.Alive(times[0]) {
      var w := v.Visited(times[0]);
      assert times[1..][k - 1] == times[k];
      if k > 1 {
        assert times[1..][k - 2] == times[k - 1];
      }
      IdleGapExpires(w, times[1..], k - 1);
    }
  }
}
