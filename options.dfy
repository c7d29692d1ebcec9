/** The part of caches/options.go that the engine reads. The timer periods,
    the dump file, the map size hint and the spin-wait sleep are not part of
    this model. */
module CacheOptions {
  import opened Primitives

  datatype Options = Options(maxEntrySize: int, maxGcCount: int, segmentSize: int)

  /** DefaultOptions(): 4 MB of entries, 10 evictions per sweep, 1024
      segments. */
  function DefaultOptions(): Options
  {
    Options(4, 10, 1024)
  }

  /** The options a cache can be built from: a positive number of segments.
      With SegmentSize == 0 the source divides by zero in checkEntrySize and
      indexes an empty segment slice; Go ints are 64-bit. */
  predicate Usable(o: Options)
  {
    1 <= o.segmentSize <= MAX_INT64 && IsInt64(o.maxEntrySize) && IsInt64(o.maxGcCount)
  }

  /** The byte budget of one segment, MaxEntrySize*1024*2014/SegmentSize in
      Go's wrapping int arithmetic and truncating division. The factor 2014
      (not 1024) is the source's. */
  function Capacity(o: Options): int
    requires o.segmentSize >= 1
  {
    GoDiv(Wrap64(o.maxEntrySize * 1024 * 2014), o.segmentSize)
  }

  /** The default budget: 4*1024*2014/1024 = 8056 bytes per segment. */
  lemma DefaultCapacity()
    ensures Usable(DefaultOptions())
    ensures Capacity(DefaultOptions()) == 8056
  {
  }

  /** The budget of a segment is its share of the global one, rounded toward
      zero, whenever the product does not overflow. */
  lemma CapacityIsShare(o: Options)
    requires o.segmentSize >= 1 && 0 <= o.maxEntrySize * 1024 * 2014 <= MAX_INT64
    ensures Capacity(o) * o.segmentSize <= o.maxEntrySize * 1024 * 2014
    ensures o.maxEntrySize * 1024 * 2014 < (Capacity(o) + 1) * o.segmentSize
  {
    GoDivBounds(o.maxEntrySize * 1024 * 2014, o.segmentSize);
  }
}
