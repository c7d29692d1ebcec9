/** Go's value types as the rest of the model sees them: bytes and byte
    strings, the `error` values the core creates or compares, 64-bit integer
    arithmetic with wrap-around, big-endian fixed-width integers and the bit
    operations on `int` that the hash uses. */
module Primitives {

  /** A Go `byte`. */
  newtype byte = x: int | 0 <= x < 256

  /** A Go `[]byte` or `string`: both are sequences of bytes. A nil slice and
      an empty slice are both the empty sequence. */
  type Bytes = seq<byte>

  datatype Option<T> = None | Some(value: T)

  /** An ASCII literal of the source as bytes. */
  function Str(s: string): (b: Bytes)
    ensures |b| == |s|
    ensures forall i :: 0 <= i < |s| ==> b[i] as int == s[i] as int % 256
  {
    seq(|s|, i requires 0 <= i < |s| => (s[i] as int % 256) as byte)
  }

  lemma StrAppend(s: string, t: string)
    ensures Str(s + t) == Str(s) + Str(t)
  {
  }

  // ---------------------------------------------------------------------------
  // Errors

  /** A Go `error`. `Eof` and `UnexpectedEof` are io.EOF and
      io.ErrUnexpectedEOF; `VersionMismatch` is the sentinel
      ProtocolVersionMismatchErr of vex/protocal.go:14, the only error the core
      compares by identity; every other error is made by errors.New or
      fmt.Errorf and is known by its message. */
  datatype Error = Eof | UnexpectedEof | VersionMismatch | Custom(msg: Bytes)

  /** err.Error() */
  function Message(e: Error): Bytes
  {
    match e
    case Eof => Str("EOF")
    case UnexpectedEof => Str("unexpected EOF")
    case VersionMismatch => Str(VERSION_MISMATCH_TEXT)
    case Custom(m) => m
  }

  const VERSION_MISMATCH_TEXT := "protocol version between client and server doesn't match"

  datatype Result<T> = Ok(value: T) | Err(error: Error)

  // ---------------------------------------------------------------------------
  // Byte-string helpers of Go's strings package

  predicate HasPrefix(s: Bytes, prefix: Bytes)
  {
    |prefix| <= |s| && s[..|prefix|] == prefix
  }

  /** strings.TrimPrefix: `s` without `prefix` when it starts with it. */
  function TrimPrefix(s: Bytes, prefix: Bytes): (r: Bytes)
    ensures HasPrefix(s, prefix) ==> prefix + r == s
    ensures !HasPrefix(s, prefix) ==> r == s
  {
    if HasPrefix(s, prefix) then s[|prefix|..] else s
  }

  // ---------------------------------------------------------------------------
  // 64-bit integers

  const TWO_TO_32: int := 0x1_0000_0000
  const TWO_TO_63: int := 0x8000_0000_0000_0000
  const TWO_TO_64: int := 0x1_0000_0000_0000_0000
  const MIN_INT64: int := -0x8000_0000_0000_0000
  const MAX_INT64: int := 0x7FFF_FFFF_FFFF_FFFF

  predicate IsInt64(x: int)
  {
    MIN_INT64 <= x <= MAX_INT64
  }

  /** The int64 that Go's two's-complement arithmetic leaves of the
      mathematical value `x`: the one congruent to `x` modulo 2^64. */
  function Wrap64(x: int): (r: int)
    ensures IsInt64(r)
    ensures (r - x) % TWO_TO_64 == 0
    ensures IsInt64(x) ==> r == x
  {
    (x - MIN_INT64) % TWO_TO_64 + MIN_INT64
  }

  /** uint64(x) for an int64 `x` (and, in general, `x` modulo 2^64). */
  function Uint64Of(x: int): (u: nat)
    ensures u < TWO_TO_64
    ensures IsInt64(x) ==> (if x >= 0 then u == x else u == x + TWO_TO_64)
  {
    x % TWO_TO_64
  }

  /** int64(u) for a uint64 `u`: the upper half wraps to the negatives. */
  function Int64Of(u: nat): (x: int)
    requires u < TWO_TO_64
    ensures IsInt64(x)
    ensures Uint64Of(x) == u
  {
    if u < TWO_TO_63 then u else u - TWO_TO_64
  }

  lemma Int64OfUint64Of(x: int)
    requires IsInt64(x)
    ensures Int64Of(Uint64Of(x)) == x
  {
  }

  /** Go's integer division of `a` by a positive `b`: it truncates toward
      zero, where Dafny's `/` rounds toward negative infinity. */
  function GoDiv(a: int, b: int): int
    requires b > 0
  {
    if a >= 0 then a / b else -((-a) / b)
  }

  /** The quotient rounds toward zero: it has the sign of `a` and the
      remainder left over has the sign of `a` and is smaller than `b`. */
  lemma GoDivBounds(a: int, b: int)
    requires b > 0
    ensures a >= 0 ==> 0 <= GoDiv(a, b) && GoDiv(a, b) * b <= a < GoDiv(a, b) * b + b
    ensures a < 0 ==> GoDiv(a, b) <= 0 && GoDiv(a, b) * b - b < a <= GoDiv(a, b) * b
  {
    var n := if a >= 0 then a else -a;
    var q, r := n / b, n % b;
    assert n == q * b + r && 0 <= r < b;
    assert q >= 0;
  }

  // ---------------------------------------------------------------------------
  // Big-endian fixed-width integers (encoding/binary.BigEndian)

  function Pow256(k: nat): (p: nat)
    ensures p >= 1
  {
    if k == 0 then 1 else 256 * Pow256(k - 1)
  }

  lemma Pow256Values()
    ensures Pow256(4) == TWO_TO_32
    ensures Pow256(8) == TWO_TO_64
  {
  }

  /** The low `k` bytes of `n`, most significant first: PutUint32 (k = 4)
      and PutUint64 (k = 8) after the uint32/uint64 conversion of `n`. */
  function PutBE(n: nat, k: nat): (b: Bytes)
    ensures |b| == k
  {
    if k == 0 then [] else PutBE(n / 256, k - 1) + [(n % 256) as byte]
  }

  /** The unsigned value of `b`, most significant byte first: Uint32 and
      Uint64 applied to exactly 4 or 8 bytes. */
  function BE(b: Bytes): (n: nat)
    ensures n < Pow256(|b|)
  {
    if |b| == 0 then 0 else BE(b[..|b| - 1]) * 256 + b[|b| - 1] as int
  }

  /** Decoding the bytes PutBE writes gives back the number, whenever it fits
      in `k` bytes. */
  lemma {:induction false} BEOfPutBE(n: nat, k: nat)
    requires n < Pow256(k)
    ensures BE(PutBE(n, k)) == n
  {
    if k > 0 {
      BEOfPutBE(n / 256, k - 1);
      var b := PutBE(n, k);
      assert b[..k - 1] == PutBE(n / 256, k - 1);
    }
  }

  /** Big-endian decoding is one-to-one on byte strings of one length. */
  lemma {:induction false} BEInjective(a: Bytes, b: Bytes)
    requires |a| == |b| && BE(a) == BE(b)
    ensures a == b
    decreases |a|
  {
    if |a| > 0 {
      var n := |a| - 1;
      assert BE(a[..n]) * 256 + a[n] as int == BE(b[..n]) * 256 + b[n] as int;
      assert a[n] == b[n] && BE(a[..n]) == BE(b[..n]);
      BEInjective(a[..n], b[..n]);
      assert a == a[..n] + [a[n]] && b == b[..n] + [b[n]];
    }
  }

  /** Uint32 applied to the first four bytes of `b`. */
  function Uint32(b: Bytes): (n: nat)
    requires |b| >= 4
    ensures n < TWO_TO_32
  {
    Pow256Values();
    BE(b[..4])
  }

  /** PutUint32(uint32(n)). */
  function PutUint32(n: nat): (b: Bytes)
    ensures |b| == 4
  {
    PutBE(n, 4)
  }

  lemma Uint32OfPutUint32(n: nat)
    requires n < TWO_TO_32
    ensures Uint32(PutUint32(n)) == n
  {
    Pow256Values();
    BEOfPutBE(n, 4);
    assert PutUint32(n)[..4] == PutUint32(n);
  }

  // ---------------------------------------------------------------------------
  // Bit operations on non-negative integers

  /** a & b */
  function BitAnd(a: nat, b: nat): nat
    decreases a
  {
    if a == 0 || b == 0 then 0
    else 2 * BitAnd(a / 2, b / 2) + (if a % 2 == 1 && b % 2 == 1 then 1 else 0)
  }

  /** a ^ b */
  function BitXor(a: nat, b: nat): nat
    decreases a + b
  {
    if a == 0 && b == 0 then 0
    else 2 * BitXor(a / 2, b / 2) + (if a % 2 != b % 2 then 1 else 0)
  }

  /** Masking never yields more than the mask. */
  lemma {:induction false} BitAndAtMost(a: nat, b: nat)
    ensures BitAnd(a, b) <= b
  {
    if a != 0 && b != 0 {
      BitAndAtMost(a / 2, b / 2);
    }
  }
}
