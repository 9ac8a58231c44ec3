/**
 * The buffer sizes `main` derives from the Equihash parameters (n, k):
 * 2^(n/(k+1)) buckets, twice as many bit strings, a hash table of 12 slots
 * per bit string, and a bucket-count buffer of one 4-bit counter per bucket.
 */
module Sizing {

  function Pow2(e: nat): (r: nat)
    ensures r >= 1
  {
    if e == 0 then 1 else 2 * Pow2(e - 1)
  }

  /** The parameters `main` fixes (its option values are not used). */
  const N: nat := 200
  const K: nat := 9

  /** hash_table_collision_depth: slots per bucket. */
  const CollisionDepth: nat := 12
  /** sizeof(cl_ulong4): bytes per stored bit string (200 bits padded to 256). */
  const BitstringSize: nat := 32
  /** sizeof(unsigned int). */
  const UintSize: nat := 4
  /** Counters packed into one `unsigned` word by `print_stats`. */
  const CountersPerWord: nat := 8

  /** n/(k+1): the bits of one collision window, i.e. of one bucket index. */
  function WindowBits(n: nat, k: nat): nat
  {
    n / (k + 1)
  }

  /** num_bitstrings = 1 << (n / (k + 1) + 1) */
  function NumBitstrings(n: nat, k: nat): nat
  {
    Pow2(WindowBits(n, k) + 1)
  }

  /** num_buckets = 1 << n / (k + 1) */
  function NumBuckets(n: nat, k: nat): nat
  {
    Pow2(WindowBits(n, k))
  }

  /** hash_table_size: slots, in bit strings. */
  function HashTableSize(n: nat, k: nat): nat
  {
    NumBitstrings(n, k) * CollisionDepth
  }

  /** Bytes of each hash-table buffer. */
  function HashTableBytes(n: nat, k: nat): nat
  {
    HashTableSize(n, k) * BitstringSize
  }

  /** Bytes of each bucket-count buffer: num_buckets * sizeof(unsigned int) / 8. */
  function BucketCountBytes(n: nat, k: nat): nat
  {
    NumBuckets(n, k) * UintSize / 8
  }

  /** The `unsigned` words `print_stats` reads from a bucket-count buffer. */
  function BucketCountWords(n: nat, k: nat): nat
  {
    BucketCountBytes(n, k) / UintSize
  }

  lemma {:induction false} Pow2Add(a: nat, b: nat)
    ensures Pow2(a + b) == Pow2(a) * Pow2(b)
  {
    if b > 0 {
      Pow2Add(a, b - 1);
    }
  }

  /** Two bit strings are generated per bucket. */
  lemma BitstringsPerBucket(n: nat, k: nat)
    ensures NumBitstrings(n, k) == 2 * NumBuckets(n, k)
  {
  }

  /**
   * The bucket-count buffer holds exactly one 4-bit counter per bucket (half
   * a byte each) precisely when a window has at least 3 bits; for narrower
   * windows the integer division leaves no word at all.
   */
  lemma OneNibblePerBucket(n: nat, k: nat)
    ensures WindowBits(n, k) >= 3 ==> 2 * BucketCountBytes(n, k) == NumBuckets(n, k)
    ensures (CountersPerWord * BucketCountWords(n, k) == NumBuckets(n, k)) <==> WindowBits(n, k) >= 3
  {
    var b := WindowBits(n, k);
    if b >= 3 {
      Pow2Add(3, b - 3);
      assert Pow2(3) == 8;
    } else {
      assert NumBuckets(n, k) <= 4 by {
        assert b == 0 || b == 1 || b == 2;
      }
    }
  }

  /** 2^31: the first value a C `int` cannot hold. */
  const IntLimit: nat := 0x8000_0000

  lemma {:induction false} Pow2Monotone(a: nat, b: nat)
    requires a <= b
    ensures Pow2(a) <= Pow2(b)
  {
    Pow2Add(a, b - a);
  }

  lemma Pow2Landmarks()
    ensures Pow2(22) == 0x40_0000 && Pow2(23) == 0x80_0000
    ensures Pow2(30) == 0x4000_0000 && Pow2(31) == IntLimit
  {
    Pow2Add(11, 11);
    Pow2Add(15, 15);
    assert Pow2(11) == 2048;
    assert Pow2(15) == 0x8000;
  }

  /**
   * When the C `int` values of `main` equal the unbounded ones: `1 << w`
   * fits for windows of at most 30 bits, `1 << (w + 1)` for at most 29, and
   * the table's byte count `hash_table_size * bitstring_size` for at most
   * 21. Beyond these widths the source's `int` arithmetic overflows and the
   * relations proved above no longer describe what it computes.
   */
  lemma IntSizes(n: nat, k: nat)
    ensures NumBuckets(n, k) < IntLimit <==> WindowBits(n, k) <= 30
    ensures NumBitstrings(n, k) < IntLimit <==> WindowBits(n, k) <= 29
    ensures HashTableBytes(n, k) < IntLimit <==> WindowBits(n, k) <= 21
  {
    var w := WindowBits(n, k);
    Pow2Landmarks();
    if w <= 30 { Pow2Monotone(w, 30); } else { Pow2Monotone(31, w); }
    if w <= 29 { Pow2Monotone(w + 1, 30); } else { Pow2Monotone(31, w + 1); }
    if w <= 21 { Pow2Monotone(w + 1, 22); } else { Pow2Monotone(23, w + 1); }
  }

  /**
   * The sizes for (n, k) = (200, 9): 20-bit windows, 2^20 buckets, and every
   * size `main` computes in a C `int` stays below 2^31.
   */
  lemma DefaultSizes()
    ensures WindowBits(N, K) == 20
    ensures NumBuckets(N, K) == 0x10_0000
    ensures NumBitstrings(N, K) == 0x20_0000
    ensures HashTableSize(N, K) == 25165824
    ensures HashTableBytes(N, K) == 805306368 < 0x8000_0000
    ensures BucketCountBytes(N, K) == 0x8_0000
    ensures BucketCountWords(N, K) == 0x2_0000
    ensures CountersPerWord * BucketCountWords(N, K) == NumBuckets(N, K)
  {
    assert Pow2(4) == 16;
    assert Pow2(8) == 256;
    assert Pow2(12) == 4096;
    assert Pow2(16) == 65536;
    assert Pow2(20) == 0x10_0000;
  }
}
