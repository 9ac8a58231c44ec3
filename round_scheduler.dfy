/**
 * The host side of the round loop in `main`: two hash tables and two
 * bucket-count buffers, zero-filled, then the digest kernel writing slot 0,
 * then per round the collision kernel writing slot 1 from slot 0, slot 0
 * being cleared and the two slots swapped. The kernels themselves are not
 * modelled: each is a function of the buffers it is given, and the model
 * only fixes which buffers it reads and which it writes.
 */
module RoundScheduler {
  import opened MaskTable
  import Sizing

  /** The contents of one slot: a hash table of bit strings and its packed bucket counts. */
  datatype Tables = Tables(table: seq<Ulong4>, counts: seq<bv32>)

  /**
   * The scalar arguments of `equihash_round` after its four buffers: the
   * previous round's mask, this round's mask and shift, `num_buckets`, and
   * a last `unsigned` the host passes as 2 (its meaning lies in the kernel
   * source, which is not part of this model).
   */
  datatype RoundArgs = RoundArgs(prevMask: Ulong4, mask: Ulong4, maskShift: Int4, numBuckets: int, last: int)

  /** `blake(state, hash_table, bucket_count, depth)`: the new contents of the slot it writes. */
  type DigestKernel = (seq<bv64>, Tables, int) -> Tables

  /** `equihash_round(dst..., src..., args)`: the new contents of the destination slot. */
  type RoundKernel = (Tables, Tables, RoundArgs) -> Tables

  /**
   * What a run depends on: the BLAKE2b state words handed to the digest
   * kernel, the buffer sizes, the collision depth, the bucket count and the
   * two kernels.
   */
  datatype Setup = Setup(
    state: seq<bv64>,
    tableSize: nat,
    countWords: nat,
    depth: int,
    numBuckets: int,
    digest: DigestKernel,
    round: RoundKernel)

  /** The sizes and constants `main` uses for (n, k) = (200, 9), in elements of each buffer. */
  predicate DefaultSetup(p: Setup)
  {
    && p.tableSize == Sizing.HashTableSize(Sizing.N, Sizing.K)
    && p.countWords == Sizing.BucketCountWords(Sizing.N, Sizing.K)
    && p.depth == Sizing.CollisionDepth
    && p.numBuckets == Sizing.NumBuckets(Sizing.N, Sizing.K)
  }

  /** A slot after `enqueueFillBuffer` with pattern 0. */
  function ZeroTables(p: Setup): (r: Tables)
    ensures |r.table| == p.tableSize && |r.counts| == p.countWords
    ensures forall j :: 0 <= j < |r.table| ==> r.table[j] == Ulong4(0, 0, 0, 0)
    ensures forall j :: 0 <= j < |r.counts| ==> r.counts[j] == 0
  {
    Tables(seq(p.tableSize, _ => Ulong4(0, 0, 0, 0)), seq(p.countWords, _ => 0))
  }

  /** The masks round i passes: `masks[i]`, `masks[i + 1]` and `mask_shifts[i + 1]`. */
  function ArgsOfRound(p: Setup, i: nat): (r: RoundArgs)
    requires i + 1 < |Masks|
    ensures r.prevMask == Masks[i] && r.mask == Masks[i + 1] && r.maskShift == MaskShifts[i + 1]
    ensures r.numBuckets == p.numBuckets && r.last == 2
  {
    RoundArgs(Masks[i], Masks[i + 1], MaskShifts[i + 1], p.numBuckets, 2)
  }

  /**
   * What slot 0 holds after stage r: stage 0 is the digest kernel run on a
   * zeroed slot, stage r + 1 is round r run from stage r into a zeroed slot.
   */
  function Stage(p: Setup, r: nat): Tables
    requires r < |Masks|
  {
    if r == 0 then p.digest(p.state, ZeroTables(p), p.depth)
    else p.round(ZeroTables(p), Stage(p, r - 1), ArgsOfRound(p, r - 1))
  }

  /**
   * Each round's bucket index is in range: the (mask, shift) pair round i
   * passes (row i + 1, whose extraction is window i + 1 by
   * `ExtractIsWindow`) turns every digest into a value below the
   * `num_buckets` it passes, 2^20 for the default parameters.
   */
  lemma RoundMaskNormalises(p: Setup, i: nat, d: Ulong4)
    requires i + 1 < |Masks|
    requires DefaultSetup(p)
    ensures var a := ArgsOfRound(p, i);
      && ShiftsInRange(a.maskShift)
      && ExtractBucket(d, a.mask, a.maskShift) < 0x10_0000
      && a.numBuckets == 0x10_0000
  {
    var a := ArgsOfRound(p, i);
    assert a.mask == Masks[i + 1] && a.maskShift == MaskShifts[i + 1];
    ExtractIsWindow(d, i + 1);
  }

  /**
   * The windows the round loop walks through: round i compares on window i
   * (its previous mask) and rebuckets on window i + 1, so consecutive
   * rounds use adjacent windows and each window once as the new one.
   */
  lemma RoundWindows(p: Setup, i: nat)
    requires i + 1 < |Masks|
    ensures SetBits(ArgsOfRound(p, i).prevMask) == Interval(WindowWidth * i, WindowWidth * i + WindowWidth)
    ensures SetBits(ArgsOfRound(p, i).mask) == Interval(WindowWidth * (i + 1), WindowWidth * (i + 1) + WindowWidth)
  {
    MaskIsWindow(i);
    MaskIsWindow(i + 1);
  }

  /** A device buffer of `size` elements, whose contents are replaced by fills and kernel writes. */
  class Buffer<T(0)> {
    const size: nat
    var contents: seq<T>

    /**
     * `cl::Buffer(CL_MEM_READ_WRITE, ...)`: allocated with contents the
     * model leaves open (every buffer is filled before it is read).
     */
    constructor (size: nat)
      ensures this.size == size
    {
      this.size := size;
      contents := [];
    }

    /** `enqueueFillBuffer(buf, v, 0, whole size)`. */
    method Fill(v: T)
      modifies this
      ensures contents == seq(size, _ => v)
    {
      contents := seq(size, _ => v);
    }

    /** A kernel storing its output into this buffer. */
    method Store(v: seq<T>)
      modifies this
      ensures contents == v
    {
      contents := v;
    }
  }

  /** The pair `hash_tables` / `bucket_counts`: slot 0 is the current stage, slot 1 the next. */
  class Scheduler {
    const setup: Setup
    const hashTables: array<Buffer<Ulong4>>
    const bucketCounts: array<Buffer<bv32>>
    ghost var Repr: set<object>

    ghost predicate Valid()
      reads this, Repr
    {
      && hashTables in Repr && bucketCounts in Repr
      && hashTables.Length == 2 && bucketCounts.Length == 2
      && hashTables[0] in Repr && hashTables[1] in Repr
      && bucketCounts[0] in Repr && bucketCounts[1] in Repr
      && hashTables[0] != hashTables[1] && bucketCounts[0] != bucketCounts[1]
      && hashTables[0] as object != bucketCounts[0] && hashTables[0] as object != bucketCounts[1]
      && hashTables[1] as object != bucketCounts[0] && hashTables[1] as object != bucketCounts[1]
      && hashTables[0].size == hashTables[1].size == setup.tableSize
      && bucketCounts[0].size == bucketCounts[1].size == setup.countWords
    }

    /** What slot j holds. */
    function Slot(j: nat): Tables
      requires Valid() && j < 2
      reads this, Repr
    {
      Tables(hashTables[j].contents, bucketCounts[j].contents)
    }

    /** The two `std::array<cl::Buffer, 2>` of `main`, each buffer freshly allocated. */
    constructor (p: Setup)
      ensures Valid() && fresh(Repr) && setup == p
    {
      setup := p;
      var t0 := new Buffer<Ulong4>(p.tableSize);
      var t1 := new Buffer<Ulong4>(p.tableSize);
      var c0 := new Buffer<bv32>(p.countWords);
      var c1 := new Buffer<bv32>(p.countWords);
      hashTables := new Buffer<Ulong4>[2] [t0, t1];
      bucketCounts := new Buffer<bv32>[2] [c0, c1];
      new;
      Repr := {hashTables as object, bucketCounts, t0, t1, c0, c1};
    }

    /** The two fill loops before the digest kernel: all four buffers become zero. */
    method ClearAll()
      requires Valid()
      modifies Repr
      ensures Valid() && Repr == old(Repr)
      ensures hashTables[..] == old(hashTables[..]) && bucketCounts[..] == old(bucketCounts[..])
      ensures Slot(0) == ZeroTables(setup) && Slot(1) == ZeroTables(setup)
    {
      hashTables[0].Fill(Ulong4(0, 0, 0, 0));
      hashTables[1].Fill(Ulong4(0, 0, 0, 0));
      bucketCounts[0].Fill(0);
      bucketCounts[1].Fill(0);
    }

    /** The `blake` launch: writes slot 0 only. */
    method RunDigest()
      requires Valid()
      modifies Repr
      ensures Valid() && Repr == old(Repr)
      ensures hashTables[..] == old(hashTables[..]) && bucketCounts[..] == old(bucketCounts[..])
      ensures Slot(0) == setup.digest(setup.state, old(Slot(0)), setup.depth)
      ensures Slot(1) == old(Slot(1))
    {
      var out := setup.digest(setup.state, Slot(0), setup.depth);
      hashTables[0].Store(out.table);
      bucketCounts[0].Store(out.counts);
    }

    /**
     * One iteration of the round loop: the kernel writes slot 1 from slot 0,
     * whose buffers are distinct from slot 1's; slot 0 is then zero-filled
     * and the slots are swapped, so the output becomes slot 0 and the
     * cleared source becomes the next destination.
     */
    method Round(i: nat)
      requires Valid() && i + 1 < |Masks|
      modifies Repr
      ensures Valid() && Repr == old(Repr)
      ensures hashTables[0] == old(hashTables[1]) && hashTables[1] == old(hashTables[0])
      ensures bucketCounts[0] == old(bucketCounts[1]) && bucketCounts[1] == old(bucketCounts[0])
      ensures Slot(0) == setup.round(old(Slot(1)), old(Slot(0)), ArgsOfRound(setup, i))
      ensures Slot(1) == ZeroTables(setup)
    {
      var out := setup.round(Slot(1), Slot(0), ArgsOfRound(setup, i));
      hashTables[1].Store(out.table);
      bucketCounts[1].Store(out.counts);
      hashTables[0].Fill(Ulong4(0, 0, 0, 0));
      bucketCounts[0].Fill(0);
      hashTables[0], hashTables[1] := hashTables[1], hashTables[0];
      bucketCounts[0], bucketCounts[1] := bucketCounts[1], bucketCounts[0];
    }

    /**
     * The whole schedule with `rounds` iterations (`main` runs one). Round i
     * reads `masks[i + 1]`, so at most five rounds fit the table. At the
     * start of every round slot 1 is zero and slot 0 holds the previous
     * stage; at the end slot 0 holds stage `rounds`.
     */
    method Run(rounds: nat)
      requires Valid() && rounds < |Masks|
      modifies Repr
      ensures Valid() && Repr == old(Repr)
      ensures Slot(0) == Stage(setup, rounds) && Slot(1) == ZeroTables(setup)
    {
      ClearAll();
      RunDigest();
      for i := 0 to rounds
        invariant Valid() && Repr == old(Repr)
        invariant Slot(0) == Stage(setup, i) && Slot(1) == ZeroTables(setup)
      {
        Round(i);
      }
    }
  }

  /** The number of rounds the loop in `main` runs. */
  const MainRounds: nat := 1

  /**
   * `main`'s schedule: allocate, clear, digest, one round. Slot 0 ends
   * holding round 0's output computed from the digest stage.
   */
  method MainSchedule(p: Setup) returns (s: Scheduler)
    ensures s.Valid() && fresh(s.Repr) && s.setup == p
    ensures s.Slot(0) == p.round(ZeroTables(p), p.digest(p.state, ZeroTables(p), p.depth), ArgsOfRound(p, 0))
    ensures s.Slot(1) == ZeroTables(p)
  {
    s := new Scheduler(p);
    s.Run(MainRounds);
  }
}
