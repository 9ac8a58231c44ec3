/**
 * The bucket-count decoding of `print_stats` and the tally of
 * `print_collision_histogram`. A bucket-count buffer packs eight 4-bit
 * counters into every `unsigned` word, the lowest nibble first; the
 * printing is not modelled.
 */
module BucketStats {
  import Sizing

  /** Counter j (0..7) of a packed word: `(cc >> (j * 4)) & 0xf`. */
  function Nibble(cc: bv32, j: nat): (r: bv32)
    requires j < 8
    ensures r <= 15
  {
    var shift: bv32 := 4 * j as bv32;
    (cc >> shift) & 0xf
  }

  /**
   * The nested `push_back` loops of `print_stats`: counter 8w+j of the
   * result is nibble j of word w, so there are eight counters per word and
   * none exceeds 15.
   */
  method UnpackCounts(compressed: seq<bv32>) returns (counts: seq<nat>)
    ensures |counts| == Sizing.CountersPerWord * |compressed|
    ensures forall p :: 0 <= p < |counts| ==> counts[p] == Nibble(compressed[p / 8], p % 8) as int
    ensures forall p :: 0 <= p < |counts| ==> counts[p] <= 15
  {
    counts := [];
    for w := 0 to |compressed|
      invariant |counts| == 8 * w
      invariant forall p :: 0 <= p < |counts| ==> counts[p] == Nibble(compressed[p / 8], p % 8) as int
    {
      var cc := compressed[w];
      for j := 0 to 8
        invariant |counts| == 8 * w + j
        invariant forall p :: 0 <= p < |counts| ==> counts[p] == Nibble(compressed[p / 8], p % 8) as int
      {
        counts := counts + [Nibble(cc, j) as int];
      }
    }
  }

  /** The layout the counters are kept in: word w holds counters 8w..8w+7, lowest nibble first. */
  function PackWord(c: seq<bv32>): (r: bv32)
    requires |c| == 8 && forall j :: 0 <= j < 8 ==> c[j] <= 15
  {
    c[0] | (c[1] << 4) | (c[2] << 8) | (c[3] << 12) | (c[4] << 16) | (c[5] << 20) | (c[6] << 24) | (c[7] << 28)
  }

  function Pack(c: seq<bv32>): (r: seq<bv32>)
    requires |c| % 8 == 0 && forall p :: 0 <= p < |c| ==> c[p] <= 15
    ensures |r| == |c| / 8
    ensures forall w :: 0 <= w < |r| ==> r[w] == PackWord(c[8 * w..8 * w + 8])
  {
    seq(|c| / 8, w requires 0 <= w < |c| / 8 => PackWord(c[8 * w..8 * w + 8]))
  }

  lemma PackNibbles(w: bv32, c0: bv32, c1: bv32, c2: bv32, c3: bv32, c4: bv32, c5: bv32, c6: bv32, c7: bv32)
    requires c0 <= 15 && c1 <= 15 && c2 <= 15 && c3 <= 15 && c4 <= 15 && c5 <= 15 && c6 <= 15 && c7 <= 15
    requires w == c0 | (c1 << 4) | (c2 << 8) | (c3 << 12) | (c4 << 16) | (c5 << 20) | (c6 << 24) | (c7 << 28)
    ensures w & 0xf == c0 && (w >> 4) & 0xf == c1 && (w >> 8) & 0xf == c2 && (w >> 12) & 0xf == c3
    ensures (w >> 16) & 0xf == c4 && (w >> 20) & 0xf == c5 && (w >> 24) & 0xf == c6 && (w >> 28) & 0xf == c7
  {
  }

  lemma NibbleShiftsLow(w: bv32)
    ensures Nibble(w, 0) == w & 0xf && Nibble(w, 1) == (w >> 4) & 0xf
    ensures Nibble(w, 2) == (w >> 8) & 0xf && Nibble(w, 3) == (w >> 12) & 0xf
  {
  }

  lemma NibbleShiftsHigh(w: bv32)
    ensures Nibble(w, 4) == (w >> 16) & 0xf && Nibble(w, 5) == (w >> 20) & 0xf
    ensures Nibble(w, 6) == (w >> 24) & 0xf && Nibble(w, 7) == (w >> 28) & 0xf
  {
  }

  lemma PackedNibbles(w: bv32, c0: bv32, c1: bv32, c2: bv32, c3: bv32, c4: bv32, c5: bv32, c6: bv32, c7: bv32)
    requires c0 <= 15 && c1 <= 15 && c2 <= 15 && c3 <= 15 && c4 <= 15 && c5 <= 15 && c6 <= 15 && c7 <= 15
    requires w == c0 | (c1 << 4) | (c2 << 8) | (c3 << 12) | (c4 << 16) | (c5 << 20) | (c6 << 24) | (c7 << 28)
    ensures Nibble(w, 0) == c0 && Nibble(w, 1) == c1 && Nibble(w, 2) == c2 && Nibble(w, 3) == c3
    ensures Nibble(w, 4) == c4 && Nibble(w, 5) == c5 && Nibble(w, 6) == c6 && Nibble(w, 7) == c7
  {
    PackNibbles(w, c0, c1, c2, c3, c4, c5, c6, c7);
    NibbleShiftsLow(w);
    NibbleShiftsHigh(w);
  }

  lemma NibbleOfPackWord(c: seq<bv32>, j: nat)
    requires |c| == 8 && forall i :: 0 <= i < 8 ==> c[i] <= 15
    requires j < 8
    ensures Nibble(PackWord(c), j) == c[j]
  {
    PackedNibbles(PackWord(c), c[0], c[1], c[2], c[3], c[4], c[5], c[6], c[7]);
    if j == 0 {} else if j == 1 {} else if j == 2 {} else if j == 3 {}
    else if j == 4 {} else if j == 5 {} else if j == 6 {} else {}
  }

  /** Unpacking inverts packing: one nibble per counter, in order, loses nothing. */
  lemma UnpackOfPack(c: seq<bv32>)
    requires |c| % 8 == 0 && forall p :: 0 <= p < |c| ==> c[p] <= 15
    ensures forall p :: 0 <= p < |c| ==> Nibble(Pack(c)[p / 8], p % 8) == c[p]
  {
    forall p | 0 <= p < |c|
      ensures Nibble(Pack(c)[p / 8], p % 8) == c[p]
    {
      var w := p / 8;
      var word := c[8 * w..8 * w + 8];
      NibbleOfPackWord(word, p % 8);
      assert word[p % 8] == c[p];
    }
  }

  /** `minmax_element`: the least and the greatest element. */
  function MinMax(s: seq<nat>): (r: (nat, nat))
    requires |s| > 0
    ensures r.0 in s && r.1 in s
    ensures forall i :: 0 <= i < |s| ==> r.0 <= s[i] <= r.1
  {
    if |s| == 1 then (s[0], s[0])
    else
      var m := MinMax(s[1..]);
      var lo := if s[0] < m.0 then s[0] else m.0;
      var hi := if s[0] > m.1 then s[0] else m.1;
      assert forall i :: 1 <= i < |s| ==> s[i] == s[1..][i - 1];
      (lo, hi)
  }

  function Min(a: int, b: int): int
  {
    if a < b then a else b
  }

  /** How many counters equal `v`. */
  function Occurrences(s: seq<nat>, v: int): nat
  {
    if s == [] then 0
    else Occurrences(s[..|s| - 1], v) + (if s[|s| - 1] == v then 1 else 0)
  }

  function Sum(s: seq<nat>): nat
  {
    if s == [] then 0 else Sum(s[..|s| - 1]) + s[|s| - 1]
  }

  lemma OccurrencesSnoc(s: seq<nat>, x: nat, v: int)
    ensures Occurrences(s + [x], v) == Occurrences(s, v) + (if x == v then 1 else 0)
  {
    assert (s + [x])[..|s|] == s;
  }

  lemma SumSnoc(s: seq<nat>, x: nat)
    ensures Sum(s + [x]) == Sum(s) + x
  {
    assert (s + [x])[..|s|] == s;
  }

  /** Incrementing one entry increments the total by one. */
  lemma {:induction false} SumIncrement(s: seq<nat>, c: nat)
    requires c < |s|
    ensures Sum(s[c := s[c] + 1]) == Sum(s) + 1
  {
    var t := s[c := s[c] + 1];
    if c < |s| - 1 {
      SumIncrement(s[..|s| - 1], c);
      assert t[..|t| - 1] == s[..|s| - 1][c := s[c] + 1];
    } else {
      assert t[..|t| - 1] == s[..|s| - 1];
    }
  }

  lemma {:induction false} SumZeros(n: nat)
    ensures Sum(seq(n, _ => 0)) == 0
  {
    if n > 0 {
      SumZeros(n - 1);
      assert seq(n, _ => 0)[..n - 1] == seq(n - 1, _ => 0);
    }
  }

  /** A sum of counters that are at most `bound` each is at most `bound` times their number. */
  lemma {:induction false} SumBounded(s: seq<nat>, bound: nat)
    requires forall p :: 0 <= p < |s| ==> s[p] <= bound
    ensures Sum(s) <= bound * |s|
  {
    if s != [] {
      SumBounded(s[..|s| - 1], bound);
    }
  }

  /**
   * `print_collision_histogram(counts, buckets)`: `hist` has
   * min(16, buckets) entries, entry v is the number of counters equal to
   * v, the entries add up to the number of counters, and `total` is the sum
   * of the counters. The source indexes `hist[count]` unchecked, so every
   * counter must be below min(16, buckets).
   */
  method CollisionHistogram(counts: seq<nat>, buckets: nat) returns (hist: seq<nat>, total: int)
    requires forall p :: 0 <= p < |counts| ==> counts[p] < Min(16, buckets)
    ensures |hist| == Min(16, buckets)
    ensures forall v :: 0 <= v < |hist| ==> hist[v] == Occurrences(counts, v)
    ensures Sum(hist) == |counts|
    ensures total == Sum(counts)
  {
    var histcount := Min(16, buckets);
    hist := seq(histcount, _ => 0);
    SumZeros(histcount);
    total := 0;
    for i := 0 to |counts|
      invariant |hist| == histcount
      invariant forall v :: 0 <= v < histcount ==> hist[v] == Occurrences(counts[..i], v)
      invariant Sum(hist) == i
      invariant total == Sum(counts[..i])
    {
      var count := counts[i];
      assert counts[..i + 1] == counts[..i] + [counts[i]];
      forall v | 0 <= v < histcount
        ensures Occurrences(counts[..i + 1], v) == Occurrences(counts[..i], v) + (if count == v then 1 else 0)
      {
        OccurrencesSnoc(counts[..i], counts[i], v);
      }
      SumSnoc(counts[..i], counts[i]);
      SumIncrement(hist, count);
      hist := hist[count := hist[count] + 1];
      total := total + count;
    }
    assert counts[..|counts|] == counts;
  }

  /**
   * `print_stats` without its printing: unpack the words, take the least
   * and greatest counter and tally them with `buckets = max + 2`. Because
   * no counter exceeds 15, min(16, max + 2) is above every counter, so the
   * tally never indexes outside `hist`.
   */
  method Stats(compressed: seq<bv32>) returns (counts: seq<nat>, least: nat, most: nat, hist: seq<nat>, total: int)
    requires |compressed| > 0
    ensures |counts| == Sizing.CountersPerWord * |compressed|
    ensures forall p :: 0 <= p < |counts| ==> counts[p] == Nibble(compressed[p / 8], p % 8) as int
    ensures least in counts && most in counts && most <= 15
    ensures forall p :: 0 <= p < |counts| ==> least <= counts[p] <= most
    ensures |hist| == Min(16, most + 2) && most < |hist|
    ensures forall v :: 0 <= v < |hist| ==> hist[v] == Occurrences(counts, v)
    ensures Sum(hist) == |counts|
    ensures total == Sum(counts) <= 15 * |counts|
  {
    counts := UnpackCounts(compressed);
    SumBounded(counts, 15);
    var mm := MinMax(counts);
    least, most := mm.0, mm.1;
    hist, total := CollisionHistogram(counts, most + 2);
  }

  /**
   * With the default sizing, the words of one bucket-count buffer unpack to
   * exactly one counter per bucket.
   */
  lemma CountersMatchBuckets(compressed: seq<bv32>)
    requires |compressed| == Sizing.BucketCountWords(Sizing.N, Sizing.K)
    ensures Sizing.CountersPerWord * |compressed| == Sizing.NumBuckets(Sizing.N, Sizing.K)
  {
    Sizing.DefaultSizes();
  }

  /**
   * The `int total` of `print_collision_histogram` cannot overflow for the
   * default sizes: 2^20 counters of at most 15 each stay below 2^31.
   */
  lemma TotalFitsInt(counts: seq<nat>)
    requires |counts| == Sizing.NumBuckets(Sizing.N, Sizing.K)
    requires forall p :: 0 <= p < |counts| ==> counts[p] <= 15
    ensures Sum(counts) < 0x8000_0000
  {
    Sizing.DefaultSizes();
    SumBounded(counts, 15);
  }
}
