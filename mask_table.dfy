/**
 * The constant `masks` / `mask_shifts` tables of `main`. A digest is a
 * `cl_ulong4`; its bits are read from bit 63 of word 0 downwards and then
 * on into word 1, so digest bit p (p = 0 is the first bit) is bit 63 - p % 64
 * of word p / 64. Row i of `masks` selects the i-th 20-bit collision window,
 * digest bits [20i, 20i + 20), and row i of `mask_shifts` moves that window
 * into the low 20 bits, the range of a bucket index.
 */
module MaskTable {
  import Sizing

  /** `cl_ulong4`: four 64-bit words. */
  datatype Ulong4 = Ulong4(s0: bv64, s1: bv64, s2: bv64, s3: bv64)

  /** `cl_int4`: four signed shift amounts. */
  datatype Int4 = Int4(s0: int, s1: int, s2: int, s3: int)

  /** Bits per collision window, n / (k + 1) for (n, k) = (200, 9). */
  const WindowWidth: nat := 20

  const Masks: seq<Ulong4> := [
    Ulong4(0xfffff00000000000, 0, 0, 0),
    Ulong4(0x00000fffff000000, 0, 0, 0),
    Ulong4(0x0000000000fffff0, 0, 0, 0),
    Ulong4(0x000000000000000f, 0xffff000000000000, 0, 0),
    Ulong4(0, 0x0000fffff0000000, 0, 0),
    Ulong4(0, 0x000000000fffff00, 0, 0)
  ]

  const MaskShifts: seq<Int4> := [
    Int4(0, 0, 0, 0),
    Int4(24, 0, 0, 0),
    Int4(4, 0, 0, 0),
    Int4(-16, 64 - 16, 0, 0),
    Int4(0, 64 - 36, 0, 0),
    Int4(0, 64 - 56, 0, 0)
  ]

  /** Bit b of a word counted from its most significant end (b = 0 is bit 63). */
  predicate WordBit(w: bv64, b: nat)
    requires b < 64
  {
    (w >> (63 - b)) & 1 == 1
  }

  /** Digest bit p: word p / 64, read from its most significant bit. */
  predicate Bit(m: Ulong4, p: nat)
    requires p < 256
  {
    if p < 64 then WordBit(m.s0, p)
    else if p < 128 then WordBit(m.s1, p - 64)
    else if p < 192 then WordBit(m.s2, p - 128)
    else WordBit(m.s3, p - 192)
  }

  /** The digest bit positions a mask selects. */
  function SetBits(m: Ulong4): set<nat>
  {
    set p: nat | p < 256 && Bit(m, p)
  }

  /** The positions lo..hi-1. */
  function Interval(lo: nat, hi: nat): (r: set<nat>)
    ensures forall p: nat :: p in r <==> lo <= p < hi
    ensures lo <= hi ==> |r| == hi - lo
    decreases hi
  {
    if hi <= lo then {} else Interval(lo, hi - 1) + {hi - 1}
  }

  lemma Row0Bits()
    ensures forall b: nat :: b < 64 ==> (WordBit(0xfffff00000000000, b) <==> b < 20)
    ensures forall b: nat :: b < 64 ==> !WordBit(0, b)
  {
  }

  lemma Row1Bits()
    ensures forall b: nat :: b < 64 ==> (WordBit(0x00000fffff000000, b) <==> 20 <= b < 40)
    ensures forall b: nat :: b < 64 ==> !WordBit(0, b)
  {
  }

  lemma Row2Bits()
    ensures forall b: nat :: b < 64 ==> (WordBit(0x0000000000fffff0, b) <==> 40 <= b < 60)
    ensures forall b: nat :: b < 64 ==> !WordBit(0, b)
  {
  }

  lemma Row3Bits()
    ensures forall b: nat :: b < 64 ==> (WordBit(0x000000000000000f, b) <==> 60 <= b)
    ensures forall b: nat :: b < 64 ==> (WordBit(0xffff000000000000, b) <==> b < 16)
  {
  }

  lemma Row4Bits()
    ensures forall b: nat :: b < 64 ==> !WordBit(0, b)
    ensures forall b: nat :: b < 64 ==> (WordBit(0x0000fffff0000000, b) <==> 16 <= b < 36)
  {
  }

  lemma Row5Bits()
    ensures forall b: nat :: b < 64 ==> !WordBit(0, b)
    ensures forall b: nat :: b < 64 ==> (WordBit(0x000000000fffff00, b) <==> 36 <= b < 56)
  {
  }

  /** The window of row i as a run of set bits within each word. */
  lemma RowWords(i: nat)
    requires i < |Masks|
    ensures forall b: nat :: b < 64 ==> (WordBit(Masks[i].s0, b) <==> 20 * i <= b < 20 * i + 20)
    ensures forall b: nat :: b < 64 ==> (WordBit(Masks[i].s1, b) <==> 20 * i <= b + 64 < 20 * i + 20)
    ensures Masks[i].s2 == 0 && Masks[i].s3 == 0
  {
    if i == 0 {
      Row0Bits();
    } else if i == 1 {
      Row1Bits();
    } else if i == 2 {
      Row2Bits();
    } else if i == 3 {
      Row3Bits();
    } else if i == 4 {
      Row4Bits();
    } else {
      Row5Bits();
    }
  }

  /** Row i of `masks` selects exactly digest bits [20i, 20i + 20). */
  lemma MaskIsWindow(i: nat)
    requires i < |Masks|
    ensures SetBits(Masks[i]) == Interval(WindowWidth * i, WindowWidth * i + WindowWidth)
  {
    RowWords(i);
    var m := Masks[i];
    forall p: nat | p < 256
      ensures Bit(m, p) <==> 20 * i <= p < 20 * i + 20
    {
      if p < 64 {
      } else if p < 128 {
      } else if p < 192 {
        assert !WordBit(m.s2, p - 128);
      } else {
        assert !WordBit(m.s3, p - 192);
      }
    }
  }

  /** Every row of `masks` has exactly 20 set bits. */
  lemma MaskPopCount(i: nat)
    requires i < |Masks|
    ensures |SetBits(Masks[i])| == WindowWidth
  {
    MaskIsWindow(i);
  }

  /**
   * The rows are adjacent, disjoint windows: digest bit p < 120 lies in
   * row p / 20 and in no other, and no row selects a bit at or past 120.
   */
  lemma MasksPartition()
    ensures forall p: nat :: p < WindowWidth * |Masks| ==> p in SetBits(Masks[p / WindowWidth])
    ensures forall i: nat, p: nat :: i < |Masks| && p in SetBits(Masks[i]) ==> i == p / WindowWidth
    ensures forall i: nat, j: nat :: i < j < |Masks| ==> SetBits(Masks[i]) * SetBits(Masks[j]) == {}
  {
    forall i: nat | i < |Masks| {
      MaskIsWindow(i);
    }
  }

  /**
   * Row 3 is the window that straddles the word boundary: its low 4 bits of
   * word 0 are digest bits 60..63 and its top 16 bits of word 1 are digest
   * bits 64..79.
   */
  lemma Mask3Straddles()
    ensures Masks[3].s0 == 0xf && Masks[3].s1 == 0xffff000000000000
    ensures forall p: nat :: p in SetBits(Masks[3]) && p < 64 <==> 60 <= p < 64
    ensures forall p: nat :: p in SetBits(Masks[3]) && 64 <= p <==> 64 <= p < 80
  {
    MaskIsWindow(3);
    assert forall p: nat :: p in SetBits(Masks[3]) <==> 60 <= p < 80;
  }

  /**
   * How the round kernel applies a (mask, shift) pair to a digest: each
   * word is masked and shifted right by its shift entry, a negative entry
   * meaning a left shift, and the fragments are OR-ed together.
   */
  function Fragment(x: bv64, shift: int): bv64
    requires -64 <= shift <= 64
  {
    if shift >= 0 then x >> shift else x << -shift
  }

  predicate ShiftsInRange(sh: Int4)
  {
    && -64 <= sh.s0 <= 64 && -64 <= sh.s1 <= 64
    && -64 <= sh.s2 <= 64 && -64 <= sh.s3 <= 64
  }

  function ExtractBucket(d: Ulong4, m: Ulong4, sh: Int4): bv64
    requires ShiftsInRange(sh)
  {
    Fragment(d.s0 & m.s0, sh.s0) | Fragment(d.s1 & m.s1, sh.s1)
    | Fragment(d.s2 & m.s2, sh.s2) | Fragment(d.s3 & m.s3, sh.s3)
  }

  /** The first 128 digest bits as one number, word 0 most significant. */
  function Top128(w0: bv64, w1: bv64): bv128
  {
    ((w0 as bv128) << 64) | (w1 as bv128)
  }

  /**
   * Window i of a digest, i.e. digest bits [20i, 20i + 20), as a 20-bit
   * number whose most significant bit is the window's first bit.
   */
  function WindowValue(d: Ulong4, i: bv8): (r: bv64)
    requires i as int < |Masks|
  {
    ((Top128(d.s0, d.s1) >> (108 - 20 * (i as bv128))) & 0xfffff) as bv64
  }

  lemma Window1(w0: bv64, w1: bv64)
    ensures (w0 & 0x00000fffff000000) >> 24 == ((Top128(w0, w1) >> 88) & 0xfffff) as bv64
  {
  }

  lemma Row1Fragments(d: Ulong4)
    ensures ExtractBucket(d, Masks[1], MaskShifts[1]) == (d.s0 & 0x00000fffff000000) >> 24
  {
    assert Masks[1] == Ulong4(0x00000fffff000000, 0, 0, 0);
    assert MaskShifts[1] == Int4(24, 0, 0, 0);
  }

  lemma ExtractRow1(d: Ulong4)
    ensures ExtractBucket(d, Masks[1], MaskShifts[1]) == WindowValue(d, 1)
  {
    Row1Fragments(d);
    Window1(d.s0, d.s1);
  }

  lemma Window2(w0: bv64, w1: bv64)
    ensures (w0 & 0x0000000000fffff0) >> 4 == ((Top128(w0, w1) >> 68) & 0xfffff) as bv64
  {
  }

  lemma Row2Fragments(d: Ulong4)
    ensures ExtractBucket(d, Masks[2], MaskShifts[2]) == (d.s0 & 0x0000000000fffff0) >> 4
  {
    assert Masks[2] == Ulong4(0x0000000000fffff0, 0, 0, 0);
    assert MaskShifts[2] == Int4(4, 0, 0, 0);
  }

  lemma ExtractRow2(d: Ulong4)
    ensures ExtractBucket(d, Masks[2], MaskShifts[2]) == WindowValue(d, 2)
  {
    Row2Fragments(d);
    Window2(d.s0, d.s1);
  }

  lemma Window3(w0: bv64, w1: bv64)
    ensures ((w0 & 0xf) << 16) | ((w1 & 0xffff000000000000) >> 48) == ((Top128(w0, w1) >> 48) & 0xfffff) as bv64
  {
  }

  lemma Row3Fragments(d: Ulong4)
    ensures ExtractBucket(d, Masks[3], MaskShifts[3]) == ((d.s0 & 0xf) << 16) | ((d.s1 & 0xffff000000000000) >> 48)
  {
    assert Masks[3] == Ulong4(0x000000000000000f, 0xffff000000000000, 0, 0);
    assert MaskShifts[3] == Int4(-16, 48, 0, 0);
  }

  lemma ExtractRow3(d: Ulong4)
    ensures ExtractBucket(d, Masks[3], MaskShifts[3]) == WindowValue(d, 3)
  {
    Row3Fragments(d);
    Window3(d.s0, d.s1);
  }

  lemma Window4(w0: bv64, w1: bv64)
    ensures (w1 & 0x0000fffff0000000) >> 28 == ((Top128(w0, w1) >> 28) & 0xfffff) as bv64
  {
  }

  lemma Row4Fragments(d: Ulong4)
    ensures ExtractBucket(d, Masks[4], MaskShifts[4]) == (d.s1 & 0x0000fffff0000000) >> 28
  {
    assert Masks[4] == Ulong4(0, 0x0000fffff0000000, 0, 0);
    assert MaskShifts[4] == Int4(0, 28, 0, 0);
  }

  lemma ExtractRow4(d: Ulong4)
    ensures ExtractBucket(d, Masks[4], MaskShifts[4]) == WindowValue(d, 4)
  {
    Row4Fragments(d);
    Window4(d.s0, d.s1);
  }

  lemma Window5(w0: bv64, w1: bv64)
    ensures (w1 & 0x000000000fffff00) >> 8 == ((Top128(w0, w1) >> 8) & 0xfffff) as bv64
  {
  }

  lemma Row5Fragments(d: Ulong4)
    ensures ExtractBucket(d, Masks[5], MaskShifts[5]) == (d.s1 & 0x000000000fffff00) >> 8
  {
    assert Masks[5] == Ulong4(0, 0x000000000fffff00, 0, 0);
    assert MaskShifts[5] == Int4(0, 8, 0, 0);
  }

  lemma ExtractRow5(d: Ulong4)
    ensures ExtractBucket(d, Masks[5], MaskShifts[5]) == WindowValue(d, 5)
  {
    Row5Fragments(d);
    Window5(d.s0, d.s1);
  }

  /**
   * Rows 1 to 5, the rows the round loop passes as `mask` / `mask_shift`,
   * turn any digest into the value of its window: a bucket index below
   * num_buckets = 2^20.
   */
  lemma ExtractIsWindow(d: Ulong4, i: nat)
    requires 1 <= i < |Masks|
    ensures ShiftsInRange(MaskShifts[i])
    ensures ExtractBucket(d, Masks[i], MaskShifts[i]) == WindowValue(d, i as bv8)
    ensures ExtractBucket(d, Masks[i], MaskShifts[i]) < 0x10_0000
    ensures 0x10_0000 == Sizing.NumBuckets(Sizing.N, Sizing.K)
  {
    Sizing.DefaultSizes();
    if i == 1 {
      ExtractRow1(d);
      assert i as bv8 == 1;
    } else if i == 2 {
      ExtractRow2(d);
      assert i as bv8 == 2;
    } else if i == 3 {
      ExtractRow3(d);
      assert i as bv8 == 3;
    } else if i == 4 {
      ExtractRow4(d);
      assert i as bv8 == 4;
    } else {
      ExtractRow5(d);
      assert i as bv8 == 5;
    }
  }

  /**
   * Row 0 of `mask_shifts` does not normalise its window: an all-ones
   * digest extracts to a value far above 2^20. The round loop never passes
   * it, since round i uses row i + 1.
   */
  lemma Row0NotNormalised()
    ensures ShiftsInRange(MaskShifts[0])
    ensures ExtractBucket(Ulong4(0xffff_ffff_ffff_ffff, 0xffff_ffff_ffff_ffff, 0xffff_ffff_ffff_ffff, 0xffff_ffff_ffff_ffff), Masks[0], MaskShifts[0])
      == 0xfffff00000000000
  {
    assert MaskShifts[0] == Int4(0, 0, 0, 0);
  }
}
