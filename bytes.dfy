/**
 * Machine integers of the host program: bytes, the C `int` and `uint32_t`,
 * and the little-endian 32-bit store that `htole32` followed by a
 * `uint32_t` write performs.
 */
module Bytes {

  newtype byte = x: int | 0 <= x < 0x100

  /** The C `int` of the host (two's complement, 32 bits). */
  newtype int32 = x: int | -0x8000_0000 <= x < 0x8000_0000

  newtype uint32 = x: int | 0 <= x < 0x1_0000_0000

  /** The implicit conversion of an `int` to `uint32_t`: reduction modulo 2^32. */
  function ToUint32(x: int32): (r: uint32)
    ensures r as int % 0x1_0000_0000 == (x as int) % 0x1_0000_0000
    ensures 0 <= x ==> r as int == x as int
    ensures x < 0 ==> r as int == x as int + 0x1_0000_0000
  {
    if x < 0 then (x as int + 0x1_0000_0000) as uint32 else x as int as uint32
  }

  /** The four bytes, least significant first, that a little-endian store of `x` writes. */
  function Le32(x: uint32): (r: seq<byte>)
    ensures |r| == 4
  {
    [(x % 0x100) as int as byte, (x / 0x100 % 0x100) as int as byte,
     (x / 0x1_0000 % 0x100) as int as byte, (x / 0x100_0000) as int as byte]
  }

  /** Reads four bytes back as a little-endian word: byte i weighs 256^i. */
  function Le32Value(b: seq<byte>): (r: uint32)
    requires |b| == 4
  {
    (b[0] as int + 0x100 * b[1] as int + 0x1_0000 * b[2] as int + 0x100_0000 * b[3] as int) as uint32
  }

  /** Reading back what a little-endian store wrote gives the stored word. */
  lemma Le32RoundTrip(x: uint32)
    ensures Le32Value(Le32(x)) == x
  {
  }

  lemma DigitStep(q: int, r: int)
    requires 0 <= r < 0x100
    ensures (0x100 * q + r) % 0x100 == r && (0x100 * q + r) / 0x100 == q
  {
  }

  /** The four bytes are determined by the word they spell, so the store loses nothing. */
  lemma Le32Injective(b: seq<byte>)
    requires |b| == 4
    ensures Le32(Le32Value(b)) == b
  {
    var b0, b1, b2, b3 := b[0] as int, b[1] as int, b[2] as int, b[3] as int;
    var x := Le32Value(b) as int;
    assert x == 0x100 * (0x100 * (0x100 * b3 + b2) + b1) + b0;
    DigitStep(0x100 * (0x100 * b3 + b2) + b1, b0);
    DigitStep(0x100 * b3 + b2, b1);
    DigitStep(b3, b2);
    assert x / 0x1_0000 == (x / 0x100) / 0x100;
    assert x / 0x100_0000 == ((x / 0x100) / 0x100) / 0x100;
  }
}
