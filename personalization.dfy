/**
 * `zcashPerson`: the 16-byte BLAKE2b personalization of Equihash as Zcash
 * uses it (section 7.6.1 of the Zcash Protocol Specification): the ASCII
 * text "ZcashPoW" followed by n and k as little-endian 32-bit words.
 */
module Personalization {
  import opened Bytes

  /** BLAKE2B_PERSONALBYTES: the size of the personalization field. */
  const PersonalBytes: nat := 16

  /** The bytes of an ASCII string, as `memcpy` copies them (without a terminator). */
  function Ascii(s: string): (r: seq<byte>)
    requires forall i :: 0 <= i < |s| ==> s[i] as int < 0x80
    ensures |r| == |s|
    ensures forall i :: 0 <= i < |s| ==> r[i] as int == s[i] as int
  {
    seq(|s|, i requires 0 <= i < |s| => s[i] as int as byte)
  }

  const PowTag: string := "ZcashPoW"

  /** The personalization `zcashPerson` writes for parameters `n` and `k`. */
  function Personal(n: int32, k: int32): (r: seq<byte>)
  {
    Ascii(PowTag) + Le32(ToUint32(n)) + Le32(ToUint32(k))
  }

  /**
   * The layout of the personalization: the tag in bytes 0-7, n in bytes
   * 8-11 and k in bytes 12-15, each parameter as a little-endian word.
   */
  lemma PersonalLayout(n: int32, k: int32)
    ensures |Personal(n, k)| == PersonalBytes
    ensures Personal(n, k)[..8] == Ascii(PowTag)
    ensures Le32Value(Personal(n, k)[8..12]) == ToUint32(n)
    ensures Le32Value(Personal(n, k)[12..16]) == ToUint32(k)
    ensures 0 <= n && 0 <= k ==>
      Le32Value(Personal(n, k)[8..12]) as int == n as int && Le32Value(Personal(n, k)[12..16]) as int == k as int
  {
    var p := Personal(n, k);
    assert p[8..12] == Le32(ToUint32(n));
    assert p[12..16] == Le32(ToUint32(k));
    Le32RoundTrip(ToUint32(n));
    Le32RoundTrip(ToUint32(k));
  }

  /** Distinct parameter pairs get distinct personalizations, so their digests are domain-separated. */
  lemma PersonalInjective(n: int32, k: int32, n': int32, k': int32)
    requires Personal(n, k) == Personal(n', k')
    ensures n == n' && k == k'
  {
    PersonalLayout(n, k);
    PersonalLayout(n', k');
  }

  /** The `*(uint32_t *)(p + off) = htole32(x)` store: four bytes at `off`, nothing else. */
  method StoreLe32(p: array<byte>, off: nat, x: uint32)
    requires off + 4 <= p.Length
    modifies p
    ensures p[off..off + 4] == Le32(x)
    ensures forall i :: 0 <= i < p.Length && !(off <= i < off + 4) ==> p[i] == old(p[i])
  {
    var b := Le32(x);
    p[off] := b[0];
    p[off + 1] := b[1];
    p[off + 2] := b[2];
    p[off + 3] := b[3];
  }

  /**
   * `zcashPerson(person, n, k)`: bytes 0-15 of `person` become
   * `Personal(n, k)`; no other byte changes.
   */
  method ZcashPerson(person: array<byte>, n: int32, k: int32)
    requires PersonalBytes <= person.Length
    modifies person
    ensures person[..PersonalBytes] == Personal(n, k)
    ensures person[PersonalBytes..] == old(person[PersonalBytes..])
  {
    var tag := Ascii(PowTag);
    for i := 0 to 8
      invariant person[..i] == tag[..i]
      invariant person[8..] == old(person[8..])
    {
      person[i] := tag[i];
      assert person[..i + 1] == person[..i] + [tag[i]];
    }
    StoreLe32(person, 8, ToUint32(n));
    StoreLe32(person, 12, ToUint32(k));
    assert person[..PersonalBytes] == person[..8] + person[8..12] + person[12..16];
  }
}
