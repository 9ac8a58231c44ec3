/**
 * The block-header codec of the solver's host program: `hex2val` and
 * `parse_header` turn the 280-digit hex text of a 140-byte block header into
 * bytes, rejecting an odd digit count, a wrong length, a non-hex character
 * and a non-zero byte in the last 12 (reserved nonce) bytes. Every `fatal`
 * exit of the program is an `Err` here.
 */
module HeaderCodec {
  import opened Wrappers
  import opened Bytes

  /** ZCASH_BLOCK_HEADER_LEN: the length of a full block header in bytes. */
  const HeaderLen: nat := 140
  /** N_ZERO_BYTES: the trailing header bytes that must be zero. */
  const ZeroBytes: nat := 12

  /** The `fatal` exits of `hex2val` and `parse_header`, and its failing `assert`. */
  datatype HeaderError =
    | InvalidHexChar(offset: nat, c: char)
    | OddDigitCount
    | WrongLength(binLen: nat)
    | BufferTooSmall
    | NonZeroNonceTail

  /** What a successful call leaves: nothing for a null input, else the decoded header. */
  datatype Parsed = NoInput | Header(bytes: seq<byte>)

  predicate IsHexDigit(c: char)
  {
    ('0' <= c <= '9') || ('a' <= c <= 'f') || ('A' <= c <= 'F')
  }

  /** The value of one hex digit, in either case; `None` for any other character. */
  function HexVal(c: char): (r: Option<byte>)
    ensures r.Some? <==> IsHexDigit(c)
    ensures r.Some? ==> r.value < 16
  {
    if '0' <= c <= '9' then Some((c as int - '0' as int) as byte)
    else if 'a' <= c <= 'f' then Some((10 + c as int - 'a' as int) as byte)
    else if 'A' <= c <= 'F' then Some((10 + c as int - 'A' as int) as byte)
    else None
  }

  /** `hex2val(base, off)`: the digit at `off`, or the fatal error naming that offset and character. */
  function Hex2Val(s: string, off: nat): (r: Result<byte, HeaderError>)
    requires off < |s|
    ensures r.Ok? <==> IsHexDigit(s[off])
    ensures r.Ok? ==> r.value < 16 && HexVal(s[off]) == Some(r.value)
    ensures r.Err? ==> r.error == InvalidHexChar(off, s[off])
  {
    match HexVal(s[off])
    case Some(v) => Ok(v)
    case None => Err(InvalidHexChar(off, s[off]))
  }

  /** The lower-case digit of a nibble: the inverse of `HexVal` on `0-9a-f`. */
  function LowerHexDigit(v: byte): (c: char)
    requires v < 16
    ensures IsHexDigit(c) && !('A' <= c <= 'F')
  {
    if v < 10 then ('0' as int + v as int) as char else ('a' as int + v as int - 10) as char
  }

  function ToLower(c: char): char
  {
    if 'A' <= c <= 'Z' then (c as int + 32) as char else c
  }

  function LowerAscii(s: string): (r: string)
    ensures |r| == |s|
    ensures forall i :: 0 <= i < |s| ==> r[i] == ToLower(s[i])
  {
    seq(|s|, i requires 0 <= i < |s| => ToLower(s[i]))
  }

  /** Decoding a lower-case digit gives back its nibble. */
  lemma HexValOfLowerDigit(v: byte)
    requires v < 16
    ensures HexVal(LowerHexDigit(v)) == Some(v)
  {
  }

  /** Re-encoding a decoded digit gives the digit in lower case. */
  lemma LowerDigitOfHexVal(c: char)
    requires IsHexDigit(c)
    ensures LowerHexDigit(HexVal(c).value) == ToLower(c)
  {
  }

  /** The two lower-case digits of one byte, high nibble first. */
  function EncodeByte(b: byte): (r: string)
  {
    [LowerHexDigit(b / 16), LowerHexDigit(b % 16)]
  }

  /** Lower-case hex text of a byte string. */
  function EncodeHex(h: seq<byte>): (r: string)
    ensures |r| == 2 * |h|
  {
    if h == [] then [] else EncodeHex(h[..|h| - 1]) + EncodeByte(h[|h| - 1])
  }

  /** `strlen`: the characters before the first NUL (all of them if there is none). */
  function Strlen(s: string): (n: nat)
    ensures n <= |s|
    ensures forall i :: 0 <= i < n ==> s[i] != '\0'
    ensures n < |s| ==> s[n] == '\0'
  {
    if s == [] || s[0] == '\0' then 0 else 1 + Strlen(s[1..])
  }

  /** The error `fatal` reports for the first bad digit, in loop order, below `limit`. */
  predicate IsFirstBadDigit(s: string, e: HeaderError, limit: nat)
  {
    && e.InvalidHexChar?
    && e.offset < limit && e.offset < |s|
    && e.c == s[e.offset] && !IsHexDigit(e.c)
    && forall j :: 0 <= j < e.offset ==> IsHexDigit(s[j])
  }

  /**
   * The forward loop of `parse_header` over its first `m` bytes: byte i is
   * `16 * val(s[2i]) + val(s[2i+1])`, and the first non-hex digit is fatal.
   */
  function DecodePrefix(s: string, m: nat): (r: Result<seq<byte>, HeaderError>)
    requires 2 * m <= |s|
    ensures r.Ok? <==> forall j :: 0 <= j < 2 * m ==> IsHexDigit(s[j])
    ensures r.Ok? ==> |r.value| == m
    ensures r.Err? ==> IsFirstBadDigit(s, r.error, 2 * m)
  {
    if m == 0 then Ok([])
    else
      match DecodePrefix(s, m - 1)
      case Err(e) => Err(e)
      case Ok(bs) =>
        match Hex2Val(s, 2 * (m - 1))
        case Err(e) => Err(e)
        case Ok(hi) =>
          match Hex2Val(s, 2 * (m - 1) + 1)
          case Err(e) => Err(e)
          case Ok(lo) => Ok(bs + [(hi as int * 16 + lo as int) as byte])
  }

  /** Byte i of a decoded prefix is `16 * val(s[2i]) + val(s[2i+1])`. */
  lemma {:induction false} DecodedByte(s: string, m: nat, i: nat)
    requires 2 * m <= |s| && i < m
    requires DecodePrefix(s, m).Ok?
    ensures DecodePrefix(s, m).value[i] as int
      == 16 * HexVal(s[2 * i]).value as int + HexVal(s[2 * i + 1]).value as int
  {
    var prev := DecodePrefix(s, m - 1).value;
    assert DecodePrefix(s, m).value == prev + [DecodePrefix(s, m).value[m - 1]];
    if i < m - 1 {
      DecodedByte(s, m - 1, i);
    }
  }

  /** The backward scan's condition: the last `ZeroBytes` bytes are zero. */
  predicate NonceTailZero(h: seq<byte>)
    requires ZeroBytes <= |h|
  {
    forall i :: |h| - ZeroBytes <= i < |h| ==> h[i] == 0
  }

  /**
   * What `parse_header(h, hLen, hex)` does, as a value: `hex` is `None` for a
   * null pointer, else the characters the pointer addresses.
   */
  function ParseHeaderSpec(hex: Option<string>, hLen: nat): (r: Result<Parsed, HeaderError>)
    ensures r.Ok? && r.value.Header? ==> |r.value.bytes| == HeaderLen && NonceTailZero(r.value.bytes)
  {
    if hex.None? then Ok(NoInput)
    else
      var hexLen := Strlen(hex.value);
      var binLen := hexLen / 2;
      if hexLen % 2 != 0 then Err(OddDigitCount)
      else if binLen != HeaderLen then Err(WrongLength(binLen))
      else if hLen < binLen then Err(BufferTooSmall)
      else
        match DecodePrefix(hex.value, binLen)
        case Err(e) => Err(e)
        case Ok(h) => if NonceTailZero(h) then Ok(Header(h)) else Err(NonZeroNonceTail)
  }

  /** Once a prefix fails to decode, every longer prefix fails with the same error. */
  lemma {:induction false} DecodeErrorPersists(s: string, m: nat, m': nat)
    requires m <= m' && 2 * m' <= |s|
    requires DecodePrefix(s, m).Err?
    ensures DecodePrefix(s, m') == DecodePrefix(s, m)
    decreases m' - m
  {
    if m < m' {
      DecodeErrorPersists(s, m, m' - 1);
    }
  }

  /** Digit positions of the encoding: byte i sits at 2i (high nibble) and 2i+1 (low nibble). */
  lemma {:induction false} EncodeHexAt(h: seq<byte>, i: nat)
    requires i < |h|
    ensures EncodeHex(h)[2 * i] == LowerHexDigit(h[i] / 16)
    ensures EncodeHex(h)[2 * i + 1] == LowerHexDigit(h[i] % 16)
  {
    if i < |h| - 1 {
      EncodeHexAt(h[..|h| - 1], i);
    }
  }

  lemma {:induction false} StrlenWithoutNul(s: string)
    requires forall i :: 0 <= i < |s| ==> s[i] != '\0'
    ensures Strlen(s) == |s|
  {
    if s != [] {
      StrlenWithoutNul(s[1..]);
    }
  }

  /** Decoding the lower-case encoding of `h` gives `h` back, prefix by prefix. */
  lemma {:induction false} DecodeOfEncode(h: seq<byte>, m: nat)
    requires m <= |h|
    ensures DecodePrefix(EncodeHex(h), m) == Ok(h[..m])
  {
    if m > 0 {
      DecodeOfEncode(h, m - 1);
      var s := EncodeHex(h);
      var b := h[m - 1];
      EncodeHexAt(h, m - 1);
      HexValOfLowerDigit(b / 16);
      HexValOfLowerDigit(b % 16);
      assert h[..m] == h[..m - 1] + [b];
    }
  }

  lemma SplitNibbles(b: byte, hi: byte, lo: byte)
    requires hi < 16 && lo < 16 && b as int == 16 * hi as int + lo as int
    ensures b / 16 == hi && b % 16 == lo
  {
  }

  lemma LowerAsciiSnoc2(s: string, n: nat)
    requires 2 <= n <= |s|
    ensures LowerAscii(s[..n]) == LowerAscii(s[..n - 2]) + [ToLower(s[n - 2]), ToLower(s[n - 1])]
  {
  }

  /** Encoding what a prefix decoded to gives the lower-cased prefix text. */
  lemma {:induction false} EncodeOfDecode(s: string, m: nat)
    requires 2 * m <= |s|
    requires DecodePrefix(s, m).Ok?
    ensures EncodeHex(DecodePrefix(s, m).value) == LowerAscii(s[..2 * m])
  {
    if m > 0 {
      var bs := DecodePrefix(s, m).value;
      var prev := DecodePrefix(s, m - 1).value;
      var i := m - 1;
      assert EncodeHex(prev) == LowerAscii(s[..2 * i]) by { EncodeOfDecode(s, i); }
      var b := bs[i];
      assert EncodeByte(b) == [ToLower(s[2 * i]), ToLower(s[2 * i + 1])] by {
        var hi, lo := HexVal(s[2 * i]).value, HexVal(s[2 * i + 1]).value;
        assert b as int == 16 * hi as int + lo as int by { assert bs == prev + [b]; }
        SplitNibbles(b, hi, lo);
        LowerDigitOfHexVal(s[2 * i]);
        LowerDigitOfHexVal(s[2 * i + 1]);
      }
      assert EncodeHex(bs) == EncodeHex(prev) + EncodeByte(b) by {
        assert bs == prev + [b];
        assert bs[..i] == prev;
      }
      LowerAsciiSnoc2(s, 2 * m);
    }
  }

  /**
   * Every 140-byte header with a zero nonce tail is accepted in its
   * lower-case hex text, and that text parses back to it.
   */
  lemma ParseHeaderAcceptsEncoding(h: seq<byte>, hLen: nat)
    requires |h| == HeaderLen && NonceTailZero(h) && HeaderLen <= hLen
    ensures ParseHeaderSpec(Some(EncodeHex(h)), hLen) == Ok(Header(h))
  {
    var s := EncodeHex(h);
    forall i | 0 <= i < |s|
      ensures s[i] != '\0'
    {
      EncodeHexAt(h, i / 2);
    }
    StrlenWithoutNul(s);
    DecodeOfEncode(h, HeaderLen);
    assert h[..HeaderLen] == h;
  }

  /**
   * What every outcome of `parse_header` means: the length errors come
   * first in this order, and an accepted header is 140 bytes with a zero
   * nonce tail whose lower-case hex text is the lower-cased input.
   */
  lemma ParseHeaderOutcomes(s: string, hLen: nat)
    ensures Strlen(s) % 2 != 0 ==> ParseHeaderSpec(Some(s), hLen) == Err(OddDigitCount)
    ensures Strlen(s) % 2 == 0 && Strlen(s) != 2 * HeaderLen ==>
      ParseHeaderSpec(Some(s), hLen) == Err(WrongLength(Strlen(s) / 2))
    ensures Strlen(s) == 2 * HeaderLen && hLen < HeaderLen ==>
      ParseHeaderSpec(Some(s), hLen) == Err(BufferTooSmall)
    ensures ParseHeaderSpec(Some(s), hLen).Err? && ParseHeaderSpec(Some(s), hLen).error.InvalidHexChar? ==>
      IsFirstBadDigit(s, ParseHeaderSpec(Some(s), hLen).error, 2 * HeaderLen)
    ensures ParseHeaderSpec(Some(s), hLen).Ok? ==>
      var p := ParseHeaderSpec(Some(s), hLen).value;
      && p.Header? && |p.bytes| == HeaderLen && NonceTailZero(p.bytes)
      && EncodeHex(p.bytes) == LowerAscii(s[..2 * HeaderLen])
  {
    if ParseHeaderSpec(Some(s), hLen).Ok? {
      EncodeOfDecode(s, HeaderLen);
    }
  }

  /**
   * For a 280-digit input of hex digits in any case, with room for the
   * header, `parse_header` succeeds exactly when the decoded bytes
   * 128..139 are zero, and otherwise fails on the nonce tail.
   */
  lemma ParseHeaderWellFormed(s: string, hLen: nat)
    requires Strlen(s) == 2 * HeaderLen && HeaderLen <= hLen
    requires forall j :: 0 <= j < 2 * HeaderLen ==> IsHexDigit(s[j])
    ensures DecodePrefix(s, HeaderLen).Ok?
    ensures ParseHeaderSpec(Some(s), hLen).Ok? <==> NonceTailZero(DecodePrefix(s, HeaderLen).value)
    ensures ParseHeaderSpec(Some(s), hLen).Ok? ==> ParseHeaderSpec(Some(s), hLen) == Ok(Header(DecodePrefix(s, HeaderLen).value))
    ensures ParseHeaderSpec(Some(s), hLen).Err? ==> ParseHeaderSpec(Some(s), hLen).error == NonZeroNonceTail
  {
  }

  /**
   * A non-hex character among the first 280 of a 280-character input is
   * fatal: `parse_header` fails on the first such character.
   */
  lemma ParseHeaderRejectsBadDigit(s: string, hLen: nat, j: nat)
    requires Strlen(s) == 2 * HeaderLen && HeaderLen <= hLen
    requires j < 2 * HeaderLen && !IsHexDigit(s[j])
    ensures ParseHeaderSpec(Some(s), hLen).Err?
    ensures ParseHeaderSpec(Some(s), hLen).error.InvalidHexChar?
    ensures IsFirstBadDigit(s, ParseHeaderSpec(Some(s), hLen).error, 2 * HeaderLen)
    ensures ParseHeaderSpec(Some(s), hLen).error.offset <= j
  {
  }

  /**
   * The backward `--i` scan of `parse_header`: it looks at indices
   * binLen-1 down to binLen-12 and at no others, and fails on a non-zero one.
   */
  method CheckNonceTail(h: array<byte>, binLen: nat) returns (ok: bool)
    requires ZeroBytes <= binLen <= h.Length
    ensures ok <==> forall j :: binLen - ZeroBytes <= j < binLen ==> h[j] == 0
  {
    var i: int := binLen - 1;
    while i >= binLen - ZeroBytes
      invariant binLen - ZeroBytes - 1 <= i < binLen
      invariant forall j :: i < j < binLen ==> h[j] == 0
      decreases i + 1
    {
      if h[i] != 0 {
        return false;
      }
      i := i - 1;
    }
    return true;
  }

  /** One more iteration of the forward loop, from a prefix that decoded to `bs`. */
  lemma DecodeStep(s: string, i: nat, bs: seq<byte>)
    requires 2 * (i + 1) <= |s| && DecodePrefix(s, i) == Ok(bs)
    ensures Hex2Val(s, 2 * i).Err? ==> DecodePrefix(s, i + 1) == Err(Hex2Val(s, 2 * i).error)
    ensures Hex2Val(s, 2 * i).Ok? && Hex2Val(s, 2 * i + 1).Err? ==>
      DecodePrefix(s, i + 1) == Err(Hex2Val(s, 2 * i + 1).error)
    ensures Hex2Val(s, 2 * i).Ok? && Hex2Val(s, 2 * i + 1).Ok? ==>
      DecodePrefix(s, i + 1)
      == Ok(bs + [(Hex2Val(s, 2 * i).value as int * 16 + Hex2Val(s, 2 * i + 1).value as int) as byte])
  {
  }

  /**
   * The forward loop of `parse_header`: writes `h[i]` for i = 0, 1, ... up
   * to `binLen` from the digit pair at 2i, stopping at the first bad digit.
   */
  method DecodeInto(h: array<byte>, s: string, binLen: nat) returns (err: Option<HeaderError>)
    requires 2 * binLen <= |s| && binLen <= h.Length
    modifies h
    ensures err.None? <==> DecodePrefix(s, binLen).Ok?
    ensures err.Some? ==> DecodePrefix(s, binLen) == Err(err.value)
    ensures err.None? ==> h[..binLen] == DecodePrefix(s, binLen).value
    ensures h[binLen..] == old(h[binLen..])
  {
    var i := 0;
    err := None;
    while i < binLen && err.None?
      invariant 0 <= i <= binLen
      invariant err.None? ==> DecodePrefix(s, i) == Ok(h[..i])
      invariant err.Some? ==> DecodePrefix(s, binLen) == Err(err.value)
      invariant forall j :: i <= j < h.Length ==> h[j] == old(h[j])
      decreases binLen - i, if err.None? then 1 else 0
    {
      DecodeStep(s, i, h[..i]);
      var hi := Hex2Val(s, 2 * i);
      var lo := Hex2Val(s, 2 * i + 1);
      if hi.Err? || lo.Err? {
        err := if hi.Err? then Some(hi.error) else Some(lo.error);
        DecodeErrorPersists(s, i + 1, binLen);
      } else {
        var b := (hi.value as int * 16 + lo.value as int) as byte;
        ghost var prefix := h[..i];
        h[i] := b;
        assert h[..i + 1] == prefix + [b];
        i := i + 1;
      }
    }
    assert h[binLen..] == old(h[binLen..]);
  }

  /**
   * `parse_header(h, h.Length, hex)`: returns 140 on success (also for a
   * null input, which writes nothing); on success the first 140 bytes of
   * `h` are the decoded header and the rest of `h` is untouched.
   */
  method ParseHeader(h: array<byte>, hex: Option<string>) returns (r: Result<uint32, HeaderError>)
    modifies h
    ensures var spec := ParseHeaderSpec(hex, h.Length);
      && (r.Ok? <==> spec.Ok?)
      && (r.Ok? ==> r.value as int == HeaderLen)
      && (r.Err? ==> r.error == spec.error)
    ensures hex.None? ==> h[..] == old(h[..])
    ensures ParseHeaderSpec(hex, h.Length).Ok? && hex.Some? ==>
      && h[..HeaderLen] == ParseHeaderSpec(hex, h.Length).value.bytes
      && h[HeaderLen..] == old(h[HeaderLen..])
  {
    if hex.None? {
      return Ok(HeaderLen as uint32);
    }
    var s := hex.value;
    var hexLen := Strlen(s);
    var binLen := hexLen / 2;
    if hexLen % 2 != 0 {
      return Err(OddDigitCount);
    }
    if binLen != HeaderLen {
      return Err(WrongLength(binLen));
    }
    if h.Length < binLen {
      return Err(BufferTooSmall);
    }
    var err := DecodeInto(h, s, binLen);
    if err.Some? {
      return Err(err.value);
    }
    var tailOk := CheckNonceTail(h, binLen);
    assert tailOk <==> NonceTailZero(h[..binLen]);
    if !tailOk {
      return Err(NonZeroNonceTail);
    }
    return Ok(binLen as uint32);
  }
}
