# Equihash OpenCL solver: host-side model

This project models, in Dafny, the host side of an OpenCL Equihash solver
for Zcash with parameters (n, k) = (200, 9). It covers the parts `main.cpp`
computes itself, and states what each part promises:

- **Block header.** The block header is parsed from hex text (`hex2val`,
  `parse_header`). Every error path of the parsing becomes an error value.
- **Personalization.** `zcashPerson` writes the BLAKE2b personalization
  bytes, following section 7.6.1 of the Zcash Protocol Specification. Its
  only caller, `digestInit`, is not called by `main`.
- **Buffer sizing.** The buffer sizes are derived from (n, k).
- **Bucket counts.** The packed 4-bit bucket counters are unpacked and
  tallied (`print_stats` and `print_collision_histogram`, without their
  printing).
- **Mask tables.** The constant `masks` / `mask_shifts` tables select the
  20-bit collision windows.
- **Round loop.** The double-buffered round loop is modelled with two hash
  tables and two bucket-count buffers. Each round zero-fills and swaps
  them. The BLAKE2b and collision kernels are opaque functions of the
  buffers they are given.

Modules, one file each:

- `Wrappers`: Option and Result.
- `Bytes`: bytes, 32-bit integers and the little-endian 32-bit layout.
- `HeaderCodec`: `hex2val` and `parse_header`.
- `Personalization`: `zcashPerson`.
- `Sizing`: the sizes `main` computes.
- `BucketStats`: the unpacking and tallying of the bucket counters.
- `MaskTable`: the `masks` / `mask_shifts` tables.
- `RoundScheduler`: the buffers and the round loop, as classes.

## Model

| member | source | states |
|---|---|---|
| Bytes.ToUint32 | main.cpp:42-43 | The `int` parameter stored by `htole32` is taken modulo 2^32. A non-negative value is kept. A negative value gains 2^32. |
| Bytes.Le32 | main.cpp:42-43 | The four bytes `htole32(x)` stores, least significant first (read back by Le32Value). |
| Bytes.Le32RoundTrip | main.cpp:42-43 | Reading back the four little-endian bytes of a 32-bit word gives the word back. |
| Bytes.Le32Injective | main.cpp:42-43 | Every 4-byte sequence is the little-endian encoding of the word it reads as, so the layout is a bijection. |
| HeaderCodec.HexVal | main.cpp:102-109 | A character has a digit value exactly when it is 0-9, a-f or A-F. The value is below 16. |
| HeaderCodec.Hex2Val | main.cpp:102-112 | `hex2val(base, off)` succeeds exactly when `base[off]` is a hex digit, and then returns that digit's value. Otherwise the error names the offset and the character. |
| HeaderCodec.HexValOfLowerDigit | main.cpp:102-109 | Every value 0-15 is read back from its lowercase digit. |
| HeaderCodec.LowerDigitOfHexVal | main.cpp:102-109 | The lowercase digit of a character's value is that character folded to lowercase, so `hex2val` treats upper and lower case alike. |
| HeaderCodec.Strlen | main.cpp:121 | `strlen` is the length of the longest NUL-free prefix. The character at that index is NUL, unless the sequence ends there. |
| HeaderCodec.DecodePrefix | main.cpp:128-129 | Decoding m bytes succeeds exactly when the first 2m characters are all hex digits. The result then has m bytes. A failure reports the first bad digit in loop order. |
| HeaderCodec.DecodedByte | main.cpp:129 | Byte i of a successful decode is 16 * val(hex[2i]) + val(hex[2i+1]). |
| HeaderCodec.DecodeErrorPersists | main.cpp:128-129 | Once a prefix fails to decode, every longer prefix fails with the same error, so the first bad digit is fatal. |
| HeaderCodec.DecodeOfEncode | main.cpp:128-129 | Decoding the lowercase hex encoding of any bytes gives those bytes back. |
| HeaderCodec.EncodeOfDecode | main.cpp:128-129 | Re-encoding a successfully decoded prefix gives the input's digits folded to lowercase. |
| HeaderCodec.ParseHeaderSpec | main.cpp:113-137 | Every successfully parsed header has 140 bytes, and its last 12 bytes are zero. |
| HeaderCodec.ParseHeaderAcceptsEncoding | main.cpp:113-137 | The lowercase hex encoding of any 140-byte header whose last 12 bytes are zero is accepted, and it parses back to that header. |
| HeaderCodec.ParseHeaderOutcomes | main.cpp:118-137 | The error cases are distinguished in the source's order: an odd digit count, a length other than 280 digits, a too-small buffer, then the first bad digit. An accepted header has 140 bytes with a zero nonce tail and re-encodes to the input folded to lowercase. |
| HeaderCodec.ParseHeaderWellFormed | main.cpp:121-136 | For 280 hex digits of any case and a large enough buffer, `parse_header` succeeds exactly when decoded bytes 128..139 are zero. It then returns the decoded header; otherwise the error is the nonce-tail one. |
| HeaderCodec.ParseHeaderRejectsBadDigit | main.cpp:128-129 | A non-hex character among the first 280 of a 280-character input makes `parse_header` fail with InvalidHexChar at the first bad character, at or before that one. |
| HeaderCodec.CheckNonceTail | main.cpp:130-135 | The backward `--i` scan succeeds exactly when bytes binLen-12 .. binLen-1 are all zero. |
| HeaderCodec.DecodeStep | main.cpp:128-129 | One iteration of the forward loop either appends the byte from the next digit pair or fails at the first bad digit of that pair, the high digit first. |
| HeaderCodec.DecodeInto | main.cpp:128-129 | The forward loop succeeds exactly when the decode does. On success it stores the decoded bytes in h[0..binLen); on failure it reports the decode's error. Bytes from binLen on never change. |
| HeaderCodec.ParseHeader | main.cpp:113-137 | `parse_header` agrees with ParseHeaderSpec and returns 140 on success. A null input returns 140 and writes nothing. On success h[0..140) is the decoded header and the rest of h is untouched. |
| Personalization.Ascii | main.cpp:41 | The copied bytes are the character codes of the tag, one byte each, with no terminator. |
| Personalization.Personal | main.cpp:40-44 | The 16 bytes `zcashPerson` writes: "ZcashPoW", then `htole32(n)`, then `htole32(k)` (their layout is PersonalLayout). |
| Personalization.PersonalLayout | main.cpp:40-44 | The personalization has 16 bytes. Bytes 0-7 are "ZcashPoW", bytes 8-11 read as n and bytes 12-15 read as k, each little-endian (n and k themselves when non-negative). |
| Personalization.PersonalInjective | main.cpp:40-44 | Different (n, k) pairs give different personalizations. |
| Personalization.StoreLe32 | main.cpp:42-43 | A 32-bit store writes the four little-endian bytes at its offset and no other byte. |
| Personalization.ZcashPerson | main.cpp:40-44 | `zcashPerson` makes bytes 0-15 of `person` the personalization of (n, k) and leaves every later byte unchanged. |
| Sizing.WindowBits | main.cpp:290 | `n / (k + 1)`, the width of one collision window. |
| Sizing.NumBitstrings | main.cpp:290 | `num_bitstrings = 1 << (n / (k + 1) + 1)`, in unbounded arithmetic. |
| Sizing.NumBuckets | main.cpp:297 | `num_buckets = 1 << n / (k + 1)`, in unbounded arithmetic. |
| Sizing.HashTableSize | main.cpp:291-292 | `hash_table_size = num_bitstrings * hash_table_collision_depth` with depth 12. |
| Sizing.HashTableBytes | main.cpp:303 | `hash_table_size * bitstring_size` with 32-byte bit strings, the size of each hash-table buffer. |
| Sizing.BucketCountBytes | main.cpp:307 | `num_buckets * sizeof(unsigned int) / 8`, the size of each bucket-count buffer. |
| Sizing.BucketCountWords | main.cpp:173 | `bytes / sizeof(T)` with T = `unsigned` for a bucket-count buffer, the words `print_stats` reads. |
| Sizing.BitstringsPerBucket | main.cpp:290-297 | In unbounded arithmetic, num_bitstrings is twice num_buckets for every (n, k). |
| Sizing.OneNibblePerBucket | main.cpp:297-308 | In unbounded arithmetic, a bucket-count buffer has one 4-bit counter per bucket if and only if a window has at least 3 bits. |
| Sizing.IntSizes | main.cpp:290-303 | The C `int` values equal the unbounded ones exactly when they are below 2^31: `num_buckets` for windows of at most 30 bits, `num_bitstrings` for at most 29, the table byte count for at most 21. |
| Sizing.DefaultSizes | main.cpp:290-308 | For (200, 9) the sizes are: windows of 20 bits, 2^20 buckets, 2^21 bit strings, 25165824 table slots, 805306368 table bytes (below 2^31), and 2^17 count words holding exactly one counter per bucket. |
| BucketStats.Nibble | main.cpp:180 | Each unpacked counter is at most 15. |
| BucketStats.UnpackCounts | main.cpp:173-182 | The unpacking loops produce 8 counters per word. Counter p is nibble p % 8 of word p / 8, lowest nibble first, and every counter is at most 15. |
| BucketStats.UnpackOfPack | main.cpp:176-182 | Unpacking the packed form of any counters of at most 4 bits gives those counters back. |
| BucketStats.MinMax | main.cpp:184 | `minmax_element` returns elements of the sequence that bound every element from below and from above. |
| BucketStats.SumBounded | main.cpp:158-162 | The total of counters of at most `bound` each is at most `bound` times their number. |
| BucketStats.CollisionHistogram | main.cpp:154-167 | The histogram has min(16, buckets) entries. Entry v counts the counters equal to v. The entries add up to the number of counters, and `total` is the sum of the counters. |
| BucketStats.Stats | main.cpp:170-187 | `print_stats` unpacks the words and tallies them with `max + 2` buckets. Every counter lies between the computed min and max, and max is at most 15 and inside the histogram, so `hist[count]` stays in bounds. The entries add up to the number of counters, and the total is at most 15 per counter. |
| BucketStats.CountersMatchBuckets | main.cpp:173-180 | With the default sizes, one bucket-count buffer unpacks to exactly num_buckets counters. |
| BucketStats.TotalFitsInt | main.cpp:158-161 | With the default sizes, the `int total` of the histogram cannot overflow. |
| MaskTable.Masks | main.cpp:337-344 | The six rows of `masks`, word for word (their meaning is MaskIsWindow). |
| MaskTable.MaskShifts | main.cpp:346-353 | The six rows of `mask_shifts`, entry for entry (their meaning is ExtractIsWindow). |
| MaskTable.MaskIsWindow | main.cpp:337-344 | Row i of `masks` selects exactly the digest bits [20i, 20i + 20). |
| MaskTable.MaskPopCount | main.cpp:337-344 | Every row of `masks` has 20 bits set. |
| MaskTable.MasksPartition | main.cpp:337-344 | Every one of the first 120 digest bits is selected by row p / 20, and only by that row, so the rows are pairwise disjoint and adjacent. |
| MaskTable.Mask3Straddles | main.cpp:341 | Row 3 straddles the word boundary: digest bits 60-63 are in word 0 and bits 64-79 in word 1. |
| MaskTable.ExtractIsWindow | main.cpp:337-353 | For rows 1-5, masking a digest with `masks[i]` and shifting by `mask_shifts[i]` gives the digest's window i as a number, which is below num_buckets = 2^20. |
| MaskTable.Row0NotNormalised | main.cpp:347 | Row 0 of `mask_shifts` leaves window 0 unshifted, so its extraction is not a bucket index. |
| RoundScheduler.ZeroTables | main.cpp:323-329 | A zero-filled slot has the table and count sizes of the setup, and every element is zero. |
| RoundScheduler.ArgsOfRound | main.cpp:358-363 | Round i passes `masks[i]` as the previous mask, `masks[i+1]` and `mask_shifts[i+1]` as the new mask and shift, then `num_buckets` and 2. |
| RoundScheduler.RoundMaskNormalises | main.cpp:358-363 | For the default setup, the mask and shift every round passes are in range and turn any digest into a bucket index below the `num_buckets` it passes. |
| RoundScheduler.RoundWindows | main.cpp:358-363 | Round i compares on window i and rebuckets on window i+1. |
| RoundScheduler.Stage | main.cpp:323-371 | What slot 0 holds after the digest (stage 0) and after each further round: round r run from stage r into a zeroed slot. |
| RoundScheduler.Buffer.Fill | main.cpp:325-328 | A fill sets the whole buffer to the pattern. |
| RoundScheduler.Buffer.Store | main.cpp:360-363 | A kernel's output replaces the buffer's contents. |
| RoundScheduler.Buffer.constructor | main.cpp:302-309 | A new buffer has the requested size. |
| RoundScheduler.Scheduler.constructor | main.cpp:302-309 | The two hash tables and two bucket-count buffers are fresh and distinct, with the setup's sizes. |
| RoundScheduler.Scheduler.ClearAll | main.cpp:323-329 | After the two fill loops, both slots are zero and no buffer moves. |
| RoundScheduler.Scheduler.RunDigest | main.cpp:332-333 | The digest kernel writes slot 0 only. |
| RoundScheduler.Scheduler.Round | main.cpp:358-370 | A round is the kernel writing slot 1 from slot 0 (distinct buffers), slot 0 cleared, and the two slots swapped. Slot 0 then holds the output and slot 1 is zero. |
| RoundScheduler.Scheduler.Run | main.cpp:323-371 | With at most five rounds, each round starts with slot 1 zero and slot 0 holding the previous stage. At the end, slot 0 holds the last stage and slot 1 is zero. |
| RoundScheduler.MainSchedule | main.cpp:302-371 | `main`'s single round leaves slot 0 holding the round kernel's output, computed from the digest of a zeroed slot into a zeroed slot. Slot 1 ends zero. |

## Left out

- OpenCL is not modelled: platform and device selection, program building, the command queue and event profiling. The buffers are modelled as Dafny objects whose contents are replaced in order.
- The BLAKE2b state setup of `main` (`zcash_blake2b_init` and `zcash_blake2b_update`) and `blake_state_buf` are not modelled. The state is a parameter of the setup.
- Personalization.ZcashPerson is not on `main`'s path: its only caller is `digestInit`, which `main` never calls. It is modelled as the function the source defines.
- The semantics of the `blake` and `equihash_round` kernels are not modelled. Each kernel is an arbitrary function from the buffers it is given to the new contents of the buffers it writes.
- The kernels' NDRange sizes, work-group sizes and GPU concurrency (including atomic counter updates) are not modelled.
- Every `printf`, `print_info`, `print_ht` and `check_endiness` is left out, as are the timing helpers and the command-line options. The options' values are not used by `main`, which fixes n = 200 and k = 9.
- The 100-entry `counts` dump of `print_stats` is left out with the rest of the printing. It reads past the counters when fewer than 100 exist.
- HeaderCodec.Hex2Val: C++ leaves open which `hex2val` call in `hex2val(..) * 16 + hex2val(..)` runs first. The model checks the high digit first, so when both digits are bad it reports the high one.
- HeaderCodec.ParseHeader: `fatal` is modelled as an error result instead of process exit. `assert(bin_len <= h_len)` is modelled as the error `BufferTooSmall`.
- HeaderCodec.ParseHeader: the C string is modelled as a sequence of characters read up to the first NUL. Character encodings are not modelled.
- Sizing.BitstringsPerBucket is proved in unbounded arithmetic. `main` computes `1 << (w + 1)` in a C `int`, which overflows for windows of 30 bits or more; Sizing.IntSizes states the widths for which the two agree.
- Sizing.OneNibblePerBucket is proved in unbounded arithmetic. `main` computes `1 << w` and `num_buckets * sizeof(unsigned int)` in C `int`/`size_t`, and `1 << w` overflows for windows of 31 bits or more; Sizing.IntSizes states the widths for which the two agree.
- BucketStats.Stats requires at least one packed word, because `minmax_element` on an empty range yields an end iterator that the source dereferences.
- BucketStats.CollisionHistogram: `total` is an unbounded integer rather than a C `int`. TotalFitsInt shows that it cannot overflow for the default sizes.
- MaskTable.ExtractBucket is how the model reads the `mask` / `mask_shift` pair: mask each word, shift it right by its entry (left for a negative entry) and OR the pieces together. How the round kernel actually applies the pair is in the kernel source, which is not part of this model.
- RoundScheduler.RoundMaskNormalises states the bound on the bucket index but not that it equals the window value. MaskTable.ExtractIsWindow states that equality.
- RoundScheduler.Buffer.constructor does not state the contents of a newly allocated buffer, which the source leaves undefined. `main` fills every buffer before a kernel reads it.
- RoundScheduler.Scheduler.Run does not constrain the length of a kernel's output to its buffer's size. The kernels are opaque.
- RoundScheduler.Scheduler.Run allows at most five rounds, because round i reads row i + 1 of the six-row tables. `main` runs one round. The nine rounds that (200, 9) calls for would need rows the tables do not have.
