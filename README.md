# VarInt codec of morpheus, modelled in Dafny

morpheus is a Minecraft server. Its protocol layer declares a `Codec<T>` trait
(`src/types/Codec.rs`) for wire types. The trait has a per-type non-zero `MAX_SIZE`,
an `encode` that writes `self` to a writer, and a `decode` that builds a value from a
reader. Both report failure as the unit error `()`.

Its implementation here is `VarInt` (`src/types/VarInt.rs`). It is a wrapper around
an `i64`, meant to be written as a protocol VarInt: at most five bytes, seven data
bits per byte, lowest group first, with the high bit of a byte set when another byte
follows.

The project has three modules:

- `Codec` (`Codec.dfy`) holds the trait's shared vocabulary:
  - the `NonZero` type of `MAX_SIZE`;
  - the `Outcome` result type: `Ok`, the unit error `Err`, or `Panic`, which is a
    debug-build overflow panic;
  - two classes standing for the caller-owned `impl Write` and `impl Read`. `Sink` is
    a bounded byte buffer; its `Write` appends one byte or fails. `Source` is a byte
    sequence with a read position; its `Read` yields the next byte or fails at the
    end, with no pushback.
- `VarInt` (`VarInt.dfy`) models the codec **as the code behaves**:
  - `align_chunk` and `decode_chunk` are functions over `bv8`/`bv64`;
  - `encode` and `decode` are methods with loops that modify a `Sink` or `Source`.
    Each is proved against a function (`Encoding`, `Decoding`) that says what the
    loop writes or reads.
  - Lemmas about those functions state what the codec does: the bytes it writes, the
    cases of decoding, and the narrow round trip.
- `Leb128` (`Leb128.dfy`) is the codec the code evidently intends. It has the two
  corrections listed under "## Findings". For this codec, the round trip is proved
  for every value below `2^35`, over the same `Sink` and `Source`.

`i64` and `u64` are both 64-bit bit-vectors. A value is negative when the sign bit is
set, and `try_into` between the two is a check of that bit.

## Model

| member | source | states |
|---|---|---|
| Codec.Sink.Write | src/types/Codec.rs:9 | one `write_all` of one byte: it either appends the byte, or fails when the sink is full and writes nothing; all bytes past the written ones stay as they were |
| Codec.Source.Read | src/types/Codec.rs:10 | one `read_exact` of one byte: it either yields the next byte and advances by one, or fails at the end of the bytes and leaves the position unchanged |
| VarInt.ToUnsigned | src/types/VarInt.rs:59 | the `i64 -> u64` `try_into`: it succeeds exactly on a non-negative value and keeps its bits |
| VarInt.ToSigned | src/types/VarInt.rs:112 | the `u64 -> i64` `try_into`: it succeeds exactly below `2^63` and keeps the bits |
| VarInt.LowByte | src/types/VarInt.rs:61 | `value as u8`: the byte holds the low eight bits of the value |
| VarInt.ChunkToWrite | src/types/VarInt.rs:61-78 | defines the byte one iteration of `encode` writes, `data & (DATA_BITS or (value == 0) as u8)`; its contents are stated by `VarInt.ChunkToWriteIsDataBits` |
| VarInt.EncodeFrom | src/types/VarInt.rs:60-84 | defines the bytes the `encode` loop writes from a given iteration on: one byte, then a stop when nothing remains or the iterations run out; stated by `VarInt.EncodingShape` |
| VarInt.Encoding | src/types/VarInt.rs:58-86 | defines what `encode` writes when the writer accepts every byte: `Err` for a negative value, otherwise the loop's bytes; the contract of `VarInt.Encode` is stated against it |
| VarInt.DecodeStep | src/types/VarInt.rs:100-106 | defines one iteration of `decode`: `decode_chunk`, then the data or-ed into `result` |
| VarInt.DecodeLoop | src/types/VarInt.rs:93-110 | defines the `decode` loop from a chunk position on: `Err` with no byte left, the failure of a rejected chunk, a stop after an unflagged chunk, otherwise the next position |
| VarInt.Finish | src/types/VarInt.rs:112-113 | defines the conversion of the loop's `u64` result back to `i64` |
| VarInt.Decoding | src/types/VarInt.rs:91-114 | defines what `decode` returns and how many bytes it takes: the loop from position 0 and then the conversion; characterised by `VarInt.DecodingCases` |
| VarInt.AlignChunk | src/types/VarInt.rs:34-41 | position 0 yields the whole byte, high bit included; position 1 yields the byte's lowest bit at bit 7; position 2 or more panics (a `u8` shift by 14 or more); a result is always below 256 |
| VarInt.DecodeChunk | src/types/VarInt.rs:45-53 | fails exactly on a flagged byte at the last position, before any shift; otherwise it panics exactly from position 2 on; a success carries "the high bit is set" and `align_chunk`'s data |
| VarInt.ChunkToWriteIsDataBits | src/types/VarInt.rs:61-78 | the byte one iteration writes is the low seven bits of the remaining value and never has the continuation bit (`0x7F` or-ed with 0 or 1 is still `0x7F`) |
| VarInt.EncodingShape | src/types/VarInt.rs:59-85 | a non-negative value is encoded as 1 to 5 bytes; byte k is `(v >> 7k) & 0x7F`; when fewer than five are written the remaining value is zero after the last, and it is non-zero after every earlier one |
| VarInt.EncodingNeverContinues | src/types/VarInt.rs:74-78 | no byte of any encoding has its high bit set |
| VarInt.EncodingLength | src/types/VarInt.rs:60-84 | below `2^35` the byte count is the least n after which nothing remains; from `2^35` on it is five bytes with bits still unwritten, so the value is silently truncated |
| VarInt.EncodingFits | src/types/VarInt.rs:132 | every encoding fits the test's five-byte buffer |
| VarInt.Encode | src/types/VarInt.rs:58-86 | a negative value gives `Err` and writes nothing; otherwise the sink receives as much of `Encoding(v)` as it has room for, and the result is `Ok` exactly when all of it fit, so a failed write ends the loop with earlier bytes kept and nothing after them |
| VarInt.Decode | src/types/VarInt.rs:91-114 | the result, and the number of bytes taken from the source, are those of `Decoding` on the bytes not read yet |
| VarInt.DecodingCases | src/types/VarInt.rs:91-114 | the complete behaviour of `decode`: `Err` with no byte; the first byte if its high bit is clear; after a flagged first byte, `Err` with no second byte, the first byte again if the second is unflagged, `Err` with no third byte, and otherwise a panic on the third; a success is the first byte, so the conversion at line 112 never fails |
| VarInt.DecodeReadsOnlyWhatItNeeds | src/types/VarInt.rs:93-110 | when `decode` does not run out of bytes, it never takes more bytes than there are, and its result depends only on the bytes it took: anything after them can be replaced; a decode that ran out of bytes is excluded, since `[0x80]` fails but `[0x80, 0x00]` succeeds |
| VarInt.DecodeOfEncoding | src/types/VarInt.rs:58-114 | decoding the encoding of a non-negative `v` reads one byte and yields `v & 0x7F` |
| VarInt.RoundTripIff | src/types/VarInt.rs:127-142 | for a non-negative `v`, `decode(encode(v)) == v` holds exactly when `v <= 127` |
| VarInt.RoundTripFailsAt128 | src/types/VarInt.rs:78 | 128 is encoded as `00 01`, and those bytes decode to 0 after one byte |
| VarInt.NotNegativeBelow40Bits | src/types/VarInt.rs:122-127 | every value the test draws is non-negative, so `encode` does not reject it |
| VarInt.DecodeOfBuffer | src/types/VarInt.rs:132-140 | decoding the five-byte buffer that starts with the encoding of a non-negative `v` yields `v & 0x7F` after one byte |
| VarInt.EncodeDecodeAreInvertible | src/types/VarInt.rs:127-143 | the test's steps, stated over the model: for every test value, encoding into a fresh five-byte buffer succeeds, and decoding it yields `val & 0x7F`, which equals `val` exactly when `val <= 127` |
| Leb128.AlignChunk | src/types/VarInt.rs:34-41 | defines the corrected `align_chunk` (line 39 corrected): the chunk's seven data bits, widened to `u64` and then shifted by `7 * chunk_pos` |
| Leb128.ChunkToWrite | src/types/VarInt.rs:61-78 | defines the corrected byte one iteration of `encode` writes (line 78 corrected): the seven data bits, with the continuation bit when more bits remain; stated by `Leb128.ChunkToWriteBits` |
| Leb128.DecodeChunk | src/types/VarInt.rs:45-53 | the corrected `decode_chunk` never panics; it fails exactly on a flagged byte at the last position; otherwise it carries the flag and the aligned seven data bits |
| Leb128.ChunkToWriteBits | src/types/VarInt.rs:78 | the corrected byte carries the seven data bits, and its continuation bit is set exactly when more bits remain |
| Leb128.FlaggedFifthByte | src/types/VarInt.rs:47-49 | a byte with only the continuation bit is rejected at the fifth position and adds nothing at the first four |
| Leb128.EncodingContinuationBits | src/types/VarInt.rs:58-86 | below `2^35` the corrected encoding has 1 to 5 bytes; every byte except the last has the continuation bit, and the last does not |
| Leb128.LengthAgrees | src/types/VarInt.rs:60-84 | the correction changes no byte count: the corrected loop writes as many bytes as the loop as written |
| Leb128.NotNegativeBelow35Bits | src/types/VarInt.rs:112 | a value below `2^35` is non-negative, and the final `u64 -> i64` conversion keeps it |
| Leb128.DecodingBounds | src/types/VarInt.rs:91-114 | the corrected `decode` never panics, and never reads more than five bytes or more bytes than there are |
| Leb128.RoundTrip | src/types/VarInt.rs:122-143 | for every `v` below `2^35`, decoding the encoding of `v`, followed by any bytes, yields `v` and reads exactly the encoding |
| Leb128.TestDomainExceedsFiveBytes | src/types/VarInt.rs:122 | the test's bound `2^40` is too high even for the corrected codec: `2^35` is written as five flagged bytes, and decoding them fails |
| Leb128.Encode | src/types/VarInt.rs:58-86 | the corrected `encode` over a sink, with the same contract as `VarInt.Encode` in terms of the corrected `Encoding` |
| Leb128.Decode | src/types/VarInt.rs:91-114 | the corrected `decode` over a source: the result and the bytes taken are those of the corrected `Decoding` |
| Leb128.DecodeOfBuffer | src/types/VarInt.rs:132-140 | decoding a buffer that starts with the corrected encoding of `v` below `2^35` yields `v`, whatever follows in the buffer |
| Leb128.EncodeDecodeAreInvertible | src/types/VarInt.rs:127-143 | the test's steps with the corrected codec: for every `val` below `2^35`, encoding into a fresh five-byte buffer succeeds and decoding it yields `val` |

## Left out

- The `Codec<T>` trait itself is not a Dafny trait. Module `Codec` holds what the trait fixes: the `NonZero` type of `MAX_SIZE`, the `Outcome` type with its single unit error, and the writer and reader classes. The modules `VarInt` and `Leb128` supply `MAX_SIZE`, `Encode` and `Decode`. The point that `encode` borrows `self` immutably holds by construction, because `VarInt` is an immutable datatype.
- Real `std::io` semantics are not modelled. A writer is a `Sink` that fails once its capacity is used up. This covers any writer, because `encode` stops at the first failure. A reader is a `Source` over a fixed byte sequence.
- Release builds are not modelled. There, the `u8` shift in `align_chunk` wraps its amount mod 8 instead of panicking. The model follows debug builds, where that shift is a `Panic` outcome.
- The factor `* ((INNER_TYPE_WIDTH >= 8) as u64)` at src/types/VarInt.rs:72 is always 1, so the model uses a plain `>> 7`.
- `NonZeroUsize::new(5).expect(...)` at src/types/VarInt.rs:57 is the constant `MAX_SIZE: NonZero := 5`. Its panic path cannot be reached.
- The test harness is not modelled: the proptest configuration, its random choice of cases, `dbg!` and `#[derive(Debug)]`. The test's claim is stated over all values of its domain instead.
- Two's-complement encoding of negative values is absent because the code rejects them.
- VarInt.Encode: does not state that the sink's bytes beyond the written prefix are unchanged. `Codec.Sink.Write` states this for each write.
- Leb128.Encode: does not state that the sink's bytes beyond the written prefix are unchanged, for the same reason.

## Findings

| source | as written | input that shows it | evidently intended | confidence | as-written member | corrected member |
|---|---|---|---|---|---|---|
| src/types/VarInt.rs:78 | the mask `DATA_BITS` or-ed with `(value == 0) as u8` is always `0x7F`, so the byte is always `data`, so no byte is ever flagged and `decode` stops after the first byte | 128 is encoded as `00 01` and decodes to 0 | set the continuation bit `0x80` when bits remain: `data` or-ed with `CONTINUE_BITS` when `value != 0` | high (not executed) | VarInt.RoundTripFailsAt128 | Leb128.RoundTrip |
| src/types/VarInt.rs:39 | `(chunk << data_pos).into()` shifts the raw `u8` before widening, so the third chunk overflows the shift (a debug panic), and bit 7 of the first chunk stays in the value | the bytes `[0x81, 0x80, 0x00]` panic at the third byte; `[0x81, 0x00]` decodes to 129 | mask with `DATA_BITS`, widen to `u64`, then shift by `7 * chunk_pos` | high (not executed) | VarInt.DecodingCases | Leb128.DecodingBounds |
| src/types/VarInt.rs:122 | the test draws values from `0..2^40`, but five bytes of seven bits hold only values below `2^35` | `2^35` is written as five flagged bytes, which even the corrected `decode` rejects | draw values from `0..2^35` | high (not executed) | Leb128.TestDomainExceedsFiveBytes | Leb128.EncodeDecodeAreInvertible |
