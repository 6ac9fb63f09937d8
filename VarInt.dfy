/**
 The VarInt codec of src/types/VarInt.rs, as the code behaves (debug build).

 The code departs from the LEB128-style format its comments describe, and this
 module keeps every one of those departures:
 - `encode` never sets the continuation bit: every byte is `value & 0x7F`;
 - `encode` rejects a negative value, because `i64 -> u64` `try_into` fails;
 - `align_chunk` shifts the `u8` chunk before widening it, so position 0 keeps the
   whole byte, position 1 keeps only its lowest bit, and position 2 or more is a
   shift overflow that panics.
 The module Leb128 holds the corrected codec the departures are measured against.
 */
module VarInt {
  import opened Codec

  /** Rust's `i64` (the `Inner` type) as its two's-complement bit pattern: the value
      is negative exactly when the sign bit 63 is set. */
  type i64 = bv64

  /** Rust's `u64`, the `UnsignedInner` type. */
  type u64 = bv64

  /** The sign bit of an `i64`. */
  const SIGN_BIT: bv64 := 0x8000_0000_0000_0000

  predicate IsNegative(x: i64)
  {
    x & SIGN_BIT != 0
  }

  /** `struct VarInt(pub i64)`: an immutable value; encoding cannot change it. */
  datatype VarInt = VarInt(value: i64)

  /** A decoder's result together with the number of bytes it took from the source. */
  datatype Parse<T> = Parse(outcome: Outcome<T>, consumed: nat)

  /** The bit saying another chunk follows. */
  const CONTINUE_BITS: bv8 := 0x80

  /** The seven data bits of a chunk. */
  const DATA_BITS: bv8 := 0x7F

  /** `MAX_SIZE` of the `Codec` implementation. */
  const MAX_SIZE: NonZero := 5

  /** `2^35`: the first value whose bits do not fit in `MAX_SIZE` groups of seven. */
  const LIMIT_35: bv64 := 0x8_0000_0000

  /** `i64 -> u64` `try_into`: fails on a negative value, keeps the bits otherwise. */
  function ToUnsigned(x: i64): (r: Outcome<u64>)
    ensures r.Ok? <==> !IsNegative(x)
    ensures r.Ok? ==> r.value == x
    ensures !r.Panic?
  {
    if IsNegative(x) then Err else Ok(x)
  }

  /** `u64 -> i64` `try_into`: fails from `2^63` on, keeps the bits otherwise. */
  function ToSigned(u: u64): (r: Outcome<i64>)
    ensures r.Ok? <==> u < 0x8000_0000_0000_0000
    ensures r.Ok? ==> r.value == u
    ensures !r.Panic?
  {
    if u & SIGN_BIT != 0 then Err else Ok(u)
  }

  /** `value as u8`: keeps the low eight bits. */
  function LowByte(x: u64): (b: bv8)
    ensures b as bv64 == x & 0xFF
  {
    (x & 0xFF) as bv8
  }

  function Min(a: nat, b: nat): nat
  {
    if a <= b then a else b
  }

  /** `x >> 7k`, what remains of `x` once `k` groups of seven bits are gone, for the
      `k <= MAX_SIZE` the codec needs. */
  function Shr7(x: u64, k: nat): u64
    requires k <= MAX_SIZE
  {
    if k == 0 then x
    else if k == 1 then x >> 7
    else if k == 2 then x >> 14
    else if k == 3 then x >> 21
    else if k == 4 then x >> 28
    else x >> 35
  }

  lemma Shr7Step(x: u64, k: nat)
    requires k < MAX_SIZE
    ensures Shr7(x >> 7, k) == Shr7(x, k + 1)
  {
  }

  /** Nothing remains after the `MAX_SIZE` groups exactly below `2^35`. */
  lemma Shr7Limit(x: u64)
    ensures Shr7(x, MAX_SIZE) == 0 <==> x < LIMIT_35
  {
  }

  /** Once nothing remains, nothing remains after more groups either. */
  lemma Shr7Monotone(x: u64, k: nat)
    requires k <= MAX_SIZE && Shr7(x, k) == 0
    ensures Shr7(x, MAX_SIZE) == 0
  {
  }

  /* ---------------------------------------------------------------- chunks */

  /** `align_chunk`: `(chunk << 7 * chunk_pos).into()`, a shift of the `u8` that
      overflows (and panics) once the shift amount reaches its eight bits. The only
      amounts below eight are 0 and 7, written out as such. */
  function AlignChunk(chunk: bv8, chunkPos: nat): (r: Outcome<bv64>)
    ensures chunkPos == 0 ==> r == Ok(chunk as bv64)
    ensures chunkPos == 1 ==> r == Ok(((chunk & 1) as bv64) << 7)
    ensures chunkPos >= 2 ==> r == Panic
    ensures r.Ok? ==> r.value < 0x100
  {
    var dataPos := 7 * chunkPos;
    if dataPos >= 8 then Panic
    else if dataPos == 0 then Ok(chunk as bv64)
    else Ok((chunk << 7) as bv64)
  }

  /** `decode_chunk`: the continuation flag and the aligned data of one chunk; a
      flagged chunk in the last allowed position is rejected before aligning. */
  function DecodeChunk(chunk: bv8, pos: nat): (r: Outcome<(bool, bv64)>)
    ensures r == Err <==> pos == MAX_SIZE - 1 && chunk & CONTINUE_BITS != 0
    ensures r == Panic <==> r != Err && pos >= 2
    ensures r.Ok? ==> r.value.0 == (chunk & CONTINUE_BITS != 0)
    ensures r.Ok? ==> AlignChunk(chunk, pos) == Ok(r.value.1)
  {
    var continues := chunk & CONTINUE_BITS != 0;
    if continues && pos == MAX_SIZE - 1 then Err
    else match AlignChunk(chunk, pos)
      case Ok(data) => Ok((continues, data))
      case _ => Panic
  }

  /* -------------------------------------------------------------- encoding */

  /** The byte one iteration of the `encode` loop writes for the remaining `value`:
      `data & (DATA_BITS | (rest == 0) as u8)` with `data = value as u8 & DATA_BITS`. */
  function ChunkToWrite(value: u64): bv8
  {
    var data := LowByte(value) & DATA_BITS;
    var rest := value >> 7;
    data & (DATA_BITS | if rest == 0 then 1 else 0)
  }

  /** The mask never adds the continuation bit: the byte is the low seven bits. */
  lemma ChunkToWriteIsDataBits(value: u64)
    ensures ChunkToWrite(value) as bv64 == value & 0x7F
    ensures ChunkToWrite(value) & CONTINUE_BITS == 0
  {
  }

  /** The bytes the `encode` loop writes from iteration `i` on when `value` is the
      part of the number still to be written. */
  function EncodeFrom(value: u64, i: nat): seq<bv8>
    decreases MAX_SIZE - i
  {
    if i >= MAX_SIZE then []
    else
      var rest := value >> 7;
      [ChunkToWrite(value)] + if rest == 0 then [] else EncodeFrom(rest, i + 1)
  }

  /** What `encode` writes for `v` when the writer accepts every byte. */
  function Encoding(v: VarInt): Outcome<seq<bv8>>
  {
    match ToUnsigned(v.value)
    case Ok(u) => Ok(EncodeFrom(u, 0))
    case _ => Err
  }

  /** The loop from iteration `i` on writes at least one byte and no more bytes than
      there are iterations left. */
  lemma {:induction false} EncodeFromLength(value: u64, i: nat)
    requires i < MAX_SIZE
    ensures 1 <= |EncodeFrom(value, i)| <= MAX_SIZE - i
    decreases MAX_SIZE - i
  {
    if value >> 7 != 0 && i + 1 < MAX_SIZE {
      EncodeFromLength(value >> 7, i + 1);
    }
  }

  /** Byte `k` written from iteration `i` on holds bits `7k..7k+6` of `value`. */
  lemma {:induction false} EncodeFromBytes(value: u64, i: nat, k: nat)
    requires i < MAX_SIZE && k < |EncodeFrom(value, i)|
    ensures k < MAX_SIZE
    ensures EncodeFrom(value, i)[k] as bv64 == Shr7(value, k) & 0x7F
    decreases MAX_SIZE - i
  {
    EncodeFromLength(value, i);
    if k == 0 {
      ChunkToWriteIsDataBits(value);
    } else {
      var rest := value >> 7;
      assert rest != 0 && i + 1 < MAX_SIZE;
      assert EncodeFrom(value, i)[k] == EncodeFrom(rest, i + 1)[k - 1];
      EncodeFromBytes(rest, i + 1, k - 1);
      Shr7Step(value, k - 1);
    }
  }

  /** The loop stops right after the first byte after which nothing of `value`
      remains, unless it runs out of iterations first. */
  lemma {:induction false} EncodeFromStops(value: u64, i: nat)
    requires i < MAX_SIZE
    ensures |EncodeFrom(value, i)| <= MAX_SIZE
    ensures i + |EncodeFrom(value, i)| < MAX_SIZE ==> Shr7(value, |EncodeFrom(value, i)|) == 0
    ensures forall k :: 1 <= k < |EncodeFrom(value, i)| ==> Shr7(value, k) != 0
    decreases MAX_SIZE - i
  {
    EncodeFromLength(value, i);
    var rest := value >> 7;
    if rest != 0 && i + 1 < MAX_SIZE {
      var e' := EncodeFrom(rest, i + 1);
      EncodeFromStops(rest, i + 1);
      assert |EncodeFrom(value, i)| == 1 + |e'|;
      forall k | 1 <= k < 1 + |e'|
        ensures Shr7(value, k) != 0
      {
        Shr7Step(value, k - 1);
      }
      Shr7Step(value, |e'|);
    }
  }

  /** `encode` of a non-negative value writes between one and `MAX_SIZE` bytes, byte
      `k` being `(v >> 7k) & 0x7F`; it stops right after the first byte after which
      nothing of `v` remains, or after `MAX_SIZE` bytes even if bits remain. */
  lemma EncodingShape(v: VarInt)
    requires !IsNegative(v.value)
    ensures Encoding(v).Ok?
    ensures var e := Encoding(v).value;
      && 1 <= |e| <= MAX_SIZE
      && (forall k :: 0 <= k < |e| ==> e[k] as bv64 == Shr7(v.value, k) & 0x7F)
      && (|e| < MAX_SIZE ==> Shr7(v.value, |e|) == 0)
      && (forall k :: 1 <= k < |e| ==> Shr7(v.value, k) != 0)
  {
    var e := EncodeFrom(v.value, 0);
    EncodeFromLength(v.value, 0);
    EncodeFromStops(v.value, 0);
    forall k | 0 <= k < |e|
      ensures e[k] as bv64 == Shr7(v.value, k) & 0x7F
    {
      EncodeFromBytes(v.value, 0, k);
    }
  }

  /** No byte `encode` writes has its continuation bit set. */
  lemma EncodingNeverContinues(v: VarInt)
    requires !IsNegative(v.value)
    ensures Encoding(v).Ok?
    ensures forall k :: 0 <= k < |Encoding(v).value| ==> Encoding(v).value[k] & CONTINUE_BITS == 0
  {
    EncodingShape(v);
  }

  /** Below `2^35` the byte count is the least `n >= 1` after which nothing of `v`
      remains, so no bit is lost; from `2^35` on all `MAX_SIZE` bytes are written,
      bits 35 and up are silently dropped, and `encode` still succeeds. */
  lemma EncodingLength(v: VarInt)
    requires !IsNegative(v.value)
    ensures Encoding(v).Ok?
    ensures var n := |Encoding(v).value|;
      && (v.value < LIMIT_35 ==> Shr7(v.value, n) == 0 && forall k :: 1 <= k < n ==> Shr7(v.value, k) != 0)
      && (v.value >= LIMIT_35 ==> n == MAX_SIZE && Shr7(v.value, n) != 0)
  {
    EncodingShape(v);
    var n := |Encoding(v).value|;
    Shr7Limit(v.value);
    if n < MAX_SIZE {
      Shr7Monotone(v.value, n);
    }
  }

  /** One iteration of the `encode` loop unfolded: the byte it writes for the
      remaining `value`, then either the end or the loop on `value >> 7`. */
  lemma EncodeFromUnfold(value: u64, i: nat)
    requires i < MAX_SIZE
    ensures EncodeFrom(value, i) != []
    ensures EncodeFrom(value, i)[0] == ChunkToWrite(value)
    ensures EncodeFrom(value, i)[1..] == if value >> 7 == 0 then [] else EncodeFrom(value >> 7, i + 1)
  {
  }

  lemma PrefixExtend(w: seq<bv8>, e: seq<bv8>, i: nat)
    requires i < |e|
    ensures (w + e[..i]) + [e[i]] == w + e[..i + 1]
  {
    assert e[..i + 1] == e[..i] + [e[i]];
  }

  /** What `encode` returns and what the sink holds when it leaves after writing `n`
      bytes of `e`, `refused` telling whether the sink refused the next one. */
  lemma WrittenOnExit(e: seq<bv8>, room0: nat, n: nat, refused: bool)
    requires n <= |e| && n <= room0
    requires refused ==> n < |e| && n == room0
    requires !refused ==> n == |e|
    ensures (if |e| <= room0 then Ok(()) else Err) == if refused then Err else Ok(())
    ensures e[..Min(|e|, room0)] == e[..n]
  {
  }

  /** `encode`: rejects a negative value without writing; otherwise writes the bytes of
      `Encoding(v)` one by one and fails, keeping what it wrote, at the first write the
      sink refuses. */
  method Encode(v: VarInt, sink: Sink) returns (r: Outcome<()>)
    requires sink.Valid()
    modifies sink`len, sink.buf
    ensures sink.Valid() && sink.buf == old(sink.buf)
    ensures IsNegative(v.value) ==> r == Err && sink.Written() == old(sink.Written())
    ensures !IsNegative(v.value) ==>
      var e := Encoding(v).value;
      && (r == if |e| <= old(sink.Room()) then Ok(()) else Err)
      && sink.Written() == old(sink.Written()) + e[..Min(|e|, old(sink.Room()))]
  {
    var unsigned := ToUnsigned(v.value);
    if !unsigned.Ok? {
      return Err;
    }
    var value := unsigned.value;
    ghost var e := EncodeFrom(value, 0);
    ghost var room0 := sink.Room();
    ghost var written0 := sink.Written();
    for i := 0 to MAX_SIZE
      invariant sink.Valid() && sink.buf == old(sink.buf)
      invariant i <= room0 == sink.Room() + i
      invariant i <= |e| && EncodeFrom(value, i) == e[i..]
      invariant sink.Written() == written0 + e[..i]
    {
      EncodeFromUnfold(value, i);
      var toWrite := ChunkToWrite(value);
      value := value >> 7;
      var ok := sink.Write(toWrite);
      if !ok {
        WrittenOnExit(e, room0, i, true);
        return Err;
      }
      PrefixExtend(written0, e, i);
      if value == 0 {
        WrittenOnExit(e, room0, i + 1, false);
        return Ok(());
      }
    }
    WrittenOnExit(e, room0, MAX_SIZE, false);
    return Ok(());
  }

  /* -------------------------------------------------------------- decoding */

  function Advance<T>(p: Parse<T>, n: nat): Parse<T>
  {
    Parse(p.outcome, p.consumed + n)
  }

  /** One iteration of the `decode` loop on the byte `chunk` at chunk position `pos`:
      `decode_chunk`, then `result |= data`. Yields the continuation flag and the new
      accumulator. */
  function DecodeStep(chunk: bv8, pos: nat, result: u64): Outcome<(bool, u64)>
  {
    match DecodeChunk(chunk, pos)
    case Ok((continues, data)) => Ok((continues, result | data))
    case Err => Err
    case Panic => Panic
  }

  /** What the `decode` loop does from chunk position `pos` on with the accumulator
      `result`, reading from `input`. */
  function DecodeLoop(input: seq<bv8>, pos: nat, result: u64): Parse<u64>
    decreases MAX_SIZE - pos
  {
    if pos >= MAX_SIZE then Parse(Ok(result), 0)
    else if input == [] then Parse(Err, 0)
    else match DecodeStep(input[0], pos, result)
      case Err => Parse(Err, 1)
      case Panic => Parse(Panic, 1)
      case Ok((continues, next)) =>
        if !continues then Parse(Ok(next), 1)
        else Advance(DecodeLoop(input[1..], pos + 1, next), 1)
  }

  /** What `decode` returns, and how many bytes it reads, on the bytes `input`. */
  function Decoding(input: seq<bv8>): Parse<VarInt>
  {
    var p := DecodeLoop(input, 0, 0);
    Parse(Finish(p.outcome), p.consumed)
  }

  /** The `try_into` back to `i64` after the loop. */
  function Finish(o: Outcome<u64>): Outcome<VarInt>
  {
    match o
    case Ok(u) => (match ToSigned(u) case Ok(x) => Ok(VarInt(x)) case _ => Err)
    case Err => Err
    case Panic => Panic
  }

  /* The `decode` loop run on `s[start..]`, one iteration at a time: `DecodeSoFar`
     says that the iterations before position `pos` left the accumulator `acc`. */

  ghost predicate DecodeSoFar(s: seq<bv8>, start: nat, pos: nat, acc: u64)
  {
    start + pos <= |s| && DecodeLoop(s[start..], 0, 0) == Advance(DecodeLoop(s[start + pos..], pos, acc), pos)
  }

  lemma DecodeOutOfBytes(s: seq<bv8>, start: nat, pos: nat, acc: u64)
    requires pos < MAX_SIZE && start + pos == |s| && DecodeSoFar(s, start, pos, acc)
    ensures Decoding(s[start..]) == Parse(Err, pos)
  {
  }

  lemma DecodeRejects(s: seq<bv8>, start: nat, pos: nat, acc: u64)
    requires pos < MAX_SIZE && start + pos < |s| && DecodeSoFar(s, start, pos, acc)
    requires !DecodeStep(s[start + pos], pos, acc).Ok?
    ensures Decoding(s[start..]) == Parse(if DecodeStep(s[start + pos], pos, acc).Err? then Err else Panic, pos + 1)
  {
    assert s[start + pos..][0] == s[start + pos];
  }

  lemma DecodeStops(s: seq<bv8>, start: nat, pos: nat, acc: u64, next: u64)
    requires pos < MAX_SIZE && start + pos < |s| && DecodeSoFar(s, start, pos, acc)
    requires DecodeStep(s[start + pos], pos, acc) == Ok((false, next))
    ensures Decoding(s[start..]) == Parse(Finish(Ok(next)), pos + 1)
  {
    assert s[start + pos..][0] == s[start + pos];
  }

  lemma DecodeContinues(s: seq<bv8>, start: nat, pos: nat, acc: u64, next: u64)
    requires pos < MAX_SIZE && start + pos < |s| && DecodeSoFar(s, start, pos, acc)
    requires DecodeStep(s[start + pos], pos, acc) == Ok((true, next))
    ensures DecodeSoFar(s, start, pos + 1, next)
  {
    var k := start + pos;
    assert s[k..][0] == s[k] && s[k..][1..] == s[k + 1..];
  }

  /** At position 0 the whole byte, high bit included, becomes the accumulator. */
  lemma DecodeStepAt0(b: bv8)
    ensures DecodeStep(b, 0, 0) == Ok((b & CONTINUE_BITS != 0, b as bv64))
  {
    assert DecodeChunk(b, 0) == Ok((b & CONTINUE_BITS != 0, b as bv64));
    OrZero(b as bv64);
  }

  lemma OrZero(x: bv64)
    ensures 0 | x == x
  {
  }

  /** At position 1 the aligned chunk `(b & 1) << 7` is bit 7, so an accumulator that
      already holds bit 7 is left as it is. */
  lemma DecodeStepAt1(b: bv8, acc: u64)
    requires acc & 0x80 != 0
    ensures DecodeStep(b, 1, acc) == Ok((b & CONTINUE_BITS != 0, acc))
  {
    assert DecodeChunk(b, 1) == Ok((b & CONTINUE_BITS != 0, ((b & 1) as bv64) << 7));
    OrBit7(b, acc);
  }

  lemma OrBit7(b: bv8, acc: bv64)
    requires acc & 0x80 != 0
    ensures acc | (((b & 1) as bv64) << 7) == acc
  {
  }

  /** Position 0 of the `decode` loop. */
  lemma DecodeLoopAt0(s: seq<bv8>)
    requires s != []
    ensures DecodeLoop(s, 0, 0) ==
      if s[0] & CONTINUE_BITS == 0 then Parse(Ok(s[0] as bv64), 1)
      else Advance(DecodeLoop(s[1..], 1, s[0] as bv64), 1)
  {
    DecodeStepAt0(s[0]);
  }

  /** Position 1 after a flagged first byte. */
  lemma DecodeLoopAt1(t: seq<bv8>, acc: u64)
    requires acc & 0x80 != 0
    ensures DecodeLoop(t, 1, acc) ==
      if t == [] then Parse(Err, 0)
      else if t[0] & CONTINUE_BITS == 0 then Parse(Ok(acc), 1)
      else Advance(DecodeLoop(t[1..], 2, acc), 1)
  {
    if t != [] {
      DecodeStepAt1(t[0], acc);
    }
  }

  /** Position 2: any byte read here panics in `align_chunk`. */
  lemma DecodeLoopAt2(t: seq<bv8>, acc: u64)
    ensures DecodeLoop(t, 2, acc) == if t == [] then Parse(Err, 0) else Parse(Panic, 1)
  {
    if t != [] {
      assert DecodeStep(t[0], 2, acc) == Panic;
    }
  }

  /** The `decode` loop after a flagged first byte: bit 7 of the accumulator is set,
      so a second byte adds nothing, and a third byte panics. */
  lemma DecodeLoopFlagged(s: seq<bv8>)
    requires s != [] && s[0] & CONTINUE_BITS != 0
    ensures DecodeLoop(s, 0, 0) ==
      if |s| == 1 then Parse(Err, 1)
      else if s[1] & CONTINUE_BITS == 0 then Parse(Ok(s[0] as bv64), 2)
      else if |s| == 2 then Parse(Err, 2)
      else Parse(Panic, 3)
  {
    DecodeLoopAt0(s);
    WidenKeepsBit7(s[0]);
    var t := s[1..];
    DecodeLoopAt1(t, s[0] as bv64);
    if |s| >= 2 && s[1] & CONTINUE_BITS != 0 {
      assert t[0] == s[1] && t[1..] == s[2..];
      DecodeLoopAt2(s[2..], s[0] as bv64);
    }
  }

  /** The `decode` loop from its start, case by case. */
  lemma DecodeLoopCases(s: seq<bv8>)
    ensures DecodeLoop(s, 0, 0) ==
      if |s| == 0 then Parse(Err, 0)
      else if s[0] & CONTINUE_BITS == 0 then Parse(Ok(s[0] as bv64), 1)
      else if |s| == 1 then Parse(Err, 1)
      else if s[1] & CONTINUE_BITS == 0 then Parse(Ok(s[0] as bv64), 2)
      else if |s| == 2 then Parse(Err, 2)
      else Parse(Panic, 3)
  {
    if s != [] {
      if s[0] & CONTINUE_BITS == 0 {
        DecodeLoopAt0(s);
      } else {
        DecodeLoopFlagged(s);
      }
    }
  }

  lemma WidenKeepsBit7(b: bv8)
    requires b & CONTINUE_BITS != 0
    ensures (b as bv64) & 0x80 != 0
  {
  }

  /** `decode`, case by case: it fails when the bytes run out before a byte with a
      clear high bit; it stops right after such a byte and then returns the FIRST byte
      read (0..255, so the final `try_into` never fails); and a third byte, read after
      two flagged ones, panics on the position-2 shift. It never reads more than three
      bytes, so the position-4 rejection is never reached. */
  lemma DecodingCases(s: seq<bv8>)
    ensures Decoding(s) ==
      if |s| == 0 then Parse(Err, 0)
      else if s[0] & CONTINUE_BITS == 0 then Parse(Ok(VarInt(s[0] as bv64)), 1)
      else if |s| == 1 then Parse(Err, 1)
      else if s[1] & CONTINUE_BITS == 0 then Parse(Ok(VarInt(s[0] as bv64)), 2)
      else if |s| == 2 then Parse(Err, 2)
      else Parse(Panic, 3)
  {
    DecodeLoopCases(s);
    if |s| >= 1 {
      assert ToSigned(s[0] as bv64) == Ok(s[0] as bv64);
    }
  }

  /** `decode` builds its value solely from the bytes it consumes: when it does not
      run out of bytes, those bytes followed by anything else decode the same way. */
  lemma DecodeReadsOnlyWhatItNeeds(s: seq<bv8>, t: seq<bv8>)
    requires Decoding(s).consumed < |s| || Decoding(s).outcome != Err
    ensures Decoding(s).consumed <= |s|
    ensures Decoding(s[..Decoding(s).consumed] + t) == Decoding(s)
  {
    var n := Decoding(s).consumed;
    DecodingCases(s);
    DecodingCases(s[..n] + t);
  }

  /** `decode` of what `encode` writes for any non-negative `v` reads only the first
      byte and returns `v & 0x7F`: only the low seven bits survive the round trip. */
  lemma DecodeOfEncoding(v: VarInt)
    requires !IsNegative(v.value)
    ensures Encoding(v).Ok?
    ensures Decoding(Encoding(v).value) == Parse(Ok(VarInt(v.value & 0x7F)), 1)
  {
    EncodingShape(v);
    DecodingCases(Encoding(v).value);
  }

  /** The round-trip law for this codec holds exactly for `0 <= v <= 127`. */
  lemma RoundTripIff(v: VarInt)
    requires !IsNegative(v.value)
    ensures Encoding(v).Ok?
    ensures Decoding(Encoding(v).value).outcome == Ok(v) <==> v.value <= 127
  {
    DecodeOfEncoding(v);
  }

  /** The smallest value outside the round trip: 128 encodes to `00 01`, which
      decodes to 0. */
  lemma RoundTripFailsAt128()
    ensures Encoding(VarInt(128)) == Ok([0x00, 0x01])
    ensures Decoding([0x00, 0x01]) == Parse(Ok(VarInt(0)), 1)
  {
    Bits128();
    assert EncodeFrom(1, 1) == [0x01];
    assert EncodeFrom(128, 0) == [0x00] + EncodeFrom(1, 1);
    assert EncodeFrom(128, 0) == [0x00, 0x01];
    assert Encoding(VarInt(128)) == Ok(EncodeFrom(128, 0));
    DecodingCases([0x00, 0x01]);
  }

  lemma Bits128()
    ensures !IsNegative(128) && ChunkToWrite(128) == 0x00 && (128 as bv64) >> 7 == 1
    ensures ChunkToWrite(1) == 0x01 && (1 as bv64) >> 7 == 0
  {
  }

  /** `decode`: reads one byte per chunk position, at most `MAX_SIZE`, ORs each
      aligned chunk into the accumulator and converts it to `i64`. Its result and the
      bytes it takes are those of `Decoding` on the bytes the source had left. */
  method Decode(source: Source) returns (r: Outcome<VarInt>)
    requires source.Valid()
    modifies source`pos
    ensures source.Valid()
    ensures r == Decoding(old(source.Remaining())).outcome
    ensures source.pos == old(source.pos) + Decoding(old(source.Remaining())).consumed
  {
    ghost var start := source.pos;
    ghost var bytes := source.bytes;
    ghost var stopped := false;
    var result: u64 := 0;
    for pos := 0 to MAX_SIZE
      invariant source.Valid() && source.pos == start + pos
      invariant DecodeSoFar(bytes, start, pos, result)
      invariant !stopped
    {
      var ok, chunk := source.Read();
      if !ok {
        DecodeOutOfBytes(bytes, start, pos, result);
        return Err;
      }
      var decoded := DecodeStep(chunk, pos, result);
      if decoded.Err? {
        DecodeRejects(bytes, start, pos, result);
        return Err;
      } else if decoded.Panic? {
        DecodeRejects(bytes, start, pos, result);
        return Panic;
      }
      var (continues, next) := decoded.value;
      if !continues {
        DecodeStops(bytes, start, pos, result, next);
        result := next;
        stopped := true;
        break;
      }
      DecodeContinues(bytes, start, pos, result, next);
      result := next;
    }
    if !stopped {
      // Five iterations without a stop cannot happen: `decode` reads at most three bytes.
      DecodeLoopCases(bytes[start..]);
      assert false;
    }
    r := Finish(Ok(result));
  }

  /** The bytes `encode` writes stay within `MAX_SIZE`. */
  lemma EncodingFits(v: VarInt)
    requires !IsNegative(v.value)
    ensures Encoding(v).Ok? && 1 <= |Encoding(v).value| <= MAX_SIZE
  {
    EncodeFromLength(v.value, 0);
  }

  /** A buffer that starts with what `encode` writes for `v` decodes to `v & 0x7F`,
      whatever follows. */
  lemma DecodeOfBuffer(v: VarInt, buf: seq<bv8>)
    requires !IsNegative(v.value)
    requires Encoding(v).Ok? && |Encoding(v).value| <= |buf|
    requires buf[..|Encoding(v).value|] == Encoding(v).value
    ensures Decoding(buf) == Parse(Ok(VarInt(v.value & 0x7F)), 1)
  {
    var e := Encoding(v).value;
    DecodeOfEncoding(v);
    DecodeReadsOnlyWhatItNeeds(e, buf[1..]);
    assert e[..1] + buf[1..] == buf;
  }

  /** Only values of seven bits are unchanged by keeping their low seven bits. */
  lemma LowSevenBitsIff(x: bv64)
    ensures x & 0x7F == x <==> x <= 127
  {
  }

  lemma NotNegativeBelow40Bits(x: bv64)
    requires x < 0x100_0000_0000
    ensures !IsNegative(x)
  {
  }

  /** The round-trip property test: encode `val` into a zero-filled five-byte buffer,
      then decode from the start of that buffer. Both `unwrap`s succeed for every
      `0 <= val < 2^40`, but the value comes back as `val & 0x7F`. */
  method EncodeDecodeAreInvertible(val: i64) returns (encoded: Outcome<()>, r: Outcome<VarInt>)
    requires val < 0x100_0000_0000
    ensures encoded == Ok(())
    ensures r == Ok(VarInt(val & 0x7F))
    ensures r == Ok(VarInt(val)) <==> val <= 127
  {
    var varInt := VarInt(val);
    NotNegativeBelow40Bits(val);
    EncodingFits(varInt);
    var buf := new Sink(5);
    encoded := Encode(varInt, buf);
    ghost var e := Encoding(varInt).value;
    assert e[..|e|] == e;
    var cursor := new Source(buf.buf[..]);
    DecodeOfBuffer(varInt, buf.buf[..]);
    r := Decode(cursor);
    LowSevenBitsIff(val);
  }
}
