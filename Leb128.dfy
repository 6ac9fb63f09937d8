/**
 The codec src/types/VarInt.rs evidently means to implement: the LEB128-style
 format its comments describe, with seven data bits per byte, least significant
 group first, and the high bit of a byte set exactly when another byte follows.

 Everything the code gets right is kept (the `MAX_SIZE` of five bytes, the loop
 shapes, the rejection of a flagged fifth byte, the `i64`/`u64` conversions); the
 corrections are:
 - `encode` sets the continuation bit when more bits remain (line 78);
 - `align_chunk` masks the data bits and widens the chunk to `u64` before shifting
   it into place (line 39).
 With both, the round trip holds for every value below `2^35`, the values whose
 bits fit in five groups of seven, and decoding never panics.
 */
module Leb128 {
  import opened Codec
  import opened VarInt
  import AsWritten = VarInt

  /** `x << 7k`: where the chunk in position `k` of a varint goes in the value. The
      positions read are 0 to `MAX_SIZE - 1`, so the shift amounts are 0, 7, 14, 21, 28. */
  function Shl7(x: u64, k: nat): u64
    requires k < MAX_SIZE
  {
    if k == 0 then x << 0
    else if k == 1 then x << 7
    else if k == 2 then x << 14
    else if k == 3 then x << 21
    else x << 28
  }

  /** `u` fits in `n` chunks of seven bits: nothing of it is left after `n` of them. */
  predicate Fits(u: u64, n: nat)
  {
    if n == 0 then u == 0 else Fits(u >> 7, n - 1)
  }

  /** A value that does not fit in one chunk fits, less its first chunk, in one fewer. */
  lemma FitsRest(u: u64, i: nat)
    requires i < MAX_SIZE && Fits(u, MAX_SIZE - i) && u >> 7 != 0
    ensures i < MAX_SIZE - 1 && Fits(u >> 7, MAX_SIZE - (i + 1))
  {
  }

  /** Five chunks hold exactly the values below `2^35`. */
  lemma FitsFive(x: u64)
    ensures Fits(x, MAX_SIZE) <==> x < LIMIT_35
  {
    assert Fits(x, 5) == Fits(x >> 7, 4) == Fits((x >> 7) >> 7, 3);
    assert Fits((x >> 7) >> 7, 3) == Fits(((x >> 7) >> 7) >> 7, 2) == Fits((((x >> 7) >> 7) >> 7) >> 7, 1);
    assert Fits((((x >> 7) >> 7) >> 7) >> 7, 1) == Fits(((((x >> 7) >> 7) >> 7) >> 7) >> 7, 0);
    Shr35(x);
  }

  /** Five shifts by seven leave nothing of exactly the values below `2^35`. */
  lemma Shr35(x: bv64)
    ensures ((((x >> 7) >> 7) >> 7) >> 7) >> 7 == 0 <==> x < LIMIT_35
  {
  }

  /* ---------------------------------------------------------------- chunks */

  /** `align_chunk` corrected: the data bits of the chunk, widened, then shifted to
      their place; it cannot overflow at any position `decode` reads. */
  function AlignChunk(chunk: bv8, chunkPos: nat): u64
    requires chunkPos < MAX_SIZE
  {
    Shl7((chunk & DATA_BITS) as bv64, chunkPos)
  }

  /** `decode_chunk` with the corrected alignment: a flagged chunk in the last allowed
      position is rejected, any other yields its flag and its aligned data bits. */
  function DecodeChunk(chunk: bv8, pos: nat): (r: Outcome<(bool, u64)>)
    requires pos < MAX_SIZE
    ensures r.Err? <==> pos == MAX_SIZE - 1 && chunk & CONTINUE_BITS != 0
    ensures !r.Panic?
    ensures r.Ok? ==> r.value == (chunk & CONTINUE_BITS != 0, AlignChunk(chunk, pos))
  {
    var continues := chunk & CONTINUE_BITS != 0;
    if continues && pos == MAX_SIZE - 1 then Err
    else Ok((continues, AlignChunk(chunk, pos)))
  }

  /* -------------------------------------------------------------- encoding */

  /** The byte the corrected `encode` loop writes for the remaining `value`: its low
      seven bits, with the continuation bit set when more bits remain. */
  function ChunkToWrite(value: u64): bv8
  {
    var data := LowByte(value) & DATA_BITS;
    var rest := value >> 7;
    data | if rest == 0 then 0 else CONTINUE_BITS
  }

  /** The byte holds the low seven bits, and its high bit says whether bits remain. */
  lemma ChunkToWriteBits(value: u64)
    ensures (ChunkToWrite(value) & DATA_BITS) as bv64 == value & 0x7F
    ensures ChunkToWrite(value) & CONTINUE_BITS != 0 <==> value >> 7 != 0
  {
  }

  /** The bytes the corrected `encode` loop writes from iteration `i` on. */
  function EncodeFrom(value: u64, i: nat): seq<bv8>
    decreases MAX_SIZE - i
  {
    if i >= MAX_SIZE then []
    else
      var rest := value >> 7;
      [ChunkToWrite(value)] + if rest == 0 then [] else EncodeFrom(rest, i + 1)
  }

  /** What the corrected `encode` writes for `v` when the writer accepts every byte. */
  function Encoding(v: VarInt): Outcome<seq<bv8>>
  {
    match ToUnsigned(v.value)
    case Ok(u) => Ok(EncodeFrom(u, 0))
    case _ => Err
  }

  /** From iteration `i` on, for a remaining `value` whose bits fit in the iterations
      left, every byte but the last carries the continuation bit and the last does not. */
  lemma {:induction false} EncodeFromContinuation(value: u64, i: nat)
    requires i < MAX_SIZE && Fits(value, MAX_SIZE - i)
    ensures EncodeFrom(value, i) != []
    ensures forall k :: 0 <= k < |EncodeFrom(value, i)| ==>
      (EncodeFrom(value, i)[k] & CONTINUE_BITS != 0 <==> k < |EncodeFrom(value, i)| - 1)
    decreases MAX_SIZE - i
  {
    var e := EncodeFrom(value, i);
    var rest := value >> 7;
    ChunkToWriteBits(value);
    if rest != 0 {
      FitsRest(value, i);
      EncodeFromContinuation(rest, i + 1);
      var e' := EncodeFrom(rest, i + 1);
      assert e == [ChunkToWrite(value)] + e';
      forall k | 1 <= k < |e|
        ensures e[k] & CONTINUE_BITS != 0 <==> k < |e| - 1
      {
        assert e[k] == e'[k - 1];
      }
    }
  }

  /** Below `2^35` the corrected `encode` writes between one and `MAX_SIZE` bytes and
      sets the continuation bit on every byte except the last. */
  lemma EncodingContinuationBits(v: VarInt)
    requires v.value < LIMIT_35
    ensures Encoding(v).Ok?
    ensures var e := Encoding(v).value;
      && 1 <= |e| <= MAX_SIZE
      && forall k :: 0 <= k < |e| ==> (e[k] & CONTINUE_BITS != 0 <==> k < |e| - 1)
  {
    NotNegativeBelow35Bits(v.value);
    FitsFive(v.value);
    EncodeFromContinuation(v.value, 0);
    AsWritten.EncodeFromLength(v.value, 0);
    LengthAgrees(v.value, 0);
  }

  /** The continuation bit changes no byte count: both codecs write as many bytes. */
  lemma {:induction false} LengthAgrees(value: u64, i: nat)
    ensures |EncodeFrom(value, i)| == |AsWritten.EncodeFrom(value, i)|
    decreases MAX_SIZE - i
  {
    if i < MAX_SIZE && value >> 7 != 0 {
      LengthAgrees(value >> 7, i + 1);
    }
  }

  /** Values below `2^35` are neither negative as `i64` nor rejected by the final cast. */
  lemma NotNegativeBelow35Bits(x: u64)
    requires x < LIMIT_35
    ensures !IsNegative(x) && ToSigned(x) == Ok(x)
  {
  }

  /* -------------------------------------------------------------- decoding */

  /** One iteration of the corrected `decode` loop: `decode_chunk`, then
      `result |= data`. */
  function DecodeStep(chunk: bv8, pos: nat, result: u64): Outcome<(bool, u64)>
    requires pos < MAX_SIZE
  {
    match DecodeChunk(chunk, pos)
    case Ok((continues, data)) => Ok((continues, result | data))
    case Err => Err
    case Panic => Panic
  }

  /** What the corrected `decode` loop does from chunk position `pos` on with the
      accumulator `result`, reading from `input`. */
  function DecodeLoop(input: seq<bv8>, pos: nat, result: u64): Parse<u64>
    decreases MAX_SIZE - pos
  {
    if pos >= MAX_SIZE then Parse(Ok(result), 0)
    else if input == [] then Parse(Err, 0)
    else match DecodeStep(input[0], pos, result)
      case Err => Parse(Err, 1)
      case Panic => Parse(Panic, 1)
      case Ok((continues, next)) =>
        if !continues then Parse(Ok(next), 1)
        else Advance(DecodeLoop(input[1..], pos + 1, next), 1)
  }

  /** What the corrected `decode` returns, and how many bytes it reads. */
  function Decoding(input: seq<bv8>): Parse<VarInt>
  {
    var p := DecodeLoop(input, 0, 0);
    Parse(Finish(p.outcome), p.consumed)
  }

  /** The corrected loop never panics, and it reads at most one byte per position
      left and never more than it is given. */
  lemma {:induction false} DecodeLoopBounds(input: seq<bv8>, pos: nat, result: u64)
    ensures DecodeLoop(input, pos, result).outcome != Panic
    ensures DecodeLoop(input, pos, result).consumed <= |input|
    ensures pos <= MAX_SIZE ==> DecodeLoop(input, pos, result).consumed <= MAX_SIZE - pos
    decreases MAX_SIZE - pos
  {
    if pos < MAX_SIZE && input != [] {
      match DecodeStep(input[0], pos, result)
      case Ok((continues, next)) =>
        if continues {
          DecodeLoopBounds(input[1..], pos + 1, next);
        }
      case _ =>
    }
  }

  /** `decode` with the corrected alignment never panics and reads at most `MAX_SIZE`
      bytes, whatever its input. */
  lemma DecodingBounds(input: seq<bv8>)
    ensures !Decoding(input).outcome.Panic?
    ensures Decoding(input).consumed <= MAX_SIZE && Decoding(input).consumed <= |input|
  {
    DecodeLoopBounds(input, 0, 0);
  }

  /** A value with nothing beyond its low seven bits is its low seven bits. */
  lemma LowSevenAll(u: bv64)
    requires u >> 7 == 0
    ensures u & 0x7F == u
  {
  }

  /** The last byte of an encoding stands, in its place, for all that is left. */
  lemma AlignLast(u: u64, i: nat)
    requires i < MAX_SIZE && u >> 7 == 0
    ensures AlignChunk(ChunkToWrite(u), i) == Shl7(u, i)
  {
    ChunkToWriteBits(u);
    LowSevenAll(u);
  }

  /** Any other byte stands, in its place, for the low seven bits left. */
  lemma AlignWritten(u: u64, i: nat)
    requires i < MAX_SIZE
    ensures AlignChunk(ChunkToWrite(u), i) == Shl7(u & 0x7F, i)
  {
    ChunkToWriteBits(u);
  }

  /** The low seven bits of a value and the rest of it, each put in its place, make
      up the value put in its place, on top of any accumulator. */
  lemma ChunkSplit(u: bv64, acc: bv64, i: nat)
    requires i < MAX_SIZE - 1
    ensures (acc | Shl7(u & 0x7F, i)) | Shl7(u >> 7, i + 1) == acc | Shl7(u, i)
  {
    if i == 0 {
      ChunkSplitAt0(u, acc, i);
    } else if i == 1 {
      ChunkSplitAt1(u, acc, i);
    } else if i == 2 {
      ChunkSplitAt2(u, acc, i);
    } else {
      ChunkSplitAt3(u, acc, i);
    }
  }

  /* ChunkSplit at each position on its own, each a fact about 64 bits. */

  lemma ChunkSplitAt0(u: bv64, acc: bv64, i: nat)
    requires i == 0
    ensures (acc | Shl7(u & 0x7F, i)) | Shl7(u >> 7, i + 1) == acc | Shl7(u, i)
  {
  }

  lemma ChunkSplitAt1(u: bv64, acc: bv64, i: nat)
    requires i == 1
    ensures (acc | Shl7(u & 0x7F, i)) | Shl7(u >> 7, i + 1) == acc | Shl7(u, i)
  {
  }

  lemma ChunkSplitAt2(u: bv64, acc: bv64, i: nat)
    requires i == 2
    ensures (acc | Shl7(u & 0x7F, i)) | Shl7(u >> 7, i + 1) == acc | Shl7(u, i)
  {
  }

  lemma ChunkSplitAt3(u: bv64, acc: bv64, i: nat)
    requires i == 3
    ensures (acc | Shl7(u & 0x7F, i)) | Shl7(u >> 7, i + 1) == acc | Shl7(u, i)
  {
  }

  /** A decoding iteration, given the flag of the chunk and what it adds. */
  lemma DecodeStepOf(b: bv8, i: nat, acc: u64, flag: bool, next: u64)
    requires i < MAX_SIZE && !(i == MAX_SIZE - 1 && flag)
    requires (b & CONTINUE_BITS != 0) == flag && acc | AlignChunk(b, i) == next
    ensures DecodeStep(b, i, acc) == Ok((flag, next))
  {
    DecodeChunkOk(b, i, flag);
    assert DecodeChunk(b, i) == Ok((flag, AlignChunk(b, i)));
  }

  /** `decode_chunk` of a chunk it does not reject. */
  lemma DecodeChunkOk(b: bv8, i: nat, flag: bool)
    requires i < MAX_SIZE && !(i == MAX_SIZE - 1 && flag)
    requires (b & CONTINUE_BITS != 0) == flag
    ensures DecodeChunk(b, i) == Ok((flag, AlignChunk(b, i)))
  {
  }

  /** The encoding from iteration `i` on of a value left that fits in one byte. */
  lemma EncodeFromLast(u: u64, i: nat)
    requires i < MAX_SIZE && u >> 7 == 0
    ensures EncodeFrom(u, i) == [ChunkToWrite(u)]
  {
  }

  /** The encoding from iteration `i` on of a value left that does not. */
  lemma EncodeFromCons(u: u64, i: nat)
    requires i < MAX_SIZE && u >> 7 != 0
    ensures EncodeFrom(u, i) == [ChunkToWrite(u)] + EncodeFrom(u >> 7, i + 1)
  {
  }

  /** A decoding iteration that ends the loop. */
  lemma DecodeLoopStops(b: bv8, t: seq<bv8>, i: nat, acc: u64, next: u64)
    requires i < MAX_SIZE && DecodeStep(b, i, acc) == Ok((false, next))
    ensures DecodeLoop([b] + t, i, acc) == Parse(Ok(next), 1)
  {
    assert ([b] + t)[0] == b;
  }

  /** A decoding iteration after which the loop goes on. */
  lemma DecodeLoopGoesOn(b: bv8, r: seq<bv8>, t: seq<bv8>, i: nat, acc: u64, next: u64)
    requires i < MAX_SIZE && DecodeStep(b, i, acc) == Ok((true, next))
    ensures DecodeLoop([b] + r + t, i, acc) == Advance(DecodeLoop(r + t, i + 1, next), 1)
  {
    assert ([b] + r + t)[0] == b && ([b] + r + t)[1..] == r + t;
  }

  /** The last byte of an encoding decodes, in any position, to the value left. */
  lemma DecodeEncodeLast(u: u64, i: nat, acc: u64, t: seq<bv8>)
    requires i < MAX_SIZE && u >> 7 == 0
    ensures DecodesAt(u, i, acc, t)
  {
    var b := ChunkToWrite(u);
    EncodeFromLast(u, i);
    ChunkToWriteBits(u);
    AlignLast(u, i);
    DecodeStepOf(b, i, acc, false, acc | Shl7(u, i));
    DecodeLoopStops(b, t, i, acc, acc | Shl7(u, i));
  }

  /** Any other byte of an encoding decodes to its chunk, and decoding goes on with the
      rest of the encoding one position on. */
  lemma DecodeEncodeCons(u: u64, i: nat, acc: u64, t: seq<bv8>)
    requires i < MAX_SIZE - 1 && u >> 7 != 0
    ensures DecodeLoop(EncodeFrom(u, i) + t, i, acc) ==
      Advance(DecodeLoop(EncodeFrom(u >> 7, i + 1) + t, i + 1, acc | Shl7(u & 0x7F, i)), 1)
  {
    var b := ChunkToWrite(u);
    EncodeFromCons(u, i);
    ChunkToWriteBits(u);
    AlignWritten(u, i);
    DecodeStepOf(b, i, acc, true, acc | Shl7(u & 0x7F, i));
    DecodeLoopGoesOn(b, EncodeFrom(u >> 7, i + 1), t, i, acc, acc | Shl7(u & 0x7F, i));
  }

  /** The heart of the round trip: decoding, from position `i` on and on top of the
      accumulator `acc`, the bytes the corrected `encode` writes from iteration `i` on
      for a remaining value `u` that fits in the positions left, reads exactly those
      bytes, whatever follows them, and adds `u` in its place, `u << 7i`. */
  lemma {:induction false} DecodeEncodeFrom(u: u64, i: nat, acc: u64, t: seq<bv8>)
    requires i < MAX_SIZE && Fits(u, MAX_SIZE - i)
    ensures DecodesAt(u, i, acc, t)
    decreases MAX_SIZE - i
  {
    var rest := u >> 7;
    if rest == 0 {
      DecodeEncodeLast(u, i, acc, t);
    } else {
      FitsRest(u, i);
      var next := acc | Shl7(u & 0x7F, i);
      DecodeEncodeFrom(rest, i + 1, next, t);
      DecodeEncodeNext(u, i, acc, t);
    }
  }

  /** Decoding the encoding of `u` from position `i` on, followed by `t`, on top of
      `acc`, yields `acc` with `u` in its place and reads the encoding and no more. */
  predicate DecodesAt(u: u64, i: nat, acc: u64, t: seq<bv8>)
    requires i < MAX_SIZE
  {
    DecodeLoop(EncodeFrom(u, i) + t, i, acc) == Parse(Ok(acc | Shl7(u, i)), |EncodeFrom(u, i)|)
  }

  /** One step of the induction: what decoding the rest of the encoding one position on
      adds, together with the chunk before it, is the value left in its place. */
  lemma DecodeEncodeNext(u: u64, i: nat, acc: u64, t: seq<bv8>)
    requires i < MAX_SIZE - 1 && u >> 7 != 0
    requires DecodesAt(u >> 7, i + 1, acc | Shl7(u & 0x7F, i), t)
    ensures DecodesAt(u, i, acc, t)
  {
    DecodeEncodeCons(u, i, acc, t);
    ChunkSplit(u, acc, i);
    EncodeFromCons(u, i);
    Glue(DecodeLoop(EncodeFrom(u, i) + t, i, acc),
      DecodeLoop(EncodeFrom(u >> 7, i + 1) + t, i + 1, acc | Shl7(u & 0x7F, i)),
      (acc | Shl7(u & 0x7F, i)) | Shl7(u >> 7, i + 1), acc | Shl7(u, i),
      |EncodeFrom(u, i)|, |EncodeFrom(u >> 7, i + 1)|);
  }

  /** Joins the two halves of a decoding step: the chunk read first and the rest. */
  lemma Glue(p: Parse<u64>, q: Parse<u64>, x: u64, y: u64, n: nat, m: nat)
    requires p == Advance(q, 1) && q == Parse(Ok(x), m) && x == y && n == m + 1
    ensures p == Parse(Ok(y), n)
  {
  }

  /** Starting from an empty accumulator, the value at position 0 is the value. */
  lemma ShiftNone(u: bv64)
    ensures 0 | Shl7(u, 0) == u
  {
  }

  /** The round trip: for every `0 <= v < 2^35`, decoding what the corrected `encode`
      writes, followed by any bytes at all, yields `v` and reads exactly the encoding. */
  lemma RoundTrip(v: VarInt, t: seq<bv8>)
    requires v.value < LIMIT_35
    ensures Encoding(v).Ok?
    ensures Decoding(Encoding(v).value + t) == Parse(Ok(v), |Encoding(v).value|)
  {
    NotNegativeBelow35Bits(v.value);
    FitsFive(v.value);
    DecodeEncodeFrom(v.value, 0, 0, t);
    assert DecodesAt(v.value, 0, 0, t);
    ShiftNone(v.value);
  }

  /** The values the round-trip property test draws, `0..2^40`, include values that
      five bytes of seven data bits cannot hold: even the corrected codec writes `2^35`
      as five flagged bytes, and decoding them fails on the flagged fifth byte. */
  lemma TestDomainExceedsFiveBytes()
    ensures Encoding(VarInt(LIMIT_35)) == Ok([0x80, 0x80, 0x80, 0x80, 0x80])
    ensures Decoding([0x80, 0x80, 0x80, 0x80, 0x80]).outcome == Err
  {
    BitsOf35();
    assert EncodeFrom(0x80, 4) == [0x80];
    assert EncodeFrom(0x4000, 3) == [0x80, 0x80];
    assert EncodeFrom(0x20_0000, 2) == [0x80, 0x80, 0x80];
    assert EncodeFrom(0x1000_0000, 1) == [0x80, 0x80, 0x80, 0x80];
    assert EncodeFrom(LIMIT_35, 0) == [0x80, 0x80, 0x80, 0x80, 0x80];
    assert Encoding(VarInt(LIMIT_35)) == Ok(EncodeFrom(LIMIT_35, 0));
    var s: seq<bv8> := [0x80, 0x80, 0x80, 0x80, 0x80];
    FlaggedFifthByte();
    OrZero(0);
    assert DecodeLoop(s[4..], 4, 0) == Parse(Err, 1);
    assert DecodeLoop(s[3..], 3, 0) == Parse(Err, 2);
    assert DecodeLoop(s[2..], 2, 0) == Parse(Err, 3);
    assert DecodeLoop(s[1..], 1, 0) == Parse(Err, 4);
  }

  /** The chunks of `2^35`: four empty chunks and then one more value left, each byte
      written with only the continuation bit. */
  lemma BitsOf35()
    ensures !IsNegative(LIMIT_35)
    ensures LIMIT_35 >> 7 == 0x1000_0000 && ChunkToWrite(LIMIT_35) == 0x80
    ensures (0x1000_0000 as bv64) >> 7 == 0x20_0000 && ChunkToWrite(0x1000_0000) == 0x80
    ensures (0x20_0000 as bv64) >> 7 == 0x4000 && ChunkToWrite(0x20_0000) == 0x80
    ensures (0x4000 as bv64) >> 7 == 0x80 && ChunkToWrite(0x4000) == 0x80
    ensures (0x80 as bv64) >> 7 == 1 && ChunkToWrite(0x80) == 0x80
  {
  }

  /** A byte with only the continuation bit decodes to nothing in the first four
      positions and is rejected in the fifth. */
  lemma FlaggedFifthByte()
    ensures DecodeChunk(0x80, 4) == Err
    ensures forall k :: 0 <= k < 4 ==> DecodeChunk(0x80, k) == Ok((true, 0))
  {
    forall k | 0 <= k < 4
      ensures DecodeChunk(0x80, k) == Ok((true, 0))
    {
      ZeroChunk(k);
    }
  }

  /** A byte with no data bits aligns to nothing at any position. */
  lemma ZeroChunk(k: nat)
    requires k < MAX_SIZE
    ensures AlignChunk(0x80, k) == 0
  {
  }

  /* ------------------------------------------- the corrected codec over a sink and a source */

  /** One iteration of the corrected `encode` loop unfolded: the byte it writes for the
      remaining `value`, then either the end or the loop on `value >> 7`. */
  lemma EncodeFromUnfold(value: u64, i: nat)
    requires i < MAX_SIZE
    ensures EncodeFrom(value, i) != []
    ensures EncodeFrom(value, i)[0] == ChunkToWrite(value)
    ensures EncodeFrom(value, i)[1..] == if value >> 7 == 0 then [] else EncodeFrom(value >> 7, i + 1)
  {
  }

  /** The corrected `encode`: rejects a negative value without writing; otherwise
      writes the bytes of `Encoding(v)` one by one and fails, keeping what it wrote, at
      the first write the sink refuses. */
  method Encode(v: VarInt, sink: Sink) returns (r: Outcome<()>)
    requires sink.Valid()
    modifies sink`len, sink.buf
    ensures sink.Valid() && sink.buf == old(sink.buf)
    ensures IsNegative(v.value) ==> r == Err && sink.Written() == old(sink.Written())
    ensures !IsNegative(v.value) ==>
      var e := Encoding(v).value;
      && (r == if |e| <= old(sink.Room()) then Ok(()) else Err)
      && sink.Written() == old(sink.Written()) + e[..Min(|e|, old(sink.Room()))]
  {
    var unsigned := ToUnsigned(v.value);
    if !unsigned.Ok? {
      return Err;
    }
    var value := unsigned.value;
    ghost var e := EncodeFrom(value, 0);
    ghost var room0 := sink.Room();
    ghost var written0 := sink.Written();
    for i := 0 to MAX_SIZE
      invariant sink.Valid() && sink.buf == old(sink.buf)
      invariant i <= room0 == sink.Room() + i
      invariant i <= |e| && EncodeFrom(value, i) == e[i..]
      invariant sink.Written() == written0 + e[..i]
    {
      EncodeFromUnfold(value, i);
      var toWrite := ChunkToWrite(value);
      value := value >> 7;
      var ok := sink.Write(toWrite);
      if !ok {
        WrittenOnExit(e, room0, i, true);
        return Err;
      }
      PrefixExtend(written0, e, i);
      if value == 0 {
        WrittenOnExit(e, room0, i + 1, false);
        return Ok(());
      }
    }
    WrittenOnExit(e, room0, MAX_SIZE, false);
    return Ok(());
  }

  /* The corrected `decode` loop run on `s[start..]`, one iteration at a time:
     `DecodeSoFar` says that the iterations before position `pos` left the
     accumulator `acc`. */

  ghost predicate DecodeSoFar(s: seq<bv8>, start: nat, pos: nat, acc: u64)
  {
    start + pos <= |s| && DecodeLoop(s[start..], 0, 0) == Advance(DecodeLoop(s[start + pos..], pos, acc), pos)
  }

  lemma DecodeOutOfBytes(s: seq<bv8>, start: nat, pos: nat, acc: u64)
    requires pos < MAX_SIZE && start + pos == |s| && DecodeSoFar(s, start, pos, acc)
    ensures Decoding(s[start..]) == Parse(Err, pos)
  {
  }

  lemma DecodeRejects(s: seq<bv8>, start: nat, pos: nat, acc: u64)
    requires pos < MAX_SIZE && start + pos < |s| && DecodeSoFar(s, start, pos, acc)
    requires DecodeStep(s[start + pos], pos, acc).Err?
    ensures Decoding(s[start..]) == Parse(Err, pos + 1)
  {
    assert s[start + pos..][0] == s[start + pos];
  }

  lemma DecodeStops(s: seq<bv8>, start: nat, pos: nat, acc: u64, next: u64)
    requires pos < MAX_SIZE && start + pos < |s| && DecodeSoFar(s, start, pos, acc)
    requires DecodeStep(s[start + pos], pos, acc) == Ok((false, next))
    ensures Decoding(s[start..]) == Parse(Finish(Ok(next)), pos + 1)
  {
    assert s[start + pos..][0] == s[start + pos];
  }

  lemma DecodeContinues(s: seq<bv8>, start: nat, pos: nat, acc: u64, next: u64)
    requires pos < MAX_SIZE && start + pos < |s| && DecodeSoFar(s, start, pos, acc)
    requires DecodeStep(s[start + pos], pos, acc) == Ok((true, next))
    ensures DecodeSoFar(s, start, pos + 1, next)
  {
    var k := start + pos;
    assert s[k..][0] == s[k] && s[k..][1..] == s[k + 1..];
  }

  lemma DecodeRunsOut(s: seq<bv8>, start: nat, acc: u64)
    requires DecodeSoFar(s, start, MAX_SIZE, acc)
    ensures Decoding(s[start..]) == Parse(Finish(Ok(acc)), MAX_SIZE)
  {
  }

  /** The corrected `decode`: reads one byte per chunk position, at most `MAX_SIZE`,
      ORs each aligned chunk into the accumulator and converts it to `i64`. Its result
      and the bytes it takes are those of `Decoding` on the bytes the source had left. */
  method Decode(source: Source) returns (r: Outcome<VarInt>)
    requires source.Valid()
    modifies source`pos
    ensures source.Valid()
    ensures r == Decoding(old(source.Remaining())).outcome
    ensures source.pos == old(source.pos) + Decoding(old(source.Remaining())).consumed
  {
    ghost var start := source.pos;
    ghost var bytes := source.bytes;
    ghost var stopped := false;
    var result: u64 := 0;
    for pos := 0 to MAX_SIZE
      invariant source.Valid() && source.pos == start + pos
      invariant DecodeSoFar(bytes, start, pos, result)
      invariant !stopped
    {
      var ok, chunk := source.Read();
      if !ok {
        DecodeOutOfBytes(bytes, start, pos, result);
        return Err;
      }
      var decoded := DecodeStep(chunk, pos, result);
      if !decoded.Ok? {
        DecodeRejects(bytes, start, pos, result);
        return Err;
      }
      var (continues, next) := decoded.value;
      if !continues {
        DecodeStops(bytes, start, pos, result, next);
        result := next;
        stopped := true;
        break;
      }
      DecodeContinues(bytes, start, pos, result, next);
      result := next;
    }
    if !stopped {
      DecodeRunsOut(bytes, start, result);
    }
    r := Finish(Ok(result));
  }

  /** The round-trip property test run against the corrected codec: encode `val` into a
      zero-filled five-byte buffer, then decode from the start of that buffer. For
      every `0 <= val < 2^35` both steps succeed and the value comes back unchanged. */
  method EncodeDecodeAreInvertible(val: i64) returns (encoded: Outcome<()>, r: Outcome<VarInt>)
    requires val < LIMIT_35
    ensures encoded == Ok(())
    ensures r == Ok(VarInt(val))
  {
    var varInt := VarInt(val);
    NotNegativeBelow35Bits(val);
    EncodingContinuationBits(varInt);
    var buf := new Sink(5);
    encoded := Encode(varInt, buf);
    ghost var e := Encoding(varInt).value;
    assert e[..|e|] == e;
    var cursor := new Source(buf.buf[..]);
    DecodeOfBuffer(varInt, buf.buf[..]);
    r := Decode(cursor);
  }

  /** A buffer that starts with what the corrected `encode` writes for `v` decodes to
      `v`, whatever follows. */
  lemma DecodeOfBuffer(v: VarInt, buf: seq<bv8>)
    requires v.value < LIMIT_35
    requires Encoding(v).Ok? && |Encoding(v).value| <= |buf|
    requires buf[..|Encoding(v).value|] == Encoding(v).value
    ensures Decoding(buf) == Parse(Ok(v), |Encoding(v).value|)
  {
    var e := Encoding(v).value;
    RoundTrip(v, buf[|e|..]);
    assert e + buf[|e|..] == buf;
  }
}
