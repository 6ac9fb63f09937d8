/**
 The vocabulary shared by every wire type of the protocol (src/types/Codec.rs).

 The Rust trait `Codec<T>` declares a per-type constant `MAX_SIZE: NonZeroUsize`,
 `encode(&self, writer) -> Result<(), ()>` and `decode(reader) -> Result<T, ()>`.
 Here the constant's type is `NonZero`, both results are an `Outcome` whose error
 carries no information (the unit error `()`), and the caller-owned `impl Write` /
 `impl Read` are the `Sink` and `Source` classes below, which the codec methods modify.
 */
module Codec {

  /** `NonZeroUsize`: a byte count that can never be zero. */
  type NonZero = n: nat | n > 0 witness 1

  /** The outcome of a codec operation: `Ok(value)`, the unit error `Err`, or `Panic`,
      which stands for a debug-build arithmetic-overflow panic unwinding out of the call. */
  datatype Outcome<T> = Ok(value: T) | Err | Panic

  /** A byte sink that accepts at most `buf.Length` bytes, one `write_all` of one byte
      at a time. A write into a full sink fails and writes nothing; this stands for any
      writer whose first failing write comes after `buf.Length` successful ones. */
  class Sink {
    var buf: array<bv8>
    var len: nat

    ghost predicate Valid()
      reads this
    {
      len <= buf.Length
    }

    /** The bytes written so far. */
    ghost function Written(): seq<bv8>
      reads this, buf
      requires Valid()
    {
      buf[..len]
    }

    /** How many more bytes the sink accepts. */
    function Room(): nat
      reads this
      requires Valid()
    {
      buf.Length - len
    }

    /** A zero-filled buffer of `capacity` bytes with nothing written yet. */
    constructor (capacity: nat)
      ensures Valid() && fresh(buf)
      ensures buf.Length == capacity && buf[..] == seq(capacity, _ => 0)
      ensures Written() == [] && Room() == capacity
    {
      buf := new bv8[capacity](_ => 0);
      len := 0;
    }

    /** Writes one byte, or fails without writing when the sink is full. */
    method Write(b: bv8) returns (ok: bool)
      requires Valid()
      modifies this`len, buf
      ensures Valid() && buf == old(buf)
      ensures ok <==> old(Room()) > 0
      ensures Written() == if ok then old(Written()) + [b] else old(Written())
      ensures Room() == if ok then old(Room()) - 1 else old(Room())
      ensures buf[len..] == old(buf[..])[len..]
    {
      ok := len < buf.Length;
      if ok {
        buf[len] := b;
        len := len + 1;
      }
    }
  }

  /** A byte source over a fixed sequence of bytes with a read position. A read either
      yields the next byte and advances, or fails when the bytes are exhausted; nothing
      read is ever pushed back. */
  class Source {
    const bytes: seq<bv8>
    var pos: nat

    ghost predicate Valid()
      reads this
    {
      pos <= |bytes|
    }

    /** The bytes not read yet. */
    function Remaining(): seq<bv8>
      reads this
      requires Valid()
    {
      bytes[pos..]
    }

    constructor (bytes: seq<bv8>)
      ensures Valid() && this.bytes == bytes && pos == 0
    {
      this.bytes := bytes;
      pos := 0;
    }

    /** `read_exact` into a one-byte buffer: on success `b` is the next byte and the
        position advances by one; on failure `b` stays 0 and the position is unchanged. */
    method Read() returns (ok: bool, b: bv8)
      requires Valid()
      modifies this`pos
      ensures Valid()
      ensures ok <==> old(pos) < |bytes|
      ensures ok ==> b == bytes[old(pos)] && pos == old(pos) + 1
      ensures !ok ==> b == 0 && pos == old(pos)
    {
      ok := pos < |bytes|;
      if ok {
        b := bytes[pos];
        pos := pos + 1;
      } else {
        b := 0;
      }
    }
  }
}
