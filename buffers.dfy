/** The byte buffers the codec reads from and writes to: a read cursor over
    an immutable byte sequence (the `Buf` capability) and a growable sink
    (the `BufMut` capability). Each primitive is proved against the pure
    wire functions of module Wire. */
module Buffers {
  import opened Wire

  /** A read cursor: the bytes before `pos` have been consumed. */
  class ReadBuf {
    const bytes: seq<byte>
    var pos: nat

    ghost predicate Valid()
      reads this
    {
      pos <= |bytes|
    }

    /** buf.remaining() */
    function Remaining(): nat
      reads this
      requires Valid()
    {
      |bytes| - pos
    }

    /** The bytes not yet consumed. */
    function Rest(): seq<byte>
      reads this
      requires Valid()
    {
      bytes[pos..]
    }

    constructor (s: seq<byte>)
      ensures Valid() && bytes == s && pos == 0
    {
      bytes := s;
      pos := 0;
    }

    /** buf.advance(n) */
    method Advance(n: nat)
      requires Valid() && n <= Remaining()
      modifies this`pos
      ensures Valid() && pos == old(pos) + n
    {
      pos := pos + n;
    }

    /** decode_varint: consumes exactly the varint's bytes on success. */
    method GetVarint() returns (r: Result<uint64>)
      requires Valid()
      modifies this`pos
      ensures Valid() && old(pos) <= pos
      ensures match DecodeVarint(old(Rest()))
        case Ok((v, n)) => r == Ok(v) && pos == old(pos) + n
        case Err(e) => r == Err(e)
    {
      match DecodeVarint(bytes[pos..])
      case Ok((v, n)) =>
        r := Ok(v);
        pos := pos + n;
      case Err(e) =>
        r := Err(e);
    }

    /** get_u32_le / get_u64_le */
    method GetFixedLe(width: nat) returns (v: nat)
      requires Valid() && width <= Remaining()
      modifies this`pos
      ensures Valid() && pos == old(pos) + width
      ensures v == DecodeFixed(old(Rest())[..width])
    {
      assert old(Rest())[..width] == bytes[pos..pos + width];
      v := DecodeFixed(bytes[pos..pos + width]);
      pos := pos + width;
    }

    /** copy_to_bytes(n): the next `n` bytes, verbatim. */
    method CopyToBytes(n: nat) returns (b: seq<byte>)
      requires Valid() && n <= Remaining()
      modifies this`pos
      ensures Valid() && pos == old(pos) + n
      ensures b == old(Rest())[..n]
    {
      assert old(Rest())[..n] == bytes[pos..pos + n];
      b := bytes[pos..pos + n];
      pos := pos + n;
    }
  }

  /** A growable output buffer. */
  class WriteBuf {
    var bytes: seq<byte>

    constructor ()
      ensures bytes == []
    {
      bytes := [];
    }

    /** put_slice */
    method Put(s: seq<byte>)
      modifies this
      ensures bytes == old(bytes) + s
    {
      bytes := bytes + s;
    }

    /** encode_varint: emits the low seven bits with the continuation bit
        while the value does not fit in seven bits, then the last byte. */
    method PutVarint(v: uint64)
      modifies this
      ensures bytes == old(bytes) + EncodeVarint(v)
    {
      var value := v;
      while value >= 0x80
        invariant old(bytes) + EncodeVarint(v) == bytes + EncodeVarint(value)
        decreases value
      {
        assert EncodeVarint(value) == [value % 0x80 + 0x80] + EncodeVarint(value / 0x80);
        bytes := bytes + [value % 0x80 + 0x80];
        value := value / 0x80;
      }
      bytes := bytes + [value];
    }
  }
}
