/** The caller-side zig-zag unmapping of the extension test, and the values
    that test expects get to produce for the custom options it reads. The
    i32/i64 adapters do not unmap zig-zag, so a sint32/sint64 extension is
    read as the raw zig-zag number and unmapped by the caller. */
module ExtTest {
  import opened Wire
  import opened UnknownFields
  import opened Scalars
  import opened Ext
  import Utf8

  // ---------------------------------------------------------------------
  // Zig-zag (section "Signed Integers" of the Protocol Buffers encoding
  // guide): 0, -1, 1, -2, ... are stored as 0, 1, 2, 3, ...

  /** sint32 encoding: `(n << 1) ^ (n >> 31)` as a u32. */
  function ZigZagEncode32(n: int32): (u: uint32)
    ensures u % 2 == 0 <==> n >= 0
  {
    if n >= 0 then 2 * n else -2 * n - 1
  }

  /** sint64 encoding: `(n << 1) ^ (n >> 63)` as a u64. */
  function ZigZagEncode64(n: int64): (u: uint64)
    ensures u % 2 == 0 <==> n >= 0
  {
    if n >= 0 then 2 * n else -2 * n - 1
  }

  /** Zig-zag unmapping of the 32 bits of `i`, read as the unsigned number
      they stand for and shifted logically. */
  function ZigZagDecode32(i: int32): (r: int32)
    ensures ZigZagEncode32(r) == if i < 0 then i + TWO_32 else i
  {
    var u := if i < 0 then i + TWO_32 else i;
    if u % 2 == 0 then u / 2 else -(u / 2) - 1
  }

  /** Zig-zag unmapping of the 64 bits of `i`, shifted logically. */
  function ZigZagDecode64(i: int64): (r: int64)
    ensures ZigZagEncode64(r) == if i < 0 then i + TWO_64 else i
  {
    var u := if i < 0 then i + TWO_64 else i;
    if u % 2 == 0 then u / 2 else -(u / 2) - 1
  }

  /** The corrected unmapping undoes the encoding through the i32
      adapter's reinterpretation, for every int32. */
  lemma ZigZag32RoundTrip(n: int32)
    ensures ZigZagDecode32(AsI32(ZigZagEncode32(n))) == n
  {
    var u := ZigZagEncode32(n);
    assert (if AsI32(u) < 0 then AsI32(u) + TWO_32 else AsI32(u)) == u;
  }

  /** The same on 64 bits through the i64 adapter. */
  lemma ZigZag64RoundTrip(n: int64)
    ensures ZigZagDecode64(AsI64(ZigZagEncode64(n))) == n
  {
    var u := ZigZagEncode64(n);
    assert (if AsI64(u) < 0 then AsI64(u) + TWO_64 else AsI64(u)) == u;
  }

  // ---------------------------------------------------------------------
  // The helpers as the test writes them

  /** sint32 as written: `i >> 1` is an arithmetic shift (it rounds toward
      negative infinity), and `!` complements it when the low bit is set.
      It agrees with zig-zag unmapping exactly on the non-negative inputs. */
  function Sint32(i: int32): (r: int32)
    ensures r == ZigZagDecode32(i) <==> i >= 0
  {
    var i1 := i / 2;
    if i % 2 == 1 then -i1 - 1 else i1
  }

  /** sint64 as written; the same shift on 64 bits. */
  function Sint64(i: int64): (r: int64)
    ensures r == ZigZagDecode64(i) <==> i >= 0
  {
    var i1 := i / 2;
    if i % 2 == 1 then -i1 - 1 else i1
  }

  /** Composed with the i32 adapter, the helper as written recovers a
      sint32 value exactly when it lies in [-2^30, 2^30): larger
      magnitudes set the top bit of the stored number, which the
      arithmetic shift copies into the result. */
  lemma Sint32Range(n: int32)
    ensures Sint32(AsI32(ZigZagEncode32(n))) == n <==> -0x4000_0000 <= n < 0x4000_0000
  {
    ZigZag32RoundTrip(n);
  }

  lemma Sint64Range(n: int64)
    ensures Sint64(AsI64(ZigZagEncode64(n))) == n <==> -0x4000_0000_0000_0000 <= n < 0x4000_0000_0000_0000
  {
    ZigZag64RoundTrip(n);
  }

  /** Inputs that show the discrepancy: the stored zig-zag numbers of
      2^30 and of -2^31 come back as -2^30 and 0. */
  lemma Sint32Counterexample()
    ensures ZigZagEncode32(0x4000_0000) == 0x8000_0000 && Sint32(AsI32(0x8000_0000)) == -0x4000_0000
    ensures ZigZagEncode32(-0x8000_0000) == 0xFFFF_FFFF && Sint32(AsI32(0xFFFF_FFFF)) == 0
  {
  }

  // ---------------------------------------------------------------------
  // The values decode_custom_options expects

  /** Reads the field a writer stores for extension number `n` of kind
      `k` back through get. */
  function Read(n: uint32, k: Kind, d: UnknownFieldData): Option<Result<Scalar>>
  {
    Get(ExtFieldOptional(n, k), Some(map[n := UnknownField(n, d)]))
  }

  /** The expected int32 and int64 values, from sign-extended varints. */
  lemma SignedOptionValues(n: uint32)
    ensures StoredForm(Int32Value(-3)) == UnknownFieldData.Varint(TWO_64 - 3)
    ensures Read(n, I32, UnknownFieldData.Varint(TWO_64 - 3)) == Some(Ok(Int32Value(-3)))
    ensures StoredForm(Int64Value(-13)) == UnknownFieldData.Varint(TWO_64 - 13)
    ensures Read(n, I64, UnknownFieldData.Varint(TWO_64 - 13)) == Some(Ok(Int64Value(-13)))
  {
    StoredFormDecodes(Int32Value(-3), n);
    StoredFormDecodes(Int64Value(-13), n);
  }

  /** The expected sint32 and sint64 values: the zig-zag varints are read
      raw by the i32/i64 adapters and unmapped by the caller. */
  lemma ZigZagOptionValues(n: uint32)
    ensures ZigZagEncode32(-4) == 7 && Read(n, I32, UnknownFieldData.Varint(7)) == Some(Ok(Int32Value(7)))
    ensures ZigZagDecode32(7) == -4 && Sint32(7) == -4
    ensures ZigZagEncode64(-14) == 27 && Read(n, I64, UnknownFieldData.Varint(27)) == Some(Ok(Int64Value(27)))
    ensures ZigZagDecode64(27) == -14 && Sint64(27) == -14
  {
  }

  /** The expected unsigned, fixed-width and bool values: uint32/uint64
      from varints, fixed32/sfixed32 from fixed32, fixed64/sfixed64 from
      fixed64, bool from the varint 1. */
  lemma PlainOptionValues(n: uint32)
    ensures Read(n, U32, UnknownFieldData.Varint(5)) == Some(Ok(UInt32Value(5)))
    ensures Read(n, U64, UnknownFieldData.Varint(15)) == Some(Ok(UInt64Value(15)))
    ensures Read(n, U32, UnknownFieldData.ThirtyTwoBit(6)) == Some(Ok(UInt32Value(6)))
    ensures Read(n, U64, UnknownFieldData.SixtyFourBit(16)) == Some(Ok(UInt64Value(16)))
    ensures Read(n, I32, UnknownFieldData.ThirtyTwoBit(7)) == Some(Ok(Int32Value(7)))
    ensures Read(n, I64, UnknownFieldData.SixtyFourBit(TWO_64 - 17)) == Some(Ok(Int64Value(-17)))
    ensures StoredForm(BoolValue(true)) == UnknownFieldData.Varint(1)
    ensures Read(n, Bool, UnknownFieldData.Varint(1)) == Some(Ok(BoolValue(true)))
  {
  }

  /** The expected string, and any other: its UTF-8 bytes, stored
      length-delimited, are read back as the same bytes, which decode to
      the same string. */
  lemma StringOptionRoundTrip(n: uint32, s: string)
    requires |s| < 0x4000_0000_0000_0000
    ensures var b := Utf8.EncodeUtf8(s);
      && |b| < TWO_64
      && Read(n, Str, UnknownFieldData.LengthDelimited(b)) == Some(Ok(StringValue(b)))
      && Utf8.DecodeUtf8(b) == Some(s)
  {
    Utf8.EncodedLength(s);
    Utf8.Utf8RoundTrip(s);
  }
}
