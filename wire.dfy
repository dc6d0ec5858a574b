/** The Protocol Buffers wire primitives the unknown-field store is built on:
    unsigned LEB128 varints, little-endian fixed-width integers, field keys
    `(field_number << 3) | wire_type`, and the single decode error kind.
    Byte layouts follow the Protocol Buffers encoding guide, sections
    "Base 128 Varints" and "Message Structure". */
module Wire {

  const TWO_32: nat := 0x1_0000_0000
  const TWO_64: nat := 0x1_0000_0000_0000_0000

  /** Largest field number the wire format allows (2^29 - 1). */
  const MAX_TAG: nat := 0x1FFF_FFFF

  type byte = x: int | 0 <= x < 0x100
  type uint32 = x: int | 0 <= x < 0x1_0000_0000
  type uint64 = x: int | 0 <= x < 0x1_0000_0000_0000_0000
  type int32 = x: int | -0x8000_0000 <= x < 0x8000_0000
  type int64 = x: int | -0x8000_0000_0000_0000 <= x < 0x8000_0000_0000_0000

  /** A byte vector whose length fits a `u64` length prefix. */
  type Bytes = s: seq<byte> | |s| < 0x1_0000_0000_0000_0000

  datatype Option<+T> = None | Some(value: T)

  /** The one error kind of the codec; each variant is one of its descriptions. */
  datatype DecodeError =
    | InvalidVarint
    | BufferUnderflow
    | UnexpectedEndGroup
    | InvalidKey(key: nat)
    | InvalidWireType(code: nat)
    | InvalidTag
    | CannotDecode(target: string, found: WireType)
    | InvalidUtf8

  datatype Result<+T> = Ok(value: T) | Err(error: DecodeError)

  datatype WireType = Varint | SixtyFourBit | LengthDelimited | StartGroup | EndGroup | ThirtyTwoBit

  /** The three-bit wire type code carried in the low bits of a key. */
  function Code(wt: WireType): (c: nat)
    ensures c < 6
  {
    match wt
    case Varint => 0
    case SixtyFourBit => 1
    case LengthDelimited => 2
    case StartGroup => 3
    case EndGroup => 4
    case ThirtyTwoBit => 5
  }

  function FromCode(c: nat): (r: Result<WireType>)
    ensures r.Err? <==> c > 5
    ensures r.Err? ==> r.error == InvalidWireType(c)
  {
    if c == 0 then Ok(Varint)
    else if c == 1 then Ok(SixtyFourBit)
    else if c == 2 then Ok(LengthDelimited)
    else if c == 3 then Ok(StartGroup)
    else if c == 4 then Ok(EndGroup)
    else if c == 5 then Ok(ThirtyTwoBit)
    else Err(InvalidWireType(c))
  }

  /** Code and FromCode are inverse bijections between wire types and 0..5. */
  lemma CodeRoundTrip(wt: WireType, c: nat)
    ensures FromCode(Code(wt)) == Ok(wt)
    ensures FromCode(c).Ok? ==> Code(FromCode(c).value) == c
  {
  }

  // ---------------------------------------------------------------------
  // Varints

  /** Unsigned LEB128: seven payload bits per byte, low group first, the
      high bit set on every byte but the last. */
  function EncodeVarint(v: uint64): (r: seq<byte>)
    ensures |r| == VarintLen(v)
    ensures r[|r| - 1] < 0x80 && forall i :: 0 <= i < |r| - 1 ==> r[i] >= 0x80
    decreases v
  {
    if v < 0x80 then [v] else [v % 0x80 + 0x80] + EncodeVarint(v / 0x80)
  }

  /** Number of bytes the varint encoding of `v` takes: one per started
      group of seven bits. */
  function VarintLen(v: uint64): (n: nat)
    ensures 1 <= n <= 10
  {
    if v < 0x80 then 1
    else if v < 0x4000 then 2
    else if v < 0x20_0000 then 3
    else if v < 0x1000_0000 then 4
    else if v < 0x8_0000_0000 then 5
    else if v < 0x400_0000_0000 then 6
    else if v < 0x2_0000_0000_0000 then 7
    else if v < 0x100_0000_0000_0000 then 8
    else if v < 0x8000_0000_0000_0000 then 9
    else 10
  }

  /** Reads a LEB128 group sequence of at most `budget` bytes, returning the
      unbounded value and the number of bytes read; None when the input ends
      or the budget runs out before a byte without the continuation bit. */
  function Leb(s: seq<byte>, budget: nat): (r: Option<(nat, nat)>)
    ensures r.Some? ==> 1 <= r.value.1 <= budget && r.value.1 <= |s|
    ensures r.Some? ==> s[r.value.1 - 1] < 0x80
    decreases budget
  {
    if budget == 0 || |s| == 0 then None
    else if s[0] < 0x80 then Some((s[0], 1))
    else match Leb(s[1..], budget - 1)
      case None => None
      case Some((v, n)) => Some((s[0] - 0x80 + 0x80 * v, n + 1))
  }

  /** decode_varint: at most ten bytes; the value is kept modulo 2^64; an
      input that ends, or ten bytes that all continue, is an invalid varint.
      Returns the value and the number of bytes consumed. */
  function DecodeVarint(s: seq<byte>): (r: Result<(uint64, nat)>)
    ensures r.Ok? ==> 1 <= r.value.1 <= 10 && r.value.1 <= |s|
    ensures r.Err? ==> r.error == InvalidVarint
  {
    match Leb(s, 10)
    case None => Err(InvalidVarint)
    case Some((v, n)) => Ok((v % TWO_64, n))
  }

  lemma {:induction false} LebOfEncoding(v: uint64, rest: seq<byte>, budget: nat)
    requires budget >= |EncodeVarint(v)|
    ensures Leb(EncodeVarint(v) + rest, budget) == Some((v, |EncodeVarint(v)|))
    decreases v
  {
    var s := EncodeVarint(v) + rest;
    if v >= 0x80 {
      assert s[1..] == EncodeVarint(v / 0x80) + rest;
      LebOfEncoding(v / 0x80, rest, budget - 1);
    }
  }

  /** Decoding the varint encoding of `v`, whatever follows it, yields `v`
      and consumes exactly the encoding. */
  lemma VarintRoundTrip(v: uint64, rest: seq<byte>)
    ensures DecodeVarint(EncodeVarint(v) + rest) == Ok((v, VarintLen(v)))
  {
    var s := EncodeVarint(v) + rest;
    LebOfEncoding(v, rest, 10);
    assert Leb(s, 10) == Some((v, VarintLen(v)));
    assert v % TWO_64 == v;
  }

  // ---------------------------------------------------------------------
  // Little-endian fixed-width integers

  function Pow256(n: nat): (p: nat)
    ensures p >= 1
  {
    if n == 0 then 1 else 0x100 * Pow256(n - 1)
  }

  lemma Pow256Widths()
    ensures Pow256(4) == TWO_32 && Pow256(8) == TWO_64
  {
    assert Pow256(2) == 0x1_0000;
    assert Pow256(4) == 0x1_0000_0000;
    assert Pow256(6) == 0x1_0000_0000_0000;
  }

  /** put_u32_le / put_u64_le: `width` bytes, least significant first. */
  function EncodeFixed(v: nat, width: nat): (r: seq<byte>)
    ensures |r| == width
  {
    if width == 0 then [] else [v % 0x100] + EncodeFixed(v / 0x100, width - 1)
  }

  /** get_u32_le / get_u64_le: the little-endian value of the bytes. */
  function DecodeFixed(s: seq<byte>): (v: nat)
    ensures v < Pow256(|s|)
  {
    if s == [] then 0 else s[0] + 0x100 * DecodeFixed(s[1..])
  }

  lemma {:induction false} FixedRoundTrip(v: nat, width: nat)
    requires v < Pow256(width)
    ensures DecodeFixed(EncodeFixed(v, width)) == v
  {
    if width > 0 {
      var r := EncodeFixed(v, width);
      assert r[1..] == EncodeFixed(v / 0x100, width - 1);
      FixedRoundTrip(v / 0x100, width - 1);
    }
  }

  /** The other direction: the bytes are recovered from their value. */
  lemma {:induction false} FixedBytesRoundTrip(s: seq<byte>)
    ensures EncodeFixed(DecodeFixed(s), |s|) == s
  {
    if s != [] {
      FixedBytesRoundTrip(s[1..]);
      ByteDivMod(s[0], DecodeFixed(s[1..]));
      assert s == [s[0]] + s[1..];
    }
  }

  lemma ByteDivMod(lo: nat, hi: nat)
    requires lo < 0x100
    ensures (lo + 0x100 * hi) % 0x100 == lo && (lo + 0x100 * hi) / 0x100 == hi
  {
  }

  // ---------------------------------------------------------------------
  // Keys

  /** `tag << 3` on a `u32`: the shift drops the top three bits of the tag. */
  function ShiftedTag(tag: uint32): (k: uint64)
    ensures k % 8 == 0 && k < TWO_32
    ensures tag <= MAX_TAG ==> k == tag * 8
  {
    (tag % 0x2000_0000) * 8
  }

  /** encode_key: the varint `(tag << 3) | wire_type`. */
  function EncodeKey(tag: uint32, wt: WireType): seq<byte>
  {
    EncodeVarint(ShiftedTag(tag) + Code(wt))
  }

  /** key_len: the length of a key does not depend on its wire type. */
  function KeyLen(tag: uint32): nat
  {
    VarintLen(ShiftedTag(tag))
  }

  /** key_len measures the key encode_key writes, whatever the wire type. */
  lemma KeyLenExact(tag: uint32, wt: WireType)
    ensures |EncodeKey(tag, wt)| == KeyLen(tag)
  {
  }

  /** decode_key: rejects keys above `u32::MAX`, unknown wire type codes
      and field number 0; returns the field number, the wire type and the
      number of bytes consumed. */
  function DecodeKey(s: seq<byte>): (r: Result<(uint32, WireType, nat)>)
    ensures r.Ok? ==> 1 <= r.value.0 <= MAX_TAG && 1 <= r.value.2 <= |s|
  {
    match DecodeVarint(s)
    case Err(e) => Err(e)
    case Ok((key, n)) =>
      if key > 0xFFFF_FFFF then Err(InvalidKey(key))
      else match FromCode(key % 8)
        case Err(e) => Err(e)
        case Ok(wt) => if key / 8 < 1 then Err(InvalidTag) else Ok((key / 8, wt, n))
  }

  /** A key written for a legal field number decodes to that field number
      and wire type and consumes exactly the key bytes. */
  lemma KeyRoundTrip(tag: uint32, wt: WireType, rest: seq<byte>)
    requires 1 <= tag <= MAX_TAG
    ensures DecodeKey(EncodeKey(tag, wt) + rest) == Ok((tag, wt, KeyLen(tag)))
  {
    var key := ShiftedTag(tag) + Code(wt);
    VarintRoundTrip(key, rest);
    KeyDivMod(tag, Code(wt));
    CodeRoundTrip(wt, 0);
    DecodeKeyOf(EncodeKey(tag, wt) + rest, key, VarintLen(key), wt);
    assert key / 8 == tag;
    KeyLenExact(tag, wt);
    assert VarintLen(key) == KeyLen(tag);
  }

  lemma DecodeKeyOf(s: seq<byte>, key: uint64, n: nat, wt: WireType)
    requires DecodeVarint(s) == Ok((key, n))
    requires key <= 0xFFFF_FFFF && FromCode(key % 8) == Ok(wt) && key / 8 >= 1
    ensures DecodeKey(s) == Ok((key / 8, wt, n))
  {
  }

  lemma KeyDivMod(tag: nat, c: nat)
    requires c < 8
    ensures (tag * 8 + c) % 8 == c && (tag * 8 + c) / 8 == tag
  {
  }
}
