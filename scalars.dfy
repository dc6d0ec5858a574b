/** The Message implementations of the standard types that stand for the
    Protocol Buffers well-known wrapper types (BoolValue, UInt32Value,
    UInt64Value, Int32Value, Int64Value, FloatValue, DoubleValue,
    StringValue, BytesValue and Empty): reading a value back from a stored
    unknown field, and writing, measuring, clearing and merging the value
    as field 1 of its wrapper message. */
module Scalars {
  import opened Wire
  import opened Buffers
  import opened UnknownFields
  import opened Utf8

  /** The Rust type an adapter belongs to. */
  datatype Kind = Bool | U32 | U64 | I32 | I64 | F32 | F64 | Str | VecU8 | BytesBuf | Unit

  /** A value of one of those types. Floating-point values are kept as
      their IEEE 754 bit patterns; a String as the UTF-8 bytes it holds. */
  datatype Scalar =
    | BoolValue(b: bool)
    | UInt32Value(u32: uint32)
    | UInt64Value(u64: uint64)
    | Int32Value(i32: int32)
    | Int64Value(i64: int64)
    | FloatValue(bits32: uint32)
    | DoubleValue(bits64: uint64)
    | StringValue(utf8: Bytes)
    | VecValue(vec: Bytes)
    | BytesValue(buf: Bytes)
    | EmptyValue

  function KindOf(v: Scalar): Kind
  {
    match v
    case BoolValue(_) => Bool
    case UInt32Value(_) => U32
    case UInt64Value(_) => U64
    case Int32Value(_) => I32
    case Int64Value(_) => I64
    case FloatValue(_) => F32
    case DoubleValue(_) => F64
    case StringValue(_) => Str
    case VecValue(_) => VecU8
    case BytesValue(_) => BytesBuf
    case EmptyValue => Unit
  }

  /** A String holds well-formed UTF-8. */
  predicate WellFormed(v: Scalar)
  {
    v.StringValue? ==> ValidUtf8(v.utf8)
  }

  /** The type name the "cannot decode" error names. */
  function TypeName(k: Kind): string
  {
    match k
    case Bool => "bool"
    case U32 => "u32"
    case U64 => "u64"
    case I32 => "i32"
    case I64 => "i64"
    case F32 => "f32"
    case F64 => "f64"
    case Str => "String"
    case VecU8 => "Vec<u8>"
    case BytesBuf => "Bytes"
    case Unit => "()"
  }

  // ---------------------------------------------------------------------
  // Integer casts

  /** `u as i32` on a `u32`: the int32 with the same 32 bits. */
  function AsI32(u: uint32): (i: int32)
    ensures (i - u) % TWO_32 == 0
    ensures 0 <= i <==> u < 0x8000_0000
  {
    if u < 0x8000_0000 then u else u - TWO_32
  }

  /** `u as i64` on a `u64`: the int64 with the same 64 bits. */
  function AsI64(u: uint64): (i: int64)
    ensures (i - u) % TWO_64 == 0
    ensures 0 <= i <==> u < 0x8000_0000_0000_0000
  {
    if u < 0x8000_0000_0000_0000 then u else u - TWO_64
  }

  /** `i as u64` on an `i32` or `i64`: sign extension to 64 bits. */
  function SignExtend(i: int64): (u: uint64)
    ensures (u - i) % TWO_64 == 0
  {
    if i >= 0 then i else i + TWO_64
  }

  // ---------------------------------------------------------------------
  // decode_from_unknown

  /** The number a non-length-delimited shape carries. */
  function Raw(d: UnknownFieldData): nat
  {
    match d
    case Varint(v) => v
    case SixtyFourBit(v) => v
    case ThirtyTwoBit(v) => v
    case LengthDelimited(_) => 0
  }

  /** Which stored shapes each adapter accepts. */
  predicate Accepts(k: Kind, wt: WireType)
  {
    match k
    case Bool => wt == WireType.Varint
    case U32 | I32 => wt == WireType.Varint || wt == WireType.ThirtyTwoBit
    case U64 | I64 => wt == WireType.Varint || wt == WireType.SixtyFourBit
    case F32 => wt == WireType.ThirtyTwoBit
    case F64 => wt == WireType.SixtyFourBit
    case Str | VecU8 | BytesBuf => wt == WireType.LengthDelimited
    case Unit => true
  }

  /** The error for a stored shape the type does not accept. */
  function Mismatch(k: Kind, f: UnknownField): Result<Scalar>
  {
    Err(CannotDecode(TypeName(k), WireTypeOf(f.data)))
  }

  /** bool: only a varint, read as "not zero". */
  function BoolFromUnknown(f: UnknownField): (r: Result<Scalar>)
    ensures r.Ok? <==> f.data.Varint?
    ensures r.Ok? ==> r.value.BoolValue? && (r.value.b <==> Raw(f.data) != 0)
    ensures r.Err? ==> r == Mismatch(Bool, f)
  {
    match f.data
    case Varint(b) => Ok(BoolValue(b != 0))
    case _ => Mismatch(Bool, f)
  }

  /** u32: a varint cut to its low 32 bits, or a fixed32 as it is. */
  function U32FromUnknown(f: UnknownField): (r: Result<Scalar>)
    ensures r.Ok? <==> f.data.Varint? || f.data.ThirtyTwoBit?
    ensures r.Ok? ==> r.value.UInt32Value? && r.value.u32 == Raw(f.data) % TWO_32
    ensures r.Err? ==> r == Mismatch(U32, f)
  {
    match f.data
    case Varint(u) => Ok(UInt32Value(u % TWO_32))
    case ThirtyTwoBit(u) => Ok(UInt32Value(u))
    case _ => Mismatch(U32, f)
  }

  /** u64: a fixed64 or a varint, unchanged. */
  function U64FromUnknown(f: UnknownField): (r: Result<Scalar>)
    ensures r.Ok? <==> f.data.Varint? || f.data.SixtyFourBit?
    ensures r.Ok? ==> r.value.UInt64Value? && r.value.u64 == Raw(f.data)
    ensures r.Err? ==> r == Mismatch(U64, f)
  {
    match f.data
    case SixtyFourBit(u) => Ok(UInt64Value(u))
    case Varint(u) => Ok(UInt64Value(u))
    case _ => Mismatch(U64, f)
  }

  /** i32: a fixed32 or a varint, its low 32 bits read as two's
      complement; no zig-zag unmapping. */
  function I32FromUnknown(f: UnknownField): (r: Result<Scalar>)
    ensures r.Ok? <==> f.data.Varint? || f.data.ThirtyTwoBit?
    ensures r.Ok? ==> r.value.Int32Value? && (r.value.i32 - Raw(f.data)) % TWO_32 == 0
    ensures r.Err? ==> r == Mismatch(I32, f)
  {
    match f.data
    case ThirtyTwoBit(u) => Ok(Int32Value(AsI32(u)))
    case Varint(u) => Ok(Int32Value(AsI32(u % TWO_32)))
    case _ => Mismatch(I32, f)
  }

  /** i64: a fixed64 or a varint read as two's complement. */
  function I64FromUnknown(f: UnknownField): (r: Result<Scalar>)
    ensures r.Ok? <==> f.data.Varint? || f.data.SixtyFourBit?
    ensures r.Ok? ==> r.value.Int64Value? && (r.value.i64 - Raw(f.data)) % TWO_64 == 0
    ensures r.Err? ==> r == Mismatch(I64, f)
  {
    match f.data
    case SixtyFourBit(u) => Ok(Int64Value(AsI64(u)))
    case Varint(u) => Ok(Int64Value(AsI64(u)))
    case _ => Mismatch(I64, f)
  }

  /** f32 and f64: only the fixed shape of their width, as raw bits. */
  function F32FromUnknown(f: UnknownField): (r: Result<Scalar>)
    ensures r.Ok? <==> f.data.ThirtyTwoBit?
    ensures r.Ok? ==> r.value.FloatValue? && r.value.bits32 == Raw(f.data)
    ensures r.Err? ==> r == Mismatch(F32, f)
  {
    match f.data
    case ThirtyTwoBit(u) => Ok(FloatValue(u))
    case _ => Mismatch(F32, f)
  }

  function F64FromUnknown(f: UnknownField): (r: Result<Scalar>)
    ensures r.Ok? <==> f.data.SixtyFourBit?
    ensures r.Ok? ==> r.value.DoubleValue? && r.value.bits64 == Raw(f.data)
    ensures r.Err? ==> r == Mismatch(F64, f)
  {
    match f.data
    case SixtyFourBit(u) => Ok(DoubleValue(u))
    case _ => Mismatch(F64, f)
  }

  /** String: a length-delimited payload that is valid UTF-8, kept as
      those bytes; invalid UTF-8 is its own error. */
  function StringFromUnknown(f: UnknownField): (r: Result<Scalar>)
    ensures r.Ok? <==> f.data.LengthDelimited? && ValidUtf8(f.data.bytes)
    ensures r.Ok? ==> r == Ok(StringValue(f.data.bytes)) && WellFormed(r.value)
    ensures r.Err? ==> r == if f.data.LengthDelimited? then Err(InvalidUtf8) else Mismatch(Str, f)
  {
    match f.data
    case LengthDelimited(b) => if ValidUtf8(b) then Ok(StringValue(b)) else Err(InvalidUtf8)
    case _ => Mismatch(Str, f)
  }

  /** Vec<u8> and Bytes: a length-delimited payload copied verbatim. */
  function VecFromUnknown(f: UnknownField): (r: Result<Scalar>)
    ensures r.Ok? <==> f.data.LengthDelimited?
    ensures r.Ok? ==> r == Ok(VecValue(f.data.bytes))
    ensures r.Err? ==> r == Mismatch(VecU8, f)
  {
    match f.data
    case LengthDelimited(b) => Ok(VecValue(b))
    case _ => Mismatch(VecU8, f)
  }

  function BytesFromUnknown(f: UnknownField): (r: Result<Scalar>)
    ensures r.Ok? <==> f.data.LengthDelimited?
    ensures r.Ok? ==> r == Ok(BytesValue(f.data.bytes))
    ensures r.Err? ==> r == Mismatch(BytesBuf, f)
  {
    match f.data
    case LengthDelimited(b) => Ok(BytesValue(b))
    case _ => Mismatch(BytesBuf, f)
  }

  /** Message::decode_from_unknown, by type: it succeeds exactly on the
      shapes the type accepts (and, for String, on valid UTF-8), with a
      value of that type; `()` accepts everything. */
  function DecodeFromUnknown(k: Kind, f: UnknownField): (r: Result<Scalar>)
    ensures r.Ok? <==> Accepts(k, WireTypeOf(f.data)) && (k == Str ==> ValidUtf8(f.data.bytes))
    ensures r.Ok? ==> KindOf(r.value) == k && WellFormed(r.value)
    ensures r.Err? ==> r == if Accepts(k, WireTypeOf(f.data)) then Err(InvalidUtf8) else Mismatch(k, f)
  {
    match k
    case Bool => BoolFromUnknown(f)
    case U32 => U32FromUnknown(f)
    case U64 => U64FromUnknown(f)
    case I32 => I32FromUnknown(f)
    case I64 => I64FromUnknown(f)
    case F32 => F32FromUnknown(f)
    case F64 => F64FromUnknown(f)
    case Str => StringFromUnknown(f)
    case VecU8 => VecFromUnknown(f)
    case BytesBuf => BytesFromUnknown(f)
    case Unit => Ok(EmptyValue)
  }

  // ---------------------------------------------------------------------
  // Implicit presence: encode_raw, encoded_len, clear

  /** The value every field of the type starts with and returns to on
      clear: false, zero, +0.0, empty, (). */
  function Default(k: Kind): (v: Scalar)
    ensures KindOf(v) == k && WellFormed(v) && IsDefault(v)
  {
    match k
    case Bool => BoolValue(false)
    case U32 => UInt32Value(0)
    case U64 => UInt64Value(0)
    case I32 => Int32Value(0)
    case I64 => Int64Value(0)
    case F32 => FloatValue(0)
    case F64 => DoubleValue(0)
    case Str => StringValue([])
    case VecU8 => VecValue([])
    case BytesBuf => BytesValue([])
    case Unit => EmptyValue
  }

  /** The values encode_raw leaves out. A float is left out when it
      compares equal to 0.0, which both +0.0 and -0.0 do. */
  predicate IsDefault(v: Scalar)
  {
    match v
    case BoolValue(b) => !b
    case UInt32Value(u) => u == 0
    case UInt64Value(u) => u == 0
    case Int32Value(i) => i == 0
    case Int64Value(i) => i == 0
    case FloatValue(bits) => bits == 0 || bits == 0x8000_0000
    case DoubleValue(bits) => bits == 0 || bits == 0x8000_0000_0000_0000
    case StringValue(s) => s == []
    case VecValue(s) => s == []
    case BytesValue(s) => s == []
    case EmptyValue => true
  }

  /** Apart from the floats, whose -0.0 also compares equal to 0.0, a
      value is left out exactly when it is its type's default. */
  lemma OmittedIsDefault(v: Scalar)
    ensures !v.FloatValue? && !v.DoubleValue? ==> (IsDefault(v) <==> v == Default(KindOf(v)))
    ensures v.FloatValue? ==> (IsDefault(v) <==> v == Default(F32) || v == FloatValue(0x8000_0000))
    ensures v.DoubleValue? ==> (IsDefault(v) <==> v == Default(F64) || v == DoubleValue(0x8000_0000_0000_0000))
  {
  }

  /** The shape the scalar codec writes a value in: bool as the varint 0 or
      1, the integers as varints (a negative i32 or i64 sign-extended to ten
      bytes), floats as fixed32/fixed64 bits, the byte types
      length-delimited. */
  function StoredForm(v: Scalar): (d: UnknownFieldData)
    requires !v.EmptyValue?
    ensures Accepts(KindOf(v), WireTypeOf(d))
    ensures v.StringValue? || v.VecValue? || v.BytesValue? <==> d.LengthDelimited?
  {
    match v
    case BoolValue(b) => UnknownFieldData.Varint(if b then 1 else 0)
    case UInt32Value(u) => UnknownFieldData.Varint(u)
    case UInt64Value(u) => UnknownFieldData.Varint(u)
    case Int32Value(i) => UnknownFieldData.Varint(SignExtend(i))
    case Int64Value(i) => UnknownFieldData.Varint(SignExtend(i))
    case FloatValue(bits) => UnknownFieldData.ThirtyTwoBit(bits)
    case DoubleValue(bits) => UnknownFieldData.SixtyFourBit(bits)
    case StringValue(s) => UnknownFieldData.LengthDelimited(s)
    case VecValue(s) => UnknownFieldData.LengthDelimited(s)
    case BytesValue(s) => UnknownFieldData.LengthDelimited(s)
  }

  /** What encode_raw writes: nothing for a default value, otherwise the
      value as field 1. */
  function RawBytes(v: Scalar): (r: seq<byte>)
    ensures r == [] <==> IsDefault(v)
  {
    if IsDefault(v) then [] else FieldBytes(UnknownField(1, StoredForm(v)))
  }

  /** Message::encoded_len of each type: zero for a default value, the
      literal 2 for a true bool, otherwise the scalar codec's length of
      field 1, which is key length plus payload length. */
  function EncodedLen(v: Scalar): (n: nat)
    ensures n == |RawBytes(v)|
  {
    if IsDefault(v) then 0
    else if v.BoolValue? then
      assert KeyLen(1) == 1;
      2
    else FieldEncodedLen(UnknownField(1, StoredForm(v)))
  }

  /** Writing a value and reading the stored field back gives the value:
      the shape written is one the type accepts and the bits come back
      unchanged, the sign of a negative integer included. */
  lemma {:induction false} StoredFormDecodes(v: Scalar, tag: uint32)
    requires WellFormed(v) && !v.EmptyValue?
    ensures DecodeFromUnknown(KindOf(v), UnknownField(tag, StoredForm(v))) == Ok(v)
  {
    match v
    case Int32Value(i) =>
      var u := SignExtend(i);
      assert u % TWO_32 == if i >= 0 then i else i + TWO_32;
    case Int64Value(i) =>
    case _ =>
  }

  // ---------------------------------------------------------------------
  // The message object

  /** The merge of the scalar codec module for the type, kept abstract: it
      reads the payload after a key and yields the new value and the bytes
      it used, or fails. */
  type Merger = f: (Kind, WireType, Scalar, seq<byte>) -> Result<(Scalar, nat)>
    | forall k, wt, v, s :: f(k, wt, v, s).Ok? ==>
        f(k, wt, v, s).value.1 <= |s| && KindOf(f(k, wt, v, s).value.0) == k && WellFormed(f(k, wt, v, s).value.0)
    witness (k: Kind, wt: WireType, v: Scalar, s: seq<byte>) => Err(InvalidVarint)

  /** A wrapper value as a message: `*self` is `value`. */
  class ScalarMessage {
    const kind: Kind
    var value: Scalar

    ghost predicate Valid()
      reads this
    {
      KindOf(value) == kind && WellFormed(value)
    }

    constructor (k: Kind)
      ensures Valid() && kind == k && value == Default(k)
    {
      kind := k;
      value := Default(k);
    }

    /** encode_raw: a default value writes nothing; otherwise the type's
        scalar codec writes it as field 1, which is the key of field 1 and
        the payload in the value's stored shape. */
    method EncodeRaw(buf: WriteBuf)
      requires Valid()
      modifies buf
      ensures buf.bytes == old(buf.bytes) + RawBytes(value)
    {
      if IsDefault(value) {
        return;
      }
      EncodeField(UnknownField(1, StoredForm(value)), buf);
    }

    /** clear: back to the type's default. */
    method Clear()
      modifies this
      ensures value == Default(kind) && Valid()
    {
      value := Default(kind);
    }

    /** merge_field: field 1 is merged by the type's codec, any other field
        is skipped; `()` skips every field. */
    method MergeField(tag: uint32, wt: WireType, buf: ReadBuf, merge: Merger, skip: Skipper) returns (r: Result<()>)
      requires Valid() && buf.Valid()
      modifies this, buf`pos
      ensures Valid() && buf.Valid()
      ensures tag == 1 && kind != Unit ==>
        match merge(kind, wt, old(value), old(buf.Rest()))
        case Ok((v, n)) => r == Ok(()) && value == v && buf.pos == old(buf.pos) + n
        case Err(e) => r == Err(e) && value == old(value)
      ensures tag != 1 || kind == Unit ==>
        value == old(value) &&
        match skip(wt, tag, old(buf.Rest()))
        case Ok(n) => r == Ok(()) && buf.pos == old(buf.pos) + n
        case Err(e) => r == Err(e)
    {
      if tag == 1 && kind != Unit {
        var merged := merge(kind, wt, value, buf.Rest());
        if merged.Err? {
          return Err(merged.error);
        }
        value := merged.value.0;
        buf.Advance(merged.value.1);
        r := Ok(());
      } else {
        var skipped := skip(wt, tag, buf.Rest());
        if skipped.Err? {
          return Err(skipped.error);
        }
        buf.Advance(skipped.value);
        r := Ok(());
      }
    }
  }
}
