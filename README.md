# prost unknown-field store and extension accessor

This project models the part of prost (a Rust Protocol Buffers library) that
keeps the fields a message did not recognise, and the parts built on that
store:

- the unknown-field store `UnknownFieldSet`: parse a field's payload after its
  key, insert it (the last value for a field number wins), encode every stored
  field in ascending field-number order, and compute the encoded length;
- the `Message` implementations of the Rust types that stand for the wrapper
  well-known types (`bool`, `u32`, `u64`, `i32`, `i64`, `f32`, `f64`,
  `String`, `Vec<u8>`, `Bytes`, `()`): `decode_from_unknown`, `encode_raw`,
  `encoded_len`, `clear` and `merge_field`;
- `ExtFieldOptional::get`, which reads an extension out of a message's
  unknown fields and decodes it with the adapter of its type;
- the zig-zag helpers of the extension test and the values that test expects.

The model is split into these modules:

- `Wire` holds the wire primitives the store calls: LEB128 varints of at most
  ten bytes, little-endian fixed-width integers, and field keys.
- `Buffers` holds a read cursor and a write sink. They are classes whose
  methods are proved against `Wire`.
- `UnknownFields` holds the store.
- `Utf8` gives well-formed UTF-8 as defined in section 3.9 of the Unicode
  Standard (Table 3-7), together with its decoder and encoder.
- `Scalars` holds the adapters.
- `Ext` holds the accessor.
- `ExtTest` holds the test helpers.

The code paths that change state are imperative: the store, the cursor, the
sink and the wrapper value are classes with `modifies` frames. The methods
that read or write bytes are proved equal to a pure function:
- parsing one payload, to `ParseField`;
- the store's encode, to `SetBytes`;
- a wrapper's `encode_raw`, to `RawBytes`;
- the decode loop over the store, to `DecodeUnknowns`;
- the cursor and sink primitives, to the functions of `Wire`.

`Insert`, the two `Clear`s and `MergeField` state their new state directly.
The round-trip lemmas are proved about the pure functions.

The wire primitives live in the library's `encoding` module, which is not
part of this model. They are stated here from the Protocol Buffers encoding
and cited at the lines of the store that call them. `skip_field` (which skips
a group) and the merge of each scalar codec are also not part of this model.
Each is a function parameter whose subset type states what the proofs rely
on. On success, it consumes no more than the bytes that remain. A merge
also yields a value of the right type, and a `String` value holds valid
UTF-8.

## Model

| member | source | states |
|---|---|---|
| Wire.FromCode | src/unknown_field_set.rs:37 | the conversion of a key's low three bits to the `wire_type` that `skip_unknown_field` receives (it belongs to the `encoding` module, which is not part of this model): a code is accepted exactly when it is at most 5, and anything else is an `InvalidWireType` error carrying the code |
| Wire.CodeRoundTrip | src/unknown_field_set.rs:148-166 | code and wire type are inverse in both directions |
| Wire.EncodeVarint | src/unknown_field_set.rs:151 | a varint is VarintLen bytes long: every byte but the last has the continuation bit set, and the last does not |
| Wire.DecodeVarint | src/unknown_field_set.rs:111 | a decoded varint used between 1 and 10 bytes, all of them present, and every failure is `InvalidVarint` |
| Wire.VarintRoundTrip | src/unknown_field_set.rs:149-152 | decoding the varint written for any u64 gives the value and its length back, whatever bytes follow |
| Wire.FixedRoundTrip | src/unknown_field_set.rs:153-156 | reading back the little-endian bytes written for a value below 256^width gives the value |
| Wire.FixedBytesRoundTrip | src/unknown_field_set.rs:113-124 | every byte string is the little-endian encoding of the number it is read as |
| Wire.ShiftedTag | src/unknown_field_set.rs:150 | `tag << 3` on a u32 drops the top three bits of the tag, and is tag*8 for every legal field number |
| Wire.KeyRoundTrip | src/unknown_field_set.rs:150 | for every legal field number and wire type, decoding the key written gives both back together with the key's length |
| Wire.DecodeKey | src/unknown_field_set.rs:36-37 | decode_key, which produces the `tag` and `wire_type` that `skip_unknown_field` receives (it belongs to the `encoding` module, which is not part of this model): a decoded key has a field number between 1 and 2^29-1 and used at least one byte, all of them present |
| Buffers.ReadBuf.GetVarint | src/unknown_field_set.rs:111 | the cursor moves past exactly the varint's bytes on success, and the error of the decoder is returned on failure |
| Buffers.ReadBuf.GetFixedLe | src/unknown_field_set.rs:117 | consumes `width` bytes and returns the little-endian number they hold |
| Buffers.ReadBuf.CopyToBytes | src/unknown_field_set.rs:126-128 | consumes n bytes and returns exactly those bytes |
| Buffers.WriteBuf.PutVarint | src/unknown_field_set.rs:151 | the loop appends exactly EncodeVarint(v) |
| UnknownFields.WireTypeOf | src/unknown_field_set.rs:179-185 | a stored field never has a group wire type |
| UnknownFields.ParseField | src/unknown_field_set.rs:99-142 | per wire type: a varint fails exactly when the varint is malformed and otherwise keeps its value; a fixed32/fixed64 payload underflows exactly when fewer than 4/8 bytes remain and otherwise keeps the first 4/8 bytes; a length-delimited payload fails exactly when its length varint is malformed or longer than what remains, and otherwise keeps exactly that many bytes after the length; a start group is skipped exactly when the skip succeeds; an end group is always "unexpected end group"; a stored field carries the tag it was parsed for and the wire type it was read with; the length-delimited error is `InvalidVarint` for a bad length and `BufferUnderflow` for a length past the end; a skipped group uses exactly the bytes the skip reports, and a failed skip passes its error on |
| UnknownFields.Parse | src/unknown_field_set.rs:99-142 | the cursor-based parse returns None, an error or a field exactly as ParseField says, and moves the cursor by the bytes used |
| UnknownFields.ParseVarint | src/unknown_field_set.rs:110-112 | the varint arm agrees with ParseField |
| UnknownFields.ParseFixed32 | src/unknown_field_set.rs:113-118 | the fixed32 arm agrees with ParseField, including the underflow check |
| UnknownFields.ParseFixed64 | src/unknown_field_set.rs:119-124 | the fixed64 arm agrees with ParseField, including the underflow check |
| UnknownFields.ParseBytes | src/unknown_field_set.rs:125-129 | the length-delimited arm agrees with ParseField, including the length check |
| UnknownFields.EncodeField | src/unknown_field_set.rs:144-167 | appends exactly FieldBytes(f): the key, then the payload in the field's shape |
| UnknownFields.FieldEncodedLen | src/unknown_field_set.rs:169-176 | equals the number of bytes encode writes for the field |
| UnknownFields.PayloadRoundTrip | src/unknown_field_set.rs:99-167 | parsing the payload written for any stored shape gives the same field back, using exactly the payload's bytes |
| UnknownFields.BytesPayloadRoundTrip | src/unknown_field_set.rs:125-129 | a length-delimited payload comes back as the same bytes, consuming length prefix plus bytes |
| UnknownFields.ParseRoundTrip | src/unknown_field_set.rs:99-167 | for every legal field number, the bytes encode writes for a field decode back to its key and then to the same field |
| UnknownFields.MinKey | src/unknown_field_set.rs:68 | the smallest key of a non-empty set, as BTreeMap iteration visits first |
| UnknownFields.SortedKeysSorted | src/unknown_field_set.rs:68 | the keys visited are the set's keys, each once, in strictly ascending order |
| UnknownFields.SetBytesOrder | src/unknown_field_set.rs:66-73 | a non-empty store's encoding is the encoding of its least field followed by the encoding of the rest |
| UnknownFields.EncodeInOrder | src/unknown_field_set.rs:67-71 | the loop over the map appends exactly SetBytes(m), the fields in ascending key order |
| UnknownFields.UnknownFieldSet.constructor | src/unknown_field_set.rs:18-26 | a new store holds no map |
| UnknownFields.UnknownFieldSet.SkipUnknownField | src/unknown_field_set.rs:34-46 | a parsed field is stored under its tag, a skipped group stores nothing, an error is returned with the store unchanged; the invariant "Some map is non-empty" and "each entry is keyed by its own tag" are kept |
| UnknownFields.UnknownFieldSet.Insert | src/unknown_field_set.rs:48-59 | the new map is the old contents (empty when absent) updated at tag, and it is never an empty Some |
| UnknownFields.UnknownFieldSet.Encode | src/unknown_field_set.rs:61-74 | appends exactly SetBytes of the contents, and nothing for an absent map |
| UnknownFields.UnknownFieldSet.EncodedLen | src/unknown_field_set.rs:76-84 | equals the number of bytes Encode writes, and 0 for an absent map |
| UnknownFields.UnknownFieldSet.Clear | prost-derive/src/field/unknown_field_set.rs:39-41 | the generated clear resets the store to `Default`: no map, which keeps both invariants |
| UnknownFields.UnknownFieldSet.MergeUnknowns | src/unknown_field_set.rs:34-46 | the decode loop of a message with no known fields (read a key, then skip_unknown_field, until the input ends) succeeds exactly when `DecodeUnknowns` does, and then leaves the store holding what `DecodeUnknowns` computes |
| UnknownFields.UnknownFieldSet.MergeOne | src/unknown_field_set.rs:34-46 | one round of that loop stores and consumes exactly what `Round` says, or returns its error |
| UnknownFields.DecodeUnknowns | src/unknown_field_set.rs:34-46 | the loop, written as a function over the bytes: decoding never loses a stored field number |
| UnknownFields.Round | src/unknown_field_set.rs:34-46 | one round consumes at least the key, keeps every stored field number, and stores a field only under its own legal field number |
| UnknownFields.DecodedWellKeyed | src/unknown_field_set.rs:34-46 | every store the decode loop builds has each field under its own field number, between 1 and 2^29-1 |
| UnknownFields.DecodeEncodeDecode | src/unknown_field_set.rs:15-17 | the fields a message did not recognise survive a decode/encode cycle: re-decoding what the decoded store encodes gives the same store |
| UnknownFields.DecodeStep | src/unknown_field_set.rs:34-46 | one round of the decode loop over a field's encoding stores that field under its tag |
| UnknownFields.ConcatDecodes | src/unknown_field_set.rs:34-74 | decoding the concatenated encodings of the fields under some keys succeeds, and updates the accumulator with exactly those fields |
| UnknownFields.SetRoundTrip | src/unknown_field_set.rs:34-84 | decoding what a store encodes into an empty store rebuilds the same store: unknown fields survive a decode/encode cycle |
| UnknownFields.UpdatedCovers | src/unknown_field_set.rs:34-74 | an update of the empty map with all of a map's keys is that map |
| Utf8.DecodeChar | src/types.rs:409 | a well-formed head is 1 to 4 bytes long, all of them present |
| Utf8.DecodeEncodedChar | src/types.rs:409 | the bytes of any character decode to that character, using exactly their length |
| Utf8.EncodeDecodedChar | src/types.rs:409 | every well-formed head is the encoding of the character it decodes to |
| Utf8.Utf8RoundTrip | src/types.rs:406-411 | decoding the UTF-8 of any string gives the string back |
| Utf8.Utf8Canonical | src/types.rs:406-411 | every valid byte string is the encoding of what it decodes to, so strings and valid UTF-8 correspond one to one |
| Utf8.EncodedIsValid | src/types.rs:406-411 | a String's bytes are always valid UTF-8 |
| Utf8.EncodedLength | src/types.rs:406-411 | a string's encoding takes at most four bytes per character |
| Scalars.AsI32 | src/types.rs:210-211 | `u as i32` has the same 32 bits as u, and is non-negative exactly when the top bit is clear |
| Scalars.AsI64 | src/types.rs:261-262 | `u as i64` has the same 64 bits, and is non-negative exactly when the top bit is clear |
| Scalars.SignExtend | src/types.rs:170-269 | `i as u64` has the same residue modulo 2^64 as i |
| Scalars.BoolFromUnknown | src/types.rs:58-67 | only a varint decodes, to true exactly when it is non-zero; any other shape is "cannot decode bool" |
| Scalars.U32FromUnknown | src/types.rs:107-117 | a varint (cut to its low 32 bits) or a fixed32 decodes; anything else is "cannot decode u32" |
| Scalars.U64FromUnknown | src/types.rs:157-166 | a varint or a fixed64 decodes unchanged; anything else is "cannot decode u64" |
| Scalars.I32FromUnknown | src/types.rs:206-217 | a fixed32 or a varint decodes to the int32 with the same low 32 bits; anything else is "cannot decode i32" |
| Scalars.I64FromUnknown | src/types.rs:257-268 | a fixed64 or a varint decodes to the int64 with the same 64 bits; anything else is "cannot decode i64" |
| Scalars.F32FromUnknown | src/types.rs:308-317 | only a fixed32 decodes, keeping its bits; anything else is "cannot decode f32" |
| Scalars.F64FromUnknown | src/types.rs:357-366 | only a fixed64 decodes, keeping its bits; anything else is "cannot decode f64" |
| Scalars.StringFromUnknown | src/types.rs:406-417 | a length-delimited payload decodes exactly when it is valid UTF-8, as those bytes; invalid UTF-8 is a UTF-8 error and any other shape is "cannot decode String" |
| Scalars.VecFromUnknown | src/types.rs:457-466 | a length-delimited payload decodes to the same bytes; anything else is "cannot decode Vec<u8>" |
| Scalars.BytesFromUnknown | src/types.rs:506-514 | a length-delimited payload decodes to the same bytes; anything else is "cannot decode Bytes" |
| Scalars.DecodeFromUnknown | src/types.rs:58-544 | for each type, decoding succeeds exactly on the shapes the type accepts (and, for String, on valid UTF-8) with a value of that type, `()` accepts everything, and the error is the mismatch error naming the type and the shape |
| Scalars.Default | src/types.rs:54-56 | the value clear resets to has the type's kind and is one that encode_raw leaves out |
| Scalars.OmittedIsDefault | src/types.rs:22-515 | the presence tests of each `encode_raw` (lines 27, 76, 126, 175, 226, 277, 326, 375, 426 and 475), which each `encoded_len` repeats: apart from the floats, a value is left out exactly when it is its type's default; a float is left out exactly when it is +0.0 or -0.0 |
| Scalars.StoredForm | src/types.rs:22-515 | the shape each codec call in `encode_raw` writes (lines 28, 77, 127, 176, 227, 278, 327, 376, 427 and 476), stated as: it is one its type's decoder accepts, and it is length-delimited exactly for the byte types |
| Scalars.RawBytes | src/types.rs:23-30 | encode_raw writes nothing exactly for the default value (false, 0, ±0.0, empty) |
| Scalars.EncodedLen | src/types.rs:47-53 | encoded_len, including the literal 2 of a true bool, equals the number of bytes encode_raw writes |
| Scalars.StoredFormDecodes | src/types.rs:58-514 | for every well-formed non-`()` value, decode_from_unknown on the shape encode_raw stores gives the value back, negative integers included |
| Scalars.ScalarMessage.constructor | src/types.rs:22-545 | a new wrapper holds the type's default |
| Scalars.ScalarMessage.EncodeRaw | src/types.rs:23-30 | appends exactly RawBytes(value) |
| Scalars.ScalarMessage.Clear | src/types.rs:54-56 | the value becomes the type's default and stays of its type |
| Scalars.ScalarMessage.MergeField | src/types.rs:31-46 | for field 1 the codec's merge result becomes the value and the cursor moves by what it used; any other field, and every field for `()`, is skipped with the value unchanged; errors are passed on |
| Ext.Get | src/ext.rs:10-18 | the result is absent exactly when there is no map or no entry for the field number; otherwise it is that entry decoded, which succeeds exactly when the type accepts the stored shape (and, for String, the bytes are valid UTF-8), with a value of that type |
| Ext.GetAfterDecode | src/ext.rs:10-18 | a message whose only field is a non-default value written under extension number n decodes to a store from which get returns the value |
| ExtTest.ZigZagDecode32 | tests/src/ext.rs:4-10 | the corrected unmapping: zig-zag encoding its result gives back the unsigned 32 bits of the input |
| ExtTest.ZigZagDecode64 | tests/src/ext.rs:12-18 | the corrected unmapping on 64 bits |
| ExtTest.ZigZag32RoundTrip | tests/src/ext.rs:33-36 | for every int32, unmapping what the i32 adapter reads from its zig-zag varint gives the value back |
| ExtTest.ZigZag64RoundTrip | tests/src/ext.rs:37-40 | the same for every int64 through the i64 adapter |
| ExtTest.Sint32 | tests/src/ext.rs:4-10 | the helper as written agrees with zig-zag unmapping exactly on non-negative inputs |
| ExtTest.Sint64 | tests/src/ext.rs:12-18 | the 64-bit helper as written agrees with zig-zag unmapping exactly on non-negative inputs |
| ExtTest.Sint32Range | tests/src/ext.rs:4-10 | the helper as written recovers a sint32 value exactly when it lies in [-2^30, 2^30) |
| ExtTest.Sint64Range | tests/src/ext.rs:12-18 | the 64-bit helper as written recovers a sint64 value exactly when it lies in [-2^62, 2^62) |
| ExtTest.Sint32Counterexample | tests/src/ext.rs:4-10 | 2^30 comes back as -2^30 and -2^31 comes back as 0 |
| ExtTest.SignedOptionValues | tests/src/ext.rs:31-32 | int32 -3 and int64 -13, stored as sign-extended varints, read back as -3 and -13 |
| ExtTest.ZigZagOptionValues | tests/src/ext.rs:33-40 | sint32 -4 and sint64 -14 are stored as 7 and 27, read raw, and unmapped to -4 and -14 |
| ExtTest.PlainOptionValues | tests/src/ext.rs:41-47 | the uint32, uint64, fixed32, fixed64, sfixed32, sfixed64 and bool options read back as 5, 15, 6, 16, 7, -17 and true |
| ExtTest.StringOptionRoundTrip | tests/src/ext.rs:48-51 | any string, stored as its UTF-8 bytes, reads back as those bytes and decodes to the same string |

## Left out

- The `encoding` module (`decode_varint`, `encode_key`, `skip_field`, each scalar codec's `encode`/`merge`/`encoded_len`) is not part of this model. The varint, fixed-width and key primitives are written out from the Protocol Buffers encoding. `skip_field` and the codec merges are abstract parameters.
- Wire.DecodeVarint: the 10th-byte overflow check of prost's fast path is not modelled. Bits past the 64th are dropped, as in the slow path.
- `DecodeContext` (the recursion limit) is not modelled. Nothing in the core reads it except to pass it on.
- The text of `DecodeError` messages is not modelled. A mismatch is `CannotDecode(type name, wire type)`, not the Debug rendering of the data, and a UTF-8 error is `InvalidUtf8`.
- The `println!` lines in the i32 and i64 decoders (src/types.rs:208, 259) are I/O and are left out.
- Floating-point values are kept as their IEEE 754 bit patterns. `!= 0.0` is modelled as "neither +0.0 nor -0.0". The test's 10.5 and -8.5 are not checked, because no floating-point arithmetic is modelled.
- The enum and message options of the test (tests/src/ext.rs:52-59) depend on generated code and the `FileDescriptorProto` decoder. Neither is part of this model.
- Reading the test's descriptor (tests/src/ext.rs:26-28) is left out. The expected values are checked against the stored shapes the scalar codecs write.
- Scalars.ScalarMessage.MergeField: on a failed merge the model keeps the old value. The codecs, which are not part of this model, may leave a partly merged or cleared value.
- `Box`, serde, `Ord`, `Hash` and `Debug` derives, the `Buf`/`BufMut` trait machinery and usize overflow are left out.
- The code that prost-derive generates for the store field (prost-derive/src/field/unknown_field_set.rs:21-41) is proc-macro token generation and is not modelled as such. The calls it emits to `encode` and `encoded_len` are `UnknownFieldSet.Encode` and `EncodedLen`. The `clear` it emits, which resets the store to `Default`, is `UnknownFieldSet.Clear`. Its `merge` is empty. The decode loop that calls `skip_unknown_field` is modelled only for a message none of whose fields is known, as `MergeUnknowns` and `DecodeUnknowns`.

## Findings

| source | as written | input that shows it | evidently intended | confidence | as-written member | corrected member |
|---|---|---|---|---|---|---|
| tests/src/ext.rs:4-10 | `sint32` shifts right arithmetically (`i >> 1` on `i32`), so a stored zig-zag number with the top bit set gives a wrong result | the sint32 value 2^30 is stored as 0x8000_0000, read as -2^31, and unmapped to -2^30 | a logical shift of the 32 stored bits (`((i as u32) >> 1) as i32 ^ -(i & 1)`), which recovers every int32 | not executed | ExtTest.Sint32Range | ExtTest.ZigZag32RoundTrip |
| tests/src/ext.rs:12-18 | `sint64` has the same arithmetic shift on `i64` | a sint64 value outside [-2^62, 2^62), for example 2^62, which is stored as 2^63 and read as -2^63 | a logical shift of the 64 stored bits | not executed | ExtTest.Sint64Range | ExtTest.ZigZag64RoundTrip |
