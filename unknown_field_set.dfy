/** The unknown-field store: one unknown field's stored wire shape, how it is
    parsed from the bytes after its key and written back, and the per-message
    set that keeps such fields ordered by field number. */
module UnknownFields {
  import opened Wire
  import opened Buffers

  /** The four wire shapes a field can be stored in. */
  datatype UnknownFieldData =
    | Varint(value: uint64)
    | SixtyFourBit(value: uint64)
    | LengthDelimited(bytes: Bytes)
    | ThirtyTwoBit(value32: uint32)

  datatype UnknownField = UnknownField(tag: uint32, data: UnknownFieldData)

  /** The wire type a stored shape is written back with. */
  function WireTypeOf(d: UnknownFieldData): (wt: WireType)
    ensures wt != StartGroup && wt != EndGroup
  {
    match d
    case Varint(_) => WireType.Varint
    case SixtyFourBit(_) => WireType.SixtyFourBit
    case LengthDelimited(_) => WireType.LengthDelimited
    case ThirtyTwoBit(_) => WireType.ThirtyTwoBit
  }

  /** The generic field skipper, kept abstract: given a wire type, a field
      number and the bytes after the key, it fails or consumes some of them. */
  type Skipper = f: (WireType, uint32, seq<byte>) -> Result<nat>
    | forall wt, tag, s :: f(wt, tag, s).Ok? ==> f(wt, tag, s).value <= |s|
    witness (wt: WireType, tag: uint32, s: seq<byte>) => Err(UnexpectedEndGroup)

  /** What parsing one payload produced: a field to store and the bytes it
      used, nothing to store (a skipped group) and the bytes it used, or an
      error. */
  datatype ParseOutcome = Stored(field: UnknownField, used: nat) | Skipped(used: nat) | Failed(error: DecodeError)

  /** UnknownField::parse on the bytes that follow a key. */
  function ParseField(tag: uint32, wt: WireType, s: seq<byte>, skip: Skipper): (r: ParseOutcome)
    ensures r.Stored? ==> r.field.tag == tag && WireTypeOf(r.field.data) == wt && 1 <= r.used <= |s|
    ensures r.Skipped? ==> wt == StartGroup && r.used <= |s|
    ensures wt == WireType.ThirtyTwoBit ==>
      if |s| < 4 then r == Failed(BufferUnderflow)
      else r.Stored? && r.used == 4 && EncodeFixed(r.field.data.value32, 4) == s[..4]
    ensures wt == WireType.SixtyFourBit ==>
      if |s| < 8 then r == Failed(BufferUnderflow)
      else r.Stored? && r.used == 8 && EncodeFixed(r.field.data.value, 8) == s[..8]
    ensures wt == WireType.LengthDelimited && r.Stored? ==>
      DecodeVarint(s) == Ok((|r.field.data.bytes|, r.used - |r.field.data.bytes|))
      && s[r.used - |r.field.data.bytes|..r.used] == r.field.data.bytes
    ensures wt == WireType.Varint ==>
      (r.Failed? <==> DecodeVarint(s).Err?)
      && (r.Stored? ==> DecodeVarint(s) == Ok((r.field.data.value, r.used)))
    ensures wt == WireType.LengthDelimited ==>
      (r.Failed? <==> DecodeVarint(s).Err? || DecodeVarint(s).value.0 > |s| - DecodeVarint(s).value.1)
    ensures wt == WireType.LengthDelimited && r.Failed? ==>
      r.error == if DecodeVarint(s).Err? then InvalidVarint else BufferUnderflow
    ensures wt == StartGroup ==> (r.Skipped? <==> skip(StartGroup, tag, s).Ok?)
    ensures wt == StartGroup && r.Skipped? ==> r.used == skip(StartGroup, tag, s).value
    ensures wt == StartGroup && r.Failed? ==> r.error == skip(StartGroup, tag, s).error
    ensures wt == EndGroup ==> r == Failed(UnexpectedEndGroup)
  {
    match wt
    case Varint =>
      (match DecodeVarint(s)
       case Err(e) => Failed(e)
       case Ok((v, n)) => Stored(UnknownField(tag, UnknownFieldData.Varint(v)), n))
    case ThirtyTwoBit =>
      if |s| < 4 then Failed(BufferUnderflow)
      else
        Pow256Widths();
        FixedBytesRoundTrip(s[..4]);
        Stored(UnknownField(tag, UnknownFieldData.ThirtyTwoBit(DecodeFixed(s[..4]))), 4)
    case SixtyFourBit =>
      if |s| < 8 then Failed(BufferUnderflow)
      else
        Pow256Widths();
        FixedBytesRoundTrip(s[..8]);
        Stored(UnknownField(tag, UnknownFieldData.SixtyFourBit(DecodeFixed(s[..8]))), 8)
    case LengthDelimited =>
      (match DecodeVarint(s)
       case Err(e) => Failed(e)
       case Ok((len, n)) =>
         if len > |s| - n then Failed(BufferUnderflow)
         else Stored(UnknownField(tag, UnknownFieldData.LengthDelimited(s[n..n + len])), n + len))
    case StartGroup =>
      (match skip(StartGroup, tag, s)
       case Err(e) => Failed(e)
       case Ok(n) => Skipped(n))
    case EndGroup => Failed(UnexpectedEndGroup)
  }

  /** A cursor-level parse result `r`, after the cursor moved by `moved`
      bytes, agrees with the outcome `o` of ParseField. */
  ghost predicate Agrees(o: ParseOutcome, r: Option<Result<UnknownField>>, moved: int)
  {
    match o
    case Stored(f, n) => r == Some(Ok(f)) && moved == n
    case Skipped(n) => r == None && moved == n
    case Failed(e) => r == Some(Err(e))
  }

  /** UnknownField::parse over a read cursor: the key has been consumed; on
      success the cursor moves past exactly the payload. None means nothing
      is to be stored. */
  method Parse(tag: uint32, wt: WireType, buf: ReadBuf, skip: Skipper) returns (r: Option<Result<UnknownField>>)
    requires buf.Valid()
    modifies buf`pos
    ensures buf.Valid() && old(buf.pos) <= buf.pos
    ensures Agrees(ParseField(tag, wt, old(buf.Rest()), skip), r, buf.pos - old(buf.pos))
  {
    match wt
    case Varint =>
      r := ParseVarint(tag, buf, skip);
    case ThirtyTwoBit =>
      r := ParseFixed32(tag, buf, skip);
    case SixtyFourBit =>
      r := ParseFixed64(tag, buf, skip);
    case LengthDelimited =>
      r := ParseBytes(tag, buf, skip);
    case StartGroup =>
      var skipped := skip(StartGroup, tag, buf.Rest());
      if skipped.Err? {
        return Some(Err(skipped.error));
      }
      buf.Advance(skipped.value);
      r := None;
    case EndGroup =>
      r := Some(Err(UnexpectedEndGroup));
  }

  /** The varint arm of parse. */
  method ParseVarint(tag: uint32, buf: ReadBuf, skip: Skipper) returns (r: Option<Result<UnknownField>>)
    requires buf.Valid()
    modifies buf`pos
    ensures buf.Valid() && old(buf.pos) <= buf.pos
    ensures Agrees(ParseField(tag, WireType.Varint, old(buf.Rest()), skip), r, buf.pos - old(buf.pos))
  {
    var v := buf.GetVarint();
    if v.Err? {
      return Some(Err(v.error));
    }
    r := Some(Ok(UnknownField(tag, UnknownFieldData.Varint(v.value))));
  }

  /** The fixed32 arm of parse. */
  method ParseFixed32(tag: uint32, buf: ReadBuf, skip: Skipper) returns (r: Option<Result<UnknownField>>)
    requires buf.Valid()
    modifies buf`pos
    ensures buf.Valid() && old(buf.pos) <= buf.pos
    ensures Agrees(ParseField(tag, WireType.ThirtyTwoBit, old(buf.Rest()), skip), r, buf.pos - old(buf.pos))
  {
    if buf.Remaining() < 4 {
      return Some(Err(BufferUnderflow));
    }
    Pow256Widths();
    var v := buf.GetFixedLe(4);
    r := Some(Ok(UnknownField(tag, UnknownFieldData.ThirtyTwoBit(v))));
  }

  /** The fixed64 arm of parse. */
  method ParseFixed64(tag: uint32, buf: ReadBuf, skip: Skipper) returns (r: Option<Result<UnknownField>>)
    requires buf.Valid()
    modifies buf`pos
    ensures buf.Valid() && old(buf.pos) <= buf.pos
    ensures Agrees(ParseField(tag, WireType.SixtyFourBit, old(buf.Rest()), skip), r, buf.pos - old(buf.pos))
  {
    if buf.Remaining() < 8 {
      return Some(Err(BufferUnderflow));
    }
    Pow256Widths();
    var v := buf.GetFixedLe(8);
    r := Some(Ok(UnknownField(tag, UnknownFieldData.SixtyFourBit(v))));
  }

  /** The length-delimited arm of parse: a varint length, then that many
      bytes copied out. */
  method ParseBytes(tag: uint32, buf: ReadBuf, skip: Skipper) returns (r: Option<Result<UnknownField>>)
    requires buf.Valid()
    modifies buf`pos
    ensures buf.Valid() && old(buf.pos) <= buf.pos
    ensures Agrees(ParseField(tag, WireType.LengthDelimited, old(buf.Rest()), skip), r, buf.pos - old(buf.pos))
  {
    ghost var s := buf.Rest();
    var len := buf.GetVarint();
    if len.Err? {
      assert ParseField(tag, WireType.LengthDelimited, s, skip) == Failed(len.error);
      return Some(Err(len.error));
    }
    ghost var n := buf.pos - old(buf.pos);
    assert DecodeVarint(s) == Ok((len.value, n));
    if len.value > buf.Remaining() {
      assert ParseField(tag, WireType.LengthDelimited, s, skip) == Failed(BufferUnderflow);
      return Some(Err(BufferUnderflow));
    }
    assert buf.Rest() == s[n..];
    var bytes := buf.CopyToBytes(len.value);
    assert bytes == s[n..n + len.value];
    r := Some(Ok(UnknownField(tag, UnknownFieldData.LengthDelimited(bytes))));
    assert ParseField(tag, WireType.LengthDelimited, s, skip) == Stored(r.value.value, n + len.value);
  }

  /** The bytes UnknownField::encode writes: the key rebuilt from the field
      number and the shape, then the payload in the layout parse reads. */
  function FieldBytes(f: UnknownField): seq<byte>
  {
    match f.data
    case Varint(v) => EncodeKey(f.tag, WireType.Varint) + EncodeVarint(v)
    case SixtyFourBit(v) => EncodeKey(f.tag, WireType.SixtyFourBit) + EncodeFixed(v, 8)
    case LengthDelimited(b) => EncodeKey(f.tag, WireType.LengthDelimited) + EncodeVarint(|b|) + b
    case ThirtyTwoBit(v) => EncodeKey(f.tag, WireType.ThirtyTwoBit) + EncodeFixed(v, 4)
  }

  /** UnknownField::encode */
  method EncodeField(f: UnknownField, buf: WriteBuf)
    modifies buf
    ensures buf.bytes == old(buf.bytes) + FieldBytes(f)
  {
    match f.data
    case Varint(v) =>
      buf.Put(EncodeKey(f.tag, WireType.Varint));
      buf.PutVarint(v);
    case SixtyFourBit(v) =>
      buf.Put(EncodeKey(f.tag, WireType.SixtyFourBit));
      buf.Put(EncodeFixed(v, 8));
    case LengthDelimited(b) =>
      buf.Put(EncodeKey(f.tag, WireType.LengthDelimited));
      buf.PutVarint(|b|);
      buf.Put(b);
    case ThirtyTwoBit(v) =>
      buf.Put(EncodeKey(f.tag, WireType.ThirtyTwoBit));
      buf.Put(EncodeFixed(v, 4));
  }

  /** UnknownField::encoded_len: key length plus payload length, per shape
      (uint64, fixed64, bytes and fixed32 encoded_len). */
  function FieldEncodedLen(f: UnknownField): (n: nat)
    ensures n == |FieldBytes(f)|
  {
    KeyLenExact(f.tag, WireTypeOf(f.data));
    match f.data
    case Varint(v) => KeyLen(f.tag) + VarintLen(v)
    case SixtyFourBit(_) => KeyLen(f.tag) + 8
    case LengthDelimited(b) => KeyLen(f.tag) + VarintLen(|b|) + |b|
    case ThirtyTwoBit(_) => KeyLen(f.tag) + 4
  }

  /** The bytes UnknownField::encode writes after the key. */
  function PayloadBytes(d: UnknownFieldData): seq<byte>
  {
    match d
    case Varint(v) => EncodeVarint(v)
    case SixtyFourBit(v) => EncodeFixed(v, 8)
    case LengthDelimited(b) => EncodeVarint(|b|) + b
    case ThirtyTwoBit(v) => EncodeFixed(v, 4)
  }

  /** Parsing the payload encode writes, whatever follows it, stores the
      same shape and value and consumes exactly that payload. */
  lemma PayloadRoundTrip(tag: uint32, d: UnknownFieldData, rest: seq<byte>, skip: Skipper)
    ensures ParseField(tag, WireTypeOf(d), PayloadBytes(d) + rest, skip)
         == Stored(UnknownField(tag, d), |PayloadBytes(d)|)
  {
    match d
    case Varint(v) => VarintPayloadRoundTrip(tag, v, rest, skip);
    case SixtyFourBit(v) => Fixed64PayloadRoundTrip(tag, v, rest, skip);
    case ThirtyTwoBit(v) => Fixed32PayloadRoundTrip(tag, v, rest, skip);
    case LengthDelimited(b) => BytesPayloadRoundTrip(tag, b, rest, skip);
  }

  lemma VarintPayloadRoundTrip(tag: uint32, v: uint64, rest: seq<byte>, skip: Skipper)
    ensures ParseField(tag, WireType.Varint, EncodeVarint(v) + rest, skip)
         == Stored(UnknownField(tag, UnknownFieldData.Varint(v)), |EncodeVarint(v)|)
  {
    VarintRoundTrip(v, rest);
  }

  lemma Fixed32PayloadRoundTrip(tag: uint32, v: uint32, rest: seq<byte>, skip: Skipper)
    ensures ParseField(tag, WireType.ThirtyTwoBit, EncodeFixed(v, 4) + rest, skip)
         == Stored(UnknownField(tag, UnknownFieldData.ThirtyTwoBit(v)), 4)
  {
    var s := EncodeFixed(v, 4) + rest;
    assert s[..4] == EncodeFixed(v, 4);
    Pow256Widths();
    FixedRoundTrip(v, 4);
  }

  lemma Fixed64PayloadRoundTrip(tag: uint32, v: uint64, rest: seq<byte>, skip: Skipper)
    ensures ParseField(tag, WireType.SixtyFourBit, EncodeFixed(v, 8) + rest, skip)
         == Stored(UnknownField(tag, UnknownFieldData.SixtyFourBit(v)), 8)
  {
    var s := EncodeFixed(v, 8) + rest;
    assert s[..8] == EncodeFixed(v, 8);
    Pow256Widths();
    FixedRoundTrip(v, 8);
  }

  lemma BytesPayloadRoundTrip(tag: uint32, b: Bytes, rest: seq<byte>, skip: Skipper)
    ensures ParseField(tag, WireType.LengthDelimited, EncodeVarint(|b|) + b + rest, skip)
         == Stored(UnknownField(tag, UnknownFieldData.LengthDelimited(b)), |EncodeVarint(|b|)| + |b|)
  {
    var s := EncodeVarint(|b|) + b + rest;
    var n := |EncodeVarint(|b|)|;
    assert s == EncodeVarint(|b|) + (b + rest);
    VarintRoundTrip(|b|, b + rest);
    assert s[n..n + |b|] == b;
  }

  /** Encoding a field and reading it back: the key decodes to the field's
      number and shape, and parsing what follows gives the field again and
      consumes exactly its encoding. */
  lemma ParseRoundTrip(f: UnknownField, rest: seq<byte>, skip: Skipper)
    requires 1 <= f.tag <= MAX_TAG
    ensures DecodeKey(FieldBytes(f) + rest) == Ok((f.tag, WireTypeOf(f.data), KeyLen(f.tag)))
    ensures ParseField(f.tag, WireTypeOf(f.data), (FieldBytes(f) + rest)[KeyLen(f.tag)..], skip)
         == Stored(f, |FieldBytes(f)| - KeyLen(f.tag))
  {
    var wt := WireTypeOf(f.data);
    var key := EncodeKey(f.tag, wt);
    var payload := PayloadBytes(f.data);
    KeyLenExact(f.tag, wt);
    assert FieldBytes(f) == key + payload;
    assert FieldBytes(f) + rest == key + (payload + rest);
    KeyRoundTrip(f.tag, wt, payload + rest);
    assert (FieldBytes(f) + rest)[KeyLen(f.tag)..] == payload + rest;
    PayloadRoundTrip(f.tag, f.data, rest, skip);
  }

  // ---------------------------------------------------------------------
  // Field-number order

  /** The least key, found by taking any key out and comparing it with the
      least of the others. */
  ghost function Least(keys: set<uint32>): (k: uint32)
    requires keys != {}
    ensures k in keys && forall j :: j in keys ==> k <= j
    decreases keys
  {
    var x :| x in keys;
    assert forall j :: j in keys ==> j == x || j in keys - {x};
    if keys == {x} then x
    else
      var y := Least(keys - {x});
      if x < y then x else y
  }

  /** The next key a BTreeMap iteration visits: the least remaining one. */
  function MinKey(keys: set<uint32>): (k: uint32)
    requires keys != {}
    ensures k in keys && forall j :: j in keys ==> k <= j
  {
    assert Least(keys) in keys;
    var k :| k in keys && forall j :: j in keys ==> k <= j;
    k
  }

  /** The keys in ascending order, as a BTreeMap iterates them. */
  function SortedKeys(keys: set<uint32>): (r: seq<uint32>)
    ensures forall i :: 0 <= i < |r| ==> r[i] in keys
    decreases keys
  {
    if keys == {} then []
    else
      var k := MinKey(keys);
      [k] + SortedKeys(keys - {k})
  }

  /** SortedKeys lists every key exactly once, in strictly ascending order. */
  lemma {:induction false} SortedKeysSorted(keys: set<uint32>)
    ensures |SortedKeys(keys)| == |keys|
    ensures forall k :: k in keys ==> k in SortedKeys(keys)
    ensures forall i, j :: 0 <= i < j < |SortedKeys(keys)| ==> SortedKeys(keys)[i] < SortedKeys(keys)[j]
    decreases keys
  {
    if keys != {} {
      var k := MinKey(keys);
      SortedKeysSorted(keys - {k});
      assert SortedKeys(keys) == [k] + SortedKeys(keys - {k});
    }
  }

  /** The encodings of the fields under `ks`, in that order. */
  function Concat(m: map<uint32, UnknownField>, ks: seq<uint32>): seq<byte>
    requires forall i :: 0 <= i < |ks| ==> ks[i] in m
  {
    if ks == [] then [] else FieldBytes(m[ks[0]]) + Concat(m, ks[1..])
  }

  /** The fold of encoded_len over the fields under `ks`. */
  function SumLen(m: map<uint32, UnknownField>, ks: seq<uint32>): (n: nat)
    requires forall i :: 0 <= i < |ks| ==> ks[i] in m
    ensures n == |Concat(m, ks)|
  {
    if ks == [] then 0 else FieldEncodedLen(m[ks[0]]) + SumLen(m, ks[1..])
  }

  /** What UnknownFieldSet::encode writes for a map of fields. */
  function SetBytes(m: map<uint32, UnknownField>): seq<byte>
  {
    Concat(m, SortedKeys(m.Keys))
  }

  /** The field with the least number comes first, followed by the
      encoding of the others; so fields leave in ascending number order
      whatever order they were inserted in. */
  lemma SetBytesOrder(m: map<uint32, UnknownField>)
    requires m != map[]
    ensures SetBytes(m) == FieldBytes(m[MinKey(m.Keys)]) + SetBytes(m - {MinKey(m.Keys)})
  {
    var k := MinKey(m.Keys);
    var rest := m - {k};
    assert m.Keys != {} by { assert k in m.Keys; }
    assert rest.Keys == m.Keys - {k};
    var ks := SortedKeys(m.Keys - {k});
    assert SortedKeys(m.Keys) == [k] + ks;
    ConcatFrame(m, rest, ks);
  }

  /** Concat only looks at the keys it is given. */
  lemma {:induction false} ConcatFrame(m: map<uint32, UnknownField>, m': map<uint32, UnknownField>, ks: seq<uint32>)
    requires forall i :: 0 <= i < |ks| ==> ks[i] in m && ks[i] in m' && m[ks[i]] == m'[ks[i]]
    ensures Concat(m, ks) == Concat(m', ks)
  {
    if ks != [] {
      ConcatFrame(m, m', ks[1..]);
    }
  }

  /** Taking the least key off the front of the sorted keys. */
  lemma ConcatSortedStep(m: map<uint32, UnknownField>, keys: set<uint32>)
    requires keys != {} && keys <= m.Keys
    ensures Concat(m, SortedKeys(keys))
         == FieldBytes(m[MinKey(keys)]) + Concat(m, SortedKeys(keys - {MinKey(keys)}))
  {
    var k := MinKey(keys);
    var ks := SortedKeys(keys - {k});
    assert SortedKeys(keys) == [k] + ks;
    assert ([k] + ks)[1..] == ks;
  }

  /** The loop of UnknownFieldSet::encode: visit the remaining keys least
      first, writing each field. */
  method EncodeInOrder(m: map<uint32, UnknownField>, buf: WriteBuf)
    modifies buf
    ensures buf.bytes == old(buf.bytes) + SetBytes(m)
  {
    var remaining := m.Keys;
    ghost var todo := SetBytes(m);
    while remaining != {}
      invariant remaining <= m.Keys
      invariant todo == Concat(m, SortedKeys(remaining))
      invariant old(buf.bytes) + SetBytes(m) == buf.bytes + todo
      decreases remaining
    {
      var k := MinKey(remaining);
      ghost var tail := Concat(m, SortedKeys(remaining - {k}));
      ConcatSortedStep(m, remaining);
      AppendAssoc(buf.bytes, FieldBytes(m[k]), tail);
      EncodeField(m[k], buf);
      remaining := remaining - {k};
      todo := tail;
    }
    assert todo == [];
  }

  lemma AppendAssoc(a: seq<byte>, b: seq<byte>, c: seq<byte>)
    ensures a + (b + c) == (a + b) + c
  {
  }

  /** The per-message store. `data` is None until the first insertion; once
      present the map is never empty and is never taken away again. */
  class UnknownFieldSet {
    var data: Option<map<uint32, UnknownField>>

    /** If the Option is non-empty, the map is also non-empty. */
    ghost predicate Valid()
      reads this
    {
      data.Some? ==> data.value != map[]
    }

    /** The stored fields; an absent map holds none. */
    function Fields(): map<uint32, UnknownField>
      reads this
    {
      if data.Some? then data.value else map[]
    }

    /** Every entry is keyed by its own field number. */
    ghost predicate TagsMatchKeys()
      reads this
    {
      forall k :: k in Fields() ==> Fields()[k].tag == k
    }

    /** Default: no unknown fields and no map allocated. */
    constructor ()
      ensures Valid() && TagsMatchKeys() && data == None
    {
      data := None;
    }

    /** skip_unknown_field: parse one payload; store it under `tag` when it
        yields a field, store nothing for a skipped group, and on an error
        store nothing and return the error. */
    method SkipUnknownField(tag: uint32, wt: WireType, buf: ReadBuf, skip: Skipper) returns (r: Result<()>)
      requires Valid() && buf.Valid()
      modifies this, buf`pos
      ensures Valid() && buf.Valid()
      ensures old(TagsMatchKeys()) ==> TagsMatchKeys()
      ensures match ParseField(tag, wt, old(buf.Rest()), skip)
        case Stored(f, n) => r == Ok(()) && data == Some(old(Fields())[tag := f]) && buf.pos == old(buf.pos) + n
        case Skipped(n) => r == Ok(()) && data == old(data) && buf.pos == old(buf.pos) + n
        case Failed(e) => r == Err(e) && data == old(data) && old(buf.pos) <= buf.pos
    {
      var parsed := Parse(tag, wt, buf, skip);
      match parsed
      case None =>
        r := Ok(());
      case Some(Err(e)) =>
        r := Err(e);
      case Some(Ok(f)) =>
        Insert(tag, f);
        r := Ok(());
    }

    /** insert: last write wins; the first insertion allocates the map. */
    method Insert(tag: uint32, field: UnknownField)
      requires Valid()
      modifies this
      ensures Valid()
      ensures data == Some(old(Fields())[tag := field])
    {
      match data
      case Some(m) =>
        data := Some(m[tag := field]);
      case None =>
        data := Some(map[tag := field]);
        assert tag in data.value;
    }

    /** encode: every stored field, in ascending field-number order; an
        absent map writes nothing. */
    method Encode(buf: WriteBuf)
      modifies buf
      ensures buf.bytes == old(buf.bytes) + SetBytes(Fields())
    {
      match data
      case None =>
        assert SetBytes(map[]) == [];
      case Some(m) =>
        EncodeInOrder(m, buf);
    }

    /** The decode loop of a message none of whose fields is known: read a
        key, hand the payload to skip_unknown_field, until the input ends
        or an error stops it. The store ends up as DecodeUnknowns says. */
    method MergeUnknowns(buf: ReadBuf, skip: Skipper) returns (r: Result<()>)
      requires Valid() && buf.Valid()
      modifies this, buf`pos
      ensures Valid() && buf.Valid()
      ensures r.Ok? <==> DecodeUnknowns(old(Fields()), old(buf.Rest()), skip).Ok?
      ensures r.Ok? ==> Fields() == DecodeUnknowns(old(Fields()), old(buf.Rest()), skip).value
    {
      ghost var goal := DecodeUnknowns(Fields(), buf.Rest(), skip);
      while buf.Remaining() > 0
        invariant Valid() && buf.Valid()
        invariant DecodeUnknowns(Fields(), buf.Rest(), skip) == goal
        decreases buf.Remaining()
      {
        r := MergeOne(buf, skip);
        if r.Err? {
          return;
        }
      }
      r := Ok(());
    }

    /** One round of the loop: a key, then skip_unknown_field. */
    method MergeOne(buf: ReadBuf, skip: Skipper) returns (r: Result<()>)
      requires Valid() && buf.Valid() && buf.Remaining() > 0
      modifies this, buf`pos
      ensures Valid() && buf.Valid()
      ensures match Round(old(Fields()), old(buf.Rest()), skip)
        case Ok((m, rest)) => r == Ok(()) && Fields() == m && buf.Rest() == rest
        case Err(e) => r == Err(e)
    {
      ghost var s := buf.Rest();
      var key := DecodeKey(buf.Rest());
      if key.Err? {
        return Err(key.error);
      }
      var (tag, wt, k) := key.value;
      ghost var m := Fields();
      ghost var o := ParseField(tag, wt, s[k..], skip);
      RoundOf(m, s, skip);
      buf.Advance(k);
      assert buf.Rest() == s[k..];
      r := SkipUnknownField(tag, wt, buf, skip);
      if !o.Failed? {
        assert buf.Rest() == s[k + o.used..];
      }
    }

    /** clear, as the derived message resets the store: back to Default. */
    method Clear()
      modifies this
      ensures Valid() && TagsMatchKeys() && data == None
    {
      data := None;
    }

    /** encoded_len: the sum of the fields' encoded lengths, which is the
        number of bytes encode writes. */
    function EncodedLen(): (n: nat)
      reads this
      ensures n == |SetBytes(Fields())|
      ensures data.None? ==> n == 0
    {
      match data
      case None => 0
      case Some(m) => SumLen(m, SortedKeys(m.Keys))
    }
  }

  // ---------------------------------------------------------------------
  // Decode, encode, decode again

  /** The decode loop of a message none of whose fields is known: each key
      is read and its payload handed to skip_unknown_field. */
  function DecodeUnknowns(acc: map<uint32, UnknownField>, s: seq<byte>, skip: Skipper): (r: Result<map<uint32, UnknownField>>)
    ensures r.Ok? ==> acc.Keys <= r.value.Keys
    decreases |s|
  {
    if s == [] then Ok(acc)
    else match Round(acc, s, skip)
      case Err(e) => Err(e)
      case Ok((acc', rest)) => DecodeUnknowns(acc', rest, skip)
  }

  /** One round of that loop: the store after it and the bytes left, or
      the error that stops the loop. A round consumes at least the key,
      keeps every stored field, and stores a field only under its own,
      legal, field number. */
  function Round(acc: map<uint32, UnknownField>, s: seq<byte>, skip: Skipper): (r: Result<(map<uint32, UnknownField>, seq<byte>)>)
    requires s != []
    ensures r.Ok? ==> |r.value.1| < |s| && acc.Keys <= r.value.0.Keys
    ensures r.Ok? && WellKeyed(acc) ==> WellKeyed(r.value.0)
  {
    match DecodeKey(s)
    case Err(e) => Err(e)
    case Ok((tag, wt, k)) =>
      match ParseField(tag, wt, s[k..], skip)
      case Failed(e) => Err(e)
      case Skipped(n) => Ok((acc, s[k + n..]))
      case Stored(f, n) => Ok((acc[tag := f], s[k + n..]))
  }

  /** A store whose entries are keyed by their own, legal, field numbers. */
  ghost predicate WellKeyed(m: map<uint32, UnknownField>)
  {
    forall k :: k in m ==> m[k].tag == k && 1 <= k <= MAX_TAG
  }

  /** `r` is `acc` updated with the entries of `m` under the keys `ks`. */
  ghost predicate Updated(r: map<uint32, UnknownField>, acc: map<uint32, UnknownField>,
                          m: map<uint32, UnknownField>, ks: seq<uint32>)
  {
    && (forall k :: k in r ==> k in acc || k in ks)
    && (forall k :: k in ks && k in m ==> k in r && r[k] == m[k])
    && (forall k :: k in acc && k !in ks ==> k in r && r[k] == acc[k])
  }

  /** One round of the decode loop over a field's encoding. */
  lemma DecodeStep(acc: map<uint32, UnknownField>, f: UnknownField, tail: seq<byte>, skip: Skipper)
    requires 1 <= f.tag <= MAX_TAG
    ensures DecodeUnknowns(acc, FieldBytes(f) + tail, skip) == DecodeUnknowns(acc[f.tag := f], tail, skip)
  {
    var s := FieldBytes(f) + tail;
    ParseRoundTrip(f, tail, skip);
    var kl := KeyLen(f.tag);
    assert s[kl + (|FieldBytes(f)| - kl)..] == tail;
  }

  /** Decoding the encodings of the fields under `ks` stores each of them,
      the later ones overwriting the earlier ones and the accumulator. */
  lemma {:induction false} ConcatDecodes(acc: map<uint32, UnknownField>, m: map<uint32, UnknownField>, ks: seq<uint32>, skip: Skipper)
    requires WellKeyed(m)
    requires forall i :: 0 <= i < |ks| ==> ks[i] in m
    ensures DecodeUnknowns(acc, Concat(m, ks), skip).Ok?
    ensures Updated(DecodeUnknowns(acc, Concat(m, ks), skip).value, acc, m, ks)
    decreases |ks|
  {
    if ks != [] {
      var f := m[ks[0]];
      var acc' := acc[f.tag := f];
      DecodeStep(acc, f, Concat(m, ks[1..]), skip);
      ConcatDecodes(acc', m, ks[1..], skip);
      assert forall k :: k in ks <==> k == ks[0] || k in ks[1..];
    }
  }

  /** Re-parsing what a set's encode writes, through a fresh set, gives back
      the same fields under the same numbers. */
  lemma SetRoundTrip(m: map<uint32, UnknownField>, skip: Skipper)
    requires WellKeyed(m)
    ensures DecodeUnknowns(map[], SetBytes(m), skip) == Ok(m)
  {
    var ks := SortedKeys(m.Keys);
    SortedKeysSorted(m.Keys);
    ConcatDecodes(map[], m, ks, skip);
    UpdatedCovers(DecodeUnknowns(map[], Concat(m, ks), skip).value, m, ks);
  }

  /** A round whose key decodes is the parse of the payload after it. */
  lemma RoundOf(acc: map<uint32, UnknownField>, s: seq<byte>, skip: Skipper)
    requires s != [] && DecodeKey(s).Ok?
    ensures var (tag, wt, k) := DecodeKey(s).value;
      Round(acc, s, skip) ==
        match ParseField(tag, wt, s[k..], skip)
        case Failed(e) => Err(e)
        case Skipped(n) => Ok((acc, s[k + n..]))
        case Stored(f, n) => Ok((acc[tag := f], s[k + n..]))
  {
  }

  /** Whatever the decode loop stores is keyed by its own, legal, field
      numbers: decode_key rejects field number 0 and parse keeps the tag. */
  lemma {:induction false} DecodedWellKeyed(acc: map<uint32, UnknownField>, s: seq<byte>, skip: Skipper)
    requires WellKeyed(acc) && DecodeUnknowns(acc, s, skip).Ok?
    ensures WellKeyed(DecodeUnknowns(acc, s, skip).value)
    decreases |s|
  {
    if s != [] {
      match Round(acc, s, skip)
      case Ok((acc', rest)) =>
        DecodedWellKeyed(acc', rest, skip);
      case Err(_) =>
    }
  }

  /** Decode, encode, decode again: the fields a message did not recognise
      survive the cycle unchanged. */
  lemma DecodeEncodeDecode(s: seq<byte>, skip: Skipper)
    requires DecodeUnknowns(map[], s, skip).Ok?
    ensures var d := DecodeUnknowns(map[], s, skip).value;
      DecodeUnknowns(map[], SetBytes(d), skip) == Ok(d)
  {
    DecodedWellKeyed(map[], s, skip);
    SetRoundTrip(DecodeUnknowns(map[], s, skip).value, skip);
  }

  /** Updating the empty map with every entry of `m` gives `m`. */
  lemma UpdatedCovers(r: map<uint32, UnknownField>, m: map<uint32, UnknownField>, ks: seq<uint32>)
    requires forall i :: 0 <= i < |ks| ==> ks[i] in m
    requires forall k :: k in m ==> k in ks
    requires Updated(r, map[], m, ks)
    ensures r == m
  {
    assert forall k :: k in r ==> k in m;
    assert forall k :: k in m ==> k in r && r[k] == m[k];
  }
}
