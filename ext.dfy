/** The extension accessor: an optional extension field is read out of a
    message's unknown-field map by its field number and decoded with the
    adapter of its Rust type. */
module Ext {
  import opened Wire
  import opened UnknownFields
  import opened Scalars

  /** ExtFieldOptional<M, F>: the field number, and the type F as its kind. */
  datatype ExtFieldOptional = ExtFieldOptional(fieldNumber: uint32, kind: Kind)

  /** get: `unknown` is what the message's get_unknown_fields returns. The
      result is absent (None) when there is no map or no entry under the
      field number, and otherwise the entry decoded, which may be an error
      when the stored shape does not suit the type. */
  function Get(ext: ExtFieldOptional, unknown: Option<map<uint32, UnknownField>>): (r: Option<Result<Scalar>>)
    ensures r.None? <==> unknown.None? || ext.fieldNumber !in unknown.value
    ensures r.Some? ==>
      var f := unknown.value[ext.fieldNumber];
      && (r.value.Ok? <==> Accepts(ext.kind, WireTypeOf(f.data)) && (ext.kind == Str ==> Utf8.ValidUtf8(f.data.bytes)))
      && (r.value.Ok? ==> KindOf(r.value.value) == ext.kind)
    ensures r.Some? ==> r.value == DecodeFromUnknown(ext.kind, unknown.value[ext.fieldNumber])
  {
    match unknown
    case None => None
    case Some(m) =>
      if ext.fieldNumber in m then Some(DecodeFromUnknown(ext.kind, m[ext.fieldNumber])) else None
  }

  /** A stored shape the type does not accept is reported as a present
      field that cannot be decoded, never as an absent one. */
  lemma MismatchIsPresent(ext: ExtFieldOptional, m: map<uint32, UnknownField>)
    requires ext.fieldNumber in m && !Accepts(ext.kind, WireTypeOf(m[ext.fieldNumber].data))
    ensures Get(ext, Some(m)) == Some(Err(CannotDecode(TypeName(ext.kind), WireTypeOf(m[ext.fieldNumber].data))))
  {
  }

  /** Storing a field changes what get returns only for that field's
      number, where the last field stored wins. */
  lemma GetAfterInsert(ext: ExtFieldOptional, unknown: Option<map<uint32, UnknownField>>, tag: uint32, f: UnknownField)
    ensures var m := if unknown.Some? then unknown.value else map[];
      Get(ext, Some(m[tag := f])) ==
        if tag == ext.fieldNumber then Some(DecodeFromUnknown(ext.kind, f))
        else if unknown.None? then None
        else Get(ext, unknown)
  {
  }

  /** End to end: a message whose only field on the wire is a non-default
      value written as extension field `n` is decoded into a fresh
      unknown-field store, and get on that store gives the value back. */
  lemma {:induction false} GetAfterDecode(v: Scalar, n: uint32, skip: Skipper)
    requires 1 <= n <= MAX_TAG
    requires WellFormed(v) && !v.EmptyValue?
    ensures var f := UnknownField(n, StoredForm(v));
      && DecodeUnknowns(map[], FieldBytes(f), skip) == Ok(map[n := f])
      && Get(ExtFieldOptional(n, KindOf(v)), Some(map[n := f])) == Some(Ok(v))
  {
    var f := UnknownField(n, StoredForm(v));
    DecodeStep(map[], f, [], skip);
    assert FieldBytes(f) + [] == FieldBytes(f);
    StoredFormDecodes(v, n);
  }
}
