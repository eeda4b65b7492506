/** Building the encoder tree of a value, and marshalling it. */
module BerMarshal {
  import opened Options
  import opened Octets
  import opened BerHeader
  import opened BerEncoder
  import opened BerSchema

  const TAG_BOOLEAN := 1
  const TAG_INTEGER := 2
  const TAG_BIT_STRING := 3
  const TAG_OCTET_STRING := 4
  const TAG_NULL := 5
  const TAG_ENUMERATED := 10
  const TAG_SEQUENCE := 16
  const TAG_SET := 17

  /** The octets of a header, as an encoder. */
  function HeaderEnc(t: TagAndLen): Encoder
    requires IsHeader(t)
  {
    BytesEnc(Header(t))
  }

  /** A value with its universal header, which the field's tag replaces, or surrounds when it is explicit. */
  function Tagged(constructed: bool, tagNumber: uint64, value: Encoder, p: Params): (e: Encoder)
    ensures e.TypeEnc?
  {
    var universal := TagAndLen(0, constructed, tagNumber, |Content(value)|);
    if p.tag.None? then TypeEnc(HeaderEnc(universal), value)
    else if p.explicitTag then
      var inner := TypeEnc(HeaderEnc(universal), value);
      TypeEnc(HeaderEnc(TagAndLen(2, true, p.tag.value, |Content(inner)|)), inner)
    else TypeEnc(HeaderEnc(TagAndLen(2, constructed, p.tag.value, |Content(value)|)), value)
  }

  function CollectionTag(p: Params): uint64 {
    if p.isSet then TAG_SET else TAG_SEQUENCE
  }

  /** The encoder of one value. */
  function MakeField(s: Schema, v: Value, p: Params): (r: Result<Encoder>)
    ensures r.Ok? ==> r.value.TypeEnc?
    decreases s, 0
  {
    match s
    case Bool => if v.BoolV? then Ok(Tagged(false, TAG_BOOLEAN, ByteEnc(if v.b then 255 else 0), p)) else Mismatch()
    case Int => if v.IntV? then Ok(Tagged(false, TAG_INTEGER, Int64Enc(v.i), p)) else Mismatch()
    case Enumerated => if v.IntV? then Ok(Tagged(false, TAG_ENUMERATED, Int64Enc(v.i), p)) else Mismatch()
    case OctetString =>
      if v.OctetsV? then Ok(Tagged(false, TAG_OCTET_STRING, BytesEnc(v.octets), p))
      else if v.Nil? then Ok(Tagged(false, TAG_OCTET_STRING, BytesEnc([]), p))
      else Mismatch()
    case Str => if v.StrV? then Ok(Tagged(false, p.stringType, StringEnc(v.str), p)) else Mismatch()
    case BitString =>
      if v.BitsV? then Ok(Tagged(false, TAG_BIT_STRING, BitStringEnc(v.bits, v.bitLength), p)) else Mismatch()
    case Null => if v.NullV? then Ok(Tagged(false, TAG_NULL, BytesEnc([]), p)) else Mismatch()
    case Ptr(e) =>
      if v.Ref? then MakeField(e, v.to, p)
      else if v.Nil? then Err(Malformed("cannot marshal nil value"))
      else Mismatch()
    case Wrapper(e) => MakeField(e, v, p)
    case Struct(fs) =>
      if !(v.StructV? && |v.fields| == |fs|) then Mismatch()
      else if fs == [] then Err(GoPanic("Field index out of range"))
      else
        var parts := Collect(Parts(fs, v.fields), |fs|);
        if parts.Err? then Err(parts.error)
        else if forall i :: 0 <= i < |fs| ==> Absent(fs[i], v.fields[i]) then
          Err(GoPanic("length of a nil encoder"))
        else Ok(Tagged(true, CollectionTag(p), StructEnc(parts.value), p))
    case Choice(fs) =>
      if !(v.ChoiceV? && |v.alts| == |fs|) then Mismatch()
      else if v.present < 0 || v.present > |fs| then Err(GoPanic("Field index out of range"))
      else if v.present == 0 then Err(Malformed("CHOICE or OpenType present is 0"))
      else if p.openType then Err(Malformed("Open Type is not implemented"))
      else
        var alt := MakeField(fs[v.present - 1].schema, v.alts[v.present - 1], fs[v.present - 1].params);
        if p.tag.None? then alt
        else if alt.Err? then Err(GoPanic("length of a nil encoder"))
        else Ok(Tagged(true, 0, alt.value, p))
    case ListOf(e) =>
      if !(v.ListV? || v.Nil?) then Mismatch()
      else
        var xs := if v.ListV? then v.elems else [];
        var parts := Collect(Elems(e, xs, p.(tag := None)), |xs|);
        if parts.Err? then Err(parts.error) else Ok(Tagged(true, CollectionTag(p), StructEnc(parts.value), p))
  }

  /** Go's type system rules this out. */
  function Mismatch<T>(): Result<T> {
    Err(GoPanic("value is not of the type"))
  }

  /** A field the struct loop leaves out. */
  predicate Absent(f: Field, v: Value) {
    f.params.optional && v.Nil?
  }

  /** One round of the struct loop: an absent optional field contributes nothing. */
  function MakePart(f: Field, v: Value): (r: Result<Encoder>)
    decreases f, 1
  {
    if f.params.optional && !Nillable(f.schema) then Err(GoPanic("IsNil on a kind that is never nil"))
    else if Absent(f, v) then Ok(BytesEnc([]))
    else if f.params.openType then Err(Malformed("Open Type is not implemented"))
    else
      var r := MakeField(f.schema, v, f.params);
      if r.Err? && r.error.Malformed? then Err(Malformed("iterate subtype error")) else r
  }

  /** The rounds of the struct loop. */
  function Parts(fs: seq<Field>, vs: seq<Value>): (rs: seq<Result<Encoder>>)
    requires |fs| == |vs|
    ensures |rs| == |fs|
    decreases fs, 0
  {
    seq(|fs|, i requires 0 <= i < |fs| => MakePart(fs[i], vs[i]))
  }

  /** One round of the slice loop. */
  function MakeElem(e: Schema, x: Value, p: Params): Result<Encoder>
    decreases e, 1
  {
    var r := MakeField(e, x, p);
    if r.Err? && r.error.Malformed? then Err(Malformed("iterate subtype error")) else r
  }

  /** The rounds of the slice loop. */
  function Elems(e: Schema, xs: seq<Value>, p: Params): (rs: seq<Result<Encoder>>)
    ensures |rs| == |xs|
    decreases e, 2
  {
    seq(|xs|, i requires 0 <= i < |xs| => MakeElem(e, xs[i], p))
  }

  /** The marshalled octets. */
  function Marshal(s: Schema, v: Value, p: Params): Result<seq<byte>> {
    var e := MakeField(s, v, p);
    if e.Err? then Err(e.error) else Ok(Content(e.value))
  }

  /** Measure, allocate, then write in place. */
  method BerMarshalWithParams(s: Schema, v: Value, p: Params) returns (r: Result<seq<byte>>)
    ensures r == Marshal(s, v, p)
  {
    var e := MakeField(s, v, p);
    if e.Err? {
      return Err(e.error);
    }
    var n := Len(e.value);
    var b := new byte[n](_ => 0);
    ghost var written := Encode(e.value, b, 0);
    assert Once(written, 0, b.Length);
    assert b[..] == Content(e.value);
    return Ok(b[..]);
  }

  // ---------------------------------------------------------------- declared lengths

  /** Every header in the tree is a header octet string whose length field is the length of what follows it. */
  ghost predicate LengthsTruthful(e: Encoder)
    decreases e
  {
    match e
    case TypeEnc(h, v) => IsFramed(e) && LengthsTruthful(v)
    case StructEnc(parts) => forall i :: 0 <= i < |parts| ==> LengthsTruthful(parts[i])
    case _ => true
  }

  ghost predicate IsFramed(e: Encoder)
    requires e.TypeEnc?
  {
    && e.tagAndLen.BytesEnc?
    && exists t :: IsHeader(t) && Frames(t, e)
  }

  predicate Frames(t: TagAndLen, e: Encoder)
    requires IsHeader(t)
  {
    e.TypeEnc? && e.tagAndLen == HeaderEnc(t) && t.len == |Content(e.value)|
  }

  /** Every length the encoder declares, at every level, equals the content written there. */
  lemma {:induction false} DeclaredLengths(s: Schema, v: Value, p: Params)
    requires MakeField(s, v, p).Ok?
    ensures LengthsTruthful(MakeField(s, v, p).value)
    decreases s, 0
  {
    match s
    case Ptr(e) => DeclaredLengths(e, v.to, p);
    case Wrapper(e) => DeclaredLengths(e, v, p);
    case Struct(fs) =>
      forall i | 0 <= i < |fs| && MakePart(fs[i], v.fields[i]).Ok?
        ensures LengthsTruthful(MakePart(fs[i], v.fields[i]).value)
      {
        DeclaredInPart(fs[i], v.fields[i]);
      }
      DeclaredInCollection(Parts(fs, v.fields), p);
    case Choice(fs) =>
      var f := fs[v.present - 1];
      DeclaredInAlt(f, v.alts[v.present - 1]);
      if p.tag.Some? {
        TaggedLengths(true, 0, MakeField(f.schema, v.alts[v.present - 1], f.params).value, p);
      }
    case ListOf(e) =>
      var xs, q := if v.ListV? then v.elems else [], p.(tag := None);
      forall i | 0 <= i < |xs| && MakeElem(e, xs[i], q).Ok? ensures LengthsTruthful(MakeElem(e, xs[i], q).value) {
        DeclaredLengths(e, xs[i], q);
      }
      DeclaredInCollection(Elems(e, xs, q), p);
    case _ => DeclaredInPrimitive(s, v, p);
  }

  lemma DeclaredInPrimitive(s: Schema, v: Value, p: Params)
    requires MakeField(s, v, p).Ok? && !s.Ptr? && !s.Wrapper? && !s.Struct? && !s.Choice? && !s.ListOf?
    ensures LengthsTruthful(MakeField(s, v, p).value)
  {
    match s
    case Bool => TaggedLengths(false, TAG_BOOLEAN, ByteEnc(if v.b then 255 else 0), p);
    case Int => TaggedLengths(false, TAG_INTEGER, Int64Enc(v.i), p);
    case Enumerated => TaggedLengths(false, TAG_ENUMERATED, Int64Enc(v.i), p);
    case OctetString => TaggedLengths(false, TAG_OCTET_STRING, BytesEnc(if v.OctetsV? then v.octets else []), p);
    case Str => TaggedLengths(false, p.stringType, StringEnc(v.str), p);
    case BitString => TaggedLengths(false, TAG_BIT_STRING, BitStringEnc(v.bits, v.bitLength), p);
    case Null => TaggedLengths(false, TAG_NULL, BytesEnc([]), p);
  }

  lemma DeclaredInCollection(rs: seq<Result<Encoder>>, p: Params)
    requires Collect(rs, |rs|).Ok?
    requires forall i :: 0 <= i < |rs| && rs[i].Ok? ==> LengthsTruthful(rs[i].value)
    ensures LengthsTruthful(Tagged(true, CollectionTag(p), StructEnc(Collect(rs, |rs|).value), p))
  {
    var parts := Collect(rs, |rs|).value;
    Collected(rs, |rs|);
    forall i | 0 <= i < |parts| ensures LengthsTruthful(parts[i]) {
      assert rs[i] == Ok(parts[i]);
    }
    TaggedLengths(true, CollectionTag(p), StructEnc(parts), p);
  }

  lemma {:induction false} DeclaredInAlt(f: Field, v: Value)
    requires MakeField(f.schema, v, f.params).Ok?
    ensures LengthsTruthful(MakeField(f.schema, v, f.params).value)
    decreases f, 1
  {
    DeclaredLengths(f.schema, v, f.params);
  }

  lemma {:induction false} DeclaredInPart(f: Field, v: Value)
    requires MakePart(f, v).Ok?
    ensures LengthsTruthful(MakePart(f, v).value)
    decreases f, 1
  {
    if !Absent(f, v) {
      DeclaredLengths(f.schema, v, f.params);
    }
  }

  lemma TaggedLengths(constructed: bool, tagNumber: uint64, value: Encoder, p: Params)
    requires LengthsTruthful(value)
    ensures LengthsTruthful(Tagged(constructed, tagNumber, value, p))
  {
    var universal := TagAndLen(0, constructed, tagNumber, |Content(value)|);
    var inner := TypeEnc(HeaderEnc(universal), value);
    assert Frames(universal, inner);
    var e := Tagged(constructed, tagNumber, value, p);
    if p.tag.Some? {
      var outer := if p.explicitTag then TagAndLen(2, true, p.tag.value, |Content(inner)|)
                   else TagAndLen(2, constructed, p.tag.value, |Content(value)|);
      assert Frames(outer, e);
    }
  }
}
