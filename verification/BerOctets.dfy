/** What is printed, in literal octets: the universal headers of section 8 of ITU-T X.690, the field's own tag in
    place of them or around them, and the contents. */
module BerOctets {
  import opened Options
  import opened Octets
  import opened BerHeader
  import opened BerEncoder
  import opened BerSchema
  import opened BerMarshal
  import opened BerParse
  import opened BerRoundTrip

  // ---------------------------------------------------------------- headers

  /** The octets are one element with this header. */
  predicate HeaderIs(bytes: seq<byte>, cls: nat, constructed: bool, tag: nat) {
    var h := HeaderOf(bytes);
    && h.Ok? && h.value.0.cls == cls && h.value.0.constructed == constructed && h.value.0.tagNumber == tag
    && h.value.1 + h.value.0.len == |bytes|
  }

  /** What follows the header. */
  function ContentsOf(bytes: seq<byte>): (c: seq<byte>) {
    var h := HeaderOf(bytes);
    if h.Ok? then bytes[h.value.1..] else []
  }

  /** A header, and the value behind it. */
  lemma PrintedHeader(t: TagAndLen, e: Encoder)
    requires IsHeader(t) && Frames(t, e) && t.tagNumber < TWO_TO_63 && |Content(e)| < 0x100_0000
    ensures HeaderIs(Content(e), t.cls, t.constructed, t.tagNumber) && ContentsOf(Content(e)) == Content(e.value)
  {
    assert Content(e) == Header(t) + Content(e.value);
    FrameReads(t, e, []);
    assert Content(e) + [] == Content(e);
  }

  /** One element: with the universal tag, with the field's tag in its place, or with the field's tag around it. */
  predicate Printed(bytes: seq<byte>, p: Params, constructed: bool, tag: nat, contents: seq<byte>) {
    if p.tag.None? then HeaderIs(bytes, 0, constructed, tag) && ContentsOf(bytes) == contents
    else if p.explicitTag then
      && HeaderIs(bytes, 2, true, p.tag.value) && HeaderIs(ContentsOf(bytes), 0, constructed, tag)
      && ContentsOf(ContentsOf(bytes)) == contents
    else HeaderIs(bytes, 2, constructed, p.tag.value) && ContentsOf(bytes) == contents
  }

  /** The three ways in which a value is tagged. */
  lemma TaggedOctets(constructed: bool, tagNumber: uint64, value: Encoder, p: Params)
    requires tagNumber < TWO_TO_63 && (p.tag.Some? ==> p.tag.value < TWO_TO_63)
    requires |Content(Tagged(constructed, tagNumber, value, p))| < 0x100_0000
    ensures Printed(Content(Tagged(constructed, tagNumber, value, p)), p, constructed, tagNumber, Content(value))
  {
    var e := Tagged(constructed, tagNumber, value, p);
    var universal := TagAndLen(0, constructed, tagNumber, |Content(value)|);
    if p.tag.None? {
      PrintedHeader(universal, e);
    } else if p.explicitTag {
      assert Content(e) == Content(e.tagAndLen) + Content(e.value);
      PrintedHeader(universal, e.value);
      PrintedHeader(TagAndLen(2, true, p.tag.value, |Content(e.value)|), e);
    } else {
      PrintedHeader(TagAndLen(2, constructed, p.tag.value, |Content(value)|), e);
    }
  }

  /** The tags of section 8: BOOLEAN 1, INTEGER 2, BIT STRING 3, OCTET STRING 4, NULL 5, ENUMERATED 10, and that of the
      string type. */
  function PrimitiveTag(s: Schema, p: Params): (t: nat)
    requires Primitive(s)
  {
    match s
    case Bool => 1
    case Int => 2
    case BitString => 3
    case OctetString => 4
    case Null => 5
    case Enumerated => 10
    case Str => p.stringType
  }

  /** The contents: TRUE is 255 and FALSE is 0, and a BIT STRING starts with an octet on its unused bits. */
  function PrimitiveContents(s: Schema, v: Value): (c: seq<byte>)
    requires Primitive(s) && Typed(s, v)
  {
    match s
    case Bool => [if v.b then 255 else 0]
    case Int => IntOctets(v.i)
    case BitString => [8 - v.bitLength % 8] + v.bits
    case OctetString => if v.Nil? then [] else v.octets
    case Null => []
    case Enumerated => IntOctets(v.i)
    case Str => v.str
  }

  lemma PrimitiveMade(s: Schema, v: Value, p: Params) returns (value: Encoder)
    requires Primitive(s) && Typed(s, v) && p.stringType < TWO_TO_63
    ensures MakeField(s, v, p) == Ok(Tagged(false, PrimitiveTag(s, p), value, p))
    ensures Content(value) == PrimitiveContents(s, v)
  {
    match s
    case Bool => value := ByteEnc(if v.b then 255 else 0);
    case Int => value := Int64Enc(v.i);
    case BitString => value := BitStringEnc(v.bits, v.bitLength);
    case OctetString => value := BytesEnc(if v.Nil? then [] else v.octets);
    case Null => value := BytesEnc([]);
    case Enumerated => value := Int64Enc(v.i);
    case Str => value := StringEnc(v.str);
  }

  /** A value of a primitive type is one primitive element with that tag and these contents. */
  lemma PrimitiveOctets(s: Schema, v: Value, p: Params)
    requires Primitive(s) && Typed(s, v) && p.stringType < TWO_TO_63 && (p.tag.Some? ==> p.tag.value < TWO_TO_63)
    ensures Marshal(s, v, p).Ok?
    ensures |Marshal(s, v, p).value| < 0x100_0000 ==>
              Printed(Marshal(s, v, p).value, p, false, PrimitiveTag(s, p), PrimitiveContents(s, v))
  {
    var value := PrimitiveMade(s, v, p);
    if |Content(Tagged(false, PrimitiveTag(s, p), value, p))| < 0x100_0000 {
      TaggedOctets(false, PrimitiveTag(s, p), value, p);
    }
  }

  // ---------------------------------------------------------------- structs and lists

  /** The octets of each field in turn, nothing for one that is absent. */
  function FieldOctets(fs: seq<Field>, vs: seq<Value>): (es: seq<seq<byte>>)
    requires |fs| == |vs|
    ensures |es| == |fs|
  {
    seq(|fs|, i requires 0 <= i < |fs| =>
      if fs[i].params.optional && vs[i].Nil? then []
      else
        var r := Marshal(fs[i].schema, vs[i], fs[i].params);
        if r.Ok? then r.value else [])
  }

  lemma FieldsMarshal(fs: seq<Field>, vs: seq<Value>)
    requires |fs| == |vs| && Collect(Parts(fs, vs), |fs|).Ok?
    ensures Pieces(Collect(Parts(fs, vs), |fs|).value) == FieldOctets(fs, vs)
  {
    var parts := Collect(Parts(fs, vs), |fs|).value;
    Collected(Parts(fs, vs), |fs|);
    forall i | 0 <= i < |fs| ensures Pieces(parts)[i] == FieldOctets(fs, vs)[i] {
      assert Parts(fs, vs)[i] == Ok(parts[i]);
      OneFieldMarshals(fs[i], vs[i], parts[i]);
    }
  }

  lemma OneFieldMarshals(f: Field, v: Value, part: Encoder)
    requires MakePart(f, v) == Ok(part)
    ensures var r := Marshal(f.schema, v, f.params);
            Content(part) == if f.params.optional && v.Nil? then [] else if r.Ok? then r.value else []
  {
  }

  /** A struct is a SEQUENCE (tag 16) or a SET (tag 17) of its fields' octets, in the order of their declaration. */
  lemma StructOctets(fs: seq<Field>, vs: seq<Value>, p: Params)
    requires |vs| == |fs| && (p.tag.Some? ==> p.tag.value < TWO_TO_63)
    requires MakeField(Struct(fs), StructV(vs), p).Ok?
    requires |Content(MakeField(Struct(fs), StructV(vs), p).value)| < 0x100_0000
    ensures Printed(Content(MakeField(Struct(fs), StructV(vs), p).value), p, true, if p.isSet then 17 else 16,
                    Flatten(FieldOctets(fs, vs), |fs|))
  {
    var parts := Collect(Parts(fs, vs), |fs|).value;
    FieldsMarshal(fs, vs);
    TaggedOctets(true, if p.isSet then 17 else 16, StructEnc(parts), p);
    assert Content(StructEnc(parts)) == ContentTo(parts, |parts|);
  }

  /** The octets of each element in turn, marshalled with the list's parameters but for its tag. */
  function ElementOctets(e: Schema, xs: seq<Value>, p: Params): (es: seq<seq<byte>>)
    ensures |es| == |xs|
  {
    seq(|xs|, i requires 0 <= i < |xs| =>
      var r := Marshal(e, xs[i], p.(tag := None));
      if r.Ok? then r.value else [])
  }

  lemma ElementsMarshal(e: Schema, xs: seq<Value>, p: Params)
    requires Collect(Elems(e, xs, p.(tag := None)), |xs|).Ok?
    ensures Pieces(Collect(Elems(e, xs, p.(tag := None)), |xs|).value) == ElementOctets(e, xs, p)
  {
    var made := Elems(e, xs, p.(tag := None));
    var parts := Collect(made, |xs|).value;
    Collected(made, |xs|);
    forall i | 0 <= i < |xs| ensures Pieces(parts)[i] == ElementOctets(e, xs, p)[i] {
      assert made[i] == Ok(parts[i]);
      assert made[i] == MakeElem(e, xs[i], p.(tag := None));
    }
  }

  /** So is a list of its elements' octets; a nil list has none. */
  lemma ListOctets(e: Schema, v: Value, p: Params)
    requires (v.Nil? || v.ListV?) && (p.tag.Some? ==> p.tag.value < TWO_TO_63)
    requires MakeField(ListOf(e), v, p).Ok? && |Content(MakeField(ListOf(e), v, p).value)| < 0x100_0000
    ensures var xs := if v.ListV? then v.elems else [];
            Printed(Content(MakeField(ListOf(e), v, p).value), p, true, if p.isSet then 17 else 16,
                    Flatten(ElementOctets(e, xs, p), |xs|))
  {
    var xs := if v.ListV? then v.elems else [];
    var parts := Collect(Elems(e, xs, p.(tag := None)), |xs|).value;
    ElementsMarshal(e, xs, p);
    TaggedOctets(true, if p.isSet then 17 else 16, StructEnc(parts), p);
    assert Content(StructEnc(parts)) == ContentTo(parts, |parts|);
  }

  // ---------------------------------------------------------------- pointers, wrappers, choices

  /** Pointers and wrappers leave no trace, nor does a CHOICE without a tag: it is its alternative. With a tag it is a
      constructed element around its alternative. */
  lemma TransparentOctets(s: Schema, v: Value, p: Params)
    requires MakeField(s, v, p).Ok?
    ensures s.Ptr? ==> v.Ref? && Marshal(s, v, p) == Marshal(s.elem, v.to, p)
    ensures s.Wrapper? ==> Marshal(s, v, p) == Marshal(s.elem, v, p)
    ensures s.Choice? ==> v.ChoiceV? && |v.alts| == |s.alts| && 1 <= v.present <= |s.alts|
    ensures s.Choice? && p.tag.None? ==>
              var f := s.alts[v.present - 1];
              Marshal(s, v, p) == Marshal(f.schema, v.alts[v.present - 1], f.params)
  {
  }

  lemma TaggedChoiceOctets(fs: seq<Field>, v: Value, p: Params)
    requires p.tag.Some? && p.tag.value < TWO_TO_63 && MakeField(Choice(fs), v, p).Ok?
    requires |Content(MakeField(Choice(fs), v, p).value)| < 0x100_0000
    ensures v.ChoiceV? && |v.alts| == |fs| && 1 <= v.present <= |fs|
    ensures var f := fs[v.present - 1];
            var inside := Marshal(f.schema, v.alts[v.present - 1], f.params);
            inside.Ok? && Printed(Content(MakeField(Choice(fs), v, p).value), p, true, 0, inside.value)
  {
    var f := fs[v.present - 1];
    var alt := MakeField(f.schema, v.alts[v.present - 1], f.params).value;
    TaggedOctets(true, 0, alt, p);
  }

  // ---------------------------------------------------------------- what cannot be printed

  /** Which values of a type can be printed. */
  predicate Printable(s: Schema, v: Value, p: Params)
    decreases s, 0
  {
    match s
    case Ptr(e) => v.Ref? && Printable(e, v.to, p)
    case Wrapper(e) => Printable(e, v, p)
    case Struct(fs) =>
      && v.StructV? && |v.fields| == |fs|
      && (forall i :: 0 <= i < |fs| ==> PrintableField(fs[i], v.fields[i]))
      && (exists i :: 0 <= i < |fs| && !(fs[i].params.optional && v.fields[i].Nil?))
    case Choice(fs) =>
      && v.ChoiceV? && |v.alts| == |fs| && 1 <= v.present <= |fs| && !p.openType
      && PrintableAlt(fs[v.present - 1], v.alts[v.present - 1])
    case ListOf(e) =>
      v.Nil? || (v.ListV? && forall i :: 0 <= i < |v.elems| ==> Printable(e, v.elems[i], p.(tag := None)))
    case _ => Typed(s, v)
  }

  predicate PrintableField(f: Field, v: Value)
    decreases f, 2
  {
    && (f.params.optional ==> f.schema.Ptr? || f.schema.ListOf? || f.schema.OctetString?)
    && ((f.params.optional && v.Nil?) || (!f.params.openType && Printable(f.schema, v, f.params)))
  }

  predicate PrintableAlt(f: Field, v: Value)
    decreases f, 1
  {
    Printable(f.schema, v, f.params)
  }

  /** Marshalling succeeds exactly on those: there is no nil pointer but in an optional field, every struct has a
      field that is present, every CHOICE a valid alternative, no open type is reached, and only nillable fields are
      optional. */
  lemma {:induction false} MarshalsExactly(s: Schema, v: Value, p: Params)
    requires Typed(s, v)
    ensures Marshal(s, v, p).Ok? <==> Printable(s, v, p)
    decreases s, 0
  {
    match s
    case Ptr(e) =>
      if v.Ref? {
        MarshalsExactly(e, v.to, p);
      }
    case Wrapper(e) => MarshalsExactly(e, v, p);
    case Struct(fs) =>
      forall i | 0 <= i < |fs| ensures MakePart(fs[i], v.fields[i]).Ok? <==> PrintableField(fs[i], v.fields[i]) {
        FieldMarshalsExactly(fs[i], v.fields[i]);
      }
      StructMarshals(fs, v.fields, p);
    case Choice(fs) =>
      if 1 <= v.present <= |fs| {
        AltMarshalsExactly(fs[v.present - 1], v.alts[v.present - 1]);
      }
    case ListOf(e) =>
      if v.ListV? {
        forall i | 0 <= i < |v.elems|
          ensures MakeElem(e, v.elems[i], p.(tag := None)).Ok? <==> Printable(e, v.elems[i], p.(tag := None))
        {
          MarshalsExactly(e, v.elems[i], p.(tag := None));
        }
        ListMarshals(e, v, p);
      } else {
        assert Collect(Elems(e, [], p.(tag := None)), 0).Ok?;
      }
    case _ =>
  }

  lemma {:induction false} FieldMarshalsExactly(f: Field, v: Value)
    requires Typed(f.schema, v)
    ensures MakePart(f, v).Ok? <==> PrintableField(f, v)
    decreases f, 2
  {
    MarshalsExactly(f.schema, v, f.params);
  }

  lemma {:induction false} AltMarshalsExactly(f: Field, v: Value)
    requires Typed(f.schema, v)
    ensures MakeField(f.schema, v, f.params).Ok? <==> PrintableAlt(f, v)
    decreases f, 1
  {
    MarshalsExactly(f.schema, v, f.params);
  }

  lemma CollectsExactly<T>(rs: seq<Result<T>>)
    ensures Collect(rs, |rs|).Ok? <==> forall i :: 0 <= i < |rs| ==> rs[i].Ok?
  {
    CollectsUpTo(rs, |rs|);
  }

  lemma {:induction false} CollectsUpTo<T>(rs: seq<Result<T>>, k: nat)
    requires k <= |rs|
    ensures Collect(rs, k).Ok? <==> forall i :: 0 <= i < k ==> rs[i].Ok?
  {
    if k > 0 {
      CollectsUpTo(rs, k - 1);
    }
  }

  lemma StructMarshals(fs: seq<Field>, vs: seq<Value>, p: Params)
    requires |vs| == |fs|
    requires forall i :: 0 <= i < |fs| ==> (MakePart(fs[i], vs[i]).Ok? <==> PrintableField(fs[i], vs[i]))
    ensures MakeField(Struct(fs), StructV(vs), p).Ok? <==> Printable(Struct(fs), StructV(vs), p)
  {
    var parts := Parts(fs, vs);
    CollectsExactly(parts);
    assert forall i :: 0 <= i < |fs| ==> parts[i] == MakePart(fs[i], vs[i]);
    SomePresent(fs, vs, p);
  }

  lemma SomePresent(fs: seq<Field>, vs: seq<Value>, p: Params)
    requires |vs| == |fs|
    ensures MakeField(Struct(fs), StructV(vs), p).Ok?
            <==> Collect(Parts(fs, vs), |fs|).Ok? && exists i :: 0 <= i < |fs| && !(fs[i].params.optional && vs[i].Nil?)
  {
  }

  lemma ListMarshals(e: Schema, v: Value, p: Params)
    requires v.ListV?
    ensures MakeField(ListOf(e), v, p).Ok?
            <==> forall i :: 0 <= i < |v.elems| ==> MakeElem(e, v.elems[i], p.(tag := None)).Ok?
  {
    var made := Elems(e, v.elems, p.(tag := None));
    ElementsCollect(e, v.elems, p.(tag := None));
    assert MakeField(ListOf(e), v, p).Ok? <==> Collect(made, |made|).Ok?;
  }

  lemma ElementsCollect(e: Schema, xs: seq<Value>, q: Params)
    ensures Collect(Elems(e, xs, q), |xs|).Ok? <==> forall i :: 0 <= i < |xs| ==> MakeElem(e, xs[i], q).Ok?
  {
    var made := Elems(e, xs, q);
    CollectsExactly(made);
    assert forall i :: 0 <= i < |made| ==> made[i] == MakeElem(e, xs[i], q);
  }

  /** How it fails at the top: a nil pointer, no alternative chosen and an open type are errors; an alternative out of
      range and a struct without fields, or with none present, panic. */
  lemma MarshalErrors(s: Schema, v: Value, p: Params)
    requires Typed(s, v)
    ensures s.Ptr? && v.Nil? ==> Marshal(s, v, p).Err? && Marshal(s, v, p).error.Malformed?
    ensures s.Choice? && v.present == 0 ==> Marshal(s, v, p).Err? && Marshal(s, v, p).error.Malformed?
    ensures s.Choice? && !(0 <= v.present <= |s.alts|) ==> Marshal(s, v, p).Err? && Marshal(s, v, p).error.GoPanic?
    ensures s.Choice? && 1 <= v.present <= |s.alts| && p.openType ==>
              Marshal(s, v, p).Err? && Marshal(s, v, p).error.Malformed?
    ensures s.Struct? && s.fields == [] ==> Marshal(s, v, p).Err? && Marshal(s, v, p).error.GoPanic?
    ensures s.Struct? && Collect(Parts(s.fields, v.fields), |s.fields|).Ok?
            && (forall i :: 0 <= i < |s.fields| ==> s.fields[i].params.optional && v.fields[i].Nil?) ==>
              Marshal(s, v, p).Err? && Marshal(s, v, p).error.GoPanic?
  {
  }

  // ---------------------------------------------------------------- an example

  /** A tag and a length that each take two octets, most significant first; and integers at the edge of one octet. */
  lemma EdgeOctets()
    ensures Header(TagAndLen(2, false, 300, 300)) == [0x9F, 0x82, 0x2C, 0x82, 1, 0x2C]
    ensures IntOctets(300) == [1, 0x2C] && IntOctets(127) == [127] && IntOctets(128) == [0, 128]
    ensures IntOctets(-128) == [128] && IntOctets(-129) == [0xFF, 0x7F]
  {
    assert Leading(2) == Leading(0) + [130];
    assert Shortest(1) == [1];
    assert Header(TagAndLen(2, false, 300, 300)) == [0x9F] + [0x82, 0x2C] + [0x82, 1, 0x2C];
  }

  /** A field of an INTEGER with tag 0. */
  const TAG0 := Params(false, Some(0), false, false, false, 0)

  /** A list of one SEQUENCE with an INTEGER, under tag 5: the shape in which a charging record holds its unit usages.
      */
  lemma UsageOctets()
    ensures Marshal(ListOf(Struct([Field(Int, TAG0)])), ListV([StructV([IntV(1)])]), TAG0.(tag := Some(5)))
            == Ok([0xA5, 5, 0x30, 3, 0x80, 1, 1])
  {
    var p := TAG0.(tag := Some(5));
    var struct := SequenceOctets();
    assert MakeElem(Struct([Field(Int, TAG0)]), StructV([IntV(1)]), p.(tag := None)) == Ok(struct);
    assert Elems(Struct([Field(Int, TAG0)]), [StructV([IntV(1)])], p.(tag := None)) == [Ok(struct)];
    CollectsAll([Ok(struct)], [struct], 1);
    assert [struct][..1] == [struct];
    var list := Tagged(true, 16, StructEnc([struct]), p);
    assert MakeField(ListOf(Struct([Field(Int, TAG0)])), ListV([StructV([IntV(1)])]), p) == Ok(list);
    OnePart(struct);
    assert Content(StructEnc([struct])) == [0x30, 3, 0x80, 1, 1];
    assert LenOctets(5) == [5];
    assert TagOctets(5) == [];
    assert Header(TagAndLen(2, true, 5, 5)) == [0xA5, 5];
    assert list == TypeEnc(HeaderEnc(TagAndLen(2, true, 5, 5)), StructEnc([struct]));
    assert Content(list) == [0xA5, 5] + [0x30, 3, 0x80, 1, 1] == [0xA5, 5, 0x30, 3, 0x80, 1, 1];
    assert Marshal(ListOf(Struct([Field(Int, TAG0)])), ListV([StructV([IntV(1)])]), p) == Ok(Content(list));
  }

  lemma SequenceOctets() returns (struct: Encoder)
    ensures MakeField(Struct([Field(Int, TAG0)]), StructV([IntV(1)]), TAG0.(tag := None)) == Ok(struct)
    ensures Content(struct) == [0x30, 3, 0x80, 1, 1]
  {
    var fs, vs, none := [Field(Int, TAG0)], [IntV(1)], TAG0.(tag := None);
    var number := IntegerOctets();
    assert MakePart(fs[0], vs[0]) == Ok(number);
    assert Parts(fs, vs) == [Ok(number)];
    CollectsAll([Ok(number)], [number], 1);
    assert [number][..1] == [number];
    struct := Tagged(true, 16, StructEnc([number]), none);
    assert !Absent(fs[0], vs[0]);
    OnePart(number);
    assert Content(StructEnc([number])) == [0x80, 1, 1];
    assert LenOctets(3) == [3] && TagOctets(16) == [] && Header(TagAndLen(0, true, 16, 3)) == [0x30, 3];
    assert Content(struct) == [0x30, 3] + [0x80, 1, 1];
  }

  lemma OnePart(e: Encoder)
    ensures Content(StructEnc([e])) == Content(e)
  {
    assert ContentTo([e], 1) == ContentTo([e], 0) + Content(e);
  }

  lemma IntegerOctets() returns (e: Encoder)
    ensures MakeField(Int, IntV(1), TAG0) == Ok(e) && Content(e) == [0x80, 1, 1]
  {
    e := MakeField(Int, IntV(1), TAG0).value;
    assert IntOctets(1) == [1] && Header(TagAndLen(2, false, 0, 1)) == [0x80, 1];
    assert Content(e) == [0x80, 1] + [1];
  }
}
