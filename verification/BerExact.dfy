/** Which values come back, exactly: on the types of the sub-language no value outside it survives the round trip. */
module BerExact {
  import opened Options
  import opened Octets
  import opened BerHeader
  import opened BerEncoder
  import opened BerSchema
  import opened BerMarshal
  import opened BerParse
  import opened BerSlips
  import opened BerRoundTrip

  // ---------------------------------------------------------------- structs

  /** When the loop ends well, so did the round on a field that is present, and the loop went on after its element. */
  lemma ElementWasParsed(fs: seq<Field>, p: Params, ts: seq<Value>, v: Value, bytes: seq<byte>, base: nat,
                         parts: seq<Encoder>, k: nat, current: nat, rs: seq<Value>) returns (w: Value)
    requires current <= k < |fs| == |ts| == |parts| && !p.openType && DistinctTags(fs)
    requires Holds(bytes, base, parts) && |bytes| < 0x100_0000
    requires !Absent(fs[k], v) && Named(fs[k], v, parts[k])
    requires At(base, parts, k) <= |bytes| && ParseFields(fs, p, ts, bytes, At(base, parts, k), current) == Ok(rs)
    ensures ParseInto(fs[k], ts[k], Content(parts[k])) == Ok(w)
    ensures At(base, parts, k + 1) <= |bytes|
    ensures ParseFields(fs, p, ts[k := w], bytes, At(base, parts, k + 1), k + 1) == Ok(rs)
  {
    ElementIsParsed(fs, p, ts, v, bytes, base, parts, k, current);
    var r := ParseInto(fs[k], ts[k], Content(parts[k]));
    FieldsWentOn(fs, p, ts, bytes, At(base, parts, k), current, k, At(base, parts, k + 1), r, rs);
    w := r.value;
  }

  /** Fields from number `k` on are still as in a fresh target. */
  predicate Untouched(fs: seq<Field>, ts: seq<Value>, k: nat)
    requires |ts| == |fs|
  {
    forall i :: k <= i < |fs| ==> ts[i] == Zero(fs[i].schema)
  }

  ghost predicate AllNamed(fs: seq<Field>, vs: seq<Value>, parts: seq<Encoder>)
    requires |fs| == |vs| == |parts|
  {
    forall i :: 0 <= i < |fs| ==> Named(fs[i], vs[i], parts[i])
  }

  /** Fields before number `k` are as in `ts`; from there on, those that are present hold what their own elements
      parse to. */
  predicate Sourced(fs: seq<Field>, vs: seq<Value>, parts: seq<Encoder>, ts: seq<Value>, rs: seq<Value>, k: nat)
    requires |fs| == |vs| == |parts| == |ts| == |rs|
  {
    && (forall i :: 0 <= i < k && i < |fs| ==> rs[i] == ts[i])
    && (forall i :: k <= i < |fs| && !Absent(fs[i], vs[i])
          ==> ParseInto(fs[i], Zero(fs[i].schema), Content(parts[i])) == Ok(rs[i]))
  }

  lemma SetOne(fs: seq<Field>, vs: seq<Value>, parts: seq<Encoder>, ts: seq<Value>, rs: seq<Value>, k: nat, w: Value)
    requires k < |fs| == |vs| == |parts| == |ts| == |rs| && Untouched(fs, ts, k)
    requires ParseInto(fs[k], ts[k], Content(parts[k])) == Ok(w)
    ensures Untouched(fs, ts[k := w], k + 1)
    ensures Sourced(fs, vs, parts, ts[k := w], rs, k + 1) ==> Sourced(fs, vs, parts, ts, rs, k)
  {
    assert ts[k] == Zero(fs[k].schema);
    if Sourced(fs, vs, parts, ts[k := w], rs, k + 1) {
      assert rs[k] == ts[k := w][k] == w;
      forall i | 0 <= i < k ensures rs[i] == ts[i] {
        assert ts[k := w][i] == ts[i];
      }
    }
  }

  lemma PassOne(fs: seq<Field>, vs: seq<Value>, parts: seq<Encoder>, ts: seq<Value>, rs: seq<Value>, k: nat)
    requires k < |fs| == |vs| == |parts| == |ts| == |rs| && Absent(fs[k], vs[k])
    ensures Untouched(fs, ts, k) ==> Untouched(fs, ts, k + 1)
    ensures Sourced(fs, vs, parts, ts, rs, k + 1) ==> Sourced(fs, vs, parts, ts, rs, k)
  {
  }

  lemma AbsentIsEmpty(f: Field, v: Value, base: nat, parts: seq<Encoder>, k: nat)
    requires k < |parts| && Absent(f, v) && Named(f, v, parts[k])
    ensures At(base, parts, k + 1) == At(base, parts, k)
  {
    assert parts[k] == BytesEnc([]) && Content(parts[k]) == [];
    assert ContentTo(parts, k + 1) == ContentTo(parts, k) + Content(parts[k]);
  }

  lemma AllAreSourced(fs: seq<Field>, p: Params, vs: seq<Value>, ts: seq<Value>, bytes: seq<byte>,
                      base: nat, parts: seq<Encoder>, current: nat, rs: seq<Value>)
    requires current <= |fs| == |vs| == |ts| == |parts| == |rs| && Holds(bytes, base, parts)
    requires ParseFields(fs, p, ts, bytes, |bytes|, current) == Ok(rs)
    ensures At(base, parts, |fs|) == |bytes| && Sourced(fs, vs, parts, ts, rs, |fs|)
  {
  }

  /** When the struct loop ends well, every field that is present holds what its own element parses to. */
  lemma {:induction false} FieldsAreSourced(fs: seq<Field>, p: Params, vs: seq<Value>, ts: seq<Value>, bytes: seq<byte>,
                                            base: nat, parts: seq<Encoder>, k: nat, current: nat, rs: seq<Value>)
    requires current <= k <= |fs| == |vs| == |ts| == |parts| == |rs| && !p.openType && DistinctTags(fs)
    requires Holds(bytes, base, parts) && |bytes| < 0x100_0000
    requires AllNamed(fs, vs, parts) && Untouched(fs, ts, k)
    requires At(base, parts, k) <= |bytes| && ParseFields(fs, p, ts, bytes, At(base, parts, k), current) == Ok(rs)
    ensures Sourced(fs, vs, parts, ts, rs, k)
    decreases |fs| - k
  {
    if k == |fs| {
      AllAreSourced(fs, p, vs, ts, bytes, base, parts, current, rs);
    } else if Absent(fs[k], vs[k]) {
      AbsentIsEmpty(fs[k], vs[k], base, parts, k);
      PassOne(fs, vs, parts, ts, rs, k);
      FieldsAreSourced(fs, p, vs, ts, bytes, base, parts, k + 1, current, rs);
    } else {
      var w := ElementWasParsed(fs, p, ts, vs[k], bytes, base, parts, k, current, rs);
      SetOne(fs, vs, parts, ts, rs, k, w);
      FieldsAreSourced(fs, p, vs, ts[k := w], bytes, base, parts, k + 1, k + 1, rs);
    }
  }

  /** A field of a struct that marshals is absent or framed with its own tag. */
  lemma PartIsNamed(f: Field, v: Value)
    requires ShapedField(f, v) && f.params.tag.Some? && MakePart(f, v).Ok?
    ensures MakePart(f, v).value == PartOf(f, v) && Named(f, v, PartOf(f, v))
  {
    if !Absent(f, v) {
      var t := FrameOf(f.schema, v, f.params);
    }
  }

  /** The parts of a struct that marshals, and that there are some. */
  lemma StructParts(fs: seq<Field>, vs: seq<Value>, p: Params)
    requires Shaped(Struct(fs), StructV(vs), p) && MakeField(Struct(fs), StructV(vs), p).Ok?
    ensures fs != [] && exists i :: 0 <= i < |fs| && !Absent(fs[i], vs[i])
    ensures MakeField(Struct(fs), StructV(vs), p)
            == Ok(Tagged(true, CollectionTag(p), StructEnc(PartsOf(fs, vs)), p))
    ensures AllNamed(fs, vs, PartsOf(fs, vs))
  {
    var made := Parts(fs, vs);
    Collected(made, |fs|);
    forall i | 0 <= i < |fs|
      ensures made[i] == Ok(PartsOf(fs, vs)[i]) && Named(fs[i], vs[i], PartsOf(fs, vs)[i])
    {
      assert made[i] == MakePart(fs[i], vs[i]);
      PartIsNamed(fs[i], vs[i]);
    }
    assert Collect(made, |fs|).value == PartsOf(fs, vs);
  }

  /** If a struct comes back, so does every field that is present. */
  lemma FieldsCameBack(fs: seq<Field>, vs: seq<Value>, p: Params)
    requires Shaped(Struct(fs), StructV(vs), p) && CameBack(Struct(fs), StructV(vs), p)
    ensures exists i :: 0 <= i < |fs| && !Absent(fs[i], vs[i])
    ensures forall i :: 0 <= i < |fs| && !Absent(fs[i], vs[i]) ==> CameBack(fs[i].schema, vs[i], fs[i].params)
  {
    StructParts(fs, vs, p);
    var bytes := Content(MakeField(Struct(fs), StructV(vs), p).value);
    var base := FieldsWereSourced(fs, vs, p, PartsOf(fs, vs), bytes);
    forall i | 0 <= i < |fs| && !Absent(fs[i], vs[i]) ensures CameBack(fs[i].schema, vs[i], fs[i].params) {
      FieldCameBack(fs, vs, bytes, base, i);
    }
  }

  lemma FieldsWereSourced(fs: seq<Field>, vs: seq<Value>, p: Params, parts: seq<Encoder>, bytes: seq<byte>)
    returns (base: nat)
    requires PlainParams(p) && fs != [] && DistinctTags(fs) && |vs| == |fs| == |parts| && AllNamed(fs, vs, parts)
    requires bytes == Content(Tagged(true, CollectionTag(p), StructEnc(parts), p)) && |bytes| < 0x100_0000
    requires Parse(Struct(fs), Zero(Struct(fs)), bytes, p) == Ok(StructV(vs))
    ensures Holds(bytes, base, parts) && |Zero(Struct(fs)).fields| == |fs|
    ensures Sourced(fs, vs, parts, Zero(Struct(fs)).fields, vs, 0)
  {
    var tag;
    tag, base := CollectionReads(parts, p, bytes);
    StructWasParsed(fs, vs, p, bytes, tag, base);
    AllFieldsAreSourced(fs, p, vs, Zero(Struct(fs)).fields, bytes, base, parts);
  }

  lemma AllFieldsAreSourced(fs: seq<Field>, p: Params, vs: seq<Value>, ts: seq<Value>, bytes: seq<byte>, base: nat,
                            parts: seq<Encoder>)
    requires |fs| == |vs| == |ts| == |parts| && !p.openType && DistinctTags(fs)
    requires Holds(bytes, base, parts) && |bytes| < 0x100_0000 && AllNamed(fs, vs, parts) && Untouched(fs, ts, 0)
    requires ParseFields(fs, p, ts, bytes, base, 0) == Ok(vs)
    ensures Sourced(fs, vs, parts, ts, vs, 0)
  {
    assert At(base, parts, 0) == base;
    FieldsAreSourced(fs, p, vs, ts, bytes, base, parts, 0, 0, vs);
  }

  lemma StructWasParsed(fs: seq<Field>, vs: seq<Value>, p: Params, bytes: seq<byte>, tag: nat, base: nat)
    requires fs != [] && base <= |bytes| && OwnHeader(bytes) == Ok((tag, base))
    requires Parse(Struct(fs), Zero(Struct(fs)), bytes, p) == Ok(StructV(vs))
    ensures |Zero(Struct(fs)).fields| == |fs| && Untouched(fs, Zero(Struct(fs)).fields, 0)
    ensures ParseFields(fs, p, Zero(Struct(fs)).fields, bytes, base, 0) == Ok(vs)
  {
    BodyIsParsed(Struct(fs), Zero(Struct(fs)), bytes, p, tag, base);
  }

  lemma FieldCameBack(fs: seq<Field>, vs: seq<Value>, bytes: seq<byte>, base: nat, i: nat)
    requires i < |fs| == |vs| == |Zero(Struct(fs)).fields| && !Absent(fs[i], vs[i]) && |bytes| < 0x100_0000
    requires Holds(bytes, base, PartsOf(fs, vs)) && Named(fs[i], vs[i], PartsOf(fs, vs)[i])
    requires Sourced(fs, vs, PartsOf(fs, vs), Zero(Struct(fs)).fields, vs, 0)
    ensures CameBack(fs[i].schema, vs[i], fs[i].params)
  {
    PartFits(bytes, base, PartsOf(fs, vs), i);
    PartMarshals(fs, vs, i);
  }

  lemma PartMarshals(fs: seq<Field>, vs: seq<Value>, i: nat)
    requires i < |fs| == |vs| && !Absent(fs[i], vs[i]) && Named(fs[i], vs[i], PartsOf(fs, vs)[i])
    ensures MakeField(fs[i].schema, vs[i], fs[i].params) == Ok(PartsOf(fs, vs)[i])
  {
  }

  // ---------------------------------------------------------------- choices and lists

  lemma AlternativeCameBack(fs: seq<Field>, v: Value, bytes: seq<byte>, tag: nat)
    requires v.ChoiceV? && |v.alts| == |fs| && DistinctTags(fs) && 1 <= v.present <= |fs|
    requires fs[v.present - 1].params.tag == Some(tag)
    requires Alternative(fs, Zero(Choice(fs)), bytes, tag) == Ok(v)
    ensures ParseInto(fs[v.present - 1], Zero(fs[v.present - 1].schema), bytes) == Ok(v.alts[v.present - 1])
    ensures forall i :: 0 <= i < |fs| && i != v.present - 1 ==> v.alts[i] == Zero(fs[i].schema)
  {
    FindsAlt(fs, 0, v.present - 1, tag);
  }

  /** A string of octets, characters or bits, or pointers or wrappers around one. */
  predicate Textual(s: Schema) {
    s.OctetString? || s.Str? || s.BitString? || ((s.Ptr? || s.Wrapper?) && Textual(s.elem))
  }

  /** A value of some length takes contents of that length, and no others give it back. */
  lemma {:induction false} LengthIsBack(s: Schema, v: Value, p: Params, bytes: seq<byte>, q: Params)
    requires PrimitiveInside(s) && Shaped(s, v, p) && MakeField(s, v, p).Ok?
    requires Textual(s) || |Content(MakeField(s, v, p).value.value)| >= 114
    requires Parse(s, Zero(s), bytes, q) == Ok(v) && OwnHeader(bytes).Ok?
    ensures |bytes| - OwnHeader(bytes).value.1 == |Content(MakeField(s, v, p).value.value)|
    decreases s
  {
    match s
    case Ptr(e) => LengthIsBack(e, v.to, p, bytes, q);
    case Wrapper(e) =>
      WrapperIsParsed(e, bytes, q);
      LengthIsBack(e, v, p, bytes, q);
    case Int => IntDecodes(v.i);
    case Enumerated => IntDecodes(v.i);
    case _ =>
  }

  /** A tagged CHOICE is parsed from the size of the alternative's header on. */
  lemma LateIsParsed(fs: seq<Field>, f: Field, v: Value, p: Params, alt: Encoder, e: Encoder) returns (u: TagAndLen)
    requires PlainParams(p) && p.tag.Some? && |Content(e)| < 0x100_0000
    requires Shaped(f.schema, v, f.params) && f.params.tag.Some? && MakeField(f.schema, v, f.params) == Ok(alt)
    requires e == TypeEnc(HeaderEnc(TagAndLen(2, true, p.tag.value, |Content(alt)|)), alt)
    ensures IsHeader(u) && Frames(u, alt) && u.tagNumber < TWO_TO_63 && f.params.tag == Some(u.tagNumber)
    ensures u.cls == 2 && (u.constructed <==> !PrimitiveInside(f.schema))
    ensures HeaderOf(Content(alt)) == Ok((u, |Header(u)|)) && |Header(u)| <= |Content(e)|
    ensures Parse(Choice(fs), Zero(Choice(fs)), Content(e), p)
            == Alternative(fs, Zero(Choice(fs)), Content(e)[|Header(u)|..], u.tagNumber)
  {
    u := FrameOf(f.schema, v, f.params);
    FrameReads(u, alt, []);
    assert Content(alt) + [] == Content(alt);
    TaggedIsParsed(fs, p, e, Content(alt), u);
  }

  /** When a CHOICE comes back although its headers differ, tags of the same size leave just the one exception. */
  lemma OnlySlips(fs: seq<Field>, v: Value, p: Params, alt: Encoder)
    requires PlainParams(p) && p.tag.Some? && DistinctTags(fs)
    requires v.ChoiceV? && |v.alts| == |fs| && 1 <= v.present <= |fs|
    requires ShapedAlt(fs[v.present - 1], v.alts[v.present - 1], p.tag)
    requires MakeField(fs[v.present - 1].schema, v.alts[v.present - 1], fs[v.present - 1].params) == Ok(alt)
    requires CameBack(Choice(fs), v, p)
    ensures HeadersFit(fs[v.present - 1], v.alts[v.present - 1], p.tag.value)
  {
    ChoiceIsMade(fs, v, p, alt);
    TaggedSlips(fs, fs[v.present - 1], v, p, alt, MakeField(Choice(fs), v, p).value);
  }

  lemma TaggedSlips(fs: seq<Field>, f: Field, v: Value, p: Params, alt: Encoder, e: Encoder)
    requires PlainParams(p) && p.tag.Some? && |Content(e)| < 0x100_0000 && DistinctTags(fs)
    requires v.ChoiceV? && |v.alts| == |fs| && 1 <= v.present <= |fs| && f == fs[v.present - 1]
    requires var w := v.alts[v.present - 1];
             && Shaped(f.schema, w, f.params) && MakeField(f.schema, w, f.params) == Ok(alt)
             && (HeadersMatch(f, w, p.tag.value) || SameTagSize(f, p.tag.value))
    requires e == TypeEnc(HeaderEnc(TagAndLen(2, true, p.tag.value, |Content(alt)|)), alt)
    requires Parse(Choice(fs), Zero(Choice(fs)), Content(e), p) == Ok(v)
    ensures HeadersFit(f, v.alts[v.present - 1], p.tag.value)
  {
    var w := v.alts[v.present - 1];
    var u := LateIsParsed(fs, f, w, p, alt, e);
    AlternativeCameBack(fs, v, Content(e)[|Header(u)|..], u.tagNumber);
    MismatchSlips(f, w, p.tag.value, alt, u, Content(e));
  }

  lemma MismatchSlips(f: Field, v: Value, tag: uint64, alt: Encoder, u: TagAndLen, bytes: seq<byte>)
    requires Shaped(f.schema, v, f.params) && MakeField(f.schema, v, f.params) == Ok(alt)
    requires HeadersMatch(f, v, tag) || SameTagSize(f, tag)
    requires IsHeader(u) && Frames(u, alt) && u.tagNumber < TWO_TO_63 && f.params.tag == Some(u.tagNumber)
    requires u.cls == 2 && (u.constructed <==> !PrimitiveInside(f.schema))
    requires HeaderOf(Content(alt)) == Ok((u, |Header(u)|))
    requires bytes == Header(TagAndLen(2, true, tag, |Content(alt)|)) + Content(alt) && |bytes| < 0x100_0000
    requires |Header(u)| <= |bytes| && ParseInto(f, Zero(f.schema), bytes[|Header(u)|..]) == Ok(v)
    ensures HeadersFit(f, v, tag)
  {
    if |Header(u)| != |Header(TagAndLen(2, true, tag, |Content(alt)|))| {
      LateSlips(f, v, tag, alt, u, bytes);
    }
  }

  lemma LateSlips(f: Field, v: Value, tag: uint64, alt: Encoder, u: TagAndLen, bytes: seq<byte>)
    requires Shaped(f.schema, v, f.params) && MakeField(f.schema, v, f.params) == Ok(alt) && SameTagSize(f, tag)
    requires IsHeader(u) && Frames(u, alt) && u.tagNumber < TWO_TO_63 && f.params.tag == Some(u.tagNumber)
    requires u.cls == 2 && (u.constructed <==> !PrimitiveInside(f.schema))
    requires bytes == Header(TagAndLen(2, true, tag, |Content(alt)|)) + Content(alt) && |bytes| < 0x100_0000
    requires |Header(u)| != |Header(TagAndLen(2, true, tag, |Content(alt)|))|
    requires |Header(u)| <= |bytes| && ParseInto(f, Zero(f.schema), bytes[|Header(u)|..]) == Ok(v)
    ensures Slips(f, v, tag)
  {
    var t, late := TagAndLen(2, true, tag, |Content(alt)|), bytes[|Header(u)|..];
    NestedHeaders(bytes, t, u, alt);
    ParsedHasHeader(f.schema, Zero(f.schema), late, f.params);
    LateIsPrimitive(bytes, t, u);
    LengthIsBack(f.schema, v, f.params, late, f.params);
    NoOtherSlip(bytes, t, u);
    ShortHeader(u, Content(alt), Content(alt.value));
  }

  lemma NestedHeaders(bytes: seq<byte>, t: TagAndLen, u: TagAndLen, alt: Encoder)
    requires IsHeader(t) && IsHeader(u) && Frames(u, alt) && bytes == Header(t) + Content(alt)
    ensures Nested(bytes, t, u) && Content(alt) == Header(u) + Content(alt.value)
  {
    assert Content(alt) == Header(u) + Content(alt.value);
  }

  lemma ShortHeader(u: TagAndLen, inner: seq<byte>, content: seq<byte>)
    requires IsHeader(u) && u.cls == 2 && !u.constructed && u.tagNumber == 1 && 126 <= u.len <= 127
    requires inner == Header(u) + content && |content| == u.len
    ensures 128 <= |inner| <= 129 && inner[0] == 129 && inner[1] == |inner| - 2
  {
    LenForms(u.len);
    assert inner[0] == Header(u)[0] && inner[1] == Header(u)[1];
  }

  /** If a CHOICE comes back, so does its alternative, and the others are zero. */
  lemma AltCameBack(fs: seq<Field>, v: Value, p: Params)
    requires Shaped(Choice(fs), v, p) && CameBack(Choice(fs), v, p)
    ensures 1 <= v.present <= |fs|
    ensures CameBack(fs[v.present - 1].schema, v.alts[v.present - 1], fs[v.present - 1].params)
    ensures forall i :: 0 <= i < |fs| && i != v.present - 1 ==> v.alts[i] == Zero(fs[i].schema)
    ensures p.tag.Some? ==> HeadersFit(fs[v.present - 1], v.alts[v.present - 1], p.tag.value)
  {
    var k := v.present - 1;
    var alt := MakeField(fs[k].schema, v.alts[k], fs[k].params).value;
    if p.tag.Some? {
      OnlySlips(fs, v, p, alt);
    }
    var tag := AltIsParsed(fs, v, p, alt);
    AlternativeCameBack(fs, v, Content(alt), tag);
  }

  /** If a list comes back, it is not nil, and each of its elements comes back. */
  lemma ElemsCameBack(e: Schema, v: Value, p: Params)
    requires Shaped(ListOf(e), v, p) && CameBack(ListOf(e), v, p)
    ensures v.ListV?
    ensures forall i :: 0 <= i < |v.elems| ==> CameBack(e, v.elems[i], p.(tag := None))
  {
    var xs, q := if v.ListV? then v.elems else [], p.(tag := None);
    var parts := Collect(Elems(e, xs, q), |xs|).value;
    ListParts(e, xs, q, parts);
    ElemsAreParsed(e, xs, p, parts);
    PartsGaveElems(e, xs, p, parts);
    forall i | 0 <= i < |xs| ensures CameBack(e, xs[i], q) {
      ElemIsParsed(e, Content(parts[i]), p);
    }
  }

  lemma PartsGaveElems(e: Schema, xs: seq<Value>, p: Params, parts: seq<Encoder>)
    requires ListValue(e, Ok(Pieces(parts)), p) == Ok(ListV(xs)) && |parts| == |xs|
    ensures forall i :: 0 <= i < |xs| ==> ParseFresh(e, Content(parts[i]), p) == Ok(xs[i])
  {
    var rs := Fresh(e, Pieces(parts), p);
    Collected(rs, |parts|);
    forall i | 0 <= i < |xs| ensures ParseFresh(e, Content(parts[i]), p) == Ok(xs[i]) {
      assert rs[i] == ParseFresh(e, Content(parts[i]), p);
    }
  }

  /** The parts of a list that marshals. */
  lemma ListParts(e: Schema, xs: seq<Value>, q: Params, parts: seq<Encoder>)
    requires Collect(Elems(e, xs, q), |xs|) == Ok(parts)
    requires forall i :: 0 <= i < |xs| ==> Shaped(e, xs[i], q)
    ensures |parts| == |xs| && PartsFramed(parts)
    ensures forall i :: 0 <= i < |xs| ==> MakeField(e, xs[i], q) == Ok(parts[i])
  {
    var made := Elems(e, xs, q);
    Collected(made, |xs|);
    forall i | 0 <= i < |xs| ensures ReadableFrame(parts[i]) && MakeField(e, xs[i], q) == Ok(parts[i]) {
      assert made[i] == MakeElem(e, xs[i], q);
      var t := FrameOf(e, xs[i], q);
    }
  }

  // ---------------------------------------------------------------- exactly the sub-language

  /** The value marshals to fewer than 2^24 octets, and parsing them returns it. */
  predicate CameBack(s: Schema, v: Value, p: Params) {
    Fits(s, v, p) && Parse(s, Zero(s), Content(MakeField(s, v, p).value), p) == Ok(v)
  }

  /** Only values of the sub-language come back. */
  lemma {:induction false} OnlyCodable(s: Schema, v: Value, p: Params)
    requires Shaped(s, v, p) && CameBack(s, v, p)
    ensures Codable(s, v, p)
    decreases s, 0
  {
    match s
    case Ptr(e) => OnlyCodable(e, v.to, p);
    case Wrapper(e) =>
      WrappedCameBack(e, v, p);
      OnlyCodable(e, v, p);
    case Struct(fs) =>
      FieldsCameBack(fs, v.fields, p);
      forall i | 0 <= i < |fs| ensures CodableField(fs[i], v.fields[i]) {
        OnlyCodableField(fs[i], v.fields[i]);
      }
    case Choice(fs) =>
      AltCameBack(fs, v, p);
      OnlyCodableAlt(fs[v.present - 1], v.alts[v.present - 1], p.tag);
    case ListOf(e) =>
      ElemsCameBack(e, v, p);
      forall i | 0 <= i < |v.elems| ensures Codable(e, v.elems[i], p.(tag := None)) {
        OnlyCodable(e, v.elems[i], p.(tag := None));
      }
    case _ => PrimitiveRoundTripsExactly(s, v, p);
  }

  lemma WrappedCameBack(e: Schema, v: Value, p: Params)
    requires CameBack(Wrapper(e), v, p)
    ensures CameBack(e, v, p)
  {
    WrapperIsParsed(e, Content(MakeField(e, v, p).value), p);
  }

  lemma CodableCameBack(s: Schema, v: Value, p: Params)
    requires Codable(s, v, p) && Fits(s, v, p)
    ensures CameBack(s, v, p)
  {
    RoundTrip(s, v, p);
  }

  lemma {:induction false} OnlyCodableField(f: Field, v: Value)
    requires ShapedField(f, v) && (Absent(f, v) || CameBack(f.schema, v, f.params))
    ensures CodableField(f, v)
    decreases f, 2
  {
    if !Absent(f, v) {
      OnlyCodable(f.schema, v, f.params);
    }
  }

  lemma {:induction false} OnlyCodableAlt(f: Field, v: Value, tag: Option<uint64>)
    requires ShapedAlt(f, v, tag) && CameBack(f.schema, v, f.params)
    ensures CodableAlt(f, v)
    decreases f, 1
  {
    OnlyCodable(f.schema, v, f.params);
  }

  /** The round trip, exactly: for all types and parameters of the sub-language, a value is marshalled to fewer than
      2^24 octets and parsed back to itself if and only if it is in the sub-language and short enough. */
  lemma RoundTripsExactly(s: Schema, v: Value, p: Params)
    requires Shaped(s, v, p)
    ensures CameBack(s, v, p) <==> Codable(s, v, p) && Fits(s, v, p)
  {
    if CameBack(s, v, p) {
      OnlyCodable(s, v, p);
    } else if Codable(s, v, p) && Fits(s, v, p) {
      CodableCameBack(s, v, p);
    }
  }
}
