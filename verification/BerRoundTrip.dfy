/** What is marshalled parses back to the value it came from, on the sub-language where the codec keeps that promise. */
module BerRoundTrip {
  import opened Options
  import opened Octets
  import opened BerHeader
  import opened BerEncoder
  import opened BerSchema
  import opened BerMarshal
  import opened BerParse
  import opened BerSlips

  // ---------------------------------------------------------------- the sub-language

  /** Parameters the parser understands: no open type, no explicit tag, tags that fit nine groups. */
  predicate PlainParams(p: Params) {
    && !p.openType
    && (p.tag.Some? ==> !p.explicitTag && p.tag.value < TWO_TO_63)
    && p.stringType < TWO_TO_63
  }

  /** Every field has a tag, and no two have the same. */
  predicate DistinctTags(fs: seq<Field>) {
    && (forall i :: 0 <= i < |fs| ==> fs[i].params.tag.Some?)
    && (forall i, j :: 0 <= i < j < |fs| ==> fs[i].params.tag != fs[j].params.tag)
  }

  /** A type whose elements reach a CHOICE without passing through a struct. */
  predicate BareChoice(s: Schema) {
    s.Choice? || ((s.Ptr? || s.Wrapper? || s.ListOf?) && BareChoice(s.elem))
  }

  /** The values that come back. An integer must not be negative unless it takes eight octets; a bit string must have
      one octet more than it has whole octets of bits; a struct must have some field present; the tag of a CHOICE must
      take a header as long as that of the alternative, but for one exception; a tagged list must not hold CHOICEs,
      unless it is empty. */
  predicate Codable(s: Schema, v: Value, p: Params)
    decreases s, 0
  {
    && PlainParams(p)
    && match s
       case Bool => v.BoolV?
       case Int => v.IntV? && IntComesBack(v.i)
       case Enumerated => v.IntV? && IntComesBack(v.i)
       case OctetString => v.OctetsV?
       case Str => v.StrV?
       case BitString => v.BitsV? && BitsComeBack(v.bits, v.bitLength)
       case Null => false
       case Ptr(e) => v.Ref? && Codable(e, v.to, p)
       case Wrapper(e) => Codable(e, v, p)
       case Struct(fs) =>
         && v.StructV? && |v.fields| == |fs| && DistinctTags(fs)
         && (exists i :: 0 <= i < |fs| && !Absent(fs[i], v.fields[i]))
         && (forall i :: 0 <= i < |fs| ==> CodableField(fs[i], v.fields[i]))
       case Choice(fs) =>
         && v.ChoiceV? && |v.alts| == |fs| && DistinctTags(fs)
         && 1 <= v.present <= |fs|
         && CodableAlt(fs[v.present - 1], v.alts[v.present - 1])
         && (forall i :: 0 <= i < |fs| && i != v.present - 1 ==> v.alts[i] == Zero(fs[i].schema))
         && (p.tag.Some? ==> HeadersFit(fs[v.present - 1], v.alts[v.present - 1], p.tag.value))
       case ListOf(e) =>
         && v.ListV?
         && (p.tag.Some? ==> !BareChoice(e) || v.elems == [])
         && (forall i :: 0 <= i < |v.elems| ==> Codable(e, v.elems[i], p.(tag := None)))
  }

  /** What `Codable` asks of the types and their parameters, and of the headers of tagged CHOICEs, leaving open which
      values of those types come back. */
  predicate Shaped(s: Schema, v: Value, p: Params)
    decreases s, 0
  {
    && PlainParams(p)
    && match s
       case Ptr(e) => v.Nil? || (v.Ref? && Shaped(e, v.to, p))
       case Wrapper(e) => Shaped(e, v, p)
       case Struct(fs) =>
         && v.StructV? && |v.fields| == |fs| && DistinctTags(fs)
         && (forall i :: 0 <= i < |fs| ==> ShapedField(fs[i], v.fields[i]))
       case Choice(fs) =>
         && v.ChoiceV? && |v.alts| == |fs| && DistinctTags(fs)
         && (1 <= v.present <= |fs| ==> ShapedAlt(fs[v.present - 1], v.alts[v.present - 1], p.tag))
       case ListOf(e) =>
         || v.Nil?
         || (&& v.ListV?
             && (p.tag.Some? ==> !BareChoice(e) || v.elems == [])
             && (forall i :: 0 <= i < |v.elems| ==> Shaped(e, v.elems[i], p.(tag := None))))
       case _ => Typed(s, v)
  }

  predicate ShapedField(f: Field, v: Value)
    decreases f, 2
  {
    && (f.params.optional ==> Nillable(f.schema))
    && (Absent(f, v) || Shaped(f.schema, v, f.params))
  }

  predicate ShapedAlt(f: Field, v: Value, tag: Option<uint64>)
    decreases f, 1
  {
    && Shaped(f.schema, v, f.params)
    && (tag.Some? && MakeField(f.schema, v, f.params).Ok? ==>
          HeadersMatch(f, v, tag.value) || SameTagSize(f, tag.value))
  }

  lemma {:induction false} CodableIsShaped(s: Schema, v: Value, p: Params)
    requires Codable(s, v, p)
    ensures Shaped(s, v, p)
    decreases s, 0
  {
    match s
    case Ptr(e) => CodableIsShaped(e, v.to, p);
    case Wrapper(e) => CodableIsShaped(e, v, p);
    case Struct(fs) =>
      forall i | 0 <= i < |fs| ensures ShapedField(fs[i], v.fields[i]) {
        CodableFieldIsShaped(fs[i], v.fields[i]);
      }
    case Choice(fs) => CodableAltIsShaped(fs[v.present - 1], v.alts[v.present - 1], p.tag);
    case ListOf(e) =>
      forall i | 0 <= i < |v.elems| ensures Shaped(e, v.elems[i], p.(tag := None)) {
        CodableIsShaped(e, v.elems[i], p.(tag := None));
      }
    case _ =>
  }

  lemma {:induction false} CodableFieldIsShaped(f: Field, v: Value)
    requires CodableField(f, v)
    ensures ShapedField(f, v)
    decreases f, 2
  {
    if !Absent(f, v) {
      CodableIsShaped(f.schema, v, f.params);
    }
  }

  lemma {:induction false} CodableAltIsShaped(f: Field, v: Value, tag: Option<uint64>)
    requires CodableAlt(f, v) && (tag.Some? ==> HeadersFit(f, v, tag.value))
    ensures ShapedAlt(f, v, tag)
    decreases f, 1
  {
    CodableIsShaped(f.schema, v, f.params);
  }

  predicate IntComesBack(i: int) {
    -TWO_TO_63 <= i < TWO_TO_63 && (i >= 0 || |IntOctets(i)| == 8)
  }

  /** One octet more than whole octets of bits; or none at all, with a length so near 2^64 that it wraps around. */
  predicate BitsComeBack(bits: seq<byte>, bitLength: uint64) {
    |bits| == bitLength / 8 + 1 || (bits == [] && bitLength >= TWO_TO_64 - 8)
  }

  /** A field may be left out when it is optional and its kind can be nil. */
  predicate CodableField(f: Field, v: Value)
    decreases f, 2
  {
    && (f.params.optional ==> Nillable(f.schema))
    && (Absent(f, v) || Codable(f.schema, v, f.params))
  }

  predicate CodableAlt(f: Field, v: Value)
    decreases f, 1
  {
    Codable(f.schema, v, f.params)
  }

  /** The two headers of a tagged CHOICE are equally long, or the parser gets by although they are not. */
  predicate HeadersFit(f: Field, v: Value, tag: uint64) {
    HeadersMatch(f, v, tag) || Slips(f, v, tag)
  }

  /** 126 or 127 octets of a primitive alternative with tag 1, under a tag of one octet. */
  predicate Slips(f: Field, v: Value, tag: uint64) {
    var inner := Marshal(f.schema, v, f.params);
    && tag <= 30 && f.params.tag == Some(1)
    && inner.Ok? && 128 <= |inner.value| <= 129 && inner.value[0] == 129 && inner.value[1] == |inner.value| - 2
  }

  /** The alternative's tag takes as many octets as the CHOICE's own. */
  predicate SameTagSize(f: Field, tag: uint64) {
    f.params.tag.Some? && |TagOctets(f.params.tag.value)| == |TagOctets(tag)|
  }

  /** The header that the CHOICE's own tag puts around the alternative is as long as the alternative's header. */
  predicate HeadersMatch(f: Field, v: Value, tag: uint64) {
    var inner := Marshal(f.schema, v, f.params);
    inner.Ok? && var h := HeaderOf(inner.value);
                 h.Ok? && h.value.1 == |Header(TagAndLen(2, true, tag, |inner.value|))|
  }

  // ---------------------------------------------------------------- primitive types

  lemma BitStringDecodes(bits: seq<byte>, bitLength: uint64)
    requires |bits| < 0x100_0000
    ensures PrimitiveValue(BitString, Content(BitStringEnc(bits, bitLength))) == Ok(BitsV(bits, bitLength))
            <==> BitsComeBack(bits, bitLength)
  {
    var content := Content(BitStringEnc(bits, bitLength));
    assert content[1..] == bits;
    var n := |bits| * 8 - (8 - bitLength % 8);
    assert (|content| - 1) * 8 - content[0] == n;
    if bits == [] {
      assert n % TWO_TO_64 == TWO_TO_64 + n;
    } else {
      assert n % TWO_TO_64 == n;
    }
  }

  /** What a primitive type's contents decode to is the value exactly when it is in the sub-language. */
  lemma PrimitiveDecodes(s: Schema, v: Value, p: Params)
    requires Primitive(s) && Typed(s, v) && PlainParams(p)
    requires s.BitString? ==> |v.bits| < 0x100_0000
    ensures MakeField(s, v, p).Ok?
    ensures PrimitiveValue(s, Content(MakeField(s, v, p).value.value)) == Ok(v) <==> Codable(s, v, p)
  {
    match s
    case BitString => BitStringDecodes(v.bits, v.bitLength);
    case Int => IntegerDecodes(s, v, p);
    case Enumerated => IntegerDecodes(s, v, p);
    case _ =>
  }

  lemma IntegerDecodes(s: Schema, v: Value, p: Params)
    requires (s.Int? || s.Enumerated?) && Typed(s, v) && PlainParams(p)
    ensures PrimitiveValue(s, Content(MakeField(s, v, p).value.value)) == Ok(v) <==> Codable(s, v, p)
  {
    IntDecodes(v.i);
  }

  // ---------------------------------------------------------------- framing

  /** The frame of what is marshalled: a header with the field's tag, if it has one. */
  lemma {:induction false} FrameOf(s: Schema, v: Value, p: Params) returns (t: TagAndLen)
    requires Shaped(s, v, p) && MakeField(s, v, p).Ok?
    ensures IsHeader(t) && Frames(t, MakeField(s, v, p).value)
    ensures t.tagNumber < TWO_TO_63 && (p.tag.Some? ==> t.tagNumber == p.tag.value)
    ensures p.tag.Some? ==> t.cls == 2 && (t.constructed <==> !PrimitiveInside(s))
    decreases s
  {
    match s
    case Ptr(e) => t := FrameOf(e, v.to, p);
    case Wrapper(e) => t := FrameOf(e, v, p);
    case Choice(fs) =>
      if p.tag.None? {
        t := FrameOf(fs[v.present - 1].schema, v.alts[v.present - 1], fs[v.present - 1].params);
      } else {
        var alt := MakeField(fs[v.present - 1].schema, v.alts[v.present - 1], fs[v.present - 1].params).value;
        t := TagAndLen(2, true, p.tag.value, |Content(alt)|);
      }
    case Struct(_) => t := FrameOfTagged(true, CollectionTag(p), MakeField(s, v, p).value, p);
    case ListOf(_) => t := FrameOfTagged(true, CollectionTag(p), MakeField(s, v, p).value, p);
    case _ => t := PrimitiveFrame(s, v, p);
  }

  lemma PrimitiveFrame(s: Schema, v: Value, p: Params) returns (t: TagAndLen)
    requires Primitive(s) && Typed(s, v) && PlainParams(p)
    ensures MakeField(s, v, p).Ok?
    ensures IsHeader(t) && Frames(t, MakeField(s, v, p).value)
    ensures t.tagNumber < TWO_TO_63 && (p.tag.Some? ==> t.tagNumber == p.tag.value && t.cls == 2 && !t.constructed)
  {
    var e := MakeField(s, v, p).value;
    var universal: uint64 :=
      if s.Bool? then TAG_BOOLEAN
      else if s.Int? then TAG_INTEGER
      else if s.Enumerated? then TAG_ENUMERATED
      else if s.OctetString? then TAG_OCTET_STRING
      else if s.BitString? then TAG_BIT_STRING
      else if s.Null? then TAG_NULL
      else p.stringType;
    t := FrameOfTagged(false, universal, e, p);
  }

  lemma FrameOfTagged(constructed: bool, tagNumber: uint64, e: Encoder, p: Params) returns (t: TagAndLen)
    requires PlainParams(p) && tagNumber < TWO_TO_63 && e.TypeEnc? && e == Tagged(constructed, tagNumber, e.value, p)
    ensures IsHeader(t) && Frames(t, e)
    ensures t.tagNumber < TWO_TO_63 && (p.tag.Some? ==> t.tagNumber == p.tag.value)
    ensures p.tag.Some? ==> t.cls == 2 && t.constructed == constructed
  {
    t := if p.tag.None? then TagAndLen(0, constructed, tagNumber, |Content(e.value)|)
         else TagAndLen(2, constructed, p.tag.value, |Content(e.value)|);
  }

  /** Reading the frame of an encoder, whatever follows it. */
  lemma FrameReads(t: TagAndLen, e: Encoder, rest: seq<byte>)
    requires IsHeader(t) && Frames(t, e) && t.tagNumber < TWO_TO_63 && t.len < 0x100_0000
    ensures HeaderOf(Content(e) + rest) == Ok((t, |Header(t)|))
    ensures |Content(e)| == |Header(t)| + t.len
    ensures Content(e)[|Header(t)|..] == Content(e.value)
  {
    var h, c := Header(t), Content(e.value);
    assert Content(e) == h + c;
    HeaderRoundTrip(t, c + rest);
    Regroup(h, c, rest);
  }

  lemma Regroup<T>(a: seq<T>, b: seq<T>, c: seq<T>)
    ensures (a + b) + c == a + (b + c)
    ensures (a + b)[|a|..] == b
  {
  }

  lemma FrameReadsAlone(t: TagAndLen, e: Encoder)
    requires IsHeader(t) && Frames(t, e) && t.tagNumber < TWO_TO_63 && t.len < 0x100_0000
    ensures OwnHeader(Content(e)) == Ok((t.tagNumber, |Header(t)|))
    ensures Content(e)[|Header(t)|..] == Content(e.value)
  {
    FrameReads(t, e, []);
    assert Content(e) + [] == Content(e);
  }

  // ---------------------------------------------------------------- where the parts lie

  /** `bytes` holds the parts one after the other from `base` to its end. */
  predicate Holds(bytes: seq<byte>, base: nat, parts: seq<Encoder>) {
    HoldsPieces(bytes, base, Pieces(parts))
  }

  function At(base: nat, parts: seq<Encoder>, k: nat): nat
    requires k <= |parts|
  {
    Position(base, Pieces(parts), k)
  }

  /** Part `k` lies between its own offset and that of the next. */
  lemma PartLies(bytes: seq<byte>, base: nat, parts: seq<Encoder>, k: nat)
    requires Holds(bytes, base, parts) && k < |parts|
    ensures At(base, parts, k) + |Content(parts[k])| == At(base, parts, k + 1) <= |bytes| == At(base, parts, |parts|)
    ensures bytes[At(base, parts, k)..At(base, parts, k + 1)] == Content(parts[k])
  {
    PieceLies(bytes, base, Pieces(parts), k);
  }

  lemma PartFits(bytes: seq<byte>, base: nat, parts: seq<Encoder>, i: nat)
    requires Holds(bytes, base, parts) && i < |parts|
    ensures |Content(parts[i])| <= |bytes|
  {
    PartLies(bytes, base, parts, i);
  }

  /** Cutting at the offset of a framed part yields its tag and the offset of the next. */
  lemma CutReads(bytes: seq<byte>, lo: nat, hi: nat, t: TagAndLen, e: Encoder)
    requires lo <= hi <= |bytes| && bytes[lo..hi] == Content(e) && hi < 0x100_0000
    requires IsHeader(t) && Frames(t, e) && t.tagNumber < TWO_TO_63
    ensures lo + 2 <= hi && Cut(bytes, lo) == Ok((t.tagNumber, hi))
  {
    assert |Content(e)| == |Header(t)| + t.len;
    SplitAt(bytes, lo, hi);
    FrameReads(t, e, bytes[hi..]);
    CutFrom(bytes, lo, hi, t);
  }

  lemma CutFrom(bytes: seq<byte>, lo: nat, hi: nat, t: TagAndLen)
    requires IsHeader(t) && lo <= hi <= |bytes| && lo + |Header(t)| + t.len == hi
    requires HeaderOf(bytes[lo..]) == Ok((t, |Header(t)|))
    ensures lo + 2 <= hi && Cut(bytes, lo) == Ok((t.tagNumber, hi))
  {
  }

  lemma SplitAt<T>(s: seq<T>, lo: nat, hi: nat)
    requires lo <= hi <= |s|
    ensures s[lo..] == s[lo..hi] + s[hi..]
  {
  }

  /** Behind its header a struct or a list holds its parts. */
  lemma CollectionReads(parts: seq<Encoder>, p: Params, bytes: seq<byte>) returns (tag: nat, base: nat)
    requires PlainParams(p) && bytes == Content(Tagged(true, CollectionTag(p), StructEnc(parts), p))
    requires |bytes| < 0x100_0000
    ensures OwnHeader(bytes) == Ok((tag, base)) && Holds(bytes, base, parts)
  {
    var e := Tagged(true, CollectionTag(p), StructEnc(parts), p);
    var t := FrameOfTagged(true, CollectionTag(p), e, p);
    FrameReadsAlone(t, e);
    tag, base := t.tagNumber, |Header(t)|;
    assert Content(e.value) == ContentTo(parts, |parts|);
  }

  // ---------------------------------------------------------------- structs

  /** A target with its first `k` fields set and the rest still zero. */
  function Halfway(fs: seq<Field>, vs: seq<Value>, k: nat): (ts: seq<Value>)
    requires k <= |fs| == |vs|
    ensures |ts| == |fs|
  {
    seq(|fs|, i requires 0 <= i < |fs| => if i < k then vs[i] else Zero(fs[i].schema))
  }

  /** Looking for the tag of field `k` finds it, past fields with other tags. */
  lemma {:induction false} FindsField(fs: seq<Field>, from: nat, k: nat, tag: nat)
    requires from <= k < |fs| && DistinctTags(fs) && fs[k].params.tag == Some(tag)
    ensures FindField(fs, from, tag) == Ok(k)
    decreases k - from
  {
    if from < k {
      FindsField(fs, from + 1, k, tag);
    }
  }

  lemma {:induction false} FindsAlt(fs: seq<Field>, i: nat, k: nat, tag: nat)
    requires i <= k < |fs| && DistinctTags(fs) && fs[k].params.tag == Some(tag)
    ensures FindAlt(fs, i, tag) == k + 1
    decreases k - i
  {
    if i < k {
      FindsAlt(fs, i + 1, k, tag);
    }
  }

  function PartOf(f: Field, v: Value): Encoder {
    if Absent(f, v) then BytesEnc([])
    else
      var e := MakeField(f.schema, v, f.params);
      if e.Ok? then e.value else BytesEnc([])
  }

  function PartsOf(fs: seq<Field>, vs: seq<Value>): (es: seq<Encoder>)
    requires |fs| == |vs|
    ensures |es| == |fs|
  {
    seq(|fs|, i requires 0 <= i < |fs| => PartOf(fs[i], vs[i]))
  }

  /** Every field of a codable struct makes a part. */
  lemma PartsAreMade(fs: seq<Field>, vs: seq<Value>)
    requires |fs| == |vs|
    requires forall i :: 0 <= i < |fs| ==> CodableField(fs[i], vs[i])
    requires forall i :: 0 <= i < |fs| && !Absent(fs[i], vs[i]) ==> ComesBack(fs[i], vs[i])
    ensures Collect(Parts(fs, vs), |fs|) == Ok(PartsOf(fs, vs))
  {
    forall i | 0 <= i < |fs| ensures Parts(fs, vs)[i] == Ok(PartsOf(fs, vs)[i]) {
      PartIsMade(fs[i], vs[i]);
    }
    CollectsAll(Parts(fs, vs), PartsOf(fs, vs), |fs|);
    assert PartsOf(fs, vs)[..|fs|] == PartsOf(fs, vs);
  }

  lemma PartIsMade(f: Field, v: Value)
    requires CodableField(f, v) && (!Absent(f, v) ==> ComesBack(f, v))
    ensures MakePart(f, v) == Ok(PartOf(f, v))
  {
  }

  /** A field or alternative comes back into a fresh target. */
  predicate ComesBack(f: Field, v: Value) {
    var e := MakeField(f.schema, v, f.params);
    e.Ok? && (|Content(e.value)| < 0x100_0000 ==> ParseInto(f, Zero(f.schema), Content(e.value)) == Ok(v))
  }

  /** Step `k` of a struct loop passes field `k` over, or sets it from an element found from any earlier field on. */
  ghost predicate Step(fs: seq<Field>, p: Params, bytes: seq<byte>, targets: seq<seq<Value>>, offs: seq<nat>, k: nat)
    requires k < |fs| && |targets| == |offs| == |fs| + 1
    requires |targets[k]| == |targets[k + 1]| == |fs|
  {
    || (offs[k + 1] == offs[k] && targets[k + 1] == targets[k])
    || (&& offs[k] < |bytes|
        && targets[k + 1] == targets[k][k := targets[k + 1][k]]
        && forall c: nat :: c <= k ==>
             ParseElement(fs, p, targets[k], bytes, offs[k], c) == Ok(Element(k, targets[k + 1][k], offs[k + 1])))
  }

  /** Steps chain into a run of the loop. */
  lemma {:induction false} StepsChain(fs: seq<Field>, p: Params, bytes: seq<byte>, targets: seq<seq<Value>>,
                                        offs: seq<nat>,
                                      k: nat, current: nat)
    requires current <= k <= |fs| && |targets| == |offs| == |fs| + 1 && offs[|fs|] == |bytes|
    requires forall i :: 0 <= i <= |fs| ==> |targets[i]| == |fs| && offs[i] <= |bytes|
    requires forall i :: 0 <= i < |fs| ==> Step(fs, p, bytes, targets, offs, i)
    ensures ParseFields(fs, p, targets[k], bytes, offs[k], current) == Ok(targets[|fs|])
    decreases |fs| - k
  {
    if k < |fs| {
      assert Step(fs, p, bytes, targets, offs, k);
      if offs[k + 1] == offs[k] && targets[k + 1] == targets[k] {
        StepsChain(fs, p, bytes, targets, offs, k + 1, current);
      } else {
        StepsChain(fs, p, bytes, targets, offs, k + 1, k + 1);
        FieldsStep(fs, p, targets[k], bytes, offs[k], current, Element(k, targets[k + 1][k], offs[k + 1]));
      }
    }
  }

  /** What a round of the struct loop contributes: nothing if the field is absent, else an element with its tag. */
  ghost predicate Named(f: Field, v: Value, e: Encoder) {
    if Absent(f, v) then e == BytesEnc([])
    else exists t :: IsHeader(t) && Frames(t, e) && t.tagNumber < TWO_TO_63 && f.params.tag == Some(t.tagNumber)
  }

  /** What the struct loop does with a field that is present is to parse its element into it. */
  lemma ElementIsParsed(fs: seq<Field>, p: Params, ts: seq<Value>, v: Value, bytes: seq<byte>, base: nat,
                        parts: seq<Encoder>, k: nat, current: nat)
    requires current <= k < |fs| == |ts| == |parts| && !p.openType && DistinctTags(fs)
    requires Holds(bytes, base, parts) && |bytes| < 0x100_0000
    requires !Absent(fs[k], v) && Named(fs[k], v, parts[k])
    ensures At(base, parts, k) < At(base, parts, k + 1) <= |bytes|
    ensures var r := ParseInto(fs[k], ts[k], Content(parts[k]));
            ParseElement(fs, p, ts, bytes, At(base, parts, k), current)
            == if r.Ok? then Ok(Element(k, r.value, At(base, parts, k + 1))) else Err(r.error)
  {
    var t :| IsHeader(t) && Frames(t, parts[k]) && t.tagNumber < TWO_TO_63 && fs[k].params.tag == Some(t.tagNumber);
    var lo, hi := At(base, parts, k), At(base, parts, k + 1);
    PartLies(bytes, base, parts, k);
    CutReads(bytes, lo, hi, t, parts[k]);
    FindsField(fs, if p.isSet then 0 else current, k, t.tagNumber);
  }

  /** One round of the struct loop on a field that is present. */
  lemma ElementComesBack(fs: seq<Field>, p: Params, vs: seq<Value>, bytes: seq<byte>, base: nat,
                         parts: seq<Encoder>, k: nat, current: nat)
    requires current <= k < |fs| == |vs| == |parts| && !p.openType && DistinctTags(fs)
    requires Holds(bytes, base, parts) && |bytes| < 0x100_0000
    requires CodableField(fs[k], vs[k]) && !Absent(fs[k], vs[k]) && ComesBack(fs[k], vs[k])
    requires parts[k] == MakeField(fs[k].schema, vs[k], fs[k].params).value
    ensures At(base, parts, k) < |bytes|
    ensures ParseElement(fs, p, Halfway(fs, vs, k), bytes, At(base, parts, k), current)
            == Ok(Element(k, vs[k], At(base, parts, k + 1)))
  {
    CodableIsShaped(fs[k].schema, vs[k], fs[k].params);
    var t := FrameOf(fs[k].schema, vs[k], fs[k].params);
    PartFits(bytes, base, parts, k);
    ElementIsParsed(fs, p, Halfway(fs, vs, k), vs[k], bytes, base, parts, k, current);
  }

  function Targets(fs: seq<Field>, vs: seq<Value>): (ts: seq<seq<Value>>)
    requires |vs| == |fs|
    ensures |ts| == |fs| + 1
  {
    seq(|fs| + 1, k requires 0 <= k <= |fs| => Halfway(fs, vs, k))
  }

  function Offsets(base: nat, parts: seq<Encoder>): (os: seq<nat>)
    ensures |os| == |parts| + 1
  {
    Positions(base, Pieces(parts))
  }

  /** Absent fields are passed over; every other element finds its field. */
  lemma FieldSteps(fs: seq<Field>, p: Params, vs: seq<Value>, bytes: seq<byte>, base: nat, parts: seq<Encoder>, k: nat)
    requires k < |fs| == |vs| == |parts| && !p.openType && DistinctTags(fs)
    requires Holds(bytes, base, parts) && |bytes| < 0x100_0000 && parts[k] == PartOf(fs[k], vs[k])
    requires CodableField(fs[k], vs[k]) && (!Absent(fs[k], vs[k]) ==> ComesBack(fs[k], vs[k]))
    ensures Step(fs, p, bytes, Targets(fs, vs), Offsets(base, parts), k)
  {
    if Absent(fs[k], vs[k]) {
      PartLies(bytes, base, parts, k);
      assert Halfway(fs, vs, k + 1) == Halfway(fs, vs, k);
    } else {
      PresentStep(fs, p, vs, bytes, base, parts, k);
    }
  }

  lemma PresentStep(fs: seq<Field>, p: Params, vs: seq<Value>, bytes: seq<byte>, base: nat, parts: seq<Encoder>, k: nat)
    requires k < |fs| == |vs| == |parts| && !p.openType && DistinctTags(fs)
    requires Holds(bytes, base, parts) && |bytes| < 0x100_0000 && parts[k] == PartOf(fs[k], vs[k])
    requires CodableField(fs[k], vs[k]) && !Absent(fs[k], vs[k]) && ComesBack(fs[k], vs[k])
    ensures Step(fs, p, bytes, Targets(fs, vs), Offsets(base, parts), k)
  {
    forall c: nat | c <= k
      ensures At(base, parts, k) < |bytes|
      ensures ParseElement(fs, p, Halfway(fs, vs, k), bytes, At(base, parts, k), c)
              == Ok(Element(k, vs[k], At(base, parts, k + 1)))
    {
      ElementComesBack(fs, p, vs, bytes, base, parts, k, c);
    }
    ElementComesBack(fs, p, vs, bytes, base, parts, k, 0);
    StepTaken(fs, p, vs, bytes, base, parts, k);
  }

  lemma StepTaken(fs: seq<Field>, p: Params, vs: seq<Value>, bytes: seq<byte>, base: nat, parts: seq<Encoder>, k: nat)
    requires k < |fs| == |vs| == |parts| && At(base, parts, k) < |bytes|
    requires forall c: nat :: c <= k ==> ParseElement(fs, p, Halfway(fs, vs, k), bytes, At(base, parts, k), c)
                                         == Ok(Element(k, vs[k], At(base, parts, k + 1)))
    ensures Step(fs, p, bytes, Targets(fs, vs), Offsets(base, parts), k)
  {
    HalfwayOn(fs, vs, k);
    assert Offsets(base, parts)[k] == At(base, parts, k) && Offsets(base, parts)[k + 1] == At(base, parts, k + 1);
    assert Targets(fs, vs)[k] == Halfway(fs, vs, k) && Targets(fs, vs)[k + 1] == Halfway(fs, vs, k + 1);
  }

  lemma HalfwayOn(fs: seq<Field>, vs: seq<Value>, k: nat)
    requires k < |fs| == |vs|
    ensures Halfway(fs, vs, k)[k := vs[k]] == Halfway(fs, vs, k + 1)
  {
  }

  /** The struct loop over the parts of a codable struct ends with all fields set. */
  lemma FieldsComeBack(fs: seq<Field>, p: Params, vs: seq<Value>, bytes: seq<byte>, base: nat)
    requires |fs| == |vs| && !p.openType && DistinctTags(fs)
    requires Holds(bytes, base, PartsOf(fs, vs)) && |bytes| < 0x100_0000
    requires forall i :: 0 <= i < |fs| ==> CodableField(fs[i], vs[i])
    requires forall i :: 0 <= i < |fs| && !Absent(fs[i], vs[i]) ==> ComesBack(fs[i], vs[i])
    ensures ParseFields(fs, p, Halfway(fs, vs, 0), bytes, base, 0) == Ok(vs)
  {
    var parts := PartsOf(fs, vs);
    forall i | 0 <= i < |fs| ensures Step(fs, p, bytes, Targets(fs, vs), Offsets(base, parts), i) {
      FieldSteps(fs, p, vs, bytes, base, parts, i);
    }
    OffsetsFit(bytes, base, parts);
    StepsChain(fs, p, bytes, Targets(fs, vs), Offsets(base, parts), 0, 0);
    assert Halfway(fs, vs, |fs|) == vs;
  }

  lemma OffsetsFit(bytes: seq<byte>, base: nat, parts: seq<Encoder>)
    requires Holds(bytes, base, parts)
    ensures forall k :: 0 <= k <= |parts| ==> Offsets(base, parts)[k] <= |bytes|
    ensures Offsets(base, parts)[0] == base && Offsets(base, parts)[|parts|] == |bytes|
  {
    forall k | 0 <= k <= |parts| ensures Offsets(base, parts)[k] <= |bytes| {
      FlattenGrows(Pieces(parts), k, |parts|);
    }
  }

  // ---------------------------------------------------------------- lists

  /** The tag a list was given does not reach elements that are not CHOICEs. */
  lemma {:induction false} TagIsForgotten(s: Schema, target: Value, bytes: seq<byte>, p: Params)
    requires !BareChoice(s)
    ensures Parse(s, target, bytes, p) == Parse(s, target, bytes, p.(tag := None))
    decreases s, 1
  {
    var q := p.(tag := None);
    match s
    case Ptr(e) => TagIsForgotten(e, Zero(e), bytes, p);
    case Wrapper(e) => TagIsForgotten(e, target, bytes, p);
    case Struct(fs) =>
      var h := OwnHeader(bytes);
      if h.Ok? && target.StructV? && |target.fields| == |fs| {
        FieldsIgnoreTag(fs, p, target.fields, bytes, h.value.1, 0);
      }
    case ListOf(e) =>
      if OwnHeader(bytes).Ok? {
        forall piece ensures ParseFresh(e, piece, p) == ParseFresh(e, piece, q) {
          TagIsForgotten(e, Zero(e), piece, p);
        }
        ListIgnoresTag(e, CutAll(bytes, OwnHeader(bytes).value.1, []), p, q);
      }
    case _ =>
  }

  lemma ListIgnoresTag(e: Schema, pieces: Result<seq<seq<byte>>>, p: Params, q: Params)
    requires forall piece :: ParseFresh(e, piece, p) == ParseFresh(e, piece, q)
    ensures ListValue(e, pieces, p) == ListValue(e, pieces, q)
  {
    if pieces.Ok? {
      assert Fresh(e, pieces.value, p) == Fresh(e, pieces.value, q);
    }
  }

  lemma {:induction false} FieldsIgnoreTag(fs: seq<Field>, p: Params, vals: seq<Value>, bytes: seq<byte>,
                                             offset: nat, current: nat)
    requires |vals| == |fs| && offset <= |bytes| && current <= |fs|
    ensures ParseFields(fs, p, vals, bytes, offset, current)
            == ParseFields(fs, p.(tag := None), vals, bytes, offset, current)
    decreases |bytes| - offset
  {
    if offset < |bytes| {
      var e := ParseElement(fs, p, vals, bytes, offset, current);
      assert e == ParseElement(fs, p.(tag := None), vals, bytes, offset, current);
      if e.Ok? {
        FieldsIgnoreTag(fs, p, vals[e.value.field := e.value.value], bytes, e.value.next, e.value.field + 1);
      }
    }
  }

  /** Every part is framed by a header the parser accepts. */
  ghost predicate PartsFramed(parts: seq<Encoder>) {
    forall i :: 0 <= i < |parts| ==> ReadableFrame(parts[i])
  }

  ghost predicate ReadableFrame(e: Encoder) {
    exists t :: IsHeader(t) && Frames(t, e) && t.tagNumber < TWO_TO_63
  }

  /** Cutting at offset `i` gives piece `i` and offset `i + 1`. */
  predicate CutsAt(bytes: seq<byte>, offs: seq<nat>, all: seq<seq<byte>>, i: nat)
    requires i < |all| && |offs| == |all| + 1
  {
    && offs[i] < offs[i + 1] <= |bytes|
    && all[i] == bytes[offs[i]..offs[i + 1]]
    && Cut(bytes, offs[i]).Ok? && Cut(bytes, offs[i]).value.1 == offs[i + 1]
  }

  /** Cuts chain into a run of the cutting loop. */
  lemma {:induction false} CutsChain(bytes: seq<byte>, offs: seq<nat>, all: seq<seq<byte>>, k: nat)
    requires k <= |all| && |offs| == |all| + 1 && offs[|all|] == |bytes|
    requires forall i :: 0 <= i < |all| ==> CutsAt(bytes, offs, all, i)
    ensures offs[k] <= |bytes| && CutAll(bytes, offs[k], all[..k]) == Ok(all)
    decreases |all| - k
  {
    if k < |all| {
      assert CutsAt(bytes, offs, all, k);
      CutsChain(bytes, offs, all, k + 1);
      assert all[..k] + [all[k]] == all[..k + 1];
      CutStep(bytes, offs[k], offs[k + 1], Cut(bytes, offs[k]).value.0, all[..k]);
    } else {
      assert all[..k] == all;
    }
  }

  lemma CutsPart(bytes: seq<byte>, base: nat, parts: seq<Encoder>, i: nat)
    requires i < |parts| && Holds(bytes, base, parts) && |bytes| < 0x100_0000 && PartsFramed(parts)
    ensures CutsAt(bytes, Offsets(base, parts), Pieces(parts), i)
  {
    var t :| IsHeader(t) && Frames(t, parts[i]) && t.tagNumber < TWO_TO_63;
    var lo, hi := At(base, parts, i), At(base, parts, i + 1);
    PartLies(bytes, base, parts, i);
    CutReads(bytes, lo, hi, t, parts[i]);
    assert Offsets(base, parts)[i] == lo && Offsets(base, parts)[i + 1] == hi;
  }

  /** The cutting loop finds exactly the parts. */
  lemma CutsParts(bytes: seq<byte>, base: nat, parts: seq<Encoder>)
    requires Holds(bytes, base, parts) && |bytes| < 0x100_0000 && PartsFramed(parts)
    ensures CutAll(bytes, base, []) == Ok(Pieces(parts))
  {
    var offs, all := Offsets(base, parts), Pieces(parts);
    OffsetsFit(bytes, base, parts);
    forall i | 0 <= i < |all| ensures CutsAt(bytes, offs, all, i) {
      CutsPart(bytes, base, parts, i);
    }
    CutsChain(bytes, offs, all, 0);
    assert all[..0] == [];
  }

  // ---------------------------------------------------------------- the round trip

  /** The value comes back: it marshals, and below 2^24 octets parsing into a fresh target returns it. */
  predicate RoundTrips(s: Schema, v: Value, p: Params) {
    var e := MakeField(s, v, p);
    e.Ok? && (|Content(e.value)| < 0x100_0000 ==> Parse(s, Zero(s), Content(e.value), p) == Ok(v))
  }

  /** The value marshals to fewer than 2^24 octets. */
  predicate Fits(s: Schema, v: Value, p: Params) {
    MakeField(s, v, p).Ok? && |Content(MakeField(s, v, p).value)| < 0x100_0000
  }

  /** Round trip: every value of the sub-language that marshals to fewer than 2^24 octets is returned by parsing those
      octets with the same type and parameters. */
  lemma {:induction false} RoundTrip(s: Schema, v: Value, p: Params)
    requires Codable(s, v, p)
    ensures RoundTrips(s, v, p)
    decreases s, 0
  {
    match s
    case Ptr(e) => RoundTrip(e, v.to, p);
    case Wrapper(e) =>
      RoundTrip(e, v, p);
      WrapperComesBack(e, v, p);
    case Struct(fs) =>
      forall i | 0 <= i < |fs| && !Absent(fs[i], v.fields[i]) ensures ComesBack(fs[i], v.fields[i]) {
        FieldComesBack(fs[i], v.fields[i]);
      }
      StructComesBack(fs, v.fields, p);
    case Choice(fs) =>
      AltComesBack(fs[v.present - 1], v.alts[v.present - 1]);
      CodableIsShaped(s, v, p);
      ChoiceComesBack(fs, v, p);
    case ListOf(e) =>
      forall i | 0 <= i < |v.elems| ensures RoundTrips(e, v.elems[i], p.(tag := None)) {
        RoundTrip(e, v.elems[i], p.(tag := None));
      }
      ListComesBack(e, v.elems, p);
    case _ =>
      PrimitiveRoundTrip(s, v, p);
  }

  lemma {:induction false} FieldComesBack(f: Field, v: Value)
    requires CodableField(f, v) && !Absent(f, v)
    ensures ComesBack(f, v)
    decreases f, 2
  {
    RoundTrip(f.schema, v, f.params);
  }

  lemma {:induction false} AltComesBack(f: Field, v: Value)
    requires CodableAlt(f, v)
    ensures ComesBack(f, v)
    decreases f, 1
  {
    RoundTrip(f.schema, v, f.params);
  }

  /** A value of a primitive type comes back exactly when it is in the sub-language: an integer exactly when it is not
      negative or takes eight octets, a bit string exactly when its octets and its length agree, an octet string
      exactly when it is not nil, a NULL never. */
  lemma PrimitiveRoundTripsExactly(s: Schema, v: Value, p: Params)
    requires Primitive(s) && Typed(s, v) && PlainParams(p)
    requires |Content(MakeField(s, v, p).value)| < 0x100_0000
    ensures Parse(s, Zero(s), Content(MakeField(s, v, p).value), p) == Ok(v) <==> Codable(s, v, p)
  {
    PrimitiveDecodes(s, v, p);
    PrimitiveIsParsed(s, v, p);
  }

  lemma PrimitiveIsParsed(s: Schema, v: Value, p: Params)
    requires Primitive(s) && Typed(s, v) && PlainParams(p)
    requires |Content(MakeField(s, v, p).value)| < 0x100_0000
    ensures Parse(s, Zero(s), Content(MakeField(s, v, p).value), p)
            == PrimitiveValue(s, Content(MakeField(s, v, p).value.value))
    ensures |Content(MakeField(s, v, p).value.value)| <= |Content(MakeField(s, v, p).value)|
  {
    var t := PrimitiveFrame(s, v, p);
    FrameReadsAlone(t, MakeField(s, v, p).value);
  }

  lemma PrimitiveRoundTrip(s: Schema, v: Value, p: Params)
    requires Primitive(s) && Codable(s, v, p)
    ensures RoundTrips(s, v, p)
  {
    var t := PrimitiveFrame(s, v, p);
    if |Content(MakeField(s, v, p).value)| < 0x100_0000 {
      PrimitiveRoundTripsExactly(s, v, p);
    }
  }

  lemma WrapperComesBack(e: Schema, v: Value, p: Params)
    requires Codable(e, v, p) && RoundTrips(e, v, p)
    ensures RoundTrips(Wrapper(e), v, p)
  {
    var enc := MakeField(e, v, p).value;
    if |Content(enc)| < 0x100_0000 {
      ParsedHasHeader(e, Zero(e), Content(enc), p);
      WrapperIsParsed(e, Content(enc), p);
    }
  }

  /** A wrapper parses what it wraps, from the same octets. */
  lemma WrapperIsParsed(e: Schema, bytes: seq<byte>, p: Params)
    ensures OwnHeader(bytes).Ok? ==> Parse(Wrapper(e), Zero(Wrapper(e)), bytes, p) == Parse(e, Zero(e), bytes, p)
  {
    if OwnHeader(bytes).Ok? {
      BodyIsParsed(Wrapper(e), Zero(Wrapper(e)), bytes, p, OwnHeader(bytes).value.0, OwnHeader(bytes).value.1);
    }
  }

  lemma {:induction false} ParsedHasHeader(s: Schema, target: Value, bytes: seq<byte>, p: Params)
    requires Parse(s, target, bytes, p).Ok?
    ensures OwnHeader(bytes).Ok?
    decreases s
  {
    if s.Ptr? {
      ParsedHasHeader(s.elem, Zero(s.elem), bytes, p);
    }
  }

  lemma StructComesBack(fs: seq<Field>, vs: seq<Value>, p: Params)
    requires Codable(Struct(fs), StructV(vs), p)
    requires forall i :: 0 <= i < |fs| && !Absent(fs[i], vs[i]) ==> ComesBack(fs[i], vs[i])
    ensures RoundTrips(Struct(fs), StructV(vs), p)
  {
    PartsAreMade(fs, vs);
    var parts := PartsOf(fs, vs);
    var e := MakeField(Struct(fs), StructV(vs), p);
    assert e == Ok(Tagged(true, CollectionTag(p), StructEnc(parts), p));
    var bytes := Content(e.value);
    if |bytes| < 0x100_0000 {
      var tag, base := CollectionReads(parts, p, bytes);
      FieldsComeBack(fs, p, vs, bytes, base);
      FieldsMakeStruct(fs, vs, p, bytes, tag, base);
    }
  }

  lemma FieldsMakeStruct(fs: seq<Field>, vs: seq<Value>, p: Params, bytes: seq<byte>, tag: nat, base: nat)
    requires fs != [] && |vs| == |fs| && base <= |bytes| && OwnHeader(bytes) == Ok((tag, base))
    requires ParseFields(fs, p, Halfway(fs, vs, 0), bytes, base, 0) == Ok(vs)
    ensures Parse(Struct(fs), Zero(Struct(fs)), bytes, p) == Ok(StructV(vs))
  {
    BodyIsParsed(Struct(fs), Zero(Struct(fs)), bytes, p, tag, base);
    assert Zero(Struct(fs)) == StructV(Halfway(fs, vs, 0));
  }

  /** A CHOICE marshals its alternative, within its own tag if it has one. */
  lemma ChoiceIsMade(fs: seq<Field>, v: Value, p: Params, alt: Encoder)
    requires v.ChoiceV? && |v.alts| == |fs| && 1 <= v.present <= |fs| && PlainParams(p)
    requires MakeField(fs[v.present - 1].schema, v.alts[v.present - 1], fs[v.present - 1].params) == Ok(alt)
    ensures MakeField(Choice(fs), v, p)
            == if p.tag.None? then Ok(alt)
               else Ok(TypeEnc(HeaderEnc(TagAndLen(2, true, p.tag.value, |Content(alt)|)), alt))
  {
  }

  /** The tag of the alternative selects it, and the other alternatives stay as they were. */
  lemma AlternativeComesBack(fs: seq<Field>, v: Value, bytes: seq<byte>, tag: nat)
    requires v.ChoiceV? && |v.alts| == |fs| && DistinctTags(fs) && 1 <= v.present <= |fs|
    requires fs[v.present - 1].params.tag == Some(tag)
    requires forall i :: 0 <= i < |fs| && i != v.present - 1 ==> v.alts[i] == Zero(fs[i].schema)
    requires ParseInto(fs[v.present - 1], Zero(fs[v.present - 1].schema), bytes) == Ok(v.alts[v.present - 1])
    ensures Alternative(fs, Zero(Choice(fs)), bytes, tag) == Ok(v)
  {
    var k := v.present - 1;
    FindsAlt(fs, 0, k, tag);
    assert Zero(Choice(fs)).alts[k := v.alts[k]] == v.alts;
  }

  /** What the parser does with a marshalled CHOICE is to parse the alternative by its tag. */
  lemma AltIsParsed(fs: seq<Field>, v: Value, p: Params, alt: Encoder) returns (tag: nat)
    requires Shaped(Choice(fs), v, p) && 1 <= v.present <= |fs|
    requires MakeField(fs[v.present - 1].schema, v.alts[v.present - 1], fs[v.present - 1].params) == Ok(alt)
    requires Fits(Choice(fs), v, p)
    requires p.tag.Some? ==> HeadersFit(fs[v.present - 1], v.alts[v.present - 1], p.tag.value)
    ensures fs[v.present - 1].params.tag == Some(tag) && |Content(alt)| < 0x100_0000
    ensures Parse(Choice(fs), Zero(Choice(fs)), Content(MakeField(Choice(fs), v, p).value), p)
            == Alternative(fs, Zero(Choice(fs)), Content(alt), tag)
  {
    var k := v.present - 1;
    ChoiceIsMade(fs, v, p, alt);
    var e := MakeField(Choice(fs), v, p).value;
    var u := FrameOf(fs[k].schema, v.alts[k], fs[k].params);
    tag := u.tagNumber;
    if p.tag.None? {
      FrameReadsAlone(u, e);
      BodyIsParsed(Choice(fs), Zero(Choice(fs)), Content(alt), p, tag, |Header(u)|);
    } else {
      FrameReads(u, alt, []);
      assert Content(alt) + [] == Content(alt);
      TaggedIsParsed(fs, p, e, Content(alt), u);
      if HeadersMatch(fs[k], v.alts[k], p.tag.value) {
        FrameReadsAlone(TagAndLen(2, true, p.tag.value, |Content(alt)|), e);
      } else {
        SlippedInner(Content(alt));
        SlipIsParsed(fs, k, p.tag.value, Content(e), Content(alt));
      }
    }
  }

  /** With a tag of its own, it starts where the alternative's header size says. */
  lemma TaggedIsParsed(fs: seq<Field>, p: Params, e: Encoder, inner: seq<byte>, u: TagAndLen)
    requires PlainParams(p) && p.tag.Some? && e.TypeEnc? && Content(e.value) == inner
    requires Frames(TagAndLen(2, true, p.tag.value, |inner|), e) && |Content(e)| < 0x100_0000
    requires IsHeader(u) && HeaderOf(inner) == Ok((u, |Header(u)|)) && |Header(u)| + u.len == |inner|
    ensures |Header(u)| <= |Content(e)|
    ensures Parse(Choice(fs), Zero(Choice(fs)), Content(e), p)
            == Alternative(fs, Zero(Choice(fs)), Content(e)[|Header(u)|..], u.tagNumber)
  {
    var t := TagAndLen(2, true, p.tag.value, |inner|);
    FrameReadsAlone(t, e);
    BodyIsParsed(Choice(fs), Zero(Choice(fs)), Content(e), p, t.tagNumber, |Header(t)|);
    TaggedFrom(fs, p, Content(e), |Header(t)|, inner, u, t.tagNumber);
  }

  lemma TaggedFrom(fs: seq<Field>, p: Params, bytes: seq<byte>, off: nat, inner: seq<byte>, u: TagAndLen, tag: nat)
    requires PlainParams(p) && p.tag.Some? && off <= |bytes| && bytes[off..] == inner
    requires IsHeader(u) && HeaderOf(inner) == Ok((u, |Header(u)|)) && |Header(u)| + u.len == |inner|
    ensures ChoiceValue(fs, Zero(Choice(fs)), bytes, p, tag, off)
            == Alternative(fs, Zero(Choice(fs)), bytes[|Header(u)|..], u.tagNumber)
  {
  }

  /** The exception: one octet too early the parser finds another header, and the same contents behind it. */
  lemma SlipIsParsed(fs: seq<Field>, k: nat, tag: uint64, bytes: seq<byte>, inner: seq<byte>)
    requires k < |fs| && DistinctTags(fs) && fs[k].params.tag == Some(1) && PrimitiveInside(fs[k].schema)
    requires tag <= 30 && 128 <= |inner| <= 129 && inner[0] == 129 && inner[1] == |inner| - 2
    requires bytes == Header(TagAndLen(2, true, tag, |inner|)) + inner
    ensures Alternative(fs, Zero(Choice(fs)), bytes[2..], 1) == Alternative(fs, Zero(Choice(fs)), inner, 1)
  {
    SlippedAlike(tag, inner, bytes);
    SameContents(fs[k].schema, Zero(fs[k].schema), bytes[2..], inner, fs[k].params);
    SameAlternative(fs, k, bytes[2..], inner, 1);
  }

  lemma SameAlternative(fs: seq<Field>, k: nat, b: seq<byte>, c: seq<byte>, tag: nat)
    requires k < |fs| && DistinctTags(fs) && fs[k].params.tag == Some(tag)
    requires ParseInto(fs[k], Zero(fs[k].schema), b) == ParseInto(fs[k], Zero(fs[k].schema), c)
    ensures Alternative(fs, Zero(Choice(fs)), b, tag) == Alternative(fs, Zero(Choice(fs)), c, tag)
  {
    FindsAlt(fs, 0, k, tag);
  }

  lemma ChoiceComesBack(fs: seq<Field>, v: Value, p: Params)
    requires Codable(Choice(fs), v, p) && Shaped(Choice(fs), v, p)
    requires ComesBack(fs[v.present - 1], v.alts[v.present - 1])
    ensures RoundTrips(Choice(fs), v, p)
  {
    var k := v.present - 1;
    var alt := MakeField(fs[k].schema, v.alts[k], fs[k].params).value;
    ChoiceIsMade(fs, v, p, alt);
    if Fits(Choice(fs), v, p) {
      var tag := AltIsParsed(fs, v, p, alt);
      AlternativeComesBack(fs, v, Content(alt), tag);
    }
  }

  /** An element cut out of a list parses as if the list had no tag. */
  lemma ElemIsParsed(e: Schema, piece: seq<byte>, p: Params)
    requires p.tag.Some? ==> !BareChoice(e)
    ensures ParseFresh(e, piece, p) == Parse(e, Zero(e), piece, p.(tag := None))
  {
    if p.tag.Some? {
      TagIsForgotten(e, Zero(e), piece, p);
    } else {
      assert p == p.(tag := None);
    }
  }

  function ElemOf(e: Schema, x: Value, q: Params): Encoder {
    var r := MakeField(e, x, q);
    if r.Ok? then r.value else BytesEnc([])
  }

  function ElemsOf(e: Schema, xs: seq<Value>, q: Params): (es: seq<Encoder>)
    ensures |es| == |xs|
  {
    seq(|xs|, i requires 0 <= i < |xs| => ElemOf(e, xs[i], q))
  }

  lemma ElemsAreMade(e: Schema, xs: seq<Value>, q: Params)
    requires forall i :: 0 <= i < |xs| ==> RoundTrips(e, xs[i], q)
    ensures Collect(Elems(e, xs, q), |xs|) == Ok(ElemsOf(e, xs, q))
  {
    forall i | 0 <= i < |xs| ensures Elems(e, xs, q)[i] == Ok(ElemsOf(e, xs, q)[i]) {
      ElemIsMade(e, xs[i], q);
    }
    CollectsAll(Elems(e, xs, q), ElemsOf(e, xs, q), |xs|);
    assert ElemsOf(e, xs, q)[..|xs|] == ElemsOf(e, xs, q);
  }

  lemma ElemIsMade(e: Schema, x: Value, q: Params)
    requires RoundTrips(e, x, q)
    ensures MakeElem(e, x, q) == Ok(ElemOf(e, x, q))
  {
  }

  lemma ElemsAreFramed(e: Schema, xs: seq<Value>, q: Params)
    requires forall i :: 0 <= i < |xs| ==> Codable(e, xs[i], q)
    requires forall i :: 0 <= i < |xs| ==> RoundTrips(e, xs[i], q)
    ensures PartsFramed(ElemsOf(e, xs, q))
  {
    var parts := ElemsOf(e, xs, q);
    forall i | 0 <= i < |parts| ensures ReadableFrame(parts[i]) {
      CodableIsShaped(e, xs[i], q);
      var u := FrameOf(e, xs[i], q);
    }
  }

  lemma PiecesParse(e: Schema, xs: seq<Value>, p: Params, parts: seq<Encoder>)
    requires |parts| == |xs|
    requires forall i :: 0 <= i < |xs| ==> ParseFresh(e, Content(parts[i]), p) == Ok(xs[i])
    ensures Collect(Fresh(e, Pieces(parts), p), |xs|) == Ok(xs)
  {
    var rs := Fresh(e, Pieces(parts), p);
    forall i | 0 <= i < |xs| ensures rs[i] == Ok(xs[i]) {
      assert Pieces(parts)[i] == Content(parts[i]);
    }
    CollectsAll(rs, xs, |xs|);
    assert xs[..|xs|] == xs;
  }

  /** What the parser does with a marshalled list is to parse each of its parts. */
  lemma ElemsAreParsed(e: Schema, xs: seq<Value>, p: Params, parts: seq<Encoder>)
    requires PlainParams(p) && PartsFramed(parts)
    requires |Content(Tagged(true, CollectionTag(p), StructEnc(parts), p))| < 0x100_0000
    ensures Parse(ListOf(e), Nil, Content(Tagged(true, CollectionTag(p), StructEnc(parts), p)), p)
            == ListValue(e, Ok(Pieces(parts)), p)
    ensures forall i :: 0 <= i < |parts| ==> |Content(parts[i])| < 0x100_0000
  {
    var bytes := Content(Tagged(true, CollectionTag(p), StructEnc(parts), p));
    var tag, base := CollectionReads(parts, p, bytes);
    CutsParts(bytes, base, parts);
    BodyIsParsed(ListOf(e), Nil, bytes, p, tag, base);
    forall i | 0 <= i < |parts| ensures |Content(parts[i])| < 0x100_0000 {
      PartFits(bytes, base, parts, i);
    }
  }

  lemma ListComesBack(e: Schema, xs: seq<Value>, p: Params)
    requires Codable(ListOf(e), ListV(xs), p)
    requires forall i :: 0 <= i < |xs| ==> RoundTrips(e, xs[i], p.(tag := None))
    ensures RoundTrips(ListOf(e), ListV(xs), p)
  {
    var q := p.(tag := None);
    var parts := ElemsOf(e, xs, q);
    ElemsAreMade(e, xs, q);
    var enc := MakeField(ListOf(e), ListV(xs), p);
    assert enc == Ok(Tagged(true, CollectionTag(p), StructEnc(parts), p));
    var bytes := Content(enc.value);
    if |bytes| < 0x100_0000 {
      ElemsAreFramed(e, xs, q);
      ElemsAreParsed(e, xs, p, parts);
      forall i | 0 <= i < |xs| ensures ParseFresh(e, Content(parts[i]), p) == Ok(xs[i]) {
        ElemIsParsed(e, Content(parts[i]), p);
      }
      PiecesParse(e, xs, p, parts);
    }
  }
}
