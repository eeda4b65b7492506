/** Inputs on which the charging codec does not return what it was given. */
module BerLimits {
  import opened Options
  import opened Octets
  import opened BerHeader
  import opened BerEncoder
  import opened BerSchema
  import opened BerMarshal
  import opened BerParse
  import opened BerSlips
  import opened BerRoundTrip

  const PLAIN := Params(false, None, false, false, false, 0)

  /** A tagged CHOICE whose own header is longer than that of the alternative does not come back: with 126 octets in an
      alternative with tag 0, the parser succeeds and returns 127 octets. */
  lemma TaggedChoiceGrows(s: seq<byte>, q: Params, p: Params)
    requires |s| == 126 && q == PLAIN.(tag := Some(0)) && p == PLAIN.(tag := Some(1))
    ensures var choice := Choice([Field(OctetString, q)]);
            && MakeField(choice, ChoiceV(1, [OctetsV(s)]), p).Ok?
            && Parse(choice, Zero(choice), Content(MakeField(choice, ChoiceV(1, [OctetsV(s)]), p).value), p)
               == Ok(ChoiceV(1, [OctetsV([126] + s)]))
            && !HeadersFit(choice.alts[0], OctetsV(s), 1)
  {
    var alt, bytes := GrowingChoice(s, q, p);
    HeaderOfGrown(s, bytes);
    GrownTail(s, bytes[2..], q);
    OneAltParsed(OctetString, q, p, bytes, 1, 3, TagAndLen(2, false, 0, 126), 2, OctetsV([126] + s));
    GrownDoesNotFit(s, q, alt);
  }

  /** What the parser makes of a CHOICE with one alternative and a tag of its own. */
  lemma OneAltParsed(schema: Schema, q: Params, p: Params, bytes: seq<byte>, tag: nat, off: nat, u: TagAndLen, hi: nat,
                     w: Value)
    requires q.tag == Some(u.tagNumber) && p.tag.Some? && !p.openType && off <= |bytes|
    requires OwnHeader(bytes) == Ok((tag, off)) && HeaderOf(bytes[off..]) == Ok((u, hi)) && hi + u.len <= |bytes|
    requires Parse(schema, Zero(schema), bytes[hi..], q) == Ok(w)
    ensures var choice := Choice([Field(schema, q)]);
            Parse(choice, Zero(choice), bytes, p) == Ok(ChoiceV(1, [w]))
  {
    var fs := [Field(schema, q)];
    BodyIsParsed(Choice(fs), Zero(Choice(fs)), bytes, p, tag, off);
    OnlyAlternative(schema, q, bytes[hi..], u.tagNumber, w);
    assert ChoiceValue(fs, Zero(Choice(fs)), bytes, p, tag, off)
           == Alternative(fs, Zero(Choice(fs)), bytes[hi..], u.tagNumber);
  }

  lemma OnlyAlternative(schema: Schema, q: Params, late: seq<byte>, tag: uint64, w: Value)
    requires q.tag == Some(tag) && Parse(schema, Zero(schema), late, q) == Ok(w)
    ensures var fs := [Field(schema, q)];
            Alternative(fs, Zero(Choice(fs)), late, tag) == Ok(ChoiceV(1, [w]))
  {
    var fs := [Field(schema, q)];
    assert FindAlt(fs, 0, tag) == 1;
    assert Zero(Choice(fs)).alts == [Zero(schema)];
    assert [Zero(schema)][0 := w] == [w];
    assert ParseInto(fs[0], Zero(schema), late) == Ok(w);
  }

  lemma GrownDoesNotFit(s: seq<byte>, q: Params, alt: Encoder)
    requires |s| == 126 && q == PLAIN.(tag := Some(0))
    requires MakeField(OctetString, OctetsV(s), q) == Ok(alt) && Content(alt) == [128, 126] + s
    ensures !HeadersFit(Field(OctetString, q), OctetsV(s), 1)
  {
    LenForms(128);
    assert |Header(TagAndLen(2, true, 1, 128))| == 3;
    assert HeaderOf(Content(alt)) == LengthPart(Content(alt), 2, false, 0, 1);
  }

  lemma GrownTail(s: seq<byte>, tail: seq<byte>, q: Params)
    requires |s| == 126 && tail == [128, 128, 126] + s
    ensures Parse(OctetString, Nil, tail, q) == Ok(OctetsV([126] + s))
  {
    assert tail == [128, 128, 126] + s;
    assert HeaderOf(tail) == LengthPart(tail, 2, false, 0, 1) == Ok((TagAndLen(2, false, 0, 0), 2)) by {
      assert tail[2..2] == [];
      assert NumberTo([], 0) == 0;
    }
    assert tail[2..] == [126] + s;
  }

  lemma GrowingChoice(s: seq<byte>, q: Params, p: Params) returns (alt: Encoder, bytes: seq<byte>)
    requires |s| == 126 && q == PLAIN.(tag := Some(0)) && p == PLAIN.(tag := Some(1))
    ensures MakeField(OctetString, OctetsV(s), q) == Ok(alt) && Content(alt) == [128, 126] + s
    ensures MakeField(Choice([Field(OctetString, q)]), ChoiceV(1, [OctetsV(s)]), p).Ok?
    ensures bytes == Content(MakeField(Choice([Field(OctetString, q)]), ChoiceV(1, [OctetsV(s)]), p).value)
    ensures bytes == [161, 129, 128, 128, 126] + s
  {
    var fs := [Field(OctetString, q)];
    var v := ChoiceV(1, [OctetsV(s)]);
    alt := MakeField(OctetString, OctetsV(s), q).value;
    var inner := TagAndLen(2, false, 0, 126);
    assert TagOctets(0) == [] && LenOctets(126) == [126];
    assert Header(inner) == [128, 126];
    assert alt == TypeEnc(HeaderEnc(inner), BytesEnc(s));
    assert v.alts[v.present - 1] == OctetsV(s) && fs[v.present - 1] == Field(OctetString, q);
    var outer := TagAndLen(2, true, 1, 128);
    assert Shortest(128) == [128];
    assert LenOctets(128) == [129, 128];
    assert Header(outer) == [161, 129, 128];
    var e := MakeField(Choice(fs), v, p);
    assert |Content(alt)| == 128;
    ChoiceIsMade(fs, v, p, alt);
    bytes := Content(e.value);
    assert Content(HeaderEnc(outer)) == Header(outer);
    assert bytes == Content(HeaderEnc(outer)) + Content(alt);
    assert [161, 129, 128] + ([128, 126] + s) == [161, 129, 128, 128, 126] + s;
  }

  lemma HeaderOfGrown(s: seq<byte>, bytes: seq<byte>)
    requires |s| == 126 && bytes == [161, 129, 128, 128, 126] + s
    ensures HeaderOf(bytes) == Ok((TagAndLen(2, true, 1, 128), 3))
    ensures HeaderOf(bytes[3..]) == Ok((TagAndLen(2, false, 0, 126), 2))
    ensures bytes[3..] == [128, 126] + s
  {
    assert bytes[2..3] == [128];
    assert NumberTo([128], 1) == NumberTo([128], 0) * 256 + 128;
    assert HeaderOf(bytes) == LengthPart(bytes, 2, true, 1, 1);
    assert bytes[3..] == [128, 126] + s;
  }

  /** With tags of different sizes a value may come back although the headers differ: a Bool with tag 0 under tag 31 is
      read from the length octet of the outer header on, which is taken for a tag. */
  lemma DifferentTagSizesMayPass(q: Params, p: Params)
    requires q == PLAIN.(tag := Some(0)) && p == PLAIN.(tag := Some(31))
    ensures var choice := Choice([Field(Bool, q)]);
            && MakeField(choice, ChoiceV(1, [BoolV(true)]), p).Ok?
            && Parse(choice, Zero(choice), Content(MakeField(choice, ChoiceV(1, [BoolV(true)]), p).value), p)
               == Ok(ChoiceV(1, [BoolV(true)]))
            && !HeadersFit(choice.alts[0], BoolV(true), 31) && !SameTagSize(choice.alts[0], 31)
  {
    var alt, bytes := TrueUnder31(q, p);
    HeadersUnder31(bytes);
    TrueAgain(bytes[2..], q);
    OneAltParsed(Bool, q, p, bytes, 31, 3, TagAndLen(2, false, 0, 1), 2, BoolV(true));
    TrueDoesNotFit(q, alt);
  }

  lemma TrueUnder31(q: Params, p: Params) returns (alt: Encoder, bytes: seq<byte>)
    requires q == PLAIN.(tag := Some(0)) && p == PLAIN.(tag := Some(31))
    ensures MakeField(Bool, BoolV(true), q) == Ok(alt) && Content(alt) == [128, 1, 255]
    ensures MakeField(Choice([Field(Bool, q)]), ChoiceV(1, [BoolV(true)]), p).Ok?
    ensures bytes == Content(MakeField(Choice([Field(Bool, q)]), ChoiceV(1, [BoolV(true)]), p).value)
    ensures bytes == [191, 31, 3, 128, 1, 255]
  {
    var fs, v := [Field(Bool, q)], ChoiceV(1, [BoolV(true)]);
    alt := TrueUnderZero(q);
    ChoiceIsMade(fs, v, p, alt);
    bytes := Content(MakeField(Choice(fs), v, p).value);
    OuterHeader31();
    assert bytes == [191, 31, 3] + [128, 1, 255];
  }

  lemma OuterHeader31()
    ensures Header(TagAndLen(2, true, 31, 3)) == [191, 31, 3]
  {
    assert Leading(0) == [] && Groups(31) == [31];
  }

  lemma HeadersUnder31(bytes: seq<byte>)
    requires bytes == [191, 31, 3, 128, 1, 255]
    ensures OwnHeader(bytes) == Ok((31, 3)) && HeaderOf(bytes[3..]) == Ok((TagAndLen(2, false, 0, 1), 2))
  {
    assert TagLoop(bytes, 1, 0) == (31, 2);
    assert HeaderOf(bytes) == LengthPart(bytes, 2, true, 31, 2);
    assert bytes[3..] == [128, 1, 255];
  }

  lemma TrueDoesNotFit(q: Params, alt: Encoder)
    requires q == PLAIN.(tag := Some(0)) && MakeField(Bool, BoolV(true), q) == Ok(alt) && Content(alt) == [128, 1, 255]
    ensures !HeadersFit(Field(Bool, q), BoolV(true), 31) && !SameTagSize(Field(Bool, q), 31)
  {
    OuterHeader31();
    assert Leading(0) == [] && Groups(31) == [31];
    assert HeaderOf(Content(alt)) == Ok((TagAndLen(2, false, 0, 1), 2));
  }

  lemma TrueUnderZero(q: Params) returns (alt: Encoder)
    requires q == PLAIN.(tag := Some(0))
    ensures MakeField(Bool, BoolV(true), q) == Ok(alt) && Content(alt) == [128, 1, 255]
    ensures HeaderOf([128, 1, 255]) == Ok((TagAndLen(2, false, 0, 1), 2))
  {
    alt := MakeField(Bool, BoolV(true), q).value;
    assert Header(TagAndLen(2, false, 0, 1)) == [128, 1];
    assert Content(alt) == [128, 1] + [255];
  }

  lemma TrueAgain(late: seq<byte>, q: Params)
    requires late == [3, 128, 1, 255]
    ensures Parse(Bool, Zero(Bool), late, q) == Ok(BoolV(true))
  {
    assert late[2..2] == [];
    assert HeaderOf(late) == LengthPart(late, 0, false, 3, 1) == Ok((TagAndLen(0, false, 3, 0), 2));
    assert late[2..] == [1, 255];
  }

  /** A tagged list of CHOICEs does not come back: each element is parsed with the tag of the list. */
  lemma TaggedListOfChoicesFails(q: Params, p: Params)
    requires q == PLAIN.(tag := Some(0)) && p == PLAIN.(tag := Some(1))
    ensures var s := ListOf(Choice([Field(Bool, q)]));
            var v := ListV([ChoiceV(1, [BoolV(true)])]);
            MakeField(s, v, p).Ok? && Parse(s, Zero(s), Content(MakeField(s, v, p).value), p).Err?
  {
    var choice := Choice([Field(Bool, q)]);
    var bytes := MarshalledChoices(q, p);
    assert HeaderOf(bytes) == Ok((TagAndLen(2, true, 1, 3), 2));
    var piece := bytes[2..5];
    assert bytes[2..] == piece == [128, 1, 255];
    assert HeaderOf(piece) == Ok((TagAndLen(2, false, 0, 1), 2));
    CutStep(bytes, 2, 5, 0, []);
    assert CutAll(bytes, 5, [piece]) == Ok([piece]);
    ElementFails(choice, piece, p);
    assert ParseFresh(choice, piece, p).Err?;
    CollectStops(Fresh(choice, [piece], p), 0, 1);
    assert [] + [piece] == [piece];
    assert CutAll(bytes, 2, []) == Ok([piece]);
    assert ListValue(choice, CutAll(bytes, 2, []), p).Err?;
    BodyIsParsed(ListOf(choice), Zero(ListOf(choice)), bytes, p, 1, 2);
  }

  lemma ElementFails(choice: Schema, piece: seq<byte>, p: Params)
    requires choice.Choice? && p.tag.Some? && piece == [128, 1, 255]
    ensures Parse(choice, Zero(choice), piece, p).Err?
  {
    assert HeaderOf(piece) == Ok((TagAndLen(2, false, 0, 1), 2));
    assert piece[2..] == [255];
    assert TagLoop([255], 1, 0) == (0, 1);
    assert HeaderOf([255]).Err?;
    BodyIsParsed(choice, Zero(choice), piece, p, 0, 2);
  }

  lemma MarshalledChoices(q: Params, p: Params) returns (bytes: seq<byte>)
    requires q == PLAIN.(tag := Some(0)) && p == PLAIN.(tag := Some(1))
    ensures var s := ListOf(Choice([Field(Bool, q)]));
            var v := ListV([ChoiceV(1, [BoolV(true)])]);
            MakeField(s, v, p).Ok? && bytes == Content(MakeField(s, v, p).value) == [161, 3, 128, 1, 255]
  {
    var choice, v, none := Choice([Field(Bool, q)]), ChoiceV(1, [BoolV(true)]), p.(tag := None);
    var alt := MakeField(Bool, BoolV(true), q).value;
    assert TagOctets(0) == [] && LenOctets(1) == [1];
    assert Header(TagAndLen(2, false, 0, 1)) == [128, 1];
    assert Content(alt) == [128, 1] + [255];
    assert v.alts[v.present - 1] == BoolV(true) && choice.alts[v.present - 1] == Field(Bool, q);
    assert MakeField(choice, v, none) == Ok(alt);
    ChoiceIsMade(choice.alts, v, none, alt);
    assert MakeElem(choice, v, none) == Ok(alt);
    assert Elems(choice, [v], none) == [Ok(alt)];
    CollectsAll([Ok(alt)], [alt], 1);
    assert [alt][..1] == [alt];
    assert ContentTo([alt], 1) == ContentTo([alt], 0) + Content(alt);
    assert Content(StructEnc([alt])) == [128, 1, 255];
    assert TagOctets(1) == [] && LenOctets(3) == [3];
    assert Header(TagAndLen(2, true, 1, 3)) == [161, 3];
    var e := MakeField(ListOf(choice), ListV([v]), p);
    assert Collect(Elems(choice, [v], none), 1) == Ok([alt]);
    assert |Content(StructEnc([alt]))| == 3;
    assert e == Ok(Tagged(true, CollectionTag(p), StructEnc([alt]), p));
    assert e == Ok(TypeEnc(HeaderEnc(TagAndLen(2, true, 1, 3)), StructEnc([alt])));
    bytes := Content(e.value);
  }

  /** A struct whose first field has no tag parses nothing: the first element makes the parser panic or fail. */
  lemma UntaggedFieldFails(fs: seq<Field>, target: Value, bytes: seq<byte>, p: Params)
    requires fs != [] && fs[0].params.tag.None?
    requires OwnHeader(bytes).Ok? && OwnHeader(bytes).value.1 < |bytes|
    ensures Parse(Struct(fs), target, bytes, p).Err?
  {
    var h := OwnHeader(bytes).value;
    BodyIsParsed(Struct(fs), target, bytes, p, h.0, h.1);
    if target.StructV? && |target.fields| == |fs| {
      assert ParseElement(fs, p, target.fields, bytes, h.1, 0).Err?;
    }
  }
}
