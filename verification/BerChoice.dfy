/** CHOICEs with a tag of their own whose alternatives are strings: whatever the sizes of the two tags, exactly when
    they come back. */
module BerChoice {
  import opened Options
  import opened Octets
  import opened BerHeader
  import opened BerEncoder
  import opened BerSchema
  import opened BerMarshal
  import opened BerParse
  import opened BerSlips
  import opened BerRoundTrip
  import opened BerFraming
  import opened BerExact

  /** Reading the two headers from the size of the second on, the parser finds a header that ends where they end, and
      whose length is no more than what follows. */
  predicate HeadersServe(f: Field, v: Value, tag: uint64) {
    var inner := Marshal(f.schema, v, f.params);
    inner.Ok? && var h := HeaderOf(inner.value);
                 h.Ok? && Serves(Header(TagAndLen(2, true, tag, |inner.value|)), inner.value, h.value.1)
  }

  predicate Serves(outer: seq<byte>, inner: seq<byte>, hi: nat)
    requires hi <= |inner|
  {
    var late := HeaderOf((outer + inner[..hi])[hi..]);
    late.Ok? && late.value.1 == |outer| && late.value.0.len <= |inner| - hi
  }

  /** What the headers tell is what the parser reads. */
  lemma ServesIsRead(outer: seq<byte>, inner: seq<byte>, hi: nat, late: seq<byte>)
    requires hi <= |inner| && late == (outer + inner)[hi..] && |late| == |outer| + |inner| - hi
    ensures Serves(outer, inner, hi) <==> OwnHeader(late).Ok? && OwnHeader(late).value.1 == |outer|
  {
    var front := (outer + inner[..hi])[hi..];
    assert outer + inner == (outer + inner[..hi]) + inner[hi..];
    assert front == late[..|outer|];
    if HeaderOf(front).Ok? {
      HeaderIsLocal(front, late);
    }
    if HeaderOf(late).Ok? && HeaderOf(late).value.1 == |outer| {
      HeaderCutsBack(front, late);
    }
  }

  /** Behind it lie the alternative's contents. */
  lemma ContentsServed(outer: seq<byte>, inner: seq<byte>, hi: nat, late: seq<byte>)
    requires hi <= |inner| && late == (outer + inner)[hi..] && |late| == |outer| + |inner| - hi
    ensures late[|outer|..] == inner[hi..]
  {
  }

  /** A tagged CHOICE with a string in it comes back exactly when the string does, the other alternatives are zero,
      and the headers serve. */
  lemma StringChoiceExactly(fs: seq<Field>, v: Value, p: Params)
    requires PlainParams(p) && p.tag.Some? && DistinctTags(fs) && Fits(Choice(fs), v, p)
    requires v.ChoiceV? && |v.alts| == |fs| && 1 <= v.present <= |fs| && Textual(fs[v.present - 1].schema)
    requires Shaped(fs[v.present - 1].schema, v.alts[v.present - 1], fs[v.present - 1].params)
    ensures var f, w := fs[v.present - 1], v.alts[v.present - 1];
            CameBack(Choice(fs), v, p) <==>
              && CameBack(f.schema, w, f.params) && HeadersServe(f, w, p.tag.value)
              && forall i :: 0 <= i < |fs| && i != v.present - 1 ==> v.alts[i] == Zero(fs[i].schema)
  {
    var f, w := fs[v.present - 1], v.alts[v.present - 1];
    var alt := MakeField(f.schema, w, f.params).value;
    ChoiceIsMade(fs, v, p, alt);
    var e := MakeField(Choice(fs), v, p).value;
    var u := LateIsParsed(fs, f, w, p, alt, e);
    LateIsExact(f, w, p.tag.value, alt, u, Content(e));
    AlternativeExactly(fs, v, Content(e)[|Header(u)|..], u.tagNumber);
    assert |Content(alt)| <= |Content(e)|;
  }

  /** The alternative that the tag selects is parsed to its value, and the rest is zero. */
  lemma AlternativeExactly(fs: seq<Field>, v: Value, bytes: seq<byte>, tag: nat)
    requires v.ChoiceV? && |v.alts| == |fs| && DistinctTags(fs) && 1 <= v.present <= |fs|
    requires fs[v.present - 1].params.tag == Some(tag)
    ensures Alternative(fs, Zero(Choice(fs)), bytes, tag) == Ok(v) <==>
              && ParseInto(fs[v.present - 1], Zero(fs[v.present - 1].schema), bytes) == Ok(v.alts[v.present - 1])
              && forall i :: 0 <= i < |fs| && i != v.present - 1 ==> v.alts[i] == Zero(fs[i].schema)
  {
    if Alternative(fs, Zero(Choice(fs)), bytes, tag) == Ok(v) {
      AlternativeCameBack(fs, v, bytes, tag);
    } else if ParseInto(fs[v.present - 1], Zero(fs[v.present - 1].schema), bytes) == Ok(v.alts[v.present - 1]) &&
              forall i :: 0 <= i < |fs| && i != v.present - 1 ==> v.alts[i] == Zero(fs[i].schema) {
      AlternativeComesBack(fs, v, bytes, tag);
    }
  }

  /** From there the string is read exactly when its own octets give it back and the headers serve. */
  lemma LateIsExact(f: Field, v: Value, tag: uint64, alt: Encoder, u: TagAndLen, bytes: seq<byte>)
    requires Textual(f.schema) && Shaped(f.schema, v, f.params) && MakeField(f.schema, v, f.params) == Ok(alt)
    requires IsHeader(u) && Frames(u, alt) && HeaderOf(Content(alt)) == Ok((u, |Header(u)|))
    requires bytes == Header(TagAndLen(2, true, tag, |Content(alt)|)) + Content(alt)
    requires |Header(u)| <= |bytes| < 0x100_0000
    ensures ParseInto(f, Zero(f.schema), bytes[|Header(u)|..]) == Ok(v)
            <==> CameBack(f.schema, v, f.params) && HeadersServe(f, v, tag)
  {
    var outer, inner, hi := Header(TagAndLen(2, true, tag, |Content(alt)|)), Content(alt), |Header(u)|;
    assert inner == Header(u) + Content(alt.value);
    ServesIsRead(outer, inner, hi, bytes[hi..]);
    ContentsServed(outer, inner, hi, bytes[hi..]);
    if ParseInto(f, Zero(f.schema), bytes[hi..]) == Ok(v) {
      LateIsServed(f, v, alt, u, outer, bytes[hi..]);
    }
    if Serves(outer, inner, hi) {
      ServedIsAlike(f, alt, u, outer, bytes[hi..]);
    }
  }

  lemma LateIsServed(f: Field, v: Value, alt: Encoder, u: TagAndLen, outer: seq<byte>, late: seq<byte>)
    requires Textual(f.schema) && Shaped(f.schema, v, f.params) && MakeField(f.schema, v, f.params) == Ok(alt)
    requires IsHeader(u) && Frames(u, alt) && |late| == |outer| + |Content(alt)| - |Header(u)|
    requires |Content(alt)| == |Header(u)| + |Content(alt.value)|
    requires ParseInto(f, Zero(f.schema), late) == Ok(v)
    ensures OwnHeader(late).Ok? && OwnHeader(late).value.1 == |outer|
  {
    TextualIsPrimitive(f.schema);
    ParsedHasHeader(f.schema, Zero(f.schema), late, f.params);
    LengthIsBack(f.schema, v, f.params, late, f.params);
  }

  lemma ServedIsAlike(f: Field, alt: Encoder, u: TagAndLen, outer: seq<byte>, late: seq<byte>)
    requires Textual(f.schema) && IsHeader(u) && |Content(alt)| == |Header(u)| + u.len
    requires HeaderOf(Content(alt)) == Ok((u, |Header(u)|))
    requires OwnHeader(late).Ok? && OwnHeader(late).value.1 == |outer|
    requires late[|outer|..] == Content(alt)[|Header(u)|..]
    ensures ParseInto(f, Zero(f.schema), late) == ParseInto(f, Zero(f.schema), Content(alt))
  {
    TextualIsPrimitive(f.schema);
    assert OwnHeader(Content(alt)) == Ok((u.tagNumber, |Header(u)|));
    SameContents(f.schema, Zero(f.schema), late, Content(alt), f.params);
  }

  lemma {:induction false} TextualIsPrimitive(s: Schema)
    requires Textual(s)
    ensures PrimitiveInside(s)
  {
    if s.Ptr? || s.Wrapper? {
      TextualIsPrimitive(s.elem);
    }
  }
}
