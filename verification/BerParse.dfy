/** Parsing octets into a target value of a given type: the parser as a function, and the loops that refine it. */
module BerParse {
  import opened Options
  import opened Octets
  import opened BerHeader
  import opened BerSchema

  /** The tag of the element at `offset`, and where the next element starts. */
  function Cut(bytes: seq<byte>, offset: nat): (r: Result<(nat, nat)>)
    requires offset <= |bytes|
    ensures r.Ok? ==> offset + 2 <= r.value.1 <= |bytes|
  {
    var h := HeaderOf(bytes[offset..]);
    if h.Err? then Err(h.error)
    else if offset + h.value.1 + h.value.0.len > |bytes| then Err(Malformed("type value out of range"))
    else Ok((h.value.0.tagNumber, offset + h.value.1 + h.value.0.len))
  }

  /** The first field from `current` on that carries `tag`; the source dereferences each tag on the way. */
  function FindField(fs: seq<Field>, current: nat, tag: nat): (r: Result<nat>)
    requires current <= |fs|
    ensures r.Ok? ==> current <= r.value < |fs| && fs[r.value].params.tag == Some(tag)
    decreases |fs| - current
  {
    if current == |fs| then Err(Malformed("corresponding type not found"))
    else if fs[current].params.tag.None? then Err(GoPanic("nil tag number"))
    else if fs[current].params.tag.value == tag then Ok(current)
    else FindField(fs, current + 1, tag)
  }

  /** The number (from 1) of the first alternative from index `i` on that carries `tag`, or 0. */
  function FindAlt(alts: seq<Field>, i: nat, tag: nat): (present: nat)
    requires i <= |alts|
    ensures present != 0 ==> i < present <= |alts| && alts[present - 1].params.tag == Some(tag)
    decreases |alts| - i
  {
    if i == |alts| then 0
    else if alts[i].params.tag == Some(tag) then i + 1
    else FindAlt(alts, i + 1, tag)
  }

  /** An integer field swallows the error of over-long contents and keeps zero. */
  function IntField(content: seq<byte>): int {
    var r := Int64Of(content);
    if r.Ok? then r.value else 0
  }

  /** Types whose contents are not elements themselves. */
  predicate Primitive(s: Schema) {
    s.BitString? || s.OctetString? || s.Enumerated? || s.Null? || s.Bool? || s.Int? || s.Str?
  }

  /** The value that the contents of a primitive type give. */
  function PrimitiveValue(s: Schema, content: seq<byte>): (r: Result<Value>)
    requires Primitive(s)
  {
    match s
    case BitString =>
      if content == [] then Err(GoPanic("index out of range"))
      else Ok(BitsV(content[1..], ((|content| - 1) * 8 - content[0]) % TWO_TO_64))
    case OctetString => Ok(OctetsV(content))
    case Enumerated => Ok(IntV(IntField(content)))
    case Null => Err(GoPanic("Set of a bool on a NULL"))
    case Bool => if content == [] then Err(GoPanic("index out of range")) else Ok(BoolV(content[0] != 0))
    case Int => Ok(IntV(IntField(content)))
    case Str => Ok(StrV(content))
  }

  /** The value of type `s` left in `target` by parsing `bytes`, if parsing succeeds. */
  function Parse(s: Schema, target: Value, bytes: seq<byte>, p: Params): (r: Result<Value>)
    decreases s, 1
  {
    if s.Ptr? then
      var r := Parse(s.elem, Zero(s.elem), bytes, p);
      if r.Ok? then Ok(Ref(r.value)) else r
    else
      var h := OwnHeader(bytes);
      if h.Err? then Err(h.error)
      else if Primitive(s) then PrimitiveValue(s, bytes[h.value.1..])
      else ParseBody(s, target, bytes, p, h.value.0, h.value.1)
  }

  /** The tag and the size of a header whose contents do not run past the end. */
  function OwnHeader(bytes: seq<byte>): (r: Result<(nat, nat)>)
    ensures r.Ok? ==> 2 <= r.value.1 <= |bytes|
  {
    var h := HeaderOf(bytes);
    if h.Err? then Err(h.error)
    else if h.value.1 + h.value.0.len > |bytes| then Err(Malformed("type value out of range"))
    else Ok((h.value.0.tagNumber, h.value.1))
  }

  /** The part after the header, for the types that contain others. */
  function ParseBody(s: Schema, target: Value, bytes: seq<byte>, p: Params, tag: nat, off: nat): (r: Result<Value>)
    requires !s.Ptr? && !Primitive(s) && off <= |bytes|
    decreases s, 0
  {
    match s
    case Wrapper(e) => Parse(e, target, bytes, p)
    case Choice(alts) => ChoiceValue(alts, target, bytes, p, tag, off)
    case Struct(fs) =>
      if !(target.StructV? && |target.fields| == |fs|) then Err(GoPanic("target is not of the type"))
      else if fs == [] then Err(GoPanic("Field index out of range"))
      else
        var r := ParseFields(fs, p, target.fields, bytes, off, 0);
        if r.Ok? then Ok(StructV(r.value)) else Err(r.error)
    case ListOf(e) => ListValue(e, CutAll(bytes, off, []), p)
  }

  /** A CHOICE takes the alternative with the tag read; a tagged CHOICE first reads a second header, and then takes the
      size of that second header as the offset of the alternative. */
  function ChoiceValue(alts: seq<Field>, target: Value, bytes: seq<byte>, p: Params, tag: nat, off: nat)
    : (r: Result<Value>)
    requires off <= |bytes|
    decreases alts, 0
  {
    if !(target.ChoiceV? && |target.alts| == |alts|) then Err(GoPanic("target is not of the type"))
    else if p.openType then Err(Malformed("OpenType is not implemented"))
    else if p.tag.None? then Alternative(alts, target, bytes, tag)
    else
      var inner := HeaderOf(bytes[off..]);
      if inner.Err? then Err(inner.error)
      else if inner.value.1 + inner.value.0.len > |bytes| then Err(Malformed("type value out of range"))
      else Alternative(alts, target, bytes[inner.value.1..], inner.value.0.tagNumber)
  }

  function Alternative(alts: seq<Field>, target: Value, bytes: seq<byte>, tag: nat): (r: Result<Value>)
    requires target.ChoiceV? && |target.alts| == |alts|
    decreases alts, -1
  {
    var present := FindAlt(alts, 0, tag);
    if present == 0 then Err(Malformed("CHOICE present is 0"))
    else
      var r := ParseInto(alts[present - 1], target.alts[present - 1], bytes);
      if r.Ok? then Ok(ChoiceV(present, target.alts[present - 1 := r.value])) else r
  }

  /** The slice of the values that the pieces parse to. */
  function ListValue(e: Schema, pieces: Result<seq<seq<byte>>>, p: Params): Result<Value>
    decreases e, 4
  {
    if pieces.Err? then Err(pieces.error)
    else
      var r := Collect(Fresh(e, pieces.value, p), |pieces.value|);
      if r.Ok? then Ok(ListV(r.value)) else Err(r.error)
  }

  /** Parsing into a field or an alternative, with its own parameters. */
  function ParseInto(f: Field, target: Value, bytes: seq<byte>): (r: Result<Value>)
    decreases f, 2
  {
    Parse(f.schema, target, bytes, f.params)
  }

  /** The SEQUENCE loop, and with `p.isSet` the SET loop: from `offset` on, each element goes to the field with its tag.
      A SEQUENCE looks for the field from `current` on, a SET among all fields. */
  function ParseFields(fs: seq<Field>, p: Params, vals: seq<Value>, bytes: seq<byte>, offset: nat, current: nat)
      : (r: Result<seq<Value>>)
    requires |vals| == |fs| && offset <= |bytes| && current <= |fs|
    ensures r.Ok? ==> |r.value| == |fs|
    decreases fs, |bytes| - offset, 1
  {
    if offset == |bytes| then Ok(vals)
    else
      var s := ParseElement(fs, p, vals, bytes, offset, current);
      if s.Err? then Err(s.error)
      else ParseFields(fs, p, vals[s.value.field := s.value.value], bytes, s.value.next, s.value.field + 1)
  }

  /** What one round of the loop finds: which field, its new value, and where the next element starts. */
  datatype Element = Element(field: nat, value: Value, next: nat)

  function ParseElement(fs: seq<Field>, p: Params, vals: seq<Value>, bytes: seq<byte>, offset: nat, current: nat)
      : (r: Result<Element>)
    requires |vals| == |fs| && offset < |bytes| && current <= |fs|
    ensures r.Ok? ==> r.value.field < |fs| && offset + 2 <= r.value.next <= |bytes|
    decreases fs, |bytes| - offset, 0
  {
    var cut := Cut(bytes, offset);
    if cut.Err? then Err(cut.error)
    else
      var (tag, next) := cut.value;
      var from := if p.isSet then 0 else current;
      if p.openType && from < |fs| then Err(Malformed("OpenType is not implemented"))
      else
        var c := FindField(fs, from, tag);
        if c.Err? then Err(c.error)
        else
          var v := ParseInto(fs[c.value], vals[c.value], bytes[offset..next]);
          if v.Err? then Err(v.error) else Ok(Element(c.value, v.value, next))
  }

  /** The element octet strings that the slice loop cuts: those it has, and those from `offset` on. */
  function CutAll(bytes: seq<byte>, offset: nat, have: seq<seq<byte>>): (r: Result<seq<seq<byte>>>)
    requires offset <= |bytes|
    decreases |bytes| - offset
  {
    if offset == |bytes| then Ok(have)
    else
      var cut := Cut(bytes, offset);
      if cut.Err? then Err(cut.error)
      else CutAll(bytes, cut.value.1, have + [bytes[offset..cut.value.1]])
  }

  /** The rounds of the loop that fills the new slice; every element is parsed with the parameters of the whole list. */
  function Fresh(e: Schema, pieces: seq<seq<byte>>, p: Params): (rs: seq<Result<Value>>)
    ensures |rs| == |pieces|
    decreases e, 3
  {
    seq(|pieces|, i requires 0 <= i < |pieces| => ParseFresh(e, pieces[i], p))
  }

  /** Parsing one element into a fresh element of the new slice. */
  function ParseFresh(e: Schema, piece: seq<byte>, p: Params): Result<Value>
    decreases e, 2
  {
    Parse(e, Zero(e), piece, p)
  }

  // ---------------------------------------------------------------- single steps

  /** Past the header, parsing is parsing the body. */
  lemma BodyIsParsed(s: Schema, target: Value, bytes: seq<byte>, p: Params, tag: nat, off: nat)
    requires !s.Ptr? && !Primitive(s) && off <= |bytes| && OwnHeader(bytes) == Ok((tag, off))
    ensures Parse(s, target, bytes, p) == ParseBody(s, target, bytes, p, tag, off)
  {
  }

  lemma FieldsStep(fs: seq<Field>, p: Params, vals: seq<Value>, bytes: seq<byte>, lo: nat, current: nat, e: Element)
    requires |vals| == |fs| && lo < |bytes| && current <= |fs|
    requires ParseElement(fs, p, vals, bytes, lo, current) == Ok(e)
    ensures ParseFields(fs, p, vals, bytes, lo, current)
            == ParseFields(fs, p, vals[e.field := e.value], bytes, e.next, e.field + 1)
  {
  }

  /** When the struct loop ends well, so did its first round, with whatever that had to parse, and so did the rest. */
  lemma FieldsWentOn(fs: seq<Field>, p: Params, vals: seq<Value>, bytes: seq<byte>, lo: nat, current: nat,
                     k: nat, hi: nat, r: Result<Value>, rs: seq<Value>)
    requires |vals| == |fs| && lo < |bytes| && current <= |fs|
    requires ParseElement(fs, p, vals, bytes, lo, current)
             == if r.Ok? then Ok(Element(k, r.value, hi)) else Err(r.error)
    requires ParseFields(fs, p, vals, bytes, lo, current) == Ok(rs)
    ensures r.Ok? && k < |fs| && hi <= |bytes|
    ensures ParseFields(fs, p, vals[k := r.value], bytes, hi, k + 1) == Ok(rs)
  {
  }

  lemma CutStep(bytes: seq<byte>, lo: nat, hi: nat, tag: nat, have: seq<seq<byte>>)
    requires lo < hi <= |bytes| && Cut(bytes, lo) == Ok((tag, hi))
    ensures CutAll(bytes, lo, have) == CutAll(bytes, hi, have + [bytes[lo..hi]])
  {
  }

  /** The struct loop stops at an element it cannot place. */
  lemma FieldsStop(fs: seq<Field>, p: Params, vals: seq<Value>, bytes: seq<byte>, lo: nat, current: nat)
    requires |vals| == |fs| && lo < |bytes| && current <= |fs|
    requires ParseElement(fs, p, vals, bytes, lo, current).Err?
    ensures ParseFields(fs, p, vals, bytes, lo, current) == Err(ParseElement(fs, p, vals, bytes, lo, current).error)
  {
  }

  // ---------------------------------------------------------------- the loops

  /** Parses into a target: what the recursive, offset-driven source code does. */
  method ParseField(s: Schema, target: Value, bytes: seq<byte>, p: Params) returns (r: Result<Value>)
    ensures r == Parse(s, target, bytes, p)
    decreases s, 1
  {
    if s.Ptr? {
      var inner := ParseField(s.elem, Zero(s.elem), bytes, p);
      return if inner.Ok? then Ok(Ref(inner.value)) else inner;
    }
    var h := ParseOwnHeader(bytes);
    if h.Err? {
      return Err(h.error);
    }
    if Primitive(s) {
      r := ParsePrimitive(s, bytes[h.value.1..]);
    } else {
      r := ParseConstructed(s, target, bytes, p, h.value.0, h.value.1);
    }
  }

  method ParseOwnHeader(bytes: seq<byte>) returns (r: Result<(nat, nat)>)
    ensures r == OwnHeader(bytes)
  {
    var h := ParseTagAndLength(bytes);
    if h.Err? {
      return Err(h.error);
    }
    var (tal, talOff) := h.value;
    if talOff + tal.len > |bytes| {
      return Err(Malformed("type value out of range"));
    }
    return Ok((tal.tagNumber, talOff));
  }

  method ParseConstructed(s: Schema, target: Value, bytes: seq<byte>, p: Params, tag: nat, talOff: nat)
      returns (r: Result<Value>)
    requires !s.Ptr? && !Primitive(s) && talOff <= |bytes|
    ensures r == ParseBody(s, target, bytes, p, tag, talOff)
    decreases s, 0
  {
    match s
    case Wrapper(e) => r := ParseField(e, target, bytes, p);
    case Choice(alts) => r := ParseChoice(alts, target, bytes, p, tag, talOff);
    case Struct(fs) =>
      if !(target.StructV? && |target.fields| == |fs|) {
        return Err(GoPanic("target is not of the type"));
      }
      if fs == [] {
        return Err(GoPanic("Field index out of range"));
      }
      var vals := ParseStruct(fs, p, target.fields, bytes, talOff);
      r := if vals.Ok? then Ok(StructV(vals.value)) else Err(vals.error);
    case ListOf(e) => r := ParseSlice(e, bytes, talOff, p);
  }

  method ParsePrimitive(s: Schema, content: seq<byte>) returns (r: Result<Value>)
    requires Primitive(s)
    ensures r == PrimitiveValue(s, content)
  {
    match s
    case BitString =>
      if content == [] {
        return Err(GoPanic("index out of range"));
      }
      r := Ok(BitsV(content[1..], ((|content| - 1) * 8 - content[0]) % TWO_TO_64));
    case OctetString => r := Ok(OctetsV(content));
    case Enumerated =>
      var i := ParseInt64(content);
      r := Ok(IntV(if i.Ok? then i.value else 0));
    case Null => r := Err(GoPanic("Set of a bool on a NULL"));
    case Bool =>
      if content == [] {
        return Err(GoPanic("index out of range"));
      }
      r := Ok(BoolV(content[0] != 0));
    case Int =>
      var i := ParseInt64(content);
      r := Ok(IntV(if i.Ok? then i.value else 0));
    case Str => r := Ok(StrV(content));
  }

  method ParseFieldInto(f: Field, target: Value, bytes: seq<byte>) returns (r: Result<Value>)
    ensures r == ParseInto(f, target, bytes)
    decreases f, 2
  {
    r := ParseField(f.schema, target, bytes, f.params);
  }

  method ParseChoice(alts: seq<Field>, target: Value, bytes: seq<byte>, p: Params, tag0: nat, talOff0: nat)
      returns (r: Result<Value>)
    requires talOff0 <= |bytes|
    ensures r == ChoiceValue(alts, target, bytes, p, tag0, talOff0)
    decreases alts, 0
  {
    if !(target.ChoiceV? && |target.alts| == |alts|) {
      return Err(GoPanic("target is not of the type"));
    }
    if p.openType {
      return Err(Malformed("OpenType is not implemented"));
    }
    var tag, offset := tag0, 0;
    if p.tag.Some? {
      var h := ParseTagAndLength(bytes[talOff0..]);
      if h.Err? {
        return Err(h.error);
      }
      tag, offset := h.value.0.tagNumber, h.value.1;
      if offset + h.value.0.len > |bytes| {
        return Err(Malformed("type value out of range"));
      }
    }
    var present := FindAltLoop(alts, tag);
    if present == 0 {
      return Err(Malformed("CHOICE present is 0"));
    }
    assert bytes[0..] == bytes;
    var v := ParseFieldInto(alts[present - 1], target.alts[present - 1], bytes[offset..]);
    return if v.Ok? then Ok(ChoiceV(present, target.alts[present - 1 := v.value])) else v;
  }

  method FindAltLoop(alts: seq<Field>, tag: nat) returns (present: nat)
    ensures present == FindAlt(alts, 0, tag)
  {
    for i := 1 to |alts| + 1
      invariant FindAlt(alts, 0, tag) == FindAlt(alts, i - 1, tag)
    {
      if alts[i - 1].params.tag.Some? && alts[i - 1].params.tag.value == tag {
        return i;
      }
    }
    return 0;
  }

  /** The SEQUENCE and SET loops, setting fields of the target as their elements come. */
  method ParseStruct(fs: seq<Field>, p: Params, vals0: seq<Value>, bytes: seq<byte>, talOff: nat)
      returns (r: Result<seq<Value>>)
    requires |vals0| == |fs| && talOff <= |bytes|
    ensures r == ParseFields(fs, p, vals0, bytes, talOff, 0)
    decreases fs, 1
  {
    var vals := new Value[|fs|](i requires 0 <= i < |fs| => vals0[i]);
    assert vals[..] == vals0;
    var offset: nat, current: nat := talOff, 0;
    while offset < |bytes|
      invariant offset <= |bytes| && current <= |fs|
      invariant ParseFields(fs, p, vals0, bytes, talOff, 0) == ParseFields(fs, p, vals[..], bytes, offset, current)
      decreases |bytes| - offset
    {
      var e := ParseOneField(fs, p, vals, bytes, offset, current);
      if e.Err? {
        return Err(e.error);
      }
      offset, current := e.value.next, e.value.field + 1;
    }
    return Ok(vals[..]);
  }

  /** One round of the loops: cut an element, find its field, and set that field. */
  method ParseOneField(fs: seq<Field>, p: Params, vals: array<Value>, bytes: seq<byte>, offset: nat, current: nat)
      returns (r: Result<Element>)
    requires vals.Length == |fs| && offset < |bytes| && current <= |fs|
    modifies vals
    ensures r == ParseElement(fs, p, old(vals[..]), bytes, offset, current)
    ensures r.Ok? ==> vals[..] == old(vals[..])[r.value.field := r.value.value]
    decreases fs, 0
  {
    var h := ParseTagAndLength(bytes[offset..]);
    if h.Err? {
      return Err(h.error);
    }
    var next := offset + h.value.1 + h.value.0.len;
    if next > |bytes| {
      return Err(Malformed("type value out of range"));
    }
    var c := FindFieldLoop(fs, if p.isSet then 0 else current, h.value.0.tagNumber, p.openType);
    if c.Err? {
      return Err(c.error);
    }
    var v := ParseFieldInto(fs[c.value], vals[c.value], bytes[offset..next]);
    if v.Err? {
      return Err(v.error);
    }
    vals[c.value] := v.value;
    return Ok(Element(c.value, v.value, next));
  }

  method FindFieldLoop(fs: seq<Field>, from: nat, tag: nat, openType: bool) returns (r: Result<nat>)
    requires from <= |fs|
    ensures r == if openType && from < |fs| then Err(Malformed("OpenType is not implemented"))
                 else FindField(fs, from, tag)
  {
    var current := from;
    while current < |fs|
      invariant from <= current <= |fs|
      invariant current > from ==> !openType
      invariant FindField(fs, from, tag) == FindField(fs, current, tag)
    {
      if openType {
        return Err(Malformed("OpenType is not implemented"));
      }
      if fs[current].params.tag.None? {
        return Err(GoPanic("nil tag number"));
      }
      if fs[current].params.tag.value == tag {
        return Ok(current);
      }
      current := current + 1;
    }
    return Err(Malformed("corresponding type not found"));
  }

  /** The first loop of the slice branch: cut all elements. */
  method CutLoop(bytes: seq<byte>, talOff: nat) returns (r: Result<seq<seq<byte>>>)
    requires talOff <= |bytes|
    ensures r == CutAll(bytes, talOff, [])
  {
    var valArray: seq<seq<byte>> := [];
    var offset := talOff;
    while offset < |bytes|
      invariant offset <= |bytes|
      invariant CutAll(bytes, talOff, []) == CutAll(bytes, offset, valArray)
      decreases |bytes| - offset
    {
      var h := ParseTagAndLength(bytes[offset..]);
      if h.Err? {
        return Err(h.error);
      }
      var next := offset + h.value.1 + h.value.0.len;
      if next > |bytes| {
        return Err(Malformed("type value out of range"));
      }
      CutStep(bytes, offset, next, h.value.0.tagNumber, valArray);
      valArray := valArray + [bytes[offset..next]];
      offset := next;
    }
    return Ok(valArray);
  }

  /** The slice branch: cut all elements, then parse each into a new slice. */
  method ParseSlice(e: Schema, bytes: seq<byte>, talOff: nat, p: Params) returns (r: Result<Value>)
    requires talOff <= |bytes|
    ensures r == ListValue(e, CutAll(bytes, talOff, []), p)
    decreases e, 4
  {
    var cut := CutLoop(bytes, talOff);
    if cut.Err? {
      return Err(cut.error);
    }
    var vs := ParseElemLoop(e, cut.value, p);
    return if vs.Ok? then Ok(ListV(vs.value)) else Err(vs.error);
  }

  method ParseFreshElem(e: Schema, piece: seq<byte>, p: Params) returns (r: Result<Value>)
    ensures r == ParseFresh(e, piece, p)
    decreases e, 2
  {
    r := ParseField(e, Zero(e), piece, p);
  }

  method ParseElemLoop(e: Schema, valArray: seq<seq<byte>>, p: Params) returns (r: Result<seq<Value>>)
    ensures r == Collect(Fresh(e, valArray, p), |valArray|)
    decreases e, 3
  {
    var newSlice := new Value[|valArray|](_ => Nil);
    ghost var rounds := Fresh(e, valArray, p);
    for i := 0 to |valArray|
      invariant Collect(rounds, i) == Ok(newSlice[..i])
    {
      var v := ParseFreshElem(e, valArray[i], p);
      assert rounds[i] == v;
      if v.Err? {
        CollectStops(rounds, i, |valArray|);
        return Err(v.error);
      }
      newSlice[i] := v.value;
      assert newSlice[..i + 1] == newSlice[..i] + [v.value];
    }
    assert newSlice[..] == newSlice[..|valArray|];
    return Ok(newSlice[..]);
  }
}
