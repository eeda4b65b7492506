/** What parsing accepts, for any octets and any target, and what it makes of them: each case of the parser against a
    description of the octets. */
module BerReading {
  import opened Options
  import opened Octets
  import opened BerHeader
  import opened BerSchema
  import opened BerParse
  import opened BerFraming

  // ---------------------------------------------------------------- headers

  /** The identifier octets `b` and then `gs` (section 8.1.2 of ITU-T X.690): a class, one bit for constructed, and a
      tag up to 30, or at most nine groups of seven bits, all but the last with their top bit set. */
  predicate IdentifierIs(b: byte, gs: seq<byte>, cls: nat, constructed: bool, tag: nat) {
    && cls == b / 64 && constructed == (b / 32 % 2 == 1)
    && if b % 32 != 31 then gs == [] && tag == b % 32
       else 1 <= |gs| <= 9 && Continues(gs) && tag == GroupNumber(gs)
  }

  /** The length octets (section 8.1.3): one of at most 127, or a count of at most three and as many octets. */
  predicate LengthIs(ls: seq<byte>, len: nat) {
    && ls != []
    && if ls[0] <= 127 then |ls| == 1 && len == ls[0]
       else |ls| == ls[0] - 127 <= 4 && len == Number(ls[1..])
  }

  /** Whatever follows, such octets are read as that header. */
  lemma HeaderIsRead(b: byte, gs: seq<byte>, ls: seq<byte>, rest: seq<byte>, t: TagAndLen)
    requires IdentifierIs(b, gs, t.cls, t.constructed, t.tagNumber) && LengthIs(ls, t.len)
    ensures HeaderOf([b] + gs + ls + rest) == Ok((t, 1 + |gs| + |ls|))
  {
    var bytes := [b] + gs + ls + rest;
    assert bytes[0] == b && bytes[1..1 + |gs|] == gs && bytes[1 + |gs|..1 + |gs| + |ls|] == ls;
    IdentifierIsRead(bytes, gs, t);
    LengthIsRead(bytes, 1 + |gs|, ls, t);
  }

  lemma IdentifierIsRead(bytes: seq<byte>, gs: seq<byte>, t: TagAndLen)
    requires 1 + |gs| <= |bytes| && bytes[1..1 + |gs|] == gs
    requires IdentifierIs(bytes[0], gs, t.cls, t.constructed, t.tagNumber)
    ensures TagPart(bytes) == (t.tagNumber, 1 + |gs|)
  {
    if bytes[0] % 32 == 31 {
      forall i | 0 <= i < |gs| ensures bytes[1 + i] == gs[i] {
        assert bytes[1..1 + |gs|][i] == gs[i];
      }
      GroupNumberBound(gs, |gs|);
      Pow128Grows(|gs|, 9);
      PowersOf128();
      TagLoopReadsGroups(bytes, gs, 0);
    }
  }

  lemma LengthIsRead(bytes: seq<byte>, off: nat, ls: seq<byte>, t: TagAndLen)
    requires 1 <= off && off + |ls| <= |bytes| && bytes[off..off + |ls|] == ls && LengthIs(ls, t.len) && IsHeader(t)
    ensures LengthPart(bytes, t.cls, t.constructed, t.tagNumber, off) == Ok((t, off + |ls|))
  {
    assert bytes[off] == bytes[off..off + |ls|][0];
    assert ls[0] > 127 ==> bytes[off + 1..off + |ls|] == bytes[off..off + |ls|][1..];
  }

  lemma {:induction false} Pow128Grows(j: nat, k: nat)
    requires j <= k
    ensures Pow128(j) <= Pow128(k)
  {
    if j < k {
      Pow128Grows(j, k - 1);
    }
  }

  /** And nothing else is read as a header. */
  lemma HeaderWasRead(bytes: seq<byte>) returns (gs: seq<byte>, ls: seq<byte>)
    requires HeaderOf(bytes).Ok?
    ensures var (t, off) := HeaderOf(bytes).value;
            && off == 1 + |gs| + |ls| <= |bytes| && bytes[..off] == [bytes[0]] + gs + ls
            && IdentifierIs(bytes[0], gs, t.cls, t.constructed, t.tagNumber) && LengthIs(ls, t.len)
  {
    var (t, off) := HeaderOf(bytes).value;
    var mid := TagPart(bytes).1;
    gs, ls := bytes[1..mid], bytes[mid..off];
    IdentifierWasRead(bytes, t.cls, t.constructed);
    LengthWasRead(bytes, t, mid, off);
  }

  lemma IdentifierWasRead(bytes: seq<byte>, cls: nat, constructed: bool)
    requires bytes != [] && TagPart(bytes).1 < |bytes| && (bytes[0] % 32 == 31 ==> TagPart(bytes).1 <= 10)
    requires cls == bytes[0] / 64 && constructed == (bytes[0] / 32 % 2 == 1)
    ensures IdentifierIs(bytes[0], bytes[1..TagPart(bytes).1], cls, constructed, TagPart(bytes).0)
  {
    if bytes[0] % 32 == 31 {
      var gs := bytes[1..TagPart(bytes).1];
      LoopRead(bytes, 0);
      SameGroups(bytes[1..], gs, |gs|);
    }
  }

  lemma LengthWasRead(bytes: seq<byte>, t: TagAndLen, mid: nat, off: nat)
    requires 1 <= mid <= |bytes| && IsHeader(t)
    requires LengthPart(bytes, t.cls, t.constructed, t.tagNumber, mid) == Ok((t, off))
    ensures mid < off <= |bytes| && LengthIs(bytes[mid..off], t.len)
  {
    assert bytes[mid] > 127 ==> bytes[mid..off][1..] == bytes[mid + 1..off];
  }

  /** A loop that stops before the tenth octet, and before the end, has read all groups up to the last one's. */
  lemma {:induction false} LoopRead(bytes: seq<byte>, j: nat)
    requires 1 + j < |bytes|
    requires var o := TagLoop(bytes, 1 + j, GroupNumberTo(bytes[1..], j)).1; o <= 10 && o < |bytes|
    ensures var (v, o) := TagLoop(bytes, 1 + j, GroupNumberTo(bytes[1..], j));
            && 2 + j <= o && v == GroupNumberTo(bytes[1..], o - 1)
            && bytes[o - 1] < 128 && forall i :: 1 + j <= i < o - 1 ==> bytes[i] >= 128
    decreases |bytes| - j
  {
    var gs := bytes[1..];
    GroupNumberBound(gs, j + 1);
    Pow128Grows(j + 1, 9);
    PowersOf128();
    NoBitsLost(GroupNumberTo(gs, j), gs[j], GroupNumberTo(gs, j + 1));
    if bytes[1 + j] >= 128 {
      LoopRead(bytes, j + 1);
    }
  }

  // ---------------------------------------------------------------- primitive types, pointers and wrappers

  /** A pointer gets a fresh target; a wrapper is parsed as what it wraps. */
  lemma PointerIsExact(e: Schema, target: Value, bytes: seq<byte>, p: Params, v: Value)
    ensures Parse(Ptr(e), target, bytes, p) == Ok(v) <==> v.Ref? && Parse(e, Zero(e), bytes, p) == Ok(v.to)
    ensures Parse(Wrapper(e), target, bytes, p) == Ok(v) <==>
              OwnHeader(bytes).Ok? && Parse(e, target, bytes, p) == Ok(v)
  {
  }

  /** What the contents of a primitive type give, all of them up to the end: any octet but 0 is TRUE, up to seven octets
      are an unsigned number, eight a signed one, and more are 0. A NULL is refused, as are a BOOLEAN and a BIT STRING
      without contents. */
  lemma PrimitiveIsExact(s: Schema, target: Value, bytes: seq<byte>, p: Params, off: nat)
    requires Primitive(s) && OwnHeader(bytes).Ok? && off == OwnHeader(bytes).value.1
    ensures var c, r := bytes[off..], Parse(s, target, bytes, p);
            match s
            case Bool => if c == [] then r.Err? else r == Ok(BoolV(c[0] != 0))
            case Int => r == Ok(IntV(Signed(c)))
            case Enumerated => r == Ok(IntV(Signed(c)))
            case BitString =>
              if c == [] then r.Err? else r == Ok(BitsV(c[1..], ((|c| - 1) * 8 - c[0]) % 0x1_0000_0000_0000_0000))
            case OctetString => r == Ok(OctetsV(c))
            case Str => r == Ok(StrV(c))
            case Null => r.Err?
            case _ => true
  {
    SignedIsField(bytes[off..]);
  }

  function Signed(c: seq<byte>): int {
    if |c| > 8 then 0
    else if Number(c) < 0x8000_0000_0000_0000 then Number(c)
    else Number(c) - 0x1_0000_0000_0000_0000
  }

  lemma SignedIsField(c: seq<byte>)
    ensures IntField(c) == Signed(c)
    ensures |c| < 8 ==> Signed(c) == Number(c)
  {
    if |c| <= 8 {
      NumberBound(c);
      PowersOf256();
      Pow256Grows(|c|, 8);
      if |c| < 8 {
        Pow256Grows(|c|, 7);
      }
    }
  }

  lemma {:induction false} Pow256Grows(j: nat, k: nat)
    requires j <= k
    ensures Pow256(j) <= Pow256(k)
  {
    if j < k {
      Pow256Grows(j, k - 1);
    }
  }

  // ---------------------------------------------------------------- CHOICE

  /** The first alternative with the tag, its field parsed, and the others left as they were. */
  ghost predicate Chooses(alts: seq<Field>, vals: seq<Value>, bytes: seq<byte>, tag: nat, v: Value) {
    && |vals| == |alts| && v.ChoiceV? && 1 <= v.present <= |alts|
    && alts[v.present - 1].params.tag == Some(tag)
    && (forall j :: 0 <= j < v.present - 1 ==> alts[j].params.tag != Some(tag))
    && var f := alts[v.present - 1];
       var w := Parse(f.schema, vals[v.present - 1], bytes, f.params);
       w.Ok? && v.alts == vals[v.present - 1 := w.value]
  }

  lemma {:induction false} FirstAlternative(alts: seq<Field>, i: nat, tag: nat)
    requires i <= |alts|
    ensures var k := FindAlt(alts, i, tag);
            if k == 0 then forall j :: i <= j < |alts| ==> alts[j].params.tag != Some(tag)
            else i < k <= |alts| && forall j :: i <= j < k - 1 ==> alts[j].params.tag != Some(tag)
    decreases |alts| - i
  {
    if i < |alts| && alts[i].params.tag != Some(tag) {
      FirstAlternative(alts, i + 1, tag);
    }
  }

  lemma AlternativeIsExact(alts: seq<Field>, vals: seq<Value>, was: int, bytes: seq<byte>, tag: nat, v: Value)
    requires |vals| == |alts|
    ensures Alternative(alts, ChoiceV(was, vals), bytes, tag) == Ok(v) <==> Chooses(alts, vals, bytes, tag, v)
  {
    FirstAlternative(alts, 0, tag);
    var k := FindAlt(alts, 0, tag);
    if Chooses(alts, vals, bytes, tag, v) {
      assert k == v.present;
      assert v == ChoiceV(k, vals[k - 1 := Parse(alts[k - 1].schema, vals[k - 1], bytes, alts[k - 1].params).value]);
    }
  }

  /** The header that selects the alternative: the element's own, or, with a tag around it, the next one. */
  ghost predicate ReadsChoice(alts: seq<Field>, vals: seq<Value>, bytes: seq<byte>, p: Params, v: Value) {
    var own := OwnHeader(bytes);
    && own.Ok? && !p.openType
    && if p.tag.None? then Chooses(alts, vals, bytes, own.value.0, v)
       else
         var inner := HeaderOf(bytes[own.value.1..]);
         && inner.Ok? && inner.value.1 + inner.value.0.len <= |bytes|
         && Chooses(alts, vals, bytes[inner.value.1..], inner.value.0.tagNumber, v)
  }

  /** A CHOICE is parsed exactly if a header selects an alternative, the first with its tag, and that is parsed: from
      the element's start, or, with a tag around it, from as many octets on as the second header takes. */
  lemma ChoiceIsExact(alts: seq<Field>, was: int, vals: seq<Value>, bytes: seq<byte>, p: Params, v: Value)
    requires |vals| == |alts|
    ensures Parse(Choice(alts), ChoiceV(was, vals), bytes, p) == Ok(v) <==> ReadsChoice(alts, vals, bytes, p, v)
  {
    var own := OwnHeader(bytes);
    if own.Ok? {
      BodyIsParsed(Choice(alts), ChoiceV(was, vals), bytes, p, own.value.0, own.value.1);
      if p.tag.None? {
        AlternativeIsExact(alts, vals, was, bytes, own.value.0, v);
      } else {
        var inner := HeaderOf(bytes[own.value.1..]);
        if inner.Ok? && inner.value.1 + inner.value.0.len <= |bytes| {
          AlternativeIsExact(alts, vals, was, bytes[inner.value.1..], inner.value.0.tagNumber, v);
        }
      }
    }
  }

  // ---------------------------------------------------------------- lists

  /** Complete elements that make up the contents, each parsed into a fresh value with the list's parameters. */
  ghost predicate ReadsList(e: Schema, p: Params, contents: seq<byte>, es: seq<seq<byte>>, v: Value) {
    && v.ListV? && |v.elems| == |es| && contents == Flatten(es, |es|)
    && forall i :: 0 <= i < |es| ==> IsElement(es[i]) && Parse(e, Zero(e), es[i], p) == Ok(v.elems[i])
  }

  /** One of complete elements that lie one after the other is cut as such. */
  lemma ElementIsCut(bytes: seq<byte>, base: nat, es: seq<seq<byte>>, k: nat)
    requires k < |es| && HoldsPieces(bytes, base, es) && IsElement(es[k])
    ensures Position(base, es, k) < Position(base, es, k + 1) <= |bytes|
    ensures Cut(bytes, Position(base, es, k)) == Ok((ElementTag(es[k]), Position(base, es, k + 1)))
    ensures bytes[Position(base, es, k)..Position(base, es, k + 1)] == es[k]
  {
    PieceLies(bytes, base, es, k);
    CutsElement(bytes, Position(base, es, k), Position(base, es, k + 1));
  }

  predicate CutsAt(bytes: seq<byte>, es: seq<seq<byte>>, offs: seq<nat>, k: nat)
    requires k < |es| && |offs| == |es| + 1
  {
    && offs[k] < offs[k + 1] <= |bytes| && bytes[offs[k]..offs[k + 1]] == es[k]
    && Cut(bytes, offs[k]).Ok? && Cut(bytes, offs[k]).value.1 == offs[k + 1]
  }

  /** All of them are. */
  lemma {:induction false} CutsChain(bytes: seq<byte>, es: seq<seq<byte>>, offs: seq<nat>, k: nat, have: seq<seq<byte>>)
    requires k <= |es| && |offs| == |es| + 1 && offs[|es|] == |bytes| && have == es[..k]
    requires forall i :: 0 <= i < |es| ==> CutsAt(bytes, es, offs, i)
    ensures offs[k] <= |bytes| && CutAll(bytes, offs[k], have) == Ok(es)
    decreases |es| - k
  {
    if k < |es| {
      assert CutsAt(bytes, es, offs, k);
      CutStep(bytes, offs[k], offs[k + 1], Cut(bytes, offs[k]).value.0, have);
      CutsChain(bytes, es, offs, k + 1, have + [es[k]]);
    } else {
      assert es[..k] == es;
    }
  }

  lemma EndsOf(bytes: seq<byte>, base: nat, es: seq<seq<byte>>)
    requires HoldsPieces(bytes, base, es)
    ensures Positions(base, es)[0] == base && Positions(base, es)[|es|] == |bytes|
  {
  }

  lemma AllAreCut(bytes: seq<byte>, off: nat, es: seq<seq<byte>>)
    requires HoldsPieces(bytes, off, es) && forall i :: 0 <= i < |es| ==> IsElement(es[i])
    ensures CutAll(bytes, off, []) == Ok(es)
  {
    var offs := Positions(off, es);
    forall i | 0 <= i < |es| ensures CutsAt(bytes, es, offs, i) {
      ElementIsCut(bytes, off, es, i);
    }
    EndsOf(bytes, off, es);
    CutsChain(bytes, es, offs, 0, []);
  }

  /** What the parser finds in a list's contents is one of those readings. */
  lemma ListWasRead(e: Schema, target: Value, bytes: seq<byte>, p: Params, off: nat, v: Value)
    returns (es: seq<seq<byte>>)
    requires OwnHeader(bytes).Ok? && off == OwnHeader(bytes).value.1 && Parse(ListOf(e), target, bytes, p) == Ok(v)
    ensures ReadsList(e, p, bytes[off..], es, v)
  {
    BodyIsParsed(ListOf(e), target, bytes, p, OwnHeader(bytes).value.0, off);
    es := CutAll(bytes, off, []).value;
    ListIsFramed(bytes, off);
    assert bytes[off..|bytes|] == bytes[off..];
    Collected(Fresh(e, es, p), |es|);
    forall i | 0 <= i < |es| ensures Parse(e, Zero(e), es[i], p) == Ok(v.elems[i]) {
      assert Fresh(e, es, p)[i] == ParseFresh(e, es[i], p);
    }
  }

  lemma ListIsRead(e: Schema, target: Value, bytes: seq<byte>, p: Params, off: nat, v: Value, es: seq<seq<byte>>)
    requires OwnHeader(bytes).Ok? && off == OwnHeader(bytes).value.1 && ReadsList(e, p, bytes[off..], es, v)
    ensures Parse(ListOf(e), target, bytes, p) == Ok(v)
  {
    BodyIsParsed(ListOf(e), target, bytes, p, OwnHeader(bytes).value.0, off);
    AllAreCut(bytes, off, es);
    PiecesAreRead(e, p, es, v);
  }

  lemma PiecesAreRead(e: Schema, p: Params, es: seq<seq<byte>>, v: Value)
    requires v.ListV? && |v.elems| == |es|
    requires forall i :: 0 <= i < |es| ==> Parse(e, Zero(e), es[i], p) == Ok(v.elems[i])
    ensures ListValue(e, Ok(es), p) == Ok(v)
  {
    var read := Fresh(e, es, p);
    forall i | 0 <= i < |es| ensures read[i] == Ok(v.elems[i]) {
      assert read[i] == ParseFresh(e, es[i], p);
    }
    CollectsAll(read, v.elems, |es|);
    assert v.elems[..|es|] == v.elems;
  }

  /** A list is parsed exactly if its contents are complete elements that are. */
  lemma ListIsExact(e: Schema, target: Value, bytes: seq<byte>, p: Params, off: nat, v: Value)
    requires OwnHeader(bytes).Ok? && off == OwnHeader(bytes).value.1
    ensures Parse(ListOf(e), target, bytes, p) == Ok(v) <==> exists es :: ReadsList(e, p, bytes[off..], es, v)
  {
    if Parse(ListOf(e), target, bytes, p) == Ok(v) {
      var es := ListWasRead(e, target, bytes, p, off, v);
    }
    if es :| ReadsList(e, p, bytes[off..], es, v) {
      ListIsRead(e, target, bytes, p, off, v, es);
    }
  }

  // ---------------------------------------------------------------- SEQUENCE and SET

  /** Element `i` goes to the first field with its tag: in a SET of all fields, in a SEQUENCE of those behind the
      field of the element before; and every field that is passed over has a tag. */
  predicate Placed(fs: seq<Field>, isSet: bool, es: seq<seq<byte>>, cs: seq<nat>, i: nat)
    requires i < |es| == |cs| && IsElement(es[i])
  {
    var from := if isSet || i == 0 then 0 else cs[i - 1] + 1;
    && from <= cs[i] < |fs| && fs[cs[i]].params.tag == Some(ElementTag(es[i]))
    && forall j :: from <= j < cs[i] ==> fs[j].params.tag.Some? && fs[j].params.tag != Some(ElementTag(es[i]))
  }

  /** The fields after the first `k` elements, each parsed into what its field holds by then. */
  function Filled(fs: seq<Field>, vals: seq<Value>, es: seq<seq<byte>>, cs: seq<nat>, k: nat): (r: Option<seq<Value>>)
    requires |vals| == |fs| && k <= |es| == |cs|
    ensures r.Some? ==> |r.value| == |fs|
  {
    if k == 0 then Some(vals)
    else
      var before, c := Filled(fs, vals, es, cs, k - 1), cs[k - 1];
      if before.None? || c >= |fs| then None
      else
        var w := Parse(fs[c].schema, before.value[c], es[k - 1], fs[c].params);
        if w.Ok? then Some(before.value[c := w.value]) else None
  }

  /** Complete elements, each in its place, fill the fields in turn. An open type has no element. */
  ghost predicate Fills(fs: seq<Field>, p: Params, vals: seq<Value>, es: seq<seq<byte>>, cs: seq<nat>, rs: seq<Value>)
    requires |vals| == |fs|
  {
    && |cs| == |es| && (forall i :: 0 <= i < |es| ==> IsElement(es[i])) && (p.openType ==> es == [])
    && (forall i :: 0 <= i < |es| ==> Placed(fs, p.isSet, es, cs, i))
    && Filled(fs, vals, es, cs, |es|) == Some(rs)
  }

  lemma {:induction false} FirstField(fs: seq<Field>, from: nat, tag: nat, c: nat)
    requires from <= |fs|
    ensures FindField(fs, from, tag) == Ok(c) <==>
              && from <= c < |fs| && fs[c].params.tag == Some(tag)
              && (forall j :: from <= j < c ==> fs[j].params.tag.Some? && fs[j].params.tag != Some(tag))
    decreases |fs| - from
  {
    if from < |fs| && fs[from].params.tag.Some? && fs[from].params.tag != Some(tag) {
      FirstField(fs, from + 1, tag, c);
    }
  }

  /** Where a SEQUENCE goes on looking after `k` elements. */
  function Current(cs: seq<nat>, k: nat): nat
    requires k <= |cs|
  {
    if k == 0 then 0 else cs[k - 1] + 1
  }

  /** If all elements could be parsed, so could the first ones. */
  lemma {:induction false} FilledOn(fs: seq<Field>, vals: seq<Value>, es: seq<seq<byte>>, cs: seq<nat>, k: nat, n: nat)
    requires |vals| == |fs| && k <= n <= |es| == |cs|
    requires Filled(fs, vals, es, cs, n).Some?
    ensures Filled(fs, vals, es, cs, k).Some?
    decreases n
  {
    if k < n {
      FilledOn(fs, vals, es, cs, k, n - 1);
    }
  }

  /** At offset `k` a round of the loop takes element `k` to its place. */
  predicate PlacesAt(fs: seq<Field>, p: Params, bytes: seq<byte>, es: seq<seq<byte>>, cs: seq<nat>, offs: seq<nat>,
                     k: nat)
    requires k < |es| == |cs| && |offs| == |es| + 1
  {
    && cs[k] < |fs| && Current(cs, k) <= |fs|
    && offs[k] < offs[k + 1] <= |bytes| && bytes[offs[k]..offs[k + 1]] == es[k]
    && !p.openType && Cut(bytes, offs[k]).Ok? && Cut(bytes, offs[k]).value.1 == offs[k + 1]
    && FindField(fs, if p.isSet then 0 else Current(cs, k), Cut(bytes, offs[k]).value.0) == Ok(cs[k])
  }

  lemma ElementIsPlaced(fs: seq<Field>, p: Params, bytes: seq<byte>, base: nat, es: seq<seq<byte>>, cs: seq<nat>,
                        k: nat)
    requires k < |es| == |cs| && HoldsPieces(bytes, base, es) && IsElement(es[k]) && !p.openType
    requires (k > 0 ==> cs[k - 1] < |fs|) && Placed(fs, p.isSet, es, cs, k)
    ensures PlacesAt(fs, p, bytes, es, cs, Positions(base, es), k)
  {
    ElementIsCut(bytes, base, es, k);
    FirstField(fs, if p.isSet then 0 else Current(cs, k), ElementTag(es[k]), cs[k]);
  }

  lemma RoundFills(fs: seq<Field>, p: Params, vals: seq<Value>, bytes: seq<byte>, es: seq<seq<byte>>, cs: seq<nat>,
                   offs: seq<nat>, k: nat, now: seq<Value>, next: seq<Value>)
    requires |vals| == |fs| == |now| == |next| && k < |es| == |cs| && |offs| == |es| + 1
    requires PlacesAt(fs, p, bytes, es, cs, offs, k)
    requires Filled(fs, vals, es, cs, k) == Some(now) && Filled(fs, vals, es, cs, k + 1) == Some(next)
    ensures ParseFields(fs, p, now, bytes, offs[k], Current(cs, k))
            == ParseFields(fs, p, next, bytes, offs[k + 1], Current(cs, k + 1))
  {
    var c := cs[k];
    var w := Parse(fs[c].schema, now[c], es[k], fs[c].params).value;
    assert ParseInto(fs[c], now[c], bytes[offs[k]..offs[k + 1]]) == Ok(w);
    FieldsStep(fs, p, now, bytes, offs[k], Current(cs, k), Element(c, w, offs[k + 1]));
  }

  /** A round leads from state `k` to the next. */
  predicate RoundAt(fs: seq<Field>, p: Params, bytes: seq<byte>, cs: seq<nat>, offs: seq<nat>, states: seq<seq<Value>>,
                    k: nat)
    requires k < |cs| && |offs| == |cs| + 1 == |states|
  {
    && |states[k]| == |fs| == |states[k + 1]| && offs[k] <= |bytes| && offs[k + 1] <= |bytes|
    && Current(cs, k) <= |fs| && Current(cs, k + 1) <= |fs|
    && ParseFields(fs, p, states[k], bytes, offs[k], Current(cs, k))
       == ParseFields(fs, p, states[k + 1], bytes, offs[k + 1], Current(cs, k + 1))
  }

  lemma {:induction false} RoundsChain(fs: seq<Field>, p: Params, bytes: seq<byte>, cs: seq<nat>, offs: seq<nat>,
                                       states: seq<seq<Value>>, k: nat)
    requires k <= |cs| && |offs| == |cs| + 1 == |states| && offs[|cs|] == |bytes| && |states[|cs|]| == |fs|
    requires forall i :: 0 <= i < |cs| ==> RoundAt(fs, p, bytes, cs, offs, states, i)
    requires Current(cs, |cs|) <= |fs|
    ensures offs[k] <= |bytes| && Current(cs, k) <= |fs| && |states[k]| == |fs|
    ensures ParseFields(fs, p, states[k], bytes, offs[k], Current(cs, k)) == Ok(states[|cs|])
    decreases |cs| - k
  {
    if k < |cs| {
      assert RoundAt(fs, p, bytes, cs, offs, states, k);
      RoundsChain(fs, p, bytes, cs, offs, states, k + 1);
    }
  }

  /** Elements in their places are parsed to the end. */
  lemma FieldsAreRead(fs: seq<Field>, p: Params, vals: seq<Value>, bytes: seq<byte>, base: nat, es: seq<seq<byte>>,
                      cs: seq<nat>, rs: seq<Value>)
    requires |vals| == |fs| && HoldsPieces(bytes, base, es) && Fills(fs, p, vals, es, cs, rs)
    ensures ParseFields(fs, p, vals, bytes, base, 0) == Ok(rs)
  {
    var offs, states := Positions(base, es), States(fs, vals, es, cs);
    forall i | 0 <= i < |es| ensures RoundAt(fs, p, bytes, cs, offs, states, i) {
      assert i > 0 ==> Placed(fs, p.isSet, es, cs, i - 1);
      ElementIsPlaced(fs, p, bytes, base, es, cs, i);
      RoundFills(fs, p, vals, bytes, es, cs, offs, i, states[i], states[i + 1]);
    }
    assert |es| > 0 ==> Placed(fs, p.isSet, es, cs, |es| - 1);
    EndsOf(bytes, base, es);
    RoundsChain(fs, p, bytes, cs, offs, states, 0);
  }

  /** The fields before and after each element. */
  function States(fs: seq<Field>, vals: seq<Value>, es: seq<seq<byte>>, cs: seq<nat>): (states: seq<seq<Value>>)
    requires |vals| == |fs| && |es| == |cs| && Filled(fs, vals, es, cs, |es|).Some?
    ensures |states| == |es| + 1
    ensures forall i :: 0 <= i <= |es| ==> Filled(fs, vals, es, cs, i) == Some(states[i])
  {
    assert forall i :: 0 <= i <= |es| ==> Filled(fs, vals, es, cs, i).Some? by {
      forall i | 0 <= i <= |es| ensures Filled(fs, vals, es, cs, i).Some? {
        FilledOn(fs, vals, es, cs, i, |es|);
      }
    }
    seq(|es| + 1, i requires 0 <= i <= |es| => Filled(fs, vals, es, cs, i).value)
  }

  /** The elements before `offset`, each in its place, and what they fill the fields with. */
  ghost predicate ReadSoFar(fs: seq<Field>, p: Params, vals: seq<Value>, bytes: seq<byte>, base: nat, offset: nat,
                            es: seq<seq<byte>>, cs: seq<nat>, now: seq<Value>)
    requires |vals| == |fs| && base <= offset <= |bytes|
  {
    Covers(es, bytes, base, offset) && Fills(fs, p, vals, es, cs, now)
  }

  /** One element more. */
  lemma OneMoreRead(fs: seq<Field>, p: Params, vals: seq<Value>, bytes: seq<byte>, base: nat, offset: nat,
                    es: seq<seq<byte>>, cs: seq<nat>, now: seq<Value>, e: Element)
    requires |vals| == |fs| == |now| && base <= offset < |bytes|
    requires ReadSoFar(fs, p, vals, bytes, base, offset, es, cs, now) && Current(cs, |cs|) <= |fs|
    requires ParseElement(fs, p, now, bytes, offset, Current(cs, |cs|)) == Ok(e)
    ensures ReadSoFar(fs, p, vals, bytes, base, e.next, es + [bytes[offset..e.next]], cs + [e.field],
                      now[e.field := e.value])
  {
    CutTakesElement(bytes, offset);
    CoversOneMore(es, bytes, base, offset, e.next);
    RoundPlaces(fs, p, bytes, offset, es, cs, now, e);
    OneMoreFilled(fs, p, vals, es, cs, now, bytes[offset..e.next], e);
  }

  /** What a round of the loop finds is the place of the element it takes. */
  lemma RoundPlaces(fs: seq<Field>, p: Params, bytes: seq<byte>, offset: nat, es: seq<seq<byte>>, cs: seq<nat>,
                    now: seq<Value>, e: Element)
    requires |fs| == |now| && offset < |bytes| && |cs| == |es| && Current(cs, |cs|) <= |fs|
    requires ParseElement(fs, p, now, bytes, offset, Current(cs, |cs|)) == Ok(e)
    requires IsElement(bytes[offset..e.next]) && Cut(bytes, offset) == Ok((ElementTag(bytes[offset..e.next]), e.next))
    ensures !p.openType && Placed(fs, p.isSet, es + [bytes[offset..e.next]], cs + [e.field], |es|)
    ensures Parse(fs[e.field].schema, now[e.field], bytes[offset..e.next], fs[e.field].params) == Ok(e.value)
  {
    var from := if p.isSet then 0 else Current(cs, |cs|);
    assert FindField(fs, from, Cut(bytes, offset).value.0) == Ok(e.field);
    FirstField(fs, from, ElementTag(bytes[offset..e.next]), e.field);
  }

  lemma OneMoreFilled(fs: seq<Field>, p: Params, vals: seq<Value>, es: seq<seq<byte>>, cs: seq<nat>, now: seq<Value>,
                      piece: seq<byte>, e: Element)
    requires |vals| == |fs| == |now| && e.field < |fs| && IsElement(piece) && !p.openType
    requires Fills(fs, p, vals, es, cs, now) && Placed(fs, p.isSet, es + [piece], cs + [e.field], |es|)
    requires Parse(fs[e.field].schema, now[e.field], piece, fs[e.field].params) == Ok(e.value)
    ensures Fills(fs, p, vals, es + [piece], cs + [e.field], now[e.field := e.value])
  {
    var es', cs' := es + [piece], cs + [e.field];
    MorePlaced(fs, p.isSet, es, cs, piece, e.field);
    SameFilled(fs, vals, es, cs, es', cs', |es|);
    OneFilled(fs, vals, es', cs', |es|, now, e.value);
  }

  lemma MorePlaced(fs: seq<Field>, isSet: bool, es: seq<seq<byte>>, cs: seq<nat>, piece: seq<byte>, c: nat)
    requires |es| == |cs| && IsElement(piece) && forall i :: 0 <= i < |es| ==> IsElement(es[i])
    requires forall i :: 0 <= i < |es| ==> Placed(fs, isSet, es, cs, i)
    requires Placed(fs, isSet, es + [piece], cs + [c], |es|)
    ensures forall i :: 0 <= i < |es| + 1 ==> IsElement((es + [piece])[i])
    ensures forall i :: 0 <= i < |es| + 1 ==> Placed(fs, isSet, es + [piece], cs + [c], i)
  {
    forall i | 0 <= i < |es| + 1 ensures Placed(fs, isSet, es + [piece], cs + [c], i) {
      assert i < |es| ==> Placed(fs, isSet, es, cs, i);
    }
  }

  lemma OneFilled(fs: seq<Field>, vals: seq<Value>, es: seq<seq<byte>>, cs: seq<nat>, k: nat, now: seq<Value>, w: Value)
    requires |vals| == |fs| == |now| && k < |es| == |cs| && cs[k] < |fs| && Filled(fs, vals, es, cs, k) == Some(now)
    requires Parse(fs[cs[k]].schema, now[cs[k]], es[k], fs[cs[k]].params) == Ok(w)
    ensures Filled(fs, vals, es, cs, k + 1) == Some(now[cs[k] := w])
  {
  }

  lemma {:induction false} SameFilled(fs: seq<Field>, vals: seq<Value>, es: seq<seq<byte>>, cs: seq<nat>,
                                      ds: seq<seq<byte>>, bs: seq<nat>, k: nat)
    requires |vals| == |fs| && k <= |es| == |cs| && k <= |ds| == |bs|
    requires forall i :: 0 <= i < k ==> es[i] == ds[i] && cs[i] == bs[i]
    ensures Filled(fs, vals, es, cs, k) == Filled(fs, vals, ds, bs, k)
  {
    if k > 0 {
      SameFilled(fs, vals, es, cs, ds, bs, k - 1);
    }
  }

  /** What the loop parses to the end are elements in their places. */
  lemma {:induction false} FieldsWereRead(fs: seq<Field>, p: Params, vals: seq<Value>, bytes: seq<byte>, base: nat,
                                          offset: nat, es: seq<seq<byte>>, cs: seq<nat>, now: seq<Value>,
                                          rs: seq<Value>)
    returns (ds: seq<seq<byte>>, bs: seq<nat>)
    requires |vals| == |fs| == |now| && base <= offset <= |bytes| && Current(cs, |cs|) <= |fs|
    requires ReadSoFar(fs, p, vals, bytes, base, offset, es, cs, now)
    requires ParseFields(fs, p, now, bytes, offset, Current(cs, |cs|)) == Ok(rs)
    ensures ReadSoFar(fs, p, vals, bytes, base, |bytes|, ds, bs, rs)
    decreases |bytes| - offset
  {
    if offset == |bytes| {
      ds, bs := es, cs;
    } else {
      var e := ParseElement(fs, p, now, bytes, offset, Current(cs, |cs|)).value;
      OneMoreRead(fs, p, vals, bytes, base, offset, es, cs, now, e);
      ds, bs := FieldsWereRead(fs, p, vals, bytes, base, e.next, es + [bytes[offset..e.next]], cs + [e.field],
                               now[e.field := e.value], rs);
    }
  }

  /** Contents that can be read as elements in their places. */
  ghost predicate ReadsStruct(fs: seq<Field>, p: Params, vals: seq<Value>, contents: seq<byte>, rs: seq<Value>)
    requires |vals| == |fs|
  {
    exists es: seq<seq<byte>>, cs: seq<nat> :: contents == Flatten(es, |es|) && Fills(fs, p, vals, es, cs, rs)
  }

  /** A SEQUENCE or a SET is parsed exactly if its contents are complete elements, each in its place: in a SEQUENCE in
      the order of the fields, in a SET in any order. */
  lemma StructIsExact(fs: seq<Field>, vals: seq<Value>, bytes: seq<byte>, p: Params, off: nat, rs: seq<Value>)
    requires |vals| == |fs| != 0 && OwnHeader(bytes).Ok? && off == OwnHeader(bytes).value.1
    ensures Parse(Struct(fs), StructV(vals), bytes, p) == Ok(StructV(rs)) <==>
              ReadsStruct(fs, p, vals, bytes[off..], rs)
  {
    StructIsParsed(fs, StructV(vals), bytes, p, OwnHeader(bytes).value.0, off);
    if Parse(Struct(fs), StructV(vals), bytes, p) == Ok(StructV(rs)) {
      assert bytes[off..off] == [];
      var es, cs := FieldsWereRead(fs, p, vals, bytes, off, off, [], [], vals, rs);
      assert bytes[off..|bytes|] == bytes[off..];
    }
    if ReadsStruct(fs, p, vals, bytes[off..], rs) {
      var es: seq<seq<byte>>, cs: seq<nat> :| bytes[off..] == Flatten(es, |es|) && Fills(fs, p, vals, es, cs, rs);
      FieldsAreRead(fs, p, vals, bytes, off, es, cs, rs);
    }
  }
}
