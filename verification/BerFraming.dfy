/** How the parser frames elements: cuts are local and exact, and a SET does not depend on the order of its elements. */
module BerFraming {
  import opened Options
  import opened Octets
  import opened BerHeader
  import opened BerSchema
  import opened BerParse

  // ---------------------------------------------------------------- headers are local

  /** A tag loop that stops before the end never looks further. */
  lemma {:induction false} TagLoopIsLocal(a: seq<byte>, b: seq<byte>, off: nat, acc: nat)
    requires IsPrefix(a, b) && off <= |a| && TagLoop(a, off, acc).1 < |a|
    ensures TagLoop(b, off, acc) == TagLoop(a, off, acc)
    decreases |a| - off
  {
    if off < |a| && a[off] >= 128 {
      TagLoopIsLocal(a, b, off + 1, acc * 128 % TWO_TO_64 + a[off] % 128);
    }
  }

  /** A header that parses is parsed the same whatever follows it. */
  lemma HeaderIsLocal(a: seq<byte>, b: seq<byte>)
    requires IsPrefix(a, b) && HeaderOf(a).Ok?
    ensures HeaderOf(b) == HeaderOf(a)
  {
    var off := TagPart(a).1;
    assert off < |a|;
    if a[0] % 32 == 31 {
      TagLoopIsLocal(a, b, 1, 0);
    }
    LengthIsLocal(a, b, a[0] / 64, a[0] / 32 % 2 == 1, TagPart(a).0, off);
  }

  lemma LengthIsLocal(a: seq<byte>, b: seq<byte>, cls: nat, constructed: bool, tag: nat, off: nat)
    requires IsPrefix(a, b) && cls < 4 && tag < TWO_TO_64 && 1 <= off
    requires LengthPart(a, cls, constructed, tag, off).Ok?
    ensures LengthPart(b, cls, constructed, tag, off) == LengthPart(a, cls, constructed, tag, off)
  {
    if a[off] > 127 {
      var n := a[off] - 128;
      assert a[off + 1..off + 1 + n] == b[off + 1..off + 1 + n];
    }
  }

  // ---------------------------------------------------------------- exact framing

  /** A complete element: one header, and exactly the contents it declares. */
  predicate IsElement(e: seq<byte>) {
    var h := HeaderOf(e);
    h.Ok? && h.value.1 + h.value.0.len == |e|
  }

  function ElementTag(e: seq<byte>): nat
    requires IsElement(e)
  {
    HeaderOf(e).value.0.tagNumber
  }

  /** What a successful cut takes is a complete element with the tag reported. */
  lemma CutTakesElement(bytes: seq<byte>, offset: nat)
    requires offset <= |bytes| && Cut(bytes, offset).Ok?
    ensures var (tag, next) := Cut(bytes, offset).value;
            offset + 2 <= next && IsElement(bytes[offset..next]) && ElementTag(bytes[offset..next]) == tag
  {
    var next := Cut(bytes, offset).value.1;
    var a, b := bytes[offset..next], bytes[offset..];
    var h := HeaderOf(b).value;
    HeaderCutsBack(a, b);
  }

  /** A header also parses from any prefix that is long enough to hold it. */
  lemma HeaderCutsBack(a: seq<byte>, b: seq<byte>)
    requires IsPrefix(a, b) && HeaderOf(b).Ok? && |a| >= HeaderOf(b).value.1
    ensures HeaderOf(a) == HeaderOf(b)
  {
    var off := TagPart(b).1;
    assert off < HeaderOf(b).value.1 <= |a|;
    if b[0] % 32 == 31 {
      TagLoopCutsBack(a, b, 1, 0);
    }
    if b[off] > 127 {
      var n := b[off] - 128;
      assert a[off + 1..off + 1 + n] == b[off + 1..off + 1 + n];
    }
  }

  lemma {:induction false} TagLoopCutsBack(a: seq<byte>, b: seq<byte>, off: nat, acc: nat)
    requires IsPrefix(a, b) && off <= |a| && TagLoop(b, off, acc).1 < |a|
    ensures TagLoop(a, off, acc) == TagLoop(b, off, acc)
    decreases |b| - off
  {
    if off < |a| && b[off] >= 128 {
      TagLoopCutsBack(a, b, off + 1, acc * 128 % TWO_TO_64 + b[off] % 128);
    }
  }

  /** The elements are complete and lie one after the other from `base` to `offset`. */
  predicate Covers(es: seq<seq<byte>>, bytes: seq<byte>, base: nat, offset: nat)
    requires base <= offset <= |bytes|
  {
    Flatten(es, |es|) == bytes[base..offset] && forall i :: 0 <= i < |es| ==> IsElement(es[i])
  }

  lemma CoversOneMore(es: seq<seq<byte>>, bytes: seq<byte>, base: nat, offset: nat, next: nat)
    requires base <= offset <= next <= |bytes| && Covers(es, bytes, base, offset) && IsElement(bytes[offset..next])
    ensures Covers(es + [bytes[offset..next]], bytes, base, next)
  {
    FlattenSnoc(es, bytes[offset..next]);
    assert bytes[base..offset] + bytes[offset..next] == bytes[base..next];
  }

  /** The pieces the list loop cuts are complete elements that cover everything from where it starts to the end, with no
      gap and no overlap. */
  lemma ListIsFramed(bytes: seq<byte>, base: nat)
    requires base <= |bytes| && CutAll(bytes, base, []).Ok?
    ensures Covers(CutAll(bytes, base, []).value, bytes, base, |bytes|)
  {
    assert bytes[base..base] == [];
    CutsCover(bytes, base, base, []);
  }

  lemma {:induction false} CutsCover(bytes: seq<byte>, base: nat, offset: nat, have: seq<seq<byte>>)
    requires base <= offset <= |bytes| && CutAll(bytes, offset, have).Ok? && Covers(have, bytes, base, offset)
    ensures Covers(CutAll(bytes, offset, have).value, bytes, base, |bytes|)
    decreases |bytes| - offset
  {
    if offset < |bytes| {
      var next := Cut(bytes, offset).value.1;
      CutTakesElement(bytes, offset);
      CoversOneMore(have, bytes, base, offset, next);
      CutsCover(bytes, base, next, have + [bytes[offset..next]]);
    }
  }

  // ---------------------------------------------------------------- SET

  /** No two elements have the same tag. */
  predicate DifferentTags(es: seq<seq<byte>>) {
    && (forall i :: 0 <= i < |es| ==> IsElement(es[i]))
    && (forall i, j :: 0 <= i < j < |es| ==> ElementTag(es[i]) != ElementTag(es[j]))
  }

  /** Element `e` finds its field, and parses into what that field held at the start. */
  function Assignment(fs: seq<Field>, vals: seq<Value>, e: seq<byte>): (r: Result<(nat, Value)>)
    requires |vals| == |fs| && IsElement(e)
    ensures r.Ok? ==> r.value.0 < |fs| && fs[r.value.0].params.tag == Some(ElementTag(e))
  {
    var c := FindField(fs, 0, ElementTag(e));
    if c.Err? then Err(c.error)
    else
      var v := ParseInto(fs[c.value], vals[c.value], e);
      if v.Err? then Err(v.error) else Ok((c.value, v.value))
  }

  function Assignments(fs: seq<Field>, vals: seq<Value>, es: seq<seq<byte>>): (us: seq<Result<(nat, Value)>>)
    requires |vals| == |fs| && DifferentTags(es)
    ensures |us| == |es| && OwnSlots(us, |fs|)
  {
    var us := seq(|es|, i requires 0 <= i < |es| => Assignment(fs, vals, es[i]));
    assert forall i, j :: 0 <= i < j < |us| && us[i].Ok? && us[j].Ok? ==> us[i].value.0 != us[j].value.0 by {
      forall i, j | 0 <= i < j < |us| && us[i].Ok? && us[j].Ok? ensures us[i].value.0 != us[j].value.0 {
        assert ElementTag(es[i]) != ElementTag(es[j]);
      }
    }
    us
  }

  /** Both fail, or both succeed with the same value. */
  ghost predicate Agree<T>(x: Result<T>, y: Result<T>) {
    x.Ok? == y.Ok? && (x.Ok? ==> x == y)
  }

  // Updates of different slots, some of which may have failed.

  predicate OwnSlots<T>(us: seq<Result<(nat, T)>>, n: nat) {
    && (forall i :: 0 <= i < |us| && us[i].Ok? ==> us[i].value.0 < n)
    && (forall i, j :: 0 <= i < j < |us| && us[i].Ok? && us[j].Ok? ==> us[i].value.0 != us[j].value.0)
  }

  /** Making the first `k` updates in turn, stopping at one that failed. */
  function Apply<T>(vals: seq<T>, us: seq<Result<(nat, T)>>, k: nat): (r: Result<seq<T>>)
    requires k <= |us| && OwnSlots(us, |vals|)
    ensures r.Ok? ==> |r.value| == |vals|
  {
    if k == 0 then Ok(vals)
    else
      var front := Apply(vals, us, k - 1);
      if front.Err? then front
      else if us[k - 1].Err? then Err(us[k - 1].error)
      else Ok(front.value[us[k - 1].value.0 := us[k - 1].value.1])
  }

  /** Every one of the updates has been made, and nothing else: no order is involved. */
  ghost predicate Updated<T(!new)>(vals: seq<T>, us: seq<Result<(nat, T)>>, r: seq<T>)
    requires |r| == |vals| && OwnSlots(us, |vals|)
  {
    && (forall u :: u in us ==> u.Ok? && u.value.0 < |r| && r[u.value.0] == u.value.1)
    && (forall c :: 0 <= c < |vals| && (forall u :: u in us && u.Ok? ==> u.value.0 != c) ==> r[c] == vals[c])
  }

  ghost predicate AllOk<T(!new)>(us: seq<Result<T>>) {
    forall u :: u in us ==> u.Ok?
  }

  /** Making the updates in turn goes through exactly when none failed, and then has made them all. */
  lemma {:induction false} AppliedMeansUpdated<T(!new)>(vals: seq<T>, us: seq<Result<(nat, T)>>, k: nat)
    requires k <= |us| && OwnSlots(us, |vals|)
    ensures OwnSlots(us[..k], |vals|)
    ensures Apply(vals, us, k).Ok? <==> AllOk(us[..k])
    ensures Apply(vals, us, k).Ok? ==> Updated(vals, us[..k], Apply(vals, us, k).value)
  {
    if k > 0 {
      AppliedMeansUpdated(vals, us, k - 1);
      assert us[..k] == us[..k - 1] + [us[k - 1]];
      assert forall u :: u in us[..k] <==> u in us[..k - 1] || u == us[k - 1];
      if Apply(vals, us, k).Ok? {
        OneMoreUpdate(vals, us, k, Apply(vals, us, k - 1).value);
      }
    }
  }

  lemma OneMoreUpdate<T(!new)>(vals: seq<T>, us: seq<Result<(nat, T)>>, k: nat, r: seq<T>)
    requires 0 < k <= |us| && |r| == |vals|
    requires OwnSlots(us, |vals|) && OwnSlots(us[..k - 1], |vals|) && OwnSlots(us[..k], |vals|)
    requires Updated(vals, us[..k - 1], r) && us[k - 1].Ok?
    ensures Updated(vals, us[..k], r[us[k - 1].value.0 := us[k - 1].value.1])
  {
    var last := us[k - 1];
    var next := r[last.value.0 := last.value.1];
    LastMember(us, k);
    forall u | u in us[..k] ensures u.Ok? && u.value.0 < |r| && next[u.value.0] == u.value.1 {
      assert u in us[..k - 1] || u == last;
    }
    forall c | 0 <= c < |vals| && (forall u :: u in us[..k] && u.Ok? ==> u.value.0 != c) ensures next[c] == vals[c] {
      assert last in us[..k];
      assert forall u :: u in us[..k - 1] && u.Ok? ==> u.value.0 != c;
    }
  }

  lemma LastMember<T>(us: seq<T>, k: nat)
    requires 0 < k <= |us|
    ensures forall u :: u in us[..k] <==> u in us[..k - 1] || u == us[k - 1]
  {
    assert us[..k] == us[..k - 1] + [us[k - 1]];
  }

  ghost predicate SameMembers<T(!new)>(us: seq<T>, ws: seq<T>) {
    forall u :: u in us <==> u in ws
  }

  /** The same updates in another order leave the same slots. */
  lemma UpdatesCommute<T(!new)>(vals: seq<T>, us: seq<Result<(nat, T)>>, ws: seq<Result<(nat, T)>>)
    requires OwnSlots(us, |vals|) && OwnSlots(ws, |vals|) && SameMembers(us, ws)
    ensures Agree(Apply(vals, us, |us|), Apply(vals, ws, |ws|))
  {
    AppliedMeansUpdated(vals, us, |us|);
    AppliedMeansUpdated(vals, ws, |ws|);
    assert us[..|us|] == us && ws[..|ws|] == ws;
    if Apply(vals, us, |us|).Ok? {
      UpdatedOnce(vals, us, ws, Apply(vals, us, |us|).value, Apply(vals, ws, |ws|).value);
    }
  }

  lemma UpdatedOnce<T(!new)>(vals: seq<T>, us: seq<Result<(nat, T)>>, ws: seq<Result<(nat, T)>>, x: seq<T>, y: seq<T>)
    requires |x| == |y| == |vals| && OwnSlots(us, |vals|) && OwnSlots(ws, |vals|) && SameMembers(us, ws)
    requires Updated(vals, us, x) && Updated(vals, ws, y)
    ensures x == y
  {
    forall c | 0 <= c < |vals| ensures x[c] == y[c] {
      if u :| u in us && u.Ok? && u.value.0 == c {
        assert u in ws;
      } else {
        assert forall u :: u in ws && u.Ok? ==> u in us && u.value.0 != c;
      }
    }
  }

  /** A failed update stops all that come after it. */
  lemma {:induction false} ApplyStops<T>(vals: seq<T>, us: seq<Result<(nat, T)>>, i: nat, k: nat)
    requires i < k <= |us| && OwnSlots(us, |vals|) && us[i].Err?
    ensures Apply(vals, us, k).Err?
  {
    if k > i + 1 {
      ApplyStops(vals, us, i, k - 1);
    }
  }

  /** Cutting at the position of a complete element takes exactly that element. */
  lemma CutsElement(bytes: seq<byte>, lo: nat, hi: nat)
    requires lo <= hi <= |bytes| && IsElement(bytes[lo..hi])
    ensures lo + 2 <= hi && Cut(bytes, lo) == Ok((ElementTag(bytes[lo..hi]), hi))
  {
    HeaderIsLocal(bytes[lo..hi], bytes[lo..]);
  }

  /** The elements' assignments, as updates of the target's fields. */
  ghost predicate AreAssignments(fs: seq<Field>, vals: seq<Value>, es: seq<seq<byte>>, us: seq<Result<(nat, Value)>>)
    requires |vals| == |fs|
  {
    && DifferentTags(es) && |us| == |es| && OwnSlots(us, |fs|)
    && forall i :: 0 <= i < |es| ==> us[i] == Assignment(fs, vals, es[i])
  }

  /** One round of the SET loop makes the assignment of the next element, whatever the earlier ones were. */
  lemma RoundAssigns(fs: seq<Field>, p: Params, vals: seq<Value>, now: seq<Value>, bytes: seq<byte>, base: nat,
                     es: seq<seq<byte>>, us: seq<Result<(nat, Value)>>, k: nat, current: nat)
    requires |vals| == |fs| == |now| && current <= |fs| && p.isSet && !p.openType && k < |es|
    requires HoldsPieces(bytes, base, es) && AreAssignments(fs, vals, es, us) && Apply(vals, us, k) == Ok(now)
    ensures Position(base, es, k) < |bytes|
    ensures ParseElement(fs, p, now, bytes, Position(base, es, k), current)
            == if us[k].Err? then Err(us[k].error)
               else Ok(Element(us[k].value.0, us[k].value.1, Position(base, es, k + 1)))
  {
    var lo, hi := Position(base, es, k), Position(base, es, k + 1);
    PieceLies(bytes, base, es, k);
    CutsElement(bytes, lo, hi);
    var c := FindField(fs, 0, ElementTag(es[k]));
    if c.Ok? {
      StillUntouched(fs, vals, now, es, us, k, c.value);
    }
  }

  /** The field of element `k` still holds its first value when the elements before it have been assigned. */
  lemma StillUntouched(fs: seq<Field>, vals: seq<Value>, now: seq<Value>, es: seq<seq<byte>>,
                       us: seq<Result<(nat, Value)>>,
                       k: nat, c: nat)
    requires |vals| == |fs| == |now| && k < |es| && AreAssignments(fs, vals, es, us) && Apply(vals, us, k) == Ok(now)
    requires c < |fs| && fs[c].params.tag == Some(ElementTag(es[k]))
    ensures now[c] == vals[c]
  {
    AppliedMeansUpdated(vals, us, k);
    forall u | u in us[..k] && u.Ok? ensures u.value.0 != c {
      var i :| 0 <= i < k && us[i] == u;
      assert us[i] == Assignment(fs, vals, es[i]);
      assert ElementTag(es[i]) != ElementTag(es[k]);
    }
  }

  /** At offset `k`, in the state that the first `k` updates leave, a round of the loop finds update `k`. */
  ghost predicate SetStep(fs: seq<Field>, p: Params, vals: seq<Value>, bytes: seq<byte>, offs: seq<nat>,
                          us: seq<Result<(nat, Value)>>, k: nat)
    requires |vals| == |fs| && OwnSlots(us, |fs|) && k < |us| && |offs| == |us| + 1
  {
    && offs[k] < |bytes|
    && forall now: seq<Value>, c: nat :: c <= |fs| && Apply(vals, us, k) == Ok(now) ==>
         ParseElement(fs, p, now, bytes, offs[k], c)
         == if us[k].Err? then Err(us[k].error) else Ok(Element(us[k].value.0, us[k].value.1, offs[k + 1]))
  }

  /** Rounds chain into a run of the SET loop. */
  lemma {:induction false} SetStepsChain(fs: seq<Field>, p: Params, vals: seq<Value>, bytes: seq<byte>, offs: seq<nat>,
                                         us: seq<Result<(nat, Value)>>, now: seq<Value>, k: nat, current: nat)
    requires |vals| == |fs| == |now| && OwnSlots(us, |fs|) && |offs| == |us| + 1 && k <= |us| && current <= |fs|
    requires offs[k] <= |bytes| == offs[|us|] && Apply(vals, us, k) == Ok(now)
    requires forall i :: 0 <= i < |us| ==> SetStep(fs, p, vals, bytes, offs, us, i)
    ensures Agree(ParseFields(fs, p, now, bytes, offs[k], current), Apply(vals, us, |us|))
    decreases |us| - k
  {
    if k < |us| {
      assert SetStep(fs, p, vals, bytes, offs, us, k);
      if us[k].Err? {
        SetStepFails(fs, p, vals, bytes, offs, us, now, k, current);
      } else {
        var next := now[us[k].value.0 := us[k].value.1];
        SetStepGoesOn(fs, p, vals, bytes, offs, us, now, next, k, current);
        SetStepsChain(fs, p, vals, bytes, offs, us, next, k + 1, us[k].value.0 + 1);
      }
    }
  }

  lemma ApplyOn<T>(vals: seq<T>, us: seq<Result<(nat, T)>>, k: nat, now: seq<T>)
    requires k < |us| && OwnSlots(us, |vals|) && Apply(vals, us, k) == Ok(now) && us[k].Ok?
    ensures Apply(vals, us, k + 1) == Ok(now[us[k].value.0 := us[k].value.1])
  {
  }

  lemma SetStepGoesOn(fs: seq<Field>, p: Params, vals: seq<Value>, bytes: seq<byte>, offs: seq<nat>,
                      us: seq<Result<(nat, Value)>>, now: seq<Value>, next: seq<Value>, k: nat, current: nat)
    requires |vals| == |fs| == |now| && OwnSlots(us, |fs|) && |offs| == |us| + 1 && k < |us| && current <= |fs|
    requires Apply(vals, us, k) == Ok(now) && SetStep(fs, p, vals, bytes, offs, us, k) && us[k].Ok?
    requires next == now[us[k].value.0 := us[k].value.1]
    ensures offs[k + 1] <= |bytes| && Apply(vals, us, k + 1) == Ok(next)
    ensures ParseFields(fs, p, now, bytes, offs[k], current)
            == ParseFields(fs, p, next, bytes, offs[k + 1], us[k].value.0 + 1)
  {
    FieldsStep(fs, p, now, bytes, offs[k], current, Element(us[k].value.0, us[k].value.1, offs[k + 1]));
    ApplyOn(vals, us, k, now);
  }

  lemma SetStepFails(fs: seq<Field>, p: Params, vals: seq<Value>, bytes: seq<byte>, offs: seq<nat>,
                     us: seq<Result<(nat, Value)>>, now: seq<Value>, k: nat, current: nat)
    requires |vals| == |fs| == |now| && OwnSlots(us, |fs|) && |offs| == |us| + 1 && k < |us| && current <= |fs|
    requires Apply(vals, us, k) == Ok(now) && SetStep(fs, p, vals, bytes, offs, us, k) && us[k].Err?
    ensures Agree(ParseFields(fs, p, now, bytes, offs[k], current), Apply(vals, us, |us|))
  {
    FieldsStop(fs, p, now, bytes, offs[k], current);
    ApplyStops(vals, us, k, |us|);
  }

  lemma SetStepsHold(fs: seq<Field>, p: Params, vals: seq<Value>, bytes: seq<byte>, base: nat, es: seq<seq<byte>>,
                     us: seq<Result<(nat, Value)>>, k: nat)
    requires |vals| == |fs| && p.isSet && !p.openType && k < |es|
    requires HoldsPieces(bytes, base, es) && AreAssignments(fs, vals, es, us)
    ensures SetStep(fs, p, vals, bytes, Positions(base, es), us, k)
  {
    var offs := Positions(base, es);
    var lo, hi := Position(base, es, k), Position(base, es, k + 1);
    assert offs[k] == lo && offs[k + 1] == hi;
    PositionInside(bytes, base, es, k);
    forall now: seq<Value>, c: nat | c <= |fs| && Apply(vals, us, k) == Ok(now)
      ensures ParseElement(fs, p, now, bytes, lo, c)
              == if us[k].Err? then Err(us[k].error) else Ok(Element(us[k].value.0, us[k].value.1, hi))
    {
      RoundAssigns(fs, p, vals, now, bytes, base, es, us, k, c);
    }
  }

  lemma PositionInside(bytes: seq<byte>, base: nat, es: seq<seq<byte>>, k: nat)
    requires HoldsPieces(bytes, base, es) && DifferentTags(es) && k < |es|
    ensures Position(base, es, k) < |bytes|
  {
    PieceLies(bytes, base, es, k);
    CutsElement(bytes, Position(base, es, k), Position(base, es, k + 1));
  }

  /** The SET loop makes the assignments of all elements. */
  lemma SetLoopAssigns(fs: seq<Field>, p: Params, vals: seq<Value>, bytes: seq<byte>, base: nat, es: seq<seq<byte>>,
                       us: seq<Result<(nat, Value)>>)
    requires |vals| == |fs| && p.isSet && !p.openType
    requires HoldsPieces(bytes, base, es) && AreAssignments(fs, vals, es, us)
    ensures Agree(ParseFields(fs, p, vals, bytes, base, 0), Apply(vals, us, |us|))
  {
    forall k | 0 <= k < |us| ensures SetStep(fs, p, vals, bytes, Positions(base, es), us, k) {
      SetStepsHold(fs, p, vals, bytes, base, es, us, k);
    }
    SetStepsChain(fs, p, vals, bytes, Positions(base, es), us, vals, 0, 0);
  }

  /** A permutation of elements with different tags has different tags, too. */
  lemma PermutedTagsDiffer(es: seq<seq<byte>>, ds: seq<seq<byte>>)
    requires DifferentTags(es) && multiset(es) == multiset(ds)
    ensures DifferentTags(ds) && SameMembers(es, ds)
  {
    PermutedMembers(es, ds);
    forall i | 0 <= i < |ds| ensures IsElement(ds[i]) {
      assert ds[i] in es;
    }
    forall i, j | 0 <= i < j < |ds| ensures ElementTag(ds[i]) != ElementTag(ds[j]) {
      assert ds[i] in es && ds[j] in es;
      var a :| 0 <= a < |es| && es[a] == ds[i];
      var b :| 0 <= b < |es| && es[b] == ds[j];
      CountsOnce(es, a, |es|);
      assert es[..|es|] == es;
      if a == b {
        CountsTwice(ds, i, j);
      }
    }
  }

  lemma PermutedMembers<T(!new)>(s: seq<T>, t: seq<T>)
    requires multiset(s) == multiset(t)
    ensures SameMembers(s, t)
  {
    forall x ensures x in s <==> x in t {
      assert x in multiset(s) <==> x in multiset(t);
    }
  }

  lemma CountsTwice<T>(s: seq<T>, i: nat, j: nat)
    requires i < j < |s| && s[i] == s[j]
    ensures multiset(s)[s[i]] >= 2
  {
    assert s == s[..j] + [s[j]] + s[j + 1..];
    assert s[i] in s[..j];
  }

  lemma {:induction false} CountsOnce(es: seq<seq<byte>>, a: nat, k: nat)
    requires a < |es| && k <= |es| && DifferentTags(es)
    ensures multiset(es[..k])[es[a]] <= 1
    ensures a >= k ==> multiset(es[..k])[es[a]] == 0
  {
    if k > 0 {
      CountsOnce(es, a, k - 1);
      CountOfSnoc(es, k, es[a]);
      assert a != k - 1 ==> es[a] != es[k - 1];
    }
  }

  lemma CountOfSnoc<T>(s: seq<T>, k: nat, x: T)
    requires 0 < k <= |s|
    ensures multiset(s[..k])[x] == multiset(s[..k - 1])[x] + if s[k - 1] == x then 1 else 0
  {
    assert s[..k] == s[..k - 1] + [s[k - 1]];
  }

  /** SET decoding does not depend on the order of the elements (section 8.11 of ITU-T X.690): under the same header,
      any permutation of complete elements with different tags leaves the same value in the same target, or none. */
  lemma SetOrderIsIrrelevant(fs: seq<Field>, target: Value, p: Params, header: seq<byte>, es: seq<seq<byte>>,
                             ds: seq<seq<byte>>)
    requires p.isSet && !p.openType && DifferentTags(es) && multiset(es) == multiset(ds)
    requires OwnHeader(header + Flatten(es, |es|)).Ok? && OwnHeader(header + Flatten(es, |es|)).value.1 == |header|
    ensures Agree(Parse(Struct(fs), target, header + Flatten(es, |es|), p),
                  Parse(Struct(fs), target, header + Flatten(ds, |ds|), p))
  {
    var a, b := header + Flatten(es, |es|), header + Flatten(ds, |ds|);
    var (tag, off) := OwnHeader(a).value;
    PermutedLength(es, ds);
    SameHeader(header, Flatten(es, |es|), Flatten(ds, |ds|));
    StructIsParsed(fs, target, a, p, tag, off);
    StructIsParsed(fs, target, b, p, tag, off);
    if target.StructV? && |target.fields| == |fs| && fs != [] {
      PermutedTagsDiffer(es, ds);
      DropHeader(header, Flatten(es, |es|));
      DropHeader(header, Flatten(ds, |ds|));
      FieldsIgnoreOrder(fs, p, target.fields, a, b, off, es, ds);
    }
  }

  /** A header does not depend on what follows it, but for its length. */
  lemma SameHeader(header: seq<byte>, x: seq<byte>, y: seq<byte>)
    requires |x| == |y| && OwnHeader(header + x).Ok? && OwnHeader(header + x).value.1 == |header|
    ensures OwnHeader(header + y) == OwnHeader(header + x)
  {
    HeaderCutsBack(header, header + x);
    HeaderIsLocal(header, header + y);
  }

  /** Permuted pieces are as long together. */
  lemma {:induction false} PermutedLength<T>(es: seq<seq<T>>, ds: seq<seq<T>>)
    requires multiset(es) == multiset(ds)
    ensures |Flatten(es, |es|)| == |Flatten(ds, |ds|)|
    decreases |es|
  {
    assert |es| == |multiset(es)| == |multiset(ds)| == |ds|;
    if es != [] {
      var n := |es| - 1;
      var j := IndexIn(es, ds, n);
      var rest := ds[..j] + ds[j + 1..];
      WithoutOne(es, n);
      WithoutOne(ds, j);
      assert es[..n] + es[n + 1..] == es[..n];
      PermutedLength(es[..n], rest);
      FlattenPrefix(es, es[..n], n);
      TakenOut(ds, j, |ds|);
    }
  }

  lemma IndexIn<T>(es: seq<T>, ds: seq<T>, n: nat) returns (j: nat)
    requires multiset(es) == multiset(ds) && n < |es|
    ensures j < |ds| && ds[j] == es[n]
  {
    assert es[n] in multiset(ds);
    j :| 0 <= j < |ds| && ds[j] == es[n];
  }

  lemma WithoutOne<T>(es: seq<T>, j: nat)
    requires j < |es|
    ensures multiset(es[..j] + es[j + 1..]) == multiset(es) - multiset([es[j]])
  {
    assert es == es[..j] + [es[j]] + es[j + 1..];
  }

  lemma {:induction false} TakenOut<T>(ds: seq<seq<T>>, j: nat, k: nat)
    requires j < k <= |ds|
    ensures |Flatten(ds, k)| == |Flatten(ds[..j] + ds[j + 1..], k - 1)| + |ds[j]|
    decreases k
  {
    var rest := ds[..j] + ds[j + 1..];
    if k == j + 1 {
      FlattenPrefix(ds, rest, j);
    } else {
      TakenOut(ds, j, k - 1);
      assert rest[k - 2] == ds[k - 1];
    }
  }

  lemma StructIsParsed(fs: seq<Field>, target: Value, bytes: seq<byte>, p: Params, tag: nat, off: nat)
    requires off <= |bytes| && OwnHeader(bytes) == Ok((tag, off))
    ensures Parse(Struct(fs), target, bytes, p)
            == if !(target.StructV? && |target.fields| == |fs|) then Err(GoPanic("target is not of the type"))
               else if fs == [] then Err(GoPanic("Field index out of range"))
               else
                 var r := ParseFields(fs, p, target.fields, bytes, off, 0);
                 if r.Ok? then Ok(StructV(r.value)) else Err(r.error)
  {
    BodyIsParsed(Struct(fs), target, bytes, p, tag, off);
  }

  lemma DropHeader<T>(h: seq<T>, c: seq<T>)
    ensures (h + c)[|h|..] == c
  {
  }

  lemma FieldsIgnoreOrder(fs: seq<Field>, p: Params, vals: seq<Value>, a: seq<byte>, b: seq<byte>, base: nat,
                          es: seq<seq<byte>>, ds: seq<seq<byte>>)
    requires |vals| == |fs| && p.isSet && !p.openType && DifferentTags(es) && DifferentTags(ds)
    requires HoldsPieces(a, base, es) && HoldsPieces(b, base, ds) && SameMembers(es, ds)
    ensures Agree(ParseFields(fs, p, vals, a, base, 0), ParseFields(fs, p, vals, b, base, 0))
  {
    var us, ws := Assignments(fs, vals, es), Assignments(fs, vals, ds);
    SetLoopAssigns(fs, p, vals, a, base, es, us);
    SetLoopAssigns(fs, p, vals, b, base, ds, ws);
    forall u ensures u in us <==> u in ws {
      if u in us {
        AssignmentCarriesOver(fs, vals, es, ds, u);
      }
      if u in ws {
        AssignmentCarriesOver(fs, vals, ds, es, u);
      }
    }
    UpdatesCommute(vals, us, ws);
  }

  lemma AssignmentCarriesOver(fs: seq<Field>, vals: seq<Value>, es: seq<seq<byte>>, ds: seq<seq<byte>>,
                              u: Result<(nat, Value)>)
    requires |vals| == |fs| && DifferentTags(es) && DifferentTags(ds) && SameMembers(es, ds)
    requires u in Assignments(fs, vals, es)
    ensures u in Assignments(fs, vals, ds)
  {
    var us, ws := Assignments(fs, vals, es), Assignments(fs, vals, ds);
    var i :| 0 <= i < |us| && us[i] == u;
    assert es[i] in es;
    var j :| 0 <= j < |ds| && ds[j] == es[i];
    assert ws[j] == u;
  }
}
