/** Finding a connection by the IDs in a message, and the local release when they are erroneous. */
module NgapLookup {
  import opened NgapObjects
  import opened NgapRegistry
  import opened NgapMoves

  // ---------------------------------------------------------------- releasing by an erroneous ID

  /** The connection lets go of its UE, and the UE of it, if it is the one the UE holds for this RAN's access type. */
  function LetGo(g: Registry, r: AmfRan, u: RanUe): (h: Registry)
    requires Closed(g) && u in g.ues
  {
    var a := g.ues[u].amf;
    assert UeClosed(g, u);
    var held := a != null && r.anType in g.slots[a] && g.slots[a][r.anType] == u;
    SetAmf(if held then GiveUp(g, a, r.anType) else g, u, null)
  }

  function GiveUp(g: Registry, a: AmfUe, t: AccessType): (h: Registry)
    requires a in g.slots
  {
    g.(slots := g.slots[a := g.slots[a] - {t}])
  }

  lemma GiveUpCloses(g: Registry, a: AmfUe, t: AccessType)
    requires Closed(g) && a in g.slots
    ensures Closed(GiveUp(g, a, t))
  {
    var h := GiveUp(g, a, t);
    forall b | b in h.slots ensures SlotsClosed(h, b) {
      assert SlotsClosed(g, b);
    }
  }

  lemma SetAmfCloses(g: Registry, u: RanUe)
    requires Closed(g) && u in g.ues
    ensures Closed(SetAmf(g, u, null))
  {
    assert UeClosed(g, u);
  }

  lemma LetGoCloses(g: Registry, r: AmfRan, u: RanUe)
    requires Closed(g) && u in g.ues
    ensures Closed(LetGo(g, r, u)) && u in LetGo(g, r, u).ues
  {
    var a := g.ues[u].amf;
    assert UeClosed(g, u);
    if a != null && r.anType in g.slots[a] && g.slots[a][r.anType] == u {
      GiveUpCloses(g, a, r.anType);
      SetAmfCloses(GiveUp(g, a, r.anType), u);
    } else {
      SetAmfCloses(g, u);
    }
  }

  /** `removeRanUeByInvalidId` for a connection that was found. */
  function RemoveByInvalidId(g: Registry, r: AmfRan, u: RanUe): (h: Registry)
    requires Closed(g) && u in g.ues
  {
    LetGoCloses(g, r, u);
    Remove(LetGo(g, r, u), u)
  }

  lemma LetGoSlots(g: Registry, r: AmfRan, u: RanUe)
    requires Inv(g) && Live(g, u) && g.ues[u].ran == r
    ensures LetGo(g, r, u).slots == Without(g, {u}).slots
  {
    forall a | a in g.slots
      ensures SlotsWithout(g.slots[a], {u}) ==
              if a == g.ues[u].amf && Held(g, u) then g.slots[a] - {r.anType} else g.slots[a]
    {
      forall t | t in g.slots[a] ensures g.slots[a][t] == u <==> a == g.ues[u].amf && t == r.anType && Held(g, u) {
        assert SlotOk(g, a, t);
      }
    }
  }

  /** Looking first whether the UE holds the connection, this release takes out just that one; plain removal does so
      only if the connection claims no place of another. */
  lemma RemoveByInvalidIdIsExact(g: Registry, r: AmfRan, u: RanUe)
    requires Inv(g) && Live(g, u) && g.ues[u].ran == r
    ensures RemoveByInvalidId(g, r, u) == Without(g, {u})
    ensures RemoveByInvalidId(g, r, u) == Remove(g, u) <==> OnlyOwnPlaces(g, {u})
  {
    LetGoSlots(g, r, u);
    RemovedFromPool(g, u);
    assert UeClosed(g, u);
    RemovedFromLists(g, u);
    assert RemoveByInvalidId(g, r, u).ues == Without(g, {u}).ues;
    RemoveIsExact(g, u);
  }

  /** The connection with the AMF's ID, if it is one of this RAN's. */
  function ByAmfId(g: Registry, r: AmfRan, amfId: MessageId): (u: RanUe?)
    requires Closed(g)
    ensures u != null ==> u in g.ues
  {
    if amfId.Given? && amfId.value in g.pool && g.ues[g.pool[amfId.value]].ran == r then g.pool[amfId.value] else null
  }

  function ByRanId(g: Registry, r: AmfRan, ranId: MessageId): (u: RanUe?)
    requires Closed(g) && r in g.lists
    ensures u != null ==> u in g.ues
  {
    assert ListClosed(g, r);
    if ranId.Given? && ranId.value in g.lists[r] then g.lists[r][ranId.value] else null
  }

  /** `removeRanUeByInvalidUE`: release by the AMF's ID, then by the RAN's. */
  function RemoveByInvalidUE(g: Registry, r: AmfRan, amfId: MessageId, ranId: MessageId): (h: Registry)
    requires Inv(g) && r in g.lists
  {
    var u := ByAmfId(g, r, amfId);
    var g1 := if u == null then g else RemoveByInvalidId(g, r, u);
    AfterFirst(g, r, amfId);
    var w := ByRanId(g1, r, ranId);
    if w == null then g1 else RemoveByInvalidId(g1, r, w)
  }

  lemma AfterFirst(g: Registry, r: AmfRan, amfId: MessageId)
    requires Inv(g) && r in g.lists
    ensures var u := ByAmfId(g, r, amfId);
            var g1 := if u == null then g else RemoveByInvalidId(g, r, u);
            && Inv(g1) && r in g1.lists
            && g1 == Without(g, if u == null then {} else {u})
  {
    var u := ByAmfId(g, r, amfId);
    if u == null {
      WithoutNone(g);
    } else {
      assert PoolOk(g, amfId.value);
      RemoveByInvalidIdIsExact(g, r, u);
      WithoutKeeps(g, {u});
    }
  }

  /** This RAN's connections that have either ID: as the local identifier or as the remote one. */
  function Erroneous(g: Registry, r: AmfRan, amfId: MessageId, ranId: MessageId): (dead: set<RanUe>)
    requires Closed(g)
  {
    set id | id in g.pool && IsErroneous(g, g.pool[id], r, amfId, ranId) :: g.pool[id]
  }

  predicate IsErroneous(g: Registry, u: RanUe, r: AmfRan, amfId: MessageId, ranId: MessageId)
    requires u in g.ues
  {
    var f := g.ues[u];
    f.ran == r && (amfId == Given(f.amfId) || (ranId == Given(f.ranId) && f.ranId != UNSPECIFIED))
  }

  /** The local release takes out every erroneous connection and no other. */
  lemma RemoveByInvalidUEIsExact(g: Registry, r: AmfRan, amfId: MessageId, ranId: MessageId)
    requires Inv(g) && r in g.lists
    ensures RemoveByInvalidUE(g, r, amfId, ranId) == Without(g, Erroneous(g, r, amfId, ranId))
  {
    var u := ByAmfId(g, r, amfId);
    var first := if u == null then {} else {u};
    var g1 := Without(g, first);
    AfterFirst(g, r, amfId);
    var w := ByRanId(g1, r, ranId);
    var second := if w == null then {} else {w};
    if w != null {
      assert EntryOk(g1, r, ranId.value);
      RemoveByInvalidIdIsExact(g1, r, w);
    } else {
      WithoutNone(g1);
    }
    WithoutTwice(g, first, second);
    ErroneousAre(g, r, amfId, ranId, first, second);
  }

  lemma ErroneousAre(g: Registry, r: AmfRan, amfId: MessageId, ranId: MessageId, first: set<RanUe>, second: set<RanUe>)
    requires Inv(g) && r in g.lists
    requires first == if ByAmfId(g, r, amfId) == null then {} else {ByAmfId(g, r, amfId)}
    requires Closed(Without(g, first)) && r in Without(g, first).lists
    requires var w := ByRanId(Without(g, first), r, ranId); second == if w == null then {} else {w}
    ensures first + second == Erroneous(g, r, amfId, ranId)
  {
    forall u | u in g.ues ensures u in first + second <==> u in Erroneous(g, r, amfId, ranId) {
      if u in Erroneous(g, r, amfId, ranId) {
        assert PoolOk(g, g.ues[u].amfId);
      }
      if u in first {
        assert PoolOk(g, amfId.value);
      }
      if u in second {
        assert EntryOk(g, r, ranId.value);
        assert u == g.pool[g.ues[u].amfId];
      }
    }
    forall u | u in first + second ensures u in g.ues {
      assert u in first || EntryOk(g, r, ranId.value);
    }
  }

  // ---------------------------------------------------------------- finding

  datatype Cause = UnknownLocalUeNgapId | InconsistentRemoteUeNgapId

  /** A connection, or the cause and whether an Error Indication with it is sent, or no RAN or AMF ID to go by. */
  datatype Lookup = Found(u: RanUe) | Refused(cause: Cause, indicated: bool) | BadCall

  /** The checks of `ranUeFind`: `first` marks a first returned message, which must find the RAN ID still unknown;
      `send` is false for a last message, for which no Error Indication is sent. */
  function Verdict(g: Registry, r: AmfRan?, amfId: MessageId, ranId: MessageId, first: bool, send: bool)
    : (answer: Lookup)
    requires Closed(g)
  {
    if r == null || amfId.Absent? then BadCall
    else if amfId.value !in g.pool then Refused(UnknownLocalUeNgapId, send)
    else
      var u := g.pool[amfId.value];
      if g.ues[u].ran != r then Refused(UnknownLocalUeNgapId, send)
      else if ranId.Absent? || first then
        if g.ues[u].ranId != UNSPECIFIED then Refused(InconsistentRemoteUeNgapId, send) else Found(u)
      else if g.ues[u].ranId != ranId.value then Refused(InconsistentRemoteUeNgapId, send)
      else Found(u)
  }

  /** `ranUeFind`: connections under an erroneous ID are released. */
  function RanUeFind(g: Registry, r: AmfRan?, amfId: MessageId, ranId: MessageId, first: bool, send: bool)
    : (answer: (Registry, Lookup))
    requires Inv(g) && (r != null ==> r in g.lists)
  {
    var v := Verdict(g, r, amfId, ranId, first, send);
    (if v.Refused? then RemoveByInvalidUE(g, r, amfId, ranId) else g, v)
  }

  /** The IDs name this connection: section 10.6 of TS 38.413. */
  predicate Consistent(g: Registry, u: RanUe, r: AmfRan, amfId: MessageId, ranId: MessageId, first: bool) {
    && Live(g, u) && amfId == Given(g.ues[u].amfId) && g.ues[u].ran == r
    && if ranId.Absent? || first then g.ues[u].ranId == UNSPECIFIED else ranId == Given(g.ues[u].ranId)
  }

  /** A connection of this RAN is registered under the AMF's ID, whatever its RAN ID. */
  predicate LocalIdKnown(g: Registry, r: AmfRan, amfId: MessageId) {
    exists u :: u in g.ues && Live(g, u) && g.ues[u].ran == r && amfId == Given(g.ues[u].amfId)
  }

  lemma VerdictIsSound(g: Registry, r: AmfRan, amfId: MessageId, ranId: MessageId, first: bool, send: bool, u: RanUe)
    requires Inv(g) && u in g.ues
    ensures Verdict(g, r, amfId, ranId, first, send) == Found(u) <==> Consistent(g, u, r, amfId, ranId, first)
  {
    if amfId.Given? && amfId.value in g.pool {
      assert PoolOk(g, amfId.value);
    }
  }

  /** The cause tells whether it was the AMF's own ID that was not known, or the RAN's that did not agree with it. */
  lemma CauseIsSound(g: Registry, r: AmfRan, amfId: MessageId, ranId: MessageId, first: bool, send: bool)
    requires Inv(g)
    ensures var v := Verdict(g, r, amfId, ranId, first, send);
            v.Refused? ==>
              && (v.cause == InconsistentRemoteUeNgapId <==> LocalIdKnown(g, r, amfId))
              && (v.cause == UnknownLocalUeNgapId <==> !LocalIdKnown(g, r, amfId))
  {
    if amfId.Given? && amfId.value in g.pool {
      var u := g.pool[amfId.value];
      assert PoolOk(g, amfId.value);
      assert Live(g, u);
    }
  }

  /**
   * A connection is found exactly when the IDs are consistent with it, and then nothing changes; otherwise just this
   * RAN's connections under either ID are released, and the cause tells which of the two was wrong. Either way the
   * registry stays consistent.
   */
  lemma RanUeFindIsSound(g: Registry, r: AmfRan, amfId: MessageId, ranId: MessageId, first: bool, send: bool)
    requires Inv(g) && r in g.lists
    ensures var (h, answer) := RanUeFind(g, r, amfId, ranId, first, send);
            && Inv(h)
            && (forall u :: u in g.ues ==> (answer == Found(u) <==> Consistent(g, u, r, amfId, ranId, first)))
            && (answer.Found? ==> answer.u in g.ues && h == g)
            && (answer.BadCall? <==> amfId.Absent?) && (answer.BadCall? ==> h == g)
            && (answer.Refused? ==> h == Without(g, Erroneous(g, r, amfId, ranId)) && answer.indicated == send)
            && (answer.Refused? ==>
                  && (answer.cause == InconsistentRemoteUeNgapId <==> LocalIdKnown(g, r, amfId))
                  && (answer.cause == UnknownLocalUeNgapId <==> !LocalIdKnown(g, r, amfId)))
  {
    RemoveByInvalidUEIsExact(g, r, amfId, ranId);
    WithoutKeeps(g, Erroneous(g, r, amfId, ranId));
    CauseIsSound(g, r, amfId, ranId, first, send);
    forall u | u in g.ues
      ensures Verdict(g, r, amfId, ranId, first, send) == Found(u) <==> Consistent(g, u, r, amfId, ranId, first)
    {
      VerdictIsSound(g, r, amfId, ranId, first, send, u);
    }
  }

  /** After a failed check no connection of this RAN has either ID; every other connection, and every list of another
      RAN, is as before, and no UE loses its hold of one. */
  lemma ErroneousAreGone(g: Registry, r: AmfRan, amfId: MessageId, ranId: MessageId, u: RanUe)
    requires Inv(g) && r in g.lists && u in g.ues
    ensures var h := Without(g, Erroneous(g, r, amfId, ranId));
            && (Live(h, u) <==> Live(g, u) && !IsErroneous(g, u, r, amfId, ranId))
            && (!(Live(g, u) && IsErroneous(g, u, r, amfId, ranId)) ==>
                  h.ues[u] == g.ues[u] && (Held(h, u) <==> Held(g, u)))
            && (forall s :: s in g.lists && s != r ==> h.lists[s] == g.lists[s])
  {
    var dead := Erroneous(g, r, amfId, ranId);
    LiveLeft(g, dead, Without(g, dead).slots, u);
    if u !in dead {
      BystanderKeeps(g, dead, u);
    }
    forall s | s in g.lists && s != r ensures ListWithout(g.lists[s], dead) == g.lists[s] {
      forall k | k in g.lists[s] ensures g.lists[s][k] !in dead {
        assert EntryOk(g, s, k);
      }
    }
  }
}
