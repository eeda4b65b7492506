/** Connections that change their UE, their RAN or their RAN ID. */
module NgapMoves {
  import opened NgapObjects
  import opened NgapRegistry

  // ---------------------------------------------------------------- attaching in place of an older connection

  function SetAmf(g: Registry, u: RanUe, a: AmfUe?): (h: Registry)
    requires u in g.ues
  {
    g.(ues := g.ues[u := g.ues[u].(amf := a)])
  }

  /** `AttachRanUeToAmfUeAndReleaseOldIfAny`: the older connection lets go of the UE, then the slot is overwritten. */
  function AttachReleasing(g: Registry, a: AmfUe, u: RanUe): (h: Registry)
    requires a in g.slots && u in g.ues && g.ues[u].ran != null && SlotsClosed(g, a)
  {
    var t := g.ues[u].ran.anType;
    Attach(if t in g.slots[a] then SetAmf(g, g.slots[a][t], null) else g, a, u)
  }

  /** The older connection stays registered and listed, with no UE. */
  function Released(g: Registry, a: AmfUe, t: AccessType): (h: Registry)
    requires a in g.slots && SlotsClosed(g, a)
  {
    if t in g.slots[a] then SetAmf(g, g.slots[a][t], null).(slots := g.slots[a := g.slots[a] - {t}]) else g
  }

  lemma ReleasedKeeps(g: Registry, a: AmfUe, t: AccessType)
    requires Inv(g) && a in g.slots
    ensures Inv(Released(g, a, t))
  {
    var h := Released(g, a, t);
    if t in g.slots[a] {
      assert SlotOk(g, a, t);
      assert Closed(h);
      forall id | id in h.pool ensures PoolOk(h, id) {
        assert PoolOk(g, id);
      }
      forall s, k | s in h.lists && k in h.lists[s] ensures EntryOk(h, s, k) {
        assert EntryOk(g, s, k);
      }
      forall b, x | b in h.slots && x in h.slots[b] ensures SlotOk(h, b, x) {
        assert SlotOk(g, b, x);
      }
    }
  }

  lemma ReleaseThenAttach(g: Registry, a: AmfUe, u: RanUe)
    requires Closed(g) && a in g.slots && u in g.ues && g.ues[u].ran != null
    ensures AttachReleasing(g, a, u) == Attach(Released(g, a, g.ues[u].ran.anType), a, u)
  {
    var t := g.ues[u].ran.anType;
    var h := Released(g, a, t);
    assert h.slots[a][t := u] == g.slots[a][t := u];
    assert AttachReleasing(g, a, u).slots == Attach(h, a, u).slots;
  }

  /** With the older connection released first, attaching keeps the invariant exactly when no other UE holds the new
      one; and if the UE held all that have it, it still does. */
  lemma AttachReleasingKeeps(g: Registry, a: AmfUe, u: RanUe)
    requires Inv(g) && a in g.slots && Live(g, u) && g.ues[u].ran != null
    ensures Inv(AttachReleasing(g, a, u)) <==> CanAttach(g, a, u)
    ensures AllHeld(g, a) ==> AllHeld(AttachReleasing(g, a, u), a)
  {
    var t := g.ues[u].ran.anType;
    var h := Released(g, a, t);
    ReleasedKeeps(g, a, t);
    AttachKeeps(h, a, u);
    ReleaseThenAttach(g, a, u);
    assert CanAttach(h, a, u) <==> CanAttach(g, a, u) by {
      assert t in g.slots[a] ==> SlotOk(g, a, t);
    }
    if AllHeld(g, a) {
      assert AllHeld(h, a);
      AttachHolds(h, a, u);
    }
  }

  /** What attaching with release changes besides: the older connection, if it is another, has no UE. */
  lemma AttachReleasingIsExact(g: Registry, a: AmfUe, u: RanUe)
    requires Inv(g) && a in g.slots && Live(g, u) && g.ues[u].ran != null
    ensures var h, t := AttachReleasing(g, a, u), g.ues[u].ran.anType;
            && h.ues[u] == g.ues[u].(amf := a) && Held(h, u) && t in h.slots[a] && h.slots[a][t] == u
            && (t in g.slots[a] && g.slots[a][t] != u ==> h.ues[g.slots[a][t]] == g.ues[g.slots[a][t]].(amf := null))
            && (forall w :: w in g.ues && w != u && !(t in g.slots[a] && g.slots[a][t] == w) ==> h.ues[w] == g.ues[w])
            && h.pool == g.pool && h.used == g.used && h.lists == g.lists
            && (forall b, x :: b in g.slots && (b != a || x != t) ==>
                                 (x in h.slots[b] <==> x in g.slots[b])
                                 && (x in g.slots[b] ==> h.slots[b][x] == g.slots[b][x]))
  {
    var t := g.ues[u].ran.anType;
    AttachIsExact(if t in g.slots[a] then SetAmf(g, g.slots[a][t], null) else g, a, u);
  }

  /** What the release of a superseded UE's connection changes: the connection has no UE, and the place it claims is
      empty. */
  lemma UnlinkIsExact(g: Registry, u: RanUe)
    requires Closed(g) && u in g.ues && g.ues[u].ran != null && g.ues[u].amf != null
    ensures var h, a, t := Unlink(g, u), g.ues[u].amf, g.ues[u].ran.anType;
            && h.ues[u] == g.ues[u].(amf := null) && t !in h.slots[a]
            && h.pool == g.pool && h.used == g.used && h.lists == g.lists
            && (forall w :: w in g.ues && w != u ==> h.ues[w] == g.ues[w])
            && (forall b, x :: b in g.slots && (b != a || x != t) ==>
                                 (x in h.slots[b] <==> x in g.slots[b])
                                 && (x in g.slots[b] ==> h.slots[b][x] == g.slots[b][x]))
  {
    assert UeClosed(g, u);
  }

  /** Release of a superseded UE's connection empties the place it claims. */
  lemma UnlinkKeeps(g: Registry, u: RanUe)
    requires Inv(g) && u in g.ues && g.ues[u].ran != null
    ensures Inv(Unlink(g, u))
  {
    var h := Unlink(g, u);
    assert Closed(h);
    forall id | id in h.pool ensures PoolOk(h, id) {
      assert PoolOk(g, id);
    }
    forall s, k | s in h.lists && k in h.lists[s] ensures EntryOk(h, s, k) {
      assert EntryOk(g, s, k);
    }
    forall b, t | b in h.slots && t in h.slots[b] ensures SlotOk(h, b, t) {
      assert SlotOk(g, b, t);
    }
  }

  /** `ClearHoldingRanUe` takes the UE from a connection and leaves the UE's own reference to it: that keeps the
      invariant exactly when the UE did not hold it. */
  lemma ClearHoldingKeeps(g: Registry, u: RanUe)
    requires Inv(g) && u in g.ues
    ensures Inv(SetAmf(g, u, null)) <==> !Held(g, u)
  {
    var h := SetAmf(g, u, null);
    if Held(g, u) {
      assert !SlotOk(h, g.ues[u].amf, g.ues[u].ran.anType);
    } else {
      assert Closed(h);
      forall id | id in h.pool ensures PoolOk(h, id) {
        assert PoolOk(g, id);
      }
      forall s, k | s in h.lists && k in h.lists[s] ensures EntryOk(h, s, k) {
        assert EntryOk(g, s, k);
      }
      forall b, t | b in h.slots && t in h.slots[b] ensures SlotOk(h, b, t) {
        assert SlotOk(g, b, t);
      }
    }
  }

  // ---------------------------------------------------------------- switching to another RAN

  /** `RanUe.SwitchToRan`. */
  function Switch(g: Registry, u: RanUe, r: AmfRan, ranId: int): (h: Registry)
    requires u in g.ues && g.ues[u].ran != null && g.ues[u].ran in g.lists && r in g.lists
  {
    var f := g.ues[u];
    var left := g.lists[f.ran := g.lists[f.ran] - {f.ranId}];
    g.(lists := left[r := left[r][ranId := u]], ues := g.ues[u := f.(ran := r, ranId := ranId)])
  }

  /** The RAN ID can be a key, no other connection has it in the new RAN, and the access type stays for a UE that holds
      the connection. */
  predicate CanSwitch(g: Registry, u: RanUe, r: AmfRan, ranId: int)
    requires u in g.ues && g.ues[u].ran != null && r in g.lists
  {
    && ranId != UNSPECIFIED
    && (ranId in g.lists[r] ==> g.lists[r][ranId] == u)
    && (Held(g, u) ==> r.anType == g.ues[u].ran.anType)
  }

  /** What switching changes: the connection is in the new RAN under the new ID, and no longer in the old one under the
      old ID; everything else is as before. */
  lemma SwitchIsExact(g: Registry, u: RanUe, r: AmfRan, ranId: int)
    requires u in g.ues && g.ues[u].ran != null && g.ues[u].ran in g.lists && r in g.lists
    ensures var h, f := Switch(g, u, r, ranId), g.ues[u];
            && h.ues[u] == f.(ran := r, ranId := ranId) && ranId in h.lists[r] && h.lists[r][ranId] == u
            && (f.ran != r || f.ranId != ranId ==> f.ranId !in h.lists[f.ran])
            && h.pool == g.pool && h.used == g.used && h.slots == g.slots
            && (forall w :: w in g.ues && w != u ==> h.ues[w] == g.ues[w])
            && (forall s, k :: s in g.lists && (s != r || k != ranId) && (s != f.ran || k != f.ranId) ==>
                                 (k in h.lists[s] <==> k in g.lists[s])
                                 && (k in g.lists[s] ==> h.lists[s][k] == g.lists[s][k]))
  {
  }

  lemma SwitchFits(g: Registry, u: RanUe, r: AmfRan, ranId: int)
    requires Inv(g) && Live(g, u) && g.ues[u].ran != null && r in g.lists && CanSwitch(g, u, r, ranId)
    ensures Inv(Switch(g, u, r, ranId))
  {
    var h := Switch(g, u, r, ranId);
    assert Closed(h);
    forall id | id in h.pool ensures PoolOk(h, id) {
      assert PoolOk(g, id) && PoolOk(g, g.ues[u].amfId);
    }
    forall s, k | s in h.lists && k in h.lists[s] ensures EntryOk(h, s, k) {
      SwitchedEntries(g, u, r, ranId, s, k);
    }
    forall b, t | b in h.slots && t in h.slots[b] ensures SlotOk(h, b, t) {
      assert SlotOk(g, b, t);
    }
  }

  lemma SwitchedEntries(g: Registry, u: RanUe, r: AmfRan, ranId: int, s: AmfRan, k: int)
    requires Inv(g) && Live(g, u) && g.ues[u].ran != null && g.ues[u].ran in g.lists && r in g.lists
    requires CanSwitch(g, u, r, ranId) && s in g.lists && k in Switch(g, u, r, ranId).lists[s]
    ensures EntryOk(Switch(g, u, r, ranId), s, k)
  {
    if k in g.lists[s] {
      ListKeyIsUnique(g, u, s, k);
      assert EntryOk(g, s, k);
    }
  }

  lemma SwitchClashes(g: Registry, u: RanUe, r: AmfRan, ranId: int)
    requires Inv(g) && Live(g, u) && g.ues[u].ran != null && r in g.lists && !CanSwitch(g, u, r, ranId)
    ensures !Inv(Switch(g, u, r, ranId))
  {
    var h, f := Switch(g, u, r, ranId), g.ues[u];
    assert PoolOk(g, f.amfId);
    if ranId == UNSPECIFIED {
      assert ranId in h.lists[r] && !EntryOk(h, r, ranId);
    } else if ranId in g.lists[r] && g.lists[r][ranId] != u {
      var w := g.lists[r][ranId];
      assert EntryOk(g, r, ranId);
      assert h.pool[g.ues[w].amfId] == w && !ListedOk(h, w);
    } else {
      assert h.slots[f.amf][f.ran.anType] == u && !SlotOk(h, f.amf, f.ran.anType);
    }
  }

  /** Switching keeps the invariant exactly under those conditions. */
  lemma SwitchKeeps(g: Registry, u: RanUe, r: AmfRan, ranId: int)
    requires Inv(g) && Live(g, u) && g.ues[u].ran != null && r in g.lists
    ensures Inv(Switch(g, u, r, ranId)) <==> CanSwitch(g, u, r, ranId)
  {
    if CanSwitch(g, u, r, ranId) {
      SwitchFits(g, u, r, ranId);
    } else {
      SwitchClashes(g, u, r, ranId);
    }
  }

  /** What Path Switch Request does: it stores the new RAN ID first, so that `SwitchToRan` deletes under the new ID
      and not under the old one. */
  function PathSwitch(g: Registry, u: RanUe, r: AmfRan, ranId: int): (h: Registry)
    requires u in g.ues && g.ues[u].ran != null && g.ues[u].ran in g.lists && r in g.lists
  {
    Switch(g.(ues := g.ues[u := g.ues[u].(ranId := ranId)]), u, r, ranId)
  }

  /** The new RAN happens to choose the connection's present RAN ID, or there is none yet and no other connection of the
      old RAN has the new one. */
  predicate CanPathSwitch(g: Registry, u: RanUe, r: AmfRan, ranId: int)
    requires u in g.ues && g.ues[u].ran != null && g.ues[u].ran in g.lists && r in g.lists
  {
    && CanSwitch(g, u, r, ranId)
    && g.ues[u].ranId in {UNSPECIFIED, ranId}
    && (ranId in g.lists[g.ues[u].ran] ==> g.lists[g.ues[u].ran][ranId] == u)
  }

  lemma PathSwitchClashes(g: Registry, u: RanUe, r: AmfRan, ranId: int)
    requires Inv(g) && Live(g, u) && g.ues[u].ran != null && r in g.lists && CanSwitch(g, u, r, ranId)
    requires g.ues[u].ran in g.lists && !CanPathSwitch(g, u, r, ranId)
    ensures !Inv(PathSwitch(g, u, r, ranId))
  {
    var h, f := PathSwitch(g, u, r, ranId), g.ues[u];
    assert PoolOk(g, f.amfId);
    if f.ranId !in {UNSPECIFIED, ranId} {
      assert f.ranId in h.lists[f.ran] && !EntryOk(h, f.ran, f.ranId);
    } else {
      var w := g.lists[f.ran][ranId];
      assert EntryOk(g, f.ran, ranId);
      assert h.pool[g.ues[w].amfId] == w && !ListedOk(h, w);
    }
  }

  /** Path Switch Request keeps the invariant exactly under those conditions. */
  lemma PathSwitchKeeps(g: Registry, u: RanUe, r: AmfRan, ranId: int)
    requires Inv(g) && Live(g, u) && g.ues[u].ran != null && g.ues[u].ran in g.lists && r in g.lists
    ensures Inv(PathSwitch(g, u, r, ranId)) <==> CanPathSwitch(g, u, r, ranId)
  {
    var direct, f := Switch(g, u, r, ranId), g.ues[u];
    if CanPathSwitch(g, u, r, ranId) {
      assert g.lists[f.ran] - {ranId} == g.lists[f.ran] - {f.ranId} by {
        assert UNSPECIFIED in g.lists[f.ran] ==> EntryOk(g, f.ran, UNSPECIFIED);
        assert ranId in g.lists[f.ran] ==> EntryOk(g, f.ran, ranId);
      }
      assert PathSwitch(g, u, r, ranId).lists == direct.lists && PathSwitch(g, u, r, ranId).ues == direct.ues;
      SwitchFits(g, u, r, ranId);
    } else if CanSwitch(g, u, r, ranId) {
      PathSwitchClashes(g, u, r, ranId);
    } else {
      CannotPathSwitch(g, u, r, ranId);
    }
  }

  lemma CannotPathSwitch(g: Registry, u: RanUe, r: AmfRan, ranId: int)
    requires Inv(g) && Live(g, u) && g.ues[u].ran != null && g.ues[u].ran in g.lists && r in g.lists
    requires !CanSwitch(g, u, r, ranId)
    ensures !Inv(PathSwitch(g, u, r, ranId))
  {
    var h, f := PathSwitch(g, u, r, ranId), g.ues[u];
    if ranId == UNSPECIFIED {
      assert ranId in h.lists[r] && !EntryOk(h, r, ranId);
    } else if ranId in g.lists[r] && g.lists[r][ranId] != u {
      var w := g.lists[r][ranId];
      assert EntryOk(g, r, ranId);
      assert h.pool[g.ues[w].amfId] == w && !ListedOk(h, w);
    } else {
      assert h.slots[f.amf][f.ran.anType] == u && !SlotOk(h, f.amf, f.ran.anType);
    }
  }

  // ---------------------------------------------------------------- handover

  /** `SendHandoverRequest`, as far as the registry goes: a new connection in the target RAN takes the source's UE,
      while the UE still holds the source. Nothing happens for a source without UE or with a target already. */
  function Prepare(g: Registry, source: RanUe, r: AmfRan, amfId: int, u: RanUe): (h: Registry)
    requires source in g.ues && r in g.lists
  {
    if g.ues[source].amf == null || g.ues[source].target != null then g
    else
      var h := New(g, r, UNSPECIFIED, amfId, u);
      h.(ues := h.ues[u := h.ues[u].(amf := g.ues[source].amf, source := source)]
                     [source := g.ues[source].(target := u)])
  }

  lemma PrepareKeeps(g: Registry, source: RanUe, r: AmfRan, amfId: int, u: RanUe)
    requires Inv(g) && source in g.ues && r in g.lists && amfId !in g.used && u !in g.ues
    ensures Inv(Prepare(g, source, r, amfId, u))
    ensures var h := Prepare(g, source, r, amfId, u);
            h != g ==> Live(h, u) && h.ues[u].amf == g.ues[source].amf && !Held(h, u)
                       && (Held(h, source) <==> Held(g, source))
  {
    var h, k := Prepare(g, source, r, amfId, u), New(g, r, UNSPECIFIED, amfId, u);
    NewFits(g, r, UNSPECIFIED, amfId, u);
    if h != g {
      assert h.pool == k.pool && h.lists == k.lists && h.slots == k.slots;
      assert UeClosed(g, source);
      forall w | w in h.ues ensures UeClosed(h, w) {
        assert UeClosed(k, w);
      }
      assert Closed(h);
      forall id | id in h.pool ensures PoolOk(h, id) {
        assert PoolOk(k, id);
      }
      forall s, key | s in h.lists && key in h.lists[s] ensures EntryOk(h, s, key) {
        assert EntryOk(k, s, key);
      }
      forall a, t | a in h.slots && t in h.slots[a] ensures SlotOk(h, a, t) {
        assert SlotOk(k, a, t) && SlotOk(g, a, t);
      }
    }
  }

  /** What preparing changes: the target is registered in its RAN with the source's UE and no RAN ID, and the two name
      each other; everything else is as before. */
  lemma PrepareIsExact(g: Registry, source: RanUe, r: AmfRan, amfId: int, u: RanUe)
    requires Inv(g) && source in g.ues && r in g.lists && amfId !in g.used && u !in g.ues
    ensures var h, f := Prepare(g, source, r, amfId, u), g.ues[source];
            if f.amf == null || f.target != null then h == g
            else
              && Live(h, u) && h.ues[u] == Ue(UNSPECIFIED, amfId, r, f.amf, source, null)
              && h.ues[source] == f.(target := u) && h.used == g.used + {amfId}
              && h.lists == g.lists && h.slots == g.slots
              && (forall w :: w in g.ues && w != source ==> h.ues[w] == g.ues[w])
              && (forall w :: w in g.ues ==> (Live(h, w) <==> Live(g, w)))
  {
    NewIsExact(g, r, UNSPECIFIED, amfId, u);
  }

  /** The ID step of Handover Request Acknowledge: the target's RAN ID arrives and the RAN's list takes the entry. */
  function Acknowledge(g: Registry, r: AmfRan, u: RanUe, ranId: int): (h: Registry)
    requires r in g.lists && u in g.ues
  {
    g.(lists := g.lists[r := g.lists[r][ranId := u]], ues := g.ues[u := g.ues[u].(ranId := ranId)])
  }

  /** A target found as the sender of a first returned message is in this RAN and unlisted: nothing else is needed. */
  lemma AcknowledgeKeeps(g: Registry, r: AmfRan, u: RanUe, ranId: int)
    requires Inv(g) && Live(g, u) && r in g.lists && g.ues[u].ran == r && g.ues[u].ranId == UNSPECIFIED
    ensures Inv(Acknowledge(g, r, u, ranId)) <==> ranId != UNSPECIFIED && ranId !in g.lists[r]
  {
    forall s, k | s in g.lists && k in g.lists[s] ensures g.lists[s][k] != u {
      assert EntryOk(g, s, k);
    }
    var h := Switch(g, u, r, ranId);
    assert UNSPECIFIED !in g.lists[r] by {
      assert UNSPECIFIED in g.lists[r] ==> EntryOk(g, r, UNSPECIFIED);
    }
    assert g.lists[r] - {UNSPECIFIED} == g.lists[r];
    assert h.lists == Acknowledge(g, r, u, ranId).lists;
    assert h.ues == Acknowledge(g, r, u, ranId).ues;
    SwitchKeeps(g, u, r, ranId);
  }

  /** What acknowledging changes: the target has the RAN ID and is listed under it. */
  lemma AcknowledgeIsExact(g: Registry, r: AmfRan, u: RanUe, ranId: int)
    requires r in g.lists && u in g.ues
    ensures var h := Acknowledge(g, r, u, ranId);
            && h.ues[u] == g.ues[u].(ranId := ranId) && ranId in h.lists[r] && h.lists[r][ranId] == u
            && h.pool == g.pool && h.used == g.used && h.slots == g.slots
            && (forall w :: w in g.ues && w != u ==> h.ues[w] == g.ues[w])
            && (forall s, k :: s in g.lists && (s != r || k != ranId) ==>
                                 (k in h.lists[s] <==> k in g.lists[s])
                                 && (k in g.lists[s] ==> h.lists[s][k] == g.lists[s][k]))
  {
  }

  /** Whether Handover Notify from this connection completes a handover. */
  predicate Completes(g: Registry, u: RanUe)
    requires u in g.ues
  {
    g.ues[u].ran != null && g.ues[u].amf != null && g.ues[u].source != null
  }

  /** `AttachRanUeToAmfUeAndReleaseOldHandover`: the source lets go of its UE, and the target's UE takes the target. */
  function Complete(g: Registry, u: RanUe): (h: Registry)
    requires Closed(g) && u in g.ues
  {
    assert UeClosed(g, u);
    if !Completes(g, u) then g else Attach(SetAmf(g, g.ues[u].source, null), g.ues[u].amf, u)
  }

  /** What completing changes: the source has no UE, and the target's UE holds the target. */
  lemma CompleteIsExact(g: Registry, u: RanUe)
    requires Inv(g) && Live(g, u) && Completes(g, u) && g.ues[u].source != u
    ensures var h, f := Complete(g, u), g.ues[u];
            && h.ues[f.source] == g.ues[f.source].(amf := null) && h.ues[u] == f && Held(h, u)
            && h.pool == g.pool && h.used == g.used && h.lists == g.lists
            && (forall w :: w in g.ues && w != f.source ==> h.ues[w] == g.ues[w])
            && (forall b, x :: b in g.slots && (b != f.amf || x != f.ran.anType) ==>
                                 (x in h.slots[b] <==> x in g.slots[b])
                                 && (x in g.slots[b] ==> h.slots[b][x] == g.slots[b][x]))
  {
    assert UeClosed(g, u);
    AttachIsExact(SetAmf(g, g.ues[u].source, null), g.ues[u].amf, u);
  }

  /** If the source is held at all, it is in the place that the target takes. */
  predicate CanComplete(g: Registry, u: RanUe)
    requires Closed(g) && u in g.ues
  {
    assert UeClosed(g, u);
    Completes(g, u) && Held(g, g.ues[u].source) ==> Claims(g.ues[g.ues[u].source], g.ues[u].amf, g.ues[u].ran.anType)
  }

  lemma CompleteFits(g: Registry, u: RanUe)
    requires Inv(g) && Live(g, u) && Completes(g, u) && CanComplete(g, u)
    ensures Inv(Complete(g, u))
  {
    var h := Complete(g, u);
    assert Closed(h);
    forall id | id in h.pool ensures PoolOk(h, id) {
      assert PoolOk(g, id);
    }
    forall s, k | s in h.lists && k in h.lists[s] ensures EntryOk(h, s, k) {
      assert EntryOk(g, s, k);
    }
    forall b, t | b in h.slots && t in h.slots[b] ensures SlotOk(h, b, t) {
      assert h.slots[b][t] == u || SlotOk(g, b, t);
    }
  }

  lemma CompleteClashes(g: Registry, u: RanUe)
    requires Inv(g) && Live(g, u) && !CanComplete(g, u)
    ensures !Inv(Complete(g, u))
  {
    var h, w := Complete(g, u), g.ues[u].source;
    var b, t := g.ues[w].amf, g.ues[w].ran.anType;
    assert t in h.slots[b] && h.slots[b][t] == w && !SlotOk(h, b, t);
  }

  /** Completing a handover keeps the invariant exactly under that condition. */
  lemma CompleteKeeps(g: Registry, u: RanUe)
    requires Inv(g) && Live(g, u)
    ensures Inv(Complete(g, u)) <==> CanComplete(g, u)
  {
    if !CanComplete(g, u) {
      CompleteClashes(g, u);
    } else if Completes(g, u) {
      CompleteFits(g, u);
    }
  }

  /** A third connection of the UE, besides source and target, that completing leaves unheld. */
  predicate LeftOver(g: Registry, u: RanUe, w: RanUe)
    requires Closed(g) && u in g.ues && Completes(g, u) && w in g.ues
  {
    && Live(g, w) && g.ues[w].amf == g.ues[u].amf && w != u && w != g.ues[u].source
    && (!Held(g, w) || Claims(g.ues[w], g.ues[u].amf, g.ues[u].ran.anType))
  }

  /** A completed handover leaves the UE holding every connection that has it exactly if there was no third one. */
  lemma CompleteHolds(g: Registry, u: RanUe)
    requires Inv(g) && Live(g, u) && Completes(g, u) && CanComplete(g, u)
    ensures AllHeld(Complete(g, u), g.ues[u].amf) <==> forall w :: w in g.ues ==> !LeftOver(g, u, w)
  {
    var h, a := Complete(g, u), g.ues[u].amf;
    forall w | w in g.ues
      ensures LeftOver(g, u, w) <==> Live(h, w) && h.ues[w].amf == a && !Held(h, w)
    {
      HeldAfter(g, u, w);
    }
  }

  lemma HeldAfter(g: Registry, u: RanUe, w: RanUe)
    requires Inv(g) && Live(g, u) && Completes(g, u) && CanComplete(g, u) && w in g.ues
    ensures var h, a := Complete(g, u), g.ues[u].amf;
            LeftOver(g, u, w) <==> Live(h, w) && h.ues[w].amf == a && !Held(h, w)
  {
    if Live(g, w) {
      assert PoolOk(g, g.ues[w].amfId);
    }
  }
}
