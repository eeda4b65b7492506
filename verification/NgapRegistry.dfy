/** The AMF's connection registry as a value: what its operations do, and the invariant they keep. */
module NgapRegistry {
  import opened NgapObjects

  /** The fields of one connection; `source` and `target` are its partners in a handover. */
  datatype Ue = Ue(ranId: int, amfId: int, ran: AmfRan?, amf: AmfUe?, source: RanUe?, target: RanUe?)

  /** The pool and the allocated AMF-UE-NGAP-IDs, each RAN's list, each connection's fields, each UE's connections. */
  datatype Registry = Registry(
    pool: map<int, RanUe>,
    used: set<int>,
    lists: map<AmfRan, map<int, RanUe>>,
    ues: map<RanUe, Ue>,
    slots: map<AmfUe, map<AccessType, RanUe>>)

  /** Every reference leads to a known object. */
  predicate Closed(g: Registry) {
    && (forall id :: id in g.pool ==> g.pool[id] in g.ues)
    && (forall r :: r in g.lists ==> ListClosed(g, r))
    && (forall u :: u in g.ues ==> UeClosed(g, u))
    && (forall a :: a in g.slots ==> SlotsClosed(g, a))
  }

  predicate ListClosed(g: Registry, r: AmfRan)
    requires r in g.lists
  {
    forall k :: k in g.lists[r] ==> g.lists[r][k] in g.ues
  }

  predicate UeClosed(g: Registry, u: RanUe)
    requires u in g.ues
  {
    var f := g.ues[u];
    && (f.ran != null ==> f.ran in g.lists) && (f.amf != null ==> f.amf in g.slots)
    && (f.source != null ==> f.source in g.ues) && (f.target != null ==> f.target in g.ues)
  }

  predicate SlotsClosed(g: Registry, a: AmfUe)
    requires a in g.slots
  {
    forall t :: t in g.slots[a] ==> g.slots[a][t] in g.ues
  }

  /** Registered: the pool holds the connection under its own AMF-UE-NGAP-ID. */
  predicate Live(g: Registry, u: RanUe) {
    u in g.ues && g.ues[u].amfId in g.pool && g.pool[g.ues[u].amfId] == u
  }

  /** A list entry has its RAN, its key and a pool entry; the unspecified ID is never a key. */
  predicate EntryOk(g: Registry, r: AmfRan, k: int)
    requires r in g.lists && k in g.lists[r]
  {
    var u := g.lists[r][k];
    Live(g, u) && g.ues[u].ran == r && g.ues[u].ranId == k && k != UNSPECIFIED
  }

  /** A UE's connection for an access type points back to the UE and is of that type. */
  predicate SlotOk(g: Registry, a: AmfUe, t: AccessType)
    requires a in g.slots && t in g.slots[a]
  {
    var u := g.slots[a][t];
    Live(g, u) && g.ues[u].amf == a && g.ues[u].ran != null && g.ues[u].ran.anType == t
  }

  /** A pool entry stands under its own ID, belongs to a RAN, and is listed there. */
  predicate PoolOk(g: Registry, id: int)
    requires id in g.pool && g.pool[id] in g.ues
  {
    var u := g.pool[id];
    g.ues[u].amfId == id && g.ues[u].ran != null && ListedOk(g, u)
  }

  /** A connection with a RAN ID is in its RAN's list. */
  predicate ListedOk(g: Registry, u: RanUe)
    requires u in g.ues
  {
    var f := g.ues[u];
    f.ran != null && f.ranId != UNSPECIFIED ==>
      f.ran in g.lists && f.ranId in g.lists[f.ran] && g.lists[f.ran][f.ranId] == u
  }

  /** Pool, lists, slots and allocator agree. */
  predicate Inv(g: Registry) {
    && Closed(g)
    && g.used == g.pool.Keys
    && (forall id :: id in g.pool ==> PoolOk(g, id))
    && (forall r, k :: r in g.lists && k in g.lists[r] ==> EntryOk(g, r, k))
    && (forall a, t :: a in g.slots && t in g.slots[a] ==> SlotOk(g, a, t))
  }

  /** The connection claims this place with a UE: it has the UE, and its RAN that access type. */
  predicate Claims(f: Ue, a: AmfUe, t: AccessType) {
    f.amf == a && f.ran != null && f.ran.anType == t
  }

  /** The UE of the connection holds it under its access type. */
  predicate Held(g: Registry, u: RanUe) {
    && u in g.ues && g.ues[u].amf != null && g.ues[u].ran != null
    && var a, t := g.ues[u].amf, g.ues[u].ran.anType;
       a in g.slots && t in g.slots[a] && g.slots[a][t] == u
  }

  /** Every connection that has this UE is held by it. In general this is not so: the target of a handover has the UE
      that still holds the source. */
  predicate AllHeld(g: Registry, a: AmfUe) {
    forall u :: u in g.ues && Live(g, u) && g.ues[u].amf == a ==> Held(g, u)
  }

  // ---------------------------------------------------------------- what is left without some connections

  function PoolWithout(pool: map<int, RanUe>, dead: set<RanUe>): (m: map<int, RanUe>) {
    map id | id in pool && pool[id] !in dead :: pool[id]
  }

  function ListWithout(list: map<int, RanUe>, dead: set<RanUe>): (m: map<int, RanUe>) {
    map k | k in list && list[k] !in dead :: list[k]
  }

  function SlotsWithout(slots: map<AccessType, RanUe>, dead: set<RanUe>): (m: map<AccessType, RanUe>) {
    map t | t in slots && slots[t] !in dead :: slots[t]
  }

  function Detached(f: Ue, now: bool): (d: Ue) {
    if now then f.(amf := null) else f
  }

  /** What is left of a UE's places when these connections give up those they claim, whoever holds them. */
  function SlotsLeft(g: Registry, dead: set<RanUe>, a: AmfUe): (m: map<AccessType, RanUe>)
    requires a in g.slots
  {
    map t | t in g.slots[a] && !Claimed(g, dead, a, t) :: g.slots[a][t]
  }

  predicate Claimed(g: Registry, dead: set<RanUe>, a: AmfUe, t: AccessType) {
    exists w :: w in dead && w in g.ues && Claims(g.ues[w], a, t)
  }

  /** The registry with these connections gone from pool and lists and without UE, their IDs free; the UEs keep
      `slots`. */
  function Left(g: Registry, dead: set<RanUe>, slots: map<AmfUe, map<AccessType, RanUe>>): (h: Registry) {
    Registry(PoolWithout(g.pool, dead), PoolWithout(g.pool, dead).Keys,
             map r | r in g.lists :: ListWithout(g.lists[r], dead),
             map u | u in g.ues :: Detached(g.ues[u], u in dead), slots)
  }

  /** The registry with just these connections gone, from everywhere. */
  function Without(g: Registry, dead: set<RanUe>): (h: Registry) {
    Left(g, dead, map a | a in g.slots :: SlotsWithout(g.slots[a], dead))
  }

  /** The registry with these connections gone, and with them every place of a UE that one of them claims. */
  function Cleared(g: Registry, dead: set<RanUe>): (h: Registry) {
    Left(g, dead, map a | a in g.slots :: SlotsLeft(g, dead, a))
  }

  lemma LiveLeft(g: Registry, dead: set<RanUe>, slots: map<AmfUe, map<AccessType, RanUe>>, u: RanUe)
    requires u in g.ues
    ensures Live(Left(g, dead, slots), u) <==> Live(g, u) && u !in dead
  {
  }

  /** These are places the UEs held before, and none of a connection that is gone. */
  predicate Remaining(g: Registry, dead: set<RanUe>, slots: map<AmfUe, map<AccessType, RanUe>>) {
    && slots.Keys == g.slots.Keys
    && forall a, t :: a in slots && t in slots[a] ==> IsRemaining(g, dead, slots, a, t)
  }

  predicate IsRemaining(g: Registry, dead: set<RanUe>, slots: map<AmfUe, map<AccessType, RanUe>>, a: AmfUe,
                        t: AccessType)
    requires a in slots && t in slots[a]
  {
    a in g.slots && t in g.slots[a] && slots[a][t] == g.slots[a][t] && g.slots[a][t] !in dead
  }

  lemma LeftKeeps(g: Registry, dead: set<RanUe>, slots: map<AmfUe, map<AccessType, RanUe>>)
    requires Inv(g) && Remaining(g, dead, slots)
    ensures Inv(Left(g, dead, slots))
  {
    var h := Left(g, dead, slots);
    forall a | a in h.slots ensures SlotsClosed(h, a) {
      forall t | t in h.slots[a] ensures h.slots[a][t] in h.ues {
        assert IsRemaining(g, dead, slots, a, t);
        assert SlotsClosed(g, a);
      }
    }
    forall u | u in h.ues ensures UeClosed(h, u) {
      assert UeClosed(g, u);
    }
    assert Closed(h);
    forall id | id in h.pool ensures PoolOk(h, id) {
      assert PoolOk(g, id);
    }
    forall r, k | r in h.lists && k in h.lists[r] ensures EntryOk(h, r, k) {
      assert EntryOk(g, r, k);
      LiveLeft(g, dead, slots, g.lists[r][k]);
    }
    forall a, t | a in h.slots && t in h.slots[a] ensures SlotOk(h, a, t) {
      assert IsRemaining(g, dead, slots, a, t);
      assert SlotOk(g, a, t);
      LiveLeft(g, dead, slots, g.slots[a][t]);
    }
  }

  /** Taking connections out keeps the invariant, whether or not others lose the places they claim. */
  lemma WithoutKeeps(g: Registry, dead: set<RanUe>)
    requires Inv(g)
    ensures Inv(Without(g, dead)) && Inv(Cleared(g, dead))
  {
    LeftKeeps(g, dead, Without(g, dead).slots);
    forall a, t | a in g.slots && t in SlotsLeft(g, dead, a) ensures g.slots[a][t] !in dead {
      assert SlotOk(g, a, t);
    }
    LeftKeeps(g, dead, Cleared(g, dead).slots);
  }

  /** What one connection sees of others being taken out: it stays registered and as it was, but its UE holds it no
      longer exactly if one of them claims its place. */
  lemma BystanderKeeps(g: Registry, dead: set<RanUe>, u: RanUe)
    requires Inv(g) && u in g.ues && u !in dead
    ensures var h := Cleared(g, dead);
            && (Live(h, u) <==> Live(g, u)) && h.ues[u] == g.ues[u]
            && (Held(h, u) <==> Held(g, u) && !Claimed(g, dead, g.ues[u].amf, g.ues[u].ran.anType))
            && (Held(Without(g, dead), u) <==> Held(g, u))
  {
    LiveLeft(g, dead, Cleared(g, dead).slots, u);
  }

  /** No one else's place is claimed: each that goes and has a UE is the one the UE holds, or its place is empty, or
      held by another that goes. */
  predicate OnlyOwnPlaces(g: Registry, dead: set<RanUe>) {
    forall a, t :: a in g.slots && t in g.slots[a] && Claimed(g, dead, a, t) ==> g.slots[a][t] in dead
  }

  /** Taking connections out by the places they claim leaves all other links as they were exactly if no one else's place
      is claimed. */
  lemma ClearedIsExact(g: Registry, dead: set<RanUe>)
    requires Inv(g)
    ensures Cleared(g, dead) == Without(g, dead) <==> OnlyOwnPlaces(g, dead)
  {
    var c, w := Cleared(g, dead).slots, Without(g, dead).slots;
    forall a, t | a in g.slots && t in g.slots[a]
      ensures g.slots[a][t] in dead ==> Claimed(g, dead, a, t)
    {
      assert SlotOk(g, a, t);
    }
    if OnlyOwnPlaces(g, dead) {
      forall a | a in g.slots ensures SlotsLeft(g, dead, a) == SlotsWithout(g.slots[a], dead) {}
      assert c == w;
    } else {
      var a, t :| a in g.slots && t in g.slots[a] && Claimed(g, dead, a, t) && g.slots[a][t] !in dead;
      assert t in w[a] && t !in c[a];
    }
  }

  /** When all that went belonged to one RAN, nothing of another RAN has changed. */
  lemma OthersUntouched(g: Registry, dead: set<RanUe>, r: AmfRan, u: RanUe)
    requires Inv(g) && u in g.ues && g.ues[u].ran != r
    requires forall w :: w in dead ==> w in g.ues && g.ues[w].ran == r
    ensures var h := Cleared(g, dead);
            && (Live(h, u) <==> Live(g, u)) && h.ues[u] == g.ues[u]
            && (forall s :: s in g.lists && s != r ==> h.lists[s] == g.lists[s] == Without(g, dead).lists[s])
            && (Held(h, u) <==> Held(g, u) && !Claimed(g, dead, g.ues[u].amf, g.ues[u].ran.anType))
            && (Held(Without(g, dead), u) <==> Held(g, u))
  {
    BystanderKeeps(g, dead, u);
    forall s | s in g.lists && s != r ensures ListWithout(g.lists[s], dead) == g.lists[s] {
      forall k | k in g.lists[s] ensures g.lists[s][k] !in dead {
        assert EntryOk(g, s, k);
      }
    }
  }

  /** Pool, lists and fields are the same after taking out some and then others as after taking out all at once. */
  lemma LeftTwice(g: Registry, d: set<RanUe>, e: set<RanUe>, slots: map<AmfUe, map<AccessType, RanUe>>,
                  slots2: map<AmfUe, map<AccessType, RanUe>>)
    ensures Left(Left(g, d, slots), e, slots2) == Left(g, d + e, slots2)
  {
    var h, both := Left(g, d, slots), Left(g, d + e, slots2);
    assert PoolWithout(h.pool, e) == both.pool;
    forall r | r in g.lists ensures ListWithout(h.lists[r], e) == both.lists[r] {}
  }

  lemma WithoutTwice(g: Registry, d: set<RanUe>, e: set<RanUe>)
    ensures Without(Without(g, d), e) == Without(g, d + e)
  {
    var h, both := Without(g, d), Without(g, d + e);
    LeftTwice(g, d, e, h.slots, both.slots);
    forall a | a in g.slots ensures SlotsWithout(h.slots[a], e) == both.slots[a] {}
    assert Without(h, e).slots == both.slots;
  }

  lemma ClearedTwice(g: Registry, d: set<RanUe>, e: set<RanUe>)
    ensures Cleared(Cleared(g, d), e) == Cleared(g, d + e)
  {
    var h, both := Cleared(g, d), Cleared(g, d + e);
    LeftTwice(g, d, e, h.slots, both.slots);
    forall a | a in g.slots ensures SlotsLeft(h, e, a) == both.slots[a] {
      SlotsTwice(g, d, e, a);
    }
    assert Cleared(h, e).slots == both.slots;
  }

  lemma SlotsTwice(g: Registry, d: set<RanUe>, e: set<RanUe>, a: AmfUe)
    requires a in g.slots
    ensures SlotsLeft(Cleared(g, d), e, a) == SlotsLeft(g, d + e, a)
  {
    forall t | t in g.slots[a]
      ensures Claimed(g, d + e, a, t) <==> Claimed(g, d, a, t) || Claimed(Cleared(g, d), e, a, t)
    {
      ClaimedAfter(g, d, e, a, t);
    }
  }

  /** Of what is gone nothing claims a place any more, and the others claim what they did. */
  lemma ClaimedAfter(g: Registry, d: set<RanUe>, e: set<RanUe>, a: AmfUe, t: AccessType)
    ensures Claimed(g, d + e, a, t) <==> Claimed(g, d, a, t) || Claimed(Cleared(g, d), e, a, t)
  {
    var h := Cleared(g, d);
    if Claimed(g, d + e, a, t) {
      var w :| w in d + e && w in g.ues && Claims(g.ues[w], a, t);
      assert w in d || Claims(h.ues[w], a, t);
    }
    if Claimed(h, e, a, t) {
      var w :| w in e && w in h.ues && Claims(h.ues[w], a, t);
      assert Claims(g.ues[w], a, t);
    }
  }

  lemma WithoutNone(g: Registry)
    requires g.used == g.pool.Keys
    ensures Without(g, {}) == Cleared(g, {}) == g
  {
    LeftNone(g);
    forall a | a in g.slots ensures SlotsWithout(g.slots[a], {}) == SlotsLeft(g, {}, a) == g.slots[a] {}
    assert Without(g, {}).slots == Cleared(g, {}).slots == g.slots;
  }

  lemma LeftNone(g: Registry)
    requires g.used == g.pool.Keys
    ensures Left(g, {}, g.slots) == g
  {
    var h := Left(g, {}, g.slots);
    assert h.pool == g.pool;
    forall r | r in g.lists ensures ListWithout(g.lists[r], {}) == g.lists[r] {}
    assert h.lists == g.lists && h.ues == g.ues;
  }

  // ---------------------------------------------------------------- removing

  function Unlink(g: Registry, u: RanUe): (h: Registry)
    requires Closed(g) && u in g.ues && g.ues[u].ran != null
  {
    var f := g.ues[u];
    if f.amf == null then g
    else g.(slots := g.slots[f.amf := g.slots[f.amf] - {f.ran.anType}], ues := g.ues[u := f.(amf := null)])
  }

  /** `RanUe.Remove`: the UE's connection for the RAN's access type goes, whichever connection that is. */
  function Remove(g: Registry, u: RanUe): (h: Registry)
    requires Closed(g) && u in g.ues
  {
    var f := g.ues[u];
    if f.ran == null then g
    else
      Unlink(g, u).(lists := g.lists[f.ran := g.lists[f.ran] - {f.ranId}], pool := g.pool - {f.amfId},
      used := g.used - {f.amfId})
  }

  /** A connection's places: one pool key, one list key. */
  lemma PoolKeyIsUnique(g: Registry, u: RanUe, id: int)
    requires Inv(g) && Live(g, u) && id in g.pool
    ensures g.pool[id] == u <==> id == g.ues[u].amfId
  {
    assert PoolOk(g, id);
  }

  lemma ListKeyIsUnique(g: Registry, u: RanUe, r: AmfRan, k: int)
    requires Inv(g) && Live(g, u) && r in g.lists && k in g.lists[r]
    ensures g.lists[r][k] == u <==> r == g.ues[u].ran && k == g.ues[u].ranId
  {
    assert EntryOk(g, r, k);
    assert PoolOk(g, g.ues[u].amfId);
  }

  /** A connection that is already gone goes no further. */
  lemma RemoveGone(g: Registry, dead: set<RanUe>, u: RanUe)
    requires Inv(g) && Live(g, u) && u in dead
    ensures Closed(Cleared(g, dead))
    ensures Remove(Cleared(g, dead), u) == Cleared(g, dead)
  {
    var h, f := Cleared(g, dead), g.ues[u];
    assert PoolOk(g, f.amfId);
    WithoutKeeps(g, dead);
    assert f.ranId !in h.lists[f.ran] by {
      assert f.ranId in g.lists[f.ran] ==> EntryOk(g, f.ran, f.ranId);
    }
    assert h.lists[f.ran] - {f.ranId} == h.lists[f.ran];
    assert h.pool - {f.amfId} == h.pool && h.used - {f.amfId} == h.used;
  }

  lemma RemovedFromPool(g: Registry, u: RanUe)
    requires Inv(g) && Live(g, u)
    ensures g.pool - {g.ues[u].amfId} == PoolWithout(g.pool, {u})
  {
    forall id | id in g.pool ensures g.pool[id] == u <==> id == g.ues[u].amfId {
      PoolKeyIsUnique(g, u, id);
    }
  }

  lemma RemovedFromLists(g: Registry, u: RanUe)
    requires Inv(g) && Live(g, u) && g.ues[u].ran in g.lists
    ensures g.lists[g.ues[u].ran := g.lists[g.ues[u].ran] - {g.ues[u].ranId}] == Without(g, {u}).lists
  {
    forall r | r in g.lists
      ensures ListWithout(g.lists[r], {u}) ==
              if r == g.ues[u].ran then g.lists[r] - {g.ues[u].ranId} else g.lists[r]
    {
      forall k | k in g.lists[r] ensures g.lists[r][k] == u <==> r == g.ues[u].ran && k == g.ues[u].ranId {
        ListKeyIsUnique(g, u, r, k);
      }
    }
  }

  lemma Unlinked(g: Registry, u: RanUe)
    requires Inv(g) && Live(g, u) && g.ues[u].ran != null
    ensures Unlink(g, u).slots == Cleared(g, {u}).slots && Unlink(g, u).ues == Cleared(g, {u}).ues
  {
    forall a | a in g.slots
      ensures SlotsLeft(g, {u}, a) ==
              if a == g.ues[u].amf then g.slots[a] - {g.ues[u].ran.anType} else g.slots[a]
    {
      forall t | t in g.slots[a] ensures Claimed(g, {u}, a, t) <==> a == g.ues[u].amf && t == g.ues[u].ran.anType {
        assert u in {u};
      }
    }
  }

  /** Removing a registered connection takes it out of pool and list, and empties the place it claims with its UE. */
  lemma RemoveIsExact(g: Registry, u: RanUe)
    requires Inv(g) && Live(g, u)
    ensures Remove(g, u) == Cleared(g, {u})
    ensures Remove(g, u) == Without(g, {u}) <==> OnlyOwnPlaces(g, {u})
  {
    assert PoolOk(g, g.ues[u].amfId);
    RemovedFromPool(g, u);
    RemovedFromLists(g, u);
    Unlinked(g, u);
    ClearedIsExact(g, {u});
  }

  /** One more removal after others: what the loops that remove several connections take at each step. */
  lemma RemoveAnother(g: Registry, dead: set<RanUe>, u: RanUe)
    requires Inv(g) && Live(g, u) && u !in dead
    ensures Inv(Cleared(g, dead)) && Live(Cleared(g, dead), u)
    ensures Remove(Cleared(g, dead), u) == Cleared(g, dead + {u})
  {
    WithoutKeeps(g, dead);
    LiveLeft(g, dead, Cleared(g, dead).slots, u);
    RemoveIsExact(Cleared(g, dead), u);
    ClearedTwice(g, dead, {u});
  }

  // ---------------------------------------------------------------- making connections

  /** `AmfRan.NewRanUe`, given the ID the allocator answers with. */
  function New(g: Registry, r: AmfRan, ranId: int, amfId: int, u: RanUe): (h: Registry)
    requires r in g.lists
  {
    Registry(g.pool[amfId := u], g.used + {amfId},
             if ranId == UNSPECIFIED then g.lists else g.lists[r := g.lists[r][ranId := u]],
             g.ues[u := Ue(ranId, amfId, r, null, null, null)], g.slots)
  }

  predicate IdFree(g: Registry, r: AmfRan, ranId: int)
    requires r in g.lists
  {
    ranId == UNSPECIFIED || ranId !in g.lists[r]
  }

  lemma NewEntries(g: Registry, r: AmfRan, ranId: int, amfId: int, u: RanUe, s: AmfRan, k: int)
    requires Inv(g) && r in g.lists && amfId !in g.used && u !in g.ues
    requires s in g.lists && k in New(g, r, ranId, amfId, u).lists[s]
    ensures EntryOk(New(g, r, ranId, amfId, u), s, k)
  {
    if k in g.lists[s] {
      assert EntryOk(g, s, k);
    }
  }

  lemma NewPooled(g: Registry, r: AmfRan, ranId: int, amfId: int, u: RanUe, id: int)
    requires Inv(g) && r in g.lists && amfId !in g.used && u !in g.ues && IdFree(g, r, ranId)
    requires id in New(g, r, ranId, amfId, u).pool
    ensures PoolOk(New(g, r, ranId, amfId, u), id)
  {
    if id != amfId {
      assert PoolOk(g, id);
      assert g.pool[id] != u;
    }
  }

  lemma NewCloses(g: Registry, r: AmfRan, ranId: int, amfId: int, u: RanUe)
    requires Closed(g) && r in g.lists
    ensures Closed(New(g, r, ranId, amfId, u))
  {
    var h := New(g, r, ranId, amfId, u);
    forall s | s in h.lists ensures ListClosed(h, s) {
      assert ListClosed(g, s);
    }
    forall w | w in h.ues ensures UeClosed(h, w) {
      assert w in g.ues ==> UeClosed(g, w);
    }
    forall a | a in h.slots ensures SlotsClosed(h, a) {
      assert SlotsClosed(g, a);
    }
  }

  lemma NewFits(g: Registry, r: AmfRan, ranId: int, amfId: int, u: RanUe)
    requires Inv(g) && r in g.lists && amfId !in g.used && u !in g.ues && IdFree(g, r, ranId)
    ensures Inv(New(g, r, ranId, amfId, u))
  {
    var h := New(g, r, ranId, amfId, u);
    NewCloses(g, r, ranId, amfId, u);
    forall id | id in h.pool ensures PoolOk(h, id) {
      NewPooled(g, r, ranId, amfId, u, id);
    }
    forall s, k | s in h.lists && k in h.lists[s] ensures EntryOk(h, s, k) {
      NewEntries(g, r, ranId, amfId, u, s, k);
    }
    forall a, t | a in h.slots && t in h.slots[a] ensures SlotOk(h, a, t) {
      assert SlotOk(g, a, t);
    }
  }

  lemma NewClashes(g: Registry, r: AmfRan, ranId: int, amfId: int, u: RanUe)
    requires Inv(g) && r in g.lists && amfId !in g.used && u !in g.ues && !IdFree(g, r, ranId)
    ensures !Inv(New(g, r, ranId, amfId, u))
  {
    var h, w := New(g, r, ranId, amfId, u), g.lists[r][ranId];
    assert EntryOk(g, r, ranId);
    assert h.pool[g.ues[w].amfId] == w && !ListedOk(h, w);
  }

  /** A new connection fits exactly when its RAN ID is free in that RAN, or not yet known. */
  lemma NewKeeps(g: Registry, r: AmfRan, ranId: int, amfId: int, u: RanUe)
    requires Inv(g) && r in g.lists && amfId !in g.used && u !in g.ues
    ensures Inv(New(g, r, ranId, amfId, u)) <==> IdFree(g, r, ranId)
  {
    if IdFree(g, r, ranId) {
      NewFits(g, r, ranId, amfId, u);
    } else {
      NewClashes(g, r, ranId, amfId, u);
    }
  }

  /** What a new connection changes: it is registered with these fields, and listed under its RAN ID if that is known;
      everything else is as before. */
  lemma NewIsExact(g: Registry, r: AmfRan, ranId: int, amfId: int, u: RanUe)
    requires Inv(g) && r in g.lists && amfId !in g.used && u !in g.ues
    ensures var h := New(g, r, ranId, amfId, u);
            && Live(h, u) && h.ues[u] == Ue(ranId, amfId, r, null, null, null) && h.used == g.used + {amfId}
            && (ranId != UNSPECIFIED ==> ranId in h.lists[r] && h.lists[r][ranId] == u)
            && (ranId == UNSPECIFIED ==> h.lists == g.lists)
            && (forall w :: w in g.ues ==> h.ues[w] == g.ues[w] && (Live(h, w) <==> Live(g, w)))
            && (forall s, k :: s in g.lists && (s != r || k != ranId) ==>
                                 (k in h.lists[s] <==> k in g.lists[s])
                                 && (k in g.lists[s] ==> h.lists[s][k] == g.lists[s][k]))
            && h.lists.Keys == g.lists.Keys && h.slots == g.slots
  {
  }

  /**
   * The ID step of Initial UE Message: a connection that already has the RAN ID is detached and removed before the
   * new one is made.
   */
  function Initial(g: Registry, r: AmfRan, ranId: int, amfId: int, u: RanUe): (h: Registry)
    requires r in g.lists
  {
    New(WithoutStale(g, r, ranId), r, ranId, amfId, u)
  }

  function WithoutStale(g: Registry, r: AmfRan, ranId: int): (h: Registry)
    requires r in g.lists
    ensures r in h.lists
  {
    if ranId in g.lists[r] then Cleared(g, {g.lists[r][ranId]}) else g
  }

  /** What it changes: the new connection is registered with the message's RAN ID and listed under it, the stale one is
      gone, and every other connection and list entry is as before. */
  lemma InitialIsExact(g: Registry, r: AmfRan, ranId: int, amfId: int, u: RanUe)
    requires Inv(g) && r in g.lists && amfId !in g.used && u !in g.ues
    ensures var h := Initial(g, r, ranId, amfId, u);
            && Live(h, u) && h.ues[u] == Ue(ranId, amfId, r, null, null, null)
            && (ranId != UNSPECIFIED ==> ranId in h.lists[r] && h.lists[r][ranId] == u)
            && (forall w :: w in g.ues && !(ranId in g.lists[r] && w == g.lists[r][ranId]) ==>
                              h.ues[w] == g.ues[w] && (Live(h, w) <==> Live(g, w)))
            && (ranId in g.lists[r] ==> !Live(h, g.lists[r][ranId]) && h.ues[g.lists[r][ranId]].amf == null)
            && (forall s, k :: s in g.lists && (s != r || k != ranId) ==>
                                 (k in h.lists[s] <==> k in g.lists[s])
                                 && (k in g.lists[s] ==> h.lists[s][k] == g.lists[s][k]))
  {
    if ranId in g.lists[r] {
      StaleIsExact(g, r, ranId);
    }
    WithoutStaleKeeps(g, r, ranId, amfId);
    NewIsExact(WithoutStale(g, r, ranId), r, ranId, amfId, u);
  }

  lemma WithoutStaleKeeps(g: Registry, r: AmfRan, ranId: int, amfId: int)
    requires Inv(g) && r in g.lists && amfId !in g.used
    ensures Inv(WithoutStale(g, r, ranId)) && amfId !in WithoutStale(g, r, ranId).used
    ensures WithoutStale(g, r, ranId).ues.Keys == g.ues.Keys && WithoutStale(g, r, ranId).lists.Keys == g.lists.Keys
  {
    if ranId in g.lists[r] {
      WithoutKeeps(g, {g.lists[r][ranId]});
    }
  }

  lemma StaleIsExact(g: Registry, r: AmfRan, ranId: int)
    requires Inv(g) && r in g.lists && ranId in g.lists[r]
    ensures var h, w := Cleared(g, {g.lists[r][ranId]}), g.lists[r][ranId];
            && w in g.ues && !Live(h, w) && h.ues[w].amf == null
            && (forall v :: v in g.ues && v != w ==> h.ues[v] == g.ues[v] && (Live(h, v) <==> Live(g, v)))
            && (forall s, k :: s in g.lists && (s != r || k != ranId) ==>
                                 (k in h.lists[s] <==> k in g.lists[s])
                                 && (k in g.lists[s] ==> h.lists[s][k] == g.lists[s][k]))
  {
    var w := g.lists[r][ranId];
    assert EntryOk(g, r, ranId);
    LiveLeft(g, {w}, Cleared(g, {w}).slots, w);
    forall v | v in g.ues && v != w ensures Live(Cleared(g, {w}), v) <==> Live(g, v) {
      LiveLeft(g, {w}, Cleared(g, {w}).slots, v);
    }
    forall s, k | s in g.lists && k in g.lists[s] && (s != r || k != ranId) ensures g.lists[s][k] != w {
      ListKeyIsUnique(g, w, s, k);
    }
  }

  lemma InitialKeeps(g: Registry, r: AmfRan, ranId: int, amfId: int, u: RanUe)
    requires Inv(g) && r in g.lists && amfId !in g.used && u !in g.ues
    ensures Inv(Initial(g, r, ranId, amfId, u))
  {
    if ranId in g.lists[r] {
      var w := g.lists[r][ranId];
      assert EntryOk(g, r, ranId);
      WithoutKeeps(g, {w});
      assert w !in ListWithout(g.lists[r], {w}).Values;
      NewFits(Cleared(g, {w}), r, ranId, amfId, u);
    } else {
      NewFits(g, r, ranId, amfId, u);
    }
  }

  // ---------------------------------------------------------------- linking to a UE

  /** `AmfUe.AttachRanUe`. */
  function Attach(g: Registry, a: AmfUe, u: RanUe): (h: Registry)
    requires a in g.slots && u in g.ues && g.ues[u].ran != null
  {
    g.(slots := g.slots[a := g.slots[a][g.ues[u].ran.anType := u]], ues := g.ues[u := g.ues[u].(amf := a)])
  }

  /** What attaching changes: the connection has the UE and the UE holds it. */
  lemma AttachIsExact(g: Registry, a: AmfUe, u: RanUe)
    requires a in g.slots && u in g.ues && g.ues[u].ran != null
    ensures var h, t := Attach(g, a, u), g.ues[u].ran.anType;
            && h.ues[u] == g.ues[u].(amf := a) && Held(h, u) && t in h.slots[a] && h.slots[a][t] == u
            && h.pool == g.pool && h.used == g.used && h.lists == g.lists
            && (forall w :: w in g.ues && w != u ==> h.ues[w] == g.ues[w])
            && (forall b, x :: b in g.slots && (b != a || x != t) ==>
                                 (x in h.slots[b] <==> x in g.slots[b])
                                 && (x in g.slots[b] ==> h.slots[b][x] == g.slots[b][x]))
  {
  }

  /** No other UE holds the connection. */
  predicate CanAttach(g: Registry, a: AmfUe, u: RanUe) {
    Held(g, u) ==> g.ues[u].amf == a
  }

  lemma AttachFits(g: Registry, a: AmfUe, u: RanUe)
    requires Inv(g) && a in g.slots && Live(g, u) && g.ues[u].ran != null && CanAttach(g, a, u)
    ensures Inv(Attach(g, a, u))
  {
    var h := Attach(g, a, u);
    assert Closed(h);
    forall id | id in h.pool ensures PoolOk(h, id) {
      assert PoolOk(g, id);
    }
    forall s, k | s in h.lists && k in h.lists[s] ensures EntryOk(h, s, k) {
      assert EntryOk(g, s, k);
    }
    forall b, t | b in h.slots && t in h.slots[b] ensures SlotOk(h, b, t) {
      assert h.slots[b][t] == u || SlotOk(g, b, t);
      assert t in g.slots[b] ==> SlotOk(g, b, t);
    }
  }

  /** Attaching keeps the invariant exactly when no other UE holds the connection. */
  lemma AttachKeeps(g: Registry, a: AmfUe, u: RanUe)
    requires Inv(g) && a in g.slots && Live(g, u) && g.ues[u].ran != null
    ensures Inv(Attach(g, a, u)) <==> CanAttach(g, a, u)
  {
    if CanAttach(g, a, u) {
      AttachFits(g, a, u);
    } else {
      var b, t := g.ues[u].amf, g.ues[u].ran.anType;
      assert Attach(g, a, u).slots[b][t] == u && !SlotOk(Attach(g, a, u), b, t);
    }
  }

  /** Attaching leaves every connection of the UE held exactly when it displaces none of them. */
  lemma AttachHolds(g: Registry, a: AmfUe, u: RanUe)
    requires Inv(g) && AllHeld(g, a) && a in g.slots && Live(g, u) && g.ues[u].ran != null
    ensures AllHeld(Attach(g, a, u), a)
            <==> (g.ues[u].ran.anType in g.slots[a] ==> g.slots[a][g.ues[u].ran.anType] == u)
  {
    var h, t := Attach(g, a, u), g.ues[u].ran.anType;
    if t in g.slots[a] && g.slots[a][t] != u {
      assert SlotOk(g, a, t);
      assert Live(h, g.slots[a][t]) && !Held(h, g.slots[a][t]);
    } else {
      forall w | w in h.ues && Live(h, w) && h.ues[w].amf == a ensures Held(h, w) {
        assert w == u || Held(g, w);
      }
    }
  }
}
