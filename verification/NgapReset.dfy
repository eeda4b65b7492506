/** NG Reset and the removal of a UE: several connections released at once. */
module NgapReset {
  import opened NgapObjects
  import opened NgapRegistry
  import opened NgapMoves
  import opened NgapLookup

  // ---------------------------------------------------------------- the whole interface

  /** The connections in a RAN's list. */
  function ListedIn(g: Registry, r: AmfRan): (us: set<RanUe>)
    requires r in g.lists
  {
    set k | k in g.lists[r] :: g.lists[r][k]
  }

  lemma ListedAre(g: Registry, r: AmfRan, u: RanUe)
    requires Inv(g) && r in g.lists
    ensures u in ListedIn(g, r) ==> u in g.ues && Live(g, u) && g.ues[u].ran == r && g.ues[u].ranId != UNSPECIFIED
    ensures u in g.ues && Live(g, u) && g.ues[u].ran == r && g.ues[u].ranId != UNSPECIFIED ==> u in ListedIn(g, r)
  {
    if u in ListedIn(g, r) {
      var k :| k in g.lists[r] && g.lists[r][k] == u;
      assert EntryOk(g, r, k);
    }
    if u in g.ues && Live(g, u) && g.ues[u].ran == r && g.ues[u].ranId != UNSPECIFIED {
      assert PoolOk(g, g.ues[u].amfId);
    }
  }

  /**
   * Releasing all of a RAN's list empties it and takes out exactly its connections with a known RAN ID, their IDs and
   * their UEs; those whose RAN ID is still unspecified stay registered, and other RANs' connections and lists are as
   * they were. But a UE loses its hold of a connection that stays if one of those listed has the same UE and access
   * type.
   */
  lemma WholeResetIsExact(g: Registry, r: AmfRan, u: RanUe)
    requires Inv(g) && r in g.lists && u in g.ues
    ensures var h, dead := Cleared(g, ListedIn(g, r)), ListedIn(g, r);
            && Inv(h) && h.lists[r] == map[]
            && (Live(h, u) <==> Live(g, u) && !(g.ues[u].ran == r && g.ues[u].ranId != UNSPECIFIED))
            && (Live(g, u) && !Live(h, u) ==> g.ues[u].amfId !in h.used && h.ues[u].amf == null)
            && (u !in dead ==> h.ues[u] == g.ues[u])
            && (u !in dead ==>
                  (Held(h, u) <==> Held(g, u) && !Claimed(g, dead, g.ues[u].amf, g.ues[u].ran.anType)))
            && (forall s :: s in g.lists && s != r ==> h.lists[s] == g.lists[s])
  {
    var dead := ListedIn(g, r);
    WithoutKeeps(g, dead);
    LiveLeft(g, dead, Cleared(g, dead).slots, u);
    ListedAre(g, r, u);
    if u !in dead {
      BystanderKeeps(g, dead, u);
    }
    forall s | s in g.lists && s != r ensures ListWithout(g.lists[s], dead) == g.lists[s] {
      forall k | k in g.lists[s] ensures g.lists[s][k] !in dead {
        assert EntryOk(g, s, k);
      }
    }
    assert forall k :: k in g.lists[r] ==> g.lists[r][k] in dead;
  }

  /** No connection of another RAN is in the place that one of this RAN's list claims. */
  predicate SparesOthers(g: Registry, r: AmfRan)
    requires r in g.lists
  {
    forall u :: u in g.ues && g.ues[u].ran != r && Held(g, u) ==>
                  !Claimed(g, ListedIn(g, r), g.ues[u].amf, g.ues[u].ran.anType)
  }

  /** The reset of a RAN leaves the links of other RANs' connections as they were exactly under that condition. */
  lemma ResetSparesOthers(g: Registry, r: AmfRan)
    requires Inv(g) && r in g.lists
    ensures (forall u :: u in g.ues && g.ues[u].ran != r ==> (Held(Cleared(g, ListedIn(g, r)), u) <==> Held(g, u)))
            <==> SparesOthers(g, r)
  {
    forall u | u in g.ues && g.ues[u].ran != r
      ensures Held(Cleared(g, ListedIn(g, r)), u) <==>
              Held(g, u) && !Claimed(g, ListedIn(g, r), g.ues[u].amf, g.ues[u].ran.anType)
    {
      ListedAre(g, r, u);
      WholeResetIsExact(g, r, u);
    }
  }

  /** The target of a handover, prepared and acknowledged. */
  function Handover(g: Registry, u: RanUe, r: AmfRan, amfId: int, w: RanUe, ranId: int): (h: Registry)
    requires u in g.ues && r in g.lists && w !in g.ues && g.ues[u].amf != null && g.ues[u].target == null
  {
    Acknowledge(Prepare(g, u, r, amfId, w), r, w, ranId)
  }

  /** A state in which the condition fails: once a handover to a RAN has been acknowledged, the reset of that RAN makes
      the UE lose its connection in another RAN, which stays registered with the UE. */
  lemma ResetDisplacesSource(g: Registry, u: RanUe, r: AmfRan, amfId: int, w: RanUe, ranId: int)
    requires Inv(g) && Live(g, u) && Held(g, u) && g.ues[u].target == null
    requires r in g.lists && r != g.ues[u].ran && r.anType == g.ues[u].ran.anType
    requires amfId !in g.used && w !in g.ues && ranId != UNSPECIFIED && ranId !in g.lists[r]
    ensures var h := Handover(g, u, r, amfId, w, ranId);
            && Inv(h) && Held(h, u) && !SparesOthers(h, r)
            && var k, a := Cleared(h, ListedIn(h, r)), g.ues[u].amf;
               Live(k, u) && k.ues[u].amf == a && r.anType !in k.slots[a]
  {
    var p := Prepare(g, u, r, amfId, w);
    PrepareKeeps(g, u, r, amfId, w);
    AcknowledgeKeeps(p, r, w, ranId);
    var h := Acknowledge(p, r, w, ranId);
    assert h == Handover(g, u, r, amfId, w, ranId);
    assert Held(h, u);
    ListedAre(h, r, w);
    assert w in ListedIn(h, r) && Claims(h.ues[w], g.ues[u].amf, r.anType);
    assert Claimed(h, ListedIn(h, r), g.ues[u].amf, r.anType);
    WholeResetIsExact(h, r, u);
  }

  // ---------------------------------------------------------------- part of the interface

  /** One logical connection named in the request. */
  datatype Item = Item(amfId: MessageId, ranId: MessageId)

  /** The connection of this RAN's list an item names: by the AMF's ID if it has one, else by the RAN's. */
  function Named(g: Registry, r: AmfRan, item: Item): (u: RanUe?)
    requires Closed(g) && r in g.lists
    ensures u != null ==> u in g.ues
  {
    if item.amfId.Given? then
      var u := ByAmfId(g, r, item.amfId);
      if u != null && g.ues[u].ranId != UNSPECIFIED then u else null
    else ByRanId(g, r, item.ranId)
  }

  /** What the first `n` items name. */
  function NamedBy(g: Registry, r: AmfRan, items: seq<Item>, n: nat): (us: set<RanUe>)
    requires Closed(g) && r in g.lists && n <= |items|
  {
    set i | 0 <= i < n && Named(g, r, items[i]) != null :: Named(g, r, items[i]) as RanUe
  }

  /** The item names this connection, by the AMF's ID if it has one and else by the RAN's. */
  predicate Names(f: Ue, item: Item) {
    if item.amfId.Given? then item.amfId == Given(f.amfId) else item.ranId == Given(f.ranId)
  }

  lemma NamedIs(g: Registry, r: AmfRan, item: Item, u: RanUe)
    requires Inv(g) && r in g.lists && u in g.ues
    ensures Named(g, r, item) == u
            <==> Live(g, u) && g.ues[u].ran == r && g.ues[u].ranId != UNSPECIFIED && Names(g.ues[u], item)
  {
    if Named(g, r, item) == u {
      NamedAreLive(g, r, item);
      if item.amfId.Absent? {
        assert EntryOk(g, r, item.ranId.value);
      }
    }
    if Live(g, u) && g.ues[u].ran == r && g.ues[u].ranId != UNSPECIFIED && Names(g.ues[u], item) {
      assert PoolOk(g, g.ues[u].amfId);
    }
  }

  /** The connections that a partial reset names are exactly this RAN's registered ones with a known RAN ID whose ID
      is in an item. */
  lemma NamedByAre(g: Registry, r: AmfRan, items: seq<Item>, n: nat, u: RanUe)
    requires Inv(g) && r in g.lists && n <= |items| && u in g.ues
    ensures u in NamedBy(g, r, items, n)
            <==> && Live(g, u) && g.ues[u].ran == r && g.ues[u].ranId != UNSPECIFIED
                 && exists i :: 0 <= i < n && Names(g.ues[u], items[i])
  {
    forall i | 0 <= i < n
      ensures Named(g, r, items[i]) == u
              <==> Live(g, u) && g.ues[u].ran == r && g.ues[u].ranId != UNSPECIFIED && Names(g.ues[u], items[i])
    {
      NamedIs(g, r, items[i], u);
    }
  }

  /** So the reset takes out exactly those, with their IDs free and their UEs detached, and leaves all others as they
      were but for the places that those claimed. */
  lemma PartialResetIsExact(g: Registry, r: AmfRan, items: seq<Item>, u: RanUe)
    requires Inv(g) && r in g.lists && u in g.ues
    ensures var h, dead := Cleared(g, NamedBy(g, r, items, |items|)), NamedBy(g, r, items, |items|);
            && Inv(h)
            && (Live(h, u) <==> Live(g, u) && !(g.ues[u].ran == r && g.ues[u].ranId != UNSPECIFIED
                                                && exists i :: 0 <= i < |items| && Names(g.ues[u], items[i])))
            && (Live(g, u) && !Live(h, u) ==> g.ues[u].amfId !in h.used && h.ues[u].amf == null)
            && (u !in dead ==> h.ues[u] == g.ues[u])
            && (u !in dead ==>
                  (Held(h, u) <==> Held(g, u) && !Claimed(g, dead, g.ues[u].amf, g.ues[u].ran.anType)))
  {
    var dead := NamedBy(g, r, items, |items|);
    NamedByAre(g, r, items, |items|, u);
    WithoutKeeps(g, dead);
    LiveLeft(g, dead, Cleared(g, dead).slots, u);
    if u !in dead {
      BystanderKeeps(g, dead, u);
    } else {
      assert PoolOk(g, g.ues[u].amfId);
    }
  }

  lemma NamedAreLive(g: Registry, r: AmfRan, item: Item)
    requires Inv(g) && r in g.lists && Named(g, r, item) != null
    ensures Live(g, Named(g, r, item)) && g.ues[Named(g, r, item)].ran == r
  {
    if item.amfId.Given? {
      assert PoolOk(g, item.amfId.value);
    } else {
      assert EntryOk(g, r, item.ranId.value);
    }
  }

  /** Among what is left, an item names what it named at first, unless that is gone. */
  lemma NamedAfter(g: Registry, r: AmfRan, item: Item, dead: set<RanUe>)
    requires Inv(g) && r in g.lists
    ensures Closed(Cleared(g, dead))
    ensures Named(Cleared(g, dead), r, item) == if Named(g, r, item) in dead then null else Named(g, r, item)
  {
    WithoutKeeps(g, dead);
  }

  lemma NamedByNext(g: Registry, r: AmfRan, items: seq<Item>, n: nat)
    requires Closed(g) && r in g.lists && n < |items|
    ensures var u := Named(g, r, items[n]);
            NamedBy(g, r, items, n + 1) == NamedBy(g, r, items, n) + if u == null then {} else {u}
  {
  }

  // ---------------------------------------------------------------- one UE

  /** A UE's connections, for every access type. */
  function ConnectionsOf(g: Registry, a: AmfUe): (us: set<RanUe>)
    requires a in g.slots
  {
    set t | t in g.slots[a] :: g.slots[a][t]
  }

  /** Those that have the UE and are not held by it, the targets of handovers, are not among them. */
  lemma ConnectionsAre(g: Registry, a: AmfUe, u: RanUe)
    requires Inv(g) && a in g.slots
    ensures u in ConnectionsOf(g, a) <==> Held(g, u) && g.ues[u].amf == a
    ensures u in ConnectionsOf(g, a) ==> Live(g, u)
  {
    if u in ConnectionsOf(g, a) {
      var t :| t in g.slots[a] && g.slots[a][t] == u;
      assert SlotOk(g, a, t);
    }
  }

  /** Removing a UE takes out exactly the connections it holds and leaves other UEs' links as they were; no connection
      keeps the removed UE exactly if it held all that had it. */
  lemma UeRemovalIsExact(g: Registry, a: AmfUe, u: RanUe)
    requires Inv(g) && a in g.slots && u in g.ues
    ensures var h := Cleared(g, ConnectionsOf(g, a));
            && Inv(h) && h.slots[a] == map[]
            && h == Without(g, ConnectionsOf(g, a))
            && (Live(h, u) <==> Live(g, u) && !(Held(g, u) && g.ues[u].amf == a))
            && (Live(h, u) ==> h.ues[u] == g.ues[u] && (Held(h, u) <==> Held(g, u)))
            && ((forall w :: w in g.ues && Live(h, w) ==> h.ues[w].amf != a) <==> AllHeld(g, a))
  {
    var dead := ConnectionsOf(g, a);
    var h := Cleared(g, dead);
    WithoutKeeps(g, dead);
    forall w | w in g.ues
      ensures w in dead <==> Held(g, w) && g.ues[w].amf == a
      ensures Live(h, w) <==> Live(g, w) && w !in dead
      ensures w !in dead ==> h.ues[w] == g.ues[w]
    {
      ConnectionsAre(g, a, w);
      LiveLeft(g, dead, h.slots, w);
    }
    assert OnlyOwnPlaces(g, dead);
    ClearedIsExact(g, dead);
    forall t | t in g.slots[a] ensures g.slots[a][t] in dead {}
    if u !in dead {
      BystanderKeeps(g, dead, u);
    }
  }
}
