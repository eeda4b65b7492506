/** The AMF context on the heap: its methods update pools, lists and links in place, as the registry value says. */
module NgapContext {
  import opened NgapObjects
  import opened NgapRegistry
  import opened NgapMoves
  import opened NgapLookup
  import opened NgapReset
  import opened Walks

  /** What the ID allocator answers. */
  datatype Allocation = Exhausted | Fresh(id: int)

  class AMFContext {
    var ranUePool: map<int, RanUe>
    var inUse: set<int>
    ghost var rans: set<AmfRan>
    ghost var amfUes: set<AmfUe>
    ghost var ranUes: set<RanUe>

    constructor ()
      ensures Inv(View()) && rans == {} && amfUes == {} && ranUes == {}
    {
      ranUePool, inUse := map[], {};
      rans, amfUes, ranUes := {}, {}, {};
    }

    /** The registry these objects hold. */
    ghost function View(): (g: Registry)
      reads this, rans, amfUes, ranUes
    {
      Registry(ranUePool, inUse, map r | r in rans :: r.ranUeList, map u | u in ranUes :: FieldsOf(u),
               map a | a in amfUes :: a.ranUe)
    }

    static ghost function FieldsOf(u: RanUe): (f: Ue)
      reads u
    {
      Ue(u.ranUeNgapId, u.amfUeNgapId, u.ran, u.amfUe, u.sourceUe, u.targetUe)
    }

    /** What removing a connection may write. */
    static ghost function Touched(u: RanUe?): (os: set<object>)
      reads u
    {
      if u == null then {}
      else {u} + (if u.ran == null then {} else {u.ran}) + (if u.amfUe == null then {} else {u.amfUe})
    }

    /** A new RAN connects. */
    method NewAmfRan(t: AccessType) returns (r: AmfRan)
      modifies this`rans
      ensures fresh(r) && r.anType == t && rans == old(rans) + {r}
      ensures View() == old(View()).(lists := old(View()).lists[r := map[]])
    {
      r := new AmfRan(t);
      rans := rans + {r};
    }

    method NewAmfUe() returns (a: AmfUe)
      modifies this`amfUes
      ensures fresh(a) && amfUes == old(amfUes) + {a}
      ensures View() == old(View()).(slots := old(View()).slots[a := map[]])
    {
      a := new AmfUe();
      amfUes := amfUes + {a};
    }

    // -------------------------------------------------------------- one write each, and what it does to the registry

    method StoreListed(r: AmfRan, k: int, u: RanUe)
      requires r in rans
      modifies r
      ensures View() == old(View()).(lists := old(View()).lists[r := old(View()).lists[r][k := u]])
    {
      r.ranUeList := r.ranUeList[k := u];
    }

    method DeleteListed(r: AmfRan, k: int)
      requires r in rans
      modifies r
      ensures View() == old(View()).(lists := old(View()).lists[r := old(View()).lists[r] - {k}])
    {
      r.ranUeList := r.ranUeList - {k};
    }

    method DeleteSlot(a: AmfUe, t: AccessType)
      requires a in amfUes
      modifies a
      ensures View() == old(View()).(slots := old(View()).slots[a := old(View()).slots[a] - {t}])
    {
      a.DetachRanUe(t);
    }

    method DetachAmfUe(u: RanUe)
      requires u in ranUes
      modifies u`amfUe
      ensures View() == SetAmf(old(View()), u, null)
    {
      u.DetachAmfUe();
    }

    method Unpool(id: int)
      modifies this`ranUePool, this`inUse
      ensures View() == old(View()).(pool := old(View()).pool - {id}, used := old(View()).used - {id})
    {
      ranUePool := ranUePool - {id};
      inUse := inUse - {id};
    }

    /** A fresh connection enters the pool under its ID. */
    method Pool(c: RanUe)
      requires c !in ranUes
      modifies this`ranUePool, this`inUse, this`ranUes
      ensures ranUes == old(ranUes) + {c}
      ensures View() == old(View()).(pool := old(View()).pool[c.amfUeNgapId := c],
                                     used := old(View()).used + {c.amfUeNgapId},
                                     ues := old(View()).ues[c := FieldsOf(c)])
    {
      inUse := inUse + {c.amfUeNgapId};
      ranUePool := ranUePool[c.amfUeNgapId := c];
      ranUes := ranUes + {c};
    }

    // -------------------------------------------------------------- the operations

    /** `AmfRan.NewRanUe`; without an ID there is an error and no connection. */
    method NewRanUe(r: AmfRan, ranId: int, allocation: Allocation) returns (u: RanUe?)
      requires r in rans
      requires allocation.Fresh? ==> allocation.id !in inUse
      modifies this`ranUePool, this`inUse, this`ranUes, r
      ensures allocation.Exhausted? ==> u == null && View() == old(View())
      ensures allocation.Fresh? ==>
                u != null && fresh(u) && ranUes == old(ranUes) + {u}
                && View() == New(old(View()), r, ranId, allocation.id, u)
    {
      if allocation.Exhausted? {
        return null;
      }
      var c := new RanUe(ranId, allocation.id, r);
      if ranId != UNSPECIFIED {
        StoreListed(r, ranId, c);
      }
      Pool(c);
      u := c;
    }

    /** `RanUe.Remove`; nothing happens for no connection or one without a RAN. */
    method Remove(u: RanUe?) returns (ok: bool)
      requires u != null ==> u in ranUes
      requires Closed(View())
      modifies this`ranUePool, this`inUse, Touched(u)
      ensures ok <==> u != null && old(u.ran) != null
      ensures View() == if u == null then old(View()) else NgapRegistry.Remove(old(View()), u)
    {
      if u == null {
        return false;
      }
      var ran := u.ran;
      if ran == null {
        return false;
      }
      ghost var g := View();
      assert UeClosed(g, u);
      if u.amfUe != null {
        DeleteSlot(u.amfUe, ran.anType);
        DetachAmfUe(u);
      }
      assert View() == Unlink(g, u);
      DeleteListed(ran, u.ranUeNgapId);
      Unpool(u.amfUeNgapId);
      ok := true;
    }

    method SetFields(u: RanUe, r: AmfRan, ranId: int)
      requires u in ranUes
      modifies u`ran, u`ranUeNgapId
      ensures View() == old(View()).(ues := old(View()).ues[u := old(View()).ues[u].(ran := r, ranId := ranId)])
    {
      u.ran := r;
      u.ranUeNgapId := ranId;
    }

    /** `RanUe.SwitchToRan`; a missing connection or RAN is an error. */
    method SwitchToRan(u: RanUe?, newRan: AmfRan?, ranId: int) returns (ok: bool)
      requires u != null ==> u in ranUes && u.ran != null && u.ran in rans
      requires newRan != null ==> newRan in rans
      modifies Touched(u), if newRan == null then {} else {newRan}
      ensures ok <==> u != null && newRan != null
      ensures View() == if ok then Switch(old(View()), u, newRan, ranId) else old(View())
    {
      if u == null || newRan == null {
        return false;
      }
      DeleteListed(u.ran, u.ranUeNgapId);
      StoreListed(newRan, ranId, u);
      SetFields(u, newRan, ranId);
      ok := true;
    }

    method AttachRanUe(a: AmfUe, u: RanUe)
      requires a in amfUes && u in ranUes && u.ran != null
      modifies a, u`amfUe
      ensures View() == Attach(old(View()), a, u)
    {
      a.AttachRanUe(u);
    }

    /** `AttachRanUeToAmfUeAndReleaseOldIfAny`, as far as the links go. */
    method AttachRanUeReleasingOld(a: AmfUe, u: RanUe)
      requires a in amfUes && u in ranUes && u.ran != null && Closed(View())
      modifies a, u`amfUe, a.ranUe.Values
      ensures View() == AttachReleasing(old(View()), a, u)
    {
      assert SlotsClosed(View(), a);
      var t := u.ran.anType;
      if t in a.ranUe {
        DetachAmfUe(a.ranUe[t]);
      }
      AttachRanUe(a, u);
    }

    /** Release of a connection whose UE has been superseded by another context. */
    method ReleaseSuperseded(u: RanUe)
      requires u in ranUes && u.ran != null && Closed(View())
      modifies u`amfUe, amfUes
      ensures View() == Unlink(old(View()), u)
    {
      assert UeClosed(View(), u);
      if u.amfUe != null {
        DeleteSlot(u.amfUe, u.ran.anType);
        DetachAmfUe(u);
      }
    }

    /** `SendHandoverRequest`: the target's connection is made and linked with the source's; without a new connection
        the source code finds a nil pointer. */
    method PrepareHandover(source: RanUe?, r: AmfRan?, allocation: Allocation) returns (u: RanUe?, panics: bool)
      requires (source != null ==> source in ranUes) && (r != null ==> r in rans)
      requires allocation.Fresh? ==> allocation.id !in inUse
      modifies this`ranUePool, this`inUse, this`ranUes, r, source
      ensures panics <==> source != null && old(source.amfUe) != null && r != null && old(source.targetUe) == null
                          && allocation.Exhausted?
      ensures u == null ==> View() == old(View())
      ensures u != null ==> source != null && r != null && allocation.Fresh? && fresh(u)
                            && ranUes == old(ranUes) + {u}
                            && View() == Prepare(old(View()), source, r, allocation.id, u) != old(View())
      ensures source != null && r != null && allocation.Fresh? && u == null ==>
                old(source.amfUe) == null || old(source.targetUe) != null
    {
      u, panics := null, false;
      if source == null || source.amfUe == null || r == null || source.targetUe != null {
        return;
      }
      u := NewRanUe(r, UNSPECIFIED, allocation);
      if u == null {
        return null, true;
      }
      AttachSourceUeTargetUe(source, u);
    }

    method AttachSourceUeTargetUe(source: RanUe, target: RanUe)
      requires source in ranUes && target in ranUes && source != target && source.amfUe != null
      modifies source`targetUe, target`amfUe, target`sourceUe
      ensures View() == old(View()).(ues := old(View()).ues
                [target := old(View()).ues[target].(amf := old(View()).ues[source].amf, source := source)]
                [source := old(View()).ues[source].(target := target)])
    {
      target.amfUe := source.amfUe;
      target.sourceUe := source;
      source.targetUe := target;
    }

    /** The links that Handover Notify changes. */
    method CompleteHandover(u: RanUe)
      requires u in ranUes && u.ran != null && Closed(View())
      modifies u, u.sourceUe, u.amfUe
      ensures View() == Complete(old(View()), u)
    {
      assert UeClosed(View(), u);
      var a := u.amfUe;
      if a == null || u.sourceUe == null {
        return;
      }
      DetachAmfUe(u.sourceUe);
      AttachRanUe(a, u);
    }

    /** The ID step of Handover Request Acknowledge. */
    method AcknowledgeTarget(r: AmfRan, u: RanUe, ranId: int)
      requires r in rans && u in ranUes && u.ran == r
      modifies r, u
      ensures View() == Acknowledge(old(View()), r, u, ranId)
    {
      SetFields(u, r, ranId);
      StoreListed(r, ranId, u);
    }

    // -------------------------------------------------------------- several connections at once

    /** Removes a connection, if there is one, and takes the registry from one known state to another. */
    method RemoveTo(u: RanUe?, ghost before: Registry, ghost after: Registry)
      requires View() == before && Closed(before) && (u != null ==> u in before.ues)
      requires after == if u == null then before else NgapRegistry.Remove(before, u)
      modifies this`ranUePool, this`inUse, rans, ranUes, amfUes
      ensures View() == after
    {
      assert u != null ==> UeClosed(before, u);
      var ok := Remove(u);
    }

    /** Releases one more of the registry's connections, after those in `dead`. */
    method RemoveNext(u: RanUe, ghost g: Registry, ghost dead: set<RanUe>)
      requires Inv(g) && Live(g, u) && u !in dead && View() == Cleared(g, dead)
      modifies this`ranUePool, this`inUse, rans, ranUes, amfUes
      ensures View() == Cleared(g, dead + {u})
    {
      RemoveAnother(g, dead, u);
      RemoveTo(u, Cleared(g, dead), Cleared(g, dead + {u}));
    }

    method RemoveListed(r: AmfRan, ghost g: Registry, keys: set<int>) returns (rest: set<int>)
      requires Inv(g) && r in rans && r in g.lists && keys != {} && keys <= g.lists[r].Keys
      requires View() == Cleared(g, ListedBut(g, r, keys))
      modifies this`ranUePool, this`inUse, rans, ranUes, amfUes
      ensures View() == Cleared(g, ListedBut(g, r, rest)) && rest <= keys && |rest| < |keys|
    {
      var k;
      k, rest := Next(keys);
      StillListed(g, r, k, keys);
      var u := r.ranUeList[k];
      RemoveNext(u, g, ListedBut(g, r, keys));
    }

    method StartWalk(r: AmfRan) returns (keys: set<int>)
      requires Inv(View()) && r in rans
      ensures r in View().lists && keys == View().lists[r].Keys
      ensures View() == Cleared(View(), ListedBut(View(), r, keys))
    {
      keys := r.ranUeList.Keys;
      WithoutNone(View());
      ListedButEnds(View(), r);
    }

    /** `AmfRan.RemoveAllRanUe`. */
    method RemoveAllRanUe(r: AmfRan)
      requires Inv(View()) && r in rans
      modifies this`ranUePool, this`inUse, rans, ranUes, amfUes
      ensures View() == Cleared(old(View()), ListedIn(old(View()), r))
    {
      ghost var g := View();
      var keys := StartWalk(r);
      RemoveWalking(r, keys, g);
    }

    /** The list is walked in no particular order, each connection leaving it as it is removed. */
    method RemoveWalking(r: AmfRan, all: set<int>, ghost g: Registry)
      requires Inv(g) && r in rans && r in g.lists && all <= g.lists[r].Keys
      requires View() == Cleared(g, ListedBut(g, r, all))
      modifies this`ranUePool, this`inUse, rans, ranUes, amfUes
      ensures View() == Cleared(g, ListedIn(g, r))
    {
      var keys := all;
      while keys != {}
        invariant keys <= g.lists[r].Keys
        invariant View() == Cleared(g, ListedBut(g, r, keys))
        decreases |keys|
      {
        keys := RemoveListed(r, g, keys);
      }
      ListedButEnds(g, r);
    }

    /** `AmfRan.FindRanUeByAmfUeNgapID`: the first connection of the list with the ID. */
    method FindByAmfUeNgapId(r: AmfRan, id: int) returns (u: RanUe?, ghost at: int)
      ensures u != null ==> at in r.ranUeList && r.ranUeList[at] == u && u.amfUeNgapId == id
      ensures u == null ==> forall k :: k in r.ranUeList ==> r.ranUeList[k].amfUeNgapId != id
    {
      var keys := r.ranUeList.Keys;
      u, at := null, 0;
      while keys != {}
        invariant keys <= r.ranUeList.Keys
        invariant forall k :: k in r.ranUeList && k !in keys ==> r.ranUeList[k].amfUeNgapId != id
        decreases |keys|
      {
        var k, rest := Next(keys);
        if r.ranUeList[k].amfUeNgapId == id {
          return r.ranUeList[k], k;
        }
        keys := rest;
      }
    }

    /** The connection an item of a partial reset names; an item without IDs leaves the one found before. */
    method FindNamed(r: AmfRan, item: Item, last: RanUe?) returns (u: RanUe?)
      requires Inv(View()) && r in rans
      ensures u == if item.amfId.Absent? && item.ranId.Absent? then last else Named(View(), r, item)
    {
      if item.amfId.Given? {
        ghost var at;
        u, at := FindByAmfUeNgapId(r, item.amfId.value);
        FoundIsNamed(View(), r, item, u, at);
      } else if item.ranId.Given? {
        u := if item.ranId.value in r.ranUeList then r.ranUeList[item.ranId.value] else null;
      } else {
        u := last;
      }
    }

    /** NG Reset of part of the interface: each item's connection is removed. */
    method ResetPart(r: AmfRan, items: seq<Item>)
      requires Inv(View()) && r in rans
      modifies this`ranUePool, this`inUse, rans, ranUes, amfUes
      ensures View() == Cleared(old(View()), NamedBy(old(View()), r, items, |items|))
    {
      ghost var g := View();
      WithoutNone(g);
      assert NamedBy(g, r, items, 0) == {};
      var u: RanUe? := null;
      for i := 0 to |items|
        invariant View() == Cleared(g, NamedBy(g, r, items, i))
        invariant u != null ==> u in NamedBy(g, r, items, i)
      {
        u := ResetItem(r, items, i, u, g);
      }
    }

    method ResetItem(r: AmfRan, items: seq<Item>, i: nat, last: RanUe?, ghost g: Registry) returns (u: RanUe?)
      requires Inv(g) && r in rans && r in g.lists && i < |items|
      requires View() == Cleared(g, NamedBy(g, r, items, i)) && (last != null ==> last in NamedBy(g, r, items, i))
      modifies this`ranUePool, this`inUse, rans, ranUes, amfUes
      ensures View() == Cleared(g, NamedBy(g, r, items, i + 1))
      ensures u != null ==> u in NamedBy(g, r, items, i + 1)
    {
      u := FindItem(r, items, i, last, g);
      RemoveTo(u, Cleared(g, NamedBy(g, r, items, i)), Cleared(g, NamedBy(g, r, items, i + 1)));
    }

    /** What the item names, and that removing it takes the registry on. */
    method FindItem(r: AmfRan, items: seq<Item>, i: nat, last: RanUe?, ghost g: Registry) returns (u: RanUe?)
      requires Inv(g) && r in rans && r in g.lists && i < |items|
      requires View() == Cleared(g, NamedBy(g, r, items, i)) && (last != null ==> last in NamedBy(g, r, items, i))
      ensures var before, after := Cleared(g, NamedBy(g, r, items, i)), Cleared(g, NamedBy(g, r, items, i + 1));
              && Closed(before) && (u != null ==> u in before.ues && u in NamedBy(g, r, items, i + 1))
              && after == if u == null then before else NgapRegistry.Remove(before, u)
    {
      WithoutKeeps(g, NamedBy(g, r, items, i));
      u := FindNamed(r, items[i], last);
      NamedRemoval(g, r, items, i, last, u);
    }

    // -------------------------------------------------------------- messages

    /** The ID step of Initial UE Message; without a new connection the handler finds a nil pointer. */
    method InitialUe(r: AmfRan, ranId: int, allocation: Allocation) returns (u: RanUe?, panics: bool)
      requires Inv(View()) && r in rans
      requires allocation.Fresh? ==> allocation.id !in inUse
      modifies this`ranUePool, this`inUse, this`ranUes, rans, ranUes, amfUes
      ensures panics <==> allocation.Exhausted?
      ensures panics ==> u == null && r in old(View()).lists && View() == WithoutStale(old(View()), r, ranId)
      ensures !panics ==>
                u != null && fresh(u) && ranUes == old(ranUes) + {u}
                && View() == Initial(old(View()), r, ranId, allocation.id, u)
    {
      ghost var g := View();
      if ranId in r.ranUeList {
        assert EntryOk(g, r, ranId);
        ReleaseStale(r, r.ranUeList[ranId]);
      }
      u := NewRanUe(r, ranId, allocation);
      panics := u == null;
    }

    /** A connection that another message shows to be stale lets go of its UE and is removed. */
    method ReleaseStale(r: AmfRan, w: RanUe)
      requires Inv(View()) && Live(View(), w) && w.ran == r
      modifies this`ranUePool, this`inUse, rans, ranUes, amfUes
      ensures View() == Cleared(old(View()), {w})
    {
      ghost var g := View();
      assert UeClosed(g, w);
      if w.amfUe != null {
        DeleteSlot(w.amfUe, r.anType);
        DetachAmfUe(w);
      }
      DetachedRemoval(g, w);
      RemoveTo(w, Unlink(g, w), Cleared(g, {w}));
    }

    /** `removeRanUeByInvalidId`, as far as the registry goes. */
    method RemoveRanUeByInvalidId(r: AmfRan, u: RanUe?)
      requires Closed(View()) && (u != null ==> u in ranUes)
      modifies this`ranUePool, this`inUse, rans, ranUes, amfUes
      ensures View() == if u == null then old(View()) else RemoveByInvalidId(old(View()), r, u)
    {
      if u == null {
        return;
      }
      ghost var g := View();
      UnlinkBothWays(r, u);
      RemoveTo(u, LetGo(g, r, u), RemoveByInvalidId(g, r, u));
    }

    method UnlinkBothWays(r: AmfRan, u: RanUe)
      requires Closed(View()) && u in ranUes
      modifies ranUes, amfUes
      ensures View() == LetGo(old(View()), r, u)
    {
      assert UeClosed(View(), u);
      var a := u.amfUe;
      if a != null && r.anType in a.ranUe && a.ranUe[r.anType] == u {
        DeleteSlot(a, r.anType);
      }
      DetachAmfUe(u);
    }

    /** `removeRanUeByInvalidUE`. */
    method RemoveRanUeByInvalidUE(r: AmfRan, amfId: MessageId, ranId: MessageId)
      requires Inv(View()) && r in rans
      modifies this`ranUePool, this`inUse, rans, ranUes, amfUes
      ensures View() == RemoveByInvalidUE(old(View()), r, amfId, ranId)
    {
      ghost var g := View();
      AfterFirst(g, r, amfId);
      if amfId.Given? {
        var u := FindByAmfId(amfId.value);
        if u != null && u.ran == r {
          RemoveRanUeByInvalidId(r, u);
        }
      }
      if ranId.Given? && ranId.value in r.ranUeList {
        assert ListClosed(View(), r);
        RemoveRanUeByInvalidId(r, r.ranUeList[ranId.value]);
      }
    }

    /** `RanUeFindByAmfUeNgapID`. */
    method FindByAmfId(id: int) returns (u: RanUe?)
      ensures u == if id in ranUePool then ranUePool[id] else null
    {
      u := if id in ranUePool then ranUePool[id] else null;
    }

    /** `ranUeFind`. */
    method RanUeFind(r: AmfRan?, amfId: MessageId, ranId: MessageId, first: bool, send: bool) returns (answer: Lookup)
      requires Inv(View()) && (r != null ==> r in rans)
      modifies this`ranUePool, this`inUse, rans, ranUes, amfUes
      ensures (View(), answer) == NgapLookup.RanUeFind(old(View()), r, amfId, ranId, first, send)
    {
      if r == null || amfId.Absent? {
        return BadCall;
      }
      var u := FindByAmfId(amfId.value);
      if u == null {
        RemoveRanUeByInvalidUE(r, amfId, ranId);
        return Refused(UnknownLocalUeNgapId, send);
      }
      if u.ran != r {
        RemoveRanUeByInvalidUE(r, amfId, ranId);
        return Refused(UnknownLocalUeNgapId, send);
      }
      if ranId.Absent? || first {
        if u.ranUeNgapId != UNSPECIFIED {
          RemoveRanUeByInvalidUE(r, amfId, ranId);
          return Refused(InconsistentRemoteUeNgapId, send);
        }
      } else if u.ranUeNgapId != ranId.value {
        RemoveRanUeByInvalidUE(r, amfId, ranId);
        return Refused(InconsistentRemoteUeNgapId, send);
      }
      answer := Found(u);
    }

    /** `AmfUe.Remove`, as far as connections go. */
    method RemoveConnections(a: AmfUe)
      requires Inv(View()) && a in amfUes
      modifies this`ranUePool, this`inUse, rans, ranUes, amfUes
      ensures View() == Cleared(old(View()), ConnectionsOf(old(View()), a))
    {
      ghost var g := View();
      WithoutNone(g);
      SlotsButEnds(g, a);
      RemoveHeld(a, a.ranUe.Keys, g);
    }

    /** Each connection the UE holds is removed while the map is ranged over. */
    method RemoveHeld(a: AmfUe, all: set<AccessType>, ghost g: Registry)
      requires Inv(g) && a in amfUes && a in g.slots && all <= g.slots[a].Keys
      requires View() == Cleared(g, SlotsBut(g, a, all))
      modifies this`ranUePool, this`inUse, rans, ranUes, amfUes
      ensures View() == Cleared(g, ConnectionsOf(g, a))
    {
      var types := all;
      while types != {}
        invariant types <= g.slots[a].Keys
        invariant View() == Cleared(g, SlotsBut(g, a, types))
        decreases |types|
      {
        types := RemoveOneHeld(a, g, types);
      }
      SlotsButEnds(g, a);
    }

    method RemoveOneHeld(a: AmfUe, ghost g: Registry, types: set<AccessType>) returns (rest: set<AccessType>)
      requires Inv(g) && a in amfUes && a in g.slots && types != {} && types <= g.slots[a].Keys
      requires View() == Cleared(g, SlotsBut(g, a, types))
      modifies this`ranUePool, this`inUse, rans, ranUes, amfUes
      ensures View() == Cleared(g, SlotsBut(g, a, rest)) && rest <= types && |rest| < |types|
    {
      var t;
      t, rest := Next(types);
      StillHeld(g, a, t, types);
      RemoveNext(a.ranUe[t], g, SlotsBut(g, a, types));
    }
  }

  /** The connections a UE holds for other access types. */
  ghost function SlotsBut(g: Registry, a: AmfUe, types: set<AccessType>): (us: set<RanUe>)
    requires a in g.slots
  {
    set t | t in g.slots[a] && t !in types :: g.slots[a][t]
  }

  lemma SlotsButEnds(g: Registry, a: AmfUe)
    requires a in g.slots
    ensures SlotsBut(g, a, g.slots[a].Keys) == {} && SlotsBut(g, a, {}) == ConnectionsOf(g, a)
  {
  }

  lemma StillHeld(g: Registry, a: AmfUe, t: AccessType, types: set<AccessType>)
    requires Inv(g) && a in g.slots && t in types && types <= g.slots[a].Keys
    ensures var u, dead := g.slots[a][t], SlotsBut(g, a, types);
            && Live(g, u) && u !in dead && SlotsBut(g, a, types - {t}) == dead + {u}
            && t in Cleared(g, dead).slots[a] && Cleared(g, dead).slots[a][t] == u
  {
    assert SlotOk(g, a, t);
    forall x | x in g.slots[a] && x !in types ensures g.slots[a][x] != g.slots[a][t] {
      assert SlotOk(g, a, x);
    }
  }

  /** Once its UE has been let go, removing a connection ends as removing it at once does. */
  lemma DetachedRemoval(g: Registry, u: RanUe)
    requires Inv(g) && Live(g, u) && g.ues[u].ran != null
    ensures Closed(Unlink(g, u)) && NgapRegistry.Remove(Unlink(g, u), u) == Cleared(g, {u})
  {
    RemoveIsExact(g, u);
  }

  /** Removing what an item names, or once more what an earlier one named. */
  lemma NamedRemoval(g: Registry, r: AmfRan, items: seq<Item>, i: nat, last: RanUe?, u: RanUe?)
    requires Inv(g) && r in g.lists && i < |items| && (last != null ==> last in NamedBy(g, r, items, i))
    requires Closed(Cleared(g, NamedBy(g, r, items, i)))
    requires var item := items[i];
             u == if item.amfId.Absent? && item.ranId.Absent? then last
                  else Named(Cleared(g, NamedBy(g, r, items, i)), r, item)
    ensures var before, after := NamedBy(g, r, items, i), NamedBy(g, r, items, i + 1);
            if u == null then after == before
            else u in after && u in g.ues && NgapRegistry.Remove(Cleared(g, before), u) == Cleared(g, after)
  {
    var dead := NamedBy(g, r, items, i);
    NamedAfter(g, r, items[i], dead);
    NamedByNext(g, r, items, i);
    if u != null {
      if u in dead {
        var j :| 0 <= j < i && Named(g, r, items[j]) == u;
        NamedAreLive(g, r, items[j]);
        RemoveGone(g, dead, u);
        assert NamedBy(g, r, items, i + 1) == dead;
      } else {
        NamedAreLive(g, r, items[i]);
        RemoveAnother(g, dead, u);
      }
    } else {
      assert NamedBy(g, r, items, i + 1) == dead;
    }
  }

  /** The connections listed under other keys. */
  ghost function ListedBut(g: Registry, r: AmfRan, keys: set<int>): (us: set<RanUe>)
    requires r in g.lists
  {
    set k | k in g.lists[r] && k !in keys :: g.lists[r][k]
  }

  lemma ListedButEnds(g: Registry, r: AmfRan)
    requires r in g.lists
    ensures ListedBut(g, r, g.lists[r].Keys) == {} && ListedBut(g, r, {}) == ListedIn(g, r)
  {
  }

  lemma StillListed(g: Registry, r: AmfRan, k: int, keys: set<int>)
    requires Inv(g) && r in g.lists && k in keys && keys <= g.lists[r].Keys
    ensures var u, dead := g.lists[r][k], ListedBut(g, r, keys);
            && Live(g, u) && u !in dead && ListedBut(g, r, keys - {k}) == dead + {u}
            && k in Cleared(g, dead).lists[r] && Cleared(g, dead).lists[r][k] == u
  {
    assert EntryOk(g, r, k);
    forall j | j in g.lists[r] && j !in keys ensures g.lists[r][j] != g.lists[r][k] {
      assert EntryOk(g, r, j);
    }
  }

  /** The search of the list finds what the pool holds under the ID, if it is listed in this RAN. */
  lemma FoundIsNamed(g: Registry, r: AmfRan, item: Item, u: RanUe?, at: int)
    requires Inv(g) && r in g.lists && item.amfId.Given?
    requires if u != null
             then at in g.lists[r] && g.lists[r][at] == u && u in g.ues && g.ues[u].amfId == item.amfId.value
             else forall k :: k in g.lists[r] && g.lists[r][k] in g.ues ==>
                                g.ues[g.lists[r][k]].amfId != item.amfId.value
    ensures u == Named(g, r, item)
  {
    if u != null {
      assert EntryOk(g, r, at);
    }
    var w := Named(g, r, item);
    if w != null {
      NamedAreLive(g, r, item);
      assert PoolOk(g, item.amfId.value);
      assert g.lists[r][g.ues[w].ranId] == w;
    }
  }
}
