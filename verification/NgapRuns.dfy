/** Every run of registry operations, on all RANs, UEs and connections together. */
module NgapRuns {
  import opened NgapObjects
  import opened NgapRegistry
  import opened NgapMoves
  import opened NgapLookup
  import opened NgapReset

  /** One operation; new objects and the allocator's answers are part of it. */
  datatype Op =
    | RanConnects(r: AmfRan)
    | UeAppears(a: AmfUe)
    | NewConnection(r: AmfRan, ranId: int, amfId: int, u: RanUe)
    | InitialUeMessage(r: AmfRan, ranId: int, amfId: int, u: RanUe)
    | RemoveConnection(u: RanUe)
    | ResetInterface(r: AmfRan)
    | ResetPartly(r: AmfRan, items: seq<Item>)
    | RemoveUe(a: AmfUe)
    | SwitchToRan(u: RanUe, r: AmfRan, ranId: int)
    | AttachToUe(a: AmfUe, u: RanUe)
    | ReleaseSuperseded(u: RanUe)
    | PrepareHandover(source: RanUe, r: AmfRan, amfId: int, u: RanUe)
    | HandoverAcknowledge(r: AmfRan, u: RanUe, ranId: int)
    | CompleteHandover(u: RanUe)
    | Message(r: AmfRan, local: MessageId, remote: MessageId, first: bool, send: bool)

  predicate Registered(g: Registry, u: RanUe) {
    Live(g, u) && g.ues[u].ran != null
  }

  /** Known objects, fresh ones and fresh IDs, as the callers have them; and the conditions that each operation needs to
      keep the invariant, by `NewKeeps`, `AttachKeeps`, `SwitchKeeps`, `AcknowledgeKeeps` and `CompleteKeeps`. The
      handlers check neither that an acknowledged RAN ID is free nor that a handover keeps the access type. */
  predicate Enabled(g: Registry, op: Op)
    requires Closed(g)
  {
    match op
    case RanConnects(r) => r !in g.lists
    case UeAppears(a) => a !in g.slots
    case NewConnection(r, ranId, amfId, u) =>
      r in g.lists && amfId !in g.used && u !in g.ues && IdFree(g, r, ranId)
    case InitialUeMessage(r, ranId, amfId, u) => r in g.lists && amfId !in g.used && u !in g.ues
    case RemoveConnection(u) => Live(g, u)
    case ResetInterface(r) => r in g.lists
    case ResetPartly(r, items) => r in g.lists
    case RemoveUe(a) => a in g.slots
    case SwitchToRan(u, r, ranId) => Registered(g, u) && r in g.lists && CanSwitch(g, u, r, ranId)
    case AttachToUe(a, u) => Registered(g, u) && a in g.slots && CanAttach(g, a, u)
    case ReleaseSuperseded(u) => Registered(g, u)
    case PrepareHandover(source, r, amfId, u) =>
      source in g.ues && r in g.lists && amfId !in g.used && u !in g.ues
    case HandoverAcknowledge(r, u, ranId) =>
      && r in g.lists && Live(g, u) && g.ues[u].ran == r && g.ues[u].ranId == UNSPECIFIED
      && ranId != UNSPECIFIED && ranId !in g.lists[r]
    case CompleteHandover(u) => Live(g, u) && CanComplete(g, u)
    case Message(r, local, remote, first, send) => r in g.lists
  }

  function Apply(g: Registry, op: Op): (h: Registry)
    requires Inv(g) && Enabled(g, op)
  {
    match op
    case RanConnects(r) => g.(lists := g.lists[r := map[]])
    case UeAppears(a) => g.(slots := g.slots[a := map[]])
    case NewConnection(r, ranId, amfId, u) => New(g, r, ranId, amfId, u)
    case InitialUeMessage(r, ranId, amfId, u) => Initial(g, r, ranId, amfId, u)
    case RemoveConnection(u) => Remove(g, u)
    case ResetInterface(r) => Cleared(g, ListedIn(g, r))
    case ResetPartly(r, items) => Cleared(g, NamedBy(g, r, items, |items|))
    case RemoveUe(a) => Cleared(g, ConnectionsOf(g, a))
    case SwitchToRan(u, r, ranId) => Switch(g, u, r, ranId)
    case AttachToUe(a, u) => AttachReleasing(g, a, u)
    case ReleaseSuperseded(u) => Unlink(g, u)
    case PrepareHandover(source, r, amfId, u) => Prepare(g, source, r, amfId, u)
    case HandoverAcknowledge(r, u, ranId) => Acknowledge(g, r, u, ranId)
    case CompleteHandover(u) => Complete(g, u)
    case Message(r, local, remote, first, send) => RanUeFind(g, r, local, remote, first, send).0
  }

  lemma StepKeeps(g: Registry, op: Op)
    requires Inv(g) && Enabled(g, op)
    ensures Inv(Apply(g, op))
  {
    match op
    case RanConnects(r) => RanConnectsKeeps(g, r);
    case UeAppears(a) => UeAppearsKeeps(g, a);
    case NewConnection(r, ranId, amfId, u) => NewKeeps(g, r, ranId, amfId, u);
    case InitialUeMessage(r, ranId, amfId, u) => InitialKeeps(g, r, ranId, amfId, u);
    case RemoveConnection(u) => RemoveIsExact(g, u); WithoutKeeps(g, {u});
    case ResetInterface(r) => WithoutKeeps(g, ListedIn(g, r));
    case ResetPartly(r, items) => WithoutKeeps(g, NamedBy(g, r, items, |items|));
    case RemoveUe(a) => WithoutKeeps(g, ConnectionsOf(g, a));
    case SwitchToRan(u, r, ranId) => SwitchKeeps(g, u, r, ranId);
    case AttachToUe(a, u) => AttachReleasingKeeps(g, a, u);
    case ReleaseSuperseded(u) => UnlinkKeeps(g, u);
    case PrepareHandover(source, r, amfId, u) => PrepareKeeps(g, source, r, amfId, u);
    case HandoverAcknowledge(r, u, ranId) => AcknowledgeKeeps(g, r, u, ranId);
    case CompleteHandover(u) => CompleteKeeps(g, u);
    case Message(r, local, remote, first, send) => RanUeFindIsSound(g, r, local, remote, first, send);
  }

  lemma RanConnectsKeeps(g: Registry, r: AmfRan)
    requires Inv(g) && r !in g.lists
    ensures Inv(g.(lists := g.lists[r := map[]]))
  {
    var h := g.(lists := g.lists[r := map[]]);
    forall id | id in h.pool ensures PoolOk(h, id) {
      assert PoolOk(g, id);
    }
    forall s, k | s in h.lists && k in h.lists[s] ensures EntryOk(h, s, k) {
      assert EntryOk(g, s, k);
    }
    forall a, t | a in h.slots && t in h.slots[a] ensures SlotOk(h, a, t) {
      assert SlotOk(g, a, t);
    }
  }

  lemma UeAppearsKeeps(g: Registry, a: AmfUe)
    requires Inv(g) && a !in g.slots
    ensures Inv(g.(slots := g.slots[a := map[]]))
  {
    var h := g.(slots := g.slots[a := map[]]);
    forall id | id in h.pool ensures PoolOk(h, id) {
      assert PoolOk(g, id);
    }
    forall s, k | s in h.lists && k in h.lists[s] ensures EntryOk(h, s, k) {
      assert EntryOk(g, s, k);
    }
    forall b, t | b in h.slots && t in h.slots[b] ensures SlotOk(h, b, t) {
      assert SlotOk(g, b, t);
    }
  }

  const EMPTY := Registry(map[], {}, map[], map[], map[])

  /** A run from the empty registry: each operation enabled where it happens. */
  predicate IsRun(gs: seq<Registry>, ops: seq<Op>) {
    && |gs| == |ops| + 1 && gs[0] == EMPTY
    && forall i :: 0 <= i < |ops| ==> IsStep(gs[i], ops[i], gs[i + 1])
  }

  predicate IsStep(g: Registry, op: Op, h: Registry) {
    Inv(g) ==> Enabled(g, op) && h == Apply(g, op)
  }

  /** Every registry of every run satisfies the invariant. */
  lemma {:induction false} RunKeeps(gs: seq<Registry>, ops: seq<Op>, n: nat)
    requires IsRun(gs, ops) && n < |gs|
    ensures Inv(gs[n])
  {
    if n > 0 {
      RunKeeps(gs, ops, n - 1);
      assert IsStep(gs[n - 1], ops[n - 1], gs[n]);
      StepKeeps(gs[n - 1], ops[n - 1]);
    }
  }

  /** The same AMF-UE-NGAP-ID and the same handover partners. */
  predicate SameIdentity(g: Registry, h: Registry) {
    && g.ues.Keys <= h.ues.Keys
    && (forall u :: u in g.ues ==> SamePartners(g.ues[u], h.ues[u]))
    && (forall u :: u in h.ues && u !in g.ues ==> h.ues[u].source == null && h.ues[u].target == null)
  }

  predicate SamePartners(f: Ue, e: Ue) {
    f.amfId == e.amfId && f.source == e.source && f.target == e.target
  }

  lemma RemovalKeepsIdentity(g: Registry, dead: set<RanUe>)
    ensures SameIdentity(g, Cleared(g, dead)) && SameIdentity(g, Without(g, dead))
  {
  }

  lemma NewKeepsIdentity(g: Registry, r: AmfRan, ranId: int, amfId: int, u: RanUe)
    requires r in g.lists && u !in g.ues
    ensures SameIdentity(g, New(g, r, ranId, amfId, u))
  {
  }

  lemma InitialKeepsIdentity(g: Registry, r: AmfRan, ranId: int, amfId: int, u: RanUe)
    requires r in g.lists && u !in g.ues
    ensures SameIdentity(g, Initial(g, r, ranId, amfId, u))
  {
    if ranId in g.lists[r] {
      RemovalKeepsIdentity(g, {g.lists[r][ranId]});
    }
    NewKeepsIdentity(WithoutStale(g, r, ranId), r, ranId, amfId, u);
  }

  lemma AttachKeepsIdentity(g: Registry, a: AmfUe, u: RanUe)
    requires Closed(g) && a in g.slots && u in g.ues && g.ues[u].ran != null
    ensures SameIdentity(g, AttachReleasing(g, a, u))
  {
  }

  lemma UnlinkKeepsIdentity(g: Registry, u: RanUe)
    requires Closed(g) && u in g.ues && g.ues[u].ran != null
    ensures SameIdentity(g, Unlink(g, u))
  {
  }

  lemma CompleteKeepsIdentity(g: Registry, u: RanUe)
    requires Closed(g) && u in g.ues
    ensures SameIdentity(g, Complete(g, u))
  {
  }

  lemma SwitchKeepsIdentity(g: Registry, u: RanUe, r: AmfRan, ranId: int)
    requires u in g.ues && g.ues[u].ran != null && g.ues[u].ran in g.lists && r in g.lists
    ensures SameIdentity(g, Switch(g, u, r, ranId)) && SameIdentity(g, Acknowledge(g, r, u, ranId))
  {
  }

  /** Only preparing a handover changes partners, and nothing ever changes an AMF-UE-NGAP-ID. */
  lemma StepKeepsIdentity(g: Registry, op: Op)
    requires Inv(g) && Enabled(g, op) && !op.PrepareHandover?
    ensures SameIdentity(g, Apply(g, op))
  {
    match op
    case RanConnects(_) =>
    case UeAppears(_) =>
    case NewConnection(r, ranId, amfId, u) => NewKeepsIdentity(g, r, ranId, amfId, u);
    case InitialUeMessage(r, ranId, amfId, u) => InitialKeepsIdentity(g, r, ranId, amfId, u);
    case RemoveConnection(u) => RemoveIsExact(g, u); RemovalKeepsIdentity(g, {u});
    case ResetInterface(r) => RemovalKeepsIdentity(g, ListedIn(g, r));
    case ResetPartly(r, items) => RemovalKeepsIdentity(g, NamedBy(g, r, items, |items|));
    case RemoveUe(a) => RemovalKeepsIdentity(g, ConnectionsOf(g, a));
    case SwitchToRan(u, r, ranId) => SwitchKeepsIdentity(g, u, r, ranId);
    case AttachToUe(a, u) => AttachKeepsIdentity(g, a, u);
    case ReleaseSuperseded(u) => UnlinkKeepsIdentity(g, u);
    case HandoverAcknowledge(r, u, ranId) => SwitchKeepsIdentity(g, u, r, ranId);
    case CompleteHandover(u) => CompleteKeepsIdentity(g, u);
    case Message(r, local, remote, first, send) =>
      RanUeFindIsSound(g, r, local, remote, first, send);
      RemovalKeepsIdentity(g, Erroneous(g, r, local, remote));
  }

  lemma StepKeepsId(g: Registry, op: Op, u: RanUe)
    requires Inv(g) && Enabled(g, op) && u in g.ues
    ensures u in Apply(g, op).ues && Apply(g, op).ues[u].amfId == g.ues[u].amfId
  {
    if !op.PrepareHandover? {
      StepKeepsIdentity(g, op);
    }
  }

  lemma {:induction false} RunKeepsId(gs: seq<Registry>, ops: seq<Op>, m: nat, n: nat, u: RanUe)
    requires IsRun(gs, ops) && m <= n < |gs| && u in gs[m].ues
    ensures u in gs[n].ues && gs[n].ues[u].amfId == gs[m].ues[u].amfId
  {
    if m < n {
      RunKeepsId(gs, ops, m, n - 1, u);
      RunKeeps(gs, ops, n - 1);
      assert IsStep(gs[n - 1], ops[n - 1], gs[n]);
      StepKeepsId(gs[n - 1], ops[n - 1], u);
    }
  }

  // ---------------------------------------------------------------- whom the UEs hold

  /** The operation prepares a handover of this UE. */
  predicate Prepares(g: Registry, op: Op, a: AmfUe) {
    op.PrepareHandover? && op.source in g.ues && g.ues[op.source].amf == a
  }

  lemma HeldClaimNone(g: Registry, dead: set<RanUe>, a: AmfUe, u: RanUe)
    requires AllHeld(g, a) && Held(g, u) && g.ues[u].amf == a && u !in dead
    requires forall w :: w in dead ==> Live(g, w)
    ensures !Claimed(g, dead, a, g.ues[u].ran.anType)
  {
  }

  lemma ClearedKeepsHeld(g: Registry, dead: set<RanUe>, a: AmfUe)
    requires Inv(g) && AllHeld(g, a)
    requires forall w :: w in dead ==> Live(g, w)
    ensures AllHeld(Cleared(g, dead), a)
  {
    var h := Cleared(g, dead);
    forall u | u in h.ues && Live(h, u) && h.ues[u].amf == a ensures Held(h, u) {
      LiveLeft(g, dead, h.slots, u);
      BystanderKeeps(g, dead, u);
      var t := g.ues[u].ran.anType;
      assert !Claimed(g, dead, a, t) by {
        HeldClaimNone(g, dead, a, u);
      }
    }
  }

  lemma WithoutKeepsHeld(g: Registry, dead: set<RanUe>, a: AmfUe)
    requires Inv(g) && AllHeld(g, a)
    ensures AllHeld(Without(g, dead), a)
  {
    var h := Without(g, dead);
    forall u | u in h.ues && Live(h, u) && h.ues[u].amf == a ensures Held(h, u) {
      LiveLeft(g, dead, h.slots, u);
      BystanderKeeps(g, dead, u);
    }
  }

  lemma InitialKeepsHeld(g: Registry, r: AmfRan, ranId: int, amfId: int, u: RanUe, a: AmfUe)
    requires Inv(g) && AllHeld(g, a) && r in g.lists && amfId !in g.used && u !in g.ues
    ensures AllHeld(Initial(g, r, ranId, amfId, u), a)
  {
    var k := WithoutStale(g, r, ranId);
    if ranId in g.lists[r] {
      assert EntryOk(g, r, ranId);
      ClearedKeepsHeld(g, {g.lists[r][ranId]}, a);
      WithoutKeeps(g, {g.lists[r][ranId]});
    }
    assert Inv(k) && AllHeld(k, a) && amfId !in k.used && u !in k.ues;
    NewKeepsHeld(k, r, ranId, amfId, u, a);
  }

  lemma NewKeepsHeld(g: Registry, r: AmfRan, ranId: int, amfId: int, u: RanUe, a: AmfUe)
    requires Inv(g) && AllHeld(g, a) && r in g.lists && amfId !in g.used && u !in g.ues
    ensures AllHeld(New(g, r, ranId, amfId, u), a)
  {
    var h := New(g, r, ranId, amfId, u);
    forall w | w in h.ues && Live(h, w) && h.ues[w].amf == a ensures Held(h, w) {
      assert w != u && Live(g, w) && Held(g, w);
    }
  }

  lemma UnlinkKeepsHeld(g: Registry, u: RanUe, a: AmfUe)
    requires Inv(g) && AllHeld(g, a) && Live(g, u) && g.ues[u].ran != null
    ensures AllHeld(Unlink(g, u), a)
  {
    var h := Unlink(g, u);
    forall w | w in h.ues && Live(h, w) && h.ues[w].amf == a ensures Held(h, w) {
      assert Live(g, w) && Held(g, w);
      assert g.ues[u].amf == a ==> Held(g, u);
    }
  }

  lemma SwitchKeepsHeld(g: Registry, u: RanUe, r: AmfRan, ranId: int, a: AmfUe)
    requires Inv(g) && AllHeld(g, a) && Registered(g, u) && r in g.lists && CanSwitch(g, u, r, ranId)
    ensures AllHeld(Switch(g, u, r, ranId), a)
  {
    var h := Switch(g, u, r, ranId);
    forall w | w in h.ues && Live(h, w) && h.ues[w].amf == a ensures Held(h, w) {
      assert Live(g, w) && Held(g, w);
    }
  }

  lemma AttachKeepsHeld(g: Registry, b: AmfUe, u: RanUe, a: AmfUe)
    requires Inv(g) && AllHeld(g, a) && Registered(g, u) && b in g.slots && CanAttach(g, b, u)
    ensures AllHeld(AttachReleasing(g, b, u), a)
  {
    if a == b {
      AttachReleasingKeeps(g, a, u);
    } else {
      var h := AttachReleasing(g, b, u);
      forall w | w in h.ues && Live(h, w) && h.ues[w].amf == a ensures Held(h, w) {
        assert Live(g, w) && Held(g, w);
      }
    }
  }

  lemma PrepareKeepsHeld(g: Registry, source: RanUe, r: AmfRan, amfId: int, u: RanUe, a: AmfUe)
    requires Inv(g) && AllHeld(g, a) && r in g.lists && amfId !in g.used && u !in g.ues
    requires source in g.ues && g.ues[source].amf != a
    ensures AllHeld(Prepare(g, source, r, amfId, u), a)
  {
    var h := Prepare(g, source, r, amfId, u);
    forall w | w in h.ues && Live(h, w) && h.ues[w].amf == a ensures Held(h, w) {
      assert w != u && Live(g, w) && Held(g, w);
    }
  }

  lemma CompleteKeepsHeld(g: Registry, u: RanUe, a: AmfUe)
    requires Inv(g) && AllHeld(g, a) && Live(g, u) && CanComplete(g, u)
    ensures AllHeld(Complete(g, u), a)
  {
    var h := Complete(g, u);
    forall w | w in h.ues && Live(h, w) && h.ues[w].amf == a ensures Held(h, w) {
      assert Live(g, w) && (w == u || Held(g, w));
      assert g.ues[u].amf == a ==> Held(g, u);
    }
  }

  lemma AcknowledgeKeepsHeld(g: Registry, r: AmfRan, u: RanUe, ranId: int, a: AmfUe)
    requires Inv(g) && AllHeld(g, a) && u in g.ues && r in g.lists
    ensures AllHeld(Acknowledge(g, r, u, ranId), a)
  {
    var h := Acknowledge(g, r, u, ranId);
    forall w | w in h.ues && Live(h, w) && h.ues[w].amf == a ensures Held(h, w) {
      assert Live(g, w) && Held(g, w);
    }
  }

  /** A UE that holds every connection that has it goes on doing so, except when a handover of it is prepared. */
  lemma StepKeepsHeld(g: Registry, op: Op, a: AmfUe)
    requires Inv(g) && Enabled(g, op) && AllHeld(g, a) && !Prepares(g, op, a)
    ensures AllHeld(Apply(g, op), a)
  {
    match op
    case RanConnects(r) => ConnectsKeepsHeld(g, op, a);
    case UeAppears(b) => ConnectsKeepsHeld(g, op, a);
    case NewConnection(r, ranId, amfId, u) => NewKeepsHeld(g, r, ranId, amfId, u, a);
    case InitialUeMessage(r, ranId, amfId, u) => InitialKeepsHeld(g, r, ranId, amfId, u, a);
    case RemoveConnection(u) => RemoveIsExact(g, u); ClearedKeepsHeld(g, {u}, a);
    case ResetInterface(r) => ResetKeepsHeld(g, r, a);
    case ResetPartly(r, items) => PartKeepsHeld(g, r, items, a);
    case RemoveUe(b) => RemoveUeKeepsHeld(g, b, a);
    case SwitchToRan(u, r, ranId) => SwitchKeepsHeld(g, u, r, ranId, a);
    case AttachToUe(b, u) => AttachKeepsHeld(g, b, u, a);
    case ReleaseSuperseded(u) => UnlinkKeepsHeld(g, u, a);
    case PrepareHandover(source, r, amfId, u) => PrepareKeepsHeld(g, source, r, amfId, u, a);
    case HandoverAcknowledge(r, u, ranId) => AcknowledgeKeepsHeld(g, r, u, ranId, a);
    case CompleteHandover(u) => CompleteKeepsHeld(g, u, a);
    case Message(r, local, remote, first, send) =>
      RanUeFindIsSound(g, r, local, remote, first, send);
      WithoutKeepsHeld(g, Erroneous(g, r, local, remote), a);
  }

  lemma ConnectsKeepsHeld(g: Registry, op: Op, a: AmfUe)
    requires Inv(g) && Enabled(g, op) && AllHeld(g, a) && (op.RanConnects? || op.UeAppears?)
    ensures AllHeld(Apply(g, op), a)
  {
    var h := Apply(g, op);
    forall w | w in h.ues && Live(h, w) && h.ues[w].amf == a ensures Held(h, w) {
      assert Live(g, w) && Held(g, w);
    }
  }

  lemma ResetKeepsHeld(g: Registry, r: AmfRan, a: AmfUe)
    requires Inv(g) && AllHeld(g, a) && r in g.lists
    ensures AllHeld(Cleared(g, ListedIn(g, r)), a)
  {
    forall w | w in ListedIn(g, r) ensures Live(g, w) {
      ListedAre(g, r, w);
    }
    ClearedKeepsHeld(g, ListedIn(g, r), a);
  }

  lemma PartKeepsHeld(g: Registry, r: AmfRan, items: seq<Item>, a: AmfUe)
    requires Inv(g) && AllHeld(g, a) && r in g.lists
    ensures AllHeld(Cleared(g, NamedBy(g, r, items, |items|)), a)
  {
    forall w | w in NamedBy(g, r, items, |items|) ensures Live(g, w) {
      var i :| 0 <= i < |items| && Named(g, r, items[i]) == w;
      NamedAreLive(g, r, items[i]);
    }
    ClearedKeepsHeld(g, NamedBy(g, r, items, |items|), a);
  }

  lemma RemoveUeKeepsHeld(g: Registry, b: AmfUe, a: AmfUe)
    requires Inv(g) && AllHeld(g, a) && b in g.slots
    ensures AllHeld(Cleared(g, ConnectionsOf(g, b)), a)
  {
    forall w | w in ConnectionsOf(g, b) ensures Live(g, w) {
      ConnectionsAre(g, b, w);
    }
    ClearedKeepsHeld(g, ConnectionsOf(g, b), a);
  }

  /** In every run a UE that holds every connection that has it goes on doing so, until a handover of it is prepared. */
  lemma {:induction false} RunHolds(gs: seq<Registry>, ops: seq<Op>, m: nat, n: nat, a: AmfUe)
    requires IsRun(gs, ops) && m <= n < |gs| && AllHeld(gs[m], a)
    requires forall i :: m <= i < n ==> !Prepares(gs[i], ops[i], a)
    ensures AllHeld(gs[n], a)
  {
    if m < n {
      RunHolds(gs, ops, m, n - 1, a);
      RunKeeps(gs, ops, n - 1);
      assert IsStep(gs[n - 1], ops[n - 1], gs[n]);
      StepKeepsHeld(gs[n - 1], ops[n - 1], a);
    }
  }

  /** So once a handover has been completed with no third connection left over, the UE holds all its connections again,
      until the next is prepared. */
  lemma HandoverRestores(gs: seq<Registry>, ops: seq<Op>, m: nat, n: nat, u: RanUe, a: AmfUe)
    requires IsRun(gs, ops) && m < n < |gs| && ops[m] == CompleteHandover(u)
    requires Inv(gs[m]) ==> Live(gs[m], u) && Completes(gs[m], u) && gs[m].ues[u].amf == a
    requires Inv(gs[m]) ==> forall w :: w in gs[m].ues ==> !LeftOver(gs[m], u, w)
    requires forall i :: m < i < n ==> !Prepares(gs[i], ops[i], a)
    ensures AllHeld(gs[n], a)
  {
    RunKeeps(gs, ops, m);
    assert IsStep(gs[m], ops[m], gs[m + 1]);
    CompleteHolds(gs[m], u);
    RunHolds(gs, ops, m + 1, n, a);
  }

  lemma HeldApart(g: Registry, a: AmfUe, u: RanUe, w: RanUe)
    requires AllHeld(g, a) && Live(g, u) && Live(g, w) && u != w && g.ues[u].amf == g.ues[w].amf == a
    ensures Held(g, u) && Held(g, w) && g.ues[u].ran.anType != g.ues[w].ran.anType
  {
  }

  /** In every run connections never share an AMF ID or a RAN ID in one RAN, and two share a UE and an access type only
      after a handover of that UE was prepared. */
  lemma NoSharing(gs: seq<Registry>, ops: seq<Op>, n: nat, u: RanUe, w: RanUe)
    requires IsRun(gs, ops) && n < |gs| && Live(gs[n], u) && Live(gs[n], w) && u != w
    ensures var f, e := gs[n].ues[u], gs[n].ues[w];
            && f.ran != null && e.ran != null && f.amfId != e.amfId
            && (f.ran == e.ran ==> f.ranId != e.ranId || f.ranId == UNSPECIFIED)
            && (f.amf == e.amf != null && f.ran.anType == e.ran.anType ==>
                  exists i :: 0 <= i < n && Prepares(gs[i], ops[i], f.amf))
  {
    RunKeeps(gs, ops, n);
    var f, e := gs[n].ues[u], gs[n].ues[w];
    assert PoolOk(gs[n], f.amfId) && PoolOk(gs[n], e.amfId);
    if f.amf == e.amf != null && forall i :: 0 <= i < n ==> !Prepares(gs[i], ops[i], f.amf) {
      RunHolds(gs, ops, 0, n, f.amf);
      HeldApart(gs[n], f.amf, u, w);
    }
  }

  // ---------------------------------------------------------------- partners in a handover

  /** Source and target name each other. */
  predicate Paired(g: Registry) {
    && (forall u :: u in g.ues && g.ues[u].target != null ==>
                      g.ues[u].target in g.ues && g.ues[g.ues[u].target].source == u)
    && (forall u :: u in g.ues && g.ues[u].source != null ==>
                      g.ues[u].source in g.ues && g.ues[g.ues[u].source].target == u)
  }

  lemma IdentityKeepsPairs(g: Registry, h: Registry)
    requires Paired(g) && SameIdentity(g, h)
    ensures Paired(h)
  {
  }

  lemma PrepareKeepsPairs(g: Registry, source: RanUe, r: AmfRan, amfId: int, u: RanUe)
    requires Closed(g) && Paired(g) && source in g.ues && r in g.lists && u !in g.ues
    ensures Paired(Prepare(g, source, r, amfId, u))
  {
  }

  lemma StepKeepsPairs(g: Registry, op: Op)
    requires Inv(g) && Enabled(g, op) && Paired(g)
    ensures Paired(Apply(g, op))
  {
    if op.PrepareHandover? {
      PrepareKeepsPairs(g, op.source, op.r, op.amfId, op.u);
    } else {
      StepKeepsIdentity(g, op);
      IdentityKeepsPairs(g, Apply(g, op));
    }
  }

  /** In every run the source and the target of a handover name each other, whatever becomes of either connection. */
  lemma {:induction false} RunPairs(gs: seq<Registry>, ops: seq<Op>, n: nat)
    requires IsRun(gs, ops) && n < |gs|
    ensures Paired(gs[n])
  {
    if n > 0 {
      RunPairs(gs, ops, n - 1);
      RunKeeps(gs, ops, n - 1);
      assert IsStep(gs[n - 1], ops[n - 1], gs[n]);
      StepKeepsPairs(gs[n - 1], ops[n - 1]);
    }
  }
}
