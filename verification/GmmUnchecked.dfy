/** When a message that failed its integrity check is followed by SecurityMode Success all the same. */
module GmmUnchecked {
  import opened Options
  import opened GmmTable
  import opened Gmm
  import opened GmmRuns
  import opened GmmOutcomes
  import opened GmmRequests

  /** The context handed over has a key set that may be used. */
  predicate HandsOverKey(t: Transfer) {
    t.Transferred? && t.seafKsi.Some? && t.seafKsi.value != 7
  }

  /** The condition: the request is read to its end, another AMF is asked, and hands over a context with a key set;
      and the UE's identity is known, from this AMF, that one, or the request. */
  predicate Excused(ue: Ue, a: Access, reg: Registration, x: Answers) {
    && (StateOf(ue, a) == Deregistered || StateOf(ue, a) == Registered)
    && ReadToEnd(StateOf(ue, a), false, reg) && AsksOldAmf(ue, reg) && HandsOverKey(x.transfer)
    && (x.transfer.withSupi || ue.identified || reg.identity.Suci?)
  }

  /** A SecurityMode Success was added to the history. */
  predicate Secures(h: History, k: History) {
    exists i :: |h.trace| <= i < |k.trace| && k.trace[i].event == SecurityModeSuccess
  }

  /** What was read lets the UE pass exactly if the context that came with it does. */
  lemma ReadPasses(ue: Ue, reg: Registration, x: Answers)
    ensures var u := Read(ue, false, reg, x);
            u.identified && u.secAvailable && u.ksi != 7 && !u.macFailed
            <==> AsksOldAmf(ue, reg) && HandsOverKey(x.transfer)
                 && (x.transfer.withSupi || ue.identified || reg.identity.Suci?)
  {
  }

  /** The set-up may fail, which adds one more change. */
  function Extra(x: Answers): nat {
    if x.setup then 0 else 1
  }

  function Final(x: Answers): State {
    if x.setup then ContextSetup else Deregistered
  }

  lemma ExcusedEnds(ue: Ue, a: Access, reg: Registration, x: Answers)
    requires Excused(ue, a, reg, x)
    ensures var o := Receive(ue, a, false, RegistrationRequest(reg), x);
            && o.Done? && |o.ue.past.trace| == |ue.past.trace| + 3 + Extra(x) && StateOf(o.ue, a) == Final(x)
            && o.ue.past.trace[|ue.past.trace| + 2].event == SecurityModeSuccess
  {
    var u := Read(ue, false, reg, x);
    var e := After(StartAuth, ProcedureEnding(u, x));
    ReadPasses(ue, reg, x);
    RequestEnds(ue, a, false, reg, x);
    PassesOn(u, x);
    AddedAt(ue.past.trace, Receive(ue, a, false, RegistrationRequest(reg), x).ue.past.trace, a, e.events, 2);
  }

  lemma PassesOn(u: Ue, x: Answers)
    requires u.identified && u.secAvailable && u.ksi != 7 && !u.macFailed
    requires u.regType != NoType && u.regType != Emergency
    ensures var e := After(StartAuth, ProcedureEnding(u, x));
            |e.events| == 3 + Extra(x) && e.events[2] == SecurityModeSuccess && e.state == Final(x)
  {
  }

  /** A registration request that failed its check is followed by SecurityMode Success exactly when it is excused,
      whatever the UE, the state and the answers; and then, unless the set-up fails, the UE is in ContextSetup after
      three changes. */
  lemma UncheckedIsSecured(ue: Ue, a: Access, reg: Registration, x: Answers)
    ensures var o := Receive(ue, a, false, RegistrationRequest(reg), x);
            && o.Done? && (Secures(ue.past, o.ue.past) <==> Excused(ue, a, reg, x))
            && (Excused(ue, a, reg, x) ==>
                  && |o.ue.past.trace| == |ue.past.trace| + 3 + Extra(x) && StateOf(o.ue, a) == Final(x)
                  && o.ue.past.trace[|ue.past.trace| + 2].event == SecurityModeSuccess)
  {
    if StateOf(ue, a) == Deregistered || StateOf(ue, a) == Registered {
      ReadPasses(ue, reg, x);
      RequestAdds(ue, a, false, reg, x);
      AddsSecures(ue, Receive(ue, a, false, RegistrationRequest(reg), x));
      if Excused(ue, a, reg, x) {
        ExcusedEnds(ue, a, reg, x);
      }
    } else {
      OthersAreIgnored(ue, a, false, RegistrationRequest(reg), x);
    }
  }

  lemma AddsSecures(ue: Ue, o: Outcome)
    requires o.Done?
    ensures Adds(ue, o, SecurityModeSuccess) <==> Secures(ue.past, o.ue.past)
  {
  }

  /** And no other message that failed its check ever is. */
  lemma UncheckedMessages(ue: Ue, m: Arrival)
    requires Sound(ue) && ue.synchFailures <= 1 && !m.intact && !MeetsNil(ue, m.access, m.m)
    ensures var o := Receive(ue, m.access, m.intact, m.m, m.x);
            o.Done? && (Secures(ue.past, o.ue.past) <==>
                        m.m.RegistrationRequest? && Excused(ue, m.access, m.m.reg, m.x))
  {
    if m.m.RegistrationRequest? {
      UncheckedIsSecured(ue, m.access, m.m.reg, m.x);
    } else {
      ReceiveIsSound(ue, m);
      var v := Receive(ue, m.access, m.intact, m.m, m.x).ue;
      StepStamps(ue, m, v);
      forall i | |ue.past.trace| <= i < |v.past.trace| ensures v.past.trace[i].event != SecurityModeSuccess {
        assert LegalAt(v.past.trace, i);
      }
    }
  }

  // ---------------------------------------------------------------- an input

  /** A registration request of a new UE with a GUTI of another AMF, in which everything else is in order. */
  const FOREIGN := Registration(true, NoContainer, OtherCode, Guti(true, false), true, 1, true, true)

  /** A new UE's request with the GUTI of another AMF, which hands over the context with a key set. */
  lemma UncheckedReachesContextSetup(x: Answers)
    requires x.transfer == Transferred(true, Some(1)) && x.setup
    ensures var o := Receive(FRESH, ThreeGpp, false, RegistrationRequest(FOREIGN), x);
            && o.Done? && o.ue.threeGpp == ContextSetup
            && |o.ue.past.trace| == 3 && o.ue.past.trace[2].event == SecurityModeSuccess
            && !o.ue.past.trace[2].intact && o.ue.past.trace[2].transferred
  {
    var m := Arrival(ThreeGpp, false, RegistrationRequest(FOREIGN), x);
    UncheckedIsSecured(FRESH, ThreeGpp, FOREIGN, x);
    var v := Receive(FRESH, ThreeGpp, false, RegistrationRequest(FOREIGN), x).ue;
    StepStamps(FRESH, m, v);
    ReceiveIsSound(FRESH, m);
    assert LegalAt(v.past.trace, 2);
  }
}
