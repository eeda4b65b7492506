/** What requests come to, and which messages, in any run, an Authentication Success is owed to. */
module GmmRequests {
  import opened Options
  import opened GmmTable
  import opened Gmm
  import opened GmmRuns
  import opened GmmOutcomes

  // ---------------------------------------------------------------- reading a registration request

  /** The identity in a registration request can be read. */
  predicate IsIdentity(id: Identity) {
    match id
    case BrokenIdentity => false
    case NoIdentity => true
    case Suci(ok) => ok
    case Guti(ok, _) => ok
    case Equipment(ok) => ok
  }

  /** In this state a registration request is read to its end. Its container is not looked at when the check has failed;
      a mobility or periodic update needs a registration, and an emergency registration is refused. */
  predicate ReadToEnd(s: State, intact: bool, reg: Registration) {
    && reg.connected && !(intact && (reg.container == Undecodable || reg.container == WrongMessage))
    && IsIdentity(reg.identity) && reg.areaServed && (reg.capability || reg.code == PeriodicCode)
    && (reg.code == MobilityCode || reg.code == PeriodicCode ==> s != Deregistered)
    && reg.code != EmergencyCode
  }

  /** Another AMF is asked for the context: the request has a GUTI of another AMF, or an earlier one had. */
  predicate AsksOldAmf(ue: Ue, reg: Registration) {
    if reg.identity.Guti? then !reg.identity.ours else ue.amfChanged
  }

  /** After the identity: the key set of the request, and over it the context that the other AMF hands over. */
  function Settled(u: Ue, reg: Registration, asks: bool, x: Answers): Ue {
    var brought := asks && x.transfer.Transferred?;
    var key := if reg.native && reg.ksi != 7 then reg.ksi else 0;
    u.(amfChanged := brought, macFailed := u.macFailed && !brought,
       identified := u.identified || (brought && x.transfer.withSupi),
       secAvailable := if brought then x.transfer.seafKsi.Some? else u.secAvailable,
       ksi := if brought && x.transfer.seafKsi.Some? then x.transfer.seafKsi.value else key)
  }

  function TypeOf(code: RegistrationCode): RegType {
    match code
    case MobilityCode => Mobility
    case PeriodicCode => Periodic
    case EmergencyCode => Emergency
    case _ => RegType.Initial
  }

  /** With the request stored, its type and its identity taken down; an initial registration drops the security
      context. */
  function Prepared(u: Ue, reg: Registration): Ue {
    u.(hasRequest := true, regType := TypeOf(reg.code), secAvailable := u.secAvailable && reg.code != InitialCode,
       usedGuti := reg.identity.Guti?, identified := u.identified || reg.identity.Suci?)
  }

  /** The UE as a request that is read to its end leaves it. A container that cannot be deciphered drops the
      security context, too. */
  function Read(ue: Ue, intact: bool, reg: Registration, x: Answers): Ue {
    var garbled := intact && reg.container == Undecipherable;
    Settled(Prepared(ue.(macFailed := !intact, secAvailable := ue.secAvailable && !garbled), reg), reg,
            AsksOldAmf(ue, reg), x)
  }

  lemma IdentifiedReads(u: Ue, reg: Registration, x: Answers)
    ensures var (v, ok) := RegistrationIdentified(u, reg, x);
            && (ok <==> reg.areaServed && (reg.capability || reg.code == PeriodicCode))
            && (ok ==> SameFields(v, Settled(u, reg, u.amfChanged, x)))
  {
  }

  lemma TypedReads(u: Ue, reg: Registration, x: Answers)
    ensures var (v, ok) := RegistrationTyped(u, reg, x);
            var w := u.(usedGuti := reg.identity.Guti?, identified := u.identified || reg.identity.Suci?,
                        amfChanged := AsksOldAmf(u, reg));
            if IsIdentity(reg.identity) then (v, ok) == RegistrationIdentified(w, reg, x) else !ok
  {
  }

  /** The code in the request calls for a registration that the state does not have, or is an emergency's. */
  predicate CodeRefused(s: State, code: RegistrationCode) {
    code == EmergencyCode || ((code == MobilityCode || code == PeriodicCode) && s == Deregistered)
  }

  lemma CodeReads(u: Ue, a: Access, reg: Registration, x: Answers)
    ensures var (v, ok) := RegistrationRead(u, a, reg, x);
            var w := u.(hasRequest := true, regType := TypeOf(reg.code),
                        secAvailable := u.secAvailable && reg.code != InitialCode);
            if CodeRefused(StateOf(u, a), reg.code) then !ok else (v, ok) == RegistrationTyped(w, reg, x)
  {
  }

  lemma ReadReads(u: Ue, a: Access, reg: Registration, x: Answers)
    ensures var (v, ok) := RegistrationRead(u, a, reg, x);
            && (ok <==> !CodeRefused(StateOf(u, a), reg.code) && IsIdentity(reg.identity) && reg.areaServed
                        && (reg.capability || reg.code == PeriodicCode))
            && (ok ==> SameFields(v, Settled(Prepared(u, reg), reg, AsksOldAmf(u, reg), x)))
  {
    var w := u.(hasRequest := true, regType := TypeOf(reg.code),
                secAvailable := u.secAvailable && reg.code != InitialCode);
    var z := w.(usedGuti := reg.identity.Guti?, identified := u.identified || reg.identity.Suci?,
                amfChanged := AsksOldAmf(u, reg));
    CodeReads(u, a, reg, x);
    TypedReads(w, reg, x);
    IdentifiedReads(z, reg, x);
    SettledAs(z, Prepared(u, reg), reg, AsksOldAmf(u, reg), x);
  }

  lemma SettledAs(z: Ue, u: Ue, reg: Registration, asks: bool, x: Answers)
    requires SameFields(z.(amfChanged := u.amfChanged), u)
    ensures SameFields(Settled(z, reg, asks, x), Settled(u, reg, asks, x))
  {
  }

  /** The UE when the container has been looked at. */
  function Opened(ue: Ue, intact: bool, reg: Registration): Ue {
    if intact && reg.container == Undecipherable then Taken(ue, intact).(secAvailable := false) else Taken(ue, intact)
  }

  lemma ContainerReads(ue: Ue, a: Access, intact: bool, reg: Registration, x: Answers)
    ensures var r := HandleRegistrationRequest(Taken(ue, intact), a, reg, x);
            if !reg.connected || (intact && (reg.container == Undecodable || reg.container == WrongMessage)) then !r.1
            else r == RegistrationRead(Opened(ue, intact, reg), a, reg, x)
  {
  }

  lemma OpenedReads(ue: Ue, intact: bool, reg: Registration, x: Answers)
    ensures var u := Opened(ue, intact, reg);
            SameFields(Settled(Prepared(u, reg), reg, AsksOldAmf(u, reg), x), Read(ue, intact, reg, x))
  {
    var garbled := intact && reg.container == Undecipherable;
    PreparedAs(Opened(ue, intact, reg), ue.(macFailed := !intact, secAvailable := ue.secAvailable && !garbled), reg, x);
  }

  lemma PreparedAs(u: Ue, w: Ue, reg: Registration, x: Answers)
    requires SameFields(u, w)
    ensures SameFields(Settled(Prepared(u, reg), reg, AsksOldAmf(u, reg), x),
                       Settled(Prepared(w, reg), reg, AsksOldAmf(w, reg), x))
  {
    SettledAs(Prepared(u, reg), Prepared(w, reg), reg, AsksOldAmf(u, reg), x);
  }

  lemma RequestReads(ue: Ue, a: Access, intact: bool, reg: Registration, x: Answers, v: Ue, ok: bool)
    requires (v, ok) == HandleRegistrationRequest(Taken(ue, intact), a, reg, x)
    ensures ok <==> ReadToEnd(StateOf(ue, a), intact, reg)
    ensures ok ==> SameFields(v, Read(ue, intact, reg, x))
  {
    ContainerReads(ue, a, intact, reg, x);
    ReadReads(Opened(ue, intact, reg), a, reg, x);
    OpenedReads(ue, intact, reg, x);
  }

  // ---------------------------------------------------------------- requests

  /** A registration request that is read to its end starts authentication, which goes by what was read. */
  lemma RequestEnds(ue: Ue, a: Access, intact: bool, reg: Registration, x: Answers)
    requires StateOf(ue, a) == Deregistered || StateOf(ue, a) == Registered
    requires ReadToEnd(StateOf(ue, a), intact, reg)
    ensures Ends(ue, Receive(ue, a, intact, RegistrationRequest(reg), x), a,
                 After(StartAuth, ProcedureEnding(Read(ue, intact, reg, x), x)))
  {
    var (u, ok) := HandleRegistrationRequest(Taken(ue, intact), a, reg, x);
    var n := Emission(a, StartAuth, Plain(a).(procedure := true));
    RequestReads(ue, a, intact, reg, x, u, ok);
    RequestKeeps(Taken(ue, intact), a, reg, x);
    IdleReacts(ue, a, intact, reg, x);
    StartEnds(u, a, n, Read(ue, intact, reg, x), x);
    OneEnds(ue, a, intact, RegistrationRequest(reg), x, u, n,
            After(StartAuth, ProcedureEnding(Read(ue, intact, reg, x), x)));
  }

  lemma IdleReacts(ue: Ue, a: Access, intact: bool, reg: Registration, x: Answers)
    requires StateOf(ue, a) == Deregistered || StateOf(ue, a) == Registered
    ensures var (u, ok) := HandleRegistrationRequest(Taken(ue, intact), a, reg, x);
            ReactionTo(ue, a, intact, RegistrationRequest(reg), x)
            == Reacted(u, if ok then [Emission(a, StartAuth, Plain(a).(procedure := true))] else [])
  {
  }

  lemma StartEnds(u: Ue, a: Access, n: Emission, w: Ue, x: Answers)
    requires StateOf(u, a) == Deregistered || StateOf(u, a) == Registered
    requires n == Emission(a, StartAuth, Plain(a).(procedure := true)) && SameFields(u, w) && u.hasRequest
    ensures Ends(u, Send(u, n, x), a, After(StartAuth, ProcedureEnding(w, x)))
  {
    var v := Crossed(u, n, StateOf(u, a), Authentication);
    var r := EnterAuthentication(v, a, n.args, x);
    CrossedAdds(u, n, StateOf(u, a), Authentication);
    ProcedureEnds(v, a, n.args, x);
    SameProcedure(v, w, x);
    EndsAs(v, SendAll(r.ue, r.next, x), a, ProcedureEnding(v, x), ProcedureEnding(w, x));
    StepEnds(u, n, Authentication, x, r, ProcedureEnding(w, x));
  }

  /** One that is not leaves states, history and authentication alone. */
  lemma RequestIsDropped(ue: Ue, a: Access, intact: bool, reg: Registration, x: Answers)
    requires StateOf(ue, a) == Deregistered || StateOf(ue, a) == Registered
    requires !ReadToEnd(StateOf(ue, a), intact, reg)
    ensures var o := Receive(ue, a, intact, RegistrationRequest(reg), x);
            && o.Done? && o.ue.past.trace == ue.past.trace
            && o.ue.threeGpp == ue.threeGpp && o.ue.nonThreeGpp == ue.nonThreeGpp
            && o.ue.authCtx == ue.authCtx && o.ue.synchFailures == ue.synchFailures
  {
    var (u, ok) := HandleRegistrationRequest(Taken(ue, intact), a, reg, x);
    RequestReads(ue, a, intact, reg, x, u, ok);
    RequestKeeps(Taken(ue, intact), a, reg, x);
    IdleReacts(ue, a, intact, reg, x);
    QuietIsDone(ue, a, intact, RegistrationRequest(reg), x, u);
  }

  /** A service request drops a security context that cannot decipher it, and does nothing else. */
  lemma ServiceIsNoted(ue: Ue, a: Access, intact: bool, undecipherable: bool, x: Answers)
    requires StateOf(ue, a) == Deregistered || StateOf(ue, a) == Registered
    ensures var t := ue.(macFailed := !intact, past := ue.past.(intact := intact, transferred := false));
            Receive(ue, a, intact, ServiceRequest(undecipherable), x)
            == Done(if ue.secAvailable && ue.ksi != 7 && intact && undecipherable then t.(secAvailable := false) else t)
  {
    var m := ServiceRequest(undecipherable);
    QuietIsDone(ue, a, intact, m, x, ReactionTo(ue, a, intact, m, x).ue);
  }

  /** Which messages a state acts on. */
  predicate ActsOn(s: State, m: Message) {
    match s
    case Deregistered => m.RegistrationRequest? || m.ServiceRequest?
    case Registered => m.RegistrationRequest? || m.ServiceRequest? || m.DeregistrationRequest?
    case Authentication => m.IdentityResponse? || m.AuthenticationResponse? || m.AuthenticationFailure?
    case SecurityMode => m.SecurityModeComplete? || m.SecurityModeReject?
    case ContextSetup => m.IdentityResponse? || m.RegistrationComplete?
    case DeregistrationInitiated => false
  }

  lemma OthersAreIgnored(ue: Ue, a: Access, intact: bool, m: Message, x: Answers)
    requires !ActsOn(StateOf(ue, a), m)
    ensures Receive(ue, a, intact, m, x)
            == Done(ue.(macFailed := !intact, past := ue.past.(intact := intact, transferred := false)))
  {
    if StateOf(ue, a) != DeregistrationInitiated {
      QuietIsDone(ue, a, intact, m, x, Taken(ue, intact));
    }
  }

  // ---------------------------------------------------------------- leaving

  /** Only changes with these events were added. */
  predicate AddsOnly(s: seq<Change>, t: seq<Change>, es: set<Event>) {
    && |s| <= |t| && (forall i :: 0 <= i < |s| ==> t[i] == s[i])
    && forall i :: |s| <= i < |t| ==> t[i].event in es
  }

  lemma AddsOnlyOn(s: seq<Change>, t: seq<Change>, u: seq<Change>, es: set<Event>)
    requires AddsOnly(s, t, es) && AddsOnly(t, u, es)
    ensures AddsOnly(s, u, es)
  {
  }

  lemma OneAddsOnly(ue: Ue, m: Emission, from: State, to: State, es: set<Event>)
    requires m.event in es
    ensures AddsOnly(ue.past.trace, Crossed(ue, m, from, to).past.trace, es)
  {
    MovedPast(OnExit(ue, from), m.target, ChangeBy(ue, m, from, to));
  }

  lemma AcceptAdds(ue: Ue, m: Emission, x: Answers)
    requires m.event == DeregistrationAccept
    ensures Send(ue, m, x).Done? && AddsOnly(ue.past.trace, Send(ue, m, x).ue.past.trace, {DeregistrationAccept})
  {
    if StateOf(ue, m.target) == DeregistrationInitiated {
      SendToEnter(ue, m, Deregistered, x);
      EnterIdle(ue, m, DeregistrationInitiated, Deregistered, x);
      OneAddsOnly(ue, m, DeregistrationInitiated, Deregistered, {DeregistrationAccept});
    }
  }

  lemma {:induction false} AcceptsAdd(ue: Ue, ms: seq<Emission>, x: Answers)
    requires forall m :: m in ms ==> m.event == DeregistrationAccept
    ensures SendAll(ue, ms, x).Done?
    ensures AddsOnly(ue.past.trace, SendAll(ue, ms, x).ue.past.trace, {DeregistrationAccept})
    decreases |ms|
  {
    if ms != [] {
      AcceptAdds(ue, ms[0], x);
      var v := Send(ue, ms[0], x).ue;
      AcceptsAdd(v, ms[1..], x);
      AddsOnlyOn(ue.past.trace, v.past.trace, SendAll(ue, ms, x).ue.past.trace, {DeregistrationAccept});
    }
  }

  /** A deregistration request deregisters the access it came over if its target includes that, and the other one if its
      target includes it and it has been waiting. */
  lemma DeregistrationEnds(ue: Ue, a: Access, intact: bool, t: DeregistrationTarget, x: Answers)
    requires StateOf(ue, a) == Registered
    ensures var o := Receive(ue, a, intact, DeregistrationRequest(t), x);
            && o.Done? && AddsOnly(ue.past.trace, o.ue.past.trace, {InitDeregistration, DeregistrationAccept})
            && forall b :: StateOf(o.ue, b) ==
                 if (t == TargetBoth || t == (if b == ThreeGpp then Target3Gpp else TargetNon3Gpp))
                    && (b == a || StateOf(ue, b) == DeregistrationInitiated) then Deregistered
                 else if b == a then DeregistrationInitiated
                 else StateOf(ue, b)
  {
    var u := Taken(ue, intact);
    DeregistrationSent(u, a, t, x);
    InitEnds(u, a, t, x);
  }

  lemma InitEnds(u: Ue, a: Access, t: DeregistrationTarget, x: Answers)
    requires StateOf(u, a) == Registered
    ensures var o := Send(u, Emission(a, InitDeregistration, Plain(a).(nas := Gmm(DeregistrationRequest(t)))), x);
            && o.Done? && AddsOnly(u.past.trace, o.ue.past.trace, {InitDeregistration, DeregistrationAccept})
            && forall b :: StateOf(o.ue, b) ==
                 if (t == TargetBoth || t == (if b == ThreeGpp then Target3Gpp else TargetNon3Gpp))
                    && (b == a || StateOf(u, b) == DeregistrationInitiated) then Deregistered
                 else if b == a then DeregistrationInitiated
                 else StateOf(u, b)
  {
    var m := Emission(a, InitDeregistration, Plain(a).(nas := Gmm(DeregistrationRequest(t))));
    var v := Crossed(u, m, Registered, DeregistrationInitiated);
    var r := EnterDeregistrationInitiated(v, m.args, x);
    SendEnters(u, m, DeregistrationInitiated, x, r);
    SendAccepts(v, a, t, x);
    LeavingAdds(u, v, m, r, x);
  }

  lemma LeavingAdds(u: Ue, v: Ue, m: Emission, r: Reaction, x: Answers)
    requires m.event == InitDeregistration && v == Crossed(u, m, Registered, DeregistrationInitiated)
    requires r == EnterDeregistrationInitiated(v, m.args, x) && r.Reacted?
    ensures SendAll(r.ue, r.next, x).Done?
    ensures AddsOnly(u.past.trace, SendAll(r.ue, r.next, x).ue.past.trace, {InitDeregistration, DeregistrationAccept})
  {
    AcceptsAdd(v, r.next, x);
    OneAddsOnly(u, m, Registered, DeregistrationInitiated, {InitDeregistration, DeregistrationAccept});
    AddsOnlyOn(u.past.trace, v.past.trace, SendAll(r.ue, r.next, x).ue.past.trace,
               {InitDeregistration, DeregistrationAccept});
  }

  // ---------------------------------------------------------------- who is authenticated

  /** The messages that bring an Authentication Success: a usable response that matches and that the AUSF confirms; or,
      with a security context and a known identity, a registration request or an Identity Response. */
  predicate Authenticates(ue: Ue, m: Arrival) {
    match m.m
    case AuthenticationResponse(usable, matches) =>
      && StateOf(ue, m.access) == Authentication && m.x.confirm == Confirmed
      && usable && ((ue.authCtx == Some(FiveGAka) && matches) || ue.authCtx == Some(EapAkaPrime))
    case IdentityResponse(id) =>
      && StateOf(ue, m.access) == Authentication && !id.BadIdentity? && (ue.identified || id.SuciAnswer?)
      && ue.secAvailable && ue.ksi != 7 && m.intact
    case RegistrationRequest(reg) =>
      && (StateOf(ue, m.access) == Deregistered || StateOf(ue, m.access) == Registered)
      && ReadToEnd(StateOf(ue, m.access), m.intact, reg)
      && var u := Read(ue, m.intact, reg, m.x); u.identified && u.secAvailable && u.ksi != 7 && !u.macFailed
    case _ => false
  }

  /** In Authentication. */
  lemma AuthenticationAuthenticates(ue: Ue, m: Arrival)
    requires Sound(ue) && StateOf(ue, m.access) == Authentication && !MeetsNil(ue, m.access, m.m)
    requires ActsOn(Authentication, m.m)
    ensures Adds(ue, Receive(ue, m.access, m.intact, m.m, m.x), AuthSuccess) <==> Authenticates(ue, m)
  {
    match m.m
    case AuthenticationResponse(usable, matches) => ResponseIsExact(ue, m.access, m.intact, usable, matches, m.x);
    case AuthenticationFailure(cause) => FailureAdds(ue, m.access, m.intact, cause, m.x);
    case IdentityResponse(id) => IdentityAdds(ue, m.access, m.intact, id, m.x);
  }

  lemma FailureAdds(ue: Ue, a: Access, intact: bool, cause: FailureCause, x: Answers)
    requires StateOf(ue, a) == Authentication && ue.authCtx.Some?
    ensures !Adds(ue, Receive(ue, a, intact, AuthenticationFailure(cause), x), AuthSuccess)
  {
    if ue.authCtx == Some(FiveGAka)
       && (cause.MacFailure? || cause.Non5G? || (cause.SynchFailure? && ue.synchFailures >= 1))
    {
      FailureRejects(ue, a, intact, cause, x);
      EndsAdds(ue, Receive(ue, a, intact, AuthenticationFailure(cause), x), a,
               Ending([AuthFail], Deregistered, Forgotten(Dropped(ue.(macFailed := !intact)))));
    } else {
      FailureIsNoted(ue, a, intact, cause, x);
    }
  }

  /** The procedure lets exactly those pass that have an identity and a security context. */
  lemma ProcedureAdds(u: Ue, x: Answers)
    ensures AuthSuccess in ProcedureEnding(u, x).events
            <==> u.identified && u.secAvailable && u.ksi != 7 && !u.macFailed
    ensures SecurityModeSuccess in ProcedureEnding(u, x).events
            <==> u.identified && u.secAvailable && u.ksi != 7 && !u.macFailed
  {
  }

  lemma IdentityAdds(ue: Ue, a: Access, intact: bool, id: IdentityAnswer, x: Answers)
    requires StateOf(ue, a) == Authentication && (ue.hasRequest || ue.regType == NoType)
    ensures Adds(ue, Receive(ue, a, intact, IdentityResponse(id), x), AuthSuccess)
            <==> !id.BadIdentity? && (ue.identified || id.SuciAnswer?) && ue.secAvailable && ue.ksi != 7 && intact
  {
    var t := ue.(macFailed := !intact);
    var u := t.(identified := ue.identified || id.SuciAnswer?, usedGuti := id.ProtectedAnswer? && id.guti);
    var o := Receive(ue, a, intact, IdentityResponse(id), x);
    IdentityEnds(ue, a, intact, id, x);
    if id.BadIdentity? || (id.ProtectedAnswer? && !intact) {
      EndsAdds(ue, o, a, Ending([], Authentication, t));
    } else {
      EndsAdds(ue, o, a, ProcedureEnding(u, x));
      ProcedureAdds(u, x);
    }
  }

  lemma RequestAdds(ue: Ue, a: Access, intact: bool, reg: Registration, x: Answers)
    requires StateOf(ue, a) == Deregistered || StateOf(ue, a) == Registered
    ensures var o := Receive(ue, a, intact, RegistrationRequest(reg), x);
            var u := Read(ue, intact, reg, x);
            && o.Done?
            && (Adds(ue, o, AuthSuccess) <==> Adds(ue, o, SecurityModeSuccess))
            && (Adds(ue, o, AuthSuccess) <==>
                  && ReadToEnd(StateOf(ue, a), intact, reg)
                  && u.identified && u.secAvailable && u.ksi != 7 && !u.macFailed)
  {
    var u := Read(ue, intact, reg, x);
    if ReadToEnd(StateOf(ue, a), intact, reg) {
      RequestEnds(ue, a, intact, reg, x);
      EndsAdds(ue, Receive(ue, a, intact, RegistrationRequest(reg), x), a, After(StartAuth, ProcedureEnding(u, x)));
      ProcedureAdds(u, x);
    } else {
      RequestIsDropped(ue, a, intact, reg, x);
    }
  }

  /** In SecurityMode no message does, nor does any in ContextSetup. */
  lemma SecurityModeAdds(ue: Ue, a: Access, intact: bool, m: Message, x: Answers)
    requires StateOf(ue, a) == SecurityMode && (ue.hasRequest || ue.regType == NoType) && ActsOn(SecurityMode, m)
    ensures !Adds(ue, Receive(ue, a, intact, m, x), AuthSuccess)
  {
    var o := Receive(ue, a, intact, m, x);
    if m.SecurityModeReject? || (m == SecurityModeComplete(true, InnerService) && intact) {
      SecurityModeFails(ue, a, intact, m, x);
      EndsAdds(ue, o, a, Ending([SecurityModeFail], Deregistered, Forgotten(ue.(macFailed := !intact))));
    } else if !intact || !m.imeisvOk || m.inner.InnerUndecodable? || m.inner.InnerOther? {
      CompleteIsIgnored(ue, a, intact, m.imeisvOk, m.inner, x);
    } else {
      CompleteSucceeds(ue, a, m.inner, x);
      var v := ue.(macFailed := false, hasRequest := ue.hasRequest || m.inner.InnerRegistration?);
      EndsAdds(ue, o, a, After(SecurityModeSuccess, SetUpEnding(v, x)));
    }
  }

  lemma ContextSetupAdds(ue: Ue, a: Access, intact: bool, m: Message, x: Answers)
    requires StateOf(ue, a) == ContextSetup && (ue.hasRequest || ue.regType == NoType) && ActsOn(ContextSetup, m)
    requires m.RegistrationComplete? ==> ue.hasRequest
    ensures !Adds(ue, Receive(ue, a, intact, m, x), AuthSuccess)
  {
    if m.RegistrationComplete? {
      RegistrationCompletes(ue, a, intact, x);
      EndsAdds(ue, Receive(ue, a, intact, m, x), a,
               Ending([ContextSetupSuccess], Registered, Forgotten(ue.(macFailed := !intact))));
    } else {
      SetUpAdds(ue, a, intact, m.id, x);
    }
  }

  lemma SetUpAdds(ue: Ue, a: Access, intact: bool, id: IdentityAnswer, x: Answers)
    requires StateOf(ue, a) == ContextSetup && (ue.hasRequest || ue.regType == NoType)
    ensures !Adds(ue, Receive(ue, a, intact, IdentityResponse(id), x), AuthSuccess)
  {
    var o, t := Receive(ue, a, intact, IdentityResponse(id), x), ue.(macFailed := !intact);
    IdentitySetsUp(ue, a, intact, id, x);
    if id.BadIdentity? || (id.ProtectedAnswer? && !intact) {
      EndsAdds(ue, o, a, Ending([], ContextSetup, t));
    } else {
      EndsAdds(ue, o, a, SetUpEnding(t.(identified := ue.identified || id.SuciAnswer?), x));
    }
  }

  lemma IdleAdds(ue: Ue, m: Arrival)
    requires StateOf(ue, m.access) == Deregistered || StateOf(ue, m.access) == Registered
    requires ActsOn(StateOf(ue, m.access), m.m)
    ensures Adds(ue, Receive(ue, m.access, m.intact, m.m, m.x), AuthSuccess) <==> Authenticates(ue, m)
  {
    match m.m
    case RegistrationRequest(reg) => RequestAdds(ue, m.access, m.intact, reg, m.x);
    case ServiceRequest(undecipherable) => ServiceIsNoted(ue, m.access, m.intact, undecipherable, m.x);
    case DeregistrationRequest(t) => DeregistrationEnds(ue, m.access, m.intact, t, m.x);
  }

  /** Of all the messages to a sound UE, it is exactly these that add an Authentication Success. */
  lemma AuthenticatesExactly(ue: Ue, m: Arrival)
    requires Sound(ue) && !MeetsNil(ue, m.access, m.m)
    ensures Adds(ue, Receive(ue, m.access, m.intact, m.m, m.x), AuthSuccess) <==> Authenticates(ue, m)
  {
    var s := StateOf(ue, m.access);
    if !ActsOn(s, m.m) {
      OthersAreIgnored(ue, m.access, m.intact, m.m, m.x);
    } else if s == Authentication {
      AuthenticationAuthenticates(ue, m);
    } else if s == SecurityMode {
      SecurityModeAdds(ue, m.access, m.intact, m.m, m.x);
    } else if s == ContextSetup {
      ContextSetupAdds(ue, m.access, m.intact, m.m, m.x);
    } else {
      IdleAdds(ue, m);
    }
  }

  // ---------------------------------------------------------------- every run

  /** A run's history only grows. */
  lemma {:induction false} HistoryGrows(ues: seq<Ue>, ms: seq<Arrival>, n: nat, k: nat)
    requires IsRun(ues, ms) && n <= k < |ues|
    ensures |ues[n].past.trace| <= |ues[k].past.trace|
    ensures forall i :: 0 <= i < |ues[n].past.trace| ==> ues[k].past.trace[i] == ues[n].past.trace[i]
  {
    if n < k {
      HistoryGrows(ues, ms, n, k - 1);
      assert IsStep(ues[k - 1], ms[k - 1], ues[k]);
      StepStamps(ues[k - 1], ms[k - 1], ues[k]);
    }
  }

  /** Every Authentication Success in a run is owed to a response that the AUSF has confirmed, or to a request or an
      identity of a UE with a security context, as the UE was when that message came. */
  lemma SuccessIsOwed(ues: seq<Ue>, ms: seq<Arrival>, i: nat) returns (j: nat)
    requires IsRun(ues, ms) && i < |ues[|ms|].past.trace| && ues[|ms|].past.trace[i].event == AuthSuccess
    ensures j < |ms| && OwedTo(ues, ms, i, j) && Authenticates(ues[j], ms[j])
  {
    j := ChangeIsOwed(ues, ms, i);
    RunIsSound(ues, ms, j);
    HistoryGrows(ues, ms, j + 1, |ms|);
    assert IsStep(ues[j], ms[j], ues[j + 1]);
    ReceiveIsSound(ues[j], ms[j]);
    AuthenticatesExactly(ues[j], ms[j]);
    assert ues[j + 1].past.trace[i].event == AuthSuccess;
  }

  /** So whoever is Registered after a run was authenticated, on that access, by one of these messages. */
  lemma RegisteredIsAuthenticated(ues: seq<Ue>, ms: seq<Arrival>, a: Access) returns (p: nat, j: nat)
    requires IsRun(ues, ms) && StateOf(ues[|ms|], a) == Registered
    ensures var t := ues[|ms|].past.trace;
            && p < |t| && t[p].access == a && t[p].event == AuthSuccess
            && j < |ms| && OwedTo(ues, ms, p, j) && Authenticates(ues[j], ms[j])
  {
    var c, s, k;
    c, s, p, k := RegisteredInRun(ues, ms, a);
    j := SuccessIsOwed(ues, ms, p);
  }
}
