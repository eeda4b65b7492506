/** What every run of received messages keeps, and exactly when handling one panics. */
module GmmRuns {
  import opened Options
  import opened GmmTable
  import opened Gmm

  /** The history is legal and ends in the current states. */
  predicate Tracks(trace: seq<Change>, threeGpp: State, nonThreeGpp: State) {
    && Legal(trace)
    && StateAfter(trace, |trace|, ThreeGpp) == threeGpp
    && StateAfter(trace, |trace|, NonThreeGpp) == nonThreeGpp
  }

  /**
   * Besides: there is an authentication context only while some access is in Authentication, a registration type only
   * while there is a stored request, and the integrity flag is up exactly if the message in hand failed its check and
   * no context transfer has taken the flag down.
   */
  predicate Sound(ue: Ue) {
    && Tracks(ue.past.trace, ue.threeGpp, ue.nonThreeGpp)
    && (ue.authCtx.Some? ==> ue.threeGpp == Authentication || ue.nonThreeGpp == Authentication)
    && (!ue.hasRequest ==> ue.regType == NoType)
    && FlagFollows(ue)
  }

  predicate FlagFollows(ue: Ue) {
    ue.macFailed <==> !ue.past.intact && !ue.past.transferred
  }

  /** Soundness does not depend on the other fields. */
  lemma SameSound(ue: Ue, u: Ue)
    requires Sound(ue) && u.past == ue.past && u.threeGpp == ue.threeGpp && u.nonThreeGpp == ue.nonThreeGpp
    requires u.authCtx == ue.authCtx && u.hasRequest == ue.hasRequest && u.regType == ue.regType
    requires u.macFailed == ue.macFailed
    ensures Sound(u)
  {
  }

  // ---------------------------------------------------------------- one event

  /** What the callbacks that an event reaches rely on. */
  predicate Ready(ue: Ue, m: Emission) {
    match m.event
    case AuthSuccess => m.args.eap || SecurityContextIsValid(ue)
    case SecurityModeSuccess => !ue.macFailed && (m.args.nas == RegistrationArg(true) ==> !ue.hasRequest)
    case InitDeregistration => m.args.nas.Gmm? && m.args.nas.msg.DeregistrationRequest?
    case GmmMessage => false
    case _ => true
  }

  /** A sound UE in the same states, and events that are ready: at most one, but for Deregistration Accept. */
  predicate GoodReaction(ue: Ue, r: Reaction) {
    && r.Reacted? && Sound(r.ue)
    && r.ue.threeGpp == ue.threeGpp && r.ue.nonThreeGpp == ue.nonThreeGpp
    && (forall m :: m in r.next ==> Ready(r.ue, m))
    && (|r.next| <= 1 || forall m :: m in r.next ==> m.event == DeregistrationAccept)
  }

  /** The UE as an entry callback finds it, by the event that led there. */
  predicate Arrived(ue: Ue, a: Access, s: State, args: Args) {
    && Sound(ue) && StateOf(ue, a) == s
    && (s == SecurityMode ==> args.eap || SecurityContextIsValid(ue))
    && (s == ContextSetup ==> args.nas == RegistrationArg(true) ==> !ue.hasRequest)
    && (s == DeregistrationInitiated ==> args.nas.Gmm? && args.nas.msg.DeregistrationRequest?)
  }

  lemma AuthenticationIsGood(ue: Ue, a: Access, args: Args, x: Answers)
    requires Sound(ue) && StateOf(ue, a) == Authentication
    ensures GoodReaction(ue, EnterAuthentication(ue, a, args, x))
    ensures EnterAuthentication(ue, a, args, x).ue.synchFailures == ue.synchFailures
  {
    var (u, verdict) := AuthenticationProcedure(ue, x);
    assert Sound(u);
  }

  /** The EAP arguments are read only when the security context is invalid, and are there then. */
  lemma SecurityModeIsGood(ue: Ue, a: Access, args: Args, x: Answers)
    requires Sound(ue) && (args.eap || SecurityContextIsValid(ue))
    ensures GoodReaction(ue, EnterSecurityMode(ue, a, args, x))
    ensures EnterSecurityMode(ue, a, args, x).ue.synchFailures == ue.synchFailures
  {
    assert Sound(ue.(secAvailable := x.command == SentIt));
  }

  lemma ContextSetupIsGood(ue: Ue, a: Access, args: Args, x: Answers)
    requires Sound(ue) && (args.nas == RegistrationArg(true) ==> !ue.hasRequest)
    ensures GoodReaction(ue, EnterContextSetup(ue, a, args, x))
    ensures EnterContextSetup(ue, a, args, x).ue.synchFailures == ue.synchFailures
  {
    assert Sound(ue.(secAvailable := false));
    if args.nas.RegistrationArg? {
      assert Sound(ue.(hasRequest := !args.nas.isNil));
    }
  }

  lemma EntryIsGood(ue: Ue, a: Access, s: State, args: Args, x: Answers)
    requires Arrived(ue, a, s, args)
    ensures GoodReaction(ue, OnEntry(ue, a, s, args, x))
    ensures OnEntry(ue, a, s, args, x).ue.synchFailures in {0, ue.synchFailures}
  {
    match s
    case Authentication => AuthenticationIsGood(ue, a, args, x);
    case SecurityMode => SecurityModeIsGood(ue, a, args, x);
    case ContextSetup => ContextSetupIsGood(ue, a, args, x);
    case DeregistrationInitiated =>
    case _ => assert Sound(Cleared(ue));
  }

  /** Only Authentication Restart makes a callback other than a message's send anything, and it leads nowhere else. */
  lemma EventIsGood(ue: Ue, m: Emission, x: Answers)
    requires Sound(ue) && m.event != GmmMessage && Target(StateOf(ue, m.target), m.event).Some?
    ensures var r := OnEvent(ue, m.target, m.event, m.args, x);
            && GoodReaction(ue, r) && r.ue.synchFailures == ue.synchFailures
            && (Target(StateOf(ue, m.target), m.event) != Some(StateOf(ue, m.target)) ==> r == Reacted(ue, []))
  {
    if m.event == AuthRestart {
      AuthenticationIsGood(ue, m.target, m.args, x);
    }
  }

  lemma TraceOn(trace: seq<Change>, threeGpp: State, nonThreeGpp: State, c: Change)
    requires Tracks(trace, threeGpp, nonThreeGpp) && Target(c.from, c.event) == Some(c.to) && c.from != c.to
    requires c.from == (if c.access == ThreeGpp then threeGpp else nonThreeGpp) && Evident(c)
    ensures Tracks(trace + [c], if c.access == ThreeGpp then c.to else threeGpp,
                   if c.access == ThreeGpp then nonThreeGpp else c.to)
  {
    LegalSnoc(trace, c);
    assert |trace + [c]| == |trace| + 1;
  }

  lemma TracksOn(ue: Ue, c: Change)
    requires Tracks(ue.past.trace, ue.threeGpp, ue.nonThreeGpp) && c.from == StateOf(ue, c.access)
    requires Target(c.from, c.event) == Some(c.to) && c.from != c.to
    requires Evident(c)
    ensures var v := Moved(ue, c.access, c); Tracks(v.past.trace, v.threeGpp, v.nonThreeGpp)
  {
    TraceOn(ue.past.trace, ue.threeGpp, ue.nonThreeGpp, c);
  }

  lemma ExitKeepsData(ue: Ue, from: State)
    requires Sound(ue)
    ensures var v := OnExit(ue, from);
            && Sound(v) && v.synchFailures == (if from == Authentication then 0 else ue.synchFailures)
            && v.hasRequest == ue.hasRequest && SecurityContextIsValid(v) == SecurityContextIsValid(ue)
            && (from == Authentication ==> v.authCtx.None?)
  {
  }

  /** A state other than Authentication is left for another: whoever is in Authentication stays there. */
  lemma MoveKeepsData(ue: Ue, a: Access, c: Change)
    requires Sound(ue) && (StateOf(ue, a) == Authentication ==> ue.authCtx.None?)
    ensures var v := Moved(ue, a, c);
            && (v.authCtx.Some? ==> v.threeGpp == Authentication || v.nonThreeGpp == Authentication)
            && (!v.hasRequest ==> v.regType == NoType) && StateOf(v, a) == c.to
            && FlagFollows(v)
            && v.synchFailures == ue.synchFailures && v.hasRequest == ue.hasRequest
            && SecurityContextIsValid(v) == SecurityContextIsValid(ue)
  {
  }

  lemma CrossedTracks(ue: Ue, m: Emission, from: State, to: State)
    requires Sound(ue) && Ready(ue, m) && from == StateOf(ue, m.target)
    requires Target(from, m.event) == Some(to) && to != from
    ensures var v := Crossed(ue, m, from, to); Tracks(v.past.trace, v.threeGpp, v.nonThreeGpp)
  {
    TracksOn(OnExit(ue, from), ChangeBy(ue, m, from, to));
  }

  /** The exit callback and the change of state, with the evidence the event needs. */
  lemma CrossedIsSound(ue: Ue, m: Emission, from: State, to: State)
    requires Sound(ue) && Ready(ue, m) && from == StateOf(ue, m.target)
    requires Target(from, m.event) == Some(to) && to != from
    ensures Arrived(Crossed(ue, m, from, to), m.target, to, m.args)
    ensures Crossed(ue, m, from, to).synchFailures == if from == Authentication then 0 else ue.synchFailures
  {
    CrossedTracks(ue, m, from, to);
    ExitKeepsData(ue, from);
    MoveKeepsData(OnExit(ue, from), m.target, ChangeBy(ue, m, from, to));
    EvidenceArrives(ue, m, from, to);
  }

  /** The arguments an event needs are those the state it leads to reads. */
  lemma EvidenceArrives(ue: Ue, m: Emission, from: State, to: State)
    requires Ready(ue, m) && Target(from, m.event) == Some(to) && to != from
    ensures to == SecurityMode ==> m.args.eap || SecurityContextIsValid(ue)
    ensures to == ContextSetup ==> m.args.nas == RegistrationArg(true) ==> !ue.hasRequest
    ensures to == DeregistrationInitiated ==> m.args.nas.Gmm? && m.args.nas.msg.DeregistrationRequest?
  {
  }

  /** An event handled to the end: no panic, no synch failure counted, none left by Authentication Fail. */
  predicate Fine(ue: Ue, o: Outcome) {
    o.Done? && Sound(o.ue) && (o.ue.synchFailures == 0 || o.ue.synchFailures == ue.synchFailures)
  }

  lemma {:induction false} SendIsFine(ue: Ue, m: Emission, x: Answers)
    requires Sound(ue) && Ready(ue, m)
    ensures Fine(ue, Send(ue, m, x))
    ensures m.event == AuthFail && StateOf(ue, m.target) == Authentication ==> Send(ue, m, x).ue.synchFailures == 0
    decreases Rank(m.event), 1, 0
  {
    var from := StateOf(ue, m.target);
    var to := Target(from, m.event);
    if to.Some? {
      EventIsGood(ue, m, x);
      var r := OnEvent(ue, m.target, m.event, m.args, x);
      if to.value == from {
        SendAllIsFine(r.ue, r.next, x);
      } else {
        EnterIsFine(ue, m, from, to.value, x);
      }
    }
  }

  lemma {:induction false} EnterIsFine(ue: Ue, m: Emission, from: State, to: State, x: Answers)
    requires Sound(ue) && Ready(ue, m) && from == StateOf(ue, m.target)
    requires Target(from, m.event) == Some(to) && to != from
    ensures Fine(ue, Enter(ue, m, from, to, x))
    ensures from == Authentication ==> Enter(ue, m, from, to, x).ue.synchFailures == 0
    decreases Rank(m.event), 0, 1
  {
    var v := Crossed(ue, m, from, to);
    CrossedIsSound(ue, m, from, to);
    EntryIsGood(v, m.target, to, m.args, x);
    var r := OnEntry(v, m.target, to, m.args, x);
    SendAllIsFine(r.ue, r.next, x);
  }

  /** Deregistration Accept for one access leaves that for the other ready; otherwise there is one event at most. */
  lemma {:induction false} SendAllIsFine(ue: Ue, ms: seq<Emission>, x: Answers)
    requires Sound(ue) && forall m :: m in ms ==> Ready(ue, m)
    requires |ms| <= 1 || forall m :: m in ms ==> m.event == DeregistrationAccept
    ensures Fine(ue, SendAll(ue, ms, x))
    decreases Height(ms), 2, |ms|
  {
    if ms != [] {
      SendIsFine(ue, ms[0], x);
      assert forall m :: m in ms[1..] ==> m in ms;
      SendAllIsFine(Send(ue, ms[0], x).ue, ms[1..], x);
    }
  }

  // ---------------------------------------------------------------- one message

  /** The messages that find a pointer nil. */
  predicate MeetsNil(ue: Ue, a: Access, m: Message) {
    || (StateOf(ue, a) == Authentication && m.AuthenticationFailure? && ue.authCtx.None?)
    || (StateOf(ue, a) == Authentication && m.AuthenticationResponse? && !m.usable && ue.authCtx == Some(EapAkaPrime))
    || (StateOf(ue, a) == ContextSetup && m.RegistrationComplete? && !ue.hasRequest)
  }

  /** At most one synch failure stays counted, unless Authentication Fail is on its way to forget them. */
  predicate CountSettles(ue: Ue, a: Access, next: seq<Emission>) {
    ue.synchFailures <= 1 ||
    (|next| == 1 && next[0].event == AuthFail && next[0].target == a && StateOf(ue, a) == Authentication)
  }

  /** The steps of a registration request touch neither states nor authentication, keep the stored request, and add
      nothing to the history but a context transfer. */
  predicate Kept(ue: Ue, u: Ue, t: Transfer) {
    && KeptPast(ue.past, u.past, t.Transferred?) && (FlagFollows(ue) ==> FlagFollows(u))
    && u.threeGpp == ue.threeGpp && u.nonThreeGpp == ue.nonThreeGpp
    && u.authCtx == ue.authCtx && u.synchFailures == ue.synchFailures && (ue.hasRequest ==> u.hasRequest)
  }

  predicate KeptPast(h: History, k: History, brought: bool) {
    k.trace == h.trace && k.intact == h.intact && (k.transferred ==> h.transferred || brought)
  }

  lemma TransferKeeps(ue: Ue, t: Transfer)
    ensures Kept(ue, ContextTransferred(ue, t), t)
  {
  }

  lemma IdentifiedKeeps(ue: Ue, reg: Registration, x: Answers)
    ensures Kept(ue, RegistrationIdentified(ue, reg, x).0, x.transfer)
  {
    TransferKeeps(ue.(ksi := if reg.native && reg.ksi != NO_KEY then reg.ksi else 0), x.transfer);
  }

  lemma KeptOn(ue: Ue, u: Ue, v: Ue, t: Transfer)
    requires Kept(ue, u, t) && Kept(u, v, t)
    ensures Kept(ue, v, t)
  {
  }

  lemma IdentifiedKeepsOn(ue: Ue, u: Ue, reg: Registration, x: Answers)
    requires Kept(ue, u, x.transfer)
    ensures Kept(ue, RegistrationIdentified(u, reg, x).0, x.transfer)
  {
    IdentifiedKeeps(u, reg, x);
    KeptOn(ue, u, RegistrationIdentified(u, reg, x).0, x.transfer);
  }

  lemma TypedKeeps(ue: Ue, reg: Registration, x: Answers)
    ensures Kept(ue, RegistrationTyped(ue, reg, x).0, x.transfer)
  {
    var u := ue.(usedGuti := reg.identity.Guti?);
    match reg.identity
    case BrokenIdentity =>
    case Suci(_) => IdentifiedKeepsOn(ue, u.(identified := true), reg, x);
    case Guti(_, ours) => IdentifiedKeepsOn(ue, u.(amfChanged := !ours), reg, x);
    case Equipment(_) => IdentifiedKeepsOn(ue, u, reg, x);
    case NoIdentity => IdentifiedKeepsOn(ue, u, reg, x);
  }

  lemma TypedKeepsOn(ue: Ue, u: Ue, reg: Registration, x: Answers)
    requires Kept(ue, u, x.transfer)
    ensures Kept(ue, RegistrationTyped(u, reg, x).0, x.transfer)
    ensures u.hasRequest ==> RegistrationTyped(u, reg, x).0.hasRequest
  {
    TypedKeeps(u, reg, x);
    KeptOn(ue, u, RegistrationTyped(u, reg, x).0, x.transfer);
  }

  lemma UpdateKeeps(ue: Ue, a: Access, reg: Registration, x: Answers)
    requires reg.code.MobilityCode? || reg.code.PeriodicCode?
    ensures Kept(ue, RegistrationRead(ue, a, reg, x).0, x.transfer) && RegistrationRead(ue, a, reg, x).0.hasRequest
  {
    TypedKeepsOn(ue, ue.(hasRequest := true, regType := if reg.code.MobilityCode? then Mobility else Periodic), reg, x);
  }

  lemma InitialKeeps(ue: Ue, a: Access, reg: Registration, x: Answers)
    requires !reg.code.MobilityCode? && !reg.code.PeriodicCode?
    ensures Kept(ue, RegistrationRead(ue, a, reg, x).0, x.transfer) && RegistrationRead(ue, a, reg, x).0.hasRequest
  {
    var u := ue.(hasRequest := true, regType := Initial);
    TypedKeepsOn(ue, if reg.code.InitialCode? then u.(secAvailable := false) else u, reg, x);
  }

  lemma ReadKeeps(ue: Ue, a: Access, reg: Registration, x: Answers)
    ensures Kept(ue, RegistrationRead(ue, a, reg, x).0, x.transfer) && RegistrationRead(ue, a, reg, x).0.hasRequest
  {
    if reg.code.MobilityCode? || reg.code.PeriodicCode? {
      UpdateKeeps(ue, a, reg, x);
    } else {
      InitialKeeps(ue, a, reg, x);
    }
  }

  /** A request that is read past its container is stored, and one that is not leaves the UE as it was. */
  lemma RequestKeeps(ue: Ue, a: Access, reg: Registration, x: Answers)
    ensures var u := HandleRegistrationRequest(ue, a, reg, x).0;
            Kept(ue, u, x.transfer) && (u == ue || u.hasRequest)
  {
    if reg.connected {
      var u := if reg.container == Undecipherable && !ue.macFailed then ue.(secAvailable := false) else ue;
      ReadKeeps(u, a, reg, x);
    }
  }

  lemma RegisterIsGood(ue: Ue, a: Access, reg: Registration, args: Args, x: Answers)
    requires Sound(ue)
    ensures GoodReaction(ue, Register(ue, a, reg, args, x))
    ensures Register(ue, a, reg, args, x).ue.synchFailures == ue.synchFailures
  {
    RequestKeeps(ue, args.access, reg, x);
  }

  lemma SetUpIsGood(ue: Ue, a: Access, access: Access, x: Answers)
    requires Sound(ue)
    ensures GoodReaction(ue, SetUp(ue, a, access, x)) && SetUp(ue, a, access, x).ue == ue
  {
  }

  lemma MismatchIsGood(ue: Ue, a: Access)
    requires Sound(ue)
    ensures GoodReaction(ue, Mismatch(ue, a)) && Mismatch(ue, a).ue.synchFailures == ue.synchFailures
  {
    SameSound(ue, ue.(identityRequests := 1));
  }

  lemma ConfirmIsGood(ue: Ue, a: Access, x: Answers)
    requires Sound(ue)
    ensures GoodReaction(ue, Confirm(ue, a, x)) && Confirm(ue, a, x).ue.synchFailures == ue.synchFailures
  {
    SameSound(ue, ue.(identified := true));
    MismatchIsGood(ue, a);
  }

  lemma AuthenticationResponseIsGood(ue: Ue, a: Access, usable: bool, matches: bool, x: Answers)
    requires Sound(ue) && !(ue.authCtx == Some(EapAkaPrime) && !usable)
    ensures var r := HandleAuthenticationResponse(ue, a, usable, matches, x);
            GoodReaction(ue, r) && r.ue.synchFailures == ue.synchFailures
  {
    MismatchIsGood(ue, a);
    ConfirmIsGood(ue, a, x);
  }

  /** A second synch failure in a row sends Authentication Fail; no other path leaves two counted. */
  lemma SynchFailureIsGood(ue: Ue, a: Access, decodable: bool, x: Answers)
    requires Sound(ue) && StateOf(ue, a) == Authentication && ue.synchFailures <= 1
    ensures var r := CountSynchFailure(ue, a, decodable, x);
            GoodReaction(ue, r) && CountSettles(r.ue, a, r.next)
  {
    SameSound(ue, ue.(synchFailures := ue.synchFailures + 1));
  }

  lemma AuthenticationFailureIsGood(ue: Ue, a: Access, cause: FailureCause, x: Answers)
    requires Sound(ue) && StateOf(ue, a) == Authentication && ue.authCtx.Some? && ue.synchFailures <= 1
    ensures var r := HandleAuthenticationFailure(ue, a, cause, x);
            GoodReaction(ue, r) && CountSettles(r.ue, a, r.next)
  {
    if cause.SynchFailure? {
      SynchFailureIsGood(ue, a, cause.decodable, x);
    } else if cause.KsiInUse? {
      KsiInUseIsGood(ue, a, x);
    }
  }

  lemma KsiInUseIsGood(ue: Ue, a: Access, x: Answers)
    requires Sound(ue) && ue.authCtx.Some? && ue.synchFailures <= 1
    ensures var r := HandleAuthenticationFailure(ue, a, KsiInUse, x);
            GoodReaction(ue, r) && r.ue.synchFailures <= 1
  {
    var nextKsi := if ue.ksi < 6 then ue.ksi + 1 else 0;
    SameSound(ue, ue.(ksi := nextKsi));
    SameSound(ue, ue.(synchFailures := 0, ksi := nextKsi));
  }

  lemma IdentityKeeps(ue: Ue, id: IdentityAnswer, guti: bool)
    requires Sound(ue)
    ensures var u := HandleIdentityResponse(ue, id).0;
            Sound(u) && Kept(ue, u, TransferFailed) && u.hasRequest == ue.hasRequest && u.regType == ue.regType
            && Sound(u.(usedGuti := guti))
  {
  }

  lemma AuthenticationMessageIsGood(ue: Ue, a: Access, m: Message, args: Args, x: Answers)
    requires Sound(ue) && StateOf(ue, a) == Authentication && !MeetsNil(ue, a, m) && args.access == a
    requires ue.synchFailures <= 1
    ensures var r := MessageAuthentication(ue, a, m, args, x);
            GoodReaction(ue, r) && CountSettles(r.ue, a, r.next)
  {
    match m
    case IdentityResponse(id) => IdentityKeeps(ue, id, id == ProtectedAnswer(true));
    case AuthenticationResponse(usable, matches) => AuthenticationResponseIsGood(ue, a, usable, matches, x);
    case AuthenticationFailure(cause) => AuthenticationFailureIsGood(ue, a, cause, x);
    case _ =>
  }

  lemma SecurityModeMessageIsGood(ue: Ue, a: Access, m: Message, args: Args)
    requires Sound(ue) && StateOf(ue, a) == SecurityMode && args.access == a
    ensures GoodReaction(ue, MessageSecurityMode(ue, a, m, args)) && MessageSecurityMode(ue, a, m, args).ue == ue
  {
  }

  lemma ContextSetupMessageIsGood(ue: Ue, a: Access, m: Message, args: Args, x: Answers)
    requires Sound(ue) && !MeetsNil(ue, a, m) && StateOf(ue, a) == ContextSetup
    ensures var r := MessageContextSetup(ue, a, m, args, x);
            GoodReaction(ue, r) && r.ue.synchFailures == ue.synchFailures
  {
    if m.IdentityResponse? {
      IdentityKeeps(ue, m.id, false);
      SetUpIsGood(HandleIdentityResponse(ue, m.id).0, a, args.access, x);
    }
  }

  lemma IdleMessageIsGood(ue: Ue, a: Access, m: Message, args: Args, x: Answers)
    requires Sound(ue) && args == Args(a, Gmm(m), true, false)
    ensures var r := MessageDeregistered(ue, a, m, args, x);
            GoodReaction(ue, r) && r.ue.synchFailures == ue.synchFailures
    ensures var r := MessageRegistered(ue, a, m, args, x);
            GoodReaction(ue, r) && r.ue.synchFailures == ue.synchFailures
  {
    assert Sound(ue.(secAvailable := false));
    if m.RegistrationRequest? {
      RegisterIsGood(ue, a, m.reg, args, x);
    }
  }

  lemma MessageIsGood(ue: Ue, a: Access, m: Message, x: Answers)
    requires Sound(ue) && ue.synchFailures <= 1 && !MeetsNil(ue, a, m)
    requires Target(StateOf(ue, a), GmmMessage).Some?
    ensures var r := OnEvent(ue, a, GmmMessage, Args(a, Gmm(m), true, false), x);
            GoodReaction(ue, r) && CountSettles(r.ue, a, r.next)
  {
    var args := Args(a, Gmm(m), true, false);
    match StateOf(ue, a)
    case Authentication => AuthenticationMessageIsGood(ue, a, m, args, x);
    case SecurityMode => SecurityModeMessageIsGood(ue, a, m, args);
    case ContextSetup => ContextSetupMessageIsGood(ue, a, m, args, x);
    case _ => IdleMessageIsGood(ue, a, m, args, x);
  }

  /** A message that meets no nil pointer is handled to the end. */
  lemma MessageSettles(ue: Ue, a: Access, m: Message, x: Answers)
    requires Sound(ue) && ue.synchFailures <= 1 && !MeetsNil(ue, a, m)
    requires Target(StateOf(ue, a), GmmMessage).Some?
    ensures var r := OnEvent(ue, a, GmmMessage, Args(a, Gmm(m), true, false), x);
            var o := SendAll(r.ue, r.next, x);
            r.Reacted? && o.Done? && Sound(o.ue) && o.ue.synchFailures <= 1
  {
    MessageIsGood(ue, a, m, x);
    var r := OnEvent(ue, a, GmmMessage, Args(a, Gmm(m), true, false), x);
    SendAllIsFine(r.ue, r.next, x);
    if r.ue.synchFailures > 1 {
      SendIsFine(r.ue, r.next[0], x);
      assert r.next[1..] == [];
    }
  }

  lemma NilPanics(ue: Ue, a: Access, m: Message, x: Answers)
    requires MeetsNil(ue, a, m)
    ensures var r := OnEvent(ue, a, GmmMessage, Args(a, Gmm(m), true, false), x);
            r.Panicked? && r.why != MissingArgument
  {
  }

  /** A message is handled to the end, or meets a nil pointer. */
  lemma SendMessageIsSound(ue: Ue, a: Access, m: Message, x: Answers)
    requires Sound(ue) && ue.synchFailures <= 1
    ensures var o := Send(ue, Emission(a, GmmMessage, Args(a, Gmm(m), true, false)), x);
            if MeetsNil(ue, a, m) then o.Failed? && o.why != MissingArgument
            else o.Done? && Sound(o.ue) && o.ue.synchFailures <= 1
  {
    if MeetsNil(ue, a, m) {
      NilPanics(ue, a, m, x);
    } else if Target(StateOf(ue, a), GmmMessage).Some? {
      MessageSettles(ue, a, m, x);
    }
  }

  // ---------------------------------------------------------------- every run

  /** A message with the access it came over, its integrity verdict, and what the other functions answer. */
  datatype Arrival = Arrival(access: Access, intact: bool, m: Message, x: Answers)

  /** A new UE context. */
  const FRESH := Ue(Deregistered, Deregistered, None, 0, 0, false, 0, false, false, false, NoType, false, false,
                    History(true, false, []))

  /** The contexts after each of a run of messages, none of which panics. */
  predicate IsRun(ues: seq<Ue>, ms: seq<Arrival>) {
    && |ues| == |ms| + 1 && ues[0] == FRESH
    && forall i :: 0 <= i < |ms| ==> IsStep(ues[i], ms[i], ues[i + 1])
  }

  predicate IsStep(ue: Ue, m: Arrival, v: Ue) {
    Receive(ue, m.access, m.intact, m.m, m.x) == Done(v)
  }

  /** One message, whatever it is and whatever the answers: the cascade ends, and never for want of an argument. */
  lemma ReceiveIsSound(ue: Ue, m: Arrival)
    requires Sound(ue) && ue.synchFailures <= 1
    ensures var o := Receive(ue, m.access, m.intact, m.m, m.x);
            && (o.Failed? <==> MeetsNil(ue, m.access, m.m))
            && (o.Failed? ==> o.why != MissingArgument)
            && (o.Done? ==> Sound(o.ue) && o.ue.synchFailures <= 1)
  {
    var u := Taken(ue, m.intact);
    assert Sound(u) && MeetsNil(u, m.access, m.m) == MeetsNil(ue, m.access, m.m);
    SendMessageIsSound(u, m.access, m.m, m.x);
  }

  /**
   * After every message of every run: an authentication context only while some access is in Authentication, at most
   * one synch failure counted, and a legal history.
   */
  lemma {:induction false} RunIsSound(ues: seq<Ue>, ms: seq<Arrival>, n: nat)
    requires IsRun(ues, ms) && n < |ues|
    ensures Sound(ues[n]) && ues[n].synchFailures <= 1
  {
    if n > 0 {
      RunIsSound(ues, ms, n - 1);
      assert IsStep(ues[n - 1], ms[n - 1], ues[n]);
      ReceiveIsSound(ues[n - 1], ms[n - 1]);
    }
  }

  // ---------------------------------------------------------------- which message a change is owed to

  /** A registration request for which the old AMF hands over the context. */
  predicate BringsContext(e: Emission, x: Answers) {
    e.event == GmmMessage && e.args.nas.Gmm? && e.args.nas.msg.RegistrationRequest? && x.transfer.Transferred?
  }

  /** From `h` to `k` only changes were added that bear the verdict on the message in hand, and a context transfer
      only if there was one before or `brought` says that there may be. */
  predicate Stamped(h: History, k: History, brought: bool) {
    && k.intact == h.intact && (k.transferred ==> h.transferred || brought)
    && |h.trace| <= |k.trace|
    && (forall i :: 0 <= i < |h.trace| ==> k.trace[i] == h.trace[i])
    && (forall i :: |h.trace| <= i < |k.trace| ==>
          k.trace[i].intact == h.intact && (k.trace[i].transferred ==> h.transferred || brought))
  }

  lemma StampedOn(h: History, k: History, l: History, brought: bool)
    requires Stamped(h, k, brought) && Stamped(k, l, false)
    ensures Stamped(h, l, brought)
  {
  }

  /** A callback leaves the history as it is, but for a context transfer. */
  predicate Quiet(ue: Ue, r: Reaction, brought: bool) {
    r.Reacted? ==> KeptPast(ue.past, r.ue.past, brought)
  }

  lemma RegisterIsQuiet(ue: Ue, a: Access, reg: Registration, args: Args, x: Answers)
    ensures Quiet(ue, Register(ue, a, reg, args, x), x.transfer.Transferred?)
  {
    RequestKeeps(ue, args.access, reg, x);
  }

  lemma IdleIsQuiet(ue: Ue, a: Access, m: Message, args: Args, x: Answers)
    ensures Quiet(ue, MessageDeregistered(ue, a, m, args, x), m.RegistrationRequest? && x.transfer.Transferred?)
    ensures Quiet(ue, MessageRegistered(ue, a, m, args, x), m.RegistrationRequest? && x.transfer.Transferred?)
  {
    if m.RegistrationRequest? {
      RegisterIsQuiet(ue, a, m.reg, args, x);
    }
  }

  lemma AuthenticationIsQuiet(ue: Ue, a: Access, m: Message, args: Args, x: Answers)
    ensures Quiet(ue, MessageAuthentication(ue, a, m, args, x), false)
  {
    match m
    case AuthenticationFailure(cause) => FailureIsQuiet(ue, args.access, cause, x);
    case AuthenticationResponse(usable, matches) => ResponseIsQuiet(ue, args.access, usable, matches, x);
    case _ =>
  }

  lemma ConfirmIsQuiet(ue: Ue, a: Access, x: Answers)
    ensures Quiet(ue, Mismatch(ue, a), false) && Quiet(ue, Confirm(ue, a, x), false)
  {
  }

  lemma ResponseIsQuiet(ue: Ue, a: Access, usable: bool, matches: bool, x: Answers)
    ensures Quiet(ue, HandleAuthenticationResponse(ue, a, usable, matches, x), false)
  {
    ConfirmIsQuiet(ue, a, x);
  }

  lemma FailureIsQuiet(ue: Ue, a: Access, cause: FailureCause, x: Answers)
    ensures Quiet(ue, HandleAuthenticationFailure(ue, a, cause, x), false)
  {
  }

  lemma EntryIsQuiet(ue: Ue, a: Access, s: State, args: Args, x: Answers)
    ensures Quiet(ue, OnEntry(ue, a, s, args, x), false)
  {
  }

  lemma LateMessageIsQuiet(ue: Ue, a: Access, m: Message, args: Args, x: Answers)
    ensures Quiet(ue, MessageSecurityMode(ue, a, m, args), false)
    ensures Quiet(ue, MessageContextSetup(ue, a, m, args, x), false)
  {
  }

  lemma MessageIsQuiet(ue: Ue, a: Access, m: Message, args: Args, x: Answers)
    requires args.nas == Gmm(m)
    ensures Quiet(ue, OnEvent(ue, a, GmmMessage, args, x), m.RegistrationRequest? && x.transfer.Transferred?)
  {
    match StateOf(ue, a)
    case Authentication => AuthenticationIsQuiet(ue, a, m, args, x);
    case SecurityMode => LateMessageIsQuiet(ue, a, m, args, x);
    case ContextSetup => LateMessageIsQuiet(ue, a, m, args, x);
    case _ => IdleIsQuiet(ue, a, m, args, x);
  }

  lemma EventIsQuiet(ue: Ue, e: Emission, x: Answers)
    ensures Quiet(ue, OnEvent(ue, e.target, e.event, e.args, x), BringsContext(e, x))
  {
    if e.event == GmmMessage && e.args.nas.Gmm? {
      MessageIsQuiet(ue, e.target, e.args.nas.msg, e.args, x);
    }
  }

  /** What an outcome leaves of the history, if it is not a panic. */
  predicate Stamps(ue: Ue, o: Outcome, brought: bool) {
    o.Done? ==> Stamped(ue.past, o.ue.past, brought)
  }

  lemma StampsOn(ue: Ue, v: Ue, o: Outcome, brought: bool)
    requires Stamped(ue.past, v.past, brought) && Stamps(v, o, false)
    ensures Stamps(ue, o, brought)
  {
    if o.Done? {
      StampedOn(ue.past, v.past, o.ue.past, brought);
    }
  }

  lemma {:induction false} SendStamps(ue: Ue, e: Emission, x: Answers)
    ensures Stamps(ue, Send(ue, e, x), BringsContext(e, x))
    decreases Rank(e.event), 1, 0
  {
    var from := StateOf(ue, e.target);
    var to, r := Target(from, e.event), OnEvent(ue, e.target, e.event, e.args, x);
    if to.Some? && r.Reacted? {
      EventIsQuiet(ue, e, x);
      SendAllStamps(r.ue, r.next, x);
      var o := SendAll(r.ue, r.next, x);
      StampsOn(ue, r.ue, o, BringsContext(e, x));
      if o.Done? && to.value != from {
        EnterStamps(o.ue, e, from, to.value, x);
        StampsOn(ue, o.ue, Enter(o.ue, e, from, to.value, x), BringsContext(e, x));
      }
    }
  }

  lemma CrossedStamps(ue: Ue, e: Emission, from: State, to: State)
    ensures Stamped(ue.past, Crossed(ue, e, from, to).past, false)
  {
    MovedPast(OnExit(ue, from), e.target, ChangeBy(ue, e, from, to));
    OneMoreStamped(ue.past, ChangeBy(ue, e, from, to));
  }

  lemma MovedPast(ue: Ue, a: Access, c: Change)
    ensures Moved(ue, a, c).past == ue.past.(trace := ue.past.trace + [c])
  {
  }

  lemma OneMoreStamped(h: History, c: Change)
    requires c.intact == h.intact && c.transferred == h.transferred
    ensures Stamped(h, h.(trace := h.trace + [c]), false)
  {
  }

  lemma {:induction false} EnterStamps(ue: Ue, e: Emission, from: State, to: State, x: Answers)
    requires Target(from, e.event) == Some(to) && to != from
    ensures Stamps(ue, Enter(ue, e, from, to, x), false)
    decreases Rank(e.event), 0, 1
  {
    var v := Crossed(ue, e, from, to);
    var r := OnEntry(v, e.target, to, e.args, x);
    CrossedStamps(ue, e, from, to);
    if r.Reacted? {
      EntryIsQuiet(v, e.target, to, e.args, x);
      StampedOn(ue.past, v.past, r.ue.past, false);
      SendAllStamps(r.ue, r.next, x);
      StampsOn(ue, r.ue, SendAll(r.ue, r.next, x), false);
    }
  }

  lemma {:induction false} SendAllStamps(ue: Ue, es: seq<Emission>, x: Answers)
    requires Height(es) < Rank(GmmMessage)
    ensures Stamps(ue, SendAll(ue, es, x), false)
    decreases Height(es), 2, |es|
  {
    if es != [] {
      SendStamps(ue, es[0], x);
      var o := Send(ue, es[0], x);
      if o.Done? {
        SendAllStamps(o.ue, es[1..], x);
        StampsOn(ue, o.ue, SendAll(o.ue, es[1..], x), false);
      }
    }
  }

  /** The message passed its integrity check, or is a registration request for which the old AMF handed over the
      context. */
  predicate AnsweredFor(m: Arrival) {
    m.intact || (m.m.RegistrationRequest? && m.x.transfer.Transferred?)
  }

  /** Change `i` of a run's history was made while handling message `j`, and bears the verdict on it. */
  predicate OwedTo(ues: seq<Ue>, ms: seq<Arrival>, i: nat, j: nat)
    requires |ues| == |ms| + 1 && j < |ms| && i < |ues[|ms|].past.trace|
  {
    && |ues[j].past.trace| <= i < |ues[j + 1].past.trace|
    && ues[|ms|].past.trace[i].intact == ms[j].intact
    && (ues[|ms|].past.trace[i].transferred ==> ms[j].m.RegistrationRequest? && ms[j].x.transfer.Transferred?)
  }

  lemma StepStamps(ue: Ue, m: Arrival, v: Ue)
    requires IsStep(ue, m, v)
    ensures Stamped(Taken(ue, m.intact).past, v.past, m.m.RegistrationRequest? && m.x.transfer.Transferred?)
  {
    SendStamps(Taken(ue, m.intact), Emission(m.access, GmmMessage, Args(m.access, Gmm(m.m), true, false)), m.x);
  }

  /** Every change in the history of a run is owed to one of its messages. */
  lemma {:induction false} ChangeIsOwed(ues: seq<Ue>, ms: seq<Arrival>, i: nat) returns (j: nat)
    requires IsRun(ues, ms) && i < |ues[|ms|].past.trace|
    ensures j < |ms| && OwedTo(ues, ms, i, j)
    decreases |ms|
  {
    var n := |ms| - 1;
    assert |ms| > 0;
    assert IsStep(ues[n], ms[n], ues[n + 1]);
    StepStamps(ues[n], ms[n], ues[n + 1]);
    if i < |ues[n].past.trace| {
      assert IsRun(ues[..|ms|], ms[..n]) by {
        forall k | 0 <= k < n ensures IsStep(ues[..|ms|][k], ms[..n][k], ues[..|ms|][k + 1]) {
          assert IsStep(ues[k], ms[k], ues[k + 1]);
        }
      }
      j := ChangeIsOwed(ues[..|ms|], ms[..n], i);
    } else {
      j := n;
    }
  }

  /** Whoever is Registered after a run has earned it on that access, with nothing between the three successes; and the
      SecurityMode Success is owed to a message that passed its check or that the old AMF answered for. */
  lemma RegisteredInRun(ues: seq<Ue>, ms: seq<Arrival>, a: Access)
    returns (c: nat, s: nat, p: nat, j: nat)
    requires IsRun(ues, ms) && StateOf(ues[|ms|], a) == Registered
    ensures var t := ues[|ms|].past.trace;
            && c < |t| && t[c].access == a && t[c].event == ContextSetupSuccess
            && (forall k :: c < k < |t| ==> t[k].access != a)
            && JustBefore(t, s, c) && t[s].event == SecurityModeSuccess
            && JustBefore(t, p, s) && t[p].event == AuthSuccess && t[p].vouched
            && j < |ms| && OwedTo(ues, ms, s, j) && AnsweredFor(ms[j])
  {
    RunIsSound(ues, ms, |ms|);
    var t := ues[|ms|].past.trace;
    c := Latest(t, |t|, a);
    s, p := RegisteredIsEarned(t, c);
    j := ChangeIsOwed(ues, ms, s);
  }

  /** An event that only leads elsewhere is handled by entering the state it leads to. */
  lemma SendToEnter(ue: Ue, m: Emission, to: State, x: Answers)
    requires m.event != GmmMessage && m.event != AuthRestart
    requires Target(StateOf(ue, m.target), m.event) == Some(to) && to != StateOf(ue, m.target)
    ensures Send(ue, m, x) == Enter(ue, m, StateOf(ue, m.target), to, x)
    ensures SendAll(ue, [], x) == Done(ue)
  {
    assert OnEvent(ue, m.target, m.event, m.args, x) == Reacted(ue, []);
    assert SendAll(ue, [], x) == Done(ue);
  }

  // ---------------------------------------------------------------- leaving

  predicate Includes(t: DeregistrationTarget, a: Access) {
    t == TargetBoth || t == (if a == ThreeGpp then Target3Gpp else TargetNon3Gpp)
  }

  lemma EnterIdle(ue: Ue, m: Emission, from: State, to: State, x: Answers)
    requires Target(from, m.event) == Some(to) && to != from && (to == Deregistered || to == Registered)
    ensures Enter(ue, m, from, to, x) == Done(Cleared(Crossed(ue, m, from, to)))
  {
    assert SendAll(Cleared(Crossed(ue, m, from, to)), [], x) == Done(Cleared(Crossed(ue, m, from, to)));
  }

  /** What Deregistration Accept makes of a state. */
  function Accepted(s: State): (t: State) {
    if s == DeregistrationInitiated then Deregistered else s
  }

  lemma SendAccept(ue: Ue, m: Emission, x: Answers)
    requires m.event == DeregistrationAccept
    ensures var o := Send(ue, m, x);
            && o.Done?
            && o.ue.threeGpp == (if m.target == ThreeGpp then Accepted(ue.threeGpp) else ue.threeGpp)
            && o.ue.nonThreeGpp == (if m.target == ThreeGpp then ue.nonThreeGpp else Accepted(ue.nonThreeGpp))
  {
    if StateOf(ue, m.target) == DeregistrationInitiated {
      EnterIdle(ue, m, DeregistrationInitiated, Deregistered, x);
      assert SendAll(ue, [], x) == Done(ue);
      assert OnEvent(ue, m.target, m.event, m.args, x) == Reacted(ue, []);
      assert Send(ue, m, x) == Enter(ue, m, DeregistrationInitiated, Deregistered, x);
    }
  }

  lemma SendAccepts(ue: Ue, a: Access, t: DeregistrationTarget, x: Answers)
    ensures var r := EnterDeregistrationInitiated(ue, Plain(a).(nas := Gmm(DeregistrationRequest(t))), x);
            var o := SendAll(r.ue, r.next, x);
            && r.Reacted? && o.Done?
            && o.ue.threeGpp == (if Includes(t, ThreeGpp) then Accepted(ue.threeGpp) else ue.threeGpp)
            && o.ue.nonThreeGpp == (if Includes(t, NonThreeGpp) then Accepted(ue.nonThreeGpp) else ue.nonThreeGpp)
  {
    var one := Emission(ThreeGpp, DeregistrationAccept, Plain(a));
    var two := Emission(NonThreeGpp, DeregistrationAccept, Plain(a));
    SendAccept(ue, one, x);
    SendAccept(ue, two, x);
    var w := Send(ue, one, x).ue;
    SendAccept(w, two, x);
    SendOne(ue, one, x);
    SendOne(ue, two, x);
    SendOne(w, two, x);
    assert [one, two][1..] == [two];
  }

  /** A deregistration request ends in Deregistered exactly when its target includes the access it came over. */
  lemma DeregistrationOutcome(ue: Ue, a: Access, intact: bool, t: DeregistrationTarget, x: Answers)
    requires StateOf(ue, a) == Registered
    ensures var o := Receive(ue, a, intact, DeregistrationRequest(t), x);
            o.Done? && StateOf(o.ue, a) == if Includes(t, a) then Deregistered else DeregistrationInitiated
  {
    var u := Taken(ue, intact);
    DeregistrationSent(u, a, t, x);
    InitDeregistrationOutcome(u, a, t, x);
  }

  lemma DeregistrationSent(u: Ue, a: Access, t: DeregistrationTarget, x: Answers)
    requires StateOf(u, a) == Registered
    ensures var nas := Gmm(DeregistrationRequest(t));
            Send(u, Emission(a, GmmMessage, Args(a, nas, true, false)), x)
            == Send(u, Emission(a, InitDeregistration, Plain(a).(nas := nas)), x)
  {
    var nas := Gmm(DeregistrationRequest(t));
    var m := Emission(a, InitDeregistration, Plain(a).(nas := nas));
    assert OnEvent(u, a, GmmMessage, Args(a, nas, true, false), x) == Reacted(u, [m]);
    SendOne(u, m, x);
  }

  lemma InitDeregistrationOutcome(u: Ue, a: Access, t: DeregistrationTarget, x: Answers)
    requires StateOf(u, a) == Registered
    ensures var m := Emission(a, InitDeregistration, Plain(a).(nas := Gmm(DeregistrationRequest(t))));
            var o := Send(u, m, x);
            o.Done? && StateOf(o.ue, a) == if Includes(t, a) then Deregistered else DeregistrationInitiated
  {
    var m := Emission(a, InitDeregistration, Plain(a).(nas := Gmm(DeregistrationRequest(t))));
    SendAccepts(Crossed(u, m, Registered, DeregistrationInitiated), a, t, x);
    assert SendAll(u, [], x) == Done(u);
    assert OnEvent(u, a, m.event, m.args, x) == Reacted(u, []);
    assert Send(u, m, x) == Enter(u, m, Registered, DeregistrationInitiated, x);
  }

  /** And there no message over that access is acted on any more: the table has no GMM message event for the state. */
  lemma DeregistrationIgnores(ue: Ue, m: Arrival)
    requires StateOf(ue, m.access) == DeregistrationInitiated
    ensures Receive(ue, m.access, m.intact, m.m, m.x) == Done(Taken(ue, m.intact))
  {
  }
}
