/** The UE context as the source keeps it: callbacks and handlers update its fields and send events from within. */
module GmmObject {
  import opened Options
  import opened GmmTable
  import opened Gmm
  import opened GmmRuns

  /** What a reaction comes to once its events are handled. */
  function Finish(r: Reaction, x: Answers): (o: Outcome) {
    if r.Panicked? then Failed(r.why) else SendAll(r.ue, r.next, x)
  }

  lemma FinishNone(ue: Ue, x: Answers)
    ensures Finish(Reacted(ue, []), x) == Done(ue)
  {
  }

  lemma FinishOne(ue: Ue, m: Emission, x: Answers)
    ensures Finish(Reacted(ue, [m]), x) == Send(ue, m, x)
  {
    SendOne(ue, m, x);
  }

  /** A callback with a good reaction is fine, with all it sends. */
  lemma GoodEnds(ue: Ue, r: Reaction, x: Answers)
    requires GoodReaction(ue, r) && r.ue.synchFailures == ue.synchFailures
    ensures Fine(ue, Finish(r, x))
  {
    SendAllIsFine(r.ue, r.next, x);
  }

  lemma AuthenticationEnds(ue: Ue, a: Access, args: Args, x: Answers)
    requires Arrived(ue, a, Authentication, args)
    ensures Fine(ue, Finish(EnterAuthentication(ue, a, args, x), x))
  {
    AuthenticationIsGood(ue, a, args, x);
    GoodEnds(ue, EnterAuthentication(ue, a, args, x), x);
  }

  lemma SecurityModeEnds(ue: Ue, a: Access, args: Args, x: Answers)
    requires Arrived(ue, a, SecurityMode, args)
    ensures Fine(ue, Finish(EnterSecurityMode(ue, a, args, x), x))
  {
    SecurityModeIsGood(ue, a, args, x);
    GoodEnds(ue, EnterSecurityMode(ue, a, args, x), x);
  }

  lemma ContextSetupEnds(ue: Ue, a: Access, args: Args, x: Answers)
    requires Arrived(ue, a, ContextSetup, args)
    ensures Fine(ue, Finish(EnterContextSetup(ue, a, args, x), x))
  {
    ContextSetupIsGood(ue, a, args, x);
    GoodEnds(ue, EnterContextSetup(ue, a, args, x), x);
  }

  lemma DeregistrationEnds(ue: Ue, a: Access, args: Args, x: Answers)
    requires Arrived(ue, a, DeregistrationInitiated, args)
    ensures Fine(ue, Finish(EnterDeregistrationInitiated(ue, args, x), x))
  {
    EntryIsGood(ue, a, DeregistrationInitiated, args, x);
    GoodEnds(ue, EnterDeregistrationInitiated(ue, args, x), x);
  }

  /** A message's callback, with all it sends, meets a nil pointer or keeps the UE sound. */
  lemma MessageEnds(ue: Ue, a: Access, m: Message, x: Answers)
    requires Sound(ue) && ue.synchFailures <= 1 && Target(StateOf(ue, a), GmmMessage).Some?
    ensures var o := Finish(OnEvent(ue, a, GmmMessage, Args(a, Gmm(m), true, false), x), x);
            if MeetsNil(ue, a, m) then o.Failed? else o.Done? && Sound(o.ue) && o.ue.synchFailures <= 1
  {
    if MeetsNil(ue, a, m) {
      NilPanics(ue, a, m, x);
    } else {
      MessageSettles(ue, a, m, x);
    }
  }

  class GmmUe {
    var threeGpp: State
    var nonThreeGpp: State
    var authCtx: Option<AuthType>
    var synchFailures: nat
    var identityRequests: nat
    var secAvailable: bool
    var ksi: nat
    var macFailed: bool
    var identified: bool
    var hasRequest: bool
    var regType: RegType
    var usedGuti: bool
    var amfChanged: bool
    ghost var past: History

    constructor ()
      ensures Value() == FRESH
    {
      threeGpp, nonThreeGpp, authCtx, synchFailures, identityRequests := Deregistered, Deregistered, None, 0, 0;
      secAvailable, ksi, macFailed, identified, hasRequest := false, 0, false, false, false;
      regType, usedGuti, amfChanged, past := NoType, false, false, History(true, false, []);
    }

    ghost function Value(): (ue: Ue)
      reads this
    {
      Ue(threeGpp, nonThreeGpp, authCtx, synchFailures, identityRequests, secAvailable, ksi, macFailed, identified,
         hasRequest, regType, usedGuti, amfChanged, past)
    }

    /** How a call ended. */
    ghost function Ended(panic: Option<Panic>): (o: Outcome)
      reads this
    {
      if panic.None? then Done(Value()) else Failed(panic.value)
    }

    function Current(a: Access): (s: State)
      reads this
    {
      if a == ThreeGpp then threeGpp else nonThreeGpp
    }

    predicate SecurityValid()
      reads this
    {
      secAvailable && ksi != NO_KEY && !macFailed
    }

    /** What the object keeps from message to message. */
    static ghost predicate Keeps(ue: Ue) {
      Sound(ue) && ue.synchFailures <= 1
    }

    // -------------------------------------------------------------- the machine

    /** `FSM.SendEvent`. */
    method SendEvent(m: Emission, x: Answers) returns (panic: Option<Panic>)
      modifies this
      ensures Ended(panic) == Send(old(Value()), m, x)
      ensures Sound(old(Value())) && Ready(old(Value()), m) ==> Fine(old(Value()), Ended(panic))
      decreases Rank(m.event), 1, 0
    {
      if Sound(Value()) && Ready(Value(), m) {
        SendIsFine(Value(), m, x);
      }
      var from := Current(m.target);
      var to := Target(from, m.event);
      if to.None? {
        return None;
      }
      panic := Callback(m, x);
      if panic.Some? || to.value == from {
        return;
      }
      panic := Move(m, from, to.value, x);
    }

    method Move(m: Emission, from: State, to: State, x: Answers) returns (panic: Option<Panic>)
      requires Target(from, m.event) == Some(to) && to != from
      modifies this
      ensures Ended(panic) == Enter(old(Value()), m, from, to, x)
      decreases Rank(m.event), 0, 1
    {
      ghost var ue := Value();
      SetState(m, from, to);
      CascadeDescends(ue, m, from, to, x);
      match to
      case Deregistered => ClearRegistrationRequestData(); panic := None; FinishNone(Value(), x);
      case Registered => ClearRegistrationRequestData(); panic := None; FinishNone(Value(), x);
      case Authentication => panic := StartAuthentication(m.target, m.args, x);
      case SecurityMode => panic := StartSecurityMode(m.target, m.args, x);
      case ContextSetup => panic := StartContextSetup(m.target, m.args, x);
      case DeregistrationInitiated => panic := StartDeregistration(m.args, x);
    }

    /** The exit callback, then the new state. */
    method SetState(m: Emission, from: State, to: State)
      modifies this
      ensures Value() == Crossed(old(Value()), m, from, to)
    {
      ghost var c := ChangeBy(Value(), m, from, to);
      Exit(from);
      SetCurrent(m.target, to, c);
    }

    method Exit(from: State)
      modifies this
      ensures Value() == OnExit(old(Value()), from)
    {
      if from == Authentication {
        authCtx, synchFailures, identityRequests := None, 0, 0;
      }
    }

    method SetCurrent(a: Access, to: State, ghost c: Change)
      requires c.to == to
      modifies this
      ensures Value() == Moved(old(Value()), a, c)
    {
      if a == ThreeGpp {
        threeGpp := to;
      } else {
        nonThreeGpp := to;
      }
      past := past.(trace := past.trace + [c]);
    }

    method ClearRegistrationRequestData()
      modifies this
      ensures Value() == Cleared(old(Value()))
    {
      hasRequest, regType, usedGuti := false, NoType, false;
      synchFailures, identityRequests, amfChanged := 0, 0, false;
    }

    /** The current state's callback. */
    method Callback(m: Emission, x: Answers) returns (panic: Option<Panic>)
      requires Target(Current(m.target), m.event).Some?
      modifies this
      ensures Ended(panic) == Finish(OnEvent(old(Value()), m.target, m.event, m.args, x), x)
      decreases Rank(m.event), 0, 1
    {
      if m.event == AuthRestart {
        panic := StartAuthentication(m.target, m.args, x);
      } else if m.event == GmmMessage {
        panic := HandleMessage(m, x);
      } else {
        FinishNone(Value(), x);
        panic := None;
      }
    }

    // -------------------------------------------------------------- entry callbacks

    method StartAuthentication(a: Access, args: Args, x: Answers) returns (panic: Option<Panic>)
      modifies this
      ensures Ended(panic) == Finish(EnterAuthentication(old(Value()), a, args, x), x)
      ensures Arrived(old(Value()), a, Authentication, args) ==> Fine(old(Value()), Ended(panic))
      decreases EntryRank(Authentication), 0, 0
    {
      if Arrived(Value(), a, Authentication, args) {
        AuthenticationEnds(Value(), a, args, x);
      }
      var verdict := Authenticate(x);
      match verdict
      case Error =>
        FinishOne(Value(), Emission(a, AuthError, Plain(args.access)), x);
        panic := SendEvent(Emission(a, AuthError, Plain(args.access)), x);
      case Pass =>
        FinishOne(Value(), Emission(a, AuthSuccess, Plain(args.access)), x);
        panic := SendEvent(Emission(a, AuthSuccess, Plain(args.access)), x);
      case Wait =>
        FinishNone(Value(), x);
        panic := None;
    }

    method Authenticate(x: Answers) returns (verdict: Verdict)
      modifies this
      ensures (Value(), verdict) == AuthenticationProcedure(old(Value()), x)
    {
      if !identified {
        identityRequests := identityRequests + 1;
        return Wait;
      }
      if SecurityValid() {
        return Pass;
      }
      if !x.ausf.Challenge? {
        return Error;
      }
      authCtx := Some(x.ausf.authType);
      verdict := Wait;
    }

    method StartSecurityMode(a: Access, args: Args, x: Answers) returns (panic: Option<Panic>)
      modifies this
      ensures Ended(panic) == Finish(EnterSecurityMode(old(Value()), a, args, x), x)
      ensures Arrived(old(Value()), a, SecurityMode, args) ==> Fine(old(Value()), Ended(panic))
      decreases EntryRank(SecurityMode), 0, 1
    {
      if Arrived(Value(), a, SecurityMode, args) {
        SecurityModeEnds(Value(), a, args, x);
      }
      panic := RunSecurityMode(a, args, x);
    }

    method RunSecurityMode(a: Access, args: Args, x: Answers) returns (panic: Option<Panic>)
      modifies this
      ensures Ended(panic) == Finish(EnterSecurityMode(old(Value()), a, args, x), x)
      decreases EntryRank(SecurityMode), 0, 0
    {
      if SecurityValid() {
        var m := Emission(a, SecurityModeSuccess, Plain(args.access).(nas := RegistrationArg(!hasRequest)));
        FinishOne(Value(), m, x);
        panic := SendEvent(m, x);
        return;
      }
      if !args.eap {
        return Some(MissingArgument);
      }
      if !x.algorithms {
        FinishOne(Value(), Emission(a, SecurityModeFail, Plain(args.access)), x);
        panic := SendEvent(Emission(a, SecurityModeFail, Plain(args.access)), x);
        return;
      }
      if x.command != NotBuilt {
        secAvailable := x.command == SentIt;
      }
      FinishNone(Value(), x);
      panic := None;
    }

    method StartContextSetup(a: Access, args: Args, x: Answers) returns (panic: Option<Panic>)
      modifies this
      ensures Ended(panic) == Finish(EnterContextSetup(old(Value()), a, args, x), x)
      ensures Arrived(old(Value()), a, ContextSetup, args) ==> Fine(old(Value()), Ended(panic))
      decreases EntryRank(ContextSetup), 0, 0
    {
      if Arrived(Value(), a, ContextSetup, args) {
        ContextSetupEnds(Value(), a, args, x);
      }
      match args.nas
      case RegistrationArg(isNil) =>
        hasRequest := !isNil;
        panic := SetUpContext(a, args.access, x);
      case ServiceArg =>
        FinishNone(Value(), x);
        panic := None;
      case _ =>
        FinishNone(Value(), x);
        panic := None;
    }

    method SetUpContext(a: Access, access: Access, x: Answers) returns (panic: Option<Panic>)
      modifies this
      ensures Ended(panic) == Finish(SetUp(old(Value()), a, access, x), x)
      decreases Rank(ContextSetupFail), 2, 0
    {
      if regType != NoType && regType != Emergency {
        if !hasRequest {
          return Some(NilRegistrationRequest);
        }
        if !x.setup {
          FinishOne(Value(), Emission(a, ContextSetupFail, Plain(access)), x);
          panic := SendEvent(Emission(a, ContextSetupFail, Plain(access)), x);
          return;
        }
      }
      FinishNone(Value(), x);
      panic := None;
    }

    method StartDeregistration(args: Args, x: Answers) returns (panic: Option<Panic>)
      modifies this
      ensures Ended(panic) == Finish(EnterDeregistrationInitiated(old(Value()), args, x), x)
      ensures forall a :: Arrived(old(Value()), a, DeregistrationInitiated, args) ==> Fine(old(Value()), Ended(panic))
      decreases EntryRank(DeregistrationInitiated), 0, 0
    {
      forall a | Arrived(Value(), a, DeregistrationInitiated, args)
        ensures Fine(Value(), Finish(EnterDeregistrationInitiated(Value(), args, x), x))
      {
        DeregistrationEnds(Value(), a, args, x);
      }
      if !args.nas.Gmm? || !args.nas.msg.DeregistrationRequest? {
        return Some(MissingArgument);
      }
      var one := Emission(ThreeGpp, DeregistrationAccept, Plain(args.access));
      var two := Emission(NonThreeGpp, DeregistrationAccept, Plain(args.access));
      ghost var ue := Value();
      match args.nas.msg.target
      case Target3Gpp =>
        FinishOne(ue, one, x);
        panic := SendEvent(one, x);
      case TargetNon3Gpp =>
        FinishOne(ue, two, x);
        panic := SendEvent(two, x);
      case TargetBoth =>
        panic := SendEvent(one, x);
        assert [one, two][1..] == [two];
        if panic.None? {
          FinishOne(Value(), two, x);
          panic := SendEvent(two, x);
        }
      case TargetNone =>
        FinishNone(ue, x);
        panic := None;
    }

    // -------------------------------------------------------------- messages

    method HandleMessage(m: Emission, x: Answers) returns (panic: Option<Panic>)
      requires m.event == GmmMessage && Target(Current(m.target), m.event).Some?
      modifies this
      ensures Ended(panic) == Finish(OnEvent(old(Value()), m.target, m.event, m.args, x), x)
      ensures m.args.nas.Gmm? && m.args == Args(m.target, m.args.nas, true, false) && Keeps(old(Value())) ==>
                (panic.Some? <==> MeetsNil(old(Value()), m.target, m.args.nas.msg))
                && (panic.None? ==> Keeps(Value()))
      decreases Rank(GmmMessage), 0, 0
    {
      if m.args.nas.Gmm? && Keeps(Value()) {
        MessageEnds(Value(), m.target, m.args.nas.msg, x);
      }
      if !m.args.nas.Gmm? {
        return Some(MissingArgument);
      }
      var state, msg := Current(m.target), m.args.nas.msg;
      if state == Authentication {
        panic := InAuthentication(m.target, msg, m.args, x);
      } else if state == ContextSetup {
        panic := InContextSetup(m.target, msg, m.args, x);
      } else if !m.args.procedure {
        panic := Some(MissingArgument);
      } else if state == SecurityMode {
        panic := InSecurityMode(m.target, msg, m.args, x);
      } else {
        panic := WhenIdle(state, m.target, msg, m.args, x);
      }
    }

    /** Deregistered or Registered. */
    method WhenIdle(state: State, a: Access, msg: Message, args: Args, x: Answers) returns (panic: Option<Panic>)
      requires state == Deregistered || state == Registered
      modifies this
      ensures Ended(panic) ==
              Finish(if state == Deregistered then MessageDeregistered(old(Value()), a, msg, args, x)
                     else MessageRegistered(old(Value()), a, msg, args, x), x)
      decreases Rank(StartAuth), 3
    {
      match msg
      case RegistrationRequest(reg) =>
        var ok := ReadRegistration(args.access, reg, x);
        if ok {
          var m := Emission(a, StartAuth, Plain(args.access).(procedure := true));
          FinishOne(Value(), m, x);
          panic := SendEvent(m, x);
        } else {
          FinishNone(Value(), x);
          panic := None;
        }
      case ServiceRequest(undecipherable) =>
        if SecurityValid() && undecipherable {
          secAvailable := false;
        }
        FinishNone(Value(), x);
        panic := None;
      case DeregistrationRequest(target) =>
        if state == Registered {
          var m := Emission(a, InitDeregistration, Plain(args.access).(nas := args.nas));
          FinishOne(Value(), m, x);
          panic := SendEvent(m, x);
        } else {
          FinishNone(Value(), x);
          panic := None;
        }
      case _ =>
        FinishNone(Value(), x);
        panic := None;
    }

    /** `HandleRegistrationRequest`: what has been stored before an error stays stored. */
    method ReadRegistration(a: Access, reg: Registration, x: Answers) returns (ok: bool)
      modifies this
      ensures (Value(), ok) == HandleRegistrationRequest(old(Value()), a, reg, x)
    {
      if !reg.connected {
        return false;
      }
      if reg.container != NoContainer && !macFailed {
        if reg.container == Undecipherable {
          secAvailable := false;
        } else if reg.container != Inner {
          return false;
        }
      }
      ok := ReadType(a, reg, x);
    }

    method ReadType(a: Access, reg: Registration, x: Answers) returns (ok: bool)
      modifies this
      ensures (Value(), ok) == RegistrationRead(old(Value()), a, reg, x)
    {
      hasRequest := true;
      var idle := Current(a) == Deregistered;
      match reg.code {
        case InitialCode =>
          regType := Initial;
          secAvailable := false;
        case MobilityCode =>
          regType := Mobility;
          if idle {
            return false;
          }
        case PeriodicCode =>
          regType := Periodic;
          if idle {
            return false;
          }
        case EmergencyCode =>
          regType := Emergency;
          return false;
        case _ =>
          regType := Initial;
      }
      ok := ReadIdentity(reg, x);
    }

    method ReadIdentity(reg: Registration, x: Answers) returns (ok: bool)
      modifies this
      ensures (Value(), ok) == RegistrationTyped(old(Value()), reg, x)
    {
      if reg.identity == BrokenIdentity {
        return false;
      }
      usedGuti := reg.identity.Guti?;
      match reg.identity {
        case Suci(good) =>
          if !good {
            return false;
          }
          identified := true;
        case Guti(good, ours) =>
          if !good {
            return false;
          }
          amfChanged := !ours;
        case Equipment(good) =>
          if !good {
            return false;
          }
        case _ =>
      }
      ok := ReadKeySet(reg, x);
    }

    method ReadKeySet(reg: Registration, x: Answers) returns (ok: bool)
      modifies this
      ensures (Value(), ok) == RegistrationIdentified(old(Value()), reg, x)
    {
      ksi := if reg.native && reg.ksi != NO_KEY then reg.ksi else 0;
      if !reg.areaServed || (!reg.capability && reg.code != PeriodicCode) {
        return false;
      }
      if amfChanged {
        TransferContext(x.transfer);
      }
      ok := true;
    }

    method TransferContext(t: Transfer)
      modifies this
      ensures Value() == ContextTransferred(old(Value()), t)
    {
      match t
      case TransferFailed =>
        amfChanged := false;
      case Transferred(withSupi, seafKsi) =>
        secAvailable := true;
        macFailed := false;
        past := past.(transferred := true);
        if withSupi {
          identified := true;
        }
        if seafKsi.Some? {
          ksi := seafKsi.value;
        } else {
          secAvailable := false;
        }
    }

    /** `HandleIdentityResponse`. */
    method ReadIdentityResponse(id: IdentityAnswer) returns (ok: bool)
      modifies this
      ensures (Value(), ok) == HandleIdentityResponse(old(Value()), id)
    {
      match id
      case BadIdentity => ok := false;
      case SuciAnswer => identified := true; ok := true;
      case ProtectedAnswer(guti) => ok := !macFailed;
      case OtherAnswer => ok := true;
    }

    method InAuthentication(a: Access, msg: Message, args: Args, x: Answers) returns (panic: Option<Panic>)
      modifies this
      ensures Ended(panic) == Finish(MessageAuthentication(old(Value()), a, msg, args, x), x)
      decreases Rank(StartAuth), 3
    {
      match msg
      case IdentityResponse(id) =>
        var ok := ReadIdentityResponse(id);
        if ok {
          usedGuti := id == ProtectedAnswer(true);
          FinishOne(Value(), Emission(a, AuthRestart, Plain(args.access)), x);
          panic := SendEvent(Emission(a, AuthRestart, Plain(args.access)), x);
        } else {
          FinishNone(Value(), x);
          panic := None;
        }
      case AuthenticationResponse(usable, matches) =>
        panic := CheckResponse(args.access, usable, matches, x);
      case AuthenticationFailure(cause) =>
        panic := TakeFailure(args.access, cause, x);
      case _ =>
        FinishNone(Value(), x);
        panic := None;
    }

    /** `HandleAuthenticationResponse`. */
    method CheckResponse(a: Access, usable: bool, matches: bool, x: Answers) returns (panic: Option<Panic>)
      modifies this
      ensures Ended(panic) == Finish(HandleAuthenticationResponse(old(Value()), a, usable, matches, x), x)
      decreases Rank(AuthSuccess), 2, 2
    {
      if authCtx.None? || authCtx.value == OtherAuth {
        FinishNone(Value(), x);
        return None;
      }
      if !usable {
        FinishNone(Value(), x);
        return if authCtx.value == FiveGAka then None else Some(NilEapMessage);
      }
      if authCtx.value == FiveGAka && !matches {
        panic := RejectResponse(a, x);
      } else {
        panic := AskAusf(a, x);
      }
    }

    /** The AUSF's verdict on the response. */
    method AskAusf(a: Access, x: Answers) returns (panic: Option<Panic>)
      modifies this
      ensures Ended(panic) == Finish(Gmm.Confirm(old(Value()), a, x), x)
      decreases Rank(AuthSuccess), 2, 1
    {
      if x.confirm == Denied {
        panic := RejectResponse(a, x);
      } else if x.confirm == Confirmed {
        identified := true;
        FinishOne(Value(), Emission(a, AuthSuccess, Plain(a).(eap := true)), x);
        panic := SendEvent(Emission(a, AuthSuccess, Plain(a).(eap := true)), x);
      } else {
        FinishNone(Value(), x);
        panic := None;
      }
    }

    method RejectResponse(a: Access, x: Answers) returns (panic: Option<Panic>)
      modifies this
      ensures Ended(panic) == Finish(Mismatch(old(Value()), a), x)
      decreases Rank(AuthSuccess), 2, 0
    {
      if usedGuti && identityRequests == 0 {
        identityRequests := identityRequests + 1;
        FinishNone(Value(), x);
        panic := None;
      } else {
        panic := FailAuthentication(a, x);
      }
    }

    method FailAuthentication(a: Access, x: Answers) returns (panic: Option<Panic>)
      modifies this
      ensures Ended(panic) == Finish(Reacted(old(Value()), [Emission(a, AuthFail, Plain(a))]), x)
      decreases Rank(AuthFail), 2, 0
    {
      FinishOne(Value(), Emission(a, AuthFail, Plain(a)), x);
      panic := SendEvent(Emission(a, AuthFail, Plain(a)), x);
    }

    /** `HandleAuthenticationFailure`. */
    method TakeFailure(a: Access, cause: FailureCause, x: Answers) returns (panic: Option<Panic>)
      modifies this
      ensures Ended(panic) == Finish(HandleAuthenticationFailure(old(Value()), a, cause, x), x)
      decreases Rank(AuthFail), 4, 0
    {
      if authCtx.None? {
        return Some(NilAuthenticationCtx);
      }
      if authCtx.value == FiveGAka {
        match cause
        case MacFailure =>
          panic := FailAuthentication(a, x);
          return;
        case Non5G =>
          panic := FailAuthentication(a, x);
          return;
        case KsiInUse =>
          synchFailures := 0;
          ksi := if ksi < 6 then ksi + 1 else 0;
        case SynchFailure(decodable) =>
          panic := TakeSynchFailure(a, decodable, x);
          return;
        case OtherCause =>
      } else if authCtx.value == EapAkaPrime && cause == KsiInUse {
        ksi := if ksi < 6 then ksi + 1 else 0;
      }
      FinishNone(Value(), x);
      panic := None;
    }

    method TakeSynchFailure(a: Access, decodable: bool, x: Answers) returns (panic: Option<Panic>)
      modifies this
      ensures Ended(panic) == Finish(CountSynchFailure(old(Value()), a, decodable, x), x)
      decreases Rank(AuthFail), 3, 0
    {
      synchFailures := synchFailures + 1;
      if synchFailures >= 2 {
        panic := FailAuthentication(a, x);
        return;
      }
      if decodable && x.ausf.Challenge? {
        authCtx := Some(x.ausf.authType);
      }
      FinishNone(Value(), x);
      panic := None;
    }

    method InSecurityMode(a: Access, msg: Message, args: Args, x: Answers) returns (panic: Option<Panic>)
      modifies this
      ensures Ended(panic) == Finish(MessageSecurityMode(old(Value()), a, msg, args), x)
      decreases Rank(StartAuth), 3
    {
      match msg
      case SecurityModeComplete(imeisvOk, inner) =>
        panic := CompleteSecurityMode(args.access, imeisvOk, inner, x);
      case SecurityModeReject =>
        FinishOne(Value(), Emission(a, SecurityModeFail, Plain(args.access)), x);
        panic := SendEvent(Emission(a, SecurityModeFail, Plain(args.access)), x);
      case _ =>
        FinishNone(Value(), x);
        panic := None;
    }

    /** `HandleSecurityModeComplete`. */
    method CompleteSecurityMode(a: Access, imeisvOk: bool, inner: SecurityContainer, x: Answers)
      returns (panic: Option<Panic>)
      modifies this
      ensures Ended(panic) == Finish(HandleSecurityModeComplete(old(Value()), a, imeisvOk, inner), x)
      decreases Rank(SecurityModeSuccess), 2
    {
      if macFailed || !imeisvOk || inner == InnerUndecodable || inner == InnerOther {
        FinishNone(Value(), x);
        return None;
      }
      var args, event := Plain(a).(procedure := true), SecurityModeSuccess;
      match inner {
        case NoInner =>
          args := args.(nas := RegistrationArg(!hasRequest));
        case InnerRegistration =>
          args := args.(nas := RegistrationArg(false));
        case _ =>
          args := args.(nas := ServiceArg);
          if Current(a) != Registered {
            event := SecurityModeFail;
          }
      }
      FinishOne(Value(), Emission(a, event, args), x);
      panic := SendEvent(Emission(a, event, args), x);
    }

    method InContextSetup(a: Access, msg: Message, args: Args, x: Answers) returns (panic: Option<Panic>)
      modifies this
      ensures Ended(panic) == Finish(MessageContextSetup(old(Value()), a, msg, args, x), x)
      decreases Rank(StartAuth), 3
    {
      match msg
      case IdentityResponse(id) =>
        var ok := ReadIdentityResponse(id);
        if ok {
          panic := SetUpContext(a, args.access, x);
        } else {
          FinishNone(Value(), x);
          panic := None;
        }
      case RegistrationComplete =>
        if !hasRequest {
          return Some(NilRegistrationRequest);
        }
        FinishOne(Value(), Emission(args.access, ContextSetupSuccess, Plain(args.access)), x);
        panic := SendEvent(Emission(args.access, ContextSetupSuccess, Plain(args.access)), x);
      case _ =>
        FinishNone(Value(), x);
        panic := None;
    }

    /** `HandleNAS` and `Dispatch`. A message meets a nil pointer exactly in three cases; otherwise the object keeps
        what it should, and its history gains only changes that bear the verdict on this message. */
    method Receive(a: Access, intact: bool, msg: Message, x: Answers) returns (panic: Option<Panic>)
      modifies this
      ensures Ended(panic) == Gmm.Receive(old(Value()), a, intact, msg, x)
      ensures Keeps(old(Value())) ==>
                (panic.Some? <==> MeetsNil(old(Value()), a, msg)) && panic != Some(MissingArgument)
      ensures Keeps(old(Value())) && panic.None? ==> Keeps(Value())
      ensures panic.None? ==> Stamped(Taken(old(Value()), intact).past, past,
                                      msg.RegistrationRequest? && x.transfer.Transferred?)
    {
      ghost var arrival := Arrival(a, intact, msg, x);
      ReceiveKeeps(Value(), arrival);
      TakeUp(intact);
      panic := SendEvent(Emission(a, GmmMessage, Args(a, Gmm(msg), true, false)), x);
    }

    method TakeUp(intact: bool)
      modifies this
      ensures Value() == Taken(old(Value()), intact)
    {
      macFailed := !intact;
      past := past.(intact := intact, transferred := false);
    }
  }

  lemma ReceiveKeeps(ue: Ue, m: Arrival)
    ensures var o := Gmm.Receive(ue, m.access, m.intact, m.m, m.x);
            && (GmmUe.Keeps(ue) ==> (o.Failed? <==> MeetsNil(ue, m.access, m.m)))
            && (GmmUe.Keeps(ue) && o.Failed? ==> o.why != MissingArgument)
            && (GmmUe.Keeps(ue) && o.Done? ==> GmmUe.Keeps(o.ue))
            && (o.Done? ==> Stamped(Taken(ue, m.intact).past, o.ue.past,
                                    m.m.RegistrationRequest? && m.x.transfer.Transferred?))
  {
    if GmmUe.Keeps(ue) {
      ReceiveIsSound(ue, m);
    }
    var o := Gmm.Receive(ue, m.access, m.intact, m.m, m.x);
    if o.Done? {
      StepStamps(ue, m, o.ue);
    }
  }
}
