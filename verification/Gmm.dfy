/** What a GMM event does to a UE: the state callbacks and handlers, each sending further events before it returns. */
module Gmm {
  import opened Options
  import opened GmmTable

  datatype AuthType = FiveGAka | EapAkaPrime | OtherAuth

  datatype RegType = NoType | Initial | Mobility | Periodic | Emergency

  /** Ksi value for "no key is available". */
  const NO_KEY := 7

  /** The part of a UE context that steers registration, and its history. */
  datatype Ue = Ue(
    threeGpp: State, nonThreeGpp: State,
    authCtx: Option<AuthType>, synchFailures: nat, identityRequests: nat,
    secAvailable: bool, ksi: nat, macFailed: bool,
    identified: bool,     // a SUPI or a SUCI is known
    hasRequest: bool,     // the stored Registration Request is not nil
    regType: RegType, usedGuti: bool, amfChanged: bool,
    past: History)

  function StateOf(ue: Ue, a: Access): (s: State) {
    if a == ThreeGpp then ue.threeGpp else ue.nonThreeGpp
  }

  function Moved(ue: Ue, a: Access, c: Change): (v: Ue) {
    if a == ThreeGpp then ue.(threeGpp := c.to, past := ue.past.(trace := ue.past.trace + [c]))
    else ue.(nonThreeGpp := c.to, past := ue.past.(trace := ue.past.trace + [c]))
  }

  /** `SecurityContextIsValid`. */
  predicate SecurityContextIsValid(ue: Ue) {
    ue.secAvailable && ue.ksi != NO_KEY && !ue.macFailed
  }

  /** `ClearRegistrationRequestData`, on these fields. */
  function Cleared(ue: Ue): (v: Ue) {
    ue.(hasRequest := false, regType := NoType, usedGuti := false, synchFailures := 0, identityRequests := 0,
    amfChanged := false)
  }

  // ---------------------------------------------------------------- messages, and the answers of other functions

  datatype Container = NoContainer | Undecipherable | Undecodable | WrongMessage | Inner

  datatype RegistrationCode = InitialCode | MobilityCode | PeriodicCode | EmergencyCode | ReservedCode | OtherCode

  datatype Identity = BrokenIdentity | NoIdentity | Suci(ok: bool) | Guti(ok: bool, ours: bool) | Equipment(ok: bool)

  datatype Registration = Registration(
    connected: bool, container: Container, code: RegistrationCode, identity: Identity, native: bool, ksi: nat,
    areaServed: bool, capability: bool)

  datatype IdentityAnswer = BadIdentity | SuciAnswer | ProtectedAnswer(guti: bool) | OtherAnswer

  datatype FailureCause = MacFailure | Non5G | KsiInUse | SynchFailure(decodable: bool) | OtherCause

  datatype SecurityContainer = NoInner | InnerUndecodable | InnerRegistration | InnerService | InnerOther

  datatype DeregistrationTarget = Target3Gpp | TargetNon3Gpp | TargetBoth | TargetNone

  datatype Message =
    | RegistrationRequest(reg: Registration)
    | ServiceRequest(undecipherable: bool)
    | IdentityResponse(id: IdentityAnswer)
    | AuthenticationResponse(usable: bool, matches: bool)
    | AuthenticationFailure(cause: FailureCause)
    | SecurityModeComplete(imeisvOk: bool, inner: SecurityContainer)
    | SecurityModeReject
    | RegistrationComplete
    | DeregistrationRequest(target: DeregistrationTarget)
    | OtherMessage

  datatype AusfAnswer = NoAusf | Refused | Challenge(authType: AuthType)

  datatype ConfirmAnswer = NoConfirmation | Confirmed | Denied | Ongoing

  datatype Transfer = TransferFailed | Transferred(withSupi: bool, seafKsi: Option<nat>)

  datatype CommandSent = NotBuilt | SentIt | NotEncoded

  /** What the other network functions answer while one message is handled; each is asked at most once. */
  datatype Answers = Answers(
    ausf: AusfAnswer, confirm: ConfirmAnswer, transfer: Transfer, algorithms: bool, command: CommandSent,
    setup: bool)

  // ---------------------------------------------------------------- events and what a callback does

  datatype NasArgument = NoNas | Gmm(msg: Message) | RegistrationArg(isNil: bool) | ServiceArg

  /** The arguments an event carries besides the UE: the access type, and which of the others are present. */
  datatype Args = Args(access: Access, nas: NasArgument, procedure: bool, eap: bool)

  /** Arguments with the access type alone. */
  function Plain(a: Access): (args: Args) {
    Args(a, NoNas, false, false)
  }

  /** An event sent to the state of one access. */
  datatype Emission = Emission(target: Access, event: Event, args: Args)

  datatype Panic = MissingArgument | NilAuthenticationCtx | NilRegistrationRequest | NilEapMessage

  /** What a callback leaves: the UE and the events it sends, in order; or a panic. */
  datatype Reaction = Reacted(ue: Ue, next: seq<Emission>) | Panicked(why: Panic)

  // ---------------------------------------------------------------- handlers that send no event

  /** `HandleRegistrationRequest`: the UE's fields afterwards, and whether there was no error. */
  function HandleRegistrationRequest(ue: Ue, a: Access, r: Registration, x: Answers): (v: (Ue, bool)) {
    if !r.connected then (ue, false)
    else
      var decoded := r.container != NoContainer && !ue.macFailed;
      if decoded && (r.container == Undecodable || r.container == WrongMessage) then (ue, false)
      else
        var u := if decoded && r.container == Undecipherable then ue.(secAvailable := false) else ue;
        RegistrationRead(u, a, r, x)
  }

  function RegistrationRead(ue: Ue, a: Access, r: Registration, x: Answers): (v: (Ue, bool)) {
    var u := ue.(hasRequest := true);
    match r.code
    case InitialCode => RegistrationTyped(u.(regType := Initial, secAvailable := false), r, x)
    case MobilityCode =>
      var w := u.(regType := Mobility);
      if StateOf(ue, a) == Deregistered then (w, false) else RegistrationTyped(w, r, x)
    case PeriodicCode =>
      var w := u.(regType := Periodic);
      if StateOf(ue, a) == Deregistered then (w, false) else RegistrationTyped(w, r, x)
    case EmergencyCode => (u.(regType := Emergency), false)
    case _ => RegistrationTyped(u.(regType := Initial), r, x)
  }

  function RegistrationTyped(ue: Ue, r: Registration, x: Answers): (v: (Ue, bool)) {
    var u := ue.(usedGuti := r.identity.Guti?);
    match r.identity
    case BrokenIdentity => (ue, false)
    case Suci(ok) => if ok then RegistrationIdentified(u.(identified := true), r, x) else (u, false)
    case Guti(ok, ours) => if ok then RegistrationIdentified(u.(amfChanged := !ours), r, x) else (u, false)
    case Equipment(ok) => if ok then RegistrationIdentified(u, r, x) else (u, false)
    case NoIdentity => RegistrationIdentified(u, r, x)
  }

  function RegistrationIdentified(ue: Ue, r: Registration, x: Answers): (v: (Ue, bool)) {
    var u := ue.(ksi := if r.native && r.ksi != NO_KEY then r.ksi else 0);
    if !r.areaServed || (!r.capability && r.code != PeriodicCode) then (u, false)
    else (if u.amfChanged then ContextTransferred(u, x.transfer) else u, true)
  }

  /** `contextTransferFromOldAmf`: its failure is only logged. */
  function ContextTransferred(ue: Ue, t: Transfer): (v: Ue) {
    match t
    case TransferFailed => ue.(amfChanged := false)
    case Transferred(withSupi, seafKsi) =>
      var u := ue.(macFailed := false, identified := ue.identified || withSupi,
                   past := ue.past.(transferred := true));
      if seafKsi.Some? then u.(secAvailable := true, ksi := seafKsi.value) else u.(secAvailable := false)
  }

  function HandleServiceRequest(ue: Ue, undecipherable: bool): (v: Ue) {
    if SecurityContextIsValid(ue) && undecipherable then ue.(secAvailable := false) else ue
  }

  function HandleIdentityResponse(ue: Ue, id: IdentityAnswer): (v: (Ue, bool)) {
    match id
    case BadIdentity => (ue, false)
    case SuciAnswer => (ue.(identified := true), true)
    case ProtectedAnswer(guti) => (ue, !ue.macFailed)
    case OtherAnswer => (ue, true)
  }

  datatype Verdict = Error | Pass | Wait

  /** `AuthenticationProcedure`. */
  function AuthenticationProcedure(ue: Ue, x: Answers): (v: (Ue, Verdict)) {
    if !ue.identified then (ue.(identityRequests := ue.identityRequests + 1), Wait)
    else if SecurityContextIsValid(ue) then (ue, Pass)
    else if x.ausf.Challenge? then (ue.(authCtx := Some(x.ausf.authType)), Wait)
    else (ue, Error)
  }

  // ---------------------------------------------------------------- entering a state

  function OnEntry(ue: Ue, a: Access, s: State, args: Args, x: Answers): (r: Reaction)
    ensures r.Reacted? ==> Height(r.next) < EntryRank(s)
  {
    match s
    case Deregistered => Reacted(Cleared(ue), [])
    case Registered => Reacted(Cleared(ue), [])
    case Authentication => EnterAuthentication(ue, a, args, x)
    case SecurityMode => EnterSecurityMode(ue, a, args, x)
    case ContextSetup => EnterContextSetup(ue, a, args, x)
    case DeregistrationInitiated => EnterDeregistrationInitiated(ue, args, x)
  }

  /** Leaving Authentication drops the authentication data, whichever access leaves it. */
  function OnExit(ue: Ue, from: State): (v: Ue) {
    if from == Authentication then ue.(authCtx := None, synchFailures := 0, identityRequests := 0) else ue
  }

  function EnterAuthentication(ue: Ue, a: Access, args: Args, x: Answers): (r: Reaction) {
    var (u, verdict) := AuthenticationProcedure(ue, x);
    match verdict
    case Error => Reacted(u, [Emission(a, AuthError, Plain(args.access))])
    case Pass => Reacted(u, [Emission(a, AuthSuccess, Plain(args.access))])
    case Wait => Reacted(u, [])
  }

  function EnterSecurityMode(ue: Ue, a: Access, args: Args, x: Answers): (r: Reaction) {
    if SecurityContextIsValid(ue) then
      Reacted(ue, [Emission(a, SecurityModeSuccess, Plain(args.access).(nas := RegistrationArg(!ue.hasRequest)))])
    else if !args.eap then Panicked(MissingArgument)
    else if !x.algorithms then Reacted(ue, [Emission(a, SecurityModeFail, Plain(args.access))])
    else Reacted(if x.command == NotBuilt then ue else ue.(secAvailable := x.command == SentIt), [])
  }

  /** The stored request is replaced by the one in the arguments. */
  function EnterContextSetup(ue: Ue, a: Access, args: Args, x: Answers): (r: Reaction) {
    match args.nas
    case RegistrationArg(isNil) => SetUp(ue.(hasRequest := !isNil), a, args.access, x)
    case ServiceArg => Reacted(HandleServiceRequest(ue, false), [])
    case _ => Reacted(ue, [])
  }

  /** `HandleInitialRegistration` or its counterpart for updates, by the stored registration type. */
  function SetUp(ue: Ue, a: Access, access: Access, x: Answers): (r: Reaction) {
    if ue.regType == NoType || ue.regType == Emergency then Reacted(ue, [])
    else if !ue.hasRequest then Panicked(NilRegistrationRequest)
    else Reacted(ue, if x.setup then [] else [Emission(a, ContextSetupFail, Plain(access))])
  }

  /** `HandleDeregistrationRequest`: Deregistration Accept goes to the state of the access the request is for. */
  function EnterDeregistrationInitiated(ue: Ue, args: Args, x: Answers): (r: Reaction)
    ensures r.Reacted? ==> Height(r.next) <= Rank(DeregistrationAccept)
  {
    if !args.nas.Gmm? || !args.nas.msg.DeregistrationRequest? then Panicked(MissingArgument)
    else
      var one := Emission(ThreeGpp, DeregistrationAccept, Plain(args.access));
      var two := Emission(NonThreeGpp, DeregistrationAccept, Plain(args.access));
      assert Height([two]) == Rank(DeregistrationAccept) && [one, two][1..] == [two];
      assert Height([one, two]) == Rank(DeregistrationAccept);
      Reacted(ue, match args.nas.msg.target
      case Target3Gpp => [one]
      case TargetNon3Gpp => [two]
      case TargetBoth => [one, two]
      case TargetNone => [])
  }

  // ---------------------------------------------------------------- NAS messages, state by state

  /** The callback of the current state, for an event the table has for it. */
  function OnEvent(ue: Ue, a: Access, e: Event, args: Args, x: Answers): (r: Reaction)
    ensures r.Reacted? ==> Height(r.next) < Rank(e)
  {
    if e == AuthRestart then EnterAuthentication(ue, a, args, x)
    else if e != GmmMessage then Reacted(ue, [])
    else if !args.nas.Gmm? then Panicked(MissingArgument)
    else
      var m := args.nas.msg;
      match StateOf(ue, a)
      case Deregistered => if args.procedure then MessageDeregistered(ue, a, m, args, x) else Panicked(MissingArgument)
      case Authentication => MessageAuthentication(ue, a, m, args, x)
      case SecurityMode => if args.procedure then MessageSecurityMode(ue, a, m, args) else Panicked(MissingArgument)
      case ContextSetup => MessageContextSetup(ue, a, m, args, x)
      case _ => if args.procedure then MessageRegistered(ue, a, m, args, x) else Panicked(MissingArgument)
  }

  function MessageDeregistered(ue: Ue, a: Access, m: Message, args: Args, x: Answers): (r: Reaction) {
    match m
    case RegistrationRequest(reg) => Register(ue, a, reg, args, x)
    case ServiceRequest(undecipherable) => Reacted(HandleServiceRequest(ue, undecipherable), [])
    case _ => Reacted(ue, [])
  }

  function Register(ue: Ue, a: Access, reg: Registration, args: Args, x: Answers): (r: Reaction) {
    var (u, ok) := HandleRegistrationRequest(ue, args.access, reg, x);
    Reacted(u, if ok then [Emission(a, StartAuth, Plain(args.access).(procedure := true))] else [])
  }

  function MessageRegistered(ue: Ue, a: Access, m: Message, args: Args, x: Answers): (r: Reaction) {
    match m
    case RegistrationRequest(reg) => Register(ue, a, reg, args, x)
    case ServiceRequest(undecipherable) => Reacted(HandleServiceRequest(ue, undecipherable), [])
    case DeregistrationRequest(target) =>
      Reacted(ue, [Emission(a, InitDeregistration, Plain(args.access).(nas := args.nas))])
    case _ => Reacted(ue, [])
  }

  function MessageAuthentication(ue: Ue, a: Access, m: Message, args: Args, x: Answers): (r: Reaction) {
    match m
    case IdentityResponse(id) =>
      var (u, ok) := HandleIdentityResponse(ue, id);
      if !ok then Reacted(u, [])
      else Reacted(u.(usedGuti := id == ProtectedAnswer(true)), [Emission(a, AuthRestart, Plain(args.access))])
    case AuthenticationResponse(usable, matches) => HandleAuthenticationResponse(ue, args.access, usable, matches, x)
    case AuthenticationFailure(cause) => HandleAuthenticationFailure(ue, args.access, cause, x)
    case _ => Reacted(ue, [])
  }

  /** A response that fails the check: the UE is asked for its SUCI once if it came with a GUTI, and rejected else. */
  function Mismatch(ue: Ue, a: Access): (r: Reaction) {
    if ue.usedGuti && ue.identityRequests == 0 then Reacted(ue.(identityRequests := 1), [])
    else Reacted(ue, [Emission(a, AuthFail, Plain(a))])
  }

  function HandleAuthenticationResponse(ue: Ue, a: Access, usable: bool, matches: bool, x: Answers): (r: Reaction) {
    if ue.authCtx.None? || ue.authCtx.value == OtherAuth then Reacted(ue, [])
    else if !usable then if ue.authCtx.value == FiveGAka then Reacted(ue, []) else Panicked(NilEapMessage)
    else if ue.authCtx.value == FiveGAka && !matches then Mismatch(ue, a)
    else Confirm(ue, a, x)
  }

  /** Authentication Success carries the EAP arguments when the AUSF has confirmed the response. */
  function Confirm(ue: Ue, a: Access, x: Answers): (r: Reaction) {
    match x.confirm
    case Confirmed => Reacted(ue.(identified := true), [Emission(a, AuthSuccess, Plain(a).(eap := true))])
    case Denied => Mismatch(ue, a)
    case _ => Reacted(ue, [])
  }

  /** A second synch failure ends the procedure; after a first, a new challenge is asked for. */
  function CountSynchFailure(ue: Ue, a: Access, decodable: bool, x: Answers): (r: Reaction) {
    var u := ue.(synchFailures := ue.synchFailures + 1);
    if u.synchFailures >= 2 then Reacted(u, [Emission(a, AuthFail, Plain(a))])
    else if decodable && x.ausf.Challenge? then Reacted(u.(authCtx := Some(x.ausf.authType)), [])
    else Reacted(u, [])
  }

  function HandleAuthenticationFailure(ue: Ue, a: Access, cause: FailureCause, x: Answers): (r: Reaction) {
    if ue.authCtx.None? then Panicked(NilAuthenticationCtx)
    else if ue.authCtx.value == OtherAuth then Reacted(ue, [])
    else
      var nextKsi := if ue.ksi < 6 then ue.ksi + 1 else 0;
      if ue.authCtx.value == EapAkaPrime then Reacted(if cause.KsiInUse? then ue.(ksi := nextKsi) else ue, [])
      else
        match cause
        case MacFailure => Reacted(ue, [Emission(a, AuthFail, Plain(a))])
        case Non5G => Reacted(ue, [Emission(a, AuthFail, Plain(a))])
        case KsiInUse => Reacted(ue.(synchFailures := 0, ksi := nextKsi), [])
        case SynchFailure(decodable) => CountSynchFailure(ue, a, decodable, x)
        case OtherCause => Reacted(ue, [])
  }

  function MessageSecurityMode(ue: Ue, a: Access, m: Message, args: Args): (r: Reaction) {
    match m
    case SecurityModeComplete(imeisvOk, inner) => HandleSecurityModeComplete(ue, args.access, imeisvOk, inner)
    case SecurityModeReject => Reacted(ue, [Emission(a, SecurityModeFail, Plain(args.access))])
    case _ => Reacted(ue, [])
  }

  function HandleSecurityModeComplete(ue: Ue, a: Access, imeisvOk: bool, inner: SecurityContainer): (r: Reaction) {
    if ue.macFailed || !imeisvOk then Reacted(ue, [])
    else
      var args := Plain(a).(procedure := true);
      match inner
      case NoInner =>
        Reacted(ue, [Emission(a, SecurityModeSuccess, args.(nas := RegistrationArg(!ue.hasRequest)))])
      case InnerRegistration => Reacted(ue, [Emission(a, SecurityModeSuccess, args.(nas := RegistrationArg(false)))])
      case InnerService =>
        var event := if StateOf(ue, a) == Registered then SecurityModeSuccess else SecurityModeFail;
        Reacted(ue, [Emission(a, event, args.(nas := ServiceArg))])
      case _ => Reacted(ue, [])
  }

  function MessageContextSetup(ue: Ue, a: Access, m: Message, args: Args, x: Answers): (r: Reaction) {
    match m
    case IdentityResponse(id) =>
      var (u, ok) := HandleIdentityResponse(ue, id);
      if ok then SetUp(u, a, args.access, x) else Reacted(u, [])
    case RegistrationComplete =>
      if ue.hasRequest then Reacted(ue, [Emission(args.access, ContextSetupSuccess, Plain(args.access))])
      else Panicked(NilRegistrationRequest)
    case _ => Reacted(ue, [])
  }

  // ---------------------------------------------------------------- sending

  /** An event's place in the order that every nested event descends. */
  function Rank(e: Event): (n: nat) {
    match e
    case GmmMessage => 12
    case StartAuth => 10
    case AuthRestart => 10
    case AuthSuccess => 8
    case InitDeregistration => 8
    case SecurityModeSuccess => 6
    case _ => 2
  }

  /** A state's, between the events that enter it and those its entry sends. */
  function EntryRank(s: State): (n: nat) {
    match s
    case Authentication => 9
    case SecurityMode => 7
    case DeregistrationInitiated => 7
    case ContextSetup => 5
    case _ => 1
  }

  /** The highest rank among events to be sent. */
  function Height(ms: seq<Emission>): (n: nat)
    ensures forall m :: m in ms ==> Rank(m.event) <= n
  {
    if ms == [] then 0
    else
      var n := Height(ms[1..]);
      assert ms == [ms[0]] + ms[1..];
      if Rank(ms[0].event) > n then Rank(ms[0].event) else n
  }

  /** Nested events are handled before the call that sends them returns; a panic ends everything. */
  datatype Outcome = Done(ue: Ue) | Failed(why: Panic)

  /**
   * `SendEvent`: the source state's callback; then, when the table leads elsewhere, its exit callback, the new state
   * and that state's entry callback. An event the table does not have for the state is only logged.
   */
  function Send(ue: Ue, m: Emission, x: Answers): (o: Outcome)
    decreases Rank(m.event), 1, 0
  {
    var from := StateOf(ue, m.target);
    var to := Target(from, m.event);
    if to.None? then Done(ue)
    else
      var r := OnEvent(ue, m.target, m.event, m.args, x);
      if r.Panicked? then Failed(r.why)
      else
        var o := SendAll(r.ue, r.next, x);
        if o.Failed? || to.value == from then o else Enter(o.ue, m, from, to.value, x)
  }

  /** The change an event makes, with the evidence there is for it. */
  function ChangeBy(ue: Ue, m: Emission, from: State, to: State): (c: Change) {
    Change(m.target, m.event, from, to, m.args.eap || SecurityContextIsValid(ue), ue.past.intact, ue.past.transferred)
  }

  /** The exit callback and the new state. */
  function Crossed(ue: Ue, m: Emission, from: State, to: State): (v: Ue) {
    Moved(OnExit(ue, from), m.target, ChangeBy(ue, m, from, to))
  }

  /** From the exit callback on. */
  function Enter(ue: Ue, m: Emission, from: State, to: State, x: Answers): (o: Outcome)
    requires Target(from, m.event) == Some(to) && to != from
    decreases Rank(m.event), 0, 1
  {
    var r := OnEntry(Crossed(ue, m, from, to), m.target, to, m.args, x);
    if r.Panicked? then Failed(r.why) else SendAll(r.ue, r.next, x)
  }

  function SendAll(ue: Ue, ms: seq<Emission>, x: Answers): (o: Outcome)
    decreases Height(ms), 2, |ms|
  {
    if ms == [] then Done(ue)
    else
      var o := Send(ue, ms[0], x);
      if o.Failed? then o else SendAll(o.ue, ms[1..], x)
  }

  /** The UE as a message is taken up. */
  function Taken(ue: Ue, intact: bool): (v: Ue) {
    ue.(macFailed := !intact, past := ue.past.(intact := intact, transferred := false))
  }

  /** A single event is sent as such. */
  lemma SendOne(ue: Ue, m: Emission, x: Answers)
    ensures SendAll(ue, [m], x) == Send(ue, m, x)
  {
    var o := Send(ue, m, x);
    if o.Done? {
      assert SendAll(o.ue, [m][1..], x) == o;
    }
  }

  /** `HandleNAS` and `Dispatch`: a decoded message from the UE, with the verdict of its integrity check. */
  function Receive(ue: Ue, a: Access, intact: bool, m: Message, x: Answers): (o: Outcome) {
    Send(Taken(ue, intact), Emission(a, GmmMessage, Args(a, Gmm(m), true, false)), x)
  }

  /** The measure of a cascade: entering a state ranks below the event leading there, what it sends lower still. */
  lemma CascadeDescends(ue: Ue, m: Emission, from: State, to: State, x: Answers)
    requires Target(from, m.event) == Some(to) && to != from
    ensures EntryRank(to) < Rank(m.event)
    ensures var r := OnEntry(Crossed(ue, m, from, to), m.target, to, m.args, x);
            r.Reacted? ==> forall n :: n in r.next ==> Rank(n.event) < Rank(m.event)
  {
  }
}
