/** What each message comes to: the changes of state it makes, in order, and the UE it leaves. */
module GmmOutcomes {
  import opened Options
  import opened GmmTable
  import opened Gmm
  import opened GmmRuns

  // ---------------------------------------------------------------- endings

  /** The events of the changes made, the state of the access afterwards, and the UE's other fields. */
  datatype Ending = Ending(events: seq<Event>, state: State, ue: Ue)

  function Other(a: Access): Access {
    if a == ThreeGpp then NonThreeGpp else ThreeGpp
  }

  /** Handled to the end, with exactly these changes, all of this access, and exactly these fields. */
  predicate Ends(ue: Ue, o: Outcome, a: Access, e: Ending) {
    && o.Done? && StateOf(o.ue, a) == e.state && StateOf(o.ue, Other(a)) == StateOf(ue, Other(a))
    && SameFields(o.ue, e.ue) && Added(ue.past.trace, o.ue.past.trace, a, e.events)
  }

  /** The same but for the states and the history. */
  predicate SameFields(v: Ue, u: Ue) {
    && v.authCtx == u.authCtx && v.synchFailures == u.synchFailures && v.identityRequests == u.identityRequests
    && v.secAvailable == u.secAvailable && v.ksi == u.ksi && v.macFailed == u.macFailed && v.identified == u.identified
    && v.hasRequest == u.hasRequest && v.regType == u.regType && v.usedGuti == u.usedGuti
    && v.amfChanged == u.amfChanged
  }

  predicate Added(s: seq<Change>, t: seq<Change>, a: Access, es: seq<Event>) {
    && |t| == |s| + |es| && (forall i :: 0 <= i < |s| ==> t[i] == s[i])
    && (forall i :: |s| <= i < |t| ==> t[i].access == a && t[i].event == es[i - |s|])
  }

  function After(e: Event, rest: Ending): Ending {
    rest.(events := [e] + rest.events)
  }

  /** What is forgotten in Deregistered and in Registered. */
  function Forgotten(u: Ue): Ue {
    u.(hasRequest := false, regType := NoType, usedGuti := false, synchFailures := 0, identityRequests := 0,
    amfChanged := false)
  }

  /** What is dropped when Authentication is left. */
  function Dropped(u: Ue): Ue {
    u.(authCtx := None, synchFailures := 0, identityRequests := 0)
  }

  /** In ContextSetup: a registration is set up, and may fail. */
  function SetUpEnding(u: Ue, x: Answers): Ending {
    if u.regType != NoType && u.regType != Emergency && !x.setup then
      Ending([ContextSetupFail], Deregistered, Forgotten(u))
    else Ending([], ContextSetup, u)
  }

  /** In SecurityMode: with a security context it is passed at once, and otherwise a command is sent, unless there is no
      common algorithm. */
  function SecurityModeEnding(u: Ue, x: Answers): Ending {
    if u.secAvailable && u.ksi != 7 && !u.macFailed then After(SecurityModeSuccess, SetUpEnding(u, x))
    else CommandEnding(u, x)
  }

  function CommandEnding(u: Ue, x: Answers): Ending {
    if !x.algorithms then Ending([SecurityModeFail], Deregistered, Forgotten(u))
    else Ending([], SecurityMode, u.(secAvailable := x.command == SentIt || (x.command == NotBuilt && u.secAvailable)))
  }

  /** From Authentication with a success. */
  function AuthenticatedEnding(u: Ue, x: Answers): Ending {
    After(AuthSuccess, SecurityModeEnding(Dropped(u), x))
  }

  /** In Authentication: who has no identity is asked for it, who has a security context passes, and anybody else is
      challenged, if the AUSF provides a challenge. */
  function ProcedureEnding(u: Ue, x: Answers): Ending {
    if !u.identified then Ending([], Authentication, u.(identityRequests := u.identityRequests + 1))
    else if u.secAvailable && u.ksi != 7 && !u.macFailed then AuthenticatedEnding(u, x)
    else if x.ausf.Challenge? then Ending([], Authentication, u.(authCtx := Some(x.ausf.authType)))
    else Ending([AuthError], Deregistered, Forgotten(Dropped(u)))
  }

  // ---------------------------------------------------------------- one change after the other

  /** An event that only leads elsewhere ends as what the state it leads to sends on entry. */
  lemma SendEnters(ue: Ue, m: Emission, to: State, x: Answers, r: Reaction)
    requires m.event != GmmMessage && m.event != AuthRestart
    requires Target(StateOf(ue, m.target), m.event) == Some(to) && to != StateOf(ue, m.target)
    requires r == OnEntry(Crossed(ue, m, StateOf(ue, m.target), to), m.target, to, m.args, x) && r.Reacted?
    ensures Send(ue, m, x) == SendAll(r.ue, r.next, x)
  {
    SendToEnter(ue, m, to, x);
  }

  lemma CrossedAdds(ue: Ue, m: Emission, from: State, to: State)
    ensures Ends(ue, Done(Crossed(ue, m, from, to)), m.target,
                 Ending([m.event], to, if from == Authentication then Dropped(ue) else ue))
  {
    var c := ChangeBy(ue, m, from, to);
    MovedPast(OnExit(ue, from), m.target, c);
    OneAdded(ue.past.trace, c);
    MovedFields(OnExit(ue, from), m.target, c);
  }

  lemma OneAdded(s: seq<Change>, c: Change)
    ensures Added(s, s + [c], c.access, [c.event])
  {
  }

  lemma MovedFields(u: Ue, a: Access, c: Change)
    ensures SameFields(Moved(u, a, c), u)
    ensures StateOf(Moved(u, a, c), a) == c.to && StateOf(Moved(u, a, c), Other(a)) == StateOf(u, Other(a))
  {
  }

  /** One change, and then another ending. */
  lemma EndsOn(ue: Ue, v: Ue, o: Outcome, a: Access, first: Ending, e: Ending)
    requires Ends(ue, Done(v), a, first) && |first.events| == 1 && Ends(v, o, a, e)
    ensures Ends(ue, o, a, After(first.events[0], e))
  {
    AddedOn(ue.past.trace, v.past.trace, o.ue.past.trace, a, first.events, e.events);
  }

  lemma AddedOn(s: seq<Change>, t: seq<Change>, w: seq<Change>, a: Access, first: seq<Event>, es: seq<Event>)
    requires Added(s, t, a, first) && Added(t, w, a, es) && |first| == 1
    ensures Added(s, w, a, [first[0]] + es)
  {
    var all := [first[0]] + es;
    AddedAt(s, t, a, first, 0);
    forall i | 0 <= i < |s| ensures w[i] == s[i] {
      assert w[i] == t[i];
    }
    forall i | |s| <= i < |w| ensures w[i].access == a && w[i].event == all[i - |s|] {
      if i > |s| {
        assert all[i - |s|] == es[i - |t|];
      } else {
        assert w[i] == t[i];
      }
    }
  }

  lemma AddedAt(s: seq<Change>, t: seq<Change>, a: Access, es: seq<Event>, i: nat)
    requires Added(s, t, a, es) && i < |es|
    ensures t[|s| + i].access == a && t[|s| + i].event == es[i]
  {
  }

  lemma StepEnds(ue: Ue, m: Emission, to: State, x: Answers, r: Reaction, e: Ending)
    requires m.event != GmmMessage && m.event != AuthRestart
    requires Target(StateOf(ue, m.target), m.event) == Some(to) && to != StateOf(ue, m.target)
    requires r == OnEntry(Crossed(ue, m, StateOf(ue, m.target), to), m.target, to, m.args, x) && r.Reacted?
    requires Ends(Crossed(ue, m, StateOf(ue, m.target), to), SendAll(r.ue, r.next, x), m.target, e)
    ensures Ends(ue, Send(ue, m, x), m.target, After(m.event, e))
  {
    var from := StateOf(ue, m.target);
    SendEnters(ue, m, to, x, r);
    CrossedAdds(ue, m, from, to);
    EndsOn(ue, Crossed(ue, m, from, to), Send(ue, m, x), m.target,
           Ending([m.event], to, if from == Authentication then Dropped(ue) else ue), e);
  }

  /** An event into Deregistered or Registered is the last. */
  lemma LastEnds(ue: Ue, m: Emission, to: State, x: Answers)
    requires m.event != GmmMessage && m.event != AuthRestart && (to == Deregistered || to == Registered)
    requires Target(StateOf(ue, m.target), m.event) == Some(to) && to != StateOf(ue, m.target)
    ensures Ends(ue, Send(ue, m, x), m.target,
                 Ending([m.event], to, Forgotten(if StateOf(ue, m.target) == Authentication then Dropped(ue) else ue)))
    ensures SendAll(ue, [m], x) == Send(ue, m, x)
  {
    SendOne(ue, m, x);
    SendToEnter(ue, m, to, x);
    EnterIdle(ue, m, StateOf(ue, m.target), to, x);
    CrossedAdds(ue, m, StateOf(ue, m.target), to);
  }

  lemma SetUpEnds(z: Ue, a: Access, x: Answers)
    requires StateOf(z, a) == ContextSetup && (z.hasRequest || z.regType == NoType)
    ensures var r := SetUp(z, a, a, x);
            r.Reacted? && Ends(z, SendAll(r.ue, r.next, x), a, SetUpEnding(z, x))
  {
    if z.regType != NoType && z.regType != Emergency && !x.setup {
      LastEnds(z, Emission(a, ContextSetupFail, Plain(a)), Deregistered, x);
    } else {
      assert SetUp(z, a, a, x) == Reacted(z, []);
      assert SendAll(z, [], x) == Done(z);
    }
  }

  /** An ending does not depend on the states and the history. */
  predicate SameEnding(e: Ending, f: Ending) {
    e.events == f.events && e.state == f.state && SameFields(e.ue, f.ue)
  }

  lemma EndsAs(v: Ue, o: Outcome, a: Access, e: Ending, f: Ending)
    requires Ends(v, o, a, e) && SameEnding(e, f)
    ensures Ends(v, o, a, f)
  {
  }

  lemma SameSetUp(u: Ue, w: Ue, x: Answers)
    requires SameFields(u, w)
    ensures SameEnding(SetUpEnding(u, x), SetUpEnding(w, x))
  {
  }

  lemma SameSecurityMode(u: Ue, w: Ue, x: Answers)
    requires SameFields(u, w)
    ensures SameEnding(SecurityModeEnding(u, x), SecurityModeEnding(w, x))
  {
    SameSetUp(u, w, x);
    SameCommand(u, w, x);
  }

  lemma SameCommand(u: Ue, w: Ue, x: Answers)
    requires SameFields(u, w)
    ensures SameEnding(CommandEnding(u, x), CommandEnding(w, x))
  {
  }

  /** SecurityMode Success, with a request or without. */
  lemma SecuredEnds(w: Ue, a: Access, m: Emission, isNil: bool, x: Answers)
    requires m.target == a == m.args.access && m.event == SecurityModeSuccess && m.args.nas == RegistrationArg(isNil)
    requires StateOf(w, a) == SecurityMode && (isNil ==> w.regType == NoType)
    ensures Ends(w, Send(w, m, x), a, After(SecurityModeSuccess, SetUpEnding(w.(hasRequest := !isNil), x)))
    ensures SendAll(w, [m], x) == Send(w, m, x)
  {
    var z := Crossed(w, m, SecurityMode, ContextSetup);
    CrossedAdds(w, m, SecurityMode, ContextSetup);
    ContextSetupEnds(w, z, a, m.args, isNil, x);
    StepEnds(w, m, ContextSetup, x, EnterContextSetup(z, a, m.args, x), SetUpEnding(w.(hasRequest := !isNil), x));
    SendOne(w, m, x);
  }

  /** What ContextSetup sends on entry. */
  lemma ContextSetupEnds(w: Ue, z: Ue, a: Access, args: Args, isNil: bool, x: Answers)
    requires args.access == a && args.nas == RegistrationArg(isNil) && SameFields(z, w)
    requires StateOf(z, a) == ContextSetup && (isNil ==> w.regType == NoType)
    ensures var r := EnterContextSetup(z, a, args, x);
            r.Reacted? && Ends(z, SendAll(r.ue, r.next, x), a, SetUpEnding(w.(hasRequest := !isNil), x))
  {
    var y := z.(hasRequest := !isNil);
    var o := SendAll(SetUp(y, a, a, x).ue, SetUp(y, a, a, x).next, x);
    SetUpEnds(y, a, x);
    SameSetUp(y, w.(hasRequest := !isNil), x);
    EndsAs(y, o, a, SetUpEnding(y, x), SetUpEnding(w.(hasRequest := !isNil), x));
  }

  /** What SecurityMode sends on entry. */
  lemma SecurityModeEnds(w: Ue, a: Access, args: Args, x: Answers)
    requires StateOf(w, a) == SecurityMode && args.access == a && (w.hasRequest || w.regType == NoType)
    requires args.eap || SecurityContextIsValid(w)
    ensures var r := EnterSecurityMode(w, a, args, x);
            r.Reacted? && Ends(w, SendAll(r.ue, r.next, x), a, SecurityModeEnding(w, x))
  {
    if SecurityContextIsValid(w) {
      SkipEnds(w, a, args, x);
    } else {
      CommandEnds(w, a, args, x);
    }
  }

  lemma CommandEnds(w: Ue, a: Access, args: Args, x: Answers)
    requires StateOf(w, a) == SecurityMode && args.access == a && args.eap && !SecurityContextIsValid(w)
    ensures var r := EnterSecurityMode(w, a, args, x);
            r.Reacted? && Ends(w, SendAll(r.ue, r.next, x), a, CommandEnding(w, x))
  {
    var r := EnterSecurityMode(w, a, args, x);
    if !x.algorithms {
      LastEnds(w, Emission(a, SecurityModeFail, Plain(a)), Deregistered, x);
    } else {
      assert SendAll(r.ue, [], x) == Done(r.ue);
    }
  }

  lemma SkipEnds(w: Ue, a: Access, args: Args, x: Answers)
    requires StateOf(w, a) == SecurityMode && args.access == a && (w.hasRequest || w.regType == NoType)
    requires w.secAvailable && w.ksi != 7 && !w.macFailed
    ensures var r := EnterSecurityMode(w, a, args, x);
            r.Reacted? && Ends(w, SendAll(r.ue, r.next, x), a, After(SecurityModeSuccess, SetUpEnding(w, x)))
  {
    var m := Emission(a, SecurityModeSuccess, Plain(a).(nas := RegistrationArg(!w.hasRequest)));
    assert EnterSecurityMode(w, a, args, x) == Reacted(w, [m]);
    SecuredEnds(w, a, m, !w.hasRequest, x);
    assert w.(hasRequest := !!w.hasRequest) == w;
  }

  lemma AuthenticatedEnds(v: Ue, a: Access, m: Emission, x: Answers)
    requires m.target == a == m.args.access && m.event == AuthSuccess
    requires StateOf(v, a) == Authentication && (v.hasRequest || v.regType == NoType)
    requires m.args.eap || SecurityContextIsValid(v)
    ensures Ends(v, Send(v, m, x), a, AuthenticatedEnding(v, x))
    ensures SendAll(v, [m], x) == Send(v, m, x)
  {
    var w := Crossed(v, m, Authentication, SecurityMode);
    var r := EnterSecurityMode(w, a, m.args, x);
    CrossedAdds(v, m, Authentication, SecurityMode);
    SecurityModeEnds(w, a, m.args, x);
    SameSecurityMode(w, Dropped(v), x);
    EndsAs(w, SendAll(r.ue, r.next, x), a, SecurityModeEnding(w, x), SecurityModeEnding(Dropped(v), x));
    StepEnds(v, m, SecurityMode, x, r, SecurityModeEnding(Dropped(v), x));
    SendOne(v, m, x);
  }

  lemma ProcedureEnds(v: Ue, a: Access, args: Args, x: Answers)
    requires StateOf(v, a) == Authentication && args.access == a && (v.hasRequest || v.regType == NoType)
    ensures var r := EnterAuthentication(v, a, args, x);
            r.Reacted? && Ends(v, SendAll(r.ue, r.next, x), a, ProcedureEnding(v, x))
  {
    var r := EnterAuthentication(v, a, args, x);
    if v.identified && SecurityContextIsValid(v) {
      AuthenticatedEnds(v, a, Emission(a, AuthSuccess, Plain(a)), x);
    } else if v.identified && !x.ausf.Challenge? {
      LastEnds(v, Emission(a, AuthError, Plain(a)), Deregistered, x);
    } else {
      assert SendAll(r.ue, [], x) == Done(r.ue);
    }
  }

  // ---------------------------------------------------------------- from the message on

  /** A message that the state's callback takes: what it does, and what it sends. */
  lemma Received(ue: Ue, a: Access, intact: bool, m: Message, x: Answers, r: Reaction)
    requires StateOf(ue, a) != DeregistrationInitiated
    requires r == OnEvent(Taken(ue, intact), a, GmmMessage, Args(a, Gmm(m), true, false), x) && r.Reacted?
    ensures Receive(ue, a, intact, m, x) == SendAll(r.ue, r.next, x)
  {
  }

  lemma EndsFrom(ue: Ue, u: Ue, o: Outcome, a: Access, e: Ending)
    requires u.past.trace == ue.past.trace && u.threeGpp == ue.threeGpp && u.nonThreeGpp == ue.nonThreeGpp
    requires Ends(u, o, a, e)
    ensures Ends(ue, o, a, e)
  {
  }

  /** A callback that sends nothing. */
  lemma QuietEnds(ue: Ue, a: Access, intact: bool, m: Message, x: Answers, u: Ue, v: Ue)
    requires StateOf(ue, a) != DeregistrationInitiated
    requires OnEvent(Taken(ue, intact), a, GmmMessage, Args(a, Gmm(m), true, false), x) == Reacted(u, [])
    requires u.past.trace == ue.past.trace && u.threeGpp == ue.threeGpp && u.nonThreeGpp == ue.nonThreeGpp
    requires SameFields(u, v)
    ensures Ends(ue, Receive(ue, a, intact, m, x), a, Ending([], StateOf(ue, a), v))
  {
    Received(ue, a, intact, m, x, Reacted(u, []));
    assert SendAll(u, [], x) == Done(u);
  }

  lemma QuietIsDone(ue: Ue, a: Access, intact: bool, m: Message, x: Answers, u: Ue)
    requires StateOf(ue, a) != DeregistrationInitiated
    requires OnEvent(Taken(ue, intact), a, GmmMessage, Args(a, Gmm(m), true, false), x) == Reacted(u, [])
    ensures Receive(ue, a, intact, m, x) == Done(u)
  {
    Received(ue, a, intact, m, x, Reacted(u, []));
    assert SendAll(u, [], x) == Done(u);
  }

  /** A callback that sends one event. */
  lemma OneEnds(ue: Ue, a: Access, intact: bool, m: Message, x: Answers, u: Ue, n: Emission, e: Ending)
    requires StateOf(ue, a) != DeregistrationInitiated
    requires OnEvent(Taken(ue, intact), a, GmmMessage, Args(a, Gmm(m), true, false), x) == Reacted(u, [n])
    requires u.past.trace == ue.past.trace && u.threeGpp == ue.threeGpp && u.nonThreeGpp == ue.nonThreeGpp
    requires Ends(u, Send(u, n, x), a, e)
    ensures Ends(ue, Receive(ue, a, intact, m, x), a, e)
  {
    Received(ue, a, intact, m, x, Reacted(u, [n]));
    SendOne(u, n, x);
    EndsFrom(ue, u, Send(u, n, x), a, e);
  }

  /** What a message reacts with, as the callback of the access's state. */
  function ReactionTo(ue: Ue, a: Access, intact: bool, m: Message, x: Answers): Reaction {
    OnEvent(Taken(ue, intact), a, GmmMessage, Args(a, Gmm(m), true, false), x)
  }

  // ---------------------------------------------------------------- Authentication

  /** A callback that sends Authentication Fail. */
  lemma RejectedEnds(ue: Ue, a: Access, intact: bool, m: Message, x: Answers, u: Ue, v: Ue)
    requires StateOf(ue, a) == Authentication
    requires ReactionTo(ue, a, intact, m, x) == Reacted(u, [Emission(a, AuthFail, Plain(a))])
    requires u.past.trace == ue.past.trace && u.threeGpp == ue.threeGpp && u.nonThreeGpp == ue.nonThreeGpp
    requires SameFields(Forgotten(Dropped(u)), Forgotten(Dropped(v)))
    ensures Ends(ue, Receive(ue, a, intact, m, x), a, Ending([AuthFail], Deregistered, Forgotten(Dropped(v))))
  {
    var n, e := Emission(a, AuthFail, Plain(a)), Ending([AuthFail], Deregistered, Forgotten(Dropped(v)));
    LastEnds(u, n, Deregistered, x);
    EndsAs(u, Send(u, n, x), a, Ending([AuthFail], Deregistered, Forgotten(Dropped(u))), e);
    OneEnds(ue, a, intact, m, x, u, n, e);
  }

  lemma ResponseReacts(ue: Ue, a: Access, intact: bool, usable: bool, matches: bool, x: Answers)
    requires StateOf(ue, a) == Authentication && (ue.authCtx == Some(EapAkaPrime) ==> usable)
    ensures var u := Taken(ue, intact);
            var five, eap := ue.authCtx == Some(FiveGAka), ue.authCtx == Some(EapAkaPrime);
            var failed := usable && ((five && !matches) || ((five || eap) && x.confirm == Denied));
            ReactionTo(ue, a, intact, AuthenticationResponse(usable, matches), x)
            == if usable && ((five && matches) || eap) && x.confirm == Confirmed then
                 Reacted(u.(identified := true), [Emission(a, AuthSuccess, Plain(a).(eap := true))])
               else if failed && ue.usedGuti && ue.identityRequests == 0 then Reacted(u.(identityRequests := 1), [])
               else if failed then Reacted(u, [Emission(a, AuthFail, Plain(a))])
               else Reacted(u, [])
  {
  }

  /** The response can be used, and in 5G-AKA RES* matches. */
  predicate Matches(ue: Ue, usable: bool, matches: bool) {
    usable && ((ue.authCtx == Some(FiveGAka) && matches) || ue.authCtx == Some(EapAkaPrime))
  }

  /** It can be used, and RES* does not match in 5G-AKA, or the AUSF denies. */
  predicate Mismatches(ue: Ue, usable: bool, matches: bool, x: Answers) {
    && usable && (ue.authCtx == Some(FiveGAka) || ue.authCtx == Some(EapAkaPrime))
    && ((ue.authCtx == Some(FiveGAka) && !matches) || x.confirm == Denied)
  }

  lemma ResponseSucceeds(ue: Ue, a: Access, intact: bool, usable: bool, matches: bool, x: Answers)
    requires StateOf(ue, a) == Authentication && (ue.hasRequest || ue.regType == NoType)
    requires Matches(ue, usable, matches) && x.confirm == Confirmed
    ensures Ends(ue, Receive(ue, a, intact, AuthenticationResponse(usable, matches), x), a,
                 AuthenticatedEnding(ue.(macFailed := !intact, identified := true), x))
  {
    var m := AuthenticationResponse(usable, matches);
    ResponseReacts(ue, a, intact, usable, matches, x);
    ConfirmedEnds(ue, a, intact, m, x, ReactionTo(ue, a, intact, m, x));
  }

  lemma ResponseFails(ue: Ue, a: Access, intact: bool, usable: bool, matches: bool, x: Answers)
    requires StateOf(ue, a) == Authentication
    requires Mismatches(ue, usable, matches, x) && !(ue.usedGuti && ue.identityRequests == 0)
    ensures Ends(ue, Receive(ue, a, intact, AuthenticationResponse(usable, matches), x), a,
                 Ending([AuthFail], Deregistered, Forgotten(Dropped(ue.(macFailed := !intact)))))
  {
    var m := AuthenticationResponse(usable, matches);
    ResponseReacts(ue, a, intact, usable, matches, x);
    RejectedEnds(ue, a, intact, m, x, Taken(ue, intact), ue.(macFailed := !intact));
  }

  lemma ResponseAsks(ue: Ue, a: Access, intact: bool, usable: bool, matches: bool, x: Answers)
    requires StateOf(ue, a) == Authentication
    requires Mismatches(ue, usable, matches, x) && ue.usedGuti && ue.identityRequests == 0
    ensures Ends(ue, Receive(ue, a, intact, AuthenticationResponse(usable, matches), x), a,
                 Ending([], Authentication, ue.(macFailed := !intact, identityRequests := 1)))
  {
    var m := AuthenticationResponse(usable, matches);
    ResponseReacts(ue, a, intact, usable, matches, x);
    QuietEnds(ue, a, intact, m, x, ReactionTo(ue, a, intact, m, x).ue,
              ue.(macFailed := !intact, identityRequests := 1));
  }

  /** Anything else leaves the UE as it is, but for the flag of the integrity check. */
  lemma ResponseIsIgnored(ue: Ue, a: Access, intact: bool, usable: bool, matches: bool, x: Answers)
    requires StateOf(ue, a) == Authentication && (ue.authCtx == Some(EapAkaPrime) ==> usable)
    requires !(Matches(ue, usable, matches) && x.confirm == Confirmed) && !Mismatches(ue, usable, matches, x)
    ensures Receive(ue, a, intact, AuthenticationResponse(usable, matches), x)
            == Done(ue.(macFailed := !intact, past := ue.past.(intact := intact, transferred := false)))
  {
    ResponseReacts(ue, a, intact, usable, matches, x);
    QuietIsDone(ue, a, intact, AuthenticationResponse(usable, matches), x, Taken(ue, intact));
  }

  /** A change with the event was made. */
  predicate Adds(ue: Ue, o: Outcome, e: Event) {
    o.Done? && exists i :: |ue.past.trace| <= i < |o.ue.past.trace| && o.ue.past.trace[i].event == e
  }

  lemma EndsAdds(ue: Ue, o: Outcome, a: Access, e: Ending)
    requires Ends(ue, o, a, e)
    ensures forall ev :: Adds(ue, o, ev) <==> ev in e.events
  {
    var s, t := ue.past.trace, o.ue.past.trace;
    forall ev ensures Adds(ue, o, ev) <==> ev in e.events {
      if ev in e.events {
        var i :| 0 <= i < |e.events| && e.events[i] == ev;
        AddedAt(s, t, a, e.events, i);
        assert t[|s| + i].event == ev;
      }
      if Adds(ue, o, ev) {
        var i :| |s| <= i < |t| && t[i].event == ev;
        AddedAt(s, t, a, e.events, i - |s|);
      }
    }
  }

  /** An Authentication Response adds an Authentication Success exactly if it can be used, RES* matches in 5G-AKA, and
      the AUSF confirms it. It adds an Authentication Fail, and ends in Deregistered, exactly if it can be used, and
      RES* does not match or the AUSF denies; except that a UE that came with a GUTI, and has not been asked for its
      identity, is asked for it. */
  lemma ResponseIsExact(ue: Ue, a: Access, intact: bool, usable: bool, matches: bool, x: Answers)
    requires Sound(ue) && StateOf(ue, a) == Authentication && (ue.authCtx == Some(EapAkaPrime) ==> usable)
    ensures var o := Receive(ue, a, intact, AuthenticationResponse(usable, matches), x);
            var five, eap := ue.authCtx == Some(FiveGAka), ue.authCtx == Some(EapAkaPrime);
            var denied := usable && (five || eap) && ((five && !matches) || x.confirm == Denied);
            && o.Done?
            && (Adds(ue, o, AuthSuccess) <==> usable && ((five && matches) || eap) && x.confirm == Confirmed)
            && (Adds(ue, o, AuthFail) <==> denied && !(ue.usedGuti && ue.identityRequests == 0))
            && (Adds(ue, o, AuthFail) ==> StateOf(o.ue, a) == Deregistered)
            && (!Adds(ue, o, AuthSuccess) && !Adds(ue, o, AuthFail) ==>
                  StateOf(o.ue, a) == Authentication && o.ue.past.trace == ue.past.trace
                  && o.ue.identityRequests == if denied then 1 else ue.identityRequests)
  {
    var o := Receive(ue, a, intact, AuthenticationResponse(usable, matches), x);
    if Matches(ue, usable, matches) && x.confirm == Confirmed {
      SuccessIsAdded(ue, a, intact, usable, matches, x);
    } else if !Mismatches(ue, usable, matches, x) {
      ResponseIsIgnored(ue, a, intact, usable, matches, x);
    } else if ue.usedGuti && ue.identityRequests == 0 {
      ResponseAsks(ue, a, intact, usable, matches, x);
      EndsAdds(ue, o, a, Ending([], Authentication, ue.(macFailed := !intact, identityRequests := 1)));
    } else {
      ResponseFails(ue, a, intact, usable, matches, x);
      EndsAdds(ue, o, a, Ending([AuthFail], Deregistered, Forgotten(Dropped(ue.(macFailed := !intact)))));
    }
  }

  lemma SuccessIsAdded(ue: Ue, a: Access, intact: bool, usable: bool, matches: bool, x: Answers)
    requires StateOf(ue, a) == Authentication && (ue.hasRequest || ue.regType == NoType)
    requires Matches(ue, usable, matches) && x.confirm == Confirmed
    ensures var o := Receive(ue, a, intact, AuthenticationResponse(usable, matches), x);
            o.Done? && Adds(ue, o, AuthSuccess) && !Adds(ue, o, AuthFail)
  {
    var e := AuthenticatedEnding(ue.(macFailed := !intact, identified := true), x);
    ResponseSucceeds(ue, a, intact, usable, matches, x);
    EndsAdds(ue, Receive(ue, a, intact, AuthenticationResponse(usable, matches), x), a, e);
    assert e.events[0] == AuthSuccess;
  }

  lemma ConfirmedEnds(ue: Ue, a: Access, intact: bool, m: Message, x: Answers, r: Reaction)
    requires StateOf(ue, a) == Authentication && (ue.hasRequest || ue.regType == NoType)
    requires r == OnEvent(Taken(ue, intact), a, GmmMessage, Args(a, Gmm(m), true, false), x)
    requires r == Reacted(Taken(ue, intact).(identified := true), [Emission(a, AuthSuccess, Plain(a).(eap := true))])
    ensures Ends(ue, Receive(ue, a, intact, m, x), a,
                 AuthenticatedEnding(ue.(macFailed := !intact, identified := true), x))
  {
    var v := ue.(macFailed := !intact, identified := true);
    AuthenticatedEnds(r.ue, a, r.next[0], x);
    SameAuthenticated(r.ue, v, x);
    EndsAs(r.ue, Send(r.ue, r.next[0], x), a, AuthenticatedEnding(r.ue, x), AuthenticatedEnding(v, x));
    OneEnds(ue, a, intact, m, x, r.ue, r.next[0], AuthenticatedEnding(v, x));
  }

  /** What an Authentication Failure comes to in 5G-AKA: a MAC failure, a "non-5G authentication unacceptable" and a
      second synch failure end the procedure. */
  lemma FailureRejects(ue: Ue, a: Access, intact: bool, cause: FailureCause, x: Answers)
    requires StateOf(ue, a) == Authentication && ue.authCtx == Some(FiveGAka)
    requires cause.MacFailure? || cause.Non5G? || (cause.SynchFailure? && ue.synchFailures >= 1)
    ensures Ends(ue, Receive(ue, a, intact, AuthenticationFailure(cause), x), a,
                 Ending([AuthFail], Deregistered, Forgotten(Dropped(ue.(macFailed := !intact)))))
  {
    var m := AuthenticationFailure(cause);
    var u := ReactionTo(ue, a, intact, m, x).ue;
    RejectedEnds(ue, a, intact, m, x, u, ue.(macFailed := !intact));
  }

  /** Every other changes no state: a first synch failure is counted, and is met with a new challenge if there is one;
      and when the key set is in use, the next one is taken. */
  lemma FailureIsNoted(ue: Ue, a: Access, intact: bool, cause: FailureCause, x: Answers)
    requires StateOf(ue, a) == Authentication && ue.authCtx.Some?
    requires ue.authCtx == Some(FiveGAka) ==>
               !cause.MacFailure? && !cause.Non5G? && !(cause.SynchFailure? && ue.synchFailures >= 1)
    ensures var t := ue.(macFailed := !intact, past := ue.past.(intact := intact, transferred := false));
            var nextKsi := if ue.ksi < 6 then ue.ksi + 1 else 0;
            var five, eap := ue.authCtx == Some(FiveGAka), ue.authCtx == Some(EapAkaPrime);
            Receive(ue, a, intact, AuthenticationFailure(cause), x)
            == Done(if five && cause.SynchFailure? then
                      t.(synchFailures := 1,
                         authCtx := Some(if cause.decodable && x.ausf.Challenge? then x.ausf.authType else FiveGAka))
                    else if five && cause.KsiInUse? then t.(synchFailures := 0, ksi := nextKsi)
                    else if eap && cause.KsiInUse? then t.(ksi := nextKsi)
                    else t)
  {
    var m := AuthenticationFailure(cause);
    QuietIsDone(ue, a, intact, m, x, ReactionTo(ue, a, intact, m, x).ue);
  }

  /** What an Identity Response comes to in Authentication: the procedure starts over, unless the identity cannot be
      read, or is a temporary one in a message that failed its check. */
  lemma IdentityEnds(ue: Ue, a: Access, intact: bool, id: IdentityAnswer, x: Answers)
    requires StateOf(ue, a) == Authentication && (ue.hasRequest || ue.regType == NoType)
    ensures var t := ue.(macFailed := !intact);
            var o := Receive(ue, a, intact, IdentityResponse(id), x);
            if id.BadIdentity? || (id.ProtectedAnswer? && !intact) then Ends(ue, o, a, Ending([], Authentication, t))
            else Ends(ue, o, a, ProcedureEnding(t.(identified := ue.identified || id.SuciAnswer?,
                                                   usedGuti := id.ProtectedAnswer? && id.guti), x))
  {
    var m := IdentityResponse(id);
    var r := ReactionTo(ue, a, intact, m, x);
    IdentityReacts(ue, a, intact, id, x);
    var t := ue.(macFailed := !intact);
    if id.BadIdentity? || (id.ProtectedAnswer? && !intact) {
      QuietEnds(ue, a, intact, m, x, r.ue, t);
    } else {
      RestartedEnds(ue, a, intact, m, x, r.ue,
                    t.(identified := ue.identified || id.SuciAnswer?, usedGuti := id.ProtectedAnswer? && id.guti));
    }
  }

  lemma IdentityReacts(ue: Ue, a: Access, intact: bool, id: IdentityAnswer, x: Answers)
    requires StateOf(ue, a) == Authentication
    ensures var u := Taken(ue, intact);
            ReactionTo(ue, a, intact, IdentityResponse(id), x)
            == if id.BadIdentity? || (id.ProtectedAnswer? && !intact) then Reacted(u, [])
               else Reacted(u.(identified := ue.identified || id.SuciAnswer?,
                               usedGuti := id.ProtectedAnswer? && id.guti),
                            [Emission(a, AuthRestart, Plain(a))])
  {
  }

  lemma RestartedEnds(ue: Ue, a: Access, intact: bool, m: Message, x: Answers, u: Ue, v: Ue)
    requires StateOf(ue, a) == Authentication && (u.hasRequest || u.regType == NoType) && SameFields(u, v)
    requires ReactionTo(ue, a, intact, m, x) == Reacted(u, [Emission(a, AuthRestart, Plain(a))])
    requires u.past.trace == ue.past.trace && u.threeGpp == ue.threeGpp && u.nonThreeGpp == ue.nonThreeGpp
    ensures Ends(ue, Receive(ue, a, intact, m, x), a, ProcedureEnding(v, x))
  {
    var n := Emission(a, AuthRestart, Plain(a));
    RestartEnds(u, a, x);
    SameProcedure(u, v, x);
    EndsAs(u, Send(u, n, x), a, ProcedureEnding(u, x), ProcedureEnding(v, x));
    OneEnds(ue, a, intact, m, x, u, n, ProcedureEnding(v, x));
  }

  lemma RestartEnds(v: Ue, a: Access, x: Answers)
    requires StateOf(v, a) == Authentication && (v.hasRequest || v.regType == NoType)
    ensures Ends(v, Send(v, Emission(a, AuthRestart, Plain(a)), x), a, ProcedureEnding(v, x))
  {
    ProcedureEnds(v, a, Plain(a), x);
    var r := EnterAuthentication(v, a, Plain(a), x);
    assert Send(v, Emission(a, AuthRestart, Plain(a)), x) == SendAll(r.ue, r.next, x);
  }

  lemma SameProcedure(u: Ue, w: Ue, x: Answers)
    requires SameFields(u, w)
    ensures SameEnding(ProcedureEnding(u, x), ProcedureEnding(w, x))
  {
    if u.identified && u.secAvailable && u.ksi != 7 && !u.macFailed {
      SameAuthenticated(u, w, x);
    } else if u.identified && !x.ausf.Challenge? {
      assert SameFields(Forgotten(Dropped(u)), Forgotten(Dropped(w)));
    }
  }

  lemma SameAuthenticated(u: Ue, w: Ue, x: Answers)
    requires SameFields(u, w)
    ensures SameEnding(AuthenticatedEnding(u, x), AuthenticatedEnding(w, x))
  {
    SameSecurityMode(Dropped(u), Dropped(w), x);
  }

  // ---------------------------------------------------------------- SecurityMode

  /** Security Mode Complete counts only if it passed its check and its IMEISV can be read. It leads on with the request
      stored or contained; with a service request in it, it fails; with anything else in it, nothing happens. */
  lemma CompleteSucceeds(ue: Ue, a: Access, inner: SecurityContainer, x: Answers)
    requires StateOf(ue, a) == SecurityMode && (ue.hasRequest || ue.regType == NoType)
    requires inner.NoInner? || inner.InnerRegistration?
    ensures var v := ue.(macFailed := false, hasRequest := ue.hasRequest || inner.InnerRegistration?);
            Ends(ue, Receive(ue, a, true, SecurityModeComplete(true, inner), x), a,
                 After(SecurityModeSuccess, SetUpEnding(v, x)))
  {
    var m := SecurityModeComplete(true, inner);
    var isNil := !ue.hasRequest && inner.NoInner?;
    var n := Emission(a, SecurityModeSuccess, Plain(a).(procedure := true, nas := RegistrationArg(isNil)));
    var u := Taken(ue, true);
    assert ReactionTo(ue, a, true, m, x) == Reacted(u, [n]);
    SecuredEnds(u, a, n, isNil, x);
    var v := ue.(macFailed := false, hasRequest := ue.hasRequest || inner.InnerRegistration?);
    SecuredAs(ue, a, m, n, u, v, x);
  }

  lemma SecuredAs(ue: Ue, a: Access, m: Message, n: Emission, u: Ue, v: Ue, x: Answers)
    requires StateOf(ue, a) == SecurityMode && ReactionTo(ue, a, true, m, x) == Reacted(u, [n])
    requires u.past.trace == ue.past.trace && u.threeGpp == ue.threeGpp && u.nonThreeGpp == ue.nonThreeGpp
    requires Ends(u, Send(u, n, x), a, After(SecurityModeSuccess, SetUpEnding(u.(hasRequest := v.hasRequest), x)))
    requires SameFields(u.(hasRequest := v.hasRequest), v)
    ensures Ends(ue, Receive(ue, a, true, m, x), a, After(SecurityModeSuccess, SetUpEnding(v, x)))
  {
    SameSetUp(u.(hasRequest := v.hasRequest), v, x);
    EndsAs(u, Send(u, n, x), a, After(SecurityModeSuccess, SetUpEnding(u.(hasRequest := v.hasRequest), x)),
           After(SecurityModeSuccess, SetUpEnding(v, x)));
    OneEnds(ue, a, true, m, x, u, n, After(SecurityModeSuccess, SetUpEnding(v, x)));
  }

  /** Rejected by the UE, or completed with a service request. */
  lemma SecurityModeFails(ue: Ue, a: Access, intact: bool, m: Message, x: Answers)
    requires StateOf(ue, a) == SecurityMode
    requires m.SecurityModeReject? || (m == SecurityModeComplete(true, InnerService) && intact)
    ensures Ends(ue, Receive(ue, a, intact, m, x), a,
                 Ending([SecurityModeFail], Deregistered, Forgotten(ue.(macFailed := !intact))))
  {
    var n := ReactionTo(ue, a, intact, m, x).next[0];
    var u, v := Taken(ue, intact), ue.(macFailed := !intact);
    assert ReactionTo(ue, a, intact, m, x) == Reacted(u, [n]) && n.event == SecurityModeFail && n.target == a;
    FailedEnds(ue, a, intact, m, x, n);
  }

  /** A callback that sends SecurityMode Fail or ContextSetup Fail. */
  lemma FailedEnds(ue: Ue, a: Access, intact: bool, m: Message, x: Answers, n: Emission)
    requires StateOf(ue, a) in {SecurityMode, ContextSetup} && n.target == a
    requires n.event == if StateOf(ue, a) == SecurityMode then SecurityModeFail else ContextSetupFail
    requires ReactionTo(ue, a, intact, m, x) == Reacted(Taken(ue, intact), [n])
    ensures Ends(ue, Receive(ue, a, intact, m, x), a,
                 Ending([n.event], Deregistered, Forgotten(ue.(macFailed := !intact))))
  {
    var u, v := Taken(ue, intact), ue.(macFailed := !intact);
    var e := Ending([n.event], Deregistered, Forgotten(v));
    LastEnds(u, n, Deregistered, x);
    EndsAs(u, Send(u, n, x), a, Ending([n.event], Deregistered, Forgotten(u)), e);
    OneEnds(ue, a, intact, m, x, u, n, e);
  }

  lemma CompleteIsIgnored(ue: Ue, a: Access, intact: bool, imeisvOk: bool, inner: SecurityContainer, x: Answers)
    requires StateOf(ue, a) == SecurityMode
    requires !intact || !imeisvOk || inner.InnerUndecodable? || inner.InnerOther?
    ensures Receive(ue, a, intact, SecurityModeComplete(imeisvOk, inner), x)
            == Done(ue.(macFailed := !intact, past := ue.past.(intact := intact, transferred := false)))
  {
    QuietIsDone(ue, a, intact, SecurityModeComplete(imeisvOk, inner), x, Taken(ue, intact));
  }

  // ---------------------------------------------------------------- ContextSetup

  /** Registration Complete ends the registration. */
  lemma RegistrationCompletes(ue: Ue, a: Access, intact: bool, x: Answers)
    requires StateOf(ue, a) == ContextSetup && ue.hasRequest
    ensures Ends(ue, Receive(ue, a, intact, RegistrationComplete, x), a,
                 Ending([ContextSetupSuccess], Registered, Forgotten(ue.(macFailed := !intact))))
  {
    var u, n := Taken(ue, intact), Emission(a, ContextSetupSuccess, Plain(a));
    var e := Ending([ContextSetupSuccess], Registered, Forgotten(ue.(macFailed := !intact)));
    assert ReactionTo(ue, a, intact, RegistrationComplete, x) == Reacted(u, [n]);
    LastEnds(u, n, Registered, x);
    EndsAs(u, Send(u, n, x), a, Ending([ContextSetupSuccess], Registered, Forgotten(u)), e);
    OneEnds(ue, a, intact, RegistrationComplete, x, u, n, e);
  }

  /** An Identity Response that can be read sets the context up again. */
  lemma IdentitySetsUp(ue: Ue, a: Access, intact: bool, id: IdentityAnswer, x: Answers)
    requires StateOf(ue, a) == ContextSetup && (ue.hasRequest || ue.regType == NoType)
    ensures var t := ue.(macFailed := !intact);
            var o := Receive(ue, a, intact, IdentityResponse(id), x);
            if id.BadIdentity? || (id.ProtectedAnswer? && !intact) then Ends(ue, o, a, Ending([], ContextSetup, t))
            else Ends(ue, o, a, SetUpEnding(t.(identified := ue.identified || id.SuciAnswer?), x))
  {
    var m := IdentityResponse(id);
    var r := ReactionTo(ue, a, intact, m, x);
    var t := ue.(macFailed := !intact);
    if id.BadIdentity? || (id.ProtectedAnswer? && !intact) {
      QuietEnds(ue, a, intact, m, x, Taken(ue, intact), t);
    } else {
      SetUpAgain(ue, a, intact, m, x, Taken(ue, intact).(identified := ue.identified || id.SuciAnswer?),
                 t.(identified := ue.identified || id.SuciAnswer?));
    }
  }

  lemma SetUpAgain(ue: Ue, a: Access, intact: bool, m: Message, x: Answers, u: Ue, v: Ue)
    requires StateOf(ue, a) == ContextSetup && (u.hasRequest || u.regType == NoType) && SameFields(u, v)
    requires u.past.trace == ue.past.trace && u.threeGpp == ue.threeGpp && u.nonThreeGpp == ue.nonThreeGpp
    requires ReactionTo(ue, a, intact, m, x) == SetUp(u, a, a, x)
    ensures Ends(ue, Receive(ue, a, intact, m, x), a, SetUpEnding(v, x))
  {
    var r := SetUp(u, a, a, x);
    SetUpEnds(u, a, x);
    Received(ue, a, intact, m, x, r);
    SameSetUp(u, v, x);
    EndsAs(u, SendAll(r.ue, r.next, x), a, SetUpEnding(u, x), SetUpEnding(v, x));
    EndsFrom(ue, u, SendAll(r.ue, r.next, x), a, SetUpEnding(v, x));
  }
}
