/** The GMM states, events and transition table, and what a legal history of transitions implies. */
module GmmTable {
  import opened Options

  datatype Access = ThreeGpp | NonThreeGpp

  datatype State = Deregistered | DeregistrationInitiated | Authentication | SecurityMode | ContextSetup | Registered

  datatype Event =
    | GmmMessage | StartAuth | AuthSuccess | AuthError | AuthRestart | AuthFail | SecurityModeSuccess | SecurityModeFail
    | ContextSetupSuccess | ContextSetupFail | InitDeregistration | DeregistrationAccept

  /** Where an event leads, if the table has it for the state. */
  function Target(from: State, e: Event): (to: Option<State>) {
    match (from, e)
    case (Deregistered, GmmMessage) => Some(Deregistered)
    case (Authentication, GmmMessage) => Some(Authentication)
    case (SecurityMode, GmmMessage) => Some(SecurityMode)
    case (ContextSetup, GmmMessage) => Some(ContextSetup)
    case (Registered, GmmMessage) => Some(Registered)
    case (Deregistered, StartAuth) => Some(Authentication)
    case (Registered, StartAuth) => Some(Authentication)
    case (Authentication, AuthRestart) => Some(Authentication)
    case (Authentication, AuthSuccess) => Some(SecurityMode)
    case (Authentication, AuthFail) => Some(Deregistered)
    case (Authentication, AuthError) => Some(Deregistered)
    case (SecurityMode, SecurityModeSuccess) => Some(ContextSetup)
    case (SecurityMode, SecurityModeFail) => Some(Deregistered)
    case (ContextSetup, ContextSetupSuccess) => Some(Registered)
    case (ContextSetup, ContextSetupFail) => Some(Deregistered)
    case (Registered, InitDeregistration) => Some(DeregistrationInitiated)
    case (DeregistrationInitiated, DeregistrationAccept) => Some(Deregistered)
    case _ => None
  }

  /**
   * A change of one access's state. `vouched`: the AUSF has confirmed the UE, or its security context was valid;
   * `intact`: the NAS message being handled had passed its integrity check; `transferred`: the old AMF has handed over
   * the UE's context while it was being handled.
   */
  datatype Change = Change(access: Access, event: Event, from: State, to: State, vouched: bool, intact: bool,
                           transferred: bool)

  /** What has happened: the verdict on the message in hand, whether the old AMF has handed the context over since,
      and all changes of state. */
  datatype History = History(intact: bool, transferred: bool, trace: seq<Change>)

  /** The evidence the event claims: Authentication Success was vouched for, and SecurityMode Success is owed to a
      message that passed its check or that the old AMF answered for. */
  predicate Evident(c: Change) {
    && (c.event == AuthSuccess ==> c.vouched)
    && (c.event == SecurityModeSuccess ==> c.intact || c.transferred)
  }

  /** The state of an access after the first `n` changes, from Deregistered. */
  function StateAfter(trace: seq<Change>, n: nat, a: Access): (s: State)
    requires n <= |trace|
  {
    if n == 0 then Deregistered
    else if trace[n - 1].access == a then trace[n - 1].to
    else StateAfter(trace, n - 1, a)
  }

  /** The change is in the table, starts from the access's state, and has the evidence its event claims. */
  predicate LegalAt(trace: seq<Change>, i: nat)
    requires i < |trace|
  {
    var c := trace[i];
    && Target(c.from, c.event) == Some(c.to) && c.from != c.to
    && c.from == StateAfter(trace, i, c.access)
    && Evident(c)
  }

  predicate Legal(trace: seq<Change>) {
    forall i :: 0 <= i < |trace| ==> LegalAt(trace, i)
  }

  lemma {:induction false} StateAfterPrefix(s: seq<Change>, t: seq<Change>, n: nat, a: Access)
    requires n <= |s| && n <= |t| && forall i :: 0 <= i < n ==> s[i] == t[i]
    ensures StateAfter(s, n, a) == StateAfter(t, n, a)
  {
    if n > 0 {
      StateAfterPrefix(s, t, n - 1, a);
    }
  }

  /** A legal history stays legal with one more change from the current state. */
  lemma LegalSnoc(trace: seq<Change>, c: Change)
    requires Legal(trace) && Target(c.from, c.event) == Some(c.to) && c.from != c.to
    requires c.from == StateAfter(trace, |trace|, c.access)
    requires Evident(c)
    ensures Legal(trace + [c])
    ensures forall a :: StateAfter(trace + [c], |trace| + 1, a) ==
                        if a == c.access then c.to else StateAfter(trace, |trace|, a)
  {
    var t := trace + [c];
    forall a ensures StateAfter(t, |trace|, a) == StateAfter(trace, |trace|, a) {
      StateAfterPrefix(t, trace, |trace|, a);
    }
    forall i | 0 <= i < |t| ensures LegalAt(t, i) {
      if i < |trace| {
        assert LegalAt(trace, i);
        StateAfterPrefix(t, trace, i, t[i].access);
      }
    }
  }

  /** The latest change of an access among the first `n`, or -1. */
  function Latest(trace: seq<Change>, n: nat, a: Access): (j: int)
    requires n <= |trace|
    ensures -1 <= j < n
    ensures j >= 0 ==> trace[j].access == a && StateAfter(trace, n, a) == trace[j].to
    ensures j < 0 ==> StateAfter(trace, n, a) == Deregistered
    ensures forall k :: j < k < n ==> trace[k].access != a
  {
    if n == 0 then -1 else if trace[n - 1].access == a then n - 1 else Latest(trace, n - 1, a)
  }

  /** Change `j` is the one of the same access just before change `i`. */
  predicate JustBefore(trace: seq<Change>, j: nat, i: nat)
    requires i < |trace|
  {
    j < i && trace[j].access == trace[i].access && forall k :: j < k < i ==> trace[k].access != trace[i].access
  }

  /**
   * Every arrival in Registered completes an uninterrupted succession, on that access, of a vouched-for Authentication
   * Success, a SecurityMode Success with one of its two kinds of evidence, and ContextSetup Success.
   */
  lemma RegisteredIsEarned(trace: seq<Change>, i: nat) returns (s: nat, a: nat)
    requires Legal(trace) && i < |trace| && trace[i].to == Registered
    ensures trace[i].event == ContextSetupSuccess
    ensures JustBefore(trace, s, i) && trace[s].event == SecurityModeSuccess
    ensures trace[s].intact || trace[s].transferred
    ensures JustBefore(trace, a, s) && trace[a].event == AuthSuccess && trace[a].vouched
  {
    var x := trace[i].access;
    assert LegalAt(trace, i);
    s := Latest(trace, i, x);
    assert LegalAt(trace, s);
    a := Latest(trace, s, x);
    assert LegalAt(trace, a);
  }
}
