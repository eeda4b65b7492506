/** The account balance function: what a credit-control request does to a stored quota, and to it over a run. */
module Abmf {
  import opened Octets
  import opened Options
  import opened Decimal

  type uint64 = x: int | 0 <= x < TWO_TO_64

  type int64 = x: int | -TWO_TO_63 <= x < TWO_TO_63

  datatype RequestType = InitialRequest | UpdateRequest | TerminationRequest | EventRequest

  datatype Action =
    | CheckBalance
    | PriceEnquiry
    | RefundAccount(units: uint64)
    | DirectDebiting(kind: RequestType, requested: uint64, used: uint64)

  /** Granted octets, and whether the grant is announced as the last. */
  datatype Grant = Grant(octets: uint64, terminate: bool)

  /** The remaining balance as value digits and a decimal exponent. */
  datatype UnitValue = UnitValue(digits: int, exponent: int)

  /** The new balance, the grant, and the balance reported; a report goes with direct debiting alone. */
  datatype Effect = Effect(balance: int64, grant: Option<Grant>, report: Option<UnitValue>)

  /** Go's `/` on integers, which truncates towards zero. */
  function TruncatedDiv(a: int, b: int): (q: int)
    requires b > 0
  {
    if a < 0 then -(-a / b) else a / b
  }

  /** Digits and exponent as computed from the formatted balance, whose length includes a minus sign. */
  function Report(balance: int): (v: UnitValue) {
    var e := |FormatInt(balance)| - 1;
    UnitValue(TruncatedDiv(balance, Pow10(e)), e)
  }

  /** A request, in the int64 arithmetic of the source. */
  function Process(quota: int64, a: Action): (x: Effect) {
    match a
    case RefundAccount(units) => Effect(Wrap64(quota + Wrap64(units)), None, None)
    case DirectDebiting(kind, requested, used) =>
      if kind == InitialRequest || kind == UpdateRequest then
        var wanted := Wrap64(requested);
        var given := if wanted > quota then quota else wanted;
        var left := Wrap64(quota - given);
        Effect(left, Some(Grant(given % TWO_TO_64, wanted > quota)), Some(Report(left)))
      else
        var left := if kind == TerminationRequest then Wrap64(quota - Wrap64(used)) else quota;
        Effect(left, None, Some(Report(left)))
    case _ => Effect(quota, None, None)
  }

  // ---------------------------------------------------------------- one grant

  predicate Grants(a: Action) {
    a.DirectDebiting? && (a.kind == InitialRequest || a.kind == UpdateRequest)
  }

  lemma WrapValue(x: int)
    ensures -TWO_TO_63 <= x < TWO_TO_63 ==> Wrap64(x) == x
    ensures TWO_TO_63 <= x < TWO_TO_64 ==> Wrap64(x) == x - TWO_TO_64
  {
  }

  lemma UnsignedValue(x: int64)
    ensures x % TWO_TO_64 == if x < 0 then x + TWO_TO_64 else x
  {
  }

  /**
   * A grant is the smaller of the request and the balance, exactly when the balance is not negative and the request
   * fits an int64; it is announced as the last just when the request exceeds the balance.
   */
  lemma GrantIsMinimum(quota: int64, a: Action)
    requires Grants(a)
    ensures var x := Process(quota, a);
            x.grant.Some? &&
            (x.grant.value.octets == (if a.requested > quota then quota else a.requested)
             <==> quota >= 0 && a.requested < TWO_TO_63)
    ensures quota >= 0 && a.requested < TWO_TO_63 ==>
              var x := Process(quota, a);
              && (x.grant.value.terminate <==> a.requested > quota)
              && x.balance == quota - x.grant.value.octets && 0 <= x.balance
  {
    var wanted := Wrap64(a.requested);
    var given := if wanted > quota then quota else wanted;
    WrapValue(a.requested);
    UnsignedValue(given);
    WrapValue(quota - given);
  }

  /** An overdrawn account is granted almost 2^64 octets by its next request, and owes nothing after it. */
  lemma OverdrawnIsForgiven(quota: int64, a: Action)
    requires Grants(a) && quota < 0 && a.requested < TWO_TO_63
    ensures Process(quota, a).balance == 0
    ensures Process(quota, a).grant == Some(Grant(TWO_TO_64 + quota, true))
  {
    WrapValue(a.requested);
    UnsignedValue(quota);
    WrapValue(quota - quota);
  }

  /** Each kind of request, in amounts that fit an int64. An initial request and an update take what they are granted
      off the balance, a termination takes what was used, a refund adds, and nothing else changes a balance; only a
      debit is answered with a report. */
  lemma RequestsAreExact(quota: int64, a: Action)
    ensures var x := Process(quota, a);
            match a
            case CheckBalance => x == Effect(quota, None, None)
            case PriceEnquiry => x == Effect(quota, None, None)
            case RefundAccount(units) =>
              units < 0x8000_0000_0000_0000 && quota + units < 0x8000_0000_0000_0000 ==>
                x == Effect(quota + units, None, None)
            case DirectDebiting(kind, requested, used) =>
              match kind
              case EventRequest => x == Effect(quota, None, Some(Report(quota)))
              case TerminationRequest =>
                used < 0x8000_0000_0000_0000 && -0x8000_0000_0000_0000 <= quota - used ==>
                  x == Effect(quota - used, None, Some(Report(quota - used)))
              case _ =>
                requested < 0x8000_0000_0000_0000 ==>
                  if requested <= quota then
                    x == Effect(quota - requested, Some(Grant(requested, false)), Some(Report(quota - requested)))
                  else
                    x == Effect(0, Some(Grant(if quota < 0 then quota + 0x1_0000_0000_0000_0000 else quota, true)),
                                Some(Report(0)))
  {
    match a
    case RefundAccount(units) =>
      WrapValue(units);
      WrapValue(quota + units);
    case DirectDebiting(kind, requested, used) =>
      if Grants(a) {
        var given := if requested > quota then quota else requested;
        WrapValue(requested);
        UnsignedValue(given);
        WrapValue(quota - given);
      } else {
        WrapValue(used);
        WrapValue(quota - used);
      }
    case _ =>
  }

  // ---------------------------------------------------------------- the report

  /** The report brackets the balance, with a single digit. */
  predicate Brackets(v: UnitValue, balance: int) {
    && 0 <= v.digits <= 9 && v.exponent >= 0
    && v.digits * Pow10(v.exponent) <= balance < (v.digits + 1) * Pow10(v.exponent)
  }

  /** The reported digits and exponent bracket a balance that is not negative, with a single digit. */
  lemma ReportBrackets(balance: int)
    requires balance >= 0
    ensures var v := Report(balance);
            && v.exponent >= 0 && 0 <= v.digits <= 9 && (balance > 0 ==> v.digits > 0)
            && v.digits * Pow10(v.exponent) <= balance < (v.digits + 1) * Pow10(v.exponent)
  {
    var e := |FormatInt(balance)| - 1;
    DigitCount(balance);
    var p := Pow10(e);
    assert Pow10(e + 1) == 10 * p;
    DivBrackets(balance, p);
  }

  lemma DivBrackets(n: nat, p: int)
    requires p >= 1
    ensures n / p * p <= n < (n / p + 1) * p
    ensures n < 10 * p ==> n / p <= 9
    ensures p <= n ==> n / p >= 1
  {
    var q := n / p;
    assert n == q * p + n % p;
    ScaleUp(10, q, p);
    ScaleUp(q, 0, p);
  }

  lemma ScaleUp(a: int, b: int, p: int)
    requires p >= 0
    ensures a <= b ==> a * p <= b * p
  {
  }

  /** The minus sign counts towards the exponent, so a negative balance is reported as zero. */
  lemma NegativeReportsZero(balance: int)
    requires -1_000_000_000_000_000_000 < balance < 0
    ensures Report(balance) == UnitValue(0, |Digits(-balance)|)
  {
    DigitCount(-balance);
    SmallQuotient(-balance, Pow10(|Digits(-balance)|));
  }

  lemma SmallQuotient(n: nat, p: int)
    requires n < p
    ensures n / p == 0
  {
  }

  /** So the report brackets the balance exactly when it is not negative. */
  lemma ReportIsExact(balance: int)
    requires balance > -1_000_000_000_000_000_000
    ensures Brackets(Report(balance), balance) <==> balance >= 0
  {
    if balance >= 0 {
      ReportBrackets(balance);
    } else {
      NegativeReportsZero(balance);
    }
  }

  // ---------------------------------------------------------------- runs

  /** What one request enters in the books. */
  datatype Entry = Entry(refunded: nat, used: nat, granted: nat, overdrawn: nat)

  function EntryOf(quota: int64, a: Action): (e: Entry) {
    EntryFor(quota, a, Process(quota, a).grant)
  }

  /** The entry for a request and the grant it got. */
  function EntryFor(quota: int64, a: Action, grant: Option<Grant>): (e: Entry) {
    Entry(if a.RefundAccount? then a.units else 0,
          if a.DirectDebiting? && a.kind == TerminationRequest then a.used else 0,
          if grant.Some? then grant.value.octets else 0,
          if Overdrawn(quota, a) then 1 else 0)
  }

  predicate Overdrawn(quota: int64, a: Action) {
    quota < 0 && Grants(a)
  }

  /** Amounts fit an int64, and so does what refunds and use make of the balance. */
  predicate NoOverflow(quota: int64, a: Action) {
    match a
    case RefundAccount(units) => units < TWO_TO_63 && quota + units < TWO_TO_63
    case DirectDebiting(kind, requested, used) =>
      requested < TWO_TO_63 && used < TWO_TO_63 && (kind == TerminationRequest ==> -TWO_TO_63 <= quota - used)
    case _ => true
  }

  function Net(e: Entry): (d: int) {
    e.refunded - e.used - e.granted + TWO_TO_64 * e.overdrawn
  }

  /** What a request does to the balance: refunds, grants and use are accounted for, but for 2^64 when overdrawn. */
  lemma StepConserves(quota: int64, a: Action)
    requires NoOverflow(quota, a)
    ensures Process(quota, a).balance == quota + Net(EntryOf(quota, a))
  {
    match a
    case RefundAccount(units) =>
      WrapValue(units);
      WrapValue(quota + units);
    case DirectDebiting(kind, requested, used) =>
      WrapValue(requested);
      WrapValue(used);
      if Grants(a) {
        var given := if requested > quota then quota else requested;
        UnsignedValue(given);
        WrapValue(quota - given);
      } else if kind == TerminationRequest {
        WrapValue(quota - used);
      }
    case _ =>
  }

  /** The sums over the first `n` entries. */
  function Total(es: seq<Entry>, n: nat): (t: Entry)
    requires n <= |es|
  {
    if n == 0 then Entry(0, 0, 0, 0)
    else
      var t, e := Total(es, n - 1), es[n - 1];
      Entry(t.refunded + e.refunded, t.used + e.used, t.granted + e.granted, t.overdrawn + e.overdrawn)
  }

  /** The balances through a run of requests, processed one at a time and without overflow. */
  predicate IsRun(bs: seq<int64>, actions: seq<Action>) {
    |bs| == |actions| + 1 && forall i :: 0 <= i < |actions| ==> IsStep(bs[i], actions[i], bs[i + 1])
  }

  predicate IsStep(b: int64, a: Action, c: int64) {
    NoOverflow(b, a) && c == Process(b, a).balance
  }

  function Entries(bs: seq<int64>, actions: seq<Action>): (es: seq<Entry>)
    requires |bs| == |actions| + 1
  {
    seq(|actions|, i requires 0 <= i < |actions| => EntryOf(bs[i], actions[i]))
  }

  lemma {:induction false} NetAdds(bs: seq<int>, es: seq<Entry>, n: nat)
    requires n <= |es| && |bs| == |es| + 1 && forall i :: 0 <= i < |es| ==> bs[i] + Net(es[i]) == bs[i + 1]
    ensures bs[n] == bs[0] + Net(Total(es, n))
  {
    if n > 0 {
      NetAdds(bs, es, n - 1);
    }
  }

  /**
   * Conservation over any run: the balance is the initial one plus refunds, less grants and use, but for 2^64 for each
   * grant to an overdrawn account.
   */
  lemma RunConserves(bs: seq<int64>, actions: seq<Action>)
    requires IsRun(bs, actions)
    ensures bs[|actions|] == bs[0] + Net(Total(Entries(bs, actions), |actions|))
  {
    var es := Entries(bs, actions);
    forall i | 0 <= i < |actions| ensures bs[i] + Net(es[i]) == bs[i + 1] {
      assert IsStep(bs[i], actions[i], bs[i + 1]);
      StepConserves(bs[i], actions[i]);
    }
    NetAdds(bs, es, |actions|);
  }

  lemma {:induction false} NoneOverdrawn(es: seq<Entry>, n: nat)
    requires n <= |es|
    ensures Total(es, n).overdrawn == 0 <==> forall i :: 0 <= i < n ==> es[i].overdrawn == 0
  {
    if n > 0 {
      NoneOverdrawn(es, n - 1);
    }
  }

  /** So the books balance exactly when no grant was made to an overdrawn account. */
  lemma BooksBalance(bs: seq<int64>, actions: seq<Action>)
    requires IsRun(bs, actions)
    ensures var t := Total(Entries(bs, actions), |actions|);
            bs[|actions|] == bs[0] + t.refunded - t.granted - t.used <==>
            forall i :: 0 <= i < |actions| ==> !Overdrawn(bs[i], actions[i])
  {
    var es := Entries(bs, actions);
    RunConserves(bs, actions);
    NoneOverdrawn(es, |actions|);
    forall i | 0 <= i < |actions| ensures es[i].overdrawn == 0 <==> !Overdrawn(bs[i], actions[i]) {
      OverdrawnEntry(bs[i], actions[i]);
    }
  }

  lemma OverdrawnEntry(quota: int64, a: Action)
    ensures EntryOf(quota, a).overdrawn == 0 <==> !Overdrawn(quota, a)
  {
  }

  // ---------------------------------------------------------------- the stored quotas

  /** A subscriber and a rating group. */
  datatype Account = Account(subscriber: string, ratingGroup: nat)

  /** The answer to a request, when there is one. */
  datatype Answer = Answer(grant: Option<Grant>, report: Option<UnitValue>)

  class Ledger {
    var quotas: map<Account, string>

    constructor ()
      ensures quotas == map[]
    {
      quotas := map[];
    }

    /** The balance of an account, if it is there and can be read. */
    function BalanceOf(acc: Account): (b: Option<int>)
      reads this
    {
      if acc in quotas then ParseInt(quotas[acc]) else None
    }

    /** `handleCCR`: reads the stored quota, updates it by request type, and stores it back. */
    method HandleCcr(acc: Account, a: Action) returns (answer: Option<Answer>)
      modifies this
      ensures answer.Some? <==> old(BalanceOf(acc)).Some?
      ensures answer.None? ==> quotas == old(quotas)
      ensures answer.Some? ==>
                var x := Process(old(BalanceOf(acc)).value, a);
                && answer.value == Answer(x.grant, x.report)
                && BalanceOf(acc) == Some(x.balance)
                && forall other :: other != acc ==> BalanceOf(other) == old(BalanceOf(other))
      ensures answer.Some? && NoOverflow(old(BalanceOf(acc)).value, a) ==>
                var b := old(BalanceOf(acc)).value;
                BalanceOf(acc) == Some(b + Net(EntryFor(b, a, answer.value.grant)))
    {
      if acc !in quotas {
        return None;
      }
      var parsed := ParseInt(quotas[acc]);
      if parsed.None? {
        return None;
      }
      var quota, grant, report := Update(parsed.value, a);
      ParseOfFormat(quota);
      quotas := quotas[acc := FormatInt(quota)];
      answer := Some(Answer(grant, report));
    }
  }

  /**
   * Without overflow the balance changes by what is refunded, used and granted; a grant from a balance that is not
   * negative is the smaller of request and balance; and a balance that is not negative is bracketed by what is
   * reported.
   */
  predicate Accounted(stored: int64, a: Action, x: Effect) {
    && (NoOverflow(stored, a) ==> x.balance == stored + Net(EntryFor(stored, a, x.grant)))
    && (x.grant.Some? <==> Grants(a)) && (x.report.Some? <==> a.DirectDebiting?)
    && (Grants(a) && stored >= 0 && a.requested < TWO_TO_63 ==>
          x.grant == Some(Grant(if a.requested > stored then stored else a.requested, a.requested > stored)))
    && (x.report.Some? && x.balance >= 0 ==> Brackets(x.report.value, x.balance))
  }

  /** The arithmetic inside it. */
  method Update(stored: int64, a: Action) returns (quota: int64, grant: Option<Grant>, report: Option<UnitValue>)
    ensures Effect(quota, grant, report) == Process(stored, a)
    ensures Accounted(stored, a, Effect(quota, grant, report))
  {
    quota, grant, report := Compute(stored, a);
    UpdateIsExact(stored, a);
  }

  method Compute(stored: int64, a: Action) returns (quota: int64, grant: Option<Grant>, report: Option<UnitValue>)
    ensures Effect(quota, grant, report) == Process(stored, a)
  {
    quota, grant, report := stored, None, None;
    match a {
      case RefundAccount(units) =>
        quota := Wrap64(quota + Wrap64(units));
      case DirectDebiting(kind, requested, used) =>
        if kind == InitialRequest || kind == UpdateRequest {
          var request, last := Wrap64(requested), false;
          if request > quota {
            last := true;
            request := quota;
          }
          grant := Some(Grant(request % TWO_TO_64, last));
          quota := Wrap64(quota - request);
        } else if kind == TerminationRequest {
          quota := Wrap64(quota - Wrap64(used));
        }
        report := Some(Report(quota));
      case _ =>
    }
  }

  lemma UpdateIsExact(stored: int64, a: Action)
    ensures Accounted(stored, a, Process(stored, a))
  {
    var x := Process(stored, a);
    if NoOverflow(stored, a) {
      StepConserves(stored, a);
    }
    if Grants(a) {
      GrantIsMinimum(stored, a);
    }
    if x.balance >= 0 {
      ReportBrackets(x.balance);
    }
  }
}
