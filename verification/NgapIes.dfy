/** The information-element stage of the generated NGAP handlers, for any message definition. */
module NgapIes {
  import opened Options

  datatype Criticality = Reject | Ignore | Notify

  datatype Presence = Optional | Conditional | Mandatory

  datatype IeDef = IeDef(id: int, presence: Presence, criticality: Criticality)

  /** A message's elements in definition order. Requests are the initiating messages but for Error Indication. */
  datatype Definition = Definition(ies: seq<IeDef>, isRequest: bool)

  /** A received element; the value is absent when the decoder left its pointer nil. */
  datatype Ie<V> = Ie(id: int, criticality: Criticality, value: Option<V>)

  datatype ErrorType = NotUnderstood | Missing

  datatype Item = Item(criticality: Criticality, id: int, error: ErrorType)

  /** The handler's variables after the stage. */
  datatype Extracted<V> = Extracted(vars: map<int, V>, syntaxError: bool, diagnostics: seq<Item>, abort: bool)

  predicate Known(d: Definition, id: int) {
    exists k :: 0 <= k < |d.ies| && d.ies[k].id == id
  }

  predicate MustBeThere(e: IeDef) {
    e.presence == Mandatory && e.criticality == Reject
  }

  // ---------------------------------------------------------------- what the stage should find

  /** The element at `i` supplies a defined ID's value. */
  predicate Supplies<V(==)>(d: Definition, ies: seq<Ie<V>>, i: int) {
    0 <= i < |ies| && Known(d, ies[i].id) && ies[i].value.Some?
  }

  /** Among the first `n` elements, one comes again after its ID has been supplied. */
  predicate Duplicated<V(==)>(d: Definition, ies: seq<Ie<V>>, n: nat) {
    exists i, j :: 0 <= i < j < n <= |ies| && Supplies(d, ies, i) && ies[i].id == ies[j].id
  }

  /** One of the first `n` elements is not understood and must be. */
  predicate UnknownReject<V(==)>(d: Definition, ies: seq<Ie<V>>, n: nat) {
    exists i :: 0 <= i < n <= |ies| && !Known(d, ies[i].id) && ies[i].criticality == Reject
  }

  /** The first value supplied for an ID. */
  predicate FirstFor<V(==)>(d: Definition, ies: seq<Ie<V>>, n: nat, id: int, v: V) {
    exists i :: 0 <= i < n && Supplies(d, ies, i) && ies[i].id == id && ies[i].value == Some(v)
                && forall j :: 0 <= j < i ==> !(Supplies(d, ies, j) && ies[j].id == id)
  }

  /** Some element supplies the ID. */
  predicate Present<V(==)>(d: Definition, ies: seq<Ie<V>>, n: nat, id: int) {
    exists i :: 0 <= i < n && Supplies(d, ies, i) && ies[i].id == id
  }

  /** A request reports every element not understood unless it may be ignored; other messages only those to notify. */
  predicate Reported(d: Definition, c: Criticality) {
    c == Notify || (d.isRequest && c == Reject)
  }

  /** The reports on elements not understood, in message order. */
  function NotUnderstoodItems<V>(d: Definition, ies: seq<Ie<V>>, n: nat): (items: seq<Item>)
    requires n <= |ies|
  {
    if n == 0 then []
    else
      var front, e := NotUnderstoodItems(d, ies, n - 1), ies[n - 1];
      if !Known(d, e.id) && Reported(d, e.criticality) then front + [Item(e.criticality, e.id, NotUnderstood)]
      else front
  }

  /** The reports on missing elements, in definition order. */
  function MissingItems(d: Definition, there: set<int>, n: nat): (items: seq<Item>)
    requires n <= |d.ies|
  {
    if n == 0 then []
    else
      var front, e := MissingItems(d, there, n - 1), d.ies[n - 1];
      if MustBeThere(e) && e.id !in there then front + [Item(Reject, e.id, Missing)] else front
  }

  /** Every mandatory element of criticality reject is there, among the first `n` definitions. */
  predicate AllThere(d: Definition, there: set<int>, n: nat) {
    forall k :: 0 <= k < n <= |d.ies| && MustBeThere(d.ies[k]) ==> d.ies[k].id in there
  }

  // ---------------------------------------------------------------- the generated code

  /** The switch on a received element's ID: is there a case for it? */
  method HasCase(d: Definition, id: int) returns (b: bool)
    ensures b <==> Known(d, id)
  {
    b := false;
    for k := 0 to |d.ies|
      invariant b <==> exists j :: 0 <= j < k && d.ies[j].id == id
    {
      if d.ies[k].id == id {
        b := true;
      }
    }
  }

  /** What the loop over the received elements has established after `n` of them. */
  ghost predicate LoopState<V>(d: Definition, ies: seq<Ie<V>>, n: nat, x: Extracted<V>)
    requires n <= |ies|
  {
    && (forall id :: id in x.vars ==> FirstFor(d, ies, n, id, x.vars[id]))
    && (forall id :: Present(d, ies, n, id) ==> id in x.vars)
    && x.diagnostics == NotUnderstoodItems(d, ies, n)
    && (x.syntaxError <==> d.isRequest && Duplicated(d, ies, n))
    && (x.abort <==> Duplicated(d, ies, n) || (d.isRequest && UnknownReject(d, ies, n)))
  }

  // One more element.

  lemma DuplicatedNext<V>(d: Definition, ies: seq<Ie<V>>, n: nat)
    requires n < |ies|
    ensures Duplicated(d, ies, n + 1) <==>
            Duplicated(d, ies, n) || Present(d, ies, n, ies[n].id)
  {
    if Present(d, ies, n, ies[n].id) {
      var i :| 0 <= i < n && Supplies(d, ies, i) && ies[i].id == ies[n].id;
      assert Duplicated(d, ies, n + 1);
    }
    if Duplicated(d, ies, n) {
      var i, j :| 0 <= i < j < n <= |ies| && Supplies(d, ies, i) && ies[i].id == ies[j].id;
      assert Duplicated(d, ies, n + 1);
    }
  }

  lemma UnknownRejectNext<V>(d: Definition, ies: seq<Ie<V>>, n: nat)
    requires n < |ies|
    ensures UnknownReject(d, ies, n + 1) <==>
            UnknownReject(d, ies, n) || (!Known(d, ies[n].id) && ies[n].criticality == Reject)
  {
    if UnknownReject(d, ies, n) {
      var i :| 0 <= i < n <= |ies| && !Known(d, ies[i].id) && ies[i].criticality == Reject;
      assert UnknownReject(d, ies, n + 1);
    }
  }

  lemma FirstForNext<V>(d: Definition, ies: seq<Ie<V>>, n: nat, id: int, v: V)
    requires n < |ies|
    ensures FirstFor(d, ies, n, id, v) ==> FirstFor(d, ies, n + 1, id, v)
    ensures Supplies(d, ies, n) && ies[n].id == id && ies[n].value == Some(v) && !Present(d, ies, n, id)
            ==> FirstFor(d, ies, n + 1, id, v)
  {
  }

  lemma PresentNext<V>(d: Definition, ies: seq<Ie<V>>, n: nat, id: int)
    requires n < |ies|
    ensures Present(d, ies, n + 1, id) <==> Present(d, ies, n, id) || (Supplies(d, ies, n) && ies[n].id == id)
  {
  }

  lemma FirstIsPresent<V>(d: Definition, ies: seq<Ie<V>>, n: nat, id: int, v: V)
    requires FirstFor(d, ies, n, id, v)
    ensures Present(d, ies, n, id)
  {
  }

  /** The variables hold the first values: those from before, and a new one if it is the first of its ID. */
  lemma VarsNext<V>(d: Definition, ies: seq<Ie<V>>, n: nat, x: Extracted<V>, y: Extracted<V>)
    requires n < |ies| && LoopState(d, ies, n, x)
    requires var ie := ies[n];
             y.vars == if Known(d, ie.id) && ie.id !in x.vars && ie.value.Some? then x.vars[ie.id := ie.value.value]
                       else x.vars
    ensures Present(d, ies, n, ies[n].id) <==> Known(d, ies[n].id) && ies[n].id in x.vars
    ensures forall id :: id in y.vars ==> FirstFor(d, ies, n + 1, id, y.vars[id])
    ensures forall id :: Present(d, ies, n + 1, id) ==> id in y.vars
  {
    forall id | id in x.vars ensures Present(d, ies, n, id) {
      FirstIsPresent(d, ies, n, id, x.vars[id]);
    }
    forall id | id in y.vars ensures FirstFor(d, ies, n + 1, id, y.vars[id]) {
      FirstForNext(d, ies, n, id, y.vars[id]);
    }
    forall id | Present(d, ies, n + 1, id) ensures id in y.vars {
      PresentNext(d, ies, n, id);
    }
  }

  /** One turn of the loop: the case for a known element, or the default case. */
  method Take<V>(d: Definition, ies: seq<Ie<V>>, n: nat, x: Extracted<V>) returns (y: Extracted<V>)
    requires n < |ies| && LoopState(d, ies, n, x)
    ensures LoopState(d, ies, n + 1, y)
  {
    var ie := ies[n];
    y := x;
    var known := HasCase(d, ie.id);
    if known {
      if ie.id in x.vars {
        y := y.(abort := true, syntaxError := y.syntaxError || d.isRequest);
      } else if ie.value.Some? {
        y := y.(vars := y.vars[ie.id := ie.value.value]);
      }
    } else {
      if Reported(d, ie.criticality) {
        y := y.(diagnostics := y.diagnostics + [Item(ie.criticality, ie.id, NotUnderstood)]);
      }
      if d.isRequest && ie.criticality == Reject {
        y := y.(abort := true);
      }
    }
    DuplicatedNext(d, ies, n);
    UnknownRejectNext(d, ies, n);
    VarsNext(d, ies, n, x, y);
  }

  /** The loop over the received elements. */
  method Extract<V>(d: Definition, ies: seq<Ie<V>>) returns (x: Extracted<V>)
    ensures LoopState(d, ies, |ies|, x)
  {
    x := Extracted(map[], false, [], false);
    for n := 0 to |ies|
      invariant LoopState(d, ies, n, x)
    {
      x := Take(d, ies, n, x);
    }
  }

  /** A request's checks for missing elements, in definition order. */
  method ReportMissing<V>(d: Definition, x: Extracted<V>) returns (y: Extracted<V>)
    ensures y.vars == x.vars && y.syntaxError == x.syntaxError
    ensures y.diagnostics == x.diagnostics + MissingItems(d, x.vars.Keys, |d.ies|)
    ensures y.abort <==> x.abort || !AllThere(d, x.vars.Keys, |d.ies|)
  {
    y := x;
    for k := 0 to |d.ies|
      invariant y.vars == x.vars && y.syntaxError == x.syntaxError
      invariant y.diagnostics == x.diagnostics + MissingItems(d, x.vars.Keys, k)
      invariant y.abort <==> x.abort || !AllThere(d, x.vars.Keys, k)
    {
      var e := d.ies[k];
      if MustBeThere(e) && e.id !in y.vars {
        y := y.(diagnostics := y.diagnostics + [Item(Reject, e.id, Missing)], abort := true);
      }
    }
  }

  /** The nil checks that every handler makes last, returning at the first element that must be there and is not. */
  method CheckThere(d: Definition, there: set<int>) returns (ok: bool)
    ensures ok <==> AllThere(d, there, |d.ies|)
  {
    for k := 0 to |d.ies|
      invariant AllThere(d, there, k)
    {
      if MustBeThere(d.ies[k]) && d.ies[k].id !in there {
        return false;
      }
    }
    ok := true;
  }

  /**
   * The whole stage: it passes exactly when no element comes twice, every mandatory element of criticality reject is
   * there and, for a request, none of criticality reject is unknown; what it reports and extracts is given besides.
   */
  method Stage<V>(d: Definition, ies: seq<Ie<V>>) returns (x: Extracted<V>, reports: bool, passes: bool)
    ensures passes <==>
            && !Duplicated(d, ies, |ies|)
            && (forall e :: e in d.ies && e.presence == Mandatory && e.criticality == Reject ==>
                              Present(d, ies, |ies|, e.id))
            && (d.isRequest ==> !UnknownReject(d, ies, |ies|))
    ensures x.diagnostics == NotUnderstoodItems(d, ies, |ies|)
                             + if d.isRequest then MissingItems(d, x.vars.Keys, |d.ies|) else []
    ensures forall id :: Present(d, ies, |ies|, id) <==> id in x.vars
    ensures forall id :: id in x.vars ==> FirstFor(d, ies, |ies|, id, x.vars[id])
    ensures reports <==> (d.isRequest && Duplicated(d, ies, |ies|)) || x.diagnostics != []
  {
    x := Extract(d, ies);
    forall id | id in x.vars ensures Present(d, ies, |ies|, id) {
      FirstIsPresent(d, ies, |ies|, id, x.vars[id]);
    }
    if d.isRequest {
      x := ReportMissing(d, x);
    }
    reports := x.syntaxError || x.diagnostics != [];
    if x.abort {
      passes := false;
    } else {
      passes := CheckThere(d, x.vars.Keys);
    }
    assert AllThere(d, x.vars.Keys, |d.ies|) <==>
           forall e :: e in d.ies && MustBeThere(e) ==> Present(d, ies, |ies|, e.id);
  }

  // ---------------------------------------------------------------- the reports are exact and in order

  predicate Ascending(at: seq<nat>) {
    forall i, j :: 0 <= i < j < |at| ==> at[i] < at[j]
  }

  /** Each report stands for one element to be reported, each such element has one, and they keep message order. */
  lemma {:induction false} ReportsAreExact<V>(d: Definition, ies: seq<Ie<V>>, n: nat) returns (at: seq<nat>)
    requires n <= |ies|
    ensures |at| == |NotUnderstoodItems(d, ies, n)| && Ascending(at)
    ensures forall j :: 0 <= j < |at| ==> at[j] < n
    ensures forall j :: 0 <= j < |at| ==>
              NotUnderstoodItems(d, ies, n)[j] == Item(ies[at[j]].criticality, ies[at[j]].id, NotUnderstood)
    ensures forall i :: 0 <= i < n ==> 
              (i in at <==> (forall k :: 0 <= k < |d.ies| ==> d.ies[k].id != ies[i].id)
                            && (ies[i].criticality == Notify || (d.isRequest && ies[i].criticality == Reject)))
  {
    if n == 0 {
      at := [];
    } else {
      at := ReportsAreExact(d, ies, n - 1);
      if !Known(d, ies[n - 1].id) && Reported(d, ies[n - 1].criticality) {
        at := at + [n - 1];
      }
    }
  }

  /** Likewise for missing elements, in definition order. */
  lemma {:induction false} MissingReportsAreExact(d: Definition, there: set<int>, n: nat) returns (at: seq<nat>)
    requires n <= |d.ies|
    ensures |at| == |MissingItems(d, there, n)| && Ascending(at)
    ensures forall j :: 0 <= j < |at| ==> at[j] < n
    ensures forall j :: 0 <= j < |at| ==> MissingItems(d, there, n)[j] == Item(Reject, d.ies[at[j]].id, Missing)
    ensures forall i :: 0 <= i < n ==> 
              (i in at <==> d.ies[i].presence == Mandatory && d.ies[i].criticality == Reject && d.ies[i].id !in there)
  {
    if n == 0 {
      at := [];
    } else {
      at := MissingReportsAreExact(d, there, n - 1);
      if MustBeThere(d.ies[n - 1]) && d.ies[n - 1].id !in there {
        at := at + [n - 1];
      }
    }
  }
}
