/**
 A run among other writers: their lawful events may come between any two of its items, provided none ends or renews a
 lease on what it writes, or names one of its operations. Every append of the run is still accepted, cut off anywhere
 its driver calls are still recoverable from the log, and a complete run leaves what it would have left alone.
 */
module ContentionTheorems {
  import opened Prelude
  import opened Ledger
  import opened LedgerTheorems
  import opened Plan
  import opened Executor
  import opened ExecutorTheorems
  import opened ReplaceTheorems
  import opened Protocol
  import opened CrashTheorems
  import opened RunTheorems
  import opened BindingTheorems

  datatype Entry = Ours(item: Item) | Theirs(ev: Event)

  /** The log after some entries: the run's appends stamped where they fall, the others' events as they are. */
  ghost function Weave(site: Site, log: seq<Event>, entries: seq<Entry>): seq<Event> {
    if entries == [] then log
    else Woven(site, Weave(site, log, entries[..|entries| - 1]), entries[|entries| - 1])
  }

  ghost function Woven(site: Site, past: seq<Event>, e: Entry): seq<Event> {
    match e
    case Ours(item) => if Appends(item) then past + [Stamp(site, past, RequestOf(site, item))] else past
    case Theirs(ev) => past + [ev]
  }

  /** The run's own items among the entries. */
  function OursOf(entries: seq<Entry>): seq<Item> {
    if entries == [] then []
    else
      var last := entries[|entries| - 1];
      OursOf(entries[..|entries| - 1]) + if last.Ours? then [last.item] else []
  }

  // ---- what other writers may do ---------------------------------------------

  predicate NamesOp(req: Request, op: string) {
    req.typ.OperationReceipt?
      && (ReceiptOf(req.body) == Some(Opens(op)) || ReceiptOf(req.body) == Some(Receipt.Concludes(op)))
  }

  /** The event leaves the lease on `c` and the operations `ops` of it alone. */
  predicate Spares(ev: Event, c: string, ops: set<string>) {
    ev.Lists(c) ==>
      && !ev.Typ().LeaseReleased? && !ev.Typ().LeaseRenewed? && !ev.Typ().LeaseBroken?
      && forall op :: op in ops ==> !NamesOp(ev.req, op)
  }

  /** The operation ids a run uses on a capability. */
  function OpsOn(cx: Context, c: string): set<string> {
    set a | a in cx.actions && a.capability == c :: OpId(a)
  }

  /** An event the rules accept, in time, that spares what the run writes. */
  ghost predicate Polite(site: Site, cx: Context, past: seq<Event>, ev: Event) {
    && Legal(Fold(past), ev) && ev.time <= site.clock && (past != [] ==> past[|past| - 1].time <= ev.time)
    && forall c :: c in site.writes ==> Spares(ev, c, OpsOn(cx, c))
  }

  ghost predicate PoliteAt(site: Site, cx: Context, log: seq<Event>, entries: seq<Entry>, k: int)
    requires 0 <= k < |entries|
  {
    entries[k].Theirs? ==> Polite(site, cx, Weave(site, log, entries[..k]), entries[k].ev)
  }

  ghost predicate AllPolite(site: Site, cx: Context, log: seq<Event>, entries: seq<Entry>) {
    forall k :: 0 <= k < |entries| ==> PoliteAt(site, cx, log, entries, k)
  }

  lemma PolitePrefix(site: Site, cx: Context, log: seq<Event>, entries: seq<Entry>, n: nat)
    requires AllPolite(site, cx, log, entries) && n <= |entries|
    ensures AllPolite(site, cx, log, entries[..n])
  {
    forall k | 0 <= k < n
      ensures PoliteAt(site, cx, log, entries[..n], k)
    {
      assert PoliteAt(site, cx, log, entries, k);
      assert entries[..n][..k] == entries[..k];
    }
  }

  // ---- the lease survives ----------------------------------------------------

  lemma {:induction false} ActiveIsHeld(leases: map<string, Lease>, clock: int, caps: seq<string>, c: string)
    requires c in caps && Active(Lookup(leases, c), clock)
    ensures FirstHeld(leases, clock, caps).Some?
  {
    if c != caps[0] { ActiveIsHeld(leases, clock, caps[1..], c); }
  }

  lemma SparedLease(site: Site, t: Table, ev: Event, c: string, q: nat, ops: set<string>)
    requires Legal(t, ev) && ev.time <= site.clock && Spares(ev, c, ops)
    requires Holds(t.leases, c, Some(site.token), site.clock) && t.leases[c].seq_ == q
    ensures Lookup(Commit(t, ev).leases, c) == Lookup(t.leases, c)
  {
    hide Commit, HashOf, ReceiptOf;
    CommitLookups(t, ev, c);
    if ev.Lists(c) && ev.Typ().LeaseAcquired? {
      ActiveIsHeld(t.leases, ev.time, ev.req.caps, c);
      assert false;
    }
  }

  lemma TheirsKeepsRun(site: Site, cx: Context, past: seq<Event>, ev: Event, q: nat)
    requires MidRun(site, past, q) && Polite(site, cx, past, ev)
    ensures MidRun(site, past + [ev], q)
  {
    hide Commit, Legal, Lawful, LegalAt, Fold, OpsOn, Spares;
    LogGrows(past, ev);
    forall c | c in site.writes
      ensures Holds(Commit(Fold(past), ev).leases, c, Some(site.token), site.clock)
      ensures Commit(Fold(past), ev).leases[c].seq_ == q
    {
      SparedLease(site, Fold(past), ev, c, q, OpsOn(cx, c));
    }
  }

  /** After the lease and while the run has only inner items: a lawful log with the lease still held. */
  lemma {:induction false} WeaveIsHeld(site: Site, cx: Context, log: seq<Event>, entries: seq<Entry>)
    requires Uncontended(site, log) && entries != [] && entries[0] == Ours(LeaseTaken)
    requires AllPolite(site, cx, log, entries)
    requires forall k :: 0 < k < |entries| && entries[k].Ours? ==> Inner(site, entries[k].item)
    ensures MidRun(site, Weave(site, log, entries), Fold(log).leaseSeq + 1)
    decreases |entries|
  {
    hide Inner, Polite, MidRun, Fold, Stamp;
    var n := |entries| - 1;
    if n == 0 {
      assert entries[..0] == [] && Weave(site, log, entries) == Woven(site, log, Ours(LeaseTaken));
      TakenIsHeld(site, log);
    } else {
      PolitePrefix(site, cx, log, entries, n);
      WeaveIsHeld(site, cx, log, entries[..n]);
      var past, e := Weave(site, log, entries[..n]), entries[n];
      assert PoliteAt(site, cx, log, entries, n);
      if e.Theirs? {
        TheirsKeepsRun(site, cx, past, e.ev, Fold(log).leaseSeq + 1);
      } else if Appends(e.item) {
        TokenIsPositive(Fold(log).maxToken, site.writes);
        MidRunStep(site, past, e.item, Fold(log).leaseSeq + 1);
      }
    }
  }

  lemma TakenIsHeld(site: Site, log: seq<Event>)
    requires Uncontended(site, log)
    ensures MidRun(site, log + [Stamp(site, log, RequestOf(site, LeaseTaken))], Fold(log).leaseSeq + 1)
  {
    hide Commit, Lawful, Fold, HashOf, Legal, RequestOf;
    LeaseIsTaken(site, log);
    LogGrows(log, Stamp(site, log, RequestOf(site, LeaseTaken)));
  }

  // ---- items and entries -----------------------------------------------------

  lemma {:induction false} OursGrow(entries: seq<Entry>, m: nat, n: nat)
    requires m <= n <= |entries|
    ensures OursOf(entries[..m]) <= OursOf(entries[..n])
    decreases n
  {
    if m < n {
      OursGrow(entries, m, n - 1);
      assert entries[..n][..n - 1] == entries[..n - 1];
    }
  }

  /** An entry of the run is the item its position among the run's items says. */
  lemma OursAt(entries: seq<Entry>, k: nat)
    requires k < |entries| && entries[k].Ours?
    ensures var i := |OursOf(entries[..k])|; i < |OursOf(entries)| && OursOf(entries)[i] == entries[k].item
    ensures |OursOf(entries[..k + 1])| == |OursOf(entries[..k])| + 1
  {
    assert entries[..k + 1][..k] == entries[..k];
    OursGrow(entries, k + 1, |entries|);
    assert entries[..|entries|] == entries;
  }

  lemma {:induction false} EntryOf(entries: seq<Entry>, i: nat) returns (k: nat)
    requires i < |OursOf(entries)|
    ensures k < |entries| && entries[k].Ours? && entries[k].item == OursOf(entries)[i]
    ensures |OursOf(entries[..k])| == i
    decreases |entries|
  {
    var n := |entries| - 1;
    if i < |OursOf(entries[..n])| {
      k := EntryOf(entries[..n], i);
      assert entries[..n][..k] == entries[..k];
    } else {
      k := n;
    }
  }

  // ---- every append is accepted ----------------------------------------------

  lemma {:induction false} TheirsStayLawful(site: Site, cx: Context, log: seq<Event>, entries: seq<Entry>, m: nat)
    requires AllPolite(site, cx, log, entries) && m <= |entries|
    requires Lawful(Weave(site, log, entries[..m]))
    requires forall k :: m <= k < |entries| ==> entries[k].Theirs?
    ensures Lawful(Weave(site, log, entries))
    decreases |entries|
  {
    hide Commit, Legal, Lawful, LegalAt, Fold;
    if m == |entries| {
      assert entries[..m] == entries;
    } else {
      var n := |entries| - 1;
      PolitePrefix(site, cx, log, entries, n);
      assert entries[..n][..m] == entries[..m];
      TheirsStayLawful(site, cx, log, entries[..n], m);
      assert PoliteAt(site, cx, log, entries, n);
      LogGrows(Weave(site, log, entries[..n]), entries[n].ev);
    }
  }

  /** The run's part of the entries is a prefix of its items, and it starts when the lease is taken. */
  ghost predicate CutOff(entries: seq<Entry>, trace: seq<Item>) {
    OursOf(entries) <= trace && entries != [] && entries[0] == Ours(LeaseTaken)
  }

  lemma InnerEntries(site: Site, cx: Context, bindings: map<string, Binding>, todo: seq<Action>, entries: seq<Entry>,
                     m: nat)
    requires FitsPlan(site, cx, bindings, todo) && CutOff(entries, WholeRun(cx, bindings, todo).trace) && m <= |entries|
    requires |OursOf(entries[..m])| < |WholeRun(cx, bindings, todo).trace|
    ensures forall k :: 0 < k < m && entries[k].Ours? ==> Inner(site, entries[k].item)
  {
    var trace := WholeRun(cx, bindings, todo).trace;
    hide *;
    WholeRunShape(site, cx, bindings, todo);
    forall k | 0 < k < m && entries[k].Ours?
      ensures Inner(site, entries[k].item)
    {
      PlaceInside(entries, trace, m, k);
      InsideIsInner(site, trace, |OursOf(entries[..k])|);
    }
  }

  /** An entry of the run after the first and before the last item of a trace is that item. */
  lemma PlaceInside(entries: seq<Entry>, trace: seq<Item>, m: nat, k: nat)
    requires CutOff(entries, trace) && 0 < k < m <= |entries| && entries[k].Ours?
    requires |OursOf(entries[..m])| < |trace|
    ensures var i := |OursOf(entries[..k])|; 1 <= i < |trace| - 1 && trace[i] == entries[k].item
  {
    hide OursOf;
    OursAt(entries, k);
    OursAt(entries, 0);
    OursGrow(entries, 1, k);
    OursGrow(entries, k + 1, m);
  }

  lemma InsideIsInner(site: Site, trace: seq<Item>, i: nat)
    requires |trace| >= 2 && 1 <= i < |trace| - 1 && forall x :: x in InnerItems(trace) ==> Inner(site, x)
    ensures Inner(site, trace[i])
  {
    hide Inner;
    assert trace[i] == InnerItems(trace)[i - 1];
  }

  /** Every append of the run is accepted whatever polite writers put between its items, wherever it is cut off. */
  lemma ContendedRunIsAccepted(site: Site, log: seq<Event>, cx: Context, bindings: map<string, Binding>,
                               todo: seq<Action>, entries: seq<Entry>)
    requires Uncontended(site, log) && FitsPlan(site, cx, bindings, todo) && AllPolite(site, cx, log, entries)
    requires CutOff(entries, WholeRun(cx, bindings, todo).trace)
    ensures Lawful(Weave(site, log, entries))
  {
    var trace := WholeRun(cx, bindings, todo).trace;
    hide *;
    if |OursOf(entries)| < |trace| {
      NotReleased(site, log, cx, bindings, todo, entries);
    } else {
      var m := LastIsRelease(site, cx, bindings, todo, entries);
      ReleaseIsAccepted(site, log, cx, bindings, todo, entries, m);
      TheirsStayLawful(site, cx, log, entries, m + 1);
    }
  }

  lemma NotReleased(site: Site, log: seq<Event>, cx: Context, bindings: map<string, Binding>, todo: seq<Action>,
                    entries: seq<Entry>)
    requires Uncontended(site, log) && FitsPlan(site, cx, bindings, todo) && AllPolite(site, cx, log, entries)
    requires CutOff(entries, WholeRun(cx, bindings, todo).trace)
    requires |OursOf(entries)| < |WholeRun(cx, bindings, todo).trace|
    ensures Lawful(Weave(site, log, entries))
  {
    hide WholeRun, FitsPlan, Inner, Uncontended, AllPolite, Weave, OursOf, Lawful;
    assert entries[..|entries|] == entries;
    InnerEntries(site, cx, bindings, todo, entries, |entries|);
    WeaveIsHeld(site, cx, log, entries);
  }

  /** Where the run is complete, its last entry is the release, and only others come after it. */
  lemma LastIsRelease(site: Site, cx: Context, bindings: map<string, Binding>, todo: seq<Action>, entries: seq<Entry>)
    returns (m: nat)
    requires FitsPlan(site, cx, bindings, todo) && CutOff(entries, WholeRun(cx, bindings, todo).trace)
    requires |OursOf(entries)| >= |WholeRun(cx, bindings, todo).trace|
    ensures 0 < m < |entries| && entries[m] == Ours(LeaseFreed)
    ensures |OursOf(entries[..m])| < |WholeRun(cx, bindings, todo).trace|
    ensures forall k :: m + 1 <= k < |entries| ==> entries[k].Theirs?
  {
    hide WholeRun, FitsPlan, Inner, OursOf;
    var trace := WholeRun(cx, bindings, todo).trace;
    WholeRunShape(site, cx, bindings, todo);
    assert OursOf(entries) == trace;
    m := EntryOf(entries, |trace| - 1);
    assert trace[|trace| - 1] == LeaseFreed;
    forall k | m + 1 <= k < |entries|
      ensures entries[k].Theirs?
    {
      if entries[k].Ours? {
        OursAt(entries, m);
        OursAt(entries, k);
        OursGrow(entries, m + 1, k);
      }
    }
  }

  lemma ReleaseIsAccepted(site: Site, log: seq<Event>, cx: Context, bindings: map<string, Binding>, todo: seq<Action>,
                          entries: seq<Entry>, m: nat)
    requires Uncontended(site, log) && FitsPlan(site, cx, bindings, todo) && AllPolite(site, cx, log, entries)
    requires CutOff(entries, WholeRun(cx, bindings, todo).trace) && 0 < m < |entries| && entries[m] == Ours(LeaseFreed)
    requires |OursOf(entries[..m])| < |WholeRun(cx, bindings, todo).trace|
    ensures Lawful(Weave(site, log, entries[..m + 1]))
  {
    hide WholeRun, FitsPlan, Inner, AllPolite, Lawful, Fold, MidRun, Stamp;
    var held := entries[..m];
    InnerEntries(site, cx, bindings, todo, entries, m);
    PolitePrefix(site, cx, log, entries, m);
    WeaveIsHeld(site, cx, log, held);
    TokenIsPositive(Fold(log).maxToken, site.writes);
    LeaseIsReleased(site, Weave(site, log, held), Fold(log).leaseSeq + 1);
    assert entries[..m + 1][..m] == held && entries[..m + 1][m] == Ours(LeaseFreed);
  }

  // ---- what is pending -------------------------------------------------------

  lemma SparedOperation(t: Table, ev: Event, c: string, ops: set<string>, op: string)
    requires Spares(ev, c, ops) && op in ops
    ensures op in PendingOn(Commit(t, ev).pending, c) <==> op in PendingOn(t.pending, c)
  {
    hide Commit, HashOf;
    CommitLookups(t, ev, c);
  }

  lemma OwnPending(was: set<string>, was': set<string>, item: Item, cap: string, op: string)
    requires op in was <==> op in was'
    ensures op in PendingItem(was, item, cap) <==> op in PendingItem(was', item, cap)
  {
  }

  /** Whether one of the run's operations is pending is decided by the run's own receipts. */
  lemma {:induction false} WeavePending(site: Site, log: seq<Event>, cx: Context, entries: seq<Entry>, cap: string,
                                        op: string)
    requires AllPolite(site, cx, log, entries) && cap in site.writes && op in OpsOn(cx, cap)
    requires forall x :: x in OursOf(entries) ==> GoodReceipt(x)
    requires op !in PendingOn(Fold(log).pending, cap)
    ensures op in PendingOn(Fold(Weave(site, log, entries)).pending, cap) <==>
      op in PendingItems({}, OursOf(entries), cap)
    decreases |entries|
  {
    hide Commit, Stamp, RequestOf, OpsOn, Spares, Legal;
    if entries != [] {
      var n := |entries| - 1;
      var past, e := Weave(site, log, entries[..n]), entries[n];
      PolitePrefix(site, cx, log, entries, n);
      assert forall x :: x in OursOf(entries[..n]) ==> x in OursOf(entries);
      WeavePending(site, log, cx, entries[..n], cap, op);
      if e.Theirs? {
        assert PoliteAt(site, cx, log, entries, n) && OursOf(entries) == OursOf(entries[..n]);
        FoldOne(past, e.ev);
        SparedOperation(Fold(past), e.ev, cap, OpsOn(cx, cap), op);
      } else {
        OursPends(site, past, OursOf(entries[..n]), e.item, cap, op);
      }
    }
  }

  lemma OursPends(site: Site, past: seq<Event>, items: seq<Item>, item: Item, cap: string, op: string)
    requires op in PendingOn(Fold(past).pending, cap) <==> op in PendingItems({}, items, cap)
    requires GoodReceipt(item)
    ensures op in PendingOn(Fold(Woven(site, past, Ours(item))).pending, cap) <==>
      op in PendingItems({}, items + [item], cap)
  {
    hide Commit, Stamp, RequestOf, Fold, PendingItem, PendingItems;
    PendingOne({}, items, item, cap);
    OwnPending(PendingOn(Fold(past).pending, cap), PendingItems({}, items, cap), item, cap, op);
    if Appends(item) {
      FoldOne(past, Stamp(site, past, RequestOf(site, item)));
      PendingOfCommit(site, past, item, cap);
    } else {
      CallPendsNothing(PendingOn(Fold(past).pending, cap), item, cap);
    }
  }

  lemma CallPendsNothing(was: set<string>, item: Item, cap: string)
    requires !Appends(item)
    ensures PendingItem(was, item, cap) == was
  {
  }

  // ---- crash consistency -----------------------------------------------------

  lemma {:induction false} WeaveGrows(site: Site, log: seq<Event>, entries: seq<Entry>, m: nat, n: nat)
    requires m <= n <= |entries|
    ensures Weave(site, log, entries[..m]) <= Weave(site, log, entries[..n])
    decreases n
  {
    hide Stamp, RequestOf;
    if m < n {
      WeaveGrows(site, log, entries, m, n - 1);
      assert entries[..n][..n - 1] == entries[..n - 1];
    }
  }

  /** Where the run's append at entry `k` is in the log. */
  ghost predicate LandsAt(site: Site, log: seq<Event>, entries: seq<Entry>, k: int, j: int) {
    && 0 <= k < |entries| && entries[k].Ours? && Appends(entries[k].item)
    && j == |Weave(site, log, entries[..k])| && |log| <= j < |Weave(site, log, entries)|
    && Weave(site, log, entries)[j].req == RequestOf(site, entries[k].item)
  }

  lemma EntryLands(site: Site, log: seq<Event>, entries: seq<Entry>, k: nat)
    requires k < |entries| && entries[k].Ours? && Appends(entries[k].item)
    ensures LandsAt(site, log, entries, k, |Weave(site, log, entries[..k])|)
  {
    hide RequestOf, PrevHeads, Fold;
    assert entries[..k + 1][..k] == entries[..k] && entries[..|entries|] == entries && entries[..0] == [];
    WeaveGrows(site, log, entries, 0, k);
    WeaveGrows(site, log, entries, k + 1, |entries|);
  }

  /** The action's own success is in the log: its pending receipt, and after it, with nothing of the run but the call in
      between, the event of an item that records it. */
  ghost predicate OwnInLog(site: Site, log: seq<Event>, entries: seq<Entry>, a: Action, p: int, k: int) {
    && 0 <= p < k < |entries|
    && entries[p] == Ours(Intent(a.capability, OpId(a))) && entries[k].Ours? && Records(entries[k].item, a)
    && (forall m :: p < m < k && entries[m].Ours? ==> entries[m].item == Called(a.id))
    && LandsAt(site, log, entries, p, |Weave(site, log, entries[..p])|)
    && LandsAt(site, log, entries, k, |Weave(site, log, entries[..k])|)
    && |Weave(site, log, entries[..p])| < |Weave(site, log, entries[..k])|
  }

  ghost predicate SomewhereInLog(site: Site, log: seq<Event>, entries: seq<Entry>, a: Action) {
    exists p, k :: OwnInLog(site, log, entries, a, p, k)
  }

  ghost predicate SomewhereBound(site: Site, log: seq<Event>, entries: seq<Entry>, a: Action, id: string) {
    exists p, k :: OwnInLog(site, log, entries, a, p, k) && Creates(entries[k].item, a, id)
  }

  lemma DurableIsInLog(site: Site, log: seq<Event>, entries: seq<Entry>, a: Action, i: int) returns (p: nat, k: nat)
    requires DurableAt(OursOf(entries), a, i)
    ensures OwnInLog(site, log, entries, a, p, k) && entries[k].item == OursOf(entries)[i]
  {
    hide Weave, RequestOf, OpId;
    var items := OursOf(entries);
    p := EntryOf(entries, i - 2);
    k := EntryOf(entries, i);
    OursAt(entries, p);
    if k <= p { OursGrow(entries, k, p); }
    forall m | p < m < k && entries[m].Ours?
      ensures entries[m].item == Called(a.id)
    {
      OursAt(entries, m);
      OursGrow(entries, p + 1, m);
      OursGrow(entries, m + 1, k);
    }
    hide OursOf;
    EntryLands(site, log, entries, p);
    EntryLands(site, log, entries, k);
    LandsInOrder(site, log, entries, p, k);
  }

  lemma LandsInOrder(site: Site, log: seq<Event>, entries: seq<Entry>, p: nat, k: nat)
    requires p < k < |entries| && entries[p].Ours? && Appends(entries[p].item)
    ensures |Weave(site, log, entries[..p])| < |Weave(site, log, entries[..k])|
  {
    hide Stamp, RequestOf;
    assert entries[..p + 1][..p] == entries[..p];
    WeaveGrows(site, log, entries, p + 1, k);
  }

  /**
   Cut the run off anywhere among other writers. The log is lawful; an action whose driver call was made is pending in
   the ledger, or its own success is in the log after its own receipt, or the call is known to have failed or been
   throttled; and a resource that was created is pending or bound, never neither.
   */
  lemma ContendedCrashConsistency(site: Site, log: seq<Event>, cx: Context, bindings: map<string, Binding>,
                                  todo: seq<Action>, entries: seq<Entry>, a: Action)
    requires Uncontended(site, log) && FitsPlan(site, cx, bindings, todo) && AllPolite(site, cx, log, entries)
    requires ValidActions(cx.actions) && Scheduled(cx.actions, todo) && DistinctKeys(cx.actions) && a in cx.actions
    requires CutOff(entries, WholeRun(cx, bindings, todo).trace)
    requires OpId(a) !in PendingOn(Fold(log).pending, a.capability)
    requires Called(a.id) in OursOf(entries)
    ensures var left := Weave(site, log, entries);
      var pending := OpId(a) in PendingOn(Fold(left).pending, a.capability);
      && Lawful(left) && log <= left
      && (pending || SomewhereInLog(site, log, entries, a)
          || FateClass(cx, a) == Failed || FateClass(cx, a) == Throttled)
      && (a.operation.Create? && FateClass(cx, a) == Succeeded ==>
            cx.fate(a.id).Responds?
            && (pending || SomewhereBound(site, log, entries, a, Answer(cx, a).providerId)))
  {
    assert a in todo && a.capability in site.writes && OpId(a) in OpsOn(cx, a.capability);
    assert entries[..0] == [] && entries[..|entries|] == entries && Weave(site, log, []) == log;
    var trace, n := WholeRun(cx, bindings, todo).trace, |OursOf(entries)|;
    assert OursOf(entries) == trace[..n];
    assert forall x :: x in trace[..n] ==> x in trace;
    hide *;
    ContendedRunIsAccepted(site, log, cx, bindings, todo, entries);
    WeaveGrows(site, log, entries, 0, |entries|);
    ItemsAreGood(site, cx, bindings, todo);
    WeavePending(site, log, cx, entries, a.capability, OpId(a));
    EveryPrefixIsRecoverable(cx, bindings, todo, n, a);
    RecoverableAmongOthers(site, log, cx, entries, a);
  }

  lemma RecoverableAmongOthers(site: Site, log: seq<Event>, cx: Context, entries: seq<Entry>, a: Action)
    requires Called(a.id) in OursOf(entries)
    requires Recoverable(cx, OursOf(entries), a) && NeverOrphaned(cx, OursOf(entries), a)
    ensures var pending := OpId(a) in PendingItems({}, OursOf(entries), a.capability);
      && (pending || SomewhereInLog(site, log, entries, a)
          || FateClass(cx, a) == Failed || FateClass(cx, a) == Throttled)
      && (a.operation.Create? && FateClass(cx, a) == Succeeded ==>
            cx.fate(a.id).Responds?
            && (pending || SomewhereBound(site, log, entries, a, Answer(cx, a).providerId)))
  {
    hide OursOf, PendingItems, Creates, Records, OwnInLog, Effective;
    var items := OursOf(entries);
    if i :| DurableAt(items, a, i) {
      var p, k := DurableIsInLog(site, log, entries, a, i);
    }
    if a.operation.Create? && FateClass(cx, a) == Succeeded && OpId(a) !in PendingItems({}, items, a.capability) {
      var i :| DurableAt(items, a, i) && Creates(items[i], a, Answer(cx, a).providerId);
      var p, k := DurableIsInLog(site, log, entries, a, i);
    }
  }

  // ---- a complete run --------------------------------------------------------

  /** Of the run's own operations, exactly those whose outcome is unknown are pending after it, whatever polite writers
      did in between. */
  lemma ContendedRunEndsPendingUnknown(site: Site, log: seq<Event>, cx: Context, bindings: map<string, Binding>,
                                       todo: seq<Action>, entries: seq<Entry>, cap: string, op: string)
    requires FitsPlan(site, cx, bindings, todo) && AllPolite(site, cx, log, entries)
    requires ValidActions(cx.actions) && Scheduled(cx.actions, todo) && DistinctKeys(cx.actions)
    requires OursOf(entries) == WholeRun(cx, bindings, todo).trace
    requires cap in site.writes && op in OpsOn(cx, cap) && op !in PendingOn(Fold(log).pending, cap)
    ensures op in PendingOn(Fold(Weave(site, log, entries)).pending, cap) <==>
      exists a :: a in cx.actions && a.capability == cap && OpId(a) == op && Expected(cx, a) == Unknown
  {
    hide Fold, Weave, WholeRun, Expected, PendingItems, AllPolite, OpsOn, GoodReceipt, OpId;
    ItemsAreGood(site, cx, bindings, todo);
    WeavePending(site, log, cx, entries, cap, op);
    CompleteRunPending(cx, bindings, todo, cap, op);
  }

  /** The other writers append no binding.updated on the capability. */
  predicate LeavesBinding(entries: seq<Entry>, cap: string) {
    forall k :: 0 <= k < |entries| && entries[k].Theirs? ==> !On(Rebinding, entries[k].ev, cap)
  }

  lemma {:induction false} WeaveBinds(site: Site, log: seq<Event>, entries: seq<Entry>, cap: string, was: Binding)
    requires LeavesBinding(entries, cap)
    ensures Carries(site, log, Weave(site, log, entries), OursOf(entries), cap, was)
    decreases |entries|
  {
    hide Stamp, RequestOf, On, Carries;
    if entries == [] {
      NothingCarried(site, log, cap, was);
    } else {
      var n := |entries| - 1;
      var past, e := Weave(site, log, entries[..n]), entries[n];
      WeaveBinds(site, log, entries[..n], cap, was);
      WeaveGrows(site, log, entries, 0, n);
      assert entries[..0] == [];
      if e.Theirs? {
        assert OursOf(entries) == OursOf(entries[..n]);
        ForeignCarries(site, log, past, e.ev, OursOf(entries[..n]), cap, was);
      } else {
        AppendCarries(site, log, past, e.item, OursOf(entries[..n]), cap, was);
      }
    }
  }

  lemma ForeignCarries(site: Site, log: seq<Event>, past: seq<Event>, ev: Event, items: seq<Item>, cap: string,
                       was: Binding)
    requires !On(Rebinding, ev, cap) && |log| <= |past| && Carries(site, log, past, items, cap, was)
    ensures Carries(site, log, Woven(site, past, Theirs(ev)), items, cap, was)
  {
    hide BindingBody, LastBound;
    assert (past + [ev])[..|past|] == past;
  }

  /** After a whole run the newest binding.updated on a capability others did not rebind carries the binding the run
      ends with, or neither has changed. */
  lemma ContendedLogCarriesBindings(site: Site, log: seq<Event>, cx: Context, bindings: map<string, Binding>,
                                    todo: seq<Action>, entries: seq<Entry>, cap: string)
    requires OursOf(entries) == WholeRun(cx, bindings, todo).trace && LeavesBinding(entries, cap)
    ensures var r := WholeRun(cx, bindings, todo);
      var left := Weave(site, log, entries);
      if exists x :: x in r.trace && Rebinds(x, cap)
      then NewlyBound(site, log, left, cap, BindingOf(r.bindings, cap))
      else StillBound(log, left, cap) && BindingOf(r.bindings, cap) == BindingOf(bindings, cap)
  {
    hide WholeRun, OursOf, Weave, NewlyBound, StillBound, BindingOf, LeavesBinding, LastBound;
    var r := WholeRun(cx, bindings, todo);
    WholeRunBinds(cx, bindings, todo, cap);
    WeaveBinds(site, log, entries, cap, BindingOf(bindings, cap));
    if !exists x :: x in r.trace && Rebinds(x, cap) { NothingBound(r.trace, cap, BindingOf(bindings, cap)); }
  }

  /** So a replacement that succeeded with agreeing pins is bound to its create's id in the ledger, others or not. */
  lemma ContendedReplacementInLog(site: Site, log: seq<Event>, cx: Context, bindings: map<string, Binding>,
                                  todo: seq<Action>, entries: seq<Entry>, c: Action)
    requires ValidActions(cx.actions) && Scheduled(cx.actions, todo) && Replaces(cx.actions, c) && AllSucceed(cx, c)
    requires PinsAgree(cx.actions, c) && cx.fate(c.id).Responds? && Answer(cx, c).providerId != ""
    requires OursOf(entries) == WholeRun(cx, bindings, todo).trace && LeavesBinding(entries, c.capability)
    ensures var b := BindingOf(WholeRun(cx, bindings, todo).bindings, c.capability);
      && NewlyBound(site, log, Weave(site, log, entries), c.capability, b)
      && |b.resources| == 1 && b.resources[0].providerId == Answer(cx, c).providerId
      && forall x :: Beside(cx.actions, c, x) ==> HasTombstone(b, x.targetId)
  {
    ReplacementEndsBound(cx, bindings, todo, c);
    CreateRebinds(cx, bindings, todo, c);
    hide WholeRun, OursOf, Weave, NewlyBound, StillBound, BindingOf, HasTombstone, Effective, LeavesBinding;
    ContendedLogCarriesBindings(site, log, cx, bindings, todo, entries, c.capability);
  }
}
