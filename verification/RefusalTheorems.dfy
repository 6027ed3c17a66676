/**
 When a call of the executor reaches the driver at all, and which refusal it gets otherwise: nothing pending on what it
 writes, no running lease, and every pin the current decision head, before and under the lease. So an unknown outcome
 has to be reconciled before any later call writes the capability again.
 */
module RefusalTheorems {
  import opened Ledger
  import opened LedgerTheorems
  import opened LeaseTheorems
  import opened RuleTheorems
  import opened Plan
  import opened Executor
  import opened ExecutorTheorems
  import opened Protocol
  import opened RunTheorems
  import opened ApplyGate

  ghost predicate NothingPending(log: seq<Event>, writes: seq<string>) {
    forall c, op :: c in writes ==> !PendingInLog(log, c, op)
  }

  ghost predicate NothingLeased(log: seq<Event>, writes: seq<string>, clock: int) {
    forall c, k :: c in writes && 0 <= k < |log| ==> !CoversOne(log, k, c, clock)
  }

  /** Every pinned head is the hash of the newest decision on its capability, or genesis. */
  ghost predicate PinsCurrent(log: seq<Event>, pins: map<string, string>) {
    forall c :: c in pins ==> pins[c] == HeadAt(Deciding, log, c)
  }

  lemma PendingScan(log: seq<Event>, writes: seq<string>)
    ensures FirstPending(Fold(log).pending, writes).None? <==> NothingPending(log, writes)
  {
    hide Fold, PendingInLog;
    ScanPending(Fold(log).pending, writes);
    forall c, op
      ensures op in PendingOn(Fold(log).pending, c) <==> PendingInLog(log, c, op)
    {
      PendingFromLog(log, c, op);
    }
  }

  lemma LeaseScan(log: seq<Event>, writes: seq<string>, clock: int)
    ensures FirstHeld(Fold(log).leases, clock, writes).None? <==> NothingLeased(log, writes, clock)
  {
    hide Fold, CoversOne, Active;
    ScanHeld(Fold(log).leases, clock, writes);
    forall c
      ensures Active(Lookup(Fold(log).leases, c), clock) <==>
        exists k :: 0 <= k < |log| && CoversOne(log, k, c, clock)
    {
      ActiveFromLog(log, c, clock);
    }
  }

  lemma PinScan(log: seq<Event>, pins: map<string, string>)
    requires Lawful(log)
    ensures Stale(Fold(log), pins) <==> !PinsCurrent(log, pins)
  {
    hide Fold, HeadAt, Lawful;
    forall c
      ensures HeadOf(Fold(log).decisionHeads, c) == HeadAt(Deciding, log, c)
    {
      HeadsAreLatest(log, c);
    }
  }

  /** What the two ledgers a call sees have to show for it to go ahead. */
  ghost predicate Clear(entry: seq<Event>, leased: seq<Event>, pins: map<string, string>, writes: seq<string>,
                        clock: int) {
    && writes != [] && NothingPending(entry, writes) && NothingLeased(leased, writes, clock)
    && PinsCurrent(entry, pins) && PinsCurrent(leased, pins)
  }

  /**
   A call runs the whole plan exactly when the ledgers are clear. Otherwise it makes no driver call, and the refusal
   names the first thing that is not: something pending, a moved pin, nothing to write, a running lease, or a pin that
   moved before the lease was taken, in which case only the lease and its release are appended.
   */
  lemma RunsExactlyWhenClear(cx: Context, bindings: map<string, Binding>, todo: seq<Action>, pins: map<string, string>,
                             writes: seq<string>, clock: int, entry: seq<Event>, leased: seq<Event>)
    requires Lawful(entry) && Lawful(leased)
    ensures var r := Apply(cx, bindings, todo, pins, writes, clock, Fold(entry), Fold(leased));
      && (Clear(entry, leased, pins, writes, clock) <==> r == Ran(WholeRun(cx, bindings, todo)))
      && (!Clear(entry, leased, pins, writes, clock) ==> r.Refused? && !CallsDriver(Items(r)))
      && (r.Refused? ==>
            && (r.why == ReconcileFirst <==> !NothingPending(entry, writes))
            && (NothingPending(entry, writes) && !PinsCurrent(entry, pins) ==> r.why == StaleDecision)
            && (r.why == NothingToChange <==> writes == [] && PinsCurrent(entry, pins))
            && (r.why == LeaseConflict <==>
                  NothingPending(entry, writes) && PinsCurrent(entry, pins) && writes != []
                  && !NothingLeased(leased, writes, clock))
            && r.trace == (if r.why == StaleDecision && PinsCurrent(entry, pins) then [LeaseTaken, LeaseFreed] else []))
  {
    hide Fold, WholeRun, Lawful, FirstPending, FirstHeld, Stale, NothingLeased, PinsCurrent, CoversOne, PendingInLog;
    PendingScan(entry, writes);
    LeaseScan(leased, writes, clock);
    PinScan(entry, pins);
    PinScan(leased, pins);
  }

  /** A call that reaches the driver found nothing pending, nothing leased and every pin current. */
  lemma CallsOnlyWhenClear(cx: Context, bindings: map<string, Binding>, todo: seq<Action>, pins: map<string, string>,
                           writes: seq<string>, clock: int, entry: Table, leased: Table)
    requires CallsDriver(Items(Apply(cx, bindings, todo, pins, writes, clock, entry, leased)))
    ensures forall c :: c in writes ==> PendingOn(entry.pending, c) == {}
    ensures forall c :: c in writes && c in leased.leases && !leased.leases[c].ended ==>
      leased.leases[c].expiry <= clock
    ensures forall c :: c in pins ==>
      HeadOf(entry.decisionHeads, c) == pins[c] && HeadOf(leased.decisionHeads, c) == pins[c]
  {
    hide WholeRun, FirstPending, FirstHeld;
    ScanPending(entry.pending, writes);
    ScanHeld(leased.leases, clock, writes);
  }

  // ---- an unknown outcome has to be reconciled -------------------------------

  lemma StaysPending(log: seq<Event>, later: seq<Event>, c: string, op: string)
    requires PendingInLog(log, c, op) && log <= later
    requires forall j :: |log| <= j < |later| ==> !ClosesOp(later[j], c, op)
    ensures PendingInLog(later, c, op)
  {
    hide OpensOp, ClosesOp;
    var i :| 0 <= i < |log| && OpensOp(log[i], c, op) && forall j :: i < j < |log| ==> !ClosesOp(log[j], c, op);
    assert OpensOp(later[i], c, op);
    forall j | i < j < |later|
      ensures !ClosesOp(later[j], c, op)
    {
      if j < |log| { assert later[j] == log[j]; }
    }
  }

  /**
   After a run with an unknown outcome on a capability, every later call that writes it is refused with
   ReconcileFirst, without a driver call, until something in the ledger concludes or adopts that very operation.
   */
  lemma UnknownIsReconciledFirst(site: Site, log: seq<Event>, cx: Context, bindings: map<string, Binding>,
                                 todo: seq<Action>, a: Action, later: seq<Event>, cx': Context,
                                 bindings': map<string, Binding>, todo': seq<Action>, pins: map<string, string>,
                                 writes: seq<string>, clock: int, leased: Table)
    requires Uncontended(site, log) && FitsPlan(site, cx, bindings, todo)
    requires ValidActions(cx.actions) && Scheduled(cx.actions, todo) && DistinctKeys(cx.actions)
    requires PendingOn(Fold(log).pending, a.capability) == {}
    requires a in cx.actions && Expected(cx, a) == Unknown && a.capability in writes
    requires var left := Feed(site, log, WholeRun(cx, bindings, todo).trace);
      left <= later && forall j :: |left| <= j < |later| ==> !ClosesOp(later[j], a.capability, OpId(a))
    ensures var again := Apply(cx', bindings', todo', pins, writes, clock, Fold(later), leased);
      again == Refused(ReconcileFirst, []) && !CallsDriver(Items(again))
  {
    hide *;
    var left := Feed(site, log, WholeRun(cx, bindings, todo).trace);
    RunEndsPendingUnknown(site, log, cx, bindings, todo, a.capability, OpId(a));
    PendingFromLog(left, a.capability, OpId(a));
    StaysPending(left, later, a.capability, OpId(a));
    PendingRefuses(later, a.capability, OpId(a), cx', bindings', todo', pins, writes, clock, leased);
  }

  lemma PendingRefuses(later: seq<Event>, c: string, op: string, cx: Context, bindings: map<string, Binding>,
                       todo: seq<Action>, pins: map<string, string>, writes: seq<string>, clock: int, leased: Table)
    requires PendingInLog(later, c, op) && c in writes
    ensures var again := Apply(cx, bindings, todo, pins, writes, clock, Fold(later), leased);
      again == Refused(ReconcileFirst, []) && !CallsDriver(Items(again))
  {
    hide Fold, WholeRun, PendingInLog, FirstPending, FirstHeld, Stale;
    PendingScan(later, writes);
  }
}
