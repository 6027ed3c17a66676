/**
 The refusals around a run (`Apply` in go/internal/apply/apply.go): pending work, moved decision heads, an empty
 write set, a held lease, and heads that moved between the check and the lease. Because a run's start marker moves
 the heads its plan pins, and no head value recurs, a sealed plan reaches the driver at most once.
 */
module ApplyGate {
  import opened Prelude
  import opened Ledger
  import opened LedgerTheorems
  import opened Graph
  import opened Plan
  import opened Executor
  import opened ExecutorTheorems
  import opened Protocol
  import opened RunTheorems
  import opened ReplaceCycles

  /** Some pinned decision head is not the current one. */
  predicate Stale(t: Table, pins: map<string, string>) {
    exists c :: c in pins && HeadOf(t.decisionHeads, c) != pins[c]
  }

  /** `staleReason`: any moved head, in whatever order the pins are visited. */
  method StaleReason(decisionHeads: map<string, string>, pins: map<string, string>) returns (moved: Option<string>)
    ensures moved.None? <==> forall c :: c in pins ==> HeadOf(decisionHeads, c) == pins[c]
    ensures moved.Some? ==> moved.value in pins && HeadOf(decisionHeads, moved.value) != pins[moved.value]
  {
    var left := pins.Keys;
    while left != {}
      invariant left <= pins.Keys
      invariant forall c :: c in pins && c !in left ==> HeadOf(decisionHeads, c) == pins[c]
    {
      var c :| c in left;
      if HeadOf(decisionHeads, c) != pins[c] { return Some(c); }
      left := left - {c};
    }
    return None;
  }

  datatype Refusal = ReconcileFirst | StaleDecision | NothingToChange | LeaseConflict

  datatype Applied = Refused(why: Refusal, trace: seq<Item>) | Ran(run: Run)

  /**
   One call of the executor on a plan: `entry` is the ledger it opened, `leased` the ledger it took the lease on,
   which others may have moved in between.
   */
  function Apply(cx: Context, bindings: map<string, Binding>, todo: seq<Action>, pins: map<string, string>,
                 writes: seq<string>, clock: int, entry: Table, leased: Table): Applied
  {
    if FirstPending(entry.pending, writes).Some? then Refused(ReconcileFirst, [])
    else if Stale(entry, pins) then Refused(StaleDecision, [])
    else if writes == [] then Refused(NothingToChange, [])
    else if FirstHeld(leased.leases, clock, writes).Some? then Refused(LeaseConflict, [])
    else if Stale(leased, pins) then Refused(StaleDecision, [LeaseTaken, LeaseFreed])
    else Ran(WholeRun(cx, bindings, todo))
  }

  function Items(r: Applied): seq<Item> {
    match r
    case Refused(_, trace) => trace
    case Ran(run) => run.trace
  }

  /** The same, as the executor runs it: the checks in order, then the loop. */
  method RunApply(cx: Context, bindings: map<string, Binding>, todo: seq<Action>, pins: map<string, string>,
                  writes: seq<string>, clock: int, entry: Table, leased: Table)
    returns (why: Option<Refusal>, run: ApplyRun)
    ensures fresh(run)
    ensures match Apply(cx, bindings, todo, pins, writes, clock, entry, leased)
      case Refused(w, trace) => why == Some(w) && run.View() == Start(bindings, trace)
      case Ran(r) => why == None && run.View() == r
  {
    run := new ApplyRun(cx, bindings);
    for i := 0 to |writes|
      invariant FirstPending(entry.pending, writes) == FirstPending(entry.pending, writes[i..])
    {
      if PendingOn(entry.pending, writes[i]) != {} { return Some(ReconcileFirst), run; }
    }
    var moved := StaleReason(entry.decisionHeads, pins);
    if moved.Some? { return Some(StaleDecision), run; }
    if writes == [] { return Some(NothingToChange), run; }
    if FirstHeld(leased.leases, clock, writes).Some? { return Some(LeaseConflict), run; }
    moved := StaleReason(leased.decisionHeads, pins);
    if moved.Some? {
      run.Append(LeaseTaken);
      run.Append(LeaseFreed);
      return Some(StaleDecision), run;
    }
    run.Execute(todo);
    return None, run;
  }

  /**
   From a loaded plan to a finished run: inject the replacement edges in place, order the actions, look them up and
   execute them. The run is the specified one, for a schedule of the actions as they then stand.
   */
  method ExecutePlan(plan: array<Action>, bound: map<string, string>, clock: int, fate: string -> Fate,
                     bindings: map<string, Binding>)
    returns (run: ApplyRun, todo: seq<Action>)
    requires Loaded(plan[..]) && !(exists r :: Ring(plan[..], r))
    requires forall a :: a in plan[..] ==> a.id != ""
    modifies plan
    ensures plan[..] == Enforced(old(plan[..]))
    ensures ValidActions(plan[..]) && Scheduled(plan[..], todo)
    ensures fresh(run) && run.View() == WholeRun(Context(plan[..], bound, clock, fate), bindings, todo)
  {
    ghost var before := plan[..];
    EnforcedNodes(before);
    CyclicIffRing(before);
    EnforceReplaceOrdering(plan);
    var actions := plan[..];
    NonEmptyIds(before);
    var order := TopoOrder(Nodes(actions));
    OrderIsSchedule(actions, order);
    todo := Schedule(actions, order);
    run := new ApplyRun(Context(actions, bound, clock, fate), bindings);
    run.Execute(todo);
  }

  lemma NonEmptyIds(actions: seq<Action>)
    requires forall a :: a in actions ==> a.id != ""
    ensures forall a :: a in Enforced(actions) ==> a.id != ""
  {
    forall i | 0 <= i < |actions|
      ensures Enforced(actions)[i].id != ""
    {
      EnforcedKeeps(actions, i);
    }
  }

  predicate CallsDriver(items: seq<Item>) {
    exists x :: x in items && x.Called?
  }

  /** Once a start marker on the write set follows a point where the pins held, they never hold again. */
  lemma PinsNeverReturn(log: seq<Event>, m: nat, k: nat, pins: map<string, string>, writes: seq<string>)
    requires Lawful(log) && m <= k < |log| && !Stale(Fold(log[..m]), pins)
    requires log[k].Typ().ApplyStarted? && log[k].req.caps == writes
    requires writes != [] && forall c :: c in writes ==> c in pins
    ensures Stale(Fold(log), pins)
  {
    hide Commit, HashOf, Lawful, Fold;
    var c := writes[0];
    LawfulPrefix(log, m);
    HeadsAreLatest(log[..m], c);
    HeadsAreLatest(log, c);
    assert log[..|log|] == log;
    assert On(Deciding, log[k], c);
    NoHeadRecurs(Deciding, log, m, |log|, c);
  }

  /** Whoever wrote in between: a plan whose start marker is in the ledger, after a point where its pins held, is
      refused by every later call before any driver call. */
  lemma StartedPlanIsRefused(later: seq<Event>, m: nat, k: nat, pins: map<string, string>, writes: seq<string>,
                             cx: Context, bindings: map<string, Binding>, todo: seq<Action>, clock: int,
                             entry: Table, leased: Table)
    requires Lawful(later) && m <= k < |later| && !Stale(Fold(later[..m]), pins)
    requires later[k].Typ().ApplyStarted? && later[k].req.caps == writes
    requires writes != [] && forall c :: c in writes ==> c in pins
    requires entry == Fold(later) || leased == Fold(later)
    ensures var again := Apply(cx, bindings, todo, pins, writes, clock, entry, leased);
      again.Refused? && !CallsDriver(Items(again))
  {
    hide Fold, WholeRun, Lawful, Stale;
    PinsNeverReturn(later, m, k, pins, writes);
  }

  lemma {:induction false} FeedMonotone(site: Site, log: seq<Event>, items: seq<Item>, m: nat, n: nat)
    requires m <= n <= |items|
    ensures Feed(site, log, items[..m]) <= Feed(site, log, items[..n])
    decreases n
  {
    hide Stamp, RequestOf;
    if m < n {
      FeedMonotone(site, log, items, m, n - 1);
      FeedExtends(site, log, items[..n]);
      assert items[..n][..n - 1] == items[..n - 1];
    }
  }

  lemma RunStarts(cx: Context, bindings: map<string, Binding>, todo: seq<Action>)
    ensures |WholeRun(cx, bindings, todo).trace| >= 4
    ensures WholeRun(cx, bindings, todo).trace[..2] == [LeaseTaken] + [Started]
  {
    hide RunActions;
    RunUnfolds(cx, Start(bindings, [LeaseTaken, Started]), todo, 0);
    TraceGrows(cx, bindings, todo, 0, |todo|);
    assert todo[..|todo|] == todo;
  }

  /** The start marker of a run that got as far as its second item. */
  lemma StartIsCommitted(site: Site, log: seq<Event>, cx: Context, bindings: map<string, Binding>, todo: seq<Action>,
                         n: nat)
    requires 2 <= n <= |WholeRun(cx, bindings, todo).trace|
    ensures var taken := Feed(site, log, [LeaseTaken]);
      var left := Feed(site, log, WholeRun(cx, bindings, todo).trace[..n]);
      && |taken| < |left| && left[..|taken|] == taken
      && left[|taken|].Typ().ApplyStarted? && left[|taken|].req.caps == site.writes
  {
    hide WholeRun, PrevHeads, Fold;
    var trace := WholeRun(cx, bindings, todo).trace;
    RunStarts(cx, bindings, todo);
    FeedOne(site, log, [LeaseTaken], Started);
    FeedMonotone(site, log, trace, 2, n);
  }

  /**
   A sealed plan runs at most once. After a run whose pins held has committed its start marker, even if it was cut
   off right there, every later call on any extension of that log is refused before any driver call: at the first
   check if it opens the extended ledger, under the lease if the ledger moved in between.
   */
  lemma AtMostOnce(site: Site, log: seq<Event>, cx: Context, bindings: map<string, Binding>, todo: seq<Action>, n: nat,
                   pins: map<string, string>, later: seq<Event>, cx': Context, bindings': map<string, Binding>,
                   todo': seq<Action>, clock': int, entry: Table, leased: Table)
    requires 2 <= n <= |WholeRun(cx, bindings, todo).trace|
    requires site.writes != [] && forall c :: c in site.writes ==> c in pins
    requires !Stale(Fold(log), pins)
    requires Lawful(later) && Feed(site, log, WholeRun(cx, bindings, todo).trace[..n]) <= later
    requires entry == Fold(later) || leased == Fold(later)
    ensures var again := Apply(cx', bindings', todo', pins, site.writes, clock', entry, leased);
      again.Refused? && !CallsDriver(Items(again))
  {
    hide Fold, WholeRun, Feed, Lawful;
    var taken := Feed(site, log, [LeaseTaken]);
    StartIsCommitted(site, log, cx, bindings, todo, n);
    LeaseKeepsPins(site, log, pins);
    assert later[..|taken|] == taken;
    StartedPlanIsRefused(later, |taken|, |taken|, pins, site.writes, cx', bindings', todo', clock', entry, leased);
  }

  /** The lease itself moves no decision head: pins that held on the ledger it was taken on still hold after it. */
  lemma LeaseKeepsPins(site: Site, log: seq<Event>, pins: map<string, string>)
    ensures Stale(Fold(Feed(site, log, [LeaseTaken])), pins) <==> Stale(Fold(log), pins)
  {
    hide Commit, HashOf, Fold;
    var ev := Stamp(site, log, RequestOf(site, LeaseTaken));
    FeedOne(site, log, [], LeaseTaken);
    assert [] + [LeaseTaken] == [LeaseTaken];
    FoldOne(log, ev);
    forall c
      ensures HeadOf(Commit(Fold(log), ev).decisionHeads, c) == HeadOf(Fold(log).decisionHeads, c)
    {
      CommitLookups(Fold(log), ev, c);
    }
  }
}
