/**
 What a run records of each driver call: the class and the code of every response, and one terminal receipt for each
 intent, whose status says what became of the call, in the run's items and in the ledger's log.
 */
module ReceiptTheorems {
  import opened Prelude
  import Canonical
  import opened Ledger
  import opened Plan
  import opened Executor
  import opened ExecutorTheorems
  import opened ReplaceTheorems
  import opened Protocol
  import opened CrashTheorems
  import opened RunTheorems

  // ---- what a response means -------------------------------------------------

  /** The driver says the create succeeded, with the very id it was to replace. */
  predicate AdoptsOld(cx: Context, a: Action) {
    && a.operation.Create? && cx.fate(a.id).Responds? && cx.fate(a.id).response.status.StatusSucceeded?
    && GuardedId(cx.actions, a) != "" && cx.fate(a.id).response.providerId == GuardedId(cx.actions, a)
  }

  /** The id a create must not come back with: its own `replaces`, or the pin of the last pinned delete of its
      capability. */
  function GuardedId(actions: seq<Action>, a: Action): string {
    if a.successorOf != "" then a.successorOf else PinOf(actions, a.capability, |actions|)
  }

  function PinOf(actions: seq<Action>, cap: string, n: nat): string
    requires n <= |actions|
  {
    if n == 0 then ""
    else if DeletesOn(actions[n - 1], cap) && actions[n - 1].targetId != "" then actions[n - 1].targetId
    else PinOf(actions, cap, n - 1)
  }

  lemma {:induction false} PinIsLastTarget(actions: seq<Action>, cap: string, n: nat)
    requires n <= |actions|
    ensures LastTarget(actions[..n], cap) == PinOf(actions, cap, n)
  {
    if n > 0 {
      assert actions[..n][..n - 1] == actions[..n - 1];
      PinIsLastTarget(actions, cap, n - 1);
    }
  }

  lemma GuardedIsOld(actions: seq<Action>, a: Action)
    requires a in actions && a.operation.Create?
    ensures OldId(actions, a) == GuardedId(actions, a)
  {
    PinIsLastTarget(actions, a.capability, |actions|);
    assert actions[..|actions|] == actions;
  }

  /** A create that says it succeeded but whose declared outputs cannot be used. */
  predicate Unusable(a: Action, r: Response) {
    a.operation.Create? && r.status.StatusSucceeded? && !r.outputsUsable
  }

  /** What an attempted action amounts to, from the driver's own response. */
  lemma ClassOfResponse(cx: Context, a: Action)
    requires a in cx.actions
    ensures cx.fate(a.id).RefusedBefore? ==> FateClass(cx, a) == Failed
    ensures cx.fate(a.id).Responds? ==>
      var r := cx.fate(a.id).response;
      var unknown := r.status.StatusUnknown? || (Unusable(a, r) && !AdoptsOld(cx, a));
      && (FateClass(cx, a) == Failed <==> r.status.StatusFailed? || AdoptsOld(cx, a))
      && (FateClass(cx, a) == Unknown <==> unknown && !r.retryable)
      && (FateClass(cx, a) == Throttled <==> unknown && r.retryable)
      && (FateClass(cx, a) == Succeeded <==> r.status.StatusSucceeded? && !Unusable(a, r) && !AdoptsOld(cx, a))
  {
    hide OldId, GuardedId;
    if a.operation.Create? { GuardedIsOld(cx.actions, a); }
  }

  /** The code a failing action contributes, by its class, or by the reason it was refused before its intent. */
  lemma CodeOfResponse(cx: Context, a: Action)
    ensures match cx.fate(a.id)
      case RefusedBefore(unresolved) => FateCode(cx, a) == (if unresolved then ReferenceUnresolved else ProviderRefused)
      case Responds(_) =>
        && (FateClass(cx, a) == Failed ==> FateCode(cx, a) == Code.ApplyFailed)
        && (FateClass(cx, a) == Unknown ==> FateCode(cx, a) == ReconcileRequired)
        && (FateClass(cx, a) == Throttled ==> FateCode(cx, a) == ProviderAgainLater)
        && (FateClass(cx, a) == Succeeded ==> FateCode(cx, a) == NoCode)
  {
    hide Effective;
  }

  /** The worst class of a run: an unknown outcome outranks a failure, and a failure a throttled call. */
  lemma WorstOutranks(cx: Context, bindings: map<string, Binding>, todo: seq<Action>)
    requires ValidActions(cx.actions) && Scheduled(cx.actions, todo)
    ensures WholeRun(cx, bindings, todo).worst
      == if exists a :: a in cx.actions && Expected(cx, a) == Unknown then Unknown
         else if exists a :: a in cx.actions && Expected(cx, a) == Failed then Failed
         else if exists a :: a in cx.actions && Expected(cx, a) == Throttled then Throttled
         else Succeeded
  {
    hide RunActions, Expected, ValidActions;
    var start := Start(bindings, [LeaseTaken, Started]);
    RunIsCaused(cx, start, todo, |todo|);
    RunIsIsolated(cx, start, todo, |todo|);
    assert todo[..|todo|] == todo;
    var r := RunActions(cx, start, todo);
    forall a | a in cx.actions
      ensures exists i :: 0 <= i < |todo| && todo[i] == a
    {
      var i := ScheduledAt(cx, todo, a);
    }
    WorstOf(cx, todo, r);
  }

  lemma WorstOf(cx: Context, todo: seq<Action>, r: Run)
    requires Caused(cx, todo, |todo|, r) && Isolated(cx, todo, |todo|, r)
    requires forall a :: a in cx.actions <==> a in todo
    ensures r.worst
      == if exists a :: a in cx.actions && Expected(cx, a) == Unknown then Unknown
         else if exists a :: a in cx.actions && Expected(cx, a) == Failed then Failed
         else if exists a :: a in cx.actions && Expected(cx, a) == Throttled then Throttled
         else Succeeded
  {
    hide Expected, FateClass, FateCode;
    forall a | a in cx.actions
      ensures Severity(Expected(cx, a)) <= Severity(r.worst)
    {
      var i :| 0 <= i < |todo| && todo[i] == a;
      assert r.outcome[todo[i].id] == Expected(cx, todo[i]);
    }
    if r.worst != Succeeded {
      var i :| IsCause(cx, todo, |todo|, r, i);
      assert Expected(cx, todo[i]) == r.worst && todo[i] in cx.actions;
    }
  }

  // ---- the terminal receipt --------------------------------------------------

  /** The status a terminal receipt carries says what became of the call; `retryable` comes first. */
  ghost predicate StatusTells(cx: Context, a: Action, status: string)
    requires cx.fate(a.id).Responds?
  {
    var again := cx.fate(a.id).response.retryable && !AdoptsOld(cx, a);
    && (status == "retryable" <==> again)
    && (status == "succeeded" <==> Expected(cx, a) == Succeeded && !again)
    && (status == "unknown" <==> Expected(cx, a) == Unknown)
    && (status == "failed" <==> Expected(cx, a) == Failed && !again)
  }

  lemma StatusOfResponse(cx: Context, a: Action)
    requires a in cx.actions && Attempts(cx, a)
    ensures StatusTells(cx, a, ReceiptStatus(Answer(cx, a)))
  {
    hide Blocked, OldId, GuardedId;
    if a.operation.Create? { GuardedIsOld(cx.actions, a); }
    assert "retryable"[0] == 'r' && "succeeded"[0] == 's' && "unknown"[0] == 'u' && "failed"[0] == 'f';
  }

  predicate Concludes(item: Item, a: Action) {
    item.Terminal? && item.cap == a.capability && item.op == "intent-" + a.key
  }

  /** The intent at `p`, the call after it, the record of a success, and at `q` the one terminal receipt. */
  ghost predicate Bracketed(cx: Context, items: seq<Item>, a: Action, p: int, q: int) {
    && 0 <= p && p + 2 <= q < |items|
    && items[p] == Intent(a.capability, "intent-" + a.key) && items[p + 1] == Called(a.id)
    && (if Expected(cx, a) == Succeeded then q == p + 3 && Records(items[p + 2], a) else q == p + 2)
    && (forall k :: 0 <= k < |items| && items[k] == items[p] ==> k == p)
    && (forall k :: 0 <= k < |items| && Concludes(items[k], a) <==> k == q)
    && cx.fate(a.id).Responds? && StatusTells(cx, a, items[q].status)
  }

  predicate AllForeign(items: seq<Item>, a: Action) {
    forall x :: x in items ==> Foreign(x, a)
  }

  /** What the other actions of a stretch contribute leaves an action's receipts alone. */
  lemma {:induction false} ForeignStretch(cx: Context, bindings: map<string, Binding>, todo: seq<Action>, m: nat,
                                          n: nat, a: Action)
    requires m <= n <= |todo|
    requires forall i :: m <= i < n ==> AllForeign(StepItems(cx, RunTo(cx, bindings, todo, i), todo[i]), a)
    ensures RunTo(cx, bindings, todo, m).trace <= RunTo(cx, bindings, todo, n).trace
    ensures AllForeign(RunTo(cx, bindings, todo, n).trace[|RunTo(cx, bindings, todo, m).trace|..], a)
    decreases n
  {
    hide RunActions, StepAction, StepItems, Foreign;
    TraceGrows(cx, bindings, todo, m, n);
    if m < n {
      var r := RunTo(cx, bindings, todo, n - 1);
      ForeignStretch(cx, bindings, todo, m, n - 1, a);
      RunUnfolds(cx, Start(bindings, [LeaseTaken, Started]), todo, n);
      StepTrace(cx, r, todo[n - 1]);
      var k := |RunTo(cx, bindings, todo, m).trace|;
      assert RunTo(cx, bindings, todo, n).trace[k..] == r.trace[k..] + StepItems(cx, r, todo[n - 1]);
    }
  }

  lemma OthersAreForeign(cx: Context, bindings: map<string, Binding>, todo: seq<Action>, k: nat, i: nat)
    requires ValidActions(cx.actions) && Scheduled(cx.actions, todo) && DistinctKeys(cx.actions)
    requires k < |todo| && i < |todo| && i != k
    ensures AllForeign(StepItems(cx, RunTo(cx, bindings, todo, i), todo[i]), todo[k])
  {
    hide RunActions, StepItems, Foreign, ValidActions;
    assert todo[i] in todo && todo[k] in todo && todo[i].id != todo[k].id;
    StepForeign(cx, RunTo(cx, bindings, todo, i), todo[i], todo[k]);
  }

  /** A whole trace around one action's own items: everything else is foreign to it. */
  lemma OwnSegmentAlone(cx: Context, bindings: map<string, Binding>, todo: seq<Action>, k: nat)
    returns (rest: seq<Item>)
    requires ValidActions(cx.actions) && Scheduled(cx.actions, todo) && DistinctKeys(cx.actions) && k < |todo|
    ensures var r := RunTo(cx, bindings, todo, k); var a := todo[k];
      && WholeRun(cx, bindings, todo).trace == r.trace + StepItems(cx, r, a) + rest
      && AllForeign(r.trace, a) && AllForeign(rest, a)
  {
    hide RunActions, StepAction, StepItems, ValidActions, DistinctKeys, Scheduled, Foreign;
    var a, start := todo[k], Start(bindings, [LeaseTaken, Started]);
    var t0, t1, t2 := RunTo(cx, bindings, todo, k).trace, RunTo(cx, bindings, todo, k + 1).trace,
      RunTo(cx, bindings, todo, |todo|).trace;
    forall i | 0 <= i < |todo| && i != k
      ensures AllForeign(StepItems(cx, RunTo(cx, bindings, todo, i), todo[i]), a)
    {
      OthersAreForeign(cx, bindings, todo, k, i);
    }
    ForeignStretch(cx, bindings, todo, 0, k, a);
    ForeignStretch(cx, bindings, todo, k + 1, |todo|, a);
    RunUnfolds(cx, start, todo, k + 1);
    StepTrace(cx, RunTo(cx, bindings, todo, k), a);
    var tail := WholeTrace(cx, bindings, todo);
    MarkersAreForeign(a);
    rest := t2[|t1|..] + tail;
    assert t0 == t0[..2] + t0[2..];
    TailIsMarkers(cx, bindings, todo, tail);
  }

  lemma MarkersAreForeign(a: Action)
    ensures Foreign(LeaseTaken, a) && Foreign(Started, a) && Foreign(FinishedMark, a) && Foreign(FailedMark, a)
      && Foreign(LeaseFreed, a)
  {
  }

  lemma TailIsMarkers(cx: Context, bindings: map<string, Binding>, todo: seq<Action>, tail: seq<Item>)
    requires WholeRun(cx, bindings, todo).trace == RunTo(cx, bindings, todo, |todo|).trace + tail
    ensures forall x :: x in tail ==> x == FinishedMark || x == FailedMark || x == LeaseFreed
  {
    hide RunActions;
    assert todo[..|todo|] == todo;
    var r := RunTo(cx, bindings, todo, |todo|);
    var whole, end := WholeRun(cx, bindings, todo).trace,
      [if r.worst.Succeeded? then FinishedMark else FailedMark, LeaseFreed];
    assert whole == r.trace + end;
    assert tail == whole[|r.trace|..] == end;
  }

  /**
   An attempted action's intent is concluded by exactly one terminal receipt, after its call and, for a success, after
   its record; the receipt's status tells what became of it. An action that is not attempted has no receipt at all.
   */
  lemma OneReceiptTells(cx: Context, bindings: map<string, Binding>, todo: seq<Action>, a: Action)
    requires ValidActions(cx.actions) && Scheduled(cx.actions, todo) && DistinctKeys(cx.actions) && a in cx.actions
    ensures var items := WholeRun(cx, bindings, todo).trace;
      if Attempts(cx, a) then exists p, q :: Bracketed(cx, items, a, p, q)
      else forall x :: x in items ==> !Concludes(x, a) && x != Intent(a.capability, "intent-" + a.key)
  {
    hide *;
    var k := ScheduledAt(cx, todo, a);
    var r := RunTo(cx, bindings, todo, k);
    var rest := OwnSegmentAlone(cx, bindings, todo, k);
    ItemsIffAttempts(cx, bindings, todo, k);
    if Attempts(cx, a) {
      AttemptSegment(cx, r, a);
      StatusOfResponse(cx, a);
      SegmentBrackets(cx, r.trace, StepItems(cx, r, a), rest, a);
    } else {
      ForeignHasNoReceipt(r.trace + [] + rest, r.trace, rest, a);
    }
  }

  lemma ForeignHasNoReceipt(items: seq<Item>, past: seq<Item>, rest: seq<Item>, a: Action)
    requires items == past + [] + rest && AllForeign(past, a) && AllForeign(rest, a)
    ensures forall x :: x in items ==> !Concludes(x, a) && x != Intent(a.capability, "intent-" + a.key)
  {
  }

  lemma AttemptSegment(cx: Context, r: Run, a: Action)
    requires Attempts(cx, a) && StepItems(cx, r, a) != []
    ensures cx.fate(a.id).Responds?
    ensures Expected(cx, a) == Succeeded <==> Answer(cx, a).status.StatusSucceeded?
    ensures var s := StepItems(cx, r, a);
      && 3 <= |s| <= 4 && s[0] == Intent(a.capability, "intent-" + a.key) && s[1] == Called(a.id)
      && Concludes(s[|s| - 1], a) && s[|s| - 1].status == ReceiptStatus(Answer(cx, a))
      && (|s| == 4 <==> Answer(cx, a).status.StatusSucceeded?) && (|s| == 4 ==> Records(s[2], a))
  {
    hide Effective, Blocked, ReceiptStatus, NextBinding;
  }

  lemma SegmentBrackets(cx: Context, past: seq<Item>, s: seq<Item>, rest: seq<Item>, a: Action)
    requires 3 <= |s| <= 4 && s[0] == Intent(a.capability, "intent-" + a.key) && s[1] == Called(a.id)
    requires Concludes(s[|s| - 1], a) && cx.fate(a.id).Responds? && StatusTells(cx, a, s[|s| - 1].status)
    requires |s| == 4 <==> Expected(cx, a) == Succeeded
    requires |s| == 4 ==> Records(s[2], a)
    requires AllForeign(past, a) && AllForeign(rest, a)
    ensures Bracketed(cx, past + s + rest, a, |past|, |past| + |s| - 1)
  {
    hide Expected, StatusTells;
    var items := past + s + rest;
    assert forall k :: 0 <= k < |s| ==> items[|past| + k] == s[k];
    forall k | 0 <= k < |items|
      ensures items[k] == s[0] ==> k == |past|
      ensures Concludes(items[k], a) <==> k == |past| + |s| - 1
    {
      ItemComesFrom(past, s, rest, k);
    }
  }

  // ---- the same, in the log --------------------------------------------------

  /** Every event a run appended is one of its items, at the place its items before it leave. */
  lemma {:induction false} EventComesFrom(site: Site, log: seq<Event>, items: seq<Item>, j: nat) returns (i: nat)
    requires |log| <= j < |Feed(site, log, items)|
    ensures i < |items| && Appends(items[i]) && j == |Feed(site, log, items[..i])|
    ensures Feed(site, log, items)[j].req == RequestOf(site, items[i])
    ensures Feed(site, log, items)[j].env == site.env && Feed(site, log, items)[j].time == site.clock
    decreases |items|
  {
    hide RequestOf, Stamp;
    var n := |items| - 1;
    if items == [] { assert false; }
    FeedExtends(site, log, items);
    if j < |Feed(site, log, items[..n])| {
      i := EventComesFrom(site, log, items[..n], j);
      assert items[..n][..i] == items[..i];
    } else {
      i := n;
      StampWhere(site, Feed(site, log, items[..n]), RequestOf(site, items[n]));
      StampAsks(site, Feed(site, log, items[..n]), RequestOf(site, items[n]));
    }
  }

  lemma StampWhere(site: Site, log: seq<Event>, req: Request)
    ensures Stamp(site, log, req).env == site.env && Stamp(site, log, req).time == site.clock
  {
  }

  predicate HasField(ev: Event, key: string, v: Canonical.Value) {
    ev.req.body.Some? && key in ev.req.body.value && ev.req.body.value[key] == v
  }

  /** A receipt for the action's own operation, with the given status. */
  predicate ReceiptFor(ev: Event, a: Action, status: string) {
    && ev.req.typ == OperationReceipt && ev.req.caps == [a.capability]
    && HasField(ev, "operationId", Canonical.Str("intent-" + a.key)) && HasField(ev, "status", Canonical.Str(status))
  }

  ghost predicate AnyReceipt(ev: Event, a: Action) {
    exists status :: ReceiptFor(ev, a, status)
  }

  /** The action's pending receipt is the event at `p`, and its only other receipt, at `q`, tells what became of it. */
  ghost predicate ConcludedAt(cx: Context, log: seq<Event>, from: nat, a: Action, p: int, q: int) {
    && from <= p < q < |log| && ReceiptFor(log[p], a, "pending")
    && (exists status :: ReceiptFor(log[q], a, status) && cx.fate(a.id).Responds? && StatusTells(cx, a, status))
    && forall j :: from <= j < |log| && AnyReceipt(log[j], a) ==> j == p || j == q
  }

  lemma ReceiptOfItem(site: Site, item: Item, a: Action)
    requires Appends(item)
    ensures forall ev: Event, status :: ev.req == RequestOf(site, item) ==>
      (ReceiptFor(ev, a, status) <==>
         (item == Intent(a.capability, "intent-" + a.key) && status == "pending")
         || (Concludes(item, a) && item.status == status))
  {
    hide BindingBody;
    forall ev: Event, status | ev.req == RequestOf(site, item)
      ensures ReceiptFor(ev, a, status) <==>
        (item == Intent(a.capability, "intent-" + a.key) && status == "pending")
        || (Concludes(item, a) && item.status == status)
    {
    }
  }

  /** In the log of a whole run every attempted action has its pending receipt and, later, one receipt that tells what
      became of it; an action that is not attempted has none. */
  lemma LogTellsOutcome(site: Site, log: seq<Event>, cx: Context, bindings: map<string, Binding>, todo: seq<Action>,
                        a: Action)
    requires ValidActions(cx.actions) && Scheduled(cx.actions, todo) && DistinctKeys(cx.actions) && a in cx.actions
    ensures var left := Feed(site, log, WholeRun(cx, bindings, todo).trace);
      if Attempts(cx, a) then exists p, q :: ConcludedAt(cx, left, |log|, a, p, q)
      else forall j, status :: |log| <= j < |left| ==> !ReceiptFor(left[j], a, status)
  {
    hide *;
    OneReceiptTells(cx, bindings, todo, a);
    var items := WholeRun(cx, bindings, todo).trace;
    if Attempts(cx, a) {
      var i, k :| Bracketed(cx, items, a, i, k);
      BracketInLog(site, log, cx, items, a, i, k);
    } else {
      NoReceiptInLog(site, log, items, a);
    }
  }

  lemma NoReceiptInLog(site: Site, log: seq<Event>, items: seq<Item>, a: Action)
    requires forall x :: x in items ==> !Concludes(x, a) && x != Intent(a.capability, "intent-" + a.key)
    ensures forall j, status :: |log| <= j < |Feed(site, log, items)| ==>
      !ReceiptFor(Feed(site, log, items)[j], a, status)
  {
    hide Feed, RequestOf, Concludes, ReceiptFor;
    var left := Feed(site, log, items);
    forall j, status | |log| <= j < |left|
      ensures !ReceiptFor(left[j], a, status)
    {
      var i := EventComesFrom(site, log, items, j);
      ReceiptOfItem(site, items[i], a);
    }
  }

  lemma BracketInLog(site: Site, log: seq<Event>, cx: Context, items: seq<Item>, a: Action, i: int, k: int)
    requires Bracketed(cx, items, a, i, k)
    ensures exists p, q :: ConcludedAt(cx, Feed(site, log, items), |log|, a, p, q)
  {
    hide Feed, RequestOf, StatusTells, ReceiptFor, Expected, Records;
    FeedPlaces(site, log, items, i);
    FeedPlaces(site, log, items, k);
    var left, p, q := Feed(site, log, items), |Feed(site, log, items[..i])|, |Feed(site, log, items[..k])|;
    PlacesInOrder(site, log, items, i, k);
    ReceiptOfItem(site, items[i], a);
    ReceiptOfItem(site, items[k], a);
    assert ReceiptFor(left[p], a, "pending") && ReceiptFor(left[q], a, items[k].status);
    OnlyTwoReceipts(site, log, cx, items, a, i, k);
    assert ConcludedAt(cx, left, |log|, a, p, q);
  }

  lemma OnlyTwoReceipts(site: Site, log: seq<Event>, cx: Context, items: seq<Item>, a: Action, i: int, k: int)
    requires Bracketed(cx, items, a, i, k)
    ensures forall j :: |log| <= j < |Feed(site, log, items)| && AnyReceipt(Feed(site, log, items)[j], a) ==>
      j == |Feed(site, log, items[..i])| || j == |Feed(site, log, items[..k])|
  {
    hide Feed, RequestOf, StatusTells, ReceiptFor, Expected, Records;
    var left := Feed(site, log, items);
    forall j | |log| <= j < |left| && AnyReceipt(left[j], a)
      ensures j == |Feed(site, log, items[..i])| || j == |Feed(site, log, items[..k])|
    {
      var m := EventComesFrom(site, log, items, j);
      ReceiptOfItem(site, items[m], a);
    }
  }

  lemma {:induction false} PlacesInOrder(site: Site, log: seq<Event>, items: seq<Item>, i: nat, k: nat)
    requires i < k <= |items| && Appends(items[i])
    ensures |Feed(site, log, items[..i])| < |Feed(site, log, items[..k])|
    decreases k
  {
    hide RequestOf, Stamp;
    assert items[..k][..k - 1] == items[..k - 1];
    if i < k - 1 { PlacesInOrder(site, log, items, i, k - 1); }
  }

  // ---- the envelope of a run -------------------------------------------------

  /** An event of the run: as whom, where and when it was written, under which run id, and with the run's token on
      everything but the lease and the receipts. */
  predicate OfRun(site: Site, ev: Event) {
    && ev.req.actor == site.actor && ev.env == site.env && ev.time == site.clock
    && (ev.req.body.Some? ==> HasField(ev, "applyRunId", Canonical.Str(site.runId)))
    && (ev.req.body.None? <==> ev.req.typ == LeaseReleased)
    && (ev.req.typ == BindingUpdated ==> HasField(ev, "environment", Canonical.Str(site.env)))
    && ev.req.token == if ev.req.typ in {LeaseAcquired, OperationReceipt} then None else Some(site.token)
  }

  lemma ItemIsOfRun(site: Site, item: Item, ev: Event)
    requires Appends(item) && ev.req == RequestOf(site, item) && ev.env == site.env && ev.time == site.clock
    ensures OfRun(site, ev)
  {
    if item.Bound? {
      var body := BindingBody(site, item.cap, item.binding);
      assert body["applyRunId"] == Canonical.Str(site.runId) && body["environment"] == Canonical.Str(site.env);
    }
  }

  /** The claim event of a claimed capability. */
  predicate ClaimEvent(ev: Event, cap: string, id: string) {
    && ev.req.typ == OwnershipClaimed && ev.req.caps == [cap] && HasField(ev, "capability", Canonical.Str(cap))
    && HasField(ev, "providerId", Canonical.Str(id))
  }

  /** A lease for 300 seconds, and the start of this plan. */
  predicate Opening(site: Site, lease: Event, start: Event) {
    && lease.req.typ == LeaseAcquired && lease.req.caps == site.writes
    && HasField(lease, "ttlSeconds", Canonical.Int(300))
    && start.req.typ == ApplyStarted && start.req.caps == site.writes
    && HasField(start, "plan", Canonical.Str(site.planHash))
  }

  /** The marker of the outcome, exit code 4 with a failure, and the release. */
  predicate Closing(site: Site, ok: bool, marker: Event, release: Event) {
    && marker.req.caps == site.writes && marker.req.typ == (if ok then ApplyFinished else EventType.ApplyFailed)
    && (!ok ==> HasField(marker, "exitCode", Canonical.Int(4)))
    && release.req.typ == LeaseReleased && release.req.caps == site.writes
  }

  /** The log of a whole run begins with its lease and its start marker, ends with the marker of its outcome and the
      release, and has nothing in between but events of the run. */
  lemma RunEnvelope(site: Site, log: seq<Event>, cx: Context, bindings: map<string, Binding>, todo: seq<Action>)
    ensures var r := WholeRun(cx, bindings, todo);
      var left := Feed(site, log, r.trace);
      var n := |left|;
      && n >= |log| + 4 && left[..|log|] == log && (forall j :: |log| <= j < n ==> OfRun(site, left[j]))
      && Opening(site, left[|log|], left[|log| + 1])
      && Closing(site, r.worst.Succeeded?, left[n - 2], left[n - 1])
  {
    EnvelopeItems(cx, bindings, todo);
    hide *;
    var items := WholeRun(cx, bindings, todo).trace;
    FeedExtends(site, log, items);
    AllOfRun(site, log, items);
    EnvelopePlaces(site, log, items);
    EnvelopeRequests(site);
  }

  lemma AllOfRun(site: Site, log: seq<Event>, items: seq<Item>)
    ensures forall j :: |log| <= j < |Feed(site, log, items)| ==> OfRun(site, Feed(site, log, items)[j])
  {
    hide Feed, RequestOf, OfRun;
    forall j | |log| <= j < |Feed(site, log, items)|
      ensures OfRun(site, Feed(site, log, items)[j])
    {
      var i := EventComesFrom(site, log, items, j);
      ItemIsOfRun(site, items[i], Feed(site, log, items)[j]);
    }
  }

  lemma EnvelopeItems(cx: Context, bindings: map<string, Binding>, todo: seq<Action>)
    ensures var r := WholeRun(cx, bindings, todo);
      var items, m := r.trace, |r.trace|;
      && m >= 4 && items[0] == LeaseTaken && items[1] == Started && items[m - 1] == LeaseFreed
      && items[m - 2] == if r.worst.Succeeded? then FinishedMark else FailedMark
  {
    hide RunActions;
    RunUnfolds(cx, Start(bindings, [LeaseTaken, Started]), todo, 0);
    TraceGrows(cx, bindings, todo, 0, |todo|);
    assert todo[..|todo|] == todo;
  }

  lemma EnvelopePlaces(site: Site, log: seq<Event>, items: seq<Item>)
    requires |items| >= 4 && items[0] == LeaseTaken && items[1] == Started && items[|items| - 1] == LeaseFreed
    requires items[|items| - 2] == FinishedMark || items[|items| - 2] == FailedMark
    ensures var left := Feed(site, log, items);
      var n := |left|;
      && n >= |log| + 4
      && left[|log|].req == RequestOf(site, LeaseTaken) && left[|log| + 1].req == RequestOf(site, Started)
      && left[n - 2].req == RequestOf(site, items[|items| - 2]) && left[n - 1].req == RequestOf(site, LeaseFreed)
  {
    hide RequestOf, Stamp;
    var m := |items|;
    FeedPlaces(site, log, items, 0);
    FeedPlaces(site, log, items, 1);
    FeedPlaces(site, log, items, m - 2);
    FeedPlaces(site, log, items, m - 1);
    assert items[..0] == [] && items[..1] == [] + [LeaseTaken];
    FeedOne(site, log, [], LeaseTaken);
    assert items[..m - 1] == items[..m - 2] + [items[m - 2]] && items == items[..m - 1] + [items[m - 1]];
    FeedOne(site, log, items[..m - 2], items[m - 2]);
    FeedOne(site, log, items[..m - 1], items[m - 1]);
    PlacesInOrder(site, log, items, 0, 1);
    PlacesInOrder(site, log, items, 1, m - 2);
  }

  lemma EnvelopeRequests(site: Site)
    ensures forall e: Event, f: Event :: e.req == RequestOf(site, LeaseTaken) && f.req == RequestOf(site, Started) ==>
      Opening(site, e, f)
    ensures forall e: Event, f: Event :: f.req == RequestOf(site, LeaseFreed) ==>
      && (e.req == RequestOf(site, FinishedMark) ==> Closing(site, true, e, f))
      && (e.req == RequestOf(site, FailedMark) ==> Closing(site, false, e, f))
  {
  }

  /** A claim in the run's items is an ownership event in its log, with the id that was claimed. */
  lemma ClaimInLog(site: Site, log: seq<Event>, items: seq<Item>, i: nat)
    requires i < |items| && items[i].Claimed?
    ensures exists j ::
      |log| <= j < |Feed(site, log, items)| && ClaimEvent(Feed(site, log, items)[j], items[i].cap, items[i].providerId)
  {
    hide Feed;
    FeedPlaces(site, log, items, i);
    var j := |Feed(site, log, items[..i])|;
    assert ClaimEvent(Feed(site, log, items)[j], items[i].cap, items[i].providerId);
  }
}
