/**
 What every run of the action loop promises, for any driver: exact fail-isolation whatever the order, an intent
 before every call, and a cause behind every failure.
 */
module ExecutorTheorems {
  import opened Prelude
  import opened Graph
  import opened Plan
  import opened Executor

  // ---- schedules -----------------------------------------------------------

  /** What the loader and the compiler guarantee of a plan's actions, after the injected edges. */
  ghost predicate ValidActions(actions: seq<Action>) {
    && Unique(Nodes(actions)) && Known(Nodes(actions))
    && forall a :: a in actions ==> a.id != ""
  }

  ghost predicate Before(todo: seq<Action>, i: int, d: string)
    requires i <= |todo|
  {
    exists j :: 0 <= j < i && todo[j].id == d
  }

  /** The same actions, each after everything it depends on. */
  ghost predicate Scheduled(actions: seq<Action>, todo: seq<Action>) {
    && (forall a :: a in todo <==> a in actions)
    && (forall i, j :: 0 <= i < j < |todo| ==> todo[i].id != todo[j].id)
    && (forall i, d :: 0 <= i < |todo| && d in todo[i].deps ==> Before(todo, i, d))
  }

  function ActionById(actions: seq<Action>, id: string): Option<Action> {
    if actions == [] then None
    else if actions[0].id == id then Some(actions[0])
    else ActionById(actions[1..], id)
  }

  lemma {:induction false} ActionByIdFinds(actions: seq<Action>, a: Action)
    requires Unique(Nodes(actions)) && a in actions
    ensures ActionById(actions, a.id) == Some(a)
  {
    if actions[0] != a {
      var i :| 0 < i < |actions| && actions[i] == a;
      assert Nodes(actions)[0].id != Nodes(actions)[i].id;
      var ns := Nodes(actions[1..]);
      assert forall k :: 0 <= k < |ns| ==> ns[k] == Nodes(actions)[k + 1];
      assert actions[1..][i - 1] == a;
      ActionByIdFinds(actions[1..], a);
    }
  }

  lemma IdHasAction(actions: seq<Action>, id: string) returns (a: Action)
    requires id in Ids(Nodes(actions))
    ensures a in actions && a.id == id
  {
    var n :| n in Nodes(actions) && n.id == id;
    var i :| 0 <= i < |actions| && Nodes(actions)[i] == n;
    a := actions[i];
  }

  lemma SameIdSameAction(actions: seq<Action>, a: Action, b: Action)
    requires Unique(Nodes(actions)) && a in actions && b in actions && a.id == b.id
    ensures a == b
  {
    ActionByIdFinds(actions, a);
    ActionByIdFinds(actions, b);
  }

  lemma ActionInTable(actions: seq<Action>, a: Action)
    requires Unique(Nodes(actions)) && a in actions
    ensures a.id in Table(Nodes(actions)) && Table(Nodes(actions))[a.id] == a.deps
  {
    var i :| 0 <= i < |actions| && actions[i] == a;
    TableEntry(Nodes(actions), i);
  }

  /** The actions in the order of their ids, as the loop looks them up. */
  function Schedule(actions: seq<Action>, order: seq<string>): (todo: seq<Action>)
    requires forall id :: id in order ==> ActionById(actions, id).Some?
    ensures |todo| == |order| && forall i :: 0 <= i < |order| ==> todo[i] == ActionById(actions, order[i]).value
  {
    seq(|order|, i requires 0 <= i < |order| => ActionById(actions, order[i]).value)
  }

  lemma OrderFinds(actions: seq<Action>, order: seq<string>)
    requires Unique(Nodes(actions)) && IsOrder(Nodes(actions), order)
    ensures forall id :: id in order ==> ActionById(actions, id).Some?
  {
    forall id | id in order
      ensures ActionById(actions, id).Some?
    {
      var a := IdHasAction(actions, id);
      ActionByIdFinds(actions, a);
    }
  }

  /** Every order the executor computes is a schedule of the plan's actions. */
  lemma OrderIsSchedule(actions: seq<Action>, order: seq<string>)
    requires Unique(Nodes(actions)) && IsOrder(Nodes(actions), order)
    ensures forall id :: id in order ==> ActionById(actions, id).Some?
    ensures Scheduled(actions, Schedule(actions, order))
  {
    OrderFinds(actions, order);
    var todo := Schedule(actions, order);
    forall i | 0 <= i < |order|
      ensures todo[i].id == order[i] && todo[i] in actions
    {
      var a := IdHasAction(actions, order[i]);
      ActionByIdFinds(actions, a);
    }
    forall a | a in actions
      ensures a in todo
    {
      ActionInTable(actions, a);
      ActionByIdFinds(actions, a);
      assert a.id in order;
      var i :| 0 <= i < |order| && order[i] == a.id;
      assert todo[i] == a;
    }
    forall i, d | 0 <= i < |todo| && d in todo[i].deps
      ensures Before(todo, i, d)
    {
      ActionInTable(actions, todo[i]);
      assert d in order[..i];
      var j :| 0 <= j < i && order[j] == d;
      assert todo[j].id == d;
    }
  }

  // ---- exact fail-isolation ------------------------------------------------

  /** The class an action has if it is attempted. */
  function FateClass(cx: Context, a: Action): Class {
    match cx.fate(a.id)
    case RefusedBefore(_) => Failed
    case Responds(r) => ClassOf(Effective(cx, a, r))
  }

  ghost function GraphOf(cx: Context): Deps {
    Table(Nodes(cx.actions))
  }

  ghost predicate Links(g: Deps, p: seq<string>, x: string, y: string) {
    Path(g, p) && |p| > 1 && p[0] == x && p[|p| - 1] == y
  }

  /** `y` is a direct or transitive dependency of `x`. */
  ghost predicate DependsOn(g: Deps, x: string, y: string) {
    exists p :: Links(g, p, x, y)
  }

  /** Some transitive dependency fails when attempted. */
  ghost predicate Blocked(cx: Context, a: Action) {
    exists d :: d in cx.actions && FateClass(cx, d) != Succeeded && DependsOn(GraphOf(cx), a.id, d.id)
  }

  /** What becomes of an action, from the dependencies and the driver's fates alone. */
  ghost function Expected(cx: Context, a: Action): Class {
    if Blocked(cx, a) then Skipped else FateClass(cx, a)
  }

  lemma DependsDirect(g: Deps, x: string, y: string)
    requires Edge(g, x, y)
    ensures DependsOn(g, x, y)
  {
    assert Path(g, [x, y]);
    assert Links(g, [x, y], x, y);
  }

  lemma DependsLater(g: Deps, x: string, d: string, y: string)
    requires Edge(g, x, d) && DependsOn(g, d, y)
    ensures DependsOn(g, x, y)
  {
    var p :| Links(g, p, d, y);
    var q := [x] + p;
    forall i, j | 0 <= i && j == i + 1 < |q|
      ensures Edge(g, q[i], q[j])
    {
      if i > 0 { assert Edge(g, p[i - 1], p[j - 1]); }
    }
    assert Links(g, q, x, y);
  }

  lemma DependsSplits(g: Deps, x: string, y: string) returns (d: string)
    requires DependsOn(g, x, y)
    ensures Edge(g, x, d) && (d == y || DependsOn(g, d, y))
  {
    var p :| Links(g, p, x, y);
    d := p[1];
    assert Edge(g, p[0], p[1]);
    if |p| > 2 {
      PathTail(g, p, 1);
      assert Links(g, p[1..], d, y);
    }
  }

  /** An action is blocked exactly when one of its own dependencies fails or is blocked. */
  lemma BlockedStep(cx: Context, a: Action)
    requires ValidActions(cx.actions) && a in cx.actions
    ensures Blocked(cx, a) <==> exists b :: b in cx.actions && b.id in a.deps && Expected(cx, b) != Succeeded
  {
    var g := GraphOf(cx);
    ActionInTable(cx.actions, a);
    if Blocked(cx, a) {
      var d :| d in cx.actions && FateClass(cx, d) != Succeeded && DependsOn(g, a.id, d.id);
      var id := DependsSplits(g, a.id, d.id);
      var b := IdHasAction(cx.actions, id);
      if id == d.id { SameIdSameAction(cx.actions, b, d); }
      assert Expected(cx, b) != Succeeded;
    }
    if b :| b in cx.actions && b.id in a.deps && Expected(cx, b) != Succeeded {
      ActionInTable(cx.actions, b);
      assert Edge(g, a.id, b.id);
      if Blocked(cx, b) {
        var d :| d in cx.actions && FateClass(cx, d) != Succeeded && DependsOn(g, b.id, d.id);
        DependsLater(g, a.id, b.id, d.id);
      } else {
        DependsDirect(g, a.id, b.id);
      }
    }
  }

  /** After the first `k` actions: exactly their outcomes are recorded, each as expected. */
  ghost predicate Isolated(cx: Context, todo: seq<Action>, k: nat, r: Run)
    requires k <= |todo|
  {
    && (forall id :: id in r.outcome <==> Before(todo, k, id))
    && (forall i :: 0 <= i < k ==> todo[i].id in r.outcome && r.outcome[todo[i].id] == Expected(cx, todo[i]))
  }

  lemma DepFailedIsBlocked(cx: Context, todo: seq<Action>, k: nat, r: Run)
    requires ValidActions(cx.actions) && Scheduled(cx.actions, todo) && k < |todo|
    requires Isolated(cx, todo, k, r)
    ensures DepFailed(r.outcome, todo[k]) <==> Blocked(cx, todo[k])
  {
    hide Expected, Blocked, ValidActions;
    var a := todo[k];
    assert a in cx.actions;
    BlockedStep(cx, a);
    if DepFailed(r.outcome, a) {
      var d :| d in a.deps && d != "" && OutcomeOf(r.outcome, d) != Succeeded;
      var j := DepIndex(cx, todo, k, d);
      assert todo[j] in cx.actions && todo[j].id in a.deps;
    }
    if b :| b in cx.actions && b.id in a.deps && Expected(cx, b) != Succeeded {
      var j := DepIndex(cx, todo, k, b.id);
      ValidIsUnique(cx.actions);
      SameIdSameAction(cx.actions, todo[j], b);
      assert OutcomeOf(r.outcome, b.id) != Succeeded;
    }
  }

  lemma ValidIsUnique(actions: seq<Action>)
    requires ValidActions(actions)
    ensures Unique(Nodes(actions))
    ensures forall a :: a in actions ==> a.id != ""
  {
  }

  lemma DepIndex(cx: Context, todo: seq<Action>, k: nat, d: string) returns (j: nat)
    requires ValidActions(cx.actions) && Scheduled(cx.actions, todo) && k < |todo| && d in todo[k].deps
    ensures j < k && todo[j].id == d && todo[j] in cx.actions && d != ""
  {
    assert Before(todo, k, d);
    j :| 0 <= j < k && todo[j].id == d;
    assert todo[j] in cx.actions;
  }

  /** The outcome an action is given, and nothing else recorded. */
  lemma StepOutcome(cx: Context, r: Run, a: Action)
    ensures StepAction(cx, r, a).outcome
      == r.outcome[a.id := if DepFailed(r.outcome, a) then Skipped else FateClass(cx, a)]
  {
  }

  lemma {:induction false} RunIsIsolated(cx: Context, r: Run, todo: seq<Action>, k: nat)
    requires ValidActions(cx.actions) && Scheduled(cx.actions, todo) && k <= |todo| && r.outcome == map[]
    ensures Isolated(cx, todo, k, RunActions(cx, r, todo[..k]))
    decreases k
  {
    hide RunActions, StepAction, Isolated, DepFailed, ValidActions;
    RunUnfolds(cx, r, todo, k);
    if k == 0 {
      IsolatedAtStart(cx, todo, r);
    } else {
      var before := RunActions(cx, r, todo[..k - 1]);
      RunIsIsolated(cx, r, todo, k - 1);
      DepFailedIsBlocked(cx, todo, k - 1, before);
      StepOutcome(cx, before, todo[k - 1]);
      IsolatedGrows(cx, todo, k - 1, before, StepAction(cx, before, todo[k - 1]));
    }
  }

  /** One turn of the loop. */
  lemma RunUnfolds(cx: Context, r: Run, todo: seq<Action>, k: nat)
    requires k <= |todo|
    ensures RunActions(cx, r, todo[..k])
      == if k == 0 then r else StepAction(cx, RunActions(cx, r, todo[..k - 1]), todo[k - 1])
  {
    if k > 0 { assert todo[..k][..k - 1] == todo[..k - 1] && todo[..k][k - 1] == todo[k - 1]; }
  }

  lemma IsolatedAtStart(cx: Context, todo: seq<Action>, r: Run)
    requires r.outcome == map[]
    ensures Isolated(cx, todo, 0, r)
  {
  }

  lemma BeforeGrows(todo: seq<Action>, k: nat, id: string)
    requires k < |todo|
    ensures Before(todo, k + 1, id) <==> Before(todo, k, id) || id == todo[k].id
  {
    if Before(todo, k, id) {
      var j :| 0 <= j < k && todo[j].id == id;
      assert Before(todo, k + 1, id);
    }
    if id == todo[k].id { assert Before(todo, k + 1, id); }
  }

  lemma IsolatedGrows(cx: Context, todo: seq<Action>, k: nat, r: Run, r': Run)
    requires Scheduled(cx.actions, todo) && k < |todo| && Isolated(cx, todo, k, r)
    requires r'.outcome == r.outcome[todo[k].id := Expected(cx, todo[k])]
    ensures Isolated(cx, todo, k + 1, r')
  {
    hide Expected, Before;
    assert forall i :: 0 <= i < k ==> todo[i].id != todo[k].id;
    forall id
      ensures id in r'.outcome <==> Before(todo, k + 1, id)
    {
      BeforeGrows(todo, k, id);
    }
  }

  /**
   An action runs exactly when everything it transitively depends on succeeded, and is skipped otherwise: it has the
   outcome of its own fate, and its driver call is made once, right after its own intent; or it is skipped, and no
   call is made.
   */
  lemma FailIsolation(cx: Context, bindings: map<string, Binding>, todo: seq<Action>)
    requires ValidActions(cx.actions) && Scheduled(cx.actions, todo)
    ensures WholeRun(cx, bindings, todo).outcome.Keys == Ids(Nodes(cx.actions))
    ensures forall a :: a in cx.actions ==>
      a.id in WholeRun(cx, bindings, todo).outcome && WholeRun(cx, bindings, todo).outcome[a.id] == Expected(cx, a)
    ensures forall a :: a in cx.actions ==> CallsRight(cx, WholeRun(cx, bindings, todo).trace, a)
  {
    hide Expected, RunActions, ValidActions, CallsRight;
    var start := Start(bindings, [LeaseTaken, Started]);
    RunIsIsolated(cx, start, todo, |todo|);
    assert todo[..|todo|] == todo;
    var r := RunActions(cx, start, todo);
    assert WholeRun(cx, bindings, todo).outcome == r.outcome;
    IsolatedIsComplete(cx, todo, r);
    forall a | a in cx.actions
      ensures CallsRight(cx, WholeRun(cx, bindings, todo).trace, a)
    {
      CallsFollowGraph(cx, bindings, todo, a);
    }
  }

  lemma IsolatedIsComplete(cx: Context, todo: seq<Action>, r: Run)
    requires ValidActions(cx.actions) && Scheduled(cx.actions, todo) && Isolated(cx, todo, |todo|, r)
    ensures r.outcome.Keys == Ids(Nodes(cx.actions))
    ensures forall a :: a in cx.actions ==> a.id in r.outcome && r.outcome[a.id] == Expected(cx, a)
  {
    hide Expected;
    forall a | a in cx.actions
      ensures a.id in r.outcome && r.outcome[a.id] == Expected(cx, a)
    {
      assert a in todo;
    }
    forall id
      ensures id in r.outcome <==> id in Ids(Nodes(cx.actions))
    {
      if id in r.outcome {
        var j :| 0 <= j < |todo| && todo[j].id == id;
        assert todo[j] in todo;
        ActionInTable(cx.actions, todo[j]);
      }
      if id in Ids(Nodes(cx.actions)) {
        var a := IdHasAction(cx.actions, id);
      }
    }
  }

  // ---- which calls are made ------------------------------------------------

  ghost function RunTo(cx: Context, bindings: map<string, Binding>, todo: seq<Action>, k: nat): Run
    requires k <= |todo|
  {
    RunActions(cx, Start(bindings, [LeaseTaken, Started]), todo[..k])
  }

  /** Idempotency keys are distinct within a capability, so that each intent is one action's. */
  ghost predicate DistinctKeys(actions: seq<Action>) {
    forall a, b :: a in actions && b in actions && a.capability == b.capability && a.key == b.key ==> a == b
  }

  lemma OpIdInjective(a: Action, b: Action)
    ensures OpId(a) == OpId(b) <==> a.key == b.key
    ensures OpId(a) != ""
  {
    assert OpId(a)[7..] == a.key && OpId(b)[7..] == b.key;
  }

  /** Nothing the action depends on fails, and nothing refuses it before its intent. */
  ghost predicate Attempts(cx: Context, a: Action) {
    !Blocked(cx, a) && cx.fate(a.id).Responds?
  }

  /** The driver is called for the action at `p`, right after the action's intent, and nowhere else. */
  ghost predicate CalledOnce(items: seq<Item>, a: Action, p: int) {
    && 0 < p < |items| && items[p] == Called(a.id) && items[p - 1] == Intent(a.capability, OpId(a))
    && forall q :: 0 <= q < |items| && items[q] == Called(a.id) ==> q == p
  }

  ghost predicate CallsRight(cx: Context, items: seq<Item>, a: Action) {
    if Attempts(cx, a) then exists p :: CalledOnce(items, a, p) else Called(a.id) !in items
  }

  lemma StepItemsOwn(cx: Context, r: Run, b: Action)
    ensures var s := StepItems(cx, r, b);
      && (forall x :: x in s && x.Called? ==> x == Called(b.id))
      && (forall x :: x in s && x.Intent? ==> x == Intent(b.capability, OpId(b)))
      && (s != [] ==> |s| > 2 && s[0] == Intent(b.capability, OpId(b)) && s[1] == Called(b.id))
      && (forall i :: 2 <= i < |s| ==> !s[i].Called? && !s[i].Intent?)
  {
    hide Effective, NextBinding, ReceiptStatus, DepFailed;
  }

  lemma {:induction false} TraceGrows(cx: Context, bindings: map<string, Binding>, todo: seq<Action>, m: nat, n: nat)
    requires m <= n <= |todo|
    ensures RunTo(cx, bindings, todo, m).trace <= RunTo(cx, bindings, todo, n).trace
    decreases n
  {
    hide RunActions, StepAction;
    if m < n {
      TraceGrows(cx, bindings, todo, m, n - 1);
      RunUnfolds(cx, Start(bindings, [LeaseTaken, Started]), todo, n);
      StepTrace(cx, RunTo(cx, bindings, todo, n - 1), todo[n - 1]);
    }
  }

  /** What no action in a stretch of the schedule contributes is not in that stretch of the trace. */
  lemma {:induction false} AbsentBetween(cx: Context, bindings: map<string, Binding>, todo: seq<Action>, m: nat,
                                         n: nat, x: Item)
    requires m <= n <= |todo|
    requires forall i :: m <= i < n ==> x !in StepItems(cx, RunTo(cx, bindings, todo, i), todo[i])
    ensures RunTo(cx, bindings, todo, m).trace <= RunTo(cx, bindings, todo, n).trace
    ensures x !in RunTo(cx, bindings, todo, n).trace[|RunTo(cx, bindings, todo, m).trace|..]
    decreases n
  {
    hide RunActions, StepAction, StepItems;
    TraceGrows(cx, bindings, todo, m, n);
    if m < n {
      var r := RunTo(cx, bindings, todo, n - 1);
      AbsentBetween(cx, bindings, todo, m, n - 1, x);
      RunUnfolds(cx, Start(bindings, [LeaseTaken, Started]), todo, n);
      StepTrace(cx, r, todo[n - 1]);
      var k := |RunTo(cx, bindings, todo, m).trace|;
      assert RunTo(cx, bindings, todo, n).trace[k..] == r.trace[k..] + StepItems(cx, r, todo[n - 1]);
    }
  }

  lemma OthersDiffer(cx: Context, bindings: map<string, Binding>, todo: seq<Action>, k: nat, i: nat)
    requires ValidActions(cx.actions) && Scheduled(cx.actions, todo) && k < |todo| && i < |todo| && i != k
    ensures Called(todo[k].id) !in StepItems(cx, RunTo(cx, bindings, todo, i), todo[i])
    ensures DistinctKeys(cx.actions) ==>
      Intent(todo[k].capability, OpId(todo[k])) !in StepItems(cx, RunTo(cx, bindings, todo, i), todo[i])
  {
    hide RunActions, StepItems;
    StepItemsOwn(cx, RunTo(cx, bindings, todo, i), todo[i]);
    OpIdInjective(todo[i], todo[k]);
    assert todo[i] in cx.actions && todo[k] in cx.actions && todo[i].id != todo[k].id;
  }

  /** A whole trace around one action's items: its call, and with distinct keys its intent, is only among them. */
  lemma OwnItems(cx: Context, bindings: map<string, Binding>, todo: seq<Action>, k: nat) returns (rest: seq<Item>)
    requires ValidActions(cx.actions) && Scheduled(cx.actions, todo) && k < |todo|
    ensures var r := RunTo(cx, bindings, todo, k); var a := todo[k];
      && WholeRun(cx, bindings, todo).trace == r.trace + StepItems(cx, r, a) + rest
      && Called(a.id) !in r.trace && Called(a.id) !in rest
      && (DistinctKeys(cx.actions) ==>
            Intent(a.capability, OpId(a)) !in r.trace && Intent(a.capability, OpId(a)) !in rest)
  {
    hide RunActions, StepAction, StepItems, ValidActions, DistinctKeys, Scheduled;
    var a, start := todo[k], Start(bindings, [LeaseTaken, Started]);
    var t0, t1, t2 := RunTo(cx, bindings, todo, k).trace, RunTo(cx, bindings, todo, k + 1).trace,
      RunTo(cx, bindings, todo, |todo|).trace;
    RunUnfolds(cx, start, todo, 0);
    RunUnfolds(cx, start, todo, k + 1);
    StepTrace(cx, RunTo(cx, bindings, todo, k), a);
    assert todo[..|todo|] == todo;
    TraceGrows(cx, bindings, todo, k + 1, |todo|);
    TraceGrows(cx, bindings, todo, 0, k);
    rest := WholeRun(cx, bindings, todo).trace[|t1|..];
    forall i | 0 <= i < |todo| && i != k
      ensures Called(a.id) !in StepItems(cx, RunTo(cx, bindings, todo, i), todo[i])
      ensures DistinctKeys(cx.actions) ==>
        Intent(a.capability, OpId(a)) !in StepItems(cx, RunTo(cx, bindings, todo, i), todo[i])
    {
      OthersDiffer(cx, bindings, todo, k, i);
    }
    AbsentAround(cx, bindings, todo, k, Called(a.id));
    if DistinctKeys(cx.actions) { AbsentAround(cx, bindings, todo, k, Intent(a.capability, OpId(a))); }
  }

  /** A whole trace is the loop's, which starts with the lease and the start marker, and two closing items. */
  lemma WholeTrace(cx: Context, bindings: map<string, Binding>, todo: seq<Action>) returns (tail: seq<Item>)
    ensures WholeRun(cx, bindings, todo).trace == RunTo(cx, bindings, todo, |todo|).trace + tail
    ensures RunTo(cx, bindings, todo, 0).trace == [LeaseTaken, Started]
    ensures forall x :: x in tail ==> !x.Called? && !x.Intent?
  {
    hide RunActions;
    RunUnfolds(cx, Start(bindings, [LeaseTaken, Started]), todo, 0);
    assert todo[..|todo|] == todo;
    var r := RunTo(cx, bindings, todo, |todo|);
    tail := [if r.worst.Succeeded? then FinishedMark else FailedMark, LeaseFreed];
  }

  lemma AbsentAround(cx: Context, bindings: map<string, Binding>, todo: seq<Action>, k: nat, x: Item)
    requires k < |todo| && (x.Called? || x.Intent?)
    requires forall i :: 0 <= i < |todo| && i != k ==> x !in StepItems(cx, RunTo(cx, bindings, todo, i), todo[i])
    ensures x !in RunTo(cx, bindings, todo, k).trace
    ensures |RunTo(cx, bindings, todo, k + 1).trace| <= |WholeRun(cx, bindings, todo).trace|
    ensures x !in WholeRun(cx, bindings, todo).trace[|RunTo(cx, bindings, todo, k + 1).trace|..]
  {
    hide *;
    var tail := WholeTrace(cx, bindings, todo);
    AbsentBetween(cx, bindings, todo, 0, k, x);
    AbsentBetween(cx, bindings, todo, k + 1, |todo|, x);
    var t0, t1, t2 := RunTo(cx, bindings, todo, k).trace, RunTo(cx, bindings, todo, k + 1).trace,
      RunTo(cx, bindings, todo, |todo|).trace;
    AbsentOnce([LeaseTaken, Started], t0, x);
    assert (t2 + tail)[|t1|..] == t2[|t1|..] + tail;
  }

  lemma AbsentOnce(head: seq<Item>, whole: seq<Item>, x: Item)
    requires head <= whole && x !in head && x !in whole[|head|..]
    ensures x !in whole
  {
    assert whole == head + whole[|head|..];
  }

  lemma ScheduledAt(cx: Context, todo: seq<Action>, a: Action) returns (k: nat)
    requires Scheduled(cx.actions, todo) && a in cx.actions
    ensures k < |todo| && todo[k] == a
  {
    assert a in todo;
    k :| 0 <= k < |todo| && todo[k] == a;
  }

  lemma ItemsIffAttempts(cx: Context, bindings: map<string, Binding>, todo: seq<Action>, k: nat)
    requires ValidActions(cx.actions) && Scheduled(cx.actions, todo) && k < |todo|
    ensures StepItems(cx, RunTo(cx, bindings, todo, k), todo[k]) != [] <==> Attempts(cx, todo[k])
  {
    hide RunActions, Isolated, DepFailed, Blocked, ValidActions, Scheduled, Effective, NextBinding;
    RunIsIsolated(cx, Start(bindings, [LeaseTaken, Started]), todo, k);
    DepFailedIsBlocked(cx, todo, k, RunTo(cx, bindings, todo, k));
  }

  /** The driver is called for an action, once and under its own intent, exactly when the action is to be attempted. */
  lemma CallsFollowGraph(cx: Context, bindings: map<string, Binding>, todo: seq<Action>, a: Action)
    requires ValidActions(cx.actions) && Scheduled(cx.actions, todo) && a in cx.actions
    ensures CallsRight(cx, WholeRun(cx, bindings, todo).trace, a)
  {
    var k := ScheduledAt(cx, todo, a);
    hide RunActions, StepItems, Attempts, ValidActions, Scheduled, WholeRun, DistinctKeys, OpId;
    var r := RunTo(cx, bindings, todo, k);
    var s := StepItems(cx, r, a);
    var rest := OwnItems(cx, bindings, todo, k);
    StepItemsOwn(cx, r, a);
    ItemsIffAttempts(cx, bindings, todo, k);
    if s != [] { CallAt(r.trace, s, rest, a); }
  }

  lemma CallAt(past: seq<Item>, s: seq<Item>, rest: seq<Item>, a: Action)
    requires |s| > 2 && s[0] == Intent(a.capability, OpId(a)) && s[1] == Called(a.id)
    requires Called(a.id) !in past && Called(a.id) !in rest
    requires forall i :: 2 <= i < |s| ==> !s[i].Called?
    ensures CalledOnce(past + s + rest, a, |past| + 1)
  {
    var whole, p := past + s + rest, |past| + 1;
    assert whole[p] == s[1] && whole[p - 1] == s[0];
    forall q | 0 <= q < |whole| && whole[q] == Called(a.id)
      ensures q == p
    {
      ItemComesFrom(past, s, rest, q);
    }
  }

  /** Where keys are distinct, an intent is always the one its action's call follows: a blocked action writes none. */
  lemma IntentMeansCall(cx: Context, bindings: map<string, Binding>, todo: seq<Action>, a: Action, q: nat)
    requires ValidActions(cx.actions) && Scheduled(cx.actions, todo) && DistinctKeys(cx.actions) && a in cx.actions
    requires q < |WholeRun(cx, bindings, todo).trace|
    requires WholeRun(cx, bindings, todo).trace[q] == Intent(a.capability, OpId(a))
    ensures Attempts(cx, a) && CalledOnce(WholeRun(cx, bindings, todo).trace, a, q + 1)
  {
    var k := ScheduledAt(cx, todo, a);
    hide RunActions, StepItems, Attempts, ValidActions, Scheduled, WholeRun, DistinctKeys, OpId;
    var r := RunTo(cx, bindings, todo, k);
    var s := StepItems(cx, r, a);
    var rest := OwnItems(cx, bindings, todo, k);
    StepItemsOwn(cx, r, a);
    ItemsIffAttempts(cx, bindings, todo, k);
    IntentAt(r.trace, s, rest, a, q);
    CallAt(r.trace, s, rest, a);
  }

  lemma IntentAt(past: seq<Item>, s: seq<Item>, rest: seq<Item>, a: Action, q: nat)
    requires q < |past + s + rest| && (past + s + rest)[q] == Intent(a.capability, OpId(a))
    requires Intent(a.capability, OpId(a)) !in past && Intent(a.capability, OpId(a)) !in rest
    requires s != [] ==> |s| > 2 && s[1] == Called(a.id)
    requires forall i :: 2 <= i < |s| ==> !s[i].Intent?
    ensures s != [] && q == |past|
  {
    ItemComesFrom(past, s, rest, q);
  }

  lemma ItemComesFrom(past: seq<Item>, s: seq<Item>, rest: seq<Item>, q: nat)
    requires q < |past + s + rest|
    ensures var x := (past + s + rest)[q];
      x in past || x in rest || (|past| <= q < |past| + |s| && x == s[q - |past|])
  {
  }

  /** So the outcomes are the same whichever valid order is taken. */
  lemma OutcomeIgnoresOrder(cx: Context, bindings: map<string, Binding>, todo: seq<Action>, todo': seq<Action>)
    requires ValidActions(cx.actions) && Scheduled(cx.actions, todo) && Scheduled(cx.actions, todo')
    ensures WholeRun(cx, bindings, todo).outcome == WholeRun(cx, bindings, todo').outcome
  {
    FailIsolation(cx, bindings, todo);
    FailIsolation(cx, bindings, todo');
    var m, m' := WholeRun(cx, bindings, todo).outcome, WholeRun(cx, bindings, todo').outcome;
    forall id | id in m
      ensures m[id] == m'[id]
    {
      var a := IdHasAction(cx.actions, id);
    }
  }

  // ---- a failed run carries its cause --------------------------------------

  /** The code an action contributes when it is attempted and does not succeed. */
  function FateCode(cx: Context, a: Action): Code {
    match cx.fate(a.id)
    case RefusedBefore(unresolved) => RefusalCode(unresolved)
    case Responds(_) => CodeOf(FateClass(cx, a))
  }

  /** The run's worst class so far: the first attempted action at the worst severity, and its own code. */
  ghost predicate Caused(cx: Context, todo: seq<Action>, k: nat, r: Run)
    requires k <= |todo|
  {
    && (forall i :: 0 <= i < k ==> todo[i].id in r.outcome && Severity(r.outcome[todo[i].id]) <= Severity(r.worst))
    && (r.worst != Succeeded ==> exists i :: IsCause(cx, todo, k, r, i))
  }

  /** Action `i` really failed, was throttled or is unknown, no earlier action was as bad, and the code is its own. */
  ghost predicate IsCause(cx: Context, todo: seq<Action>, k: nat, r: Run, i: int)
    requires k <= |todo|
  {
    && 0 <= i < k && todo[i].id in r.outcome && r.outcome[todo[i].id] == r.worst
    && r.worst == FateClass(cx, todo[i]) && (r.worst == Failed || r.worst == Throttled || r.worst == Unknown)
    && r.worstCode == FateCode(cx, todo[i]) && r.worstCode != NoCode
    && forall j :: 0 <= j < i && todo[j].id in r.outcome ==> Severity(r.outcome[todo[j].id]) < Severity(r.worst)
  }

  lemma FateIsReal(cx: Context, a: Action)
    ensures FateClass(cx, a) == Succeeded || FateClass(cx, a) == Failed
      || FateClass(cx, a) == Throttled || FateClass(cx, a) == Unknown
    ensures FateClass(cx, a) != Succeeded ==> FateCode(cx, a) != NoCode && Severity(FateClass(cx, a)) > 1
  {
  }

  lemma StepCause(cx: Context, r: Run, a: Action)
    ensures var cls := if DepFailed(r.outcome, a) then Skipped else FateClass(cx, a);
      var code := if DepFailed(r.outcome, a) then NoCode else FateCode(cx, a);
      var r' := StepAction(cx, r, a);
      var worse := Severity(cls) > Severity(r.worst);
      && r'.outcome == r.outcome[a.id := cls]
      && r'.worst == (if worse then cls else r.worst)
      && r'.worstCode == (if worse then code else r.worstCode)
  {
    hide Effective, Segment, DepFailed, NextBinding;
  }

  lemma CauseGrows(cx: Context, todo: seq<Action>, k: nat, r: Run)
    requires Scheduled(cx.actions, todo) && k < |todo| && Caused(cx, todo, k, r)
    requires forall id :: id in r.outcome <==> Before(todo, k, id)
    ensures Caused(cx, todo, k + 1, StepAction(cx, r, todo[k]))
  {
    var a := todo[k];
    assert forall i :: 0 <= i < k ==> todo[i].id != a.id;
    assert a.id !in r.outcome;
    hide StepAction, FateClass, FateCode, DepFailed, Scheduled, Before;
    var r' := StepAction(cx, r, a);
    StepCause(cx, r, a);
    FateIsReal(cx, a);
    FailedDepIsRecorded(cx, todo, k, r);
    if r'.worst != r.worst {
      NewCause(cx, todo, k, r, r');
    } else if r.worst != Succeeded {
      var i := OldCause(cx, todo, k, r, r');
    }
  }

  lemma OldCause(cx: Context, todo: seq<Action>, k: nat, r: Run, r': Run) returns (i: int)
    requires k < |todo| && Caused(cx, todo, k, r) && r.worst != Succeeded
    requires todo[k].id in r'.outcome && r'.outcome == r.outcome[todo[k].id := r'.outcome[todo[k].id]]
    requires forall i :: 0 <= i < k ==> todo[i].id != todo[k].id
    requires r'.worst == r.worst && r'.worstCode == r.worstCode
    ensures IsCause(cx, todo, k + 1, r', i)
  {
    hide FateClass, FateCode;
    i :| IsCause(cx, todo, k, r, i);
  }

  lemma NewCause(cx: Context, todo: seq<Action>, k: nat, r: Run, r': Run)
    requires k < |todo| && Caused(cx, todo, k, r) && Severity(r'.worst) > Severity(r.worst)
    requires r'.outcome == r.outcome[todo[k].id := r'.worst] && forall i :: 0 <= i < k ==> todo[i].id != todo[k].id
    requires r'.worst == FateClass(cx, todo[k]) && r'.worstCode == FateCode(cx, todo[k]) && r'.worstCode != NoCode
    requires r'.worst == Failed || r'.worst == Throttled || r'.worst == Unknown
    ensures IsCause(cx, todo, k + 1, r', k)
  {
    hide FateClass, FateCode;
  }

  /** A skip only ever follows a real failure, which already outranks it. */
  lemma FailedDepIsRecorded(cx: Context, todo: seq<Action>, k: nat, r: Run)
    requires k < |todo| && Caused(cx, todo, k, r)
    requires forall id :: id in r.outcome <==> Before(todo, k, id)
    ensures DepFailed(r.outcome, todo[k]) ==> Severity(r.worst) > Severity(Skipped)
  {
    if DepFailed(r.outcome, todo[k]) {
      var d :| d in todo[k].deps && d != "" && OutcomeOf(r.outcome, d) != Succeeded;
      var j :| 0 <= j < k && todo[j].id == d;
      assert Severity(r.outcome[todo[j].id]) <= Severity(r.worst);
    }
  }

  lemma {:induction false} RunIsCaused(cx: Context, r: Run, todo: seq<Action>, k: nat)
    requires ValidActions(cx.actions) && Scheduled(cx.actions, todo) && k <= |todo|
    requires r.outcome == map[] && r.worst == Succeeded
    ensures Caused(cx, todo, k, RunActions(cx, r, todo[..k]))
    decreases k
  {
    hide RunActions, StepAction, ValidActions;
    RunUnfolds(cx, r, todo, k);
    if k > 0 {
      RunIsCaused(cx, r, todo, k - 1);
      RunIsIsolated(cx, r, todo, k - 1);
      CauseGrows(cx, todo, k - 1, RunActions(cx, r, todo[..k - 1]));
    }
  }

  /** The trace ends with the marker and the release, and has no marker before. */
  predicate EndsMarked(trace: seq<Item>, marker: Item) {
    var n := |trace| - 2;
    && n >= 0 && trace[n..] == [marker, LeaseFreed]
    && forall k :: 0 <= k < n ==> !IsMarker(trace[k])
  }

  /**
   A run exits 4 exactly when some action did not succeed, and then names the code of an action that itself
   failed, was throttled or is unknown; the marker that says which it was comes once, right before the release.
   */
  lemma FailedRunHasCause(cx: Context, bindings: map<string, Binding>, todo: seq<Action>)
    requires ValidActions(cx.actions) && Scheduled(cx.actions, todo)
    ensures var r := WholeRun(cx, bindings, todo);
      && (ExitCode(r) == 4 <==> exists a :: a in cx.actions && Expected(cx, a) != Succeeded)
      && (ExitCode(r) == 4 ==> r.worstCode != NoCode && exists i :: IsCause(cx, todo, |todo|, r, i))
      && EndsMarked(r.trace, if ExitCode(r) == 0 then FinishedMark else FailedMark)
  {
    hide RunActions, Expected, Blocked, FateClass, ValidActions, Caused, IsCause;
    var start := Start(bindings, [LeaseTaken, Started]);
    var done := RunActions(cx, start, todo);
    RunIsCaused(cx, start, todo, |todo|);
    NoMarkerInside(cx, start, todo, |todo|);
    FailIsolation(cx, bindings, todo);
    assert todo[..|todo|] == todo;
    MarkedOnce(done);
    CauseExists(cx, todo, done, WholeRun(cx, bindings, todo));
  }

  lemma CauseExists(cx: Context, todo: seq<Action>, done: Run, r: Run)
    requires Scheduled(cx.actions, todo) && Caused(cx, todo, |todo|, done)
    requires forall a :: a in cx.actions ==> a.id in done.outcome && done.outcome[a.id] == Expected(cx, a)
    requires r.outcome == done.outcome && r.worst == done.worst && r.worstCode == done.worstCode
    ensures r.worst != Succeeded <==> exists a :: a in cx.actions && Expected(cx, a) != Succeeded
    ensures r.worst != Succeeded ==> r.worstCode != NoCode && exists i :: IsCause(cx, todo, |todo|, r, i)
  {
    hide Expected, FateClass, FateCode;
    if done.worst != Succeeded {
      var i :| IsCause(cx, todo, |todo|, done, i);
      assert IsCause(cx, todo, |todo|, r, i);
      assert todo[i] in cx.actions;
    }
    if a :| a in cx.actions && Expected(cx, a) != Succeeded {
      var i :| 0 <= i < |todo| && todo[i] == a;
      assert Severity(done.outcome[todo[i].id]) <= Severity(done.worst);
    }
  }

  lemma MarkedOnce(done: Run)
    requires FinishedMark !in done.trace && FailedMark !in done.trace
    ensures EndsMarked(Close(done).trace, if done.worst.Succeeded? then FinishedMark else FailedMark)
  {
    var marker := if done.worst.Succeeded? then FinishedMark else FailedMark;
    assert Close(done).trace == done.trace + [marker, LeaseFreed];
    assert forall k :: 0 <= k < |done.trace| ==> Close(done).trace[k] in done.trace;
  }

  predicate IsMarker(item: Item) {
    item == FinishedMark || item == FailedMark
  }

  lemma {:induction false} NoMarkerInside(cx: Context, r: Run, todo: seq<Action>, k: nat)
    requires k <= |todo| && forall x :: x in r.trace ==> !IsMarker(x)
    ensures forall x :: x in RunActions(cx, r, todo[..k]).trace ==> !IsMarker(x)
    decreases k
  {
    hide RunActions;
    RunUnfolds(cx, r, todo, k);
    if k > 0 {
      NoMarkerInside(cx, r, todo, k - 1);
      StepTrace(cx, RunActions(cx, r, todo[..k - 1]), todo[k - 1]);
    }
  }

  /** The items a step adds: none, or one action's segment. */
  function StepItems(cx: Context, r: Run, a: Action): seq<Item> {
    if DepFailed(r.outcome, a) then []
    else match cx.fate(a.id)
      case RefusedBefore(_) => []
      case Responds(resp) => Segment(cx, r.bindings, a, Effective(cx, a, resp))
  }

  lemma StepTrace(cx: Context, r: Run, a: Action)
    ensures StepAction(cx, r, a).trace == r.trace + StepItems(cx, r, a)
    ensures forall x :: x in StepItems(cx, r, a) ==> !IsMarker(x)
  {
  }
}
