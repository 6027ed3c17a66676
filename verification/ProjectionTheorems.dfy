/**
 What a run writes into the binding of a capability: every tombstone and every replaced id in the order of the
 schedule, the generation of each create and update, and the ids the run reports.
 */
module ProjectionTheorems {
  import opened Plan
  import opened Executor
  import opened ExecutorTheorems
  import opened ReplaceTheorems

  /** The driver's own response to an action that is not refused before its intent. */
  function ResponseTo(cx: Context, a: Action): Response
    requires cx.fate(a.id).Responds?
  {
    cx.fate(a.id).response
  }

  ghost predicate Succeeds(cx: Context, a: Action) {
    cx.fate(a.id).Responds? && Expected(cx, a) == Succeeded
  }

  /** The tombstones of the successful deletes on a capability, in order. */
  ghost function Graves(cx: Context, todo: seq<Action>, cap: string): seq<Tombstone> {
    if todo == [] then []
    else
      var x := todo[|todo| - 1];
      Graves(cx, todo[..|todo| - 1], cap)
        + if DeletesOn(x, cap) && Succeeds(cx, x)
          then [Tombstone(x.targetId, x.targetGeneration, x.target, cx.clock, ResponseTo(cx, x).operationId)]
          else []
  }

  /** The ids that successful creates and updates on a capability say they replace, in order. */
  ghost function Lineage(cx: Context, todo: seq<Action>, cap: string): seq<string> {
    if todo == [] then []
    else
      var x := todo[|todo| - 1];
      Lineage(cx, todo[..|todo| - 1], cap)
        + if Writes(x) && x.capability == cap && x.successorOf != "" && Succeeds(cx, x) then [x.successorOf] else []
  }

  /** What an attempt that failed, or a skip, or a refusal leaves. */
  lemma UnsuccessfulKeeps(cx: Context, bindings: map<string, Binding>, todo: seq<Action>, k: nat)
    requires ValidActions(cx.actions) && Scheduled(cx.actions, todo) && k < |todo| && Expected(cx, todo[k]) != Succeeded
    ensures RunTo(cx, bindings, todo, k + 1).bindings == RunTo(cx, bindings, todo, k).bindings
    ensures RunTo(cx, bindings, todo, k + 1).results == RunTo(cx, bindings, todo, k).results
  {
    hide RunActions, ValidActions, Isolated, DepFailed, Blocked, Segment, Effective, NextBinding;
    var start := Start(bindings, [LeaseTaken, Started]);
    RunUnfolds(cx, start, todo, k + 1);
    RunIsIsolated(cx, start, todo, k);
    DepFailedIsBlocked(cx, todo, k, RunTo(cx, bindings, todo, k));
  }

  lemma SucceedsMeansResponds(cx: Context, bindings: map<string, Binding>, todo: seq<Action>, k: nat)
    requires ValidActions(cx.actions) && Scheduled(cx.actions, todo) && k < |todo| && Expected(cx, todo[k]) == Succeeded
    ensures Succeeds(cx, todo[k]) && Answer(cx, todo[k]) == ResponseTo(cx, todo[k])
    ensures RunTo(cx, bindings, todo, k + 1)
      == Attempt(cx, RunTo(cx, bindings, todo, k), todo[k], ResponseTo(cx, todo[k]))
    ensures ResponseTo(cx, todo[k]).status.StatusSucceeded?
  {
    hide RunActions, Attempt, Expected;
    SuccessIsAttempt(cx, bindings, todo, k);
  }

  /** What one attempt makes of a capability's tombstones and lineage. */
  lemma AttemptProjects(cx: Context, r: Run, a: Action, resp: Response, cap: string)
    requires resp.status.StatusSucceeded?
    ensures var b, b' := BindingOf(r.bindings, cap), BindingOf(Attempt(cx, r, a, resp).bindings, cap);
      && b'.tombstones == b.tombstones
           + (if DeletesOn(a, cap)
              then [Tombstone(a.targetId, a.targetGeneration, a.target, cx.clock, resp.operationId)] else [])
      && b'.replaced == b.replaced
           + (if Writes(a) && a.capability == cap && a.successorOf != "" then [a.successorOf] else [])
  {
    hide Segment;
  }

  /** Tombstones and lineage are what they were, followed by those of the schedule in its order: none is ever lost. */
  lemma {:induction false} ProjectionFollowsSchedule(cx: Context, bindings: map<string, Binding>, todo: seq<Action>,
                                                     k: nat, cap: string)
    requires ValidActions(cx.actions) && Scheduled(cx.actions, todo) && k <= |todo|
    ensures var was, now := BindingOf(bindings, cap), BindingOf(RunTo(cx, bindings, todo, k).bindings, cap);
      && now.tombstones == was.tombstones + Graves(cx, todo[..k], cap)
      && now.replaced == was.replaced + Lineage(cx, todo[..k], cap)
    decreases k
  {
    hide RunActions, Attempt, Expected, ValidActions, Scheduled, Effective, BindingOf;
    if k == 0 {
      RunUnfolds(cx, Start(bindings, [LeaseTaken, Started]), todo, 0);
    } else {
      ProjectionFollowsSchedule(cx, bindings, todo, k - 1, cap);
      var r, x := RunTo(cx, bindings, todo, k - 1), todo[k - 1];
      assert todo[..k][..k - 1] == todo[..k - 1] && todo[..k][k - 1] == x;
      if Expected(cx, x) == Succeeded {
        SucceedsMeansResponds(cx, bindings, todo, k - 1);
        AttemptProjects(cx, r, x, ResponseTo(cx, x), cap);
      } else {
        UnsuccessfulKeeps(cx, bindings, todo, k - 1);
      }
    }
  }

  /** A whole run's tombstones and lineage. */
  lemma RunKeepsHistory(cx: Context, bindings: map<string, Binding>, todo: seq<Action>, cap: string)
    requires ValidActions(cx.actions) && Scheduled(cx.actions, todo)
    ensures var was, now := BindingOf(bindings, cap), BindingOf(WholeRun(cx, bindings, todo).bindings, cap);
      && now.tombstones == was.tombstones + Graves(cx, todo, cap)
      && now.replaced == was.replaced + Lineage(cx, todo, cap)
  {
    hide RunActions, BindingOf;
    ProjectionFollowsSchedule(cx, bindings, todo, |todo|, cap);
    assert todo[..|todo|] == todo;
  }

  /** A successful create or update binds what the driver came back with, under the plan's own generation if it names
      one, or else one more than the generation bound before, or the first. */
  lemma GenerationWritten(cx: Context, bindings: map<string, Binding>, todo: seq<Action>, i: nat)
    requires ValidActions(cx.actions) && Scheduled(cx.actions, todo) && i < |todo|
    requires Writes(todo[i]) && Expected(cx, todo[i]) == Succeeded
    ensures cx.fate(todo[i].id).Responds?
    ensures var a := todo[i];
      var was := BindingOf(RunTo(cx, bindings, todo, i).bindings, a.capability).resources;
      var now := BindingOf(RunTo(cx, bindings, todo, i + 1).bindings, a.capability).resources;
      && |now| == 1 && now[0].providerId == cx.fate(a.id).response.providerId && now[0].resourceType == a.target
      && (a.targetGeneration >= 1 ==> now[0].generation == a.targetGeneration)
      && (a.targetGeneration < 1 && was != [] ==> now[0].generation == was[0].generation + 1)
      && (a.targetGeneration < 1 && was == [] ==> now[0].generation == 1)
  {
    hide RunActions, Expected, ValidActions, Scheduled, Effective, Segment;
    SucceedsMeansResponds(cx, bindings, todo, i);
  }

  /** A successful delete clears the binding exactly when nothing was bound or the pinned id was; a resource that has
      taken its place survives as it is. */
  lemma DeleteSparesSuccessor(cx: Context, bindings: map<string, Binding>, todo: seq<Action>, i: nat)
    requires ValidActions(cx.actions) && Scheduled(cx.actions, todo) && i < |todo|
    requires todo[i].operation.Delete? && Expected(cx, todo[i]) == Succeeded
    ensures var a := todo[i];
      var was := BindingOf(RunTo(cx, bindings, todo, i).bindings, a.capability).resources;
      var now := BindingOf(RunTo(cx, bindings, todo, i + 1).bindings, a.capability).resources;
      && (was != [] && was[0].providerId != "" && was[0].providerId != a.targetId ==>
            now == was && RunTo(cx, bindings, todo, i + 1).results == RunTo(cx, bindings, todo, i).results)
      && (was == [] || was[0].providerId == "" || was[0].providerId == a.targetId ==> now == [])
  {
    hide RunActions, Expected, ValidActions, Scheduled, Effective, Segment;
    SucceedsMeansResponds(cx, bindings, todo, i);
  }

  // ---- what the run reports --------------------------------------------------

  /** The id reported for a capability is the one bound. */
  ghost predicate ReportsBound(r: Run, cap: string) {
    cap in r.results ==>
      && BindingOf(r.bindings, cap).resources != []
      && r.results[cap] == BindingOf(r.bindings, cap).resources[0].providerId
  }

  lemma AttemptReports(cx: Context, r: Run, a: Action, resp: Response, cap: string)
    requires resp.status.StatusSucceeded? && ReportsBound(r, cap) && !(a.operation.Claim? && a.capability == cap)
    ensures ReportsBound(Attempt(cx, r, a, resp), cap)
    ensures Writes(a) && a.capability == cap ==>
      cap in Attempt(cx, r, a, resp).results && Attempt(cx, r, a, resp).results[cap] == resp.providerId
  {
    hide Segment;
  }

  /** Where a capability is not claimed, the run reports the id it ends bound to, or nothing. */
  lemma {:induction false} RunReportsBound(cx: Context, bindings: map<string, Binding>, todo: seq<Action>, k: nat,
                                           cap: string)
    requires ValidActions(cx.actions) && Scheduled(cx.actions, todo) && k <= |todo|
    requires forall a :: a in todo && a.capability == cap ==> !a.operation.Claim?
    ensures ReportsBound(RunTo(cx, bindings, todo, k), cap)
    decreases k
  {
    hide RunActions, Attempt, Expected, ValidActions, Scheduled, Effective, BindingOf;
    if k == 0 {
      RunUnfolds(cx, Start(bindings, [LeaseTaken, Started]), todo, 0);
    } else {
      RunReportsBound(cx, bindings, todo, k - 1, cap);
      var r, x := RunTo(cx, bindings, todo, k - 1), todo[k - 1];
      assert x in todo;
      if Expected(cx, x) == Succeeded {
        SucceedsMeansResponds(cx, bindings, todo, k - 1);
        AttemptReports(cx, r, x, ResponseTo(cx, x), cap);
      } else {
        UnsuccessfulKeeps(cx, bindings, todo, k - 1);
      }
    }
  }

  /** A successful write is reported at once, and a successful claim reports and records the id that was bound before
      the run. */
  lemma SuccessIsReported(cx: Context, bindings: map<string, Binding>, todo: seq<Action>, i: nat)
    requires ValidActions(cx.actions) && Scheduled(cx.actions, todo) && i < |todo|
    requires !todo[i].operation.Delete? && Expected(cx, todo[i]) == Succeeded
    ensures cx.fate(todo[i].id).Responds?
    ensures var a := todo[i];
      var id := if Writes(a) then cx.fate(a.id).response.providerId
                else if a.capability in cx.bound then cx.bound[a.capability] else "";
      var r, r' := RunTo(cx, bindings, todo, i), RunTo(cx, bindings, todo, i + 1);
      && a.capability in r'.results && r'.results[a.capability] == id
      && (a.operation.Claim? ==> r'.bindings == r.bindings && Claimed(a.id, a.capability, id) in r'.trace)
  {
    hide RunActions, Expected, ValidActions, Scheduled, Effective;
    SucceedsMeansResponds(cx, bindings, todo, i);
    var r, a := RunTo(cx, bindings, todo, i), todo[i];
    if a.operation.Claim? {
      var s := Segment(cx, r.bindings, a, ResponseTo(cx, a));
      assert (r.trace + s)[|r.trace| + 2] == s[2];
    }
  }
}
