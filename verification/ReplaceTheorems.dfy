/**
 Create-before-destroy: the old resource of a replacement is only destroyed after its successor exists and is
 bound. A capability whose actions all succeed ends bound as its last create or update left it, unless a delete after
 that destroyed what it came back with; every deleted id is in its tombstones.
 */
module ReplaceTheorems {
  import opened Graph
  import opened Plan
  import opened Executor
  import opened ExecutorTheorems

  /** `x` is another action that writes a binding of the capability of the create `c`. */
  predicate Beside(actions: seq<Action>, c: Action, x: Action) {
    x in actions && x != c && x.capability == c.capability && !x.operation.Claim?
  }

  /** Claims aside, every other action on the create's capability is a delete that waits for it: the one that
      destroys what it replaces, and any that clears an orphan of the capability. */
  ghost predicate Replaces(actions: seq<Action>, c: Action) {
    && c in actions && c.operation.Create?
    && forall x :: Beside(actions, c, x) ==> x.operation.Delete? && x.targetId != "" && c.id in x.deps
  }

  /** Where a plan creates a capability once and otherwise only claims it and deletes on it, the injected edges make
      that a replacement whatever edges the plan declared. */
  lemma EnforcedIsReplacement(actions: seq<Action>, i: nat)
    requires Unique(Nodes(actions)) && i < |actions|
    requires actions[i].operation.Create? && actions[i].id != "" && actions[i].capability != ""
    requires forall x :: Beside(actions, actions[i], x) ==> x.operation.Delete? && x.targetId != ""
    ensures Replaces(Enforced(actions), Enforced(actions)[i])
  {
    var r, c := Enforced(actions), actions[i];
    EnforcedKeeps(actions, i);
    assert r[i] in r;
    forall x | Beside(r, r[i], x)
      ensures x.operation.Delete? && x.targetId != "" && r[i].id in x.deps
    {
      var k :| 0 <= k < |r| && r[k] == x;
      EnforcedKeeps(actions, k);
      assert Nodes(actions)[k].id != Nodes(actions)[i].id;
      assert Beside(actions, c, actions[k]);
      forall a | a in actions && a.operation.Create? && a.capability == c.capability
        ensures a == c
      {
        assert a != c ==> Beside(actions, c, a);
      }
      EdgeIsThere(actions, c, k);
    }
  }

  /** The response a successful action was concluded with. */
  function Answer(cx: Context, a: Action): Response
    requires cx.fate(a.id).Responds?
  {
    Effective(cx, a, cx.fate(a.id).response)
  }

  lemma SuccessIsAttempt(cx: Context, bindings: map<string, Binding>, todo: seq<Action>, k: nat)
    requires ValidActions(cx.actions) && Scheduled(cx.actions, todo) && k < |todo| && Expected(cx, todo[k]) == Succeeded
    ensures cx.fate(todo[k].id).Responds? && Answer(cx, todo[k]).status.StatusSucceeded?
    ensures RunTo(cx, bindings, todo, k + 1)
      == Attempt(cx, RunTo(cx, bindings, todo, k), todo[k], Answer(cx, todo[k]))
  {
    hide RunActions, Attempt, ValidActions, Isolated;
    var start := Start(bindings, [LeaseTaken, Started]);
    RunUnfolds(cx, start, todo, k + 1);
    RunIsIsolated(cx, start, todo, k);
    DepFailedIsBlocked(cx, todo, k, RunTo(cx, bindings, todo, k));
  }

  lemma StepKeepsBinding(cx: Context, r: Run, a: Action, cap: string)
    requires a.capability != cap || a.operation.Claim?
    ensures BindingOf(StepAction(cx, r, a).bindings, cap) == BindingOf(r.bindings, cap)
  {
  }

  // ---- what a capability ends bound to -------------------------------------

  predicate Writes(a: Action) {
    a.operation.Create? || a.operation.Update?
  }

  predicate DeletesOn(a: Action, cap: string) {
    a.operation.Delete? && a.capability == cap
  }

  /** No create or update of the capability is scheduled after this one. */
  ghost predicate LastWriter(todo: seq<Action>, i: nat) {
    && i < |todo| && Writes(todo[i])
    && forall j :: i < j < |todo| && todo[j].capability == todo[i].capability ==> !Writes(todo[j])
  }

  /** A binding to `id`, once some deletes have run. */
  ghost predicate EndsAs(b: Binding, id: string, gone: bool) {
    if gone then b.resources == [] else |b.resources| == 1 && b.resources[0].providerId == id
  }

  ghost predicate HasTombstone(b: Binding, id: string) {
    exists t :: t in b.tombstones && t.providerId == id
  }

  /** Deleting `target` leaves nothing bound where the binding is to `id`. */
  predicate Destroys(target: string, id: string) {
    id == "" || target == id
  }

  /** Some delete between the two points left nothing bound. */
  ghost predicate Gone(todo: seq<Action>, i: nat, k: nat, cap: string, id: string)
    requires k <= |todo|
  {
    exists j :: i < j < k && DeletesOn(todo[j], cap) && Destroys(todo[j].targetId, id)
  }

  ghost predicate AllSucceed(cx: Context, c: Action) {
    forall a :: a in cx.actions && a.capability == c.capability ==> Expected(cx, a) == Succeeded
  }

  lemma DeleteEnds(cx: Context, b: Binding, x: Action, resp: Response, id: string, gone: bool)
    requires x.operation.Delete? && EndsAs(b, id, gone)
    ensures EndsAs(NextBinding(cx, b, x, resp), id, gone || Destroys(x.targetId, id))
  {
  }

  /** After the write at `i` and some of the schedule: what is bound. */
  ghost predicate BoundAfter(cx: Context, bindings: map<string, Binding>, todo: seq<Action>, i: nat, k: nat, id: string)
    requires i < k <= |todo|
  {
    var cap := todo[i].capability;
    EndsAs(BindingOf(RunTo(cx, bindings, todo, k).bindings, cap), id, Gone(todo, i, k, cap, id))
  }

  lemma GoneGrows(todo: seq<Action>, i: nat, k: nat, cap: string, id: string)
    requires i < k < |todo|
    ensures Gone(todo, i, k + 1, cap, id) <==>
      Gone(todo, i, k, cap, id) || (DeletesOn(todo[k], cap) && Destroys(todo[k].targetId, id))
  {
    if Gone(todo, i, k, cap, id) {
      var j :| i < j < k && DeletesOn(todo[j], cap) && Destroys(todo[j].targetId, id);
      assert Gone(todo, i, k + 1, cap, id);
    }
  }

  lemma WriterBinds(cx: Context, bindings: map<string, Binding>, todo: seq<Action>, i: nat)
    requires ValidActions(cx.actions) && Scheduled(cx.actions, todo) && i < |todo|
    requires Writes(todo[i]) && Expected(cx, todo[i]) == Succeeded
    ensures cx.fate(todo[i].id).Responds?
    ensures BoundAfter(cx, bindings, todo, i, i + 1, Answer(cx, todo[i]).providerId)
  {
    hide RunActions, Expected, ValidActions, Scheduled, Effective, Segment;
    SuccessIsAttempt(cx, bindings, todo, i);
  }

  lemma {:induction false} WriterEnds(cx: Context, bindings: map<string, Binding>, todo: seq<Action>, i: nat, k: nat)
    requires ValidActions(cx.actions) && Scheduled(cx.actions, todo) && i < k <= |todo|
    requires LastWriter(todo, i) && AllSucceed(cx, todo[i])
    ensures cx.fate(todo[i].id).Responds?
    ensures BoundAfter(cx, bindings, todo, i, k, Answer(cx, todo[i]).providerId)
    decreases k
  {
    hide *;
    WritesAndSucceeds(cx, todo, i);
    WriterBinds(cx, bindings, todo, i);
    if i + 1 < k {
      WriterEnds(cx, bindings, todo, i, k - 1);
      if todo[k - 1].capability == todo[i].capability && !todo[k - 1].operation.Claim? {
        DeletesAfter(cx, todo, i, k - 1);
        DeleteStep(cx, bindings, todo, i, k - 1, Answer(cx, todo[i]).providerId);
      } else {
        OtherStep(cx, bindings, todo, i, k - 1, Answer(cx, todo[i]).providerId);
      }
    }
  }

  lemma WritesAndSucceeds(cx: Context, todo: seq<Action>, i: nat)
    requires Scheduled(cx.actions, todo) && LastWriter(todo, i) && AllSucceed(cx, todo[i])
    ensures Writes(todo[i]) && Expected(cx, todo[i]) == Succeeded
  {
    hide Expected;
    assert todo[i] in todo;
  }

  lemma DeletesAfter(cx: Context, todo: seq<Action>, i: nat, k: nat)
    requires Scheduled(cx.actions, todo) && LastWriter(todo, i) && AllSucceed(cx, todo[i])
    requires i < k < |todo| && todo[k].capability == todo[i].capability && !todo[k].operation.Claim?
    ensures DeletesOn(todo[k], todo[i].capability) && Expected(cx, todo[k]) == Succeeded
  {
    hide Expected;
    assert todo[k] in todo;
  }

  lemma OtherStep(cx: Context, bindings: map<string, Binding>, todo: seq<Action>, i: nat, k: nat, id: string)
    requires i < k < |todo| && (todo[k].capability != todo[i].capability || todo[k].operation.Claim?)
    requires BoundAfter(cx, bindings, todo, i, k, id)
    ensures BoundAfter(cx, bindings, todo, i, k + 1, id)
  {
    hide RunActions, StepAction, Gone, EndsAs;
    GoneGrows(todo, i, k, todo[i].capability, id);
    RunUnfolds(cx, Start(bindings, [LeaseTaken, Started]), todo, k + 1);
    StepKeepsBinding(cx, RunTo(cx, bindings, todo, k), todo[k], todo[i].capability);
  }

  lemma DeleteStep(cx: Context, bindings: map<string, Binding>, todo: seq<Action>, i: nat, k: nat, id: string)
    requires ValidActions(cx.actions) && Scheduled(cx.actions, todo) && i < k < |todo|
    requires DeletesOn(todo[k], todo[i].capability) && Expected(cx, todo[k]) == Succeeded
    requires BoundAfter(cx, bindings, todo, i, k, id)
    ensures BoundAfter(cx, bindings, todo, i, k + 1, id)
  {
    hide RunActions, Expected, ValidActions, Scheduled, Effective, Segment, Gone, EndsAs, NextBinding;
    var cap, x := todo[i].capability, todo[k];
    GoneGrows(todo, i, k, cap, id);
    SuccessIsAttempt(cx, bindings, todo, k);
    var b := BindingOf(RunTo(cx, bindings, todo, k).bindings, cap);
    DeleteEnds(cx, b, x, Answer(cx, x), id, Gone(todo, i, k, cap, id));
    assert BindingOf(RunTo(cx, bindings, todo, k + 1).bindings, cap) == NextBinding(cx, b, x, Answer(cx, x));
  }

  // ---- tombstones ----------------------------------------------------------

  /** Every delete so far has its tombstone. */
  ghost predicate Buried(cx: Context, bindings: map<string, Binding>, todo: seq<Action>, k: nat, cap: string)
    requires k <= |todo|
  {
    forall j :: 0 <= j < k && DeletesOn(todo[j], cap) ==>
      HasTombstone(BindingOf(RunTo(cx, bindings, todo, k).bindings, cap), todo[j].targetId)
  }

  lemma TombstonesStay(cx: Context, r: Run, a: Action, cap: string, id: string)
    requires HasTombstone(BindingOf(r.bindings, cap), id)
    ensures HasTombstone(BindingOf(StepAction(cx, r, a).bindings, cap), id)
  {
    hide Effective, Segment, DepFailed;
    var b, b' := BindingOf(r.bindings, cap), BindingOf(StepAction(cx, r, a).bindings, cap);
    assert b.tombstones <= b'.tombstones;
    var t :| t in b.tombstones && t.providerId == id;
    assert t in b'.tombstones;
  }

  lemma DeleteBuries(cx: Context, b: Binding, x: Action, resp: Response)
    requires x.operation.Delete?
    ensures HasTombstone(NextBinding(cx, b, x, resp), x.targetId)
  {
    var b' := NextBinding(cx, b, x, resp);
    assert b'.tombstones[|b'.tombstones| - 1].providerId == x.targetId;
  }

  lemma {:induction false} DeletedAreBuried(cx: Context, bindings: map<string, Binding>, todo: seq<Action>, k: nat,
                                            c: Action)
    requires ValidActions(cx.actions) && Scheduled(cx.actions, todo) && k <= |todo| && AllSucceed(cx, c)
    ensures Buried(cx, bindings, todo, k, c.capability)
    decreases k
  {
    hide *;
    if k > 0 {
      DeletedAreBuried(cx, bindings, todo, k - 1, c);
      SucceedsOnCapability(cx, todo, k - 1, c);
      BuriedStep(cx, bindings, todo, k - 1, c.capability);
    } else {
      NoneBuriedYet(cx, bindings, todo, c.capability);
    }
  }

  lemma NoneBuriedYet(cx: Context, bindings: map<string, Binding>, todo: seq<Action>, cap: string)
    ensures Buried(cx, bindings, todo, 0, cap)
  {
  }

  lemma SucceedsOnCapability(cx: Context, todo: seq<Action>, k: nat, c: Action)
    requires Scheduled(cx.actions, todo) && k < |todo| && AllSucceed(cx, c)
    ensures DeletesOn(todo[k], c.capability) ==> Expected(cx, todo[k]) == Succeeded
  {
    hide Expected;
    assert todo[k] in todo;
  }

  lemma BuriedStep(cx: Context, bindings: map<string, Binding>, todo: seq<Action>, k: nat, cap: string)
    requires ValidActions(cx.actions) && Scheduled(cx.actions, todo) && k < |todo| && Buried(cx, bindings, todo, k, cap)
    requires DeletesOn(todo[k], cap) ==> Expected(cx, todo[k]) == Succeeded
    ensures Buried(cx, bindings, todo, k + 1, cap)
  {
    hide RunActions, Expected, ValidActions, Scheduled, HasTombstone, StepAction, Effective, Segment, NextBinding;
    RunUnfolds(cx, Start(bindings, [LeaseTaken, Started]), todo, k + 1);
    var r, x := RunTo(cx, bindings, todo, k), todo[k];
    forall j | 0 <= j < k && DeletesOn(todo[j], cap)
      ensures HasTombstone(BindingOf(RunTo(cx, bindings, todo, k + 1).bindings, cap), todo[j].targetId)
    {
      TombstonesStay(cx, r, x, cap, todo[j].targetId);
    }
    if DeletesOn(x, cap) {
      SuccessIsAttempt(cx, bindings, todo, k);
      DeleteBuries(cx, BindingOf(r.bindings, cap), x, Answer(cx, x));
    }
  }

  /**
   Everything on a capability succeeded, claims, updates and further creates included: every deleted id is in the
   tombstones, and what is bound is what the last create or update came back with, unless a delete after it had that
   very id, or there was a delete after it and it came back with none.
   */
  lemma CapabilityEnds(cx: Context, bindings: map<string, Binding>, todo: seq<Action>, i: nat)
    requires ValidActions(cx.actions) && Scheduled(cx.actions, todo) && LastWriter(todo, i) && AllSucceed(cx, todo[i])
    ensures cx.fate(todo[i].id).Responds?
    ensures var id, cap := Answer(cx, todo[i]).providerId, todo[i].capability;
      var b := BindingOf(WholeRun(cx, bindings, todo).bindings, cap);
      && EndsAs(b, id, Gone(todo, i, |todo|, cap, id))
      && forall x :: x in cx.actions && DeletesOn(x, cap) ==> HasTombstone(b, x.targetId)
  {
    WriterEnds(cx, bindings, todo, i, |todo|);
    DeletedAreBuried(cx, bindings, todo, |todo|, todo[i]);
    hide RunActions, Effective, EndsAs, HasTombstone, AllSucceed, Gone, LastWriter;
    assert todo[..|todo|] == todo;
    forall x | x in cx.actions && DeletesOn(x, todo[i].capability)
      ensures exists j :: 0 <= j < |todo| && todo[j] == x
    {
      var j := ScheduledAt(cx, todo, x);
    }
  }

  /** A replacement's create is its capability's last writer, and what comes after it are the deletes beside it. */
  lemma ReplacementIsLastWriter(cx: Context, todo: seq<Action>, c: Action) returns (i: nat)
    requires ValidActions(cx.actions) && Scheduled(cx.actions, todo) && Replaces(cx.actions, c)
    ensures LastWriter(todo, i) && todo[i] == c
    ensures forall x :: Beside(cx.actions, c, x) <==>
      exists j :: i < j < |todo| && todo[j] == x && DeletesOn(x, c.capability)
  {
    i := ScheduledAt(cx, todo, c);
    forall x | Beside(cx.actions, c, x)
      ensures exists j :: i < j < |todo| && todo[j] == x
    {
      var j := ScheduledAt(cx, todo, x);
      var i' := DepIndex(cx, todo, j, c.id);
      assert i' == i;
    }
    forall j | i < j < |todo| && todo[j].capability == c.capability && !todo[j].operation.Claim?
      ensures Beside(cx.actions, c, todo[j])
    {
      assert todo[j] in todo;
    }
  }

  /**
   Everything on a replacement's capability succeeded: every deleted id is in the tombstones, and the capability is
   bound to the create's id unless a delete came with that very id, or there was a delete and the create returned none.
   */
  lemma ReplacementEnds(cx: Context, bindings: map<string, Binding>, todo: seq<Action>, c: Action)
    requires ValidActions(cx.actions) && Scheduled(cx.actions, todo) && Replaces(cx.actions, c) && AllSucceed(cx, c)
    ensures cx.fate(c.id).Responds?
    ensures var id := Answer(cx, c).providerId; var b := BindingOf(WholeRun(cx, bindings, todo).bindings, c.capability);
      && EndsAs(b, id, exists x :: Beside(cx.actions, c, x) && Destroys(x.targetId, id))
      && forall x :: Beside(cx.actions, c, x) ==> HasTombstone(b, x.targetId)
  {
    hide WholeRun, Effective, EndsAs, HasTombstone, AllSucceed, LastWriter;
    var i := ReplacementIsLastWriter(cx, todo, c);
    CapabilityEnds(cx, bindings, todo, i);
    var id := Answer(cx, c).providerId;
    if x :| Beside(cx.actions, c, x) && Destroys(x.targetId, id) {
      assert Gone(todo, i, |todo|, c.capability, id);
    }
  }

  /** The backstop: a create never succeeds with the id it is held to replace. */
  lemma BackstopHolds(cx: Context, c: Action)
    requires c.operation.Create? && cx.fate(c.id).Responds? && Answer(cx, c).status.StatusSucceeded?
    ensures OldId(cx.actions, c) != "" ==> Answer(cx, c).providerId != OldId(cx.actions, c)
  {
  }

  /** Every delete beside the create pins the id the backstop guards. */
  ghost predicate PinsAgree(actions: seq<Action>, c: Action) {
    forall x :: Beside(actions, c, x) ==> x.targetId == OldId(actions, c)
  }

  /** With `replaces` absent or agreeing, a single delete always agrees. */
  lemma SinglePinAgrees(actions: seq<Action>, c: Action, x: Action)
    requires Replaces(actions, c) && Beside(actions, c, x) && forall y :: Beside(actions, c, y) ==> y == x
    ensures PinsAgree(actions, c) <==> c.successorOf == "" || c.successorOf == x.targetId
  {
    assert forall a :: a in actions && a.capability == x.capability && a.operation.Delete? ==> Beside(actions, c, a);
    LastPin(actions, x);
  }

  lemma {:induction false} LastPin(actions: seq<Action>, x: Action)
    requires x in actions && x.operation.Delete? && x.targetId != ""
    requires forall a :: a in actions && a.capability == x.capability && a.operation.Delete? ==> a == x
    ensures LastTarget(actions, x.capability) == x.targetId
  {
    var n := |actions| - 1;
    assert actions == actions[..n] + [actions[n]];
    if actions[n] != x { LastPin(actions[..n], x); }
  }

  /** So a replacement whose create returned an id ends bound to it, never to nothing, where all pins agree. */
  lemma ReplacementEndsBound(cx: Context, bindings: map<string, Binding>, todo: seq<Action>, c: Action)
    requires ValidActions(cx.actions) && Scheduled(cx.actions, todo) && Replaces(cx.actions, c) && AllSucceed(cx, c)
    requires PinsAgree(cx.actions, c)
    ensures cx.fate(c.id).Responds?
    ensures var id := Answer(cx, c).providerId; var b := BindingOf(WholeRun(cx, bindings, todo).bindings, c.capability);
      && (id != "" ==> EndsAs(b, id, false))
      && forall x :: Beside(cx.actions, c, x) ==> id != x.targetId && HasTombstone(b, x.targetId)
  {
    hide RunActions, WholeRun, Effective, HasTombstone, OldId;
    ReplacementEnds(cx, bindings, todo, c);
    var i := ScheduledAt(cx, todo, c);
    SuccessIsAttempt(cx, bindings, todo, i);
    BackstopHolds(cx, c);
  }

  // ---- where the backstop does not reach -----------------------------------

  const NEW_DB := Action("new", "db", Create, "gcp.sql/db", "k1", [], "", 0, "db-0")

  const OLD_DB := Action("old", "db", Delete, "gcp.sql/db", "k2", ["new"], "db-1", 1, "")

  /** A driver that adopts db-1 for the create and then deletes it. */
  function AdoptingDriver(aid: string): Fate {
    Responds(Response(StatusSucceeded, if aid == "new" then "db-1" else "", "", false, true))
  }

  const DISAGREEING := Context([NEW_DB, OLD_DB], map["db" := "db-1"], 0, AdoptingDriver)

  /**
   The backstop trusts the create's own `replaces` when it is present. If that names another id than the paired
   delete pins, a create that adopts the pinned resource passes it, and the run succeeds with nothing bound.
   */
  lemma DisagreeingReplacesEndsUnbound(bindings: map<string, Binding>)
    ensures var r := WholeRun(DISAGREEING, bindings, [NEW_DB, OLD_DB]);
      r.worst == Succeeded && BindingOf(r.bindings, "db").resources == []
  {
    var cx, todo := DISAGREEING, [NEW_DB, OLD_DB];
    var start := Start(bindings, [LeaseTaken, Started]);
    AdoptedThenDeleted(start);
    hide RunActions, StepAction;
    RunUnfolds(cx, start, todo, 0);
    RunUnfolds(cx, start, todo, 1);
    RunUnfolds(cx, start, todo, 2);
    assert todo[..2] == todo;
  }

  lemma AdoptedThenDeleted(start: Run)
    requires start.outcome == map[] && start.worst == Succeeded
    ensures var r := StepAction(DISAGREEING, StepAction(DISAGREEING, start, NEW_DB), OLD_DB);
      r.worst == Succeeded && BindingOf(r.bindings, "db").resources == []
  {
    var cx := DISAGREEING;
    AdoptedAnswer();
    hide Effective, Segment;
    var r := StepAction(cx, start, NEW_DB);
    assert r.outcome["new"] == Succeeded && r.worst == Succeeded;
    assert CurrentId(BindingOf(r.bindings, "db")) == "db-1";
  }

  lemma AdoptedAnswer()
    ensures DISAGREEING.fate("new").Responds? && DISAGREEING.fate("old").Responds?
    ensures Answer(DISAGREEING, NEW_DB) == Response(StatusSucceeded, "db-1", "", false, true)
    ensures Answer(DISAGREEING, OLD_DB).status == StatusSucceeded
  {
    assert "db-0" != "db-1" by { assert "db-0"[3] != "db-1"[3]; }
    assert "new" != "old" by { assert "new"[0] != "old"[0]; }
  }

  const NO_REPLACES: Action := NEW_DB.(successorOf := "")

  const ORPHAN_DB := Action("orphan", "db", Delete, "gcp.sql/db", "k3", ["new"], "db-0", 1, "")

  const TWO_DELETES := DISAGREEING.(actions := [NO_REPLACES, OLD_DB, ORPHAN_DB])

  /** Without `replaces`, the backstop only guards the last delete's pin: a plan that also clears an orphan lets a
      create adopt what the first delete then destroys, and the run succeeds with nothing bound. */
  lemma TwoDeletesEndUnbound(bindings: map<string, Binding>)
    ensures var r := WholeRun(TWO_DELETES, bindings, TWO_DELETES.actions);
      r.worst == Succeeded && BindingOf(r.bindings, "db").resources == []
  {
    var cx, todo := TWO_DELETES, TWO_DELETES.actions;
    var start := Start(bindings, [LeaseTaken, Started]);
    AdoptedThenBothDeleted(start);
    hide RunActions, StepAction;
    RunUnfolds(cx, start, todo, 0);
    RunUnfolds(cx, start, todo, 1);
    RunUnfolds(cx, start, todo, 2);
    RunUnfolds(cx, start, todo, 3);
    assert todo[..3] == todo;
  }

  lemma AdoptedThenBothDeleted(start: Run)
    requires start.outcome == map[] && start.worst == Succeeded
    ensures var cx := TWO_DELETES;
      var r := StepAction(cx, StepAction(cx, StepAction(cx, start, NO_REPLACES), OLD_DB), ORPHAN_DB);
      r.worst == Succeeded && BindingOf(r.bindings, "db").resources == []
  {
    var cx := TWO_DELETES;
    AnswersWithOrphan();
    hide Effective, Segment;
    var r := StepAction(cx, start, NO_REPLACES);
    assert r.outcome["new"] == Succeeded && r.worst == Succeeded;
    assert CurrentId(BindingOf(r.bindings, "db")) == "db-1";
    var r' := StepAction(cx, r, OLD_DB);
    assert r'.outcome["new"] == Succeeded && r'.worst == Succeeded && BindingOf(r'.bindings, "db").resources == [];
  }

  lemma AnswersWithOrphan()
    ensures forall id :: TWO_DELETES.fate(id).Responds?
    ensures Answer(TWO_DELETES, NO_REPLACES) == Response(StatusSucceeded, "db-1", "", false, true)
    ensures Answer(TWO_DELETES, OLD_DB).status == Answer(TWO_DELETES, ORPHAN_DB).status == StatusSucceeded
    ensures "old" != "new"
  {
    var actions := TWO_DELETES.actions;
    assert "db-0" != "db-1" by { assert "db-0"[3] != "db-1"[3]; }
    assert "new" != "old" by { assert "new"[0] != "old"[0]; }
    assert actions[|actions| - 1] == ORPHAN_DB;
    assert LastTarget(actions, "db") == "db-0";
  }

  const RESIZED := Action("resize", "db", Update, "gcp.sql/db", "k4", ["new"], "", 0, "")

  /** The create comes back with a fresh id, the update with the one that is deleted. */
  function WanderingDriver(aid: string): Fate {
    Responds(Response(StatusSucceeded, if aid == "new" then "db-2" else if aid == "resize" then "db-1" else "", "",
                      false, true))
  }

  const THEN_UPDATED := Context([NO_REPLACES, RESIZED, OLD_DB], map["db" := "db-1"], 0, WanderingDriver)

  /** The backstop looks at creates alone: an update between the create and the delete can come back with the very id
      the delete pins, and the run succeeds with nothing bound. */
  lemma UpdateEndsUnbound(bindings: map<string, Binding>)
    ensures var r := WholeRun(THEN_UPDATED, bindings, THEN_UPDATED.actions);
      r.worst == Succeeded && BindingOf(r.bindings, "db").resources == []
  {
    var cx, todo := THEN_UPDATED, THEN_UPDATED.actions;
    var start := Start(bindings, [LeaseTaken, Started]);
    UpdatedThenDeleted(start);
    hide RunActions, StepAction;
    RunUnfolds(cx, start, todo, 0);
    RunUnfolds(cx, start, todo, 1);
    RunUnfolds(cx, start, todo, 2);
    RunUnfolds(cx, start, todo, 3);
    assert todo[..3] == todo;
  }

  lemma UpdatedThenDeleted(start: Run)
    requires start.outcome == map[] && start.worst == Succeeded
    ensures var cx := THEN_UPDATED;
      var r := StepAction(cx, StepAction(cx, StepAction(cx, start, NO_REPLACES), RESIZED), OLD_DB);
      r.worst == Succeeded && BindingOf(r.bindings, "db").resources == []
  {
    var cx := THEN_UPDATED;
    AnswersWithUpdate();
    hide Effective, Segment;
    var r := StepAction(cx, start, NO_REPLACES);
    assert r.outcome["new"] == Succeeded && r.worst == Succeeded;
    var r' := StepAction(cx, r, RESIZED);
    assert r'.outcome["new"] == Succeeded && r'.worst == Succeeded;
    assert CurrentId(BindingOf(r'.bindings, "db")) == "db-1";
  }

  lemma AnswersWithUpdate()
    ensures forall id :: THEN_UPDATED.fate(id).Responds?
    ensures Answer(THEN_UPDATED, NO_REPLACES).status == StatusSucceeded
    ensures Answer(THEN_UPDATED, RESIZED) == Response(StatusSucceeded, "db-1", "", false, true)
    ensures Answer(THEN_UPDATED, OLD_DB).status == StatusSucceeded
    ensures "resize" != "new"
  {
    var actions := THEN_UPDATED.actions;
    assert "db-1" != "db-2" by { assert "db-1"[3] != "db-2"[3]; }
    assert "new" != "old" by { assert "new"[0] != "old"[0]; }
    assert "resize" != "new" by { assert "resize"[0] != "new"[0]; }
    assert "resize" != "old" by { assert "resize"[0] != "old"[0]; }
    assert actions[|actions| - 1] == OLD_DB;
    assert LastTarget(actions, "db") == "db-1";
  }

  // ---- exactly when something stays bound ----------------------------------

  /** If everything on the capability succeeds and its last create or update `w` returned an id, something is still
      bound. */
  ghost predicate KeepsSomething(cx: Context, bindings: map<string, Binding>, todo: seq<Action>, w: Action) {
    AllSucceed(cx, w) && cx.fate(w.id).Responds? && Answer(cx, w).providerId != "" ==>
      BindingOf(WholeRun(cx, bindings, todo).bindings, w.capability).resources != []
  }

  /** Every call succeeds, and one action comes back with the given id. */
  function Adopting(aid: string, id: string): string -> Fate {
    x => Responds(Response(StatusSucceeded, if x == aid then id else "", "", false, true))
  }

  lemma AdoptingSucceeds(cx: Context, w: Action, id: string)
    requires ValidActions(cx.actions) && w in cx.actions && cx.fate == Adopting(w.id, id)
    requires w.operation.Create? ==> OldId(cx.actions, w) != id
    ensures forall a :: a in cx.actions ==> Expected(cx, a) == Succeeded
    ensures Answer(cx, w).providerId == id
  {
    forall a | a in cx.actions
      ensures FateClass(cx, a) == Succeeded
    {
      if a.id == w.id { SameIdSameAction(cx.actions, a, w); }
    }
  }

  /** A delete scheduled after the last writer of its capability pins the id the backstop guards, which it does for
      creates alone. A delete without a pin destroys nothing. */
  ghost predicate Guarded(actions: seq<Action>, todo: seq<Action>, i: nat)
    requires i < |todo|
  {
    forall j :: i < j < |todo| && DeletesOn(todo[j], todo[i].capability) && todo[j].targetId != "" ==>
      todo[i].operation.Create? && todo[j].targetId == OldId(actions, todo[i])
  }

  /** Then what the last writer came back with stays bound. */
  lemma GuardedEndsBound(cx: Context, bindings: map<string, Binding>, todo: seq<Action>, i: nat)
    requires ValidActions(cx.actions) && Scheduled(cx.actions, todo) && LastWriter(todo, i) && AllSucceed(cx, todo[i])
    requires Guarded(cx.actions, todo, i)
    ensures cx.fate(todo[i].id).Responds?
    ensures var id := Answer(cx, todo[i]).providerId;
      id != "" ==> EndsAs(BindingOf(WholeRun(cx, bindings, todo).bindings, todo[i].capability), id, false)
  {
    WritesAndSucceeds(cx, todo, i);
    hide RunActions, WholeRun, Effective, HasTombstone, OldId, EndsAs, LastWriter, AllSucceed;
    CapabilityEnds(cx, bindings, todo, i);
    SuccessIsAttempt(cx, bindings, todo, i);
    if todo[i].operation.Create? { BackstopHolds(cx, todo[i]); }
  }

  /** Whatever the driver does, a capability that is created or updated keeps something bound exactly when every delete
      after its last create or update pins the id the backstop guards for it: a delete after an update never does. */
  lemma KeepsSomethingExactlyWhen(actions: seq<Action>, bound: map<string, string>, clock: int,
                                  bindings: map<string, Binding>, todo: seq<Action>, i: nat)
    requires ValidActions(actions) && Scheduled(actions, todo) && LastWriter(todo, i)
    ensures (forall fate :: KeepsSomething(Context(actions, bound, clock, fate), bindings, todo, todo[i]))
      <==> Guarded(actions, todo, i)
  {
    var w := todo[i];
    assert w in todo;
    hide WholeRun, ValidActions, Scheduled, Expected, Effective, OldId, LastWriter;
    if Guarded(actions, todo, i) {
      forall fate
        ensures KeepsSomething(Context(actions, bound, clock, fate), bindings, todo, w)
      {
        var cx := Context(actions, bound, clock, fate);
        if AllSucceed(cx, w) { GuardedEndsBound(cx, bindings, todo, i); }
      }
    } else {
      var j :| i < j < |todo| && DeletesOn(todo[j], w.capability) && todo[j].targetId != ""
        && (w.operation.Create? ==> todo[j].targetId != OldId(actions, w));
      var cx := Context(actions, bound, clock, Adopting(w.id, todo[j].targetId));
      AdoptingSucceeds(cx, w, todo[j].targetId);
      CapabilityEnds(cx, bindings, todo, i);
      assert Gone(todo, i, |todo|, w.capability, Answer(cx, w).providerId);
      assert !KeepsSomething(cx, bindings, todo, w);
    }
  }

  /** For a replacement that is a condition on the plan: every delete beside the create pins the id the backstop guards,
      the create's own `replaces` or else the last pinned target. */
  lemma ReplacementKeepsExactlyWhen(actions: seq<Action>, bound: map<string, string>, clock: int,
                                    bindings: map<string, Binding>, todo: seq<Action>, c: Action)
    requires ValidActions(actions) && Scheduled(actions, todo) && Replaces(actions, c)
    ensures (forall fate :: KeepsSomething(Context(actions, bound, clock, fate), bindings, todo, c))
      <==> PinsAgree(actions, c)
  {
    var i := ReplacementIsLastWriter(Context(actions, bound, clock, Adopting("", "")), todo, c);
    KeepsSomethingExactlyWhen(actions, bound, clock, bindings, todo, i);
    hide KeepsSomething, ValidActions, Scheduled, OldId, LastWriter;
    assert Guarded(actions, todo, i) <==> PinsAgree(actions, c);
  }

  // ---- the order of the calls ----------------------------------------------

  /** The binding a successful create writes. */
  ghost predicate Creates(item: Item, c: Action, id: string) {
    item.Bound? && item.aid == c.id && item.cap == c.capability
    && |item.binding.resources| == 1 && item.binding.resources[0].providerId == id
  }

  /** Wherever an action that waits for a create is called, a delete above all, the create has succeeded and its binding
      is already appended. */
  lemma CreateBeforeDestroy(cx: Context, bindings: map<string, Binding>, todo: seq<Action>, c: Action, x: Action,
                            q: nat)
    requires ValidActions(cx.actions) && Scheduled(cx.actions, todo)
    requires c in cx.actions && c.operation.Create? && x in cx.actions && c.id in x.deps
    requires q < |WholeRun(cx, bindings, todo).trace| && WholeRun(cx, bindings, todo).trace[q] == Called(x.id)
    ensures Expected(cx, c) == Succeeded && cx.fate(c.id).Responds?
    ensures exists p :: 0 <= p < q && Creates(WholeRun(cx, bindings, todo).trace[p], c, Answer(cx, c).providerId)
  {
    hide RunActions, StepAction, Expected, ValidActions, Scheduled, Effective, Blocked;
    var j := ScheduledAt(cx, todo, x);
    var i := DepIndex(cx, todo, j, c.id);
    SameIdSameAction(cx.actions, todo[i], c) by { ValidIsUnique(cx.actions); }
    CallsFollowGraph(cx, bindings, todo, x);
    BlockedStep(cx, x);
    SuccessIsAttempt(cx, bindings, todo, i);
    var rest := OwnItems(cx, bindings, todo, j);
    TraceGrows(cx, bindings, todo, i + 1, j);
    var p := |RunTo(cx, bindings, todo, i).trace| + 2;
    CreateIsBound(cx, RunTo(cx, bindings, todo, i), c);
    assert Creates(RunTo(cx, bindings, todo, i + 1).trace[p], c, Answer(cx, c).providerId);
    var whole, past := WholeRun(cx, bindings, todo).trace, RunTo(cx, bindings, todo, j).trace;
    assert past[p] == RunTo(cx, bindings, todo, i + 1).trace[p] && whole[p] == past[p];
    assert forall k :: 0 <= k < |past| ==> whole[k] == past[k] && past[k] in past;
  }

  lemma CreateIsBound(cx: Context, r: Run, c: Action)
    requires c.operation.Create? && cx.fate(c.id).Responds? && Answer(cx, c).status.StatusSucceeded?
    ensures var t := Attempt(cx, r, c, Answer(cx, c)).trace;
      |t| > |r.trace| + 2 && Creates(t[|r.trace| + 2], c, Answer(cx, c).providerId)
  {
    hide Effective;
  }
}
