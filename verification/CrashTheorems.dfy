/**
 Crash consistency: cut a run off after any item, appends and driver calls alike, and every driver call it made is
 still pending, or durably recorded, or known not to have landed. The remaining pending intents of a complete run
 are exactly the unknown ones.
 */
module CrashTheorems {
  import opened Plan
  import opened Executor
  import opened ExecutorTheorems
  import opened ReplaceTheorems
  import opened Protocol

  /** Item `i` records the action's success, right after the action's own intent and call. */
  ghost predicate DurableAt(items: seq<Item>, a: Action, i: int) {
    && 2 <= i < |items| && Records(items[i], a)
    && items[i - 2] == Intent(a.capability, OpId(a)) && items[i - 1] == Called(a.id)
  }

  /** The event that makes an action's success durable is among the items. */
  ghost predicate Durable(items: seq<Item>, a: Action) {
    exists i :: DurableAt(items, a, i)
  }

  predicate Records(item: Item, a: Action) {
    (item.Bound? || item.Claimed?) && item.aid == a.id && item.cap == a.capability
  }

  /** What a cut-off run knows of one action it called the driver for. */
  ghost predicate Recoverable(cx: Context, items: seq<Item>, a: Action) {
    Called(a.id) in items ==>
      || OpId(a) in PendingItems({}, items, a.capability)
      || (Durable(items, a) && FateClass(cx, a) == Succeeded)
      || FateClass(cx, a) == Failed || FateClass(cx, a) == Throttled
  }

  /** A created resource is never both cleared from pending and unbound. */
  ghost predicate NeverOrphaned(cx: Context, items: seq<Item>, a: Action) {
    Called(a.id) in items && a.operation.Create? && FateClass(cx, a) == Succeeded ==>
      || OpId(a) in PendingItems({}, items, a.capability)
      || exists i :: DurableAt(items, a, i) && Creates(items[i], a, Answer(cx, a).providerId)
  }

  // ---- one action's segment ------------------------------------------------

  lemma SegmentShape(cx: Context, bindings: map<string, Binding>, a: Action, resp: Response)
    ensures var s := Segment(cx, bindings, a, resp);
      && 3 <= |s| <= 4 && s[0] == Intent(a.capability, OpId(a)) && s[1] == Called(a.id)
      && s[|s| - 1] == Terminal(a.capability, OpId(a), ReceiptStatus(resp))
      && (|s| == 4 <==> resp.status.StatusSucceeded?)
      && (|s| == 4 ==> Records(s[2], a))
      && (|s| == 4 && a.operation.Create? ==> Creates(s[2], a, resp.providerId))
  {
  }

  /** An item of one action does not touch what is pending, durable or called for another. */
  predicate Foreign(item: Item, a: Action) {
    && item != Called(a.id)
    && (item.Intent? || item.Terminal? ==> item.cap != a.capability || item.op != OpId(a))
  }

  lemma ForeignKeeps(cx: Context, items: seq<Item>, item: Item, a: Action)
    requires Foreign(item, a)
    ensures Recoverable(cx, items, a) ==> Recoverable(cx, items + [item], a)
    ensures NeverOrphaned(cx, items, a) ==> NeverOrphaned(cx, items + [item], a)
    ensures OpId(a) in PendingItems({}, items + [item], a.capability) <==>
      OpId(a) in PendingItems({}, items, a.capability)
    ensures Called(a.id) in items + [item] <==> Called(a.id) in items
  {
    hide FateClass, Answer;
    var grown := items + [item];
    PendingOne({}, items, item, a.capability);
    assert forall i :: DurableAt(items, a, i) ==> DurableAt(grown, a, i) && grown[i] == items[i];
  }

  lemma {:induction false} ForeignsKeep(cx: Context, items: seq<Item>, more: seq<Item>, a: Action)
    requires forall x :: x in more ==> Foreign(x, a)
    ensures Recoverable(cx, items, a) ==> Recoverable(cx, items + more, a)
    ensures NeverOrphaned(cx, items, a) ==> NeverOrphaned(cx, items + more, a)
    ensures OpId(a) in PendingItems({}, items + more, a.capability) <==>
      OpId(a) in PendingItems({}, items, a.capability)
    ensures Called(a.id) in items + more <==> Called(a.id) in items
    decreases |more|
  {
    hide Recoverable, NeverOrphaned, PendingItems, Foreign;
    if more == [] {
      assert items + more == items;
    } else {
      var n := |more| - 1;
      ForeignsKeep(cx, items, more[..n], a);
      ForeignKeeps(cx, items + more[..n], more[n], a);
      assert items + more == items + more[..n] + [more[n]];
    }
  }

  /** However much of an action's own segment made it to disk, the action is recoverable. */
  lemma OwnSegment(cx: Context, bindings: map<string, Binding>, past: seq<Item>, a: Action, m: nat)
    requires cx.fate(a.id).Responds? && Called(a.id) !in past
    requires m <= |Segment(cx, bindings, a, Answer(cx, a))|
    ensures Recoverable(cx, past + Segment(cx, bindings, a, Answer(cx, a))[..m], a)
    ensures NeverOrphaned(cx, past + Segment(cx, bindings, a, Answer(cx, a))[..m], a)
  {
    hide Effective;
    var resp := Answer(cx, a);
    var s := Segment(cx, bindings, a, resp);
    SegmentShape(cx, bindings, a, resp);
    var t := past + s[..m];
    if m <= 1 {
      assert Called(a.id) !in s[..m];
    } else {
      var begun := past + s[..2];
      assert begun == past + [s[0]] + [s[1]];
      PendingOne({}, past, s[0], a.capability);
      PendingOne({}, past + [s[0]], s[1], a.capability);
      assert OpId(a) in PendingItems({}, begun, a.capability);
      if m == 3 {
        PendingOne({}, begun, s[2], a.capability);
        assert t == begun + [s[2]];
        assert |s| == 4 ==> DurableAt(t, a, |begun|);
      } else if m == 4 {
        assert t[|begun|] == s[2] && DurableAt(t, a, |begun|);
      }
    }
  }

  // ---- the whole run -------------------------------------------------------

  lemma StepForeign(cx: Context, r: Run, b: Action, a: Action)
    requires b.id != a.id && !(b.capability == a.capability && b.key == a.key)
    ensures forall x :: x in StepItems(cx, r, b) ==> Foreign(x, a)
  {
    OpIdInjective(a, b);
  }

  /** A prefix of a run's items is a prefix of the items before its last action, or cuts into that action's segment. */
  lemma {:induction false} PrefixIsRecoverable(cx: Context, bindings: map<string, Binding>, todo: seq<Action>,
                                               k: nat, n: nat, a: Action)
    requires ValidActions(cx.actions) && Scheduled(cx.actions, todo) && DistinctKeys(cx.actions) && a in cx.actions
    requires k <= |todo| && n <= |RunTo(cx, bindings, todo, k).trace|
    ensures Recoverable(cx, RunTo(cx, bindings, todo, k).trace[..n], a)
    ensures NeverOrphaned(cx, RunTo(cx, bindings, todo, k).trace[..n], a)
    decreases k
  {
    hide Recoverable, NeverOrphaned, RunActions, StepAction, ValidActions, Scheduled, DistinctKeys;
    var start := Start(bindings, [LeaseTaken, Started]);
    RunUnfolds(cx, start, todo, k);
    if k == 0 {
      NothingCalled(cx, start.trace[..n], a);
    } else {
      var r, b := RunTo(cx, bindings, todo, k - 1), todo[k - 1];
      StepTrace(cx, r, b);
      var past, items := r.trace, RunTo(cx, bindings, todo, k).trace;
      if n <= |past| {
        PrefixIsRecoverable(cx, bindings, todo, k - 1, n, a);
        assert items[..n] == past[..n];
      } else {
        var m := n - |past|;
        assert items[..n] == past + StepItems(cx, r, b)[..m];
        PrefixIsRecoverable(cx, bindings, todo, k - 1, |past|, a);
        assert past[..|past|] == past;
        StepIsRecoverable(cx, bindings, todo, k - 1, m, a);
      }
    }
  }

  lemma NothingCalled(cx: Context, items: seq<Item>, a: Action)
    requires Called(a.id) !in items
    ensures Recoverable(cx, items, a) && NeverOrphaned(cx, items, a)
  {
  }

  lemma StepIsRecoverable(cx: Context, bindings: map<string, Binding>, todo: seq<Action>, k: nat, m: nat, a: Action)
    requires ValidActions(cx.actions) && Scheduled(cx.actions, todo) && DistinctKeys(cx.actions) && a in cx.actions
    requires k < |todo| && m <= |StepItems(cx, RunTo(cx, bindings, todo, k), todo[k])|
    requires Recoverable(cx, RunTo(cx, bindings, todo, k).trace, a)
    requires NeverOrphaned(cx, RunTo(cx, bindings, todo, k).trace, a)
    ensures var r := RunTo(cx, bindings, todo, k);
      && Recoverable(cx, r.trace + StepItems(cx, r, todo[k])[..m], a)
      && NeverOrphaned(cx, r.trace + StepItems(cx, r, todo[k])[..m], a)
  {
    hide Recoverable, NeverOrphaned, RunActions, Foreign, Effective;
    var r, b := RunTo(cx, bindings, todo, k), todo[k];
    assert b in todo;
    var more := StepItems(cx, r, b)[..m];
    if b == a {
      var rest := OwnItems(cx, bindings, todo, k);
      if more == [] {
        assert r.trace + more == r.trace;
      } else {
        OwnSegment(cx, r.bindings, r.trace, a, m);
      }
    } else {
      StepForeign(cx, r, b, a) by {
        if b.id == a.id { SameIdSameAction(cx.actions, b, a); }
      }
      assert forall x :: x in more ==> x in StepItems(cx, r, b);
      ForeignsKeep(cx, r.trace, more, a);
    }
  }

  lemma CloseIsRecoverable(cx: Context, r: Run, n: nat, a: Action)
    requires |r.trace| <= n <= |Close(r).trace|
    requires Recoverable(cx, r.trace, a) && NeverOrphaned(cx, r.trace, a)
    ensures Recoverable(cx, Close(r).trace[..n], a) && NeverOrphaned(cx, Close(r).trace[..n], a)
  {
    hide Recoverable, NeverOrphaned;
    var more := Close(r).trace[|r.trace|..n];
    assert Close(r).trace[..n] == r.trace + more;
    ForeignsKeep(cx, r.trace, more, a);
  }

  /** Every prefix of a whole run leaves every called action recoverable, and no created resource orphaned. */
  lemma EveryPrefixIsRecoverable(cx: Context, bindings: map<string, Binding>, todo: seq<Action>, n: nat, a: Action)
    requires ValidActions(cx.actions) && Scheduled(cx.actions, todo) && DistinctKeys(cx.actions) && a in cx.actions
    requires n <= |WholeRun(cx, bindings, todo).trace|
    ensures Recoverable(cx, WholeRun(cx, bindings, todo).trace[..n], a)
    ensures NeverOrphaned(cx, WholeRun(cx, bindings, todo).trace[..n], a)
  {
    hide Recoverable, NeverOrphaned, RunActions, ValidActions, Scheduled, DistinctKeys;
    var r := RunTo(cx, bindings, todo, |todo|);
    assert todo[..|todo|] == todo;
    var whole := WholeRun(cx, bindings, todo).trace;
    assert whole == Close(r).trace;
    if n <= |r.trace| {
      PrefixIsRecoverable(cx, bindings, todo, |todo|, n, a);
      assert whole[..n] == r.trace[..n];
    } else {
      PrefixIsRecoverable(cx, bindings, todo, |todo|, |r.trace|, a);
      assert r.trace[..|r.trace|] == r.trace;
      CloseIsRecoverable(cx, r, n, a);
    }
  }

  // ---- what a complete run leaves pending ----------------------------------

  /** The intents of the first `k` actions whose outcome is unknown. */
  ghost predicate PendingIsUnknown(cx: Context, todo: seq<Action>, k: nat, items: seq<Item>, cap: string)
    requires k <= |todo|
  {
    forall op :: op in PendingItems({}, items, cap) <==>
      exists i :: 0 <= i < k && todo[i].capability == cap && OpId(todo[i]) == op && Expected(cx, todo[i]) == Unknown
  }

  /** A complete segment leaves its own intent pending exactly when the outcome is unknown. */
  lemma SegmentPending(cx: Context, bindings: map<string, Binding>, past: seq<Item>, a: Action, resp: Response,
                       cap: string)
    ensures PendingItems({}, past + Segment(cx, bindings, a, resp), cap)
      == if a.capability != cap then PendingItems({}, past, cap)
         else if ClassOf(resp) == Unknown then PendingItems({}, past, cap) + {OpId(a)}
         else PendingItems({}, past, cap) + {OpId(a)} - {OpId(a)}
  {
    hide PendingItems;
    var s := Segment(cx, bindings, a, resp);
    SegmentShape(cx, bindings, a, resp);
    PendingOne({}, past, s[0], cap);
    PendingOne({}, past + [s[0]], s[1], cap);
    PendingOne({}, past + [s[0]] + [s[1]], s[2], cap);
    if |s| == 3 {
      assert past + s == past + [s[0]] + [s[1]] + [s[2]];
    } else {
      PendingOne({}, past + [s[0]] + [s[1]] + [s[2]], s[3], cap);
      assert past + s == past + [s[0]] + [s[1]] + [s[2]] + [s[3]];
    }
  }

  lemma StepPending(cx: Context, bindings: map<string, Binding>, todo: seq<Action>, k: nat, cap: string)
    requires ValidActions(cx.actions) && Scheduled(cx.actions, todo) && k < |todo|
    ensures var r, a := RunTo(cx, bindings, todo, k), todo[k];
      PendingItems({}, r.trace + StepItems(cx, r, a), cap)
      == if Expected(cx, a) == Unknown && a.capability == cap then PendingItems({}, r.trace, cap) + {OpId(a)}
         else if a.capability == cap && StepItems(cx, r, a) != [] then
           PendingItems({}, r.trace, cap) + {OpId(a)} - {OpId(a)}
         else PendingItems({}, r.trace, cap)
  {
    hide PendingItems, RunActions, Isolated, DepFailed, Effective, Blocked, ValidActions, Scheduled, Segment;
    var start := Start(bindings, [LeaseTaken, Started]);
    var r, a := RunTo(cx, bindings, todo, k), todo[k];
    RunIsIsolated(cx, start, todo, k);
    DepFailedIsBlocked(cx, todo, k, r);
    if StepItems(cx, r, a) == [] {
      assert r.trace + StepItems(cx, r, a) == r.trace;
      StepEmptyIsKnown(cx, r, a);
    } else {
      SegmentPending(cx, r.bindings, r.trace, a, Answer(cx, a), cap);
    }
  }

  lemma StepEmptyIsKnown(cx: Context, r: Run, a: Action)
    requires StepItems(cx, r, a) == [] && (DepFailed(r.outcome, a) <==> Blocked(cx, a))
    ensures Expected(cx, a) != Unknown
  {
    hide Blocked, DepFailed;
  }

  lemma {:induction false} RunPending(cx: Context, bindings: map<string, Binding>, todo: seq<Action>, k: nat,
                                      cap: string)
    requires ValidActions(cx.actions) && Scheduled(cx.actions, todo) && DistinctKeys(cx.actions) && k <= |todo|
    ensures PendingIsUnknown(cx, todo, k, RunTo(cx, bindings, todo, k).trace, cap)
    decreases k
  {
    hide PendingItems, RunActions, StepAction, Expected, ValidActions, Scheduled, DistinctKeys, PendingIsUnknown;
    var start := Start(bindings, [LeaseTaken, Started]);
    RunUnfolds(cx, start, todo, k);
    if k == 0 {
      StartPending(cx, todo, start.trace, cap);
    } else {
      var r := RunTo(cx, bindings, todo, k - 1);
      RunPending(cx, bindings, todo, k - 1, cap);
      StepTrace(cx, r, todo[k - 1]);
      StepPending(cx, bindings, todo, k - 1, cap);
      PendingGrows(cx, todo, k - 1, r.trace, RunTo(cx, bindings, todo, k).trace, cap);
    }
  }

  lemma StartPending(cx: Context, todo: seq<Action>, items: seq<Item>, cap: string)
    requires items == [LeaseTaken, Started]
    ensures PendingIsUnknown(cx, todo, 0, items, cap)
  {
    assert PendingItems({}, [], cap) == {};
    hide PendingItems, Expected, OpId;
    assert [] + [LeaseTaken] == [LeaseTaken] && [LeaseTaken] + [Started] == items;
    PendingOne({}, [], LeaseTaken, cap);
    PendingOne({}, [LeaseTaken], Started, cap);
  }

  lemma PendingGrows(cx: Context, todo: seq<Action>, k: nat, items: seq<Item>, items': seq<Item>, cap: string)
    requires Scheduled(cx.actions, todo) && DistinctKeys(cx.actions) && k < |todo|
    requires PendingIsUnknown(cx, todo, k, items, cap)
    requires var was, now := PendingItems({}, items, cap), PendingItems({}, items', cap);
      if Expected(cx, todo[k]) == Unknown && todo[k].capability == cap then now == was + {OpId(todo[k])}
      else now == was || (todo[k].capability == cap && now == was + {OpId(todo[k])} - {OpId(todo[k])})
    ensures PendingIsUnknown(cx, todo, k + 1, items', cap)
  {
    hide PendingItems, Expected;
    forall i | 0 <= i < k && todo[i].capability == cap && todo[k].capability == cap
      ensures OpId(todo[i]) != OpId(todo[k])
    {
      OpIdInjective(todo[i], todo[k]);
      assert todo[i] in cx.actions && todo[k] in cx.actions;
    }
    var now := PendingItems({}, items', cap);
    forall op
      ensures op in now <==>
        exists i :: 0 <= i < k + 1 && todo[i].capability == cap && OpId(todo[i]) == op
          && Expected(cx, todo[i]) == Unknown
    {
      assert op in PendingItems({}, items, cap) <==>
        exists i :: 0 <= i < k && todo[i].capability == cap && OpId(todo[i]) == op && Expected(cx, todo[i]) == Unknown;
    }
  }

  /** A complete run leaves pending exactly the intents of the actions whose outcome is unknown. */
  lemma CompleteRunPending(cx: Context, bindings: map<string, Binding>, todo: seq<Action>, cap: string, op: string)
    requires ValidActions(cx.actions) && Scheduled(cx.actions, todo) && DistinctKeys(cx.actions)
    ensures op in PendingItems({}, WholeRun(cx, bindings, todo).trace, cap) <==>
      exists a :: a in cx.actions && a.capability == cap && OpId(a) == op && Expected(cx, a) == Unknown
  {
    hide PendingItems, RunActions, Expected, ValidActions, DistinctKeys;
    var r := RunTo(cx, bindings, todo, |todo|);
    assert todo[..|todo|] == todo;
    RunPending(cx, bindings, todo, |todo|, cap);
    var marker := if r.worst.Succeeded? then FinishedMark else FailedMark;
    PendingOne({}, r.trace, marker, cap);
    PendingOne({}, r.trace + [marker], LeaseFreed, cap);
    assert WholeRun(cx, bindings, todo).trace == r.trace + [marker] + [LeaseFreed];
    if i :| 0 <= i < |todo| && todo[i].capability == cap && OpId(todo[i]) == op && Expected(cx, todo[i]) == Unknown {
      assert todo[i] in cx.actions;
    }
    if a :| a in cx.actions && a.capability == cap && OpId(a) == op && Expected(cx, a) == Unknown {
      assert a in todo;
    }
  }
}
