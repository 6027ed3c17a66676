/**
 The bindings a run ends with are the ledger's: the newest binding.updated event on a capability carries the binding
 the run's own variable holds for it, so what a replacement ends with is a statement about the log.
 */
module BindingTheorems {
  import opened Prelude
  import opened Canonical
  import opened Ledger
  import opened LedgerTheorems
  import opened Plan
  import opened Executor
  import opened ExecutorTheorems
  import opened ReplaceTheorems
  import opened Protocol
  import opened RunTheorems

  predicate Rebinds(item: Item, cap: string) {
    item.Bound? && item.cap == cap
  }

  /** The last binding some items write for a capability, or the one there was. */
  function LastBound(items: seq<Item>, cap: string, was: Binding): Binding {
    if items == [] then was
    else
      var last := items[|items| - 1];
      if Rebinds(last, cap) then last.binding else LastBound(items[..|items| - 1], cap, was)
  }

  lemma {:induction false} LastBoundJoins(s: seq<Item>, t: seq<Item>, cap: string, was: Binding)
    ensures LastBound(s + t, cap, was) == LastBound(t, cap, LastBound(s, cap, was))
  {
    if t == [] {
      assert s + t == s;
    } else {
      assert (s + t)[..|s + t| - 1] == s + t[..|t| - 1];
      LastBoundJoins(s, t[..|t| - 1], cap, was);
    }
  }

  lemma LastBoundSkips(items: seq<Item>, item: Item, cap: string, was: Binding)
    ensures LastBound(items + [item], cap, was)
      == if Rebinds(item, cap) then item.binding else LastBound(items, cap, was)
  {
    assert (items + [item])[..|items|] == items;
  }

  lemma StepBinds(cx: Context, r: Run, a: Action, cap: string)
    ensures BindingOf(StepAction(cx, r, a).bindings, cap)
      == LastBound(StepItems(cx, r, a), cap, BindingOf(r.bindings, cap))
  {
    hide Effective, NextBinding, DepFailed, ReceiptStatus;
    var s, was := StepItems(cx, r, a), BindingOf(r.bindings, cap);
    if s != [] {
      assert 3 <= |s| <= 4;
      assert s[..1] == [] + [s[0]] && s[..2] == s[..1] + [s[1]] && s[..3] == s[..2] + [s[2]];
      LastBoundSkips([], s[0], cap, was);
      LastBoundSkips(s[..1], s[1], cap, was);
      LastBoundSkips(s[..2], s[2], cap, was);
      if |s| == 4 {
        assert s == s[..3] + [s[3]];
        LastBoundSkips(s[..3], s[3], cap, was);
      } else {
        assert s == s[..3];
      }
    }
  }

  /** At every point of a run, its variable holds the last binding its items wrote. */
  lemma {:induction false} RunBinds(cx: Context, bindings: map<string, Binding>, todo: seq<Action>, k: nat, cap: string)
    requires k <= |todo|
    ensures BindingOf(RunTo(cx, bindings, todo, k).bindings, cap)
      == LastBound(RunTo(cx, bindings, todo, k).trace, cap, BindingOf(bindings, cap))
    decreases k
  {
    hide RunActions, StepAction, StepItems;
    RunUnfolds(cx, Start(bindings, [LeaseTaken, Started]), todo, k);
    if k == 0 {
      assert [LeaseTaken, Started] == [] + [LeaseTaken] + [Started];
      LastBoundSkips([], LeaseTaken, cap, BindingOf(bindings, cap));
      LastBoundSkips([] + [LeaseTaken], Started, cap, BindingOf(bindings, cap));
    } else {
      var r := RunTo(cx, bindings, todo, k - 1);
      RunBinds(cx, bindings, todo, k - 1, cap);
      StepBinds(cx, r, todo[k - 1], cap);
      StepTrace(cx, r, todo[k - 1]);
      LastBoundJoins(r.trace, StepItems(cx, r, todo[k - 1]), cap, BindingOf(bindings, cap));
    }
  }

  lemma WholeRunBinds(cx: Context, bindings: map<string, Binding>, todo: seq<Action>, cap: string)
    ensures var r := WholeRun(cx, bindings, todo);
      BindingOf(r.bindings, cap) == LastBound(r.trace, cap, BindingOf(bindings, cap))
  {
    hide RunActions;
    RunBinds(cx, bindings, todo, |todo|, cap);
    assert todo[..|todo|] == todo;
    var r := RunTo(cx, bindings, todo, |todo|);
    var marker := if r.worst.Succeeded? then FinishedMark else FailedMark;
    var whole := WholeRun(cx, bindings, todo);
    assert whole.bindings == r.bindings && whole.trace == r.trace + [marker] + [LeaseFreed];
    LastBoundSkips(r.trace, marker, cap, BindingOf(bindings, cap));
    LastBoundSkips(r.trace + [marker], LeaseFreed, cap, BindingOf(bindings, cap));
  }

  // ---- reading a binding out of an event's body -----------------------------

  predicate Entry(v: Value, key: string, want: Value) {
    v.Dict? && key in v.entries && v.entries[key] == want
  }

  predicate SaysResource(v: Value, r: Resource) {
    && Entry(v, "providerId", Str(r.providerId)) && Entry(v, "generation", Int(r.generation))
    && Entry(v, "type", Str(r.resourceType))
  }

  predicate SaysTombstone(v: Value, t: Tombstone) {
    && Entry(v, "providerId", Str(t.providerId)) && Entry(v, "generation", Int(t.generation))
    && Entry(v, "resourceType", Str(t.resourceType)) && Entry(v, "deletionOperationId", Str(t.operationId))
    && v.Dict? && "deletedAt" in v.entries && v.entries["deletedAt"].Str?
    && ReadDecimal(v.entries["deletedAt"].s) == Some(t.deletedAt as real)
  }

  /** The value under a key is a list of so many items. */
  predicate HasList(v: Value, key: string, n: nat) {
    v.Dict? && key in v.entries && v.entries[key].List? && |v.entries[key].items| == n
  }

  /** The body names the capability and, field by field, exactly this binding. */
  predicate BodySays(body: Body, cap: string, b: Binding) {
    body.Some? &&
    var v := Dict(body.value);
    && Entry(v, "capability", Str(cap)) && HasList(v, "resources", |b.resources|)
    && (forall i :: 0 <= i < |b.resources| ==> SaysResource(v.entries["resources"].items[i], b.resources[i]))
    && "lineage" in v.entries &&
    var lineage := v.entries["lineage"];
    && HasList(lineage, "tombstones", |b.tombstones|) && HasList(lineage, "replaces", |b.replaced|)
    && (forall i :: 0 <= i < |b.tombstones| ==>
          SaysTombstone(lineage.entries["tombstones"].items[i], b.tombstones[i]))
    && (forall i :: 0 <= i < |b.replaced| ==> lineage.entries["replaces"].items[i] == Str(b.replaced[i]))
  }

  lemma TombstoneIsSaid(t: Tombstone)
    ensures SaysTombstone(TombstoneTree(t), t)
  {
    IntReadsBack(t.deletedAt);
    hide ReadDecimal, IntStr;
  }

  lemma BindingIsSaid(site: Site, cap: string, b: Binding)
    ensures BodySays(Some(BindingBody(site, cap, b)), cap, b)
  {
    hide SaysTombstone, TombstoneTree;
    forall t
      ensures SaysTombstone(TombstoneTree(t), t)
    {
      TombstoneIsSaid(t);
    }
  }

  /** A body says at most one binding. */
  lemma BodySaysOne(body: Body, cap: string, b: Binding, b': Binding)
    requires BodySays(body, cap, b) && BodySays(body, cap, b')
    ensures b == b'
  {
    hide ReadDecimal;
    assert |b.resources| == |b'.resources| && |b.tombstones| == |b'.tombstones| && |b.replaced| == |b'.replaced|;
    assert forall i :: 0 <= i < |b.resources| ==> b.resources[i] == b'.resources[i];
    assert forall i :: 0 <= i < |b.tombstones| ==> b.tombstones[i] == b'.tombstones[i];
    assert forall i :: 0 <= i < |b.replaced| ==> b.replaced[i] == b'.replaced[i];
  }

  // ---- the newest binding event ----------------------------------------------

  /** The newest binding event on the capability is one of the appends, and its body says `b`. */
  ghost predicate NewlyBound(site: Site, log: seq<Event>, left: seq<Event>, cap: string, b: Binding) {
    var k := Latest(Rebinding, left, cap);
    && |log| <= k && left[k].req.caps == [cap] && left[k].req.body == Some(BindingBody(site, cap, b))
    && BodySays(left[k].req.body, cap, b)
  }

  /** The newest binding event on the capability is the one there was. */
  ghost predicate StillBound(log: seq<Event>, left: seq<Event>, cap: string) {
    Latest(Rebinding, left, cap) == Latest(Rebinding, log, cap)
  }

  lemma BindingRequest(site: Site, item: Item, cap: string)
    requires Appends(item)
    ensures RequestOf(site, item).typ.BindingUpdated? && cap in RequestOf(site, item).caps <==> Rebinds(item, cap)
    ensures Rebinds(item, cap) ==>
      RequestOf(site, item).caps == [cap] && RequestOf(site, item).body == Some(BindingBody(site, cap, item.binding))
  {
    hide BindingBody, ReceiptBody;
  }

  /** The newest binding event on the capability is the last one the items write, or the one there was. */
  ghost predicate Carries(site: Site, log: seq<Event>, left: seq<Event>, items: seq<Item>, cap: string, was: Binding) {
    if exists x :: x in items && Rebinds(x, cap)
    then NewlyBound(site, log, left, cap, LastBound(items, cap, was))
    else StillBound(log, left, cap)
  }

  /** So it is after some appends. */
  lemma {:induction false} FeedBinds(site: Site, log: seq<Event>, items: seq<Item>, cap: string, was: Binding)
    ensures Carries(site, log, Feed(site, log, items), items, cap, was)
    decreases |items|
  {
    hide Stamp, RequestOf, Carries;
    if items == [] {
      NothingCarried(site, log, cap, was);
    } else {
      var past, item := items[..|items| - 1], items[|items| - 1];
      assert items == past + [item];
      FeedBinds(site, log, past, cap, was);
      FeedExtends(site, log, past);
      AppendCarries(site, log, Feed(site, log, past), item, past, cap, was);
    }
  }

  lemma NothingCarried(site: Site, log: seq<Event>, cap: string, was: Binding)
    ensures Carries(site, log, log, [], cap, was)
  {
  }

  lemma AppendCarries(site: Site, log: seq<Event>, past: seq<Event>, item: Item, items: seq<Item>, cap: string,
                      was: Binding)
    requires |log| <= |past| && Carries(site, log, past, items, cap, was)
    ensures var left := if Appends(item) then past + [Stamp(site, past, RequestOf(site, item))] else past;
      Carries(site, log, left, items + [item], cap, was)
  {
    hide Stamp, RequestOf, NewlyBound, LastBound;
    assert forall x :: x in items + [item] <==> x in items || x == item;
    LastBoundSkips(items, item, cap, was);
    if Appends(item) { AppendBinds(site, log, past, item, cap); }
  }

  lemma AppendBinds(site: Site, log: seq<Event>, past: seq<Event>, item: Item, cap: string)
    requires Appends(item) && |log| <= |past|
    ensures var left := past + [Stamp(site, past, RequestOf(site, item))];
      && (Rebinds(item, cap) ==> NewlyBound(site, log, left, cap, item.binding))
      && (!Rebinds(item, cap) ==>
            Latest(Rebinding, left, cap) == Latest(Rebinding, past, cap)
            && (forall b :: NewlyBound(site, log, past, cap, b) ==> NewlyBound(site, log, left, cap, b)))
  {
    if item.Bound? { BindingIsSaid(site, item.cap, item.binding); }
    hide BindingBody, BodySays, RequestOf, PrevHeads, Fold;
    BindingRequest(site, item, cap);
    var left := past + [Stamp(site, past, RequestOf(site, item))];
    assert left[..|past|] == past;
  }

  /**
   After a whole run the newest binding.updated on any capability carries the body of the binding the run ends with;
   where the run wrote none, both are what they were.
   */
  lemma LogCarriesBindings(site: Site, log: seq<Event>, cx: Context, bindings: map<string, Binding>,
                           todo: seq<Action>, cap: string)
    ensures var r := WholeRun(cx, bindings, todo);
      var left := Feed(site, log, r.trace);
      if exists x :: x in r.trace && Rebinds(x, cap)
      then NewlyBound(site, log, left, cap, BindingOf(r.bindings, cap))
      else StillBound(log, left, cap) && BindingOf(r.bindings, cap) == BindingOf(bindings, cap)
  {
    hide WholeRun, Feed, NewlyBound, StillBound, BindingOf;
    var r := WholeRun(cx, bindings, todo);
    WholeRunBinds(cx, bindings, todo, cap);
    FeedBinds(site, log, r.trace, cap, BindingOf(bindings, cap));
    if !exists x :: x in r.trace && Rebinds(x, cap) { NothingBound(r.trace, cap, BindingOf(bindings, cap)); }
  }

  lemma {:induction false} NothingBound(items: seq<Item>, cap: string, was: Binding)
    requires forall x :: x in items ==> !Rebinds(x, cap)
    ensures LastBound(items, cap, was) == was
  {
    if items != [] {
      assert items[|items| - 1] in items;
      assert forall x :: x in items[..|items| - 1] ==> x in items;
      NothingBound(items[..|items| - 1], cap, was);
    }
  }

  /**
   A replacement that succeeded with agreeing pins and whose create returned an id: in the ledger the newest binding of
   the capability is to that id, with every deleted id in its tombstones.
   */
  lemma ReplacementInLog(site: Site, log: seq<Event>, cx: Context, bindings: map<string, Binding>, todo: seq<Action>,
                         c: Action)
    requires ValidActions(cx.actions) && Scheduled(cx.actions, todo) && Replaces(cx.actions, c) && AllSucceed(cx, c)
    requires PinsAgree(cx.actions, c) && cx.fate(c.id).Responds? && Answer(cx, c).providerId != ""
    ensures var b := BindingOf(WholeRun(cx, bindings, todo).bindings, c.capability);
      && NewlyBound(site, log, Feed(site, log, WholeRun(cx, bindings, todo).trace), c.capability, b)
      && |b.resources| == 1 && b.resources[0].providerId == Answer(cx, c).providerId
      && forall x :: Beside(cx.actions, c, x) ==> HasTombstone(b, x.targetId)
  {
    ReplacementEndsBound(cx, bindings, todo, c);
    CreateRebinds(cx, bindings, todo, c);
    hide WholeRun, Feed, NewlyBound, BindingOf, HasTombstone, Effective;
    LogCarriesBindings(site, log, cx, bindings, todo, c.capability);
  }

  lemma CreateRebinds(cx: Context, bindings: map<string, Binding>, todo: seq<Action>, c: Action)
    requires ValidActions(cx.actions) && Scheduled(cx.actions, todo)
    requires c in cx.actions && c.operation.Create? && Expected(cx, c) == Succeeded
    ensures exists x :: x in WholeRun(cx, bindings, todo).trace && Rebinds(x, c.capability)
  {
    hide RunActions, Expected, ValidActions, Scheduled, Effective, Attempt;
    var i := ScheduledAt(cx, todo, c);
    SuccessIsAttempt(cx, bindings, todo, i);
    var r, p := RunTo(cx, bindings, todo, i), |RunTo(cx, bindings, todo, i).trace| + 2;
    CreateIsBound(cx, r, c);
    TraceGrows(cx, bindings, todo, i + 1, |todo|);
    var tail := WholeTrace(cx, bindings, todo);
    hide WholeRun;
    var whole := WholeRun(cx, bindings, todo).trace;
    assert whole[p] == RunTo(cx, bindings, todo, i + 1).trace[p] && whole[p] in whole;
  }
}
