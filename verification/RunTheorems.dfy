/**
 A run against the ledger: every append of an uncontended run is accepted, at every point of it the log is lawful
 and every driver call is recoverable from the log, and the run ends with no lease and only unknown intents pending.
 */
module RunTheorems {
  import opened Prelude
  import opened Canonical
  import opened Ledger
  import opened LedgerTheorems
  import opened LeaseTheorems
  import opened Plan
  import opened Executor
  import opened ExecutorTheorems
  import opened ReplaceTheorems
  import opened Protocol
  import opened CrashTheorems

  // ---- every body has a canonical form -------------------------------------

  predicate SafeInt(n: int) {
    -MAX_SAFE_INTEGER < n < MAX_SAFE_INTEGER
  }

  /** Generations stay in the range the canonical form accepts. */
  predicate SafeItem(item: Item) {
    item.Bound? ==>
      && (forall r :: r in item.binding.resources ==> SafeInt(r.generation))
      && (forall t :: t in item.binding.tombstones ==> SafeInt(t.generation))
  }

  predicate Hashable(body: Body) {
    body.Some? ==> Accepts(Dict(body.value))
  }

  lemma BodyIsHashable(site: Site, item: Item)
    requires Appends(item) && SafeItem(item)
    ensures Hashable(RequestOf(site, item).body)
  {
    if item.Bound? { BindingIsHashable(site, item.cap, item.binding); }
  }

  lemma BindingIsHashable(site: Site, cap: string, b: Binding)
    requires forall r :: r in b.resources ==> SafeInt(r.generation)
    requires forall t :: t in b.tombstones ==> SafeInt(t.generation)
    ensures Accepts(Dict(BindingBody(site, cap, b)))
  {
    var body := BindingBody(site, cap, b);
    assert forall v :: v in body["resources"].items ==> Accepts(v);
    LineageIsHashable(site, cap, b);
    assert Accepts(body["applyRunId"]) && Accepts(body["capability"]) && Accepts(body["environment"]);
    assert forall k :: k in body ==> k in {"applyRunId", "capability", "environment", "resources", "lineage"};
  }

  lemma LineageIsHashable(site: Site, cap: string, b: Binding)
    requires forall t :: t in b.tombstones ==> SafeInt(t.generation)
    ensures Accepts(BindingBody(site, cap, b)["lineage"])
  {
    var lineage := BindingBody(site, cap, b)["lineage"].entries;
    assert forall v :: v in lineage["tombstones"].items ==> Accepts(v);
    assert forall v :: v in lineage["replaces"].items ==> Accepts(v);
    assert forall k :: k in lineage ==> k == "tombstones" || k == "replaces";
  }

  lemma CapsAreHashable(caps: seq<string>)
    ensures Accepts(CapsTree(caps))
  {
    assert forall v :: v in CapsTree(caps).items ==> Accepts(v);
  }

  lemma EnvelopeIsHashable(ev: Event)
    ensures Accepts(Dict(map["id" := Str(ev.req.actor.id), "type" := Str(ev.req.actor.actorType)]))
    ensures Accepts(HeadsTree(ev.prev)) && Accepts(CapsTree(ev.req.caps))
  {
    CapsAreHashable(ev.req.caps);
    HeadsTreeIsNormal(ev.prev);
  }

  lemma TreeIsHashable(ev: Event)
    requires Hashable(ev.req.body) && (ev.req.token.Some? ==> SafeInt(ev.req.token.value))
    ensures Accepts(Dict(EventTree(ev)))
  {
    EnvelopeIsHashable(ev);
    var tree := EventTree(ev);
    assert Accepts(Dict(map["id" := Str(ev.req.actor.id), "type" := Str(ev.req.actor.actorType)]));
    hide HeadsTree, TypeName, IntStr;
    forall k | k in tree
      ensures Accepts(tree[k])
    {
    }
  }

  lemma EventIsHashable(ev: Event)
    requires Hashable(ev.req.body) && (ev.req.token.Some? ==> SafeInt(ev.req.token.value))
    ensures HashOf(ev).Some?
  {
    hide EventTree, Hashable;
    TreeIsHashable(ev);
    var doc := EventDoc(ev) - {"sig"};
    assert forall k :: k in doc ==> Accepts(doc[k]);
  }

  // ---- the lease under a run -----------------------------------------------

  /** Every written capability is held by one lease with the run's token. */
  ghost predicate Holding(site: Site, t: Table, q: nat) {
    forall c :: c in site.writes ==> Holds(t.leases, c, Some(site.token), site.clock) && t.leases[c].seq_ == q
  }

  lemma {:induction false} HeldIsReleasable(leases: map<string, Lease>, tok: Option<int>, clock: int, caps: seq<string>)
    requires forall c :: c in caps ==> Holds(leases, c, tok, clock)
    ensures FirstUnheld(leases, tok, clock, caps).None?
  {
    if caps != [] { HeldIsReleasable(leases, tok, clock, caps[1..]); }
  }

  lemma HeldIsMutable(leases: map<string, Lease>, tok: Option<int>, clock: int, caps: seq<string>, q: nat)
    requires forall c :: c in caps ==> Holds(leases, c, tok, clock) && leases[c].seq_ == q
    ensures MutationFault(leases, tok, clock, caps, None).None?
  {
    if caps != [] { MutationScan(leases, tok, clock, caps[1..], q); }
  }

  lemma {:induction false} FreeIsAcquirable(leases: map<string, Lease>, clock: int, caps: seq<string>)
    requires forall c :: c in caps ==> !Active(Lookup(leases, c), clock)
    ensures FirstHeld(leases, clock, caps).None?
  {
    if caps != [] { FreeIsAcquirable(leases, clock, caps[1..]); }
  }

  /** Items between the lease and the release, on capabilities of the write set. */
  predicate Inner(site: Site, item: Item) {
    && item != LeaseTaken && item != LeaseFreed && SafeItem(item) && GoodReceipt(item)
    && (item.Intent? || item.Terminal? || item.Bound? || item.Claimed? ==> item.cap in site.writes)
  }

  /** What an uncontended run starts from. */
  ghost predicate Uncontended(site: Site, log: seq<Event>) {
    && Lawful(log) && (log != [] ==> log[|log| - 1].time <= site.clock)
    && site.writes != [] && site.actor.id != ""
    && site.token == NextToken(Fold(log).maxToken, site.writes) && SafeInt(site.token)
    && forall c :: c in site.writes ==> !Active(Lookup(Fold(log).leases, c), site.clock)
  }

  lemma TtlRead(site: Site)
    ensures Ttl(RequestOf(site, LeaseTaken).body) == Some(LEASE_TTL)
  {
    var body := RequestOf(site, LeaseTaken).body;
    assert body.value["ttlSeconds"] == Int(LEASE_TTL);
  }

  lemma StampIsLegal(site: Site, log: seq<Event>, item: Item)
    requires Appends(item) && SafeItem(item) && SafeInt(site.token) && site.token >= 1
    requires RequestOf(site, item).caps != [] && site.actor.id != ""
    requires Fault(Fold(log), RequestOf(site, item), site.clock).None?
    ensures Legal(Fold(log), Stamp(site, log, RequestOf(site, item)))
  {
    hide Fault, HashOf, Commit, Fold, Hashable;
    BodyIsHashable(site, item);
    EventIsHashable(Stamp(site, log, RequestOf(site, item)));
  }

  lemma LeaseIsTaken(site: Site, log: seq<Event>)
    requires Uncontended(site, log)
    ensures var ev := Stamp(site, log, RequestOf(site, LeaseTaken));
      Legal(Fold(log), ev) && Holding(site, Commit(Fold(log), ev), Fold(log).leaseSeq + 1)
  {
    hide Commit, HashOf, Legal, NextToken, Lawful, Fold;
    var t, ev := Fold(log), Stamp(site, log, RequestOf(site, LeaseTaken));
    TtlRead(site);
    FreeIsAcquirable(t.leases, site.clock, site.writes);
    TokenIsPositive(t.maxToken, site.writes);
    StampIsLegal(site, log, LeaseTaken);
    forall c | c in site.writes
      ensures Holds(Commit(t, ev).leases, c, Some(site.token), site.clock)
      ensures Commit(t, ev).leases[c].seq_ == t.leaseSeq + 1
    {
      CommitLookups(t, ev, c);
    }
  }

  lemma TokenIsPositive(maxToken: map<string, int>, caps: seq<string>)
    ensures NextToken(maxToken, caps) >= 1
  {
  }

  lemma InnerIsAccepted(site: Site, t: Table, item: Item, q: nat)
    requires Appends(item) && Inner(site, item) && Holding(site, t, q)
    ensures Fault(t, RequestOf(site, item), site.clock).None?
  {
    if item.Intent? { ReceiptRead(site, item.op, "pending"); }
    if item.Terminal? { ReceiptRead(site, item.op, item.status); }
    HeldIsMutable(t.leases, Some(site.token), site.clock, RequestOf(site, item).caps, q) by {
      if item.Intent? || item.Terminal? || item.Bound? || item.Claimed? {
        assert RequestOf(site, item).caps == [item.cap];
      }
    }
  }

  lemma InnerKeepsLeases(site: Site, t: Table, ev: Event, item: Item, q: nat)
    requires Appends(item) && Inner(site, item) && ev.req == RequestOf(site, item) && Holding(site, t, q)
    ensures Holding(site, Commit(t, ev), q)
  {
    hide Commit, HashOf;
    forall c | c in site.writes
      ensures Holds(Commit(t, ev).leases, c, Some(site.token), site.clock) && Commit(t, ev).leases[c].seq_ == q
    {
      CommitLookups(t, ev, c);
    }
  }

  /** After the lease and some inner items: a lawful log at the run's time, with the lease still held. */
  ghost predicate MidRun(site: Site, log: seq<Event>, q: nat) {
    Lawful(log) && log != [] && log[|log| - 1].time <= site.clock && Holding(site, Fold(log), q)
  }

  lemma MidRunStep(site: Site, log: seq<Event>, item: Item, q: nat)
    requires MidRun(site, log, q) && Appends(item) && Inner(site, item)
    requires SafeInt(site.token) && site.token >= 1 && site.writes != [] && site.actor.id != ""
    ensures MidRun(site, log + [Stamp(site, log, RequestOf(site, item))], q)
  {
    hide Commit, HashOf, Legal, Holding, Fold, Lawful, Inner, SafeItem;
    var ev := Stamp(site, log, RequestOf(site, item));
    InnerIsAccepted(site, Fold(log), item, q);
    InnerIsSafe(site, item);
    StampIsLegal(site, log, item);
    LogGrows(log, ev);
    InnerKeepsLeases(site, Fold(log), ev, item, q);
  }

  lemma InnerIsSafe(site: Site, item: Item)
    requires Inner(site, item)
    ensures SafeItem(item)
  {
  }

  lemma {:induction false} InnerRun(site: Site, log: seq<Event>, items: seq<Item>)
    requires Uncontended(site, log) && forall x :: x in items ==> Inner(site, x)
    ensures MidRun(site, Feed(site, log, [LeaseTaken] + items), Fold(log).leaseSeq + 1)
    decreases |items|
  {
    hide Commit, HashOf, Legal, Holding, Fold, Lawful, Inner, NextToken, Feed, RequestOf, MidRun;
    var q := Fold(log).leaseSeq + 1;
    if items == [] {
      LeaseIsTaken(site, log);
      FirstAppend(site, log);
      assert [LeaseTaken] + items == [LeaseTaken];
    } else {
      var n := |items| - 1;
      InnerRun(site, log, items[..n]);
      TokenIsPositive(Fold(log).maxToken, site.writes);
      FeedOne(site, log, [LeaseTaken] + items[..n], items[n]);
      assert [LeaseTaken] + items == [LeaseTaken] + items[..n] + [items[n]];
      if Appends(items[n]) { MidRunStep(site, Feed(site, log, [LeaseTaken] + items[..n]), items[n], q); }
    }
  }

  lemma FirstAppend(site: Site, log: seq<Event>)
    requires Uncontended(site, log)
    requires var ev := Stamp(site, log, RequestOf(site, LeaseTaken));
      Legal(Fold(log), ev) && Holding(site, Commit(Fold(log), ev), Fold(log).leaseSeq + 1)
    ensures Feed(site, log, [LeaseTaken]) == log + [Stamp(site, log, RequestOf(site, LeaseTaken))]
    ensures MidRun(site, Feed(site, log, [LeaseTaken]), Fold(log).leaseSeq + 1)
  {
    hide Commit, HashOf, Legal, Holding, Fold, Lawful, NextToken, RequestOf;
    var ev := Stamp(site, log, RequestOf(site, LeaseTaken));
    FeedOne(site, log, [], LeaseTaken);
    assert [] + [LeaseTaken] == [LeaseTaken];
    LogGrows(log, ev);
  }

  // ---- a whole run fits the protocol ---------------------------------------

  /** The run has nothing but safe items, on capabilities it may write. */
  ghost predicate FitsPlan(site: Site, cx: Context, bindings: map<string, Binding>, todo: seq<Action>) {
    && (forall a :: a in todo ==> a.capability in site.writes)
    && (forall x :: x in WholeRun(cx, bindings, todo).trace ==> SafeItem(x))
  }

  /** Every bound generation is below a limit, and every tombstone's is safe. */
  ghost predicate Small(bindings: map<string, Binding>, limit: int) {
    forall cap :: cap in bindings ==> SmallBinding(bindings[cap], limit)
  }

  predicate SmallBinding(b: Binding, limit: int) {
    && (forall r :: r in b.resources ==> -limit < r.generation < limit)
    && (forall t :: t in b.tombstones ==> SafeInt(t.generation))
  }

  lemma StepStaysSmall(cx: Context, r: Run, a: Action, limit: int)
    requires Small(r.bindings, limit) && 1 < limit && limit + 1 <= MAX_SAFE_INTEGER
    requires -limit < a.targetGeneration < limit
    ensures Small(StepAction(cx, r, a).bindings, limit + 1)
    ensures forall x :: x in StepItems(cx, r, a) ==> SafeItem(x)
  {
    hide DepFailed, Effective;
    if cx.fate(a.id).Responds? {
      var resp := Effective(cx, a, cx.fate(a.id).response);
      NextIsSmall(cx, BindingOf(r.bindings, a.capability), a, resp, limit);
    }
  }

  lemma NextIsSmall(cx: Context, b: Binding, a: Action, resp: Response, limit: int)
    requires SmallBinding(b, limit) && 1 < limit && limit + 1 <= MAX_SAFE_INTEGER
    requires -limit < a.targetGeneration < limit
    ensures SmallBinding(NextBinding(cx, b, a, resp), limit + 1)
  {
    if b.resources != [] { assert b.resources[0] in b.resources; }
  }

  lemma {:induction false} RunStaysSmall(cx: Context, bindings: map<string, Binding>, todo: seq<Action>, k: nat,
                                         limit: int)
    requires k <= |todo| && Small(bindings, limit) && 1 < limit && limit + |todo| <= MAX_SAFE_INTEGER
    requires forall a :: a in todo ==> -limit < a.targetGeneration < limit
    ensures Small(RunTo(cx, bindings, todo, k).bindings, limit + k)
    ensures forall x :: x in RunTo(cx, bindings, todo, k).trace ==> SafeItem(x)
    decreases k
  {
    hide RunActions, StepAction, SafeItem, Small;
    RunUnfolds(cx, Start(bindings, [LeaseTaken, Started]), todo, k);
    if k == 0 {
      CloseIsSafe();
    } else {
      var r, a := RunTo(cx, bindings, todo, k - 1), todo[k - 1];
      RunStaysSmall(cx, bindings, todo, k - 1, limit);
      StepStaysSmall(cx, r, a, limit + k - 1);
      StepTrace(cx, r, a);
    }
  }

  /** A plan fits whenever its generations stay clear of the largest safe integer by as many as it has actions. */
  lemma SmallGenerationsFit(site: Site, cx: Context, bindings: map<string, Binding>, todo: seq<Action>, limit: int)
    requires forall a :: a in todo ==> a.capability in site.writes && -limit < a.targetGeneration < limit
    requires Small(bindings, limit) && 1 < limit && limit + |todo| <= MAX_SAFE_INTEGER
    ensures FitsPlan(site, cx, bindings, todo)
  {
    hide RunActions, Small;
    RunStaysSmall(cx, bindings, todo, |todo|, limit);
    CloseIsSafe();
    assert todo[..|todo|] == todo;
  }

  lemma CloseIsSafe()
    ensures SafeItem(LeaseTaken) && SafeItem(Started) && SafeItem(FinishedMark) && SafeItem(FailedMark)
      && SafeItem(LeaseFreed)
  {
  }

  lemma StepIsInner(site: Site, cx: Context, r: Run, a: Action)
    requires a.capability in site.writes && forall x :: x in StepItems(cx, r, a) ==> SafeItem(x)
    ensures forall x :: x in StepItems(cx, r, a) ==> Inner(site, x)
  {
    OpIdInjective(a, a);
  }

  /** The items of a run between the lease and the release. */
  function InnerItems(trace: seq<Item>): seq<Item>
    requires |trace| >= 2
  {
    trace[1..|trace| - 1]
  }

  lemma {:induction false} RunIsInner(site: Site, cx: Context, bindings: map<string, Binding>, todo: seq<Action>,
                                      k: nat)
    requires k <= |todo| && forall a :: a in todo ==> a.capability in site.writes
    requires forall x :: x in RunTo(cx, bindings, todo, k).trace ==> SafeItem(x)
    ensures var items := RunTo(cx, bindings, todo, k).trace;
      |items| >= 2 && items[0] == LeaseTaken && forall i :: 1 <= i < |items| ==> Inner(site, items[i])
    decreases k
  {
    hide RunActions, StepAction, Inner, SafeItem;
    RunUnfolds(cx, Start(bindings, [LeaseTaken, Started]), todo, k);
    if k == 0 {
      StartedIsInner(site);
    } else {
      var r, a := RunTo(cx, bindings, todo, k - 1), todo[k - 1];
      StepTrace(cx, r, a);
      var items := RunTo(cx, bindings, todo, k).trace;
      assert items == r.trace + StepItems(cx, r, a);
      assert forall x :: x in r.trace ==> x in items;
      assert forall x :: x in StepItems(cx, r, a) ==> x in items;
      RunIsInner(site, cx, bindings, todo, k - 1);
      StepIsInner(site, cx, r, a);
    }
  }

  lemma StartedIsInner(site: Site)
    ensures Inner(site, Started) && Inner(site, FinishedMark) && Inner(site, FailedMark)
  {
  }

  lemma WholeRunShape(site: Site, cx: Context, bindings: map<string, Binding>, todo: seq<Action>)
    requires FitsPlan(site, cx, bindings, todo)
    ensures var trace := WholeRun(cx, bindings, todo).trace;
      && |trace| >= 4 && trace == [LeaseTaken] + InnerItems(trace) + [LeaseFreed]
      && trace[1] == Started
      && forall x :: x in InnerItems(trace) ==> Inner(site, x)
  {
    hide RunActions, Inner, SafeItem;
    var r := RunTo(cx, bindings, todo, |todo|);
    var trace := WholeRun(cx, bindings, todo).trace;
    assert todo[..|todo|] == todo;
    assert forall x :: x in r.trace ==> x in trace;
    RunIsInner(site, cx, bindings, todo, |todo|);
    TraceGrows(cx, bindings, todo, 0, |todo|);
    StartedIsInner(site);
    RunUnfolds(cx, Start(bindings, [LeaseTaken, Started]), todo, 0);
    var marker := if r.worst.Succeeded? then FinishedMark else FailedMark;
    assert trace == r.trace + [marker, LeaseFreed];
    assert InnerItems(trace) == r.trace[1..] + [marker];
  }

  lemma LeaseIsReleased(site: Site, log: seq<Event>, q: nat)
    requires MidRun(site, log, q)
    requires SafeInt(site.token) && site.token >= 1 && site.writes != [] && site.actor.id != ""
    ensures var ev := Stamp(site, log, RequestOf(site, LeaseFreed));
      && Lawful(log + [ev])
      && forall c :: c in site.writes ==> !Active(Lookup(Fold(log + [ev]).leases, c), site.clock)
  {
    hide Commit, HashOf, Legal, Lawful, Fold;
    var t, ev := Fold(log), Stamp(site, log, RequestOf(site, LeaseFreed));
    HeldIsReleasable(t.leases, Some(site.token), site.clock, site.writes);
    StampIsLegal(site, log, LeaseFreed);
    LogGrows(log, ev);
    forall c | c in site.writes
      ensures !Active(Lookup(Commit(t, ev).leases, c), site.clock)
    {
      CommitLookups(t, ev, c);
    }
  }

  /** Every append of an uncontended run is accepted, wherever it is cut off, and a complete run holds nothing. */
  lemma RunIsAccepted(site: Site, log: seq<Event>, cx: Context, bindings: map<string, Binding>, todo: seq<Action>,
                      n: nat)
    requires Uncontended(site, log) && FitsPlan(site, cx, bindings, todo)
    requires n <= |WholeRun(cx, bindings, todo).trace|
    ensures Lawful(Feed(site, log, WholeRun(cx, bindings, todo).trace[..n]))
    ensures n == |WholeRun(cx, bindings, todo).trace| ==> forall c :: c in site.writes ==>
      !Active(Lookup(Fold(Feed(site, log, WholeRun(cx, bindings, todo).trace[..n])).leases, c), site.clock)
  {
    hide Commit, HashOf, Legal, Fold, Lawful, Inner, NextToken, Feed, RequestOf, WholeRun, FitsPlan, SafeItem, Holding;
    var trace := WholeRun(cx, bindings, todo).trace;
    WholeRunShape(site, cx, bindings, todo);
    if n == 0 {
      FeedNothing(site, log);
    } else if n < |trace| {
      var items := trace[1..n];
      assert forall x :: x in items ==> x in InnerItems(trace);
      assert trace[..n] == [LeaseTaken] + items;
      InnerRun(site, log, items);
    } else {
      var mid := Feed(site, log, [LeaseTaken] + InnerItems(trace));
      assert trace[..n] == [LeaseTaken] + InnerItems(trace) + [LeaseFreed];
      TokenIsPositive(Fold(log).maxToken, site.writes);
      InnerRun(site, log, InnerItems(trace));
      LeaseIsReleased(site, mid, Fold(log).leaseSeq + 1);
      FeedOne(site, log, [LeaseTaken] + InnerItems(trace), LeaseFreed);
    }
  }

  lemma FeedNothing(site: Site, log: seq<Event>)
    ensures Feed(site, log, []) == log
  {
  }

  lemma ItemsAreGood(site: Site, cx: Context, bindings: map<string, Binding>, todo: seq<Action>)
    requires FitsPlan(site, cx, bindings, todo)
    ensures forall x :: x in WholeRun(cx, bindings, todo).trace ==> GoodReceipt(x)
  {
    hide WholeRun, FitsPlan, SafeItem;
    var trace := WholeRun(cx, bindings, todo).trace;
    WholeRunShape(site, cx, bindings, todo);
    forall x | x in trace
      ensures GoodReceipt(x)
    {
      assert x in InnerItems(trace) || x == LeaseTaken || x == LeaseFreed;
    }
  }

  /** From a clean start, the ledger ends with exactly the intents of the unknown outcomes pending. */
  lemma RunEndsPendingUnknown(site: Site, log: seq<Event>, cx: Context, bindings: map<string, Binding>,
                              todo: seq<Action>, cap: string, op: string)
    requires Uncontended(site, log) && FitsPlan(site, cx, bindings, todo)
    requires ValidActions(cx.actions) && Scheduled(cx.actions, todo) && DistinctKeys(cx.actions)
    requires PendingOn(Fold(log).pending, cap) == {}
    ensures op in PendingOn(Fold(Feed(site, log, WholeRun(cx, bindings, todo).trace)).pending, cap) <==>
      exists a :: a in cx.actions && a.capability == cap && OpId(a) == op && Expected(cx, a) == Unknown
  {
    hide Commit, Fold, Feed, WholeRun, Expected, PendingItems;
    ItemsAreGood(site, cx, bindings, todo);
    FeedPending(site, log, WholeRun(cx, bindings, todo).trace, cap);
    CompleteRunPending(cx, bindings, todo, cap, op);
  }

  // ---- crash consistency, read from the log --------------------------------

  /** Where an append of a run ends up in the log: after the appends of the items before it. */
  lemma {:induction false} FeedPlaces(site: Site, log: seq<Event>, items: seq<Item>, i: nat)
    requires i < |items| && Appends(items[i])
    ensures var j := |Feed(site, log, items[..i])|;
      |log| <= j < |Feed(site, log, items)| && Feed(site, log, items)[j].req == RequestOf(site, items[i])
    decreases |items|
  {
    var past, item := items[..|items| - 1], items[|items| - 1];
    assert items == past + [item];
    FeedOne(site, log, past, item);
    FeedExtends(site, log, past);
    assert i < |past| ==> past[..i] == items[..i];
    hide *;
    if i < |items| - 1 {
      FeedPlaces(site, log, past, i);
    } else {
      StampAsks(site, Feed(site, log, past), RequestOf(site, item));
    }
  }

  lemma StampAsks(site: Site, log: seq<Event>, req: Request)
    ensures Stamp(site, log, req).req == req
  {
  }

  lemma {:induction false} FeedExtends(site: Site, log: seq<Event>, items: seq<Item>)
    ensures |log| <= |Feed(site, log, items)| && Feed(site, log, items)[..|log|] == log
    ensures items != [] ==> Feed(site, log, items[..|items| - 1]) <= Feed(site, log, items)
    ensures items != [] && Appends(items[|items| - 1]) ==> |Feed(site, log, items)| > |log|
  {
    if items != [] { FeedExtends(site, log, items[..|items| - 1]); }
  }

  /** The event at `j + 1` is the one an item asks for, and the event before it is the action's own pending receipt. */
  ghost predicate Follows(site: Site, log: seq<Event>, a: Action, item: Item, j: int)
    requires Appends(item)
  {
    && 0 <= j && j + 1 < |log|
    && log[j].req == RequestOf(site, Intent(a.capability, OpId(a)))
    && log[j + 1].req == RequestOf(site, item)
  }

  /** The action's own success is in the log: the binding or ownership event of one of the run's items that record it,
      right after the pending receipt that carries the action's key. */
  ghost predicate InLog(site: Site, log: seq<Event>, items: seq<Item>, a: Action) {
    exists i, j :: DurableAt(items, a, i) && Appends(items[i]) && Follows(site, log, a, items[i], j)
  }

  /** In that event the log binds the action's capability to the given provider id. */
  ghost predicate BoundInLog(site: Site, log: seq<Event>, items: seq<Item>, a: Action, id: string) {
    exists i, j :: DurableAt(items, a, i) && Appends(items[i]) && Creates(items[i], a, id)
      && Follows(site, log, a, items[i], j)
  }

  /**
   Cut the run off after any item. The log so far is lawful; an action whose driver call was made is pending in
   the ledger, or its own success is in the log, or the call is known to have failed or been throttled; and a resource
   that was created is pending or bound, never neither.
   */
  lemma CrashConsistency(site: Site, log: seq<Event>, cx: Context, bindings: map<string, Binding>, todo: seq<Action>,
                         n: nat, a: Action)
    requires Uncontended(site, log) && FitsPlan(site, cx, bindings, todo)
    requires ValidActions(cx.actions) && Scheduled(cx.actions, todo) && DistinctKeys(cx.actions) && a in cx.actions
    requires PendingOn(Fold(log).pending, a.capability) == {}
    requires n <= |WholeRun(cx, bindings, todo).trace|
    requires Called(a.id) in WholeRun(cx, bindings, todo).trace[..n]
    ensures var items := WholeRun(cx, bindings, todo).trace[..n];
      var left := Feed(site, log, items);
      var pending := OpId(a) in PendingOn(Fold(left).pending, a.capability);
      && Lawful(left) && log <= left
      && (pending || InLog(site, left[|log|..], items, a)
          || FateClass(cx, a) == Failed || FateClass(cx, a) == Throttled)
      && (a.operation.Create? && FateClass(cx, a) == Succeeded ==>
            cx.fate(a.id).Responds?
            && (pending || BoundInLog(site, left[|log|..], items, a, Answer(cx, a).providerId)))
  {
    hide *;
    var trace := WholeRun(cx, bindings, todo).trace;
    RunIsAccepted(site, log, cx, bindings, todo, n);
    ItemsAreGood(site, cx, bindings, todo);
    FeedPending(site, log, trace[..n], a.capability);
    EveryPrefixIsRecoverable(cx, bindings, todo, n, a);
    FeedExtends(site, log, trace[..n]);
    RecoverableInLog(site, log, cx, trace[..n], a);
  }

  lemma RecoverableInLog(site: Site, log: seq<Event>, cx: Context, items: seq<Item>, a: Action)
    requires |log| <= |Feed(site, log, items)|
    requires Called(a.id) in items && Recoverable(cx, items, a) && NeverOrphaned(cx, items, a)
    ensures var pending := OpId(a) in PendingItems({}, items, a.capability);
      var added := Feed(site, log, items)[|log|..];
      && (pending || InLog(site, added, items, a) || FateClass(cx, a) == Failed || FateClass(cx, a) == Throttled)
      && (a.operation.Create? && FateClass(cx, a) == Succeeded ==>
            cx.fate(a.id).Responds? && (pending || BoundInLog(site, added, items, a, Answer(cx, a).providerId)))
  {
    hide Feed, PendingItems, RequestOf, Creates, Records, Follows, Effective;
    if i :| DurableAt(items, a, i) {
      var j := DurableInLog(site, log, items, a, i);
    }
    if a.operation.Create? && FateClass(cx, a) == Succeeded && OpId(a) !in PendingItems({}, items, a.capability) {
      var id := Answer(cx, a).providerId;
      var i :| DurableAt(items, a, i) && Creates(items[i], a, id);
      var j := DurableInLog(site, log, items, a, i);
    }
  }

  lemma DurableInLog(site: Site, log: seq<Event>, items: seq<Item>, a: Action, i: int) returns (j: int)
    requires DurableAt(items, a, i) && |log| <= |Feed(site, log, items)|
    ensures Appends(items[i]) && Follows(site, Feed(site, log, items)[|log|..], a, items[i], j)
  {
    hide Feed, RequestOf, OpId;
    FeedPlaces(site, log, items, i - 2);
    FeedPlaces(site, log, items, i);
    assert items[..i - 1] == items[..i - 2] + [items[i - 2]] && items[..i] == items[..i - 1] + [items[i - 1]];
    FeedOne(site, log, items[..i - 2], items[i - 2]);
    FeedOne(site, log, items[..i - 1], items[i - 1]);
    j := |Feed(site, log, items[..i - 2])| - |log|;
  }
}
