/**
 An executor run as a client of the ledger: what each item of a run appends, and the log a run leaves behind
 when it is cut off after any number of items.
 */
module Protocol {
  import opened Prelude
  import opened Canonical
  import opened Ledger
  import opened LedgerTheorems
  import opened Executor

  /** Where and as whom a run writes, at one evaluation time, under the lease token it was granted. */
  datatype Site = Site(writes: seq<string>, actor: Actor, env: string, clock: int, runId: string, planHash: string,
                       token: int)

  const LEASE_TTL := 300

  function ResourceTree(r: Resource): Value {
    Dict(map["id" := Str("primary"), "type" := Str(r.resourceType), "providerId" := Str(r.providerId),
      "generation" := Int(r.generation)])
  }

  function TombstoneTree(t: Tombstone): Value {
    Dict(map["providerId" := Str(t.providerId), "resourceType" := Str(t.resourceType),
      "generation" := Int(t.generation), "deletedAt" := Str(IntStr(t.deletedAt)),
      "deletionOperationId" := Str(t.operationId)])
  }

  /** The body of binding.updated: always the full projection. */
  function BindingBody(site: Site, cap: string, b: Binding): map<string, Value> {
    map["applyRunId" := Str(site.runId), "capability" := Str(cap), "environment" := Str(site.env),
        "resources" := List(seq(|b.resources|, i requires 0 <= i < |b.resources| => ResourceTree(b.resources[i]))),
        "lineage" := Dict(map[
          "tombstones" := List(seq(|b.tombstones|,
            i requires 0 <= i < |b.tombstones| => TombstoneTree(b.tombstones[i]))),
          "replaces" := List(seq(|b.replaced|, i requires 0 <= i < |b.replaced| => Str(b.replaced[i])))])]
  }

  function ReceiptBody(site: Site, op: string, status: string): map<string, Value> {
    map["applyRunId" := Str(site.runId), "operationId" := Str(op), "status" := Str(status)]
  }

  function RunBody(site: Site): map<string, Value> {
    map["applyRunId" := Str(site.runId)]
  }

  predicate Appends(item: Item) {
    !item.Called?
  }

  /** The append an item makes. Receipts and the lease carry no token; everything else carries the run's. */
  function RequestOf(site: Site, item: Item): Request
    requires Appends(item)
  {
    var tok := Some(site.token);
    match item
    case Intent(cap, op) => Request(OperationReceipt, [cap], site.actor, Some(ReceiptBody(site, op, "pending")), None)
    case Terminal(cap, op, status) =>
      Request(OperationReceipt, [cap], site.actor, Some(ReceiptBody(site, op, status)), None)
    case Bound(_, cap, b) => Request(BindingUpdated, [cap], site.actor, Some(BindingBody(site, cap, b)), tok)
    case Claimed(_, cap, id) =>
      Request(OwnershipClaimed, [cap], site.actor,
        Some(RunBody(site)["capability" := Str(cap)]["providerId" := Str(id)]), tok)
    case LeaseTaken =>
      Request(LeaseAcquired, site.writes, site.actor, Some(RunBody(site)["ttlSeconds" := Int(LEASE_TTL)]), None)
    case Started =>
      Request(ApplyStarted, site.writes, site.actor, Some(RunBody(site)["plan" := Str(site.planHash)]), tok)
    case FinishedMark => Request(ApplyFinished, site.writes, site.actor, Some(RunBody(site)), tok)
    case FailedMark =>
      Request(EventType.ApplyFailed, site.writes, site.actor, Some(RunBody(site)["exitCode" := Int(4)]), tok)
    case LeaseFreed => Request(LeaseReleased, site.writes, site.actor, None, tok)
  }

  /** The event an append becomes on top of a log. */
  ghost function Stamp(site: Site, log: seq<Event>, req: Request): Event {
    Event(req, site.env, site.clock, PrevHeads(Fold(log), req.caps))
  }

  /** The log after some items of a run. */
  ghost function Feed(site: Site, log: seq<Event>, items: seq<Item>): seq<Event> {
    if items == [] then log
    else
      var past, item := Feed(site, log, items[..|items| - 1]), items[|items| - 1];
      if Appends(item) then past + [Stamp(site, past, RequestOf(site, item))] else past
  }

  lemma FeedOne(site: Site, log: seq<Event>, items: seq<Item>, item: Item)
    ensures Feed(site, log, items + [item])
      == if Appends(item) then Feed(site, log, items) + [Stamp(site, Feed(site, log, items), RequestOf(site, item))]
         else Feed(site, log, items)
  {
    assert (items + [item])[..|items|] == items;
  }

  // ---- what receipts leave pending -----------------------------------------

  /** One item's effect on what a capability has pending. */
  function PendingItem(was: set<string>, item: Item, cap: string): set<string> {
    match item
    case Intent(c, op) => if c == cap then was + {op} else was
    case Terminal(c, op, status) => if c != cap then was else if status in OPENING then was + {op} else was - {op}
    case _ => was
  }

  /** The operations one capability has pending after some items, from those it had before. */
  function PendingItems(was: set<string>, items: seq<Item>, cap: string): set<string> {
    if items == [] then was
    else PendingItem(PendingItems(was, items[..|items| - 1], cap), items[|items| - 1], cap)
  }

  lemma PendingOne(was: set<string>, items: seq<Item>, item: Item, cap: string)
    ensures PendingItems(was, items + [item], cap) == PendingItem(PendingItems(was, items, cap), item, cap)
  {
    assert (items + [item])[..|items|] == items;
  }

  /** Receipts name an operation and a status the ledger knows. */
  predicate GoodReceipt(item: Item) {
    (item.Intent? ==> item.op != "") && (item.Terminal? ==> item.op != "" && item.status in OPENING + CONCLUDING)
  }

  lemma ReceiptRead(site: Site, op: string, status: string)
    requires op != "" && status in OPENING + CONCLUDING
    ensures ReceiptOf(Some(ReceiptBody(site, op, status)))
      == Some(if status in OPENING then Opens(op) else Concludes(op))
  {
    var body := ReceiptBody(site, op, status);
    assert body["operationId"] == Str(op) && body["status"] == Str(status);
  }

  lemma PendingOfCommit(site: Site, log: seq<Event>, item: Item, cap: string)
    requires Appends(item) && GoodReceipt(item)
    ensures PendingOn(Commit(Fold(log), Stamp(site, log, RequestOf(site, item))).pending, cap)
      == PendingItem(PendingOn(Fold(log).pending, cap), item, cap)
  {
    hide Commit, Fold, HashOf, NextToken, RequestOf, PendingAfter, PendingItem;
    var t, ev := Fold(log), Stamp(site, log, RequestOf(site, item));
    CommitLookups(t, ev, cap);
    if item.Intent? || item.Terminal? {
      ReceiptPends(site, t, ev, item, cap);
    } else {
      OthersPendNothing(site, t, ev, item, cap);
    }
  }

  lemma ReceiptPends(site: Site, t: Table, ev: Event, item: Item, cap: string)
    requires (item.Intent? || item.Terminal?) && GoodReceipt(item) && ev.req == RequestOf(site, item)
    ensures PendingAfter(t, ev, cap).GetOr({}) == PendingItem(PendingOn(t.pending, cap), item, cap)
  {
    hide ReceiptOf;
    if item.Intent? { ReceiptRead(site, item.op, "pending"); } else { ReceiptRead(site, item.op, item.status); }
  }

  lemma OthersPendNothing(site: Site, t: Table, ev: Event, item: Item, cap: string)
    requires Appends(item) && !item.Intent? && !item.Terminal? && ev.req == RequestOf(site, item)
    ensures PendingAfter(t, ev, cap).GetOr({}) == PendingItem(PendingOn(t.pending, cap), item, cap)
  {
    hide ReceiptOf, BindingBody;
  }

  /** The pending sets of the ledger are exactly what the run's own receipts leave. */
  lemma {:induction false} FeedPending(site: Site, log: seq<Event>, items: seq<Item>, cap: string)
    requires forall x :: x in items ==> GoodReceipt(x)
    ensures PendingOn(Fold(Feed(site, log, items)).pending, cap)
      == PendingItems(PendingOn(Fold(log).pending, cap), items, cap)
    decreases |items|
  {
    hide Commit, Stamp, RequestOf;
    if items != [] {
      var past, item := items[..|items| - 1], items[|items| - 1];
      assert items == past + [item];
      FeedPending(site, log, past, cap);
      FeedOne(site, log, past, item);
      if Appends(item) {
        var l := Feed(site, log, past);
        var ev := Stamp(site, l, RequestOf(site, item));
        PendingOfCommit(site, l, item, cap);
        FoldOne(l, ev);
      }
      PendingOne(PendingOn(Fold(log).pending, cap), past, item, cap);
    }
  }

  lemma FoldOne(log: seq<Event>, ev: Event)
    ensures Fold(log + [ev]) == Commit(Fold(log), ev)
  {
    assert (log + [ev])[..|log|] == log;
  }
}
