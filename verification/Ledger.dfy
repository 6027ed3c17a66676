/**
 The ledger, lease and fencing engine (ref/groundholdlib/scenario.py).

 `Table` is the state the rules read; `Commit` is what one accepted event does to it, stated one
 capability at a time; `Fold` replays a log of events from the empty table. `Lawful` is the set of logs
 the rules can produce. The class `Engine` is the step machine with its mutable maps.
 */
module Ledger {
  import opened Prelude
  import opened Canonical

  datatype EventType =
    | ContractPublished | CandidateVerified | PlanSealed
    | ApplyStarted | ApplyFinished | ApplyFailed
    | ObservationRecorded | ViolationDetected | ViolationResolved
    | ProbeFailed | ObservationFailed
    | BindingUpdated
    | LeaseAcquired | LeaseRenewed | LeaseReleased | LeaseBroken
    | OperationReceipt | OwnershipClaimed
    | ConvergeStarted | ConvergePhaseEntered | ConvergeFinished | ConvergeFailed

  function TypeName(t: EventType): string {
    match t
    case ContractPublished => "contract.published"
    case CandidateVerified => "candidate.verified"
    case PlanSealed => "plan.sealed"
    case ApplyStarted => "apply.started"
    case ApplyFinished => "apply.finished"
    case ApplyFailed => "apply.failed"
    case ObservationRecorded => "observation.recorded"
    case ViolationDetected => "violation.detected"
    case ViolationResolved => "violation.resolved"
    case ProbeFailed => "probe.failed"
    case ObservationFailed => "observation.failed"
    case BindingUpdated => "binding.updated"
    case LeaseAcquired => "lease.acquired"
    case LeaseRenewed => "lease.renewed"
    case LeaseReleased => "lease.released"
    case LeaseBroken => "lease.broken"
    case OperationReceipt => "operation.receipt"
    case OwnershipClaimed => "ownership.claimed"
    case ConvergeStarted => "converge.started"
    case ConvergePhaseEntered => "converge.phase.entered"
    case ConvergeFinished => "converge.finished"
    case ConvergeFailed => "converge.failed"
  }

  predicate IsMutation(t: EventType) {
    t.BindingUpdated? || t.ApplyStarted? || t.ApplyFinished? || t.ApplyFailed?
  }

  predicate IsDecision(t: EventType) {
    IsMutation(t) || t.ContractPublished? || t.CandidateVerified? || t.PlanSealed?
  }

  type Body = Option<map<string, Value>>

  datatype Actor = Actor(id: string, actorType: string)

  /** What a writer asks for; the ledger adds the time and the previous heads. */
  datatype Request = Request(typ: EventType, caps: seq<string>, actor: Actor, body: Body, token: Option<int>)

  datatype Event = Event(req: Request, env: string, time: int, prev: map<string, string>) {
    function Typ(): EventType { req.typ }
    predicate Lists(c: string) { c in req.caps }
  }

  // ---- identity of events --------------------------------------------------

  function HeadsTree(prev: map<string, string>): Value {
    Dict(map c | c in prev :: Str(prev[c]))
  }

  function EventTree(ev: Event): map<string, Value> {
    var base := map[
      "type" := Str(TypeName(ev.req.typ)),
      "environment" := Str(ev.env),
      "capabilities" := List(seq(|ev.req.caps|, i requires 0 <= i < |ev.req.caps| => Str(ev.req.caps[i]))),
      "occurredAt" := Str(IntStr(ev.time)),
      "actor" := Dict(map["id" := Str(ev.req.actor.id), "type" := Str(ev.req.actor.actorType)])];
    var withBody := if ev.req.body.Some? then base["body" := Dict(ev.req.body.value)] else base;
    var withToken := if ev.req.token.Some? then withBody["fencingToken" := Int(ev.req.token.value)] else withBody;
    withToken["prev" := HeadsTree(ev.prev)]
  }

  function EventDoc(ev: Event): map<string, Value> {
    map["apiVersion" := Str("state/v0"), "kind" := Str("LedgerEvent"), "event" := Dict(EventTree(ev))]
  }

  function HashOf(ev: Event): Option<string> {
    HashEvent(EventDoc(ev))
  }

  // ---- bodies --------------------------------------------------------------

  /** Python truthiness of a decoded value. */
  predicate Truthy(v: Value) {
    match v
    case Null => false
    case Bool(b) => b
    case Int(n) => n != 0
    case Real(r) => r != 0.0
    case Str(s) => s != ""
    case List(items) => items != []
    case Dict(m) => m != map[]
    case _ => true
  }

  function Field(body: Body, key: string): Option<Value> {
    if body.Some? && key in body.value then Some(body.value[key]) else None
  }

  function Ttl(body: Body): Option<int> {
    match Field(body, "ttlSeconds")
    case Some(Int(n)) => Some(n)
    case _ => None
  }

  predicate Adopts(body: Body) {
    var v := Field(body, "adoptReceipts");
    v.Some? && Truthy(v.value)
  }

  datatype Receipt = Opens(op: string) | Concludes(op: string)

  const OPENING := {"pending", "unknown"}

  const CONCLUDING := {"succeeded", "failed", "retryable"}

  /** The operation a receipt names and whether its status leaves the operation pending. */
  function ReceiptOf(body: Body): Option<Receipt> {
    match (Field(body, "operationId"), Field(body, "status"))
    case (Some(Str(op)), Some(Str(status))) =>
      if op == "" then None
      else if status in OPENING then Some(Opens(op))
      else if status in CONCLUDING then Some(Concludes(op))
      else None
    case _ => None
  }

  // ---- the table and the rules ---------------------------------------------

  datatype Lease = Lease(token: int, expiry: int, ttl: int, ended: bool, seq_: nat)

  datatype Table = Table(
    heads: map<string, string>,
    decisionHeads: map<string, string>,
    leases: map<string, Lease>,
    maxToken: map<string, int>,
    leaseSeq: nat,
    pending: map<string, set<string>>)

  const EMPTY := Table(map[], map[], map[], map[], 0, map[])

  function Lookup<T>(m: map<string, T>, c: string): Option<T> {
    if c in m then Some(m[c]) else None
  }

  function HeadOf(heads: map<string, string>, c: string): string {
    if c in heads then heads[c] else GENESIS
  }

  function PendingOn(pending: map<string, set<string>>, c: string): set<string> {
    if c in pending then pending[c] else {}
  }

  predicate Active(lease: Option<Lease>, clock: int) {
    lease.Some? && !lease.value.ended && clock < lease.value.expiry
  }

  /** An active lease carrying the given token. */
  predicate Holds(leases: map<string, Lease>, c: string, tok: Option<int>, clock: int) {
    Active(Lookup(leases, c), clock) && tok == Some(leases[c].token)
  }

  function MaxOver(maxToken: map<string, int>, caps: seq<string>): (m: int)
    ensures m >= 0
    ensures forall c :: c in caps && c in maxToken ==> maxToken[c] <= m
  {
    if caps == [] then 0
    else
      var rest := MaxOver(maxToken, caps[1..]);
      if caps[0] in maxToken && maxToken[caps[0]] > rest then maxToken[caps[0]] else rest
  }

  /** The token a lease over these capabilities would be given. */
  function NextToken(maxToken: map<string, int>, caps: seq<string>): int {
    MaxOver(maxToken, caps) + 1
  }

  datatype Reason =
    | TtlRequired | LeaseHeld(cap: string)
    | NoActiveLease(cap: string)
    | PendingReceipts(cap: string)
    | TokenRequired | StaleToken(cap: string) | DifferentLeases(cap: string)
    | BadReceipt

  function FirstHeld(leases: map<string, Lease>, clock: int, caps: seq<string>): Option<Reason> {
    if caps == [] then None
    else if Active(Lookup(leases, caps[0]), clock) then Some(LeaseHeld(caps[0]))
    else FirstHeld(leases, clock, caps[1..])
  }

  function FirstUnheld(leases: map<string, Lease>, tok: Option<int>, clock: int, caps: seq<string>): Option<Reason> {
    if caps == [] then None
    else if !Holds(leases, caps[0], tok, clock) then Some(NoActiveLease(caps[0]))
    else FirstUnheld(leases, tok, clock, caps[1..])
  }

  function FirstPending(pending: map<string, set<string>>, caps: seq<string>): Option<Reason> {
    if caps == [] then None
    else if PendingOn(pending, caps[0]) != {} then Some(PendingReceipts(caps[0]))
    else FirstPending(pending, caps[1..])
  }

  /** The mutation scan: every capability held with the token, all under the lease seen first. */
  function MutationFault(leases: map<string, Lease>, tok: Option<int>, clock: int, caps: seq<string>,
                         covering: Option<nat>)
    : Option<Reason>
  {
    if caps == [] then None
    else if !Holds(leases, caps[0], tok, clock) then Some(StaleToken(caps[0]))
    else if covering.Some? && leases[caps[0]].seq_ != covering.value then Some(DifferentLeases(caps[0]))
    else MutationFault(leases, tok, clock, caps[1..], Some(leases[caps[0]].seq_))
  }

  /** `_check_rules`: why the request is rejected at this clock, or `None`. */
  function Fault(t: Table, req: Request, clock: int): Option<Reason> {
    match req.typ
    case LeaseAcquired =>
      if Ttl(req.body).None? || Ttl(req.body).value <= 0 then Some(TtlRequired)
      else FirstHeld(t.leases, clock, req.caps)
    case LeaseReleased => FirstUnheld(t.leases, req.token, clock, req.caps)
    case LeaseRenewed => FirstUnheld(t.leases, req.token, clock, req.caps)
    case LeaseBroken => if Adopts(req.body) then None else FirstPending(t.pending, req.caps)
    case OperationReceipt => if ReceiptOf(req.body).None? then Some(BadReceipt) else None
    case _ =>
      if !IsMutation(req.typ) then None
      else if req.token.None? then Some(TokenRequired)
      else MutationFault(t.leases, req.token, clock, req.caps, None)
  }

  // ---- what one accepted event does ----------------------------------------

  function LeaseAfter(t: Table, ev: Event, c: string): Option<Lease> {
    var was := Lookup(t.leases, c);
    if !ev.Lists(c) then was
    else match ev.req.typ
      case LeaseAcquired =>
        var ttl := Ttl(ev.req.body).GetOr(0);
        Some(Lease(NextToken(t.maxToken, ev.req.caps), ev.time + ttl, ttl, false, t.leaseSeq + 1))
      case LeaseReleased => End(was)
      case LeaseBroken => End(was)
      case LeaseRenewed =>
        if was.None? then None
        else
          var ttl := Ttl(ev.req.body).GetOr(was.value.ttl);
          Some(was.value.(expiry := ev.time + ttl, ttl := ttl))
      case _ => was
  }

  function End(lease: Option<Lease>): Option<Lease> {
    match lease
    case None => None
    case Some(l) => Some(l.(ended := true))
  }

  function TokenAfter(t: Table, ev: Event, c: string): Option<int> {
    if ev.Lists(c) && ev.req.typ.LeaseAcquired? then Some(NextToken(t.maxToken, ev.req.caps))
    else Lookup(t.maxToken, c)
  }

  function PendingAfter(t: Table, ev: Event, c: string): Option<set<string>> {
    var was := Lookup(t.pending, c);
    if !ev.Lists(c) then was
    else match ev.req.typ
      case LeaseBroken => if Adopts(ev.req.body) then Some({}) else was
      case OperationReceipt =>
        (match ReceiptOf(ev.req.body)
         case Some(Opens(op)) => Some(PendingOn(t.pending, c) + {op})
         case Some(Concludes(op)) => if was.None? then None else Some(was.value - {op})
         case None => was)
      case _ => was
  }

  function HeadAfter(heads: map<string, string>, ev: Event, moves: bool, c: string): Option<string> {
    if ev.Lists(c) && moves && HashOf(ev).Some? then HashOf(ev) else Lookup(heads, c)
  }

  function Touched(ev: Event): set<string> {
    set c | c in ev.req.caps
  }

  function Commit(t: Table, ev: Event): Table {
    Table(
      map c | c in t.heads.Keys + Touched(ev) && HeadAfter(t.heads, ev, true, c).Some?
        :: HeadAfter(t.heads, ev, true, c).value,
      map c | c in t.decisionHeads.Keys + Touched(ev) && HeadAfter(t.decisionHeads, ev, IsDecision(ev.req.typ), c).Some?
        :: HeadAfter(t.decisionHeads, ev, IsDecision(ev.req.typ), c).value,
      map c | c in t.leases.Keys + Touched(ev) && LeaseAfter(t, ev, c).Some? :: LeaseAfter(t, ev, c).value,
      map c | c in t.maxToken.Keys + Touched(ev) && TokenAfter(t, ev, c).Some? :: TokenAfter(t, ev, c).value,
      t.leaseSeq + if ev.req.typ.LeaseAcquired? then 1 else 0,
      map c | c in t.pending.Keys + Touched(ev) && PendingAfter(t, ev, c).Some? :: PendingAfter(t, ev, c).value)
  }

  /** The table after a whole log, from the events and their times alone. */
  ghost function Fold(log: seq<Event>): Table {
    if log == [] then EMPTY else Commit(Fold(log[..|log| - 1]), log[|log| - 1])
  }

  predicate WellFormed(req: Request) {
    req.caps != [] && req.actor.id != "" && (req.token.Some? ==> req.token.value >= 1)
  }

  function PrevHeads(t: Table, caps: seq<string>): map<string, string> {
    map c | c in caps :: HeadOf(t.heads, c)
  }

  /** An event the rules accept on top of a table. */
  predicate Legal(t: Table, ev: Event) {
    && WellFormed(ev.req)
    && ev.prev == PrevHeads(t, ev.req.caps)
    && Fault(t, ev.req, ev.time).None?
    && HashOf(ev).Some?
  }

  ghost predicate LegalAt(log: seq<Event>, i: int)
    requires 0 <= i < |log|
  {
    Legal(Fold(log[..i]), log[i]) && (i > 0 ==> log[i - 1].time <= log[i].time)
  }

  /** The logs the engine can hold: each event legal on top of the ones before it, in time order. */
  ghost predicate Lawful(log: seq<Event>) {
    forall i :: 0 <= i < |log| ==> LegalAt(log, i)
  }
}
