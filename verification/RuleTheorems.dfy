/**
 The append rules as statements about the log: who may end or renew a lease, when one may be taken, broken or mutated
 under, which receipts are understood, and what is pending. Events are named by their type and read by their fields.
 */
module RuleTheorems {
  import opened Prelude
  import opened Canonical
  import opened Ledger
  import opened LedgerTheorems
  import opened LeaseTheorems

  // ---- reading a body --------------------------------------------------------

  predicate Says(body: Body, key: string, v: Value) {
    body.Some? && key in body.value && body.value[key] == v
  }

  /** The body asks to adopt pending receipts: the field is there and is none of the values that count as false. */
  predicate AsksToAdopt(body: Body) {
    && body.Some? && "adoptReceipts" in body.value
    && body.value["adoptReceipts"] !in {Null, Bool(false), Int(0), Real(0.0), Str(""), List([]), Dict(map[])}
  }

  /** A receipt on `c` that leaves `op` pending. */
  predicate OpensOp(ev: Event, c: string, op: string) {
    && c in ev.req.caps && ev.req.typ == OperationReceipt && op != "" && Says(ev.req.body, "operationId", Str(op))
    && (Says(ev.req.body, "status", Str("pending")) || Says(ev.req.body, "status", Str("unknown")))
  }

  /** A receipt on `c` that concludes `op`, or an adoption of everything pending on `c`. */
  predicate ClosesOp(ev: Event, c: string, op: string) {
    && c in ev.req.caps
    && ((ev.req.typ == LeaseBroken && AsksToAdopt(ev.req.body))
        || (ev.req.typ == OperationReceipt && op != "" && Says(ev.req.body, "operationId", Str(op))
            && (Says(ev.req.body, "status", Str("succeeded")) || Says(ev.req.body, "status", Str("failed"))
                || Says(ev.req.body, "status", Str("retryable")))))
  }

  lemma AdoptsByValue(body: Body)
    ensures Adopts(body) <==> AsksToAdopt(body)
  {
  }

  lemma StatusesDiffer()
    ensures "pending" !in CONCLUDING && "unknown" !in CONCLUDING
    ensures "succeeded" !in OPENING && "failed" !in OPENING && "retryable" !in OPENING
  {
    assert "pending"[0] == 'p' && "unknown"[0] == 'u';
    assert "succeeded"[0] == 's' && "failed"[0] == 'f' && "retryable"[0] == 'r';
  }

  lemma ReceiptByFields(ev: Event, c: string, op: string)
    requires ev.req.typ == OperationReceipt && c in ev.req.caps
    ensures OpensOp(ev, c, op) <==> ReceiptOf(ev.req.body) == Some(Opens(op))
    ensures ClosesOp(ev, c, op) <==> ReceiptOf(ev.req.body) == Some(Concludes(op))
  {
    StatusesDiffer();
    assert OPENING == {"pending", "unknown"} && CONCLUDING == {"succeeded", "failed", "retryable"};
  }

  // ---- what is pending -------------------------------------------------------

  /** The operation was opened on the capability and nothing has closed it since. */
  ghost predicate PendingInLog(log: seq<Event>, c: string, op: string) {
    exists i :: 0 <= i < |log| && OpensOp(log[i], c, op) && forall j :: i < j < |log| ==> !ClosesOp(log[j], c, op)
  }

  lemma PendingGrows(log: seq<Event>, n: nat, c: string, op: string)
    requires |log| == n + 1
    ensures PendingInLog(log, c, op) <==>
      OpensOp(log[n], c, op) || (PendingInLog(log[..n], c, op) && !ClosesOp(log[n], c, op))
  {
    hide OpensOp, ClosesOp;
    if PendingInLog(log, c, op) && !OpensOp(log[n], c, op) {
      var i :| 0 <= i < |log| && OpensOp(log[i], c, op) && forall j :: i < j < |log| ==> !ClosesOp(log[j], c, op);
      assert OpensOp(log[..n][i], c, op);
    }
    if PendingInLog(log[..n], c, op) && !ClosesOp(log[n], c, op) {
      var i :| 0 <= i < n && OpensOp(log[..n][i], c, op) && forall j :: i < j < n ==> !ClosesOp(log[..n][j], c, op);
      assert OpensOp(log[i], c, op);
      assert forall j :: i < j < n ==> log[..n][j] == log[j];
    }
  }

  lemma PendingByEvent(t: Table, ev: Event, c: string, op: string)
    ensures op in PendingAfter(t, ev, c).GetOr({}) <==>
      OpensOp(ev, c, op) || (op in PendingOn(t.pending, c) && !ClosesOp(ev, c, op))
  {
    hide ReceiptOf, Adopts, AsksToAdopt;
    AdoptsByValue(ev.req.body);
    if ev.req.typ == OperationReceipt && c in ev.req.caps {
      hide OpensOp, ClosesOp;
      ReceiptByFields(ev, c, op);
    }
  }

  /** An operation is pending on a capability exactly when the log opened it there and has not closed it since. */
  lemma {:induction false} PendingFromLog(log: seq<Event>, c: string, op: string)
    ensures op in PendingOn(Fold(log).pending, c) <==> PendingInLog(log, c, op)
    decreases |log|
  {
    hide Commit, PendingAfter, OpensOp, ClosesOp, PendingInLog;
    if log == [] {
      NothingPending(c, op);
    } else {
      var n := |log| - 1;
      PendingFromLog(log[..n], c, op);
      PendingGrows(log, n, c, op);
      CommitLookups(Fold(log[..n]), log[n], c);
      PendingByEvent(Fold(log[..n]), log[n], c, op);
    }
  }

  lemma NothingPending(c: string, op: string)
    ensures !PendingInLog([], c, op)
  {
  }

  // ---- the rules -------------------------------------------------------------

  /** The lease of the acquire at `k` runs on the capability and was issued this token. */
  ghost predicate HeldUnder(log: seq<Event>, k: int, c: string, tok: Option<int>, clock: int) {
    0 <= k < |log| && CoversOne(log, k, c, clock) && tok == Some(Issued(log, k))
  }

  lemma HoldsFromLog(log: seq<Event>, c: string, tok: Option<int>, clock: int)
    ensures Holds(Fold(log).leases, c, tok, clock) <==> exists k :: HeldUnder(log, k, c, tok, clock)
  {
    hide Commit, Fold, CoversOne, Issued, TermOf;
    if k :| HeldUnder(log, k, c, tok, clock) {
      AcquireOf(log, k, c, clock);
      HoldsIsCovered(log, k, c, tok, clock);
    }
    if Holds(Fold(log).leases, c, tok, clock) {
      LeaseFromLog(log, c);
      var k := Latest(Acquiring, log, c);
      HoldsIsCovered(log, k, c, tok, clock);
      assert HeldUnder(log, k, c, tok, clock);
    }
  }

  lemma AcquireOf(log: seq<Event>, k: int, c: string, clock: int)
    requires 0 <= k < |log| && CoversOne(log, k, c, clock)
    ensures log[k].Typ().LeaseAcquired?
  {
  }

  lemma ActiveFromLog(log: seq<Event>, c: string, clock: int)
    ensures Active(Lookup(Fold(log).leases, c), clock) <==> exists k :: 0 <= k < |log| && CoversOne(log, k, c, clock)
  {
    hide Commit, Fold, CoversOne, Issued, TermOf;
    if k :| 0 <= k < |log| && CoversOne(log, k, c, clock) {
      HoldsFromLog(log, c, Some(Issued(log, k)), clock);
      assert HeldUnder(log, k, c, Some(Issued(log, k)), clock);
    }
    if Active(Lookup(Fold(log).leases, c), clock) {
      var tok := Some(Fold(log).leases[c].token);
      HoldsFromLog(log, c, tok, clock);
      var k :| HeldUnder(log, k, c, tok, clock);
    }
  }

  lemma {:induction false} ScanUnheld(leases: map<string, Lease>, tok: Option<int>, clock: int, caps: seq<string>)
    ensures FirstUnheld(leases, tok, clock, caps).None? <==> forall c :: c in caps ==> Holds(leases, c, tok, clock)
    ensures FirstUnheld(leases, tok, clock, caps).Some? ==>
      exists i :: 0 <= i < |caps| && FirstUnheld(leases, tok, clock, caps) == Some(NoActiveLease(caps[i]))
        && !Holds(leases, caps[i], tok, clock) && forall j :: 0 <= j < i ==> Holds(leases, caps[j], tok, clock)
    decreases |caps|
  {
    hide Holds;
    if caps != [] {
      var rest := caps[1..];
      ScanUnheld(leases, tok, clock, rest);
      assert forall c :: c in caps <==> c == caps[0] || c in rest;
      if Holds(leases, caps[0], tok, clock) && FirstUnheld(leases, tok, clock, rest).Some? {
        var i :| 0 <= i < |rest| && FirstUnheld(leases, tok, clock, rest) == Some(NoActiveLease(rest[i]))
          && !Holds(leases, rest[i], tok, clock) && forall j :: 0 <= j < i ==> Holds(leases, rest[j], tok, clock);
        assert caps[i + 1] == rest[i];
        assert forall j :: 0 < j < i + 1 ==> caps[j] == rest[j - 1];
      }
    }
  }

  lemma {:induction false} ScanHeld(leases: map<string, Lease>, clock: int, caps: seq<string>)
    ensures FirstHeld(leases, clock, caps).None? <==> forall c :: c in caps ==> !Active(Lookup(leases, c), clock)
    decreases |caps|
  {
    hide Active;
    if caps != [] {
      ScanHeld(leases, clock, caps[1..]);
      assert forall c :: c in caps <==> c == caps[0] || c in caps[1..];
    }
  }

  lemma {:induction false} ScanPending(pending: map<string, set<string>>, caps: seq<string>)
    ensures FirstPending(pending, caps).None? <==> forall c :: c in caps ==> PendingOn(pending, c) == {}
    decreases |caps|
  {
    if caps != [] {
      ScanPending(pending, caps[1..]);
      assert forall c :: c in caps <==> c == caps[0] || c in caps[1..];
    }
  }

  /** Why nothing forbids a request, type by type, as the log has it. */
  ghost predicate Permitted(log: seq<Event>, req: Request, clock: int) {
    match req.typ
    case LeaseAcquired =>
      && (exists ttl :: ttl > 0 && Says(req.body, "ttlSeconds", Int(ttl)))
      && (forall c, k :: c in req.caps && 0 <= k < |log| ==> !CoversOne(log, k, c, clock))
    case LeaseReleased => forall c :: c in req.caps ==> exists k :: HeldUnder(log, k, c, req.token, clock)
    case LeaseRenewed => forall c :: c in req.caps ==> exists k :: HeldUnder(log, k, c, req.token, clock)
    case LeaseBroken => AsksToAdopt(req.body) || forall c, op :: c in req.caps ==> !PendingInLog(log, c, op)
    case OperationReceipt =>
      && (exists op :: op != "" && Says(req.body, "operationId", Str(op)))
      && (exists s :: s in {"pending", "unknown", "succeeded", "failed", "retryable"}
            && Says(req.body, "status", Str(s)))
    case BindingUpdated => exists k :: Covers(log, k, req.caps, req.token, clock)
    case ApplyStarted => exists k :: Covers(log, k, req.caps, req.token, clock)
    case ApplyFinished => exists k :: Covers(log, k, req.caps, req.token, clock)
    case ApplyFailed => exists k :: Covers(log, k, req.caps, req.token, clock)
    case _ => true
  }

  /** The rules forbid nothing exactly when the log permits it. */
  lemma FaultFromLog(log: seq<Event>, req: Request, clock: int)
    requires req.caps != []
    ensures Fault(Fold(log), req, clock).None? <==> Permitted(log, req, clock)
  {
    hide Commit, Fold, MutationFault, FirstHeld, FirstUnheld, FirstPending, Adopts, AsksToAdopt, CoversOne, HeldUnder,
      Covers, Holds, PendingInLog, Active, ReceiptOf, Ttl;
    var t := Fold(log);
    match req.typ {
      case LeaseAcquired => TakenFromLog(log, req, clock);
      case LeaseReleased => HolderFromLog(log, req, clock);
      case LeaseRenewed => HolderFromLog(log, req, clock);
      case LeaseBroken => BrokenFromLog(log, req, clock);
      case OperationReceipt => ReceiptIsRead(req);
      case _ =>
        MutationNeedsOneLease(log, req.caps, req.token, clock);
        if req.token.None? { NoTokenCoversNothing(log, req.caps, clock); }
    }
  }

  lemma NoTokenCoversNothing(log: seq<Event>, caps: seq<string>, clock: int)
    ensures !exists k :: Covers(log, k, caps, None, clock)
  {
    hide Issued, CoversOne;
  }

  lemma TakenFromLog(log: seq<Event>, req: Request, clock: int)
    requires req.typ == LeaseAcquired
    ensures Fault(Fold(log), req, clock).None? <==> Permitted(log, req, clock)
  {
    hide Commit, Fold, CoversOne, Active;
    ScanHeld(Fold(log).leases, clock, req.caps);
    forall c
      ensures Active(Lookup(Fold(log).leases, c), clock) <==>
        exists k :: 0 <= k < |log| && CoversOne(log, k, c, clock)
    {
      ActiveFromLog(log, c, clock);
    }
    if Ttl(req.body).Some? { assert Says(req.body, "ttlSeconds", Int(Ttl(req.body).value)); }
  }

  lemma HolderFromLog(log: seq<Event>, req: Request, clock: int)
    requires req.typ == LeaseReleased || req.typ == LeaseRenewed
    ensures Fault(Fold(log), req, clock).None? <==> Permitted(log, req, clock)
  {
    hide Commit, Fold, HeldUnder, Holds;
    ScanUnheld(Fold(log).leases, req.token, clock, req.caps);
    forall c
      ensures Holds(Fold(log).leases, c, req.token, clock) <==> exists k :: HeldUnder(log, k, c, req.token, clock)
    {
      HoldsFromLog(log, c, req.token, clock);
    }
  }

  lemma BrokenFromLog(log: seq<Event>, req: Request, clock: int)
    requires req.typ == LeaseBroken
    ensures Fault(Fold(log), req, clock).None? <==> Permitted(log, req, clock)
  {
    hide Commit, Fold, PendingInLog, Adopts, AsksToAdopt;
    AdoptsByValue(req.body);
    ScanPending(Fold(log).pending, req.caps);
    forall c, op
      ensures op in PendingOn(Fold(log).pending, c) <==> PendingInLog(log, c, op)
    {
      PendingFromLog(log, c, op);
    }
  }

  lemma ReceiptIsRead(req: Request)
    requires req.typ == OperationReceipt
    ensures ReceiptOf(req.body).None? <==> !Permitted([], req, 0)
  {
    StatusesDiffer();
  }

  /** In a lawful log every event was permitted by the log before it, at its own time. */
  lemma EventsArePermitted(log: seq<Event>, i: nat)
    requires Lawful(log) && i < |log|
    ensures Permitted(log[..i], log[i].req, log[i].time)
  {
    hide Commit, Fold, HashOf, Lawful, Permitted, Fault;
    LawfulAt(log, i);
    FaultFromLog(log[..i], log[i].req, log[i].time);
  }

  /** So a lease is released or renewed only by its holder, capability by capability, while it runs. */
  lemma OnlyHoldersEndLeases(log: seq<Event>, i: nat, c: string)
    requires Lawful(log) && i < |log| && log[i].Lists(c)
    requires log[i].Typ() == LeaseReleased || log[i].Typ() == LeaseRenewed
    ensures exists k ::
      && 0 <= k < i && On(Acquiring, log[k], c) && log[i].req.token == Some(Issued(log, k))
      && (forall j :: k < j < i ==> !On(Acquiring, log[j], c) && !On(Ending, log[j], c))
      && log[i].time < TermOf(log[..i], c).expiry
  {
    hide Fold, Lawful;
    EventsArePermitted(log, i);
    hide *;
    PermitsHolder(log[..i], log[i].req, log[i].time, c);
    var k :| HeldUnder(log[..i], k, c, log[i].req.token, log[i].time);
    HolderAt(log, i, k, c);
  }

  lemma PermitsHolder(log: seq<Event>, req: Request, clock: int, c: string)
    requires Permitted(log, req, clock) && c in req.caps && (req.typ == LeaseReleased || req.typ == LeaseRenewed)
    ensures exists k :: HeldUnder(log, k, c, req.token, clock)
  {
    hide HeldUnder;
  }

  lemma HolderAt(log: seq<Event>, i: nat, k: int, c: string)
    requires i < |log| && HeldUnder(log[..i], k, c, log[i].req.token, log[i].time)
    ensures 0 <= k < i && On(Acquiring, log[k], c) && log[i].req.token == Some(Issued(log, k))
    ensures forall j :: k < j < i ==> !On(Acquiring, log[j], c) && !On(Ending, log[j], c)
    ensures log[i].time < TermOf(log[..i], c).expiry
  {
    hide Fold, TermOf, On;
    assert log[..i][..k] == log[..k];
    assert forall j :: 0 <= j < i ==> log[..i][j] == log[j];
  }

  // ---- which capability a refusal names --------------------------------------

  /** The first of the listed capabilities on which something is wrong. */
  ghost predicate FirstOf(caps: seq<string>, c: string, wrong: string -> bool) {
    exists i :: 0 <= i < |caps| && caps[i] == c && wrong(c) && forall j :: 0 <= j < i ==> !wrong(caps[j])
  }

  lemma FirstFurther(caps: seq<string>, c: string, wrong: string -> bool)
    requires caps != [] && !wrong(caps[0]) && FirstOf(caps[1..], c, wrong)
    ensures FirstOf(caps, c, wrong)
  {
    var rest := caps[1..];
    var i :| 0 <= i < |rest| && rest[i] == c && wrong(c) && forall j :: 0 <= j < i ==> !wrong(rest[j]);
    assert caps[i + 1] == c;
    assert forall j :: 0 < j < i + 1 ==> caps[j] == rest[j - 1];
  }

  function Unheld(leases: map<string, Lease>, tok: Option<int>, clock: int): string -> bool {
    c => !Holds(leases, c, tok, clock)
  }

  function Running(leases: map<string, Lease>, clock: int): string -> bool {
    c => Active(Lookup(leases, c), clock)
  }

  function Waiting(pending: map<string, set<string>>): string -> bool {
    c => PendingOn(pending, c) != {}
  }

  /** Held, but under another lease than `q`, or not held at all. */
  function Strange(leases: map<string, Lease>, tok: Option<int>, clock: int, q: nat): string -> bool {
    c => !Holds(leases, c, tok, clock) || leases[c].seq_ != q
  }

  lemma {:induction false} UnheldNamed(leases: map<string, Lease>, tok: Option<int>, clock: int, caps: seq<string>)
    ensures match FirstUnheld(leases, tok, clock, caps)
      case Some(r) => r.NoActiveLease? && FirstOf(caps, r.cap, Unheld(leases, tok, clock))
      case None => true
  {
    if caps != [] && Holds(leases, caps[0], tok, clock) {
      UnheldNamed(leases, tok, clock, caps[1..]);
      var r := FirstUnheld(leases, tok, clock, caps[1..]);
      if r.Some? { FirstFurther(caps, r.value.cap, Unheld(leases, tok, clock)); }
    }
  }

  lemma {:induction false} HeldNamed(leases: map<string, Lease>, clock: int, caps: seq<string>)
    ensures match FirstHeld(leases, clock, caps)
      case Some(r) => r.LeaseHeld? && FirstOf(caps, r.cap, Running(leases, clock))
      case None => true
  {
    if caps != [] && !Active(Lookup(leases, caps[0]), clock) {
      HeldNamed(leases, clock, caps[1..]);
      var r := FirstHeld(leases, clock, caps[1..]);
      if r.Some? { FirstFurther(caps, r.value.cap, Running(leases, clock)); }
    }
  }

  lemma {:induction false} WaitingNamed(pending: map<string, set<string>>, caps: seq<string>)
    ensures match FirstPending(pending, caps)
      case Some(r) => r.PendingReceipts? && FirstOf(caps, r.cap, Waiting(pending))
      case None => true
  {
    if caps != [] && PendingOn(pending, caps[0]) == {} {
      WaitingNamed(pending, caps[1..]);
      var r := FirstPending(pending, caps[1..]);
      if r.Some? { FirstFurther(caps, r.value.cap, Waiting(pending)); }
    }
  }

  lemma {:induction false} StrangeNamed(leases: map<string, Lease>, tok: Option<int>, clock: int, caps: seq<string>,
                                        q: nat)
    ensures match MutationFault(leases, tok, clock, caps, Some(q))
      case Some(r) =>
        && (r.StaleToken? || r.DifferentLeases?) && FirstOf(caps, r.cap, Strange(leases, tok, clock, q))
        && (r.DifferentLeases? <==> Holds(leases, r.cap, tok, clock))
      case None => true
  {
    if caps != [] && !Strange(leases, tok, clock, q)(caps[0]) {
      StrangeNamed(leases, tok, clock, caps[1..], q);
      var r := MutationFault(leases, tok, clock, caps[1..], Some(q));
      if r.Some? { FirstFurther(caps, r.value.cap, Strange(leases, tok, clock, q)); }
    }
  }

  /** A refusal names the first listed capability that is in the way, and what is the matter with it. */
  lemma RefusalNamesFirst(t: Table, req: Request, clock: int)
    requires req.caps != []
    ensures match Fault(t, req, clock)
      case None => true
      case Some(TtlRequired) =>
        req.typ == LeaseAcquired && forall ttl :: ttl > 0 ==> !Says(req.body, "ttlSeconds", Int(ttl))
      case Some(LeaseHeld(c)) => req.typ == LeaseAcquired && FirstOf(req.caps, c, Running(t.leases, clock))
      case Some(NoActiveLease(c)) =>
        && (req.typ == LeaseReleased || req.typ == LeaseRenewed)
        && FirstOf(req.caps, c, Unheld(t.leases, req.token, clock))
      case Some(PendingReceipts(c)) => req.typ == LeaseBroken && FirstOf(req.caps, c, Waiting(t.pending))
      case Some(TokenRequired) => req.token == None
      case Some(StaleToken(c)) =>
        && req.token != None && !Holds(t.leases, c, req.token, clock)
        && (c == req.caps[0] || (Holds(t.leases, req.caps[0], req.token, clock)
              && FirstOf(req.caps, c, Strange(t.leases, req.token, clock, t.leases[req.caps[0]].seq_))))
      case Some(DifferentLeases(c)) =>
        && Holds(t.leases, req.caps[0], req.token, clock)
        && FirstOf(req.caps, c, Strange(t.leases, req.token, clock, t.leases[req.caps[0]].seq_))
        && Holds(t.leases, c, req.token, clock)
      case Some(BadReceipt) => req.typ == OperationReceipt
  {
    hide FirstOf, FirstHeld, FirstUnheld, FirstPending, Adopts, ReceiptOf;
    HeldNamed(t.leases, clock, req.caps);
    UnheldNamed(t.leases, req.token, clock, req.caps);
    WaitingNamed(t.pending, req.caps);
    if req.token.Some? { MutationNamed(t.leases, req.token, clock, req.caps); }
  }

  lemma MutationNamed(leases: map<string, Lease>, tok: Option<int>, clock: int, caps: seq<string>)
    requires caps != []
    ensures match MutationFault(leases, tok, clock, caps, None)
      case None => true
      case Some(r) =>
        if Holds(leases, caps[0], tok, clock) then
          && (r.StaleToken? || r.DifferentLeases?)
          && FirstOf(caps, r.cap, Strange(leases, tok, clock, leases[caps[0]].seq_)) && r.cap in caps
          && (r.DifferentLeases? <==> Holds(leases, r.cap, tok, clock))
        else r == StaleToken(caps[0])
  {
    if Holds(leases, caps[0], tok, clock) {
      var q := leases[caps[0]].seq_;
      StrangeNamed(leases, tok, clock, caps[1..], q);
      var r := MutationFault(leases, tok, clock, caps[1..], Some(q));
      if r.Some? { FirstFurther(caps, r.value.cap, Strange(leases, tok, clock, q)); }
    }
  }

  // ---- tokens ----------------------------------------------------------------

  lemma {:induction false} MaxIsReached(maxToken: map<string, int>, caps: seq<string>)
    ensures MaxOver(maxToken, caps) == 0
      || exists c :: c in caps && c in maxToken && maxToken[c] == MaxOver(maxToken, caps)
  {
    if caps != [] {
      MaxIsReached(maxToken, caps[1..]);
      assert forall c :: c in caps <==> c == caps[0] || c in caps[1..];
    }
  }

  /** A lease's token is one more than the largest issued before on any capability it lists, and 1 where there is
      none. */
  lemma TokenIsNext(log: seq<Event>, k: nat)
    requires k < |log| && log[k].Typ() == LeaseAcquired
    ensures Issued(log, k) >= 1
    ensures forall i, c :: 0 <= i < k && c in log[k].req.caps && On(Acquiring, log[i], c) ==>
      Issued(log, i) < Issued(log, k)
    ensures Issued(log, k) == 1 || exists i, c ::
      0 <= i < k && c in log[k].req.caps && On(Acquiring, log[i], c) && Issued(log, k) == Issued(log, i) + 1
  {
    hide Commit, Fold, On, Issued;
    var caps := log[k].req.caps;
    assert forall c :: c in caps ==> On(Acquiring, log[k], c) by { ListedIsAcquired(log[k]); }
    forall i, c | 0 <= i < k && c in caps && On(Acquiring, log[i], c)
      ensures Issued(log, i) < Issued(log, k)
    {
      TokensIncrease(log, i, k, c);
    }
    TokenFollows(log, k);
  }

  lemma ListedIsAcquired(ev: Event)
    requires ev.Typ() == LeaseAcquired
    ensures forall c :: c in ev.req.caps ==> On(Acquiring, ev, c)
  {
  }

  lemma TokenFollows(log: seq<Event>, k: nat)
    requires k < |log|
    ensures Issued(log, k) >= 1
    ensures Issued(log, k) == 1 || exists i, c ::
      0 <= i < k && c in log[k].req.caps && On(Acquiring, log[i], c) && Issued(log, k) == Issued(log, i) + 1
  {
    hide Commit, Fold, On, TermOf;
    var past, caps := log[..k], log[k].req.caps;
    var maxToken := Fold(past).maxToken;
    MaxIsReached(maxToken, caps);
    if Issued(log, k) != 1 {
      var c :| c in caps && c in maxToken && maxToken[c] == MaxOver(maxToken, caps);
      LeaseFromLog(past, c);
      var i := Latest(Acquiring, past, c);
      assert past[..i] == log[..i] && past[i] == log[i];
      assert Issued(log, k) == Issued(log, i) + 1;
    }
  }

  // ---- the decision head -----------------------------------------------------

  /** The decision head of a capability is moved by exactly these events, seven by name. */
  lemma DecisionsMoveHead(log: seq<Event>, ev: Event, c: string)
    requires Lawful(log + [ev])
    ensures HeadAt(Deciding, log + [ev], c) != HeadAt(Deciding, log, c) <==>
      c in ev.req.caps && ev.req.typ in {ContractPublished, CandidateVerified, PlanSealed, BindingUpdated, ApplyStarted,
        ApplyFinished, EventType.ApplyFailed}
  {
    hide HashOf, Lawful, HeadAt;
    var whole := log + [ev];
    NoHeadRecurs(Deciding, whole, |log|, |whole|, c);
    assert whole[..|log|] == log && whole[..|whole|] == whole && whole[|log|] == ev;
    assert (forall i :: |log| <= i < |whole| ==> !On(Deciding, whole[i], c)) <==> !On(Deciding, ev, c);
  }
}
