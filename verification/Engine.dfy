/**
 The scenario step machine (`run_scenario` in ref/groundholdlib/scenario.py) with its mutable maps.
 Every method is proved against the log: the maps are always the replay of the committed events, and a head
 check is answered as the log answers it.
 */
module ScenarioEngine {
  import opened Prelude
  import opened Canonical
  import opened Ledger
  import opened LedgerTheorems

  /** A head a step names: a literal value, or `@N` for the hash of step N's event. */
  datatype Ref = Literal(h: string) | At(step: int)

  datatype Step =
    | Tick(n: int)
    | Append(req: Request, expected: Option<map<string, Ref>>)
    | CheckHeads(want: map<string, Ref>)
    | CheckDecisionHeads(want: map<string, Ref>)

  /** `Raised` is an authoring error: the source raises and the run has no results. */
  datatype Result = Done | Granted(token: int) | Conflict | Rejected(reason: Reason) | Fresh | Stale | Raised

  datatype Cas = Match | Mismatch | BadRef

  function Resolve(ref: Ref, hashes: map<int, string>): Option<string> {
    match ref
    case Literal(h) => Some(h)
    case At(n) => if n in hashes then Some(hashes[n]) else None
  }

  /** The compare half of compare-and-swap: capabilities in order, stopping at the first that differs. */
  function CompareHeads(heads: map<string, string>, hashes: map<int, string>, expected: map<string, Ref>,
                        caps: seq<string>): Cas {
    if caps == [] then Match
    else
      var want := Resolve(ExpectedOn(expected, caps[0]), hashes);
      if want.None? then BadRef
      else if HeadOf(heads, caps[0]) != want.value then Mismatch
      else CompareHeads(heads, hashes, expected, caps[1..])
  }

  // ---- what a step means for the log ----------------------------------------

  /** All that a scenario's past amounts to: the clock, the committed events, and the index of each step's event. */
  datatype World = World(clock: int, log: seq<Event>, stepEvents: map<int, int>)

  predicate Dangling(w: World, ref: Ref) {
    ref.At? && ref.step !in w.stepEvents
  }

  /** What a head reference says about the log: the named event is the newest of its topic on the capability. */
  ghost predicate Names(w: World, topic: Topic, ref: Ref, c: string) {
    match ref
    case Literal(h) => HeadAt(topic, w.log, c) == h
    case At(n) => n in w.stepEvents && Latest(topic, w.log, c) == w.stepEvents[n]
  }

  /** A check is fresh exactly when every named event is the newest on its capability. */
  ghost function CheckAnswer(w: World, topic: Topic, want: map<string, Ref>): Result {
    if exists c :: c in want && Dangling(w, want[c]) then Raised
    else if forall c :: c in want ==> Names(w, topic, want[c], c) then Fresh
    else Stale
  }

  function ExpectedOn(expected: map<string, Ref>, c: string): Ref {
    if c in expected then expected[c] else Literal(GENESIS)
  }

  /** The compare half of an append, read off the log, up to the first capability that differs. */
  ghost function CasAnswer(w: World, expected: map<string, Ref>, caps: seq<string>): Cas {
    if caps == [] then Match
    else
      var want := ExpectedOn(expected, caps[0]);
      if Dangling(w, want) then BadRef
      else if !Names(w, Listing, want, caps[0]) then Mismatch
      else CasAnswer(w, expected, caps[1..])
  }

  /** The event an append would commit. */
  ghost function NextEvent(env: string, w: World, req: Request): Event {
    Event(req, env, w.clock, PrevHeads(Fold(w.log), req.caps))
  }

  ghost function AppendAnswer(env: string, w: World, req: Request, expected: Option<map<string, Ref>>): Result {
    var cas := if expected.None? then Match else CasAnswer(w, expected.value, req.caps);
    if !WellFormed(req) || cas.BadRef? then Raised
    else if cas.Mismatch? then Conflict
    else match Fault(Fold(w.log), req, w.clock)
      case Some(reason) => Rejected(reason)
      case None =>
        if HashOf(NextEvent(env, w, req)).None? then Raised
        else if req.typ.LeaseAcquired? then Granted(NextToken(Fold(w.log).maxToken, req.caps))
        else Done
  }

  /** The result of a step. */
  ghost function Answer(env: string, w: World, step: Step): Result {
    match step
    case Tick(n) => if n <= 0 then Raised else Done
    case CheckHeads(want) => CheckAnswer(w, Listing, want)
    case CheckDecisionHeads(want) => CheckAnswer(w, Deciding, want)
    case Append(req, expected) => AppendAnswer(env, w, req, expected)
  }

  predicate Commits(step: Step, r: Result) {
    step.Append? && (r.Done? || r.Granted?)
  }

  /** What a step leaves behind: a committed append extends the log by its event, a tick moves the clock, and nothing
      else changes anything. */
  ghost function Next(env: string, w: World, idx: int, step: Step): World {
    if step.Tick? && step.n > 0 then w.(clock := w.clock + step.n)
    else if Commits(step, Answer(env, w, step)) then
      World(w.clock, w.log + [NextEvent(env, w, step.req)], w.stepEvents[idx := |w.log|])
    else w
  }

  /** The world after some steps, numbered from 1. */
  ghost function Play(env: string, steps: seq<Step>): World {
    if steps == [] then World(0, [], map[])
    else Next(env, Play(env, steps[..|steps| - 1]), |steps|, steps[|steps| - 1])
  }

  /** The recorded hashes are those of the steps' events. */
  ghost predicate Grounded(w: World, hashes: map<int, string>) {
    && hashes.Keys == w.stepEvents.Keys
    && forall i :: i in w.stepEvents ==>
      0 <= w.stepEvents[i] < |w.log| && HashOf(w.log[w.stepEvents[i]]) == Some(hashes[i])
  }

  /** Comparing hashes is asking which event is the newest. */
  lemma RefAgrees(w: World, hashes: map<int, string>, topic: Topic, ref: Ref, c: string)
    requires Lawful(w.log) && Grounded(w, hashes) && (topic.Listing? || topic.Deciding?)
    ensures Resolve(ref, hashes).None? <==> Dangling(w, ref)
    ensures !Dangling(w, ref) ==> (Resolve(ref, hashes) == Some(HeadAt(topic, w.log, c)) <==> Names(w, topic, ref, c))
  {
    hide HashOf, Lawful, LegalAt, Latest;
    if ref.At? && ref.step in w.stepEvents { FreshIffLatest(topic, w.log, c, w.stepEvents[ref.step]); }
  }

  lemma NamesSays(w: World, topic: Topic, ref: Ref, c: string)
    ensures Names(w, topic, ref, c) <==> match ref
      case Literal(h) => h == HeadAt(topic, w.log, c)
      case At(n) => n in w.stepEvents && Latest(topic, w.log, c) == w.stepEvents[n]
  {
  }

  lemma {:induction false} CasAgrees(w: World, hashes: map<int, string>, heads: map<string, string>,
                                     expected: map<string, Ref>, caps: seq<string>)
    requires Lawful(w.log) && Grounded(w, hashes) && heads == Fold(w.log).heads
    ensures CompareHeads(heads, hashes, expected, caps) == CasAnswer(w, expected, caps)
  {
    hide HashOf, Lawful, LegalAt, Latest, Fold, Grounded, Names, HeadAt;
    if caps != [] {
      RefAgrees(w, hashes, Listing, ExpectedOn(expected, caps[0]), caps[0]);
      HeadsAreLatest(w.log, caps[0]);
      CasAgrees(w, hashes, heads, expected, caps[1..]);
    }
  }

  lemma TableFromLookups(t: Table, ev: Event, u: Table)
    requires forall c :: Lookup(u.heads, c) == HeadAfter(t.heads, ev, true, c)
    requires forall c :: Lookup(u.decisionHeads, c) == HeadAfter(t.decisionHeads, ev, IsDecision(ev.req.typ), c)
    requires forall c :: Lookup(u.leases, c) == LeaseAfter(t, ev, c)
    requires forall c :: Lookup(u.maxToken, c) == TokenAfter(t, ev, c)
    requires forall c :: Lookup(u.pending, c) == PendingAfter(t, ev, c)
    requires u.leaseSeq == t.leaseSeq + if ev.req.typ.LeaseAcquired? then 1 else 0
    ensures u == Commit(t, ev)
  {
    hide *;
    var w := Commit(t, ev);
    forall c
      ensures Lookup(u.heads, c) == Lookup(w.heads, c)
      ensures Lookup(u.decisionHeads, c) == Lookup(w.decisionHeads, c)
      ensures Lookup(u.leases, c) == Lookup(w.leases, c)
      ensures Lookup(u.maxToken, c) == Lookup(w.maxToken, c)
      ensures Lookup(u.pending, c) == Lookup(w.pending, c)
    {
      CommitLookups(t, ev, c);
    }
    SameLookups(u.heads, w.heads);
    SameLookups(u.decisionHeads, w.decisionHeads);
    SameLookups(u.leases, w.leases);
    SameLookups(u.maxToken, w.maxToken);
    SameLookups(u.pending, w.pending);
    CommitSeq(t, ev);
  }

  lemma CommitSeq(t: Table, ev: Event)
    ensures Commit(t, ev).leaseSeq == t.leaseSeq + if ev.req.typ.LeaseAcquired? then 1 else 0
  {
  }

  lemma SameLookups<T>(m: map<string, T>, n: map<string, T>)
    requires forall c :: Lookup(m, c) == Lookup(n, c)
    ensures m == n
  {
    forall c
      ensures c in m <==> c in n
      ensures c in m ==> m[c] == n[c]
    {
      assert Lookup(m, c) == Lookup(n, c);
    }
  }

  lemma DiscardTwice(ops: set<string>, op: string)
    ensures ops - {op} - {op} == ops - {op}
    ensures ops + {op} + {op} == ops + {op}
  {
  }

  lemma LookupPut<T>(m: map<string, T>, c: string, v: T)
    ensures forall d :: Lookup(m[c := v], d) == if d == c then Some(v) else Lookup(m, d)
  {
    forall d
      ensures Lookup(m[c := v], d) == if d == c then Some(v) else Lookup(m, d)
    {
      assert d != c ==> (d in m[c := v] <==> d in m);
    }
  }

  class Engine {
    const env: string
    var clock: int
    var heads: map<string, string>
    var decisionHeads: map<string, string>
    var leases: map<string, Lease>
    var maxToken: map<string, int>
    var leaseSeq: nat
    var pending: map<string, set<string>>
    var stepHashes: map<int, string>
    ghost var log: seq<Event>
    ghost var stepEvents: map<int, int>

    ghost function Now(): Table
      reads this
    {
      Table(heads, decisionHeads, leases, maxToken, leaseSeq, pending)
    }

    ghost function Past(): World
      reads this
    {
      World(clock, log, stepEvents)
    }

    /** The state is the replay of a lawful log, and the clock has not gone behind it. */
    ghost predicate Valid()
      reads this
    {
      && Lawful(log)
      && Now() == Fold(log)
      && (log != [] ==> log[|log| - 1].time <= clock)
      && Grounded(Past(), stepHashes)
    }

    constructor (environment: string)
      ensures Valid() && Past() == Play(environment, []) && env == environment
    {
      env := environment;
      clock := 0;
      heads, decisionHeads, leases, maxToken := map[], map[], map[], map[];
      leaseSeq, pending, stepHashes := 0, map[], map[];
      log, stepEvents := [], map[];
    }

    /** Time only moves forward. */
    method DoTick(n: int) returns (r: Result)
      requires Valid()
      modifies this`clock
      ensures Valid()
      ensures if n <= 0 then r == Raised && clock == old(clock) else r == Done && clock == old(clock) + n
    {
      if n <= 0 { return Raised; }
      clock := clock + n;
      return Done;
    }

    /** A check of heads or decision heads, answered as the log answers it. */
    method DoCheck(topic: Topic, want: map<string, Ref>) returns (r: Result)
      requires Valid() && (topic.Listing? || topic.Deciding?)
      ensures r == CheckAnswer(Past(), topic, want)
      ensures r == Raised <==> exists c :: c in want && want[c].At? && want[c].step !in stepEvents
      ensures r == Fresh <==> forall c :: c in want ==>
        match want[c]
        case Literal(h) => h == HeadAt(topic, log, c)
        case At(n) => n in stepEvents && Latest(topic, log, c) == stepEvents[n]
      ensures r == Raised || r == Fresh || r == Stale
    {
      hide Commit, HashOf, Lawful, LegalAt, Latest, Names, Grounded;
      var cur := if topic.Listing? then heads else decisionHeads;
      forall c | c in want
        ensures Resolve(want[c], stepHashes).None? <==> Dangling(Past(), want[c])
        ensures !Dangling(Past(), want[c]) ==>
          (Resolve(want[c], stepHashes) == Some(HeadOf(cur, c)) <==> Names(Past(), topic, want[c], c))
      {
        HeadsAreLatest(log, c);
        RefAgrees(Past(), stepHashes, topic, want[c], c);
      }
      if exists c | c in want :: Resolve(want[c], stepHashes).None? {
        return Raised;
      }
      var same := forall c | c in want :: Resolve(want[c], stepHashes) == Some(HeadOf(cur, c));
      r := if same then Fresh else Stale;
      forall c | c in want
        ensures Names(Past(), topic, want[c], c) <==> match want[c]
          case Literal(h) => h == HeadAt(topic, log, c)
          case At(n) => n in stepEvents && Latest(topic, log, c) == stepEvents[n]
      {
        NamesSays(Past(), topic, want[c], c);
      }
    }

    /** `_check_rules`, as its scans over the affected capabilities. */
    method CheckRules(req: Request) returns (fault: Option<Reason>)
      ensures fault == Fault(Now(), req, clock)
    {
      var caps := req.caps;
      match req.typ {
        case LeaseAcquired =>
          if Ttl(req.body).None? || Ttl(req.body).value <= 0 { return Some(TtlRequired); }
          for i := 0 to |caps|
            invariant FirstHeld(leases, clock, caps) == FirstHeld(leases, clock, caps[i..])
          {
            if Active(Lookup(leases, caps[i]), clock) { return Some(LeaseHeld(caps[i])); }
          }
          return None;
        case LeaseReleased => fault := CheckHeld(req);
        case LeaseRenewed => fault := CheckHeld(req);
        case LeaseBroken =>
          if Adopts(req.body) { return None; }
          for i := 0 to |caps|
            invariant FirstPending(pending, caps) == FirstPending(pending, caps[i..])
          {
            if PendingOn(pending, caps[i]) != {} { return Some(PendingReceipts(caps[i])); }
          }
          return None;
        case OperationReceipt =>
          return if ReceiptOf(req.body).None? then Some(BadReceipt) else None;
        case _ =>
          if !IsMutation(req.typ) { return None; }
          fault := CheckMutation(req);
      }
    }

    method CheckHeld(req: Request) returns (fault: Option<Reason>)
      ensures fault == FirstUnheld(leases, req.token, clock, req.caps)
    {
      var caps := req.caps;
      for i := 0 to |caps|
        invariant FirstUnheld(leases, req.token, clock, caps) == FirstUnheld(leases, req.token, clock, caps[i..])
      {
        if !Holds(leases, caps[i], req.token, clock) { return Some(NoActiveLease(caps[i])); }
      }
      return None;
    }

    method CheckMutation(req: Request) returns (fault: Option<Reason>)
      ensures fault == if req.token.None? then Some(TokenRequired)
        else MutationFault(leases, req.token, clock, req.caps, None)
    {
      if req.token.None? { return Some(TokenRequired); }
      var caps := req.caps;
      var covering: Option<nat> := None;
      for i := 0 to |caps|
        invariant MutationFault(leases, req.token, clock, caps, None)
          == MutationFault(leases, req.token, clock, caps[i..], covering)
      {
        if !Holds(leases, caps[i], req.token, clock) { return Some(StaleToken(caps[i])); }
        var q := leases[caps[i]].seq_;
        if covering.None? {
          covering := Some(q);
        } else if q != covering.value {
          return Some(DifferentLeases(caps[i]));
        }
      }
      return None;
    }

    /** The commit closures of `_check_rules`: one pass over the affected capabilities, updating maps in place. */
    method CommitRules(ev: Event)
      modifies this`leases, this`maxToken, this`leaseSeq, this`pending
      ensures forall c :: Lookup(leases, c) == LeaseAfter(old(Now()), ev, c)
      ensures forall c :: Lookup(maxToken, c) == TokenAfter(old(Now()), ev, c)
      ensures forall c :: Lookup(pending, c) == PendingAfter(old(Now()), ev, c)
      ensures leaseSeq == old(leaseSeq) + if ev.req.typ.LeaseAcquired? then 1 else 0
    {
      ghost var t := Now();
      var caps := ev.req.caps;
      var body := ev.req.body;
      var token := NextToken(maxToken, caps);
      if ev.req.typ.LeaseAcquired? { leaseSeq := leaseSeq + 1; }
      for i := 0 to |caps|
        invariant leaseSeq == t.leaseSeq + if ev.req.typ.LeaseAcquired? then 1 else 0
        invariant forall c :: Lookup(leases, c) == if c in caps[..i] then LeaseAfter(t, ev, c) else Lookup(t.leases, c)
        invariant forall c :: Lookup(maxToken, c) == if c in caps[..i] then TokenAfter(t, ev, c)
          else Lookup(t.maxToken, c)
        invariant forall c :: Lookup(pending, c) == if c in caps[..i] then PendingAfter(t, ev, c)
          else Lookup(t.pending, c)
      {
        var c := caps[i];
        assert forall d :: d in caps[..i + 1] <==> d in caps[..i] || d == c;
        CommitOne(ev, c, token, t);
      }
      assert caps[..|caps|] == caps;
    }

    /** The share of a receipt or an adoption in one capability's pending set. */
    method CommitPending(ev: Event, c: string, ghost t: Table)
      requires c in ev.req.caps
      requires Lookup(pending, c) == Lookup(t.pending, c) || Lookup(pending, c) == PendingAfter(t, ev, c)
      modifies this`pending
      ensures forall d :: Lookup(pending, d) == if d == c then PendingAfter(t, ev, c) else Lookup(old(pending), d)
    {
      if ev.req.typ.LeaseBroken? && Adopts(ev.req.body) {
        pending := pending[c := {}];
      } else if ev.req.typ.OperationReceipt? {
        match ReceiptOf(ev.req.body) {
          case Some(Opens(op)) =>
            DiscardTwice(PendingOn(t.pending, c), op);
            pending := pending[c := PendingOn(pending, c) + {op}];
          case Some(Concludes(op)) =>
            if c in pending {
              DiscardTwice(PendingOn(t.pending, c), op);
              pending := pending[c := pending[c] - {op}];
            }
          case None =>
        }
      }
    }

    /** One capability's share of a commit; repeating it for a capability listed twice changes nothing more. */
    method CommitOne(ev: Event, c: string, token: int, ghost t: Table)
      requires c in ev.req.caps && token == NextToken(t.maxToken, ev.req.caps)
      requires Lookup(leases, c) == Lookup(t.leases, c) || Lookup(leases, c) == LeaseAfter(t, ev, c)
      requires Lookup(maxToken, c) == Lookup(t.maxToken, c) || Lookup(maxToken, c) == TokenAfter(t, ev, c)
      requires Lookup(pending, c) == Lookup(t.pending, c) || Lookup(pending, c) == PendingAfter(t, ev, c)
      requires leaseSeq == t.leaseSeq + if ev.req.typ.LeaseAcquired? then 1 else 0
      modifies this`leases, this`maxToken, this`pending
      ensures forall d :: Lookup(leases, d) == if d == c then LeaseAfter(t, ev, c) else Lookup(old(leases), d)
      ensures forall d :: Lookup(maxToken, d) == if d == c then TokenAfter(t, ev, c) else Lookup(old(maxToken), d)
      ensures forall d :: Lookup(pending, d) == if d == c then PendingAfter(t, ev, c) else Lookup(old(pending), d)
    {
      hide NextToken, HashOf, Commit, PendingAfter;
      CommitPending(ev, c, t);
      var body := ev.req.body;
      match ev.req.typ {
        case LeaseAcquired =>
          var ttl := Ttl(body).GetOr(0);
          leases := leases[c := Lease(token, ev.time + ttl, ttl, false, leaseSeq)];
          maxToken := maxToken[c := token];
        case LeaseReleased =>
          if c in leases { leases := leases[c := leases[c].(ended := true)]; }
        case LeaseRenewed =>
          if c in leases {
            var ttl := Ttl(body).GetOr(leases[c].ttl);
            leases := leases[c := leases[c].(expiry := ev.time + ttl, ttl := ttl)];
          }
        case LeaseBroken =>
          if c in leases { leases := leases[c := leases[c].(ended := true)]; }
        case _ =>
      }
    }

    method MoveOne(c: string, h: string, moves: bool)
      modifies this`heads, this`decisionHeads
      ensures forall d :: Lookup(heads, d) == if d == c then Some(h) else Lookup(old(heads), d)
      ensures forall d :: Lookup(decisionHeads, d) == if d == c && moves then Some(h) else Lookup(old(decisionHeads), d)
    {
      LookupPut(heads, c, h);
      LookupPut(decisionHeads, c, h);
      heads := heads[c := h];
      if moves { decisionHeads := decisionHeads[c := h]; }
    }

    method MoveHeads(ev: Event, h: string)
      requires HashOf(ev) == Some(h)
      modifies this`heads, this`decisionHeads
      ensures forall c :: Lookup(heads, c) == HeadAfter(old(heads), ev, true, c)
      ensures forall c :: Lookup(decisionHeads, c) == HeadAfter(old(decisionHeads), ev, IsDecision(ev.req.typ), c)
    {
      hide HashOf;
      var caps := ev.req.caps;
      var moves := IsDecision(ev.req.typ);
      ghost var hs, ds := heads, decisionHeads;
      for i := 0 to |caps|
        invariant forall c :: Lookup(heads, c) == if c in caps[..i] then Some(h) else Lookup(hs, c)
        invariant forall c :: Lookup(decisionHeads, c) == if c in caps[..i] && moves then Some(h) else Lookup(ds, c)
      {
        assert forall d :: d in caps[..i + 1] <==> d in caps[..i] || d == caps[i];
        MoveOne(caps[i], h, moves);
      }
      assert caps[..|caps|] == caps;
    }

    /** The event an append would commit now. */
    function Stamped(req: Request): Event
      reads this
    {
      Event(req, env, clock, map c | c in req.caps :: HeadOf(heads, c))
    }

    /** One append: validated, compared, checked and committed; a refused append changes nothing. */
    method DoAppend(step: int, req: Request, expected: Option<map<string, Ref>>) returns (r: Result)
      requires Valid() && step !in stepEvents
      modifies this
      ensures Valid() && r == AppendAnswer(env, old(Past()), req, expected)
      ensures Past() == Next(env, old(Past()), step, Append(req, expected))
    {
      hide Commit, HashOf, Fault, Fold, Lawful, LegalAt, Grounded, CasAnswer, CompareHeads, NextToken;
      if !WellFormed(req) { return Raised; }
      var ev := Stamped(req);
      assert ev == NextEvent(env, Past(), req);
      if expected.Some? {
        CasAgrees(Past(), stepHashes, heads, expected.value, req.caps);
        match CompareHeads(heads, stepHashes, expected.value, req.caps) {
          case BadRef => return Raised;
          case Mismatch => return Conflict;
          case Match =>
        }
      }
      var fault := CheckRules(req);
      if fault.Some? { return Rejected(fault.value); }
      var h := HashOf(ev);
      if h.None? { return Raised; }
      r := if req.typ.LeaseAcquired? then Granted(NextToken(maxToken, req.caps)) else Done;
      DoCommit(step, ev, h.value);
    }

    method DoCommit(step: int, ev: Event, h: string)
      requires Valid() && step !in stepEvents
      requires Legal(Now(), ev) && ev.time == clock && HashOf(ev) == Some(h)
      modifies this
      ensures Valid() && clock == old(clock)
      ensures log == old(log) + [ev] && stepEvents == old(stepEvents)[step := |old(log)|]
    {
      hide Commit, HashOf, Legal, LegalAt, Lawful, Fold, HeadAfter, LeaseAfter, TokenAfter, PendingAfter, Lookup;
      ghost var t := Now();
      CommitRules(ev);
      MoveHeads(ev, h);
      TableFromLookups(t, ev, Now());
      LogGrows(log, ev);
      stepHashes := stepHashes[step := h];
      stepEvents := stepEvents[step := |log|];
      log := log + [ev];
    }

    /** One step of a scenario: the answer, and exactly what it leaves behind. */
    method DoStep(idx: int, step: Step) returns (r: Result)
      requires Valid() && idx !in stepEvents
      modifies this
      ensures Valid() && r == Answer(env, old(Past()), step) && Past() == Next(env, old(Past()), idx, step)
    {
      hide Commit, HashOf, NextToken, Fault, Lawful, LegalAt, WellFormed, CompareHeads, CasAnswer, Fold,
        AppendAnswer, CheckAnswer;
      match step {
        case Tick(n) => r := DoTick(n);
        case CheckHeads(want) => r := DoCheck(Listing, want);
        case CheckDecisionHeads(want) => r := DoCheck(Deciding, want);
        case Append(req, expected) => r := DoAppend(idx, req, expected);
      }
    }
  }

  lemma {:induction false} PlayedSteps(env: string, steps: seq<Step>)
    ensures forall i :: i in Play(env, steps).stepEvents ==> 1 <= i <= |steps|
  {
    hide Answer;
    if steps != [] { PlayedSteps(env, steps[..|steps| - 1]); }
  }

  /** `run_scenario`: the steps in order, numbered from 1, until one raises. */
  method RunScenario(environment: string, steps: seq<Step>) returns (e: Engine, results: seq<Result>, raised: bool)
    ensures e.Valid() && fresh(e) && |results| <= |steps|
    ensures e.Past() == Play(environment, steps[..|results|])
    ensures forall i :: 0 <= i < |results| ==>
      results[i] == Answer(environment, Play(environment, steps[..i]), steps[i]) && results[i] != Raised
    ensures raised <==> steps == [] || |results| < |steps|
    ensures |results| < |steps| ==>
      Answer(environment, Play(environment, steps[..|results|]), steps[|results|]) == Raised
  {
    hide Answer, Next, Play, HashOf, Lawful, LegalAt, Fold, Grounded, Commit, Names;
    assert steps[..0] == [];
    e := new Engine(environment);
    results, raised := [], false;
    if steps == [] { return e, results, true; }
    for i := 0 to |steps|
      invariant fresh(e) && e.Valid() && e.env == environment && |results| == i && !raised
      invariant e.Past() == Play(environment, steps[..i])
      invariant forall k :: 0 <= k < i ==>
        results[k] == Answer(environment, Play(environment, steps[..k]), steps[k]) && results[k] != Raised
    {
      PlayedSteps(environment, steps[..i]);
      PlayUnfolds(environment, steps, i);
      ghost var was := e.Past();
      var r := e.DoStep(i + 1, steps[i]);
      if r.Raised? {
        RaisedChangesNothing(environment, was, i + 1, steps[i]);
        return e, results, true;
      }
      results := results + [r];
    }
    assert steps[..|steps|] == steps;
  }

  lemma PlayUnfolds(env: string, steps: seq<Step>, i: nat)
    requires i < |steps|
    ensures Play(env, steps[..i + 1]) == Next(env, Play(env, steps[..i]), i + 1, steps[i])
  {
    hide Next;
    assert steps[..i + 1][..i] == steps[..i];
  }

  lemma RaisedChangesNothing(env: string, w: World, idx: int, step: Step)
    requires Answer(env, w, step) == Raised
    ensures Next(env, w, idx, step) == w
  {
    hide AppendAnswer, CheckAnswer;
  }
}
