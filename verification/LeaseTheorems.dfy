/**
 Leases and fencing tokens as functions of the log: which acquire a lease comes from, that tokens only grow,
 that a dead lease stays dead, and that a committed mutation was covered by exactly one lease, active all along.
 */
module LeaseTheorems {
  import opened Prelude
  import opened Ledger
  import opened LedgerTheorems

  ghost function Acquires(log: seq<Event>): nat {
    if log == [] then 0
    else Acquires(log[..|log| - 1]) + if log[|log| - 1].Typ().LeaseAcquired? then 1 else 0
  }

  /** The token the acquire at index `k` was given. */
  ghost function Issued(log: seq<Event>, k: nat): int
    requires k < |log|
  {
    NextToken(Fold(log[..k]).maxToken, log[k].req.caps)
  }

  datatype Term = Term(expiry: int, ttl: int)

  /** When the newest lease on a capability runs out, from the newest acquire and the renewals since. */
  ghost function TermOf(log: seq<Event>, c: string): Term {
    if log == [] then Term(0, 0)
    else
      var ev, past := log[|log| - 1], TermOf(log[..|log| - 1], c);
      if !ev.Lists(c) then past
      else match ev.Typ()
        case LeaseAcquired => var ttl := Ttl(ev.req.body).GetOr(0); Term(ev.time + ttl, ttl)
        case LeaseRenewed => var ttl := Ttl(ev.req.body).GetOr(past.ttl); Term(ev.time + ttl, ttl)
        case _ => past
  }

  /** The lease a capability has after a log, read off the log: its newest acquire, renewals and endings. */
  ghost function LeaseOf(log: seq<Event>, c: string): Option<Lease> {
    var k := Latest(Acquiring, log, c);
    if k < 0 then None
    else Some(Lease(Issued(log, k), TermOf(log, c).expiry, TermOf(log, c).ttl,
                    Latest(Ending, log, c) > k, Acquires(log[..k + 1])))
  }

  ghost function TokenOf(log: seq<Event>, c: string): Option<int> {
    var k := Latest(Acquiring, log, c);
    if k < 0 then None else Some(Issued(log, k))
  }

  lemma {:induction false} SeqCountsAcquires(log: seq<Event>)
    ensures Fold(log).leaseSeq == Acquires(log)
  {
    if log != [] { SeqCountsAcquires(log[..|log| - 1]); }
  }

  /** An event that is not an acquire on `c` leaves the acquire behind its lease as it was. */
  lemma AcquireKept(log: seq<Event>, n: nat, c: string)
    requires |log| == n + 1 && !On(Acquiring, log[n], c)
    ensures TokenOf(log, c) == TokenOf(log[..n], c)
    ensures LeaseOf(log, c).Some? <==> LeaseOf(log[..n], c).Some?
    ensures LeaseOf(log, c).Some? ==>
      var l, p := LeaseOf(log, c).value, LeaseOf(log[..n], c).value;
      l.token == p.token && l.seq_ == p.seq_ && (l.ended <==> p.ended || On(Ending, log[n], c))
  {
    hide Commit;
    var past := log[..n];
    var k := Latest(Acquiring, past, c);
    assert Latest(Acquiring, log, c) == k;
    assert Latest(Ending, log, c) == if On(Ending, log[n], c) then n else Latest(Ending, past, c);
    if k >= 0 {
      assert past[..k] == log[..k] && past[..k + 1] == log[..k + 1] && past[k] == log[k];
    }
  }

  lemma AcquireMade(log: seq<Event>, n: nat, c: string)
    requires |log| == n + 1 && On(Acquiring, log[n], c)
    ensures TokenOf(log, c) == TokenAfter(Fold(log[..n]), log[n], c)
    ensures LeaseOf(log, c) == LeaseAfter(Fold(log[..n]), log[n], c)
  {
    hide Commit;
    assert Latest(Acquiring, log, c) == n;
    assert Latest(Ending, log, c) < n;
    assert log[..n + 1] == log;
    SeqCountsAcquires(log[..n]);
  }

  lemma LeaseKept(t: Table, log: seq<Event>, n: nat, c: string)
    requires |log| == n + 1 && !On(Acquiring, log[n], c)
    requires Lookup(t.leases, c) == LeaseOf(log[..n], c)
    ensures LeaseOf(log, c) == LeaseAfter(t, log[n], c)
  {
    hide Commit;
    AcquireKept(log, n, c);
    var ev, past := log[n], TermOf(log[..n], c);
    assert !ev.Lists(c) || !ev.Typ().LeaseRenewed? ==> TermOf(log, c) == past;
  }

  /** The lease table and the token counters are exactly what the log says of each capability. */
  lemma {:induction false} LeaseFromLog(log: seq<Event>, c: string)
    ensures Lookup(Fold(log).leases, c) == LeaseOf(log, c)
    ensures Lookup(Fold(log).maxToken, c) == TokenOf(log, c)
    decreases |log|
  {
    hide Commit;
    if log != [] {
      var n := |log| - 1;
      LeaseFromLog(log[..n], c);
      CommitLookups(Fold(log[..n]), log[n], c);
      if On(Acquiring, log[n], c) {
        AcquireMade(log, n, c);
      } else {
        AcquireKept(log, n, c);
        LeaseKept(Fold(log[..n]), log, n, c);
      }
    }
  }

  // ---- one covering lease --------------------------------------------------

  /**
   The acquire at `k` covers a set of capabilities for a token: it is the latest acquire on every member,
   issued that token, no member was acquired, released or broken since, and none has run out.
   */
  ghost predicate Covers(log: seq<Event>, k: int, caps: seq<string>, tok: Option<int>, clock: int) {
    && 0 <= k < |log| && log[k].Typ().LeaseAcquired? && tok == Some(Issued(log, k))
    && forall c :: c in caps ==> CoversOne(log, k, c, clock)
  }

  ghost predicate CoversOne(log: seq<Event>, k: int, c: string, clock: int)
    requires 0 <= k < |log|
  {
    && On(Acquiring, log[k], c)
    && (forall j :: k < j < |log| ==> !On(Acquiring, log[j], c) && !On(Ending, log[j], c))
    && clock < TermOf(log, c).expiry
  }

  lemma {:induction false} MutationScan(leases: map<string, Lease>, tok: Option<int>, clock: int, caps: seq<string>,
                                        q: nat)
    ensures MutationFault(leases, tok, clock, caps, Some(q)).None?
      <==> forall c :: c in caps ==> Holds(leases, c, tok, clock) && leases[c].seq_ == q
  {
    if caps != [] {
      MutationScan(leases, tok, clock, caps[1..], q);
      assert forall c :: c in caps <==> c == caps[0] || c in caps[1..];
    }
  }

  lemma {:induction false} AcquiresGrow(log: seq<Event>, m: nat, n: nat)
    requires m <= n <= |log|
    ensures Acquires(log[..m]) <= Acquires(log[..n])
    ensures m < n && log[n - 1].Typ().LeaseAcquired? ==> Acquires(log[..m]) < Acquires(log[..n])
    decreases n
  {
    if m < n {
      assert log[..n][..n - 1] == log[..n - 1] && log[..n][n - 1] == log[n - 1];
      AcquiresGrow(log, m, n - 1);
    }
  }

  lemma SeqNamesAcquire(log: seq<Event>, i: nat, j: nat)
    requires i < |log| && j < |log| && log[i].Typ().LeaseAcquired? && log[j].Typ().LeaseAcquired?
    ensures Acquires(log[..i + 1]) == Acquires(log[..j + 1]) <==> i == j
  {
    if i < j { AcquiresGrow(log, i + 1, j + 1); }
    if j < i { AcquiresGrow(log, j + 1, i + 1); }
  }

  /** Holding a capability with a token, under the lease of the acquire at `k`, is being covered by it. */
  lemma HoldsIsCovered(log: seq<Event>, k: nat, c: string, tok: Option<int>, clock: int)
    requires k < |log| && log[k].Typ().LeaseAcquired?
    ensures Holds(Fold(log).leases, c, tok, clock) && Fold(log).leases[c].seq_ == Acquires(log[..k + 1])
      <==> CoversOne(log, k, c, clock) && tok == Some(Issued(log, k))
  {
    hide Commit;
    LeaseFromLog(log, c);
    var m, e := Latest(Acquiring, log, c), Latest(Ending, log, c);
    if m >= 0 { SeqNamesAcquire(log, k, m); }
    if On(Acquiring, log[k], c) && forall j :: k < j < |log| ==> !On(Acquiring, log[j], c) {
      LatestIs(Acquiring, log, c, k);
    }
    assert e >= 0 ==> On(Ending, log[e], c);
  }

  /** A mutation is accepted exactly when one single committed lease covers every capability it touches. */
  lemma MutationNeedsOneLease(log: seq<Event>, caps: seq<string>, tok: Option<int>, clock: int)
    requires caps != []
    ensures MutationFault(Fold(log).leases, tok, clock, caps, None).None?
      <==> exists k :: Covers(log, k, caps, tok, clock)
  {
    hide Commit;
    var leases := Fold(log).leases;
    if k :| Covers(log, k, caps, tok, clock) {
      forall c | c in caps
        ensures Holds(leases, c, tok, clock) && leases[c].seq_ == Acquires(log[..k + 1])
      {
        HoldsIsCovered(log, k, c, tok, clock);
      }
      MutationScan(leases, tok, clock, caps[1..], Acquires(log[..k + 1]));
    }
    if MutationFault(leases, tok, clock, caps, None).None? {
      var k := Latest(Acquiring, log, caps[0]);
      LeaseFromLog(log, caps[0]);
      MutationScan(leases, tok, clock, caps[1..], leases[caps[0]].seq_);
      forall c | c in caps
        ensures CoversOne(log, k, c, clock) && tok == Some(Issued(log, k))
      {
        assert c == caps[0] || c in caps[1..];
        HoldsIsCovered(log, k, c, tok, clock);
      }
      assert Covers(log, k, caps, tok, clock);
    }
  }

  /** The acquire at `k` covers the event at `i` at that event, and covered its capabilities for its token at every
      event since the acquire. */
  ghost predicate CoversSince(log: seq<Event>, k: int, i: nat)
    requires i < |log|
  {
    0 <= k < i && forall m :: k < m <= i ==> Covers(log[..m], k, log[i].req.caps, log[i].req.token, log[m].time)
  }

  // ---- tokens --------------------------------------------------------------

  /** Tokens issued on a capability strictly increase. */
  lemma {:induction false} TokensIncrease(log: seq<Event>, i: nat, j: nat, c: string)
    requires i < j < |log| && On(Acquiring, log[i], c) && On(Acquiring, log[j], c)
    ensures Issued(log, i) < Issued(log, j)
    decreases j
  {
    hide Commit;
    var past := log[..j];
    var k := Latest(Acquiring, past, c);
    assert past[i] == log[i] && i <= k && past[k] == log[k];
    LeaseFromLog(past, c);
    assert past[..k] == log[..k];
    if i < k { TokensIncrease(log, i, k, c); }
  }

  /** The token of a capability's lease is always the largest it was ever issued. */
  lemma LeaseTokenIsMax(log: seq<Event>, c: string)
    requires c in Fold(log).leases
    ensures c in Fold(log).maxToken && Fold(log).leases[c].token == Fold(log).maxToken[c]
    ensures forall i :: 0 <= i < |log| && On(Acquiring, log[i], c) ==> Issued(log, i) <= Fold(log).leases[c].token
  {
    hide *;
    LeaseIsLatestAcquire(log, c);
    var k := Latest(Acquiring, log, c);
    forall i | 0 <= i < |log| && On(Acquiring, log[i], c)
      ensures Issued(log, i) <= Issued(log, k)
    {
      if i < k { TokensIncrease(log, i, k, c); }
    }
  }

  lemma LeaseIsLatestAcquire(log: seq<Event>, c: string)
    requires c in Fold(log).leases
    ensures var k := Latest(Acquiring, log, c);
      && 0 <= k < |log| && On(Acquiring, log[k], c) && Fold(log).leases[c].token == Issued(log, k)
      && c in Fold(log).maxToken && Fold(log).maxToken[c] == Issued(log, k)
      && forall i :: k < i < |log| ==> !On(Acquiring, log[i], c)
  {
    hide Commit, Fold, Issued, On;
    LeaseFromLog(log, c);
  }

  // ---- a dead lease stays dead ---------------------------------------------

  lemma InactiveStep(t: Table, ev: Event, c: string)
    requires Legal(t, ev) && !On(Acquiring, ev, c)
    requires !Active(Lookup(t.leases, c), ev.time)
    ensures !Active(LeaseAfter(t, ev, c), ev.time)
  {
    if ev.Lists(c) && ev.Typ().LeaseRenewed? {
      UnheldFound(t.leases, ev.req.token, ev.time, ev.req.caps, c);
    }
  }

  /** A lease that keeps its sequence number across an event was not acquired by it. */
  lemma KeptSeq(t: Table, ev: Event, c: string, seq_: int)
    requires seq_ <= t.leaseSeq && LeaseAfter(t, ev, c).Some? && LeaseAfter(t, ev, c).value.seq_ == seq_
    ensures !On(Acquiring, ev, c) && c in t.leases && t.leases[c].seq_ == seq_
  {
  }

  /** Once inactive, a lease is inactive at every later point of the log and the clock, renewals included. */
  lemma {:induction false} InactiveStays(log: seq<Event>, m: nat, n: nat, c: string, clock: int, later: int)
    requires Lawful(log) && m <= n <= |log| && clock <= later
    requires forall i :: m <= i < n ==> clock <= log[i].time <= later
    requires c in Fold(log[..m]).leases && c in Fold(log[..n]).leases
    requires Fold(log[..m]).leases[c].seq_ == Fold(log[..n]).leases[c].seq_
    requires !Active(Lookup(Fold(log[..m]).leases, c), clock)
    ensures !Active(Lookup(Fold(log[..n]).leases, c), later)
    decreases n
  {
    hide Commit, LeaseAfter, Legal, On, Active;
    if m == n {
      StaysExpired(Lookup(Fold(log[..m]).leases, c), clock, later);
    } else {
      var past, ev := log[..n - 1], log[n - 1];
      assert log[..n][..n - 1] == past && log[..n][n - 1] == ev;
      LawfulAt(log, n - 1);
      CommitLookups(Fold(past), ev, c);
      SeqBounds(log, m, n - 1, c);
      KeptSeq(Fold(past), ev, c, Fold(log[..m]).leases[c].seq_);
      forall i | m <= i < n - 1
        ensures log[i].time <= ev.time
      {
        TimesIncrease(log, i, n - 1);
      }
      InactiveStays(log, m, n - 1, c, clock, ev.time);
      InactiveStep(Fold(past), ev, c);
      StaysExpired(LeaseAfter(Fold(past), ev, c), ev.time, later);
    }
  }

  lemma StaysExpired(l: Option<Lease>, clock: int, later: int)
    requires clock <= later && !Active(l, clock)
    ensures !Active(l, later)
  {
  }

  lemma SeqBounds(log: seq<Event>, m: nat, n: nat, c: string)
    requires m <= n <= |log| && c in Fold(log[..m]).leases
    ensures Fold(log[..m]).leases[c].seq_ <= Fold(log[..n]).leaseSeq
  {
    hide Commit;
    LeaseFromLog(log[..m], c);
    SeqCountsAcquires(log[..n]);
    var k := Latest(Acquiring, log[..m], c);
    assert log[..m][..k + 1] == log[..k + 1];
    AcquiresGrow(log, k + 1, n);
  }

  lemma {:induction false} UnheldFound(leases: map<string, Lease>, tok: Option<int>, clock: int, caps: seq<string>,
                                       c: string)
    requires c in caps && FirstUnheld(leases, tok, clock, caps).None?
    ensures Holds(leases, c, tok, clock)
  {
    if c != caps[0] { UnheldFound(leases, tok, clock, caps[1..], c); }
  }

  // ---- a mutation is covered throughout ------------------------------------

  /** A lease that covers at an event was active at every event since its acquire: no renewal revived it. */
  lemma CoveredAtEach(log: seq<Event>, k: int, i: nat, m: nat, c: string)
    requires Lawful(log) && i < |log| && 0 <= k < m <= i && CoversOne(log[..i], k, c, log[i].time)
    ensures CoversOne(log[..m], k, c, log[m].time)
  {
    hide Commit, Legal, Fold, TermOf;
    assert forall j :: 0 <= j < m ==> log[..m][j] == log[j] && log[..i][j] == log[j];
    LeaseOfCovering(log, k, i, c);
    LeaseOfCovering(log, k, m, c);
    if log[m].time >= TermOf(log[..m], c).expiry {
      assert !Active(Lookup(Fold(log[..m]).leases, c), log[m].time);
      forall j | m <= j < i
        ensures log[m].time <= log[j].time <= log[i].time
      {
        TimesIncrease(log, m, j);
        TimesIncrease(log, j, i);
      }
      TimesIncrease(log, m, i);
      InactiveStays(log, m, i, c, log[m].time, log[i].time);
      assert false;
    }
  }

  /** The lease of an acquire that no other acquire or ending followed. */
  lemma LeaseOfCovering(log: seq<Event>, k: int, n: nat, c: string)
    requires 0 <= k < n <= |log| && On(Acquiring, log[k], c)
    requires forall j :: k < j < n ==> !On(Acquiring, log[j], c) && !On(Ending, log[j], c)
    ensures var l := Lookup(Fold(log[..n]).leases, c);
      l.Some? && !l.value.ended && l.value.expiry == TermOf(log[..n], c).expiry
        && l.value.seq_ == Acquires(log[..k + 1])
  {
    hide Commit, Fold, TermOf, Issued;
    var past := log[..n];
    LeaseFromLog(past, c);
    LatestIs(Acquiring, past, c, k);
    var e := Latest(Ending, past, c);
    assert e >= 0 ==> On(Ending, past[e], c) && past[e] == log[e];
    assert past[..k + 1] == log[..k + 1];
  }

  /** So every committed mutation was covered under its own token by one lease of the log before it, at its own time
      and at every event since that lease was acquired. */
  lemma MutationIsCovered(log: seq<Event>, i: nat)
    requires Lawful(log) && i < |log| && IsMutation(log[i].Typ())
    ensures exists k :: CoversSince(log, k, i)
  {
    hide Commit, HashOf, CoversOne, Lawful;
    LawfulAt(log, i);
    var caps, tok := log[i].req.caps, log[i].req.token;
    MutationNeedsOneLease(log[..i], caps, tok, log[i].time);
    var k :| Covers(log[..i], k, caps, tok, log[i].time);
    forall m | k < m <= i
      ensures Covers(log[..m], k, caps, tok, log[m].time)
    {
      assert log[..m][..k] == log[..i][..k];
      forall c | c in caps
        ensures CoversOne(log[..m], k, c, log[m].time)
      {
        CoveredAtEach(log, k, i, m, c);
      }
    }
    assert CoversSince(log, k, i);
  }
}
