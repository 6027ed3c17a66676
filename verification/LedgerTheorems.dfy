/**
 What every lawful log promises of its hash chain: heads are the newest events, no head recurs, no two events share a
 hash, and the walk from a head visits exactly the capability's history. Statements are about the committed events,
 not about the engine's maps.
 */
module LedgerTheorems {
  import opened Prelude
  import opened Canonical
  import opened Ledger

  // ---- reading a log -------------------------------------------------------

  /** The kinds of event a capability's state depends on. */
  datatype Topic = Listing | Deciding | Acquiring | Ending | Rebinding

  predicate On(topic: Topic, ev: Event, c: string) {
    ev.Lists(c) && match topic
      case Listing => true
      case Deciding => IsDecision(ev.Typ())
      case Acquiring => ev.Typ().LeaseAcquired?
      case Ending => ev.Typ().LeaseReleased? || ev.Typ().LeaseBroken?
      case Rebinding => ev.Typ().BindingUpdated?
  }

  /** The index of the newest event of a topic on a capability, or -1. */
  ghost function Latest(topic: Topic, log: seq<Event>, c: string): (k: int)
    ensures -1 <= k < |log|
    ensures k >= 0 ==> On(topic, log[k], c)
    ensures forall j :: k < j < |log| ==> !On(topic, log[j], c)
  {
    if log == [] then -1
    else if On(topic, log[|log| - 1], c) then |log| - 1
    else Latest(topic, log[..|log| - 1], c)
  }

  lemma LatestIs(topic: Topic, log: seq<Event>, c: string, k: int)
    requires -1 <= k < |log|
    requires k >= 0 ==> On(topic, log[k], c)
    requires forall j :: k < j < |log| ==> !On(topic, log[j], c)
    ensures Latest(topic, log, c) == k
  {
    var l := Latest(topic, log, c);
    assert k >= 0 ==> On(topic, log[k], c);
    assert l >= 0 ==> On(topic, log[l], c);
  }

  lemma LatestOfPrefix(topic: Topic, log: seq<Event>, c: string, n: nat)
    requires n <= |log|
    ensures Latest(topic, log[..n], c) <= Latest(topic, log, c)
    ensures Latest(topic, log[..n], c) == Latest(topic, log, c) <==> Latest(topic, log, c) < n
  {
    var l := Latest(topic, log, c);
    var m := Latest(topic, log[..n], c);
    if l < n {
      forall j | l < j < n
        ensures !On(topic, log[..n][j], c)
      {
        assert log[..n][j] == log[j];
      }
      LatestIs(topic, log[..n], c, l);
    }
    assert m >= 0 ==> log[..n][m] == log[m];
  }

  lemma LawfulPrefix(log: seq<Event>, n: nat)
    requires Lawful(log) && n <= |log|
    ensures Lawful(log[..n])
  {
    forall i | 0 <= i < n
      ensures LegalAt(log[..n], i)
    {
      assert LegalAt(log, i);
      assert log[..n][..i] == log[..i];
    }
  }

  lemma LawfulAt(log: seq<Event>, i: nat)
    requires Lawful(log) && i < |log|
    ensures Lawful(log[..i]) && Legal(Fold(log[..i]), log[i])
  {
    LawfulPrefix(log, i);
    assert LegalAt(log, i);
  }

  lemma {:induction false} TimesIncrease(log: seq<Event>, i: nat, j: nat)
    requires Lawful(log) && i <= j < |log|
    ensures log[i].time <= log[j].time
    decreases j
  {
    if i < j {
      assert LegalAt(log, j);
      TimesIncrease(log, i, j - 1);
    }
  }

  lemma LogGrows(log: seq<Event>, ev: Event)
    requires Lawful(log) && Legal(Fold(log), ev)
    requires log != [] ==> log[|log| - 1].time <= ev.time
    ensures Lawful(log + [ev]) && Fold(log + [ev]) == Commit(Fold(log), ev)
  {
    hide Commit, Legal;
    var grown := log + [ev];
    assert grown[..|log|] == log;
    forall i | 0 <= i < |grown|
      ensures LegalAt(grown, i)
    {
      if i < |log| {
        assert LegalAt(log, i);
        assert grown[..i] == log[..i];
      }
    }
  }

  // ---- commit, read back one capability at a time --------------------------

  lemma CommitLookups(t: Table, ev: Event, c: string)
    ensures Lookup(Commit(t, ev).heads, c) == HeadAfter(t.heads, ev, true, c)
    ensures Lookup(Commit(t, ev).decisionHeads, c) == HeadAfter(t.decisionHeads, ev, IsDecision(ev.req.typ), c)
    ensures Lookup(Commit(t, ev).leases, c) == LeaseAfter(t, ev, c)
    ensures Lookup(Commit(t, ev).maxToken, c) == TokenAfter(t, ev, c)
    ensures Lookup(Commit(t, ev).pending, c) == PendingAfter(t, ev, c)
  {
  }

  // ---- hash identity -------------------------------------------------------

  /** Events with one hash list the same capabilities and cite the same previous heads. */
  lemma HashFixesHistory(d: Event, e: Event)
    requires HashOf(d).Some? && HashOf(d) == HashOf(e)
    ensures d.req.caps == e.req.caps && d.prev == e.prev
  {
    EventIdentity(EventDoc(d), EventDoc(e));
    UnsignedTree(d);
    UnsignedTree(e);
    TreeFixesHistory(d, e);
  }

  lemma UnsignedTree(ev: Event)
    requires HashOf(ev).Some?
    ensures Accepts(Dict(EventTree(ev))) && Accepts(Dict(EventDoc(ev) - {"sig"}))
    ensures "event" in Norm(Dict(EventDoc(ev) - {"sig"})).entries
    ensures Norm(Dict(EventDoc(ev) - {"sig"})).entries["event"] == Norm(Dict(EventTree(ev)))
  {
    hide EventTree;
    var doc := EventDoc(ev);
    assert doc - {"sig"} == doc;
    assert "event" in doc && Accepts(doc["event"]);
  }

  lemma TreeFixesHistory(d: Event, e: Event)
    requires Accepts(Dict(EventTree(d))) && Accepts(Dict(EventTree(e)))
    requires Norm(Dict(EventTree(d))) == Norm(Dict(EventTree(e)))
    ensures d.req.caps == e.req.caps && d.prev == e.prev
  {
    hide EventTree, HeadsTree, CapsTree, Norm;
    PrevOfTree(d);
    PrevOfTree(e);
    CapsOfTree(d);
    CapsOfTree(e);
    HeadsTreeInjective(d.prev, e.prev);
    CapsTreeInjective(d.req.caps, e.req.caps);
  }

  lemma PrevOfTree(ev: Event)
    requires Accepts(Dict(EventTree(ev)))
    ensures "prev" in Norm(Dict(EventTree(ev))).entries
    ensures Norm(Dict(EventTree(ev))).entries["prev"] == HeadsTree(ev.prev)
  {
    HeadsTreeIsNormal(ev.prev);
    assert Norm(Dict(EventTree(ev))).entries["prev"] == Norm(HeadsTree(ev.prev));
  }

  lemma HeadsTreeInjective(prev: map<string, string>, prev': map<string, string>)
    requires HeadsTree(prev) == HeadsTree(prev')
    ensures prev == prev'
  {
    var x, y := HeadsTree(prev).entries, HeadsTree(prev').entries;
    assert x.Keys == prev.Keys && y.Keys == prev'.Keys;
    forall c | c in prev
      ensures prev[c] == prev'[c]
    {
      assert x[c] == Str(prev[c]) && y[c] == Str(prev'[c]);
    }
  }

  lemma HeadsTreeIsNormal(prev: map<string, string>)
    ensures Accepts(HeadsTree(prev)) && Norm(HeadsTree(prev)) == HeadsTree(prev)
  {
    var tree := HeadsTree(prev);
    assert forall c :: c in tree.entries ==> Norm(tree.entries[c]) == tree.entries[c];
    assert Norm(tree).entries == tree.entries;
  }

  function CapsTree(caps: seq<string>): Value {
    List(seq(|caps|, i requires 0 <= i < |caps| => Str(caps[i])))
  }

  lemma CapsTreeInjective(caps: seq<string>, caps': seq<string>)
    requires CapsTree(caps) == CapsTree(caps')
    ensures caps == caps'
  {
    var xs, ys := CapsTree(caps).items, CapsTree(caps').items;
    assert |xs| == |caps| && |ys| == |caps'|;
    forall i | 0 <= i < |caps|
      ensures caps[i] == caps'[i]
    {
      assert xs[i] == Str(caps[i]) && ys[i] == Str(caps'[i]);
    }
  }

  lemma CapsOfTree(ev: Event)
    requires Accepts(Dict(EventTree(ev)))
    ensures "capabilities" in Norm(Dict(EventTree(ev))).entries
    ensures Norm(Dict(EventTree(ev))).entries["capabilities"] == CapsTree(ev.req.caps)
  {
  }

  // ---- the hash chain ------------------------------------------------------

  /** The head a topic has after a log: the hash of its newest event, or genesis. */
  ghost function HeadAt(topic: Topic, log: seq<Event>, c: string): string {
    var k := Latest(topic, log, c);
    if k < 0 then GENESIS else HashOf(log[k]).GetOr(GENESIS)
  }

  /** Both head maps are functions of the log: the newest event, and the newest decision, on a capability. */
  lemma {:induction false} HeadsAreLatest(log: seq<Event>, c: string)
    requires Lawful(log)
    ensures HeadOf(Fold(log).heads, c) == HeadAt(Listing, log, c)
    ensures HeadOf(Fold(log).decisionHeads, c) == HeadAt(Deciding, log, c)
    decreases |log|
  {
    if log != [] {
      var last := |log| - 1;
      LawfulAt(log, last);
      HeadsAreLatest(log[..last], c);
      CommitLookups(Fold(log[..last]), log[last], c);
      LatestOfPrefix(Listing, log, c, last);
      LatestOfPrefix(Deciding, log, c, last);
    }
  }

  lemma HashExists(log: seq<Event>, i: nat)
    requires Lawful(log) && i < |log|
    ensures HashOf(log[i]).Some? && HashOf(log[i]).value != GENESIS
  {
    LawfulAt(log, i);
    EventIdentity(EventDoc(log[i]), EventDoc(log[i]));
  }

  /** What an event cites as previous is the newest earlier event on that capability. */
  lemma PrevIsLatest(log: seq<Event>, i: nat, c: string)
    requires Lawful(log) && i < |log| && log[i].Lists(c)
    ensures c in log[i].prev && log[i].prev[c] == HeadAt(Listing, log[..i], c)
  {
    LawfulAt(log, i);
    HeadsAreLatest(log[..i], c);
  }

  /** No two committed events share a hash. */
  lemma {:induction false} HashesDistinct(log: seq<Event>, i: nat, j: nat)
    requires Lawful(log) && i < j < |log|
    ensures HashOf(log[i]) != HashOf(log[j])
    decreases j
  {
    if HashOf(log[i]) == HashOf(log[j]) {
      HashExists(log, i);
      LawfulAt(log, i);
      HashFixesHistory(log[i], log[j]);
      var c := log[i].req.caps[0];
      PrevIsLatest(log, i, c);
      PrevIsLatest(log, j, c);
      var k, l := Latest(Listing, log[..i], c), Latest(Listing, log[..j], c);
      assert log[..j][i] == log[i];
      assert i <= l && log[..j][l] == log[l];
      HashExists(log, l);
      assert k >= 0 ==> log[..i][k] == log[k];
      if k >= 0 {
        HashExists(log, k);
        HashesDistinct(log, k, l);
      }
      assert false;
    }
  }

  lemma SameHashSameEvent(log: seq<Event>, i: nat, j: nat)
    requires Lawful(log) && i < |log| && j < |log|
    ensures HashOf(log[i]) == HashOf(log[j]) <==> i == j
  {
    if i < j { HashesDistinct(log, i, j); }
    if j < i { HashesDistinct(log, j, i); }
  }

  lemma LatestIsStable(topic: Topic, log: seq<Event>, m: nat, n: nat, c: string)
    requires m <= n <= |log|
    ensures Latest(topic, log[..m], c) == Latest(topic, log[..n], c)
      <==> forall i :: m <= i < n ==> !On(topic, log[i], c)
  {
    var past := log[..n];
    var l := Latest(topic, past, c);
    assert past[..m] == log[..m];
    LatestOfPrefix(topic, past, c, m);
    assert forall i :: 0 <= i < n ==> past[i] == log[i];
    if l >= m {
      assert On(topic, log[l], c);
    } else {
      assert forall i :: m <= i < n ==> !On(topic, past[i], c);
    }
  }

  lemma HeadNamesEvent(topic: Topic, log: seq<Event>, m: nat, n: nat, c: string)
    requires Lawful(log) && m <= |log| && n <= |log|
    ensures HeadAt(topic, log[..m], c) == HeadAt(topic, log[..n], c)
      <==> Latest(topic, log[..m], c) == Latest(topic, log[..n], c)
  {
    var k, l := Latest(topic, log[..m], c), Latest(topic, log[..n], c);
    if k >= 0 { HashExists(log, k); }
    if l >= 0 { HashExists(log, l); }
    if k >= 0 && l >= 0 { SameHashSameEvent(log, k, l); }
  }

  /** A head value never recurs: it is the same at two points exactly when nothing moved it in between. */
  lemma NoHeadRecurs(topic: Topic, log: seq<Event>, m: nat, n: nat, c: string)
    requires Lawful(log) && m <= n <= |log|
    ensures HeadAt(topic, log[..m], c) == HeadAt(topic, log[..n], c)
      <==> forall i :: m <= i < n ==> !On(topic, log[i], c)
  {
    HeadNamesEvent(topic, log, m, n, c);
    LatestIsStable(topic, log, m, n, c);
  }

  /** A check against the hash of a committed event is fresh exactly when that event is the newest one. */
  lemma FreshIffLatest(topic: Topic, log: seq<Event>, c: string, i: nat)
    requires Lawful(log) && i < |log|
    ensures HeadAt(topic, log, c) == HashOf(log[i]).GetOr(GENESIS) <==> Latest(topic, log, c) == i
  {
    var k := Latest(topic, log, c);
    HashExists(log, i);
    if k >= 0 { SameHashSameEvent(log, k, i); }
  }

  /** The committed events listing a capability, newest first. */
  ghost function Newest(log: seq<Event>, c: string): seq<int> {
    var k := Latest(Listing, log, c);
    if k < 0 then [] else [k] + Newest(log[..k], c)
  }

  /** Following `prev[c]` by hash from a head, at most `fuel` links. */
  ghost function Walk(log: seq<Event>, h: string, c: string, fuel: nat): seq<int>
    decreases fuel
  {
    if h == GENESIS || fuel == 0 then []
    else if exists i :: Resolves(log, h, c, i) then
      var i :| Resolves(log, h, c, i);
      [i] + Walk(log, log[i].prev[c], c, fuel - 1)
    else []
  }

  ghost predicate Resolves(log: seq<Event>, h: string, c: string, i: int) {
    0 <= i < |log| && HashOf(log[i]) == Some(h) && c in log[i].prev
  }

  lemma WalkStep(log: seq<Event>, k: nat, c: string, fuel: nat)
    requires Lawful(log) && k < |log| && log[k].Lists(c) && fuel > 0
    ensures c in log[k].prev
    ensures Walk(log, HashOf(log[k]).GetOr(GENESIS), c, fuel) == [k] + Walk(log, log[k].prev[c], c, fuel - 1)
  {
    HashExists(log, k);
    PrevIsLatest(log, k, c);
    var h := HashOf(log[k]).value;
    assert Resolves(log, h, c, k);
    forall i | Resolves(log, h, c, i)
      ensures i == k
    {
      SameHashSameEvent(log, i, k);
    }
  }

  ghost predicate ChainVisits(log: seq<Event>, m: nat, c: string, fuel: nat)
    requires m <= |log|
  {
    Walk(log, HeadAt(Listing, log[..m], c), c, fuel) == Newest(log[..m], c)
  }

  lemma ChainStep(log: seq<Event>, m: nat, k: nat, c: string, fuel: nat)
    requires Lawful(log) && k < m <= |log| && m <= fuel && k == Latest(Listing, log[..m], c)
    requires ChainVisits(log, k, c, fuel - 1)
    ensures ChainVisits(log, m, c, fuel)
  {
    var past := log[..m];
    assert past[k] == log[k] && past[..k] == log[..k];
    assert HeadAt(Listing, past, c) == HashOf(log[k]).GetOr(GENESIS);
    WalkStep(log, k, c, fuel);
    PrevIsLatest(log, k, c);
    assert Newest(past, c) == [k] + Newest(log[..k], c);
  }

  lemma ChainStart(log: seq<Event>, m: nat, c: string, fuel: nat)
    requires m <= |log| && Latest(Listing, log[..m], c) < 0
    ensures ChainVisits(log, m, c, fuel)
  {
  }

  lemma {:induction false} ChainFrom(log: seq<Event>, m: nat, c: string, fuel: nat)
    requires Lawful(log) && m <= |log| && m <= fuel
    ensures ChainVisits(log, m, c, fuel)
    decreases m
  {
    hide *;
    var k := Latest(Listing, log[..m], c);
    if k < 0 {
      ChainStart(log, m, c, fuel);
    } else {
      ChainFrom(log, k, c, fuel - 1);
      ChainStep(log, m, k, c, fuel);
    }
  }

  /** From the head map, the chain visits exactly the events listing the capability, newest first, to genesis. */
  lemma ChainIsHistory(log: seq<Event>, c: string, fuel: nat)
    requires Lawful(log) && |log| <= fuel
    ensures Walk(log, HeadOf(Fold(log).heads, c), c, fuel) == Newest(log, c)
    ensures forall i :: 0 <= i < |log| ==> (i in Newest(log, c) <==> log[i].Lists(c))
    ensures forall a, b :: 0 <= a < b < |Newest(log, c)| ==> Newest(log, c)[a] > Newest(log, c)[b]
    ensures LinkAfter(log, HeadOf(Fold(log).heads, c), c, Newest(log, c)) == Some(GENESIS)
  {
    assert log[..|log|] == log;
    HeadsAreLatest(log, c);
    ChainFrom(log, |log|, c, fuel);
    NewestIsHistory(log, c);
    ChainEndsAtGenesis(log, c);
  }

  /** The link a chain stops at: what its last event cites, or the head it started from. */
  function LinkAfter(log: seq<Event>, h: string, c: string, visited: seq<int>): Option<string> {
    if visited == [] then Some(h)
    else
      var i := visited[|visited| - 1];
      if 0 <= i < |log| && c in log[i].prev then Some(log[i].prev[c]) else None
  }

  lemma ChainEndsAtGenesis(log: seq<Event>, c: string)
    requires Lawful(log)
    ensures LinkAfter(log, HeadAt(Listing, log, c), c, Newest(log, c)) == Some(GENESIS)
  {
    hide Lawful, LegalAt, HashOf, Fold;
    NewestIsHistory(log, c);
    var visited := Newest(log, c);
    if visited != [] {
      var i := visited[|visited| - 1];
      assert i in visited;
      PrevIsLatest(log, i, c);
      assert forall j :: j in visited ==> j >= i;
      assert forall j :: 0 <= j < i ==> log[..i][j] == log[j] && !log[j].Lists(c);
      LatestIs(Listing, log[..i], c, -1);
    }
  }

  lemma {:induction false} NewestIsHistory(log: seq<Event>, c: string)
    ensures forall i :: i in Newest(log, c) ==> 0 <= i < |log|
    ensures forall i :: 0 <= i < |log| ==> (i in Newest(log, c) <==> log[i].Lists(c))
    ensures forall a, b :: 0 <= a < b < |Newest(log, c)| ==> Newest(log, c)[a] > Newest(log, c)[b]
    decreases |log|
  {
    var k := Latest(Listing, log, c);
    if k >= 0 {
      var rest := Newest(log[..k], c);
      NewestIsHistory(log[..k], c);
      assert Newest(log, c) == [k] + rest;
      forall b | 0 <= b < |rest|
        ensures rest[b] < k
      {
        assert rest[b] in rest;
      }
      forall i | 0 <= i < |log|
        ensures i in Newest(log, c) <==> log[i].Lists(c)
      {
        if i < k {
          assert log[..k][i] == log[i];
        } else if i > k {
          assert !On(Listing, log[i], c);
        }
      }
    } else {
      assert forall i :: 0 <= i < |log| ==> !On(Listing, log[i], c);
    }
  }
}
