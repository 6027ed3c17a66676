/**
 Dependency graphs: the loader's Kahn check (ref/groundholdlib/plan.py) and the executor's order
 (`topoOrder` in go/internal/apply/apply.go).
 */
module Graph {

  /** An action as the graph sees it; dependencies may repeat and may name the action itself. */
  datatype Node = Node(id: string, deps: seq<string>)

  type Deps = map<string, seq<string>>

  function Ids(nodes: seq<Node>): set<string> {
    set n | n in nodes :: n.id
  }

  ghost predicate Unique(nodes: seq<Node>) {
    forall i, j :: 0 <= i < j < |nodes| ==> nodes[i].id != nodes[j].id
  }

  ghost predicate Known(nodes: seq<Node>) {
    forall n, d :: n in nodes && d in n.deps ==> d in Ids(nodes)
  }

  /** The dependency table; the last action wins where an id repeats. */
  function Table(nodes: seq<Node>): (m: Deps)
    ensures m.Keys == Ids(nodes)
  {
    if nodes == [] then map[]
    else
      var last := nodes[|nodes| - 1];
      assert nodes == nodes[..|nodes| - 1] + [last];
      Table(nodes[..|nodes| - 1])[last.id := last.deps]
  }

  lemma {:induction false} TableEntry(nodes: seq<Node>, i: nat)
    requires Unique(nodes) && i < |nodes|
    ensures nodes[i].id in Table(nodes) && Table(nodes)[nodes[i].id] == nodes[i].deps
  {
    var n := |nodes| - 1;
    if i < n {
      assert nodes[..n][i] == nodes[i];
      TableEntry(nodes[..n], i);
    }
  }

  // ---- cycles --------------------------------------------------------------

  ghost predicate Edge(g: Deps, a: string, b: string) {
    a in g && b in g && b in g[a]
  }

  ghost predicate Path(g: Deps, p: seq<string>) {
    && |p| > 0 && p[0] in g
    && forall i, j :: 0 <= i && j == i + 1 < |p| ==> Edge(g, p[i], p[j])
  }

  ghost predicate Cycle(g: Deps, p: seq<string>) {
    Path(g, p) && |p| > 1 && p[0] == p[|p| - 1]
  }

  ghost predicate Cyclic(g: Deps) {
    exists p :: Cycle(g, p)
  }

  predicate Closed(g: Deps) {
    forall a :: a in g ==> forall d :: d in g[a] ==> d in g
  }

  predicate Distinct(s: seq<string>) {
    forall i, j :: 0 <= i < j < |s| ==> s[i] != s[j]
  }

  /** Each id comes after all its dependencies. */
  ghost predicate Ordered(g: Deps, order: seq<string>) {
    && Distinct(order)
    && forall i :: 0 <= i < |order| ==> order[i] in g && forall d :: d in g[order[i]] ==> d in order[..i]
  }

  ghost function IndexOf(order: seq<string>, a: string): (i: nat)
    requires a in order
    ensures i < |order| && order[i] == a
  {
    var i :| 0 <= i < |order| && order[i] == a;
    i
  }

  lemma {:induction false} PathDescends(g: Deps, order: seq<string>, p: seq<string>)
    requires Ordered(g, order) && Path(g, p) && forall a :: a in g ==> a in order
    ensures p[|p| - 1] in order && p[0] in order
    ensures |p| > 1 ==> IndexOf(order, p[|p| - 1]) < IndexOf(order, p[0])
    ensures |p| == 1 ==> IndexOf(order, p[|p| - 1]) == IndexOf(order, p[0])
    decreases |p|
  {
    if |p| > 1 {
      var q := p[..|p| - 1];
      assert Path(g, q);
      PathDescends(g, order, q);
      var a, b := p[|p| - 2], p[|p| - 1];
      assert Edge(g, a, b);
      var i := IndexOf(order, a);
      assert b in order[..i];
      var j := IndexOf(order, b);
      assert j < i;
    }
  }

  /** A complete order rules out every cycle. */
  lemma OrderedIsAcyclic(g: Deps, order: seq<string>)
    requires Ordered(g, order) && forall a :: a in g ==> a in order
    ensures !Cyclic(g)
  {
    if p :| Cycle(g, p) { PathDescends(g, order, p); }
  }

  ghost predicate Waits(g: Deps, a: string, r: set<string>) {
    exists d :: d in r && Edge(g, a, d)
  }

  ghost predicate Stuck(g: Deps, r: set<string>) {
    r != {} && forall a :: a in r ==> a in g && Waits(g, a, r)
  }

  /** A nonempty set in which everything waits on something in the set contains a cycle. */
  lemma StuckIsCyclic(g: Deps, r: set<string>)
    requires Stuck(g, r)
    ensures Cyclic(g)
  {
    var a :| a in r;
    Wander(g, r, [a]);
  }

  lemma PathExtends(g: Deps, p: seq<string>, d: string)
    requires Path(g, p) && Edge(g, p[|p| - 1], d)
    ensures Path(g, p + [d])
  {
    var q := p + [d];
    forall i, j | 0 <= i && j == i + 1 < |q|
      ensures Edge(g, q[i], q[j])
    {
      assert j < |p| ==> q[j] == p[j];
    }
  }

  lemma PathTail(g: Deps, p: seq<string>, i: nat)
    requires Path(g, p) && i < |p|
    ensures Path(g, p[i..])
  {
    var q := p[i..];
    assert i > 0 ==> Edge(g, p[i - 1], p[i]);
    forall k, j | 0 <= k && j == k + 1 < |q|
      ensures Edge(g, q[k], q[j])
    {
      assert q[k] == p[i + k] && q[j] == p[i + j];
    }
  }

  /** A path that can step back onto itself closes a cycle. */
  lemma PathCloses(g: Deps, p: seq<string>, d: string)
    requires Path(g, p) && Edge(g, p[|p| - 1], d) && d in p
    ensures Cyclic(g)
  {
    var i := IndexOf(p, d);
    PathTail(g, p, i);
    PathExtends(g, p[i..], d);
    assert Cycle(g, p[i..] + [d]);
  }

  lemma PathNonEmpty(g: Deps, p: seq<string>)
    requires Path(g, p)
    ensures |p| > 0
  {
  }

  function Members(p: seq<string>): set<string> {
    set a | a in p
  }

  lemma {:induction false} Wander(g: Deps, r: set<string>, p: seq<string>)
    requires Stuck(g, r) && Path(g, p) && Members(p) <= r
    ensures Cyclic(g)
    decreases r - Members(p)
  {
    hide Path, Stuck, Edge, Cyclic;
    PathNonEmpty(g, p);
    var last := p[|p| - 1];
    assert last in Members(p);
    var d := NextStuck(g, r, last);
    if d in p {
      PathCloses(g, p, d);
    } else {
      PathExtends(g, p, d);
      MembersGrow(p, d);
      Wander(g, r, p + [d]);
    }
  }

  lemma NextStuck(g: Deps, r: set<string>, a: string) returns (d: string)
    requires Stuck(g, r) && a in r
    ensures d in r && Edge(g, a, d)
  {
    assert Waits(g, a, r);
    d :| d in r && Edge(g, a, d);
  }

  lemma MembersGrow(p: seq<string>, d: string)
    ensures Members(p + [d]) == Members(p) + {d}
  {
  }

  // ---- Kahn ----------------------------------------------------------------

  /** How many dependencies, counted with repetition, are not yet done. */
  function Left(ds: seq<string>, done: set<string>): nat {
    if ds == [] then 0 else (if ds[0] in done then 0 else 1) + Left(ds[1..], done)
  }

  lemma {:induction false} LeftIsZero(ds: seq<string>, done: set<string>)
    ensures Left(ds, done) == 0 <==> forall d :: d in ds ==> d in done
  {
    if ds != [] { LeftIsZero(ds[1..], done); }
  }

  lemma {:induction false} LeftDrops(ds: seq<string>, done: set<string>, n: string)
    requires n !in done
    ensures Left(ds, done + {n}) == Left(ds, done) - multiset(ds)[n]
    ensures multiset(ds)[n] <= Left(ds, done)
  {
    if ds != [] {
      LeftDrops(ds[1..], done, n);
      assert ds == [ds[0]] + ds[1..];
    }
  }

  lemma {:induction false} LeftOfNothing(ds: seq<string>)
    ensures Left(ds, {}) == |ds|
  {
    if ds != [] { LeftOfNothing(ds[1..]); }
  }

  ghost predicate QueueInv(g: Deps, indeg: map<string, int>, queue: seq<string>, popped: set<string>) {
    && indeg.Keys == g.Keys && Distinct(queue)
    && (forall a :: a in queue ==> a in g && a !in popped)
    && (forall a :: a in g ==> (indeg[a] == 0 <==> a in queue || a in popped))
  }

  lemma CountStep(s: seq<string>, k: nat)
    requires k < |s|
    ensures multiset(s[..k + 1]) == multiset(s[..k]) + multiset{s[k]}
    ensures multiset(s[..k])[s[k]] < multiset(s)[s[k]]
  {
    assert s[..k + 1] == s[..k] + [s[k]];
    assert s == s[..k] + [s[k]] + s[k + 1..];
  }

  /** Every occurrence of `d` among the dependencies of `m` puts `m` once in `rev[d]`. */
  ghost predicate Inverted(g: Deps, rev: Deps, done: set<string>) {
    && rev.Keys == g.Keys
    && forall d, m :: d in g ==> multiset(rev[d])[m] == if m in done && m in g then multiset(g[m])[d] else 0
  }

  method Dependents(nodes: seq<Node>) returns (rev: Deps)
    requires Unique(nodes) && Known(nodes)
    ensures Inverted(Table(nodes), rev, Ids(nodes))
  {
    var g := Table(nodes);
    rev := map a | a in g :: [];
    for i := 0 to |nodes|
      invariant Inverted(g, rev, Ids(nodes[..i]))
    {
      var a := nodes[i].id;
      TableEntry(nodes, i);
      PrefixIds(nodes, i);
      assert nodes[i] in nodes;
      ghost var before := rev;
      rev := AddDependent(rev, a, nodes[i].deps);
      InvertedGrows(g, before, rev, Ids(nodes[..i]), a);
    }
    assert nodes[..|nodes|] == nodes;
  }

  lemma PrefixIds(nodes: seq<Node>, i: nat)
    requires Unique(nodes) && i < |nodes|
    ensures Ids(nodes[..i + 1]) == Ids(nodes[..i]) + {nodes[i].id}
    ensures nodes[i].id !in Ids(nodes[..i])
  {
    assert nodes[..i + 1] == nodes[..i] + [nodes[i]];
  }

  lemma InvertedGrows(g: Deps, before: Deps, rev: Deps, done: set<string>, a: string)
    requires Inverted(g, before, done) && a in g && a !in done && rev.Keys == g.Keys
    requires forall d, m :: d in g ==>
      multiset(rev[d])[m] == multiset(before[d])[m] + if m == a then multiset(g[a])[d] else 0
    ensures Inverted(g, rev, done + {a})
  {
  }

  /** The inner loop: one entry in the reverse list of each dependency of `a`. */
  method AddDependent(before: Deps, a: string, ds: seq<string>) returns (rev: Deps)
    requires forall d :: d in ds ==> d in before
    ensures rev.Keys == before.Keys
    ensures forall d, m :: d in before ==>
      multiset(rev[d])[m] == multiset(before[d])[m] + if m == a then multiset(ds)[d] else 0
  {
    rev := before;
    for j := 0 to |ds|
      invariant rev.Keys == before.Keys
      invariant forall d, m :: d in before ==>
        multiset(rev[d])[m] == multiset(before[d])[m] + if m == a then multiset(ds[..j])[d] else 0
    {
      CountStep(ds, j);
      CountAppend(rev[ds[j]], a);
      rev := rev[ds[j] := rev[ds[j]] + [a]];
    }
    assert ds[..|ds|] == ds;
  }

  lemma CountAppend(s: seq<string>, a: string)
    ensures forall m :: multiset(s + [a])[m] == multiset(s)[m] + if m == a then 1 else 0
  {
  }

  lemma NoIds(nodes: seq<Node>)
    requires nodes == []
    ensures Ids(nodes) == {}
  {
  }

  /** The ids without dependencies, in document order. */
  method ReadyAtStart(nodes: seq<Node>) returns (queue: seq<string>)
    requires Unique(nodes)
    ensures Distinct(queue)
    ensures forall a :: a in queue <==> a in Table(nodes) && Table(nodes)[a] == []
  {
    hide Table, Unique, Ids;
    var g := Table(nodes);
    assert Ids(nodes[..0]) == {} by { NoIds(nodes[..0]); }
    queue := [];
    for i := 0 to |nodes|
      invariant Distinct(queue)
      invariant forall a :: a in queue <==> a in Ids(nodes[..i]) && a in g && g[a] == []
    {
      TableEntry(nodes, i);
      PrefixIds(nodes, i);
      if |nodes[i].deps| == 0 { queue := queue + [nodes[i].id]; }
    }
    assert nodes[..|nodes|] == nodes;
  }

  /** One popped id: each occurrence in its reverse list lowers a dependent, which is queued on reaching zero. */
  method Lower(g: Deps, degrees: map<string, int>, ready: seq<string>, ghost popped: set<string>, n: string,
               ms: seq<string>)
    returns (indeg: map<string, int>, queue: seq<string>)
    requires n in g && n !in popped
    requires QueueInv(g, degrees, ready, popped + {n})
    requires degrees.Keys == g.Keys && forall a :: a in g ==> degrees[a] == Left(g[a], popped)
    requires forall m :: multiset(ms)[m] == if m in g then multiset(g[m])[n] else 0
    ensures QueueInv(g, indeg, queue, popped + {n})
    ensures indeg.Keys == g.Keys && forall a :: a in g ==> indeg[a] == Left(g[a], popped + {n})
  {
    hide QueueInv, Degrees;
    indeg, queue := degrees, ready;
    assert Degrees(g, indeg, popped, multiset(ms[..0])) by { DegreesAtStart(g, degrees, popped, ms); }
    for k := 0 to |ms|
      invariant QueueInv(g, indeg, queue, popped + {n})
      invariant Degrees(g, indeg, popped, multiset(ms[..k]))
    {
      LowerStep(g, indeg, queue, popped, n, ms, k);
      var m := ms[k];
      indeg := indeg[m := indeg[m] - 1];
      if indeg[m] == 0 { queue := queue + [m]; }
    }
    assert ms[..|ms|] == ms;
    DegreesAtEnd(g, indeg, popped, n, multiset(ms));
  }

  /** The degrees once the dependents in `taken` have been lowered. */
  ghost predicate Degrees(g: Deps, indeg: map<string, int>, popped: set<string>, taken: multiset<string>) {
    indeg.Keys == g.Keys && forall a :: a in g ==> indeg[a] == Left(g[a], popped) - taken[a]
  }

  lemma DegreesAtStart(g: Deps, indeg: map<string, int>, popped: set<string>, ms: seq<string>)
    requires indeg.Keys == g.Keys && forall a :: a in g ==> indeg[a] == Left(g[a], popped)
    ensures Degrees(g, indeg, popped, multiset(ms[..0]))
  {
    assert ms[..0] == [];
  }

  lemma DegreesAtEnd(g: Deps, indeg: map<string, int>, popped: set<string>, n: string, taken: multiset<string>)
    requires Degrees(g, indeg, popped, taken) && n !in popped
    requires forall m :: taken[m] == if m in g then multiset(g[m])[n] else 0
    ensures indeg.Keys == g.Keys && forall a :: a in g ==> indeg[a] == Left(g[a], popped + {n})
  {
    forall a | a in g
      ensures indeg[a] == Left(g[a], popped + {n})
    {
      LeftDrops(g[a], popped, n);
    }
  }

  lemma LowerStep(g: Deps, indeg: map<string, int>, queue: seq<string>, popped: set<string>, n: string,
                  ms: seq<string>, k: nat)
    requires k < |ms| && n !in popped
    requires QueueInv(g, indeg, queue, popped + {n}) && Degrees(g, indeg, popped, multiset(ms[..k]))
    requires forall m :: multiset(ms)[m] == if m in g then multiset(g[m])[n] else 0
    ensures ms[k] in g && ms[k] in indeg
    ensures var m := ms[k]; var lower := indeg[m := indeg[m] - 1];
      && QueueInv(g, lower, if lower[m] == 0 then queue + [m] else queue, popped + {n})
      && Degrees(g, lower, popped, multiset(ms[..k + 1]))
  {
    var m := ms[k];
    CountStep(ms, k);
    assert multiset(ms)[m] > 0;
    LeftDrops(g[m], popped, n);
    assert indeg[m] > 0;
    QueueStep(g, indeg, queue, popped + {n}, m);
  }

  lemma QueueStep(g: Deps, indeg: map<string, int>, queue: seq<string>, popped: set<string>, m: string)
    requires QueueInv(g, indeg, queue, popped) && m in g && indeg[m] > 0
    ensures QueueInv(g, indeg[m := indeg[m] - 1], if indeg[m] == 1 then queue + [m] else queue, popped)
  {
  }

  /** The loader's cycle check: pop ready ids, lower their dependents, and count. */
  method Kahn(nodes: seq<Node>) returns (acyclic: bool)
    requires Unique(nodes) && Known(nodes)
    ensures acyclic <==> !Cyclic(Table(nodes))
  {
    var g := Table(nodes);
    var indeg: map<string, int> := map a | a in g :: |g[a]|;
    var rev := Dependents(nodes);
    var queue := ReadyAtStart(nodes);
    ghost var order: seq<string> := [];
    ghost var popped: set<string> := {};
    var seen := 0;
    forall a | a in g
      ensures indeg[a] == Left(g[a], popped)
    {
      LeftOfNothing(g[a]);
    }
    while queue != []
      invariant KahnInv(g, indeg, queue, popped, order)
      invariant seen == |popped|
      decreases g.Keys - popped
    {
      var n := queue[|queue| - 1];
      PopReady(g, indeg, queue, popped, order);
      indeg, queue := Lower(g, indeg, queue[..|queue| - 1], popped, n, rev[n]);
      seen := seen + 1;
      order, popped := order + [n], popped + {n};
    }
    acyclic := seen == |g|;
    KahnVerdict(nodes, indeg, popped, order);
  }

  ghost predicate KahnInv(g: Deps, indeg: map<string, int>, queue: seq<string>, popped: set<string>,
                          order: seq<string>) {
    && QueueInv(g, indeg, queue, popped)
    && (forall a :: a in g ==> indeg[a] == Left(g[a], popped))
    && popped <= g.Keys
    && (forall a :: a in order <==> a in popped)
    && Ordered(g, order)
  }

  lemma PopReady(g: Deps, indeg: map<string, int>, queue: seq<string>, popped: set<string>, order: seq<string>)
    requires KahnInv(g, indeg, queue, popped, order) && queue != []
    ensures var n, rest := queue[|queue| - 1], queue[..|queue| - 1];
      && n in g && n !in popped
      && QueueInv(g, indeg, rest, popped + {n})
      && Ordered(g, order + [n])
  {
    var n := queue[|queue| - 1];
    assert n in queue;
    LeftIsZero(g[n], popped);
    OrderExtends(g, order, n);
    var rest := queue[..|queue| - 1];
    assert queue == rest + [n];
  }

  /** With the queue empty, the count is full exactly when there is no cycle. */
  lemma KahnVerdict(nodes: seq<Node>, indeg: map<string, int>, popped: set<string>, order: seq<string>)
    requires Unique(nodes) && Known(nodes) && KahnInv(Table(nodes), indeg, [], popped, order)
    ensures |popped| == |Table(nodes)| <==> !Cyclic(Table(nodes))
  {
    var g := Table(nodes);
    var rest := g.Keys - popped;
    assert g.Keys == popped + rest && |popped + rest| == |popped| + |rest|;
    if rest == {} {
      OrderedIsAcyclic(g, order);
    } else {
      KahnStuck(nodes, rest, popped);
      StuckIsCyclic(g, rest);
    }
  }

  lemma OrderExtends(g: Deps, order: seq<string>, n: string)
    requires Ordered(g, order) && n in g && n !in order && forall d :: d in g[n] ==> d in order
    ensures Ordered(g, order + [n])
  {
    var q := order + [n];
    forall i | 0 <= i < |q|
      ensures q[i] in g && forall d :: d in g[q[i]] ==> d in q[..i]
    {
      assert q[..i] == if i < |order| then order[..i] else order;
    }
  }

  lemma TableClosed(nodes: seq<Node>)
    requires Unique(nodes) && Known(nodes)
    ensures Closed(Table(nodes))
  {
    forall a | a in Table(nodes)
      ensures forall d :: d in Table(nodes)[a] ==> d in Table(nodes)
    {
      var n :| n in nodes && n.id == a;
      var i :| 0 <= i < |nodes| && nodes[i] == n;
      TableEntry(nodes, i);
    }
  }

  /** Ids whose dependencies are not all done, and nothing else left: they wait on each other. */
  lemma KahnStuck(nodes: seq<Node>, rest: set<string>, done: set<string>)
    requires Unique(nodes) && Known(nodes) && rest == Table(nodes).Keys - done && rest != {}
    requires forall a :: a in rest ==> Left(Table(nodes)[a], done) != 0
    ensures Stuck(Table(nodes), rest)
  {
    var g := Table(nodes);
    TableClosed(nodes);
    forall a | a in rest
      ensures Waits(g, a, rest)
    {
      LeftIsZero(g[a], done);
      var d :| d in g[a] && d !in done;
      assert Edge(g, a, d);
    }
  }

  datatype LoadCheck = Accepted | DuplicateId(id: string) | UnknownDependency(dep: string) | CyclicGraph

  ghost predicate IdRepeats(nodes: seq<Node>, id: string) {
    exists i, j :: 0 <= i < j < |nodes| && nodes[i].id == id && nodes[j].id == id
  }

  /** The loader's dependency checks in order: duplicate ids, unknown dependencies, cycles. */
  method CheckGraph(nodes: seq<Node>) returns (r: LoadCheck)
    ensures r.DuplicateId? <==> !Unique(nodes)
    ensures r.UnknownDependency? <==> Unique(nodes) && !Known(nodes)
    ensures r.CyclicGraph? <==> Unique(nodes) && Known(nodes) && Cyclic(Table(nodes))
    ensures r.DuplicateId? ==> IdRepeats(nodes, r.id)
    ensures r.UnknownDependency? ==> r.dep !in Ids(nodes) && exists n :: n in nodes && r.dep in n.deps
  {
    var ids: set<string> := {};
    for i := 0 to |nodes|
      invariant ids == Ids(nodes[..i]) && Unique(nodes[..i])
    {
      assert nodes[..i + 1] == nodes[..i] + [nodes[i]];
      if nodes[i].id in ids {
        var n :| n in nodes[..i] && n.id == nodes[i].id;
        ghost var k :| 0 <= k < i && nodes[k] == n;
        return DuplicateId(nodes[i].id);
      }
      ids := ids + {nodes[i].id};
    }
    assert nodes[..|nodes|] == nodes;
    for i := 0 to |nodes|
      invariant forall k, d :: 0 <= k < i && d in nodes[k].deps ==> d in ids
    {
      var ds := nodes[i].deps;
      for j := 0 to |ds|
        invariant forall k :: 0 <= k < j ==> ds[k] in ids
      {
        if ds[j] !in ids {
          assert nodes[i] in nodes;
          return UnknownDependency(ds[j]);
        }
      }
    }
    var acyclic := Kahn(nodes);
    r := if acyclic then Accepted else CyclicGraph;
  }

  // ---- the executor's order ------------------------------------------------

  predicate Ready(n: Node, order: seq<string>) {
    n.id !in order && forall d :: d in n.deps ==> d in order
  }

  /** One pass over the actions in document order, appending each that has become ready. */
  function Pass(nodes: seq<Node>, order: seq<string>): seq<string> {
    if nodes == [] then order
    else Pass(nodes[1..], if Ready(nodes[0], order) then order + [nodes[0].id] else order)
  }

  function Passes(nodes: seq<Node>, k: nat): seq<string> {
    if k == 0 then [] else Pass(nodes, Passes(nodes, k - 1))
  }

  /** A permutation of the action ids in which each dependency precedes its dependents. */
  ghost predicate IsOrder(nodes: seq<Node>, order: seq<string>) {
    && |order| == |nodes|
    && (forall a :: a in order <==> a in Ids(nodes))
    && Ordered(Table(nodes), order)
  }

  lemma {:induction false} PassGrows(nodes: seq<Node>, order: seq<string>)
    ensures |Pass(nodes, order)| >= |order| && Pass(nodes, order)[..|order|] == order
    ensures forall n :: n in nodes && Ready(n, order) ==> |Pass(nodes, order)| > |order|
    decreases |nodes|
  {
    if nodes != [] {
      var next := if Ready(nodes[0], order) then order + [nodes[0].id] else order;
      PassGrows(nodes[1..], next);
      assert nodes == [nodes[0]] + nodes[1..];
      assert next[..|order|] == order;
    }
  }

  lemma {:induction false} PassOrdered(g: Deps, nodes: seq<Node>, order: seq<string>)
    requires Ordered(g, order) && forall n :: n in nodes ==> n.id in g && g[n.id] == n.deps
    ensures Ordered(g, Pass(nodes, order))
    decreases |nodes|
  {
    if nodes != [] {
      if Ready(nodes[0], order) {
        OrderExtends(g, order, nodes[0].id);
        PassOrdered(g, nodes[1..], order + [nodes[0].id]);
      } else {
        PassOrdered(g, nodes[1..], order);
      }
    }
  }

  lemma TableEntries(nodes: seq<Node>)
    requires Unique(nodes)
    ensures forall n :: n in nodes ==> n.id in Table(nodes) && Table(nodes)[n.id] == n.deps
    ensures |Table(nodes).Keys| == |nodes|
  {
    forall n | n in nodes
      ensures n.id in Table(nodes) && Table(nodes)[n.id] == n.deps
    {
      var i :| 0 <= i < |nodes| && nodes[i] == n;
      TableEntry(nodes, i);
    }
    CountIds(nodes);
  }

  lemma {:induction false} CountIds(nodes: seq<Node>)
    requires Unique(nodes)
    ensures |Ids(nodes)| == |nodes|
  {
    if nodes != [] {
      var n := |nodes| - 1;
      CountIds(nodes[..n]);
      PrefixIds(nodes, n);
      assert nodes[..n + 1] == nodes;
    } else {
      assert Ids(nodes) == {};
    }
  }

  lemma {:induction false} DistinctCount(s: seq<string>)
    requires Distinct(s)
    ensures |Members(s)| == |s|
  {
    if s != [] {
      var n := |s| - 1;
      DistinctCount(s[..n]);
      assert s == s[..n] + [s[n]];
      assert Members(s) == Members(s[..n]) + {s[n]};
    } else {
      assert Members(s) == {};
    }
  }

  /** An ordered list of ids is complete exactly when it is as long as the list of actions. */
  lemma OrderedIsComplete(nodes: seq<Node>, order: seq<string>)
    requires Unique(nodes) && Ordered(Table(nodes), order)
    ensures |order| <= |nodes|
    ensures |order| == |nodes| <==> IsOrder(nodes, order)
  {
    hide Table, Unique;
    TableEntries(nodes);
    DistinctCount(order);
    OrderedMembers(Table(nodes), order);
    SubsetCount(Members(order), Table(nodes).Keys);
    assert forall a :: a in order <==> a in Members(order);
  }

  lemma OrderedMembers(g: Deps, order: seq<string>)
    requires Ordered(g, order)
    ensures Members(order) <= g.Keys
  {
  }

  lemma SubsetCount(a: set<string>, b: set<string>)
    requires a <= b
    ensures |a| <= |b| && (|a| == |b| <==> a == b) && (|a| < |b| <==> b - a != {})
  {
    assert b == a + (b - a) && |a + (b - a)| == |a| + |b - a|;
  }

  /** While some action is missing, a pass appends at least one, provided there is no cycle. */
  lemma PassProgresses(nodes: seq<Node>, order: seq<string>)
    requires Unique(nodes) && Known(nodes) && !Cyclic(Table(nodes))
    requires Ordered(Table(nodes), order) && |order| < |nodes|
    ensures |order| < |Pass(nodes, order)|
  {
    hide Table, Unique, Ordered, Cyclic;
    OrderedIsComplete(nodes, order);
    PassGrows(nodes, order);
    if |Pass(nodes, order)| == |order| {
      NothingReadyIsStuck(nodes, order);
      StuckIsCyclic(Table(nodes), Table(nodes).Keys - Members(order));
    }
  }

  lemma NothingReadyIsStuck(nodes: seq<Node>, order: seq<string>)
    requires Unique(nodes) && Known(nodes) && Ordered(Table(nodes), order) && |order| < |nodes|
    requires forall n :: n in nodes ==> !Ready(n, order)
    ensures Stuck(Table(nodes), Table(nodes).Keys - Members(order))
  {
    hide Table, Unique, Ordered;
    var g := Table(nodes);
    OrderedIsComplete(nodes, order);
    OrderedMembers(g, order);
    TableEntries(nodes);
    DistinctMembers(nodes, order);
    var rest := g.Keys - Members(order);
    forall a | a in rest
      ensures Waits(g, a, rest)
    {
      var n :| n in nodes && n.id == a;
      assert !Ready(n, order);
      var d :| d in n.deps && d !in order;
      assert Edge(g, a, d);
    }
  }

  lemma DistinctMembers(nodes: seq<Node>, order: seq<string>)
    requires Unique(nodes) && Ordered(Table(nodes), order) && |order| < |nodes|
    ensures Table(nodes).Keys - Members(order) != {}
  {
    hide Table, Unique;
    TableEntries(nodes);
    DistinctCount(order);
    OrderedMembers(Table(nodes), order);
    SubsetCount(Members(order), Table(nodes).Keys);
  }

  lemma EmptyIsOrdered(g: Deps)
    ensures Ordered(g, [])
  {
  }

  method OnePass(nodes: seq<Node>, before: seq<string>) returns (order: seq<string>)
    ensures order == Pass(nodes, before)
  {
    order := before;
    for i := 0 to |nodes|
      invariant Pass(nodes, before) == Pass(nodes[i..], order)
    {
      if Ready(nodes[i], order) { order := order + [nodes[i].id]; }
    }
  }

  /** `topoOrder`: passes until every action is placed. */
  method TopoOrder(nodes: seq<Node>) returns (order: seq<string>)
    requires Unique(nodes) && Known(nodes) && !Cyclic(Table(nodes))
    ensures IsOrder(nodes, order)
    ensures exists k :: order == Passes(nodes, k)
  {
    hide Table, Unique, Known, Ordered, Cyclic, Pass;
    order := [];
    ghost var k := 0;
    EmptyIsOrdered(Table(nodes));
    TableEntries(nodes);
    OrderedIsComplete(nodes, order);
    while |order| < |nodes|
      invariant order == Passes(nodes, k) && Ordered(Table(nodes), order) && |order| <= |nodes|
      decreases |nodes| - |order|
    {
      PassProgresses(nodes, order);
      PassOrdered(Table(nodes), nodes, order);
      order := OnePass(nodes, order);
      k := k + 1;
      OrderedIsComplete(nodes, order);
    }
    OrderedIsComplete(nodes, order);
  }

  lemma {:induction false} PassesOrdered(nodes: seq<Node>, k: nat)
    requires Unique(nodes)
    ensures Ordered(Table(nodes), Passes(nodes, k))
  {
    hide Table, Unique, Ordered, Pass;
    EmptyIsOrdered(Table(nodes));
    if k > 0 {
      PassesOrdered(nodes, k - 1);
      TableEntries(nodes);
      PassOrdered(Table(nodes), nodes, Passes(nodes, k - 1));
    }
  }

  lemma {:induction false} PassesProgress(nodes: seq<Node>, k: nat)
    requires Unique(nodes) && Known(nodes) && !Cyclic(Table(nodes))
    ensures |Passes(nodes, k)| >= k || |Passes(nodes, k)| == |nodes|
  {
    hide Table, Unique, Known, Ordered, Cyclic, Pass;
    if k > 0 {
      PassesProgress(nodes, k - 1);
      PassesOrdered(nodes, k - 1);
      PassesOrdered(nodes, k);
      OrderedIsComplete(nodes, Passes(nodes, k - 1));
      OrderedIsComplete(nodes, Passes(nodes, k));
      PassGrows(nodes, Passes(nodes, k - 1));
      if |Passes(nodes, k - 1)| < |nodes| { PassProgresses(nodes, Passes(nodes, k - 1)); }
    }
  }

  /** The passes ever place every action exactly when there is no cycle: otherwise the loop never ends. */
  lemma TopoOrderEndsIffAcyclic(nodes: seq<Node>)
    requires Unique(nodes) && Known(nodes)
    ensures (exists k :: |Passes(nodes, k)| == |nodes|) <==> !Cyclic(Table(nodes))
  {
    if k :| |Passes(nodes, k)| == |nodes| {
      PassesOrdered(nodes, k);
      OrderedIsComplete(nodes, Passes(nodes, k));
      OrderedIsAcyclic(Table(nodes), Passes(nodes, k));
    }
    if !Cyclic(Table(nodes)) {
      PassesProgress(nodes, |nodes|);
      PassesOrdered(nodes, |nodes|);
      OrderedIsComplete(nodes, Passes(nodes, |nodes|));
    }
  }
}
