/**
 When the create-before-destroy edges, which are injected after the loader's cycle check, leave a plan that can still
 be ordered (`enforceReplaceOrdering` and `topoOrder` in go/internal/apply/apply.go).
 */
module ReplaceCycles {
  import opened Graph
  import opened Plan
  import opened ExecutorTheorems

  /** The delete `a` is paired with the create `c` of the same capability. */
  predicate PairedWith(actions: seq<Action>, a: Action, c: string) {
    a.operation.Delete? && a.capability in CreateIds(actions) && CreateIds(actions)[a.capability] == c
  }

  /** The executor makes the delete `x` wait for the create `c` of the same capability. */
  ghost predicate Injects(actions: seq<Action>, x: string, c: string) {
    exists a :: a in actions && a.id == x && PairedWith(actions, a, c)
  }

  /** The create that replaces the target of the delete `x` itself depends, in the plan as loaded, on the delete `y`. */
  ghost predicate Awaits(actions: seq<Action>, x: string, y: string) {
    exists c :: Injects(actions, x, c) && Reaches(Table(Nodes(actions)), c, y)
  }

  /** Replacements that wait for each other's deletes in a ring, possibly of one. */
  ghost predicate Chain(actions: seq<Action>, r: seq<string>) {
    |r| > 1 && forall i, j :: 0 <= i && j == i + 1 < |r| ==> Awaits(actions, r[i], r[j])
  }

  ghost predicate Ring(actions: seq<Action>, r: seq<string>) {
    Chain(actions, r) && r[0] == r[|r| - 1]
  }

  ghost predicate Loaded(actions: seq<Action>) {
    Unique(Nodes(actions)) && Known(Nodes(actions)) && !Cyclic(Table(Nodes(actions)))
  }

  // ---- the edges of the enforced plan ----------------------------------------

  lemma EnforcedNodes(actions: seq<Action>)
    requires Unique(Nodes(actions)) && Known(Nodes(actions))
    ensures Unique(Nodes(Enforced(actions))) && Known(Nodes(Enforced(actions)))
    ensures Ids(Nodes(Enforced(actions))) == Ids(Nodes(actions))
  {
    var ns, es := Nodes(actions), Nodes(Enforced(actions));
    assert forall i :: 0 <= i < |ns| ==> ns[i].id == es[i].id;
    forall id
      ensures id in Ids(ns) <==> id in Ids(es)
    {
      if n :| n in ns && n.id == id {
        var i :| 0 <= i < |ns| && ns[i] == n;
        assert es[i] in es && es[i].id == id;
      }
      if n :| n in es && n.id == id {
        var i :| 0 <= i < |es| && es[i] == n;
        assert ns[i] in ns && ns[i].id == id;
      }
    }
    forall n, d | n in es && d in n.deps
      ensures d in Ids(es)
    {
      var i :| 0 <= i < |es| && es[i] == n;
      assert ns[i] in ns;
      if d !in ns[i].deps { CreateIsKnown(actions, actions[i].capability); }
    }
  }

  lemma CreateIsKnown(actions: seq<Action>, cap: string)
    requires cap in CreateIds(actions)
    ensures CreateIds(actions)[cap] in Ids(Nodes(actions))
  {
    CreateIdsSpec(actions, cap);
    var a :| a in actions && a.operation.Create? && a.capability == cap && a.id == CreateIds(actions)[cap];
    var i :| 0 <= i < |actions| && actions[i] == a;
    assert Nodes(actions)[i] in Nodes(actions);
  }

  lemma EdgeAt(nodes: seq<Node>, i: nat, y: string)
    requires Unique(nodes) && i < |nodes|
    ensures Edge(Table(nodes), nodes[i].id, y) <==> y in Ids(nodes) && y in nodes[i].deps
  {
    TableEntry(nodes, i);
  }

  lemma EnforcedEdges(actions: seq<Action>, x: string, y: string)
    requires Unique(Nodes(actions)) && Known(Nodes(actions))
    ensures Edge(Table(Nodes(Enforced(actions))), x, y) <==>
      Edge(Table(Nodes(actions)), x, y) || Injects(actions, x, y)
  {
    hide Table, Known, Unique, Injects, Edge;
    var ns, es := Nodes(actions), Nodes(Enforced(actions));
    EnforcedNodes(actions);
    if x in Ids(ns) {
      var n :| n in ns && n.id == x;
      var i :| 0 <= i < |ns| && ns[i] == n;
      EdgeAt(ns, i, y);
      EdgeAt(es, i, y);
      InjectsAt(actions, actions[i], y);
      assert y in es[i].deps <==> y in ns[i].deps || PairedWith(actions, actions[i], y);
    } else {
      NoEdge(ns, x, y);
      NoEdge(es, x, y);
    }
    if Injects(actions, x, y) { InjectsIsKnown(actions, x, y); }
  }

  lemma NoEdge(nodes: seq<Node>, x: string, y: string)
    requires x !in Ids(nodes)
    ensures !Edge(Table(nodes), x, y)
  {
  }

  lemma InjectsIsKnown(actions: seq<Action>, x: string, c: string)
    requires Injects(actions, x, c)
    ensures x in Ids(Nodes(actions)) && c in Ids(Nodes(actions))
  {
    var a :| a in actions && a.id == x && PairedWith(actions, a, c);
    CreateIsKnown(actions, a.capability);
    var i :| 0 <= i < |actions| && actions[i] == a;
    assert Nodes(actions)[i] in Nodes(actions);
  }

  lemma InjectsAt(actions: seq<Action>, a: Action, c: string)
    requires Unique(Nodes(actions)) && a in actions
    ensures Injects(actions, a.id, c) <==> PairedWith(actions, a, c)
  {
    hide PairedWith, Unique;
    forall b | b in actions && b.id == a.id
      ensures b == a
    {
      SameIdSameAction(actions, a, b);
    }
  }

  // ---- a ring is a cycle -----------------------------------------------------

  lemma DependsJoin(g: Deps, x: string, y: string, z: string)
    requires DependsOn(g, x, y) && DependsOn(g, y, z)
    ensures DependsOn(g, x, z)
  {
    var p :| Links(g, p, x, y);
    var q :| Links(g, q, y, z);
    var r := p + q[1..];
    forall i, j | 0 <= i && j == i + 1 < |r|
      ensures Edge(g, r[i], r[j])
    {
      if j < |p| {
        assert Edge(g, p[i], p[j]);
      } else {
        assert r[i] == q[i - |p| + 1] && r[j] == q[j - |p| + 1];
        assert Edge(g, q[i - |p| + 1], q[j - |p| + 1]);
      }
    }
    assert Links(g, r, x, z);
  }

  lemma StepThenPath(g: Deps, h: Deps, x: string, p: seq<string>)
    requires (forall a, b :: Edge(g, a, b) ==> Edge(h, a, b)) && Path(g, p) && Edge(h, x, p[0])
    ensures DependsOn(h, x, p[|p| - 1])
  {
    var q := [x] + p;
    forall i, j | 0 <= i && j == i + 1 < |q|
      ensures Edge(h, q[i], q[j])
    {
      if i > 0 { assert Edge(g, p[i - 1], p[j - 1]); }
    }
    assert Links(h, q, x, p[|p| - 1]);
  }

  lemma AwaitsDepends(actions: seq<Action>, x: string, y: string)
    requires Loaded(actions) && Awaits(actions, x, y)
    ensures DependsOn(Table(Nodes(Enforced(actions))), x, y)
  {
    hide Table, Injects, Cyclic, Edge, Path, Unique, Known;
    var g, h := Table(Nodes(actions)), Table(Nodes(Enforced(actions)));
    var c :| Injects(actions, x, c) && Reaches(g, c, y);
    var p := PathOf(g, c, y);
    EnforcedEdges(actions, x, c);
    forall a, b | Edge(g, a, b)
      ensures Edge(h, a, b)
    {
      EnforcedEdges(actions, a, b);
    }
    StepThenPath(g, h, x, p);
  }

  lemma PathOf(g: Deps, a: string, b: string) returns (p: seq<string>)
    requires Reaches(g, a, b)
    ensures |p| > 0 && Path(g, p) && p[0] == a && p[|p| - 1] == b
  {
    p :| Path(g, p) && p[0] == a && p[|p| - 1] == b;
  }

  lemma {:induction false} ChainDepends(actions: seq<Action>, r: seq<string>)
    requires Loaded(actions) && Chain(actions, r)
    ensures DependsOn(Table(Nodes(Enforced(actions))), r[0], r[|r| - 1])
    decreases |r|
  {
    hide Awaits, DependsOn, Table, Loaded;
    assert Awaits(actions, r[0], r[1]);
    AwaitsDepends(actions, r[0], r[1]);
    if |r| > 2 {
      var rest := r[1..];
      forall i, j | 0 <= i && j == i + 1 < |rest|
        ensures Awaits(actions, rest[i], rest[j])
      {
        assert Awaits(actions, r[i + 1], r[j + 1]);
      }
      ChainDepends(actions, rest);
      DependsJoin(Table(Nodes(Enforced(actions))), r[0], r[1], r[|r| - 1]);
    }
  }

  // ---- a cycle is a ring -----------------------------------------------------

  /** The first step of a path that is not an edge of the loaded plan, or the last index. */
  ghost function FirstInjected(g: Deps, q: seq<string>): (i: nat)
    requires |q| > 0
    ensures i < |q|
    ensures forall a, b :: 0 <= a && b == a + 1 <= i ==> Edge(g, q[a], q[b])
    ensures i < |q| - 1 ==> !Edge(g, q[i], q[i + 1])
  {
    if |q| == 1 || !Edge(g, q[0], q[1]) then 0 else 1 + FirstInjected(g, q[1..])
  }

  lemma NewEdgeIsInjected(actions: seq<Action>, x: string, y: string)
    requires Loaded(actions) && Edge(Table(Nodes(Enforced(actions))), x, y) && !Edge(Table(Nodes(actions)), x, y)
    ensures Injects(actions, x, y)
  {
    EnforcedEdges(actions, x, y);
  }

  lemma AwaitsAlong(actions: seq<Action>, x: string, q: seq<string>, i: nat)
    requires i < |q| && Injects(actions, x, q[0])
    requires forall a, b :: 0 <= a && b == a + 1 <= i ==> Edge(Table(Nodes(actions)), q[a], q[b])
    ensures Awaits(actions, x, q[i])
  {
    InjectsIsKnown(actions, x, q[0]);
    hide Table, Injects;
    var p := q[..i + 1];
    assert Path(Table(Nodes(actions)), p) && p[0] == q[0] && p[|p| - 1] == q[i];
  }

  lemma ChainGrows(actions: seq<Action>, x: string, r: seq<string>)
    requires r != [] && Awaits(actions, x, r[0]) && (|r| > 1 ==> Chain(actions, r))
    ensures Chain(actions, [x] + r)
  {
    hide Awaits;
    var s := [x] + r;
    forall a, b | 0 <= a && b == a + 1 < |s|
      ensures Awaits(actions, s[a], s[b])
    {
      if a > 0 { assert Awaits(actions, r[a - 1], r[b - 1]); }
    }
  }

  /** A path from an injected create onwards passes from delete to delete. */
  lemma {:induction false} PathChains(actions: seq<Action>, x: string, q: seq<string>) returns (r: seq<string>)
    requires Loaded(actions) && Path(Table(Nodes(Enforced(actions))), q) && Injects(actions, x, q[0])
    ensures |r| > 1 && Chain(actions, r) && r[0] == x && r[|r| - 1] == q[|q| - 1]
    decreases |q|
  {
    hide Table, Injects, Loaded, Awaits, Chain, Edge;
    var g, h := Table(Nodes(actions)), Table(Nodes(Enforced(actions)));
    var i := FirstInjected(g, q);
    AwaitsAlong(actions, x, q, i);
    if i == |q| - 1 {
      r := [x] + [q[i]];
      ChainGrows(actions, x, [q[i]]);
    } else {
      NewEdgeIsInjected(actions, q[i], q[i + 1]);
      PathTail(h, q, i + 1);
      var rest := PathChains(actions, q[i], q[i + 1..]);
      ChainGrows(actions, x, rest);
      r := [x] + rest;
    }
  }

  lemma CycleLeavesGraph(g: Deps, h: Deps, p: seq<string>) returns (i: nat)
    requires Cycle(h, p) && !Cyclic(g) && h.Keys == g.Keys
    ensures i < |p| - 1 && !Edge(g, p[i], p[i + 1])
  {
    i := FirstInjected(g, p);
    if i == |p| - 1 { assert Cycle(g, p); }
  }

  lemma OpenedAt(h: Deps, p: seq<string>, i: nat) returns (q: seq<string>)
    requires Cycle(h, p) && i < |p| - 1
    ensures Path(h, q) && q[0] == p[i + 1] && q[|q| - 1] == p[i]
    ensures Edge(h, p[i], p[i + 1])
  {
    PathRotates(h, p, i);
    q := p[i + 1..] + p[1..i + 1];
  }

  lemma CycleIsRing(actions: seq<Action>, p: seq<string>) returns (r: seq<string>)
    requires Loaded(actions) && Cycle(Table(Nodes(Enforced(actions))), p)
    ensures Ring(actions, r)
  {
    EnforcedNodes(actions);
    var g, h := Table(Nodes(actions)), Table(Nodes(Enforced(actions)));
    var i := CycleLeavesGraph(g, h, p);
    hide *;
    var q := OpenedAt(h, p, i);
    NewEdgeIsInjected(actions, p[i], p[i + 1]);
    r := PathChains(actions, p[i], q);
    RingCloses(actions, r);
  }

  lemma RingCloses(actions: seq<Action>, r: seq<string>)
    requires |r| > 1 && Chain(actions, r) && r[0] == r[|r| - 1]
    ensures Ring(actions, r)
  {
  }

  /** The injected edges close a cycle exactly when there is a ring. */
  lemma CyclicIffRing(actions: seq<Action>)
    requires Loaded(actions)
    ensures Cyclic(Table(Nodes(Enforced(actions)))) <==> exists r :: Ring(actions, r)
  {
    hide Loaded, Table;
    var h := Table(Nodes(Enforced(actions)));
    if p :| Cycle(h, p) {
      var r := CycleIsRing(actions, p);
    }
    if r :| Ring(actions, r) {
      ChainDepends(actions, r);
      var p :| Links(h, p, r[0], r[0]);
      assert Cycle(h, p);
    }
  }

  /**
   The executor can order a plan the loader accepted exactly when no replacements wait for each other's deletes in a
   ring: no create depends on its own paired delete, directly or through other replacements.
   */
  lemma OrderableExactlyWhen(actions: seq<Action>)
    requires Loaded(actions)
    ensures (exists k :: |Passes(Nodes(Enforced(actions)), k)| == |actions|) <==> !exists r :: Ring(actions, r)
  {
    EnforcedNodes(actions);
    hide Passes, Loaded, Unique, Known, Table, Cyclic, Ring;
    TopoOrderEndsIffAcyclic(Nodes(Enforced(actions)));
    CyclicIffRing(actions);
  }
}
