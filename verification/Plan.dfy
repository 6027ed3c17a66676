/**
 Sealed-plan actions as the executor reads them, and the two facts it re-derives from their structure before
 running: the create-before-destroy edge and the identity a replacement replaces (go/internal/apply/apply.go).
 */
module Plan {
  import opened Graph

  datatype Operation = Create | Update | Delete | Claim

  /** Empty strings and 0 stand for absent optional fields; `successorOf` is the plan's `replaces.providerId`. */
  datatype Action = Action(
    id: string,
    capability: string,
    operation: Operation,
    target: string,
    key: string,
    deps: seq<string>,
    targetId: string,
    targetGeneration: int,
    successorOf: string)

  function NodeOf(a: Action): Node {
    Node(a.id, a.deps)
  }

  function Nodes(actions: seq<Action>): (ns: seq<Node>)
    ensures |ns| == |actions| && forall i :: 0 <= i < |ns| ==> ns[i] == NodeOf(actions[i])
  {
    seq(|actions|, i requires 0 <= i < |actions| => NodeOf(actions[i]))
  }

  /** The id of the last create of each capability. */
  function CreateIds(actions: seq<Action>): map<string, string> {
    if actions == [] then map[]
    else
      var past, a := CreateIds(actions[..|actions| - 1]), actions[|actions| - 1];
      if a.operation.Create? && a.capability != "" && a.id != "" then past[a.capability := a.id] else past
  }

  /** A delete of a capability the plan also creates waits for that create. */
  function WithEdge(creates: map<string, string>, a: Action): Action {
    if a.operation.Delete? && a.capability in creates && creates[a.capability] !in a.deps
    then a.(deps := a.deps + [creates[a.capability]])
    else a
  }

  function Enforced(actions: seq<Action>): (r: seq<Action>)
    ensures |r| == |actions|
  {
    var creates := CreateIds(actions);
    seq(|actions|, i requires 0 <= i < |actions| => WithEdge(creates, actions[i]))
  }

  /** `enforceReplaceOrdering`: the edges are added to the actions in place. */
  method EnforceReplaceOrdering(actions: array<Action>)
    modifies actions
    ensures actions[..] == Enforced(old(actions[..]))
  {
    ghost var before := actions[..];
    var createId: map<string, string> := map[];
    for i := 0 to actions.Length
      invariant actions[..] == before
      invariant createId == CreateIds(before[..i])
    {
      var a := actions[i];
      assert before[..i + 1][..i] == before[..i];
      if a.operation.Create? && a.capability != "" && a.id != "" {
        createId := createId[a.capability := a.id];
      }
    }
    assert before[..actions.Length] == before;
    for i := 0 to actions.Length
      invariant forall k :: 0 <= k < i ==> actions[k] == WithEdge(createId, before[k])
      invariant forall k :: i <= k < actions.Length ==> actions[k] == before[k]
    {
      var a := actions[i];
      if a.operation.Delete? && a.capability in createId {
        var cid := createId[a.capability];
        var found := false;
        for j := 0 to |a.deps|
          invariant found <==> cid in a.deps[..j]
        {
          if a.deps[j] == cid { found := true; }
        }
        assert a.deps[..|a.deps|] == a.deps;
        if !found { actions[i] := a.(deps := a.deps + [cid]); }
      }
    }
  }

  /** The identity the paired delete pins, for a capability the plan both creates and deletes; else "". */
  function ReplacedId(actions: seq<Action>, cap: string): string {
    if exists a :: a in actions && a.operation.Create? && a.capability == cap then LastTarget(actions, cap) else ""
  }

  function LastTarget(actions: seq<Action>, cap: string): string {
    if actions == [] then ""
    else
      var a := actions[|actions| - 1];
      if a.operation.Delete? && a.capability == cap && a.targetId != "" then a.targetId
      else LastTarget(actions[..|actions| - 1], cap)
  }

  /** `replacedIDByCap`, as its two loops. */
  method ReplacedIdByCap(actions: seq<Action>) returns (out: map<string, string>)
    ensures forall cap :: ReplacedId(actions, cap) == if cap in out then out[cap] else ""
  {
    var hasCreate: set<string> := {};
    for i := 0 to |actions|
      invariant forall cap :: cap in hasCreate <==>
        exists a :: a in actions[..i] && a.operation.Create? && a.capability == cap
    {
      assert actions[..i + 1] == actions[..i] + [actions[i]];
      if actions[i].operation.Create? {
        assert actions[i] in actions[..i + 1];
        hasCreate := hasCreate + {actions[i].capability};
      }
    }
    assert actions[..|actions|] == actions;
    out := map[];
    for i := 0 to |actions|
      invariant forall cap :: cap in hasCreate ==> LastTarget(actions[..i], cap) == if cap in out then out[cap] else ""
      invariant forall cap :: cap !in hasCreate ==> cap !in out
    {
      assert actions[..i + 1][..i] == actions[..i];
      var a := actions[i];
      if a.operation.Delete? && a.capability in hasCreate && a.targetId != "" {
        out := out[a.capability := a.targetId];
      }
    }
  }

  // ---- what the injected edge promises, and what it can break ---------------

  lemma {:induction false} CreateIdsSpec(actions: seq<Action>, cap: string)
    ensures cap in CreateIds(actions) <==>
      exists a :: a in actions && a.operation.Create? && a.capability == cap && cap != "" && a.id != ""
    ensures cap in CreateIds(actions) ==>
      exists a :: a in actions && a.operation.Create? && a.capability == cap && a.id == CreateIds(actions)[cap]
  {
    if actions != [] {
      var n := |actions| - 1;
      CreateIdsSpec(actions[..n], cap);
      assert actions == actions[..n] + [actions[n]];
    }
  }

  predicate CreatesOn(a: Action, cap: string) {
    a.operation.Create? && a.capability == cap && cap != "" && a.id != ""
  }

  /** The create at `i` is the last one of the capability. */
  ghost predicate LastCreate(actions: seq<Action>, cap: string, i: int) {
    0 <= i < |actions| && CreatesOn(actions[i], cap) && forall j :: i < j < |actions| ==> !CreatesOn(actions[j], cap)
  }

  lemma {:induction false} CreateIdsAreLast(actions: seq<Action>, cap: string)
    ensures cap in CreateIds(actions) <==> exists i :: LastCreate(actions, cap, i)
    ensures forall i :: LastCreate(actions, cap, i) ==> CreateIds(actions)[cap] == actions[i].id
  {
    if actions != [] {
      var n := |actions| - 1;
      CreateIdsAreLast(actions[..n], cap);
      if CreatesOn(actions[n], cap) {
        assert LastCreate(actions, cap, n);
      } else {
        forall i
          ensures LastCreate(actions, cap, i) <==> LastCreate(actions[..n], cap, i)
        {
        }
      }
    }
  }

  /** A delete is made to wait for the last create of its capability, if the plan has one and the delete does not wait
      for it already; every other action is left as it is. */
  lemma EdgeToLastCreate(actions: seq<Action>, k: nat)
    requires k < |actions|
    ensures forall i :: actions[k].operation.Delete? && LastCreate(actions, actions[k].capability, i) ==>
      Enforced(actions)[k].deps
        == actions[k].deps + if actions[i].id in actions[k].deps then [] else [actions[i].id]
    ensures !actions[k].operation.Delete? || !(exists i :: LastCreate(actions, actions[k].capability, i)) ==>
      Enforced(actions)[k] == actions[k]
  {
    CreateIdsAreLast(actions, actions[k].capability);
  }

  /** Every delete of a replaced capability depends on its only create, whatever the plan said. */
  lemma EdgeIsThere(actions: seq<Action>, c: Action, x: nat)
    requires c in actions && c.operation.Create? && c.capability != "" && c.id != ""
    requires forall a :: a in actions && a.operation.Create? && a.capability == c.capability ==> a == c
    requires x < |actions| && actions[x].operation.Delete? && actions[x].capability == c.capability
    ensures c.id in Enforced(actions)[x].deps
  {
    CreateIdsSpec(actions, c.capability);
  }

  /** Nothing else about an action changes, no dependency is lost, and at most one that was missing is added. */
  lemma EnforcedKeeps(actions: seq<Action>, i: nat)
    requires i < |actions|
    ensures var r := Enforced(actions)[i]; r == actions[i].(deps := r.deps) && actions[i].deps <= r.deps
    ensures var r := Enforced(actions)[i];
      r.deps != actions[i].deps ==>
        r.operation.Delete? && exists c :: c !in actions[i].deps && r.deps == actions[i].deps + [c]
  {
  }

  ghost predicate Reaches(g: Deps, a: string, b: string) {
    exists p :: Path(g, p) && p[0] == a && p[|p| - 1] == b
  }

  /** Turning a cycle so that it starts just after step `i`. */
  lemma PathRotates(g: Deps, p: seq<string>, i: nat)
    requires Cycle(g, p) && i < |p| - 1
    ensures Path(g, p[i + 1..] + p[1..i + 1])
  {
    var a, b := p[i + 1..], p[1..i + 1];
    var q := a + b;
    forall k, j | 0 <= k && j == k + 1 < |q|
      ensures Edge(g, q[k], q[j])
    {
      if j < |a| {
        assert Edge(g, p[i + 1 + k], p[i + 1 + j]);
      } else if k >= |a| {
        assert Edge(g, p[1 + k - |a|], p[1 + j - |a|]);
      } else {
        assert q[k] == p[|p| - 1] && q[j] == p[1];
        assert Edge(g, p[0], p[1]);
      }
    }
    assert i + 1 < |p| && Edge(g, p[i], p[i + 1]);
  }

  // ---- a plan the loader accepts and the executor cannot order ---------------

  const BACKWARDS := [
    Action("old", "db", Delete, "gcp.sql/db", "k1", [], "db-1", 1, ""),
    Action("new", "db", Create, "gcp.sql/db", "k2", ["old"], "", 0, "db-1")]

  /**
   The edge is added after the loader's cycle check. A plan whose create waits for its own paired delete
   passes that check, and no number of passes orders what the executor then runs.
   */
  lemma InjectionCanMakeCycle()
    ensures Unique(Nodes(BACKWARDS)) && Known(Nodes(BACKWARDS)) && !Cyclic(Table(Nodes(BACKWARDS)))
    ensures forall k :: |Passes(Nodes(Enforced(BACKWARDS)), k)| < |Nodes(Enforced(BACKWARDS))|
  {
    BackwardsLoads();
    BackwardsEnforced();
    var es := Nodes(Enforced(BACKWARDS));
    assert "new" in es[0].deps && "old" in es[1].deps;
    assert !Ready(es[0], []) && !Ready(es[1], []);
    assert es[1..][0] == es[1] && es[1..][1..] == [];
    assert Pass(es, []) == Pass(es[1..], []) == Pass([], []);
    forall k
      ensures |Passes(es, k)| < |es|
    {
      PassesStay(es, k);
    }
  }

  lemma ChainOfTwo(x: string, y: string)
    requires x != y
    ensures var ns := [Node(x, []), Node(y, [x])];
      Unique(ns) && Known(ns) && Passes(ns, 1) == [x, y]
  {
    var ns := [Node(x, []), Node(y, [x])];
    assert Ids(ns) == {x, y} by { assert ns[0] in ns && ns[1] in ns; }
    assert ns[1..] == [ns[1]] && ns[1..][1..] == [];
    assert Ready(ns[0], []) && Ready(ns[1], [x]);
    assert [] + [x] == [x] && [x] + [y] == [x, y];
    assert Pass(ns, []) == Pass(ns[1..], [x]) == Pass([], [x, y]);
    assert Passes(ns, 1) == Pass(ns, Passes(ns, 0));
  }

  lemma BackwardsLoads()
    ensures Unique(Nodes(BACKWARDS)) && Known(Nodes(BACKWARDS)) && !Cyclic(Table(Nodes(BACKWARDS)))
  {
    hide Passes, Cyclic;
    var ns := Nodes(BACKWARDS);
    assert ns == [Node("old", []), Node("new", ["old"])];
    assert "new"[0] != "old"[0];
    ChainOfTwo("old", "new");
    assert |Passes(ns, 1)| == |ns|;
    TopoOrderEndsIffAcyclic(ns);
  }

  lemma BackwardsEnforced()
    ensures Nodes(Enforced(BACKWARDS)) == [Node("old", ["new"]), Node("new", ["old"])]
  {
    var b := BACKWARDS;
    assert b[..1][..0] == [] && b[..2][..1] == b[..1] && b[..2] == b;
    assert b[0].operation == Delete && b[1].operation == Create && b[1].capability == "db" && b[1].id == "new";
    assert CreateIds(b[..1]) == map[];
    assert CreateIds(b) == map["db" := "new"];
    assert "new" !in b[0].deps;
    assert Enforced(b)[0].deps == ["new"];
  }

  lemma {:induction false} PassesStay(nodes: seq<Node>, k: nat)
    requires Pass(nodes, []) == []
    ensures Passes(nodes, k) == []
  {
    if k > 0 { PassesStay(nodes, k - 1); }
  }
}
