/**
 The suggestion of closest names (ref/groundholdlib/contract.py): the two-row edit-distance table, and the n least
 (distance, name) pairs.
 */
module EditDistance {
  import opened Prelude
  import opened Sorting

  function Min(x: nat, y: nat): nat {
    if x <= y then x else y
  }

  function Mismatch(c: char, d: char): nat {
    if c == d then 0 else 1
  }

  /** The table entry for two whole strings. */
  function Distance(a: string, b: string): nat
    decreases |a| + |b|
  {
    if a == "" then |b|
    else if b == "" then |a|
    else
      var a', b' := a[..|a| - 1], b[..|b| - 1];
      Min(Min(Distance(a, b') + 1, Distance(a', b) + 1), Distance(a', b') + Mismatch(a[|a| - 1], b[|b| - 1]))
  }

  lemma Border(a: string, b: string)
    ensures Distance(a, b[..0]) == |a|
    ensures forall j :: 0 <= j <= |b| ==> Distance(a[..0], b[..j]) == j
  {
    assert b[..0] == "" && a[..0] == "";
  }

  /** One inner entry, from its three neighbours. */
  lemma Cell(a: string, i: nat, b: string, j: nat)
    requires i < |a| && j < |b|
    ensures Distance(a[..i + 1], b[..j + 1])
      == Min(Min(Distance(a[..i + 1], b[..j]) + 1, Distance(a[..i], b[..j + 1]) + 1),
             Distance(a[..i], b[..j]) + Mismatch(a[i], b[j]))
  {
    hide Min, Mismatch;
    var s, t := a[..i + 1], b[..j + 1];
    assert s[..|s| - 1] == a[..i] && t[..|t| - 1] == b[..j] && s[|s| - 1] == a[i] && t[|t| - 1] == b[j];
  }

  /** `_edit_distance`: each row from the one before it. */
  method EditDistance(a: string, b: string) returns (d: nat)
    ensures d == Distance(a, b)
  {
    hide Distance;
    Border(a, b);
    var prev: seq<nat> := seq(|b| + 1, j => j);
    for i := 0 to |a|
      invariant |prev| == |b| + 1
      invariant forall j :: 0 <= j <= |b| ==> prev[j] == Distance(a[..i], b[..j])
    {
      var cur: seq<nat> := [i + 1];
      Border(a[..i + 1], b);
      for j := 0 to |b|
        invariant |cur| == j + 1
        invariant forall k :: 0 <= k <= j ==> cur[k] == Distance(a[..i + 1], b[..k])
      {
        Cell(a, i, b, j);
        cur := cur + [Min(Min(cur[j] + 1, prev[j + 1] + 1), prev[j] + Mismatch(a[i], b[j]))];
      }
      prev := cur;
    }
    assert a[..|a|] == a && b[..|b|] == b;
    d := prev[|b|];
  }

  // ---- edit scripts --------------------------------------------------------

  /** A script rewrites a string from its end. */
  datatype Script =
    | Done
    | Keep(before: Script)
    | Substitute(c: char, before: Script)
    | Insertion(c: char, before: Script)
    | Deletion(before: Script)

  function Cost(s: Script): nat {
    match s
    case Done => 0
    case Keep(r) => Cost(r)
    case Substitute(_, r) => Cost(r) + 1
    case Insertion(_, r) => Cost(r) + 1
    case Deletion(r) => Cost(r) + 1
  }

  function AppendTo(t: Option<string>, c: char): Option<string> {
    match t
    case None => None
    case Some(u) => Some(u + [c])
  }

  /** What a script makes of a string, or `None` if it does not fit. */
  function Rewrite(s: Script, a: string): Option<string> {
    match s
    case Done => if a == "" then Some("") else None
    case Keep(r) => if a == "" then None else AppendTo(Rewrite(r, a[..|a| - 1]), a[|a| - 1])
    case Substitute(c, r) => if a == "" then None else AppendTo(Rewrite(r, a[..|a| - 1]), c)
    case Insertion(c, r) => AppendTo(Rewrite(r, a), c)
    case Deletion(r) => if a == "" then None else Rewrite(r, a[..|a| - 1])
  }

  lemma {:induction false} DistanceIsAchieved(a: string, b: string) returns (s: Script)
    ensures Rewrite(s, a) == Some(b) && Cost(s) == Distance(a, b)
    decreases |a| + |b|
  {
    if a == "" && b == "" {
      s := Done;
    } else if a == "" {
      var r := DistanceIsAchieved(a, b[..|b| - 1]);
      assert b == b[..|b| - 1] + [b[|b| - 1]];
      s := Insertion(b[|b| - 1], r);
    } else if b == "" {
      var r := DistanceIsAchieved(a[..|a| - 1], b);
      s := Deletion(r);
    } else {
      var a', b', c := a[..|a| - 1], b[..|b| - 1], b[|b| - 1];
      assert b == b' + [c];
      if Distance(a, b) == Distance(a, b') + 1 {
        var r := DistanceIsAchieved(a, b');
        s := Insertion(c, r);
      } else if Distance(a, b) == Distance(a', b) + 1 {
        var r := DistanceIsAchieved(a', b);
        s := Deletion(r);
      } else {
        var r := DistanceIsAchieved(a', b');
        s := if a[|a| - 1] == c then Keep(r) else Substitute(c, r);
      }
    }
  }

  lemma {:induction false} DistanceIsLeast(s: Script, a: string, b: string)
    requires Rewrite(s, a) == Some(b)
    ensures Distance(a, b) <= Cost(s)
  {
    match s {
      case Done =>
      case Keep(r) => DistanceIsLeast(r, a[..|a| - 1], b[..|b| - 1]);
      case Substitute(_, r) => DistanceIsLeast(r, a[..|a| - 1], b[..|b| - 1]);
      case Insertion(_, r) => DistanceIsLeast(r, a, b[..|b| - 1]);
      case Deletion(r) =>
        DistanceIsLeast(r, a[..|a| - 1], b);
    }
  }

  /** The distance is the length of a shortest insert/delete/substitute script. */
  lemma DistanceIsOptimal(a: string, b: string)
    ensures exists s :: Rewrite(s, a) == Some(b) && Cost(s) == Distance(a, b)
    ensures forall s :: Rewrite(s, a) == Some(b) ==> Distance(a, b) <= Cost(s)
  {
    var s := DistanceIsAchieved(a, b);
    forall s | Rewrite(s, a) == Some(b)
      ensures Distance(a, b) <= Cost(s)
    {
      DistanceIsLeast(s, a, b);
    }
  }

  // ---- a metric ------------------------------------------------------------

  lemma {:induction false} ZeroIffEqual(a: string, b: string)
    ensures Distance(a, b) == 0 <==> a == b
    decreases |a|
  {
    if a != "" && b != "" {
      var n, m := |a| - 1, |b| - 1;
      ZeroIffEqual(a[..n], b[..m]);
      assert a == a[..n] + [a[n]] && b == b[..m] + [b[m]];
    }
  }

  lemma {:induction false} Symmetric(a: string, b: string)
    ensures Distance(a, b) == Distance(b, a)
    decreases |a| + |b|
  {
    if a != "" && b != "" {
      Symmetric(a, b[..|b| - 1]);
      Symmetric(a[..|a| - 1], b);
      Symmetric(a[..|a| - 1], b[..|b| - 1]);
    }
  }

  /** First `s`, then `t`, as one script. */
  function Compose(s: Script, t: Script): Script
    decreases s, t
  {
    if t.Done? then s
    else if t.Insertion? then Insertion(t.c, Compose(s, t.before))
    else if s.Done? then Done
    else if s.Deletion? then Deletion(Compose(s.before, t))
    else
      var rest := Compose(s.before, t.before);
      if t.Keep? then s.(before := rest)
      else if t.Substitute? then if s.Insertion? then Insertion(t.c, rest) else Substitute(t.c, rest)
      else if s.Insertion? then rest
      else Deletion(rest)
  }

  lemma {:induction false} ComposeRewrites(s: Script, t: Script, a: string, b: string, c: string)
    requires Rewrite(s, a) == Some(b) && Rewrite(t, b) == Some(c)
    ensures Rewrite(Compose(s, t), a) == Some(c)
    ensures Cost(Compose(s, t)) <= Cost(s) + Cost(t)
    decreases s, t
  {
    if t.Insertion? {
      ComposeRewrites(s, t.before, a, b, c[..|c| - 1]);
    } else if t.Done? {
    } else {
      var b' := b[..|b| - 1];
      var c' := if t.Deletion? then c else c[..|c| - 1];
      match s {
        case Deletion(r) => ComposeRewrites(r, t, a[..|a| - 1], b, c);
        case Insertion(_, r) => ComposeRewrites(r, t.before, a, b', c');
        case Keep(r) => ComposeRewrites(r, t.before, a[..|a| - 1], b', c');
        case Substitute(_, r) => ComposeRewrites(r, t.before, a[..|a| - 1], b', c');
        case Done =>
      }
    }
  }

  lemma Triangle(a: string, b: string, c: string)
    ensures Distance(a, c) <= Distance(a, b) + Distance(b, c)
  {
    var s := DistanceIsAchieved(a, b);
    var t := DistanceIsAchieved(b, c);
    ComposeRewrites(s, t, a, b, c);
    DistanceIsLeast(Compose(s, t), a, c);
  }

  // ---- the nearest names ---------------------------------------------------

  datatype Ranked = Ranked(distance: nat, name: string)

  /** Pairs compare by distance, then by name. */
  predicate RankLe(x: Ranked, y: Ranked) {
    x.distance < y.distance || (x.distance == y.distance && (x.name == y.name || StrLess(x.name, y.name)))
  }

  lemma RankIsTotal()
    ensures TotalPreorder(RankLe)
  {
    forall x, y
      ensures RankLe(x, y) || RankLe(y, x)
    {
      StrLessTrichotomy(x.name, y.name);
    }
    forall x, y, z | RankLe(x, y) && RankLe(y, z)
      ensures RankLe(x, z)
    {
      if StrLess(x.name, y.name) && StrLess(y.name, z.name) { StrLessTransitive(x.name, y.name, z.name); }
    }
  }

  function Ranks(want: string, known: seq<string>): (r: seq<Ranked>)
    ensures |r| == |known|
  {
    seq(|known|, i requires 0 <= i < |known| => Ranked(Distance(want, known[i]), known[i]))
  }

  lemma RanksAreDistances(want: string, known: seq<string>, sorted: seq<Ranked>)
    requires multiset(sorted) == multiset(Ranks(want, known))
    ensures forall r :: r in sorted ==> r.name in known && r.distance == Distance(want, r.name)
  {
    hide Distance;
    forall r | r in sorted
      ensures r.name in known && r.distance == Distance(want, r.name)
    {
      assert r in multiset(Ranks(want, known));
      var i :| 0 <= i < |known| && Ranks(want, known)[i] == r;
      assert known[i] in known;
    }
  }

  /** A lesser rank is a lesser distance, and among equal distances not a greater name. */
  lemma RankOrders()
    ensures forall x, y :: RankLe(x, y) ==>
      x.distance <= y.distance && (x.distance == y.distance ==> !StrLess(y.name, x.name))
  {
    forall x, y | RankLe(x, y)
      ensures x.distance <= y.distance && (x.distance == y.distance ==> !StrLess(y.name, x.name))
    {
      StrLessTrichotomy(x.name, y.name);
    }
  }

  /** `_nearest_types`: sort the pairs and keep the first `n`. */
  method NearestTypes(want: string, known: seq<string>, n: nat) returns (near: seq<Ranked>, ghost rest: seq<Ranked>)
    ensures |near| == Min(n, |known|)
    ensures SortedBy(RankLe, near) && multiset(near) + multiset(rest) == multiset(Ranks(want, known))
    ensures forall x, y :: x in near && y in rest ==> RankLe(x, y)
    ensures forall r :: r in near ==> r.name in known && r.distance == Distance(want, r.name)
    ensures forall i, j :: 0 <= i < j < |near| ==> near[i].distance <= near[j].distance
    ensures forall i, j :: 0 <= i < j < |near| && near[i].distance == near[j].distance ==>
      !StrLess(near[j].name, near[i].name)
    ensures forall x, y :: x in near && y in rest ==> x.distance <= y.distance
  {
    var pairs: seq<Ranked> := [];
    for i := 0 to |known|
      invariant pairs == Ranks(want, known[..i])
    {
      var d := EditDistance(want, known[i]);
      pairs := pairs + [Ranked(d, known[i])];
    }
    assert known[..|known|] == known;
    RankIsTotal();
    SortSorts(RankLe, pairs);
    var sorted := Sort(RankLe, pairs);
    MultisetLength(sorted, pairs);
    var k := Min(n, |sorted|);
    near, rest := sorted[..k], sorted[k..];
    assert sorted == near + rest;
    RanksAreDistances(want, known, sorted);
    RankOrders();
  }
}
