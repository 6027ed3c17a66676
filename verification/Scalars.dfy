/**
 Typed scalars and the comparison operators (ref/groundholdlib/scalars.py), with the identity of a
 scalar under the canonical form (`_scalar_model` in ref/groundholdlib/canonical.py).
 A TypeMismatch is the third truth value `U`.
 */
module Scalars {
  import opened Canonical

  /** `raw` is the printed spelling the value was parsed from; it is never compared. */
  datatype Scalar = Scalar(v: Typed, raw: string)

  datatype Typed =
    | Duration(ms: real)
    | Money(amount: real, currency: string)
    | Percent(pct: real)
    | Bytes(count: int)
    | Protocol(name: string, major: int, minor: int, patch: int)
    | Boolean(b: bool)
    | Number(num: real)
    | Text(s: string)
    | Listed(items: seq<Scalar>)

  function Kind(t: Typed): string {
    match t
    case Duration(_) => "duration"
    case Money(_, _) => "money"
    case Percent(_) => "percent"
    case Bytes(_) => "bytes"
    case Protocol(_, _, _, _) => "protocol"
    case Boolean(_) => "bool"
    case Number(_) => "number"
    case Text(_) => "string"
    case Listed(_) => "list"
  }

  /** Canonical equality: spelling is ignored, lists compare position by position. */
  predicate ValueEqual(a: Scalar, b: Scalar)
    decreases a
  {
    if a.v.Listed? && b.v.Listed? then
      && |a.v.items| == |b.v.items|
      && forall i :: 0 <= i < |a.v.items| ==> ValueEqual(a.v.items[i], b.v.items[i])
    else
      a.v == b.v
  }

  // ---- identity ------------------------------------------------------------

  /** `_scalar_model`: the tree a scalar is hashed as, tagged by kind. */
  function Model(a: Scalar): (v: Value)
    ensures v.Dict? && "kind" in v.entries && v.entries["kind"] == Str(Kind(a.v))
    decreases a, 2
  {
    Dict(Fields(a)["kind" := Str(Kind(a.v))])
  }

  function Fields(a: Scalar): map<string, Value>
    decreases a, 1
  {
    match a.v
    case Duration(ms) => map["ms" := Real(ms)]
    case Money(amount, currency) => map["amount" := Real(amount), "currency" := Str(currency)]
    case Percent(p) => map["value" := Real(p)]
    case Bytes(n) => map["bytes" := Int(n)]
    case Protocol(name, major, minor, patch) =>
      map["name" := Str(name), "major" := Int(major), "minor" := Int(minor), "patch" := Int(patch)]
    case Boolean(b) => map["value" := Bool(b)]
    case Number(n) => map["value" := Real(n)]
    case Text(s) => map["value" := Str(s)]
    case Listed(items) => map["items" := List(Models(a, items))]
  }

  function Models(parent: Scalar, items: seq<Scalar>): (r: seq<Value>)
    requires forall i :: 0 <= i < |items| ==> items[i] < parent
    ensures |r| == |items| && forall i :: 0 <= i < |items| ==> r[i] == Model(items[i])
    decreases parent, 0, |items|
  {
    if |items| == 0 then [] else [Model(items[0])] + Models(parent, items[1..])
  }

  lemma DictFields(v: Value, w: Value)
    requires v.Dict? && w.Dict? && Accepts(v) && Accepts(w) && v.entries.Keys == w.entries.Keys
    ensures Norm(v) == Norm(w) <==> forall k :: k in v.entries ==> Norm(v.entries[k]) == Norm(w.entries[k])
  {
    var n, m := Norm(v).entries, Norm(w).entries;
    assert n.Keys == v.entries.Keys && m.Keys == w.entries.Keys;
    assert forall k :: k in v.entries ==> n[k] == Norm(v.entries[k]) && m[k] == Norm(w.entries[k]);
  }

  lemma NumberFields(v: Value, w: Value)
    requires (v.Int? || v.Real?) && (w.Int? || w.Real?) && Accepts(v) && Accepts(w)
    ensures Norm(v) == Norm(w) <==> NumberOf(v) == NumberOf(w)
  {
    NumStrInjective(v, w);
  }

  lemma ListFields(v: Value, w: Value)
    requires v.List? && w.List? && Accepts(v) && Accepts(w)
    ensures Norm(v) == Norm(w) <==>
      |v.items| == |w.items| && forall i :: 0 <= i < |v.items| ==> Norm(v.items[i]) == Norm(w.items[i])
  {
    var n, m := Norm(v).items, Norm(w).items;
    assert |n| == |v.items| && |m| == |w.items|;
    assert forall i :: 0 <= i < |n| ==> n[i] == Norm(v.items[i]);
    assert forall i :: 0 <= i < |m| ==> m[i] == Norm(w.items[i]);
  }

  lemma NormField(v: Value, k: string)
    requires v.Dict? && Accepts(v) && k in v.entries
    ensures k in Norm(v).entries && Norm(v).entries[k] == Norm(v.entries[k])
  {
  }

  lemma DifferentKinds(a: Scalar, b: Scalar)
    requires Accepts(Model(a)) && Accepts(Model(b)) && Kind(a.v) != Kind(b.v)
    ensures Norm(Model(a)) != Norm(Model(b))
  {
    NormField(Model(a), "kind");
    NormField(Model(b), "kind");
  }

  /** A model with one field beside its kind is identified by that field. */
  lemma OneField(a: Scalar, b: Scalar, k: string)
    requires Accepts(Model(a)) && Accepts(Model(b)) && Kind(a.v) == Kind(b.v)
    requires Fields(a).Keys == {k} && Fields(b).Keys == {k} && k != "kind"
    ensures Accepts(Fields(a)[k]) && Accepts(Fields(b)[k])
    ensures Norm(Model(a)) == Norm(Model(b)) <==> Norm(Fields(a)[k]) == Norm(Fields(b)[k])
  {
    var v, w := Model(a), Model(b);
    assert k in v.entries && k in w.entries;
    DictFields(v, w);
    assert forall j :: j in v.entries ==> j == k || j == "kind";
  }

  lemma NumberFieldAgrees(v: Value, w: Value, k: string)
    requires v.Dict? && w.Dict? && Accepts(v) && Accepts(w) && Norm(v) == Norm(w)
    requires k in v.entries && k in w.entries
    requires v.entries[k].Int? || v.entries[k].Real?
    requires w.entries[k].Int? || w.entries[k].Real?
    ensures NumberOf(v.entries[k]) == NumberOf(w.entries[k])
  {
    NormField(v, k);
    NormField(w, k);
    NumberFields(v.entries[k], w.entries[k]);
  }

  lemma NumericIdentity(a: Scalar, b: Scalar, k: string)
    requires Accepts(Model(a)) && Accepts(Model(b)) && Kind(a.v) == Kind(b.v)
    requires Fields(a).Keys == {k} && Fields(b).Keys == {k} && k != "kind"
    requires (Fields(a)[k].Int? || Fields(a)[k].Real?) && (Fields(b)[k].Int? || Fields(b)[k].Real?)
    requires NumberOf(Fields(a)[k]) == NumberOf(Fields(b)[k]) <==> a.v == b.v
    ensures Norm(Model(a)) == Norm(Model(b)) <==> a.v == b.v
  {
    OneField(a, b, k);
    NumberFields(Fields(a)[k], Fields(b)[k]);
  }

  lemma MoneyIdentity(a: Scalar, b: Scalar)
    requires Accepts(Model(a)) && Accepts(Model(b)) && a.v.Money? && b.v.Money?
    ensures Norm(Model(a)) == Norm(Model(b)) <==> a.v == b.v
  {
    var v, w := Model(a), Model(b);
    assert Fields(a) == map["amount" := Real(a.v.amount), "currency" := Str(a.v.currency)];
    assert Fields(b) == map["amount" := Real(b.v.amount), "currency" := Str(b.v.currency)];
    if Norm(v) == Norm(w) {
      NumberFieldAgrees(v, w, "amount");
      NormField(v, "currency");
      NormField(w, "currency");
    }
  }

  lemma ProtocolIdentity(a: Scalar, b: Scalar)
    requires Accepts(Model(a)) && Accepts(Model(b)) && a.v.Protocol? && b.v.Protocol?
    ensures Norm(Model(a)) == Norm(Model(b)) <==> a.v == b.v
  {
    if a.v == b.v {
      assert Model(a) == Model(b) by { hide Norm, Accepts; }
    } else if Norm(Model(a)) == Norm(Model(b)) {
      ProtocolTreeFixesIt(a, b);
    }
  }

  lemma ProtocolTreeFixesIt(a: Scalar, b: Scalar)
    requires Accepts(Model(a)) && Accepts(Model(b)) && a.v.Protocol? && b.v.Protocol?
    requires Norm(Model(a)) == Norm(Model(b))
    ensures a.v == b.v
  {
    hide Norm, Model, Accepts;
    ProtocolFields(a);
    ProtocolFields(b);
    var v, w := Model(a), Model(b);
    NumberFieldAgrees(v, w, "major");
    NumberFieldAgrees(v, w, "minor");
    NumberFieldAgrees(v, w, "patch");
    NormField(v, "name");
    NormField(w, "name");
    NormOfStr(a.v.name);
    NormOfStr(b.v.name);
  }

  lemma NormOfStr(s: string)
    ensures Norm(Str(s)) == Str(s)
  {
  }

  lemma ProtocolFields(a: Scalar)
    requires a.v.Protocol?
    ensures var m := Model(a).entries;
      && "name" in m && m["name"] == Str(a.v.name)
      && "major" in m && m["major"] == Int(a.v.major)
      && "minor" in m && m["minor"] == Int(a.v.minor)
      && "patch" in m && m["patch"] == Int(a.v.patch)
  {
    var Protocol(name, major, minor, patch) := a.v;
    assert Fields(a) == map["name" := Str(name), "major" := Int(major), "minor" := Int(minor), "patch" := Int(patch)];
  }

  /** The length of a kind's name and its first character. */
  function TagOf(t: Typed): (nat, char) {
    match t
    case Duration(_) => (8, 'd')
    case Money(_, _) => (5, 'm')
    case Percent(_) => (7, 'p')
    case Bytes(_) => (5, 'b')
    case Protocol(_, _, _, _) => (8, 'p')
    case Boolean(_) => (4, 'b')
    case Number(_) => (6, 'n')
    case Text(_) => (6, 's')
    case Listed(_) => (4, 'l')
  }

  /** The names of the kinds, told apart by those. */
  lemma KindHasTag(t: Typed)
    ensures |Kind(t)| > 0 && TagOf(t) == (|Kind(t)|, Kind(t)[0])
  {
  }

  lemma KindIsTag(t: Typed, u: Typed)
    requires Kind(t) == Kind(u)
    ensures (t.Duration? <==> u.Duration?) && (t.Money? <==> u.Money?) && (t.Percent? <==> u.Percent?)
    ensures (t.Bytes? <==> u.Bytes?) && (t.Protocol? <==> u.Protocol?) && (t.Boolean? <==> u.Boolean?)
    ensures (t.Number? <==> u.Number?) && (t.Text? <==> u.Text?) && (t.Listed? <==> u.Listed?)
  {
    KindHasTag(t);
    KindHasTag(u);
    hide Kind;
  }

  lemma {:induction false} NormModelIdentity(a: Scalar, b: Scalar)
    requires Accepts(Model(a)) && Accepts(Model(b))
    ensures Norm(Model(a)) == Norm(Model(b)) <==> ValueEqual(a, b)
    decreases a, 1
  {
    if Kind(a.v) != Kind(b.v) {
      DifferentKinds(a, b);
    } else {
      KindIsTag(a.v, b.v);
      match a.v {
        case Money(_, _) => MoneyIdentity(a, b);
        case Protocol(_, _, _, _) => ProtocolIdentity(a, b);
        case Listed(_) => OneField(a, b, "items"); ListIdentity(a, b);
        case Duration(_) => NumericIdentity(a, b, "ms");
        case Bytes(_) => NumericIdentity(a, b, "bytes");
        case Percent(_) => NumericIdentity(a, b, "value");
        case Number(_) => NumericIdentity(a, b, "value");
        case Boolean(_) => OneField(a, b, "value");
        case Text(_) => OneField(a, b, "value");
      }
    }
  }

  lemma {:induction false} ListIdentity(a: Scalar, b: Scalar)
    requires Accepts(Model(a)) && Accepts(Model(b)) && a.v.Listed? && b.v.Listed?
    requires Accepts(Fields(a)["items"]) && Accepts(Fields(b)["items"])
    ensures Norm(Fields(a)["items"]) == Norm(Fields(b)["items"]) <==> ValueEqual(a, b)
    decreases a, 0
  {
    var v, w := Fields(a)["items"], Fields(b)["items"];
    var items, items' := a.v.items, b.v.items;
    ListFields(v, w);
    if |items| == |items'| {
      forall i | 0 <= i < |items|
        ensures Norm(v.items[i]) == Norm(w.items[i]) <==> ValueEqual(items[i], items'[i])
      {
        assert v.items[i] in v.items && w.items[i] in w.items;
        NormModelIdentity(items[i], items'[i]);
      }
    }
  }

  /** Two scalars that both have a canonical form share it exactly when the engine calls them equal. */
  lemma IdentityAgreesWithEquality(a: Scalar, b: Scalar)
    requires Canon(Model(a)).Some? && Canon(Model(b)).Some?
    ensures Canon(Model(a)) == Canon(Model(b)) <==> ValueEqual(a, b)
  {
    CanonInjective(Model(a), Model(b));
    NormModelIdentity(a, b);
  }

  // ---- three-valued operators ----------------------------------------------

  /** The outcome of a comparison: true, false, or refused (TypeMismatch). */
  datatype Kleene = T | F | U

  function Not3(k: Kleene): Kleene {
    match k
    case T => F
    case F => T
    case U => U
  }

  function Truth(b: bool): Kleene {
    if b then T else F
  }

  /** Strong-Kleene conjunction: a definite false wins, then a refusal. */
  function All3(ks: seq<Kleene>): Kleene {
    if F in ks then F else if U in ks then U else T
  }

  /** Strong-Kleene disjunction: a definite true wins, then a refusal. */
  function Any3(ks: seq<Kleene>): Kleene {
    if T in ks then T else if U in ks then U else F
  }

  function SameKind(a: Scalar, b: Scalar): bool {
    Kind(a.v) == Kind(b.v) && (a.v.Money? ==> a.v.currency == b.v.currency)
  }

  /** `equals`. */
  function Eq3(a: Scalar, b: Scalar): Kleene
    decreases a, 1
  {
    if !SameKind(a, b) then U
    else if a.v.Listed? then
      if |a.v.items| != |b.v.items| then F else All3(Eq3s(a, a.v.items, b.v.items))
    else Truth(a.v == b.v)
  }

  function Eq3s(parent: Scalar, xs: seq<Scalar>, ys: seq<Scalar>): (r: seq<Kleene>)
    requires |xs| == |ys| && forall i :: 0 <= i < |xs| ==> xs[i] < parent
    ensures |r| == |xs| && forall i :: 0 <= i < |xs| ==> r[i] == Eq3(xs[i], ys[i])
    decreases parent, 0, |xs|
  {
    if |xs| == 0 then [] else [Eq3(xs[0], ys[0])] + Eq3s(parent, xs[1..], ys[1..])
  }

  /** The comparisons `a == x` for each element of a list. */
  function Matches(a: Scalar, xs: seq<Scalar>): seq<Kleene> {
    seq(|xs|, i requires 0 <= i < |xs| => Eq3(a, xs[i]))
  }

  /** `in`: a disjunction of comparisons, except that an empty list has nothing comparable. */
  function In3(a: Scalar, b: Scalar): Kleene {
    if !b.v.Listed? || b.v.items == [] then U else Any3(Matches(a, b.v.items))
  }

  function Members(xs: seq<Scalar>, b: Scalar): seq<Kleene> {
    seq(|xs|, i requires 0 <= i < |xs| => In3(xs[i], b))
  }

  /** `subset-of`: every element of `a` is in `b`. */
  function Subset3(a: Scalar, b: Scalar): Kleene {
    if !a.v.Listed? || !b.v.Listed? then U else All3(Members(a.v.items, b))
  }

  predicate Orderable(t: Typed) {
    t.Duration? || t.Money? || t.Percent? || t.Bytes? || t.Number?
  }

  function Ordinal(t: Typed): real
    requires Orderable(t)
  {
    match t
    case Duration(ms) => ms
    case Money(amount, _) => amount
    case Percent(p) => p
    case Bytes(n) => n as real
    case Number(n) => n
  }

  function Lte3(a: Scalar, b: Scalar): Kleene {
    if !SameKind(a, b) || !Orderable(a.v) then U else Truth(Ordinal(a.v) <= Ordinal(b.v))
  }

  function Gte3(a: Scalar, b: Scalar): Kleene {
    if !SameKind(a, b) || !Orderable(a.v) then U else Truth(Ordinal(a.v) >= Ordinal(b.v))
  }

  /** `compatible-with`: same protocol, same major, and at least the required minor and patch. */
  function Compatible3(a: Scalar, b: Scalar): Kleene {
    if !a.v.Protocol? || !b.v.Protocol? then U
    else Truth(a.v.name == b.v.name && a.v.major == b.v.major
               && (a.v.minor > b.v.minor || (a.v.minor == b.v.minor && a.v.patch >= b.v.patch)))
  }

  datatype Operator = Equals | NotEquals | Lte | Gte | In | NotIn | SubsetOf | CompatibleWith

  /** The operator table. */
  function Apply(op: Operator, a: Scalar, b: Scalar): Kleene {
    match op
    case Equals => Eq3(a, b)
    case NotEquals => Not3(Eq3(a, b))
    case Lte => Lte3(a, b)
    case Gte => Gte3(a, b)
    case In => In3(a, b)
    case NotIn => Not3(In3(a, b))
    case SubsetOf => Subset3(a, b)
    case CompatibleWith => Compatible3(a, b)
  }

  // ---- the loops with early exit -------------------------------------------

  /** `op_equals`, with the scan of `_list_equal`. */
  method OpEquals(a: Scalar, b: Scalar) returns (r: Kleene)
    ensures r == Eq3(a, b)
    decreases a, 1
  {
    if !SameKind(a, b) { return U; }
    if a.v.Listed? {
      r := ListEqual(a, b);
    } else {
      r := Truth(a.v == b.v);
    }
  }

  method ListEqual(a: Scalar, b: Scalar) returns (r: Kleene)
    requires a.v.Listed? && b.v.Listed?
    ensures r == Eq3(a, b)
    decreases a, 0
  {
    var xs, ys := a.v.items, b.v.items;
    if |xs| != |ys| { return F; }
    var unver := false;
    ghost var ks := Eq3s(a, xs, ys);
    for i := 0 to |xs|
      invariant F !in ks[..i]
      invariant unver <==> U in ks[..i]
    {
      assert ks[..i + 1] == ks[..i] + [ks[i]];
      var eq := OpEquals(xs[i], ys[i]);
      if eq == F {
        assert ks[i] == F;
        return F;
      }
      if eq == U { unver := true; }
    }
    assert ks[..|xs|] == ks;
    r := if unver then U else T;
  }

  method OpIn(a: Scalar, b: Scalar) returns (r: Kleene)
    ensures r == In3(a, b)
  {
    if !b.v.Listed? { return U; }
    var xs := b.v.items;
    var anyComparable, unver := false, false;
    ghost var ks := Matches(a, xs);
    for i := 0 to |xs|
      invariant T !in ks[..i]
      invariant unver <==> U in ks[..i]
      invariant anyComparable <==> F in ks[..i]
    {
      assert ks[..i + 1] == ks[..i] + [ks[i]];
      var eq := OpEquals(a, xs[i]);
      if eq == U {
        unver := true;
      } else {
        if eq == T {
          assert ks[i] == T;
          return T;
        }
        anyComparable := true;
      }
    }
    assert ks[..|xs|] == ks;
    if !anyComparable {
      if xs != [] { assert ks[0] in ks; }
      return U;
    }
    r := if unver then U else F;
  }

  method OpSubsetOf(a: Scalar, b: Scalar) returns (r: Kleene)
    ensures r == Subset3(a, b)
  {
    if !a.v.Listed? || !b.v.Listed? { return U; }
    var xs := a.v.items;
    var unver := false;
    ghost var ks := Members(xs, b);
    for i := 0 to |xs|
      invariant F !in ks[..i]
      invariant unver <==> U in ks[..i]
    {
      assert ks[..i + 1] == ks[..i] + [ks[i]];
      var member := OpIn(xs[i], b);
      if member == F {
        assert ks[i] == F;
        return F;
      }
      if member == U { unver := true; }
    }
    assert ks[..|xs|] == ks;
    r := if unver then U else T;
  }

  // ---- what the operators promise ------------------------------------------

  /** A way the refused positions could have come out. */
  ghost predicate Completes(bs: seq<bool>, ks: seq<Kleene>) {
    |bs| == |ks| && forall i :: 0 <= i < |ks| && ks[i] != U ==> (bs[i] <==> ks[i] == T)
  }

  ghost function Fill(ks: seq<Kleene>, b: bool): (bs: seq<bool>)
    ensures Completes(bs, ks)
    ensures forall i :: 0 <= i < |ks| && ks[i] == U ==> bs[i] == b
  {
    seq(|ks|, i requires 0 <= i < |ks| => if ks[i] == U then b else ks[i] == T)
  }

  /** A conjunction is definite exactly when no completion of the refused positions could change it. */
  lemma ConjunctionIsStrongKleene(ks: seq<Kleene>)
    ensures All3(ks) == T <==> forall bs :: Completes(bs, ks) ==> false !in bs
    ensures All3(ks) == F <==> forall bs :: Completes(bs, ks) ==> false in bs
  {
    var lo, hi := Fill(ks, false), Fill(ks, true);
    if F in ks {
      var i :| 0 <= i < |ks| && ks[i] == F;
      forall bs | Completes(bs, ks)
        ensures false in bs
      {
        assert bs[i] == false;
      }
      assert Completes(hi, ks);
    } else {
      assert Completes(hi, ks) && false !in hi;
      if U in ks {
        var i :| 0 <= i < |ks| && ks[i] == U;
        assert Completes(lo, ks) && lo[i] == false;
      }
    }
  }

  /** Membership is definite exactly when no completion could change it, provided the list is not empty. */
  lemma DisjunctionIsStrongKleene(ks: seq<Kleene>)
    ensures Any3(ks) == T <==> forall bs :: Completes(bs, ks) ==> true in bs
    ensures Any3(ks) == F <==> forall bs :: Completes(bs, ks) ==> true !in bs
  {
    var lo, hi := Fill(ks, false), Fill(ks, true);
    if T in ks {
      var i :| 0 <= i < |ks| && ks[i] == T;
      forall bs | Completes(bs, ks)
        ensures true in bs
      {
        assert bs[i] == true;
      }
      assert Completes(lo, ks);
    } else {
      assert Completes(lo, ks) && true !in lo;
      if U in ks {
        var i :| 0 <= i < |ks| && ks[i] == U;
        assert Completes(hi, ks) && hi[i] == true;
      }
    }
  }

  /** `equals` is true exactly on canonically equal scalars, so a definite answer never disagrees with them. */
  lemma {:induction false} DefiniteEqualsIsValueEqual(a: Scalar, b: Scalar)
    ensures Eq3(a, b) == T <==> ValueEqual(a, b)
    decreases a
  {
    if SameKind(a, b) && a.v.Listed? && |a.v.items| == |b.v.items| {
      var xs, ys := a.v.items, b.v.items;
      var ks := Eq3s(a, xs, ys);
      forall i | 0 <= i < |xs|
        ensures ks[i] == T <==> ValueEqual(xs[i], ys[i])
      {
        DefiniteEqualsIsValueEqual(xs[i], ys[i]);
      }
      assert All3(ks) == T <==> forall i :: 0 <= i < |ks| ==> ks[i] == T;
    }
  }

  lemma {:induction false} ValueEqualReflexive(a: Scalar)
    ensures ValueEqual(a, a)
  {
    if a.v.Listed? {
      forall i | 0 <= i < |a.v.items|
        ensures ValueEqual(a.v.items[i], a.v.items[i])
      {
        ValueEqualReflexive(a.v.items[i]);
      }
    }
  }

  lemma {:induction false} ValueEqualSymmetric(a: Scalar, b: Scalar)
    requires ValueEqual(a, b)
    ensures ValueEqual(b, a)
  {
    if a.v.Listed? && b.v.Listed? {
      forall i | 0 <= i < |a.v.items|
        ensures ValueEqual(b.v.items[i], a.v.items[i])
      {
        ValueEqualSymmetric(a.v.items[i], b.v.items[i]);
      }
    }
  }

  lemma {:induction false} ValueEqualTransitive(a: Scalar, b: Scalar, c: Scalar)
    requires ValueEqual(a, b) && ValueEqual(b, c)
    ensures ValueEqual(a, c)
  {
    if a.v.Listed? && b.v.Listed? {
      forall i | 0 <= i < |a.v.items|
        ensures ValueEqual(a.v.items[i], c.v.items[i])
      {
        ValueEqualTransitive(a.v.items[i], b.v.items[i], c.v.items[i]);
      }
    }
  }

  /** The ordering is total within a kind and a currency, and agrees with equality. */
  lemma OrderingLaws(a: Scalar, b: Scalar, c: Scalar)
    ensures Gte3(a, b) == Lte3(b, a)
    ensures Lte3(a, b) != U <==> SameKind(a, b) && Orderable(a.v)
    ensures Lte3(a, b) == T && Lte3(b, c) == T ==> Lte3(a, c) == T
    ensures Lte3(a, b) == F ==> Lte3(b, a) == T
    ensures Lte3(a, b) == T && Lte3(b, a) == T <==> Orderable(a.v) && Eq3(a, b) == T
  {
    if Kind(a.v) == Kind(b.v) { KindIsTag(a.v, b.v); }
    if Kind(b.v) == Kind(c.v) { KindIsTag(b.v, c.v); }
  }

  /** Compatibility is a partial order on the versions of one protocol's major line. */
  lemma CompatibilityLaws(a: Scalar, b: Scalar, c: Scalar)
    ensures Compatible3(a, b) == T && Compatible3(b, c) == T ==> Compatible3(a, c) == T
    ensures Compatible3(a, b) == T && Compatible3(b, a) == T <==> a.v.Protocol? && Eq3(a, b) == T
    ensures Compatible3(a, b) == F && Compatible3(b, a) == F <==>
      a.v.Protocol? && b.v.Protocol? && (a.v.name != b.v.name || a.v.major != b.v.major)
  {
    if Kind(a.v) == Kind(b.v) { KindIsTag(a.v, b.v); }
  }

  ghost predicate SameElements(xs: seq<Scalar>, ys: seq<Scalar>) {
    forall x :: x in xs <==> x in ys
  }

  /** `in` does not depend on the order or the multiplicity of the list. */
  lemma InIgnoresOrder(a: Scalar, b: Scalar, c: Scalar)
    requires b.v.Listed? && c.v.Listed? && SameElements(b.v.items, c.v.items)
    ensures In3(a, b) == In3(a, c)
  {
    var xs, ys := b.v.items, c.v.items;
    if xs != [] { assert xs[0] in ys; }
    if ys != [] { assert ys[0] in xs; }
    forall k
      ensures k in Matches(a, xs) <==> k in Matches(a, ys)
    {
      MatchesOf(a, xs, k);
      MatchesOf(a, ys, k);
    }
  }

  lemma MatchesOf(a: Scalar, xs: seq<Scalar>, k: Kleene)
    ensures k in Matches(a, xs) <==> exists x :: x in xs && Eq3(a, x) == k
  {
    var ks := Matches(a, xs);
    if x :| x in xs && Eq3(a, x) == k {
      var i :| 0 <= i < |xs| && xs[i] == x;
      assert ks[i] == k;
    }
    if k in ks {
      var i :| 0 <= i < |ks| && ks[i] == k;
      assert xs[i] in xs && Eq3(a, xs[i]) == k;
    }
  }

  lemma MembersOf(xs: seq<Scalar>, b: Scalar, k: Kleene)
    ensures k in Members(xs, b) <==> exists x :: x in xs && In3(x, b) == k
  {
    var ks := Members(xs, b);
    if x :| x in xs && In3(x, b) == k {
      var i :| 0 <= i < |xs| && xs[i] == x;
      assert ks[i] == k;
    }
    if k in ks {
      var i :| 0 <= i < |ks| && ks[i] == k;
      assert xs[i] in xs && In3(xs[i], b) == k;
    }
  }

  /** `subset-of` does not depend on the order or the multiplicity of either list. */
  lemma SubsetIgnoresOrder(a: Scalar, a': Scalar, b: Scalar, b': Scalar)
    requires a.v.Listed? && a'.v.Listed? && SameElements(a.v.items, a'.v.items)
    requires b.v.Listed? && b'.v.Listed? && SameElements(b.v.items, b'.v.items)
    ensures Subset3(a, b) == Subset3(a', b')
  {
    forall x
      ensures In3(x, b) == In3(x, b')
    {
      InIgnoresOrder(x, b, b');
    }
    forall k
      ensures k in Members(a.v.items, b) <==> k in Members(a'.v.items, b')
    {
      MembersOf(a.v.items, b, k);
      MembersOf(a'.v.items, b', k);
    }
  }

  /** True membership means some element is canonically equal. */
  lemma InIsMembership(a: Scalar, b: Scalar)
    requires b.v.Listed?
    ensures In3(a, b) == T <==> exists x :: x in b.v.items && ValueEqual(a, x)
  {
    MatchesOf(a, b.v.items, T);
    forall x
      ensures Eq3(a, x) == T <==> ValueEqual(a, x)
    {
      DefiniteEqualsIsValueEqual(a, x);
    }
  }

  lemma SubsetIsInclusion(a: Scalar, b: Scalar)
    requires a.v.Listed? && b.v.Listed?
    ensures Subset3(a, b) == T <==>
      forall x :: x in a.v.items ==> exists y :: y in b.v.items && ValueEqual(x, y)
  {
    MembersOf(a.v.items, b, F);
    MembersOf(a.v.items, b, U);
    forall x
      ensures In3(x, b) == T <==> exists y :: y in b.v.items && ValueEqual(x, y)
    {
      InIsMembership(x, b);
    }
  }

  /** True `subset-of` is a preorder on lists. */
  lemma SubsetIsPreorder(a: Scalar, b: Scalar, c: Scalar)
    requires a.v.Listed? && b.v.Listed? && c.v.Listed?
    ensures Subset3(a, a) == T
    ensures Subset3(a, b) == T && Subset3(b, c) == T ==> Subset3(a, c) == T
  {
    SubsetIsReflexive(a);
    SubsetIsInclusion(a, b);
    SubsetIsInclusion(b, c);
    SubsetIsInclusion(a, c);
    if Subset3(a, b) == T && Subset3(b, c) == T {
      forall x | x in a.v.items
        ensures exists z :: z in c.v.items && ValueEqual(x, z)
      {
        var y :| y in b.v.items && ValueEqual(x, y);
        var z :| z in c.v.items && ValueEqual(y, z);
        ValueEqualTransitive(x, y, z);
      }
    }
  }

  lemma SubsetIsReflexive(a: Scalar)
    requires a.v.Listed?
    ensures Subset3(a, a) == T
  {
    SubsetIsInclusion(a, a);
    forall x | x in a.v.items
      ensures exists y :: y in a.v.items && ValueEqual(x, y)
    {
      ValueEqualReflexive(x);
    }
  }
}
