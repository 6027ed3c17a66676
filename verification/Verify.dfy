/**
 Four-valued verification of a candidate against a contract (ref/groundholdlib/verify.py), with the
 canonicalisation of set-valued attributes (`_sort_scalar_list` in ref/groundholdlib/contract.py).
 */
module Verify {
  import opened Prelude
  import opened Scalars
  import opened Sorting

  datatype Verdict = Satisfied | Violated | Unknown | Unverifiable

  datatype Test =
    | Exists
    | Absent
    | Compare(op: Operator, expected: Scalar)
    | Objective

  datatype Constraint = Constraint(
    id: string, subject: string, path: Option<string>, test: Test, hard: bool,
    verifyMethod: string, runtimeMethod: string)

  datatype Provenanced = Provenanced(scalar: Option<Scalar>, status: string)

  type Attributes = map<string, Provenanced>

  datatype Candidate = Candidate(contractId: string, capabilities: map<string, Attributes>)

  datatype Capability = Capability(typ: string, retired: bool)

  datatype Contract = Contract(id: string, capabilities: map<string, Capability>, constraints: seq<Constraint>)

  /** For each capability type, the attributes its vocabulary lists and whether each is marked `unordered`. */
  type Vocabularies = map<string, map<string, bool>>

  // ---- sets ------------------------------------------------------------------

  predicate RawLe(x: Scalar, y: Scalar) {
    !StrLess(y.raw, x.raw)
  }

  lemma RawLeIsTotal()
    ensures TotalPreorder(RawLe)
  {
    forall x: Scalar, y: Scalar
      ensures RawLe(x, y) || RawLe(y, x)
    {
      StrLessTrichotomy(x.raw, y.raw);
    }
    forall x: Scalar, y: Scalar, z: Scalar | RawLe(x, y) && RawLe(y, z)
      ensures RawLe(x, z)
    {
      StrLessTrichotomy(x.raw, y.raw);
      StrLessTrichotomy(y.raw, z.raw);
      StrLessTrichotomy(x.raw, z.raw);
      if StrLess(x.raw, y.raw) && StrLess(y.raw, z.raw) { StrLessTransitive(x.raw, y.raw, z.raw); }
    }
  }

  function SortByRaw(xs: seq<Scalar>): seq<Scalar> {
    Sort(RawLe, xs)
  }

  function Raws(xs: seq<Scalar>): seq<string> {
    seq(|xs|, i requires 0 <= i < |xs| => xs[i].raw)
  }

  /** Assigning a whole slice. */
  method Overwrite<T>(a: array<T>, xs: seq<T>)
    requires |xs| == a.Length
    modifies a
    ensures a[..] == xs
  {
    forall i | 0 <= i < a.Length {
      a[i] := xs[i];
    }
  }

  /** `_sort_scalar_list`: the elements are rearranged inside the list that holds them, and the list of spellings kept
      beside them follows if it is as long. */
  method SortScalarList(elems: array<Scalar>, raws: array<string>)
    modifies elems, raws
    ensures elems[..] == SortByRaw(old(elems[..]))
    ensures raws[..] == if raws.Length == elems.Length then Raws(elems[..]) else old(raws[..])
  {
    hide SortByRaw;
    var ordered := SortByRaw(elems[..]);
    SortPermutes(elems[..]);
    Overwrite(elems, ordered);
    if raws.Length == elems.Length { Overwrite(raws, Raws(ordered)); }
  }

  function Rearranged(sc: Scalar): Scalar {
    if sc.v.Listed? then sc.(v := Listed(SortByRaw(sc.v.items))) else sc
  }

  predicate IsUnordered(ct: Contract, vocabs: Vocabularies, subject: string, path: string) {
    && subject in ct.capabilities
    && ct.capabilities[subject].typ in vocabs
    && path in vocabs[ct.capabilities[subject].typ]
    && vocabs[ct.capabilities[subject].typ][path]
  }

  /** What a value of an attribute is compared as. */
  function AsSet(ct: Contract, vocabs: Vocabularies, subject: string, path: string, sc: Scalar): Scalar {
    if IsUnordered(ct, vocabs, subject, path) then Rearranged(sc) else sc
  }

  /** The candidate as the loader leaves it. */
  function Loaded(ct: Contract, vocabs: Vocabularies, cand: Candidate): Candidate {
    cand.(capabilities := map cap | cap in cand.capabilities ::
      map p | p in cand.capabilities[cap] :: LoadedValue(ct, vocabs, cap, p, cand.capabilities[cap][p]))
  }

  function LoadedValue(ct: Contract, vocabs: Vocabularies, cap: string, p: string, pv: Provenanced): Provenanced {
    if pv.scalar.None? then pv else pv.(scalar := Some(AsSet(ct, vocabs, cap, p, pv.scalar.value)))
  }

  function Canonicalised(ct: Contract, vocabs: Vocabularies, c: Constraint): Constraint {
    if !c.test.Compare? then c
    else c.(test := Compare(c.test.op, AsSet(ct, vocabs, c.subject, c.path.GetOr(""), c.test.expected)))
  }

  /** `_set_canonical`: the operand is copied before it is sorted, so the contract keeps its own. */
  method SetCanonical(ct: Contract, vocabs: Vocabularies, c: Constraint) returns (r: Constraint)
    ensures r == Canonicalised(ct, vocabs, c)
  {
    if !c.test.Compare? || !c.test.expected.v.Listed? { return c; }
    if !IsUnordered(ct, vocabs, c.subject, c.path.GetOr("")) { return c; }
    var items := c.test.expected.v.items;
    var dup := new Scalar[|items|](i requires 0 <= i < |items| => items[i]);
    assert dup[..] == items;
    var raws := new string[|items|](i requires 0 <= i < |items| => items[i].raw);
    SortScalarList(dup, raws);
    r := c.(test := c.test.(expected := c.test.expected.(v := Listed(dup[..]))));
  }

  // ---- verdicts --------------------------------------------------------------

  function Observed(c: Constraint, cand: Candidate): Option<Provenanced> {
    if c.subject in cand.capabilities && c.path.Some? && c.path.value in cand.capabilities[c.subject]
    then Some(cand.capabilities[c.subject][c.path.value])
    else None
  }

  predicate Measured(o: Option<Provenanced>) {
    o.Some? && o.value.scalar.Some? && o.value.status != "unknown"
  }

  function FromTruth(k: Kleene): Verdict {
    match k
    case T => Satisfied
    case F => Violated
    case U => Unverifiable
  }

  /** `_eval`. */
  function Eval(c: Constraint, cand: Candidate): Verdict {
    var o := Observed(c, cand);
    if c.test.Objective? then if Measured(o) then Satisfied else Unknown
    else if c.verifyMethod != "static" then Unknown
    else if c.subject !in cand.capabilities then Unknown
    else if c.test.Exists? then if o.Some? then Satisfied else Violated
    else if c.test.Absent? then if o.Some? then Violated else Satisfied
    else if !Measured(o) then Unknown
    else FromTruth(Apply(c.test.op, o.value.scalar.value, c.test.expected))
  }

  /** The verdict on one constraint of a contract, for a candidate as declared. */
  function Judge(ct: Contract, vocabs: Vocabularies, c: Constraint, cand: Candidate): Verdict {
    Eval(Canonicalised(ct, vocabs, c), Loaded(ct, vocabs, cand))
  }

  datatype BindingError = NotImplemented(cap: string) | WrongContract

  predicate Unimplemented(ct: Contract, cand: Candidate, cap: string) {
    cap in ct.capabilities && !ct.capabilities[cap].retired && cap !in cand.capabilities
  }

  /** What has to hold for a candidate to be executed: it targets this contract, every capability that is not retired
      has an implementation, and every hard constraint is satisfied rather than merely not violated. */
  ghost predicate Executable(ct: Contract, vocabs: Vocabularies, cand: Candidate) {
    && cand.contractId == ct.id
    && (forall cap :: !Unimplemented(ct, cand, cap))
    && (forall c :: c in ct.constraints && c.hard ==> Judge(ct, vocabs, c, cand) == Satisfied)
  }

  method FindBindingErrors(ct: Contract, cand: Candidate) returns (errors: seq<BindingError>)
    ensures forall cap :: NotImplemented(cap) in errors <==>
      cap in ct.capabilities && !ct.capabilities[cap].retired && cap !in cand.capabilities
    ensures WrongContract in errors <==> cand.contractId != ct.id
  {
    errors := [];
    var caps := SortedKeys(ct.capabilities.Keys);
    for i := 0 to |caps|
      invariant WrongContract !in errors
      invariant forall cap :: NotImplemented(cap) in errors <==> cap in caps[..i] && Unimplemented(ct, cand, cap)
    {
      if !ct.capabilities[caps[i]].retired && caps[i] !in cand.capabilities {
        errors := errors + [NotImplemented(caps[i])];
      }
    }
    if cand.contractId != ct.id { errors := errors + [WrongContract]; }
  }

  lemma NoBindingErrors(ct: Contract, cand: Candidate, errors: seq<BindingError>)
    requires forall cap :: NotImplemented(cap) in errors <==> Unimplemented(ct, cand, cap)
    requires WrongContract in errors <==> cand.contractId != ct.id
    ensures errors == [] <==> cand.contractId == ct.id && forall cap :: !Unimplemented(ct, cand, cap)
  {
    if errors != [] {
      var e := errors[0];
      assert e in errors;
      assert e == WrongContract || Unimplemented(ct, cand, e.cap);
    }
  }

  /** `verify`, on a candidate the loader has canonicalised. */
  method VerifyCandidate(ct: Contract, vocabs: Vocabularies, declared: Candidate)
    returns (verdicts: seq<Verdict>, bindingErrors: seq<BindingError>, executable: bool)
    ensures |verdicts| == |ct.constraints|
    ensures forall i :: 0 <= i < |verdicts| ==> verdicts[i] == Judge(ct, vocabs, ct.constraints[i], declared)
    ensures forall cap :: NotImplemented(cap) in bindingErrors <==>
      cap in ct.capabilities && !ct.capabilities[cap].retired && cap !in declared.capabilities
    ensures WrongContract in bindingErrors <==> declared.contractId != ct.id
    ensures executable <==>
      bindingErrors == [] && forall i :: 0 <= i < |verdicts| && ct.constraints[i].hard ==> verdicts[i] == Satisfied
    ensures executable <==> Executable(ct, vocabs, declared)
  {
    hide Eval, Canonicalised, Loaded;
    var cand := Loaded(ct, vocabs, declared);
    verdicts := [];
    var hardViolated, hardUnknown := [], [];
    for i := 0 to |ct.constraints|
      invariant |verdicts| == i
      invariant forall k :: 0 <= k < i ==> verdicts[k] == Judge(ct, vocabs, ct.constraints[k], declared)
      invariant hardViolated == [] && hardUnknown == [] <==>
        forall k :: 0 <= k < i && ct.constraints[k].hard ==> verdicts[k] == Satisfied
    {
      var c := ct.constraints[i];
      var canonical := SetCanonical(ct, vocabs, c);
      var v := Eval(canonical, cand);
      verdicts := verdicts + [v];
      if c.hard && v == Violated { hardViolated := hardViolated + [c.id]; }
      if c.hard && (v == Unknown || v == Unverifiable) { hardUnknown := hardUnknown + [c.id]; }
    }
    bindingErrors := FindBindingErrors(ct, declared);
    NoBindingErrors(ct, declared, bindingErrors);
    executable := bindingErrors == [] && hardViolated == [] && hardUnknown == [];
  }

  // ---- negation --------------------------------------------------------------

  function Flip(v: Verdict): Verdict {
    match v
    case Satisfied => Violated
    case Violated => Satisfied
    case Unknown => Unknown
    case Unverifiable => Unverifiable
  }

  predicate OppositeTests(t: Test, u: Test) {
    || (t == Exists && u == Absent)
    || (t.Compare? && u.Compare? && t.expected == u.expected
        && ((t.op == Equals && u.op == NotEquals) || (t.op == In && u.op == NotIn)))
  }

  /** The two constraints ask opposite questions of the same attribute under the same bar. */
  predicate Opposed(c: Constraint, d: Constraint) {
    && c.subject == d.subject && c.path == d.path && c.verifyMethod == d.verifyMethod
    && OppositeTests(c.test, d.test)
  }

  /** Opposite questions get complementary verdicts, and what is undecided for one is undecided for the other. */
  lemma OppositesFlip(ct: Contract, vocabs: Vocabularies, c: Constraint, d: Constraint, cand: Candidate)
    requires Opposed(c, d)
    ensures Judge(ct, vocabs, d, cand) == Flip(Judge(ct, vocabs, c, cand))
  {
    hide Eq3, In3, Loaded, AsSet;
    var c', d', loaded := Canonicalised(ct, vocabs, c), Canonicalised(ct, vocabs, d), Loaded(ct, vocabs, cand);
    assert Observed(c', loaded) == Observed(d', loaded);
    if c.test.Compare? {
      assert c'.test.expected == d'.test.expected;
    }
  }

  /** No candidate whatsoever is executable against a contract that demands a thing and its opposite. */
  lemma ContradictionIsNeverExecutable(ct: Contract, vocabs: Vocabularies, c: Constraint, d: Constraint,
                                       cand: Candidate)
    requires c in ct.constraints && d in ct.constraints && c.hard && d.hard && Opposed(c, d)
    ensures !Executable(ct, vocabs, cand)
  {
    OppositesFlip(ct, vocabs, c, d, cand);
  }

  // ---- what sorting makes of equality ----------------------------------------

  ghost predicate Permutes(xs: seq<Scalar>, ys: seq<Scalar>) {
    multiset(xs) == multiset(ys)
  }

  /** No two different elements are spelled alike. */
  ghost predicate SpelledApart(xs: seq<Scalar>) {
    forall x, y :: x in xs && y in xs && x.raw == y.raw ==> x == y
  }

  function Only(raw: string, xs: seq<Scalar>): seq<Scalar> {
    if xs == [] then [] else (if xs[0].raw == raw then [xs[0]] else []) + Only(raw, xs[1..])
  }

  lemma {:induction false} InsertIsStable(raw: string, x: Scalar, xs: seq<Scalar>)
    ensures Only(raw, Insert(RawLe, x, xs)) == Only(raw, [x] + xs)
  {
    if xs != [] && !RawLe(x, xs[0]) {
      var rest := Insert(RawLe, x, xs[1..]);
      InsertIsStable(raw, x, xs[1..]);
      StrLessTrichotomy(x.raw, xs[0].raw);
      assert ([xs[0]] + rest)[1..] == rest;
      assert ([x] + xs[1..])[1..] == xs[1..];
      assert ([x] + xs)[1..] == xs;
    }
  }

  /** Elements that are spelled alike keep their order. */
  lemma {:induction false} SortIsStable(raw: string, xs: seq<Scalar>)
    ensures Only(raw, SortByRaw(xs)) == Only(raw, xs)
  {
    if xs != [] {
      var rest := SortByRaw(xs[1..]);
      SortIsStable(raw, xs[1..]);
      InsertIsStable(raw, xs[0], rest);
      assert ([xs[0]] + rest)[1..] == rest;
    }
  }

  lemma SortPermutes(xs: seq<Scalar>)
    ensures SortedBy(RawLe, SortByRaw(xs)) && Permutes(SortByRaw(xs), xs) && |SortByRaw(xs)| == |xs|
  {
    RawLeIsTotal();
    SortSorts(RawLe, xs);
    MultisetLength(SortByRaw(xs), xs);
  }

  lemma OrderIsIgnored(xs: seq<Scalar>, ys: seq<Scalar>)
    requires SpelledApart(xs) && Permutes(ys, xs)
    ensures SortByRaw(ys) == SortByRaw(xs)
  {
    var s := SortByRaw(ys);
    SortPermutes(xs);
    SortPermutes(ys);
    forall x, y | x in s && y in s && RawLe(x, y) && RawLe(y, x)
      ensures x == y
    {
      assert x in multiset(s) && y in multiset(s);
      assert x in multiset(xs) && y in multiset(xs);
      StrLessTrichotomy(x.raw, y.raw);
    }
    SortedIsUnique(RawLe, s, SortByRaw(xs));
  }

  function Without<T>(xs: seq<T>, i: nat): (r: seq<T>)
    requires i < |xs|
    ensures |r| == |xs| - 1
    ensures forall k :: 0 <= k < |r| ==> r[k] == xs[if k < i then k else k + 1]
  {
    xs[..i] + xs[i + 1..]
  }

  lemma WithoutOne<T>(xs: seq<T>, i: nat)
    requires i < |xs|
    ensures multiset(xs) == multiset{xs[i]} + multiset(Without(xs, i))
  {
    assert xs == xs[..i] + ([xs[i]] + xs[i + 1..]);
  }

  lemma OnlyFirst(raw: string, x: Scalar, rest: seq<Scalar>)
    ensures Only(raw, [x] + rest) == (if x.raw == raw then [x] else []) + Only(raw, rest)
  {
    assert ([x] + rest)[1..] == rest;
  }

  lemma TiesKeepOrder(xs: seq<Scalar>, i: nat, j: nat) returns (ys: seq<Scalar>)
    requires i < j < |xs| && xs[i].raw == xs[j].raw && xs[i] != xs[j]
    ensures Permutes(ys, xs) && SortByRaw(ys) != SortByRaw(xs)
  {
    hide Only, SortByRaw;
    var x, y := xs[i], xs[j];
    var rest := Without(Without(xs, j), i);
    WithoutOne(xs, j);
    WithoutOne(Without(xs, j), i);
    var p, q := [x] + ([y] + rest), [y] + ([x] + rest);
    SortIsStable(x.raw, p);
    SortIsStable(x.raw, q);
    OnlyFirst(x.raw, x, [y] + rest);
    OnlyFirst(x.raw, y, [x] + rest);
    assert Only(x.raw, p)[0] == x && Only(x.raw, q)[0] == y;
    ys := if SortByRaw(p) == SortByRaw(xs) then q else p;
  }

  /** The order in which a set was written is forgotten exactly when no two different elements are spelled alike: a
      number and a string with the same digits are, and they keep the order they were typed in. */
  lemma OrderIsIgnoredExactlyWhen(xs: seq<Scalar>)
    ensures (forall ys :: Permutes(ys, xs) ==> SortByRaw(ys) == SortByRaw(xs)) <==> SpelledApart(xs)
  {
    if SpelledApart(xs) {
      forall ys | Permutes(ys, xs)
        ensures SortByRaw(ys) == SortByRaw(xs)
      {
        OrderIsIgnored(xs, ys);
      }
    } else {
      var x, y :| x in xs && y in xs && x.raw == y.raw && x != y;
      var i :| 0 <= i < |xs| && xs[i] == x;
      var j :| 0 <= j < |xs| && xs[j] == y;
      var ys := TiesKeepOrder(xs, if i < j then i else j, if i < j then j else i);
      assert Permutes(ys, xs);
    }
  }

  const FIVE: Scalar := Scalar(Number(5.0), "5")
  const DIGIT: Scalar := Scalar(Text("5"), "5")

  /** A number and a string of the same digits are spelled alike, and keep the order they were written in. */
  lemma OrderIsRemembered()
    ensures !SpelledApart([FIVE, DIGIT]) && Permutes([DIGIT, FIVE], [FIVE, DIGIT])
    ensures SortByRaw([FIVE, DIGIT]) == [FIVE, DIGIT] && SortByRaw([DIGIT, FIVE]) == [DIGIT, FIVE]
  {
    assert FIVE in [FIVE, DIGIT] && DIGIT in [FIVE, DIGIT] && FIVE.v != DIGIT.v;
    assert multiset([FIVE, DIGIT]) == multiset{FIVE, DIGIT} == multiset([DIGIT, FIVE]);
    StrLessIrreflexive("5");
    hide SortByRaw;
    SortTwo(FIVE, DIGIT);
    SortTwo(DIGIT, FIVE);
  }

  ghost predicate Pointwise(xs: seq<Scalar>, ys: seq<Scalar>) {
    |xs| == |ys| && forall i :: 0 <= i < |xs| ==> ValueEqual(xs[i], ys[i])
  }

  ghost predicate Aligns(xs': seq<Scalar>, xs: seq<Scalar>, ys': seq<Scalar>, ys: seq<Scalar>) {
    Permutes(xs', xs) && Permutes(ys', ys) && Pointwise(xs', ys')
  }

  /** The two lists hold canonically equal elements, each as often as the other. */
  ghost predicate SameSet(xs: seq<Scalar>, ys: seq<Scalar>) {
    exists xs', ys' :: Aligns(xs', xs, ys', ys)
  }

  /** The elements compare with each other, and being spelled alike is being equal. */
  ghost predicate SpelledCanonically(zs: seq<Scalar>) {
    forall x, y :: x in zs && y in zs ==>
      !x.v.Listed? && SameKind(x, y) && (ValueEqual(x, y) <==> x.raw == y.raw)
  }

  function SetEquals(a: Scalar, b: Scalar): Kleene {
    Eq3(Rearranged(a), Rearranged(b))
  }

  /** A true answer on sets is never wrong. */
  lemma TrueSetEqualsIsSameSet(a: Scalar, b: Scalar)
    requires a.v.Listed? && b.v.Listed? && SetEquals(a, b) == T
    ensures SameSet(a.v.items, b.v.items)
  {
    SortPermutes(a.v.items);
    SortPermutes(b.v.items);
    DefiniteEqualsIsValueEqual(Rearranged(a), Rearranged(b));
    assert Aligns(SortByRaw(a.v.items), a.v.items, SortByRaw(b.v.items), b.v.items);
  }

  lemma RawsWithout(xs: seq<Scalar>, i: nat)
    requires i < |xs|
    ensures multiset(Raws(xs)) == multiset{xs[i].raw} + multiset(Raws(Without(xs, i)))
  {
    WithoutOne(Raws(xs), i);
    assert Without(Raws(xs), i) == Raws(Without(xs, i));
  }

  lemma {:induction false} RawsPermute(xs: seq<Scalar>, ys: seq<Scalar>)
    requires Permutes(xs, ys)
    ensures multiset(Raws(xs)) == multiset(Raws(ys))
  {
    hide Raws;
    MultisetLength(xs, ys);
    if xs == [] {
      assert xs == ys;
    } else {
      PermutedIn(xs, ys, xs[0]);
      var j :| 0 <= j < |ys| && ys[j] == xs[0];
      WithoutOne(xs, 0);
      WithoutOne(ys, j);
      RawsWithout(xs, 0);
      RawsWithout(ys, j);
      assert multiset(Without(xs, 0)) == multiset(xs) - multiset{xs[0]};
      assert multiset(Without(ys, j)) == multiset(ys) - multiset{xs[0]};
      RawsPermute(Without(xs, 0), Without(ys, j));
    }
  }

  predicate StrLe(a: string, b: string) {
    !StrLess(b, a)
  }

  lemma SortedRawsAgree(xs: seq<Scalar>, ys: seq<Scalar>)
    requires multiset(Raws(xs)) == multiset(Raws(ys))
    ensures Raws(SortByRaw(xs)) == Raws(SortByRaw(ys))
  {
    var s, t := SortByRaw(xs), SortByRaw(ys);
    SortPermutes(xs);
    SortPermutes(ys);
    RawsPermute(s, xs);
    RawsPermute(t, ys);
    forall i, j | 0 <= i < j < |s|
      ensures StrLe(Raws(s)[i], Raws(s)[j])
    {
      assert RawLe(s[i], s[j]);
    }
    forall i, j | 0 <= i < j < |t|
      ensures StrLe(Raws(t)[i], Raws(t)[j])
    {
      assert RawLe(t[i], t[j]);
    }
    forall a, b | StrLe(a, b) && StrLe(b, a)
      ensures a == b
    {
      StrLessTrichotomy(a, b);
    }
    SortedIsUnique(StrLe, Raws(s), Raws(t));
  }

  lemma PermutedIn(xs: seq<Scalar>, ys: seq<Scalar>, x: Scalar)
    requires Permutes(xs, ys) && x in xs
    ensures x in ys
  {
    assert x in multiset(ys);
  }

  lemma SameSetSameRaws(xs: seq<Scalar>, ys: seq<Scalar>)
    requires SpelledCanonically(xs + ys) && SameSet(xs, ys)
    ensures multiset(Raws(xs)) == multiset(Raws(ys))
  {
    var xs': seq<Scalar>, ys': seq<Scalar> :| Aligns(xs', xs, ys', ys);
    forall i | 0 <= i < |xs'|
      ensures xs'[i].raw == ys'[i].raw
    {
      PermutedIn(xs', xs, xs'[i]);
      PermutedIn(ys', ys, ys'[i]);
      assert xs'[i] in xs + ys && ys'[i] in xs + ys;
    }
    assert Raws(xs') == Raws(ys');
    RawsPermute(xs', xs);
    RawsPermute(ys', ys);
  }

  lemma AtomsCompareBySpelling(xs: seq<Scalar>, ys: seq<Scalar>)
    requires SpelledCanonically(xs + ys)
    ensures forall x, y :: x in SortByRaw(xs) && y in SortByRaw(ys) ==> Eq3(x, y) == Truth(x.raw == y.raw)
  {
    hide SortByRaw;
    SortPermutes(xs);
    SortPermutes(ys);
    forall x, y | x in SortByRaw(xs) && y in SortByRaw(ys)
      ensures Eq3(x, y) == Truth(x.raw == y.raw)
    {
      PermutedIn(SortByRaw(xs), xs, x);
      PermutedIn(SortByRaw(ys), ys, y);
      assert x in xs + ys && y in xs + ys;
    }
  }

  lemma ListsCompareBySpelling(a: Scalar, b: Scalar)
    requires a.v.Listed? && b.v.Listed?
    requires forall x, y :: x in a.v.items && y in b.v.items ==> Eq3(x, y) == Truth(x.raw == y.raw)
    ensures Eq3(a, b) == Truth(Raws(a.v.items) == Raws(b.v.items))
  {
    var xs, ys := a.v.items, b.v.items;
    if |xs| == |ys| {
      var ks := Eq3s(a, xs, ys);
      assert Eq3(a, b) == All3(ks);
      forall i | 0 <= i < |ks|
        ensures ks[i] == Truth(Raws(xs)[i] == Raws(ys)[i])
      {
        assert xs[i] in xs && ys[i] in ys && ks[i] == Eq3(xs[i], ys[i]);
      }
      hide Eq3, Eq3s, Raws, Truth;
      AllAgree(ks, Raws(xs), Raws(ys));
    } else {
      assert |Raws(xs)| != |Raws(ys)|;
    }
  }

  lemma AllAgree(ks: seq<Kleene>, xs: seq<string>, ys: seq<string>)
    requires |ks| == |xs| == |ys| && forall i :: 0 <= i < |ks| ==> ks[i] == Truth(xs[i] == ys[i])
    ensures All3(ks) == Truth(xs == ys)
  {
    if F in ks {
      var i :| 0 <= i < |ks| && ks[i] == F;
      assert xs[i] != ys[i];
    }
    if xs != ys {
      var i :| 0 <= i < |xs| && xs[i] != ys[i];
      assert ks[i] == F;
    }
  }

  /** When spelling is canonical, `equals` on a set is set equality, and it is never undecided. */
  lemma SetEqualsIsSameSet(a: Scalar, b: Scalar)
    requires a.v.Listed? && b.v.Listed? && SpelledCanonically(a.v.items + b.v.items)
    ensures SetEquals(a, b) == Truth(SameSet(a.v.items, b.v.items))
  {
    hide SortByRaw, Raws, Eq3, SameSet, SpelledCanonically;
    AtomsCompareBySpelling(a.v.items, b.v.items);
    ListsCompareBySpelling(Rearranged(a), Rearranged(b));
    if SetEquals(a, b) == T {
      TrueSetEqualsIsSameSet(a, b);
    } else if SameSet(a.v.items, b.v.items) {
      SameSetSameRaws(a.v.items, b.v.items);
      SortedRawsAgree(a.v.items, b.v.items);
    }
  }

  // ---- exactly when sorting by spelling decides set equality -----------------

  /** However often and however they are spelled, equal elements sort to the same side of every other element. */
  ghost predicate SpellingSeparates(zs: seq<Scalar>) {
    forall x, x', y :: x in zs && x' in zs && y in zs && ValueEqual(x, x') && !ValueEqual(x, y) ==> SameSide(x, x', y)
  }

  predicate SameSide(x: Scalar, x': Scalar, y: Scalar) {
    x.raw != y.raw && x'.raw != y.raw && (StrLess(x.raw, y.raw) <==> StrLess(x'.raw, y.raw))
  }

  ghost predicate Within(sc: Scalar, zs: seq<Scalar>) {
    sc.v.Listed? && forall x :: x in sc.v.items ==> x in zs
  }

  /** `equals` on the two sets, once sorted, is true exactly when they are the same set. */
  ghost predicate Decides(a: Scalar, b: Scalar)
    requires a.v.Listed? && b.v.Listed?
  {
    SetEquals(a, b) == T <==> SameSet(a.v.items, b.v.items)
  }

  /** How many elements are canonically equal to `v`. */
  ghost function CountOf(v: Scalar, xs: seq<Scalar>): nat {
    if xs == [] then 0 else (if ValueEqual(v, xs[0]) then 1 else 0) + CountOf(v, xs[1..])
  }

  lemma {:induction false} CountWithout(v: Scalar, xs: seq<Scalar>, i: nat)
    requires i < |xs|
    ensures CountOf(v, xs) == (if ValueEqual(v, xs[i]) then 1 else 0) + CountOf(v, Without(xs, i))
  {
    var rest := Without(xs, i);
    if i == 0 {
      assert rest == xs[1..];
    } else {
      CountWithout(v, xs[1..], i - 1);
      assert rest[1..] == Without(xs[1..], i - 1) && rest[0] == xs[0];
    }
  }

  lemma {:induction false} CountPermutes(v: Scalar, xs: seq<Scalar>, ys: seq<Scalar>)
    requires Permutes(xs, ys)
    ensures CountOf(v, xs) == CountOf(v, ys)
  {
    MultisetLength(xs, ys);
    if xs == [] {
      assert ys == [];
    } else {
      PermutedIn(xs, ys, xs[0]);
      var j :| 0 <= j < |ys| && ys[j] == xs[0];
      CountWithout(v, xs, 0);
      CountWithout(v, ys, j);
      PermutesWithout(xs, ys, j);
      CountPermutes(v, Without(xs, 0), Without(ys, j));
    }
  }

  lemma PermutesWithout(xs: seq<Scalar>, ys: seq<Scalar>, j: nat)
    requires Permutes(xs, ys) && xs != [] && j < |ys| && ys[j] == xs[0]
    ensures Permutes(Without(xs, 0), Without(ys, j))
  {
    WithoutOne(xs, 0);
    WithoutOne(ys, j);
    assert multiset(Without(xs, 0)) == multiset(xs) - multiset{xs[0]};
    assert multiset(Without(ys, j)) == multiset(ys) - multiset{xs[0]};
  }

  lemma {:induction false} CountPointwise(v: Scalar, xs: seq<Scalar>, ys: seq<Scalar>)
    requires Pointwise(xs, ys)
    ensures CountOf(v, xs) == CountOf(v, ys)
  {
    if xs != [] {
      CountPointwise(v, xs[1..], ys[1..]);
      SameEquals(v, xs[0], ys[0]);
    }
  }

  lemma SameEquals(v: Scalar, x: Scalar, y: Scalar)
    requires ValueEqual(x, y)
    ensures ValueEqual(v, x) <==> ValueEqual(v, y)
  {
    ValueEqualSymmetric(x, y);
    if ValueEqual(v, x) { ValueEqualTransitive(v, x, y); }
    if ValueEqual(v, y) { ValueEqualTransitive(v, y, x); }
  }

  lemma {:induction false} EqualFound(v: Scalar, xs: seq<Scalar>) returns (i: nat)
    requires CountOf(v, xs) > 0
    ensures i < |xs| && ValueEqual(v, xs[i])
  {
    if ValueEqual(v, xs[0]) {
      i := 0;
    } else {
      i := EqualFound(v, xs[1..]);
      i := i + 1;
    }
  }

  ghost predicate SameCounts(xs: seq<Scalar>, ys: seq<Scalar>) {
    |xs| == |ys| && forall v :: CountOf(v, xs) == CountOf(v, ys)
  }

  lemma SameSetSameCounts(xs: seq<Scalar>, ys: seq<Scalar>)
    requires SameSet(xs, ys)
    ensures SameCounts(xs, ys)
  {
    var xs': seq<Scalar>, ys': seq<Scalar> :| Aligns(xs', xs, ys', ys);
    MultisetLength(xs', xs);
    MultisetLength(ys', ys);
    forall v
      ensures CountOf(v, xs) == CountOf(v, ys)
    {
      CountPermutes(v, xs', xs);
      CountPermutes(v, ys', ys);
      CountPointwise(v, xs', ys');
    }
  }

  /** The least elements of two sorted lists of the same set are canonically equal. */
  lemma HeadsAgree(zs: seq<Scalar>, xs: seq<Scalar>, ys: seq<Scalar>)
    requires SpellingSeparates(zs) && (forall x :: x in xs || x in ys ==> x in zs)
    requires SortedBy(RawLe, xs) && SortedBy(RawLe, ys) && SameCounts(xs, ys) && xs != []
    ensures ValueEqual(xs[0], ys[0])
  {
    var x, y := xs[0], ys[0];
    ValueEqualReflexive(x);
    ValueEqualReflexive(y);
    var j := EqualFound(x, ys);
    var i := EqualFound(y, xs);
    if !ValueEqual(x, y) {
      if ValueEqual(y, x) { ValueEqualSymmetric(y, x); }
      assert ys[j] in ys && xs[i] in xs;
      assert SameSide(x, ys[j], y) && SameSide(y, xs[i], x);
      assert RawLe(y, ys[j]) && RawLe(x, xs[i]);
      StrLessTrichotomy(x.raw, y.raw);
    }
  }

  lemma {:induction false} SortedSetsAlign(zs: seq<Scalar>, xs: seq<Scalar>, ys: seq<Scalar>)
    requires SpellingSeparates(zs) && (forall x :: x in xs || x in ys ==> x in zs)
    requires SortedBy(RawLe, xs) && SortedBy(RawLe, ys) && SameCounts(xs, ys)
    ensures Pointwise(xs, ys)
  {
    if xs != [] {
      HeadsAgree(zs, xs, ys);
      TailSorted(RawLe, xs);
      TailSorted(RawLe, ys);
      TailsSameCounts(xs, ys);
      assert forall x :: x in xs[1..] ==> x in xs;
      assert forall y :: y in ys[1..] ==> y in ys;
      hide *;
      SortedSetsAlign(zs, xs[1..], ys[1..]);
      PointwiseGrows(xs, ys);
    }
  }

  lemma TailsSameCounts(xs: seq<Scalar>, ys: seq<Scalar>)
    requires SameCounts(xs, ys) && xs != [] && ValueEqual(xs[0], ys[0])
    ensures SameCounts(xs[1..], ys[1..])
  {
    forall v
      ensures CountOf(v, xs[1..]) == CountOf(v, ys[1..])
    {
      SameEquals(v, xs[0], ys[0]);
      assert CountOf(v, xs) == CountOf(v, ys);
    }
  }

  lemma PointwiseGrows(xs: seq<Scalar>, ys: seq<Scalar>)
    requires xs != [] && ys != [] && ValueEqual(xs[0], ys[0]) && Pointwise(xs[1..], ys[1..])
    ensures Pointwise(xs, ys)
  {
    forall i | 0 <= i < |xs|
      ensures ValueEqual(xs[i], ys[i])
    {
      if i > 0 { assert xs[i] == xs[1..][i - 1] && ys[i] == ys[1..][i - 1]; }
    }
  }

  lemma SetEqualsIsPointwise(a: Scalar, b: Scalar)
    requires a.v.Listed? && b.v.Listed?
    ensures SetEquals(a, b) == T <==> Pointwise(SortByRaw(a.v.items), SortByRaw(b.v.items))
  {
    DefiniteEqualsIsValueEqual(Rearranged(a), Rearranged(b));
  }

  lemma SeparatedDecides(zs: seq<Scalar>, a: Scalar, b: Scalar)
    requires SpellingSeparates(zs) && Within(a, zs) && Within(b, zs)
    ensures Decides(a, b)
  {
    hide SetEquals, SortByRaw, SpellingSeparates, SameCounts, Pointwise, SameSet;
    var xs, ys := a.v.items, b.v.items;
    SetEqualsIsPointwise(a, b);
    if SetEquals(a, b) == T { TrueSetEqualsIsSameSet(a, b); }
    if SameSet(xs, ys) {
      var s, t := SortByRaw(xs), SortByRaw(ys);
      SortPermutes(xs);
      SortPermutes(ys);
      forall x | x in s || x in t
        ensures x in zs
      {
        if x in s { PermutedIn(s, xs, x); } else { PermutedIn(t, ys, x); }
      }
      SortedSameSet(xs, ys);
      SortedSetsAlign(zs, s, t);
    }
  }

  lemma SortedSameSet(xs: seq<Scalar>, ys: seq<Scalar>)
    requires SameSet(xs, ys)
    ensures SameCounts(SortByRaw(xs), SortByRaw(ys))
  {
    SameSetSameCounts(xs, ys);
    SortPermutes(xs);
    SortPermutes(ys);
    forall v
      ensures CountOf(v, SortByRaw(xs)) == CountOf(v, SortByRaw(ys))
    {
      CountPermutes(v, SortByRaw(xs), xs);
      CountPermutes(v, SortByRaw(ys), ys);
    }
  }

  function Pair(x: Scalar, y: Scalar): Scalar {
    Scalar(Listed([x, y]), "")
  }

  lemma SortTwo(x: Scalar, y: Scalar)
    ensures SortByRaw([x, y]) == if RawLe(x, y) then [x, y] else [y, x]
  {
    assert [x, y][1..] == [y] && [y][1..] == [];
    assert Sort(RawLe, [y]) == Insert(RawLe, y, []) == [y];
    assert Insert(RawLe, x, []) == [x];
  }

  /** Two pairs of the same set that are decided have canonically equal first elements once sorted. */
  lemma PairsFirst(x: Scalar, y: Scalar, p: Scalar, q: Scalar)
    requires (ValueEqual(x, p) && ValueEqual(y, q)) || (ValueEqual(x, q) && ValueEqual(y, p))
    requires Decides(Pair(x, y), Pair(p, q))
    ensures ValueEqual(if RawLe(x, y) then x else y, if RawLe(p, q) then p else q)
  {
    hide SetEquals, SortByRaw, SameSet;
    PairsSame(x, y, p, q);
    SetEqualsIsPointwise(Pair(x, y), Pair(p, q));
    SortTwo(x, y);
    SortTwo(p, q);
    var s, t := SortByRaw([x, y]), SortByRaw([p, q]);
    assert Pointwise(s, t) && ValueEqual(s[0], t[0]);
  }

  lemma PairsSame(x: Scalar, y: Scalar, p: Scalar, q: Scalar)
    requires (ValueEqual(x, p) && ValueEqual(y, q)) || (ValueEqual(x, q) && ValueEqual(y, p))
    ensures SameSet([x, y], [p, q])
  {
    if ValueEqual(x, p) && ValueEqual(y, q) {
      PairAligns(x, y, p, q, [p, q]);
    } else {
      assert multiset([q, p]) == multiset{p, q} == multiset([p, q]);
      PairAligns(x, y, q, p, [p, q]);
    }
  }

  lemma PairAligns(x: Scalar, y: Scalar, p: Scalar, q: Scalar, ys: seq<Scalar>)
    requires ValueEqual(x, p) && ValueEqual(y, q) && Permutes([p, q], ys)
    ensures SameSet([x, y], ys)
  {
    hide ValueEqual;
    assert Pointwise([x, y], [p, q]);
    assert Aligns([x, y], [x, y], [p, q], ys);
  }

  lemma DecidedSeparates(x: Scalar, x': Scalar, y: Scalar)
    requires ValueEqual(x, x') && !ValueEqual(x, y)
    requires forall p, q :: p in {x, x', y} && q in {x, x', y} ==> Decides(Pair(p, q), Pair(q, p))
    requires Decides(Pair(x, y), Pair(x', y))
    ensures SameSide(x, x', y)
  {
    hide Decides;
    ValueEqualReflexive(x);
    ValueEqualReflexive(x');
    ValueEqualReflexive(y);
    assert Decides(Pair(x, y), Pair(y, x)) && Decides(Pair(x', y), Pair(y, x'));
    PairsFirst(x, y, y, x);
    PairsFirst(x', y, y, x');
    PairsFirst(x, y, x', y);
    if ValueEqual(x', y) { ValueEqualTransitive(x, x', y); }
    if ValueEqual(y, x) { ValueEqualSymmetric(y, x); }
    if ValueEqual(y, x') { ValueEqualSymmetric(y, x'); }
    StrLessTrichotomy(x.raw, y.raw);
    StrLessTrichotomy(x'.raw, y.raw);
  }

  /**
   Sorting by spelling decides equality of every two sets drawn from some elements exactly when the spellings of each
   element among them sort to one side of every element that is not its equal, and never tie with it.
   */
  lemma SetEqualsDecidesExactlyWhen(zs: seq<Scalar>)
    ensures (forall a, b :: Within(a, zs) && Within(b, zs) ==> Decides(a, b)) <==> SpellingSeparates(zs)
  {
    hide Decides;
    if SpellingSeparates(zs) {
      forall a, b | Within(a, zs) && Within(b, zs)
        ensures Decides(a, b)
      {
        SeparatedDecides(zs, a, b);
      }
    }
    if forall a, b :: Within(a, zs) && Within(b, zs) ==> Decides(a, b) {
      forall x, x', y | x in zs && x' in zs && y in zs && ValueEqual(x, x') && !ValueEqual(x, y)
        ensures SameSide(x, x', y)
      {
        forall p, q | p in {x, x', y} && q in {x, x', y}
          ensures Within(Pair(p, q), zs)
        {
        }
        assert Within(Pair(x, y), zs) && Within(Pair(x', y), zs);
        DecidedSeparates(x, x', y);
      }
    }
  }

  /** A list of strings as it is parsed: a string is its own spelling. */
  predicate Strings(sc: Scalar) {
    sc.v.Listed? && forall x :: x in sc.v.items ==> x.v == Text(x.raw)
  }

  lemma StringSetEquals(a: Scalar, b: Scalar)
    requires Strings(a) && Strings(b)
    ensures SetEquals(a, b) == Truth(multiset(a.v.items) == multiset(b.v.items))
  {
    var xs, ys := a.v.items, b.v.items;
    SetEqualsIsSameSet(a, b);
    if Permutes(xs, ys) {
      forall i | 0 <= i < |ys|
        ensures ValueEqual(ys[i], ys[i])
      {
        ValueEqualReflexive(ys[i]);
      }
      assert Aligns(ys, xs, ys, ys);
    }
    if SameSet(xs, ys) {
      var xs': seq<Scalar>, ys': seq<Scalar> :| Aligns(xs', xs, ys', ys);
      forall i | 0 <= i < |xs'|
        ensures xs'[i] == ys'[i]
      {
        PermutedIn(xs', xs, xs'[i]);
        PermutedIn(ys', ys, ys'[i]);
      }
      assert xs' == ys';
    }
  }

  predicate Declares(cand: Candidate, subject: string, path: string, sc: Scalar) {
    && subject in cand.capabilities && path in cand.capabilities[subject]
    && cand.capabilities[subject][path].scalar == Some(sc)
    && cand.capabilities[subject][path].status != "unknown"
  }

  /** On an unordered attribute holding strings, the verdict depends only on the two multisets of strings. */
  lemma SetVerdict(ct: Contract, vocabs: Vocabularies, c: Constraint, cand: Candidate, value: Scalar)
    requires c.verifyMethod == "static" && c.path.Some? && c.subject in ct.capabilities
    requires var typ := ct.capabilities[c.subject].typ;
      typ in vocabs && c.path.value in vocabs[typ] && vocabs[typ][c.path.value]
    requires c.test.Compare? && c.test.op in {Equals, NotEquals}
    requires Declares(cand, c.subject, c.path.value, value) && Strings(value) && Strings(c.test.expected)
    ensures var same := multiset(value.v.items) == multiset(c.test.expected.v.items);
      Judge(ct, vocabs, c, cand) == if same == (c.test.op == Equals) then Satisfied else Violated
  {
    StringSetEquals(value, c.test.expected);
    var loaded := Loaded(ct, vocabs, cand);
    assert loaded.capabilities[c.subject][c.path.value].scalar == Some(Rearranged(value));
  }

  // ---- where spelling is not canonical ---------------------------------------

  const MINUTES: Scalar := Scalar(Duration(300000.0), "5m")
  const HOUR: Scalar := Scalar(Duration(3600000.0), "1h")
  const SECONDS: Scalar := Scalar(Duration(300000.0), "300s")
  const SIXTY: Scalar := Scalar(Duration(3600000.0), "60m")

  lemma RespelledOrder()
    ensures SortByRaw([MINUTES, HOUR]) == [HOUR, MINUTES]
    ensures SortByRaw([SIXTY, SECONDS]) == [SECONDS, SIXTY]
  {
    assert "5m"[0] == '5' && "1h"[0] == '1' && "60m"[0] == '6' && "300s"[0] == '3';
    assert RawLe(HOUR, MINUTES) && !RawLe(MINUTES, HOUR) && RawLe(SECONDS, SIXTY) && !RawLe(SIXTY, SECONDS);
    SortTwo(MINUTES, HOUR);
    SortTwo(SIXTY, SECONDS);
  }

  /** Two spellings of one set of durations sort differently, and are then told apart. */
  lemma RespelledSetDiffers()
    ensures SameSet([MINUTES, HOUR], [SIXTY, SECONDS])
    ensures SetEquals(Scalar(Listed([MINUTES, HOUR]), ""), Scalar(Listed([SIXTY, SECONDS]), "")) == F
  {
    assert Aligns([MINUTES, HOUR], [MINUTES, HOUR], [SECONDS, SIXTY], [SIXTY, SECONDS]) by { hide SortByRaw; }
    hide SortByRaw, SameSet, Aligns;
    RespelledOrder();
    FirstsDiffer(Scalar(Listed([HOUR, MINUTES]), ""), Scalar(Listed([SECONDS, SIXTY]), ""));
  }

  lemma FirstsDiffer(a: Scalar, b: Scalar)
    requires a.v.Listed? && b.v.Listed? && |a.v.items| == |b.v.items| > 0 && Eq3(a.v.items[0], b.v.items[0]) == F
    ensures Eq3(a, b) == F
  {
    var ks := Eq3s(a, a.v.items, b.v.items);
    assert ks[0] == F;
  }
}
