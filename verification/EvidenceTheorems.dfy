/**
 What an audit's verdict says about the recorded evidence: the bar a constraint is held to, the record that decides it,
 and that a decision always rests on a reading in force, with times and bars written out.
 */
module EvidenceTheorems {
  import opened Prelude
  import opened Scalars
  import opened OperatorTheorems
  import opened Sorting
  import opened Verify
  import opened VerdictTheorems
  import opened Audit

  // ---- the bar ---------------------------------------------------------------

  /** A path belongs to a namespace that is a prefix of it and ends there, at a dot, or with one. */
  predicate Under(ns: string, path: string) {
    ns <= path && (|path| == |ns| || path[|ns|] == '.' || (ns != "" && ns[|ns| - 1] == '.'))
  }

  predicate IsControl(path: string) {
    exists ns :: ns in SECURITY_NAMESPACES && Under(ns, path)
  }

  lemma CoversIsUnder(ns: string, path: string)
    ensures Covers(ns, path) <==> Under(ns, path)
  {
    if ns <= path && |path| > |ns| && path[|ns|] == '.' {
      assert path[..|ns| + 1] == ns + ".";
    }
    if ns + "." <= path { assert path[|ns|] == '.' && ns <= path; }
  }

  lemma ControlsAreSecurityPaths(path: string)
    ensures IsSecurityPath(path) <==> IsControl(path)
  {
    forall ns
      ensures Covers(ns, path) <==> Under(ns, path)
    {
      CoversIsUnder(ns, path);
    }
  }

  datatype Bar = AnySource | Provider | Probe

  /** The bar of a constraint: its own, but a hard security control is never taken on declared intent. */
  function BarOf(c: Constraint): Bar {
    if c.runtimeMethod == "probe" then Probe
    else if c.runtimeMethod == "provider-api" then Provider
    else if c.hard && IsControl(c.path.GetOr("")) then Provider
    else AnySource
  }

  /** A declared setting or a platform guarantee clears no bar but the lowest. */
  predicate Clears(bar: Bar, src: string, derivation: string) {
    bar.AnySource? ||
    (derivation != "config-intent" && derivation != "platform-invariant"
     && (src == "probe" || (bar.Provider? && src == "provider-api")))
  }

  lemma MethodsDiffer()
    ensures "probe" != "provider-api" && "static" != "probe"
  {
    assert |"probe"| == 5 && |"provider-api"| == 12 && |"static"| == 6;
  }

  lemma BarIsEnforced(c: Constraint, records: BySource, src: string)
    ensures Meets(records, src, MethodRank(RequiredMethod(c))) <==>
      src in records && Clears(BarOf(c), src, records[src].derivation)
  {
    hide IsSecurityPath, IsControl;
    MethodsDiffer();
    ControlsAreSecurityPaths(c.path.GetOr(""));
  }

  // ---- the record that decides -----------------------------------------------

  /** A record the audit may judge by: it clears the bar, and is not known to be dated after the audit. */
  ghost predicate Admissible(obs: Observations, c: Constraint, src: string, clock: int) {
    && HasRecord(obs, c, src) && Clears(BarOf(c), src, RecordAt(obs, c, src).derivation)
    && (forall t :: RecordAt(obs, c, src).observedAt.clock == Some(t) ==> t <= clock)
  }

  predicate HasRecord(obs: Observations, c: Constraint, src: string) {
    c.subject in obs && c.path.GetOr("") in obs[c.subject] && src in obs[c.subject][c.path.GetOr("")]
  }

  function RecordAt(obs: Observations, c: Constraint, src: string): ObsRecord
    requires HasRecord(obs, c, src)
  {
    obs[c.subject][c.path.GetOr("")][src]
  }

  lemma AdmissibleIsEligible(obs: Observations, c: Constraint, src: string, clock: int)
    ensures src in RecordsOf(obs, c) <==> HasRecord(obs, c, src)
    ensures HasRecord(obs, c, src) ==> RecordsOf(obs, c)[src] == RecordAt(obs, c, src)
    ensures Eligible(RecordsOf(obs, c), src, MethodRank(RequiredMethod(c)), clock) <==> Admissible(obs, c, src, clock)
  {
    hide RequiredMethod, BarOf, Clears, MethodRank;
    BarIsEnforced(c, RecordsOf(obs, c), src);
  }

  /** What a record says of a constraint: a stale one nothing, a fresh one that the attribute is there and, for a
      comparison, what its value means. */
  ghost predicate Judges(ct: Contract, vocabs: Vocabularies, c: Constraint, r: ObsRecord, clock: int, v: Verdict) {
    if forall t :: r.observedAt.clock == Some(t) ==> clock - t > r.ttl then v == Unknown
    else match c.test
      case Exists => v == Satisfied
      case Absent => v == Violated
      case Objective => v == Unknown
      case Compare(op, expected) =>
        if r.value.None? then v == Unverifiable
        else
          var a, b := Compared(ct, vocabs, c, r.value.value), Compared(ct, vocabs, c, expected);
          && (v == Satisfied <==> Means(op, a, b)) && (v == Violated <==> MeansNot(op, a, b))
          && (v == Unverifiable <==> !Means(op, a, b) && !MeansNot(op, a, b))
  }

  lemma RecordIsJudged(ct: Contract, vocabs: Vocabularies, c: Constraint, r: ObsRecord, clock: int)
    ensures Judges(ct, vocabs, c, r, clock, JudgeRecord(ct, vocabs, c, r, clock))
  {
    hide Apply, AsSet, Compared, Means, MeansNot;
    if c.test.Compare? && r.value.Some? {
      ComparedIsAsSet(ct, vocabs, c, r.value.value);
      ComparedIsAsSet(ct, vocabs, c, c.test.expected);
      OperatorsAnswerExactly(c.test.op, Compared(ct, vocabs, c, r.value.value),
        Compared(ct, vocabs, c, c.test.expected));
    }
  }

  /** No admissible record has a later time than this one. */
  ghost predicate IsLatest(obs: Observations, c: Constraint, src: string, clock: int)
    requires HasRecord(obs, c, src)
  {
    forall u, t, t' ::
      && Admissible(obs, c, u, clock) && RecordAt(obs, c, u).observedAt.clock == Some(t)
      && RecordAt(obs, c, src).observedAt.clock == Some(t')
      ==> t <= t'
  }

  /** Every record that clears the bar has a time that can be read. */
  ghost predicate TimesReadable(obs: Observations, c: Constraint) {
    forall u :: HasRecord(obs, c, u) && Clears(BarOf(c), u, RecordAt(obs, c, u).derivation) ==>
      RecordAt(obs, c, u).observedAt.clock.Some?
  }

  ghost predicate SomeClears(obs: Observations, c: Constraint) {
    exists u :: HasRecord(obs, c, u) && Clears(BarOf(c), u, RecordAt(obs, c, u).derivation)
  }

  ghost predicate SomeAdmissible(obs: Observations, c: Constraint, clock: int) {
    exists u :: Admissible(obs, c, u, clock)
  }

  ghost predicate JudgedBy(ct: Contract, vocabs: Vocabularies, obs: Observations, clock: int, c: Constraint, v: Verdict,
                           src: string) {
    && Admissible(obs, c, src, clock) && Judges(ct, vocabs, c, RecordAt(obs, c, src), clock, v)
    && (TimesReadable(obs, c) ==> IsLatest(obs, c, src, clock))
  }

  /** An audit's verdict is what an admissible record says, the latest where times can be read. Where there is none it
      is unverifiable if only future readings clear the bar, and unknown if nothing clears it. */
  lemma VerdictFollowsEvidence(ct: Contract, vocabs: Vocabularies, obs: Observations, clock: int, c: Constraint,
                               v: Verdict)
    requires Judgement(ct, vocabs, obs, clock, c, v)
    ensures SomeAdmissible(obs, c, clock) ==> exists src :: JudgedBy(ct, vocabs, obs, clock, c, v, src)
    ensures !SomeAdmissible(obs, c, clock) ==> v == if SomeClears(obs, c) then Unverifiable else Unknown
  {
    var records, need := RecordsOf(obs, c), MethodRank(RequiredMethod(c));
    var order :| IsOrderOf(order, records.Keys)
      && v == JudgeSelection(ct, vocabs, c, SelectIn(records, order, need, clock), clock);
    var sel := SelectIn(records, order, need, clock);
    hide RecordsOf, RequiredMethod, MethodRank, SelectIn, JudgeRecord, Judges, Admissible, Judgement, Meets, Eligible;
    EveryOrderIsJustified(records, order, need, clock);
    EvidenceAgrees(obs, c, clock);
    if sel.Found? {
      RecordIsJudged(ct, vocabs, c, sel.rec, clock);
      var src := TheChosen(obs, c, clock, sel);
      assert JudgedBy(ct, vocabs, obs, clock, c, v, src);
    } else {
      NoneChosen(obs, c, clock, sel);
    }
  }

  /** The audit's own notions and those here, source by source. */
  lemma EvidenceAgrees(obs: Observations, c: Constraint, clock: int)
    ensures var records, need := RecordsOf(obs, c), MethodRank(RequiredMethod(c));
      forall u ::
        && (u in records <==> HasRecord(obs, c, u))
        && (HasRecord(obs, c, u) ==> records[u] == RecordAt(obs, c, u))
        && (Eligible(records, u, need, clock) <==> Admissible(obs, c, u, clock))
        && (Meets(records, u, need) <==>
              HasRecord(obs, c, u) && Clears(BarOf(c), u, RecordAt(obs, c, u).derivation))
  {
    hide RecordsOf, RequiredMethod, MethodRank, Admissible, Meets, Eligible, HasRecord, RecordAt, Clears, BarOf;
    var records := RecordsOf(obs, c);
    forall u
      ensures u in records <==> HasRecord(obs, c, u)
      ensures HasRecord(obs, c, u) ==> records[u] == RecordAt(obs, c, u)
      ensures Eligible(records, u, MethodRank(RequiredMethod(c)), clock) <==> Admissible(obs, c, u, clock)
      ensures Meets(records, u, MethodRank(RequiredMethod(c))) <==>
        HasRecord(obs, c, u) && Clears(BarOf(c), u, RecordAt(obs, c, u).derivation)
    {
      AdmissibleIsEligible(obs, c, u, clock);
      BarIsEnforced(c, records, u);
    }
  }

  lemma TheChosen(obs: Observations, c: Constraint, clock: int, sel: Selection) returns (src: string)
    requires sel.Found? && Justified(RecordsOf(obs, c), MethodRank(RequiredMethod(c)), clock, sel)
    ensures Admissible(obs, c, src, clock) && RecordAt(obs, c, src) == sel.rec
    ensures TimesReadable(obs, c) ==> IsLatest(obs, c, src, clock)
  {
    hide RecordsOf, RequiredMethod, MethodRank, Meets, Eligible, Clears, BarOf;
    var records, need := RecordsOf(obs, c), MethodRank(RequiredMethod(c));
    EvidenceAgrees(obs, c, clock);
    if TimesReadable(obs, c) {
      src :| Audit.Newest(records, src, need, clock) && records[src] == sel.rec;
    } else {
      src :| Eligible(records, src, need, clock) && records[src] == sel.rec;
    }
  }

  lemma NoneChosen(obs: Observations, c: Constraint, clock: int, sel: Selection)
    requires !sel.Found? && Justified(RecordsOf(obs, c), MethodRank(RequiredMethod(c)), clock, sel)
    ensures !SomeAdmissible(obs, c, clock)
    ensures sel == OnlyFuture <==> SomeClears(obs, c)
  {
    hide RecordsOf, RequiredMethod, MethodRank, Admissible, Clears, BarOf, HasRecord, RecordAt;
    EvidenceAgrees(obs, c, clock);
    FoundIffEligible(RecordsOf(obs, c), MethodRank(RequiredMethod(c)), clock, sel);
  }

  /** Any decided verdict, of any constraint, rests on a record that clears the bar and was read no later than the audit
      and no more than its ttl before it. */
  lemma DecidedOnFreshEvidence(ct: Contract, vocabs: Vocabularies, obs: Observations, clock: int, c: Constraint,
                               v: Verdict)
    requires Judgement(ct, vocabs, obs, clock, c, v) && (v == Satisfied || v == Violated)
    ensures exists src, t ::
      && c.subject in obs && c.path.GetOr("") in obs[c.subject] && src in obs[c.subject][c.path.GetOr("")]
      && Clears(BarOf(c), src, obs[c.subject][c.path.GetOr("")][src].derivation)
      && obs[c.subject][c.path.GetOr("")][src].observedAt.clock == Some(t)
      && t <= clock && clock - t <= obs[c.subject][c.path.GetOr("")][src].ttl
  {
    hide Judgement, Compared, Means, MeansNot, Clears, BarOf;
    VerdictFollowsEvidence(ct, vocabs, obs, clock, c, v);
    var src :| JudgedBy(ct, vocabs, obs, clock, c, v, src);
    var r := RecordAt(obs, c, src);
    var t :| r.observedAt.clock == Some(t) && clock - t <= r.ttl;
  }

  /** Evidence that has run out decides nothing: where every admissible record is older than its ttl, or its time cannot
      be read, the verdict is unknown. */
  lemma StaleEvidenceIsUnknown(ct: Contract, vocabs: Vocabularies, obs: Observations, clock: int, c: Constraint,
                               v: Verdict)
    requires Judgement(ct, vocabs, obs, clock, c, v) && SomeAdmissible(obs, c, clock)
    requires forall src, t :: Admissible(obs, c, src, clock) && RecordAt(obs, c, src).observedAt.clock == Some(t) ==>
      clock - t > RecordAt(obs, c, src).ttl
    ensures v == Unknown
  {
    hide Judgement, Compared, Means, MeansNot;
    VerdictFollowsEvidence(ct, vocabs, obs, clock, c, v);
    var src :| JudgedBy(ct, vocabs, obs, clock, c, v, src);
  }

  // ---- the report ------------------------------------------------------------

  /** A report has one finding for each constraint that is no objective, in the order of their ids. */
  lemma ReportIsInOrder(ct: Contract, vocabs: Vocabularies, obs: Observations, clock: int, findings: seq<Finding>)
    requires Reports(ct, vocabs, obs, clock, findings)
    ensures forall i, j :: 0 <= i < j < |findings| ==> !StrLess(findings[j].c.id, findings[i].c.id)
    ensures forall c ::
      multiset(Constraints(findings))[c] == if c.test.Objective? then 0 else multiset(ct.constraints)[c]
  {
    hide AllJudged;
    var sorted := Sort(IdLe, ct.constraints);
    IdLeIsTotal();
    SortSorts(IdLe, ct.constraints);
    GatedSorted(sorted);
    forall c
      ensures multiset(Constraints(findings))[c] == if c.test.Objective? then 0 else multiset(ct.constraints)[c]
    {
      GatedCounts(sorted, c);
    }
    forall i, j | 0 <= i < j < |findings|
      ensures !StrLess(findings[j].c.id, findings[i].c.id)
    {
      assert IdLe(Constraints(findings)[i], Constraints(findings)[j]);
    }
  }

  lemma {:induction false} GatedCounts(cs: seq<Constraint>, c: Constraint)
    ensures multiset(Gated(cs))[c] == if c.test.Objective? then 0 else multiset(cs)[c]
  {
    if cs != [] {
      GatedCounts(cs[..|cs| - 1], c);
      assert cs == cs[..|cs| - 1] + [cs[|cs| - 1]];
    }
  }

  lemma {:induction false} GatedSorted(cs: seq<Constraint>)
    requires SortedBy(IdLe, cs)
    ensures SortedBy(IdLe, Gated(cs))
  {
    if cs != [] {
      var rest, last := cs[..|cs| - 1], cs[|cs| - 1];
      GatedSorted(rest);
      forall c | c in Gated(rest)
        ensures IdLe(c, last)
      {
        GatedHolds(rest, c);
        var i :| 0 <= i < |rest| && rest[i] == c;
        assert cs[i] == c;
      }
    }
  }
}
