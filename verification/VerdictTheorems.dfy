/**
 The verdict on a constraint, read off what the candidate declares: which constraints a candidate can settle at all,
 and what each kind of test then has to find.
 */
module VerdictTheorems {
  import opened Prelude
  import opened Scalars
  import opened OperatorTheorems
  import opened Sorting
  import opened Verify

  /** The candidate says something about the constraint's attribute. */
  predicate Mentions(cand: Candidate, c: Constraint) {
    && c.subject in cand.capabilities && c.path.Some? && c.path.value in cand.capabilities[c.subject]
  }

  /** What it says. */
  function Said(cand: Candidate, c: Constraint): Provenanced
    requires Mentions(cand, c)
  {
    cand.capabilities[c.subject][c.path.value]
  }

  /** It gives a value, and does not mark it as unknown. */
  predicate GivesValue(cand: Candidate, c: Constraint, sc: Scalar) {
    Mentions(cand, c) && Said(cand, c).scalar == Some(sc) && Said(cand, c).status != "unknown"
  }

  predicate GivesSome(cand: Candidate, c: Constraint) {
    Mentions(cand, c) && Said(cand, c).scalar.Some? && Said(cand, c).status != "unknown"
  }

  /** The vocabulary of the subject's type marks the attribute as a set. */
  predicate MarkedAsSet(ct: Contract, vocabs: Vocabularies, c: Constraint) {
    c.subject in ct.capabilities &&
    var typ := ct.capabilities[c.subject].typ;
    typ in vocabs && c.path.GetOr("") in vocabs[typ] && vocabs[typ][c.path.GetOr("")]
  }

  lemma LoadedSays(ct: Contract, vocabs: Vocabularies, cand: Candidate, c: Constraint)
    ensures Observed(c, Loaded(ct, vocabs, cand)).Some? <==> Mentions(cand, c)
    ensures Mentions(cand, c) ==>
      Observed(c, Loaded(ct, vocabs, cand)) == Some(LoadedValue(ct, vocabs, c.subject, c.path.value, Said(cand, c)))
    ensures Measured(Observed(c, Loaded(ct, vocabs, cand))) <==> GivesSome(cand, c)
  {
    hide AsSet;
  }

  lemma SameQuestion(ct: Contract, vocabs: Vocabularies, c: Constraint, cand: Candidate)
    ensures var c' := Canonicalised(ct, vocabs, c);
      c'.subject == c.subject && c'.path == c.path && c'.verifyMethod == c.verifyMethod
      && Observed(c', cand) == Observed(c, cand)
      && (c'.test.Exists? <==> c.test.Exists?) && (c'.test.Absent? <==> c.test.Absent?)
      && (c'.test.Objective? <==> c.test.Objective?)
  {
    hide AsSet;
  }

  /** An objective is scored on any value the candidate gives, and never found violated. */
  lemma ObjectivesAreScored(ct: Contract, vocabs: Vocabularies, c: Constraint, cand: Candidate)
    requires c.test.Objective?
    ensures Judge(ct, vocabs, c, cand) == if GivesSome(cand, c) then Satisfied else Unknown
  {
    hide Loaded, Canonicalised, Observed, Measured;
    LoadedSays(ct, vocabs, cand, c);
    SameQuestion(ct, vocabs, c, Loaded(ct, vocabs, cand));
  }

  /** What has to be proven by other means than the candidate's own word is never settled by it. */
  lemma OnlyStaticIsSettled(ct: Contract, vocabs: Vocabularies, c: Constraint, cand: Candidate)
    requires !c.test.Objective? && c.verifyMethod != "static"
    ensures Judge(ct, vocabs, c, cand) == Unknown
  {
    hide Loaded, Observed, Measured;
    SameQuestion(ct, vocabs, c, Loaded(ct, vocabs, cand));
  }

  /** So no candidate is executable on its own word against a hard constraint that demands more. */
  lemma UnprovenBlocks(ct: Contract, vocabs: Vocabularies, c: Constraint, cand: Candidate)
    requires c in ct.constraints && c.hard && !c.test.Objective? && c.verifyMethod != "static"
    ensures !Executable(ct, vocabs, cand)
  {
    hide Judge;
    OnlyStaticIsSettled(ct, vocabs, c, cand);
  }

  /** Nothing about a capability the candidate does not implement is settled. */
  lemma UnimplementedIsUnknown(ct: Contract, vocabs: Vocabularies, c: Constraint, cand: Candidate)
    requires c.subject !in cand.capabilities
    ensures Judge(ct, vocabs, c, cand) == Unknown
  {
    hide LoadedValue, AsSet;
    SameQuestion(ct, vocabs, c, Loaded(ct, vocabs, cand));
  }

  /** On an implemented capability, `exists` and `absent` ask whether the attribute is declared at all. */
  lemma PresenceIsDeclared(ct: Contract, vocabs: Vocabularies, c: Constraint, cand: Candidate)
    requires c.verifyMethod == "static" && c.subject in cand.capabilities && (c.test.Exists? || c.test.Absent?)
    ensures Judge(ct, vocabs, c, cand) == if Mentions(cand, c) == c.test.Exists? then Satisfied else Violated
  {
    LoadedSays(ct, vocabs, cand, c);
    assert Loaded(ct, vocabs, cand).capabilities.Keys == cand.capabilities.Keys;
    hide Loaded, Observed, Measured;
    SameQuestion(ct, vocabs, c, Loaded(ct, vocabs, cand));
  }

  /** A comparison is settled only by a value the candidate gives. */
  lemma ComparisonNeedsValue(ct: Contract, vocabs: Vocabularies, c: Constraint, cand: Candidate)
    requires c.test.Compare? && !GivesSome(cand, c)
    ensures Judge(ct, vocabs, c, cand) == Unknown
  {
    LoadedSays(ct, vocabs, cand, c);
    hide Loaded, Observed, Measured;
    SameQuestion(ct, vocabs, c, Loaded(ct, vocabs, cand));
  }

  /** The value as compared: a list of an attribute marked as a set is compared in the order of its spellings, and
      everything else as it was written. */
  function Compared(ct: Contract, vocabs: Vocabularies, c: Constraint, sc: Scalar): Scalar {
    if MarkedAsSet(ct, vocabs, c) && sc.v.Listed? then sc.(v := Listed(Sort(RawLe, sc.v.items))) else sc
  }

  lemma ComparedIsAsSet(ct: Contract, vocabs: Vocabularies, c: Constraint, sc: Scalar)
    ensures AsSet(ct, vocabs, c.subject, c.path.GetOr(""), sc) == Compared(ct, vocabs, c, sc)
  {
  }

  lemma ComparisonIsApplied(ct: Contract, vocabs: Vocabularies, c: Constraint, cand: Candidate, sc: Scalar)
    requires c.test.Compare? && c.verifyMethod == "static" && GivesValue(cand, c, sc)
    ensures Judge(ct, vocabs, c, cand)
      == FromTruth(Apply(c.test.op, Compared(ct, vocabs, c, sc), Compared(ct, vocabs, c, c.test.expected)))
  {
    ComparedIsAsSet(ct, vocabs, c, sc);
    ComparedIsAsSet(ct, vocabs, c, c.test.expected);
    LoadedSays(ct, vocabs, cand, c);
    assert c.subject in Loaded(ct, vocabs, cand).capabilities;
    hide Apply, AsSet, Compared, Loaded, FromTruth;
    SameQuestion(ct, vocabs, c, Loaded(ct, vocabs, cand));
  }

  /** On a value the candidate gives, a comparison is satisfied exactly when it holds, violated exactly when its
      opposite does, and unverifiable where the values cannot be compared. */
  lemma ComparisonSaysWhatItMeans(ct: Contract, vocabs: Vocabularies, c: Constraint, cand: Candidate, sc: Scalar)
    requires c.test.Compare? && c.verifyMethod == "static" && GivesValue(cand, c, sc)
    ensures var v, a, b := Judge(ct, vocabs, c, cand), Compared(ct, vocabs, c, sc),
        Compared(ct, vocabs, c, c.test.expected);
      && (v == Satisfied <==> Means(c.test.op, a, b)) && (v == Violated <==> MeansNot(c.test.op, a, b))
      && (v == Unverifiable <==> !Means(c.test.op, a, b) && !MeansNot(c.test.op, a, b))
  {
    hide Judge, Apply, Means, MeansNot, Compared;
    ComparisonIsApplied(ct, vocabs, c, cand, sc);
    OperatorsAnswerExactly(c.test.op, Compared(ct, vocabs, c, sc), Compared(ct, vocabs, c, c.test.expected));
  }
}
