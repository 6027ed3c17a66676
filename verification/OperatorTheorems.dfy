/**
 When each comparison operator answers true, when false, and when it refuses, in terms of the two values and without
 the operators' own tables.
 */
module OperatorTheorems {
  import opened Scalars

  /** Two values of one kind, and of one currency, that are definitely not equal. */
  ghost predicate Differs(a: Scalar, b: Scalar)
    decreases a
  {
    match (a.v, b.v)
    case (Duration(x), Duration(y)) => x != y
    case (Money(x, c), Money(y, d)) => c == d && x != y
    case (Percent(x), Percent(y)) => x != y
    case (Bytes(m), Bytes(n)) => m != n
    case (Protocol(_, _, _, _), Protocol(_, _, _, _)) => a.v != b.v
    case (Boolean(x), Boolean(y)) => x != y
    case (Number(x), Number(y)) => x != y
    case (Text(s), Text(t)) => s != t
    case (Listed(xs), Listed(ys)) => |xs| != |ys| || exists i :: 0 <= i < |xs| && Differs(xs[i], ys[i])
    case _ => false
  }

  /** `equals` is false exactly on values that definitely differ: a mismatch of kinds or currencies is refused, and so
      is a list with one at some position and no definite difference anywhere. */
  lemma {:induction false} EqualsIsFalseWhenDifferent(a: Scalar, b: Scalar)
    ensures Eq3(a, b) == F <==> Differs(a, b)
    decreases a
  {
    if Kind(a.v) == Kind(b.v) { KindIsTag(a.v, b.v); }
    if a.v.Listed? && b.v.Listed? && |a.v.items| == |b.v.items| {
      var xs, ys := a.v.items, b.v.items;
      var ks := Eq3s(a, xs, ys);
      forall i | 0 <= i < |xs|
        ensures ks[i] == F <==> Differs(xs[i], ys[i])
      {
        EqualsIsFalseWhenDifferent(xs[i], ys[i]);
      }
      assert F in ks <==> exists i :: 0 <= i < |ks| && ks[i] == F;
    }
  }

  ghost predicate Contains(b: Scalar, a: Scalar) {
    b.v.Listed? && exists x :: x in b.v.items && ValueEqual(a, x)
  }

  /** There is something to compare with, and all of it definitely differs. */
  ghost predicate Excludes(b: Scalar, a: Scalar) {
    b.v.Listed? && b.v.items != [] && forall x :: x in b.v.items ==> Differs(a, x)
  }

  /** `in` is false exactly when there is something to compare with and everything there definitely differs. */
  lemma InIsFalseWhenAllDiffer(a: Scalar, b: Scalar)
    ensures In3(a, b) == F <==> Excludes(b, a)
    ensures In3(a, b) == T <==> Contains(b, a)
  {
    hide Eq3, Differs;
    if b.v.Listed? {
      InIsMembership(a, b);
      MatchesOf(a, b.v.items, T);
      MatchesOf(a, b.v.items, U);
      forall x
        ensures Eq3(a, x) == F <==> Differs(a, x)
      {
        EqualsIsFalseWhenDifferent(a, x);
      }
    }
  }

  /** `subset-of` is false exactly when some element definitely is not in the other list. */
  lemma SubsetIsFalseWhenOneIsOut(a: Scalar, b: Scalar)
    ensures Subset3(a, b) == F <==>
      a.v.Listed? && b.v.Listed? && exists x :: x in a.v.items && In3(x, b) == F
    ensures Subset3(a, b) == U ==> !a.v.Listed? || !b.v.Listed? || exists x :: x in a.v.items && In3(x, b) == U
  {
    hide In3;
    if a.v.Listed? && b.v.Listed? {
      MembersOf(a.v.items, b, F);
      MembersOf(a.v.items, b, U);
    }
  }

  /** Two measures of one kind, and of one currency, and what they measure. */
  ghost predicate Measures(a: Scalar, b: Scalar, x: real, y: real) {
    || (a.v == Duration(x) && b.v == Duration(y)) || (a.v == Percent(x) && b.v == Percent(y))
    || (a.v == Number(x) && b.v == Number(y))
    || (a.v.Money? && b.v.Money? && a.v.currency == b.v.currency && a.v.amount == x && b.v.amount == y)
    || (a.v.Bytes? && b.v.Bytes? && a.v.count as real == x && b.v.count as real == y)
  }

  /** The orderings compare what is measured, the bound included, and refuse everything else. */
  lemma OrderingsCompareMeasures(a: Scalar, b: Scalar)
    ensures forall x, y :: Measures(a, b, x, y) ==>
      Lte3(a, b) == (if x <= y then T else F) && Gte3(a, b) == (if y <= x then T else F)
    ensures (forall x, y :: !Measures(a, b, x, y)) ==> Lte3(a, b) == U && Gte3(a, b) == U
  {
    if SameKind(a, b) && Orderable(a.v) {
      KindIsTag(a.v, b.v);
      assert Measures(a, b, Ordinal(a.v), Ordinal(b.v));
    }
  }

  /** A protocol version is compatible with a requirement of the same name and major that it is not older than. */
  lemma CompatibleMeansNotOlder(a: Scalar, b: Scalar)
    ensures Compatible3(a, b) == U <==> !(a.v.Protocol? && b.v.Protocol?)
    ensures Compatible3(a, b) == T <==>
      && a.v.Protocol? && b.v.Protocol? && a.v.name == b.v.name && a.v.major == b.v.major
      && !(a.v.minor < b.v.minor) && (a.v.minor == b.v.minor ==> !(a.v.patch < b.v.patch))
  {
  }

  /** What a comparison of a constraint has to mean for the answer to be true. */
  ghost predicate Means(op: Operator, a: Scalar, b: Scalar) {
    match op
    case Equals => ValueEqual(a, b)
    case NotEquals => Differs(a, b)
    case In => Contains(b, a)
    case NotIn => Excludes(b, a)
    case Lte => exists x, y :: Measures(a, b, x, y) && x <= y
    case Gte => exists x, y :: Measures(a, b, x, y) && x >= y
    case SubsetOf => a.v.Listed? && b.v.Listed? && forall x :: x in a.v.items ==> Contains(b, x)
    case CompatibleWith =>
      && a.v.Protocol? && b.v.Protocol? && a.v.name == b.v.name && a.v.major == b.v.major
      && (a.v.minor > b.v.minor || (a.v.minor == b.v.minor && a.v.patch >= b.v.patch))
  }

  /** The question that has the opposite answer. */
  ghost predicate MeansNot(op: Operator, a: Scalar, b: Scalar) {
    match op
    case Equals => Means(NotEquals, a, b)
    case NotEquals => Means(Equals, a, b)
    case In => Means(NotIn, a, b)
    case NotIn => Means(In, a, b)
    case Lte => exists x, y :: Measures(a, b, x, y) && x > y
    case Gte => exists x, y :: Measures(a, b, x, y) && x < y
    case SubsetOf => a.v.Listed? && b.v.Listed? && exists x :: x in a.v.items && Excludes(b, x)
    case CompatibleWith => a.v.Protocol? && b.v.Protocol? && !Means(CompatibleWith, a, b)
  }

  /** The operator table: an operator answers true exactly when the comparison holds, false exactly when its opposite
      does, and refuses where neither can be said. */
  lemma OperatorsAnswerExactly(op: Operator, a: Scalar, b: Scalar)
    ensures Apply(op, a, b) == T <==> Means(op, a, b)
    ensures Apply(op, a, b) == F <==> MeansNot(op, a, b)
  {
    hide Eq3, In3, Subset3, Lte3, Gte3, Compatible3, Differs, ValueEqual, Measures;
    match op {
      case Equals => DefiniteEqualsIsValueEqual(a, b); EqualsIsFalseWhenDifferent(a, b);
      case NotEquals => DefiniteEqualsIsValueEqual(a, b); EqualsIsFalseWhenDifferent(a, b);
      case In => InIsFalseWhenAllDiffer(a, b);
      case NotIn => InIsFalseWhenAllDiffer(a, b);
      case Lte => OrderingAnswers(a, b);
      case Gte => OrderingAnswers(a, b);
      case SubsetOf => SubsetAnswers(a, b);
      case CompatibleWith => CompatibleMeansNotOlder(a, b);
    }
  }

  lemma OrderingAnswers(a: Scalar, b: Scalar)
    ensures Lte3(a, b) == T <==> exists x, y :: Measures(a, b, x, y) && x <= y
    ensures Lte3(a, b) == F <==> exists x, y :: Measures(a, b, x, y) && x > y
    ensures Gte3(a, b) == T <==> exists x, y :: Measures(a, b, x, y) && x >= y
    ensures Gte3(a, b) == F <==> exists x, y :: Measures(a, b, x, y) && x < y
  {
    OrderingsCompareMeasures(a, b);
    hide Lte3, Gte3, Measures;
    if x, y :| Measures(a, b, x, y) {
      assert Lte3(a, b) == (if x <= y then T else F) && Gte3(a, b) == (if y <= x then T else F);
    }
  }

  lemma SubsetAnswers(a: Scalar, b: Scalar)
    ensures Subset3(a, b) == T <==> a.v.Listed? && b.v.Listed? && forall x :: x in a.v.items ==> Contains(b, x)
    ensures Subset3(a, b) == F <==> a.v.Listed? && b.v.Listed? && exists x :: x in a.v.items && Excludes(b, x)
  {
    hide In3, Differs, ValueEqual;
    if a.v.Listed? && b.v.Listed? { SubsetIsInclusion(a, b); }
    SubsetIsFalseWhenOneIsOut(a, b);
    hide Subset3;
    forall x
      ensures In3(x, b) == F <==> Excludes(b, x)
    {
      InIsFalseWhenAllDiffer(x, b);
    }
  }
}
