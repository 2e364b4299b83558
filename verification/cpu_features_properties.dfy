/**
 * Properties of `CPUFeatures` that relate several operations: the word is a
 * canonical representation of its members, the four-argument forms ignore
 * argument order and repetition, and `With`/`Without`/`Has` obey the laws of
 * union, difference and inclusion.
 */
module CpuFeaturesProperties {
  import opened Word64
  import opened CpuFeatures

  /** Two valid sets with the same members have the same word. */
  lemma CanonicalRepresentation(a: CPUFeatures, b: CPUFeatures)
    requires Valid(a) && Valid(b)
    requires Members(a) == Members(b)
    ensures a == b
  {
    ValidMembers(a);
    ValidMembers(b);
    PositionsDetermineWord(a.features, b.features);
  }

  /** Sets with the same bits are equal, valid or not. */
  lemma SamePositions(a: CPUFeatures, b: CPUFeatures)
    requires Positions(a.features) == Positions(b.features)
    ensures a == b
  {
    PositionsDetermineWord(a.features, b.features);
  }

  /**
   * The four-argument constructor depends only on which features are named:
   * neither the order of the arguments nor repetition nor `kNone` padding
   * changes the result.
   */
  lemma FromFeaturesDependsOnlyOnArguments(
    f0: Feature, f1: Feature, f2: Feature, f3: Feature,
    g0: Feature, g1: Feature, g2: Feature, g3: Feature)
    requires Arguments(f0, f1, f2, f3) == Arguments(g0, g1, g2, g3)
    ensures FromFeatures(f0, f1, f2, f3) == FromFeatures(g0, g1, g2, g3)
  {
    CanonicalRepresentation(FromFeatures(f0, f1, f2, f3), FromFeatures(g0, g1, g2, g3));
  }

  /** Instance: reversing the arguments. */
  lemma FromFeaturesOrder(f0: Feature, f1: Feature, f2: Feature, f3: Feature)
    ensures FromFeatures(f0, f1, f2, f3) == FromFeatures(f3, f2, f1, f0)
  {
    SwapFour(Denotes(f0), Denotes(f1), Denotes(f2), Denotes(f3));
    FromFeaturesDependsOnlyOnArguments(f0, f1, f2, f3, f3, f2, f1, f0);
  }

  /** Instance: repeating an argument and padding with `kNone`. */
  lemma FromFeaturesDuplicates(f0: Feature, f1: Feature)
    ensures FromFeatures(f0, f0, f1, kNone) == FromFeatures(f1, f0, kNone, kNone)
  {
    RepeatFour(Denotes(f0), Denotes(f1), Denotes(kNone));
    FromFeaturesDependsOnlyOnArguments(f0, f0, f1, kNone, f1, f0, kNone, kNone);
  }

  lemma SwapFour(a: set<nat>, b: set<nat>, c: set<nat>, d: set<nat>)
    ensures a + b + c + d == d + c + b + a
  {
  }

  lemma RepeatFour(a: set<nat>, b: set<nat>, e: set<nat>)
    requires e == {}
    ensures a + a + b + e == b + a + e + e
  {
  }

  /** Naming no feature at all gives the default-constructed set. */
  lemma FromNoFeaturesIsEmpty()
    ensures FromFeatures(kNone, kNone, kNone, kNone) == Empty()
  {
    CanonicalRepresentation(FromFeatures(kNone, kNone, kNone, kNone), Empty());
  }

  /** The same holds for the four-argument `Combine` applied to any set. */
  lemma CombineFeaturesDependsOnlyOnArguments(
    s: CPUFeatures,
    f0: Feature, f1: Feature, f2: Feature, f3: Feature,
    g0: Feature, g1: Feature, g2: Feature, g3: Feature)
    requires Arguments(f0, f1, f2, f3) == Arguments(g0, g1, g2, g3)
    ensures CombineFeatures(s, f0, f1, f2, f3) == CombineFeatures(s, g0, g1, g2, g3)
  {
    SamePositions(CombineFeatures(s, f0, f1, f2, f3), CombineFeatures(s, g0, g1, g2, g3));
  }

  /** `All()` holds every feature and the empty set none; their counts are N and 0. */
  lemma AllAndEmpty(f: Feature)
    ensures f != kNone ==> HasFeatures(All(), f, kNone, kNone, kNone)
    ensures f != kNone ==> !HasFeatures(Empty(), f, kNone, kNone, kNone)
    ensures Count(All()) == kNumberOfFeatures
    ensures Count(Empty()) == 0
  {
  }

  /** Every set has `kNone` and the empty set, the empty set included. */
  lemma HasNothing(s: CPUFeatures)
    ensures HasFeatures(s, kNone, kNone, kNone, kNone)
    ensures Has(s, Empty())
    ensures Has(Empty(), Empty())
  {
  }

  /** `s.With(s) == s`: union is idempotent. */
  lemma WithSelf(s: CPUFeatures)
    ensures With(s, s) == s
  {
    SamePositions(With(s, s), s);
  }

  /** `s.Without(s)` is the empty set. */
  lemma WithoutSelf(s: CPUFeatures)
    ensures Without(s, s) == Empty()
  {
    SamePositions(Without(s, s), Empty());
  }

  /** `a.With(b)` has both `a` and `b`. */
  lemma WithHasBoth(a: CPUFeatures, b: CPUFeatures)
    ensures Has(With(a, b), a)
    ensures Has(With(a, b), b)
  {
  }

  /** `s.With(f0, f1, f2, f3).Has(f0, f1, f2, f3)`. */
  lemma WithFeaturesHasThem(s: CPUFeatures, f0: Feature, f1: Feature, f2: Feature, f3: Feature)
    ensures HasFeatures(WithFeatures(s, f0, f1, f2, f3), f0, f1, f2, f3)
  {
  }

  /** After `Without(f0, f1, f2, f3)` no named feature is present. */
  lemma WithoutFeaturesLacksThem(s: CPUFeatures, f0: Feature, f1: Feature, f2: Feature, f3: Feature, f: Feature)
    requires f in Arguments(f0, f1, f2, f3)
    ensures !HasFeatures(WithoutFeatures(s, f0, f1, f2, f3), f, kNone, kNone, kNone)
  {
    RemovedIsAbsent(s, f0, f1, f2, f3, f);
    AbsentIsNotHad(WithoutFeatures(s, f0, f1, f2, f3), f);
  }

  lemma RemovedIsAbsent(s: CPUFeatures, f0: Feature, f1: Feature, f2: Feature, f3: Feature, f: Feature)
    requires f in Arguments(f0, f1, f2, f3)
    ensures f != kNone
    ensures f !in Members(WithoutFeatures(s, f0, f1, f2, f3))
  {
  }

  lemma AbsentIsNotHad(r: CPUFeatures, f: Feature)
    requires f != kNone && f !in Members(r)
    ensures !HasFeatures(r, f, kNone, kNone, kNone)
  {
    OneArgument(f);
  }

  /** A single real feature named among `kNone` padding stands for itself. */
  lemma OneArgument(f: Feature)
    ensures f != kNone ==> Arguments(f, kNone, kNone, kNone) == {f}
    ensures f == kNone ==> Arguments(f, kNone, kNone, kNone) == {}
  {
  }

  /** Removing what was just added, when it was not there before, restores the set. */
  lemma WithoutUndoesWith(s: CPUFeatures, other: CPUFeatures)
    requires Positions(s.features) !! Positions(other.features)
    ensures Without(With(s, other), other) == s
  {
    SamePositions(Without(With(s, other), other), s);
  }

  /** Adding back what was just removed gives the union. */
  lemma WithRestoresWithout(s: CPUFeatures, other: CPUFeatures)
    ensures With(Without(s, other), other) == With(s, other)
  {
    SamePositions(With(Without(s, other), other), With(s, other));
  }

  /** `Has` is the inclusion order on words: reflexive, transitive and antisymmetric. */
  lemma HasIsInclusion(a: CPUFeatures, b: CPUFeatures, c: CPUFeatures)
    ensures Has(a, a)
    ensures Has(a, b) && Has(b, c) ==> Has(a, c)
    ensures Has(a, b) && Has(b, a) ==> a == b
  {
    if Has(a, b) && Has(b, a) {
      SamePositions(a, b);
    }
  }

  /** The union gains exactly the members of `other` that the receiver lacked. */
  lemma CountOfWith(s: CPUFeatures, other: CPUFeatures)
    ensures Count(With(s, other)) == Count(s) + Count(Without(other, s))
  {
    UnionCardinality(Positions(s.features), Positions(other.features));
  }

  lemma UnionCardinality(a: set<nat>, b: set<nat>)
    ensures |a + b| == |a| + |b - a|
  {
    assert a + b == a + (b - a);
    assert a !! (b - a);
  }
}
