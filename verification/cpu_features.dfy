/**
 * `CPUFeatures`: a set of CPU feature ordinals packed into one 64-bit word.
 *
 * Two views of the same value are kept side by side. The concrete view is
 * the `features_` word and the machine operators applied to it, exactly as
 * the implementation writes them. The abstract view is `Members`, the set
 * of ordinals whose bit is set. Every operation is specified in the abstract
 * view; where the word matters (bits above the last feature, bits an
 * operation must leave alone) it is specified bit by bit as well.
 */
module CpuFeatures {
  import opened Word64

  /**
   * Legal values of `kNumberOfFeatures`: at least one feature, and few
   * enough that `UINT64_C(1) << kNumberOfFeatures` is defined. This is the
   * stricter of the two width checks in the implementation.
   */
  type FeatureCount = n: nat | 0 < n < 64 witness 1

  /**
   * `kNumberOfFeatures`. Its value is fixed by the feature list, which is not
   * part of this model, so every result below holds for each legal value.
   */
  const kNumberOfFeatures: FeatureCount

  /** A feature ordinal, or the sentinel `kNone`. */
  type Feature = f: nat | f <= kNumberOfFeatures

  /** The sentinel "no feature", one past the last ordinal. */
  const kNone: Feature := kNumberOfFeatures

  /** The members one argument of a four-argument overload stands for. */
  function Denotes(f: Feature): set<nat>
  {
    if f == kNone then {} else {f}
  }

  /** The members the four arguments of an overload stand for together. */
  function Arguments(f0: Feature, f1: Feature, f2: Feature, f3: Feature): set<nat>
  {
    Denotes(f0) + Denotes(f1) + Denotes(f2) + Denotes(f3)
  }

  /** Every valid feature ordinal. */
  function Universe(): set<nat>
  {
    Range(kNumberOfFeatures)
  }

  datatype CPUFeatures = CPUFeatures(features: bv64)

  /** The representation invariant: no bit at `kNumberOfFeatures` or above is set. */
  ghost predicate Valid(s: CPUFeatures)
  {
    Positions(s.features) <= Universe()
  }

  /** The abstraction function: the ordinals whose bit is set. */
  ghost function Members(s: CPUFeatures): set<nat>
  {
    Positions(s.features) * Universe()
  }

  // ---------------------------------------------------------------------
  // Set algebra used to move between the word and its members. Stating it
  // over plain sets keeps the word operators out of these proofs.

  lemma RestrictUnion(a: set<nat>, b: set<nat>, u: set<nat>)
    ensures (a + b) * u == a * u + b * u
  {
  }

  lemma RestrictDifference(a: set<nat>, b: set<nat>, u: set<nat>)
    ensures (a - b) * u == a * u - b * u
  {
  }

  lemma RestrictInside(a: set<nat>, u: set<nat>)
    requires a <= u
    ensures a * u == a
  {
  }

  lemma RestrictSubset(a: set<nat>, b: set<nat>, u: set<nat>)
    requires b <= u
    ensures b <= a <==> b <= a * u
  {
  }

  /** The arguments of an overload are always valid ordinals. */
  lemma ArgumentsInUniverse(f0: Feature, f1: Feature, f2: Feature, f3: Feature)
    ensures Arguments(f0, f1, f2, f3) <= Universe()
  {
  }

  // ---------------------------------------------------------------------
  // Masks and construction

  /**
   * The word for one feature: zero for `kNone`, otherwise the single bit
   * of the ordinal. The subset type `Feature` plays the role of the
   * assertion that the ordinal is below `kNumberOfFeatures`.
   */
  function MakeFeatureMask(f: Feature): (m: bv64)
    ensures f == kNone <==> m == 0
    ensures Positions(m) == Denotes(f)
  {
    if f == kNone then
      ZeroPositions();
      0
    else
      SingleBit(f)
  }

  /** The default-constructed set, whose word is zero. */
  function Empty(): (s: CPUFeatures)
    ensures Valid(s) && Members(s) == {}
  {
    ZeroPositions();
    CPUFeatures(0)
  }

  /** The four-argument constructor: start from zero and add the arguments. */
  function FromFeatures(f0: Feature, f1: Feature, f2: Feature, f3: Feature): (s: CPUFeatures)
    ensures Valid(s)
    ensures Members(s) == Arguments(f0, f1, f2, f3)
  {
    CombineFeatures(Empty(), f0, f1, f2, f3)
  }

  /** `All()`: the word with the low `kNumberOfFeatures` bits set. */
  function All(): (s: CPUFeatures)
    ensures Valid(s)
    ensures Members(s) == Universe()
  {
    var s := CPUFeatures(LowMask(kNumberOfFeatures));
    RestrictInside(Positions(s.features), Universe());
    s
  }

  /** `InferFromOS()`: detection is not implemented, so the result is the empty set. */
  function InferFromOS(): (s: CPUFeatures)
    ensures Valid(s) && Members(s) == {}
  {
    Empty()
  }

  // ---------------------------------------------------------------------
  // Union and difference. The mutating operations return the new value of
  // the receiver.

  /** `Combine(other)`: the receiver becomes the union of both sets. */
  function Combine(s: CPUFeatures, other: CPUFeatures): (r: CPUFeatures)
    ensures Positions(r.features) == Positions(s.features) + Positions(other.features)
    ensures Members(r) == Members(s) + Members(other)
    ensures Valid(s) && Valid(other) ==> Valid(r)
  {
    OrPositions(s.features, other.features);
    RestrictUnion(Positions(s.features), Positions(other.features), Universe());
    CPUFeatures(s.features | other.features)
  }

  /** One step of the four-argument `Combine`: `features_ |= MakeFeatureMask(f)`. */
  function CombineOne(s: CPUFeatures, f: Feature): (r: CPUFeatures)
    ensures Positions(r.features) == Positions(s.features) + Denotes(f)
  {
    CPUFeatures(OrMask(s.features, f))
  }

  lemma UnionFour(p: set<nat>, d0: set<nat>, d1: set<nat>, d2: set<nat>, d3: set<nat>)
    ensures p + d0 + d1 + d2 + d3 == p + (d0 + d1 + d2 + d3)
  {
  }

  /**
   * `Combine(f0, f1, f2, f3)`: the receiver gains exactly the non-`kNone`
   * arguments; every other bit, including those above the last feature,
   * keeps its value.
   */
  function CombineFeatures(s: CPUFeatures, f0: Feature, f1: Feature, f2: Feature, f3: Feature): (r: CPUFeatures)
    ensures Positions(r.features) == Positions(s.features) + Arguments(f0, f1, f2, f3)
    ensures Members(r) == Members(s) + Arguments(f0, f1, f2, f3)
    ensures Valid(s) ==> Valid(r)
  {
    var r := CombineOne(CombineOne(CombineOne(CombineOne(s, f0), f1), f2), f3);
    UnionFour(Positions(s.features), Denotes(f0), Denotes(f1), Denotes(f2), Denotes(f3));
    ArgumentsInUniverse(f0, f1, f2, f3);
    RestrictUnion(Positions(s.features), Arguments(f0, f1, f2, f3), Universe());
    RestrictInside(Arguments(f0, f1, f2, f3), Universe());
    r
  }

  /** `Remove(other)`: the receiver loses every member of `other`. */
  function Remove(s: CPUFeatures, other: CPUFeatures): (r: CPUFeatures)
    ensures Positions(r.features) == Positions(s.features) - Positions(other.features)
    ensures Members(r) == Members(s) - Members(other)
    ensures Valid(s) ==> Valid(r)
  {
    AndNotPositions(s.features, other.features);
    RestrictDifference(Positions(s.features), Positions(other.features), Universe());
    CPUFeatures(s.features & !other.features)
  }

  /** One step of the four-argument `Remove`: `features_ &= ~MakeFeatureMask(f)`. */
  function RemoveOne(s: CPUFeatures, f: Feature): (r: CPUFeatures)
    ensures Positions(r.features) == Positions(s.features) - Denotes(f)
  {
    AndNotPositions(s.features, MakeFeatureMask(f));
    CPUFeatures(s.features & !MakeFeatureMask(f))
  }

  lemma DifferenceFour(p: set<nat>, d0: set<nat>, d1: set<nat>, d2: set<nat>, d3: set<nat>)
    ensures p - d0 - d1 - d2 - d3 == p - (d0 + d1 + d2 + d3)
  {
  }

  /**
   * `Remove(f0, f1, f2, f3)`: the receiver loses exactly the non-`kNone`
   * arguments; every other bit keeps its value.
   */
  function RemoveFeatures(s: CPUFeatures, f0: Feature, f1: Feature, f2: Feature, f3: Feature): (r: CPUFeatures)
    ensures Positions(r.features) == Positions(s.features) - Arguments(f0, f1, f2, f3)
    ensures Members(r) == Members(s) - Arguments(f0, f1, f2, f3)
    ensures Valid(s) ==> Valid(r)
  {
    var r := RemoveOne(RemoveOne(RemoveOne(RemoveOne(s, f0), f1), f2), f3);
    DifferenceFour(Positions(s.features), Denotes(f0), Denotes(f1), Denotes(f2), Denotes(f3));
    ArgumentsInUniverse(f0, f1, f2, f3);
    RestrictDifference(Positions(s.features), Arguments(f0, f1, f2, f3), Universe());
    RestrictInside(Arguments(f0, f1, f2, f3), Universe());
    r
  }

  /** `With(other)`: a copy of the receiver combined with `other`. */
  function With(s: CPUFeatures, other: CPUFeatures): (r: CPUFeatures)
    ensures Positions(r.features) == Positions(s.features) + Positions(other.features)
    ensures Members(r) == Members(s) + Members(other)
    ensures Valid(s) && Valid(other) ==> Valid(r)
  {
    Combine(s, other)
  }

  /** `With(f0, f1, f2, f3)`: a copy of the receiver with the arguments added. */
  function WithFeatures(s: CPUFeatures, f0: Feature, f1: Feature, f2: Feature, f3: Feature): (r: CPUFeatures)
    ensures Positions(r.features) == Positions(s.features) + Arguments(f0, f1, f2, f3)
    ensures Members(r) == Members(s) + Arguments(f0, f1, f2, f3)
    ensures Valid(s) ==> Valid(r)
  {
    CombineFeatures(s, f0, f1, f2, f3)
  }

  /** `Without(other)`: a copy of the receiver with the members of `other` removed. */
  function Without(s: CPUFeatures, other: CPUFeatures): (r: CPUFeatures)
    ensures Positions(r.features) == Positions(s.features) - Positions(other.features)
    ensures Members(r) == Members(s) - Members(other)
    ensures Valid(s) ==> Valid(r)
  {
    Remove(s, other)
  }

  /** `Without(f0, f1, f2, f3)`: a copy of the receiver with the arguments removed. */
  function WithoutFeatures(s: CPUFeatures, f0: Feature, f1: Feature, f2: Feature, f3: Feature): (r: CPUFeatures)
    ensures Positions(r.features) == Positions(s.features) - Arguments(f0, f1, f2, f3)
    ensures Members(r) == Members(s) - Arguments(f0, f1, f2, f3)
    ensures Valid(s) ==> Valid(r)
  {
    RemoveFeatures(s, f0, f1, f2, f3)
  }

  // ---------------------------------------------------------------------
  // Queries

  /** `(a & m) == m` holds exactly when every bit of `m` is a bit of `a`. */
  lemma MaskedEqualIff(a: bv64, m: bv64)
    ensures (a & m == m) <==> Positions(m) <= Positions(a)
  {
    AndPositions(a, m);
    if Positions(m) <= Positions(a) {
      IntersectSubset(Positions(a), Positions(m));
      PositionsDetermineWord(a & m, m);
    }
  }

  lemma IntersectSubset(a: set<nat>, b: set<nat>)
    requires b <= a
    ensures a * b == b
  {
  }

  /** `Has(other)`: every bit of `other` is a bit of the receiver. */
  function Has(s: CPUFeatures, other: CPUFeatures): (r: bool)
    ensures r <==> Positions(other.features) <= Positions(s.features)
    ensures Valid(other) ==> (r <==> Members(other) <= Members(s))
  {
    MaskedEqualIff(s.features, other.features);
    SubsetOfValid(s, other);
    (s.features & other.features) == other.features
  }

  /** For a valid `other`, containing its bits is containing its members. */
  lemma SubsetOfValid(s: CPUFeatures, other: CPUFeatures)
    ensures Valid(other) ==> (Positions(other.features) <= Positions(s.features) <==> Members(other) <= Members(s))
  {
    if Valid(other) {
      RestrictSubset(Positions(s.features), Positions(other.features), Universe());
      RestrictInside(Positions(other.features), Universe());
    }
  }

  /** `MakeFeatureMask(f0) | ... | MakeFeatureMask(f3)`. */
  function FeaturesMask(f0: Feature, f1: Feature, f2: Feature, f3: Feature): (m: bv64)
    ensures Positions(m) == Arguments(f0, f1, f2, f3)
  {
    OrMask(OrMask(OrMask(MakeFeatureMask(f0), f1), f2), f3)
  }

  /** `m | MakeFeatureMask(f)`. */
  function OrMask(m: bv64, f: Feature): (r: bv64)
    ensures Positions(r) == Positions(m) + Denotes(f)
  {
    OrPositions(m, MakeFeatureMask(f));
    m | MakeFeatureMask(f)
  }

  /** `Has(f0, f1, f2, f3)`: every non-`kNone` argument is a member. */
  function HasFeatures(s: CPUFeatures, f0: Feature, f1: Feature, f2: Feature, f3: Feature): (r: bool)
    ensures r <==> Arguments(f0, f1, f2, f3) <= Positions(s.features)
    ensures r <==> Arguments(f0, f1, f2, f3) <= Members(s)
  {
    var mask := FeaturesMask(f0, f1, f2, f3);
    MaskedEqualIff(s.features, mask);
    ArgumentsInUniverse(f0, f1, f2, f3);
    RestrictSubset(Positions(s.features), Arguments(f0, f1, f2, f3), Universe());
    (s.features & mask) == mask
  }

  /** `Count()`: the number of set bits, which for a valid set is its cardinality. */
  function Count(s: CPUFeatures): (c: nat)
    ensures c == |Positions(s.features)|
    ensures Valid(s) ==> c == |Members(s)|
  {
    ValidMembers(s);
    PopCount(s.features)
  }

  /** The members of a valid set are all of its set bits. */
  lemma ValidMembers(s: CPUFeatures)
    ensures Valid(s) ==> Members(s) == Positions(s.features)
  {
    if Valid(s) {
      RestrictInside(Positions(s.features), Universe());
    }
  }
}
