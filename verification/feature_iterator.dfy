/**
 * `CPUFeaturesConstIterator`: a forward cursor over the members of a
 * `CPUFeatures` value, in ascending ordinal order, that ends at `kNone`.
 *
 * The iterator holds the set by value, where the implementation holds a
 * pointer to it. Equality therefore compares set values: iterators over two
 * distinct sets with equal bits are equal here, though the implementation,
 * which compares the pointers, tells them apart.
 */
module FeatureIterator {
  import opened Word64
  import opened CpuFeatures

  /** The set being walked and the current ordinal (`kNone` once exhausted). */
  datatype ConstIterator = ConstIterator(cpuFeatures: CPUFeatures, feature: Feature)

  /** The result of an increment: the advanced iterator and the ordinal the operator returns. */
  datatype Step = Step(next: ConstIterator, value: Feature)

  /**
   * `r` is the least member of `m` at or above `lo`, or `kNone` when no
   * member lies in `lo .. kNumberOfFeatures - 1`.
   */
  ghost predicate LeastMemberFrom(m: set<nat>, lo: nat, r: Feature)
  {
    && lo <= r
    && (r != kNone ==> r in m)
    && forall x :: lo <= x < r ==> x !in m
  }

  /** The members of `m` at or above `lo`. */
  ghost function MembersFrom(m: set<nat>, lo: nat): set<nat>
  {
    set x | x in m && lo <= x
  }

  /** The ordinals a sequence holds. */
  ghost function Elements(fs: seq<Feature>): set<nat>
  {
    set i | 0 <= i < |fs| :: fs[i] as nat
  }

  ghost predicate StrictlyIncreasing(fs: seq<Feature>)
  {
    forall i, j :: 0 <= i < j < |fs| ==> fs[i] < fs[j]
  }

  /** At most one ordinal is the least member from a given point. */
  lemma LeastMemberUnique(m: set<nat>, lo: nat, r1: Feature, r2: Feature)
    requires LeastMemberFrom(m, lo, r1) && LeastMemberFrom(m, lo, r2)
    ensures r1 == r2
  {
  }

  // ---------------------------------------------------------------------
  // begin() and end()

  /** `begin()`: at `kNone` for the empty set, otherwise at the lowest set bit. */
  function Begin(s: CPUFeatures): (it: ConstIterator)
    requires Valid(s)
    ensures it.cpuFeatures == s
    ensures LeastMemberFrom(Members(s), 0, it.feature)
  {
    ValidMembers(s);
    if s.features == 0 then
      ZeroPositions();
      ConstIterator(s, kNone)
    else
      ConstIterator(s, CountTrailingZeros(s.features))
  }

  /** `end()`: positioned at `kNone`. */
  function End(s: CPUFeatures): (it: ConstIterator)
    ensures it.cpuFeatures == s && it.feature == kNone
  {
    ConstIterator(s, kNone)
  }

  /** Iterator `operator==`: same set value and same ordinal (the implementation compares set pointers). */
  function Equals(a: ConstIterator, b: ConstIterator): (r: bool)
    ensures r <==> a == b
  {
    a.cpuFeatures == b.cpuFeatures && a.feature == b.feature
  }

  // ---------------------------------------------------------------------
  // operator++

  /**
   * The loop of prefix `++` from candidate `f` on: keep stepping until the
   * set has the candidate. It stops at `kNone` at the latest, because every
   * set has `kNone`; that is what makes the scan total.
   */
  function Scan(s: CPUFeatures, f: Feature): (r: Feature)
    ensures LeastMemberFrom(Members(s), f, r)
    decreases kNumberOfFeatures - f
  {
    if HasFeatures(s, f, kNone, kNone, kNone) then f
    else Scan(s, f + 1)
  }

  /**
   * Prefix `++`: move to the least member above the current ordinal, or to
   * `kNone` when there is none, and return the new ordinal. From `kNone`
   * the candidate wraps to ordinal 0, so the walk starts over.
   */
  function PrefixIncrement(it: ConstIterator): (r: Step)
    ensures r.next.cpuFeatures == it.cpuFeatures
    ensures r.value == r.next.feature
    ensures it.feature != kNone ==> LeastMemberFrom(Members(it.cpuFeatures), it.feature + 1, r.value)
    ensures it.feature == kNone ==> LeastMemberFrom(Members(it.cpuFeatures), 0, r.value)
  {
    var candidate: Feature := if it.feature == kNone then 0 else it.feature + 1;
    var f := Scan(it.cpuFeatures, candidate);
    Step(ConstIterator(it.cpuFeatures, f), f)
  }

  /** Postfix `++`: advance like prefix `++`, but return the ordinal held before. */
  function PostfixIncrement(it: ConstIterator): (r: Step)
    ensures r.value == it.feature
    ensures r.next.cpuFeatures == it.cpuFeatures
    ensures it.feature != kNone ==> LeastMemberFrom(Members(it.cpuFeatures), it.feature + 1, r.next.feature)
    ensures it.feature == kNone ==> LeastMemberFrom(Members(it.cpuFeatures), 0, r.next.feature)
  {
    Step(PrefixIncrement(it).next, it.feature)
  }

  // ---------------------------------------------------------------------
  // Whole iterations

  /** The ordinals visited from `it` up to, not including, `end()`. */
  function Remaining(it: ConstIterator): (fs: seq<Feature>)
    decreases kNumberOfFeatures - it.feature
  {
    if it.feature == kNone then []
    else [it.feature] + Remaining(PrefixIncrement(it).next)
  }

  /** One step of the walk: the current ordinal, then the walk from the next one. */
  lemma RemainingStep(it: ConstIterator)
    requires it.feature != kNone
    ensures Remaining(it) == [it.feature] + Remaining(PrefixIncrement(it).next)
    ensures it.feature < PrefixIncrement(it).next.feature
  {
  }

  /** The ordinals a range-based loop over `s` visits, from `begin()` to `end()`. */
  function Enumerate(s: CPUFeatures): (fs: seq<Feature>)
    requires Valid(s)
  {
    Remaining(Begin(s))
  }

  /** The least member of `m` at or above `lo`, or `kNone`: the scan, over an abstract set. */
  ghost function NextMember(m: set<nat>, lo: Feature): (r: Feature)
    ensures LeastMemberFrom(m, lo, r)
    decreases kNumberOfFeatures - lo
  {
    if lo == kNone || lo in m then lo else NextMember(m, lo + 1)
  }

  /** The walk over an abstract set from `f`: `f` itself, then the walk from the next member. */
  ghost function Walk(m: set<nat>, f: Feature): seq<Feature>
    decreases kNumberOfFeatures - f
  {
    if f == kNone then [] else [f] + Walk(m, NextMember(m, f + 1))
  }

  /** The iterator's walk is the abstract walk over the members of its set. */
  lemma {:induction false} RemainingIsWalk(it: ConstIterator)
    ensures Remaining(it) == Walk(Members(it.cpuFeatures), it.feature)
    decreases kNumberOfFeatures - it.feature
  {
    if it.feature != kNone {
      var m := Members(it.cpuFeatures);
      var next := PrefixIncrement(it).next;
      RemainingIsWalk(next);
      LeastMemberUnique(m, it.feature + 1, next.feature, NextMember(m, it.feature + 1));
    }
  }

  lemma {:induction false} WalkVisitsMembersFrom(m: set<nat>, f: Feature)
    requires m <= Universe()
    requires f != kNone ==> f in m
    ensures Elements(Walk(m, f)) == MembersFrom(m, f)
    ensures |Walk(m, f)| == |MembersFrom(m, f)|
    decreases kNumberOfFeatures - f
  {
    if f == kNone {
      assert MembersFrom(m, f) == {};
    } else {
      var n := NextMember(m, f + 1);
      WalkVisitsMembersFrom(m, n);
      WalkAbove(m, n);
      VisitOneMore(m, f, n, Walk(m, n));
    }
  }

  lemma {:induction false} WalkAbove(m: set<nat>, f: Feature)
    ensures forall i :: 0 <= i < |Walk(m, f)| ==> f <= Walk(m, f)[i] < kNumberOfFeatures
    decreases kNumberOfFeatures - f
  {
    if f != kNone {
      WalkAbove(m, NextMember(m, f + 1));
    }
  }

  lemma {:induction false} WalkIncreasing(m: set<nat>, f: Feature)
    ensures StrictlyIncreasing(Walk(m, f))
    decreases kNumberOfFeatures - f
  {
    if f != kNone {
      var n := NextMember(m, f + 1);
      WalkIncreasing(m, n);
      WalkAbove(m, n);
      ConsIncreasing(f, Walk(m, n));
    }
  }

  /** One step of the walk: prepending the current member keeps the walk exact. */
  lemma VisitOneMore(m: set<nat>, c: Feature, n: Feature, rest: seq<Feature>)
    requires c in m && c != kNone
    requires LeastMemberFrom(m, c + 1, n)
    requires forall i :: 0 <= i < |rest| ==> n <= rest[i]
    requires Elements(rest) == MembersFrom(m, n)
    requires |rest| == |MembersFrom(m, n)|
    ensures Elements([c] + rest) == MembersFrom(m, c)
    ensures |[c] + rest| == |MembersFrom(m, c)|
  {
    MembersFromSplit(m, c, n);
    ConsElements(c, rest);
  }

  /** Between a member and the next one, `MembersFrom` loses just the first. */
  lemma MembersFromSplit(m: set<nat>, c: Feature, n: Feature)
    requires c in m && c != kNone
    requires LeastMemberFrom(m, c + 1, n)
    ensures MembersFrom(m, c) == {c as nat} + MembersFrom(m, n)
    ensures c !in MembersFrom(m, n)
  {
  }

  lemma ConsIncreasing(c: Feature, rest: seq<Feature>)
    requires StrictlyIncreasing(rest)
    requires forall i :: 0 <= i < |rest| ==> c < rest[i]
    ensures StrictlyIncreasing([c] + rest)
  {
  }

  lemma ConsElements(c: Feature, rest: seq<Feature>)
    ensures Elements([c] + rest) == {c as nat} + Elements(rest)
  {
    var fs := [c] + rest;
    forall x | x in Elements(fs)
      ensures x in {c as nat} + Elements(rest)
    {
      var i :| 0 <= i < |fs| && fs[i] as nat == x;
      if i > 0 {
        assert rest[i - 1] == fs[i];
      }
    }
    forall x | x in Elements(rest)
      ensures x in Elements(fs)
    {
      var i :| 0 <= i < |rest| && rest[i] as nat == x;
      assert fs[i + 1] == rest[i];
    }
    assert fs[0] == c;
  }

  /**
   * A full iteration visits every member exactly once, in strictly
   * ascending order, in `Count()` steps.
   */
  lemma IterationVisitsEachMemberOnce(s: CPUFeatures)
    requires Valid(s)
    ensures StrictlyIncreasing(Enumerate(s))
    ensures Elements(Enumerate(s)) == Members(s)
    ensures |Enumerate(s)| == Count(s)
  {
    var m := Members(s);
    var f := Begin(s).feature;
    RemainingIsWalk(Begin(s));
    WalkIncreasing(m, f);
    WalkVisitsMembersFrom(m, f);
    MembersFromLeast(m, f);
  }

  lemma MembersFromLeast(m: set<nat>, f: Feature)
    requires LeastMemberFrom(m, 0, f)
    ensures MembersFrom(m, f) == m
  {
  }

  /** Iterating over `All()` visits `0, 1, ..., kNumberOfFeatures - 1` in that order. */
  lemma IterationOverAll()
    ensures |Enumerate(All())| == kNumberOfFeatures
    ensures forall i :: 0 <= i < kNumberOfFeatures ==> Enumerate(All())[i] == i
  {
    assert 0 in Members(All());
    RemainingIsWalk(Begin(All()));
    WalkUniverse(0);
  }

  lemma {:induction false} WalkUniverse(f: Feature)
    ensures |Walk(Universe(), f)| == kNumberOfFeatures - f
    ensures forall i :: 0 <= i < kNumberOfFeatures - f ==> Walk(Universe(), f)[i] == f + i
    decreases kNumberOfFeatures - f
  {
    if f != kNone {
      assert NextMember(Universe(), f + 1) == f + 1;
      WalkUniverse(f + 1);
    }
  }

  /** `begin() == end()` exactly when the set is empty. */
  lemma BeginIsEndIffEmpty(s: CPUFeatures)
    requires Valid(s)
    ensures Equals(Begin(s), End(s)) <==> Members(s) == {}
  {
    if Members(s) != {} {
      var x :| x in Members(s);
    }
  }

  /** Advancing an iterator already at `end()` starts the walk over at `begin()`. */
  lemma IncrementAtEndRestarts(s: CPUFeatures)
    requires Valid(s)
    ensures PrefixIncrement(End(s)).next == Begin(s)
  {
    LeastMemberUnique(Members(s), 0, PrefixIncrement(End(s)).value, Begin(s).feature);
  }
}
