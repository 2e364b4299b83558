/**
 * The two stream insertion operators: one prints a single feature by its
 * display name, the other prints a whole set as a comma-separated list.
 *
 * The display names come from a table generated by a macro list in the
 * header; the model takes that table as a parameter, one entry per ordinal.
 * The output stream is modelled as the string the operator appends to it.
 */
module FeaturePrinter {
  import opened CpuFeatures
  import opened FeatureIterator

  /** The separator the set printer puts between two names. */
  const Separator: string := ", "

  /** A display-name table: one entry per ordinal, none of them empty. */
  ghost predicate ValidNames(names: seq<string>)
  {
    && |names| == kNumberOfFeatures
    && forall i :: 0 <= i < |names| ==> names[i] != []
  }

  /** No display name contains a comma, so the separators can be counted. */
  ghost predicate CommaFree(names: seq<string>)
  {
    forall i :: 0 <= i < |names| ==> ',' !in names[i]
  }

  /**
   * Printing one feature: its name from the table, or "none" for `kNone`.
   * When no table entry is "none", that text marks `kNone` and nothing else.
   */
  function FeatureName(names: seq<string>, f: Feature): (t: string)
    requires |names| == kNumberOfFeatures
    ensures f == kNone ==> t == "none"
    ensures f != kNone ==> t == names[f]
    ensures (forall i :: 0 <= i < |names| ==> names[i] != "none") ==> (t == "none" <==> f == kNone)
  {
    if f == kNone then "none" else names[f]
  }

  /** The names of a sequence of features, in the same order. */
  function Labels(names: seq<string>, fs: seq<Feature>): (ls: seq<string>)
    requires |names| == kNumberOfFeatures
    ensures |ls| == |fs|
  {
    seq(|fs|, i requires 0 <= i < |fs| => FeatureName(names, fs[i]))
  }

  /** The parts, left to right, with the separator between consecutive parts. */
  function Join(parts: seq<string>): string
  {
    if |parts| == 0 then ""
    else if |parts| == 1 then parts[0]
    else Join(parts[..|parts| - 1]) + Separator + parts[|parts| - 1]
  }

  /** What printing a set appends: the names of its members in iteration order. */
  function Render(s: CPUFeatures, names: seq<string>): string
    requires Valid(s) && |names| == kNumberOfFeatures
  {
    Join(Labels(names, Enumerate(s)))
  }

  // ---------------------------------------------------------------------
  // The printing loop

  /**
   * The set printer's loop: while the iterator is not at `end()`, print the
   * current feature and step (`PrintOne`).
   */
  method Print(s: CPUFeatures, names: seq<string>) returns (text: string)
    requires Valid(s) && |names| == kNumberOfFeatures
    ensures text == Render(s, names)
  {
    var it := Begin(s);
    text := "";
    ghost var done: seq<Feature> := [];
    PrintedAtStart(names, it);
    VisitedNone(s);
    while !Equals(it, End(s))
      invariant it.cpuFeatures == s
      invariant done + Remaining(it) == Enumerate(s)
      invariant text == Printed(names, done, it.feature)
      decreases kNumberOfFeatures - it.feature
    {
      var next, piece := PrintOne(it, names);
      PrintedStep(names, done, it.feature, next.feature, text, text + piece);
      VisitedGrows(s, done, it, next);
      text := text + piece;
      done := done + [it.feature];
      it := next;
    }
    VisitedAll(s, done, it);
    PrintedAtEnd(names, done, it);
  }

  /**
   * One pass of the loop body: the current feature's name, then `++`, then
   * the separator unless the iterator reached `end()`.
   */
  method PrintOne(it: ConstIterator, names: seq<string>) returns (next: ConstIterator, piece: string)
    requires it.feature != kNone && |names| == kNumberOfFeatures
    ensures next.cpuFeatures == it.cpuFeatures
    ensures it.feature < next.feature
    ensures Remaining(it) == [it.feature] + Remaining(next)
    ensures piece == names[it.feature] + (if next.feature != kNone then Separator else "")
  {
    piece := FeatureName(names, it.feature);
    next := PrefixIncrement(it).next;
    RemainingStep(it);
    if !Equals(next, End(it.cpuFeatures)) {
      piece := piece + Separator;
    }
  }

  lemma PrintedAtStart(names: seq<string>, it: ConstIterator)
    requires |names| == kNumberOfFeatures
    ensures Printed(names, [], it.feature) == ""
  {
    assert Labels(names, []) == [];
  }

  lemma PrintedAtEnd(names: seq<string>, done: seq<Feature>, it: ConstIterator)
    requires |names| == kNumberOfFeatures && it.feature == kNone
    ensures Printed(names, done, it.feature) == Join(Labels(names, done))
  {
  }

  /** Before the first pass nothing is visited and the rest is the whole enumeration. */
  lemma VisitedNone(s: CPUFeatures)
    requires Valid(s)
    ensures [] + Remaining(Begin(s)) == Enumerate(s)
  {
    assert [] + Remaining(Begin(s)) == Remaining(Begin(s));
  }

  /**
   * One pass of the loop adds the current ordinal to the visited prefix of
   * the enumeration; the rest is the walk from the next iterator.
   */
  lemma VisitedGrows(s: CPUFeatures, done: seq<Feature>, it: ConstIterator, next: ConstIterator)
    requires Valid(s) && done + Remaining(it) == Enumerate(s)
    requires Remaining(it) == [it.feature] + Remaining(next)
    ensures (done + [it.feature]) + Remaining(next) == Enumerate(s)
  {
    MoveFront(done, it.feature, Remaining(next), Enumerate(s));
  }

  lemma MoveFront<T>(done: seq<T>, x: T, rest: seq<T>, whole: seq<T>)
    requires done + ([x] + rest) == whole
    ensures (done + [x]) + rest == whole
  {
    assert done + ([x] + rest) == (done + [x]) + rest;
  }

  /** Once the iterator is at `end()`, the visited prefix is the whole enumeration. */
  lemma VisitedAll(s: CPUFeatures, done: seq<Feature>, it: ConstIterator)
    requires Valid(s) && done + Remaining(it) == Enumerate(s) && it.feature == kNone
    ensures done == Enumerate(s)
  {
    assert done + Remaining(it) == done;
  }

  /**
   * The text printed once the features `done` have been visited and the
   * iterator stands at `f`: the names so far, and a separator if another
   * feature follows.
   */
  ghost function Printed(names: seq<string>, done: seq<Feature>, f: Feature): string
    requires |names| == kNumberOfFeatures
  {
    Join(Labels(names, done)) + (if done != [] && f != kNone then Separator else "")
  }

  lemma PrintedStep(names: seq<string>, done: seq<Feature>, f: Feature, n: Feature, before: string, after: string)
    requires |names| == kNumberOfFeatures && f != kNone
    requires before == Printed(names, done, f)
    requires after == before + (names[f] + (if n != kNone then Separator else ""))
    ensures after == Printed(names, done + [f], n)
  {
    JoinSnoc(Labels(names, done), FeatureName(names, f));
    LabelsSnoc(names, done, f);
  }

  lemma JoinSnoc(parts: seq<string>, p: string)
    ensures parts == [] ==> Join(parts + [p]) == p
    ensures parts != [] ==> Join(parts + [p]) == Join(parts) + Separator + p
  {
    assert (parts + [p])[..|parts|] == parts;
  }

  lemma LabelsSnoc(names: seq<string>, fs: seq<Feature>, f: Feature)
    requires |names| == kNumberOfFeatures
    ensures Labels(names, fs + [f]) == Labels(names, fs) + [FeatureName(names, f)]
  {
  }

  // ---------------------------------------------------------------------
  // Properties of the joined text

  /**
   * The front-first reading of `Join`: the first part, then the separator,
   * then the rest joined.
   */
  lemma {:induction false} JoinCons(parts: seq<string>)
    requires |parts| >= 2
    ensures Join(parts) == parts[0] + Separator + Join(parts[1..])
    decreases |parts|
  {
    var n := |parts|;
    if n > 2 {
      JoinCons(parts[..n - 1]);
      assert parts[..n - 1][1..] == parts[1..][..n - 2];
      assert parts[..n - 1][0] == parts[0];
    } else {
      assert parts[1..] == [parts[1]];
    }
  }

  /** With no empty part, the joined text is empty exactly when there are no parts. */
  lemma {:induction false} JoinEmptyIff(parts: seq<string>)
    requires forall i :: 0 <= i < |parts| ==> parts[i] != []
    ensures Join(parts) == [] <==> parts == []
    decreases |parts|
  {
    if |parts| >= 2 {
      assert |Join(parts)| >= |Separator|;
    }
  }

  /**
   * With no comma inside any part, the joined text holds exactly one comma
   * per gap between parts.
   */
  lemma {:induction false} JoinCommas(parts: seq<string>)
    requires forall i :: 0 <= i < |parts| ==> ',' !in parts[i]
    ensures |parts| > 0 ==> multiset(Join(parts))[','] == |parts| - 1
    ensures |parts| == 0 ==> multiset(Join(parts))[','] == 0
    decreases |parts|
  {
    var n := |parts|;
    if n == 1 {
      assert multiset(parts[0])[','] == 0;
    } else if n > 1 {
      var front := parts[..n - 1];
      JoinCommas(front);
      assert multiset(parts[n - 1])[','] == 0;
      assert multiset(Separator)[','] == 1;
      assert Join(parts) == Join(front) + Separator + parts[n - 1];
    }
  }

  // ---------------------------------------------------------------------
  // Properties of the printed set

  /** Every label of a member is non-empty and, for a comma-free table, comma-free. */
  lemma MemberLabels(names: seq<string>, fs: seq<Feature>)
    requires ValidNames(names)
    requires forall i :: 0 <= i < |fs| ==> fs[i] < kNumberOfFeatures
    ensures forall i :: 0 <= i < |fs| ==> Labels(names, fs)[i] != []
    ensures CommaFree(names) ==> forall i :: 0 <= i < |fs| ==> ',' !in Labels(names, fs)[i]
  {
  }

  /** The ordinals an iteration visits are real features, never `kNone`. */
  lemma EnumerateBelowEnd(s: CPUFeatures)
    requires Valid(s)
    ensures forall i :: 0 <= i < |Enumerate(s)| ==> Enumerate(s)[i] < kNumberOfFeatures
  {
    RemainingIsWalk(Begin(s));
    WalkAbove(Members(s), Begin(s).feature);
  }

  /**
   * Printing a set lists the names of its members, in ascending ordinal
   * order, separated by ", ".
   */
  lemma RenderListsMembersAscending(s: CPUFeatures, names: seq<string>)
    requires Valid(s) && |names| == kNumberOfFeatures
    ensures exists fs :: && StrictlyIncreasing(fs)
                         && Elements(fs) == Members(s)
                         && Render(s, names) == Join(Labels(names, fs))
  {
    IterationVisitsEachMemberOnce(s);
  }

  /** An empty set prints nothing at all (not "none"); any other set prints something. */
  lemma RenderEmptyIff(s: CPUFeatures, names: seq<string>)
    requires Valid(s) && ValidNames(names)
    ensures Render(s, names) == [] <==> Members(s) == {}
  {
    var fs := Enumerate(s);
    IterationVisitsEachMemberOnce(s);
    EnumerateBelowEnd(s);
    MemberLabels(names, fs);
    JoinEmptyIff(Labels(names, fs));
  }

  /** With a comma-free name table, the printed set has one comma fewer than members. */
  lemma RenderSeparators(s: CPUFeatures, names: seq<string>)
    requires Valid(s) && ValidNames(names) && CommaFree(names)
    ensures Members(s) != {} ==> multiset(Render(s, names))[','] == |Members(s)| - 1
    ensures Members(s) == {} ==> multiset(Render(s, names))[','] == 0
  {
    var fs := Enumerate(s);
    IterationVisitsEachMemberOnce(s);
    EnumerateBelowEnd(s);
    MemberLabels(names, fs);
    JoinCommas(Labels(names, fs));
  }

  /**
   * A set of two or more features prints the name of its least member (the
   * one `begin()` is at), then ", ", then the rest of the iteration.
   */
  lemma RenderStartsWithLeast(s: CPUFeatures, names: seq<string>)
    requires Valid(s) && |names| == kNumberOfFeatures && |Members(s)| >= 2
    ensures Begin(s).feature < kNumberOfFeatures
    ensures Render(s, names) == names[Begin(s).feature] + Separator + Join(Labels(names, Enumerate(s)[1..]))
  {
    var fs := Enumerate(s);
    IterationVisitsEachMemberOnce(s);
    EnumerateBelowEnd(s);
    assert fs[0] == Begin(s).feature;
    JoinLabelsFront(names, fs);
  }

  lemma JoinLabelsFront(names: seq<string>, fs: seq<Feature>)
    requires |names| == kNumberOfFeatures && |fs| >= 2 && fs[0] < kNumberOfFeatures
    ensures Join(Labels(names, fs)) == names[fs[0]] + Separator + Join(Labels(names, fs[1..]))
  {
    var ls := Labels(names, fs);
    JoinCons(ls);
    assert ls[1..] == Labels(names, fs[1..]);
  }

  /** A set of two features prints the lower one's name, ", ", and the higher one's name. */
  lemma RenderTwo(s: CPUFeatures, names: seq<string>, a: Feature, b: Feature)
    requires Valid(s) && |names| == kNumberOfFeatures
    requires a < b < kNumberOfFeatures && Members(s) == {a as nat, b as nat}
    ensures Render(s, names) == names[a] + Separator + names[b]
  {
    IterationVisitsEachMemberOnce(s);
    PairCardinality(a, b);
    TwoAscending(Enumerate(s), a, b);
    JoinTwoLabels(names, a, b);
  }

  lemma PairCardinality(a: nat, b: nat)
    requires a != b
    ensures |{a, b}| == 2
  {
  }

  lemma TwoAscending(fs: seq<Feature>, a: Feature, b: Feature)
    requires a < b && |fs| == 2 && StrictlyIncreasing(fs) && Elements(fs) == {a as nat, b as nat}
    ensures fs == [a, b]
  {
    assert a as nat in Elements(fs) && b as nat in Elements(fs);
    assert fs[0] as nat in Elements(fs) && fs[1] as nat in Elements(fs);
  }

  lemma JoinTwoLabels(names: seq<string>, a: Feature, b: Feature)
    requires |names| == kNumberOfFeatures && a < b < kNumberOfFeatures
    ensures Join(Labels(names, [a, b])) == names[a] + Separator + names[b]
  {
    var ls := Labels(names, [a, b]);
    assert ls == [names[a], names[b]];
    assert ls[..1] == [names[a]];
  }

  /** With distinct names, none of them "none", printing one feature loses no information. */
  lemma FeatureNameInjective(names: seq<string>, f: Feature, g: Feature)
    requires |names| == kNumberOfFeatures
    requires forall i, j :: 0 <= i < j < |names| ==> names[i] != names[j]
    requires forall i :: 0 <= i < |names| ==> names[i] != "none"
    ensures FeatureName(names, f) == FeatureName(names, g) <==> f == g
  {
    if f != g && f != kNone && g != kNone {
      if f < g {
        assert names[f] != names[g];
      } else {
        assert names[g] != names[f];
      }
    }
  }
}
