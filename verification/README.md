# CPU feature sets: a Dafny model

This project models `CPUFeatures`, the set of CPU feature flags from the VIXL
AArch64 toolkit (`src/cpu-features.cc`), and its `CPUFeaturesConstIterator`.

A feature set is one unsigned 64-bit word. Bit `i` is set when feature
ordinal `i` is present. The ordinals run from 0 to `kNumberOfFeatures - 1`,
and `kNone` equals `kNumberOfFeatures`. `kNone` names no feature: its mask is
zero, so every set "has" it.

The model has four layers:

- `Word64` (`word64.dfy`) gives the bit-level meaning of the word operations the
  implementation uses: `|`, `& ~`, `&`, `1 << i` and `(1 << n) - 1`. The word is
  a `bv64`, and `Positions(w)` is the set of its set bits. This module also
  specifies `CountSetBits` as `PopCount` and `CountTrailingZeros`. It proves that
  a word is determined by its set bits.
- `CpuFeatures` (`cpu_features.dfy`) holds the set itself.
  - `CPUFeatures` is a datatype around the word.
  - `Members(s)` is its abstraction: the set bits below `kNumberOfFeatures`.
  - `Valid(s)` is the class invariant: no bit at or above `kNumberOfFeatures` is set.
  - Every operation is a pure function, specified on the abstract set.
  - The constructors are also proved valid, which for a valid set fixes every bit.
  - The operations on an existing word (`Combine`, `Remove`, `With`, `Without`,
    `Has`, `Count`) are also specified bit by bit, because that word may carry
    bits above the last feature.
  - The mutating members (`Combine`, `Remove`) return the receiver's new value.
- `CpuFeaturesProperties` (`cpu_features_properties.dfy`) holds the laws that
  relate operations:
  - canonical representation;
  - argument order and repetition do not matter;
  - `With`/`Without`/`Has` behave as union, difference and inclusion;
  - counting a union.
- `FeatureIterator` (`feature_iterator.dfy`) is the iterator: `begin()`, `end()`,
  `operator==`, and prefix and postfix `++`.
  - `Remaining` is the whole walk from an iterator to `end()`. `Enumerate(s)` is
    that walk starting from `begin()`.
  - The walk is proved to visit every member exactly once, in strictly ascending
    order, in `Count()` steps.
- `FeaturePrinter` (`printer.dfy`) holds the two `operator<<` overloads.
  - The display names come from a macro list in a header that is not part of this
    model, so they are a parameter: a table with one name per ordinal.
  - The stream is modelled as the string the operator appends to it.
  - `Print` follows the loop of the set printer. It is proved equal to `Render`,
    the reference definition: the names of the enumerated members joined by `", "`.

`kNumberOfFeatures` is a constant with no fixed value. Its type
`FeatureCount` allows any value from 1 to 63, so every result holds for every
such feature list. The bound comes from the width check in `All()`
(`src/cpu-features.cc:58`), which is stricter than the one in
`MakeFeatureMask` (line 40, `<= 64`).

The subset type `Feature` (`0 .. kNumberOfFeatures`) stands for the
assertion in `MakeFeatureMask` that an ordinal is in range. The same type
rules out the unreachable default branch of the single-feature printer.

`Begin` requires `Valid(s)`. The lowest set bit of the word is only a
feature ordinal when no bit above the last feature is set. That is the class
invariant, and every constructor and operation here preserves it.

An empty set prints nothing. For the zero word `begin()` is already at
`kNone` and so equals `end()` (`src/cpu-features.cc:158`, `172`), and the
loop body never runs. `FeaturePrinter.RenderEmptyIff` states it.

Prefix `++` on an iterator that is already at `end()` wraps the candidate
to ordinal 0 (`src/cpu-features.cc:191-192`). The model keeps this branch,
and `FeatureIterator.IncrementAtEndRestarts` proves that such an increment
lands on `begin()`.

## Model

| member | source | states |
|---|---|---|
| `Word64.SingleBit` | src/cpu-features.cc:43 | `UINT64_C(1) << f` has exactly bit `f` set |
| `Word64.LowMask` | src/cpu-features.cc:59 | `(UINT64_C(1) << n) - 1` has exactly bits `0 .. n-1` set |
| `Word64.PopCount` | src/cpu-features.cc:139 | `CountSetBits` returns the number of set bits of the word |
| `Word64.CountTrailingZeros` | src/cpu-features.cc:160 | for a non-zero word, the result is a set bit and no set bit lies below it |
| `Word64.PositionsDetermineWord` | src/cpu-features.cc:127 | two words with the same set bits are equal, so bitwise word equality is set equality |
| `CpuFeatures.MakeFeatureMask` | src/cpu-features.cc:35-45 | the mask is zero exactly for `kNone`; otherwise its only bit is the ordinal's |
| `CpuFeatures.Empty` | src/cpu-features.cc:51 | the zero word is a valid set with no members |
| `CpuFeatures.FromFeatures` | src/cpu-features.cc:47-53 | the four-argument constructor's members are exactly its non-`kNone` arguments |
| `CpuFeatures.All` | src/cpu-features.cc:55-61 | `All()` is valid and its members are every ordinal below `kNumberOfFeatures` |
| `CpuFeatures.InferFromOS` | src/cpu-features.cc:63-66 | the OS-detection stub returns the valid empty set |
| `CpuFeatures.Combine` | src/cpu-features.cc:68-70 | the new bits are the union of both words' bits, the members are the union, and validity is kept |
| `CpuFeatures.CombineFeatures` | src/cpu-features.cc:72-80 | the receiver gains exactly the non-`kNone` arguments, every other bit is unchanged, and validity is kept |
| `CpuFeatures.Remove` | src/cpu-features.cc:82-84 | the new bits are the receiver's bits minus `other`'s, and validity is kept |
| `CpuFeatures.RemoveFeatures` | src/cpu-features.cc:86-94 | the receiver loses exactly the non-`kNone` arguments and every other bit is unchanged |
| `CpuFeatures.With` | src/cpu-features.cc:96-100 | the copy's members are the union of both sets' members |
| `CpuFeatures.WithFeatures` | src/cpu-features.cc:102-109 | the copy's members are the receiver's members plus the named features |
| `CpuFeatures.Without` | src/cpu-features.cc:111-115 | the copy's members are the receiver's members minus `other`'s |
| `CpuFeatures.WithoutFeatures` | src/cpu-features.cc:117-124 | the copy's members are the receiver's members minus the named features |
| `CpuFeatures.MaskedEqualIff` | src/cpu-features.cc:127 | `(a & m) == m` holds if and only if every bit of `m` is a bit of `a` |
| `CpuFeatures.Has` | src/cpu-features.cc:126-128 | true if and only if `other`'s bits (for a valid `other`, its members) are a subset of the receiver's |
| `CpuFeatures.FeaturesMask` | src/cpu-features.cc:134-135 | the OR of the four masks has exactly the non-`kNone` arguments' bits |
| `CpuFeatures.HasFeatures` | src/cpu-features.cc:130-137 | true if and only if every non-`kNone` argument is a member |
| `CpuFeatures.Count` | src/cpu-features.cc:139 | the number of set bits, which for a valid set is the number of members |
| `CpuFeaturesProperties.CanonicalRepresentation` | src/cpu-features.cc:68-70 | two valid sets with the same members have the same word |
| `CpuFeaturesProperties.FromFeaturesDependsOnlyOnArguments` | src/cpu-features.cc:47-53 | constructors naming the same features give equal sets |
| `CpuFeaturesProperties.FromFeaturesOrder` | src/cpu-features.cc:47-53 | reversing the constructor's arguments gives the same set |
| `CpuFeaturesProperties.FromFeaturesDuplicates` | src/cpu-features.cc:72-80 | repeating an argument or padding with `kNone` gives the same set |
| `CpuFeaturesProperties.FromNoFeaturesIsEmpty` | src/cpu-features.cc:47-53 | the constructor given only `kNone` equals the default-constructed set |
| `CpuFeaturesProperties.CombineFeaturesDependsOnlyOnArguments` | src/cpu-features.cc:72-80 | four-argument `Combine` depends only on which features are named |
| `CpuFeaturesProperties.AllAndEmpty` | src/cpu-features.cc:55-61 | `All()` has every feature and the empty set none; their counts are `kNumberOfFeatures` and 0 |
| `CpuFeaturesProperties.HasNothing` | src/cpu-features.cc:130-137 | every set has `kNone` and has the empty set |
| `CpuFeaturesProperties.WithSelf` | src/cpu-features.cc:96-100 | `s.With(s) == s` |
| `CpuFeaturesProperties.WithoutSelf` | src/cpu-features.cc:111-115 | `s.Without(s)` is the empty set |
| `CpuFeaturesProperties.WithHasBoth` | src/cpu-features.cc:96-100 | `a.With(b)` has both `a` and `b` |
| `CpuFeaturesProperties.WithFeaturesHasThem` | src/cpu-features.cc:102-109 | `s.With(f0..f3).Has(f0..f3)` holds |
| `CpuFeaturesProperties.WithoutFeaturesLacksThem` | src/cpu-features.cc:117-124 | after `Without(f0..f3)` no named feature is present |
| `CpuFeaturesProperties.WithoutUndoesWith` | src/cpu-features.cc:96-115 | removing what was added, when it was disjoint from the receiver, restores the receiver |
| `CpuFeaturesProperties.WithRestoresWithout` | src/cpu-features.cc:96-115 | adding back what was removed gives the union |
| `CpuFeaturesProperties.HasIsInclusion` | src/cpu-features.cc:126-128 | `Has` is reflexive, transitive and antisymmetric |
| `CpuFeaturesProperties.CountOfWith` | src/cpu-features.cc:139 | the count of a union is the receiver's count plus the count of the members it lacked |
| `FeatureIterator.Begin` | src/cpu-features.cc:157-164 | `begin()` is at the least member, or at `kNone` for the empty set |
| `FeatureIterator.End` | src/cpu-features.cc:166-168 | `end()` is at `kNone` over the same set |
| `FeatureIterator.Equals` | src/cpu-features.cc:180-184 | iterators are equal if and only if they have the same set and the same ordinal |
| `FeatureIterator.Scan` | src/cpu-features.cc:188-199 | the loop stops at the least member at or above the candidate, or at `kNone` |
| `FeatureIterator.PrefixIncrement` | src/cpu-features.cc:186-200 | prefix `++` moves to the least member above the current ordinal, or to `kNone`, and returns it; from `kNone` it scans from 0 |
| `FeatureIterator.PostfixIncrement` | src/cpu-features.cc:202-206 | postfix `++` returns the old ordinal and advances to the least member above it |
| `FeatureIterator.RemainingStep` | src/cpu-features.cc:186-200 | each step of the walk strictly increases the ordinal |
| `FeatureIterator.IterationVisitsEachMemberOnce` | src/cpu-features.cc:157-200 | `begin()` to `end()` visits each member exactly once, in strictly ascending order, in `Count()` steps |
| `FeatureIterator.IterationOverAll` | src/cpu-features.cc:157-200 | iterating `All()` visits `0, 1, ..., kNumberOfFeatures - 1` in order |
| `FeatureIterator.BeginIsEndIffEmpty` | src/cpu-features.cc:157-168 | `begin() == end()` if and only if the set is empty |
| `FeatureIterator.IncrementAtEndRestarts` | src/cpu-features.cc:191-192 | `++` on an ended iterator lands on `begin()` |
| `FeaturePrinter.Print` | src/cpu-features.cc:170-178 | the printing loop appends exactly the members' names joined by `", "`, with no trailing separator |
| `FeaturePrinter.PrintOne` | src/cpu-features.cc:172-175 | one pass of the loop prints the current name, moves to a higher ordinal, and adds `", "` exactly when the iterator did not reach `end()` |
| `FeaturePrinter.JoinCons` | src/cpu-features.cc:170-178 | a property of the printed list: the joined text is the first name, `", "`, then the rest joined |
| `FeaturePrinter.RenderStartsWithLeast` | src/cpu-features.cc:170-178 | a set of two or more features prints its least member's name, `", "`, then the rest of the iteration joined |
| `FeaturePrinter.RenderListsMembersAscending` | src/cpu-features.cc:170-178 | the printed text is the names of an ascending enumeration of exactly the members |
| `FeaturePrinter.RenderEmptyIff` | src/cpu-features.cc:170-178 | the printed text is empty if and only if the set is empty |
| `FeaturePrinter.RenderSeparators` | src/cpu-features.cc:170-178 | with comma-free names, the text holds one comma fewer than there are members |
| `FeaturePrinter.RenderTwo` | src/cpu-features.cc:170-178 | a set `{a, b}` with `a < b` prints as `name(a), name(b)` |
| `FeaturePrinter.JoinLabelsFront` | src/cpu-features.cc:170-178 | the printed list of two or more features is the first feature's name, `", "`, then the rest's names joined |
| `FeaturePrinter.FeatureName` | src/cpu-features.cc:141-155 | a real feature prints as its table entry and `kNone` as "none"; when no entry is "none", that text marks `kNone` alone |
| `FeaturePrinter.FeatureNameInjective` | src/cpu-features.cc:141-155 | with distinct names other than "none", different features print differently |

## Left out

- The `std::ostream` machinery is left out. Each `operator<<` is modelled as the string it appends.
- The concrete display names are left out. They come from `VIXL_CPU_FEATURE_LIST` in `cpu-features.h`, which is not part of this model, so the name table is a parameter.
- The implementations of `CountSetBits` and `CountTrailingZeros` are left out. They are in `utils-vixl.h`, which is not part of this model. They are specified here as population count and as the position of the lowest set bit.
- FeatureIterator.Equals: compares the iterators' set values, not set pointers as `src/cpu-features.cc:183` does, because the iterator holds its set by value. Iterators over two distinct sets with equal bits are therefore equal in the model, though the implementation tells them apart.
- The iterator's `IsValid()` debug check is left out, because it is declared in the header.
- The compile-time width checks are encoded as the range of `FeatureCount` (1 to 63), not modelled as checks.
- Debug-build assertion failures are not modelled as behaviour. The ordinal assertion in `MakeFeatureMask` and the unreachable default branch of the single-feature printer are excluded by the subset type `Feature`.
- `cpu-features.h` is not part of this model. `Empty` models its default constructor. The four-feature members declare their trailing arguments with the default `kNone`; the model passes those arguments explicitly, so a one-feature call such as `Has(feature_)` (`src/cpu-features.cc:198`) is `HasFeatures(s, f, kNone, kNone, kNone)`.
