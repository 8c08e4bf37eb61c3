# Running-fold enumerator adaptor and terminal positions

This project models the core of a small C++ cursor ("enumerator") library in Dafny.
An enumerator is a forward cursor over a sequence. It reports whether it is live,
yields its current element and advances. Two components are modelled:

- `accumulate_`, the running-fold adaptor. It wraps a source enumerator, a binary
  operator `o` and a running value `t`, and is itself an enumerator. Its value at each
  position is the inclusive left fold `o(...o(o(seed, s[0]), s[1])..., s[k])`. The
  factories `accumulate`, `sum`, `prod`, `min` and `max` build it with fixed operators
  and default seeds.
- `last`, `end` and `back`, the loops that find the last live position, the exhausted
  position and the last value of any enumerator.

Files:

- `enumerator.dfy` (module `Enumerators`): the source enumerator, abstracted as a
  sequence `s` plus a position `pos`. It is live iff `pos < |s|`, its current element is
  `s[pos]` and advancing adds one to `pos`. It is a datatype, so copies are independent.
- `fold.dfy` (module `Fold`): `FoldLeft`, the specification of the running value; the
  operators `std::plus`, `std::multiplies`, `min_`, `max_` and the test's `horner`; and
  the lemmas that tie each running fold to an independent reference definition (textbook
  `foldl`, sum, product, least and greatest element, polynomial evaluation).
- `accumulate.dfy` (module `Accumulation`): the class `AccumulateAdaptor` with its
  `Valid()` invariant, the factories, and the scenarios of the embedded tests.
- `last.dfy` (module `Terminal`): `Last`, `End`, `Back` and the scenario of their test.

The adaptor's invariant, `Valid()`, says that the running value equals `FoldLeft(o,
seed, s[start..k+1])` while the adaptor is live at position `k`. Here `start` is where
the source stood at construction. The C++ class derives from the enumerator it wraps.
The model instead owns that enumerator as the field `src`.

## Model

| member | source | states |
|---|---|---|
| `Fold.FoldLeftIsFoldl` | iter/accumulate.h:9 | the running value, built one element at a time from the end, equals the textbook left fold; elements combine left to right as o(accumulated, next) |
| `Fold.FoldlSnoc` | iter/accumulate.h:9 | folding one more element applies the operator once more, with the accumulated value as its first argument |
| `Fold.FoldLeftExtend` | iter/accumulate.h:38 | extending the folded slice by the next element is one application o(previous fold, element) |
| `Fold.FoldlPlus` | iter/accumulate.h:61-64 | foldl with std::plus from acc is acc plus the sum of the elements |
| `Fold.RunningSumIsSum` | iter/accumulate.h:59-64 | the running sum from seed t is t plus the sum of the elements folded so far |
| `Fold.FoldlTimes` | iter/accumulate.h:68-71 | foldl with std::multiplies from acc is acc times the product of the elements |
| `Fold.RunningProductIsProduct` | iter/accumulate.h:66-71 | the running product from seed t is t times the product of the elements folded so far |
| `Fold.RunningMinIsMinimum` | iter/accumulate.h:74-86 | the running min is at most the seed and at most every folded element, and equals the seed or one of those elements |
| `Fold.RunningMaxIsMaximum` | iter/accumulate.h:88-100 | the running max is at least the seed and at least every folded element, and equals the seed or one of those elements |
| `Fold.RunningMinNonIncreasing` | iter/accumulate.h:81-86 | over any two prefixes, the longer one's running min is no greater: the value never increases across advances |
| `Fold.RunningMaxNonDecreasing` | iter/accumulate.h:95-100 | over any two prefixes, the longer one's running max is no smaller: the value never decreases across advances |
| `Fold.RunningMinDefaultSeed` | iter/accumulate.h:83 | with the default seed numeric_limits max, the running min of a non-empty sequence of values of T is one of its elements and the least of them |
| `Fold.MaxDefaultSeedSkipsLowest` | iter/accumulate.h:97 | with the default seed -max as written, the running max of the single element lowest() is -max, not that element |
| `Fold.RunningMaxLowestSeed` | iter/accumulate.h:97 | seeded with lowest(), the running max of a non-empty sequence of values of T is one of its elements and the greatest of them |
| `Fold.FoldlHorner` | iter/accumulate.h:151-155 | foldl with horner(x) from acc is acc times x to the length, plus the polynomial whose coefficients are the elements |
| `Fold.RunningHornerIsPolynomial` | iter/accumulate.h:151-164 | folding with horner(x) from 0 evaluates the polynomial whose coefficients are the elements, leading coefficient first |
| `Fold.RunningHornerIsOrderSensitive` | iter/accumulate.h:151-164 | the fold depends on element order: horner(4) from 0 gives 57 over {3,2,1} and 27 over {1,2,3} |
| `Accumulation.AccumulateAdaptor.constructor` | iter/accumulate.h:19-21 | keeps a copy of the source; on a live source the value is o(seed, first element) and the adaptor is live; on an exhausted source the value stays the seed and the adaptor is not live; the invariant holds |
| `Accumulation.AccumulateAdaptor.Copy` | iter/accumulate.h:44 | the copy is an adaptor in the same state, and it satisfies the invariant |
| `Accumulation.AccumulateAdaptor.Assign` | iter/accumulate.h:114 | copy assignment takes over the other adaptor's whole state |
| `Accumulation.AccumulateAdaptor.Iterator` | iter/accumulate.h:23-26 | gives the source cursor at the adaptor's own position, live exactly when the adaptor is |
| `Accumulation.AccumulateAdaptor.HasCurrent` | iter/accumulate.h:27-30 | the adaptor is live exactly when its source cursor is live at the same position |
| `Accumulation.AccumulateAdaptor.Current` | iter/accumulate.h:31-34 | readable in every state, as `return t` is: while live at position k, the value is the fold of the seed with every element from the start position through k; once exhausted, the fold of every element from the start position, which over an empty source is the seed |
| `Accumulation.AccumulateAdaptor.Advance` | iter/accumulate.h:35-41 | when live, the source advances by one and, if it is still live, the value becomes o(old value, new element); when not live, nothing changes; the invariant is kept |
| `Accumulation.AccumulateAdaptor.PostAdvance` | iter/accumulate.h:42-49 | returns a fresh snapshot equal to the adaptor before the call; the adaptor ends in the same state the prefix form produces |
| `Accumulation.Accumulate` | iter/accumulate.h:51-57 | builds an adaptor over the given source with the given operator and seed |
| `Accumulation.Sum` | iter/accumulate.h:59-64 | the adaptor with std::plus and default seed 0 |
| `Accumulation.Prod` | iter/accumulate.h:66-71 | the adaptor with std::multiplies and default seed 1 |
| `Accumulation.Min` | iter/accumulate.h:73-86 | the adaptor with min_ and default seed numeric_limits max |
| `Accumulation.Max` | iter/accumulate.h:88-100 | the adaptor with max_ and default seed -numeric_limits max, as written |
| `Accumulation.MaxLowestSeed` | iter/accumulate.h:96-100 | the adaptor with max_ and default seed lowest(), the identity of max_ on T |
| `Accumulation.StepAsWrittenAgreesWhileLive` | iter/accumulate.h:37-38 | the step as written, `t = o(t, *++i)` with the out-of-range read left arbitrary, gives the prefix fold one element longer whenever the advanced source is still live, which is the value Advance keeps |
| `Accumulation.StepPastEndAsWritten` | iter/accumulate.h:37-38 | a cursor at the last element passes the liveness guard, the advanced cursor is not live, and the step as written folds in whatever lies past the end: o(t, junk) |
| `Accumulation.SumPastEndAsWritten` | iter/accumulate.h:37-38 | sum over {1,2,3} at its last element holds 6, the sum of the sequence; the step as written with 7 past the end turns it into 13 |
| `Accumulation.AccumulatePlusOneTwoThree` | iter/accumulate.h:110-118 | accumulate(plus, {1,2,3}, 0), copied and assigned back, yields 1, 3, 6 through postfix, read, prefix |
| `Accumulation.SumOneTwoThree` | iter/accumulate.h:119-126 | sum over {1,2,3}, copied and assigned back, yields 1, 3, 6 |
| `Accumulation.ProdOneTwoThree` | iter/accumulate.h:127-134 | prod over {1,2,3}, copied and assigned back, yields 1, 2, 6 |
| `Accumulation.HornerOverReversed` | iter/accumulate.h:135-169 | accumulate(horner(4), reversed {1,2,3}, 0) yields 3, then 2+4·3, then 1+4·(2+4·3), and is still live after copy and assignment |
| `Accumulation.MinOneTwoThree` | iter/accumulate.h:81-86 | min over {1,2,3} with its default seed yields 1, 1, 1 through read, prefix, prefix |
| `Accumulation.MaxOneTwoThree` | iter/accumulate.h:95-100 | max over {1,2,3} with its default seed yields 1, 2, 3 through read, prefix, prefix |
| `Accumulation.EmptySumReadsSeed` | iter/accumulate.h:19-34 | sum with seed 5 over an empty source is not live, and reading it gives the seed 5 |
| `Accumulation.CopyIsIndependent` | iter/accumulate.h:113 | advancing a copy of sum over {1,2,3} twice leaves the original live at 1 while the copy reads 6 |
| `Terminal.Last` | iter/last.h:10-20 | on a live cursor it returns the live cursor at position \|s\|-1, whose value is the last element; on a cursor that is not live it returns that cursor unchanged |
| `Terminal.End` | iter/last.h:21-28 | returns a cursor that is not live, at position \|s\|, over the same sequence; an exhausted cursor comes back unchanged |
| `Terminal.Back` | iter/last.h:38-42 | for a live cursor, returns the last element of the sequence |
| `Terminal.LastOfZeroOneTwo` | iter/last.h:49-52 | *last over {0,1,2} is 2 |

## Left out

- `rend` (iter/last.h:29-37): it relies on the size and `std::advance` of a counted
  reverse enumerator whose code is not part of this model, and its only test is
  commented out.
- The concrete enumerators `e(a)`, `e(a, n)` and `std::reverse_iterator`: enumerator.h,
  counted.h and reverse.h are not part of this model. Every source is the abstract
  sequence-plus-position cursor. The reverse cursor over {1,2,3} is modelled as a cursor
  over {3,2,1}.
- Enumerators.Enumerator.Next: advancing a cursor that is not live is assumed to leave
  it unchanged. Only `Terminal.End` on an exhausted cursor relies on this, since
  `end` pre-increments before its first test.
- Accumulation.AccumulateAdaptor.Advance: once an advance exhausts the adaptor, the
  source's running value depends on an out-of-range read (see Findings). The model skips
  that read and keeps the fold of every element. Its `operator*`, like the source's,
  returns the running value in every state, so `Current` of an exhausted adaptor gives
  that fold where the source gives an unspecified value.
- The default constructor `accumulate_()` (iter/accumulate.h:17-18) leaves `t`
  uninitialized and is not modelled.
- Inheritance from the source cursor type and the `std::iterator_traits` machinery:
  the adaptor owns its source cursor instead, and T is a type parameter.
- Accumulation.Sum, Accumulation.Prod: T is mathematical `int`; overflow of a machine
  `int` is not modelled. `Fold.MaxT` stands for `numeric_limits<int>::max()` of a 32-bit
  `int`. Floating-point instantiations are not modelled.
- The experiments with capturing lambdas, `std::function` and a hand-written `horner`
  struct (iter/accumulate.h:142-159) test whether C++ operator objects can be
  copy-assigned, which the `b = c` and `d = f` of the tests need. The `static_assert`s
  at lines 147 and 159 check their size. A Dafny function value can always be assigned,
  so the model has nothing to match them.

## Findings

| source | as written | input that shows it | evidently intended | confidence | as-written member | corrected member |
|---|---|---|---|---|---|---|
| iter/accumulate.h:37-38 | prefix `++` checks the source's liveness, then advances it and dereferences the advanced source without checking again | an adaptor over `e({1,2,3})` standing at its last element, advanced once more, reads index 3 of a 3-element array | check liveness again after the advance and skip the fold when the source is exhausted | high; not executed | `Accumulation.SumPastEndAsWritten` | `Accumulation.AccumulateAdaptor.Advance` |
| iter/accumulate.h:97 | the default seed of `max` is `-numeric_limits<T>::max()` | `max` over a cursor holding only `INT_MIN` yields `-2147483647`, a value not in the sequence | the least value of T, `numeric_limits<T>::lowest()`, which is the identity of max_ | medium; not executed | `Fold.MaxDefaultSeedSkipsLowest` | `Fold.RunningMaxLowestSeed` |
