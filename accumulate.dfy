/** The running-fold adaptor: a cursor over a source cursor whose value at
    each position is the inclusive left fold of everything the source has
    yielded so far, and its sum/prod/min/max configurations. */
module Accumulation {
  import opened Enumerators
  import opened Fold

  /** accumulate_<O, I, T>. The source derives from the cursor it wraps;
      here the adaptor owns that cursor as `src`. */
  class AccumulateAdaptor<T> {
    var src: Enumerator<T>
    var o: (T, T) -> T
    var t: T
    /** The initial value the first element was folded into. */
    ghost var seed: T
    /** Where the source cursor stood when the adaptor was built. */
    ghost var start: nat

    /** How far into src.s the elements are already folded into t: up to and
        including the current position while live, all of them afterwards. */
    ghost function Folded(): nat
      reads this
    {
      if src.Live() then src.pos + 1 else |src.s|
    }

    /** The running value is the inclusive prefix fold from the start position. */
    ghost predicate Valid()
      reads this
    {
      src.Valid() && start <= src.pos &&
      t == FoldLeft(o, seed, src.s[start..Folded()])
    }

    /** accumulate_(o, i, t): the first element, if any, is folded in eagerly. */
    constructor (o: (T, T) -> T, i: Enumerator<T>, t: T)
      requires i.Valid()
      ensures Valid()
      ensures src == i && this.o == o && seed == t && start == i.pos
      ensures i.Live() ==> this.t == o(t, i.Current())
      ensures !i.Live() ==> this.t == t
    {
      src := i;
      this.o := o;
      this.t := if i.Live() then o(t, i.Current()) else t;
      seed := t;
      start := i.pos;
      new;
      if i.Live() {
        assert i.s[i.pos..i.pos + 1][..0] == [];
      }
    }

    /** The implicit copy constructor: an independent adaptor in the same state. */
    constructor Copy(a: AccumulateAdaptor<T>)
      requires a.Valid()
      ensures Valid()
      ensures src == a.src && o == a.o && t == a.t && seed == a.seed && start == a.start
    {
      src, o, t := a.src, a.o, a.t;
      seed, start := a.seed, a.start;
    }

    /** The implicit copy assignment `b = c`. */
    method Assign(a: AccumulateAdaptor<T>)
      requires a.Valid()
      modifies this
      ensures Valid()
      ensures src == a.src && o == a.o && t == a.t && seed == a.seed && start == a.start
    {
      src, o, t := a.src, a.o, a.t;
      seed, start := a.seed, a.start;
    }

    /** `iterator()`: the source cursor, at the adaptor's own position. */
    function Iterator(): (i: Enumerator<T>)
      reads this
      requires Valid()
      ensures i.Valid() && i.s == src.s && i.pos == src.pos
      ensures i.Live() <==> HasCurrent()
    {
      src
    }

    /** `operator bool`: live exactly when the source is live at the same position. */
    function HasCurrent(): (live: bool)
      reads this
      ensures live <==> src.pos < |src.s|
    {
      src.Live()
    }

    /** `operator*`: the running value, readable in every state. While live it
        is the fold of every element from the start position up to and
        including the current one; once exhausted, the fold of every element
        from the start position (the seed, over an empty source). */
    function Current(): (v: T)
      reads this
      requires Valid()
      ensures HasCurrent() ==> v == FoldLeft(o, seed, src.s[start..src.pos + 1])
      ensures !HasCurrent() ==> v == FoldLeft(o, seed, src.s[start..])
    {
      assert src.s[start..|src.s|] == src.s[start..];
      t
    }

    /** Prefix `operator++`. A live adaptor advances its source and, if the
        source is still live, folds the new element in as o(accumulated, next);
        an exhausted adaptor is left unchanged. */
    method Advance()
      requires Valid()
      modifies this
      ensures Valid()
      ensures o == old(o) && seed == old(seed) && start == old(start)
      ensures src == if old(src.Live()) then old(src).Next() else old(src)
      ensures HasCurrent() ==> t == o(old(t), src.Current())
      ensures !HasCurrent() ==> t == old(t)
    {
      if src.Live() {
        src := src.Next();
        if src.Live() {
          FoldLeftExtend(o, seed, src.s, start, src.pos);
          t := o(t, src.Current());
        }
      }
    }

    /** Postfix `operator++`: a snapshot of the adaptor before the call, with
        the adaptor itself advanced exactly as by the prefix form. */
    method PostAdvance() returns (a: AccumulateAdaptor<T>)
      requires Valid()
      modifies this
      ensures fresh(a) && a.Valid()
      ensures a.src == old(src) && a.o == old(o) && a.t == old(t)
      ensures a.seed == old(seed) && a.start == old(start)
      ensures Valid()
      ensures o == old(o) && seed == old(seed) && start == old(start)
      ensures src == if old(src.Live()) then old(src).Next() else old(src)
      ensures HasCurrent() ==> t == o(old(t), src.Current())
      ensures !HasCurrent() ==> t == old(t)
    {
      a := new AccumulateAdaptor.Copy(this);
      Advance();
    }
  }

  /** accumulate(o, i, t). */
  method Accumulate<T>(o: (T, T) -> T, i: Enumerator<T>, t: T) returns (a: AccumulateAdaptor<T>)
    requires i.Valid()
    ensures fresh(a) && a.Valid()
    ensures a.src == i && a.o == o && a.seed == t && a.start == i.pos
  {
    a := new AccumulateAdaptor(o, i, t);
  }

  /** sum(i, t = 0): running sum. */
  method Sum(i: Enumerator<int>, t: int := 0) returns (a: AccumulateAdaptor<int>)
    requires i.Valid()
    ensures fresh(a) && a.Valid()
    ensures a.src == i && a.o == Plus && a.seed == t && a.start == i.pos
  {
    a := Accumulate(Plus, i, t);
  }

  /** prod(i, t = 1): running product. */
  method Prod(i: Enumerator<int>, t: int := 1) returns (a: AccumulateAdaptor<int>)
    requires i.Valid()
    ensures fresh(a) && a.Valid()
    ensures a.src == i && a.o == Times && a.seed == t && a.start == i.pos
  {
    a := new AccumulateAdaptor(Times, i, t);
  }

  /** min(i, t = numeric_limits<T>::max()): running minimum. */
  method Min(i: Enumerator<int>, t: int := MaxT) returns (a: AccumulateAdaptor<int>)
    requires i.Valid()
    ensures fresh(a) && a.Valid()
    ensures a.src == i && a.o == MinOp && a.seed == t && a.start == i.pos
  {
    a := new AccumulateAdaptor(MinOp, i, t);
  }

  /** max(i, t = -numeric_limits<T>::max()): running maximum, with the seed as written. */
  method Max(i: Enumerator<int>, t: int := -MaxT) returns (a: AccumulateAdaptor<int>)
    requires i.Valid()
    ensures fresh(a) && a.Valid()
    ensures a.src == i && a.o == MaxOp && a.seed == t && a.start == i.pos
  {
    a := new AccumulateAdaptor(MaxOp, i, t);
  }

  /** Running maximum seeded with the least value of T, the identity of MaxOp
      on T (see RunningMaxLowestSeed). */
  method MaxLowestSeed(i: Enumerator<int>, t: int := Lowest) returns (a: AccumulateAdaptor<int>)
    requires i.Valid()
    ensures fresh(a) && a.Valid()
    ensures a.src == i && a.o == MaxOp && a.seed == t && a.start == i.pos
  {
    a := new AccumulateAdaptor(MaxOp, i, t);
  }

  /** The element a cursor yields at index k; past the end, C++ reads
      whatever lies beyond the array, modelled as the arbitrary value `junk`. */
  function ReadAt<T>(s: seq<T>, k: nat, junk: T): T {
    if k < |s| then s[k] else junk
  }

  /** The fold step of prefix `operator++` as written: guarded by the
      liveness before the advance, it folds in `*++i` without checking the
      advanced cursor again. */
  function StepAsWritten<T>(o: (T, T) -> T, t: T, c: Enumerator<T>, junk: T): T
    requires c.Live()
  {
    o(t, ReadAt(c.s, c.Next().pos, junk))
  }

  /** While the advanced source is still live, the step as written computes
      exactly the value Advance keeps: the prefix fold one element longer. */
  lemma StepAsWrittenAgreesWhileLive<T>(o: (T, T) -> T, seed: T, s: seq<T>, start: nat, k: nat, junk: T)
    requires start <= k && k + 1 < |s|
    ensures StepAsWritten(o, FoldLeft(o, seed, s[start..k + 1]), Enumerator(s, k), junk)
            == FoldLeft(o, seed, s[start..k + 2])
  {
    FoldLeftExtend(o, seed, s, start, k + 1);
  }

  /** At the last element the step as written folds in the out-of-range value:
      the result is o(t, junk), whatever the sequence holds. */
  lemma StepPastEndAsWritten<T>(o: (T, T) -> T, t: T, s: seq<T>, junk: T)
    requires s != []
    ensures Enumerator(s, |s| - 1).Live() && !Enumerator(s, |s| - 1).Next().Live()
    ensures StepAsWritten(o, t, Enumerator(s, |s| - 1), junk) == o(t, junk)
  {
  }

  /** sum over {1,2,3} standing at its last element, running value 6, advanced
      once more as written with 7 beyond the array: the running value becomes
      13, no longer the sum 6 of the sequence. */
  lemma SumPastEndAsWritten()
    ensures FoldLeft(Plus, 0, [1, 2, 3]) == 6
    ensures StepAsWritten(Plus, 6, Enumerator([1, 2, 3], 2), 7) == 13
  {
    RunningSumIsSum(0, [1, 2, 3]);
  }

  // ---- the scenarios of the embedded tests -------------------------------------

  /** accumulate(plus, e({1,2,3}), 0), copied and assigned back, yields 1, 3, 6. */
  method AccumulatePlusOneTwoThree() returns (v0: int, v1: int, v2: int)
    ensures v0 == 1 && v1 == 3 && v2 == 6
  {
    var s := [1, 2, 3];
    var b := Accumulate(Plus, Enumerator(s, 0), 0);
    var c := new AccumulateAdaptor.Copy(b);
    b.Assign(c);
    var a := b.PostAdvance();
    v0 := a.Current();
    v1 := b.Current();
    b.Advance();
    v2 := b.Current();
    RunningSumIsSum(0, s[0..1]);
    RunningSumIsSum(0, s[0..2]);
    RunningSumIsSum(0, s[0..3]);
  }

  /** sum(e({1,2,3})), copied and assigned back, yields 1, 3, 6. */
  method SumOneTwoThree() returns (v0: int, v1: int, v2: int)
    ensures v0 == 1 && v1 == 3 && v2 == 6
  {
    var s := [1, 2, 3];
    var b := Sum(Enumerator(s, 0));
    var c := new AccumulateAdaptor.Copy(b);
    b.Assign(c);
    var a := b.PostAdvance();
    v0 := a.Current();
    v1 := b.Current();
    b.Advance();
    v2 := b.Current();
    RunningSumIsSum(0, s[0..1]);
    RunningSumIsSum(0, s[0..2]);
    RunningSumIsSum(0, s[0..3]);
  }

  /** prod(e({1,2,3})), copied and assigned back, yields 1, 2, 6. */
  method ProdOneTwoThree() returns (v0: int, v1: int, v2: int)
    ensures v0 == 1 && v1 == 2 && v2 == 6
  {
    var s := [1, 2, 3];
    var b := Prod(Enumerator(s, 0));
    var c := new AccumulateAdaptor.Copy(b);
    b.Assign(c);
    var a := b.PostAdvance();
    v0 := a.Current();
    v1 := b.Current();
    b.Advance();
    v2 := b.Current();
    RunningProductIsProduct(1, s[0..1]);
    RunningProductIsProduct(1, s[0..2]);
    RunningProductIsProduct(1, s[0..3]);
  }

  /** accumulate(horner(4), reverse of {1,2,3}, 0) yields 3, 2 + 4*3 and
      1 + 4*(2 + 4*3): the operator is applied as o(accumulated, next). */
  method HornerOverReversed() returns (v0: int, v1: int, v2: int, live: bool)
    ensures v0 == 3 && v1 == 2 + 4 * 3 && v2 == 1 + 4 * (2 + 4 * 3)
    ensures live
  {
    var s := [3, 2, 1];
    var d := Accumulate(Horner(4), Enumerator(s, 0), 0);
    v0 := d.Current();
    var a := d.PostAdvance();
    v1 := d.Current();
    d.Advance();
    v2 := d.Current();
    var f := new AccumulateAdaptor.Copy(d);
    d.Assign(f);
    live := d.HasCurrent();
    RunningHornerIsPolynomial(4, s[0..1]);
    RunningHornerIsPolynomial(4, s[0..2]);
    RunningHornerIsPolynomial(4, s[0..3]);
  }

  /** min over {1,2,3} with its default seed yields 1, 1, 1. */
  method MinOneTwoThree() returns (v0: int, v1: int, v2: int)
    ensures v0 == 1 && v1 == 1 && v2 == 1
  {
    var s := [1, 2, 3];
    var b := Min(Enumerator(s, 0));
    v0 := b.Current();
    b.Advance();
    v1 := b.Current();
    b.Advance();
    v2 := b.Current();
    assert s[0..1] == [1] && s[0..2] == [1, 2] && s[0..3] == s;
    assert [1][..0] == [] && [1, 2][..1] == [1] && s[..2] == [1, 2];
    assert FoldLeft(MinOp, MaxT, [1]) == 1;
    assert FoldLeft(MinOp, MaxT, [1, 2]) == 1;
  }

  /** max over {1,2,3} with its default seed yields 1, 2, 3. */
  method MaxOneTwoThree() returns (v0: int, v1: int, v2: int)
    ensures v0 == 1 && v1 == 2 && v2 == 3
  {
    var s := [1, 2, 3];
    var b := Max(Enumerator(s, 0));
    v0 := b.Current();
    b.Advance();
    v1 := b.Current();
    b.Advance();
    v2 := b.Current();
    assert s[0..1] == [1] && s[0..2] == [1, 2] && s[0..3] == s;
    assert [1][..0] == [] && [1, 2][..1] == [1] && s[..2] == [1, 2];
    assert FoldLeft(MaxOp, -MaxT, [1]) == 1;
    assert FoldLeft(MaxOp, -MaxT, [1, 2]) == 2;
  }

  /** `auto c(b)`: advancing the copy twice leaves the original sum over
      {1,2,3} live at its first value 1, while the copy reads 6. */
  method CopyIsIndependent() returns (original: int, copy: int, live: bool)
    ensures original == 1 && copy == 6 && live
  {
    var s := [1, 2, 3];
    var b := Sum(Enumerator(s, 0));
    var c := new AccumulateAdaptor.Copy(b);
    c.Advance();
    c.Advance();
    original := b.Current();
    copy := c.Current();
    live := b.HasCurrent();
    RunningSumIsSum(0, s[0..1]);
    RunningSumIsSum(0, s[0..3]);
  }

  /** sum over an empty source is not live, and `*` still reads its seed. */
  method EmptySumReadsSeed() returns (v: int, live: bool)
    ensures v == 5 && !live
  {
    var b := Sum(Enumerator([], 0), 5);
    v := b.Current();
    live := b.HasCurrent();
  }
}
