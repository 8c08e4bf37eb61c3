/** The running left fold that the accumulate adaptor exposes,
    o(t, i[0]), o(o(t, i[0]), i[1]), ..., with the operators and seeds
    of its named configurations and the facts proved about them. */
module Fold {

  /** Left fold of `s` from `seed`, peeling the last element, so that the
      fold of a prefix one longer is one more application of `o`:
      FoldLeft(o, seed, s + [x]) == o(FoldLeft(o, seed, s), x). */
  function FoldLeft<T>(o: (T, T) -> T, seed: T, s: seq<T>): T
    decreases |s|
  {
    if s == [] then seed else o(FoldLeft(o, seed, s[..|s| - 1]), s[|s| - 1])
  }

  /** Reference definition: the textbook foldl, peeling the first element. */
  function Foldl<T>(o: (T, T) -> T, acc: T, s: seq<T>): T
    decreases |s|
  {
    if s == [] then acc else Foldl(o, o(acc, s[0]), s[1..])
  }

  lemma {:induction false} FoldlSnoc<T>(o: (T, T) -> T, acc: T, s: seq<T>, x: T)
    ensures Foldl(o, acc, s + [x]) == o(Foldl(o, acc, s), x)
    decreases |s|
  {
    if s == [] {
      assert [x][1..] == [];
    } else {
      assert (s + [x])[1..] == s[1..] + [x];
      FoldlSnoc(o, o(acc, s[0]), s[1..], x);
    }
  }

  /** The running value is the ordinary left fold: elements are combined
      strictly left to right, as o(accumulated, next). */
  lemma {:induction false} FoldLeftIsFoldl<T>(o: (T, T) -> T, seed: T, s: seq<T>)
    ensures FoldLeft(o, seed, s) == Foldl(o, seed, s)
    decreases |s|
  {
    if s != [] {
      var p := s[..|s| - 1];
      FoldLeftIsFoldl(o, seed, p);
      FoldlSnoc(o, seed, p, s[|s| - 1]);
      assert p + [s[|s| - 1]] == s;
    }
  }

  /** Extending a slice by one element applies the operator once more. */
  lemma FoldLeftExtend<T>(o: (T, T) -> T, seed: T, s: seq<T>, i: nat, k: nat)
    requires i <= k < |s|
    ensures FoldLeft(o, seed, s[i..k + 1]) == o(FoldLeft(o, seed, s[i..k]), s[k])
  {
    assert s[i..k + 1][..k - i] == s[i..k];
  }

  // ---- std::plus, std::multiplies, min_, max_ over T = int -------------------

  /** numeric_limits<int>::max() for a 32-bit int. */
  const MaxT: int := 0x7fff_ffff

  /** numeric_limits<int>::lowest() for a 32-bit int, one below -MaxT. */
  const Lowest: int := -MaxT - 1

  /** An element that fits in T. */
  predicate InRange(x: int) {
    Lowest <= x <= MaxT
  }

  function Plus(a: int, b: int): int { a + b }

  function Times(a: int, b: int): int { a * b }

  /** std::min(t, u): u when it is strictly smaller, otherwise t. */
  function MinOp(t: int, u: int): int { if u < t then u else t }

  /** std::max(t, u): u when t is strictly smaller, otherwise t. */
  function MaxOp(t: int, u: int): int { if t < u then u else t }

  /** Reference sum and product, peeling the first element. */
  function SumOf(s: seq<int>): int {
    if s == [] then 0 else s[0] + SumOf(s[1..])
  }

  function ProductOf(s: seq<int>): int {
    if s == [] then 1 else s[0] * ProductOf(s[1..])
  }

  lemma {:induction false} FoldlPlus(acc: int, s: seq<int>)
    ensures Foldl(Plus, acc, s) == acc + SumOf(s)
    decreases |s|
  {
    if s != [] {
      FoldlPlus(acc + s[0], s[1..]);
    }
  }

  lemma {:induction false} FoldlTimes(acc: int, s: seq<int>)
    ensures Foldl(Times, acc, s) == acc * ProductOf(s)
    decreases |s|
  {
    if s != [] {
      FoldlTimes(acc * s[0], s[1..]);
      assert acc * s[0] * ProductOf(s[1..]) == acc * (s[0] * ProductOf(s[1..]));
    }
  }

  /** The running sum from seed t is t plus the sum of the prefix. */
  lemma RunningSumIsSum(t: int, s: seq<int>)
    ensures FoldLeft(Plus, t, s) == t + SumOf(s)
  {
    FoldLeftIsFoldl(Plus, t, s);
    FoldlPlus(t, s);
  }

  /** The running product from seed t is t times the product of the prefix. */
  lemma RunningProductIsProduct(t: int, s: seq<int>)
    ensures FoldLeft(Times, t, s) == t * ProductOf(s)
  {
    FoldLeftIsFoldl(Times, t, s);
    FoldlTimes(t, s);
  }

  /** The running min is the least of the seed and every element folded so far. */
  lemma {:induction false} RunningMinIsMinimum(seed: int, s: seq<int>)
    ensures FoldLeft(MinOp, seed, s) <= seed
    ensures forall j :: 0 <= j < |s| ==> FoldLeft(MinOp, seed, s) <= s[j]
    ensures FoldLeft(MinOp, seed, s) == seed || exists j :: 0 <= j < |s| && FoldLeft(MinOp, seed, s) == s[j]
    decreases |s|
  {
    if s != [] {
      var n := |s| - 1;
      var p := s[..n];
      RunningMinIsMinimum(seed, p);
      var r := FoldLeft(MinOp, seed, p);
      assert FoldLeft(MinOp, seed, s) == MinOp(r, s[n]);
      forall j | 0 <= j < |s| ensures FoldLeft(MinOp, seed, s) <= s[j] {
        if j < n { assert s[j] == p[j]; }
      }
      if r != seed && s[n] >= r {
        var j :| 0 <= j < |p| && r == p[j];
        assert s[j] == r;
      }
    }
  }

  /** The running max is the greatest of the seed and every element folded so far. */
  lemma {:induction false} RunningMaxIsMaximum(seed: int, s: seq<int>)
    ensures FoldLeft(MaxOp, seed, s) >= seed
    ensures forall j :: 0 <= j < |s| ==> FoldLeft(MaxOp, seed, s) >= s[j]
    ensures FoldLeft(MaxOp, seed, s) == seed || exists j :: 0 <= j < |s| && FoldLeft(MaxOp, seed, s) == s[j]
    decreases |s|
  {
    if s != [] {
      var n := |s| - 1;
      var p := s[..n];
      RunningMaxIsMaximum(seed, p);
      var r := FoldLeft(MaxOp, seed, p);
      assert FoldLeft(MaxOp, seed, s) == MaxOp(r, s[n]);
      forall j | 0 <= j < |s| ensures FoldLeft(MaxOp, seed, s) >= s[j] {
        if j < n { assert s[j] == p[j]; }
      }
      if r != seed && s[n] <= r {
        var j :| 0 <= j < |p| && r == p[j];
        assert s[j] == r;
      }
    }
  }

  /** Across advances the running min never increases. */
  lemma {:induction false} RunningMinNonIncreasing(seed: int, s: seq<int>, j: nat, k: nat)
    requires j <= k <= |s|
    ensures FoldLeft(MinOp, seed, s[..k]) <= FoldLeft(MinOp, seed, s[..j])
    decreases k - j
  {
    if j < k {
      RunningMinNonIncreasing(seed, s, j, k - 1);
      assert s[..k][..k - 1] == s[..k - 1];
    }
  }

  /** Across advances the running max never decreases. */
  lemma {:induction false} RunningMaxNonDecreasing(seed: int, s: seq<int>, j: nat, k: nat)
    requires j <= k <= |s|
    ensures FoldLeft(MaxOp, seed, s[..j]) <= FoldLeft(MaxOp, seed, s[..k])
    decreases k - j
  {
    if j < k {
      RunningMaxNonDecreasing(seed, s, j, k - 1);
      assert s[..k][..k - 1] == s[..k - 1];
    }
  }

  /** The default seed of min is an identity for elements of T: over a
      non-empty sequence the running min is one of its elements. */
  lemma RunningMinDefaultSeed(s: seq<int>)
    requires s != [] && forall j :: 0 <= j < |s| ==> InRange(s[j])
    ensures exists j :: 0 <= j < |s| && FoldLeft(MinOp, MaxT, s) == s[j]
    ensures forall j :: 0 <= j < |s| ==> FoldLeft(MinOp, MaxT, s) <= s[j]
  {
    RunningMinIsMinimum(MaxT, s);
    if FoldLeft(MinOp, MaxT, s) == MaxT {
      assert FoldLeft(MinOp, MaxT, s) == s[0];
    }
  }

  /** The default seed of max as written, -MaxT, is not an identity for T:
      the running max of the single element Lowest is -MaxT. */
  lemma MaxDefaultSeedSkipsLowest()
    ensures InRange(Lowest)
    ensures FoldLeft(MaxOp, -MaxT, [Lowest]) == -MaxT != Lowest
  {
    assert [Lowest][..0] == [];
  }

  /** Seeded with Lowest instead, the running max over a non-empty sequence
      of elements of T is always one of its elements. */
  lemma RunningMaxLowestSeed(s: seq<int>)
    requires s != [] && forall j :: 0 <= j < |s| ==> InRange(s[j])
    ensures exists j :: 0 <= j < |s| && FoldLeft(MaxOp, Lowest, s) == s[j]
    ensures forall j :: 0 <= j < |s| ==> FoldLeft(MaxOp, Lowest, s) >= s[j]
  {
    RunningMaxIsMaximum(Lowest, s);
    if FoldLeft(MaxOp, Lowest, s) == Lowest {
      assert FoldLeft(MaxOp, Lowest, s) == s[0];
    }
  }

  // ---- the order-sensitive operator of the Horner test ------------------------

  /** horner(x): (a, b) => x*a + b; not commutative. */
  function Horner(x: int): (int, int) -> int {
    (a: int, b: int) => x * a + b
  }

  function Pow(x: int, n: nat): int {
    if n == 0 then 1 else x * Pow(x, n - 1)
  }

  /** Polynomial whose coefficients are s, highest degree first. */
  function Poly(x: int, s: seq<int>): int {
    if s == [] then 0 else s[0] * Pow(x, |s| - 1) + Poly(x, s[1..])
  }

  lemma {:induction false} FoldlHorner(x: int, acc: int, s: seq<int>)
    ensures Foldl(Horner(x), acc, s) == acc * Pow(x, |s|) + Poly(x, s)
    decreases |s|
  {
    if s != [] {
      var n := |s|;
      var a' := x * acc + s[0];
      FoldlHorner(x, a', s[1..]);
      assert Foldl(Horner(x), acc, s) == a' * Pow(x, n - 1) + Poly(x, s[1..]);
      assert a' * Pow(x, n - 1) == acc * (x * Pow(x, n - 1)) + s[0] * Pow(x, n - 1);
    }
  }

  /** Folding with horner(x) from 0 evaluates, in order, the polynomial
      whose coefficients are the folded elements, leading one first. */
  lemma RunningHornerIsPolynomial(x: int, s: seq<int>)
    ensures FoldLeft(Horner(x), 0, s) == Poly(x, s)
  {
    FoldLeftIsFoldl(Horner(x), 0, s);
    FoldlHorner(x, 0, s);
  }

  /** The running value depends on element order: horner(4) over {3,2,1}
      and over {1,2,3} end in different values. */
  lemma RunningHornerIsOrderSensitive()
    ensures FoldLeft(Horner(4), 0, [3, 2, 1]) == 57
    ensures FoldLeft(Horner(4), 0, [1, 2, 3]) == 27
  {
    RunningHornerIsPolynomial(4, [3, 2, 1]);
    RunningHornerIsPolynomial(4, [1, 2, 3]);
  }
}
