/** Enumeration of the candidate stage policies: every boolean vector over the
    non-absorbing states, produced by a recursive Cartesian product. */
module Policies {

  /** All combinations [firsts[0]] + rest[0], [firsts[0]] + rest[1], ..., [firsts[1]] + rest[0], ...:
      the outer loop over the first list, the inner loop over the remaining product. */
  function Prepend<T>(firsts: seq<T>, rest: seq<seq<T>>): (r: seq<seq<T>>)
    ensures forall k :: 0 <= k < |r| ==> |r[k]| > 0 && r[k][0] in firsts && r[k][1..] in rest
  {
    if |firsts| == 0 then []
    else
      var block := seq(|rest|, k requires 0 <= k < |rest| => [firsts[0]] + rest[k]);
      assert forall k :: 0 <= k < |block| ==> block[k][1..] == rest[k];
      block + Prepend(firsts[1..], rest)
  }

  /** The Cartesian product of the lists, in the order of the nested loops: the first
      list varies slowest.  Every element picks one entry from each list, in order. */
  function CartesianProduct<T>(lists: seq<seq<T>>): (r: seq<seq<T>>)
    ensures forall k :: 0 <= k < |r| ==> |r[k]| == |lists|
    ensures forall k, i :: 0 <= k < |r| && 0 <= i < |lists| ==> r[k][i] in lists[i]
  {
    if |lists| == 0 then [[]]
    else
      var rest := CartesianProduct(lists[1..]);
      var r := Prepend(lists[0], rest);
      assert forall k, i :: 0 <= k < |r| && 1 <= i < |lists| ==> r[k][i] == r[k][1..][i - 1];
      r
  }

  function Pow2(n: nat): (p: nat)
    ensures p >= 1
  {
    if n == 0 then 1 else 2 * Pow2(n - 1)
  }

  /** n copies of the choice list [false, true], one per non-absorbing state. */
  function Choices(n: nat): (lists: seq<seq<bool>>)
    ensures |lists| == n && forall i :: 0 <= i < n ==> lists[i] == [false, true]
  {
    seq(n, i => [false, true])
  }

  /** Every candidate policy vector over n states. */
  function Combinations(n: nat): (r: seq<seq<bool>>)
    ensures forall k :: 0 <= k < |r| ==> |r[k]| == n
  {
    CartesianProduct(Choices(n))
  }

  /** The number a policy vector spells in binary, its first bit the most significant. */
  function Index(v: seq<bool>): (k: nat)
    ensures k < Pow2(|v|)
  {
    if |v| == 0 then 0 else (if v[0] then Pow2(|v| - 1) else 0) + Index(v[1..])
  }

  /** Every vector of `rest`, each prefixed with the bit b. */
  function Prefixed(b: bool, rest: seq<seq<bool>>): (r: seq<seq<bool>>)
    ensures |r| == |rest| && forall k :: 0 <= k < |rest| ==> r[k] == [b] + rest[k]
  {
    seq(|rest|, k requires 0 <= k < |rest| => [b] + rest[k])
  }

  /** One step of the recursion on bool choices: the first half of the combinations starts
      with false, the second half with true, each followed by the combinations of the rest. */
  lemma CombinationsStep(n: nat)
    requires n > 0
    ensures Combinations(n) == Prefixed(false, Combinations(n - 1)) + Prefixed(true, Combinations(n - 1))
  {
    assert Choices(n)[1..] == Choices(n - 1);
    var rest := Combinations(n - 1);
    assert [false, true][1..][1..] == [];
    calc {
      Combinations(n);
      Prepend([false, true], rest);
      Prefixed(false, rest) + Prepend([true], rest);
      Prefixed(false, rest) + (Prefixed(true, rest) + Prepend([], rest));
    }
  }

  /** There are exactly 2^n candidate policies, each a vector of n bits; for n = 0 the
      single empty vector. */
  lemma {:induction false} CombinationsCount(n: nat)
    ensures |Combinations(n)| == Pow2(n)
    ensures forall k :: 0 <= k < |Combinations(n)| ==> |Combinations(n)[k]| == n
  {
    if n > 0 {
      CombinationsCount(n - 1);
      CombinationsStep(n);
    }
  }

  /** The k-th candidate policy spells k in binary: the enumeration lists 0 .. 2^n - 1 in order. */
  lemma {:induction false} IndexOfCombination(n: nat, k: nat)
    requires k < |Combinations(n)|
    ensures Index(Combinations(n)[k]) == k
  {
    if n == 0 {
      CombinationsCount(n);
    } else {
      CombinationsStep(n);
      CombinationsCount(n - 1);
      var rest := Combinations(n - 1);
      var low, high := Prefixed(false, rest), Prefixed(true, rest);
      assert Combinations(n) == low + high;
      if k < |rest| {
        IndexOfCombination(n - 1, k);
        assert (low + high)[k] == low[k] == [false] + rest[k];
        assert ([false] + rest[k])[1..] == rest[k];
      } else {
        var j := k - |rest|;
        IndexOfCombination(n - 1, j);
        assert (low + high)[k] == high[j] == [true] + rest[j];
        assert ([true] + rest[j])[1..] == rest[j];
        assert Index([true] + rest[j]) == Pow2(n - 1) + Index(rest[j]);
      }
    }
  }

  /** The first half of the combinations of n bits: bit false followed by the combinations
      of the remaining n - 1 bits. */
  lemma CombinationInLowHalf(n: nat, j: nat)
    requires n > 0 && j < |Combinations(n - 1)|
    ensures j < |Combinations(n)| && Combinations(n)[j] == [false] + Combinations(n - 1)[j]
  {
    CombinationsStep(n);
    var rest := Combinations(n - 1);
    var low, high := Prefixed(false, rest), Prefixed(true, rest);
    assert (low + high)[j] == low[j];
  }

  /** The second half, starting at 2^(n - 1): bit true followed by the combinations of the
      remaining n - 1 bits. */
  lemma CombinationInHighHalf(n: nat, j: nat)
    requires n > 0 && j < |Combinations(n - 1)|
    ensures Pow2(n - 1) + j < |Combinations(n)|
    ensures Combinations(n)[Pow2(n - 1) + j] == [true] + Combinations(n - 1)[j]
  {
    CombinationsStep(n);
    CombinationsCount(n - 1);
    var rest := Combinations(n - 1);
    var low, high := Prefixed(false, rest), Prefixed(true, rest);
    ConcatIndexRight(low, high, j);
  }

  lemma ConcatIndexRight<T>(front: seq<T>, back: seq<T>, j: nat)
    requires j < |back|
    ensures (front + back)[|front| + j] == back[j]
  {
  }

  /** Every boolean vector of length n is enumerated, at the position its binary value names. */
  lemma {:induction false} CombinationOfIndex(v: seq<bool>)
    ensures Index(v) < |Combinations(|v|)| && Combinations(|v|)[Index(v)] == v
  {
    if |v| == 0 {
      CombinationsCount(0);
    } else {
      CombinationOfIndex(v[1..]);
      var j := Index(v[1..]);
      if v[0] {
        CombinationInHighHalf(|v|, j);
      } else {
        CombinationInLowHalf(|v|, j);
      }
      assert v == [v[0]] + v[1..];
    }
  }

  /** The candidate policies are pairwise distinct. */
  lemma CombinationsDistinct(n: nat, i: nat, j: nat)
    requires i < j < |Combinations(n)|
    ensures Combinations(n)[i] != Combinations(n)[j]
  {
    IndexOfCombination(n, i);
    IndexOfCombination(n, j);
  }
}
