/**
 * The denominator of NCCD: the CCD of a balanced binary tree
 * (scripts/modularity.ts, `balancedTreeCcd`). Node `i` of the tree has the
 * children `2i` and `2i + 1`, as in a heap.
 */
module BalancedTree {
  /** How many of the nodes `1..n` lie in the subtree of `i`. */
  function SubtreeSize(i: nat, n: nat): nat
    requires i >= 1
    decreases if i <= n then n - i + 1 else 0
  {
    if i > n then 0 else 1 + SubtreeSize(2 * i, n) + SubtreeSize(2 * i + 1, n)
  }

  /** The depth of node `j`, counting the root as 1: floor(log2 j) + 1. */
  function Level(j: nat): nat
    requires j >= 1
  {
    if j == 1 then 1 else 1 + Level(j / 2)
  }

  function SumSizes(n: nat, upTo: nat): nat {
    if upTo == 0 then 0 else SumSizes(n, upTo - 1) + SubtreeSize(upTo, n)
  }

  function SumLevels(n: nat): nat {
    if n == 0 then 0 else SumLevels(n - 1) + Level(n)
  }

  function Pow2(k: nat): (r: nat)
    ensures r >= 1
  {
    if k == 0 then 1 else 2 * Pow2(k - 1)
  }

  lemma LevelsPositive(n: nat)
    requires n > 0
    ensures SumLevels(n) > 0
  {}

  lemma SubtreeSizeAt(i: nat, n: nat)
    requires 1 <= i <= n
    ensures SubtreeSize(i, n) == 1 + (if 2 * i <= n then SubtreeSize(2 * i, n) else 0)
                               + (if 2 * i + 1 <= n then SubtreeSize(2 * i + 1, n) else 0)
  {}

  /** The in-place loop and its total, which is the sum of the depths. */
  method BalancedTreeCcd(n: int) returns (r: int)
    ensures n <= 0 ==> r == 1
    ensures n > 0 ==> r == SumLevels(n) > 0
  {
    if n <= 0 {
      return 1;
    }
    var size := new int[n + 1](_ => 1);
    var i := n;
    while i >= 1
      invariant 0 <= i <= n
      invariant forall j | 1 <= j <= i :: size[j] == 1
      invariant forall j | i < j <= n :: size[j] == SubtreeSize(j, n)
    {
      SubtreeSizeAt(i, n);
      if 2 * i <= n {
        size[i] := size[i] + size[2 * i];
      }
      assert size[i] == 1 + if 2 * i <= n then SubtreeSize(2 * i, n) else 0;
      if 2 * i + 1 <= n {
        size[i] := size[i] + size[2 * i + 1];
      }
      assert size[i] == SubtreeSize(i, n);
      i := i - 1;
    }
    var total := 0;
    for k := 1 to n + 1
      invariant total == SumSizes(n, k - 1)
    {
      total := total + size[k];
    }
    assert total == SumLevels(n) > 0 by {
      SizesAreLevels(n);
      LevelsPositive(n);
    }
    return if total != 0 then total else 1;
  }

  // ---------------------------------------------------- sizes are counted by depths

  /** `i` is `j` or an ancestor of it. */
  predicate Above(i: nat, j: nat)
    requires i >= 1 && j >= 1
  {
    i == j || (i < j && Above(i, j / 2))
  }

  /** An ancestor's descendants are those of its two children. */
  lemma {:induction false} AboveChildren(i: nat, j: nat)
    requires i >= 1 && j > i
    ensures Above(i, j) <==> Above(2 * i, j) || Above(2 * i + 1, j)
    ensures !(Above(2 * i, j) && Above(2 * i + 1, j))
  {
    if j / 2 > i {
      AboveChildren(i, j / 2);
      assert j > 2 * i + 1;
    } else if j / 2 == i {
      assert j == 2 * i || j == 2 * i + 1;
      assert !Above(2 * i, j / 2);
    } else {
      assert j < 2 * i && !Above(i, j / 2);
    }
  }

  /** One more node adds one to each of its ancestors. */
  lemma {:induction false} SizeGrows(i: nat, n: nat)
    requires i >= 1
    ensures SubtreeSize(i, n + 1) == SubtreeSize(i, n) + if Above(i, n + 1) then 1 else 0
    decreases if i <= n then n - i + 1 else 0
  {
    if i <= n {
      SizeGrows(2 * i, n);
      SizeGrows(2 * i + 1, n);
      AboveChildren(i, n + 1);
    } else if i == n + 1 {
      assert SubtreeSize(2 * i, n + 1) == 0 && SubtreeSize(2 * i + 1, n + 1) == 0;
    }
  }

  function CountAbove(upTo: nat, j: nat): nat
    requires j >= 1
  {
    if upTo == 0 then 0 else CountAbove(upTo - 1, j) + if Above(upTo, j) then 1 else 0
  }

  lemma {:induction false} SumGrows(n: nat, upTo: nat)
    ensures SumSizes(n + 1, upTo) == SumSizes(n, upTo) + CountAbove(upTo, n + 1)
  {
    if upTo > 0 {
      SumGrows(n, upTo - 1);
      SizeGrows(upTo, n);
    }
  }

  lemma {:induction false} CountAboveHalf(upTo: nat, j: nat)
    requires j >= 2 && upTo < j
    ensures CountAbove(upTo, j) == CountAbove(upTo, j / 2)
  {
    if upTo > 0 {
      CountAboveHalf(upTo - 1, j);
      assert Above(upTo, j) <==> Above(upTo, j / 2);
    }
  }

  lemma {:induction false} CountAboveEnds(upTo: nat, more: nat, j: nat)
    requires j >= 1 && j <= upTo <= more
    ensures CountAbove(more, j) == CountAbove(upTo, j)
  {
    if upTo < more {
      CountAboveEnds(upTo, more - 1, j);
    }
  }

  /** A node has as many ancestors, itself included, as its depth. */
  lemma {:induction false} AncestorsAreLevel(j: nat)
    requires j >= 1
    ensures CountAbove(j, j) == Level(j)
  {
    if j == 1 {
      assert CountAbove(0, 1) == 0;
    } else {
      CountAboveHalf(j - 1, j);
      CountAboveEnds(j / 2, j - 1, j / 2);
      AncestorsAreLevel(j / 2);
    }
  }

  /** The subtree sizes add up to the depths. */
  lemma {:induction false} SizesAreLevels(n: nat)
    ensures SumSizes(n, n) == SumLevels(n)
    ensures n > 0 ==> SumLevels(n) > 0
  {
    if n > 0 {
      SizesAreLevels(n - 1);
      SumGrows(n - 1, n - 1);
      AncestorsAreLevel(n);
      SizeGrows(n, n - 1);
      assert SubtreeSize(n, n - 1) == 0;
    }
  }

  // ----------------------------------------------------------------- closed form

  lemma {:induction false} LevelIsLog(j: nat)
    requires j >= 1
    ensures Level(j) >= 1 && Pow2(Level(j) - 1) <= j < Pow2(Level(j))
  {
    if j > 1 {
      LevelIsLog(j / 2);
    }
  }

  lemma {:induction false} Pow2Grows(a: nat, b: nat)
    requires a < b
    ensures 2 * Pow2(a) <= Pow2(b) && Pow2(a) >= 1
    decreases b
  {
    if a + 1 < b {
      Pow2Grows(a, b - 1);
    } else if a > 0 {
      Pow2Grows(a - 1, a);
    }
  }

  lemma LevelBetween(j: nat, k: nat)
    requires j >= 1 && Pow2(k) <= j < Pow2(k + 1)
    ensures Level(j) == k + 1
  {
    LevelIsLog(j);
    if Level(j) > k + 1 {
      Pow2Grows(k, Level(j) - 1);
    } else if Level(j) < k + 1 {
      Pow2Grows(Level(j) - 1, k);
    }
  }

  function Total(n: nat, k: nat): int {
    (n + 1) * (k + 1) - Pow2(k + 1) + 1
  }

  lemma Distribute(a: int, b: int, c: int)
    ensures (a + b) * c == a * c + b * c
  {}

  lemma TotalSameLevel(n: nat, k: nat)
    requires n > 0
    ensures Total(n, k) == Total(n - 1, k) + k + 1
  {
    Distribute(n, 1, k + 1);
  }

  lemma TotalNewLevel(n: nat, k: nat)
    requires n == Pow2(k) && k > 0
    ensures Total(n, k) == Total(n - 1, k - 1) + k + 1
  {
    assert Pow2(k + 1) == 2 * n;
    Distribute(n, 1, k + 1);
    assert n * (k + 1) == n * k + n;
  }

  /** With 2^k <= n < 2^(k+1), the total is (n + 1)(k + 1) - 2^(k+1) + 1. */
  lemma {:induction false} ClosedForm(n: nat, k: nat)
    requires Pow2(k) <= n < Pow2(k + 1)
    ensures SumLevels(n) == Total(n, k)
  {
    LevelBetween(n, k);
    if n > Pow2(k) {
      ClosedForm(n - 1, k);
      TotalSameLevel(n, k);
    } else if k > 0 {
      Pow2Grows(k - 1, k);
      ClosedForm(n - 1, k - 1);
      TotalNewLevel(n, k);
    } else {
      assert n == 1 && Total(1, 0) == 1 && SumLevels(0) == 0;
    }
  }
}
