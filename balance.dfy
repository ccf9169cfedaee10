/** Arithmetic of the middle-index split used to build a tree from a sorted
    array: the height of the tree built from `n` elements, and why the two
    halves give a height-balanced result. */
module Balance {

  function Max(a: int, b: int): int {
    if a < b then b else a
  }

  function Pow2(k: nat): nat {
    if k == 0 then 1 else 2 * Pow2(k - 1)
  }

  /** Height of the tree that splitting `n` sorted elements at `n / 2` builds
      (-1 for the empty tree). The larger half always has `n / 2` elements. */
  function SplitHeight(n: nat): int
  {
    if n == 0 then -1 else 1 + SplitHeight(n / 2)
  }

  /** One more element never lowers the height. */
  lemma {:induction false} SplitHeightMonotoneStep(n: nat)
    ensures SplitHeight(n) <= SplitHeight(n + 1)
  {
    if n > 0 && (n + 1) / 2 != n / 2 {
      SplitHeightMonotoneStep(n / 2);
    }
  }

  /** One more element raises the height by at most one. */
  lemma {:induction false} SplitHeightGrowsByAtMostOne(n: nat)
    ensures SplitHeight(n + 1) <= SplitHeight(n) + 1
  {
    if n > 0 && (n + 1) / 2 != n / 2 {
      SplitHeightGrowsByAtMostOne(n / 2);
    }
  }

  /** Splitting `n >= 1` elements at `mid = n / 2` leaves `mid` elements on the
      left and `n - 1 - mid` on the right: the left half is never smaller, by at
      most one element, so the two heights differ by at most one and the left
      one decides the height. */
  lemma SplitHalves(n: nat)
    requires n >= 1
    ensures var mid := n / 2;
      && 0 <= mid - (n - 1 - mid) <= 1
      && 0 <= SplitHeight(mid) - SplitHeight(n - 1 - mid) <= 1
      && SplitHeight(n) == 1 + Max(SplitHeight(mid), SplitHeight(n - 1 - mid))
  {
    var mid := n / 2;
    var rest := n - 1 - mid;
    assert n == 2 * mid || n == 2 * mid + 1;
    if rest < mid {
      assert rest + 1 == mid;
      SplitHeightMonotoneStep(rest);
      SplitHeightGrowsByAtMostOne(rest);
    }
    assert SplitHeight(n) == 1 + SplitHeight(mid);
  }

  /** The height is logarithmic: `2^height <= n` for a non-empty array. */
  lemma {:induction false} SplitHeightLogarithmic(n: nat)
    requires n >= 1
    ensures SplitHeight(n) >= 0 && Pow2(SplitHeight(n)) <= n
  {
    if n > 1 {
      SplitHeightLogarithmic(n / 2);
    }
  }
}
