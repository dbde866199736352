/**
 * Combinations of r out of 0..n-1, written as ascending sequences: their lexicographic rank, without
 * reference to the iterator.
 */
module Combinations {
  import opened Counting
  import opened Selections

  ghost predicate IsCombination(v: seq<nat>, n: nat) {
    Ascending(v) && forall i | 0 <= i < |v| :: v[i] < n
  }

  /** The smallest value entry `k` may take behind the entries before it. */
  ghost function Lowest(v: seq<nat>, k: nat): nat
    requires k <= |v|
  {
    if k == 0 then 0 else v[k - 1] + 1
  }

  /** How many ways there are to choose an entry in lo..x-1 and then `m` larger ones below `n`. */
  ghost function Skipped(n: nat, lo: nat, x: nat, m: nat): nat
    requires x <= n
  {
    if x <= lo then 0 else Skipped(n, lo, x - 1, m) + Binomial(n - x, m)
  }

  /** The combinations of `r` which precede those starting like `v` because of the first `k` entries. */
  ghost function RankBefore(v: seq<nat>, k: nat, r: nat, n: nat): nat
    requires k <= |v| && k <= r && IsCombination(v, n)
  {
    if k == 0 then 0
    else RankBefore(v, k - 1, r, n) + Skipped(n, Lowest(v, k - 1), v[k - 1], r - k)
  }

  ghost function CombinationRank(v: seq<nat>, n: nat): nat
    requires IsCombination(v, n)
  {
    RankBefore(v, |v|, |v|, n)
  }

  // ----- sums of binomials

  lemma {:induction false} SkippedTelescopes(n: nat, lo: nat, x: nat, m: nat)
    requires lo <= x <= n
    ensures Skipped(n, lo, x, m) + Binomial(n - x, m + 1) == Binomial(n - lo, m + 1)
  {
    if lo < x {
      SkippedTelescopes(n, lo, x - 1, m);
    }
  }

  lemma {:induction false} SkippedSplits(n: nat, lo: nat, mid: nat, x: nat, m: nat)
    requires lo <= mid <= x <= n
    ensures Skipped(n, lo, x, m) == Skipped(n, lo, mid, m) + Skipped(n, mid, x, m)
  {
    if mid < x {
      SkippedSplits(n, lo, mid, x - 1, m);
    }
  }

  lemma {:induction false} SkippedSingles(n: nat, lo: nat, x: nat)
    requires lo <= x <= n
    ensures Skipped(n, lo, x, 0) == x - lo
  {
    if lo < x {
      SkippedSingles(n, lo, x - 1);
    }
  }

  // ----- the rank numbers the combinations in lexicographic order

  lemma {:induction false} CombinationRoom(v: seq<nat>, n: nat, k: nat)
    requires IsCombination(v, n) && k < |v|
    ensures k <= Lowest(v, k) <= v[k] && v[k] + |v| <= n + k
    decreases |v| - k
  {
    LowestGrows(v, n, k);
    if k + 1 < |v| {
      CombinationRoom(v, n, k + 1);
    }
  }

  lemma {:induction false} LowestGrows(v: seq<nat>, n: nat, k: nat)
    requires IsCombination(v, n) && k < |v|
    ensures k <= Lowest(v, k) <= v[k]
  {
    if k > 0 {
      LowestGrows(v, n, k - 1);
    }
  }

  /** What the entries from `k` on add is less than the number of ways to choose them. */
  lemma {:induction false} TailBounds(v: seq<nat>, k: nat, n: nat)
    requires IsCombination(v, n) && k <= |v|
    ensures RankBefore(v, k, |v|, n) <= CombinationRank(v, n)
    ensures Lowest(v, k) <= n
    ensures CombinationRank(v, n) < RankBefore(v, k, |v|, n) + Binomial(n - Lowest(v, k), |v| - k)
    decreases |v| - k
  {
    if k < |v| {
      TailBounds(v, k + 1, n);
      LowestGrows(v, n, k);
      SkippedTelescopes(n, Lowest(v, k), v[k], |v| - k - 1);
    }
  }

  lemma CombinationRankBounds(v: seq<nat>, n: nat)
    requires IsCombination(v, n)
    ensures CombinationRank(v, n) < Binomial(n, |v|)
  {
    TailBounds(v, 0, n);
  }

  lemma {:induction false} RankBeforeLooksAtPrefix(v: seq<nat>, w: seq<nat>, k: nat, r: nat, n: nat)
    requires IsCombination(v, n) && IsCombination(w, n) && k <= r
    requires k <= |v| && k <= |w| && v[..k] == w[..k]
    ensures RankBefore(v, k, r, n) == RankBefore(w, k, r, n) && Lowest(v, k) == Lowest(w, k)
  {
    if k > 0 {
      TakeIsMonotone(v, w, k - 1, k);
      RankBeforeLooksAtPrefix(v, w, k - 1, r, n);
    }
  }

  lemma CombinationRankIsMonotone(v: seq<nat>, w: seq<nat>, n: nat)
    requires IsCombination(v, n) && IsCombination(w, n) && |v| == |w| && LexLess(v, w)
    ensures CombinationRank(v, n) < CombinationRank(w, n)
  {
    var k: nat :| LessAt(v, w, k);
    RankBeforeLooksAtPrefix(v, w, k, |v|, n);
    LowestGrows(v, n, k);
    SmallerEntrySkipsLess(v, k, w[k], n);
    TailBounds(w, k + 1, n);
  }

  lemma SmallerEntrySkipsLess(v: seq<nat>, k: nat, x: nat, n: nat)
    requires IsCombination(v, n) && k < |v| && v[k] < x < n
    ensures Lowest(v, k) <= n
    ensures CombinationRank(v, n) < RankBefore(v, k, |v|, n) + Skipped(n, Lowest(v, k), x, |v| - k - 1)
  {
    var m := |v| - k - 1;
    LowestGrows(v, n, k);
    TailBounds(v, k + 1, n);
    assert RankBefore(v, k + 1, |v|, n) == RankBefore(v, k, |v|, n) + Skipped(n, Lowest(v, k), v[k], m);
    SkippedSplits(n, Lowest(v, k), v[k] + 1, x, m);
  }

  /** Comparing ranks is comparing lexicographically, so the rank is injective. */
  lemma RankOrdersCombinations(v: seq<nat>, w: seq<nat>, n: nat)
    requires IsCombination(v, n) && IsCombination(w, n) && |v| == |w|
    ensures CombinationRank(v, n) < CombinationRank(w, n) <==> LexLess(v, w)
    ensures CombinationRank(v, n) == CombinationRank(w, n) <==> v == w
  {
    LexTotal(v, w, 0);
    if LexLess(v, w) {
      CombinationRankIsMonotone(v, w, n);
    }
    if LexLess(w, v) {
      CombinationRankIsMonotone(w, v, n);
    }
  }

  // ----- first, last and next combination

  /** Entries which follow each other without gaps from the lowest value on add nothing to the rank. */
  lemma {:induction false} TightTailAddsNothing(v: seq<nat>, k: nat, n: nat)
    requires IsCombination(v, n) && k <= |v|
    requires forall j | k <= j < |v| :: v[j] == Lowest(v, j)
    ensures CombinationRank(v, n) == RankBefore(v, k, |v|, n)
    decreases |v| - k
  {
    if k < |v| {
      TightTailAddsNothing(v, k + 1, n);
    }
  }

  /** Entries which are as high as they can be add all there is to add but one. */
  lemma {:induction false} HighTailAddsMost(v: seq<nat>, k: nat, n: nat)
    requires IsCombination(v, n) && k <= |v| <= n
    requires forall j | k <= j < |v| :: v[j] == n - |v| + j
    ensures Lowest(v, k) <= n
    ensures CombinationRank(v, n) + 1 == RankBefore(v, k, |v|, n) + Binomial(n - Lowest(v, k), |v| - k)
    decreases |v| - k
  {
    if k < |v| {
      HighTailAddsMost(v, k + 1, n);
      LowestGrows(v, n, k);
      SkippedTelescopes(n, Lowest(v, k), v[k], |v| - k - 1);
      BinomialEdges(|v| - k, |v| - k);
      BinomialEdges(|v| - k - 1, |v| - k - 1);
    } else if k > 0 {
      assert v[k - 1] < n;
    }
  }

  /** The combination of the highest values ranks last. */
  lemma LastCombination(v: seq<nat>, n: nat)
    requires IsCombination(v, n) && |v| <= n && forall j | 0 <= j < |v| :: v[j] == n - |v| + j
    ensures CombinationRank(v, n) + 1 == Binomial(n, |v|)
  {
    HighTailAddsMost(v, 0, n);
  }

  /** Raising the last entry that can be raised and restarting the entries behind it gives the next rank. */
  lemma CombinationSuccessor(v: seq<nat>, w: seq<nat>, k: nat, n: nat)
    requires IsCombination(v, n) && IsCombination(w, n) && k < |v| == |w| <= n
    requires v[..k] == w[..k] && w[k] == v[k] + 1
    requires forall j | k < j < |v| :: v[j] == n - |v| + j
    requires forall j | k < j < |w| :: w[j] == w[j - 1] + 1
    ensures CombinationRank(w, n) == CombinationRank(v, n) + 1
  {
    HighTailAddsMost(v, k + 1, n);
    TightTailAddsNothing(w, k + 1, n);
    RankBeforeLooksAtPrefix(v, w, k, |v|, n);
    LowestGrows(v, n, k);
    var m := |v| - k - 1;
    assert RankBefore(v, k + 1, |v|, n) == RankBefore(v, k, |v|, n) + Skipped(n, Lowest(v, k), v[k], m);
    assert RankBefore(w, k + 1, |v|, n) == RankBefore(v, k, |v|, n) + Skipped(n, Lowest(v, k), v[k] + 1, m);
  }

  // ----- complete listings

  /** Entry `i` is the combination of rank `i`. */
  ghost predicate ListedByCombinationRank(all: seq<seq<nat>>, n: nat, r: nat) {
    forall i | 0 <= i < |all| :: IsCombination(all[i], n) && |all[i]| == r && CombinationRank(all[i], n) == i
  }

  /** `all` holds every combination of `r` out of `n` exactly once, in lexicographic order. */
  ghost predicate ListsAllCombinations(all: seq<seq<nat>>, n: nat, r: nat) {
    && (forall i | 0 <= i < |all| :: IsCombination(all[i], n) && |all[i]| == r)
    && (forall i, j | 0 <= i < j < |all| :: LexLess(all[i], all[j]))
    && (forall v: seq<nat> | IsCombination(v, n) && |v| == r :: v in all)
  }

  lemma ListNextCombination(all: seq<seq<nat>>, v: seq<nat>, n: nat, r: nat)
    requires ListedByCombinationRank(all, n, r)
    requires IsCombination(v, n) && |v| == r && CombinationRank(v, n) == |all|
    ensures ListedByCombinationRank(all + [v], n, r)
  {
  }

  lemma RankedCombinationsAreComplete(all: seq<seq<nat>>, n: nat, r: nat)
    requires |all| == Binomial(n, r) && ListedByCombinationRank(all, n, r)
    ensures ListsAllCombinations(all, n, r)
  {
    forall i, j | 0 <= i < j < |all| ensures LexLess(all[i], all[j]) {
      RankOrdersCombinations(all[i], all[j], n);
    }
    forall v: seq<nat> | IsCombination(v, n) && |v| == r ensures v in all {
      CombinationRankBounds(v, n);
      RankOrdersCombinations(v, all[CombinationRank(v, n)], n);
    }
  }
}
