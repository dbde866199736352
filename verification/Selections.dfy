/**
 * Ordered selections without repetition from 0..n-1: their lexicographic order, and the mixed-radix
 * rank that numbers them in that order. Nothing here refers to the iterator.
 */
module Selections {
  import opened Arithmetic
  import opened Counting

  ghost predicate Injective(s: seq<nat>) {
    forall i, j | 0 <= i < j < |s| :: s[i] != s[j]
  }

  /** `s` lists distinct elements of 0..n-1. */
  ghost predicate IsSelection(s: seq<nat>, n: nat) {
    && Injective(s)
    && forall i | 0 <= i < |s| :: s[i] < n
  }

  ghost predicate IsPermutation(s: seq<nat>, n: nat) {
    |s| == n && IsSelection(s, n)
  }

  ghost predicate Ascending(s: seq<nat>) {
    forall i, j | 0 <= i < j < |s| :: s[i] < s[j]
  }

  /** `v` comes before `w`: they agree on the first `k` entries and `v` is smaller at the next. */
  ghost predicate LessAt(v: seq<nat>, w: seq<nat>, k: nat) {
    k < |v| && k < |w| && v[..k] == w[..k] && v[k] < w[k]
  }

  ghost predicate LexLess(v: seq<nat>, w: seq<nat>) {
    exists k: nat :: LessAt(v, w, k)
  }

  /** How many entries of `s` are smaller than `x`. */
  ghost function CountBelow(s: seq<nat>, x: nat): nat {
    if s == [] then 0 else (if s[0] < x then 1 else 0) + CountBelow(s[1..], x)
  }

  /** How many of the elements not used by the first `k` entries are smaller than entry `k`. */
  ghost function Digit(v: seq<nat>, k: nat): int
    requires k < |v|
  {
    v[k] - CountBelow(v[..k], v[k])
  }

  /** The first `k` digits read as a mixed-radix number with radices n, n - 1, n - 2, ... */
  ghost function RankUpTo(v: seq<nat>, k: nat, n: nat): int
    requires k <= |v|
  {
    if k == 0 then 0 else RankUpTo(v, k - 1, n) * (n - (k - 1)) + Digit(v, k - 1)
  }

  ghost function Rank(v: seq<nat>, n: nat): int {
    RankUpTo(v, |v|, n)
  }

  // ----- counting smaller entries

  lemma {:induction false} CountBelowConcat(s: seq<nat>, t: seq<nat>, x: nat)
    ensures CountBelow(s + t, x) == CountBelow(s, x) + CountBelow(t, x)
  {
    if s == [] {
      assert s + t == t;
    } else {
      assert (s + t)[1..] == s[1..] + t;
      CountBelowConcat(s[1..], t, x);
    }
  }

  /** Splitting at `m` into smaller and not smaller entries counts the first part. */
  lemma {:induction false} CountBelowSplit(s: seq<nat>, m: nat, x: nat)
    requires m <= |s|
    requires forall i | 0 <= i < m :: s[i] < x
    requires forall i | m <= i < |s| :: s[i] >= x
    ensures CountBelow(s, x) == m
  {
    if s != [] {
      CountBelowSplit(s[1..], if m == 0 then 0 else m - 1, x);
    }
  }

  lemma {:induction false} CountBelowRange(s: seq<nat>, x: nat)
    ensures CountBelow(s, x) <= |s|
    ensures CountBelow(s, x) == |s| ==> forall i | 0 <= i < |s| :: s[i] < x
    ensures (exists i :: 0 <= i < |s| && s[i] >= x) ==> CountBelow(s, x) < |s|
  {
    if s != [] {
      CountBelowRange(s[1..], x);
      assert forall i | 0 < i < |s| :: s[i] == s[1..][i - 1];
    }
  }

  /** In a sequence of distinct numbers, raising the threshold by one can only pass one entry. */
  lemma {:induction false} CountBelowStep(s: seq<nat>, x: nat)
    requires Injective(s)
    ensures CountBelow(s, x) <= CountBelow(s, x + 1) <= CountBelow(s, x) + 1
    ensures x !in s ==> CountBelow(s, x + 1) == CountBelow(s, x)
  {
    if s != [] {
      CountBelowStep(s[1..], x);
      assert x !in s ==> x !in s[1..];
      if s[0] == x {
        assert x !in s[1..];
      }
    }
  }

  /** ... so between two thresholds it passes no more entries than their distance. */
  lemma {:induction false} CountBelowGap(s: seq<nat>, a: nat, b: nat)
    requires Injective(s) && a <= b
    ensures CountBelow(s, a) <= CountBelow(s, b) <= CountBelow(s, a) + (b - a)
    ensures a < b && a !in s ==> CountBelow(s, b) <= CountBelow(s, a) + (b - a) - 1
    decreases b
  {
    if a < b {
      CountBelowStep(s, b - 1);
      CountBelowGap(s, a, b - 1);
    }
  }

  lemma CountBelowEnds(s: seq<nat>, n: nat)
    requires IsSelection(s, n)
    ensures CountBelow(s, 0) == 0
    ensures CountBelow(s, n) == |s|
  {
    CountBelowSplit(s, 0, 0);
    CountBelowSplit(s, |s|, n);
  }

  // ----- digits

  lemma DigitBounds(v: seq<nat>, n: nat, k: nat)
    requires IsSelection(v, n) && k < |v|
    ensures 0 <= Digit(v, k) < n - k
  {
    var s, x := v[..k], v[k];
    CountBelowEnds(s, n);
    CountBelowGap(s, 0, x);
    assert x !in s;
    CountBelowGap(s, x, n);
  }

  /** In a whole permutation the digit is the number of later entries that are smaller. */
  lemma DigitCountsLaterSmaller(p: seq<nat>, n: nat, k: nat)
    requires IsPermutation(p, n) && k < n
    ensures Digit(p, k) == CountBelow(p[k + 1..], p[k])
  {
    var x := p[k];
    CountBelowEnds(p, n);
    CountBelowGap(p, 0, x);
    CountBelowGap(p, x, n);
    assert p == p[..k] + ([x] + p[k + 1..]);
    CountBelowConcat(p[..k], [x] + p[k + 1..], x);
    assert ([x] + p[k + 1..])[1..] == p[k + 1..];
  }

  lemma TakeIsMonotone<T>(s: seq<T>, t: seq<T>, k: nat, m: nat)
    requires k < m <= |s| && m <= |t| && s[..m] == t[..m]
    ensures s[..k] == t[..k] && s[k] == t[k]
  {
    assert s[..m][..k] == s[..k] && t[..m][..k] == t[..k];
    assert s[..m][k] == s[k] && t[..m][k] == t[k];
  }

  lemma DigitLooksAtPrefix(v: seq<nat>, w: seq<nat>, k: nat)
    requires k < |v| && k < |w| && v[..k + 1] == w[..k + 1]
    ensures Digit(v, k) == Digit(w, k)
  {
    TakeIsMonotone(v, w, k, k + 1);
  }

  /** A digit, and so every rank of a beginning, looks only at that beginning. */
  lemma {:induction false} RankLooksAtPrefix(v: seq<nat>, w: seq<nat>, k: nat, n: nat)
    requires k <= |v| && k <= |w| && v[..k] == w[..k]
    ensures RankUpTo(v, k, n) == RankUpTo(w, k, n)
    ensures forall j | 0 <= j < k :: Digit(v, j) == Digit(w, j)
  {
    if k > 0 {
      TakeIsMonotone(v, w, k - 1, k);
      RankLooksAtPrefix(v, w, k - 1, n);
    }
  }

  // ----- the rank numbers the selections in lexicographic order

  lemma {:induction false} RankBounds(v: seq<nat>, k: nat, n: nat)
    requires IsSelection(v, n) && k <= |v| <= n
    ensures 0 <= RankUpTo(v, k, n) < Falling(n, k)
  {
    if k > 0 {
      RankBounds(v, k - 1, n);
      DigitBounds(v, n, k - 1);
      MulMonotone(RankUpTo(v, k - 1, n) + 1, Falling(n, k - 1), n - k + 1, n - k + 1);
      MulMonotone(0, RankUpTo(v, k - 1, n), 0, n - k + 1);
      assert (RankUpTo(v, k - 1, n) + 1) * (n - k + 1) == RankUpTo(v, k - 1, n) * (n - k + 1) + (n - k + 1);
    }
  }

  lemma {:induction false} SelectionIsNoLongerThanRange(v: seq<nat>, n: nat)
    requires IsSelection(v, n)
    ensures |v| <= n
  {
    CountBelowEnds(v, n);
    CountBelowGap(v, 0, n);
  }

  lemma {:induction false} LessUpTo(v: seq<nat>, w: seq<nat>, at: nat, k: nat, n: nat)
    requires IsSelection(v, n) && IsSelection(w, n)
    requires LessAt(v, w, at) && at < k <= |v| == |w| <= n
    ensures RankUpTo(v, k, n) < RankUpTo(w, k, n)
  {
    if k == at + 1 {
      RankLooksAtPrefix(v, w, at, n);
      assert v[at] !in v[..at];
      CountBelowGap(v[..at], v[at], w[at]);
    } else {
      LessUpTo(v, w, at, k - 1, n);
      DigitBounds(v, n, k - 1);
      DigitBounds(w, n, k - 1);
      HigherDigitWins(RankUpTo(v, k - 1, n), RankUpTo(w, k - 1, n), n - k + 1, Digit(v, k - 1), Digit(w, k - 1));
    }
  }

  lemma HigherDigitWins(a: int, b: int, radix: int, d: int, e: int)
    requires a < b && 0 <= d < radix && 0 <= e
    ensures a * radix + d < b * radix + e
  {
    MulMonotone(1, b - a, radix, radix);
    assert (b - a) * radix == b * radix - a * radix;
  }

  /** The rank is strictly monotone in lexicographic order. */
  lemma RankIsMonotone(v: seq<nat>, w: seq<nat>, n: nat)
    requires IsSelection(v, n) && IsSelection(w, n) && |v| == |w|
    requires LexLess(v, w)
    ensures Rank(v, n) < Rank(w, n)
  {
    var k: nat :| LessAt(v, w, k);
    SelectionIsNoLongerThanRange(v, n);
    LessUpTo(v, w, k, |v|, n);
  }

  /** Two different selections of equal length are ordered one way or the other. */
  lemma {:induction false} LexTotal(v: seq<nat>, w: seq<nat>, k: nat)
    requires |v| == |w| && k <= |v| && v[..k] == w[..k]
    ensures v == w || LexLess(v, w) || LexLess(w, v)
    decreases |v| - k
  {
    if k == |v| {
      assert v[..k] == v && w[..k] == w;
    } else if v[k] == w[k] {
      assert v[..k + 1] == v[..k] + [v[k]] == w[..k + 1];
      LexTotal(v, w, k + 1);
    } else {
      assert LessAt(v, w, k) || LessAt(w, v, k);
    }
  }

  /** Comparing ranks is comparing lexicographically, so the rank is injective. */
  lemma RankOrdersSelections(v: seq<nat>, w: seq<nat>, n: nat)
    requires IsSelection(v, n) && IsSelection(w, n) && |v| == |w|
    ensures Rank(v, n) < Rank(w, n) <==> LexLess(v, w)
    ensures Rank(v, n) == Rank(w, n) <==> v == w
  {
    LexTotal(v, w, 0);
    if LexLess(v, w) {
      RankIsMonotone(v, w, n);
    }
    if LexLess(w, v) {
      RankIsMonotone(w, v, n);
    }
  }

  /** Nothing lies lexicographically between two selections whose ranks are adjacent. */
  lemma AdjacentRanksAreSuccessors(v: seq<nat>, w: seq<nat>, u: seq<nat>, n: nat)
    requires IsSelection(v, n) && IsSelection(w, n) && IsSelection(u, n) && |v| == |w| == |u|
    requires Rank(w, n) == Rank(v, n) + 1
    ensures LexLess(v, w)
    ensures !(LexLess(v, u) && LexLess(u, w))
  {
    RankOrdersSelections(v, w, n);
    RankOrdersSelections(v, u, n);
    RankOrdersSelections(u, w, n);
  }

  // ----- the arithmetic of one odometer step

  /**
   * If `w` carries one more at digit `k` than `v`, agrees before `k`, and behind `k` the digits of `v` are
   * all at their maximum while those of `w` are zero, then `w` ranks directly behind `v`.
   */
  lemma {:induction false} OdometerStep(v: seq<nat>, w: seq<nat>, k: nat, upTo: nat, n: nat)
    requires k < upTo <= |v| <= n && upTo <= |w|
    requires v[..k] == w[..k] && Digit(w, k) == Digit(v, k) + 1
    requires forall j | k < j < upTo :: Digit(v, j) == n - j - 1 && Digit(w, j) == 0
    ensures RankUpTo(w, upTo, n) == RankUpTo(v, upTo, n) + 1
  {
    if upTo == k + 1 {
      RankLooksAtPrefix(v, w, k, n);
    } else {
      OdometerStep(v, w, k, upTo - 1, n);
      CarryFillsDigit(RankUpTo(v, upTo - 1, n), n - upTo + 1);
    }
  }

  lemma CarryFillsDigit(a: int, radix: int)
    ensures (a + 1) * radix == a * radix + (radix - 1) + 1
  {
  }

  /** A selection whose digits are all at their maximum is the last one. */
  lemma {:induction false} MaximalDigitsRankLast(v: seq<nat>, k: nat, n: nat)
    requires k <= |v| <= n
    requires forall j | 0 <= j < k :: Digit(v, j) == n - j - 1
    ensures RankUpTo(v, k, n) == Falling(n, k) - 1
  {
    if k > 0 {
      MaximalDigitsRankLast(v, k - 1, n);
      var a, m := Falling(n, k - 1), n - k + 1;
      assert (a - 1) * m == a * m - m;
    }
  }

  lemma {:induction false} ZeroDigitsRankFirst(v: seq<nat>, k: nat, n: nat)
    requires k <= |v|
    requires forall j | 0 <= j < k :: Digit(v, j) == 0
    ensures RankUpTo(v, k, n) == 0
  {
    if k > 0 {
      ZeroDigitsRankFirst(v, k - 1, n);
    }
  }

  // ----- rearranging an ascending tail

  /** Behind an ascending tail every digit is zero. */
  lemma AscendingTailHasZeroDigits(p: seq<nat>, n: nat, k: nat, j: nat)
    requires IsPermutation(p, n) && k <= j < n && Ascending(p[k..])
    ensures Digit(p, j) == 0
  {
    DigitCountsLaterSmaller(p, n, j);
    var later := p[j + 1..];
    forall i | 0 <= i < |later| ensures later[i] >= p[j] {
      assert p[k..][j - k] < p[k..][j + 1 + i - k];
    }
    CountBelowSplit(later, 0, p[j]);
  }

  /** Moving the largest entry of a tail behind an ascending rest sorts the tail. */
  lemma RotationSortsTail(p: seq<nat>, n: nat, k: nat, q: seq<nat>)
    requires IsPermutation(p, n) && k < n && Ascending(p[k + 1..]) && Digit(p, k) == n - k - 1
    requires q == p[..k] + p[k + 1..] + [p[k]]
    ensures IsPermutation(q, n) && Ascending(q[k..])
  {
    DigitCountsLaterSmaller(p, n, k);
    CountBelowRange(p[k + 1..], p[k]);
    assert q[k..] == p[k + 1..] + [p[k]];
    forall i, j | 0 <= i < j < n ensures q[i] != q[j] {
      var a := if i < k then i else i + 1;
      var b := if j < k then j else if j < n - 1 then j + 1 else k;
      assert q[i] == p[a] && q[j] == p[b];
    }
    forall i | 0 <= i < n ensures q[i] < n {
      assert q[i] == p[if i < k then i else if i < n - 1 then i + 1 else k];
    }
  }

  /** The entries of an ascending tail below `x` are the first ones. */
  lemma {:induction false} AscendingThreshold(s: seq<nat>, x: nat)
    requires Ascending(s)
    ensures CountBelow(s, x) <= |s|
    ensures forall i | 0 <= i < |s| :: s[i] < x <==> i < CountBelow(s, x)
  {
    if s != [] {
      AscendingThreshold(s[1..], x);
      assert forall i | 0 < i < |s| :: s[i] == s[1..][i - 1] && s[0] < s[i];
    }
  }

  /** Swapping entry `k` with the smallest larger entry of an ascending tail adds one to its digit. */
  lemma SwapRaisesDigit(p: seq<nat>, n: nat, k: nat, q: seq<nat>)
    requires IsPermutation(p, n) && k < n && Ascending(p[k + 1..]) && 0 <= Digit(p, k) < n - k - 1
    requires var t := k + 1 + Digit(p, k); q == p[k := p[t]][t := p[k]]
    ensures IsPermutation(q, n) && Ascending(q[k + 1..]) && Digit(q, k) == Digit(p, k) + 1
  {
    var d, t := Digit(p, k), k + 1 + Digit(p, k);
    var tail, tail' := p[k + 1..], q[k + 1..];
    DigitCountsLaterSmaller(p, n, k);
    AscendingThreshold(tail, p[k]);
    assert tail[d] == p[t];
    assert p[t] > p[k] by {
      assert tail[d] >= p[k];
    }
    assert tail' == tail[d := p[k]];
    forall i, j | 0 <= i < j < |tail'| ensures tail'[i] < tail'[j] {
      assert j == d ==> tail[i] < p[k];
      assert i == d ==> tail[d] < tail[j];
    }
    assert IsPermutation(q, n);
    DigitCountsLaterSmaller(q, n, k);
    CountBelowSplit(tail', d + 1, q[k]);
  }

  /**
   * One odometer step on a permutation: digit `k` goes up by one, the digits behind it go from their maximum
   * to zero, and the first `r` entries become the selection that ranks next.
   */
  lemma OdometerStepOnPermutation(p: seq<nat>, q: seq<nat>, k: nat, r: nat, n: nat)
    requires IsPermutation(p, n) && IsPermutation(q, n) && k < r <= n
    requires q[..k] == p[..k] && Ascending(q[k + 1..]) && Digit(q, k) == Digit(p, k) + 1
    requires forall j | k < j < r :: Digit(p, j) == n - j - 1
    ensures Ascending(q[r..])
    ensures Rank(q[..r], n) == Rank(p[..r], n) + 1
    ensures forall j | 0 <= j < r ::
        CountBelow(q[j + 1..], q[j]) == if j < k then Digit(p, j) else if j == k then Digit(p, k) + 1 else 0
  {
    RankLooksAtPrefix(p, q, k, n);
    forall j | 0 <= j < r ensures CountBelow(q[j + 1..], q[j]) == Digit(q, j) {
      DigitCountsLaterSmaller(q, n, j);
    }
    forall j | k < j < r ensures Digit(q, j) == 0 {
      AscendingTailHasZeroDigits(q, n, k + 1, j);
    }
    forall i, j | 0 <= i < j < |q[r..]| ensures q[r..][i] < q[r..][j] {
      assert q[k + 1..][r + i - k - 1] < q[k + 1..][r + j - k - 1];
    }
    OdometerStep(p, q, k, r, n);
    RankLooksAtPrefix(p, p[..r], r, n);
    RankLooksAtPrefix(q, q[..r], r, n);
  }

  /** The identity is the permutation whose beginnings rank first. */
  lemma IdentityRanksFirst(p: seq<nat>, n: nat, r: nat)
    requires |p| == n && r <= n && forall i | 0 <= i < n :: p[i] == i
    ensures IsPermutation(p, n) && Ascending(p[r..])
    ensures Rank(p[..r], n) == 0
    ensures forall k | 0 <= k < r :: CountBelow(p[k + 1..], p[k]) == 0
  {
    assert p[0..] == p;
    forall k | 0 <= k < r ensures Digit(p, k) == 0 == CountBelow(p[k + 1..], p[k]) {
      AscendingTailHasZeroDigits(p, n, 0, k);
      DigitCountsLaterSmaller(p, n, k);
    }
    RankLooksAtPrefix(p[..r], p, r, n);
    ZeroDigitsRankFirst(p[..r], r, n);
  }

  // ----- complete listings

  /** `all` holds every ordered selection of `r` out of `n` exactly once, in lexicographic order. */
  ghost predicate ListsAllSelections(all: seq<seq<nat>>, n: nat, r: nat) {
    && (forall i | 0 <= i < |all| :: IsSelection(all[i], n) && |all[i]| == r)
    && (forall i, j | 0 <= i < j < |all| :: LexLess(all[i], all[j]))
    && (forall v: seq<nat> | IsSelection(v, n) && |v| == r :: v in all)
  }

  /** Entry `i` is the selection of rank `i`. */
  ghost predicate ListedByRank(all: seq<seq<nat>>, n: nat, r: nat) {
    forall i | 0 <= i < |all| :: IsSelection(all[i], n) && |all[i]| == r && Rank(all[i], n) == i
  }

  lemma ListNextRank(all: seq<seq<nat>>, v: seq<nat>, n: nat, r: nat)
    requires ListedByRank(all, n, r)
    requires IsSelection(v, n) && |v| == r && Rank(v, n) == |all|
    ensures ListedByRank(all + [v], n, r)
  {
  }

  /** A list that numbers its entries by their rank, up to the number of selections, is complete. */
  lemma RankedListIsComplete(all: seq<seq<nat>>, n: nat, r: nat)
    requires r <= n && |all| == Falling(n, r)
    requires ListedByRank(all, n, r)
    ensures ListsAllSelections(all, n, r)
  {
    forall i, j | 0 <= i < j < |all| ensures LexLess(all[i], all[j]) {
      RankOrdersSelections(all[i], all[j], n);
    }
    forall v: seq<nat> | IsSelection(v, n) && |v| == r ensures v in all {
      RankBounds(v, r, n);
      RankOrdersSelections(v, all[Rank(v, n)], n);
    }
  }

  /** In a complete listing neighbours are immediate lexicographic successors. */
  lemma ListingHasNoGaps(all: seq<seq<nat>>, n: nat, r: nat, i: nat, u: seq<nat>)
    requires ListsAllSelections(all, n, r) && i + 1 < |all|
    requires IsSelection(u, n) && |u| == r
    ensures !(LexLess(all[i], u) && LexLess(u, all[i + 1]))
  {
    var j :| 0 <= j < |all| && all[j] == u;
    if LexLess(all[i], u) && LexLess(u, all[i + 1]) {
      RankOrdersSelections(all[i], u, n);
      RankOrdersSelections(u, all[i + 1], n);
      if j < i {
        RankOrdersSelections(u, all[i], n);
      } else if j > i + 1 {
        RankOrdersSelections(all[i + 1], u, n);
      }
    }
  }
}
