/** Inversions of a sequence, and why their parity is the parity of every sequence of swaps that sorts it. */
module InversionParity {
  import opened Selections

  /** Pairs of positions whose entries are out of order. */
  ghost function Inversions(s: seq<nat>): nat {
    if s == [] then 0 else CountBelow(s[1..], s[0]) + Inversions(s[1..])
  }

  ghost function CountAbove(s: seq<nat>, x: nat): nat {
    if s == [] then 0 else (if x < s[0] then 1 else 0) + CountAbove(s[1..], x)
  }

  ghost function Swapped(s: seq<nat>, i: nat, j: nat): (t: seq<nat>)
    requires i < |s| && j < |s|
    ensures |t| == |s|
  {
    s[i := s[j]][j := s[i]]
  }

  datatype Swap = Swap(i: nat, j: nat)

  /** Swaps of two different positions within the first `size`. */
  ghost predicate ProperSwaps(swaps: seq<Swap>, size: nat) {
    forall k | 0 <= k < |swaps| :: swaps[k].i < size && swaps[k].j < size && swaps[k].i != swaps[k].j
  }

  ghost function ApplySwaps(s: seq<nat>, swaps: seq<Swap>): (t: seq<nat>)
    requires ProperSwaps(swaps, |s|)
    ensures |t| == |s|
    decreases |swaps|
  {
    if swaps == [] then s else ApplySwaps(Swapped(s, swaps[0].i, swaps[0].j), swaps[1..])
  }

  lemma {:induction false} InversionsAppend(s: seq<nat>, x: nat)
    ensures Inversions(s + [x]) == Inversions(s) + CountAbove(s, x)
  {
    if s == [] {
      assert [x][1..] == [];
    } else {
      assert (s + [x])[1..] == s[1..] + [x];
      InversionsAppend(s[1..], x);
      CountBelowConcat(s[1..], [x], s[0]);
      assert [x][1..] == [];
    }
  }

  lemma {:induction false} CountAboveAppend(s: seq<nat>, y: nat, x: nat)
    ensures CountAbove(s + [y], x) == CountAbove(s, x) + if x < y then 1 else 0
  {
    if s == [] {
      assert [y][1..] == [];
    } else {
      assert (s + [y])[1..] == s[1..] + [y];
      CountAboveAppend(s[1..], y, x);
    }
  }

  lemma {:induction false} CountBelowIgnoresSwap(s: seq<nat>, i: nat, x: nat)
    requires i + 1 < |s|
    ensures CountBelow(Swapped(s, i, i + 1), x) == CountBelow(s, x)
  {
    var t := Swapped(s, i, i + 1);
    if i == 0 {
      assert t[1..][1..] == s[1..][1..];
    } else {
      assert t[1..] == Swapped(s[1..], i - 1, i);
      CountBelowIgnoresSwap(s[1..], i - 1, x);
    }
  }

  /** Swapping two neighbours adds or removes exactly one inversion. */
  lemma {:induction false} NeighbourSwapFlips(s: seq<nat>, i: nat)
    requires i + 1 < |s| && s[i] != s[i + 1]
    ensures Inversions(Swapped(s, i, i + 1)) % 2 != Inversions(s) % 2
  {
    var t := Swapped(s, i, i + 1);
    if i == 0 {
      assert t[1..][1..] == s[1..][1..];
      assert t[1..][0] == s[0] && s[1..][0] == t[0];
    } else {
      assert t[1..] == Swapped(s[1..], i - 1, i);
      NeighbourSwapFlips(s[1..], i - 1);
      CountBelowIgnoresSwap(s[1..], i - 1, s[0]);
    }
  }

  /** Swapping any two different entries flips the parity: it is an odd number of neighbour swaps. */
  lemma {:induction false} SwapFlips(s: seq<nat>, i: nat, j: nat)
    requires Injective(s) && i < j < |s|
    ensures Inversions(Swapped(s, i, j)) % 2 != Inversions(s) % 2
    decreases j - i
  {
    NeighbourSwapFlips(s, i);
    if i + 1 < j {
      var a := Swapped(s, i, i + 1);
      SwapKeepsInjective(s, i, i + 1);
      var b := Swapped(a, i + 1, j);
      SwapFlips(a, i + 1, j);
      NeighbourSwapFlips(b, i);
      assert Swapped(b, i, i + 1) == Swapped(s, i, j);
    }
  }

  lemma SwapKeepsInjective(s: seq<nat>, i: nat, j: nat)
    requires Injective(s) && i < |s| && j < |s|
    ensures Injective(Swapped(s, i, j))
  {
  }

  lemma {:induction false} SwapsFlipEachTime(s: seq<nat>, swaps: seq<Swap>)
    requires Injective(s) && ProperSwaps(swaps, |s|)
    ensures Inversions(ApplySwaps(s, swaps)) % 2 == (Inversions(s) + |swaps|) % 2
    decreases |swaps|
  {
    if swaps != [] {
      var i, j := swaps[0].i, swaps[0].j;
      SwapKeepsInjective(s, i, j);
      SwapsFlipEachTime(Swapped(s, i, j), swaps[1..]);
      assert Swapped(s, i, j) == Swapped(s, j, i);
      SwapFlips(s, if i < j then i else j, if i < j then j else i);
    }
  }

  lemma {:induction false} AscendingHasNoInversions(s: seq<nat>)
    requires Ascending(s)
    ensures Inversions(s) == 0
  {
    if s != [] {
      AscendingHasNoInversions(s[1..]);
      CountBelowSplit(s[1..], 0, s[0]);
    }
  }

  /** However a sequence of distinct numbers is sorted by swaps, their number has its inversions' parity. */
  lemma SortingSwapsHaveInversionParity(s: seq<nat>, swaps: seq<Swap>)
    requires Injective(s) && ProperSwaps(swaps, |s|)
    requires Ascending(ApplySwaps(s, swaps))
    ensures |swaps| % 2 == Inversions(s) % 2
  {
    hide Inversions, ApplySwaps, ProperSwaps, Injective, Ascending;
    SwapsFlipEachTime(s, swaps);
    AscendingHasNoInversions(ApplySwaps(s, swaps));
    EvenSumMeansEqualParity(Inversions(s), |swaps|);
  }

  lemma EvenSumMeansEqualParity(a: nat, b: nat)
    requires (a + b) % 2 == 0
    ensures a % 2 == b % 2
  {
  }

  lemma {:induction false} LeastFrom(s: seq<nat>, k: nat) returns (m: nat)
    requires Injective(s) && k < |s|
    ensures k <= m < |s| && forall j | k <= j < |s| && j != m :: s[m] < s[j]
    decreases |s| - k
  {
    m := k;
    if k + 1 < |s| {
      m := LeastFrom(s, k + 1);
      m := if s[k] < s[m] then k else m;
    }
  }

  /** Such a sequence of swaps always exists: selection sort finds one. */
  lemma {:induction false} SelectionSort(s: seq<nat>, k: nat) returns (swaps: seq<Swap>)
    requires Injective(s) && k <= |s|
    requires forall i, j | 0 <= i < k && i < j < |s| :: s[i] < s[j]
    ensures ProperSwaps(swaps, |s|) && Ascending(ApplySwaps(s, swaps))
    decreases |s| - k
  {
    if k == |s| {
      swaps := [];
    } else {
      var m := LeastFrom(s, k);
      if m == k {
        swaps := SelectionSort(s, k + 1);
      } else {
        SwapKeepsInjective(s, k, m);
        var rest := SelectionSort(Swapped(s, k, m), k + 1);
        swaps := [Swap(k, m)] + rest;
        assert swaps[1..] == rest;
      }
    }
  }

  /** The digits of a whole permutation add up to its inversions. */
  ghost function DigitSum(p: seq<nat>, k: nat): int
    requires k <= |p|
    decreases |p| - k
  {
    if k == |p| then 0 else Digit(p, k) + DigitSum(p, k + 1)
  }

  lemma {:induction false} DigitsAddUpToInversions(p: seq<nat>, n: nat, k: nat)
    requires IsPermutation(p, n) && k <= n
    ensures DigitSum(p, k) == Inversions(p[k..])
    decreases n - k
  {
    if k < n {
      DigitsAddUpToInversions(p, n, k + 1);
      DigitCountsLaterSmaller(p, n, k);
      assert p[k..][1..] == p[k + 1..];
    }
  }
}
