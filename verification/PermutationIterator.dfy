/** src/iterators/permutation_iterator.c: the cycle-counter iterator over ordered selections. */
module PermutationIterator {
  import opened MachineIntegers
  import opened Counting
  import opened Selections
  import opened InversionParity

  class PermutationIterator {
    const n: u8
    const r: u8
    // indices (n cells), cycles (r cells) and value (r cells), one behind the other
    const data: array<u8>

    function Indices(): seq<u8>
      requires data.Length == n + 2 * r
      reads data
    {
      data[..n]
    }

    function Cycles(): seq<u8>
      requires data.Length == n + 2 * r
      reads data
    {
      data[n..n + r]
    }

    function Value(): seq<u8>
      requires data.Length == n + 2 * r
      reads data
    {
      data[n + r..]
    }

    /** permutation_iterator_is_done */
    predicate Done()
      requires data.Length == n + 2 * r && r >= 1
      reads data
    {
      Cycles()[0] == 0
    }

    /** The cycle counters are the Lehmer code of the indices, counted down from n - k. */
    ghost predicate Running()
      requires data.Length == n + 2 * r && r <= n
      reads data
    {
      && IsPermutation(Indices(), n)
      && Ascending(Indices()[r..])
      && Value() == Indices()[..r]
      && forall k | 0 <= k < r :: n - k - Cycles()[k] == CountBelow(Indices()[k + 1..], Indices()[k])
    }

    /** Once done, the last selection is still on display and the indices have wrapped to the start. */
    ghost predicate Finished()
      requires data.Length == n + 2 * r && r <= n
      reads data
    {
      && IsPermutation(Indices(), n)
      && Ascending(Indices())
      && IsSelection(Value(), n)
      && Rank(Value(), n) == Falling(n, r) - 1
    }

    ghost predicate Valid()
      reads data
    {
      && data.Length == n + 2 * r
      && 1 <= r <= n
      && if Done() then Finished() else Running()
    }

    /** A running iterator's first counter has not run out. */
    lemma RunningIsNotDone()
      requires data.Length == n + 2 * r && 1 <= r <= n && Running()
      ensures !Done()
    {
      CountBelowRange(Indices()[1..], Indices()[0]);
    }

    /** In every valid state the value on display is a selection. */
    lemma ShowsSelection()
      requires Valid()
      ensures IsSelection(Value(), n)
      ensures 0 <= Rank(Value(), n) < Falling(n, r)
    {
      RankBounds(Value(), r, n);
    }

    /** permutation_iterator_init */
    constructor (n: u8, r: u8)
      requires 1 <= r <= n
      ensures this.n == n && this.r == r && fresh(data)
      ensures Valid() && !Done() && Rank(Value(), n) == 0
    {
      this.n, this.r := n, r;
      data := new u8[n + 2 * r];
      new;
      Reset();
    }

    /** permutation_iterator_reset */
    method Reset()
      requires data.Length == n + 2 * r && 1 <= r <= n
      modifies data
      ensures Valid() && !Done()
      ensures Rank(Value(), n) == 0
      ensures forall i | 0 <= i < r :: Value()[i] == i
    {
      for i := 0 to n
        invariant forall j | 0 <= j < i :: data[j] == j
      {
        data[i] := i;
      }
      for i := 0 to r
        invariant forall j | 0 <= j < n :: data[j] == j
        invariant forall j | n <= j < n + i :: data[j] == n - (j - n)
      {
        data[n + i] := n - i;
      }
      for i := 0 to r
        invariant forall j | 0 <= j < n :: data[j] == j
        invariant forall j | n <= j < n + r :: data[j] == n - (j - n)
        invariant forall j | n + r <= j < n + r + i :: data[j] == j - (n + r)
      {
        data[n + r + i] := i;
      }
      ResetRuns();
    }

    lemma ResetRuns()
      requires data.Length == n + 2 * r && 1 <= r <= n
      requires forall j | 0 <= j < n :: data[j] == j
      requires forall j | n <= j < n + r :: data[j] == n - (j - n)
      requires forall j | n + r <= j < n + 2 * r :: data[j] == j - (n + r)
      ensures Running() && !Done() && Rank(Value(), n) == 0
      ensures forall i | 0 <= i < r :: Value()[i] == i
    {
      IdentityRanksFirst(Indices(), n, r);
      assert Value() == Indices()[..r];
      RunningIsNotDone();
    }

    /** The rotation loop of `next`; its last read is the cell behind the indices, overwritten right after. */
    method RotateTail(k: nat)
      requires data.Length == n + 2 * r && 1 <= r <= n && k < r
      modifies data
      ensures Indices() == old(Indices()[..k] + Indices()[k + 1..] + [Indices()[k]])
      ensures Cycles() == old(Cycles()) && Value() == old(Value())
    {
      var tmp := data[k];
      ghost var before := data[..];
      for i := k to n
        invariant forall j | k <= j < i :: data[j] == before[j + 1]
        invariant forall j | 0 <= j < data.Length && !(k <= j < i) :: data[j] == before[j]
      {
        data[i] := data[i + 1];
      }
      data[n - 1] := tmp;
      ghost var rotated := before[..n][..k] + before[..n][k + 1..] + [before[..n][k]];
      assert forall j | 0 <= j < n :: data[j] == rotated[j];
    }

    /** The swap and the refresh of the displayed selection, the other branch of `next`. */
    method SwapAndShow(k: nat, k2: nat)
      requires data.Length == n + 2 * r && 1 <= r <= n && k < r && k2 < n
      modifies data
      ensures Indices() == old(Indices()[k := Indices()[k2]][k2 := Indices()[k]])
      ensures Cycles() == old(Cycles())
      ensures Value() == old(Value()[..k]) + Indices()[k..r]
    {
      var tmp := data[k];
      data[k] := data[k2];
      data[k2] := tmp;
      ghost var before := data[..];
      for i := k to r
        invariant forall j | 0 <= j < n + r + k :: data[j] == before[j]
        invariant forall j | n + r + k <= j < n + r + i :: data[j] == before[j - (n + r)]
      {
        data[n + r + i] := data[i];
      }
    }

    /** One iteration of the loop in `next`; see `PositionStep`. */
    method StepPosition(k: nat) returns (stop: bool)
      requires data.Length == n + 2 * r && 1 <= r <= n && k < r
      requires IsPermutation(Indices(), n) && Ascending(Indices()[k + 1..])
      requires Cycles()[k] == n - k - Digit(Indices(), k)
      modifies data
      ensures PositionStep(old(Indices()), old(Cycles()), old(Value()), Indices(), Cycles(), Value(), k, r, n, stop)
    {
      ghost var p := Indices();
      DigitBounds(p, n, k);
      data[n + k] := data[n + k] - 1;
      assert Indices() == p;
      var ck := data[n + k];
      if ck == 0 {
        RotateTail(k);
        RotationSortsTail(p, n, k, Indices());
        ghost var q := Indices();
        data[n + k] := n - k;
        assert Indices() == q;
        stop := false;
      } else {
        SwapAndShow(k, n - ck);
        SwapRaisesDigit(p, n, k, Indices());
        stop := true;
      }
    }

    /**
     * permutation_iterator_next. It either adds one to the rank or, behind the last selection, finishes
     * and leaves that selection on display.
     */
    method Next()
      requires Valid() && !Done()
      modifies data
      ensures Valid()
      ensures Done() <==> old(Rank(Value(), n)) == Falling(n, r) - 1
      ensures Done() ==> Value() == old(Value())
      ensures !Done() ==> Rank(Value(), n) == old(Rank(Value(), n)) + 1
    {
      ghost var p0, c0 := Indices(), Cycles();
      StartScan(p0, c0, r, n);
      var stopped := Scan(p0, c0);
      if stopped {
        RunningIsNotDone();
        RankBounds(Value(), r, n);
      } else {
        ConcludeRun(p0);
      }
    }

    /** The loop of `next`: it stops in a running state of the next rank, or scans every position. */
    method Scan(ghost p0: seq<nat>, ghost c0: seq<nat>) returns (stopped: bool)
      requires data.Length == n + 2 * r && 1 <= r <= n
      requires Scanned(p0, c0, Indices(), Cycles(), Value(), r, r, n)
      modifies data
      ensures stopped ==> Running() && Rank(Value(), n) == Rank(p0[..r], n) + 1
      ensures !stopped ==> Scanned(p0, c0, Indices(), Cycles(), Value(), 0, r, n)
    {
      var kv: nat := r;
      while kv > 0
        invariant kv <= r && Scanned(p0, c0, Indices(), Cycles(), Value(), kv, r, n)
      {
        var k := kv - 1;
        ghost var p, c, v := Indices(), Cycles(), Value();
        ScanReadsDigit(p0, c0, p, c, v, k, r, n);
        stopped := StepPosition(k);
        ContinueScan(p0, c0, p, c, v, Indices(), Cycles(), Value(), k, r, n, stopped);
        if stopped {
          return;
        }
        kv := k;
      }
      stopped := false;
    }

    method ConcludeRun(ghost p0: seq<nat>)
      requires data.Length == n + 2 * r && 1 <= r <= n
      requires IsPermutation(Indices(), n) && Ascending(Indices()[0..])
      requires IsPermutation(p0, n) && Value() == p0[..r]
      requires forall j | 0 <= j < r :: Digit(p0, j) == n - j - 1
      modifies data
      ensures Done() && Finished()
      ensures Value() == old(Value())
      ensures Rank(p0[..r], n) == Falling(n, r) - 1
    {
      assert Indices()[0..] == Indices();
      ghost var q := Indices();
      data[n] := 0;
      assert Indices() == q;
      MaximalDigitsRankLast(p0, r, n);
      RankLooksAtPrefix(p0, p0[..r], r, n);
    }

    /** permutation_iterator_current_sign */
    method CurrentSign() returns (sign: nat)
      requires Valid()
      ensures sign == Inversions(Value()) % 2
      // the parity of any way to sort the selection by swaps
      ensures forall swaps | ProperSwaps(swaps, r) && Ascending(ApplySwaps(Value(), swaps)) ::
          |swaps| % 2 == sign
      // for whole permutations the cycle counters already tell it
      ensures n == r && !Done() ==> sign == CycleSum(Cycles(), n, 0) % 2
    {
      var flips := 0;
      assert Value()[..1][1..] == [];
      for i := 1 to r
        invariant flips == Inversions(Value()[..i])
      {
        var x := data[n + r + i];
        var more := CountAbovePrefix(i, x);
        flips := flips + more;
        assert Value()[..i + 1] == Value()[..i] + [x];
        InversionsAppend(Value()[..i], x);
      }
      assert Value()[..r] == Value();
      sign := flips % 2;
      SignFacts(sign);
    }

    /** The inner loop of `current_sign`. */
    method CountAbovePrefix(i: nat, x: u8) returns (more: nat)
      requires data.Length == n + 2 * r && i <= r
      ensures more == CountAbove(Value()[..i], x)
    {
      more := 0;
      for j := 0 to i
        invariant more == CountAbove(Value()[..j], x)
      {
        assert Value()[..j + 1] == Value()[..j] + [Value()[j]];
        CountAboveAppend(Value()[..j], Value()[j], x);
        if x < data[n + r + j] {
          more := more + 1;
        }
      }
    }

    lemma SignFacts(sign: nat)
      requires Valid() && sign == Inversions(Value()) % 2
      ensures forall swaps | ProperSwaps(swaps, r) && Ascending(ApplySwaps(Value(), swaps)) ::
          |swaps| % 2 == sign
      ensures n == r && !Done() ==> sign == CycleSum(Cycles(), n, 0) % 2
    {
      ghost var v: seq<nat> := Value();
      assert Injective(v);
      forall swaps | ProperSwaps(swaps, r) && Ascending(ApplySwaps(v, swaps)) ensures |swaps| % 2 == sign {
        SortingSwapsHaveInversionParity(v, swaps);
      }
      if n == r && !Done() {
        assert Indices()[..n] == Indices()[0..] == Indices();
        DigitsAddUpToInversions(Indices(), n, 0);
        CyclesSpellDigits(Indices(), Cycles(), n, 0);
      }
    }

    /**
     * A whole run, as tests/iterators/test_permutations.c drives it: it shows every ordered selection exactly
     * once, each directly behind its lexicographic predecessor, and is done after n! / (n - r)! of them.
     */
    method Enumerate() returns (shown: seq<seq<u8>>)
      requires data.Length == n + 2 * r && 1 <= r <= n
      modifies data
      ensures Valid() && Done()
      ensures |shown| == Falling(n, r)
      ensures ListsAllSelections(shown, n, r)
    {
      Reset();
      ShowsSelection();
      shown := [];
      while !Done()
        invariant Valid()
        invariant !Done() ==> Rank(Value(), n) == |shown| < Falling(n, r)
        invariant Done() ==> |shown| == Falling(n, r)
        invariant ListedByRank(shown, n, r)
        decreases Falling(n, r) - |shown|, if Done() then 0 else 1
      {
        ShowsSelection();
        ListNextRank(shown, Value(), n, r);
        shown := shown + [Value()];
        Next();
        ShowsSelection();
      }
      RankedListIsComplete(shown, n, r);
    }
  }

  lemma ShownIsBeginning(p: seq<nat>, q: seq<nat>, k: nat, r: nat)
    requires k <= r <= |p| == |q| && p[..k] == q[..k]
    ensures p[..r][..k] + q[k..r] == q[..r]
  {
    assert p[..r][..k] == p[..k];
    assert q[..r] == q[..k] + q[k..r];
  }

  /**
   * What one iteration of the loop in `next` does at position `k`: a counter that runs out rotates the tail and
   * starts over, any other one swaps in the next larger entry, shows the selection and ends the call.
   */
  ghost predicate PositionStep(p: seq<nat>, c: seq<nat>, v: seq<nat>, q: seq<nat>, d: seq<nat>, w: seq<nat>,
                               k: nat, r: nat, n: nat, stop: bool)
    requires |p| == |q| == n && |c| == |d| == |v| == |w| == r && k < r <= n
  {
    && IsPermutation(q, n) && q[..k] == p[..k]
    && d[..k] == c[..k] && d[k + 1..] == c[k + 1..]
    && (stop <==> Digit(p, k) < n - k - 1)
    && (if stop then
          && Ascending(q[k + 1..]) && Digit(q, k) == Digit(p, k) + 1
          && d[k] == c[k] as int - 1 && w == v[..k] + q[k..r]
        else
          Ascending(q[k..]) && d[k] == n - k && w == v)
  }

  /**
   * The state of the loop in `next` above position `kv`: the counters from `kv` on have run out and started
   * over, and the entries from `kv` on have been sorted; nothing before `kv` has changed since the state
   * (p0, c0) the call started from.
   */
  ghost predicate Scanned(p0: seq<nat>, c0: seq<nat>, p: seq<nat>, c: seq<nat>, v: seq<nat>, kv: nat, r: nat, n: nat)
  {
    && kv <= r <= n && IsPermutation(p0, n) && |c0| == |c| == r
    && (forall j | 0 <= j < r :: Digit(p0, j) == n - j - c0[j])
    && IsPermutation(p, n) && Ascending(p[kv..])
    && p[..kv] == p0[..kv] && v == p0[..r] && c[..kv] == c0[..kv]
    && (forall j | kv <= j < r :: c[j] == n - j)
    && (forall j | kv <= j < r :: Digit(p0, j) == n - j - 1)
  }

  lemma StartScan(p: seq<nat>, c: seq<nat>, r: nat, n: nat)
    requires IsPermutation(p, n) && |c| == r <= n && Ascending(p[r..])
    requires forall k | 0 <= k < r :: n - k - c[k] == CountBelow(p[k + 1..], p[k])
    ensures Scanned(p, c, p, c, p[..r], r, r, n)
  {
    forall k | 0 <= k < r ensures Digit(p, k) == n - k - c[k] {
      DigitCountsLaterSmaller(p, n, k);
    }
  }

  lemma ScanReadsDigit(p0: seq<nat>, c0: seq<nat>, p: seq<nat>, c: seq<nat>, v: seq<nat>, k: nat, r: nat, n: nat)
    requires Scanned(p0, c0, p, c, v, k + 1, r, n)
    ensures p[..k] == p0[..k] && c[..k] == c0[..k] && c[k] == c0[k]
    ensures Digit(p, k) == Digit(p0, k) < n - k
    ensures c[k] == n - k - Digit(p, k)
  {
    DigitLooksAtPrefix(p, p0, k);
    DigitBounds(p0, n, k);
    TakeIsMonotone(p, p0, k, k + 1);
    TakeIsMonotone(c, c0, k, k + 1);
  }

  /** An iteration either continues the scan or reaches a running state that ranks one higher. */
  lemma ContinueScan(p0: seq<nat>, c0: seq<nat>, p: seq<nat>, c: seq<nat>, v: seq<nat>,
                     q: seq<nat>, d: seq<nat>, w: seq<nat>, k: nat, r: nat, n: nat, stop: bool)
    requires Scanned(p0, c0, p, c, v, k + 1, r, n) && |q| == n && |d| == |w| == r
    requires PositionStep(p, c, v, q, d, w, k, r, n, stop)
    ensures !stop ==> Scanned(p0, c0, q, d, w, k, r, n)
    ensures stop ==> Ascending(q[r..]) && w == q[..r] && Rank(w, n) == Rank(p0[..r], n) + 1
    ensures stop ==> forall j | 0 <= j < r :: n - j - d[j] == CountBelow(q[j + 1..], q[j])
  {
    ScanReadsDigit(p0, c0, p, c, v, k, r, n);
    forall j | k < j < r ensures d[j] == n - j {
      assert d[k + 1..][j - k - 1] == c[k + 1..][j - k - 1];
    }
    if stop {
      ShownIsBeginning(p0, q, k, r);
      CountersFollow(p0, c0, q, d, k, r, n);
    }
  }

  /** After the step at position `k` every counter still tells its digit, and the rank is one higher. */
  lemma CountersFollow(p0: seq<nat>, c0: seq<nat>, q: seq<nat>, c: seq<nat>, k: nat, r: nat, n: nat)
    requires IsPermutation(p0, n) && |c0| == |c| == r && k < r <= n
    requires forall j | 0 <= j < r :: Digit(p0, j) == n - j - c0[j]
    requires forall j | k < j < r :: Digit(p0, j) == n - j - 1
    requires IsPermutation(q, n) && q[..k] == p0[..k] && Ascending(q[k + 1..])
    requires Digit(q, k) == Digit(p0, k) + 1
    requires c[..k] == c0[..k] && c[k] == c0[k] as int - 1 && forall j | k < j < r :: c[j] == n - j
    ensures Ascending(q[r..])
    ensures Rank(q[..r], n) == Rank(p0[..r], n) + 1
    ensures forall j | 0 <= j < r :: n - j - c[j] == CountBelow(q[j + 1..], q[j])
  {
    OdometerStepOnPermutation(p0, q, k, r, n);
    forall j | 0 <= j < r ensures n - j - c[j] == CountBelow(q[j + 1..], q[j]) {
      if j < k {
        TakeIsMonotone(c, c0, j, k);
      }
    }
  }

  /** The sum over the positions from `k` on of n - k - cycles[k]. */
  ghost function CycleSum(c: seq<nat>, n: nat, k: nat): int
    requires k <= |c|
    decreases |c| - k
  {
    if k == |c| then 0 else n - k - c[k] + CycleSum(c, n, k + 1)
  }

  lemma {:induction false} CyclesSpellDigits(p: seq<nat>, c: seq<nat>, n: nat, k: nat)
    requires IsPermutation(p, n) && |c| == n && k <= n
    requires forall j | 0 <= j < n :: n - j - c[j] == CountBelow(p[j + 1..], p[j])
    ensures CycleSum(c, n, k) == DigitSum(p, k)
    decreases n - k
  {
    if k < n {
      DigitCountsLaterSmaller(p, n, k);
      CyclesSpellDigits(p, c, n, k + 1);
    }
  }

  /** calculate_permutation_count: n! / (n - r)!, modulo the width of the product. */
  method CalculateCount(n: u8, r: u8) returns (result: u64)
    ensures result == Wrap64(Falling(n, r))
  {
    if r == 0 {
      return 1;
    }
    if r == 1 {
      assert Falling(n, 1) == n;
      return n;
    }
    result := MultiplyDown(n, r);
  }

  /** permutation_total_count: right exactly when the number of permutations fits the return type. */
  method TotalCount(n: u8, r: u8) returns (result: u32)
    ensures result == Falling(n, r) <==> Falling(n, r) < U32_LIMIT
    ensures result == Falling(n, r) % 0x1_0000_0000
  {
    var count := CalculateCount(n, r);
    FallingSign(n, r);
    result := Wrap32(count);
    WrapTwice(Falling(n, r));
  }

  /** Wrapping around at 64 bits does not matter to what is cut down to 32. */
  lemma WrapTwice(x: nat)
    ensures Wrap32(Wrap64(x)) == x % 0x1_0000_0000
  {
  }

  /** The permutations of thirteen elements are too many for the return type. */
  lemma ThirteenAreTooMany()
    ensures Falling(13, 13) == 6227020800 >= U32_LIMIT
  {
    FallingIsFactorialQuotient(13, 13);
    TwentyFactorial();
    assert Factorial(5) == 120;
    assert Factorial(9) == 362880;
    assert Factorial(13) == 6227020800 && Factorial(0) == 1;
  }

  /** The number n!/r! that the documentation gives is the right one exactly if n is 2r or 1. */
  lemma DocumentedCountIsRight(n: nat, r: nat)
    requires r <= n
    ensures Falling(n, r) * Factorial(r) == Factorial(n) <==> n == 2 * r || n == 1
  {
    FallingIsFactorialQuotient(n, r);
    FactorialGrows(0, n);
    var f, a, b := Falling(n, r), Factorial(r), Factorial(n - r);
    FallingSign(n, r);
    SameProduct(f, a, b);
    if r < n - r {
      FactorialGrows(r, n - r);
    } else {
      FactorialGrows(n - r, r);
    }
  }

  lemma SameProduct(f: nat, a: int, b: int)
    requires f * b > 0
    ensures f * a == f * b <==> a == b
  {
    if a < b {
      assert f * (b - a) == f * b - f * a;
    } else if b < a {
      assert f * (a - b) == f * a - f * b;
    }
  }

  /** One element out of three can be chosen in 3 ways, not in 6. */
  lemma DocumentedCountIsWrong()
    ensures Falling(3, 1) == 3 && Factorial(3) == 6 * Factorial(1)
  {
  }
}
