/** src/iterators/combination_iterator.c: stepping through, counting, ranking and unranking combinations. */
module CombinationIterator {
  import opened MachineIntegers
  import opened Arithmetic
  import opened Counting
  import opened Selections
  import opened Combinations

  // ----- counting

  /** The falling product of the general case stays within 64 bits; the special cases need no product. */
  predicate CountFits(n: nat, r: nat) {
    n == r || r <= 1 || Falling(n, r) < U64_LIMIT
  }

  /**
   * calculate_combination_count: a product that may wrap around, then one truncating division after the other.
   * It is the binomial coefficient exactly when the product does not wrap.
   */
  method CalculateCount(n: u8, r: u8) returns (result: u64)
    ensures result == Binomial(n, r) <==> CountFits(n, r)
    ensures result <= Binomial(n, r)
    ensures n != r && r > 1 ==> result == Falling(n, r) % 0x1_0000_0000_0000_0000 / Factorial(r)
  {
    BinomialEdges(n, r);
    if n == r || r == 0 {
      return 1;
    }
    if r == 1 {
      return n;
    }
    var count: u64 := MultiplyDown(n, r);
    FallingSign(n, r);
    FallingIsBinomialTimesFactorial(n, r);
    result := DivideDown(Binomial(n, r), r, count, CountFits(n, r));
  }

  /** What is left to divide by i!: the exact product, or something too small from the start. */
  ghost predicate LeftToDivide(c: nat, i: nat, count: nat, exact: bool) {
    if exact then count == c * Factorial(i) else count < c * Factorial(i)
  }

  /** The dividing loop of `calculate_combination_count`. */
  method DivideDown(ghost c: nat, r: u8, product: u64, ghost exact: bool) returns (count: u64)
    requires r >= 1 && LeftToDivide(c, r, product, exact)
    ensures if exact then count == c else count < c
    ensures count == product / Factorial(r)
  {
    count := product;
    var i: u32 := r;
    ghost var q := 1;
    while i > 1
      invariant 1 <= i <= r
      invariant LeftToDivide(c, i, count, exact)
      invariant q >= 1 && q * Factorial(i) == Factorial(r) && count == product / q
    {
      DivideStep(c, i, count, exact);
      DivideTwice(product, q, i);
      q := DivisorGrows(q, i, Factorial(r));
      count := count / i;
      i := i - 1;
    }
    assert Factorial(1) == 1;
  }

  /** Dividing by one factor after the other is dividing by their product. */
  lemma DivideTwice(x: nat, a: nat, b: nat)
    requires a >= 1 && b >= 1
    ensures x / a / b == x / (a * b)
  {
    var q, r := x / a, x % a;
    DivideAndMultiply(x, a);
    DivideAndMultiply(q, b);
    var p, s := q / b, q % b;
    assert q * a == (p * b + s) * a == p * (b * a) + s * a;
    MulMonotone(s, b - 1, a, a);
    assert (b - 1) * a == a * b - a;
    DivisionIsUnique(x, p, s * a + r, a * b);
  }

  /** The factors divided by so far, with one more. */
  ghost function DivisorGrows(q: nat, i: nat, whole: nat): (r: nat)
    requires q >= 1 && i > 1 && q * Factorial(i) == whole
    ensures r == q * i >= 1 && r * Factorial(i - 1) == whole
  {
    MulMonotone(1, q, 1, i);
    assert Factorial(i) == Factorial(i - 1) * i;
    MulAssociative(q, i, Factorial(i - 1));
    q * i
  }

  lemma DivideStep(c: nat, i: nat, count: nat, exact: bool)
    requires i > 1 && LeftToDivide(c, i, count, exact)
    ensures LeftToDivide(c, i - 1, count / i, exact)
    ensures 0 <= count / i <= count
  {
    var p := c * Factorial(i - 1);
    assert Factorial(i) == Factorial(i - 1) * i;
    MulAssociative(c, Factorial(i - 1), i);
    QuotientOfMultiple(p, i, count);
    QuotientShrinks(count, i);
  }

  lemma QuotientShrinks(count: nat, i: nat)
    requires i > 0
    ensures 0 <= count / i <= count
  {
    var q := count / i;
    assert q * i <= count < q * i + i;
    if q > 0 {
      MulMonotone(q, q, 1, i);
    }
  }

  lemma QuotientOfMultiple(p: nat, i: nat, count: nat)
    requires i > 0
    ensures count == p * i ==> count / i == p
    ensures count < p * i ==> count / i < p
  {
    var q := count / i;
    assert q * i <= count < q * i + i;
    if q < p {
      MulMonotone(q + 1, p, i, i);
      assert (q + 1) * i == q * i + i;
    } else if q > p {
      MulMonotone(p + 1, q, i, i);
      assert (p + 1) * i == p * i + i;
    }
  }

  /** combination_total_count: right exactly when neither the product nor the return type overflows. */
  method TotalCount(n: u8, r: u8) returns (result: u32)
    ensures result == Binomial(n, r) <==> CountFits(n, r) && Binomial(n, r) < U32_LIMIT
    ensures n == r || r <= 1 ==> result == Binomial(n, r) % 0x1_0000_0000
    ensures n != r && r > 1 ==>
        result == Falling(n, r) % 0x1_0000_0000_0000_0000 / Factorial(r) % 0x1_0000_0000
  {
    var count := CalculateCount(n, r);
    result := Wrap32(count);
  }

  /** There are 21 ways to leave one of 21 out, but the product to be divided is 21!, which does not fit. */
  lemma TwentyOfTwentyOneAreMiscounted()
    ensures Binomial(21, 20) == 21 && !CountFits(21, 20)
  {
    hide Binomial;
    FallingIsBinomialTimesFactorial(21, 20);
    FallingIsFactorialQuotient(21, 20);
    TwentyFactorial();
    assert Factorial(21) == 21 * Factorial(20) && Factorial(1) == 1;
  }

  /** Counts that are computed right and do not fit the type they are returned in. */
  lemma FiveOf255DoNotFit()
    ensures CountFits(255, 5) && Binomial(255, 5) == 8637487551 >= U32_LIMIT
  {
    hide Binomial;
    FallingIsBinomialTimesFactorial(255, 5);
    assert Falling(255, 3) == 16386810;
    assert Falling(255, 5) == 1036498506120;
    assert Factorial(5) == 120;
  }

  // ----- ranking and unranking

  /** Every count that ranking or unranking asks for is exact, and its arguments fit a byte. */
  predicate InnerCountsFit(n: nat, r: nat) {
    r == 0 || (r <= n <= 0x100 && Falling(n - 1, r - 1) < U64_LIMIT)
  }

  lemma InnerCountFits(n: nat, r: nat, i: nat, j: nat)
    requires InnerCountsFit(n, r) && i < r && j + r <= n + i
    ensures CountFits(n - 1 - j, r - 1 - i)
  {
    FallingMonotone(n - 1 - j, r - 1 - i, n - 1, r - 1);
  }

  /** combination_get_index; its result is the lexicographic rank, modulo the width of the return type. */
  method GetIndex(n: u32, r: u32, vals: array<u8>) returns (index: u32)
    requires r <= vals.Length && IsCombination(vals[..r], n)
    ensures InnerCountsFit(n, r) ==> index == Wrap32(CombinationRank(vals[..r], n))
  {
    hide InnerCountsFit, Skipped, Binomial, Wrap32;
    ZeroWraps();
    if r == 0 {
      return 0;
    }
    ghost var v: seq<nat> := vals[..r];
    index := 0;
    var minV: u32 := 0;
    for i := 0 to r
      invariant minV == Lowest(v, i)
      invariant InnerCountsFit(n, r) ==> index == Wrap32(RankBefore(v, i, r, n))
    {
      var ci := vals[i];
      CombinationRoom(v, n, i);
      var p := SumOfCounts(n, r, i, minV, ci);
      WrapSum(RankBefore(v, i, r, n), Skipped(n, minV, ci, r - 1 - i));
      index := Wrap32(index + p);
      minV := ci as int + 1;
    }
  }

  /** The innermost loop of `get_index`. */
  method SumOfCounts(n: u32, r: u32, i: u32, minV: u32, ci: u8) returns (p: u32)
    requires i < r <= n && minV <= ci && ci + r <= n + i
    ensures InnerCountsFit(n, r) ==> p == Wrap32(Skipped(n, minV, ci, r - 1 - i))
  {
    hide InnerCountsFit, Binomial, Wrap32;
    p := 0;
    NothingSkipped(n, minV, r - 1 - i);
    for j := minV to ci
      invariant InnerCountsFit(n, r) ==> p == Wrap32(Skipped(n, minV, j, r - 1 - i))
    {
      var count := InnerCount(n, r, i, j, 0);
      WrapSum(Skipped(n, minV, j, r - 1 - i), count);
      p := Wrap32(p + count);
    }
  }

  lemma ZeroWraps()
    ensures Wrap32(0) == 0
  {
  }

  lemma NothingSkipped(n: nat, j: nat, k: nat)
    requires j <= n
    ensures Wrap32(Skipped(n, j, j, k)) == 0
  {
  }

  /** One count of an inner loop, whose arguments are cut down to bytes; `k` entries are not looked at. */
  method InnerCount(n: u32, r: u32, i: u32, j: u32, ghost k: nat) returns (count: u64)
    requires k <= i < r <= n && j + r < n + i
    ensures InnerCountsFit(n, r - k) ==> count == Binomial(n - 1 - j, r - 1 - i)
  {
    count := CalculateCount((n - 1 - j) % 0x100, (r - 1 - i) % 0x100);
    if InnerCountsFit(n, r - k) {
      InnerCountFits(n, r - k, i - k, j);
    }
  }

  /**
   * What the signed accumulators of `get_index_difference` need in order not to overflow, if combinations differ in
   * their last `m` entries.
   */
  ghost predicate DifferenceFits(n: nat, m: nat) {
    && InnerCountsFit(n, m)
    && forall j | 1 <= j <= m :: Binomial(n, j) < 0x8000_0000
  }

  /** The first `k` entries, and no more of them, agree. */
  ghost predicate AgreeUpTo(v: seq<nat>, w: seq<nat>, k: nat) {
    k <= |v| && k <= |w| && v[..k] == w[..k] && (k < |v| && k < |w| ==> v[k] != w[k])
  }

  /** combination_get_index_difference: how many steps lead from the first combination to the second. */
  method GetIndexDifference(n: u32, r: u32, vals1: array<u8>, vals2: array<u8>) returns (result: i32)
    requires r <= vals1.Length && IsCombination(vals1[..r], n)
    requires r <= vals2.Length && IsCombination(vals2[..r], n)
    requires forall k: nat | k < r && AgreeUpTo(vals1[..r], vals2[..r], k) :: DifferenceFits(n, r - k)
    ensures result == CombinationRank(vals2[..r], n) - CombinationRank(vals1[..r], n)
  {
    hide DifferenceFits, CombinationRank;
    var matching := FirstDifference(r, vals1, vals2);
    assert vals1[..r][..matching] == vals1[..matching] && vals2[..r][..matching] == vals2[..matching];
    if matching == r {
      assert vals1[..r] == vals2[..r];
      return 0;
    }
    assert AgreeUpTo(vals1[..r], vals2[..r], matching);
    if vals1[matching] < vals2[matching] {
      result := DifferenceFrom(n, r, vals1, vals2, matching);
    } else {
      result := DifferenceFrom(n, r, vals2, vals1, matching);
      result := -result;
    }
  }

  /** The first loop of `get_index_difference`. */
  method FirstDifference(r: u32, vals1: array<u8>, vals2: array<u8>) returns (matching: u32)
    requires r <= vals1.Length && r <= vals2.Length
    ensures matching <= r && vals1[..matching] == vals2[..matching]
    ensures matching < r ==> vals1[matching] != vals2[matching]
  {
    matching := 0;
    while matching < r && vals1[matching] == vals2[matching]
      invariant matching <= r && vals1[..matching] == vals2[..matching]
    {
      matching := matching + 1;
    }
  }

  /** The summing loop of `get_index_difference`; its result lies strictly between the counts. */
  method DifferenceFrom(n: u32, r: u32, first: array<u8>, second: array<u8>, matching: u32) returns (dif: i32)
    requires r <= first.Length && IsCombination(first[..r], n)
    requires r <= second.Length && IsCombination(second[..r], n)
    requires matching < r && first[..matching] == second[..matching]
    requires DifferenceFits(n, r - matching)
    ensures dif == CombinationRank(second[..r], n) - CombinationRank(first[..r], n) > -0x8000_0000
  {
    hide Binomial, Skipped, DifferenceFits;
    ghost var v: seq<nat>, w: seq<nat> := first[..r], second[..r];
    assert v[..matching] == first[..matching] && w[..matching] == second[..matching];
    RankBeforeLooksAtPrefix(v, w, matching, r, n);
    dif := 0;
    // the entries which agree are not skipped: the first pair of sums starts at zero on both sides
    var min1: u32, min2: u32 := 0, 0;
    DifferenceRange(v, w, matching, matching, r, n);
    for i := matching to r
      invariant dif == RankBefore(w, i, r, n) - RankBefore(v, i, r, n)
      invariant BothStart(v, w, i, min1, min2)
    {
      var c1, c2 := first[i], second[i];
      CombinationRoom(v, n, i);
      CombinationRoom(w, n, i);
      var dp := DifferenceOfCounts(n, r, i, min1, c1, min2, c2, matching);
      DifferenceStep(v, w, matching, i, r, n, min1, min2);
      dif := dif + dp;
      min1 := c1 as int + 1;
      min2 := c2 as int + 1;
    }
    DifferenceRange(v, w, matching, r, r, n);
  }

  /** The sums start at the lowest value of either entry or, for the first pair, both at zero. */
  ghost predicate BothStart(v: seq<nat>, w: seq<nat>, i: nat, min1: nat, min2: nat)
    requires i <= |v| && i <= |w|
  {
    || (min1 == Lowest(v, i) && min2 == Lowest(w, i))
    || (min1 == min2 == 0 && Lowest(v, i) == Lowest(w, i))
  }

  lemma DifferenceStep(v: seq<nat>, w: seq<nat>, k: nat, i: nat, r: nat, n: nat, min1: nat, min2: nat)
    requires IsCombination(v, n) && IsCombination(w, n) && |v| == |w| == r && k <= i < r
    requires v[..k] == w[..k] && DifferenceFits(n, r - k)
    requires BothStart(v, w, i, min1, min2)
    ensures min1 <= v[i] && min2 <= w[i]
    ensures var dp := Skipped(n, min2, w[i], r - 1 - i) - Skipped(n, min1, v[i], r - 1 - i);
      RankBefore(w, i + 1, r, n) - RankBefore(v, i + 1, r, n) == RankBefore(w, i, r, n) - RankBefore(v, i, r, n) + dp
    ensures -0x8000_0000 < RankBefore(w, i + 1, r, n) - RankBefore(v, i + 1, r, n) < 0x8000_0000
  {
    hide Binomial, DifferenceFits, Skipped;
    CombinationRoom(v, n, i);
    CombinationRoom(w, n, i);
    SkippedSplits(n, min1, Lowest(v, i), v[i], r - 1 - i);
    SkippedSplits(n, min2, Lowest(w, i), w[i], r - 1 - i);
    DifferenceRange(v, w, k, i + 1, r, n);
  }

  /** Combinations that begin alike are not further apart than the rest of them has room for. */
  lemma DifferenceRange(v: seq<nat>, w: seq<nat>, k: nat, i: nat, r: nat, n: nat)
    requires IsCombination(v, n) && IsCombination(w, n) && |v| == |w| == r && k <= i <= r && k < r
    requires v[..k] == w[..k] && DifferenceFits(n, r - k)
    ensures -0x8000_0000 < RankBefore(w, i, r, n) - RankBefore(v, i, r, n) < 0x8000_0000
  {
    hide Binomial, RankBefore, Skipped;
    RankBeforeLooksAtPrefix(v, w, k, r, n);
    PrefixRange(v, k, i, n);
    PrefixRange(w, k, i, n);
    assert Binomial(n, r - k) < 0x8000_0000;
  }

  lemma PrefixRange(v: seq<nat>, k: nat, i: nat, n: nat)
    requires IsCombination(v, n) && k < |v| && k <= i <= |v|
    ensures RankBefore(v, k, |v|, n) <= RankBefore(v, i, |v|, n) < RankBefore(v, k, |v|, n) + Binomial(n, |v| - k)
  {
    hide Binomial, Skipped;
    RankBeforeGrows(v, k, i, n);
    TailBounds(v, i, n);
    TailBounds(v, k, n);
    SkippedTelescopes(n, 0, Lowest(v, k), |v| - k - 1);
  }

  lemma {:induction false} RankBeforeGrows(v: seq<nat>, k: nat, i: nat, n: nat)
    requires IsCombination(v, n) && k <= i <= |v|
    ensures RankBefore(v, k, |v|, n) <= RankBefore(v, i, |v|, n)
  {
    if k < i {
      RankBeforeGrows(v, k, i - 1, n);
    }
  }

  /** The two inner loops of `get_index_difference`, for entries behind the first `k`. */
  method DifferenceOfCounts(n: u32, r: u32, i: u32, min1: u32, c1: u8, min2: u32, c2: u8, ghost k: nat)
    returns (dp: i32)
    requires k <= i < r <= n && min1 <= c1 && min2 <= c2 && c1 + r <= n + i && c2 + r <= n + i
    requires DifferenceFits(n, r - k)
    ensures dp == Skipped(n, min2, c2, r - 1 - i) - Skipped(n, min1, c1, r - 1 - i)
  {
    hide Binomial, InnerCountsFit;
    dp := 0;
    for j := min2 to c2
      invariant dp == Skipped(n, min2, j, r - 1 - i)
    {
      SkippedFits(n, r, k, i, min2, j + 1);
      var count := InnerCount(n, r, i, j, k);
      dp := dp + count;
    }
    for j := min1 to c1
      invariant dp == Skipped(n, min2, c2, r - 1 - i) - Skipped(n, min1, j, r - 1 - i)
    {
      SkippedFits(n, r, k, i, min1, j + 1);
      var count := InnerCount(n, r, i, j, k);
      dp := dp - count;
    }
  }

  lemma SkippedFits(n: nat, r: nat, k: nat, i: nat, lo: nat, x: nat)
    requires k <= i < r <= n && DifferenceFits(n, r - k) && lo <= x <= n
    ensures Skipped(n, lo, x, r - 1 - i) < 0x8000_0000
  {
    hide Binomial, Skipped, InnerCountsFit;
    SkippedTelescopes(n, 0, x, r - 1 - i);
    SkippedSplits(n, 0, lo, x, r - 1 - i);
    assert 1 <= r - i <= r - k && Binomial(n, r - i) < 0x8000_0000;
  }

  /** The entries chosen so far account for `index` up to what remains, and the rest can account for that. */
  ghost predicate Unranking(v: seq<nat>, n: nat, r: nat, minVal: nat, remaining: nat, index: nat) {
    && |v| <= r <= n && IsCombination(v, n) && minVal == Lowest(v, |v|) <= n
    && RankBefore(v, |v|, r, n) + remaining == index
    && remaining < Binomial(n - minVal, r - |v|)
  }

  /** The same while the next entry is being raised to `j`. */
  ghost predicate Choosing(v: seq<nat>, n: nat, r: nat, minVal: nat, j: nat, remaining: nat, index: nat) {
    && |v| < r <= n && IsCombination(v, n) && minVal == Lowest(v, |v|) <= j <= n
    && RankBefore(v, |v|, r, n) + Skipped(n, minVal, j, r - 1 - |v|) + remaining == index
    && remaining < Binomial(n - j, r - |v|)
  }

  /** Once the remainder is below the next count, `j` is the entry that unranking chooses. */
  lemma ChooseEntry(v: seq<nat>, n: nat, r: nat, minVal: nat, j: nat, remaining: nat, index: nat)
    requires Choosing(v, n, r, minVal, j, remaining, index)
    requires j < n && remaining < Binomial(n - 1 - j, r - 1 - |v|)
    ensures Unranking(v + [j], n, r, j + 1, remaining, index)
  {
    var w := v + [j];
    assert w[..|v|] == v == v[..|v|];
    RankBeforeLooksAtPrefix(v, w, |v|, r, n);
  }

  lemma ChooseFirst(v: seq<nat>, n: nat, r: nat, minVal: nat, remaining: nat, index: nat)
    requires Unranking(v, n, r, minVal, remaining, index) && |v| < r
    ensures Choosing(v, n, r, minVal, minVal, remaining, index)
  {
  }

  /** A remainder that is not below the next count is for a later entry. */
  lemma ChooseLater(v: seq<nat>, n: nat, r: nat, minVal: nat, j: nat, remaining: nat, index: nat)
    requires Choosing(v, n, r, minVal, j, remaining, index) && j < n
    requires remaining >= Binomial(n - 1 - j, r - 1 - |v|)
    ensures Choosing(v, n, r, minVal, j + 1, remaining - Binomial(n - 1 - j, r - 1 - |v|), index)
  {
  }

  /** The highest value an entry can take leaves one choice for the others. */
  lemma OnlyOneLeft(v: seq<nat>, n: nat, r: nat, minVal: nat, j: nat, remaining: nat, index: nat)
    requires Choosing(v, n, r, minVal, j, remaining, index) && j == n - r + |v|
    ensures j < n && remaining < Binomial(n - 1 - j, r - 1 - |v|)
  {
    BinomialEdges(r - |v|, r - |v|);
    BinomialEdges(r - |v| - 1, r - |v| - 1);
  }

  /** The inner loop of `set_to_index`. */
  method ChooseNext(n: u8, r: u8, i: nat, minVal: u32, remaining: u32, ghost chosen: seq<nat>, ghost index: nat)
    returns (j: u32, rest: u32)
    requires i < r <= n && i <= minVal <= n - r + i && |chosen| == i
    requires InnerCountsFit(n, r) && index < Binomial(n, r) ==> Unranking(chosen, n, r, minVal, remaining, index)
    ensures minVal <= j <= n - r + i
    ensures InnerCountsFit(n, r) && index < Binomial(n, r) ==> Unranking(chosen + [j], n, r, j + 1, rest, index)
  {
    hide InnerCountsFit, Binomial, Choosing, Unranking, CountFits;
    ghost var exact := InnerCountsFit(n, r) && index < Binomial(n, r);
    j := minVal;
    rest := remaining;
    if exact {
      ChooseFirst(chosen, n, r, minVal, remaining, index);
    }
    while j < n - r + i
      invariant minVal <= j <= n - r + i
      invariant exact ==> Choosing(chosen, n, r, minVal, j, rest, index)
    {
      var count := CalculateCount(n - 1 - j, r - 1 - i);
      if exact {
        InnerCountFits(n, r, i, j);
      }
      if rest < count {
        break;
      }
      if exact {
        ChooseLater(chosen, n, r, minVal, j, rest, index);
      }
      rest := rest - count;
      j := j + 1;
    }
    if exact {
      if j == n - r + i {
        OnlyOneLeft(chosen, n, r, minVal, j, rest, index);
      }
      ChooseEntry(chosen, n, r, minVal, j, rest, index);
    }
  }

  /**
   * combination_set_to_index: fills in the combination of the given rank, and does so exactly for the
   * indices which are ranks.
   */
  method SetToIndex(n: u8, r: u8, vals: array<u8>, index: u32)
    requires r <= n && r <= vals.Length
    modifies vals
    ensures vals[r..] == old(vals[r..])
    ensures InnerCountsFit(n, r) && r > 0 ==>
        (IsCombination(vals[..r], n) && CombinationRank(vals[..r], n) == index <==> index < Binomial(n, r))
  {
    if r == 0 {
      return;
    }
    var remaining: u32 := index;
    var minVal: u32 := 0;
    for i := 0 to r - 1
      invariant i <= minVal <= n - r + i
      invariant vals[r..] == old(vals[r..])
      invariant InnerCountsFit(n, r) && index < Binomial(n, r) ==> Unranking(vals[..i], n, r, minVal, remaining, index)
    {
      ghost var chosen: seq<nat> := vals[..i];
      var j: u32;
      j, remaining := ChooseNext(n, r, i, minVal, remaining, chosen, index);
      vals[i] := j;
      assert vals[..i + 1] == chosen + [j];
      minVal := j + 1;
    }
    ghost var chosen: seq<nat> := vals[..r - 1];
    vals[r - 1] := (minVal + remaining) % 0x100;
    if InnerCountsFit(n, r) {
      UnrankLast(chosen, vals[..r], n, r, minVal, remaining, index);
    }
  }

  lemma UnrankLast(v: seq<nat>, w: seq<nat>, n: nat, r: nat, minVal: nat, remaining: nat, index: nat)
    requires 1 <= r <= n < 0x100 && |v| == r - 1 && w == v + [(minVal + remaining) % 0x100]
    requires index < Binomial(n, r) ==> Unranking(v, n, r, minVal, remaining, index)
    ensures IsCombination(w, n) && CombinationRank(w, n) == index <==> index < Binomial(n, r)
  {
    hide Binomial, Skipped, RankBefore, Unranking;
    if index < Binomial(n, r) {
      LastEntryFits(v, n, r, minVal, remaining, index);
      RankWithLastEntry(v, n, r, minVal, remaining, index);
    } else if IsCombination(w, n) {
      CombinationRankBounds(w, n);
    }
  }

  lemma LastEntryFits(v: seq<nat>, n: nat, r: nat, minVal: nat, remaining: nat, index: nat)
    requires 1 <= r && |v| == r - 1 && Unranking(v, n, r, minVal, remaining, index)
    ensures minVal + remaining < n
  {
    hide Binomial, Skipped, RankBefore;
    BinomialEdges(n - minVal, 1);
  }

  /** The last entry accounts for all that remains. */
  lemma RankWithLastEntry(v: seq<nat>, n: nat, r: nat, minVal: nat, remaining: nat, index: nat)
    requires 1 <= r && |v| == r - 1 && Unranking(v, n, r, minVal, remaining, index) && minVal + remaining < n
    ensures var w := v + [minVal + remaining]; IsCombination(w, n) && CombinationRank(w, n) == index
  {
    hide Binomial, Skipped;
    var w := v + [minVal + remaining];
    assert w[..r - 1] == v == v[..r - 1];
    RankBeforeLooksAtPrefix(v, w, r - 1, r, n);
    SkippedSingles(n, minVal, minVal + remaining);
  }

  /** Ranking what unranking filled in gives the index back. */
  method IndexOfUnranked(n: u8, r: u8, vals: array<u8>, index: u32) returns (again: u32)
    requires r <= n && r <= vals.Length && InnerCountsFit(n, r) && index < Binomial(n, r)
    modifies vals
    ensures again == index
  {
    SetToIndex(n, r, vals, index);
    again := GetIndex(n, r, vals);
  }

  /** Unranking the rank of a combination gives the combination back, provided the rank fits its type. */
  method UnrankedIndex(n: u8, r: u8, vals: array<u8>, copy: array<u8>)
    requires r <= n && r <= vals.Length && r <= copy.Length && vals != copy
    requires IsCombination(vals[..r], n) && InnerCountsFit(n, r) && CombinationRank(vals[..r], n) < U32_LIMIT
    modifies copy
    ensures copy[..r] == vals[..r]
  {
    ghost var v: seq<nat> := vals[..r];
    var index := GetIndex(n, r, vals);
    CombinationRankBounds(v, n);
    assert index == CombinationRank(v, n);
    SetToIndex(n, r, copy, index);
    SameRankSameCombination(v, copy[..r], n);
    assert vals[..r] == v;
  }

  lemma SameRankSameCombination(v: seq<nat>, w: seq<nat>, n: nat)
    requires IsCombination(v, n) && |w| == |v|
    requires |v| > 0 ==> IsCombination(w, n) && CombinationRank(w, n) == CombinationRank(v, n)
    ensures v == w
  {
    if |v| > 0 {
      RankOrdersCombinations(v, w, n);
    }
  }

  // ----- the iterator

  class CombinationIterator {
    const n: u8
    const r: u8
    // one counter per chosen element, and one even if there are none
    const counters: array<u8>

    ghost predicate Shaped()
    {
      r <= n && counters.Length == if r == 0 then 1 else r
    }

    /** combination_iterator_current */
    function Current(): seq<u8>
      requires r <= counters.Length
      reads counters
    {
      counters[..r]
    }

    /** combination_iterator_is_done */
    predicate Done()
      requires Shaped()
      reads counters
    {
      if r == 0 then counters[0] == 1 else counters[r - 1] == n
    }

    ghost predicate Valid()
      reads counters
    {
      && Shaped()
      && (r == 0 ==> counters[0] <= 1)
      && (Done() ==> forall i | 0 <= i < r :: counters[i] == n - r + i + 1)
      && (!Done() ==> IsCombination(Current(), n))
    }

    /** combination_iterator_init */
    constructor (n: u8, r: u8)
      requires r <= n
      ensures this.n == n && this.r == r && fresh(counters)
      ensures Valid() && !Done() && CombinationRank(Current(), n) == 0
    {
      this.n, this.r := n, r;
      counters := new u8[if r == 0 then 1 else r];
      new;
      Reset();
    }

    /** combination_iterator_reset */
    method Reset()
      requires Shaped()
      modifies counters
      ensures Valid() && !Done() && CombinationRank(Current(), n) == 0
    {
      if r == 0 {
        counters[0] := 0;
        return;
      }
      for i := 0 to r
        invariant forall j | 0 <= j < i :: counters[j] == j
      {
        counters[i] := i;
      }
      TightTailAddsNothing(Current(), 0, n);
    }

    /** The loop of `next` that restarts the counters behind `k`. */
    method RollOver(k: nat)
      requires Shaped() && k < r && counters[k] + r <= n + k
      modifies counters
      ensures Current()[..k + 1] == old(Current()[..k + 1])
      ensures forall j | k < j < r :: counters[j] == counters[j - 1] as int + 1
      ensures forall j | k <= j < r :: counters[j] == counters[k] + (j - k)
    {
      for j := k + 1 to r
        invariant Current()[..k + 1] == old(Current()[..k + 1])
        invariant forall m | k < m < j :: counters[m] == counters[m - 1] as int + 1
        invariant forall m | k <= m < j :: counters[m] == counters[k] + (m - k)
      {
        counters[j] := counters[j - 1] + 1;
      }
    }

    /**
     * combination_iterator_next. It adds one to the rank, finishes behind the last combination, and does
     * nothing once finished.
     */
    method Next()
      requires Valid()
      modifies counters
      ensures Valid()
      ensures old(Done()) ==> counters[..] == old(counters[..])
      ensures !old(Done()) ==> (Done() <==> old(CombinationRank(Current(), n)) + 1 == Binomial(n, r))
      ensures !old(Done()) && !Done() ==> CombinationRank(Current(), n) == old(CombinationRank(Current(), n)) + 1
    {
      if Done() {
        return;
      }
      hide CombinationRank, Binomial;
      ghost var v := Current();
      if r == 0 {
        LastCombination(v, n);
        counters[0] := 1;
        return;
      }
      var i: u32 := r;
      while i > 0
        invariant i <= r
        invariant Current()[..i] == v[..i]
        invariant forall j | i <= j < r :: v[j] == n - r + j && counters[j] == n - r + j + 1
      {
        var idx := i - 1;
        CombinationRoom(v, n, idx);
        TakeIsMonotone(Current(), v, idx, i);
        counters[idx] := counters[idx] + 1;
        assert Current()[..idx] == v[..idx];
        if counters[idx] as int + (r - i) != n {
          ghost var raised := Current();
          RollOver(idx);
          TakeIsMonotone(Current(), raised, idx, i);
          AdvancedAt(v, idx);
          return;
        }
        i := i - 1;
      }
      LastCombination(v, n);
    }

    lemma AdvancedAt(v: seq<u8>, k: nat)
      requires Shaped() && k < r == |v| && IsCombination(v, n)
      requires Current()[..k] == v[..k] && counters[k] == v[k] as int + 1 && counters[k] + r <= n + k
      requires forall j | k < j < r :: v[j] == n - r + j
      requires forall j | k < j < r :: counters[j] == counters[j - 1] as int + 1
      requires forall j | k <= j < r :: counters[j] == counters[k] + (j - k)
      ensures Valid() && !Done()
      ensures CombinationRank(Current(), n) == CombinationRank(v, n) + 1 < Binomial(n, r)
    {
      var w := Current();
      forall i, j | 0 <= i < j < r ensures w[i] < w[j] {
        if i < k {
          TakeIsMonotone(w, v, i, k);
          assert v[i] < v[k];
        }
        if j < k {
          TakeIsMonotone(w, v, j, k);
        }
      }
      CombinationSuccessor(v, w, k, n);
      CombinationRankBounds(w, n);
    }

    /**
     * A whole run, as tests/iterators/test_combinations.c drives it: it shows every combination exactly once
     * in lexicographic order, and is done after n! / ((n - r)! * r!) of them.
     */
    method Enumerate() returns (shown: seq<seq<u8>>)
      requires Shaped()
      modifies counters
      ensures Valid() && Done()
      ensures |shown| == Binomial(n, r)
      ensures ListsAllCombinations(shown, n, r)
    {
      Reset();
      CombinationRankBounds(Current(), n);
      shown := [];
      while !Done()
        invariant Valid()
        invariant !Done() ==> CombinationRank(Current(), n) == |shown| < Binomial(n, r)
        invariant Done() ==> |shown| == Binomial(n, r)
        invariant ListedByCombinationRank(shown, n, r)
        decreases Binomial(n, r) - |shown|, if Done() then 0 else 1
      {
        ListNextCombination(shown, Current(), n, r);
        shown := shown + [Current()];
        Next();
        if !Done() {
          CombinationRankBounds(Current(), n);
        }
      }
      RankedCombinationsAreComplete(shown, n, r);
    }

    /** combination_iterator_set_to_index, which leaves an iterator over empty combinations where it is. */
    method JumpTo(index: u32)
      requires Shaped()
      modifies counters
      ensures r == 0 ==> counters[..] == old(counters[..])
      ensures r > 0 && InnerCountsFit(n, r) && index < Binomial(n, r) ==>
          Valid() && !Done() && CombinationRank(Current(), n) == index
    {
      SetToIndex(n, r, counters, index);
    }
  }
}
