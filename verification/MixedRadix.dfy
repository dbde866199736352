/** Positions in a grid as numbers: offsets are the digits of the flat index, most significant axis first. */
module MixedRadix {
  import opened Arithmetic
  import opened MachineIntegers

  /** What the first `k` axes hold in all. */
  ghost function Product(dims: seq<u64>, k: nat): nat
    requires k <= |dims|
  {
    if k == 0 then 1 else Product(dims, k - 1) * dims[k - 1]
  }

  /** What the axes from `k` on hold in all: how far one step along axis `k - 1` leads. */
  ghost function Stride(dims: seq<u64>, k: nat): nat
    requires k <= |dims|
    decreases |dims| - k
  {
    if k == |dims| then 1 else dims[k] * Stride(dims, k + 1)
  }

  /** The number the offsets along the first `k` axes spell. */
  ghost function Prefix(dims: seq<u64>, offsets: seq<u64>, k: nat): nat
    requires k <= |dims| == |offsets|
  {
    if k == 0 then 0 else Prefix(dims, offsets, k - 1) * dims[k - 1] + offsets[k - 1]
  }

  /** The number the offsets along the axes from `k` on spell. */
  ghost function Suffix(dims: seq<u64>, offsets: seq<u64>, k: nat): nat
    requires k <= |dims| == |offsets|
    decreases |dims| - k
  {
    if k == |dims| then 0 else offsets[k] * Stride(dims, k + 1) + Suffix(dims, offsets, k + 1)
  }

  ghost function Flat(dims: seq<u64>, offsets: seq<u64>): nat
    requires |dims| == |offsets|
  {
    Prefix(dims, offsets, |dims|)
  }

  ghost predicate Sized(dims: seq<u64>) {
    && |dims| >= 1
    && (forall i | 0 <= i < |dims| :: dims[i] >= 1)
    && Product(dims, |dims|) < U64_LIMIT
  }

  /** The positions an iterator can be in. Only the last offset may reach the size of its axis. */
  ghost predicate InRange(dims: seq<u64>, offsets: seq<u64>) {
    && |offsets| == |dims| >= 1
    && (forall i | 0 <= i < |dims| - 1 :: offsets[i] < dims[i])
    && offsets[|dims| - 1] <= dims[|dims| - 1]
  }

  /** A position inside the grid. */
  ghost predicate Inside(dims: seq<u64>, offsets: seq<u64>) {
    |offsets| == |dims| >= 1 && forall i | 0 <= i < |dims| :: offsets[i] < dims[i]
  }

  lemma InsideIsInRange(dims: seq<u64>, offsets: seq<u64>)
    requires Inside(dims, offsets)
    ensures InRange(dims, offsets)
  {
  }

  lemma {:induction false} StrideIsPositive(dims: seq<u64>, k: nat)
    requires Sized(dims) && k <= |dims|
    ensures Stride(dims, k) >= 1
    decreases |dims| - k
  {
    if k < |dims| {
      StrideIsPositive(dims, k + 1);
      MulMonotone(1, dims[k], 1, Stride(dims, k + 1));
    }
  }

  lemma {:induction false} ProductsSplit(dims: seq<u64>, k: nat)
    requires k <= |dims|
    ensures Product(dims, |dims|) == Product(dims, k) * Stride(dims, k)
    decreases |dims| - k
  {
    if k < |dims| {
      ProductsSplit(dims, k + 1);
      MulAssociative(Product(dims, k), dims[k], Stride(dims, k + 1));
    }
  }

  /** A flat index consists of what the outer and what the inner axes contribute. */
  lemma {:induction false} FlatSplits(dims: seq<u64>, offsets: seq<u64>, k: nat)
    requires k <= |dims| == |offsets|
    ensures Flat(dims, offsets) == Prefix(dims, offsets, k) * Stride(dims, k) + Suffix(dims, offsets, k)
    decreases |dims| - k
  {
    if k < |dims| {
      FlatSplits(dims, offsets, k + 1);
      var p, s := Prefix(dims, offsets, k), Stride(dims, k + 1);
      MulAssociative(p, dims[k], s);
      assert (p * dims[k] + offsets[k]) * s == p * dims[k] * s + offsets[k] * s;
    }
  }

  /** The inner axes never contribute more than a step along the axis outside of them. */
  lemma {:induction false} SuffixIsBounded(dims: seq<u64>, offsets: seq<u64>, k: nat)
    requires Sized(dims) && InRange(dims, offsets) && k <= |dims|
    ensures Suffix(dims, offsets, k) <= Stride(dims, k)
    ensures Inside(dims, offsets) ==> Suffix(dims, offsets, k) < Stride(dims, k)
    decreases |dims| - k
  {
    if k < |dims| {
      SuffixIsBounded(dims, offsets, k + 1);
      var s := Stride(dims, k + 1);
      if k < |dims| - 1 || Inside(dims, offsets) {
        MulMonotone(offsets[k] + 1, dims[k], s, s);
        assert (offsets[k] + 1) * s == offsets[k] * s + s;
      } else {
        MulMonotone(offsets[k], dims[k], s, s);
      }
    }
  }

  /** The outer axes stay below what they can hold. */
  lemma {:induction false} PrefixIsBounded(dims: seq<u64>, offsets: seq<u64>, k: nat)
    requires Sized(dims) && InRange(dims, offsets) && k <= |dims|
    ensures Prefix(dims, offsets, k) <= Product(dims, k)
    ensures k < |dims| || Inside(dims, offsets) ==> Prefix(dims, offsets, k) < Product(dims, k)
  {
    if k > 0 {
      PrefixIsBounded(dims, offsets, k - 1);
      var p, d := Prefix(dims, offsets, k - 1), dims[k - 1];
      MulMonotone(p + 1, Product(dims, k - 1), d, d);
      assert (p + 1) * d == p * d + d;
    }
  }

  /** The offsets along other axes do not matter to the number that some axes spell. */
  lemma {:induction false} PrefixDependsOn(dims: seq<u64>, o: seq<u64>, o': seq<u64>, k: nat)
    requires k <= |dims| == |o| == |o'| && o[..k] == o'[..k]
    ensures Prefix(dims, o', k) == Prefix(dims, o, k)
  {
    if k > 0 {
      assert o[..k - 1] == o[..k][..k - 1] == o'[..k - 1];
      assert o[k - 1] == o[..k][k - 1] == o'[k - 1];
      PrefixDependsOn(dims, o, o', k - 1);
    }
  }

  lemma {:induction false} SuffixDependsOn(dims: seq<u64>, o: seq<u64>, o': seq<u64>, k: nat)
    requires k <= |dims| == |o| == |o'| && o[k..] == o'[k..]
    ensures Suffix(dims, o', k) == Suffix(dims, o, k)
    decreases |dims| - k
  {
    if k < |dims| {
      assert o[k + 1..] == o[k..][1..] == o'[k + 1..];
      assert o[k] == o[k..][0] == o'[k];
      SuffixDependsOn(dims, o, o', k + 1);
    }
  }

  /** The number that offsets along some axes spell determines them. */
  lemma {:induction false} PrefixDetermines(dims: seq<u64>, o: seq<u64>, o': seq<u64>, k: nat)
    requires k <= |dims| == |o| == |o'| && forall i | 0 <= i < k :: o[i] < dims[i] && o'[i] < dims[i]
    requires Prefix(dims, o, k) == Prefix(dims, o', k)
    ensures o[..k] == o'[..k]
  {
    if k > 0 {
      var x := Prefix(dims, o, k);
      DivisionIsUnique(x, Prefix(dims, o, k - 1), o[k - 1], dims[k - 1]);
      DivisionIsUnique(x, Prefix(dims, o', k - 1), o'[k - 1], dims[k - 1]);
      PrefixDetermines(dims, o, o', k - 1);
      assert o[..k] == o[..k - 1] + [o[k - 1]] && o'[..k] == o'[..k - 1] + [o'[k - 1]];
    }
  }

  /** Two positions inside the grid with the same flat index are the same. */
  lemma FlatDetermines(dims: seq<u64>, o: seq<u64>, o': seq<u64>)
    requires Sized(dims) && Inside(dims, o) && Inside(dims, o') && Flat(dims, o) == Flat(dims, o')
    ensures o == o'
  {
    PrefixDetermines(dims, o, o', |dims|);
    assert o == o[..|dims|] && o' == o'[..|dims|];
  }

  /**
   * So are two positions with the same flat index that agree on all axes from `k` on, and stay below the size of the
   * axis in front of these.
   */
  lemma FlatDeterminesOuter(dims: seq<u64>, o: seq<u64>, o': seq<u64>, k: nat)
    requires Sized(dims) && InRange(dims, o) && InRange(dims, o') && 1 <= k <= |dims|
    requires o[k..] == o'[k..] && o[k - 1] < dims[k - 1] && o'[k - 1] < dims[k - 1]
    requires Flat(dims, o) == Flat(dims, o')
    ensures o == o'
  {
    hide Product, Prefix, Sized, Stride, Suffix;
    FlatSplits(dims, o, k);
    FlatSplits(dims, o', k);
    SuffixDependsOn(dims, o, o', k);
    StrideIsPositive(dims, k);
    SameFactor(Prefix(dims, o, k), Prefix(dims, o', k), Stride(dims, k));
    PrefixDetermines(dims, o, o', k);
    assert o == o[..k] + o[k..] && o' == o'[..k] + o'[k..];
  }

  lemma SameFactor(p: nat, q: nat, s: nat)
    requires s >= 1 && p * s == q * s
    ensures p == q
  {
    MultipleHasNoRemainder(p, s);
    MultipleHasNoRemainder(q, s);
  }

  /** Changing the offset along one axis moves the flat index by the stride of the axis. */
  lemma FlatOfAxis(dims: seq<u64>, o: seq<u64>, k: nat, x: u64)
    requires k < |dims| == |o|
    ensures Flat(dims, o[k := x]) == Flat(dims, o) + (x - o[k]) * Stride(dims, k + 1)
  {
    hide Product, Prefix, Suffix, Stride;
    var o', s := o[k := x], Stride(dims, k + 1);
    FlatSplits(dims, o, k + 1);
    FlatSplits(dims, o', k + 1);
    SuffixDependsOn(dims, o, o', k + 1);
    PrefixDependsOn(dims, o, o', k);
    Levels(dims, o, k);
    Levels(dims, o', k);
    var p := Prefix(dims, o, k) * dims[k];
    assert (p + x) * s == (p + o[k]) * s + (x - o[k]) * s;
  }

  /** One axis more. */
  lemma Levels(dims: seq<u64>, o: seq<u64>, k: nat)
    requires k < |dims| == |o|
    ensures Prefix(dims, o, k + 1) == Prefix(dims, o, k) * dims[k] + o[k]
    ensures Product(dims, k + 1) == Product(dims, k) * dims[k]
    ensures k == 0 ==> Prefix(dims, o, k) == 0 && Product(dims, k) == 1
  {
  }

  /** A digit below the radix does not make up for a smaller number in front of it. */
  lemma DigitFits(p: nat, t: nat, d: nat, x: nat)
    requires p < t && x <= d
    ensures p * d + x <= t * d
    ensures x < d ==> p * d + x < t * d
  {
    MulMonotone(p + 1, t, d, d);
    assert (p + 1) * d == p * d + d;
  }

  // ----- first and last positions

  function StartOf(dims: seq<u64>): seq<u64> {
    seq(|dims|, i => 0)
  }

  function EndOf(dims: seq<u64>): seq<u64>
    requires |dims| >= 1 && forall i | 0 <= i < |dims| :: dims[i] >= 1
  {
    seq(|dims|, i requires 0 <= i < |dims| => if i < |dims| - 1 then dims[i] - 1 else dims[i])
  }

  lemma {:induction false} PrefixOfStart(dims: seq<u64>, o: seq<u64>, k: nat)
    requires Sized(dims) && InRange(dims, o) && k <= |dims|
    ensures Prefix(dims, o, k) == 0 <==> forall i | 0 <= i < k :: o[i] == 0
  {
    if k > 0 {
      PrefixOfStart(dims, o, k - 1);
      var p := Prefix(dims, o, k - 1);
      if p > 0 {
        MulMonotone(1, p, 1, dims[k - 1]);
      }
    }
  }

  lemma {:induction false} PrefixOfEnd(dims: seq<u64>, o: seq<u64>, k: nat)
    requires Sized(dims) && InRange(dims, o) && k < |dims|
    ensures Prefix(dims, o, k) == Product(dims, k) - 1 <==> forall i | 0 <= i < k :: o[i] == dims[i] - 1
  {
    hide Product, Prefix;
    if k == 0 {
      Levels(dims, o, 0);
    } else {
      PrefixOfEnd(dims, o, k - 1);
      PrefixIsBounded(dims, o, k - 1);
      Levels(dims, o, k - 1);
      LargestNumber(Prefix(dims, o, k - 1), Product(dims, k - 1), dims[k - 1], o[k - 1], 1);
    }
  }

  /** The number below `t * d` that is largest has the largest digit behind the largest number below `t`. */
  lemma LargestNumber(p: nat, t: nat, d: nat, x: nat, gap: nat)
    requires p < t && 1 <= d && x + gap <= d && gap <= 1
    ensures p * d + x == t * d - gap <==> p == t - 1 && x == d - gap
  {
    assert (t - 1) * d == t * d - d;
    if p < t - 1 {
      DigitFits(p, t - 1, d, x);
    }
  }

  /** The flat index is zero at the start and nowhere else. */
  lemma AtStart(dims: seq<u64>, o: seq<u64>)
    requires Sized(dims) && InRange(dims, o)
    ensures Flat(dims, o) == 0 <==> o == StartOf(dims)
  {
    PrefixOfStart(dims, o, |dims|);
  }

  /** It is the total size at the end and nowhere else. */
  lemma AtEnd(dims: seq<u64>, o: seq<u64>)
    requires Sized(dims) && InRange(dims, o)
    ensures Flat(dims, o) == Product(dims, |dims|) <==> o == EndOf(dims)
  {
    hide Product, Prefix;
    var k := |dims| - 1;
    PrefixOfEnd(dims, o, k);
    PrefixIsBounded(dims, o, k);
    Levels(dims, o, k);
    LargestNumber(Prefix(dims, o, k), Product(dims, k), dims[k], o[k], 0);
    assert o == EndOf(dims) <==> (forall i | 0 <= i < k :: o[i] == dims[i] - 1) && o[k] == dims[k];
  }

  // ----- stepping forward

  ghost predicate NoEmptyAxis(dims: seq<u64>) {
    forall i | 0 <= i < |dims| :: dims[i] >= 1
  }

  lemma SizedHasAxes(dims: seq<u64>)
    requires Sized(dims)
    ensures |dims| >= 1 && NoEmptyAxis(dims) && Product(dims, |dims|) < U64_LIMIT
  {
  }

  function Quotient(x: u64, d: u64): u64
    requires d >= 1
  {
    DivideAndMultiply(x, d);
    MulMonotone(x / d, x / d, 1, d);
    x / d
  }

  function Remainder(x: u64, d: u64): (r: u64)
    requires d >= 1
    ensures r < d
  {
    x % d
  }

  lemma QuotientAndRemainder(x: u64, d: u64)
    requires d >= 1
    ensures x == Quotient(x, d) * d + Remainder(x, d)
  {
    DivideAndMultiply(x, d);
  }

  /** What `advance` leaves, going by its own steps. */
  function Advanced(dims: seq<u64>, o: seq<u64>, dim: nat, step: u64): (r: seq<u64>)
    requires |o| == |dims| && dim < |dims| && NoEmptyAxis(dims)
    ensures |r| == |dims|
    ensures InRange(dims, o) ==> InRange(dims, r)
    decreases dim
  {
    var x := Wrap64(o[dim] + step);
    if x < dims[dim] then
      o[dim := x]
    else if dim == 0 then
      EndOf(dims)
    else
      Advanced(dims, o[dim := Remainder(x, dims[dim])], dim - 1, Quotient(x, dims[dim]))
  }

  /** No sum that `advance` forms on its way wraps around. */
  predicate AdvanceFits(dims: seq<u64>, o: seq<u64>, dim: nat, step: u64)
    requires |o| == |dims| && dim < |dims| && NoEmptyAxis(dims)
  {
    var x := o[dim] + step;
    x < U64_LIMIT && (x >= dims[dim] && dim > 0 ==> AdvanceFits(dims, o, dim - 1, Quotient(x, dims[dim])))
  }

  lemma {:induction false} AdvanceFitsDependsOn(dims: seq<u64>, o: seq<u64>, o': seq<u64>, dim: nat, step: u64)
    requires |o| == |o'| == |dims| && dim < |dims| && NoEmptyAxis(dims) && o[..dim + 1] == o'[..dim + 1]
    ensures AdvanceFits(dims, o', dim, step) == AdvanceFits(dims, o, dim, step)
  {
    assert o[dim] == o[..dim + 1][dim] == o'[dim];
    var x := o[dim] + step;
    if x < U64_LIMIT && dim > 0 {
      assert o[..dim] == o[..dim + 1][..dim] == o'[..dim];
      AdvanceFitsDependsOn(dims, o, o', dim - 1, Quotient(x, dims[dim]));
    }
  }

  /** One carry: the digit that stays and the step that goes on make up the whole sum. */
  lemma CarrySplits(p: nat, t: nat, d: nat, x: nat, q: nat, r: nat)
    requires x == q * d + r && r < d
    ensures (p + q) * d + r == p * d + x
    ensures p + q < t <==> p * d + x < t * d
  {
    assert (p + q) * d == p * d + q * d;
    if p + q < t {
      DigitFits(p + q, t, d, r);
    } else {
      MulMonotone(t, p + q, d, d);
    }
  }

  /** Whether a step leaves the grid shows in front of the axis, once the step is carried over. */
  lemma AxisCarries(dims: seq<u64>, o: seq<u64>, dim: nat, step: nat)
    requires |dims| == |o| && dim < |dims| && dims[dim] >= 1 && o[dim] + step < U64_LIMIT
    ensures Prefix(dims, o, dim) + Quotient(o[dim] + step, dims[dim]) < Product(dims, dim) <==>
        Prefix(dims, o, dim + 1) + step < Product(dims, dim + 1)
  {
    var x, d := o[dim] + step, dims[dim];
    QuotientAndRemainder(x, d);
    CarrySplits(Prefix(dims, o, dim), Product(dims, dim), d, x, Quotient(x, d), Remainder(x, d));
  }

  /** The digit that stays and what was carried over make up the step. */
  lemma CarryArrives(dims: seq<u64>, o: seq<u64>, o': seq<u64>, dim: nat, step: nat)
    requires |dims| == |o| == |o'| && dim < |dims| && dims[dim] >= 1 && o[dim] + step < U64_LIMIT
    requires Prefix(dims, o', dim) == Prefix(dims, o, dim) + Quotient(o[dim] + step, dims[dim])
    requires o'[dim] == Remainder(o[dim] + step, dims[dim])
    ensures Prefix(dims, o', dim + 1) == Prefix(dims, o, dim + 1) + step
  {
    var x, d := o[dim] + step, dims[dim];
    QuotientAndRemainder(x, d);
    CarrySplits(Prefix(dims, o, dim), Prefix(dims, o, dim), d, x, Quotient(x, d), Remainder(x, d));
  }

  /** A step that leads to an offset on the same axis. */
  lemma AxisTakesStep(dims: seq<u64>, o: seq<u64>, dim: nat, step: nat)
    requires |dims| == |o| && dim < |dims| && o[dim] + step < dims[dim]
    requires Prefix(dims, o, dim) < Product(dims, dim)
    ensures var o' := o[dim := o[dim] + step];
      && Prefix(dims, o', dim + 1) == Prefix(dims, o, dim + 1) + step < Product(dims, dim + 1)
      && o'[dim + 1..] == o[dim + 1..]
  {
    PrefixDependsOn(dims, o, o[dim := o[dim] + step], dim);
    DigitFits(Prefix(dims, o, dim), Product(dims, dim), dims[dim], o[dim] + step);
  }

  lemma DigitStaysInRange(dims: seq<u64>, o: seq<u64>, dim: nat, x: u64)
    requires InRange(dims, o) && dim < |dims| && x < dims[dim]
    ensures InRange(dims, o[dim := x])
  {
  }

  /** Inner offsets stay as they are; the number in front of them grows by the digit that was carried out. */
  lemma CarriedOut(dims: seq<u64>, o: seq<u64>, o': seq<u64>, dim: nat, x: u64)
    requires |dims| == |o| == |o'| && dim < |dims|
    requires o'[dim..] == o[dim := x][dim..]
    ensures o'[dim + 1..] == o[dim + 1..] && o'[dim] == x
  {
    assert o'[dim..][0] == x && o'[dim..][1..] == o[dim := x][dim..][1..];
  }

  /** The outer axes after an advance: they count up by the step, or the iterator is at its end. */
  lemma {:induction false} AdvancedPrefix(dims: seq<u64>, o: seq<u64>, dim: nat, step: u64)
    requires Sized(dims) && InRange(dims, o) && dim < |dims| && AdvanceFits(dims, o, dim, step)
    ensures var o' := Advanced(dims, o, dim, step); var sum := Prefix(dims, o, dim + 1) + step;
      && (sum < Product(dims, dim + 1) ==>
            Prefix(dims, o', dim + 1) == sum && o'[dim + 1..] == o[dim + 1..] && o'[dim] < dims[dim])
      && (sum >= Product(dims, dim + 1) ==> o' == EndOf(dims))
    decreases dim
  {
    hide Product, Prefix, Sized, InRange, Quotient, Remainder, Wrap64;
    SizedHasAxes(dims);
    LastMayReachSize(dims, o, dim);
    WrapOnce(o[dim] + step);
    PrefixIsBounded(dims, o, dim);
    var x, d := o[dim] + step, dims[dim];
    if x < d {
      AxisTakesStep(dims, o, dim, step);
    } else if dim > 0 {
      var q, r := Quotient(x, d), Remainder(x, d);
      var o1 := o[dim := r];
      AxisCarries(dims, o, dim, step);
      AdvanceFitsDependsOn(dims, o, o1, dim - 1, q);
      DigitStaysInRange(dims, o, dim, r);
      AdvancedPrefix(dims, o1, dim - 1, q);
      PrefixDependsOn(dims, o, o1, dim);
      if Prefix(dims, o, dim) + q < Product(dims, dim) {
        CarriedOut(dims, o, Advanced(dims, o1, dim - 1, q), dim, r);
        CarryArrives(dims, o, Advanced(dims, o1, dim - 1, q), dim, step);
      }
    } else {
      Levels(dims, o, 0);
    }
  }

  /** If a sum wraps around, the outer axes count down instead. */
  lemma {:induction false} AdvanceGoesWrong(dims: seq<u64>, o: seq<u64>, dim: nat, step: u64)
    requires Sized(dims) && InRange(dims, o) && dim < |dims| && !AdvanceFits(dims, o, dim, step)
    ensures var o' := Advanced(dims, o, dim, step);
      o'[dim + 1..] == o[dim + 1..] && Prefix(dims, o', dim + 1) < Prefix(dims, o, dim + 1)
    decreases dim
  {
    hide Product, Prefix, Sized, InRange, Quotient, Remainder, Wrap64;
    SizedHasAxes(dims);
    LastMayReachSize(dims, o, dim);
    WrapOnce(o[dim] + step);
    var x, d := o[dim] + step, dims[dim];
    if x >= U64_LIMIT {
      PrefixDependsOn(dims, o, o[dim := x - U64_LIMIT], dim);
      PrefixOrder(dims, o[dim := x - U64_LIMIT], o, dim);
    } else {
      var q, r := Quotient(x, d), Remainder(x, d);
      var o1 := o[dim := r];
      AdvanceFitsDependsOn(dims, o, o1, dim - 1, q);
      DigitStaysInRange(dims, o, dim, r);
      AdvanceGoesWrong(dims, o1, dim - 1, q);
      PrefixDependsOn(dims, o, o1, dim);
      CarriedOut(dims, o, Advanced(dims, o1, dim - 1, q), dim, r);
      PrefixOrder(dims, Advanced(dims, o1, dim - 1, q), o, dim);
    }
  }

  /** Positions compare like the digits of numbers. */
  lemma PrefixOrder(dims: seq<u64>, o: seq<u64>, o': seq<u64>, k: nat)
    requires |dims| == |o| == |o'| && k < |dims| && NoEmptyAxis(dims)
    requires Prefix(dims, o, k) <= Prefix(dims, o', k)
    requires if Prefix(dims, o, k) == Prefix(dims, o', k) then o[k] <= o'[k] else o[k] <= dims[k]
    ensures Prefix(dims, o, k + 1) <= Prefix(dims, o', k + 1)
    ensures Prefix(dims, o, k) == Prefix(dims, o', k) && o[k] < o'[k] ==> Prefix(dims, o, k + 1) < Prefix(dims, o', k + 1)
    ensures Prefix(dims, o, k) < Prefix(dims, o', k) && o[k] < dims[k] ==>
        Prefix(dims, o, k + 1) < Prefix(dims, o', k + 1)
  {
    if Prefix(dims, o, k) < Prefix(dims, o', k) {
      DigitFits(Prefix(dims, o, k), Prefix(dims, o', k), dims[k], o[k]);
    }
  }

  lemma LastMayReachSize(dims: seq<u64>, o: seq<u64>, dim: nat)
    requires InRange(dims, o) && dim < |dims|
    ensures |o| == |dims| && o[dim] <= dims[dim]
    ensures dim > 0 ==> o[dim - 1] < dims[dim - 1]
  {
  }

  /**
   * The flat index moves on by the stride of the axis for every step, but not past the total size, exactly if no sum
   * wraps around; otherwise it falls, as 2^64 steps along one of the outer axes or this one are lost. Inner axes are
   * left alone unless the iterator ends up at its end.
   */
  ghost predicate MovesForward(dims: seq<u64>, o: seq<u64>, o': seq<u64>, dim: nat, step: u64)
    requires |o| == |o'| == |dims| && dim < |dims| && NoEmptyAxis(dims)
  {
    var sum := Flat(dims, o) + step * Stride(dims, dim + 1);
    && (AdvanceFits(dims, o, dim, step) <==>
          Flat(dims, o') == if sum < Product(dims, |dims|) then sum else Product(dims, |dims|))
    && (!AdvanceFits(dims, o, dim, step) ==>
          && Flat(dims, o') < Flat(dims, o)
          && exists k :: 1 <= k <= dim + 1 && Flat(dims, o') == sum - U64_LIMIT * Stride(dims, k))
    && (o' == EndOf(dims) || (o'[dim + 1..] == o[dim + 1..] && o'[dim] < dims[dim]))
  }

  /** An advance leaves the inner axes alone, and a valid offset on its own axis, or ends at the end. */
  lemma {:induction false} AdvancedAxes(dims: seq<u64>, o: seq<u64>, dim: nat, step: u64)
    requires |o| == |dims| && dim < |dims| && NoEmptyAxis(dims)
    ensures var o' := Advanced(dims, o, dim, step);
      o' == EndOf(dims) || (o'[dim + 1..] == o[dim + 1..] && o'[dim] < dims[dim])
    decreases dim
  {
    var x := Wrap64(o[dim] + step);
    if x >= dims[dim] && dim > 0 {
      var q, r := Quotient(x, dims[dim]), Remainder(x, dims[dim]);
      var o1 := o[dim := r];
      AdvancedAxes(dims, o1, dim - 1, q);
      var o' := Advanced(dims, o1, dim - 1, q);
      if o' != EndOf(dims) {
        CarriedOut(dims, o, o', dim, r);
      }
    }
  }

  /** Where a sum wraps around, 2^64 steps along its axis are lost. */
  lemma {:induction false} AdvanceLosesSteps(dims: seq<u64>, o: seq<u64>, dim: nat, step: u64) returns (k: nat)
    requires Sized(dims) && InRange(dims, o) && dim < |dims| && !AdvanceFits(dims, o, dim, step)
    ensures 1 <= k <= dim + 1
    ensures Flat(dims, Advanced(dims, o, dim, step)) ==
        Flat(dims, o) + step * Stride(dims, dim + 1) - U64_LIMIT * Stride(dims, k)
    decreases dim
  {
    hide Product, Prefix, Sized, InRange, Flat, Stride, Quotient, Remainder, Wrap64;
    SizedHasAxes(dims);
    LastMayReachSize(dims, o, dim);
    WrapOnce(o[dim] + step);
    var x, d, s := o[dim] + step, dims[dim], Stride(dims, dim + 1);
    if x >= U64_LIMIT {
      k := dim + 1;
      FlatOfAxis(dims, o, dim, x - U64_LIMIT);
      TimesDifference(step, U64_LIMIT, s);
    } else {
      var q, r := Quotient(x, d), Remainder(x, d);
      AdvanceFitsDependsOn(dims, o, o[dim := r], dim - 1, q);
      DigitStaysInRange(dims, o, dim, r);
      FlatOfAxis(dims, o, dim, r);
      QuotientAndRemainder(x, d);
      var was: int := o[dim];
      StepsOutward(dims, dim, r - was, q, step);
      k := AdvanceLosesSteps(dims, o[dim := r], dim - 1, q);
    }
  }

  lemma TimesDifference(a: int, b: int, s: int)
    ensures (a - b) * s == a * s - b * s
  {
  }

  /** Steps along an axis are made up of a change of its offset and steps along the axis outside of it. */
  lemma StepsOutward(dims: seq<u64>, dim: nat, change: int, q: int, step: int)
    requires dim < |dims| && change + q * dims[dim] == step
    ensures change * Stride(dims, dim + 1) + q * Stride(dims, dim) == step * Stride(dims, dim + 1)
  {
    var s := Stride(dims, dim + 1);
    MulAssociative(q, dims[dim], s);
    assert (change + q * dims[dim]) * s == change * s + q * dims[dim] * s;
  }

  lemma AdvancedFlat(dims: seq<u64>, o: seq<u64>, dim: nat, step: u64)
    requires Sized(dims) && InRange(dims, o) && dim < |dims|
    ensures InRange(dims, Advanced(dims, o, dim, step))
    ensures MovesForward(dims, o, Advanced(dims, o, dim, step), dim, step)
  {
    hide Product, Prefix, Sized, Stride, Suffix, InRange, Advanced, AdvanceFits, Inside;
    SizedHasAxes(dims);
    LastMayReachSize(dims, o, dim);
    AdvancedAxes(dims, o, dim, step);
    var k := dim + 1;
    var o', s, t, p := Advanced(dims, o, dim, step), Stride(dims, k), Product(dims, k), Prefix(dims, o, k);
    FlatSplits(dims, o, k);
    ProductsSplit(dims, k);
    SuffixIsBounded(dims, o, k);
    StrideIsPositive(dims, k);
    StepsForward(p, t, s, Suffix(dims, o, k), step);
    if AdvanceFits(dims, o, dim, step) {
      AdvancedPrefix(dims, o, dim, step);
      if p + step < t {
        FlatSplits(dims, o', k);
        SuffixDependsOn(dims, o, o', k);
      } else {
        AtEnd(dims, o');
      }
    } else {
      var lost := AdvanceLosesSteps(dims, o, dim, step);
      AdvanceGoesWrong(dims, o, dim, step);
      FlatSplits(dims, o', k);
      SuffixDependsOn(dims, o, o', k);
      SmallerInFront(Prefix(dims, o', k), p, s, Suffix(dims, o, k));
      FlatIsBounded(dims, o);
    }
  }

  /** What steps of width `s` do to a number. */
  lemma StepsForward(p: nat, t: nat, s: nat, x: nat, step: nat)
    requires s >= 1 && x <= s
    ensures p * s + x + step * s == (p + step) * s + x
    ensures p + step < t ==> p * s + x + step * s <= t * s
    ensures p + step >= t ==> p * s + x + step * s >= t * s
  {
    assert (p + step) * s == p * s + step * s;
    if p + step < t {
      DigitFits(p + step, t, s, x);
    } else {
      MulMonotone(t, p + step, s, s);
    }
  }

  lemma SmallerInFront(p': nat, p: nat, s: nat, x: nat)
    requires p' < p && s >= 1
    ensures p' * s + x < p * s + x
  {
    MulMonotone(p' + 1, p, s, s);
    assert (p' + 1) * s == p' * s + s;
  }

  lemma FlatIsBounded(dims: seq<u64>, o: seq<u64>)
    requires Sized(dims) && InRange(dims, o)
    ensures Flat(dims, o) <= Product(dims, |dims|)
    ensures Inside(dims, o) ==> Flat(dims, o) < Product(dims, |dims|)
  {
    PrefixIsBounded(dims, o, |dims|);
  }

  /** A step that stays inside the grid forms no sum that wraps around. */
  lemma {:induction false} AdvanceFitsInside(dims: seq<u64>, o: seq<u64>, dim: nat, step: u64)
    requires Sized(dims) && InRange(dims, o) && dim < |dims|
    requires Prefix(dims, o, dim + 1) + step < Product(dims, dim + 1)
    ensures AdvanceFits(dims, o, dim, step)
    decreases dim
  {
    hide Product, Prefix, Sized, InRange, Quotient, Remainder, Wrap64;
    SizedHasAxes(dims);
    LastMayReachSize(dims, o, dim);
    WrapOnce(o[dim] + step);
    OffsetIsBounded(dims, o, dim);
    var x, d := o[dim] + step, dims[dim];
    if x >= d && dim > 0 {
      AxisCarries(dims, o, dim, step);
      AdvanceFitsInside(dims, o, dim - 1, Quotient(x, d));
    }
  }

  lemma OffsetIsBounded(dims: seq<u64>, o: seq<u64>, dim: nat)
    requires Sized(dims) && |o| == |dims| && dim < |dims|
    ensures o[dim] <= Prefix(dims, o, dim + 1) && Product(dims, dim + 1) < U64_LIMIT
  {
    ProductsSplit(dims, dim + 1);
    StrideIsPositive(dims, dim + 1);
    MulMonotone(Product(dims, dim + 1), Product(dims, dim + 1), 1, Stride(dims, dim + 1));
    MulMonotone(0, Prefix(dims, o, dim), 0, dims[dim]);
  }

  // ----- stepping backward

  /** What `recede` borrows from the axis outside, and the offset that is left, as they are computed. */
  function Borrowed(o: u64, d: u64, step: u64): u64
    requires d >= 1 && o < step
  {
    Quotient(Wrap64(step - o + d - 1), d)
  }

  function LeftOver(o: u64, d: u64, step: u64): u64
    requires d >= 1 && o < step
  {
    Wrap64(o + Borrowed(o, d, step) * d - step)
  }

  /** The rounded-up quotient leaves a digit, unless a sum wraps around. */
  lemma BorrowIsExact(o: u64, d: u64, step: u64)
    requires d >= 1 && o < step
    ensures LeftOver(o, d, step) < d
    ensures step - o + d - 1 < U64_LIMIT ==> o + Borrowed(o, d, step) * d == LeftOver(o, d, step) + step
    ensures step - o + d - 1 >= U64_LIMIT ==>
        Borrowed(o, d, step) == 0 && LeftOver(o, d, step) == o - step + U64_LIMIT > o
  {
    hide Wrap64, Quotient, Remainder;
    var x := step - o + d - 1;
    WrapOnce(x);
    QuotientAndRemainder(Wrap64(x), d);
    if x < U64_LIMIT {
      WrapOnce(d - 1 - Remainder(x, d));
    } else {
      QuotientOfLess(x - U64_LIMIT, d);
      WrapsUp(o - step);
    }
  }

  lemma QuotientOfLess(x: u64, d: u64)
    requires x < d
    ensures Quotient(x, d) == 0
  {
    DivisionIsUnique(x, 0, x, d);
  }

  lemma WrapsUp(x: int)
    requires -U64_LIMIT <= x < 0
    ensures Wrap64(x) == x + U64_LIMIT
  {
  }

  /** What `recede` leaves, going by its own steps. */
  function Receded(dims: seq<u64>, o: seq<u64>, dim: nat, step: u64): (r: seq<u64>)
    requires |o| == |dims| && dim < |dims| && NoEmptyAxis(dims)
    ensures |r| == |dims|
    ensures InRange(dims, o) ==> InRange(dims, r)
    ensures Inside(dims, o) ==> Inside(dims, r)
    decreases dim
  {
    if step <= o[dim] then
      o[dim := o[dim] - step]
    else if dim == 0 then
      StartOf(dims)
    else
      BorrowIsExact(o[dim], dims[dim], step);
      Receded(dims, o[dim := LeftOver(o[dim], dims[dim], step)], dim - 1, Borrowed(o[dim], dims[dim], step))
  }

  /** No sum that `recede` forms on its way wraps around. */
  predicate RecedeFits(dims: seq<u64>, o: seq<u64>, dim: nat, step: u64)
    requires |o| == |dims| && dim < |dims| && NoEmptyAxis(dims)
  {
    step > o[dim] && dim > 0 ==>
      && step - o[dim] + dims[dim] - 1 < U64_LIMIT
      && RecedeFits(dims, o, dim - 1, Borrowed(o[dim], dims[dim], step))
  }

  lemma {:induction false} RecedeFitsDependsOn(dims: seq<u64>, o: seq<u64>, o': seq<u64>, dim: nat, step: u64)
    requires |o| == |o'| == |dims| && dim < |dims| && NoEmptyAxis(dims) && o[..dim + 1] == o'[..dim + 1]
    ensures RecedeFits(dims, o', dim, step) == RecedeFits(dims, o, dim, step)
  {
    assert o[dim] == o[..dim + 1][dim] == o'[dim];
    if step > o[dim] && dim > 0 {
      assert o[..dim] == o[..dim + 1][..dim] == o'[..dim];
      RecedeFitsDependsOn(dims, o, o', dim - 1, Borrowed(o[dim], dims[dim], step));
    }
  }

  /** Whether a step back leaves the grid shows in front of the axis, once it has borrowed. */
  lemma AxisBorrows(dims: seq<u64>, o: seq<u64>, dim: nat, step: nat, q: nat, r: nat)
    requires |dims| == |o| && dim < |dims| && o[dim] + q * dims[dim] == r + step && r < dims[dim]
    ensures q <= Prefix(dims, o, dim) <==> step <= Prefix(dims, o, dim + 1)
  {
    var p, d := Prefix(dims, o, dim), dims[dim];
    assert (p - q) * d == p * d - q * d;
    if p < q {
      DigitFits(p, q, d, r);
    } else {
      MulMonotone(q, p, d, d);
    }
  }

  /** The digit that is left and what was borrowed make up the step. */
  lemma BorrowArrives(dims: seq<u64>, o: seq<u64>, o': seq<u64>, dim: nat, step: nat, q: nat)
    requires |dims| == |o| == |o'| && dim < |dims| && o[dim] + q * dims[dim] == o'[dim] + step
    requires Prefix(dims, o', dim) == Prefix(dims, o, dim) - q
    ensures Prefix(dims, o', dim + 1) == Prefix(dims, o, dim + 1) - step
  {
    var p, d := Prefix(dims, o, dim), dims[dim];
    assert (p - q) * d == p * d - q * d;
  }

  /** The outer axes after a step back: they count down by the step, or the iterator is at its start. */
  lemma {:induction false} RecededPrefix(dims: seq<u64>, o: seq<u64>, dim: nat, step: u64)
    requires Sized(dims) && InRange(dims, o) && dim < |dims| && RecedeFits(dims, o, dim, step)
    ensures var o' := Receded(dims, o, dim, step); var p := Prefix(dims, o, dim + 1);
      && (step <= p ==> Prefix(dims, o', dim + 1) == p - step && o'[dim + 1..] == o[dim + 1..])
      && (step > p ==> o' == StartOf(dims))
    decreases dim
  {
    hide Product, Prefix, Sized, InRange;
    SizedHasAxes(dims);
    LastMayReachSize(dims, o, dim);
    OffsetIsBounded(dims, o, dim);
    var d := dims[dim];
    if step <= o[dim] {
      var o' := o[dim := o[dim] - step];
      PrefixDependsOn(dims, o, o', dim);
      Levels(dims, o, dim);
      Levels(dims, o', dim);
    } else if dim > 0 {
      BorrowIsExact(o[dim], d, step);
      var q, r := Borrowed(o[dim], d, step), LeftOver(o[dim], d, step);
      var o1 := o[dim := r];
      AxisBorrows(dims, o, dim, step, q, r);
      RecedeFitsDependsOn(dims, o, o1, dim - 1, q);
      DigitStaysInRange(dims, o, dim, r);
      RecededPrefix(dims, o1, dim - 1, q);
      PrefixDependsOn(dims, o, o1, dim);
      if q <= Prefix(dims, o, dim) {
        CarriedOut(dims, o, Receded(dims, o1, dim - 1, q), dim, r);
        BorrowArrives(dims, o, Receded(dims, o1, dim - 1, q), dim, step, q);
      }
    } else {
      Levels(dims, o, 0);
    }
  }

  /** If a sum wraps around, the outer axes do not count down. */
  lemma {:induction false} RecedeGoesWrong(dims: seq<u64>, o: seq<u64>, dim: nat, step: u64)
    requires Sized(dims) && InRange(dims, o) && dim < |dims| && !RecedeFits(dims, o, dim, step)
    ensures var o' := Receded(dims, o, dim, step);
      && o'[dim + 1..] == o[dim + 1..] && step > 0
      && Prefix(dims, o', dim + 1) >= Prefix(dims, o, dim + 1) && Prefix(dims, o', dim + 1) > 0
      && (o[dim] < dims[dim] ==> Prefix(dims, o', dim + 1) > Prefix(dims, o, dim + 1))
    decreases dim
  {
    hide Product, Prefix, Sized, InRange, Borrowed, LeftOver;
    SizedHasAxes(dims);
    LastMayReachSize(dims, o, dim);
    var d := dims[dim];
    BorrowIsExact(o[dim], d, step);
    var q, r := Borrowed(o[dim], d, step), LeftOver(o[dim], d, step);
    var o1 := o[dim := r];
    var o' := Receded(dims, o1, dim - 1, q);
    PrefixDependsOn(dims, o, o1, dim);
    if step - o[dim] + d - 1 < U64_LIMIT {
      RecedeFitsDependsOn(dims, o, o1, dim - 1, q);
      DigitStaysInRange(dims, o, dim, r);
      RecedeGoesWrong(dims, o1, dim - 1, q);
    } else {
      StepOfZero(dims, o1, dim - 1);
    }
    CarriedOut(dims, o, o', dim, r);
    PrefixOrder(dims, o, o', dim);
    PrefixIsPositive(dims, o', dim);
  }

  lemma StepOfZero(dims: seq<u64>, o: seq<u64>, dim: nat)
    requires |o| == |dims| && dim < |dims| && NoEmptyAxis(dims)
    ensures Receded(dims, o, dim, 0) == o
  {
  }

  lemma PrefixIsPositive(dims: seq<u64>, o: seq<u64>, dim: nat)
    requires |dims| == |o| && dim < |dims| && NoEmptyAxis(dims) && (Prefix(dims, o, dim) > 0 || o[dim] > 0)
    ensures Prefix(dims, o, dim + 1) > 0
  {
    if Prefix(dims, o, dim) > 0 {
      MulMonotone(1, Prefix(dims, o, dim), 1, dims[dim]);
    }
  }

  /**
   * The flat index moves back by the stride of the axis for every step, but not past zero, exactly if no sum wraps
   * around; otherwise it does not fall, as 2^64 steps along one of the outer axes or this one are gained. Inner axes
   * are left alone unless the iterator ends up at its start.
   */
  ghost predicate MovesBack(dims: seq<u64>, o: seq<u64>, o': seq<u64>, dim: nat, step: u64)
    requires |o| == |o'| == |dims| && dim < |dims| && NoEmptyAxis(dims)
  {
    var difference := Flat(dims, o) - step * Stride(dims, dim + 1);
    && (RecedeFits(dims, o, dim, step) <==> Flat(dims, o') == if difference > 0 then difference else 0)
    && (!RecedeFits(dims, o, dim, step) ==>
          && Flat(dims, o') >= Flat(dims, o) && Flat(dims, o') > 0
          && exists k :: 1 <= k <= dim + 1 && Flat(dims, o') == difference + U64_LIMIT * Stride(dims, k))
    && (o' == StartOf(dims) || o'[dim + 1..] == o[dim + 1..])
    && (step >= 1 ==> o'[dim] < dims[dim])
  }

  /** A step back leaves the inner axes alone or ends at the start, and leaves a valid offset on its own axis. */
  lemma {:induction false} RecededAxes(dims: seq<u64>, o: seq<u64>, dim: nat, step: u64)
    requires InRange(dims, o) && dim < |dims| && NoEmptyAxis(dims)
    ensures var o' := Receded(dims, o, dim, step);
      && (o' == StartOf(dims) || o'[dim + 1..] == o[dim + 1..])
      && (step >= 1 ==> o'[dim] < dims[dim])
    decreases dim
  {
    LastMayReachSize(dims, o, dim);
    if step > o[dim] && dim > 0 {
      hide InRange, Borrowed, LeftOver;
      BorrowIsExact(o[dim], dims[dim], step);
      var q, r := Borrowed(o[dim], dims[dim], step), LeftOver(o[dim], dims[dim], step);
      var o1 := o[dim := r];
      DigitStaysInRange(dims, o, dim, r);
      RecededAxes(dims, o1, dim - 1, q);
      var o' := Receded(dims, o1, dim - 1, q);
      if o' != StartOf(dims) {
        CarriedOut(dims, o, o', dim, r);
      }
    }
  }

  /** A step back along the last axis never leaves the iterator outside of the grid. */
  lemma RecededInside(dims: seq<u64>, o: seq<u64>, dim: nat, step: u64)
    requires Sized(dims) && InRange(dims, o) && step >= 1 && dim == |dims| - 1
    ensures Inside(dims, Receded(dims, o, dim, step))
  {
    hide Receded;
    RecededAxes(dims, o, dim, step);
  }

  /** Where a sum wraps around, 2^64 steps along its axis are gained. */
  lemma {:induction false} RecedeGainsSteps(dims: seq<u64>, o: seq<u64>, dim: nat, step: u64) returns (k: nat)
    requires Sized(dims) && InRange(dims, o) && dim < |dims| && !RecedeFits(dims, o, dim, step)
    ensures 1 <= k <= dim + 1
    ensures Flat(dims, Receded(dims, o, dim, step)) ==
        Flat(dims, o) - step * Stride(dims, dim + 1) + U64_LIMIT * Stride(dims, k)
    decreases dim
  {
    hide Product, Prefix, Sized, InRange, Flat, Stride, Borrowed, LeftOver;
    SizedHasAxes(dims);
    LastMayReachSize(dims, o, dim);
    var d, s := dims[dim], Stride(dims, dim + 1);
    BorrowIsExact(o[dim], d, step);
    var q, r := Borrowed(o[dim], d, step), LeftOver(o[dim], d, step);
    FlatOfAxis(dims, o, dim, r);
    if step - o[dim] + d - 1 < U64_LIMIT {
      RecedeFitsDependsOn(dims, o, o[dim := r], dim - 1, q);
      DigitStaysInRange(dims, o, dim, r);
      var was: int := o[dim];
      StepsOutward(dims, dim, was - r, q, step);
      TimesDifference(r, was, s);
      TimesDifference(was, r, s);
      k := RecedeGainsSteps(dims, o[dim := r], dim - 1, q);
    } else {
      k := dim + 1;
      StepOfZero(dims, o[dim := r], dim - 1);
      TimesDifference(U64_LIMIT, step, s);
    }
  }

  lemma RecededFlat(dims: seq<u64>, o: seq<u64>, dim: nat, step: u64)
    requires Sized(dims) && InRange(dims, o) && dim < |dims|
    ensures InRange(dims, Receded(dims, o, dim, step))
    ensures MovesBack(dims, o, Receded(dims, o, dim, step), dim, step)
  {
    hide Product, Prefix, Sized, Stride, Suffix, InRange, Receded, RecedeFits, Inside;
    SizedHasAxes(dims);
    LastMayReachSize(dims, o, dim);
    RecededAxes(dims, o, dim, step);
    var k := dim + 1;
    var o', s, p := Receded(dims, o, dim, step), Stride(dims, k), Prefix(dims, o, k);
    FlatSplits(dims, o, k);
    SuffixIsBounded(dims, o, k);
    StrideIsPositive(dims, k);
    assert (p - step) * s == p * s - step * s;
    if RecedeFits(dims, o, dim, step) {
      RecededPrefix(dims, o, dim, step);
      if step <= p {
        FlatSplits(dims, o', k);
        SuffixDependsOn(dims, o, o', k);
        MulMonotone(step, p, s, s);
      } else {
        MulMonotone(p + 1, step, s, s);
        assert (p + 1) * s == p * s + s;
        AtStart(dims, o');
      }
    } else {
      var gained := RecedeGainsSteps(dims, o, dim, step);
      RecedeGoesWrong(dims, o, dim, step);
      FlatSplits(dims, o', k);
      SuffixDependsOn(dims, o, o', k);
      var p' := Prefix(dims, o', k);
      MulMonotone(p, p', s, s);
      MulMonotone(1, p', 1, s);
      MulMonotone(1, step, 1, s);
    }
  }

  /** A step back that stays inside the grid forms no sum that wraps around. */
  lemma {:induction false} RecedeFitsInside(dims: seq<u64>, o: seq<u64>, dim: nat, step: u64)
    requires Sized(dims) && InRange(dims, o) && dim < |dims| && step <= Prefix(dims, o, dim + 1)
    ensures RecedeFits(dims, o, dim, step)
    decreases dim
  {
    hide Product, Prefix, Sized, InRange, Borrowed, LeftOver;
    SizedHasAxes(dims);
    LastMayReachSize(dims, o, dim);
    if step > o[dim] && dim > 0 {
      RoundingUpFits(dims, o, dim, step);
      BorrowIsExact(o[dim], dims[dim], step);
      var q, r := Borrowed(o[dim], dims[dim], step), LeftOver(o[dim], dims[dim], step);
      AxisBorrows(dims, o, dim, step, q, r);
      RecedeFitsInside(dims, o, dim - 1, q);
    }
  }

  lemma RoundingUpFits(dims: seq<u64>, o: seq<u64>, dim: nat, step: u64)
    requires Sized(dims) && InRange(dims, o) && dim < |dims| && step <= Prefix(dims, o, dim + 1)
    ensures step - o[dim] + dims[dim] - 1 < U64_LIMIT
  {
    hide Sized, InRange;
    LastMayReachSize(dims, o, dim);
    OffsetIsBounded(dims, o, dim);
    PrefixIsBounded(dims, o, dim);
    DigitFits(Prefix(dims, o, dim), Product(dims, dim), dims[dim], dims[dim]);
  }

  // ----- there and back

  /** Inside the grid, a flat index bounds what is in front of an axis, and the other way round. */
  lemma InsideTheStride(dims: seq<u64>, o: seq<u64>, k: nat, step: nat)
    requires Sized(dims) && Inside(dims, o) && k <= |dims|
    ensures Flat(dims, o) + step * Stride(dims, k) < Product(dims, |dims|) <==>
        Prefix(dims, o, k) + step < Product(dims, k)
    ensures step * Stride(dims, k) <= Flat(dims, o) <==> step <= Prefix(dims, o, k)
  {
    hide Product, Prefix, Sized, Stride, Suffix, InRange, Inside;
    SizedHasAxes(dims);
    InsideIsInRange(dims, o);
    FlatSplits(dims, o, k);
    ProductsSplit(dims, k);
    SuffixIsBounded(dims, o, k);
    CarrySplits(Prefix(dims, o, k), Product(dims, k), Stride(dims, k),
                Suffix(dims, o, k) + step * Stride(dims, k), step, Suffix(dims, o, k));
    StepsBack(Prefix(dims, o, k), Stride(dims, k), Suffix(dims, o, k), step);
  }

  lemma StepsBack(p: nat, s: nat, x: nat, step: nat)
    requires x < s
    ensures step * s <= p * s + x <==> step <= p
  {
    if step <= p {
      MulMonotone(step, p, s, s);
    } else {
      DigitFits(p, step, s, x);
    }
  }

  /** An advance that does not reach the end stays inside the grid and moves the flat index exactly. */
  lemma AdvancedInside(dims: seq<u64>, o: seq<u64>, dim: nat, step: u64)
    requires Sized(dims) && Inside(dims, o) && dim < |dims|
    requires Flat(dims, o) + step * Stride(dims, dim + 1) < Product(dims, |dims|)
    ensures AdvanceFits(dims, o, dim, step)
    ensures var o' := Advanced(dims, o, dim, step);
      Inside(dims, o') && Flat(dims, o') == Flat(dims, o) + step * Stride(dims, dim + 1)
  {
    hide Product, Prefix, Sized, Stride, Suffix, Advanced, AdvanceFits;
    SizedHasAxes(dims);
    InsideTheStride(dims, o, dim + 1, step);
    AdvanceFitsInside(dims, o, dim, step);
    AdvancedPrefix(dims, o, dim, step);
    AdvancedFlat(dims, o, dim, step);
    var o' := Advanced(dims, o, dim, step);
    assert dim < |dims| - 1 ==> o'[dim + 1..][|dims| - 2 - dim] == o[dim + 1..][|dims| - 2 - dim];
  }

  /** Going forward inside the grid and back by the same steps ends where it began. */
  lemma RecedeUndoesAdvance(dims: seq<u64>, o: seq<u64>, dim: nat, step: u64)
    requires Sized(dims) && Inside(dims, o) && dim < |dims|
    requires Flat(dims, o) + step * Stride(dims, dim + 1) < Product(dims, |dims|)
    ensures Receded(dims, Advanced(dims, o, dim, step), dim, step) == o
  {
    hide Product, Prefix, Sized, Stride, Suffix, Advanced, Receded, AdvanceFits, RecedeFits;
    SizedHasAxes(dims);
    InsideTheStride(dims, o, dim + 1, step);
    AdvancedInside(dims, o, dim, step);
    AdvancedPrefix(dims, o, dim, step);
    var o' := Advanced(dims, o, dim, step);
    RecedeFitsInside(dims, o', dim, step);
    RecededFlat(dims, o', dim, step);
    FlatDetermines(dims, o, Receded(dims, o', dim, step));
  }

  /** Going back inside the grid and forward by the same steps ends where it began. */
  lemma AdvanceUndoesRecede(dims: seq<u64>, o: seq<u64>, dim: nat, step: u64)
    requires Sized(dims) && Inside(dims, o) && dim < |dims|
    requires step * Stride(dims, dim + 1) <= Flat(dims, o)
    ensures Advanced(dims, Receded(dims, o, dim, step), dim, step) == o
  {
    hide Product, Prefix, Sized, Stride, Suffix, Advanced, Receded, AdvanceFits, RecedeFits;
    SizedHasAxes(dims);
    InsideTheStride(dims, o, dim + 1, step);
    RecedeFitsInside(dims, o, dim, step);
    RecededFlat(dims, o, dim, step);
    var o' := Receded(dims, o, dim, step);
    FlatIsBounded(dims, o);
    InsideTheStride(dims, o', dim + 1, step);
    AdvancedInside(dims, o', dim, step);
    FlatDetermines(dims, o, Advanced(dims, o', dim, step));
  }

  // ----- where sums wrap around

  /** A huge step along the only axis, which should lead to the end, goes back by one. */
  lemma AdvanceCanGoBack()
    ensures Advanced([3], [2], 0, U64_LIMIT - 1) == [1] && !AdvanceFits([3], [2], 0, U64_LIMIT - 1)
  {
    WrapOnce(2 + U64_LIMIT - 1);
  }

  /** A huge step back, which should lead to the start, goes forward by one. */
  lemma RecedeCanGoForward()
    ensures Receded([2, 3], [1, 1], 1, U64_LIMIT - 1) == [1, 2] && !RecedeFits([2, 3], [1, 1], 1, U64_LIMIT - 1)
  {
    BorrowIsExact(1, 3, U64_LIMIT - 1);
    assert LeftOver(1, 3, U64_LIMIT - 1) == 2;
    assert [1, 1][1 := 2] == [1, 2];
    StepOfZero([2, 3], [1, 2], 0);
  }
}
