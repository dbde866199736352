/** Factorials, falling products and binomial coefficients, independent of any code. */
module Counting {
  import opened Arithmetic
  import opened MachineIntegers

  function Factorial(k: nat): (f: nat)
    ensures f >= 1
  {
    if k == 0 then 1 else k * Factorial(k - 1)
  }

  /** n * (n - 1) * ... * (n - k + 1), which is zero as soon as k exceeds n. */
  function Falling(n: nat, k: nat): int {
    if k == 0 then 1 else Falling(n, k - 1) * (n - k + 1)
  }

  /** Binomial coefficients by Pascal's rule. */
  function Binomial(n: nat, k: nat): nat {
    if k == 0 then 1
    else if n == 0 then 0
    else Binomial(n - 1, k - 1) + Binomial(n - 1, k)
  }

  lemma {:induction false} FallingSign(n: nat, k: nat)
    ensures k > n ==> Falling(n, k) == 0
    ensures k <= n ==> Falling(n, k) >= 1
  {
    if k > 0 {
      FallingSign(n, k - 1);
    }
  }

  lemma {:induction false} FallingPeelsFront(n: nat, k: nat)
    requires n >= 1 && k >= 1
    ensures Falling(n, k) == n * Falling(n - 1, k - 1)
  {
    if k > 1 {
      FallingPeelsFront(n, k - 1);
      calc {
        Falling(n, k);
        Falling(n, k - 1) * (n - k + 1);
        (n * Falling(n - 1, k - 2)) * (n - k + 1);
        n * (Falling(n - 1, k - 2) * (n - k + 1));
        n * Falling(n - 1, k - 1);
      }
    }
  }

  /** The falling product is n! / (n - k)!. */
  lemma {:induction false} FallingIsFactorialQuotient(n: nat, k: nat)
    requires k <= n
    ensures Falling(n, k) * Factorial(n - k) == Factorial(n)
  {
    if k > 0 {
      FallingIsFactorialQuotient(n, k - 1);
      assert Factorial(n - k + 1) == (n - k + 1) * Factorial(n - k);
      MulAssociative(Falling(n, k - 1), n - k + 1, Factorial(n - k));
    }
  }

  lemma TwentyFactorial()
    ensures Factorial(20) == 2432902008176640000
  {
    assert Factorial(5) == 120;
    assert Factorial(9) == 362880;
    assert Factorial(13) == 6227020800;
    assert Factorial(17) == 355687428096000;
  }

  lemma {:induction false} FactorialGrows(m: nat, n: nat)
    requires m <= n
    ensures 1 <= Factorial(m) <= Factorial(n)
    ensures 1 <= m < n ==> Factorial(m) < Factorial(n)
  {
    if m < n {
      FactorialGrows(m, n - 1);
      MulMonotone(1, n, Factorial(n - 1), Factorial(n - 1));
      if m >= 1 {
        MulMonotone(2, n, Factorial(n - 1), Factorial(n - 1));
      }
    } else if n > 0 {
      FactorialGrows(n - 1, n - 1);
      MulMonotone(1, n, 1, Factorial(n - 1));
    }
  }

  /** Pascal's rule counts what the falling product divided by k! counts. */
  lemma {:induction false} FallingIsBinomialTimesFactorial(n: nat, k: nat)
    ensures Falling(n, k) == Binomial(n, k) * Factorial(k)
  {
    if k == 0 {
    } else if n == 0 {
      FallingSign(0, k);
    } else {
      FallingIsBinomialTimesFactorial(n - 1, k - 1);
      FallingIsBinomialTimesFactorial(n - 1, k);
      FallingPeelsFront(n, k);
      assert Factorial(k) == k * Factorial(k - 1);
      PascalStep(n, k, Binomial(n - 1, k - 1), Binomial(n - 1, k), Factorial(k - 1), Falling(n - 1, k - 1));
    }
  }

  lemma PascalStep(n: int, k: int, a: int, b: int, g: int, f: int)
    requires f == a * g && b * (k * g) == f * (n - k)
    ensures (a + b) * (k * g) == n * f
  {
    assert a * (k * g) == k * (a * g);
    assert (a + b) * (k * g) == a * (k * g) + b * (k * g);
  }

  lemma {:induction false} BinomialEdges(n: nat, k: nat)
    ensures k > n ==> Binomial(n, k) == 0
    ensures k == n ==> Binomial(n, k) == 1
    ensures k <= n ==> Binomial(n, k) >= 1
    ensures k == 1 ==> Binomial(n, k) == n
  {
    if n > 0 && k > 0 {
      BinomialEdges(n - 1, k - 1);
      BinomialEdges(n - 1, k);
    }
  }

  /** A falling product only grows with either argument, as long as it stays within range. */
  lemma {:induction false} FallingMonotone(m: nat, j: nat, n: nat, k: nat)
    requires m <= n && j <= k <= n
    ensures Falling(m, j) <= Falling(n, k)
    decreases k
  {
    FallingSign(n, k);
    if k > 0 {
      if j == k {
        FallingMonotone(m, j - 1, n, k - 1);
        FallingSign(m, j - 1);
        FallingSign(m, j);
        if j <= m {
          MulMonotone(Falling(m, j - 1), Falling(n, k - 1), m - j + 1, n - k + 1);
        }
      } else {
        FallingMonotone(m, j, n, k - 1);
        FallingSign(n, k - 1);
        MulMonotone(Falling(n, k - 1), Falling(n, k - 1), 1, n - k + 1);
      }
    }
  }

  // ----- multiplying downwards with wrap-around, as both iterators do

  lemma CounterStep(exact: int, r: nat)
    requires r < 0x100 && 1 <= exact + r <= 0x200
    ensures Wrap32(Wrap32(exact) - 1) == Wrap32(exact - 1)
    ensures Wrap32(Wrap32(exact - 1) + r) == exact - 1 + r
  {
  }

  lemma CountStep(n: nat, taken: nat, i: u32)
    requires n < 0x100 && taken < 0x100 && i == Wrap32(n - taken)
    ensures Wrap64(Wrap64(Falling(n, taken)) * i) == Wrap64(Falling(n, taken + 1))
  {
    WrapProduct(Falling(n, taken), i);
    FallingSign(n, taken);
    if taken <= n {
      assert i == n - taken;
    }
  }

  /**
   * The multiplying loop both iterators count with. Its counter and its product wrap around; taking more factors
   * than there are sends the counter through zero, and the product is zero from there on.
   */
  method MultiplyDown(n: u8, r: u8) returns (count: u64)
    ensures count == Wrap64(Falling(n, r))
  {
    count := 1;
    var i: u32 := n;
    ghost var taken: nat := 0;
    while Wrap32(i + r) > n
      invariant taken <= r && i == Wrap32(n - taken) && Wrap32(i + r) == n + r - taken
      invariant count == Wrap64(Falling(n, taken))
      decreases r - taken
    {
      CountStep(n, taken, i);
      count := Wrap64(count * i);
      CounterStep(n - taken, r);
      i := Wrap32(i - 1);
      taken := taken + 1;
    }
  }
}
