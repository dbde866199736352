/** Facts about products, quotients and remainders that the solver needs spelled out. */
module Arithmetic {

  ghost predicate Divides(d: nat, x: int) {
    d > 0 && x % d == 0
  }

  lemma MulMonotone(a: int, b: int, c: int, d: int)
    requires 0 <= a <= b && 0 <= c <= d
    ensures a * c <= b * d
  {
    assert a * c <= b * c;
    assert b * c <= b * d;
  }

  lemma MulAssociative(a: int, b: int, c: int)
    ensures (a * b) * c == a * (b * c)
  {
  }

  lemma DivideAndMultiply(x: nat, d: nat)
    requires d > 0
    ensures x == x / d * d + x % d
    ensures 0 <= x / d * d <= x < x / d * d + d
  {
  }

  /** Products with a common factor compare like the other factors. */
  lemma ProductOrder(k: int, q: int, d: nat)
    requires d > 0 && k * d < q * d
    ensures k < q && k * d + d <= q * d
  {
    assert (k - q) * d == k * d - q * d;
    assert (q - k - 1) * d == q * d - k * d - d;
    if k >= q {
      MulMonotone(0, k - q, d, d);
    } else {
      MulMonotone(0, q - k - 1, d, d);
    }
  }

  /** Dividing with remainder is unique. */
  lemma DivisionIsUnique(x: int, q: int, r: int, d: nat)
    requires d > 0 && x == q * d + r && 0 <= r < d
    ensures x / d == q && x % d == r
  {
    var k := x / d;
    assert x == k * d + x % d;
    assert (q - k) * d == q * d - k * d;
    assert (k - q) * d == k * d - q * d;
    if k < q {
      MulMonotone(1, q - k, d, d);
    } else if q < k {
      MulMonotone(1, k - q, d, d);
    }
  }

  lemma MultipleHasNoRemainder(q: int, d: nat)
    requires d > 0
    ensures Divides(d, q * d) && (q * d) / d == q
  {
    DivisionIsUnique(q * d, q, 0, d);
  }

  lemma MultiplesAdd(a: int, b: int, d: nat)
    requires Divides(d, a) && Divides(d, b)
    ensures Divides(d, a + b) && Divides(d, a - b)
  {
    var k, l := a / d, b / d;
    assert a == k * d && b == l * d;
    assert a + b == (k + l) * d && a - b == (k - l) * d;
    MultipleHasNoRemainder(k + l, d);
    MultipleHasNoRemainder(k - l, d);
  }
}
