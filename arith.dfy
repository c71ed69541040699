/** Integer facts about quotients that the frame size bounds and the
    average bitrate rest on. */
module Arith {

  /** `q` is at most the quotient when `q` divisors fit in `x`. */
  lemma DivAtLeast(x: nat, d: nat, q: nat)
    requires 0 < d && q * d <= x
    ensures q <= x / d
  {
    if x / d < q {
      MulMonotonic(x / d + 1, q, d);
      assert false;
    }
  }

  /** `q` bounds the quotient from above when `x` is below `q + 1` divisors. */
  lemma DivAtMost(x: nat, d: nat, q: nat)
    requires 0 < d && x < (q + 1) * d
    ensures x / d <= q
  {
    if x / d > q {
      MulMonotonic(q + 1, x / d, d);
      assert false;
    }
  }

  lemma MulMonotonic(a: nat, b: nat, d: nat)
    requires a <= b
    ensures a * d <= b * d
  {
    assert b * d == a * d + (b - a) * d;
  }

  /** The product of two naturals, as a natural. */
  function Product(a: nat, b: nat): (p: nat)
  {
    a * b
  }

  /** The quotient of two naturals, as a natural. */
  function Quotient(a: nat, b: nat): (q: nat)
    requires b > 0
  {
    a / b
  }

  /** One more copy of `a`. */
  lemma MulSucc(a: nat, n: nat)
    ensures a * (n + 1) == a * n + a
  {
  }

  /** A total of `n` values each between `lo` and `hi` has a quotient by `n`
      between `lo` and `hi`. */
  lemma QuotientBetween(total: nat, n: nat, lo: nat, hi: nat)
    requires 0 < n && lo * n <= total <= hi * n
    ensures lo <= total / n <= hi
  {
    DivAtLeast(total, n, lo);
    MulMonotonic(hi, hi + 1, n);
    DivAtMost(total, n, hi);
  }
}
