/** Facts about multiplication and Euclidean division on integers, used by
    the time split and the filled-cell count. */
module Arithmetic {

  lemma DivModUnique(a: nat, b: nat, q: nat, r: nat)
    requires 0 <= r < b
    requires a == q * b + r
    ensures a / b == q && a % b == r
  {
    var q', r' := a / b, a % b;
    assert (q' - q) * b == r - r';
    NoSmallMultiple(q' - q, b);
  }

  /** The only multiple of `b` strictly between `-b` and `b` is zero. */
  lemma NoSmallMultiple(k: int, b: nat)
    requires -(b as int) < k * b < b
    ensures k == 0
  {
    if k > 0 {
      MulMonotone(1, k, b);
    } else if k < 0 {
      assert (-k) * b == -(k * b);
      MulMonotone(1, -k, b);
    }
  }

  lemma MulMonotone(x: nat, y: nat, b: nat)
    requires x <= y
    ensures x * b <= y * b
  {
    assert y * b == x * b + (y - x) * b;
  }

  /** Cancelling a positive factor from both sides of `<=`. */
  lemma MulCancel(x: int, y: int, b: nat)
    requires 0 < b
    requires x * b <= y * b
    ensures x <= y
  {
    assert (y - x) * b >= 0;
    if x > y {
      MulStrict(y, x, b);
    }
  }

  lemma MulStrict(x: int, y: int, b: nat)
    requires x < y && 0 < b
    ensures x * b < y * b
  {
    assert y * b == x * b + (y - x) * b;
    MulMonotone(1, y - x, b);
  }

  /** Euclidean division by a positive number is monotone. */
  lemma DivMonotone(a: nat, c: nat, b: nat)
    requires a <= c && 0 < b
    ensures a / b <= c / b
  {
    assert (a / b) * b <= a;
    assert c < (c / b + 1) * b;
    MulCancel(a / b, c / b, b) by {
      if a / b > c / b {
        MulMonotone(c / b + 1, a / b, b);
      }
    }
  }

  /** Solver hint: Euclidean division by a positive number brackets the
      dividend (stated as a lemma so that callers can bring it into scope). */
  lemma FloorBounds(n: nat, b: int)
    requires 0 < b
    ensures 0 <= n / b && (n / b) * b <= n < (n / b + 1) * b
  {
    var q, m := n / b, n % b;
    assert n == q * b + m && 0 <= m < b;
    assert (q + 1) * b == q * b + b;
  }

  /** Solver hint: negating a factor negates the product (stated as a
      lemma so that callers can bring it into scope). */
  lemma NegMul(q: int, b: int)
    ensures (-q) * b == -(q * b)
  {
  }
}
