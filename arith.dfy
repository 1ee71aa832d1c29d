/** Facts about integer division that the solver does not find by itself. */
module Arith {

  /** Division is determined by quotient and remainder. */
  lemma DivUnique(v: int, d: int, q: int, r: int)
    requires d >= 1 && v == d * q + r && 0 <= r < d
    ensures v / d == q && v % d == r
  {
    var q', r' := v / d, v % d;
    assert d * (q' - q) == r - r';
    MultipleBound(d, q' - q);
  }

  /** A non-zero multiple of `d` is at least `d` away from zero. */
  lemma MultipleBound(d: int, k: int)
    requires d >= 1
    ensures k == 0 || d * k >= d || d * k <= -d
  {
    if k > 0 {
      PositiveMultiple(d, k);
    } else if k < 0 {
      PositiveMultiple(d, -k);
      assert d * k == -(d * -k);
    }
  }

  lemma {:induction false} PositiveMultiple(d: int, k: int)
    requires d >= 1 && k >= 1
    ensures d * k >= d
    decreases k
  {
    if k > 1 {
      PositiveMultiple(d, k - 1);
      assert d * k == d * (k - 1) + d;
    }
  }

  /** `v / n < m` whenever `v < m * n`. */
  lemma DivLessThan(v: int, n: int, m: int)
    requires v >= 0 && n >= 1 && v < m * n
    ensures 0 <= v / n < m
  {
    var q, r := v / n, v % n;
    assert v == n * q + r;
    if q >= m {
      assert n * q >= n * m by { MulMonotone(n, m, q); }
    }
  }

  lemma MulMonotone(n: int, a: int, b: int)
    requires n >= 0 && a <= b
    ensures n * a <= n * b
  {
  }
}
