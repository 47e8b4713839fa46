/**
 Small facts about integer multiplication and Euclidean remainder that the
 solver does not find on its own.
 */
module Arith {

  /** A product of two non-negative factors is non-negative. */
  lemma MulNonneg(a: int, b: int)
    requires a >= 0 && b >= 0
    ensures a * b >= 0
  {
  }

  /** A product with a positive factor of at least one is at least the
      other factor. */
  lemma MulAtLeast(k: int, m: int)
    requires k >= 1 && m > 0
    ensures k * m >= m
  {
  }

  /** Euclidean division is unique: a quotient and a remainder in
      `[0, m)` that rebuild `a` are `a / m` and `a % m`. */
  lemma ModUnique(a: int, m: int, q: int, r: int)
    requires m > 0 && 0 <= r < m && a == q * m + r
    ensures a % m == r && a / m == q
  {
    var q0 := a / m;
    var r0 := a % m;
    assert a == q0 * m + r0;
    assert (q - q0) * m == r0 - r;
    if q > q0 {
      MulAtLeast(q - q0, m);
    } else if q < q0 {
      MulAtLeast(q0 - q, m);
    }
  }

  /** The remainder of a number below twice the modulus subtracts the
      modulus at most once. */
  lemma ModSmall(a: int, m: int)
    requires m > 0 && 0 <= a < 2 * m
    ensures a % m == if a < m then a else a - m
  {
    if a < m {
      ModUnique(a, m, 0, a);
    } else {
      ModUnique(a, m, 1, a - m);
    }
  }

  /** Position `x * n + y` lies within the first `m` blocks of `n`. */
  lemma PositionBound(m: int, n: int, x: int, y: int)
    requires 0 <= x < m && 0 <= y < n
    ensures x * n + y < m * n
  {
    assert x * n + y < x * n + n == (x + 1) * n;
    if x + 1 < m {
      MulAtLeast(m - (x + 1), n);
      assert m * n - (x + 1) * n == (m - (x + 1)) * n;
    }
  }

  /** A number below `m * n` has quotient by `n` in `[0, m)`. */
  lemma DivBelow(i: int, m: int, n: int)
    requires n > 0 && 0 <= i < m * n
    ensures 0 <= i / n < m
    ensures 0 <= i % n < n
  {
    var q := i / n;
    assert i == q * n + i % n;
    if q < 0 {
      MulAtLeast(-q, n);
    } else if q >= m {
      MulNonneg(q - m, n);
    }
  }
}
