/** Facts about Euclidean division that the check-value proofs rely on. Every
    quantity the engine divides is non-negative, so Euclidean division agrees
    with Ruby's floored `/` and `%` on all of them. */
module Arith {

  lemma MulAtLeast(d: int, m: int)
    requires d >= 1 && m > 0
    ensures d * m >= m
  {
    assert d * m == (d - 1) * m + m;
  }

  /** Quotient and remainder are determined by any decomposition
      x == q * m + r with 0 <= r < m. */
  lemma DivModUnique(x: int, m: int, q: int, r: int)
    requires m > 0 && 0 <= r < m && x == q * m + r
    ensures x / m == q && x % m == r
  {
    var q0 := x / m;
    assert x == q0 * m + x % m;
    assert (q - q0) * m == x % m - r;
    if q > q0 {
      MulAtLeast(q - q0, m);
    } else if q < q0 {
      MulAtLeast(q0 - q, m);
    }
  }

  lemma ModAddMultiple(x: int, q: int, m: int)
    requires m > 0
    ensures (x + q * m) % m == x % m
  {
    assert x + q * m == (x / m + q) * m + x % m;
    DivModUnique(x + q * m, m, x / m + q, x % m);
  }

  lemma ModAddLeft(x: int, y: int, m: int)
    requires m > 0
    ensures (x % m + y) % m == (x + y) % m
  {
    assert x + y == (x % m + y) + (x / m) * m;
    ModAddMultiple(x % m + y, x / m, m);
  }

  lemma ModMulLeft(x: int, y: int, m: int)
    requires m > 0
    ensures ((x % m) * y) % m == (x * y) % m
  {
    assert x * y == ((x / m) * m + x % m) * y;
    assert x * y == (x % m) * y + ((x / m) * y) * m;
    ModAddMultiple((x % m) * y, (x / m) * y, m);
  }

  /** The two digits base m of a number below m * m. */
  lemma TwoDigits(k: nat, m: int)
    requires m > 0
    ensures (k - k % m) / m == k / m
    ensures (k / m) * m + k % m == k
    ensures k < m * m ==> k / m < m
  {
    DivModUnique(k - k % m, m, k / m, 0);
    if k / m >= m {
      MulAtLeast(k / m - m + 1, m);
      assert (k / m) * m == (k / m - m) * m + m * m;
      MulNonNegative(k / m - m, m);
    }
  }

  lemma MulNonNegative(a: int, b: int)
    requires a >= 0 && b >= 0
    ensures a * b >= 0
  {
  }

  /** Numbers with the same residue differ by a multiple of the modulus. */
  lemma ModEqualDiff(a: int, b: int, m: int)
    requires m > 0 && a % m == b % m
    ensures (a - b) % m == 0
  {
    assert a == (a / m) * m + a % m;
    assert b == (b / m) * m + b % m;
    assert a - b == (a / m - b / m) * m;
    DivModUnique(a - b, m, a / m - b / m, 0);
  }

  /** A non-zero number strictly between -m and m is no multiple of m. */
  lemma SmallNonMultiple(x: int, m: int)
    requires m > 0 && -m < x < m && x != 0
    ensures x % m != 0
  {
    if x > 0 {
      DivModUnique(x, m, 0, x);
    } else {
      DivModUnique(x, m, -1, x + m);
    }
  }

  /** With an inverse of r modulo m, a multiple of m divided by r is still
      a multiple of m. */
  lemma Cancel(y: int, r: int, inverse: int, m: int)
    requires m > 0 && (r * inverse) % m == 1 && (y * r) % m == 0
    ensures y % m == 0
  {
    var a, b := r * inverse, y * r;
    ModMulLeft(a, y, m);
    ModMulLeft(b, inverse, m);
    assert a * y == b * inverse;
    assert (a % m) * y == y;
    assert (b % m) * inverse == 0;
  }
}
