/** Facts about Euclidean division used by the toroidal grid and the sieves. */
module Arith {

  /** Euclidean remainder is determined by any quotient/remainder pair. */
  lemma ModUnique(x: int, m: int, q: int, r: int)
    requires m > 0 && 0 <= r < m && x == q * m + r
    ensures x % m == r && x / m == q
  {
    var q', r' := x / m, x % m;
    assert x == q' * m + r';
    assert (q - q') * m == r' - r;
    if q > q' {
      MulAtLeast(q - q', m);
    } else if q < q' {
      MulAtLeast(q' - q, m);
    }
  }

  lemma MulAtLeast(a: int, m: int)
    requires a >= 1 && m > 0
    ensures a * m >= m
  {
  }

  /** Adding a multiple of the modulus does not change the remainder. */
  lemma ModAddMultiple(z: int, q: int, m: int)
    requires m > 0
    ensures (z + q * m) % m == z % m
  {
    assert z + q * m == (z / m + q) * m + z % m;
    ModUnique(z + q * m, m, z / m + q, z % m);
  }

  /** Reducing an operand first does not change the remainder of a sum. */
  lemma ModShift(x: int, y: int, m: int)
    requires m > 0
    ensures (x % m + y) % m == (x + y) % m
  {
    assert x % m + y == (x + y) + (-(x / m)) * m;
    ModAddMultiple(x + y, -(x / m), m);
  }

  /** A multiple of a multiple of d is a multiple of d. */
  lemma DividesTrans(k: int, i: int, d: int)
    requires d > 0 && i > 0 && k % i == 0 && i % d == 0
    ensures k % d == 0
  {
    var a, b := k / i, i / d;
    assert k == a * i;
    assert i == b * d;
    assert k == (a * b) * d;
    ModUnique(k, d, a * b, 0);
  }

  /** Between two consecutive multiples of i nothing is a multiple of i. */
  lemma NoMultipleBetween(j: int, k: int, i: int)
    requires i > 0 && j % i == 0 && j < k < j + i
    ensures k % i != 0
  {
    assert k == (j / i) * i + (k - j);
    ModUnique(k, i, j / i, k - j);
  }

  lemma MulMono(a: int, b: int, c: int)
    requires 0 <= a <= b && c >= 0
    ensures a * c <= b * c
  {
  }
}
