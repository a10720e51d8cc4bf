/** The NumPy sieve: sieve_of_eratosthenes_np in NumpyPrimes.py. */
module NumpyPrimes {
  import opened Sieve

  /**
   * All primes not exceeding n. A starts as n + 1 ones with its first two
   * entries (as many of them as exist) cleared; the strided slice
   * assignment clears the multiples of each marked i from i * i on; the
   * result is np.nonzero(A)[0], every marked index from 0.
   */
  method SieveOfEratosthenesNp(n: nat) returns (primes: seq<int>)
    ensures primes == PrimesUpTo(n)
  {
    var a := new bool[n + 1](_ => true);
    a[0] := false;
    if n >= 1 {
      a[1] := false;
    }
    InitialMarks(a[..], n, false);
    var s := Isqrt(n);
    var i := 2;
    while i <= s
      invariant 2 <= i && (i <= s + 1 || i == 2)
      invariant a[..] == Marks(n, i, false)
    {
      RoundInRange(i, n);
      ghost var before := a[..];
      if a[i] {
        ClearMultiples(a, i);
      }
      RoundKeepsMarks(before, a[..], n, i, false);
      i := i + 1;
    }
    primes := TrueIndices(a[..], 0);
    SieveResult(n, i, false, 0);
  }
}
