/** The list-based sieve: sieve_of_eratosthenes in Primes.py. */
module Primes {
  import opened Sieve

  /**
   * All primes not exceeding n, where n is the argument after int().
   * A holds n + 1 marks, all initially set; each i from 2 to int(sqrt(n))
   * that is still marked clears its multiples from i * i on; the result
   * lists the marked indices from 2 to n.
   */
  method SieveOfEratosthenes(n: nat) returns (primes: seq<int>)
    ensures primes == PrimesUpTo(n)
  {
    var a := new bool[n + 1](_ => true);
    InitialMarks(a[..], n, true);
    var s := Isqrt(n);
    var i := 2;
    while i <= s
      invariant 2 <= i && (i <= s + 1 || i == 2)
      invariant a[..] == Marks(n, i, true)
    {
      RoundInRange(i, n);
      ghost var before := a[..];
      if a[i] {
        ClearMultiples(a, i);
      }
      RoundKeepsMarks(before, a[..], n, i, true);
      i := i + 1;
    }
    primes := TrueIndices(a[..], 2);
    SieveResult(n, i, true, 2);
  }
}
