/** The C++ sieve: sieve_of_eratosthenes in CppPrimes.cpp. */
module CppPrimes {
  import opened Sieve

  /**
   * All primes not exceeding n. The first loop appends each still-marked
   * i up to (int)sqrt(n) and clears its multiples; the second loop appends
   * the marked indices from (int)sqrt(n) + 1 to n.
   */
  method SieveOfEratosthenes(n: nat) returns (primes: seq<int>)
    ensures primes == PrimesUpTo(n)
  {
    var a, b;
    a, b, primes := SieveUpToRoot(n);
    IsqrtBounds(n);
    primes := AppendMarked(a, Isqrt(n) + 1, primes);
    SieveResult(n, b, true, Isqrt(n) + 1);
  }

  /**
   * The first loop, over i from 2 to (int)sqrt(n): a still-marked i is
   * appended to the list and then clears its multiples from i * i on. On
   * exit every d below b = max(2, (int)sqrt(n) + 1) has had its turn.
   */
  method SieveUpToRoot(n: nat) returns (a: array<bool>, b: int, primes: seq<int>)
    ensures fresh(a) && b >= Isqrt(n) + 1 && a[..] == Marks(n, b, true)
    ensures primes == PrimesUpTo(Isqrt(n))
  {
    primes := [];
    a := new bool[n + 1](_ => true);
    InitialMarks(a[..], n, true);
    var s := Isqrt(n);
    var i := 2;
    while i <= s
      invariant 2 <= i && (i <= s + 1 || i == 2)
      invariant a[..] == Marks(n, i, true)
      invariant primes == PrimesUpTo(i - 1)
    {
      RoundInRange(i, n);
      NextPrimes(n, i);
      ghost var before := a[..];
      if a[i] {
        primes := primes + [i];
        ClearMultiples(a, i);
      }
      RoundKeepsMarks(before, a[..], n, i, true);
      i := i + 1;
    }
    b := i;
    assert primes == PrimesUpTo(s) by {
      if s < 2 {
        assert PrimesUpTo(1) == [] && PrimesUpTo(0) == [];
      }
    }
  }

  /**
   * The second loop: appends, in ascending order, every index from `from`
   * to the end of a whose entry is still marked.
   */
  method AppendMarked(a: array<bool>, from: nat, primes: seq<int>) returns (r: seq<int>)
    requires from <= a.Length
    ensures r == primes + TrueIndices(a[..], from)
  {
    r := primes;
    var i := from;
    while i < a.Length
      invariant from <= i <= a.Length
      invariant r == primes + TrueIndices(a[..i], from)
    {
      assert a[..i + 1][..i] == a[..i];
      if a[i] {
        r := r + [i];
      }
      i := i + 1;
    }
    assert a[..i] == a[..];
  }
}
