/** The closing comparison of TimingPrimes.py. */
module TimingPrimes {
  import Primes
  import NumpyPrimes
  import CppPrimes

  /**
   * Computes the list-based result once and compares the C++ and NumPy
   * results with it element by element; both comparisons come out true.
   */
  method ResultsAgree(n: nat) returns (cppAgrees: bool, numpyAgrees: bool)
    ensures cppAgrees && numpyAgrees
  {
    var primes := Primes.SieveOfEratosthenes(n);
    var fromCpp := CppPrimes.SieveOfEratosthenes(n);
    var fromNumpy := NumpyPrimes.SieveOfEratosthenesNp(n);
    cppAgrees := primes == fromCpp;
    numpyAgrees := primes == fromNumpy;
  }
}
