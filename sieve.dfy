/**
 * What the three sieve implementations share: primality, the list of primes
 * up to n that each must return, the integer square root bound, the loop
 * that clears the multiples i*i, i*i + i, ... of one i, and the indices of
 * the entries left marked.
 */
module Sieve {
  import Arith

  /** k is a prime: at least 2 and without a divisor strictly between 1 and k. */
  predicate IsPrime(k: int)
  {
    k >= 2 && forall d :: 2 <= d < k ==> k % d != 0
  }

  /** Strictly ascending. */
  predicate Increasing(s: seq<int>)
  {
    forall i, j :: 0 <= i < j < |s| ==> s[i] < s[j]
  }

  /** Reference result: all primes not exceeding n, in ascending order. */
  function PrimesUpTo(n: int): seq<int>
    decreases n
  {
    if n < 2 then [] else PrimesUpTo(n - 1) + (if IsPrime(n) then [n] else [])
  }

  /** PrimesUpTo(n) holds every prime from 2 to n and nothing else, ascending. */
  lemma {:induction false} PrimesUpToContents(n: int)
    ensures forall p :: p in PrimesUpTo(n) <==> 2 <= p <= n && IsPrime(p)
    ensures Increasing(PrimesUpTo(n))
    decreases n
  {
    if n >= 2 {
      PrimesUpToContents(n - 1);
      if IsPrime(n) {
        AppendLarger(PrimesUpTo(n - 1), n);
      }
    }
  }

  /** int(sqrt(n)): the largest s with s * s <= n. */
  function Isqrt(n: nat): (s: nat)
    ensures s * s <= n < (s + 1) * (s + 1)
  {
    if n == 0 then 0
    else
      var t := Isqrt(n - 1);
      if (t + 1) * (t + 1) <= n then
        assert n == (t + 1) * (t + 1);
        assert (t + 2) * (t + 2) == n + 2 * t + 3;
        t + 1
      else t
  }

  /**
   * [i for i in range(lo, len(a)) if a[i]]: the indices from lo on whose
   * entry is still marked, in ascending order.
   */
  function TrueIndices(a: seq<bool>, lo: nat): seq<int>
    decreases |a|
  {
    if |a| <= lo then []
    else TrueIndices(a[..|a| - 1], lo) + (if a[|a| - 1] then [|a| - 1] else [])
  }

  /** TrueIndices(a, lo) holds exactly the marked indices from lo on, ascending. */
  lemma {:induction false} TrueIndicesContents(a: seq<bool>, lo: nat)
    ensures forall x :: x in TrueIndices(a, lo) <==> lo <= x < |a| && a[x]
    ensures Increasing(TrueIndices(a, lo))
    decreases |a|
  {
    if |a| > lo {
      var m := |a| - 1;
      TrueIndicesContents(a[..m], lo);
      if a[m] {
        AppendLarger(TrueIndices(a[..m], lo), m);
      }
    }
  }

  /** Appending a value above every element keeps a sequence ascending. */
  lemma AppendLarger(s: seq<int>, x: int)
    requires Increasing(s) && forall v :: v in s ==> v < x
    ensures Increasing(s + [x])
  {
    forall i, j | 0 <= i < j < |s| + 1
      ensures (s + [x])[i] < (s + [x])[j]
    {
      if j == |s| {
        assert s[i] in s;
      }
    }
  }

  // ---------------------------------------------------------------------
  // The sieve's invariant

  /** No d with 2 <= d < b and d * d <= k divides k. */
  predicate NoFactorBelow(k: int, b: int)
  {
    forall d :: 2 <= d < b && d * d <= k ==> k % d != 0
  }

  /** A number that is not prime has a divisor d with d * d <= k. */
  lemma SmallFactor(k: int) returns (d: int)
    requires k >= 2 && !IsPrime(k)
    ensures 2 <= d && d * d <= k && k % d == 0
  {
    var d0 :| 2 <= d0 < k && k % d0 == 0;
    var e := k / d0;
    assert k == e * d0;
    if e <= 1 {
      Arith.MulMono(e, 1, d0);
      assert false;
    }
    Arith.ModUnique(k, e, d0, 0);
    if d0 <= e {
      Arith.MulMono(d0, e, d0);
      d := d0;
    } else {
      Arith.MulMono(e, d0, e);
      d := e;
    }
  }

  /** A divisor d with d * d <= k is a proper divisor. */
  lemma SquareBelow(d: int, k: int)
    requires 2 <= d && d * d <= k
    ensures d < k
  {
    Arith.MulMono(2, d, d);
  }

  /** Once b * b exceeds k, having no factor below b is being prime. */
  lemma NoFactorBelowIsPrime(k: int, b: int)
    requires 2 <= k < b * b && b >= 0
    ensures NoFactorBelow(k, b) <==> IsPrime(k)
  {
    if IsPrime(k) {
      forall d | 2 <= d < b && d * d <= k
        ensures k % d != 0
      {
        SquareBelow(d, k);
      }
    } else {
      var d := SmallFactor(k);
      if d >= b {
        Arith.MulMono(b, d, b);
        Arith.MulMono(b, d, d);
      }
      assert !NoFactorBelow(k, b);
    }
  }

  /** At the outer loop's test, an index i that is still marked is a prime. */
  lemma MarkedRoundIsPrime(i: int)
    requires i >= 2
    ensures NoFactorBelow(i, i) <==> IsPrime(i)
  {
    Arith.MulMono(2, i, i);
    NoFactorBelowIsPrime(i, i);
  }

  /** Every index the outer loop visits is an index of the array. */
  lemma RoundInRange(i: int, n: nat)
    requires 2 <= i <= Isqrt(n)
    ensures i <= n
  {
    Arith.MulMono(1, i, i);
    Arith.MulMono(i, Isqrt(n), i);
    Arith.MulMono(i, Isqrt(n), Isqrt(n));
  }

  /** The loop bound int(sqrt(n)) does not exceed n, and is positive when n is. */
  lemma IsqrtBounds(n: nat)
    ensures Isqrt(n) <= n
    ensures n >= 1 ==> Isqrt(n) >= 1
  {
    var s := Isqrt(n);
    if s >= 1 {
      Arith.MulMono(1, s, s);
    } else {
      assert (s + 1) * (s + 1) == 1;
    }
  }

  /** Once the outer loop is past int(sqrt(n)), the marks up to n are exactly the primes. */
  lemma SieveDone(k: int, i: int, n: nat)
    requires 2 <= k <= n && i >= Isqrt(n) + 1
    ensures NoFactorBelow(k, i) <==> IsPrime(k)
  {
    var s := Isqrt(n);
    Arith.MulMono(s + 1, i, s + 1);
    Arith.MulMono(s + 1, i, i);
    assert n < (s + 1) * (s + 1) <= (s + 1) * i <= i * i;
    NoFactorBelowIsPrime(k, i);
  }

  /**
   * One round of the outer loop. When i is prime the round removes exactly
   * the multiples of i from i * i on; when i is not prime those numbers
   * already have a smaller factor, so the round changes nothing.
   */
  lemma SieveRound(k: int, i: int)
    requires 2 <= i && 2 <= k
    ensures NoFactorBelow(k, i + 1) == (NoFactorBelow(k, i) && !(i * i <= k && k % i == 0))
    ensures !IsPrime(i) ==> NoFactorBelow(k, i + 1) == NoFactorBelow(k, i)
  {
    if !IsPrime(i) && NoFactorBelow(k, i) && i * i <= k && k % i == 0 {
      var d := SmallFactor(i);
      SquareBelow(d, i);
      Arith.DividesTrans(k, i, d);
      Arith.MulMono(1, i, i);
      assert false;
    }
  }

  /**
   * The marks the outer loop keeps once every d below b has had its turn:
   * entry k >= 2 is set while no such d with d * d <= k divides k, and the
   * entries 0 and 1 hold `low` (left set by the list and C++ versions,
   * cleared by the NumPy version).
   */
  ghost function Marks(n: nat, b: int, low: bool): (m: seq<bool>)
    ensures |m| == n + 1
  {
    seq(n + 1, k => if k < 2 then low else NoFactorBelow(k, b))
  }

  /** Before the first round nothing from 2 on has been cleared. */
  lemma InitialMarks(m: seq<bool>, n: nat, low: bool)
    requires |m| == n + 1
    requires forall k :: 0 <= k <= n ==> m[k] == (k >= 2 || low)
    ensures m == Marks(n, 2, low)
  {
    assert forall k :: 0 <= k <= n ==> m[k] == Marks(n, 2, low)[k];
  }

  /**
   * One whole round of the outer loop, on the marks: the round clears the
   * multiples of i from i * i on exactly when i is still marked, and that
   * takes the marks for b = i to the marks for b = i + 1.
   */
  lemma RoundKeepsMarks(before: seq<bool>, after: seq<bool>, n: nat, i: int, low: bool)
    requires 2 <= i <= n && before == Marks(n, i, low) && |after| == n + 1
    requires forall k :: 0 <= k <= n ==>
      after[k] == (before[k] && !(before[i] && i * i <= k && k % i == 0))
    ensures after == Marks(n, i + 1, low)
  {
    MarkedRoundIsPrime(i);
    Arith.MulMono(2, i, i);
    forall k | 0 <= k <= n
      ensures after[k] == Marks(n, i + 1, low)[k]
    {
      if k >= 2 {
        SieveRound(k, i);
      }
    }
  }

  /**
   * The entries from lo on say which numbers are prime, so the marked
   * indices from lo on complete the primes below lo to the primes up to
   * the last index.
   */
  lemma {:induction false} MarkedArePrimes(a: seq<bool>, lo: nat)
    requires lo <= |a| || lo <= 2
    requires forall k :: lo <= k < |a| ==> a[k] == IsPrime(k)
    ensures PrimesUpTo(lo - 1) + TrueIndices(a, lo) == PrimesUpTo(|a| - 1)
    decreases |a|
  {
    if |a| > lo {
      var m := |a| - 1;
      var tail := if a[m] then [m] else [];
      MarkedArePrimes(a[..m], lo);
      assert TrueIndices(a, lo) == TrueIndices(a[..m], lo) + tail;
      assert a[m] == IsPrime(m);
      if m < 2 {
        assert tail == [] && PrimesUpTo(m) == [] == PrimesUpTo(m - 1);
      } else {
        assert PrimesUpTo(m) == PrimesUpTo(m - 1) + tail;
      }
      var below := PrimesUpTo(lo - 1);
      var before := TrueIndices(a[..m], lo);
      assert below + before == PrimesUpTo(m - 1);
      assert below + (before + tail) == (below + before) + tail;
    } else {
      assert TrueIndices(a, lo) == [];
    }
  }

  /** What the inner loop clears is never a prime: it is a multiple of i beyond i. */
  lemma ClearedAreComposite(i: int, k: int)
    requires i >= 2 && i * i <= k && k % i == 0
    ensures !IsPrime(k)
  {
    SquareBelow(i, k);
  }

  /**
   * The C++ first loop appends i exactly when i is still marked at its
   * turn, which keeps the list equal to the primes up to i.
   */
  lemma NextPrimes(n: nat, i: int)
    requires 2 <= i <= n
    ensures PrimesUpTo(i) == PrimesUpTo(i - 1) + (if Marks(n, i, true)[i] then [i] else [])
  {
    MarkedRoundIsPrime(i);
  }

  /**
   * After the outer loop (i past int(sqrt(n))), the marked indices from lo
   * on are the primes from lo to n.
   */
  lemma SieveResult(n: nat, i: int, low: bool, lo: nat)
    requires i >= Isqrt(n) + 1
    requires lo <= n + 1 || lo <= 2
    requires lo < 2 && lo <= n ==> !low
    ensures PrimesUpTo(lo - 1) + TrueIndices(Marks(n, i, low), lo) == PrimesUpTo(n)
  {
    var m := Marks(n, i, low);
    forall k | lo <= k < |m|
      ensures m[k] == IsPrime(k)
    {
      if k >= 2 {
        SieveDone(k, i, n);
      }
    }
    MarkedArePrimes(m, lo);
  }

  // ---------------------------------------------------------------------
  // The inner loop

  /**
   * for j in range(i*i, n+1, i): A[j] = False, where n + 1 is the length
   * of a. Exactly the multiples of i from i * i on are cleared.
   */
  method ClearMultiples(a: array<bool>, i: nat)
    requires i >= 1
    modifies a
    ensures forall k :: 0 <= k < a.Length ==>
      a[k] == (old(a[k]) && !(i * i <= k && k % i == 0))
  {
    var j := i * i;
    Arith.ModUnique(j, i, i, 0);
    while j < a.Length
      invariant i * i <= j && j % i == 0
      invariant forall k :: 0 <= k < a.Length ==>
        a[k] == (old(a[k]) && !(i * i <= k < j && k % i == 0))
      decreases a.Length - j
    {
      a[j] := false;
      forall k | j < k < j + i
        ensures k % i != 0
      {
        Arith.NoMultipleBetween(j, k, i);
      }
      Arith.ModAddMultiple(j, 1, i);
      j := j + i;
    }
  }
}
