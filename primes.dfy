/**
 * The local compute step of prime_number_search.cpp: the trial-division test
 * `is_prime` (lines 15-25) and the range scan `find_primes_ranged` (lines 27-37).
 */
module PrimeSearch {
  import opened Arith
  import opened Seqs

  predicate Divides(d: nat, n: nat)
    requires d > 0
  {
    n % d == 0
  }

  /** n is prime: at least 2 and without a divisor in [2, n). */
  ghost predicate Prime(n: nat)
  {
    n >= 2 && forall d :: 2 <= d < n ==> !Divides(d, n)
  }

  /**
   * The condition `is_prime` tests: n >= 2 and no i with 2 <= i and i * i <= n
   * divides n (the source bounds i by a floating-point square root).
   */
  ghost predicate TrialDivisionPrime(n: nat)
  {
    n >= 2 && forall i :: 2 <= i && i * i <= n ==> !Divides(i, n)
  }

  lemma SquareMono(a: nat, b: nat)
    requires a <= b
    ensures a * a <= b * b
  {
    assert b * b == a * a + (b - a) * (a + b);
  }

  /** If d * e == n and d is above the square root of n, then e is at least 2 and at most the square root. */
  lemma CofactorBounds(n: nat, d: nat, e: nat)
    requires n == d * e && 2 <= d < n && d * d > n
    ensures 2 <= e && e * e <= n
  {
    assert e < d;
    assert e >= 2;
    assert e * e <= d * e by { MulLeMono(e, d, e); }
  }

  lemma MultipleMod(e: nat, d: nat)
    requires e > 0
    ensures (e * d) % e == 0
  {
    var q, r := (e * d) / e, (e * d) % e;
    assert e * d == e * q + r && 0 <= r < e;
    assert e * (d - q) == r;
    if d - q > 0 { MulLeMono(1, d - q, e); }
    else if d - q < 0 { MulLeMono(1, q - d, e); }
  }

  /** A divisor d of n above the square root has a cofactor that is a divisor at most the square root. */
  lemma Cofactor(n: nat, d: nat)
    requires 2 <= d < n && n % d == 0 && d * d > n
    ensures 2 <= n / d && (n / d) * (n / d) <= n && n % (n / d) == 0
  {
    var e := n / d;
    assert n == d * e by { assert n == d * (n / d) + n % d; }
    CofactorBounds(n, d, e);
    MultipleMod(e, d);
    assert e * d == n;
  }

  /** A trial divisor i with i * i <= n is below n. */
  lemma TrialBelow(n: nat, i: nat)
    requires 2 <= i && i * i <= n
    ensures i < n
  {
    assert i * i == i + (i - 1) * i;
  }

  /** Testing divisors up to the square root decides primality. */
  lemma TrialDivisionCorrect(n: nat)
    ensures TrialDivisionPrime(n) <==> Prime(n)
  {
    if Prime(n) {
      forall i | 2 <= i && i * i <= n ensures !Divides(i, n) {
        TrialBelow(n, i);
      }
    }
    if TrialDivisionPrime(n) && !Prime(n) {
      var d :| 2 <= d < n && Divides(d, n);
      if d * d > n {
        Cofactor(n, d);
        assert Divides(n / d, n);
      }
    }
  }

  /** `is_prime`: counts candidate divisors upward from 2 and stops at the first that divides n. */
  method IsPrime(n: nat) returns (b: bool)
    ensures b == TrialDivisionPrime(n)
    ensures b == Prime(n)
  {
    TrialDivisionCorrect(n);
    if n < 2 {
      return false;
    }
    var i := 2;
    while i * i <= n
      invariant 2 <= i
      invariant forall j :: 2 <= j < i ==> !Divides(j, n)
      decreases n - i
    {
      TrialBelow(n, i);
      if n % i == 0 {
        assert Divides(i, n);
        return false;
      }
      i := i + 1;
    }
    forall j | 2 <= j && j * j <= n ensures !Divides(j, n) {
      if j >= i { SquareMono(i, j); }
    }
    return true;
  }

  /** The primes of [lo, hi) in ascending order; empty when lo >= hi. */
  ghost function PrimesIn(lo: nat, hi: nat): seq<nat>
  {
    if lo >= hi then [] else PrimesIn(lo, hi - 1) + (if Prime(hi - 1) then [hi - 1] else [])
  }

  /** A number occurs in the scan of [lo, hi) exactly when it is a prime of [lo, hi). */
  lemma {:induction false} PrimesInMembership(lo: nat, hi: nat, x: nat)
    ensures x in PrimesIn(lo, hi) <==> lo <= x < hi && Prime(x)
  {
    if lo < hi {
      PrimesInMembership(lo, hi - 1, x);
    }
  }

  /** The scan lists its primes strictly ascending. */
  lemma {:induction false} PrimesInAscending(lo: nat, hi: nat)
    ensures StrictlyAscending(PrimesIn(lo, hi))
  {
    if lo < hi {
      PrimesInAscending(lo, hi - 1);
      if Prime(hi - 1) {
        var prev := PrimesIn(lo, hi - 1);
        forall i | 0 <= i < |prev| ensures prev[i] < hi - 1 {
          PrimesInMembership(lo, hi - 1, prev[i]);
        }
        StrictlyAscendingAppend(PrimesIn(lo, hi - 1), [hi - 1]);
      }
    }
  }

  /** Every element of the scan of [lo, hi) lies in [lo, hi). */
  lemma PrimesInBounds(lo: nat, hi: nat)
    ensures forall i :: 0 <= i < |PrimesIn(lo, hi)| ==> lo <= PrimesIn(lo, hi)[i] < hi
  {
    forall i | 0 <= i < |PrimesIn(lo, hi)| ensures lo <= PrimesIn(lo, hi)[i] < hi {
      PrimesInMembership(lo, hi, PrimesIn(lo, hi)[i]);
    }
  }

  /** Scanning [a, b) and then [b, c) finds the primes of [a, c). */
  lemma {:induction false} PrimesInSplit(a: nat, b: nat, c: nat)
    requires a <= b <= c
    ensures PrimesIn(a, c) == PrimesIn(a, b) + PrimesIn(b, c)
  {
    if b < c {
      PrimesInSplit(a, b, c - 1);
    }
  }

  /** The scan of [lo, hi) finds at most hi - lo numbers. */
  lemma {:induction false} PrimesInLength(lo: nat, hi: nat)
    requires lo <= hi
    ensures |PrimesIn(lo, hi)| <= hi - lo
  {
    if lo < hi {
      PrimesInLength(lo, hi - 1);
    }
  }

  /** `find_primes_ranged`: tests every n of [start, end) in increasing order, appending the primes. */
  method FindPrimesRanged(start: nat, end: nat) returns (ps: seq<nat>)
    ensures ps == PrimesIn(start, end)
    ensures StrictlyAscending(ps)
    ensures forall x: nat :: x in ps <==> start <= x < end && Prime(x)
    ensures start >= end ==> ps == []
  {
    ps := [];
    var n := start;
    while n < end
      invariant n == start || start <= n <= end
      invariant ps == PrimesIn(start, n)
    {
      var b := IsPrime(n);
      if b {
        ps := ps + [n];
      }
      n := n + 1;
    }
    assert start >= end ==> PrimesIn(start, end) == [] == PrimesIn(start, start);
    PrimesInFacts(start, end);
  }

  /** What the scan promises: ascending, exactly the primes of [start, end), empty when start >= end. */
  lemma PrimesInFacts(start: nat, end: nat)
    ensures StrictlyAscending(PrimesIn(start, end))
    ensures forall x: nat :: x in PrimesIn(start, end) <==> start <= x < end && Prime(x)
    ensures start >= end ==> PrimesIn(start, end) == []
  {
    PrimesInAscending(start, end);
    forall x: nat ensures x in PrimesIn(start, end) <==> start <= x < end && Prime(x) {
      PrimesInMembership(start, end, x);
    }
  }
}
