/**
 * The number theory behind the incremental Sieve of Eratosthenes over odd
 * numbers: what "prime" means, which numbers the sieve has struck once it
 * has processed every candidate below some bound, and why, at the end, the
 * struck numbers are exactly the odd composites.
 */
module SieveTheory {

  /** k is prime: at least 2 and divisible by no d with 2 <= d < k. */
  ghost predicate IsPrimeNumber(k: int) {
    k >= 2 && forall d :: 2 <= d < k ==> k % d != 0
  }

  /** Candidate q strikes j: j is a multiple of q at or above q * q (where the sieve starts flipping). */
  predicate StrikesBy(q: int, j: int) {
    3 <= q && q * q <= j && j % q == 0
  }

  /** j is struck once every candidate below bound has been processed. */
  ghost predicate Struck(j: int, bound: int) {
    exists q :: q < bound && StrikesBy(q, j)
  }

  /** The odd numbers below n struck by the candidates below bound. */
  ghost function StruckBelow(n: nat, bound: int): set<nat> {
    set j: nat | j < n && j % 2 == 1 && Struck(j, bound)
  }

  /** The odd composites below n (1 is neither prime nor composite). */
  ghost function OddComposites(n: nat): set<nat> {
    set j: nat | 3 <= j < n && j % 2 == 1 && !IsPrimeNumber(j)
  }

  /** The odd multiples of p in the half-open range [lo, hi). */
  ghost function OddMultiples(p: nat, lo: int, hi: int): set<nat>
    requires p > 0
  {
    set j: nat | lo <= j < hi && j % 2 == 1 && j % p == 0
  }

  function Min(a: int, b: int): int {
    if a <= b then a else b
  }

  /** s is strictly increasing. */
  predicate Increasing(s: seq<int>) {
    forall i, j :: 0 <= i < j < |s| ==> s[i] < s[j]
  }

  /** s lists, in increasing order, all the primes up to its last element and nothing else. */
  ghost predicate FirstPrimes(s: seq<int>) {
    && |s| >= 1
    && Increasing(s)
    && (forall i :: 0 <= i < |s| ==> IsPrimeNumber(s[i]))
    && (forall q :: q <= s[|s| - 1] && IsPrimeNumber(q) ==> q in s)
  }

  // ---------------------------------------------------------------- arithmetic

  lemma MultipleMod(a: int, k: int)
    requires a > 0
    ensures (a * k) % a == 0
  {
    var x := a * k;
    var m := k - x / a;
    assert x == a * (x / a) + x % a;
    assert a * m == x % a;
    assert m >= 1 ==> a * m >= a;
    assert m <= -1 ==> a * m <= -a;
  }

  lemma DivExact(j: int, q: int)
    requires q > 0 && j % q == 0
    ensures j == q * (j / q)
  {
  }

  lemma MulLe(a: int, b: int, c: int)
    requires 0 <= a <= b && 0 <= c
    ensures a * c <= b * c
  {
  }

  lemma DividesTransitive(r: int, q: int, j: int)
    requires r > 0 && q > 0 && q % r == 0 && j % q == 0
    ensures j % r == 0
  {
    DivExact(j, q);
    DivExact(q, r);
    assert j == r * ((q / r) * (j / q));
    MultipleMod(r, (q / r) * (j / q));
  }

  /** Every divisor of an odd number is odd. */
  lemma OddDivisor(q: int, j: int)
    requires q > 0 && j % 2 == 1 && j % q == 0
    ensures q % 2 == 1
  {
    DivExact(j, q);
    if q % 2 == 0 {
      assert j == 2 * ((q / 2) * (j / q));
      MultipleMod(2, (q / 2) * (j / q));
    }
  }

  /** The square of an odd number is odd. */
  lemma OddSquare(p: int)
    requires p % 2 == 1
    ensures (p * p) % 2 == 1
  {
    var k := p / 2;
    assert p == 2 * k + 1;
    assert p * p == 2 * (2 * k * k + 2 * k) + 1;
  }

  /** Odd numbers are 2 apart. */
  lemma OddGap(a: int, b: int)
    requires a % 2 == 1 && b % 2 == 1 && a < b
    ensures a + 2 <= b
  {
  }

  /** Multiples of p are p apart. */
  lemma MultipleGap(p: int, x: int, y: int)
    requires p > 0 && x % p == 0 && y % p == 0
    ensures x < y ==> x + p <= y
  {
    DivExact(x, p);
    DivExact(y, p);
    var a, b := x / p, y / p;
    assert y - x == p * (b - a);
    assert b - a >= 1 ==> p * (b - a) >= p;
    assert b - a <= 0 ==> p * (b - a) <= 0;
  }

  /** A factor of an odd product is odd. */
  lemma OddFactor(p: int, a: int)
    requires (p * a) % 2 == 1
    ensures a % 2 == 1
  {
    if a % 2 == 0 {
      assert p * a == 2 * (p * (a / 2));
      MultipleMod(2, p * (a / 2));
    }
  }

  /** Odd multiples of p are 2 * p apart. */
  lemma OddMultipleGap(p: int, i: nat, j: nat)
    requires p > 0 && i % p == 0 && j % p == 0 && i % 2 == 1 && j % 2 == 1
    ensures i < j ==> i + 2 * p <= j
  {
    var a, b := i / p, j / p;
    DivExact(i, p);
    DivExact(j, p);
    if i < j {
      OddFactor(p, a);
      OddFactor(p, b);
      if b <= a {
        MulLe(b, a, p);
      }
      OddGap(a, b);
      MulLe(a + 2, b, p);
    }
  }

  /** Adding 2 * p to a multiple of p gives a multiple of p. */
  lemma StepMultiple(p: int, i: int)
    requires p > 0 && i % p == 0
    ensures (i + p * 2) % p == 0
  {
    DivExact(i, p);
    assert i + p * 2 == p * (i / p + 2);
    MultipleMod(p, i / p + 2);
  }

  /** The odd multiple after the odd multiple i of p is i + 2 * p: it is one, and none lies in between. */
  lemma NextOddMultiple(p: nat, i: nat)
    requires p > 0 && i % p == 0 && i % 2 == 1 && p % 2 == 1
    ensures (i + p * 2) % p == 0 && (i + p * 2) % 2 == 1
    ensures forall j: nat :: i < j < i + p * 2 && j % 2 == 1 ==> j % p != 0
  {
    StepMultiple(p, i);
    forall j: nat | i < j < i + p * 2 && j % 2 == 1
      ensures j % p != 0
    {
      if j % p == 0 {
        OddMultipleGap(p, i, j);
      }
    }
  }

  /** The square of an odd p is an odd multiple of p. */
  lemma OddSquareMultiple(p: nat)
    requires p % 2 == 1
    ensures (p * p) % p == 0 && (p * p) % 2 == 1
  {
    OddSquare(p);
    MultipleMod(p, p);
  }

  // ---------------------------------------------------------------- divisors

  /** The least divisor of k that is at least d. */
  function LeastDivisorFrom(k: int, d: int): (r: int)
    requires 2 <= d <= k
    ensures d <= r <= k && k % r == 0
    ensures forall e :: d <= e < r ==> k % e != 0
    decreases k - d
  {
    if k % d == 0 then d else LeastDivisorFrom(k, d + 1)
  }

  /** A composite k has a divisor d >= 2 with d * d <= k. */
  lemma SmallDivisor(k: int) returns (d: int)
    requires k >= 2 && !IsPrimeNumber(k)
    ensures 2 <= d && d * d <= k && k % d == 0
  {
    d := LeastDivisorFrom(k, 2);
    var w :| 2 <= w < k && k % w == 0;
    assert d <= w;
    var e := k / d;
    DivExact(k, d);
    assert e <= 1 ==> d * e <= d;
    assert 2 <= e;
    MultipleMod(e, d);
    assert k % e == 0;
    assert d <= e;
    MulLe(d, e, d);
  }

  // ---------------------------------------------------------------- the sieve invariant

  /** Nothing below 9 is struck: the first flip of any candidate is at its square. */
  lemma NothingStruckBelowNine(j: int, bound: int)
    requires j < 9
    ensures !Struck(j, bound)
  {
    forall q | 3 <= q
      ensures q * q > j
    {
      MulLe(3, q, q);
    }
  }

  /** What the sieve strikes is composite. */
  lemma StruckIsComposite(j: int, bound: int)
    requires Struck(j, bound)
    ensures 9 <= j && !IsPrimeNumber(j)
  {
    var q :| q < bound && StrikesBy(q, j);
    MulLe(3, q, q);
    assert 2 <= q < j && j % q == 0;
  }

  /** An odd composite below b * b is struck by a candidate below b. */
  lemma CompositeIsStruck(j: int, b: int)
    requires j % 2 == 1 && 3 <= j && 0 <= b && j < b * b && !IsPrimeNumber(j)
    ensures Struck(j, b)
  {
    var d := SmallDivisor(j);
    OddDivisor(d, j);
    if d >= b {
      MulLe(b, d, b);
      MulLe(b, d, d);
    }
    assert StrikesBy(d, j);
  }

  /** Below b * b, the candidates below b strike exactly the odd composites. */
  lemma StruckIffComposite(j: int, b: int)
    requires j % 2 == 1 && 3 <= j && 0 <= b && j < b * b
    ensures Struck(j, b) <==> !IsPrimeNumber(j)
  {
    if !IsPrimeNumber(j) {
      CompositeIsStruck(j, b);
    }
    if Struck(j, b) {
      StruckIsComposite(j, b);
    }
  }

  /** Once the candidates below b have been processed and b * b >= n, the struck set is the odd composites. */
  lemma SieveComplete(n: nat, b: int)
    requires 0 <= b && n <= b * b
    ensures StruckBelow(n, b) == OddComposites(n)
  {
    forall j: nat | j < n && j % 2 == 1
      ensures j in StruckBelow(n, b) <==> j in OddComposites(n)
    {
      if j < 3 {
        NothingStruckBelowNine(j, b);
      } else {
        StruckIffComposite(j, b);
      }
    }
  }

  /** Processing candidate p flips its odd multiples from p * p on: the bound moves from p to p + 1. */
  lemma StrikeNext(n: nat, p: nat)
    requires 3 <= p
    ensures StruckBelow(n, p) + OddMultiples(p, p * p, n) == StruckBelow(n, p + 1)
  {
    forall j: nat | j in StruckBelow(n, p + 1)
      ensures j in StruckBelow(n, p) || j in OddMultiples(p, p * p, n)
    {
      var q :| q < p + 1 && StrikesBy(q, j);
      if q < p {
        assert Struck(j, p);
      }
    }
    forall j: nat | j in OddMultiples(p, p * p, n)
      ensures j in StruckBelow(n, p + 1)
    {
      assert StrikesBy(p, j);
    }
  }

  /** Candidates in [lo, hi) that are already struck add nothing: their multiples are struck by their own factors. */
  lemma StruckAdvance(n: nat, lo: int, hi: int)
    requires 3 <= lo <= hi
    requires forall q: nat :: lo <= q < hi && q % 2 == 1 && q < n ==> q in StruckBelow(n, lo)
    ensures StruckBelow(n, lo) == StruckBelow(n, hi)
  {
    forall j: nat | j in StruckBelow(n, hi)
      ensures Struck(j, lo)
    {
      var q :| q < hi && StrikesBy(q, j);
      if lo <= q {
        OddDivisor(q, j);
        MulLe(1, q, q);
        assert q in StruckBelow(n, lo);
        var r :| r < lo && StrikesBy(r, q);
        DividesTransitive(r, q, j);
        assert StrikesBy(r, j);
      }
    }
  }

  /**
   * After striking with the odd p, the odd numbers from p + 2 up to hi that are
   * already struck add nothing as candidates: the struck set for bound p + 1
   * is the struck set for bound hi.
   */
  lemma SkipStruck(n: nat, p: int, hi: int, s: set<nat>)
    requires 3 <= p && p % 2 == 1 && p + 1 <= hi
    requires s == StruckBelow(n, p + 1)
    requires forall j: nat :: p + 2 <= j < hi && j % 2 == 1 ==> j in s
    ensures s == StruckBelow(n, hi)
  {
    forall q: nat | p + 1 <= q < hi && q % 2 == 1 && q < n
      ensures q in StruckBelow(n, p + 1)
    {
      OddGap(p, q);
    }
    StruckAdvance(n, p + 1, hi);
  }

  /** Adding the odd multiple i of p to the range adds exactly i: the next one is 2 * p further on. */
  lemma OddMultiplesExtend(p: nat, lo: int, i: nat, hi: int)
    requires p > 0 && i % p == 0 && i % 2 == 1 && lo <= i < hi <= i + 2 * p
    ensures OddMultiples(p, lo, hi) == OddMultiples(p, lo, i) + {i}
  {
    forall j: nat | j in OddMultiples(p, lo, hi)
      ensures j <= i
    {
      OddMultipleGap(p, i, j);
    }
  }

  // ---------------------------------------------------------------- lists of primes

  /** A strictly increasing list contained in another strictly increasing list is no longer than it. */
  lemma {:induction false} IncludedIsShorter(a: seq<int>, b: seq<int>)
    requires Increasing(a) && Increasing(b)
    requires forall x :: x in a ==> x in b
    ensures |a| <= |b|
    decreases |a|
  {
    if a != [] {
      var x := a[|a| - 1];
      assert x in a;
      var k :| 0 <= k < |b| && b[k] == x;
      var front := a[..|a| - 1];
      forall y | y in front
        ensures y in b[..k]
      {
        assert y in a;
        var m :| 0 <= m < |b| && b[m] == y;
        assert m < k;
      }
      IncludedIsShorter(front, b[..k]);
    }
  }

  /**
   * If the sieve holds the struck set for bound p + 1, where p is the last of the
   * first primes ps, and r is the first odd number after p that is not flipped,
   * then r is the next prime, and the struck set is the same for bound r.
   */
  lemma NextPrime(ps: seq<int>, n: nat, p: int, r: nat, s: set<nat>)
    requires FirstPrimes(ps) && p == ps[|ps| - 1] && p % 2 == 1 && 3 <= p
    requires p < r < n && r % 2 == 1
    requires s == StruckBelow(n, p + 1) && r !in s
    requires forall j: nat :: p < j < r && j % 2 == 1 ==> j in s
    ensures FirstPrimes(ps + [r])
    ensures s == StruckBelow(n, r)
  {
    StruckAdvance(n, p + 1, r);
    MulLe(1, r, r);
    StruckIffComposite(r, r);
    assert IsPrimeNumber(r);
    forall q | p < q < r
      ensures !IsPrimeNumber(q)
    {
      if q % 2 == 1 {
        assert q in StruckBelow(n, p + 1);
        StruckIsComposite(q, p + 1);
      } else {
        assert q % 2 == 0 && 2 < q;
      }
    }
  }

  // ---------------------------------------------------------------- primality by trial division

  /** No d' with d <= d' and d' * d' <= k divides k (checked one candidate at a time). */
  predicate NoDivisorFrom(k: nat, d: nat)
    requires d >= 2
    decreases k - d
  {
    d >= k || d * d > k || (k % d != 0 && NoDivisorFrom(k, d + 1))
  }

  lemma {:induction false} TrialDivisionSound(k: nat, d: nat)
    requires d >= 2 && NoDivisorFrom(k, d)
    ensures forall e :: d <= e && e * e <= k ==> k % e != 0
    decreases k - d
  {
    if d < k && d * d <= k {
      TrialDivisionSound(k, d + 1);
    } else {
      forall e | d <= e
        ensures e * e > k
      {
        MulLe(d, e, e);
        MulLe(d, e, d);
        MulLe(2, d, e);
      }
    }
  }

  /** Trial division by the candidates up to the square root decides primality. */
  lemma PrimeByTrial(k: nat)
    requires k >= 2 && NoDivisorFrom(k, 2)
    ensures IsPrimeNumber(k)
  {
    TrialDivisionSound(k, 2);
    if !IsPrimeNumber(k) {
      var d := SmallDivisor(k);
    }
  }
}
