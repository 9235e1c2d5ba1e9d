/**
 * The sequential sieve of the assignment (class Primes): flip one flag,
 * query one flag, scan for the next clear flag, flip the odd multiples of a
 * prime in a range, and the incremental sieve driver that ties them together.
 * Java's static ceiling n is passed explicitly; the byte array is an
 * array<bv8> updated in place.
 */
module Primes {
  import opened Layout
  import opened SieveTheory

  /** Java's IllegalArgumentException (an even argument) and NoMorePrimesException. */
  datatype SieveError = EvenArgument | NoMorePrimes

  /** The outcome of an operation that returns nothing but may throw. */
  datatype Outcome = Pass | Fail(error: SieveError)

  /** The outcome of an operation that returns a value but may throw. */
  datatype Result<T> = Ok(value: T) | Err(error: SieveError)

  /**
   * flipBit: an even i is rejected and nothing changes; an odd i gets its
   * flag set (bit (i / 2) % 8 of byte i / 16), which adds exactly i to the
   * flipped numbers.
   */
  method FlipBit(a: array<bv8>, i: nat) returns (r: Outcome)
    requires i % 2 == 1 ==> Cell(i) < a.Length
    modifies a
    ensures r == if i % 2 == 0 then Fail(EvenArgument) else Pass
    ensures r.Fail? ==> a[..] == old(a[..])
    ensures r.Pass? ==> a[..] == SetBit(old(a[..]), i)
    ensures r.Pass? ==> Flipped(a[..]) == Flipped(old(a[..])) + {i}
    ensures r.Pass? ==> IsPrime(a, i) == Ok(false)
  {
    if i % 2 == 0 {
      return Fail(EvenArgument);
    }
    var cell := i / 16;
    var bit := (i / 2) % 8;
    a[cell] := a[cell] | ((1 as bv8) << bit);
    FlippedSetBit(old(a[..]), i);
    SlotOf(i);
    return Pass;
  }

  /** isPrime: an even i is rejected; an odd i is reported prime iff it has not been flipped. */
  function IsPrime(a: array<bv8>, i: nat): (r: Result<bool>)
    requires i % 2 == 1 ==> Cell(i) < a.Length
    reads a
    ensures i % 2 == 0 <==> r == Err(EvenArgument)
    ensures i % 2 == 1 ==> r == Ok(i !in Flipped(a[..]))
  {
    if i % 2 == 0 then Err(EvenArgument)
    else Ok(a[i / 16] & ((1 as bv8) << ((i / 2) % 8)) == 0)
  }

  /**
   * findNextPrime: an even startAt is rejected; otherwise the result is the
   * least odd i with startAt <= i < n that is not flipped, and NoMorePrimes
   * exactly when there is none.
   */
  method FindNextPrime(a: array<bv8>, n: nat, startAt: nat) returns (r: Result<nat>)
    requires Cells(n) <= a.Length
    ensures startAt % 2 == 0 <==> r == Err(EvenArgument)
    ensures r == Err(NoMorePrimes) <==>
              startAt % 2 == 1 && forall j: nat :: startAt <= j < n && j % 2 == 1 ==> j in Flipped(a[..])
    ensures r.Ok? <==> startAt % 2 == 1 && exists j: nat :: startAt <= j < n && j % 2 == 1 && j !in Flipped(a[..])
    ensures r.Ok? ==> startAt <= r.value < n && r.value % 2 == 1 && r.value !in Flipped(a[..])
    ensures r.Ok? ==> forall j: nat :: startAt <= j < r.value && j % 2 == 1 ==> j in Flipped(a[..])
  {
    if startAt % 2 == 0 {
      return Err(EvenArgument);
    }
    var i := startAt;
    while i < n
      invariant startAt <= i && i % 2 == 1
      invariant forall j: nat :: startAt <= j < i && j % 2 == 1 ==> j in Flipped(a[..])
    {
      CellsCover(n, i);
      var prime := IsPrime(a, i);
      if prime.value {
        assert startAt <= i < n && i % 2 == 1 && i !in Flipped(a[..]);
        return Ok(i);
      }
      ScanStep(Flipped(a[..]), startAt, i);
      i := i + 2;
    }
    assert forall j: nat :: startAt <= j < n && j % 2 == 1 ==> j in Flipped(a[..]);
    return Err(NoMorePrimes);
  }

  /** One step of the scan: once the odd i is also in s, every odd number in [startAt, i + 2) is. */
  lemma ScanStep(s: set<nat>, startAt: nat, i: nat)
    requires i % 2 == 1 && i in s
    requires forall j: nat :: startAt <= j < i && j % 2 == 1 ==> j in s
    ensures forall j: nat :: startAt <= j < i + 2 && j % 2 == 1 ==> j in s
  {
    forall j: nat | startAt <= j < i + 2 && j % 2 == 1
      ensures j in s
    {
      if i < j {
        OddGap(i, j);
      }
    }
  }

  /**
   * The rounding at the head of flipInRange: start is moved up to the next
   * multiple of prime, and by one more prime if that multiple is even. The
   * result is the least odd multiple of prime that is at least start.
   */
  function FirstOddMultiple(prime: nat, start: nat): (r: nat)
    requires prime % 2 == 1
    ensures start <= r && r % 2 == 1 && r % prime == 0
    ensures forall j :: start <= j < r && j % 2 == 1 ==> j % prime != 0
  {
    var rest := start % prime;
    var s := if rest != 0 then start + prime - rest else start;
    RoundUpIsMultiple(prime, start);
    var r := if s % 2 == 0 then s + prime else s;
    LeastOddMultiple(prime, start, s, r);
    r
  }

  /** The first rounding step reaches the least multiple of prime that is at least start. */
  lemma RoundUpIsMultiple(prime: nat, start: nat)
    requires prime > 0
    ensures var rest := start % prime;
            var s := if rest != 0 then start + prime - rest else start;
            start <= s < start + prime && s % prime == 0
  {
    var q := start / prime;
    assert start == prime * q + start % prime;
    if start % prime != 0 {
      assert start + prime - start % prime == prime * (q + 1);
      MultipleMod(prime, q + 1);
    }
  }

  lemma LeastOddMultiple(prime: nat, start: nat, s: nat, r: nat)
    requires prime % 2 == 1
    requires start <= s < start + prime && s % prime == 0
    requires r == if s % 2 == 0 then s + prime else s
    ensures r % 2 == 1 && r % prime == 0
    ensures forall j :: start <= j < r && j % 2 == 1 ==> j % prime != 0
  {
    DivExact(s, prime);
    assert s + prime == prime * (s / prime + 1);
    MultipleMod(prime, s / prime + 1);
    forall j | start <= j < r && j % 2 == 1
      ensures j % prime != 0
    {
      NotAMultiple(prime, start, s, r, j);
    }
  }

  /** An odd j in [start, r) is not a multiple of prime: the only multiple there is s, and it is even whenever s < r. */
  lemma NotAMultiple(prime: nat, start: nat, s: nat, r: nat, j: int)
    requires prime % 2 == 1
    requires start <= s < start + prime && s % prime == 0
    requires r == if s % 2 == 0 then s + prime else s
    requires start <= j < r && j % 2 == 1
    ensures j % prime != 0
  {
    if j % prime == 0 {
      if j < s {
        MultipleGap(prime, j, s);
      } else if s < j {
        MultipleGap(prime, s, j);
      }
    }
  }

  /**
   * flipInRange: an even prime is rejected and nothing changes; otherwise
   * the odd multiples of prime in [start, stop) are flipped, from the least
   * one at or above start in steps of 2 * prime, and nothing else.
   */
  method FlipInRange(a: array<bv8>, prime: nat, start: nat, stop: nat) returns (r: Outcome)
    requires Cells(stop) <= a.Length
    modifies a
    ensures r == if prime % 2 == 0 then Fail(EvenArgument) else Pass
    ensures r.Fail? ==> a[..] == old(a[..])
    ensures r.Pass? ==> Flipped(a[..]) == Flipped(old(a[..])) + OddMultiples(prime, start, stop)
  {
    if prime % 2 == 0 {
      return Fail(EvenArgument);
    }
    var i := FirstOddMultiple(prime, start);
    assert OddMultiples(prime, start, Min(i, stop)) == {};
    while i < stop
      invariant start <= i && i % 2 == 1 && i % prime == 0
      invariant Flipped(a[..]) == Flipped(old(a[..])) + OddMultiples(prime, start, Min(i, stop))
    {
      CellsCover(stop, i);
      var _ := FlipBit(a, i);
      OddMultiplesExtend(prime, start, i, Min(i + prime * 2, stop));
      NextOddMultiple(prime, i);
      i := i + prime * 2;
    }
    return Pass;
  }

  /**
   * seq: the incremental sieve. Starting at 3, each prime p with p * p <= n
   * flips its odd multiples from p * p up to n, and the next prime is the
   * next unflipped odd number; the loop ends when p * p > n or when no
   * unflipped odd number is left. On an array sized for n that starts
   * zeroed, the flipped numbers end up being exactly the odd composites
   * below n.
   */
  method Seq(a: array<bv8>, n: nat)
    requires Cells(n) <= a.Length
    requires Flipped(a[..]) == {}
    modifies a
    ensures Flipped(a[..]) == OddComposites(n)
  {
    var currentPrime := 3;
    ghost var bound := 3;
    while currentPrime * currentPrime <= n
      invariant 3 <= currentPrime && currentPrime % 2 == 1 && bound == currentPrime
      invariant Flipped(a[..]) == StruckBelow(n, bound)
      decreases n - currentPrime
    {
      MulLe(3, currentPrime, currentPrime);
      var _ := FlipInRange(a, currentPrime, currentPrime * currentPrime, n);
      assert Flipped(a[..]) == StruckBelow(n, currentPrime + 1) by {
        StrikeNext(n, currentPrime);
      }
      var next := FindNextPrime(a, n, currentPrime + 2);
      if next.Err? {
        assert next.error == NoMorePrimes;
        SkipStruck(n, currentPrime, n, Flipped(a[..]));
        MulLe(1, n, n);
        bound := n;
        break;
      }
      SkipStruck(n, currentPrime, next.value, Flipped(a[..]));
      currentPrime := next.value;
      bound := currentPrime;
    }
    SieveComplete(n, bound);
  }

  /**
   * The sequential half of the Primes constructor: allocate n / 16 + 1 zero
   * bytes and run seq on them. Afterwards every odd i from 3 up to n is
   * reported prime exactly when it is prime, and 1, never flipped, is
   * reported prime too.
   */
  method SequentialSieve(n: nat) returns (a: array<bv8>)
    ensures fresh(a) && a.Length == Cells(n)
    ensures Flipped(a[..]) == OddComposites(n)
    ensures forall i: nat :: 3 <= i < n && i % 2 == 1 ==> IsPrime(a, i) == Ok(IsPrimeNumber(i))
    ensures IsPrime(a, 1) == Ok(true)
  {
    a := new bv8[Cells(n)](_ => 0);
    FlippedZeros(a[..]);
    Seq(a, n);
    forall i: nat | i < n
      ensures Cell(i) < a.Length
    {
      CellsCover(n, i);
    }
  }
}
