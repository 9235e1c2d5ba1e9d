/**
 * The teaching variant of the sieve (class SieveDemo): the same bit layout,
 * no argument checks, a fixed ceiling n = 10000, and a driver that collects
 * the first 20 primes into a list.
 */
module Demo {
  import opened Layout
  import opened SieveTheory

  /** The first twenty primes, used to show that the demo's ceiling leaves room for twenty of them. */
  const First20: seq<int> := [2, 3, 5, 7, 11, 13, 17, 19, 23, 29, 31, 37, 41, 43, 47, 53, 59, 61, 67, 71]

  /** Every entry of First20 is prime, and they increase. */
  lemma First20ArePrimes()
    ensures Increasing(First20)
    ensures forall i :: 0 <= i < |First20| ==> IsPrimeNumber(First20[i]) && First20[i] <= 71
  {
    PrimesFrom(0);
    PrimesFrom(5);
    PrimesFrom(10);
    PrimesFrom(15);
    forall i, j | 0 <= i < j < |First20|
      ensures First20[i] < First20[j]
    {
      StepsIncrease(First20, i, j);
    }
    forall i | 0 <= i < |First20|
      ensures First20[i] <= 71
    {
      if i < |First20| - 1 {
        StepsIncrease(First20, i, |First20| - 1);
      }
    }
  }

  /** In a sequence whose neighbours increase, every earlier entry is below every later one. */
  lemma {:induction false} StepsIncrease(s: seq<int>, i: nat, j: nat)
    requires forall k :: 0 <= k < |s| - 1 ==> s[k] < s[k + 1]
    requires i < j < |s|
    ensures s[i] < s[j]
    decreases j - i
  {
    if i + 1 < j {
      StepsIncrease(s, i + 1, j);
    }
  }

  /** The five entries of First20 from index lo on are prime, by trial division. */
  lemma PrimesFrom(lo: nat)
    requires lo == 0 || lo == 5 || lo == 10 || lo == 15
    ensures forall i :: lo <= i < lo + 5 ==> IsPrimeNumber(First20[i])
  {
    if lo == 0 {
      PrimeByTrial(2);
      PrimeByTrial(3);
      PrimeByTrial(5);
      PrimeByTrial(7);
      PrimeByTrial(11);
    } else if lo == 5 {
      PrimeByTrial(13);
      PrimeByTrial(17);
      PrimeByTrial(19);
      PrimeByTrial(23);
      PrimeByTrial(29);
    } else if lo == 10 {
      PrimeByTrial(31);
      PrimeByTrial(37);
      PrimeByTrial(41);
      PrimeByTrial(43);
      PrimeByTrial(47);
    } else {
      PrimeByTrial(53);
      PrimeByTrial(59);
      PrimeByTrial(61);
      PrimeByTrial(67);
      PrimeByTrial(71);
    }
  }

  /** Fewer than twenty first primes leave a prime above the last of them, and it is at most 71. */
  lemma PrimeBeyond(ps: seq<int>)
    requires FirstPrimes(ps) && |ps| < |First20|
    ensures exists q :: ps[|ps| - 1] < q <= 71 && IsPrimeNumber(q)
  {
    First20ArePrimes();
    var last := ps[|ps| - 1];
    if forall i :: 0 <= i < |First20| ==> First20[i] <= last {
      IncludedIsShorter(First20, ps);
    }
  }

  /**
   * While fewer than twenty primes are known, the sieve of ceiling n > 71 still
   * has an odd number after the last prime p that the candidates up to p have
   * not struck.
   */
  lemma UnstruckAhead(ps: seq<int>, n: nat) returns (q: nat)
    requires FirstPrimes(ps) && |ps| < |First20| && 3 <= ps[|ps| - 1] && 71 < n
    ensures ps[|ps| - 1] + 2 <= q <= 71 && q % 2 == 1 && q !in StruckBelow(n, ps[|ps| - 1] + 1)
  {
    PrimeBeyond(ps);
    var p := ps[|ps| - 1];
    var r :| p < r <= 71 && IsPrimeNumber(r);
    assert r % 2 != 0;
    assert p % 2 != 0;
    q := r;
    if q in StruckBelow(n, p + 1) {
      StruckIsComposite(q, p + 1);
    }
  }

  class SieveDemo {
    /** The flags of the odd numbers below n, eight per byte. */
    var theArray: array<bv8>
    /** The ceiling. */
    const n: nat := 10000
    /** The primes found so far, in the order they were added. */
    var primes: seq<int>

    ghost predicate Valid()
      reads this
    {
      theArray.Length == Cells(n)
    }

    /** The constructor: n / 16 + 1 zero bytes (one bit per odd number) and an empty list. */
    constructor ()
      ensures Valid() && fresh(theArray)
      ensures Flipped(theArray[..]) == {} && primes == []
    {
      theArray := new bv8[Cells(n)](_ => 0);
      primes := [];
      new;
      FlippedZeros(theArray[..]);
    }

    /**
     * flip: sets the flag that i maps to. There is no parity check, so an
     * even i flips the flag of i + 1.
     */
    method Flip(i: nat)
      requires Valid() && Cell(i) < theArray.Length
      modifies theArray
      ensures theArray[..] == SetBit(old(theArray[..]), i)
      ensures Flipped(theArray[..]) == Flipped(old(theArray[..])) + {if i % 2 == 1 then i else i + 1}
      ensures i < 16 * theArray.Length && !IsPrime(i)
    {
      var byteCell := i / 16;
      var bit := (i / 2) % 8;
      theArray[byteCell] := theArray[byteCell] | ((1 as bv8) << bit);
      FlippedSetBit(old(theArray[..]), i);
      SlotOf(i);
    }

    /** isPrime: true iff the flag that i maps to is clear (for an even i, the flag of i + 1). */
    function IsPrime(i: nat): (r: bool)
      requires i < 16 * theArray.Length
      reads this, theArray
      ensures i % 2 == 1 ==> (r <==> i !in Flipped(theArray[..]))
      ensures i % 2 == 0 ==> (r <==> i + 1 !in Flipped(theArray[..]))
    {
      CellBelow(i, theArray.Length);
      FlippedSlot(theArray[..], i);
      theArray[i / 16] & ((1 as bv8) << ((i / 2) % 8)) == 0
    }

    /** k is one of startAt, startAt + 2, startAt + 4, ... below n. */
    predicate Scanned(startAt: nat, k: nat) {
      startAt <= k < n && k % 2 == startAt % 2
    }

    /**
     * findNextPrime: the first of startAt, startAt + 2, ... below n that is
     * reported prime, or 0 when there is none.
     */
    method FindNextPrime(startAt: nat) returns (r: nat)
      requires Valid()
      ensures (exists k: nat :: Scanned(startAt, k) && IsPrime(k)) ==>
                Scanned(startAt, r) && IsPrime(r) && forall k: nat :: Scanned(startAt, k) && k < r ==> !IsPrime(k)
      ensures (forall k: nat :: Scanned(startAt, k) ==> !IsPrime(k)) ==> r == 0
    {
      var i := startAt;
      while i < n
        invariant startAt <= i && i % 2 == startAt % 2
        invariant forall k: nat :: Scanned(startAt, k) && k < i ==> !IsPrime(k)
      {
        if IsPrime(i) {
          assert Scanned(startAt, i);
          return i;
        }
        i := i + 2;
      }
      assert forall k: nat :: Scanned(startAt, k) ==> !IsPrime(k);
      return 0;
    }

    /**
     * traverse: flips p * p, p * p + 2 * p, ... below n. For odd p these are
     * exactly the odd multiples of p from p * p up to n, and nothing else changes.
     */
    method Traverse(p: nat)
      requires Valid() && p % 2 == 1
      modifies theArray
      ensures Flipped(theArray[..]) == Flipped(old(theArray[..])) + OddMultiples(p, p * p, n)
    {
      var i := p * p;
      ghost var lo := i;
      OddSquareMultiple(p);
      assert OddMultiples(p, lo, Min(i, n)) == {};
      while i < n
        invariant lo <= i && i % 2 == 1 && i % p == 0
        invariant Flipped(theArray[..]) == Flipped(old(theArray[..])) + OddMultiples(p, lo, Min(i, n))
      {
        CellsCover(n, i);
        Flip(i);
        OddMultiplesExtend(p, lo, i, Min(i + p * 2, n));
        NextOddMultiple(p, i);
        i := i + p * 2;
      }
    }

    /**
     * findFirst20, without its printing: starting from [2, 3], sieve with the
     * current prime, append the next unflipped odd number, until the list
     * holds 20 numbers. The list ends as the first twenty primes in
     * increasing order, and the array holds exactly the odd numbers struck
     * by the candidates below the last of them.
     */
    method FindFirst20()
      requires Valid() && primes == [] && Flipped(theArray[..]) == {}
      modifies this, theArray
      ensures theArray == old(theArray) && Valid()
      ensures |primes| == 20 && FirstPrimes(primes)
      ensures Flipped(theArray[..]) == StruckBelow(n, primes[19])
    {
      primes := primes + [2];
      primes := primes + [3];
      var currentPrime := 3;
      assert FirstPrimes(primes) by {
        PrimeByTrial(2);
        PrimeByTrial(3);
      }
      // The do-while's first test is |primes| < 20 with |primes| == 2, so a while loop does the same.
      while |primes| < 20
        invariant theArray == old(theArray) && Valid()
        invariant 2 <= |primes| <= 20 && currentPrime == primes[|primes| - 1]
        invariant FirstPrimes(primes) && 3 <= currentPrime <= 71 && currentPrime % 2 == 1
        invariant Flipped(theArray[..]) == StruckBelow(n, currentPrime)
        decreases 20 - |primes|
      {
        ghost var p, ps := currentPrime, primes;
        Traverse(currentPrime);
        assert primes == ps;
        assert Flipped(theArray[..]) == StruckBelow(n, p + 1) by {
          StrikeNext(n, p);
        }
        ghost var q := UnstruckAhead(ps, n);
        assert Scanned(p + 2, q) && IsPrime(q) by {
          assert (p + 2) % 2 == 1;
        }
        currentPrime := FindNextPrime(currentPrime + 2);
        assert primes == ps;
        assert p < currentPrime <= q && currentPrime % 2 == 1 by {
          assert (p + 2) % 2 == 1;
        }
        assert FirstPrimes(primes + [currentPrime]) && Flipped(theArray[..]) == StruckBelow(n, currentPrime) by {
          forall j: nat | p < j < currentPrime && j % 2 == 1
            ensures j in Flipped(theArray[..])
          {
            OddGap(p, j);
            assert Scanned(p + 2, j);
          }
          NextPrime(ps, n, p, currentPrime, Flipped(theArray[..]));
        }
        primes := primes + [currentPrime];
      }
    }
  }
}
