# Bit-packed Sieve of Eratosthenes over odd numbers

This project models the sieve in two Java classes and proves it correct in Dafny.

- `Primes` is the assignment version. `flipBit`, `isPrime`, `findNextPrime`, `flipInRange` and the sequential driver `seq` work on a byte array sized `n / 16 + 1`. Even arguments throw `IllegalArgumentException`. Running out of candidates throws `NoMorePrimesException`.
- `SieveDemo` is the teaching version. It has the same layout and no argument checks. It has a fixed ceiling `n = 10000`, and `findNextPrime` returns `0` when it runs out. `findFirst20` appends primes to a list until the list holds 20.

Only odd numbers are stored. The odd number `i` owns bit `(i / 2) % 8` of byte `i / 16`. A set bit means "flipped", that is, known to be composite.

Files:

- `layout.dfy` (module `Layout`) defines the bit mapping. It also defines the abstract view of a byte sequence: `Flipped(s)`, the set of odd numbers whose bits are set. It proves that the mapping is a bijection between odd numbers and (byte, bit) pairs, and that it stays in bounds. It proves that setting a bit adds exactly one number to `Flipped`, and that `Flipped` determines the bytes.
- `sieve_theory.dfy` (module `SieveTheory`) holds the arithmetic behind the sieve.
  - `StruckBelow(n, b)` is the set of odd `j < n` with a candidate `3 <= q < b`, `q * q <= j` and `q | j`.
  - The sieve keeps `Flipped == StruckBelow(n, currentPrime)` as its loop invariant.
  - Once `currentPrime * currentPrime > n`, that set is exactly the odd composites below `n`.
  - The module also has the lemmas about the list of the first primes.
- `primes.dfy` (module `Primes`) models `src/Primes.java`. The methods work on an `array<bv8>`. The Java exceptions become `Outcome` / `Result` values carrying `EvenArgument` or `NoMorePrimes`. Java's static field `n` is passed explicitly.
- `sieve_demo.dfy` (module `Demo`) models `seq/SieveDemo.java`. Class `SieveDemo` has the fields `theArray`, `n` and `primes`.

## Model

| member | source | states |
|---|---|---|
| Layout.SlotOf | src/Primes.java:149-150 | The (byte, bit) pair of an odd `i` belongs to `i` itself; an even `i` shares the pair of `i + 1` |
| Layout.NumberAtRoundTrip | src/Primes.java:149-150 | Every (byte `c`, bit `b < 8`) pair is the pair of exactly the odd number `16c + 2b + 1` |
| Layout.SlotInjective | src/Primes.java:149-150 | Distinct odd numbers map to distinct (byte, bit) pairs |
| Layout.CellsCover | src/Primes.java:51 | Every `i < n` has its byte inside the `n / 16 + 1` bytes allocated for `n` |
| Layout.FlippedSlot | seq/SieveDemo.java:152-159 | The bit tested for `i` is set iff `i` (odd) or `i + 1` (even) is in the flipped set |
| Layout.OrMask | src/Primes.java:154 | Or-ing `1 << b` into a byte sets bit `b` and leaves the other seven bits as they were |
| Layout.FlippedSetBit | src/Primes.java:149-154 | Setting the bit of `i` adds exactly the odd number owning that bit to the flipped set; the length is unchanged |
| Layout.SetBitIdempotent | src/Primes.java:154 | Setting the same bit twice gives the same bytes as setting it once |
| Layout.FlippedDetermines | src/Primes.java:149-154 | Two byte sequences of equal length with the same flipped set are equal, so a flipped-set postcondition fixes every bit of every byte |
| Layout.FlippedZeros | src/Primes.java:56 | A zero-filled array has no flipped number |
| Primes.FlipBit | src/Primes.java:144-155 | Even `i`: fails with `EvenArgument` and the array is unchanged. Odd `i`: sets bit `(i/2)%8` of byte `i/16`; the flipped set grows by exactly `{i}`; `IsPrime(i)` then reports `false` |
| Primes.IsPrime | src/Primes.java:164-173 | Fails with `EvenArgument` iff `i` is even; for odd `i` it reports prime iff `i` is not flipped |
| Primes.FindNextPrime | src/Primes.java:183-195 | Even `startAt` is rejected. A number is returned iff `startAt` is odd and some odd number in `[startAt, n)` is not flipped; it is the least such one. `NoMorePrimes` is returned iff `startAt` is odd and every odd number in `[startAt, n)` is flipped |
| Primes.FirstOddMultiple | src/Primes.java:125-131 | The rounded start is odd, a multiple of `prime`, at least `start`, and no odd number in between is a multiple of `prime` |
| Primes.RoundUpIsMultiple | src/Primes.java:125-128 | The first rounding step gives the least multiple of `prime` that is at least `start` |
| Primes.LeastOddMultiple | src/Primes.java:129-131 | The parity correction turns that multiple into the least odd multiple that is at least `start` |
| Primes.NotAMultiple | src/Primes.java:125-131 | No odd number between `start` and the rounded start is a multiple of `prime` |
| Primes.FlipInRange | src/Primes.java:119-136 | An even `prime` fails with `EvenArgument` and nothing changes; otherwise exactly the odd multiples of `prime` in `[start, stop)` are added to the flipped set |
| Primes.Seq | src/Primes.java:86-101 | On a zeroed array sized for `n`, the flipped numbers end up being exactly the odd composites below `n` |
| Primes.SequentialSieve | src/Primes.java:49-57 | The constructor's sequential half allocates `n / 16 + 1` bytes and sieves. Afterwards, for every odd `3 <= i < n`, `isPrime(i)` is true iff `i` is prime, and `isPrime(1)` is true |
| SieveTheory.StrikeNext | src/Primes.java:94 | Flipping the odd multiples of `p` from `p * p` to `n` takes the struck set for bound `p` to the one for bound `p + 1` |
| SieveTheory.StruckAdvance | src/Primes.java:96 | Candidates that are already struck add nothing: their multiples are already struck by their own factors |
| SieveTheory.SkipStruck | src/Primes.java:96 | Skipping the flipped odd numbers after `p` up to the next clear one leaves the struck set unchanged |
| SieveTheory.SieveComplete | src/Primes.java:89-91 | Once `bound * bound >= n`, the struck set is exactly the odd composites below `n` |
| SieveTheory.StruckIffComposite | src/Primes.java:89-91 | An odd `j` with `3 <= j < b * b` is struck by the candidates below `b` iff `j` is composite |
| SieveTheory.StruckIsComposite | seq/SieveDemo.java:140-142 | Every struck number is composite and at least 9 |
| SieveTheory.CompositeIsStruck | seq/SieveDemo.java:140-142 | Every odd composite below `b * b` is struck by a candidate below `b` |
| SieveTheory.NothingStruckBelowNine | src/Primes.java:87 | No number below 9 is ever struck, because flipping starts at `p * p` with `p >= 3` |
| SieveTheory.SmallDivisor | src/Primes.java:89-91 | A composite has a divisor `d >= 2` with `d * d <= k`, so stopping at the square root misses nothing |
| SieveTheory.OddMultiplesExtend | src/Primes.java:133-135 | One more step of `2 * prime` adds exactly the current odd multiple to the range covered so far |
| SieveTheory.OddMultipleGap | src/Primes.java:133 | Two distinct odd multiples of `p` are at least `2 * p` apart, so stepping by `2 * prime` skips none |
| SieveTheory.NextOddMultiple | seq/SieveDemo.java:104 | Adding `2 * p` to an odd multiple `i` of an odd `p` gives another odd multiple, and no odd multiple lies strictly between them: it is the next one |
| SieveTheory.OddSquareMultiple | seq/SieveDemo.java:104 | The start `p * p` of an odd `p` is itself an odd multiple of `p` |
| SieveTheory.NextPrime | seq/SieveDemo.java:80-81 | If the bit of `r` is clear and all odd numbers between the last prime and `r` are flipped, then `r` is the next prime, and appending it keeps the list the first primes in order |
| SieveTheory.IncludedIsShorter | seq/SieveDemo.java:83 | An increasing list contained in another increasing list is no longer than it |
| SieveTheory.PrimeByTrial | seq/SieveDemo.java:83 | Trial division up to the square root establishes primality |
| Demo.First20ArePrimes | seq/SieveDemo.java:83 | The twenty smallest primes, all at most 71, are prime and increasing |
| Demo.PrimeBeyond | seq/SieveDemo.java:72-83 | While fewer than 20 of the first primes are known, a prime at most 71 follows the last of them |
| Demo.UnstruckAhead | seq/SieveDemo.java:80 | With `n > 71`, the scan after the last prime finds an unflipped odd number, so `findNextPrime` never returns the `0` sentinel in `findFirst20` |
| Demo.SieveDemo.constructor | seq/SieveDemo.java:49-57 | Allocates `n / 16 + 1` zero bytes: nothing is flipped, and the list is empty |
| Demo.SieveDemo.Flip | seq/SieveDemo.java:117-138 | Sets bit `(i/2)%8` of byte `i/16`. The flipped set grows by exactly `i` (odd) or `i + 1` (even). `isPrime(i)` is then false |
| Demo.SieveDemo.IsPrime | seq/SieveDemo.java:148-161 | True iff `i` (odd) or `i + 1` (even) is not flipped |
| Demo.SieveDemo.FindNextPrime | seq/SieveDemo.java:170-180 | Among `startAt, startAt + 2, ...` below `n`, returns the first one reported prime, or `0` if there is none |
| Demo.SieveDemo.Traverse | seq/SieveDemo.java:100-109 | For odd `p`, adds exactly the odd multiples of `p` from `p * p` up to `n` to the flipped set |
| Demo.SieveDemo.FindFirst20 | seq/SieveDemo.java:65-83 | Starting from `[2, 3]` on a fresh object, the list ends with exactly 20 entries: the 20 smallest primes, strictly increasing. The array then holds exactly the odd numbers struck by the candidates below the last of them |

## Left out

- `main`, the timing runs, the median computation and all console output (`src/Primes.java:19-43`, `54-59`, `seq/SieveDemo.java:42-46`, `73`, `86-89`). These are benchmarking and I/O.
- The parallel half of the `Primes` constructor and `par` (`src/Primes.java:61-80`, `107-109`). The constructor returns before reaching it, and `par` has an empty body.
- `bitString` in both classes. It only formats bytes as text for diagnostics.
- `Math.sqrt(n)` in `seq` is modelled as the integer test `currentPrime * currentPrime <= n`. The two agree for every `int` ceiling.
- Java's 32-bit `int` arithmetic is not modelled. `currentPrime * currentPrime`, `p * p` and `i += prime * 2` are taken as exact, so `n` is assumed comfortably below 2^31.
- Arguments are `nat`, so negative numbers are not modelled. In Java they would give truncated division, a negative shift count or an exception from the array access.
- Primes.FlipBit, Primes.IsPrime, Primes.FlipInRange, Primes.FindNextPrime and the SieveDemo methods require their index to fall inside the array. Java's `ArrayIndexOutOfBoundsException` is therefore not modelled. Callers always pass an array of `n / 16 + 1` bytes and stay below `n`.
- Primes.Seq requires an array with nothing flipped. The constructor always hands it a fresh array.
- Demo.SieveDemo.Traverse requires an odd `p`. Java's `traverse` has no such check. With an even `p` it would flip `p * p + 1`, `p * p + 2p + 1` and so on, and with `p == 0` it would loop forever because `i += p * 2` does not advance. Every call from `findFirst20` passes an odd prime. The one way to reach `traverse(0)` is `findNextPrime` returning its `0` sentinel, which needs a ceiling `n <= 71`. Demo.UnstruckAhead shows this cannot happen with `n = 10000`.
- Demo.SieveDemo.FindFirst20 requires an empty list and an array with nothing flipped. Java's `main` calls it once, on a fresh object.
- The signed Java `byte` is modelled as `bv8`. The bits that `|=` and `&` use with `1 << bit`, where `bit < 8`, are the same in both.
- `SieveDemo.n` is a mutable `int` field in Java. Nothing assigns it after its initialiser, so it is a `const` here. The `LinkedList<Integer>` is a `seq<int>`.
- `NoMorePrimesException` itself is not part of this model. Only its role as a signal is kept, as `Err(NoMorePrimes)`.
