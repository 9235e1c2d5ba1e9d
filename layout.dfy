/**
 * The bit layout shared by both sieves: only odd numbers are represented,
 * eight of them per byte. The odd number i lives in byte i / 16, at bit
 * (i / 2) % 8; a set bit means "flipped" (known composite), a clear bit
 * means "still a prime candidate".
 */
module Layout {

  /** The byte that holds the flag of i. */
  function Cell(i: nat): nat {
    i / 16
  }

  /** The bit, inside its byte, that holds the flag of i. */
  function Bit(i: nat): (b: nat)
    ensures b < 8
  {
    (i / 2) % 8
  }

  /** The number of bytes allocated for a ceiling n. */
  function Cells(n: nat): nat {
    n / 16 + 1
  }

  /** The one-bit mask `1 << b` of a byte. */
  function Mask(b: nat): bv8
    requires b < 8
  {
    (1 as bv8) << b
  }

  /** The odd number whose flag sits at bit b of byte c. */
  function NumberAt(c: nat, b: nat): nat {
    16 * c + 2 * b + 1
  }

  /** The odd number that shares its flag with i: i itself when i is odd, i + 1 when i is even. */
  function Slot(i: nat): nat {
    NumberAt(Cell(i), Bit(i))
  }

  /** Whether the flag that i maps to is set. */
  predicate Marked(s: seq<bv8>, i: nat)
    requires Cell(i) < |s|
  {
    s[Cell(i)] & Mask(Bit(i)) != 0
  }

  /** The abstract value of a sieve: the odd numbers whose flags are set. */
  ghost function Flipped(s: seq<bv8>): set<nat> {
    set j: nat | j < 16 * |s| && j % 2 == 1 && Marked(s, j)
  }

  /** The bytes after `s[Cell(i)] |= 1 << Bit(i)`. */
  function SetBit(s: seq<bv8>, i: nat): seq<bv8>
    requires Cell(i) < |s|
  {
    s[Cell(i) := s[Cell(i)] | Mask(Bit(i))]
  }

  /** Every odd number is recovered from its (byte, bit) pair; an even one lands on its odd successor. */
  lemma SlotOf(i: nat)
    ensures Slot(i) == if i % 2 == 1 then i else i + 1
    ensures Cell(Slot(i)) == Cell(i) && Bit(Slot(i)) == Bit(i)
  {
    var h := i / 2;
    assert h / 8 == i / 16;
    assert h == 8 * (h / 8) + h % 8;
    assert Slot(i) == 2 * h + 1;
    NumberAtRoundTrip(Cell(i), Bit(i));
  }

  /** Every (byte, bit) pair is the slot of exactly the number NumberAt names. */
  lemma NumberAtRoundTrip(c: nat, b: nat)
    requires b < 8
    ensures NumberAt(c, b) % 2 == 1
    ensures Cell(NumberAt(c, b)) == c && Bit(NumberAt(c, b)) == b
  {
    assert (16 * c + 2 * b + 1) / 16 == c;
    assert (16 * c + 2 * b + 1) / 2 == 8 * c + b;
    assert (8 * c + b) % 8 == b;
  }

  /** Distinct odd numbers have distinct flags. */
  lemma SlotInjective(i: nat, j: nat)
    requires i % 2 == 1 && j % 2 == 1
    requires Cell(i) == Cell(j) && Bit(i) == Bit(j)
    ensures i == j
  {
    SlotOf(i);
    SlotOf(j);
  }

  /** Every number below n has its flag inside an array of Cells(n) bytes. */
  lemma CellsCover(n: nat, i: nat)
    requires i < n
    ensures Cell(i) < Cells(n)
    ensures i < 16 * Cells(n)
  {
  }

  /** A number below 16 * len has its flag inside an array of len bytes. */
  lemma CellBelow(i: nat, len: nat)
    requires i < 16 * len
    ensures Cell(i) < len
  {
    assert i == 16 * (i / 16) + i % 16;
  }

  /** The flag that i maps to is set exactly when Slot(i) is flipped. */
  lemma FlippedSlot(s: seq<bv8>, i: nat)
    requires Cell(i) < |s|
    ensures Slot(i) in Flipped(s) <==> Marked(s, i)
    ensures i % 2 == 1 ==> (i in Flipped(s) <==> Marked(s, i))
    ensures i % 2 == 0 ==> (i + 1 in Flipped(s) <==> Marked(s, i))
  {
    SlotOf(i);
    NumberAtRoundTrip(Cell(i), Bit(i));
    FlippedOdd(s, Slot(i));
  }

  /** An odd number inside the array's range is flipped exactly when its own flag is set. */
  lemma FlippedOdd(s: seq<bv8>, k: nat)
    requires k % 2 == 1 && Cell(k) < |s|
    ensures k in Flipped(s) <==> Marked(s, k)
  {
    assert k < 16 * |s| by {
      assert k == 16 * (k / 16) + k % 16;
    }
  }

  /** Or-ing in one mask sets that bit and leaves the seven others as they were. */
  lemma OrMask(x: bv8, b: nat, c: nat)
    requires b < 8 && c < 8
    ensures (x | Mask(b)) & Mask(c) != 0 <==> (x & Mask(c) != 0 || b == c)
  {
  }

  /** A byte is determined by its eight bits. */
  lemma ByteFromBits(x: bv8, y: bv8)
    requires forall b :: 0 <= b < 8 ==> (x & Mask(b) != 0 <==> y & Mask(b) != 0)
    ensures x == y
  {
    assert x & Mask(0) != 0 <==> y & Mask(0) != 0;
    assert x & Mask(1) != 0 <==> y & Mask(1) != 0;
    assert x & Mask(2) != 0 <==> y & Mask(2) != 0;
    assert x & Mask(3) != 0 <==> y & Mask(3) != 0;
    assert x & Mask(4) != 0 <==> y & Mask(4) != 0;
    assert x & Mask(5) != 0 <==> y & Mask(5) != 0;
    assert x & Mask(6) != 0 <==> y & Mask(6) != 0;
    assert x & Mask(7) != 0 <==> y & Mask(7) != 0;
  }

  /** Setting the flag of i adds exactly Slot(i) to the flipped set. */
  lemma FlippedSetBit(s: seq<bv8>, i: nat)
    requires Cell(i) < |s|
    ensures |SetBit(s, i)| == |s|
    ensures Flipped(SetBit(s, i)) == Flipped(s) + {Slot(i)}
  {
    var t := SetBit(s, i);
    SlotOf(i);
    forall j: nat | j < 16 * |s| && j % 2 == 1
      ensures Marked(t, j) <==> Marked(s, j) || j == Slot(i)
    {
      if Cell(j) == Cell(i) {
        OrMask(s[Cell(i)], Bit(i), Bit(j));
        if Bit(j) == Bit(i) {
          SlotInjective(j, Slot(i));
        }
      }
    }
    assert Slot(i) < 16 * |s|;
  }

  /** Setting a flag twice is the same as setting it once. */
  lemma SetBitIdempotent(s: seq<bv8>, i: nat)
    requires Cell(i) < |s|
    ensures SetBit(SetBit(s, i), i) == SetBit(s, i)
  {
  }

  /** Two byte sequences of one length with the same flipped set are equal. */
  lemma FlippedDetermines(s: seq<bv8>, t: seq<bv8>)
    requires |s| == |t| && Flipped(s) == Flipped(t)
    ensures s == t
  {
    forall c | 0 <= c < |s|
      ensures s[c] == t[c]
    {
      forall b | 0 <= b < 8
        ensures s[c] & Mask(b) != 0 <==> t[c] & Mask(b) != 0
      {
        var j := NumberAt(c, b);
        NumberAtRoundTrip(c, b);
        assert j < 16 * |s|;
        assert j in Flipped(s) <==> j in Flipped(t);
      }
      ByteFromBits(s[c], t[c]);
    }
  }

  /** A freshly allocated (all-zero) array has no flipped number. */
  lemma FlippedZeros(s: seq<bv8>)
    requires forall c :: 0 <= c < |s| ==> s[c] == 0
    ensures Flipped(s) == {}
  {
    forall j: nat | j < 16 * |s| && j % 2 == 1
      ensures !Marked(s, j)
    {
      assert s[Cell(j)] == 0;
    }
  }
}
