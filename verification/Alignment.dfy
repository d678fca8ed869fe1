/** The alignment arithmetic of `mEMALIGn` (src/mem/malloc.c). */
module Alignment {
  import opened Basics
  import opened BinIndex

  /** `(a & (a - 1)) == 0` for a positive a. */
  predicate PowerOfTwo(a: int) {
    a == 1 || (a > 1 && a % 2 == 0 && PowerOfTwo(a / 2))
  }

  /** The alignment used for one that was asked for: at least MINSIZE bytes and a power of two. */
  method AlignmentFor(alignment: int) returns (al: int)
    requires 16 < alignment <= TWO_64 / 2
    ensures PowerOfTwo(al) && 32 <= al <= TWO_64 / 2 && alignment <= al && al % 16 == 0
    ensures PowerOfTwo(alignment) ==> al == alignment
    ensures al == 32 || al < 2 * alignment
  {
    al := if alignment < 32 then 32 else alignment;
    Halves();
    HalfRange();
    if !PowerOfTwo(al) {
      var a := 32;
      while a < al
        invariant PowerOfTwo(a) && 32 <= a < 2 * al && a % 16 == 0 && a <= TWO_64 / 2
        decreases 2 * al - a
      {
        PowerBelow(a, TWO_64 / 2);
        a := 2 * a;
      }
      al := a;
    } else {
      PowerMultiple(al);
    }
  }

  lemma Halves()
    ensures PowerOfTwo(32) && forall a :: 16 < a < 32 ==> !PowerOfTwo(a)
  {
    assert PowerOfTwo(2) && PowerOfTwo(4) && PowerOfTwo(8) && PowerOfTwo(16);
    forall a | 16 < a < 32 ensures !PowerOfTwo(a) {
      NotBetween(a, 16);
    }
  }

  lemma {:induction false} NotBetween(a: int, p: int)
    requires PowerOfTwo(p) && p < a < 2 * p
    ensures !PowerOfTwo(a)
  {
    if p > 1 && a % 2 == 0 {
      NotBetween(a / 2, p / 2);
    }
  }

  /** Below a power of two, doubling stays within it. */
  lemma {:induction false} PowerBelow(a: int, b: int)
    requires PowerOfTwo(a) && PowerOfTwo(b) && a < b
    ensures 2 * a <= b
  {
    if a > 1 {
      PowerBelow(a / 2, b / 2);
    }
  }

  lemma {:induction false} PowerMultiple(a: int)
    requires PowerOfTwo(a) && a >= 16
    ensures a % 16 == 0
  {
    if a > 16 {
      NotBetween16(a);
      PowerMultiple(a / 2);
    }
  }

  lemma NotBetween16(a: int)
    requires PowerOfTwo(a) && a > 16
    ensures a / 2 >= 16
  {
    Halves();
  }

  function Pow(k: nat): (r: int)
    ensures PowerOfTwo(r)
  {
    if k == 0 then 1 else 2 * Pow(k - 1)
  }

  lemma {:induction false} PowAdd(j: nat, k: nat)
    ensures Pow(j + k) == Pow(j) * Pow(k)
  {
    hide PowerOfTwo;
    if j > 0 {
      PowAdd(j - 1, k);
      assert Pow(j + k) == 2 * (Pow(j - 1) * Pow(k));
    }
  }

  lemma HalfRange()
    ensures PowerOfTwo(TWO_64 / 2)
  {
    hide Pow, PowerOfTwo;
    PowSmall();
    assert Pow(8) == 0x100 by { PowAdd(4, 4); }
    assert Pow(16) == 0x1_0000 by { PowAdd(8, 8); }
    assert Pow(32) == 0x1_0000_0000 by { PowAdd(16, 16); }
    assert Pow(64) == TWO_64 by { PowAdd(32, 32); }
    assert Pow(64) == 2 * Pow(63) by { PowAdd(1, 63); }
  }

  lemma PowSmall()
    ensures Pow(1) == 2 && Pow(4) == 16
  {
    assert Pow(2) == 4;
  }

  /** The value of the shifted candidate after k rounds of the search for an alignment, in 64 bits. */
  function Shifted(k: nat): int {
    if k == 0 then 32 else 2 * Shifted(k - 1) % TWO_64
  }

  /** Beyond half the address space that search has no end: no round reaches the alignment. */
  lemma {:induction false} NeverReached(alignment: int, k: nat)
    requires alignment > TWO_64 / 2
    ensures 0 <= Shifted(k) < alignment && (Shifted(k) == 0 || (PowerOfTwo(Shifted(k)) && Shifted(k) <= TWO_64 / 2))
  {
    Halves();
    HalfRange();
    if k > 0 {
      NeverReached(alignment, k - 1);
      DoubledPower(Shifted(k - 1));
      hide PowerOfTwo;
    }
  }

  lemma DoubledPower(a: int)
    requires a == 0 || (PowerOfTwo(a) && a <= TWO_64 / 2)
    ensures var d := 2 * a % TWO_64; d == 0 || (PowerOfTwo(d) && d <= TWO_64 / 2)
  {
    HalfRange();
    if 0 < a < TWO_64 / 2 {
      PowerBelow(a, TWO_64 / 2);
      assert 2 * a % TWO_64 == 2 * a && PowerOfTwo(2 * a);
    }
  }

  /** The request `nb + alignment + MINSIZE` in bytes, as a 64-bit size. */
  function Padded(nb: int, al: int): (r: int)
    ensures 0 <= r < TWO_64
  {
    (16 * nb + al + 32) % TWO_64
  }

  /** The padded request leaves room for the lead in and nb cells exactly when it does not wrap around. */
  lemma PaddedFits(nb: int, al: int)
    requires 2 <= nb && 16 * nb < TWO_64 && 32 <= al <= TWO_64 / 2 && al % 16 == 0
    ensures 16 * nb + al + 32 < TWO_64
       <==> (RequestOutOfRange(Padded(nb, al)) || RequestToCells(Padded(nb, al)) >= nb + al / 16 + 3)
  {
    var x := 16 * nb + al + 32;
    assert x == 16 * (nb + al / 16 + 2);
    if x < TWO_64 {
      PaddedRoom(nb + al / 16 + 2);
    } else {
      assert Padded(nb, al) == x - TWO_64;
      PaddedWraps(nb, al);
    }
  }

  lemma PaddedRoom(c: int)
    requires 0 <= c && 16 * c < TWO_64
    ensures RequestOutOfRange(16 * c) || RequestToCells(16 * c) >= c + 1
  {
    if !RequestOutOfRange(16 * c) {
      assert (16 * c + 23) / 16 == c + 1;
    }
  }

  lemma PaddedWraps(nb: int, al: int)
    requires 2 <= nb && 16 * nb < TWO_64 && 32 <= al <= TWO_64 / 2 && 16 * nb + al + 32 >= TWO_64
    ensures var x := 16 * nb + al + 32 - TWO_64;
            0 <= x < TWO_64 && !RequestOutOfRange(x) && RequestToCells(x) < nb + al / 16 + 3
  {
  }

  /** A request just below the limit, aligned to 128 bytes, is padded to 48 bytes. */
  lemma WrappedPadding()
    ensures var nb := RequestToCells(TWO_64 - 128);
            !RequestOutOfRange(TWO_64 - 128) && Padded(nb, 128) == 48 && RequestToCells(48) == 4 < nb
  {
    assert RequestToCells(TWO_64 - 128) == TWO_64 / 16 - 7;
  }

  /** `(x + a - 1) & -a` for a power of two a. */
  function RoundUp(x: int, a: int): int
    requires a > 0
  {
    (x + a - 1) / a * a
  }

  lemma RoundUpIs(x: int, a: int)
    requires a > 0
    ensures RoundUp(x, a) % a == 0 && x <= RoundUp(x, a) < x + a
    ensures (RoundUp(x, a) + a) % a == 0
  {
    var q := (x + a - 1) / a;
    MulMod(q, a);
    MulMod(q + 1, a);
    Division(x + a - 1, a);
    assert (q + 1) * a == q * a + a;
  }

  /** Multiples from x on: the rounded x, or at least one more step away. */
  lemma NextMultiple(x: int, a: int, y: int)
    requires a > 0 && x <= y && y % a == 0
    ensures y == RoundUp(x, a) || y >= RoundUp(x, a) + a
  {
    RoundUpIs(x, a);
    var q, k := (x + a - 1) / a, y / a;
    assert y == k * a;
    if k < q {
      MulStep(k, q, a);
    } else if q < k {
      MulStep(q, k, a);
    }
  }

  lemma MulStep(j: int, k: int, a: int)
    requires a > 0 && j < k
    ensures j * a + a <= k * a
  {
    var d := k - j;
    assert k * a == (j + d) * a == j * a + d * a;
    assert d * a >= a by { Grows(d, a); }
  }

  lemma Grows(d: int, a: int)
    requires a > 0 && d >= 1
    ensures d * a >= a
  {
  }

  lemma Division(x: int, a: int)
    requires a > 0
    ensures x / a * a <= x < x / a * a + a
  {
  }

  lemma MulMod(q: int, a: int)
    requires a > 0
    ensures (q * a) % a == 0
  {
    var d, r := (q * a) / a, (q * a) % a;
    NoGap(q - d, a, r);
  }

  lemma NoGap(k: int, a: int, r: int)
    requires a > 0 && 0 <= r < a && k * a == r
    ensures r == 0
  {
    assert k >= 1 ==> k * a >= a;
    assert k <= -1 ==> k * a <= -a;
  }

  lemma SmallPowers(a: int)
    requires PowerOfTwo(a) && a <= 16
    ensures a == 1 || a == 2 || a == 4 || a == 8 || a == 16
  {
    assert PowerOfTwo(1) && PowerOfTwo(2) && PowerOfTwo(4) && PowerOfTwo(8);
    hide PowerOfTwo;
    if 2 < a < 4 {
      NotBetween(a, 2);
    } else if 4 < a < 8 {
      NotBetween(a, 4);
    } else if 8 < a < 16 {
      NotBetween(a, 8);
    } else {
      PowerPositive(a);
    }
  }

  lemma PowerPositive(a: int)
    requires PowerOfTwo(a)
    ensures a >= 1
  {
  }

  /** Every cell is aligned for the powers of two up to 16 bytes. */
  lemma SmallAlignment(alignment: int, r: int)
    requires alignment <= 16
    ensures PowerOfTwo(alignment) ==> 16 * r % alignment == 0
  {
    if PowerOfTwo(alignment) {
      hide PowerOfTwo;
      SmallPowers(alignment);
      Sixteenths(alignment, r);
    }
  }

  lemma Sixteenths(a: int, r: int)
    requires a == 1 || a == 2 || a == 4 || a == 8 || a == 16
    ensures 16 * r % a == 0
  {
    var q := 16 / a;
    assert q * a == 16;
    MulMod(q * r, a);
    assert q * r * a == 16 * r;
  }

  /** A cell index that is a multiple of a/16 is a byte address that is a multiple of a. */
  lemma CellAlignment(r: int, al: int)
    requires al >= 16 && al % 16 == 0 && r % (al / 16) == 0
    ensures 16 * r % al == 0
  {
    var a := al / 16;
    var q := r / a;
    assert 16 * r == q * al;
    MulMod(q, al);
  }

  /** The block of the chunk at cell c is aligned to a cells. */
  predicate CellAligned(c: int, a: int) { a > 0 && (c + 1) % a == 0 }

  /** The first cell from p on whose block is aligned and that is p itself or leaves a chunk before it. */
  ghost predicate FirstAligned(p: int, a: int, q: int) {
    && p <= q && CellAligned(q, a) && (q == p || q - p >= MINSIZE)
    && forall c :: p <= c < q && CellAligned(c, a) ==> p < c < p + MINSIZE
  }

  lemma SpotAligned(p: int, a: int, q: int)
    requires FirstAligned(p, a, q)
    ensures a > 0 && (q + 1) % a == 0
  {
  }

  lemma FirstSpot(p: int, a: int, q: int)
    requires a >= 2 && !CellAligned(p, a)
    requires var c := RoundUp(p + 1, a) - 1; q == if c - p < MINSIZE then c + a else c
    ensures FirstAligned(p, a, q)
  {
    RoundUpIs(p + 1, a);
    forall c | p <= c < q && CellAligned(c, a) ensures p < c < p + MINSIZE {
      NextMultiple(p + 1, a, c + 1);
    }
  }
}
