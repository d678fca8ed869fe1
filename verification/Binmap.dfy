/** The bitmap over the bins (src/mem/malloc.c): 32-bit words held as integers, and single bits of them. */
module Binmap {

  function Pow2(k: int): (r: int)
    ensures r >= 1
  {
    if k <= 0 then 1 else 2 * Pow2(k - 1)
  }

  predicate Bit(w: int, k: int)
    decreases if k <= 0 then 0 else k
  {
    if k <= 0 then w % 2 == 1 else Bit(w / 2, k - 1)
  }

  /** `w |= 1 << k` */
  function SetBit(w: int, k: int): int
    decreases if k <= 0 then 0 else k
  {
    if k <= 0 then w - w % 2 + 1 else 2 * SetBit(w / 2, k - 1) + w % 2
  }

  /** `w &= ~(1 << k)` */
  function ClearBit(w: int, k: int): int
    decreases if k <= 0 then 0 else k
  {
    if k <= 0 then w - w % 2 else 2 * ClearBit(w / 2, k - 1) + w % 2
  }

  predicate Word(w: int) { 0 <= w < Pow2(32) }

  lemma {:induction false} SetBitIs(w: int, k: int, j: int)
    requires 0 <= k && 0 <= j
    ensures Bit(SetBit(w, k), j) == (j == k || Bit(w, j))
    decreases k
  {
    if k > 0 {
      var x := SetBit(w / 2, k - 1);
      assert (2 * x + w % 2) / 2 == x && (2 * x + w % 2) % 2 == w % 2;
      if j > 0 {
        SetBitIs(w / 2, k - 1, j - 1);
      }
    }
  }

  lemma {:induction false} ClearBitIs(w: int, k: int, j: int)
    requires 0 <= k && 0 <= j
    ensures Bit(ClearBit(w, k), j) == (j != k && Bit(w, j))
    decreases k
  {
    if k > 0 {
      var x := ClearBit(w / 2, k - 1);
      assert (2 * x + w % 2) / 2 == x && (2 * x + w % 2) % 2 == w % 2;
      if j > 0 {
        ClearBitIs(w / 2, k - 1, j - 1);
      }
    }
  }

  lemma {:induction false} SetBitRange(w: int, k: int, n: int)
    requires 0 <= k < n && 0 <= w < Pow2(n)
    ensures 0 <= SetBit(w, k) < Pow2(n) && 0 <= ClearBit(w, k) <= w
    decreases k
  {
    if k > 0 {
      SetBitRange(w / 2, k - 1, n - 1);
    }
  }

  /** `bit > map`: no bit from k on is set. */
  lemma {:induction false} NoneFrom(w: int, k: int, j: int)
    requires 0 <= k <= j && 0 <= w < Pow2(k)
    ensures !Bit(w, j)
    decreases j
  {
    if k > 0 {
      NoneFrom(w / 2, k - 1, j - 1);
    } else if j > 0 {
      NoneFrom(w / 2, 0, j - 1);
    }
  }

  /** Otherwise there is one: passing a clear bit keeps the map at least as large as the next bit. */
  lemma {:induction false} StillOne(w: int, k: int)
    requires 0 <= k && Pow2(k) <= w && !Bit(w, k)
    ensures Pow2(k + 1) <= w
    decreases k
  {
    if k > 0 {
      StillOne(w / 2, k - 1);
    }
  }

  lemma {:induction false} PowMono(j: int, k: int)
    requires 0 <= j <= k
    ensures Pow2(j) <= Pow2(k)
    decreases k
  {
    if j < k {
      PowMono(j, k - 1);
    }
  }
}
