/** Request sizes and bin indices of the allocator (src/mem/malloc.c).

    Chunk sizes count 16-byte cells.  `LargeBinIndex` computes on bytes, step by step as the source
    does, with the wrap-around of its 32-bit unsigned arithmetic written out. */
module BinIndex {
  import opened Basics

  const NBINS: int := 96
  const NFASTBINS: int := 11
  const MINSIZE: int := 2           // in cells
  const MAX_FAST: int := 5          // largest size kept in a fastbin, in cells
  const MIN_LARGE: int := 16        // MIN_LARGE_SIZE, in cells

  // ---------- request sizes ----------

  predicate RequestOutOfRange(bytes: int) {
    bytes >= TWO_64 - 64
  }

  /** Size in cells of the chunk that serves a request of `bytes` bytes: the usable part of an
      nb-cell chunk is 16 * nb - 8 bytes. */
  function RequestToCells(bytes: int): (nb: int)
    requires 0 <= bytes < TWO_64
    ensures !RequestOutOfRange(bytes) ==> nb >= MINSIZE && 16 * nb - 8 >= bytes
    ensures !RequestOutOfRange(bytes) && nb > MINSIZE ==> 16 * nb - 8 < bytes + 16
  {
    var padded := (bytes + 23) % TWO_64;
    if padded < 32 then 2 else padded / 16
  }

  lemma RequestBound(bytes: int)
    requires 0 <= bytes < TWO_64 && !RequestOutOfRange(bytes)
    ensures 2 <= RequestToCells(bytes) && 16 * RequestToCells(bytes) < TWO_64
  {
  }

  /** The size handed to the nested allocation calls, `nb - MALLOC_ALIGN_MASK`, is padded back to nb, or
      refused if nb is at the very end of the range. */
  lemma RequestAgain(nb: int)
    requires MINSIZE <= nb && 16 * nb < TWO_64
    ensures 0 <= 16 * nb - 15 < TWO_64
    ensures RequestOutOfRange(16 * nb - 15) <==> 16 * nb >= TWO_64 - 48
    ensures !RequestOutOfRange(16 * nb - 15) ==> RequestToCells(16 * nb - 15) == nb
  {
  }

  // ---------- bin indices ----------

  function Shl32(x: int, k: int): int
    decreases if k <= 0 then 0 else k
  {
    if k <= 0 then x % TWO_32 else Shl32(2 * x, k - 1)
  }

  /** `((x - c) >> 16) & w` on 32-bit unsigned words, for a power of two w. */
  function Borrow(x: int, c: int, w: int): int
    requires w > 0
  {
    (x - c) % TWO_32 / 0x1_0000 / w % 2 * w
  }

  function AndNot(x: int, y: int): int
    requires 0 <= x && 0 <= y
  {
    if x == 0 then 0 else 2 * AndNot(x / 2, y / 2) + (if x % 2 == 1 && y % 2 == 0 then 1 else 0)
  }

  /** The branch-free search for the highest set bit of x: its last two steps, ... */
  function Tail(x1: int): int {
    var m1 := Borrow(x1, 0x1000, 4);
    var x2 := Shl32(x1, m1);
    var m2 := Borrow(x2, 0x4000, 2);
    var x3 := Shl32(x2, m2) / 0x4000;
    13 - m1 - m2 + AndNot(x3, x3 / 2)
  }

  /** ... and the whole of it.  For x = 0 the source's unsigned result wraps to 2^32 - 1; it is -1 here,
      which gives the same index since that is computed modulo 2^32. */
  function HighestBit(x: int): int {
    var n := Borrow(x, 0x100, 8);
    Tail(Shl32(x, n)) - n
  }

  function Shr(x: int, k: int): int
    decreases if k <= 0 then 0 else k
  {
    if k <= 0 then x else Shr(x / 2, k - 1)
  }

  /** largebin_index on a 32-bit size in bytes. */
  function LargeIndex(sz: int): int {
    var x := sz / 0x100;
    if x >= 0x1_0000 then NBINS - 1 else IndexAt(sz, HighestBit(x))
  }

  function IndexAt(sz: int, m: int): int { 32 + 4 * m + Shr(sz, m + 6) % 4 }

  /** largebin_index as it is called: its parameter is an unsigned int, so the size is cut to 32 bits. */
  function LargeBinIndex(bytes: int): int { LargeIndex(bytes % TWO_32) }

  /** bin_index of a chunk of sz cells. */
  function BinOf(sz: int): int
    requires 0 <= sz
  {
    if sz < MIN_LARGE then 2 * sz else LargeBinIndex(16 * sz)
  }

  function FastBinOf(sz: int): int { 2 * sz - 2 }

  lemma BorrowIs(x: int, c: int, w: int)
    requires 0 <= x < 0x1_0000 && 0 <= c <= 0x1_0000 && (w == 8 || w == 4 || w == 2)
    ensures Borrow(x, c, w) == if x < c then w else 0
  {
    if x < c {
      assert (x - c) % TWO_32 == x - c + TWO_32;
      assert (x - c + TWO_32) / 0x1_0000 == 0xFFFF;
    } else {
      assert (x - c) / 0x1_0000 == 0;
    }
  }

  lemma ShrTable(x: int)
    requires x >= 0
    ensures Shr(x, 8) == x / 0x100 && Shr(x, 9) == x / 0x200 && Shr(x, 10) == x / 0x400 && Shr(x, 11) == x / 0x800
    ensures Shr(x, 12) == x / 0x1000 && Shr(x, 13) == x / 0x2000 && Shr(x, 14) == x / 0x4000 && Shr(x, 15) == x / 0x8000
  {
    ShrSplit(x, 4, 4);
    assert Shr(x, 4) == x / 16;
    assert forall y :: Shr(y, 4) == y / 16;
    ShrSplit(x, 8, 1); ShrSplit(x, 8, 2); ShrSplit(x, 8, 3);
    ShrSplit(x, 8, 4); ShrSplit(x, 12, 1); ShrSplit(x, 12, 2); ShrSplit(x, 12, 3);
  }

  lemma {:induction false} ShrSplit(x: int, a: int, b: int)
    requires a >= 0 && b >= 0
    ensures Shr(x, a + b) == Shr(Shr(x, a), b)
    decreases a
  {
    if a > 0 {
      ShrSplit(x / 2, a - 1, b);
    }
  }

  lemma {:induction false} ShrMono(x: int, y: int, k: int)
    requires x <= y
    ensures Shr(x, k) <= Shr(y, k)
    decreases if k <= 0 then 0 else k
  {
    if k > 0 {
      ShrMono(x / 2, y / 2, k - 1);
    }
  }

  /** One step of the search: x is shifted by w bits when it is below c. */
  lemma Stage(x: int, c: int, w: int)
    requires 1 <= x < 0x1_0000
    requires (w == 8 && c == 0x100) || (w == 4 && c == 0x1000) || (w == 2 && c == 0x4000)
    ensures Borrow(x, c, w) == if x < c then w else 0
    ensures w == 8 ==> Shl32(x, Borrow(x, c, w)) == if x < c then 256 * x else x
    ensures w == 4 ==> Shl32(x, Borrow(x, c, w)) == if x < c then 16 * x else x
    ensures w == 2 ==> Shl32(x, Borrow(x, c, w)) == if x < c then 4 * x else x
  {
    hide Borrow;
    BorrowIs(x, c, w);
    assert Shl32(x, 2) == 4 * x % TWO_32;
    assert Shl32(x, 4) == Shl32(4 * x, 2) == 16 * x % TWO_32;
    assert Shl32(x, 8) == Shl32(4 * x, 6) == Shl32(16 * x, 4) == Shl32(64 * x, 2) == 256 * x % TWO_32;
  }

  ghost predicate IsLog(x: int, m: int) { 0 <= m <= 15 && Shr(x, m) == 1 }

  lemma TailIsLog(x: int)
    requires 0x100 <= x < 0x1_0000
    ensures 8 <= Tail(x) && IsLog(x, Tail(x))
  {
    hide Shr, AndNot, Shl32, Borrow;
    ShrTable(x);
    Stage(x, 0x1000, 4);
    var x2 := if x < 0x1000 then 16 * x else x;
    Stage(x2, 0x4000, 2);
    var x3 := if x2 < 0x4000 then 4 * x2 else x2;
    TopBits(x3 / 0x4000);
  }

  lemma FirstStep(x: int)
    requires 1 <= x < 0x1_0000
    ensures HighestBit(x) == if x < 0x100 then Tail(256 * x) - 8 else Tail(x)
  {
    hide Tail;
    Stage(x, 0x100, 8);
  }

  lemma TopBits(x: int)
    requires 1 <= x <= 3
    ensures AndNot(x, x / 2) == if x == 1 then 1 else 2
  {
    assert AndNot(0, 0) == 0;
  }

  lemma HighestBitIsLog(x: int)
    requires 1 <= x < 0x1_0000
    ensures IsLog(x, HighestBit(x))
  {
    hide HighestBit, Tail, Shr;
    FirstStep(x);
    if x < 0x100 {
      TailIsLog(256 * x);
      Less8(x, Tail(256 * x));
    } else {
      TailIsLog(x);
    }
  }

  lemma Less8(x: int, m: int)
    requires 8 <= m && IsLog(256 * x, m)
    ensures IsLog(x, m - 8)
  {
    ShrSplit(256 * x, 8, m - 8);
    ShrSplit(256 * x, 4, 4);
    assert Shr(256 * x, 4) == 16 * x && Shr(16 * x, 4) == x;
  }

  // ---------- bins are ordered by size ----------

  lemma LargeIndexAt(s: int) returns (m: int)
    requires 0x100 <= s < 0x100_0000
    ensures IsLog(s / 0x100, m) && LargeIndex(s) == IndexAt(s, m)
  {
    hide HighestBit;
    m := HighestBit(s / 0x100);
    HighestBitIsLog(s / 0x100);
  }

  lemma {:induction false} ShrZero(k: int)
    ensures Shr(0, k) == 0
    decreases if k <= 0 then 0 else k
  {
    if k > 0 {
      ShrZero(k - 1);
    }
  }

  lemma LogMono(x: int, m: int, y: int, n: int)
    requires IsLog(x, m) && IsLog(y, n) && x <= y
    ensures m <= n
  {
    if n < m {
      ShrMono(x, y, n);
      ShrSplit(x, n, m - n);
      ShrMono(Shr(x, n), 1, m - n);
      ShrZero(m - n - 1);
    }
  }

  lemma Leading(s: int, m: int)
    requires 0 <= s && IsLog(s / 0x100, m)
    ensures 4 <= Shr(s, m + 6) < 8
  {
    ShrSplit(s, 4, 4);
    assert Shr(s, 4) == s / 16 && Shr(s, 8) == s / 0x100;
    ShrSplit(s, 8, m);
    ShrSplit(s, m + 6, 2);
    assert Shr(Shr(s, m + 6), 2) == Shr(s, m + 6) / 4;
  }

  lemma IndexRange(s: int, m: int)
    requires 0 <= m <= 15
    ensures 32 <= IndexAt(s, m) <= NBINS - 1 && 32 + 4 * m <= IndexAt(s, m) <= 35 + 4 * m
  {
  }

  lemma IndexMono(s: int, m: int, t: int, n: int)
    requires 0 <= s <= t && IsLog(s / 0x100, m) && IsLog(t / 0x100, n)
    ensures IndexAt(s, m) <= IndexAt(t, n)
  {
    LogMono(s / 0x100, m, t / 0x100, n);
    if m == n {
      Leading(s, m);
      Leading(t, m);
      ShrMono(s, t, m + 6);
    } else {
      hide IndexAt, IsLog;
      IndexRange(s, m);
      IndexRange(t, n);
    }
  }

  /** Larger sizes have larger indices, within the 32-bit range of largebin_index. */
  lemma LargeMono(s: int, t: int)
    requires 0x100 <= s <= t < TWO_32
    ensures 32 <= LargeIndex(s) <= LargeIndex(t) <= NBINS - 1
  {
    hide HighestBit, IndexAt;
    if s < 0x100_0000 {
      var m := LargeIndexAt(s);
      IndexRange(s, m);
      if t < 0x100_0000 {
        var n := LargeIndexAt(t);
        IndexRange(t, n);
        IndexMono(s, m, t, n);
      }
    }
  }

  predicate ChunkSize(sz: int) { MINSIZE <= sz && 16 * sz < TWO_32 }

  /** Every chunk size below 4 GiB has a bin, and a higher bin holds only larger chunks. */
  lemma BinsOrdered(s: int, t: int)
    requires ChunkSize(s) && ChunkSize(t)
    ensures 2 <= BinOf(s) < NBINS && 2 <= BinOf(t) < NBINS
    ensures BinOf(s) < BinOf(t) ==> s < t
  {
    hide LargeIndex;
    if s >= MIN_LARGE {
      LargeMono(16 * s, 16 * s);
    }
    if t >= MIN_LARGE {
      LargeMono(16 * t, 16 * t);
      if t <= s {
        LargeMono(16 * t, 16 * s);
      }
    }
  }

  /** A small bin holds chunks of one size. */
  lemma SmallBin(s: int)
    requires ChunkSize(s)
    ensures BinOf(s) < 32 <==> s < MIN_LARGE
  {
    hide LargeIndex;
    if s >= MIN_LARGE {
      LargeMono(16 * s, 16 * s);
    }
  }

  lemma LastBin()
    ensures LargeIndex(0xE0_0000) == 95 && LargeIndex(0xDF_FFFF) == 94
  {
    hide LargeIndex;
    var m := LargeIndexAt(0xE0_0000);
    var n := LargeIndexAt(0xDF_FFFF);
    LogOf(0xE000, m);
    LogOf(0xDFFF, n);
    ShrTable(0xE0_0000);
    ShrTable(0xDF_FFFF);
    ShrSplit(0xE0_0000, 15, 6);
    ShrSplit(0xDF_FFFF, 15, 6);
    ShrSplit(448, 4, 2);
    ShrSplit(447, 4, 2);
  }

  lemma LogOf(x: int, m: int)
    requires 0x8000 <= x < 0x1_0000 && IsLog(x, m)
    ensures m == 15
  {
    ShrTable(x);
    assert IsLog(x, 15);
    LogMono(x, m, x, 15);
    LogMono(x, 15, x, m);
  }

  /** A request whose search may start at the next bin: that search takes the first chunk it finds,
      without comparing sizes again. */
  predicate Searchable(nb: int) { 16 * nb < TWO_32 || 16 * nb % TWO_32 >= 0xE0_0000 }

  /** The search beyond the bin of the request finds only chunks that are large enough, for every
      request below 4 GiB and for exactly those larger ones whose low 32 bits fall into the last bin. */
  lemma HigherBinsFit(nb: int)
    requires MINSIZE <= nb
    ensures Searchable(nb) <==> forall t :: ChunkSize(t) && BinOf(t) > BinOf(nb) ==> t >= nb
  {
    hide LargeIndex;
    LastBin();
    var low := 16 * nb % TWO_32;
    if 16 * nb < TWO_32 {
      forall t | ChunkSize(t) && BinOf(t) > BinOf(nb) ensures t >= nb {
        BinsOrdered(nb, t);
      }
    } else if low >= 0xE0_0000 {
      LargeMono(0xE0_0000, low);
      forall t | ChunkSize(t) ensures BinOf(t) <= BinOf(nb) {
        BinsOrdered(t, t);
      }
    } else {
      if low >= 0x100 {
        LargeMono(low, 0xDF_FFFF);
      } else {
        TinyIndex(low);
      }
      assert ChunkSize(0xE_0000) && BinOf(0xE_0000) == 95;
    }
  }

  /** A request of 4 GiB is looked up like one of a few bytes, and a chunk of 14 MiB counts as large enough. */
  lemma FourGigabytes()
    ensures !Searchable(0x1000_0000) && ChunkSize(0xE_0000) && BinOf(0xE_0000) > BinOf(0x1000_0000)
  {
    hide LargeIndex;
    LastBin();
    TinyIndex(0);
  }

  lemma SearchableBin(nb: int)
    requires MINSIZE <= nb && Searchable(nb)
    ensures 4 <= BinOf(nb) < NBINS && (nb < MIN_LARGE ==> BinOf(nb) == 2 * nb)
    ensures (16 * nb >= TWO_32 ==> BinOf(nb) == NBINS - 1)
  {
    hide LargeIndex;
    LastBin();
    var low := 16 * nb % TWO_32;
    if 16 * nb < TWO_32 {
      if nb >= MIN_LARGE {
        LargeMono(16 * nb, 16 * nb);
      }
    } else {
      LargeMono(0xE0_0000, low);
    }
  }

  lemma TinyIndex(low: int)
    requires 0 <= low < 0x100
    ensures LargeIndex(low) <= 31
  {
    hide HighestBit, Shr;
    HighestBitOfZero();
  }

  lemma HighestBitOfZero()
    ensures HighestBit(0) == -1
  {
    hide Shl32, Borrow;
    BorrowIs(0, 0x100, 8);
    BorrowIs(0, 0x1000, 4);
    BorrowIs(0, 0x4000, 2);
    ShlZero(8);
    ShlZero(4);
    ShlZero(2);
  }

  lemma {:induction false} ShlZero(k: int)
    ensures Shl32(0, k) == 0
    decreases if k <= 0 then 0 else k
  {
    if k > 0 {
      ShlZero(k - 1);
    }
  }
}
