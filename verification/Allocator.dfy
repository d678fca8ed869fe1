/** The heap as an object (src/mem/malloc.c): `mALLOc`, `fREe`, `rEALLOc`, `mEMALIGn` and the loops inside them,
    over a memory of 16-byte cells.  Each method is proved against what it does to the chunks in the ghost heap h;
    the lemmas before the class say what single groups of writes do to the flags, the bitmap and the live blocks. */
module Allocator {
  import opened Basics
  import opened BinIndex
  import opened Binmap
  import opened Chunks
  import opened Rings
  import opened FreeLists
  import opened Heap
  import opened Reshape
  import opened Steps
  import opened Release
  import opened Carving
  import opened BestFit
  import opened Resting
  import opened Choosing
  import opened Resize
  import opened CopyWords
  import opened Morecore
  import opened Alignment

  const UNSORTED: int := 1        // the bin of chunks not yet filed; also the top before the first extension

  const PAGE: int := 256          // a page, in cells
  const CONSOLIDATE: int := 8192  // FASTBIN_CONSOLIDATION_THRESHOLD, in cells

  lemma NoneAtEnd(h: Heap, mem: seq<Cell>, fb: seq<int>)
    requires Inv(h, mem, fb)
    ensures forall n <- View(h) :: n >= 128
  {
    hide Tags, Lists, Blocks;
    ViewFacts(h, mem);
  }

  /** A size rounded up to whole pages. */
  function Pages(x: int): (r: int)
    ensures r % PAGE == 0 && x <= r < x + PAGE
  {
    (x + PAGE - 1) / PAGE * PAGE
  }

  /** The cells that top lacks for a request, in whole pages. */
  function Lack(nb: int, topSize: int): int {
    if topSize >= nb + MINSIZE then 0 else Pages(nb + MINSIZE - topSize)
  }

  lemma PagesAdd(x: int, y: int)
    requires x % PAGE == 0 && y % PAGE == 0
    ensures (x + y) % PAGE == 0
  {
  }

  lemma TopHead(h: Heap, mem: seq<Cell>, fb: seq<int>)
    requires Inv(h, mem, fb)
    ensures 128 <= h.base <= Top(h) <= |mem| - 2 && mem[Top(h)].b / 16 == |mem| - Top(h)
    ensures 16 * (|mem| - h.base) <= TWO_32
  {
    hide Lists, Tags, Blocks, Len;
    SizeWord(mem[Top(h)].b, |mem| - Top(h));
  }

  lemma LiveBound(h: Heap, mem: seq<Cell>, fb: seq<int>)
    requires Inv(h, mem, fb)
    ensures forall n <- Live(View(h)) :: 128 <= n && 2 <= Live(View(h))[n] && n + Live(View(h))[n] < |mem|
  {
    hide Tags, Lists, Blocks, Len;
    ViewFacts(h, mem);
  }

  ghost predicate Marked(binmap: seq<int>, bins: seq<seq<int>>) {
    && |binmap| == 4 && |bins| == NBINS && binmap[3] == 0 && (forall w :: 0 <= w < 4 ==> Word(binmap[w]))
    && (forall i :: 2 <= i < NBINS && bins[i] != [] ==> Bit(binmap[i / 32], i % 32))
  }

  ghost predicate Flags(m: Map, anyChunks: bool, fastChunks: bool) {
    && (forall n <- m :: (m[n].st.Free? ==> anyChunks) && (m[n].st.Fast? ==> fastChunks))
    && (fastChunks ==> anyChunks)
  }

  lemma MarkedRemove(binmap: seq<int>, bins: seq<seq<int>>, i: int, k: int)
    requires Marked(binmap, bins) && 1 <= i < NBINS && 0 <= k < |bins[i]|
    ensures Marked(binmap, bins[i := Without(bins[i], k)])
  {
  }

  lemma MarkedUnsorted(binmap: seq<int>, bins: seq<seq<int>>, s: seq<int>)
    requires Marked(binmap, bins)
    ensures Marked(binmap, bins[1 := s])
  {
  }

  lemma HandedAfter(m: Map, mem: seq<Cell>, m1: Map, mem1: seq<Cell>, m2: Map, mem2: seq<Cell>, p: int, sz: int)
    requires Live(m1) == Live(m) && SameFast(m, m1) && Kept(Live(m), mem, mem1) && |mem1| == |mem|
    requires Handed(m1, mem1, m2, mem2, p, sz)
    ensures Handed(m, mem, m2, mem2, p, sz)
  {
    hide Live, Kept, SameFast, NoLimbo;
    KeptTrans(Live(m), Live(m), mem, mem1, mem2);
    SameFastTrans(m, m1, m2);
  }

  lemma FlagsFrom(m: Map, m': Map, anyChunks: bool, fastChunks: bool, p: int)
    requires Flags(m, anyChunks, fastChunks) && SameFast(m, m') && p in m && m[p].st.Free?
    ensures Flags(m', anyChunks, fastChunks)
  {
  }

  /** In a small bin every place will do. */
  lemma SmallBins(size: int, bin: int, m: Map, s: seq<int>)
    requires ChunkSize(size) && size < MIN_LARGE && bin == BinOf(size)
    requires forall k :: 0 <= k < |s| ==> s[k] in m && ChunkSize(m[s[k]].sz) && BinOf(m[s[k]].sz) == bin
    ensures forall k :: 0 <= k < |s| ==> m[s[k]].sz == size
  {
    forall k | 0 <= k < |s| ensures m[s[k]].sz == size {
      hide LargeIndex;
      SmallBin(m[s[k]].sz);
    }
  }

  /** `mark_bin` */
  function MarkBin(binmap: seq<int>, i: int): seq<int>
    requires 0 <= i / 32 < |binmap|
  {
    binmap[i / 32 := SetBit(binmap[i / 32], i % 32)]
  }

  lemma MarkedInsert(binmap: seq<int>, bins: seq<seq<int>>, i: int, s: seq<int>)
    requires Marked(binmap, bins) && 2 <= i < NBINS
    ensures |binmap| == 4 && Marked(MarkBin(binmap, i), bins[i := s])
  {
    var map', bins' := MarkBin(binmap, i), bins[i := s];
    SetBitRange(binmap[i / 32], i % 32, 32);
    forall j | 2 <= j < NBINS && bins'[j] != [] ensures Bit(map'[j / 32], j % 32) {
      SetBitIs(binmap[i / 32], i % 32, j % 32);
      if j / 32 == i / 32 && j % 32 == i % 32 {
        assert j == i;
      }
    }
  }

  lemma RefiledMap(m: Map, p: int, size: int, bin: int, anyChunks: bool, fastChunks: bool)
    requires p in m && m[p].st.Free? && NoLimbo(m) && Flags(m, anyChunks, fastChunks)
    ensures var m' := m[p := Chunk(size, Limbo)][p := Chunk(size, Free(bin))];
            && Live(m') == Live(m) && SameFast(m, m') && NoLimbo(m') && Flags(m', anyChunks, fastChunks)
            && m' == m[p := Chunk(size, Free(bin))]
  {
  }

  lemma QueueApart(h: Heap, mem: seq<Cell>, fb: seq<int>)
    requires Inv(h, mem, fb)
    ensures |h.bins| == NBINS && Distinct(h.bins[1])
    ensures forall l :: 0 <= l < |h.bins[1]| ==> h.bins[1][l] in View(h) && View(h)[h.bins[1][l]].st == Free(1)
  {
    hide BinOf, Tags, Blocks, FastHomes, Wired, Filed, Len, Distinct;
  }

  lemma WithoutLast(s: seq<int>, t: seq<int>)
    requires s != [] && Distinct(s)
    requires exists l :: 0 <= l < |s| && s[l] == s[|s| - 1] && t == Without(s, l)
    ensures t == s[..|s| - 1]
  {
  }

  /** What `fREe` does with the chunk at p: a small one becomes the head of its fastbin; another is merged with its
      free neighbours, and if that makes a large chunk the fastbins are consolidated. */
  ghost predicate Freed(h: Heap, fastChunks: bool, cells: int, p: int, h': Heap)
    requires p in View(h)
  {
    var size := View(h)[p].sz;
    if size <= MAX_FAST then
      var i := FastBinOf(size);
      && 0 <= i < |h.fast| && h'.fast == h.fast[i := [p] + h.fast[i]] && h'.bins == h.bins && Top(h') == Top(h)
      && View(h') == View(h)[p := Chunk(size, Fast(i))]
    else
      exists q, e :: Gap(View(h), p, q, e)
        && if fastChunks && (if e == Top(h) then cells - q else e - q) >= CONSOLIDATE
           then AtRest(View(h'), h'.base, Top(h')) else Merged(h, q, e, h') && h'.fast == h.fast
  }

  /** A small block that is freed serves the next request of its size, and the heap is as it was. */
  lemma FreedTakenAgain(h: Heap, fastChunks: bool, cells: int, p: int, h1: Heap, last: int, topSize: int, from: Heap,
                        p': int, h2: Heap)
    requires p in View(h) && View(h)[p].st == Used && View(h)[p].sz <= MAX_FAST && Freed(h, fastChunks, cells, p, h1)
    requires From(h1, true, last, topSize, View(h)[p].sz, from) && Takes(from, last, View(h)[p].sz, p', h2)
    ensures p' == p && View(h2) == View(h) && Top(h2) == Top(h)
  {
    hide View, Top, InQueue, FromQueue, NoFit, AllFiled, Regrouped;
    assert InFast(h1, View(h)[p].sz);
  }

  lemma EmptyRests(base: int)
    requires base >= 128
    ensures var h := EmptyHeap(base);
            && !InFast(h, 2) && AtRest(View(h), h.base, Top(h)) && Queue(h) == []
            && (forall i :: 0 <= i < |h.bins| ==> h.bins[i] == [])
            && forall i :: 0 <= i < |h.fast| ==> h.fast[i] == []
  {
  }

  lemma BinFirst(h: Heap, mem: seq<Cell>, fb: seq<int>, i: int) returns (n: int)
    requires Inv(h, mem, fb) && 0 <= i < |h.bins| && h.bins[i] != []
    ensures n in View(h) && View(h)[n].st == Free(i)
  {
    hide BinOf, Tags, Blocks, Wired, Filed, Len, Distinct, View;
    n := h.bins[i][0];
  }

  lemma FastFirst(h: Heap, mem: seq<Cell>, fb: seq<int>, i: int) returns (n: int)
    requires Inv(h, mem, fb) && 0 <= i < |h.fast| && h.fast[i] != []
    ensures n in View(h) && View(h)[n].st == Fast(i)
  {
    hide BinOf, Tags, Blocks, Wired, Filed, Len, Distinct, View;
    n := h.fast[i][0];
  }

  lemma QuietLists(h: Heap, mem: seq<Cell>, fb: seq<int>, anyChunks: bool, fastChunks: bool)
    requires Inv(h, mem, fb) && Flags(View(h), anyChunks, fastChunks) && !anyChunks
    ensures (forall i :: 0 <= i < |h.bins| ==> h.bins[i] == []) && (forall i :: 0 <= i < |h.fast| ==> h.fast[i] == [])
  {
    hide Inv, View;
    forall i | 0 <= i < |h.bins| ensures h.bins[i] == [] {
      if h.bins[i] != [] {
        var n := BinFirst(h, mem, fb, i);
      }
    }
    forall i | 0 <= i < |h.fast| ensures h.fast[i] == [] {
      if h.fast[i] != [] {
        var n := FastFirst(h, mem, fb, i);
      }
    }
  }

  /** A bit found set for an empty bin may be cleared. */
  lemma MarkedClear(binmap: seq<int>, bins: seq<seq<int>>, b: int, k: int)
    requires Marked(binmap, bins) && 0 <= b < 3 && 0 <= k < 32 && (32 * b + k >= 2 ==> bins[32 * b + k] == [])
    ensures Marked(binmap[b := ClearBit(binmap[b], k)], bins)
  {
    var map' := binmap[b := ClearBit(binmap[b], k)];
    SetBitRange(binmap[b], k, 32);
    forall j | 2 <= j < NBINS && bins[j] != [] ensures Bit(map'[j / 32], j % 32) {
      ClearBitIs(binmap[b], k, j % 32);
      assert j == 32 * (j / 32) + j % 32;
    }
  }

  /** A map word without bits from k on says that the bins from there to the end of the block are empty. */
  lemma HollowWord(binmap: seq<int>, bins: seq<seq<int>>, b: int, k: int, lo: int)
    requires Marked(binmap, bins) && 0 <= b < 3 && 0 <= k <= 32 && 2 <= lo && Hollow(bins, lo, 32 * b + k)
    requires k == 32 || Pow2(k) > binmap[b]
    ensures Hollow(bins, lo, 32 * (b + 1))
  {
    forall j | lo <= j < 32 * (b + 1) && 0 <= j < |bins| ensures bins[j] == [] {
      if j >= 32 * b + k {
        assert j / 32 == b && j % 32 == j - 32 * b;
        NoneFrom(binmap[b], k, j % 32);
      }
    }
  }

  lemma HollowBit(binmap: seq<int>, bins: seq<seq<int>>, b: int, k: int, lo: int)
    requires Marked(binmap, bins) && 0 <= b < 3 && 0 <= k < 32 && 2 <= lo && Hollow(bins, lo, 32 * b + k)
    requires !Bit(binmap[b], k)
    ensures Hollow(bins, lo, 32 * b + k + 1)
  {
    forall j | lo <= j < 32 * b + k + 1 && 0 <= j < |bins| ensures bins[j] == [] {
      if j == 32 * b + k {
        assert j / 32 == b && j % 32 == k;
      }
    }
  }

  lemma MarkedWords(binmap: seq<int>, bins: seq<seq<int>>)
    requires Marked(binmap, bins)
    ensures |binmap| == 4 && |bins| == NBINS && binmap[3] == 0 && forall w :: 0 <= w < 4 ==> 0 <= binmap[w] < Pow2(32)
  {
  }

  lemma PowLess(k: int, w: int)
    requires 0 <= k && Pow2(k) <= w < Pow2(32)
    ensures k < 32
  {
    if k >= 32 {
      PowMono(32, k);
    }
  }

  /** An allocation seen by the client: one more live block, and the data of the others is kept. */
  ghost predicate Served(live: map<int, int>, mem: seq<Cell>, live': map<int, int>, mem': seq<Cell>, p: int, sz: int) {
    p !in live && live' == live[p := sz] && Kept(live, mem, mem')
  }

  lemma EmptyFacts(base: int, mem: seq<Cell>, mem': seq<Cell>)
    requires |mem| <= |mem'|
    ensures View(EmptyHeap(base)) == map[] && NoLimbo(map[]) && Flags(map[], false, false)
    ensures Kept(Live(map[]), mem, mem')
  {
  }

  lemma ServedAfter(live: map<int, int>, mem: seq<Cell>, mem1: seq<Cell>, live': map<int, int>, mem2: seq<Cell>,
                    p: int, sz: int)
    requires Kept(live, mem, mem1) && Served(live, mem1, live', mem2, p, sz)
    ensures Served(live, mem, live', mem2, p, sz)
  {
    hide Kept;
    KeptTrans(live, live, mem, mem1, mem2);
  }

  /** What happens to one block: its size becomes sz and its first `keep` cells are kept. */
  ghost predicate Resized(live: map<int, int>, mem: seq<Cell>, live': map<int, int>, mem': seq<Cell>, p: int,
                          keep: int, sz: int) {
    && p in live && live' == live[p := sz] && Kept(live - {p}, mem, mem') && SameData(mem, mem', p, keep)
    && 2 <= keep <= live[p]
  }

  lemma CutMap(m: Map, p: int, n: int, r: int)
    requires p in m && m[p].st == Used && p + n !in m && n > 0 && NoLimbo(m)
    ensures var m' := m[p := Chunk(n, Used)][p + n := Chunk(r, Used)];
            && Live(m') == Live(m)[p := n][p + n := r] && Live(m') - {p + n} == Live(m)[p := n] && NoLimbo(m')
            && SameFast(m, m')
            && SameFree(m, m')
  {
  }

  lemma FlagsSame(m: Map, m': Map, anyChunks: bool, fastChunks: bool)
    requires Flags(m, anyChunks, fastChunks) && SameFast(m, m') && (SameFree(m, m') || anyChunks)
    ensures Flags(m', anyChunks, fastChunks)
  {
  }

  lemma ViewLive(m: Map, p: int)
    requires p in m && m[p].st == Used
    ensures p in Live(m) && Live(m)[p] == m[p].sz
  {
  }

  lemma LiveView(m: Map, p: int)
    requires p in Live(m)
    ensures p in m && m[p].st == Used && m[p].sz == Live(m)[p]
  {
  }

  lemma KeptAt(live: map<int, int>, mem: seq<Cell>, mem': seq<Cell>, p: int)
    requires Kept(live, mem, mem') && p in live
    ensures SameData(mem, mem', p, live[p])
  {
  }

  lemma SameDataTrans(mem: seq<Cell>, mem1: seq<Cell>, mem2: seq<Cell>, p: int, sz: int)
    requires SameData(mem, mem1, p, sz) && SameData(mem1, mem2, p, sz) && |mem| <= |mem1|
    ensures SameData(mem, mem2, p, sz)
  {
  }

  /** The first n cells of the client's part of the block at p are found in the block at p'. */
  ghost predicate SameBlock(mem: seq<Cell>, p: int, mem': seq<Cell>, p': int, n: int) {
    && 0 <= p && 0 <= p' && 0 <= n && p + n < |mem| && p' + n < |mem'|
    && (forall c :: p' < c < p' + n ==> mem'[c] == mem[c - p' + p])
    && mem'[p' + n].a == mem[p + n].a
  }

  lemma CopyIsData(mem: seq<Cell>, mem': seq<Cell>, p: int, q: int, n: int, sz: int)
    requires 2 <= n <= sz && 0 <= p && 0 <= q && p + n < |mem| && q + sz < |mem|
    requires Copied(mem, mem', 2 * (p + 1), 2 * (q + 1), 2 * n - 1)
    ensures DataOnly(mem, mem', q, sz) && SameBlock(mem, p, mem', q, n) && |mem'| == |mem|
  {
    hide Copied;
    CopiedCells(mem, mem', p + 1, q + 1, n);
    assert mem'[q + n] == Cell(mem[p + n].a, mem[q + n].b);
  }

  lemma SameBlockKept(mem: seq<Cell>, p: int, mem': seq<Cell>, q: int, n: int, live: map<int, int>, mem'': seq<Cell>)
    requires SameBlock(mem, p, mem', q, n) && Kept(live, mem', mem'') && q in live && 1 <= n <= live[q]
    requires q + live[q] < |mem'|
    ensures SameBlock(mem, p, mem'', q, n)
  {
    assert SameData(mem', mem'', q, live[q]);
    assert n < live[q] ==> mem''[q + n] == mem'[q + n];
  }

  /** What realloc promises: the block at p is replaced by one of sz cells at p', the first cells up to the
      smaller of the two sizes are the same, and no other block is touched. */
  ghost predicate Moved(live: map<int, int>, mem: seq<Cell>, live': map<int, int>, mem': seq<Cell>, p: int, p': int,
                        sz: int) {
    && p in live && p' !in live - {p} && live' == (live - {p})[p' := sz] && Kept(live - {p}, mem, mem')
    && SameBlock(mem, p, mem', p', if live[p] < sz then live[p] else sz)
  }

  lemma ResizedMoved(live: map<int, int>, mem: seq<Cell>, live': map<int, int>, mem': seq<Cell>, p: int, keep: int,
                     sz: int)
    requires Resized(live, mem, live', mem', p, keep, sz) && keep == (if live[p] < sz then live[p] else sz)
    requires 0 <= p && p + live[p] < |mem| <= |mem'|
    ensures Moved(live, mem, live', mem', p, p, sz)
  {
    hide Kept;
  }

  lemma AbsorbedMap(m: Map, p: int, q: int, size: int, anyChunks: bool, fastChunks: bool)
    requires p in m && m[p].st == Used && q in m && m[q].st.Free? && p != q && NoLimbo(m)
    requires Flags(m, anyChunks, fastChunks)
    ensures var m' := (m[q := Chunk(m[q].sz, Limbo)] - {q})[p := Chunk(size, Used)];
            && Live(m') == Live(m)[p := size] && NoLimbo(m') && Flags(m', anyChunks, fastChunks)
            && Live(m[q := Chunk(m[q].sz, Limbo)]) == Live(m) && Live(m) - {p, q} == Live(m) - {p}
  {
  }

  lemma GrownMap(m: Map, p: int, n: int, anyChunks: bool, fastChunks: bool)
    requires p in m && m[p].st == Used && NoLimbo(m) && Flags(m, anyChunks, fastChunks)
    ensures var m' := m[p := Chunk(n, Used)];
            Live(m') == Live(m)[p := n] && NoLimbo(m') && Flags(m', anyChunks, fastChunks)
  {
  }

  lemma JoinedMap(m: Map, p: int, q: int, size: int, anyChunks: bool, fastChunks: bool)
    requires p in m && m[p].st == Used && q in m && m[q].st == Used && p != q && NoLimbo(m)
    requires Flags(m, anyChunks, fastChunks)
    ensures var m' := (m - {q})[p := Chunk(size, Used)];
            Live(m') == (Live(m) - {q})[p := size] && NoLimbo(m') && Flags(m', anyChunks, fastChunks)
  {
  }

  lemma SmallerData(mem: seq<Cell>, mem': seq<Cell>, p: int, n: int, sz: int)
    requires SameData(mem, mem', p, sz) && 0 <= p && 0 < n <= sz && p + sz < |mem|
    ensures SameData(mem, mem', p, n)
  {
  }

  lemma ResizedTwice(live: map<int, int>, mem: seq<Cell>, live1: map<int, int>, mem1: seq<Cell>, live2: map<int, int>,
                     mem2: seq<Cell>,
                     p: int, big: int, sz: int)
    requires p in live && Resized(live, mem, live1, mem1, p, live[p], big)
    requires Resized(live1, mem1, live2, mem2, p, sz, sz)
    requires live[p] <= sz && 0 <= p && p + big < |mem| == |mem1| <= |mem2|
    ensures Moved(live, mem, live2, mem2, p, p, sz)
  {
    hide Kept;
    SmallerData(mem1, mem2, p, live[p], sz);
    hide SameData;
    SameDataTrans(mem, mem1, mem2, p, live[p]);
    assert live1 - {p} == live - {p};
    KeptTrans(live - {p}, live - {p}, mem, mem1, mem2);
    ResizedMoved(live, mem, live2, mem2, p, live[p], sz);
  }

  lemma TrimBound(live: map<int, int>, mem: seq<Cell>, live': map<int, int>, mem': seq<Cell>, p: int, sz: int)
    requires Resized(live, mem, live', mem', p, sz, sz)
    ensures p in live && sz <= live[p]
  {
  }

  lemma ResizedAt(live: map<int, int>, mem: seq<Cell>, live': map<int, int>, mem': seq<Cell>, p: int, keep: int,
                  sz: int)
    requires Resized(live, mem, live', mem', p, keep, sz)
    ensures p in live' && live'[p] == sz
  {
  }

  lemma CopiedMoved(live: map<int, int>, mem: seq<Cell>, mem1: seq<Cell>, live2: map<int, int>, mem2: seq<Cell>,
                    p: int, q: int, sz: int)
    requires p in live && q !in live && live[p] <= sz && Kept(live, mem, mem1) && SameData(mem, mem1, p, live[p])
    requires var live1 := live[q := sz];
             live2 == live1 - {p} && Kept(live1 - {p, q}, mem1, mem2) && SameBlock(mem1, p, mem2, q, live[p])
    requires 0 <= p && 2 <= live[p] && p + live[p] < |mem|
    ensures Moved(live, mem, live2, mem2, p, q, sz)
  {
    assert live[q := sz] - {p, q} == live - {p};
    KeptTrans(live, live - {p}, mem, mem1, mem2);
  }

  lemma JoinedMoved(live: map<int, int>, mem: seq<Cell>, mem1: seq<Cell>, mem2: seq<Cell>, live2: map<int, int>,
                    live3: map<int, int>, mem3: seq<Cell>, p: int, q: int, big: int, sz: int)
    requires p in live && q !in live && Kept(live, mem, mem1) && SameData(mem, mem1, p, live[p]) && live[p] <= sz
    requires var live1 := live[q := big];
             && live2 == (live1 - {q})[p := live[p] + big] && Kept(live1 - {p, q}, mem1, mem2)
             && SameData(mem1, mem2, p, live[p])
    requires Resized(live2, mem2, live3, mem3, p, sz, sz)
    requires 0 <= p && 2 <= live[p] && p + live[p] + big < |mem1| == |mem2| <= |mem3| && p + live[p] < |mem| <= |mem1|
    ensures Moved(live, mem, live3, mem3, p, p, sz)
  {
    var rest := live - {p};
    assert live[q := big] - {p, q} == rest && live2 - {p} == rest;
    KeptTrans(live, rest, mem, mem1, mem2);
    KeptTrans(rest, rest, mem, mem2, mem3);
    SmallerData(mem2, mem3, p, live[p], sz);
    hide Kept;
    SameDataTrans(mem, mem1, mem2, p, live[p]);
    SameDataTrans(mem, mem2, mem3, p, live[p]);
  }

  lemma NotLive(m: Map, p: int)
    requires p !in m
    ensures p !in Live(m)
  {
  }

  /** The alignment that is used for one that is asked for. */
  ghost predicate Chosen(alignment: int, al: int) {
    PowerOfTwo(al) && alignment <= al && 32 <= al && (al == 32 || al < 2 * alignment)
  }

  /** Where the block lies in the chunk at p that was allocated for the padded request. */
  ghost predicate AlignedIn(alignment: int, nb: int, padded: int, p: int, q: int) {
    if alignment <= 16 then padded == nb && q == p
    else exists al :: Chosen(alignment, al) && padded == RequestToCells(Padded(nb, al)) && FirstAligned(p, al / 16, q)
  }

  /** Requests that memalign can pad without wrapping around. */
  ghost predicate Roomy(nb: int, alignment: int) {
    forall al :: Chosen(alignment, al) ==>
      16 * nb + al + 32 < TWO_64 && (RequestOutOfRange(Padded(nb, al)) || Searchable(RequestToCells(Padded(nb, al))))
  }

  /** What the break leaves to the heap: all cells below it, those of top among them, and how far it may go. */
  datatype Room = Room(cells: int, top: int, limit: int)

  /** Top is too small for a request, and the system does not have the pages that it lacks. */
  ghost predicate Short(room: Room, nb: int) {
    room.top < nb + MINSIZE && room.cells + Pages(nb + MINSIZE - room.top) > room.limit
  }

  /** Why `mALLOc` fails. */
  ghost predicate Denied(room: Room, bytes: int) {
    RequestOutOfRange(bytes) || (bytes >= 0 && Short(room, RequestToCells(bytes)))
  }

  /** Why `mEMALIGn` fails: it is the padded request that cannot be served. */
  ghost predicate DeniedAligned(room: Room, alignment: int, bytes: int) {
    if RequestOutOfRange(bytes) || alignment <= 16 then Denied(room, bytes)
    else bytes >= 0 && exists al :: Chosen(alignment, al) && Denied(room, Padded(RequestToCells(bytes), al))
  }

  lemma QuietFast(m: Map, anyChunks: bool, fastChunks: bool)
    requires Flags(m, anyChunks, fastChunks) && !anyChunks
    ensures !fastChunks
  {
  }

  lemma NoFreeFits(h: Heap, anyChunks: bool, fastChunks: bool, nb: int)
    requires (Flags(View(h), anyChunks, fastChunks) && !anyChunks) || View(h) == map[]
    ensures NoFit(View(h), nb)
  {
  }

  class Allocator {
    var mem: seq<Cell>
    var top: int
    var fastbins: seq<int>
    var binmap: seq<int>
    var anyChunks: bool
    var fastChunks: bool
    var lastRemainder: int
    const limit: int                // the break never passes this cell
    ghost var h: Heap

    /** `malloc_init_state` on the zeroed bytes below the break: every bin is an empty ring. */
    constructor (n: int, limit: int)
      requires n >= PAGE && n % PAGE == 0 && 16 * (limit - n) <= TWO_32
      ensures Valid() && Live(View(h)) == map[] && |mem| == n && h.base == n
    {
      mem := seq(n, _ => Cell(0, 0));
      fastbins := seq(NFASTBINS, _ => 0);
      binmap := [0, 0, 0, 0];
      top, anyChunks, fastChunks, lastRemainder := UNSORTED, false, false, 0;
      this.limit := limit;
      h := EmptyHeap(n);
      new;
      var i := 1;
      while i < NBINS
        invariant 1 <= i <= NBINS && |mem| == n && mem[1] == Cell(0, 0)
        invariant forall c :: 2 <= c <= i ==> mem[c] == Cell(c - 1, c - 1)
        modifies this`mem
      {
        mem := SetA(mem, i + 1, i);
        mem := SetB(mem, i + 1, i);
        i := i + 1;
      }
      assert forall j :: 1 <= j < NBINS ==> mem[j + 1] == Cell(j, j) && Joined(mem, j, j);
    }

    ghost predicate Whole()
      reads this
    {
      Inv(h, mem, fastbins) && top == Top(h) && Marked(binmap, h.bins)
    }

    /** `unlink`: takes a free chunk out of its bin. */
    method TakeOut(p: int) returns (ghost i: int, ghost k: int, ghost n: int)
      requires Whole() && p in View(h) && View(h)[p].st.Free?
      modifies this`mem, this`h
      ensures Whole() && h.base == old(h.base) && h.fast == old(h.fast) && |mem| == |old(mem)|
      ensures View(h) == old(View(h))[p := Chunk(old(View(h)[p].sz), Limbo)]
      ensures 0 <= n < |old(h.cs)| && old(Addr(h, n)) == p && h.cs == old(SetStatus(h.cs, n, Limbo))
      ensures i == old(View(h)[p].st.bin) && 1 <= i < NBINS == |old(h.bins)| && 0 <= k < |old(h.bins[i])|
      ensures old(h.bins[i][k]) == p && h.bins == old(h.bins[i := Without(h.bins[i], k)])
      ensures Kept(Live(old(View(h))), old(mem), mem)
    {
      hide Lists, Kept, Live, Len, Blocks, Marked, Arena, Without;
      InvArena(h, mem, fastbins);
      ghost var h', k', n' := UnlinkStep(h, mem, fastbins, p);
      MarkedRemove(binmap, h.bins, View(h)[p].st.bin, k');
      i, k, n := View(h)[p].st.bin, k', n';
      mem := Unlink(mem, p);
      h := h';
    }

    /** The same for the chunk number k, seen from the chunks around it. */
    method TakeNeighbour(p: int, ghost k: int)
      requires Whole() && 0 <= k < |h.cs| && Addr(h, k) == p && h.cs[k].st.Free?
      modifies this`mem, this`h
      ensures Whole() && h.base == old(h.base) && h.fast == old(h.fast) && |mem| == |old(mem)|
      ensures h.cs == old(SetStatus(h.cs, k, Limbo)) && Top(h) == old(Top(h))
      ensures forall l :: 0 <= l <= |h.cs| ==> Addr(h, l) == old(Addr(h, l))
      ensures Live(View(h)) == old(Live(View(h))) && SameFast(old(View(h)), View(h))
      ensures Kept(old(Live(View(h))), old(mem), mem) && |h.bins| == NBINS == |old(h.bins)|
      ensures old(h.bins[1]) == [] || old(h.bins[1]) == [p] ==> h.bins[1] == []
      ensures p in old(View(h)) && View(h) == old(View(h))[p := Chunk(old(h.cs[k]).sz, Limbo)]
      ensures old(h.cs[k]).st == Free(1)
              ==> exists l :: 0 <= l < |old(h.bins[1])| && old(h.bins[1])[l] == p
                              && h.bins[1] == Without(old(h.bins[1]), l)
    {
      hide Lists, Kept, Live, Len, Blocks, Marked, Arena, Inv, SameFast, Tags, Reads;
      InvArena(h, mem, fastbins);
      Scout(h, mem, k);
      UnlinkedMap(View(h), p);
      BinReads(h, mem, fastbins, 1);
      ghost var h0, mem0 := h, mem;
      ghost var b, l, n := TakeOut(p);
      SameIndex(h0, mem0, n, k);
      StatusAddr(h0, h, mem0, k, Limbo);
      if h0.bins[1] == [p] {
        assert h0.bins[1][0] == p;
        assert b == 1 && l == 0 && Without([p], 0) == [];
      }
    }

    /** Backward consolidation: a free chunk before p is taken out of its bin. */
    method GatherBack(p: int, ghost k: int) returns (q: int, size: int, ghost i: int)
      requires Whole() && NoLimbo(View(h)) && 0 <= k < |h.cs| && Addr(h, k) == p && h.cs[k].st == Used
      modifies this`mem, this`h
      ensures Whole() && h.base == old(h.base) && h.fast == old(h.fast) && |mem| == |old(mem)|
      ensures Run(h, i, k, k + 1) && LimboIn(h, i, k + 1) && q == Addr(h, i) && size == Addr(h, k + 1) - q
      ensures Addr(h, k) == p
      ensures |h.cs| == old(|h.cs|) && Top(h) == old(Top(h))
      ensures forall l :: 0 <= l <= |h.cs| ==> Addr(h, l) == old(Addr(h, l))
      ensures Starts(old(h.cs), i, k) && q == old(Addr(h, i)) && q <= p && (q == p <==> i == k)
      ensures View(h) == if i == k then old(View(h)) else old(View(h))[q := Chunk(p - q, Limbo)]
      ensures (k + 1 < |h.cs| ==> h.cs[k + 1] == old(h.cs)[k + 1])
      ensures Live(View(h)) == old(Live(View(h))) && SameFast(old(View(h)), View(h))
      ensures Kept(old(Live(View(h))), old(mem), mem)
    {
      hide Lists, Kept, Live, Len, Blocks, Marked, Arena, Inv, SameFast, Tags;
      InvArena(h, mem, fastbins);
      Scout(h, mem, k);
      LimboNone(h, mem);
      SameFastRefl(View(h));
      KeptRefl(Live(View(h)), mem);
      q, size, i := p, mem[p].b / 16, k;
      if mem[p].b % 2 == 0 {
        var prevsize := mem[p].a / 16;
        if k > 1 {
          BeforeFree(h, mem, k - 1);
        }
        size := size + prevsize;
        q := p - prevsize;
        Scout(h, mem, k - 1);
        TakeNeighbour(q, k - 1);
        i := k - 1;
      }
    }

    /** Forward consolidation: a free chunk after the run is taken out of its bin. */
    method GatherForward(next: int, nextsize: int, ghost i: int, ghost k: int) returns (more: int, ghost j: int)
      requires Whole() && Run(h, i, k, k + 1) && LimboIn(h, i, k + 1) && k + 1 < |h.cs|
      requires next == Addr(h, k + 1) && nextsize == h.cs[k + 1].sz
      modifies this`mem, this`h
      ensures Whole() && h.base == old(h.base) && h.fast == old(h.fast) && |mem| == |old(mem)|
      ensures Run(h, i, k, j) && LimboIn(h, i, j) && k < j < |h.cs| && Addr(h, i) == old(Addr(h, i))
      ensures Addr(h, k) == old(Addr(h, k))
      ensures !IsFree(h.cs[j]) && Addr(h, j) == next + more && Addr(h, k + 1) == next && h.cs[k + 1].sz == nextsize
      ensures more == 0 || (more == nextsize && j == k + 2
                            && 0 <= Addr(h, j) < |mem| && mem[Addr(h, j)].b == 16 * h.cs[j].sz)
      ensures 0 <= more && (more == 0 ==> j == k + 1)
      ensures Ends(old(h.cs), k, j) && Top(h) == old(Top(h)) && Addr(h, j) == old(Addr(h, j))
      ensures View(h) == if more == 0 then old(View(h)) else old(View(h))[next := Chunk(nextsize, Limbo)]
      ensures Live(View(h)) == old(Live(View(h))) && SameFast(old(View(h)), View(h))
      ensures Kept(old(Live(View(h))), old(mem), mem)
    {
      hide Lists, Kept, Live, Len, Blocks, Marked, Arena, Inv, SameFast, Tags;
      InvArena(h, mem, fastbins);
      ScoutNext(h, mem, k);
      SameFastRefl(View(h));
      KeptRefl(Live(View(h)), mem);
      more, j := 0, k + 1;
      if mem[next + nextsize].b % 2 == 0 {
        TakeNeighbour(next, k + 1);
        more, j := nextsize, k + 2;
        InvArena(h, mem, fastbins);
        ScoutNext(h, mem, k);
      }
    }

    /** The run is tagged as one free chunk and put at the front of the unsorted queue. */
    method Enqueue(q: int, size: int, next: int, nextsize: int, ghost i: int, ghost k: int, ghost j: int)
      requires Whole() && Run(h, i, k, j) && LimboIn(h, i, j) && j < |h.cs| && !IsFree(h.cs[j])
      requires q == Addr(h, i) && q + size == Addr(h, j) && next == Addr(h, k + 1) && nextsize == h.cs[k + 1].sz
      requires j == k + 1 || (j == k + 2 && 0 <= Addr(h, j) < |mem| && mem[Addr(h, j)].b == 16 * h.cs[j].sz)
      modifies this`mem, this`h
      ensures Whole() && NoLimbo(View(h)) && h.base == old(h.base) && h.fast == old(h.fast) && |mem| == |old(mem)|
      ensures Live(View(h)) == old(Live(View(h)) - {Addr(h, k)}) && SameFast(old(View(h)), View(h))
      ensures Kept(Live(View(h)), old(mem), mem)
      ensures View(h) == Outside(old(View(h)), q, q + size)[q := Chunk(size, Free(1))] && Top(h) == old(Top(h))
      ensures Queue(h) == [q] + old(Queue(h))
    {
      hide Lists, Kept, Live, Len, Blocks, Marked, Arena, Inv, SameFast, Local, Tags, LinkBetween, FreeTags, NoLimbo,
           LimboIn, Outside;
      InvArena(h, mem, fastbins);
      HeadAt(h, mem, j);
      RunMember(h, mem, i, k, k + 1);
      RunMember(h, mem, i, k, j);
      Scout(h, mem, k);
      Scout(h, mem, i);
      if j == k + 2 {
        RunMember(h, mem, k + 1, k + 1, j);
      }
      FreeTagsLocal(mem, q, next, nextsize, size);
      RunRest(h, mem, i, k, j);
      ghost var h0 := h;
      h := ReleaseStep(h, mem, FreeTags(mem, q, next, nextsize, size), fastbins, i, k, j);
      mem := FreeTags(mem, q, next, nextsize, size);
      mem := LinkBetween(mem, q, UNSORTED, mem[UNSORTED + 1].a);
      OutsideAt(View(h0), q, q + size);
      FreedMap(Outside(View(h0), q, q + size), q, Chunk(size, Free(1)));
      SameFastTrans(View(h0), Outside(View(h0), q, q + size), View(h));
      MarkedUnsorted(binmap, h0.bins, h.bins[1]);
    }

    /** The run, which borders top, becomes part of it. */
    method JoinTop(q: int, size: int, ghost i: int, ghost k: int)
      requires Whole() && Run(h, i, k, |h.cs|) && LimboIn(h, i, |h.cs|) && q == Addr(h, i) && q + size == |mem|
      modifies this`mem, this`h, this`top
      ensures Whole() && NoLimbo(View(h)) && h.base == old(h.base) && h.fast == old(h.fast) && |mem| == |old(mem)|
      ensures Live(View(h)) == old(Live(View(h)) - {Addr(h, k)}) && SameFast(old(View(h)), View(h))
      ensures Kept(Live(View(h)), old(mem), mem)
      ensures View(h) == Outside(old(View(h)), q, old(Top(h))) && Top(h) == q
    {
      hide Lists, Kept, Live, Len, Blocks, Marked, Arena, Inv, SameFast, Tags, NoLimbo, LimboIn, Outside;
      InvArena(h, mem, fastbins);
      IntoTopReady(h, mem, i);
      RunRest(h, mem, i, k, |h.cs|);
      h := IntoTopStep(h, mem, fastbins, i, k);
      mem := SetHead(mem, q, 16 * size + 1);
      top := q;
    }

    /** The consolidation of `fREe` and `malloc_consolidate`: the used chunk at p is merged with its free
        neighbours, from q to e, and joins the unsorted queue or top. */
    method Coalesce(p: int) returns (size: int, ghost q: int, ghost e: int)
      requires Whole() && NoLimbo(View(h)) && p in View(h) && View(h)[p].st == Used
      modifies this`mem, this`h, this`top
      ensures Whole() && NoLimbo(View(h)) && h.base == old(h.base) && h.fast == old(h.fast) && |mem| == |old(mem)|
      ensures Live(View(h)) == old(Live(View(h))) - {p} && SameFast(old(View(h)), View(h))
      ensures Kept(Live(View(h)), old(mem), mem)
      ensures Gap(old(View(h)), p, q, e) && Merged(old(h), q, e, h)
      ensures size == if e == old(Top(h)) then |mem| - q else e - q
    {
      hide Lists, Kept, Live, Len, Blocks, Marked, Arena, Inv, SameFast, Tags, NoLimbo, LimboIn, Top, View, Gap,
           Outside;
      InvArena(h, mem, fastbins);
      ghost var k := IndexOf(h, mem, p);
      Scout(h, mem, k);
      TopHead(h, mem, fastbins);
      var next := p + mem[p].b / 16;
      var nextsize := mem[next].b / 16;
      var q';
      ghost var i;
      ghost var h0, mem0 := h, mem;
      q', size, i := GatherBack(p, k);
      q := q';
      ghost var live, m1, mem1 := Live(View(h)), View(h), mem;
      InvArena(h, mem, fastbins);
      Scout(h, mem, k);
      OutsideBack(View(h0), m1, p, q);
      if next != top {
        var more, j := GatherForward(next, nextsize, i, k);
        SameFastTrans(old(View(h)), m1, View(h));
        KeptTrans(live, live, old(mem), mem1, mem);
        e := next + more;
        GapIs(h0, mem0, i, k, j);
        InvArena(h, mem, fastbins);
        BelowTop(h, mem, j);
        OutsideNext(m1, View(h), q, e, next);
        m1, mem1 := View(h), mem;
        size := size + more;
        Enqueue(q', size, next, nextsize, i, k, j);
      } else {
        size := size + nextsize;
        e := next;
        if k + 1 < |h0.cs| {
          BelowTop(h0, mem0, k + 1);
        }
        GapIs(h0, mem0, i, k, k + 1);
        JoinTop(q', size, i, k);
      }
      SameFastTrans(old(View(h)), m1, View(h));
      KeptTrans(live, Live(View(h)), old(mem), mem1, mem);
    }

    // ---------- free ----------

    ghost predicate Settled()
      reads this
    {
      Whole() && NoLimbo(View(h)) && Flags(View(h), anyChunks, fastChunks)
    }

    /** `malloc_consolidate` on an initialized heap: empties every fastbin.  Each chunk is popped and
        released; the source walks the detached chain instead, which visits the same chunks. */
    method Consolidate()
      requires Settled() && fastChunks
      modifies this`mem, this`h, this`top, this`fastbins, this`fastChunks
      ensures Settled() && !fastChunks && h.base == old(h.base) && |mem| == |old(mem)|
      ensures Live(View(h)) == old(Live(View(h))) && Kept(old(Live(View(h))), old(mem), mem)
    {
      hide Lists, Kept, Live, Len, Blocks, Marked, Arena, Inv, SameFast, Tags, NoLimbo, Top, View;
      InvArena(h, mem, fastbins);
      KeptRefl(Live(View(h)), mem);
      FastRange(h, mem, fastbins);
      var i := 0;
      while i <= FastBinOf(MAX_FAST)
        invariant 0 <= i <= 9 && Whole() && NoLimbo(View(h)) && h.base == old(h.base) && |mem| == |old(mem)|
        invariant Live(View(h)) == old(Live(View(h))) && Kept(old(Live(View(h))), old(mem), mem)
        invariant forall n <- View(h) :: View(h)[n].st.Fast? ==> View(h)[n].st.bin >= i
      {
        ghost var mem0 := mem;
        ConsolidateBin(i);
        KeptTrans(Live(View(h)), Live(View(h)), old(mem), mem0, mem);
        i := i + 1;
      }
      FastRange(h, mem, fastbins);
      fastChunks := false;
    }

    method ConsolidateBin(i: int)
      requires Whole() && NoLimbo(View(h)) && 0 <= i < NFASTBINS
      modifies this`mem, this`h, this`top, this`fastbins
      ensures Whole() && NoLimbo(View(h)) && h.base == old(h.base) && |mem| == |old(mem)|
      ensures Live(View(h)) == old(Live(View(h))) && Kept(old(Live(View(h))), old(mem), mem)
      ensures forall n <- View(h) :: View(h)[n].st.Fast? ==>
                      View(h)[n].st.bin != i && n in old(View(h)) && old(View(h))[n] == View(h)[n]
    {
      hide Lists, Kept, Live, Len, Blocks, Marked, Arena, Inv, Tags, NoLimbo, Top, View;
      InvArena(h, mem, fastbins);
      KeptRefl(Live(View(h)), mem);
      while fastbins[i] != 0
        invariant Whole() && NoLimbo(View(h)) && h.base == old(h.base) && |mem| == |old(mem)|
        invariant |fastbins| == |h.fast| == NFASTBINS
        invariant Live(View(h)) == old(Live(View(h))) && Kept(old(Live(View(h))), old(mem), mem)
        invariant forall n <- View(h) :: View(h)[n].st.Fast? ==> n in old(View(h)) && old(View(h))[n] == View(h)[n]
        decreases |h.fast[i]|
      {
        var p := fastbins[i];
        ghost var h0, live, mem0 := h, Live(View(h)), mem;
        h := PopStep(h, mem, fastbins, i);
        PoppedMap(View(h0), p);
        fastbins := fastbins[i := mem[p + 1].a];
        ghost var m1 := View(h);
        var _, _, _ := Coalesce(p);
        assert SameFast(m1, View(h));
        KeptTrans(live, live, old(mem), mem0, mem);
      }
      NoFast(h, mem, fastbins, i);
    }

    lemma Rests()
      requires Settled() && !fastChunks
      ensures AtRest(View(h), h.base, top) && top == Top(h)
    {
      hide Lists, Kept, Live, Len, Blocks, Marked, Arena, Inv, Tags, NoLimbo, Top, View, AtRest;
      RestingView(h, mem, fastbins);
    }

    /** No chunk has been carved yet. */
    ghost predicate Fresh()
      reads this
    {
      && top == UNSORTED && Bare(mem, fastbins) && h == EmptyHeap(|mem|) && Marked(binmap, h.bins)
      && !anyChunks && !fastChunks && mem[top] == Cell(0, 0)
    }

    ghost predicate Valid()
      reads this
    {
      |mem| % PAGE == 0 && 16 * (limit - h.base) <= TWO_32 && (Fresh() || Settled())
    }

    /** `fREe`: r is the address handed out, one cell after the chunk. */
    method FreeMem(r: int)
      requires Valid() && (r == 0 || r - 1 in Live(View(h)))
      modifies this
      ensures Valid() && |mem| == |old(mem)| && h.base == old(h.base)
      ensures Live(View(h)) == old(Live(View(h))) - {r - 1} && Kept(Live(View(h)), old(mem), mem)
      ensures if r == 0 then h == old(h) && mem == old(mem)
              else r - 1 in old(View(h)) && Freed(old(h), old(fastChunks), |mem|, r - 1, h)
    {
      hide Lists, Kept, Len, Marked, Arena, Inv, Tags, NoLimbo, Top, Freed;
      assert View(EmptyHeap(|mem|)) == map[];
      KeptRefl(Live(View(h)), mem);
      if r != 0 {
        FreeBlock(r - 1);
      } else {
        assert -1 !in View(h) by { if Settled() { NoneAtEnd(h, mem, fastbins); } }
      }
    }

    method FreeBlock(p: int)
      requires Settled() && p in Live(View(h))
      modifies this`mem, this`h, this`top, this`fastbins, this`fastChunks, this`anyChunks
      ensures Settled() && |mem| == |old(mem)| && h.base == old(h.base)
      ensures Live(View(h)) == old(Live(View(h))) - {p} && Kept(Live(View(h)), old(mem), mem)
      ensures p in old(View(h)) && Freed(old(h), old(fastChunks), |mem|, p, h)
    {
      hide Lists, Kept, Len, Blocks, Marked, Arena, Inv, Tags, NoLimbo, Top, View, Gap, Merged, AtRest;
      InvArena(h, mem, fastbins);
      ghost var k := IndexOf(h, mem, p);
      Scout(h, mem, k);
      var size := mem[p].b / 16;
      if size <= MAX_FAST {
        anyChunks, fastChunks := true, true;
        var i := FastBinOf(size);
        PushedMap(View(h), p, i);
        h := PushStep(h, mem, fastbins, p);
        mem := SetA(mem, p + 1, fastbins[i]);
        fastbins := fastbins[i := p];
      } else {
        anyChunks := true;
        ghost var q, e;
        size, q, e := Coalesce(p);
        if size >= CONSOLIDATE && fastChunks {
          ghost var live, mem0 := Live(View(h)), mem;
          Consolidate();
          Rests();
          KeptTrans(live, live, old(mem), mem0, mem);
        }
        assert Gap(old(View(h)), p, q, e);
      }
    }

    // ---------- malloc ----------

    /** A free chunk is carved for the client: whole when less than MINSIZE would be left, else split with
        the remainder as the only unsorted chunk. */
    method Carve(victim: int, nb: int) returns (remainder: int, ghost sz: int)
      requires Settled() && victim in View(h) && View(h)[victim].st.Free? && 2 <= nb <= View(h)[victim].sz
      requires |h.bins| == NBINS && (View(h)[victim].sz - nb < MINSIZE || h.bins[1] == [] || h.bins[1] == [victim])
      modifies this`mem, this`h
      ensures Settled() && h.base == old(h.base) && nb <= sz < nb + 2
      ensures remainder == if old(View(h)[victim].sz) - nb < MINSIZE then 0 else victim + nb
      ensures sz == if old(View(h)[victim].sz) - nb < MINSIZE then old(View(h)[victim].sz) else nb
      ensures Handed(old(View(h)), old(mem), View(h), mem, victim, sz)
      ensures View(h) == old(CarvedFrom(View(h), victim, nb))
    {
      hide Lists, Kept, Len, Blocks, Marked, Arena, Inv, Tags, NoLimbo, Top, View, Live, SameFast, LinkBetween,
           SplitTags;
      InvArena(h, mem, fastbins);
      ghost var k := IndexOf(h, mem, victim);
      Scout(h, mem, k);
      LimboNone(h, mem);
      var size := mem[victim].b / 16;
      TakeNeighbour(victim, k);
      ghost var m1, mem1, bins1 := View(h), mem, h.bins;
      remainder := 0;
      if size - nb < MINSIZE {
        sz := size;
        h := TakeWhole(h, mem, fastbins, k);
        mem := SetInuse(mem, victim + size);
      } else {
        sz := nb;
        remainder := victim + nb;
        h := TakeSplit(h, mem, fastbins, k, nb);
        mem := LinkBetween(SplitTags(mem, victim, nb, size - nb), remainder, UNSORTED, UNSORTED);
        MarkedUnsorted(binmap, bins1, [remainder]);
      }
      HandedAfter(old(View(h)), old(mem), m1, mem1, View(h), mem, victim, sz);
      FlagsFrom(old(View(h)), View(h), anyChunks, fastChunks, victim);
    }

    /** Where a chunk of the given size goes in its bin: at the front of a small bin, in size order in a
        large one. */
    method FindPlace(bin: int, size: int) returns (bck: int, fwd: int, ghost k: int)
      requires Whole() && ChunkSize(size) && bin == BinOf(size) && 2 <= bin < NBINS
      ensures |h.bins| == NBINS && PlaceFor(View(h), h.bins[bin], size, k)
      ensures bck == Ring(bin, h.bins[bin])[k] && fwd == Ring(bin, h.bins[bin])[k + 1]
    {
      hide Lists, Len, Blocks, Marked, Arena, Inv, Tags, Top, View, BinOf;
      BinReads(h, mem, fastbins, bin);
      BinSizes(h, mem, fastbins, bin);
      BinHeads(h, mem, fastbins, bin);
      SizeBound(h, mem, fastbins);
      ghost var s, m := h.bins[bin], View(h);
      bck, fwd, k := bin, mem[bin + 1].a, 0;
      if size < MIN_LARGE {
        SmallBins(size, bin, m, s);
      } else if fwd != bck {
        if 16 * size < mem[mem[bin + 1].b].b {
          fwd, bck, k := bin, mem[bin + 1].b, |s|;
        } else {
          while 16 * size + 1 < mem[fwd].b
            invariant 0 <= k < |s| && fwd == s[k] && (k > 0 ==> m[s[k - 1]].sz >= size)
            decreases |s| - k
          {
            fwd, k := mem[fwd + 1].a, k + 1;
          }
          bck := mem[fwd + 1].b;
        }
      }
    }

    /** A chunk in limbo is filed in the bin of its size. */
    method FileChunk(p: int, size: int)
      requires Whole() && size >= 2 && p in View(h) && View(h)[p] == Chunk(size, Limbo)
      modifies this`mem, this`h, this`binmap
      ensures Whole() && h.base == old(h.base) && h.fast == old(h.fast) && |mem| == |old(mem)|
      ensures |h.bins| == NBINS == |old(h.bins)|
      ensures 2 <= BinOf(size) < NBINS && View(h) == old(View(h))[p := Chunk(size, Free(BinOf(size)))]
      ensures h.bins[1] == old(h.bins[1]) && Kept(old(Live(View(h))), old(mem), mem)
    {
      hide Lists, Len, Blocks, Marked, Arena, Inv, Tags, Top, View, BinOf, Kept, Live, LinkBetween, InsertAt, MarkBin;
      InvArena(h, mem, fastbins);
      SizeBound(h, mem, fastbins);
      BinsOrdered(size, size);
      var bin := BinOf(size);
      var bck, fwd, k := FindPlace(bin, size);
      ghost var h0 := h;
      h := LinkStep(h, mem, fastbins, p, bin, k);
      MarkedInsert(binmap, h0.bins, bin, h.bins[bin]);
      binmap := MarkBin(binmap, bin);
      mem := LinkBetween(mem, p, bck, fwd);
    }

    /** The last unsorted chunk is moved to the bin of its size. */
    method Refile(p: int, size: int)
      requires Settled() && p in View(h) && View(h)[p] == Chunk(size, Free(1)) && size >= 2
      requires |h.bins| == NBINS && h.bins[1] != [] && p == h.bins[1][|h.bins[1]| - 1]
      modifies this`mem, this`h, this`binmap
      ensures Settled() && h.base == old(h.base) && |mem| == |old(mem)| && |h.bins| == NBINS
      ensures h.bins[1] == old(h.bins[1])[..|old(h.bins[1])| - 1]
      ensures View(h) == old(View(h))[p := Chunk(size, Free(BinOf(size)))] && Kept(old(Live(View(h))), old(mem), mem)
      ensures Live(View(h)) == old(Live(View(h))) && SameFast(old(View(h)), View(h))
    {
      hide Lists, Len, Blocks, Marked, Arena, Inv, Tags, Top, View, BinOf, Kept, Live, SameFast, Without;
      InvArena(h, mem, fastbins);
      ghost var k := IndexOf(h, mem, p);
      ghost var m0, s := View(h), h.bins[1];
      QueueApart(h, mem, fastbins);
      TakeNeighbour(p, k);
      WithoutLast(s, h.bins[1]);
      ghost var mem1 := mem;
      FileChunk(p, size);
      KeptTrans(old(Live(View(h))), old(Live(View(h))), old(mem), mem1, mem);
      RefiledMap(m0, p, size, BinOf(size), anyChunks, fastChunks);
    }

    /** An unsorted chunk is taken after others were filed. */
    method TakeUnsorted(victim: int, nb: int, ghost m: Map, ghost mem0: seq<Cell>) returns (rest: int, ghost sz: int)
      requires Settled() && victim in View(h) && View(h)[victim].st.Free? && 2 <= nb <= View(h)[victim].sz
      requires |h.bins| == NBINS && (View(h)[victim].sz - nb < MINSIZE || h.bins[1] == [victim])
      requires Live(View(h)) == Live(m) && SameFast(m, View(h)) && Kept(Live(m), mem0, mem) && |mem| == |mem0|
      modifies this`mem, this`h
      ensures Settled() && h.base == old(h.base) && nb <= sz < nb + 2 && |mem| == |mem0| && |h.bins| == NBINS
      ensures Handed(m, mem0, View(h), mem, victim, sz) && View(h) == old(CarvedFrom(View(h), victim, nb))
      ensures rest == if old(View(h)[victim].sz) - nb < MINSIZE then 0 else victim + nb
    {
      hide Lists, Len, Blocks, Marked, Arena, Inv, Tags, Top, View, Kept, Live, SameFast, NoLimbo, Flags, CarvedFrom;
      ghost var m1, mem1 := View(h), mem;
      rest, sz := Carve(victim, nb);
      HandedAfter(m, mem0, m1, mem1, View(h), mem, victim, sz);
      InvArena(h, mem, fastbins);
    }

    /** The pass over the unsorted queue: the last remainder serves a small request when it is alone there,
        an exact fit is taken at once, every other chunk is filed. */
    method ProcessUnsorted(nb: int) returns (victim: int, ghost sz: int)
      requires Settled() && 2 <= nb && (nb < MIN_LARGE ==> NoExact(View(h), nb))
      modifies this`mem, this`h, this`binmap, this`lastRemainder
      ensures Settled() && h.base == old(h.base) && |mem| == |old(mem)| && |h.bins| == NBINS
      ensures victim == 0 <==> !InQueue(old(View(h)), old(Queue(h)), old(lastRemainder), nb)
      ensures victim == 0 ==> h.bins[1] == [] && Live(View(h)) == old(Live(View(h)))
                              && SameFast(old(View(h)), View(h)) && Kept(old(Live(View(h))), old(mem), mem)
      ensures victim == 0 ==> View(h) == old(AllFiled(h)) && (nb < MIN_LARGE ==> NoExact(View(h), nb))
      ensures victim != 0 ==> nb <= sz < nb + 2 && Handed(old(View(h)), old(mem), View(h), mem, victim, sz)
      ensures victim != 0 ==> FromQueue(old(View(h)), old(Queue(h)), old(lastRemainder), nb, victim, View(h))
      ensures lastRemainder == if victim == 0 then old(lastRemainder)
                               else NextRemainder(old(View(h)), old(lastRemainder), nb, victim)
    {
      hide Lists, Len, Blocks, Marked, Arena, Inv, Tags, Top, View, BinOf, Kept, Live, SameFast, NoLimbo, Flags,
           CarvedFrom, NoExact, Handed, FiledFrom, NoneExactFrom;
      InvArena(h, mem, fastbins);
      KeptRefl(Live(View(h)), mem);
      SameFastRefl(View(h));
      BinReads(h, mem, fastbins, 1);
      QueueApart(h, mem, fastbins);
      ghost var m, s, last := View(h), h.bins[1], lastRemainder;
      FiledNone(m, s);
      NoneAtAll(m, s, nb);
      while mem[UNSORTED + 1].b != UNSORTED
        invariant Settled() && h.base == old(h.base) && |mem| == |old(mem)| && |h.bins| == NBINS && 1 !in h.bins[1]
        invariant Reads(mem, 1, h.bins[1]) && h.bins[1] <= s
        invariant forall k :: 0 <= k < |h.bins[1]| ==> h.bins[1][k] in View(h) && View(h)[h.bins[1][k]].st == Free(1)
        invariant Live(View(h)) == Live(m) && SameFast(m, View(h)) && Kept(Live(m), old(mem), mem)
        invariant View(h) == FiledFrom(m, s, |h.bins[1]|) && lastRemainder == last
        invariant NoneExactFrom(m, s, nb, |h.bins[1]|) && (h.bins[1] == [] ==> !Remainder(m, s, last, nb))
        invariant nb < MIN_LARGE ==> NoExact(View(h), nb)
        decreases |h.bins[1]|
      {
        ghost var m1, mem1, i := View(h), mem, |h.bins[1]|;
        victim := mem[UNSORTED + 1].b;
        var bck := mem[victim + 1].b;
        assert i > 1 ==> h.bins[1][i - 2] in h.bins[1];
        assert victim == s[i - 1] && (bck == UNSORTED <==> i == 1);
        InvArena(h, mem, fastbins);
        FreeHead(h, mem, victim);
        SizeBound(h, mem, fastbins);
        SizeWord(mem[victim].b, View(h)[victim].sz);
        var size := mem[victim].b / 16;
        NotFiled(m, s, i, i - 1);
        NoneExactMore(m, s, nb, i);
        if nb < MIN_LARGE && bck == UNSORTED && victim == lastRemainder && size > nb + MINSIZE {
          lastRemainder, sz := TakeUnsorted(victim, nb, m, old(mem));
          return;
        }
        if size == nb {
          var rest;
          rest, sz := TakeUnsorted(victim, nb, m, old(mem));
          ExactTaken(m, s, last, nb, i - 1, View(h));
          return;
        }
        Refile(victim, size);
        FiledMore(m, s, i, size);
        if nb < MIN_LARGE {
          NoExactMore(m1, victim, size, BinOf(size), nb);
        }
        SameFastTrans(m, m1, View(h));
        KeptTrans(Live(View(h)), Live(View(h)), old(mem), mem1, mem);
        BinReads(h, mem, fastbins, 1);
      }
      victim, sz := 0, 0;
    }

    /** The scan of one large bin, from its smallest chunk. */
    method LargeScan(nb: int, idx: int) returns (victim: int)
      requires Whole() && 2 <= idx < NBINS
      ensures |h.bins| == NBINS && (forall k :: 0 <= k < |h.bins[idx]| ==> h.bins[idx][k] in View(h))
      ensures victim == 0 ==> forall k :: 0 <= k < |h.bins[idx]| ==> View(h)[h.bins[idx][k]].sz < nb
      ensures victim != 0 ==> victim in View(h) && View(h)[victim].st == Free(idx) && View(h)[victim].sz >= nb
                              && forall k :: 0 <= k < |h.bins[idx]| ==>
                                   View(h)[h.bins[idx][k]].sz < nb || View(h)[h.bins[idx][k]].sz >= View(h)[victim].sz
    {
      hide Lists, Len, Blocks, Marked, Arena, Inv, Tags, Top, View, BinOf;
      BinReads(h, mem, fastbins, idx);
      BinSizes(h, mem, fastbins, idx);
      BinHeads(h, mem, fastbins, idx);
      NoneAtEnd(h, mem, fastbins);
      ghost var s := h.bins[idx];
      victim := mem[idx + 1].b;
      ghost var k := |s| - 1;
      while victim != idx
        invariant -1 <= k < |s| && victim == (if k < 0 then idx else s[k])
        invariant forall l :: k < l < |s| ==> View(h)[s[l]].sz < nb
        decreases k + 1
      {
        SizeWord(mem[victim].b, View(h)[victim].sz);
        if mem[victim].b / 16 >= nb {
          return;
        }
        assert mem[s[k] + 1].b == if k == 0 then idx else s[k - 1];
        victim, k := mem[victim + 1].b, k - 1;
      }
      victim := 0;
    }

    /** The next set bit of the bitmap from bit k of the given word on; `bit` is held as its position, and
        position 32 stands for the bit that was shifted out. */
    method SeekBit(from: int, k0: int, ghost idx: int) returns (found: bool, block: int, k: int)
      requires Marked(binmap, h.bins) && 0 <= from <= 3 && 0 <= k0 <= 32 && (from == 3 ==> k0 == 0)
      requires 2 <= idx && Hollow(h.bins, idx, 32 * from + k0)
      ensures found ==> 0 <= block < 3 && 0 <= k < 32 && 32 * from + k0 <= 32 * block + k && Bit(binmap[block], k)
      ensures found ==> Hollow(h.bins, idx, 32 * block + k)
      ensures !found ==> Hollow(h.bins, idx, NBINS)
    {
      hide Bit, Marked, Hollow;
      MarkedWords(binmap, h.bins);
      block, k := from, k0;
      var word := binmap[block];
      if k == 32 || Pow2(k) > word {
        if block < 3 {
          HollowWord(binmap, h.bins, block, k, idx);
        }
        block, word := block + 1, 0;
        while word == 0
          invariant from < block <= 4 && (block <= 3 ==> Hollow(h.bins, idx, 32 * block))
          invariant (block > 3 ==> from == 3 || word != 0)
          invariant word != 0 ==> block < 3 && word == binmap[block]
          invariant block > 3 ==> Hollow(h.bins, idx, NBINS)
          decreases 4 - block, if word == 0 then 1 else 0
        {
          if block >= 3 {
            return false, 0, 0;
          }
          word := binmap[block];
          if word == 0 {
            assert Pow2(0) == 1;
            HollowWord(binmap, h.bins, block, 0, idx);
            block := block + 1;
          }
        }
        k := 0;
        assert Pow2(0) == 1;
      }
      PowMono(k, 32);
      while !Bit(word, k)
        invariant 0 <= k < 32 && Pow2(k) <= word && Hollow(h.bins, idx, 32 * block + k)
        decreases 32 - k
      {
        StillOne(word, k);
        PowLess(k + 1, word);
        HollowBit(binmap, h.bins, block, k, idx);
        k := k + 1;
      }
      found := true;
    }

    /** The search of the bins from idx on with the help of the bitmap: the last chunk of the first bin that
        is not empty.  The bits of bins found empty are cleared. */
    method ScanBins(idx: int) returns (victim: int, j: int)
      requires Whole() && 3 <= idx <= NBINS
      modifies this`binmap
      ensures Whole() && |h.bins| == NBINS
      ensures victim == 0 ==> Hollow(h.bins, idx, NBINS)
      ensures victim != 0 ==> idx <= j < NBINS && h.bins[j] != [] && victim == h.bins[j][|h.bins[j]| - 1]
      ensures victim != 0 ==> Hollow(h.bins, idx, j)
    {
      hide Lists, Len, Blocks, Arena, Inv, Tags, Top, View, BinOf, Bit, ClearBit, Marked;
      InvArena(h, mem, fastbins);
      NoneAtEnd(h, mem, fastbins);
      var block, k := idx / 32, idx % 32;
      var found := true;
      while found
        invariant Whole() && 0 <= block <= 3 && 0 <= k <= 32 && (block == 3 ==> k == 0)
        invariant idx <= 32 * block + k && Hollow(h.bins, idx, if found then 32 * block + k else NBINS)
        decreases found, 96 - (32 * block + k)
      {
        MarkedWords(binmap, h.bins);
        ghost var at := 32 * block + k;
        found, block, k := SeekBit(block, k, idx);
        if found {
          j := 32 * block + k;
          BinReads(h, mem, fastbins, j);
          victim := mem[j + 1].b;
          if victim != j {
            return;
          }
          MarkedClear(binmap, h.bins, block, k);
          binmap := binmap[block := ClearBit(binmap[block], k)];
          k := k + 1;
        } else {
          block, k := 3, 0;
        }
      }
      victim, j := 0, 0;
    }

    /** The best-fit part of the search: the bin of a large request, then the bins above it. */
    method SearchBins(nb: int) returns (victim: int, ghost sz: int)
      requires Settled() && 2 <= nb && Searchable(nb) && |h.bins| == NBINS && h.bins[1] == []
      requires nb < MIN_LARGE ==> NoExact(View(h), nb)
      modifies this`mem, this`h, this`binmap, this`lastRemainder
      ensures Settled() && h.base == old(h.base) && |mem| == |old(mem)|
      ensures victim == 0 ==> h == old(h) && mem == old(mem) && lastRemainder == old(lastRemainder)
      ensures victim == 0 ==> NoFit(View(h), nb)
      ensures victim != 0 ==> nb <= sz < nb + 2 && Handed(old(View(h)), old(mem), View(h), mem, victim, sz)
      ensures victim != 0 ==> victim in old(View(h)) && Smallest(old(View(h)), nb, victim)
      ensures victim != 0 ==> View(h) == CarvedFrom(old(View(h)), victim, nb)
      ensures lastRemainder == if victim == 0 then old(lastRemainder)
                               else NextRemainder(old(View(h)), old(lastRemainder), nb, victim)
    {
      hide Lists, Len, Blocks, Marked, Arena, Inv, Tags, Top, View, BinOf, Kept, Live, SameFast, NoLimbo, Flags,
           Searchable, CarvedFrom, NoExact;
      SearchableBin(nb);
      var idx := BinOf(nb);
      sz := 0;
      var rest;
      if nb >= MIN_LARGE {
        victim := LargeScan(nb, idx);
        if victim != 0 {
          InBinIsBest(h, mem, fastbins, nb, victim);
          rest, sz := Carve(victim, nb);
          return;
        }
        assert TooSmall(h, idx, nb);
      } else {
        NoExactTooSmall(h, mem, fastbins, nb);
      }
      var j;
      victim, j := ScanBins(idx + 1);
      if victim != 0 {
        FoundAbove(h, mem, fastbins, nb, j, victim);
        NoneAtEnd(h, mem, fastbins);
        ScanIsBest(h, mem, fastbins, nb, j, victim);
        rest, sz := Carve(victim, nb);
        if nb < MIN_LARGE && rest != 0 {
          lastRemainder := rest;
        }
      } else {
        NoneIsNone(h, mem, fastbins, nb);
      }
    }

    /** The whole search for a free chunk, from the unsorted queue to the last bin. */
    method Search(nb: int) returns (p: int, ghost sz: int)
      requires Settled() && 2 <= nb && Searchable(nb) && (nb < MIN_LARGE ==> NoExact(View(h), nb))
      modifies this`mem, this`h, this`binmap, this`lastRemainder
      ensures Settled() && h.base == old(h.base) && |mem| == |old(mem)|
      ensures p == 0 ==> Live(View(h)) == old(Live(View(h))) && Kept(old(Live(View(h))), old(mem), mem)
      ensures p == 0 <==> !InQueue(old(View(h)), old(Queue(h)), old(lastRemainder), nb) && NoFit(old(View(h)), nb)
      ensures p == 0 ==> View(h) == old(AllFiled(h)) && NoFit(View(h), nb)
      ensures p != 0 ==> nb <= sz < nb + 2 && Served(old(Live(View(h))), old(mem), Live(View(h)), mem, p, sz)
      ensures p != 0 ==> if InQueue(old(View(h)), old(Queue(h)), old(lastRemainder), nb)
                         then FromQueue(old(View(h)), old(Queue(h)), old(lastRemainder), nb, p, View(h))
                         else Smallest(old(AllFiled(h)), nb, p) && View(h) == CarvedFrom(old(AllFiled(h)), p, nb)
      ensures lastRemainder == if p == 0 then old(lastRemainder)
                               else NextRemainder(old(View(h)), old(lastRemainder), nb, p)
    {
      hide Lists, Len, Blocks, Marked, Arena, Inv, Tags, Top, View, BinOf, Kept, Live, SameFast, NoLimbo, Flags,
           Searchable, NoFit, CarvedFrom, NoExact, InQueue, FromQueue, FiledFrom;
      QueueApart(h, mem, fastbins);
      ghost var m, s := View(h), h.bins[1];
      FiledFits(m, s, 0, nb);
      FiledSame(m, s, 0);
      p, sz := ProcessUnsorted(nb);
      if p == 0 {
        ghost var mem1 := mem;
        p, sz := SearchBins(nb);
        if p != 0 {
          ServedAfter(Live(m), old(mem), mem1, Live(View(h)), mem, p, sz);
          SmallestFits(FiledFrom(m, s, 0), nb, p);
        }
      }
    }

    /** `use_top`: the lower part of the top chunk. */
    method CutTop(nb: int) returns (p: int)
      requires Settled() && 2 <= nb && top + nb + 2 <= |mem|
      modifies this`mem, this`h, this`top
      ensures Settled() && h.base == old(h.base) && |mem| == |old(mem)| && p == old(top) && p >= 128
      ensures Served(old(Live(View(h))), old(mem), Live(View(h)), mem, p, nb)
      ensures p !in old(View(h)) && View(h) == old(View(h))[p := Chunk(nb, Used)] && Top(h) == p + nb
    {
      hide Lists, Len, Blocks, Marked, Arena, Inv, Tags, Kept, NoLimbo, View, TopTags, Live;
      InvArena(h, mem, fastbins);
      NothingAtTop(h, mem);
      p := top;
      h := TakeTop(h, mem, fastbins, nb);
      top := p + nb;
      mem := TopTags(mem, p, nb);
    }

    /** MORECORE: the break moves up by whole pages; what the new cells hold is not known. */
    method MoreCore(cells: int) returns (ok: bool)
      requires |mem| % PAGE == 0 && 0 < cells && cells % PAGE == 0
      modifies this`mem
      ensures ok == (|old(mem)| + cells <= limit)
      ensures if ok then |mem| == |old(mem)| + cells && old(mem) <= mem else mem == old(mem)
      ensures |mem| % PAGE == 0 && Obeys(|old(mem)|, Call(cells, if ok then |old(mem)| else FAILURE, |mem|))
    {
      PagesAdd(|mem|, cells);
      ok := |mem| + cells <= limit;
      if ok {
        assert |seq(cells, _ => Cell(0, 0))| == cells;
        var more: seq<Cell> :| |more| == cells;
        mem := mem + more;
      }
    }

    /** Any run of MORECORE obeys its rules. */
    method MoreCores(sizes: seq<int>) returns (calls: seq<Call>)
      requires |mem| % PAGE == 0 && forall i :: 0 <= i < |sizes| ==> 0 < sizes[i] && sizes[i] % PAGE == 0
      modifies this`mem
      ensures |calls| == |sizes| && (forall i :: 0 <= i < |calls| ==> calls[i].size == sizes[i])
      ensures Rules(|old(mem)|, calls) && |mem| == Before(|old(mem)|, calls, |calls|) && old(mem) <= mem
    {
      calls := [];
      assert Rules(|mem|, calls);
      hide Obeys, Rules;
      for i := 0 to |sizes|
        invariant |calls| == i && |mem| % PAGE == 0 && old(mem) <= mem && |mem| == Before(|old(mem)|, calls, i)
        invariant Rules(|old(mem)|, calls) && forall k :: 0 <= k < i ==> calls[k].size == sizes[k]
      {
        var before := |mem|;
        var ok := MoreCore(sizes[i]);
        var c := Call(sizes[i], if ok then before else FAILURE, |mem|);
        RulesMore(|old(mem)|, calls, c);
        calls := calls + [c];
      }
    }

    ghost function Space(): Room
      reads this
    {
      Room(|mem|, if 0 <= top < |mem| then mem[top].b / 16 else 0, limit)
    }

    /** No arena has room for a request close to the end of the address space. */
    lemma TooLarge(nb: int)
      requires Valid() && 16 * nb >= TWO_64 - 48
      ensures Short(Space(), nb)
    {
      hide Lists, Len, Blocks, Marked, Arena, Inv, Tags, Kept, NoLimbo, View, Live, Flags, Pages;
      if Settled() {
        TopHead(h, mem, fastbins);
      }
    }

    lemma NoneSoLarge(nb: int)
      requires Valid() && 16 * nb >= TWO_64 - 48
      ensures NoFit(View(h), nb)
    {
      hide Lists, Len, Blocks, Marked, Arena, Inv, Tags, Kept, NoLimbo, View, Live, Flags, NoFit;
      if Settled() {
        HugeNoFit(h, mem, fastbins, nb);
      } else {
        EmptyFacts(|mem|, mem, mem);
        NoFreeFits(h, anyChunks, fastChunks, nb);
      }
    }

    /** The part of `sYSMALLOc` that extends top contiguously. */
    method ExtendTop(nb: int) returns (ok: bool)
      requires Valid() && !fastChunks && 2 <= nb && (Fresh() || |mem| - top < nb + 2)
      modifies this`mem, this`h, this`top
      ensures Valid() && h.base == old(h.base) && h == old(h) && Kept(old(Live(View(h))), old(mem), mem)
      ensures ok ==> Settled() && top + nb + 2 <= |mem| && |mem| == |old(mem)| + Lack(nb, old(Space()).top)
      ensures !ok ==> mem == old(mem) && top == old(top) && Short(Space(), nb)
    {
      hide Lists, Len, Blocks, Marked, Arena, Inv, Tags, Kept, NoLimbo, View, Live, Flags, Pages;
      KeptRefl(Live(View(h)), mem);
      if Settled() {
        TopHead(h, mem, fastbins);
      }
      var oldSize := mem[top].b / 16;
      var size := Pages(nb + MINSIZE - oldSize);
      PagesAdd(|mem|, size);
      ghost var mem0 := mem;
      ok := MoreCore(size);
      if ok {
        if top == UNSORTED {
          FirstMemory(mem0, mem[|mem0|..], fastbins);
          assert mem0 + mem[|mem0|..] == mem;
          top := |mem| - size;
          EmptyFacts(|mem0|, mem0, SetHead(mem, top, 16 * (oldSize + size) + 1));
        } else {
          ExtendStep(h, mem0, mem[|mem0|..], fastbins);
          assert mem0 + mem[|mem0|..] == mem;
        }
        mem := SetHead(mem, top, 16 * (oldSize + size) + 1);
      }
    }

    /** The fastbin of the request. */
    method TakeFast(nb: int) returns (p: int)
      requires Settled() && 2 <= nb <= MAX_FAST
      modifies this`h, this`fastbins
      ensures Settled() && h.base == old(h.base)
      ensures |old(h.fast)| == NFASTBINS && (p == 0 <==> old(h.fast)[FastBinOf(nb)] == [])
      ensures p == 0 ==> h == old(h)
      ensures p != 0 ==> var i := FastBinOf(nb);
                         && p == old(h.fast)[i][0] && h.fast == old(h.fast)[i := old(h.fast)[i][1..]]
                         && h.bins == old(h.bins)
                         && p in old(View(h)) && old(View(h))[p] == Chunk(nb, Fast(i))
                         && View(h) == old(View(h))[p := Chunk(nb, Used)]
      ensures p != 0 ==> p >= 128 && Served(old(Live(View(h))), mem, Live(View(h)), mem, p, nb)
    {
      hide Lists, Len, Blocks, Marked, Arena, Inv, Tags, Kept, NoLimbo, View, Live;
      InvArena(h, mem, fastbins);
      var i := FastBinOf(nb);
      FastHead(h, mem, fastbins, i);
      p := fastbins[i];
      if p != 0 {
        NoneAtEnd(h, mem, fastbins);
        ghost var m := View(h);
        h := PopStep(h, mem, fastbins, i);
        PoppedMap(m, p);
        KeptRefl(Live(m), mem);
        fastbins := fastbins[i := mem[p + 1].a];
      }
    }

    /** The small bin of the request: its chunks fit exactly. */
    method TakeSmall(nb: int) returns (p: int)
      requires Settled() && 2 <= nb < MIN_LARGE
      modifies this`mem, this`h
      ensures Settled() && h.base == old(h.base) && |mem| == |old(mem)|
      ensures |old(h.bins)| == NBINS && (p == 0 <==> old(h.bins)[2 * nb] == [])
      ensures p == 0 ==> h == old(h) && mem == old(mem) && NoExact(View(h), nb)
      ensures p != 0 ==> p in old(View(h)) && old(View(h))[p] == Chunk(nb, Free(2 * nb))
      ensures p != 0 ==> p == old(h.bins)[2 * nb][|old(h.bins)[2 * nb]| - 1]
      ensures p != 0 ==> View(h) == old(View(h))[p := Chunk(nb, Used)]
      ensures p != 0 ==> p >= 128 && Served(old(Live(View(h))), old(mem), Live(View(h)), mem, p, nb)
    {
      hide Lists, Len, Blocks, Marked, Arena, Inv, Tags, Kept, NoLimbo, View, Live, SameFast, NoExact;
      InvArena(h, mem, fastbins);
      var idx := 2 * nb;
      BinReads(h, mem, fastbins, idx);
      BinSizes(h, mem, fastbins, idx);
      SizeBound(h, mem, fastbins);
      NoneAtEnd(h, mem, fastbins);
      SmallBins(nb, idx, View(h), h.bins[idx]);
      p := mem[idx + 1].b;
      if p != idx {
        assert p == h.bins[idx][|h.bins[idx]| - 1];
        var rest;
        ghost var sz;
        rest, sz := Carve(p, nb);
      } else {
        EmptyBinNoExact(h, mem, fastbins, nb);
        p := 0;
      }
    }

    /** Everything `mALLOc` tries before top, once any chunk has been freed; `from` is the heap it is tried on. */
    method TryFreed(nb: int) returns (p: int, ghost sz: int, ghost from: Heap)
      requires Settled() && 2 <= nb && Searchable(nb)
      modifies this`mem, this`h, this`top, this`fastbins, this`fastChunks, this`binmap, this`lastRemainder
      ensures Settled() && h.base == old(h.base) && |mem| == |old(mem)|
      ensures if nb >= MIN_LARGE then !fastChunks else fastChunks == old(fastChunks)
      ensures if nb >= MIN_LARGE && old(fastChunks) then Regrouped(old(h), from) else from == old(h)
      ensures nb >= MIN_LARGE ==> AtRest(View(from), from.base, Top(from))
      ensures p == 0 ==> Live(View(h)) == old(Live(View(h))) && Kept(old(Live(View(h))), old(mem), mem)
      ensures p == 0 <==> Unserved(from, old(lastRemainder), nb)
      ensures p == 0 ==> View(h) == AllFiled(from) && NoFit(View(h), nb) && Top(h) == Top(from)
      ensures p != 0 ==> p >= 128 && nb <= sz < nb + 2
      ensures p != 0 ==> Served(old(Live(View(h))), old(mem), Live(View(h)), mem, p, sz)
      ensures p != 0 ==> Takes(from, old(lastRemainder), nb, p, h)
      ensures lastRemainder == if p == 0 then old(lastRemainder)
                               else NextRemainder(View(from), old(lastRemainder), nb, p)
    {
      hide Lists, Len, Blocks, Marked, Arena, Inv, Tags, Kept, NoLimbo, View, Live, SameFast, Searchable, NoFit,
           Smallest, Flags, CarvedFrom, AtRest, NoExact, InQueue, FromQueue, AllFiled, Top;
      p, sz, from := 0, nb, h;
      KeptRefl(Live(View(h)), mem);
      if nb < MIN_LARGE {
        if nb <= MAX_FAST {
          p := TakeFast(nb);
          if p != 0 { return; }
        }
        p := TakeSmall(nb);
        if p != 0 { return; }
      } else {
        if fastChunks {
          Consolidate();
        }
        Rests();
        from := h;
      }
      ghost var mem1 := mem;
      p, sz := Search(nb);
      if p != 0 {
        ServedAfter(old(Live(View(h))), old(mem), mem1, Live(View(h)), mem, p, sz);
        LiveBound(h, mem, fastbins);
        assert p in Live(View(h));
      } else {
        KeptTrans(Live(View(h)), Live(View(h)), old(mem), mem1, mem);
      }
    }

    /** `mALLOc` after the request has been padded to nb cells. */
    method Allocate(nb: int) returns (p: int, ghost sz: int, ghost from: Heap)
      requires Valid() && 2 <= nb && 16 * nb < TWO_64 && Searchable(nb)
      modifies this`mem, this`h, this`top, this`fastbins, this`fastChunks, this`binmap, this`lastRemainder
      ensures Valid() && h.base == old(h.base)
      ensures p == 0 ==> Short(Space(), nb)
      ensures p == 0 ==> Live(View(h)) == old(Live(View(h))) && Kept(old(Live(View(h))), old(mem), mem)
      ensures p != 0 ==> p >= 128 && nb <= sz < nb + 2
      ensures p != 0 ==> Served(old(Live(View(h))), old(mem), Live(View(h)), mem, p, sz)
      ensures From(old(h), old(fastChunks), old(lastRemainder), old(Space()).top, nb, from)
      ensures if p == 0 then Unserved(from, old(lastRemainder), nb) && NoFit(View(h), nb)
              else Takes(from, old(lastRemainder), nb, p, h)
      ensures |mem| == |old(mem)| + if p != 0 && Unserved(from, old(lastRemainder), nb)
                                    then Lack(nb, |old(mem)| - Top(from)) else 0
      ensures lastRemainder == if p == 0 then old(lastRemainder)
                               else NextRemainder(View(from), old(lastRemainder), nb, p)
      decreases if fastChunks then 1 else 0, 1
    {
      hide Lists, Len, Blocks, Marked, Arena, Inv, Tags, Kept, NoLimbo, View, Live, Searchable, NoFit, Smallest, Flags,
           Served, AtHand, AllFiled, AtRest, CarvedFrom, InFast, InSmall, InQueue, FromQueue, Lack;
      KeptRefl(Live(View(h)), mem);
      from := h;
      if anyChunks {
        TopHead(h, mem, fastbins);
        p, sz, from := TryFreed(nb);
        if p != 0 { return; }
        TopHead(h, mem, fastbins);
      } else {
        NothingFreed(nb);
      }
      ghost var mem1, h1 := mem, h;
      ghost var again, from';
      p, sz, again, from' := UseTop(nb);
      if again {
        from := from';
      } else if p != 0 {
        TopTaken(from, old(lastRemainder), nb, p, h1, h);
      }
      if p != 0 {
        ServedAfter(old(Live(View(h))), old(mem), mem1, Live(View(h)), mem, p, sz);
      } else {
        KeptTrans(Live(View(h)), Live(View(h)), old(mem), mem1, mem);
      }
    }

    /** Before anything is freed every list is empty. */
    lemma NothingFreed(nb: int)
      requires Valid() && !anyChunks && 2 <= nb
      ensures !fastChunks && NoFit(View(h), nb) && !AtHand(h, lastRemainder, nb) && View(h) == AllFiled(h)
      ensures AtRest(View(h), h.base, Top(h)) && Space().top == |mem| - Top(h)
    {
      hide Lists, Len, Blocks, Marked, Arena, Inv, Tags, Kept, NoLimbo, View, Live, Flags, AtRest;
      if Settled() {
        NoFreeFits(h, anyChunks, fastChunks, nb);
        QuietFast(View(h), anyChunks, fastChunks);
        QuietLists(h, mem, fastbins, anyChunks, fastChunks);
        Rests();
        TopHead(h, mem, fastbins);
      } else {
        EmptyFacts(|mem|, mem, mem);
        NoFreeFits(h, anyChunks, fastChunks, nb);
        EmptyRests(|mem|);
      }
      FiledNone(View(h), []);
    }

    /** `use_top`, and `sYSMALLOc` when top is too small.  A small request that cannot be served although there are
        fastbin chunks is tried again on the heap `from` after their consolidation. */
    method UseTop(nb: int) returns (p: int, ghost sz: int, ghost again: bool, ghost from: Heap)
      requires Valid() && 2 <= nb && 16 * nb < TWO_64 && Searchable(nb)
      requires NoFit(View(h), nb) && (nb >= MIN_LARGE ==> !fastChunks)
      modifies this`mem, this`h, this`top, this`fastbins, this`fastChunks, this`binmap, this`lastRemainder
      ensures Valid() && h.base == old(h.base)
      ensures p == 0 ==> Short(Space(), nb)
      ensures p == 0 ==> Live(View(h)) == old(Live(View(h))) && Kept(old(Live(View(h))), old(mem), mem)
      ensures p != 0 ==> p >= 128 && nb <= sz < nb + 2
      ensures p != 0 ==> Served(old(Live(View(h))), old(mem), Live(View(h)), mem, p, sz)
      ensures again <==> old(fastChunks) && old(Space()).top < nb + MINSIZE
      ensures again ==> Regrouped(old(h), from)
      ensures again ==> if p == 0 then Unserved(from, old(lastRemainder), nb) && NoFit(View(h), nb)
                        else Takes(from, old(lastRemainder), nb, p, h)
      ensures again ==> lastRemainder == if p == 0 then old(lastRemainder)
                                         else NextRemainder(View(from), old(lastRemainder), nb, p)
      ensures again ==> |mem| == |old(mem)| + if p != 0 && Unserved(from, old(lastRemainder), nb)
                                              then Lack(nb, |old(mem)| - Top(from)) else 0
      ensures !again ==> |mem| == |old(mem)| + if p != 0 then Lack(nb, old(Space()).top) else 0
      ensures !again ==> lastRemainder == old(lastRemainder)
      ensures !again ==> if p == 0 then h == old(h) else OffTop(old(h), nb, p, h)
      decreases if fastChunks then 1 else 0, 0
    {
      hide Lists, Len, Blocks, Marked, Arena, Inv, Tags, Kept, NoLimbo, View, Live, SameFast, Searchable, NoFit,
           Smallest, Flags, Top, AtRest, Takes, Unserved, Pages;
      p, sz, again, from := 0, nb, false, h;
      KeptRefl(Live(View(h)), mem);
      if Settled() {
        TopHead(h, mem, fastbins);
      }
      if mem[top].b / 16 >= nb + MINSIZE {
        p := CutTop(nb);
      } else if fastChunks {
        again := true;
        Consolidate();
        Rests();
        ghost var mem1, h1 := mem, h;
        RequestAgain(nb);
        var r;
        r, sz, from := Malloc(16 * nb - 15);
        p := if r == 0 then 0 else r - 1;
        if p != 0 {
          ServedAfter(old(Live(View(h))), old(mem), mem1, Live(View(h)), mem, p, sz);
        } else {
          KeptTrans(Live(View(h)), Live(View(h)), old(mem), mem1, mem);
        }
      } else {
        var ok := ExtendTop(nb);
        if ok {
          ghost var mem1 := mem;
          p := CutTop(nb);
          ServedAfter(old(Live(View(h))), old(mem), mem1, Live(View(h)), mem, p, sz);
        }
      }
    }

    /** `mALLOc`: 0 on failure, else the address one cell after the chunk. */
    method Malloc(bytes: int) returns (r: int, ghost sz: int, ghost from: Heap)
      requires Valid() && 0 <= bytes < TWO_64 && (RequestOutOfRange(bytes) || Searchable(RequestToCells(bytes)))
      modifies this`mem, this`h, this`top, this`fastbins, this`fastChunks, this`binmap, this`lastRemainder
      ensures Valid() && h.base == old(h.base)
      ensures RequestOutOfRange(bytes) ==> r == 0
      ensures r == 0 ==> Denied(Space(), bytes)
      ensures r == 0 ==> Live(View(h)) == old(Live(View(h))) && Kept(old(Live(View(h))), old(mem), mem)
      ensures r != 0 ==> r > 128 && Served(old(Live(View(h))), old(mem), Live(View(h)), mem, r - 1, sz)
      ensures r != 0 ==> RequestToCells(bytes) <= sz < RequestToCells(bytes) + 2
      ensures if RequestOutOfRange(bytes) then from == old(h)
              else From(old(h), old(fastChunks), old(lastRemainder), old(Space()).top, RequestToCells(bytes), from)
      ensures r == 0 && !RequestOutOfRange(bytes)
              ==> Unserved(from, old(lastRemainder), RequestToCells(bytes)) && NoFit(View(h), RequestToCells(bytes))
      ensures r != 0 ==> Takes(from, old(lastRemainder), RequestToCells(bytes), r - 1, h)
      ensures |mem| == |old(mem)| + if r != 0 && Unserved(from, old(lastRemainder), RequestToCells(bytes))
                                    then Lack(RequestToCells(bytes), |old(mem)| - Top(from)) else 0
      ensures lastRemainder == if r == 0 then old(lastRemainder)
                               else NextRemainder(View(from), old(lastRemainder), RequestToCells(bytes), r - 1)
      decreases if fastChunks then 1 else 0, 2
    {
      hide Whole, Settled, Fresh, Valid, Kept, View, Live, Searchable, NoFit, Served, RequestToCells, Takes, Unserved,
           From, Short, Unserved, Lack, Top;
      r, sz, from := 0, 0, h;
      KeptRefl(Live(View(h)), mem);
      if !RequestOutOfRange(bytes) {
        RequestBound(bytes);
        var p;
        p, sz, from := Allocate(RequestToCells(bytes));
        r := if p == 0 then 0 else p + 1;
      }
    }

    // ---------- realloc ----------

    /** The end of `rEALLOc`: what is left beyond nb cells is given back if it makes a chunk. */
    method Trim(p: int, nb: int) returns (ghost sz: int)
      requires Settled() && p in Live(View(h)) && 2 <= nb <= Live(View(h))[p]
      modifies this`mem, this`h, this`top, this`fastbins, this`fastChunks, this`anyChunks
      ensures Settled() && |mem| == |old(mem)| && h.base == old(h.base) && nb <= sz < nb + 2
      ensures Resized(old(Live(View(h))), old(mem), Live(View(h)), mem, p, sz, sz)
    {
      hide Lists, Len, Blocks, Marked, Arena, Inv, Tags, NoLimbo, View, Live, SameFast, SameFree, Flags, Kept, Top;
      ghost var live := Live(View(h));
      LiveView(View(h), p);
      InvArena(h, mem, fastbins);
      ghost var k := IndexOf(h, mem, p);
      Scout(h, mem, k);
      var size := mem[p].b / 16;
      var rest := size - nb;
      if rest < MINSIZE {
        sz := size;
        KeptRefl(live - {p}, mem);
        assert live[p := sz] == live;
      } else {
        sz := nb;
        NotInside(h, mem, k, nb);
        CutMap(View(h), p, nb, rest);
        FlagsSame(View(h), View(h)[p := Chunk(nb, Used)][p + nb := Chunk(rest, Used)], anyChunks, fastChunks);
        h := CutStep(h, mem, fastbins, k, nb);
        mem := SetHead(SetHeadSize(mem, p, nb), p + nb, 16 * rest + 1);
        ghost var mem1, live1 := mem, Live(View(h));
        FreeBlock(p + nb);
        KeptAt(Live(View(h)), mem1, mem, p);
        KeptSubset(Live(View(h)), live - {p}, mem1, mem);
        KeptTrans(live - {p}, live - {p}, old(mem), mem1, mem);
        SameDataTrans(old(mem), mem1, mem, p, nb);
      }
    }

    /** Growing into the free chunk that follows. */
    method Absorb(p: int, next: int, nextsize: int, ghost k: int)
      requires Settled() && 0 <= k && k + 1 < |h.cs| && Addr(h, k) == p && h.cs[k].st == Used && h.cs[k + 1].st.Free?
      requires Addr(h, k + 1) == next && h.cs[k + 1].sz == nextsize
      modifies this`mem, this`h
      ensures Settled() && |mem| == |old(mem)| && h.base == old(h.base)
      ensures Resized(old(Live(View(h))), old(mem), Live(View(h)), mem, p, old(h.cs[k].sz), old(h.cs[k].sz) + nextsize)
    {
      hide Lists, Len, Blocks, Marked, Arena, Inv, Tags, NoLimbo, View, Live, SameFast, SameFree, Flags, Kept, Top;
      InvArena(h, mem, fastbins);
      Scout(h, mem, k);
      Scout(h, mem, k + 1);
      ghost var m, live, oldSize := View(h), Live(View(h)), h.cs[k].sz;
      ViewLive(m, p);
      AbsorbedMap(m, p, next, oldSize + nextsize, anyChunks, fastChunks);
      TakeNeighbour(next, k + 1);
      KeptAt(live, old(mem), mem, p);
      KeptSubset(live, live - {p}, old(mem), mem);
      var size := mem[p].b / 16 + nextsize;
      InvArena(h, mem, fastbins);
      Scout(h, mem, k);
      ghost var mem1 := mem;
      h := JoinStep(h, mem, fastbins, k);
      mem := SetInuse(SetHeadSize(mem, p, size), p + size);
      KeptTrans(live - {p}, live - {p}, old(mem), mem1, mem);
      SameDataTrans(old(mem), mem1, mem, p, oldSize);
    }

    /** Growing into top. */
    method GrowIntoTop(p: int, nb: int, ghost k: int)
      requires Settled() && 0 <= k && k + 1 == |h.cs| && Addr(h, k) == p && h.cs[k].st == Used && h.cs[k].sz < nb
      requires p + nb + 2 <= |mem|
      modifies this`mem, this`h, this`top
      ensures Settled() && |mem| == |old(mem)| && h.base == old(h.base)
      ensures Resized(old(Live(View(h))), old(mem), Live(View(h)), mem, p, old(h.cs[k].sz), nb)
    {
      hide Lists, Len, Blocks, Marked, Arena, Inv, Tags, NoLimbo, View, Live, SameFast, SameFree, Flags, Kept, Top;
      InvArena(h, mem, fastbins);
      Scout(h, mem, k);
      ViewLive(View(h), p);
      GrownMap(View(h), p, nb, anyChunks, fastChunks);
      h := GrowStep(h, mem, fastbins, nb);
      mem := SetHead(SetHeadSize(mem, p, nb), p + nb, 16 * (|mem| - p - nb) + 1);
      top := p + nb;
    }

    /** The block just allocated turned out to be the one after p: the two are joined. */
    method JoinLive(p: int, next: int)
      requires Settled() && p in Live(View(h)) && next in Live(View(h)) && next == p + Live(View(h))[p]
      modifies this`mem, this`h
      ensures Settled() && |mem| == |old(mem)| && h.base == old(h.base)
      ensures var live := old(Live(View(h)));
              && Live(View(h)) == (live - {next})[p := live[p] + live[next]]
              && Kept(live - {p, next}, old(mem), mem) && SameData(old(mem), mem, p, live[p])
    {
      hide Lists, Len, Blocks, Marked, Arena, Inv, Tags, NoLimbo, View, Live, SameFast, SameFree, Flags, Kept, Top;
      InvArena(h, mem, fastbins);
      LiveView(View(h), p);
      LiveView(View(h), next);
      ghost var k := IndexOf(h, mem, p);
      Scout(h, mem, k);
      NothingAtTop(h, mem);
      Scout(h, mem, k + 1);
      var size := mem[p].b / 16 + mem[next].b / 16;
      JoinedMap(View(h), p, next, size, anyChunks, fastChunks);
      h := JoinStep(h, mem, fastbins, k);
      mem := SetInuse(SetHeadSize(mem, p, size), p + size);
    }

    /** Copying the block at p into the larger one at q and freeing it. */
    method MoveBlock(p: int, q: int)
      requires Settled() && p in Live(View(h)) && q in Live(View(h)) && p != q && Live(View(h))[p] <= Live(View(h))[q]
      modifies this`mem, this`h, this`top, this`fastbins, this`fastChunks, this`anyChunks
      ensures Settled() && |mem| == |old(mem)| && h.base == old(h.base)
      ensures var live := old(Live(View(h)));
              && Live(View(h)) == live - {p} && Kept(live - {p, q}, old(mem), mem)
              && SameBlock(old(mem), p, mem, q, live[p])
    {
      hide Lists, Len, Blocks, Marked, Arena, Inv, Tags, NoLimbo, View, Live, SameFast, SameFree, Flags, Kept, Top,
           Copied, DataOnly, SameBlock;
      InvArena(h, mem, fastbins);
      LiveView(View(h), p);
      LiveView(View(h), q);
      ViewFacts(h, mem);
      ghost var live := Live(View(h));
      ghost var k := IndexOf(h, mem, p);
      Scout(h, mem, k);
      ghost var l := IndexOf(h, mem, q);
      Scout(h, mem, l);
      var size := mem[p].b / 16;
      mem := CopyBlock(mem, p + 1, q + 1, size);
      CopyIsData(old(mem), mem, p, q, size, live[q]);
      ghost var mem1 := mem;
      DataWrite(h, old(mem), mem1, fastbins, q);
      FreeBlock(p);
      SameBlockKept(old(mem), p, mem1, q, size, Live(View(h)), mem);
      KeptSubset(Live(View(h)), live - {p, q}, mem1, mem);
      KeptSubset(live - {q}, live - {p, q}, old(mem), mem1);
      KeptTrans(live - {p, q}, live - {p, q}, old(mem), mem1, mem);
    }

    /** The in-place part of `rEALLOc`; false when the block has to move. */
    method ResizeInPlace(p: int, nb: int) returns (ok: bool, ghost sz: int)
      requires Settled() && p in Live(View(h)) && 2 <= nb
      modifies this`mem, this`h, this`top, this`fastbins, this`fastChunks, this`anyChunks
      ensures Settled() && |mem| == |old(mem)| && h.base == old(h.base)
      ensures ok <==> Stays(old(h), |mem|, p, nb)
      ensures !ok ==> h == old(h) && mem == old(mem) && top == old(top) && fastbins == old(fastbins)
      ensures !ok ==> fastChunks == old(fastChunks) && anyChunks == old(anyChunks)
      ensures ok ==> nb <= sz < nb + 2 && Moved(old(Live(View(h))), old(mem), Live(View(h)), mem, p, p, sz)
    {
      hide Lists, Len, Blocks, Marked, Arena, Inv, Tags, NoLimbo, View, Live, SameFast, SameFree, Flags, Kept, Top,
           Resized, Moved;
      InvArena(h, mem, fastbins);
      LiveView(View(h), p);
      ghost var k := IndexOf(h, mem, p);
      Scout(h, mem, k);
      TopHead(h, mem, fastbins);
      NextChunk(h, mem, k);
      ghost var live, mem1 := Live(View(h)), mem;
      var size := mem[p].b / 16;
      ok := true;
      if size >= nb {
        sz := Trim(p, nb);
        TrimBound(live, mem1, Live(View(h)), mem, p, sz);
        ResizedMoved(live, mem1, Live(View(h)), mem, p, sz, sz);
        return;
      }
      var next := p + size;
      var nextsize := mem[next].b / 16;
      sz := nb;
      if next == top {
        if size + nextsize >= nb + MINSIZE {
          GrowIntoTop(p, nb, k);
          ResizedMoved(live, mem1, Live(View(h)), mem, p, size, nb);
          return;
        }
      } else {
        ScoutNext(h, mem, k);
        if mem[next + nextsize].b % 2 == 0 && size + nextsize >= nb {
          NoLimboAt(h, mem, k + 1);
          Absorb(p, next, nextsize, k);
          ghost var live2, mem2 := Live(View(h)), mem;
          ResizedAt(live, mem1, live2, mem2, p, size, size + nextsize);
          sz := Trim(p, nb);
          TrimBound(live2, mem2, Live(View(h)), mem, p, sz);
          ResizedTwice(live, mem1, live2, mem2, Live(View(h)), mem, p, size + nextsize, sz);
          return;
        }
      }
      ok := false;
    }

    /** The moving part of `rEALLOc`: allocate at q, which leads from the heap `from` to h1, then join or copy and
        free. */
    method Relocate(p: int, nb: int) returns (r: int, ghost sz: int, ghost from: Heap, ghost q: int, ghost h1: Heap)
      requires Valid() && Settled() && p in Live(View(h)) && Live(View(h))[p] < nb && 16 * nb < TWO_64 && Searchable(nb)
      modifies this
      ensures Valid() && h.base == old(h.base)
      ensures r == 0 ==> Short(Space(), nb) && NoFit(View(h), nb)
      ensures r == 0 ==> Live(View(h)) == old(Live(View(h))) && Kept(old(Live(View(h))), old(mem), mem)
      ensures r != 0 ==> r >= 128 && nb <= sz < nb + 2
      ensures r != 0 ==> Moved(old(Live(View(h))), old(mem), Live(View(h)), mem, p, r, sz)
      ensures r != 0 ==> From(old(h), old(fastChunks), old(lastRemainder), old(Space()).top, nb, from)
      ensures r != 0 ==> Takes(from, old(lastRemainder), nb, q, h1) && r == Lands(old(Live(View(h))), p, q)
    {
      hide Lists, Len, Blocks, Marked, Arena, Inv, Tags, NoLimbo, View, Live, SameFast, SameFree, Flags, Kept, Top,
           Moved, Searchable, NoFit, Smallest, Resized, Short, From, Takes;
      InvArena(h, mem, fastbins);
      LiveView(View(h), p);
      ghost var k := IndexOf(h, mem, p);
      Scout(h, mem, k);
      ghost var live, mem0 := Live(View(h)), mem;
      var next := p + mem[p].b / 16;
      RequestAgain(nb);
      var a;
      a, sz, from := Malloc(16 * nb - 15);
      if RequestOutOfRange(16 * nb - 15) {
        TooLarge(nb);
        NoneSoLarge(nb);
      }
      r, q, h1 := 0, a - 1, h;
      if a != 0 {
        r := a - 1;
        ghost var mem1 := mem;
        assert r in Live(View(h));
        LiveSettled(r);
        KeptAt(live, mem0, mem1, p);
        if r == next {
          JoinLive(p, next);
          ghost var mem2, live2 := mem, Live(View(h));
          LiveBound(h, mem, fastbins);
          r := p;
          ghost var big := sz;
          sz := Trim(p, nb);
          JoinedMoved(live, mem0, mem1, mem2, live2, Live(View(h)), mem, p, next, big, sz);
        } else {
          MoveBlock(p, r);
          CopiedMoved(live, mem0, mem1, Live(View(h)), mem, p, r, sz);
        }
      }
    }

    lemma LiveSettled(p: int)
      requires Valid() && p in Live(View(h))
      ensures Settled()
    {
      if Fresh() {
        EmptyFacts(|mem|, mem, mem);
      }
    }

    /** `rEALLOc`.  The block stays where it is exactly if it is large enough, or top or a free chunk right behind it
        has the room, or the chunk that is allocated for it at q happens to be the next one. */
    method Realloc(r: int, bytes: int)
      returns (r': int, ghost sz: int, ghost from: Heap, ghost q: int, ghost h1: Heap)
      requires Valid() && 0 <= bytes < TWO_64 && (RequestOutOfRange(bytes) || Searchable(RequestToCells(bytes)))
      requires r == 0 || r - 1 in Live(View(h))
      modifies this
      ensures Valid() && h.base == old(h.base)
      ensures r' == 0 ==> Live(View(h)) == old(Live(View(h))) && Kept(old(Live(View(h))), old(mem), mem)
      ensures RequestOutOfRange(bytes) ==> r' == 0
      ensures r' == 0 ==> Denied(Space(), bytes)
      ensures r' == 0 && !RequestOutOfRange(bytes) ==> NoFit(View(h), RequestToCells(bytes))
      ensures r' != 0 ==> r' > 128 && RequestToCells(bytes) <= sz < RequestToCells(bytes) + 2
      ensures r' != 0 && r == 0 ==> Served(old(Live(View(h))), old(mem), Live(View(h)), mem, r' - 1, sz)
      ensures r' != 0 && r != 0 ==> Moved(old(Live(View(h))), old(mem), Live(View(h)), mem, r - 1, r' - 1, sz)
      ensures r != 0 && !RequestOutOfRange(bytes) && Stays(old(h), |old(mem)|, r - 1, RequestToCells(bytes))
              ==> r' == r && |mem| == |old(mem)|
      ensures r' != 0 && (r == 0 || !Stays(old(h), |old(mem)|, r - 1, RequestToCells(bytes)))
              ==> && From(old(h), old(fastChunks), old(lastRemainder), old(Space()).top, RequestToCells(bytes), from)
                  && Takes(from, old(lastRemainder), RequestToCells(bytes), q, h1)
                  && r' - 1 == if r == 0 then q else Lands(old(Live(View(h))), r - 1, q)
      ensures r' != 0 && r == 0 ==> h == h1
    {
      hide View, Live, Kept, Moved, Searchable, NoFit, Smallest, Served, RequestToCells, Flags, NoLimbo,
           Fresh, Inv, Marked, Short, From, Takes, Stays, Top;
      q, from, h1 := 0, h, h;
      if r == 0 {
        r', sz, from := Malloc(bytes);
        q, h1 := r' - 1, h;
        return;
      }
      r', sz := 0, 0;
      KeptRefl(Live(View(h)), mem);
      if !RequestOutOfRange(bytes) {
        RequestBound(bytes);
        LiveSettled(r - 1);
        var nb := RequestToCells(bytes);
        LiveBound(h, mem, fastbins);
        var ok;
        ok, sz := ResizeInPlace(r - 1, nb);
        if ok {
          r' := r;
        } else {
          StaysEnough(h, |mem|, r - 1, nb);
          var a;
          a, sz, from, q, h1 := Relocate(r - 1, nb);
          r' := if a == 0 then 0 else a + 1;
        }
      }
    }

    // ---------- memalign ----------

    /** Cutting a live block at n cells and giving one of the two parts back. */
    method CutAndFree(p: int, n: int, front: bool)
      requires Settled() && p in Live(View(h)) && 2 <= n <= Live(View(h))[p] - 2
      modifies this`mem, this`h, this`top, this`fastbins, this`fastChunks, this`anyChunks
      ensures Settled() && |mem| == |old(mem)| && h.base == old(h.base)
      ensures var live := old(Live(View(h)));
              && Live(View(h)) == (if front then (live - {p})[p + n := live[p] - n] else live[p := n])
              && p + n !in live && Kept(live - {p}, old(mem), mem)
    {
      hide Lists, Len, Blocks, Marked, Arena, Inv, Tags, NoLimbo, View, Live, SameFast, SameFree, Flags, Kept, Top;
      ghost var live := Live(View(h));
      LiveView(View(h), p);
      InvArena(h, mem, fastbins);
      ghost var k := IndexOf(h, mem, p);
      Scout(h, mem, k);
      var rest := mem[p].b / 16 - n;
      NotInside(h, mem, k, n);
      CutMap(View(h), p, n, rest);
      NotLive(View(h), p + n);
      FlagsSame(View(h), View(h)[p := Chunk(n, Used)][p + n := Chunk(rest, Used)], anyChunks, fastChunks);
      h := CutStep(h, mem, fastbins, k, n);
      mem := SetHead(SetHeadSize(mem, p, n), p + n, 16 * rest + 1);
      ghost var mem1 := mem;
      FreeBlock(if front then p else p + n);
      KeptSubset(Live(View(h)), live - {p}, mem1, mem);
      KeptTrans(live - {p}, live - {p}, old(mem), mem1, mem);
    }

    /** The alignment step of `mEMALIGn` on a block with at least a cells to spare beyond nb. */
    method AlignBlock(p: int, a: int, nb: int) returns (q: int, ghost sz: int)
      requires Settled() && p in Live(View(h)) && 2 <= a && 2 <= nb && Live(View(h))[p] >= nb + a + 3
      modifies this`mem, this`h, this`top, this`fastbins, this`fastChunks, this`anyChunks
      ensures Settled() && |mem| == |old(mem)| && h.base == old(h.base)
      ensures FirstAligned(p, a, q) && q >= 128 && nb <= sz <= nb + 2
      ensures var live := old(Live(View(h)));
              q !in live - {p} && Live(View(h)) == (live - {p})[q := sz] && Kept(live - {p}, old(mem), mem)
    {
      hide Lists, Len, Blocks, Marked, Arena, Inv, Tags, NoLimbo, View, Live, Flags, Kept, Top;
      LiveBound(h, mem, fastbins);
      ghost var live := Live(View(h));
      q, sz := p, live[p];
      KeptRefl(live - {p}, mem);
      ghost var mem1 := mem;
      if (p + 1) % a != 0 {
        RoundUpIs(p + 1, a);
        q := RoundUp(p + 1, a) - 1;
        if q - p < MINSIZE {
          q := q + a;
        }
        FirstSpot(p, a, q);
        CutAndFree(p, q - p, true);
        sz := live[p] - (q - p);
        mem1 := mem;
        LiveBound(h, mem, fastbins);
      }
      ghost var live1 := Live(View(h));
      assert live1 - {q} == live - {p};
      InvArena(h, mem, fastbins);
      LiveView(View(h), q);
      ghost var k := IndexOf(h, mem, q);
      Scout(h, mem, k);
      var size := mem[q].b / 16;
      if size > nb + MINSIZE {
        CutAndFree(q, nb, false);
        sz := nb;
        KeptTrans(live - {p}, live - {p}, old(mem), mem1, mem);
      }
    }

    /** `mEMALIGn`.  The padded request of `padded` cells is served at p, from the heap `from` to h1. */
    method Memalign(alignment: int, bytes: int)
      returns (r: int, ghost sz: int, ghost from: Heap, ghost padded: int, ghost p: int, ghost h1: Heap)
      requires Valid() && 0 <= bytes < TWO_64 && 0 <= alignment <= TWO_64 / 2
      requires RequestOutOfRange(bytes)
               || (Searchable(RequestToCells(bytes)) && Roomy(RequestToCells(bytes), alignment))
      modifies this
      ensures Valid() && h.base == old(h.base)
      ensures r == 0 ==> Live(View(h)) == old(Live(View(h))) && Kept(old(Live(View(h))), old(mem), mem)
      ensures r != 0 ==> r > 128 && Served(old(Live(View(h))), old(mem), Live(View(h)), mem, r - 1, sz)
      ensures RequestOutOfRange(bytes) ==> r == 0
      ensures r == 0 ==> DeniedAligned(Space(), alignment, bytes)
      ensures r != 0 ==> RequestToCells(bytes) <= sz <= RequestToCells(bytes) + 2
      ensures r != 0 && PowerOfTwo(alignment) ==> 16 * r % alignment == 0
      ensures r != 0 ==> From(old(h), old(fastChunks), old(lastRemainder), old(Space()).top, padded, from)
      ensures r != 0 ==> Takes(from, old(lastRemainder), padded, p, h1)
      ensures r != 0 ==> AlignedIn(alignment, RequestToCells(bytes), padded, p, r - 1)
    {
      hide View, Live, Kept, Searchable, NoFit, Smallest, RequestToCells, Flags, NoLimbo, Fresh, Inv,
           Marked, PowerOfTwo, Short, From, Takes, FirstAligned, Top;
      r, sz, from, padded, p, h1 := 0, 0, h, 0, 0, h;
      KeptRefl(Live(View(h)), mem);
      if RequestOutOfRange(bytes) {
        return;
      }
      RequestBound(bytes);
      if alignment <= 16 {
        r, sz, from := Malloc(bytes);
        padded, p, h1 := RequestToCells(bytes), r - 1, h;
        SmallAlignment(alignment, r);
        return;
      }
      var al := AlignmentFor(alignment);
      assert Chosen(alignment, al);
      var nb := RequestToCells(bytes);
      PaddedFits(nb, al);
      ghost var live, mem0 := Live(View(h)), mem;
      r, sz, from := Malloc(Padded(nb, al));
      padded, p, h1 := RequestToCells(Padded(nb, al)), r - 1, h;
      if r != 0 {
        ghost var mem1 := mem;
        assert p in Live(View(h));
        LiveSettled(p);
        assert Live(View(h)) - {p} == live;
        var q;
        q, sz := AlignBlock(r - 1, al / 16, nb);
        assert Live(View(h)) == live[q := sz];
        KeptSubset(live, live, mem0, mem1);
        KeptTrans(live, live, mem0, mem1, mem);
        r := q + 1;
        SpotAligned(p, al / 16, q);
        CellAlignment(r, al);
      }
    }
  }
}
