/** The allocator's invariant and the steps every operation is made of (src/mem/malloc.c).

    A heap lists the chunks of the arena and the contents of the bins and fastbins; `Inv` ties it
    to the memory words.  Each step lemma says how one group of writes moves the heap and that it
    leaves the data of every live block alone. */
module Heap {
  import opened Basics
  import opened BinIndex
  import opened Chunks
  import opened Rings
  import opened FreeLists

  datatype Heap = Heap(base: int, cs: seq<Chunk>, bins: seq<seq<int>>, fast: seq<seq<int>>)

  ghost function View(h: Heap): Map { Blocks(h.cs, h.base) }

  ghost function Top(h: Heap): int { h.base + Len(h.cs) }

  ghost predicate Inv(h: Heap, mem: seq<Cell>, fb: seq<int>) {
    && Arena(h.cs, mem, h.base)
    && 16 * (|mem| - h.base) <= TWO_32
    && Lists(View(h), h.bins, h.fast, fb, mem)
  }

  /** The live blocks: address and size of the chunks in the hands of the client. */
  ghost function Live(m: Map): map<int, int> {
    map n | n in m && m[n].st == Used :: m[n].sz
  }

  /** The client's part of the chunk at n is the same: the cells after its header and the first word
      of the cell that follows it. */
  ghost predicate SameData(mem: seq<Cell>, mem': seq<Cell>, n: int, sz: int) {
    0 <= n && 0 <= sz && n + sz < |mem| ==>
      && |mem| <= |mem'|
      && (forall c :: n < c < n + sz ==> mem'[c] == mem[c])
      && mem'[n + sz].a == mem[n + sz].a
  }

  ghost predicate Kept(live: map<int, int>, mem: seq<Cell>, mem': seq<Cell>) {
    && |mem| <= |mem'|
    && forall n <- live :: SameData(mem, mem', n, live[n])
  }

  // ---------- geometry in terms of addresses ----------

  lemma ViewFacts(h: Heap, mem: seq<Cell>)
    requires Arena(h.cs, mem, h.base)
    ensures Separate(View(h)) && Sized(h.cs)
    ensures forall n <- View(h) :: h.base <= n && n + View(h)[n].sz <= Top(h)
  {
    TagsSized(h.cs, mem, h.base, false);
    Range(h.cs, h.base);
    forall u, n | u in View(h) && n in View(h) && u < n ensures u + View(h)[u].sz <= n {
      BlocksApart(h.cs, h.base, u, n);
    }
  }

  ghost function SetStatus(cs: seq<Chunk>, k: int, st: Status): seq<Chunk>
    requires 0 <= k < |cs|
  {
    cs[k := Chunk(cs[k].sz, st)]
  }

  lemma {:induction false} StatusBlocks(cs: seq<Chunk>, a: int, k: int, st: Status)
    requires 0 <= k < |cs| && Sized(cs)
    ensures Len(SetStatus(cs, k, st)) == Len(cs)
    ensures Blocks(SetStatus(cs, k, st), a) == Blocks(cs, a)[a + Len(cs[..k]) := Chunk(cs[k].sz, st)]
  {
    var cs' := SetStatus(cs, k, st);
    if k == 0 {
      assert cs'[1..] == cs[1..];
    } else {
      assert cs'[1..] == SetStatus(cs[1..], k - 1, st);
      StatusBlocks(cs[1..], a + cs[0].sz, k - 1, st);
      assert cs[..k][1..] == cs[1..][..k - 1];
      Range(cs[1..][..k - 1], 0);
    }
  }

  lemma {:induction false} StatusTags(cs: seq<Chunk>, mem: seq<Cell>, a: int, pf: bool, k: int, st: Status)
    requires 0 <= k < |cs| && Tags(cs, mem, a, pf)
    requires IsFree(Chunk(cs[k].sz, st)) == IsFree(cs[k])
    ensures Tags(SetStatus(cs, k, st), mem, a, pf)
    decreases k
  {
    var cs' := SetStatus(cs, k, st);
    if k == 0 {
      assert cs'[1..] == cs[1..];
    } else {
      assert cs'[1..] == SetStatus(cs[1..], k - 1, st);
      StatusTags(cs[1..], mem, a + cs[0].sz, IsFree(cs[0]), k - 1, st);
    }
  }

  lemma StatusArena(cs: seq<Chunk>, mem: seq<Cell>, base: int, k: int, st: Status)
    requires 0 <= k < |cs| && Arena(cs, mem, base) && IsFree(Chunk(cs[k].sz, st)) == IsFree(cs[k])
    ensures Arena(SetStatus(cs, k, st), mem, base)
  {
    TagsSized(cs, mem, base, false);
    StatusTags(cs, mem, base, false, k, st);
    StatusBlocks(cs, base, k, st);
  }

  // ---------- writes ----------

  /** Links may be written into a header or a chunk that is not in the client's hands. */
  lemma PokeArena(h: Heap, mem: seq<Cell>, x: int, c: Cell)
    requires Arena(h.cs, mem, h.base) && 0 <= x && x + 1 < |mem| && (x < h.base - 1 || x in View(h))
    ensures Arena(h.cs, mem[x + 1 := c], h.base)
  {
    var m, mem' := View(h), mem[x + 1 := c];
    ViewFacts(h, mem);
    assert SameTags(m, mem, mem');
    TagsFrame(h.cs, mem, mem', h.base, false);
  }

  lemma PokeKept(h: Heap, mem: seq<Cell>, mem0: seq<Cell>, x: int, c: Cell)
    requires Arena(h.cs, mem, h.base) && 0 <= x && x + 1 < |mem| && |mem0| == |mem|
    requires x < h.base - 1 || (x in View(h) && View(h)[x].st != Used)
    requires Kept(Live(View(h)), mem0, mem)
    ensures Kept(Live(View(h)), mem0, mem[x + 1 := c])
  {
    ViewFacts(h, mem);
    hide Arena, Blocks, Len, Tags, View, SameData;
    var live := Live(View(h));
    forall n | n in live ensures SameData(mem0, mem[x + 1 := c], n, live[n]) {
      assert n in View(h) && View(h)[n] == Chunk(live[n], Used);
      PokeData(mem0, mem, n, live[n], x, c);
    }
  }

  lemma PokeData(mem0: seq<Cell>, mem: seq<Cell>, n: int, sz: int, x: int, c: Cell)
    requires SameData(mem0, mem, n, sz) && 2 <= sz && 0 <= x && x + 1 < |mem| && (x < n || n + sz <= x)
    ensures SameData(mem0, mem[x + 1 := c], n, sz)
  {
  }

  // ---------- list steps ----------

  lemma HomeOf(m: Map, bins: seq<seq<int>>, p: int) returns (k: int)
    requires BinHomes(m, bins) && p in m && m[p].st.Free?
    ensures 1 <= m[p].st.bin < NBINS == |bins| && 0 <= k < |bins[m[p].st.bin]| && bins[m[p].st.bin][k] == p
  {
    k :| 0 <= k < |bins[m[p].st.bin]| && bins[m[p].st.bin][k] == p;
  }

  lemma UnlinkStep(h: Heap, mem: seq<Cell>, fb: seq<int>, p: int) returns (h': Heap, k: int, n: int)
    requires Inv(h, mem, fb) && p in View(h) && View(h)[p].st.Free?
    ensures 0 <= p && p + 1 < |mem| && 0 <= mem[p + 1].a && mem[p + 1].a + 1 < |mem|
    ensures 0 <= mem[p + 1].b && mem[p + 1].b + 1 < |mem|
    ensures Inv(h', Unlink(mem, p), fb) && View(h') == View(h)[p := Chunk(View(h)[p].sz, Limbo)]
    ensures h'.base == h.base && Top(h') == Top(h) && h'.fast == h.fast
    ensures 0 <= n < |h.cs| && h.base + Len(h.cs[..n]) == p && h'.cs == SetStatus(h.cs, n, Limbo)
    ensures var i := View(h)[p].st.bin;
            1 <= i < NBINS && 0 <= k < |h.bins[i]| && h.bins[i][k] == p && h'.bins == h.bins[i := Without(h.bins[i], k)]
    ensures Kept(Live(View(h)), mem, Unlink(mem, p))
  {
    hide BinOf, Tags, Blocks, BinHomes, FastHomes, Filed, Wired, Separate, Kept, Live, LastFree, Without, Len;
    var m, i := View(h), View(h)[p].st.bin;
    k := HomeOf(m, h.bins, p);
    ViewFacts(h, mem);
    UnlinkPokes(h, mem, fb, i, k);
    UnlinkLists(m, h.bins, h.fast, fb, mem, i, k);
    n := Find(h.cs, h.base, p);
    h' := h.(cs := SetStatus(h.cs, n, Limbo), bins := h.bins[i := Without(h.bins[i], k)]);
    StatusBlocks(h.cs, h.base, n, Limbo);
    StatusArena(h.cs, Unlink(mem, p), h.base, n, Limbo);
  }

  lemma UnlinkPokes(h: Heap, mem: seq<Cell>, fb: seq<int>, i: int, k: int)
    requires Inv(h, mem, fb) && 1 <= i < |h.bins| && 0 <= k < |h.bins[i]|
    ensures var p := h.bins[i][k];
            && 0 <= p && p + 1 < |mem| && 0 <= mem[p + 1].a && mem[p + 1].a + 1 < |mem|
            && 0 <= mem[p + 1].b && mem[p + 1].b + 1 < |mem|
            && Arena(h.cs, Unlink(mem, p), h.base) && Kept(Live(View(h)), mem, Unlink(mem, p))
  {
    hide Tags, Blocks, BinOf;
    Neighbours(mem, i, h.bins[i], k);
    RingNodes(View(h), h.bins, i, k);
    RingNodes(View(h), h.bins, i, k + 2);
    var p := h.bins[i][k];
    var fd, bk := mem[p + 1].a, mem[p + 1].b;
    var mem1 := SetB(mem, fd + 1, bk);
    PokeArena(h, mem, fd, mem1[fd + 1]);
    PokeKept(h, mem, mem, fd, mem1[fd + 1]);
    PokeArena(h, mem1, bk, Cell(fd, mem1[bk + 1].b));
    PokeKept(h, mem1, mem, bk, Cell(fd, mem1[bk + 1].b));
  }

  /** Where a chunk may be filed: any place of the unsorted queue, or the place of its size. */
  ghost predicate Fits(m: Map, bins: seq<seq<int>>, p: int, i: int, k: int) {
    && p in m && m[p].st == Limbo && 1 <= i < |bins| && 0 <= k <= |bins[i]|
    && (i >= 2 ==> m[p].sz >= 2 && BinOf(m[p].sz) == i)
    && (i >= 2 && k > 0 && bins[i][k - 1] in m ==> m[bins[i][k - 1]].sz >= m[p].sz)
    && (i >= 2 && k < |bins[i]| && bins[i][k] in m ==> m[p].sz >= m[bins[i][k]].sz)
  }

  lemma LinkStep(h: Heap, mem: seq<Cell>, fb: seq<int>, p: int, i: int, k: int) returns (h': Heap)
    requires Inv(h, mem, fb) && Fits(View(h), h.bins, p, i, k)
    ensures 0 <= p && p + 1 < |mem| && i < NBINS
    ensures Joined(mem, Ring(i, h.bins[i])[k], Ring(i, h.bins[i])[k + 1])
    ensures Inv(h', LinkBetween(mem, p, Ring(i, h.bins[i])[k], Ring(i, h.bins[i])[k + 1]), fb)
    ensures View(h') == View(h)[p := Chunk(View(h)[p].sz, Free(i))]
    ensures h'.base == h.base && Top(h') == Top(h) && h'.fast == h.fast
    ensures h'.bins == h.bins[i := InsertAt(h.bins[i], k, p)]
    ensures Kept(Live(View(h)), mem, LinkBetween(mem, p, Ring(i, h.bins[i])[k], Ring(i, h.bins[i])[k + 1]))
  {
    hide BinOf, Tags, Blocks, BinHomes, FastHomes, Filed, Wired, Separate, Kept, Live, LastFree, InsertAt, Len,
         LinkBetween;
    LinkPokes(h, mem, fb, p, i, k);
    LinkAll(h, mem, fb, p, i, k);
    ViewFacts(h, mem);
    var n := Find(h.cs, h.base, p);
    h' := h.(cs := SetStatus(h.cs, n, Free(i)), bins := h.bins[i := InsertAt(h.bins[i], k, p)]);
    StatusBlocks(h.cs, h.base, n, Free(i));
    StatusArena(h.cs, LinkBetween(mem, p, Ring(i, h.bins[i])[k], Ring(i, h.bins[i])[k + 1]), h.base, n, Free(i));
  }

  lemma LinkAll(h: Heap, mem: seq<Cell>, fb: seq<int>, p: int, i: int, k: int)
    requires Inv(h, mem, fb) && Fits(View(h), h.bins, p, i, k) && 0 <= p && p + 1 < |mem|
    requires Joined(mem, Ring(i, h.bins[i])[k], Ring(i, h.bins[i])[k + 1])
    ensures Lists(View(h)[p := Chunk(View(h)[p].sz, Free(i))], h.bins[i := InsertAt(h.bins[i], k, p)], h.fast, fb,
                  LinkBetween(mem, p, Ring(i, h.bins[i])[k], Ring(i, h.bins[i])[k + 1]))
  {
    hide BinOf, Tags, Blocks, FastHomes, Filed, Wired, InsertAt, LinkBetween;
    ViewFacts(h, mem);
    LinkLists(View(h), h.bins, h.fast, fb, mem, p, i, k);
  }

  lemma LinkPokes(h: Heap, mem: seq<Cell>, fb: seq<int>, p: int, i: int, k: int)
    requires Inv(h, mem, fb) && 1 <= i < |h.bins| && 0 <= k <= |h.bins[i]| && p in View(h) && View(h)[p].st == Limbo
    ensures 0 <= p && p + 1 < |mem| && |h.bins| == NBINS
    ensures var r := Ring(i, h.bins[i]);
            Joined(mem, r[k], r[k + 1]) && |LinkBetween(mem, p, r[k], r[k + 1])| == |mem|
            && Arena(h.cs, LinkBetween(mem, p, r[k], r[k + 1]), h.base)
            && Kept(Live(View(h)), mem, LinkBetween(mem, p, r[k], r[k + 1]))
  {
    hide Tags, Blocks, BinOf;
    ViewFacts(h, mem);
    var r := Ring(i, h.bins[i]);
    assert Joined(mem, r[k], r[k + 1]);
    RingNodes(View(h), h.bins, i, k);
    RingNodes(View(h), h.bins, i, k + 1);
    var bck, fwd := r[k], r[k + 1];
    var mem1 := SetA(SetB(mem, p + 1, bck), p + 1, fwd);
    var mem2 := SetB(mem1, fwd + 1, p);
    assert mem1 == mem[p + 1 := Cell(fwd, bck)];
    PokeArena(h, mem, p, Cell(fwd, bck));
    PokeKept(h, mem, mem, p, Cell(fwd, bck));
    PokeArena(h, mem1, fwd, mem2[fwd + 1]);
    PokeKept(h, mem1, mem, fwd, mem2[fwd + 1]);
    PokeArena(h, mem2, bck, Cell(p, mem2[bck + 1].b));
    PokeKept(h, mem2, mem, bck, Cell(p, mem2[bck + 1].b));
  }

  // ---------- fastbin steps ----------

  lemma PushStep(h: Heap, mem: seq<Cell>, fb: seq<int>, p: int) returns (h': Heap)
    requires Inv(h, mem, fb) && p in View(h) && View(h)[p].st == Used && View(h)[p].sz <= MAX_FAST
    ensures 0 <= p && p + 1 < |mem| && 0 <= FastBinOf(View(h)[p].sz) < |fb|
    ensures var i := FastBinOf(View(h)[p].sz);
            && Inv(h', SetA(mem, p + 1, fb[i]), fb[i := p]) && View(h') == View(h)[p := Chunk(View(h)[p].sz, Fast(i))]
            && Kept(Live(View(h')), mem, SetA(mem, p + 1, fb[i]))
            && |h.fast| == |fb| && h'.fast == h.fast[i := [p] + h.fast[i]]
    ensures h'.base == h.base && h'.bins == h.bins && Top(h') == Top(h)
  {
    hide BinOf, Tags, Blocks, BinHomes, FastHomes, Filed, Kept, Live, LastFree, Len;
    ViewFacts(h, mem);
    var i := FastBinOf(View(h)[p].sz);
    var mem' := SetA(mem, p + 1, fb[i]);
    PushFast(View(h), h.bins, h.fast, fb, mem, p, i);
    var n := Find(h.cs, h.base, p);
    h' := h.(cs := SetStatus(h.cs, n, Fast(i)), fast := h.fast[i := [p] + h.fast[i]]);
    StatusBlocks(h.cs, h.base, n, Fast(i));
    StatusArena(h.cs, mem, h.base, n, Fast(i));
    PokeArena(h', mem, p, mem'[p + 1]);
    KeptRefl(Live(View(h')), mem);
    PokeKept(h', mem, mem, p, mem'[p + 1]);
  }

  lemma KeptRefl(live: map<int, int>, mem: seq<Cell>)
    ensures Kept(live, mem, mem)
  {
  }

  /** A fastbin holds the head of its list, or 0 when the list is empty. */
  lemma FastHead(h: Heap, mem: seq<Cell>, fb: seq<int>, i: int)
    requires Inv(h, mem, fb) && 0 <= i < |fb|
    ensures |h.fast| == |fb| && if fb[i] == 0 then h.fast[i] == [] else h.fast[i] != [] && fb[i] == h.fast[i][0]
  {
    hide BinOf, Tags, Blocks, BinHomes, Kept, Live, LastFree, Len, Linked;
    ViewFacts(h, mem);
    assert Chain(mem, fb[i], h.fast[i]);
  }

  lemma PopStep(h: Heap, mem: seq<Cell>, fb: seq<int>, i: int) returns (h': Heap)
    requires Inv(h, mem, fb) && 0 <= i < |fb| && fb[i] != 0
    ensures fb[i] in View(h) && View(h)[fb[i]].st == Fast(i) && 0 <= fb[i] && fb[i] + 1 < |mem|
    ensures View(h)[fb[i]].sz <= MAX_FAST && FastBinOf(View(h)[fb[i]].sz) == i
    ensures |h.fast| == |fb| && h.fast[i] != [] && h'.fast == h.fast[i := h.fast[i][1..]]
    ensures Inv(h', mem, fb[i := mem[fb[i] + 1].a]) && View(h') == View(h)[fb[i] := Chunk(View(h)[fb[i]].sz, Used)]
    ensures h'.base == h.base && h'.bins == h.bins && Top(h') == Top(h)
  {
    hide BinOf, Tags, Blocks, BinHomes, Kept, Live, LastFree, Len, Linked;
    ViewFacts(h, mem);
    assert Chain(mem, fb[i], h.fast[i]);
    assert h.fast[i] != [] && fb[i] == h.fast[i][0];
    PopFast(View(h), h.bins, h.fast, fb, mem, i);
    var n := Find(h.cs, h.base, fb[i]);
    h' := h.(cs := SetStatus(h.cs, n, Used), fast := h.fast[i := h.fast[i][1..]]);
    StatusBlocks(h.cs, h.base, n, Used);
    StatusArena(h.cs, mem, h.base, n, Used);
  }

  lemma NoFast(h: Heap, mem: seq<Cell>, fb: seq<int>, i: int)
    requires Inv(h, mem, fb) && 0 <= i < |fb| && fb[i] == 0
    ensures forall n <- View(h) :: View(h)[n].st != Fast(i)
  {
    hide BinOf, Tags, Blocks, BinHomes, Linked;
    ViewFacts(h, mem);
    assert Chain(mem, fb[i], h.fast[i]);
    assert h.fast[i] == [];
  }

  lemma FastRange(h: Heap, mem: seq<Cell>, fb: seq<int>)
    requires Inv(h, mem, fb)
    ensures forall n <- View(h) :: View(h)[n].st.Fast? ==> 2 <= View(h)[n].st.bin <= FastBinOf(MAX_FAST)
  {
    hide BinOf, Tags, Blocks, BinHomes, Linked, FastHomes, Chain;
    ViewFacts(h, mem);
  }

  // ---------- reading the bins ----------

  lemma BinReads(h: Heap, mem: seq<Cell>, fb: seq<int>, i: int)
    requires Inv(h, mem, fb) && 1 <= i < NBINS
    ensures |h.bins| == NBINS && i !in h.bins[i] && Reads(mem, i, h.bins[i])
    ensures forall k :: 0 <= k < |h.bins[i]| ==> h.bins[i][k] in View(h) && View(h)[h.bins[i][k]].st == Free(i)
  {
    hide BinOf, Tags, Blocks, FastHomes, Filed, Chain, Reads;
    ViewFacts(h, mem);
    RingReads(mem, i, h.bins[i]);
  }

  /** The chunks of a bin belong there by size, largest first. */
  lemma BinSizes(h: Heap, mem: seq<Cell>, fb: seq<int>, i: int)
    requires Inv(h, mem, fb) && 2 <= i < NBINS
    ensures |h.bins| == NBINS
    ensures var m, s := View(h), h.bins[i];
            && (forall k :: 0 <= k < |s| ==>
                    s[k] in m && m[s[k]].st == Free(i) && m[s[k]].sz >= 2 && BinOf(m[s[k]].sz) == i)
            && (forall k, l :: 0 <= k < l < |s| ==> m[s[k]].sz >= m[s[l]].sz)
  {
    hide BinOf, Tags, Blocks, FastHomes, Wired;
    var m, s := View(h), h.bins[i];
    forall k | 0 <= k < |s| ensures s[k] in m && m[s[k]].st == Free(i) && m[s[k]].sz >= 2 && BinOf(m[s[k]].sz) == i {
      var x := s[k];
      assert x in m && m[x].st == Free(i);
      assert m[x].st.Free? && m[x].st.bin >= 2;
    }
    assert Sorted(m, s);
  }

  lemma SizeBound(h: Heap, mem: seq<Cell>, fb: seq<int>)
    requires Inv(h, mem, fb)
    ensures forall n <- View(h) :: ChunkSize(View(h)[n].sz)
  {
    hide Tags, Blocks, Lists;
    ViewFacts(h, mem);
  }
}
