/** Which chunk serves a request (src/mem/malloc.c, `mALLOc`), said from the heap before the call: the order in
    which fastbin, small bin, unsorted queue, sorted bins and top are tried. */
module Choosing {
  import opened BinIndex
  import opened Chunks
  import opened FreeLists
  import opened Heap
  import opened Steps
  import opened Release
  import opened Carving
  import opened BestFit
  import opened Resting
  import opened Basics

  // ---------- the unsorted queue ----------

  /** The chunks of m once those of the queue s, from position k on, are filed in the bins of their sizes. */
  ghost function FiledFrom(m: Map, s: seq<int>, k: int): Map
    requires 0 <= k <= |s|
  {
    map n | n in m :: if n in s[k..] && m[n].sz >= 0 then Chunk(m[n].sz, Free(BinOf(m[n].sz))) else m[n]
  }

  /** The queue is looked through from its end; the first chunk of exactly the size is at position k. */
  ghost predicate FirstExact(m: Map, s: seq<int>, nb: int, k: int) {
    0 <= k < |s| && s[k] in m && m[s[k]].sz == nb && NoneExactFrom(m, s, nb, k + 1)
  }

  ghost predicate NoneExactFrom(m: Map, s: seq<int>, nb: int, k: int) {
    forall l :: k <= l < |s| && 0 <= l && s[l] in m ==> m[s[l]].sz != nb
  }

  /** The last remainder, first in the queue and so looked at last, is split for a small request. */
  ghost predicate Remainder(m: Map, s: seq<int>, last: int, nb: int) {
    && nb < MIN_LARGE && s != [] && s[0] == last && last in m && m[last].sz > nb + MINSIZE
    && NoneExactFrom(m, s, nb, 0)
  }

  ghost predicate InQueue(m: Map, s: seq<int>, last: int, nb: int) {
    !NoneExactFrom(m, s, nb, 0) || Remainder(m, s, last, nb)
  }

  /** p comes from the queue, and m' are the chunks afterwards. */
  ghost predicate FromQueue(m: Map, s: seq<int>, last: int, nb: int, p: int, m': Map) {
    if Remainder(m, s, last, nb) then p == last && m' == CarvedFrom(FiledFrom(m, s, 1), p, nb)
    else exists k :: FirstExact(m, s, nb, k) && p == s[k] && m' == CarvedFrom(FiledFrom(m, s, k + 1), p, nb)
  }

  // ---------- all of it ----------

  ghost predicate InFast(h: Heap, nb: int) {
    nb <= MAX_FAST && 0 <= FastBinOf(nb) < |h.fast| && h.fast[FastBinOf(nb)] != []
  }

  ghost predicate InSmall(h: Heap, nb: int) {
    nb < MIN_LARGE && 0 <= 2 * nb < |h.bins| && h.bins[2 * nb] != []
  }

  ghost function Queue(h: Heap): seq<int> { if |h.bins| > 1 then h.bins[1] else [] }

  /** Fastbin, small bin or unsorted queue have a chunk for the request. */
  ghost predicate AtHand(h: Heap, last: int, nb: int) {
    InFast(h, nb) || InSmall(h, nb) || InQueue(View(h), Queue(h), last, nb)
  }

  /** The chunks when all of the queue has been filed. */
  ghost function AllFiled(h: Heap): Map { FiledFrom(View(h), Queue(h), 0) }

  /** The request is served at p, and h' is the heap afterwards: the head of its fastbin, else the last chunk of
      its small bin, else what the queue offers, else the smallest free chunk that fits, else the front of top. */
  ghost predicate Takes(h: Heap, last: int, nb: int, p: int, h': Heap) {
    if InFast(h, nb) then
      p == h.fast[FastBinOf(nb)][0] && View(h') == View(h)[p := Chunk(nb, Used)] && Top(h') == Top(h)
    else if InSmall(h, nb) then
      p == h.bins[2 * nb][|h.bins[2 * nb]| - 1] && View(h') == View(h)[p := Chunk(nb, Used)] && Top(h') == Top(h)
    else if InQueue(View(h), Queue(h), last, nb) then
      FromQueue(View(h), Queue(h), last, nb, p, View(h')) && Top(h') == Top(h)
    else if NoFit(View(h), nb) then
      p == Top(h) && p !in View(h) && View(h') == AllFiled(h)[p := Chunk(nb, Used)] && Top(h') == p + nb
    else
      Smallest(AllFiled(h), nb, p) && View(h') == CarvedFrom(AllFiled(h), p, nb) && Top(h') == Top(h)
  }

  /** The same live blocks with every fastbin emptied: at rest, so that live blocks and base tell all the rest. */
  ghost predicate Regrouped(h: Heap, h': Heap) {
    h'.base == h.base && Live(View(h')) == Live(View(h)) && AtRest(View(h'), h'.base, Top(h'))
  }

  /** The last remainder after a request was served at p: what a split for a small request left. */
  ghost function NextRemainder(m: Map, last: int, nb: int, p: int): int {
    if nb < MIN_LARGE && p in m && m[p].st.Free? && m[p].sz - nb >= MINSIZE then p + nb else last
  }

  /** Nothing is at hand and no free chunk fits. */
  ghost predicate Unserved(h: Heap, last: int, nb: int) {
    !AtHand(h, last, nb) && NoFit(View(h), nb)
  }

  /** The request is cut from top. */
  ghost predicate OffTop(h: Heap, nb: int, p: int, h': Heap) {
    p == Top(h) && p !in View(h) && View(h') == View(h)[p := Chunk(nb, Used)] && Top(h') == p + nb
  }

  /** The heap that a request is served from: the one before the call, unless there may be fastbin chunks and the
      request is large, or nothing else can serve it and top is too small; then they are consolidated first. */
  ghost predicate From(h: Heap, fastChunks: bool, last: int, topSize: int, nb: int, from: Heap) {
    if fastChunks && (nb >= MIN_LARGE || (Unserved(h, last, nb) && topSize < nb + MINSIZE)) then Regrouped(h, from)
    else from == h
  }

  // ---------- growing in place ----------

  /** The block at p can become nb cells where it is: it is large enough, or top behind it leaves a top, or the free
      chunk behind it is large enough together with it. */
  ghost predicate Stays(h: Heap, cells: int, p: int, nb: int) {
    var m := View(h);
    && p in m
    && var next := p + m[p].sz;
       || m[p].sz >= nb
       || (next == Top(h) && cells - p >= nb + MINSIZE)
       || (next in m && m[next].st.Free? && m[p].sz + m[next].sz >= nb)
  }

  lemma StaysEnough(h: Heap, cells: int, p: int, nb: int)
    requires p in Live(View(h)) && !Stays(h, cells, p, nb)
    ensures Live(View(h))[p] < nb
  {
  }

  /** Where a block ends up for which a new chunk was found at q. */
  ghost function Lands(live: map<int, int>, p: int, q: int): int {
    if p in live && q == p + live[p] then p else q
  }

  lemma NextChunk(h: Heap, mem: seq<Cell>, k: int)
    requires Arena(h.cs, mem, h.base) && 0 <= k < |h.cs|
    ensures var m, next := View(h), Addr(h, k) + h.cs[k].sz;
            && (next in m <==> k + 1 < |h.cs|) && (next == Top(h) <==> k + 1 == |h.cs|)
            && (k + 1 < |h.cs| ==> m[next] == h.cs[k + 1] && Addr(h, k + 1) == next)
  {
    hide Blocks, Len, Tags, Arena;
    Around(h, mem, k);
    if k + 1 < |h.cs| {
      Around(h, mem, k + 1);
      BelowTop(h, mem, k + 1);
    } else {
      NothingThere(h, mem);
    }
  }

  // ---------- filing one chunk after the other ----------

  lemma FiledNone(m: Map, s: seq<int>)
    ensures FiledFrom(m, s, |s|) == m
  {
    assert s[|s|..] == [];
  }

  lemma NoneAtAll(m: Map, s: seq<int>, nb: int)
    ensures NoneExactFrom(m, s, nb, |s|)
  {
  }

  lemma NoneExactMore(m: Map, s: seq<int>, nb: int, k: int)
    requires 0 < k <= |s| && s[k - 1] in m && NoneExactFrom(m, s, nb, k)
    ensures NoneExactFrom(m, s, nb, k - 1) <==> m[s[k - 1]].sz != nb
  {
  }

  lemma ExactTaken(m: Map, s: seq<int>, last: int, nb: int, k: int, m': Map)
    requires FirstExact(m, s, nb, k) && s[k] in FiledFrom(m, s, k + 1)
    requires m' == CarvedFrom(FiledFrom(m, s, k + 1), s[k], nb)
    ensures InQueue(m, s, last, nb) && FromQueue(m, s, last, nb, s[k], m')
  {
    hide FiledFrom, CarvedFrom;
  }

  lemma TopTaken(h: Heap, last: int, nb: int, p: int, h1: Heap, h2: Heap)
    requires !AtHand(h, last, nb) && NoFit(View(h), nb) && View(h1) == AllFiled(h) && Top(h1) == Top(h)
    requires OffTop(h1, nb, p, h2)
    ensures Takes(h, last, nb, p, h2)
  {
    hide View, Top, InFast, InSmall, InQueue, FromQueue, NoFit, BinOf;
    assert AllFiled(h).Keys == View(h).Keys;
  }

  lemma SmallestFits(m: Map, nb: int, p: int)
    requires Smallest(m, nb, p)
    ensures !NoFit(m, nb)
  {
  }

  lemma FiledMore(m: Map, s: seq<int>, k: int, size: int)
    requires 0 < k <= |s| && s[k - 1] in m && m[s[k - 1]].sz == size >= 0
    ensures FiledFrom(m, s, k)[s[k - 1] := Chunk(size, Free(BinOf(size)))] == FiledFrom(m, s, k - 1)
  {
    hide BinOf;
    assert s[k - 1..] == [s[k - 1]] + s[k..];
  }

  /** A chunk of the queue that has not been filed is as it was. */
  lemma NotFiled(m: Map, s: seq<int>, k: int, l: int)
    requires 0 <= l < k <= |s| && Distinct(s) && s[l] in m
    ensures s[l] in FiledFrom(m, s, k) && FiledFrom(m, s, k)[s[l]] == m[s[l]]
  {
    hide BinOf;
  }

  /** Filing changes neither addresses nor sizes, nor which chunks are free. */
  lemma FiledSame(m: Map, s: seq<int>, k: int)
    requires 0 <= k <= |s| && forall l :: 0 <= l < |s| ==> s[l] in m && m[s[l]].st.Free?
    ensures var m' := FiledFrom(m, s, k);
            m'.Keys == m.Keys && forall n <- m :: m'[n].sz == m[n].sz && (m'[n].st.Free? <==> m[n].st.Free?)
  {
    hide BinOf;
    forall n | n in m && n in s[k..] ensures m[n].st.Free? {
      var l :| 0 <= l < |s[k..]| && s[k..][l] == n;
      assert s[k + l] == n;
    }
  }

  lemma FiledFits(m: Map, s: seq<int>, k: int, nb: int)
    requires 0 <= k <= |s| && forall l :: 0 <= l < |s| ==> s[l] in m && m[s[l]].st.Free?
    ensures NoFit(FiledFrom(m, s, k), nb) <==> NoFit(m, nb)
  {
    FiledSame(m, s, k);
    hide FiledFrom;
    var m' := FiledFrom(m, s, k);
    if NoFit(m', nb) {
      forall n | n in m && m[n].st.Free? ensures m[n].sz < nb {
        assert n in m' && m'[n].st.Free?;
      }
    }
    if NoFit(m, nb) {
      forall n | n in m' && m'[n].st.Free? ensures m'[n].sz < nb {
        assert n in m;
      }
    }
  }
}
