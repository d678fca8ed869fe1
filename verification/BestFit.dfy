/** Best fit (src/mem/malloc.c, `mALLOc`): what the search of the sorted bins finds, once the unsorted
    queue is empty, is the smallest free chunk that is large enough. */
module BestFit {
  import opened Basics
  import opened BinIndex
  import opened Chunks
  import opened FreeLists
  import opened Heap

  ghost predicate NoFit(m: Map, nb: int) {
    forall n <- m :: m[n].st.Free? ==> m[n].sz < nb
  }

  ghost predicate Smallest(m: Map, nb: int, v: int) {
    && v in m && m[v].st.Free? && m[v].sz >= nb
    && forall n <- m :: m[n].st.Free? ==> m[n].sz < nb || m[n].sz >= m[v].sz
  }

  /** All bins from lo up to hi are empty. */
  ghost predicate Hollow(bins: seq<seq<int>>, lo: int, hi: int) {
    forall j :: lo <= j < hi && 0 <= j < |bins| ==> bins[j] == []
  }

  /** No chunk of bin i is large enough. */
  ghost predicate TooSmall(h: Heap, i: int, nb: int) {
    0 <= i < |h.bins| && forall k :: 0 <= k < |h.bins[i]| && h.bins[i][k] in View(h) ==> View(h)[h.bins[i][k]].sz < nb
  }

  /** With the unsorted queue empty, a chunk that fits is in the bin of the request or in a higher one. */
  lemma FitsAbove(h: Heap, mem: seq<Cell>, fb: seq<int>, nb: int, n: int)
    requires Inv(h, mem, fb) && 2 <= nb && n in View(h) && View(h)[n].st.Free? && View(h)[n].sz >= nb
    requires |h.bins| == NBINS && h.bins[1] == []
    ensures var b := View(h)[n].st.bin;
            && ChunkSize(View(h)[n].sz) && ChunkSize(nb) && b == BinOf(View(h)[n].sz) && BinOf(nb) <= b < NBINS
            && n in h.bins[b]
  {
    hide BinOf, Tags, Blocks, FastHomes, Wired, Sorted, Len;
    SizeBound(h, mem, fb);
    BinsOrdered(View(h)[n].sz, nb);
    var b := View(h)[n].st.bin;
    assert n in h.bins[b];
  }

  lemma FoundAbove(h: Heap, mem: seq<Cell>, fb: seq<int>, nb: int, j: int, v: int)
    requires Inv(h, mem, fb) && 2 <= nb && Searchable(nb) && |h.bins| == NBINS
    requires BinOf(nb) < j < NBINS && 2 <= j && h.bins[j] != [] && v == h.bins[j][|h.bins[j]| - 1]
    ensures v in View(h) && View(h)[v].st == Free(j) && View(h)[v].sz >= nb
    ensures forall k :: 0 <= k < |h.bins[j]| ==> h.bins[j][k] in View(h) && View(h)[h.bins[j][k]].sz >= View(h)[v].sz
  {
    hide BinOf, Tags, Blocks, Lists, Len, Inv, Searchable;
    BinSizes(h, mem, fb, j);
    SizeBound(h, mem, fb);
    HigherBinsFit(nb);
  }

  lemma ScanIsBest(h: Heap, mem: seq<Cell>, fb: seq<int>, nb: int, j: int, v: int)
    requires Inv(h, mem, fb) && 2 <= nb && Searchable(nb) && |h.bins| == NBINS && h.bins[1] == []
    requires BinOf(nb) < j < NBINS && 2 <= j && h.bins[j] != [] && v == h.bins[j][|h.bins[j]| - 1]
    requires Hollow(h.bins, BinOf(nb) + 1, j) && 0 <= BinOf(nb) && TooSmall(h, BinOf(nb), nb)
    ensures Smallest(View(h), nb, v)
  {
    hide BinOf, Lists, Len, Inv, Searchable, View;
    FoundAbove(h, mem, fb, nb, j, v);
    var m := View(h);
    forall n | n in m && m[n].st.Free? ensures m[n].sz < nb || m[n].sz >= m[v].sz {
      if m[n].sz >= nb {
        FitsAbove(h, mem, fb, nb, n);
        BinSizes(h, mem, fb, j);
        SizeBound(h, mem, fb);
        BinsOrdered(m[v].sz, m[n].sz);
      }
    }
  }

  lemma NoneIsNone(h: Heap, mem: seq<Cell>, fb: seq<int>, nb: int)
    requires Inv(h, mem, fb) && 2 <= nb && |h.bins| == NBINS && h.bins[1] == []
    requires 0 <= BinOf(nb) && Hollow(h.bins, BinOf(nb) + 1, NBINS) && TooSmall(h, BinOf(nb), nb)
    ensures NoFit(View(h), nb)
  {
    hide BinOf, Lists, Len, Inv, View;
    var m := View(h);
    forall n | n in m && m[n].st.Free? ensures m[n].sz < nb {
      if m[n].sz >= nb {
        FitsAbove(h, mem, fb, nb, n);
      }
    }
  }

  lemma InBinIsBest(h: Heap, mem: seq<Cell>, fb: seq<int>, nb: int, v: int)
    requires Inv(h, mem, fb) && 2 <= nb && |h.bins| == NBINS && h.bins[1] == [] && 2 <= BinOf(nb) < NBINS
    requires v in View(h) && View(h)[v].st == Free(BinOf(nb)) && View(h)[v].sz >= nb
    requires forall k :: 0 <= k < |h.bins[BinOf(nb)]| ==>
               && h.bins[BinOf(nb)][k] in View(h)
               && (View(h)[h.bins[BinOf(nb)][k]].sz < nb || View(h)[h.bins[BinOf(nb)][k]].sz >= View(h)[v].sz)
    ensures Smallest(View(h), nb, v)
  {
    hide BinOf, Lists, Len, Inv, View;
    var m := View(h);
    forall n | n in m && m[n].st.Free? ensures m[n].sz < nb || m[n].sz >= m[v].sz {
      if m[n].sz >= nb {
        FitsAbove(h, mem, fb, nb, n);
        FitsAbove(h, mem, fb, nb, v);
        BinsOrdered(m[v].sz, m[n].sz);
      }
    }
  }

  // ---------- small requests ----------

  /** No chunk in the sorted bins fits exactly. */
  ghost predicate NoExact(m: Map, nb: int) {
    forall n <- m :: m[n].st.Free? && m[n].st.bin >= 2 ==> m[n].sz != nb
  }

  lemma EmptyBinNoExact(h: Heap, mem: seq<Cell>, fb: seq<int>, nb: int)
    requires Inv(h, mem, fb) && 2 <= nb < MIN_LARGE && |h.bins| == NBINS && h.bins[2 * nb] == []
    ensures NoExact(View(h), nb)
  {
    hide Tags, Blocks, FastHomes, Wired, Sorted, Len, Distinct;
    var m := View(h);
    forall n | n in m && m[n].st.Free? && m[n].st.bin >= 2 ensures m[n].sz != nb {
      assert n in h.bins[m[n].st.bin];
    }
  }

  lemma NoExactTooSmall(h: Heap, mem: seq<Cell>, fb: seq<int>, nb: int)
    requires Inv(h, mem, fb) && 2 <= nb < MIN_LARGE && NoExact(View(h), nb)
    ensures TooSmall(h, BinOf(nb), nb)
  {
    hide Lists, Len, Inv, View, LargeIndex;
    BinSizes(h, mem, fb, 2 * nb);
    SizeBound(h, mem, fb);
    var m, s := View(h), h.bins[2 * nb];
    forall k | 0 <= k < |s| ensures s[k] in m && m[s[k]].sz < nb {
      var n := s[k];
      assert n in m && m[n].st == Free(2 * nb) && m[n].sz != nb;
      assert ChunkSize(m[n].sz);
      SmallBin(m[n].sz);
    }
  }

  lemma NoExactMore(m: Map, p: int, size: int, bin: int, nb: int)
    requires NoExact(m, nb) && size != nb
    ensures NoExact(m[p := Chunk(size, Free(bin))], nb)
  {
  }

  /** No arena holds a chunk close to the size of the address space. */
  lemma HugeNoFit(h: Heap, mem: seq<Cell>, fb: seq<int>, nb: int)
    requires Inv(h, mem, fb) && 16 * nb >= TWO_32
    ensures NoFit(View(h), nb)
  {
    hide Lists, Len, Inv, View;
    SizeBound(h, mem, fb);
  }
}
