/** The lists of free chunks (src/mem/malloc.c): bins, the unsorted queue (bin 1) and fastbins.

    m maps the address of each chunk to its size and status.  `bins[i]` lists bin i in fd order,
    `fast[i]` lists fastbin i from its head. */
module FreeLists {
  import opened Basics
  import opened Chunks
  import opened Rings
  import opened BinIndex

  type Map = map<int, Chunk>

  ghost predicate Separate(m: Map) {
    && (forall n <- m :: n >= 128 && m[n].sz >= 2)
    && (forall u, n :: u in m && n in m && u < n ==> u + m[u].sz <= n)
  }

  ghost predicate BinHomes(m: Map, bins: seq<seq<int>>) {
    && |bins| == NBINS && bins[0] == []
    && (forall i :: 0 <= i < NBINS ==> Distinct(bins[i]))
    && (forall i, k :: 0 <= i < NBINS && 0 <= k < |bins[i]| ==> bins[i][k] in m && m[bins[i][k]].st == Free(i))
    && (forall n <- m :: m[n].st.Free? ==> 0 <= m[n].st.bin < NBINS && n in bins[m[n].st.bin])
  }

  ghost predicate FastHomes(m: Map, fast: seq<seq<int>>) {
    && |fast| == NFASTBINS
    && (forall i :: 0 <= i < NFASTBINS ==> Distinct(fast[i]))
    && (forall i, k :: 0 <= i < NFASTBINS && 0 <= k < |fast[i]| ==> fast[i][k] in m && m[fast[i][k]].st == Fast(i))
    && (forall n <- m :: m[n].st.Fast? ==> 0 <= m[n].st.bin < NFASTBINS && n in fast[m[n].st.bin])
  }

  ghost predicate Sorted(m: Map, s: seq<int>) {
    forall k, l :: 0 <= k < l < |s| && s[k] in m && s[l] in m ==> m[s[k]].sz >= m[s[l]].sz
  }

  /** Each chunk is in the bin of its size, and each bin is sorted with the largest chunk first. */
  ghost predicate Filed(m: Map, bins: seq<seq<int>>) {
    && (forall n <- m :: m[n].st.Free? && m[n].st.bin >= 2 ==> m[n].sz >= 2 && m[n].st.bin == BinOf(m[n].sz))
    && (forall n <- m :: m[n].st.Fast? ==> m[n].st.bin == FastBinOf(m[n].sz) && m[n].sz <= MAX_FAST)
    && (forall i :: 2 <= i < |bins| ==> Sorted(m, bins[i]))
  }

  ghost predicate Chain(mem: seq<Cell>, x: int, s: seq<int>)
    decreases |s|
  {
    if s == [] then x == 0 else x == s[0] && 0 <= x && x + 1 < |mem| && Chain(mem, mem[x + 1].a, s[1..])
  }

  ghost predicate Wired(mem: seq<Cell>, bins: seq<seq<int>>, fast: seq<seq<int>>, fb: seq<int>) {
    && |bins| == NBINS && |fast| == |fb| == NFASTBINS
    && (forall i :: 1 <= i < NBINS ==> Linked(mem, Ring(i, bins[i])))
    && (forall i :: 0 <= i < NFASTBINS ==> Chain(mem, fb[i], fast[i]))
  }

  ghost predicate Lists(m: Map, bins: seq<seq<int>>, fast: seq<seq<int>>, fb: seq<int>, mem: seq<Cell>) {
    && BinHomes(m, bins) && FastHomes(m, fast) && Filed(m, bins) && Wired(mem, bins, fast, fb)
  }

  // ---------- steps ----------

  lemma {:induction false} ChainFrame(mem: seq<Cell>, mem': seq<Cell>, x: int, s: seq<int>)
    requires Chain(mem, x, s) && |mem| <= |mem'|
    requires forall k :: 0 <= k < |s| && 0 <= s[k] && s[k] + 1 < |mem| ==> mem'[s[k] + 1].a == mem[s[k] + 1].a
    ensures Chain(mem', x, s)
    decreases |s|
  {
    if s != [] {
      assert forall k :: 0 <= k < |s[1..]| ==> s[1..][k] == s[k + 1];
      ChainFrame(mem, mem', mem[x + 1].a, s[1..]);
    }
  }

  lemma RemoveDistinct(s: seq<int>, k: int)
    requires Distinct(s) && 0 <= k < |s|
    ensures Distinct(Without(s, k)) && s[k] !in Without(s, k)
    ensures forall x :: x in s && x != s[k] ==> x in Without(s, k)
    ensures forall x :: x in Without(s, k) ==> x in s
  {
    var t := Without(s, k);
    forall x | x in s && x != s[k] ensures x in t {
      var j :| 0 <= j < |s| && s[j] == x;
      assert x == if j < k then t[j] else t[j - 1];
    }
  }

  lemma UnlinkBinHomes(m: Map, bins: seq<seq<int>>, i: int, k: int)
    requires BinHomes(m, bins) && 1 <= i < NBINS && 0 <= k < |bins[i]|
    ensures BinHomes(m[bins[i][k] := Chunk(m[bins[i][k]].sz, Limbo)], bins[i := Without(bins[i], k)])
  {
    RemoveDistinct(bins[i], k);
    var bins' := bins[i := Without(bins[i], k)];
    assert forall j, l :: 0 <= j < NBINS && 0 <= l < |bins'[j]| ==> bins'[j][l] in bins[j];
  }

  lemma UnlinkFiled(m: Map, bins: seq<seq<int>>, i: int, k: int)
    requires BinHomes(m, bins) && Filed(m, bins) && 1 <= i < NBINS && 0 <= k < |bins[i]|
    ensures Filed(m[bins[i][k] := Chunk(m[bins[i][k]].sz, Limbo)], bins[i := Without(bins[i], k)])
  {
    hide BinOf;
    var s := bins[i];
    var t := Without(s, k);
    var m' := m[s[k] := Chunk(m[s[k]].sz, Limbo)];
    var bins' := bins[i := t];
    forall j | 2 <= j < |bins| ensures Sorted(m', bins'[j]) {
      assert Sorted(m, bins[j]);
      assert forall l :: 0 <= l < |t| ==> t[l] == s[if l < k then l else l + 1];
    }
  }

  /** The nodes of ring i: the header and the chunks of the bin. */
  lemma RingNodes(m: Map, bins: seq<seq<int>>, i: int, k: int)
    requires BinHomes(m, bins) && 1 <= i < NBINS && 0 <= k < |bins[i]| + 2
    ensures var x := Ring(i, bins[i])[k]; x == i || (x in m && m[x].st == Free(i))
  {
  }

  ghost predicate SameLinks(mem: seq<Cell>, mem': seq<Cell>, x: int) {
    0 <= x && x + 1 < |mem| ==> |mem| <= |mem'| && mem'[x + 1] == mem[x + 1]
  }

  /** A change confined to the links of bin i and of chunks in no list leaves all other lists alone. */
  ghost predicate OnlyBin(m: Map, mem: seq<Cell>, mem': seq<Cell>, i: int) {
    && |mem'| >= |mem|
    && (forall x <- m :: (m[x].st.Free? && m[x].st.bin != i) || m[x].st.Fast? ==> SameLinks(mem, mem', x))
    && (forall j :: 1 <= j < NBINS && j != i ==> SameLinks(mem, mem', j))
  }

  lemma OtherRing(m: Map, bins: seq<seq<int>>, mem: seq<Cell>, mem': seq<Cell>, i: int, j: int)
    requires Separate(m) && BinHomes(m, bins) && 1 <= i < NBINS && 1 <= j < NBINS && i != j
    requires Linked(mem, Ring(j, bins[j])) && OnlyBin(m, mem, mem', i)
    ensures Linked(mem', Ring(j, bins[j]))
  {
    var r := Ring(j, bins[j]);
    forall k | 0 <= k < |r| && 0 <= r[k] && r[k] + 1 < |mem| ensures mem'[r[k] + 1] == mem[r[k] + 1] {
      RingNodes(m, bins, j, k);
      assert SameLinks(mem, mem', r[k]);
    }
    LinkedFrame(mem, mem', r);
  }

  lemma OnlyBinWired(m: Map, bins: seq<seq<int>>, fast: seq<seq<int>>, fb: seq<int>, mem: seq<Cell>, mem': seq<Cell>,
                     i: int, s: seq<int>)
    requires Separate(m) && BinHomes(m, bins) && FastHomes(m, fast) && Wired(mem, bins, fast, fb)
    requires 1 <= i < NBINS && OnlyBin(m, mem, mem', i) && Linked(mem', Ring(i, s))
    ensures Wired(mem', bins[i := s], fast, fb)
  {
    var bins' := bins[i := s];
    forall j | 1 <= j < NBINS ensures Linked(mem', Ring(j, bins'[j])) {
      if j != i {
        OtherRing(m, bins, mem, mem', i, j);
      }
    }
    forall j | 0 <= j < NFASTBINS ensures Chain(mem', fb[j], fast[j]) {
      assert forall k :: 0 <= k < |fast[j]| ==> SameLinks(mem, mem', fast[j][k]);
      ChainFrame(mem, mem', fb[j], fast[j]);
    }
  }

  lemma OnlyBinRefl(m: Map, mem: seq<Cell>, i: int)
    ensures OnlyBin(m, mem, mem, i)
  {
  }

  lemma PokeOnlyBin(m: Map, mem: seq<Cell>, mem1: seq<Cell>, x: int, c: Cell, i: int)
    requires Separate(m) && OnlyBin(m, mem, mem1, i) && 0 <= x && x + 1 < |mem|
    requires x == i || (x in m && (m[x].st == Free(i) || m[x].st == Limbo || m[x].st == Used))
    requires 0 <= i < NBINS
    ensures OnlyBin(m, mem, mem1[x + 1 := c], i)
  {
    var mem2 := mem1[x + 1 := c];
    forall j | 1 <= j < NBINS && j != i ensures SameLinks(mem, mem2, j) {
      assert SameLinks(mem, mem1, j);
    }
  }

  lemma UnlinkOnlyBin(m: Map, bins: seq<seq<int>>, mem: seq<Cell>, i: int, k: int)
    requires BinHomes(m, bins) && 1 <= i < NBINS && 0 <= k < |bins[i]| && Separate(m)
    requires Linked(mem, Ring(i, bins[i]))
    ensures var p := bins[i][k];
            && 0 <= p && p + 1 < |mem| && 0 <= mem[p + 1].a && mem[p + 1].a + 1 < |mem|
            && 0 <= mem[p + 1].b && mem[p + 1].b + 1 < |mem| && OnlyBin(m, mem, Unlink(mem, p), i)
  {
    Neighbours(mem, i, bins[i], k);
    RingNodes(m, bins, i, k);
    RingNodes(m, bins, i, k + 2);
    OnlyBinRefl(m, mem, i);
    hide BinHomes, Linked, Ring, Separate, OnlyBin;
    var p := bins[i][k];
    var fd, bk := mem[p + 1].a, mem[p + 1].b;
    var mem1 := SetB(mem, fd + 1, bk);
    PokeOnlyBin(m, mem, mem, fd, mem1[fd + 1], i);
    PokeOnlyBin(m, mem, mem1, bk, Cell(fd, mem1[bk + 1].b), i);
  }

  /** m' has the fastbin chunks of m and no others. */
  ghost predicate SameFast(m: Map, m': Map) {
    && (forall n <- m :: m[n].st.Fast? ==> n in m' && m'[n] == m[n])
    && (forall n <- m' :: m'[n].st.Fast? ==> n in m && m[n] == m'[n])
  }

  lemma UnlinkLists(m: Map, bins: seq<seq<int>>, fast: seq<seq<int>>, fb: seq<int>, mem: seq<Cell>, i: int, k: int)
    requires Separate(m) && Lists(m, bins, fast, fb, mem) && 1 <= i < NBINS && 0 <= k < |bins[i]|
    requires 0 <= bins[i][k] && bins[i][k] + 1 < |mem|
    requires var c := mem[bins[i][k] + 1]; 0 <= c.a && c.a + 1 < |mem| && 0 <= c.b && c.b + 1 < |mem|
    ensures var p := bins[i][k];
            Lists(m[p := Chunk(m[p].sz, Limbo)], bins[i := Without(bins[i], k)], fast, fb, Unlink(mem, p))
  {
    hide BinOf;
    var p := bins[i][k];
    var m' := m[p := Chunk(m[p].sz, Limbo)];
    UnlinkBinHomes(m, bins, i, k);
    UnlinkFiled(m, bins, i, k);
    UnlinkRing(mem, i, bins[i], k);
    UnlinkOnlyBin(m, bins, mem, i, k);
    OnlyBinWired(m, bins, fast, fb, mem, Unlink(mem, p), i, Without(bins[i], k));
    FastHomesFrame(m, m', fast);
  }

  lemma FastHomesFrame(m: Map, m': Map, fast: seq<seq<int>>)
    requires FastHomes(m, fast) && SameFast(m, m')
    ensures FastHomes(m', fast)
  {
    forall i, k | 0 <= i < NFASTBINS && 0 <= k < |fast[i]| ensures fast[i][k] in m' && m'[fast[i][k]].st == Fast(i) {
      var x := fast[i][k];
      assert x in m && m[x].st.Fast?;
    }
  }

  ghost predicate SameFree(m: Map, m': Map) {
    && (forall n <- m :: m[n].st.Free? ==> n in m' && m'[n] == m[n])
    && (forall n <- m' :: m'[n].st.Free? ==> n in m && m[n] == m'[n])
  }

  lemma BinHomesFrame(m: Map, m': Map, bins: seq<seq<int>>)
    requires BinHomes(m, bins) && SameFree(m, m')
    ensures BinHomes(m', bins)
  {
    forall i, k | 0 <= i < NBINS && 0 <= k < |bins[i]| ensures bins[i][k] in m' && m'[bins[i][k]].st == Free(i) {
      var x := bins[i][k];
      assert x in m && m[x].st.Free?;
    }
  }

  lemma FiledFrame(m: Map, m': Map, bins: seq<seq<int>>)
    requires BinHomes(m, bins) && Filed(m, bins) && SameFree(m, m') && SameFast(m, m')
    ensures Filed(m', bins)
  {
    hide BinOf;
    forall i | 2 <= i < |bins| ensures Sorted(m', bins[i]) {
      assert Sorted(m, bins[i]);
      assert forall k :: 0 <= k < |bins[i]| ==> bins[i][k] in m && m[bins[i][k]].st.Free?;
    }
  }

  /** Chunks that are in no list may be split, merged and retagged without touching any list. */
  lemma ListsFrame(m: Map, m': Map, bins: seq<seq<int>>, fast: seq<seq<int>>, fb: seq<int>, mem: seq<Cell>,
                   mem': seq<Cell>)
    requires Separate(m) && Lists(m, bins, fast, fb, mem) && SameFree(m, m') && SameFast(m, m')
    requires OnlyBin(m, mem, mem', 0)
    ensures Lists(m', bins, fast, fb, mem')
  {
    hide BinOf;
    BinHomesFrame(m, m', bins);
    FastHomesFrame(m, m', fast);
    FiledFrame(m, m', bins);
    var r := Ring(1, bins[1]);
    forall k | 0 <= k < |r| && 0 <= r[k] && r[k] + 1 < |mem| ensures mem'[r[k] + 1] == mem[r[k] + 1] {
      RingNodes(m, bins, 1, k);
      assert SameLinks(mem, mem', r[k]);
    }
    LinkedFrame(mem, mem', r);
    assert OnlyBin(m, mem, mem', 1);
    OnlyBinWired(m, bins, fast, fb, mem, mem', 1, bins[1]);
    assert bins[1 := bins[1]] == bins;
  }

  // ---------- linking a chunk into a bin ----------

  lemma LinkBinHomes(m: Map, bins: seq<seq<int>>, p: int, i: int, k: int)
    requires BinHomes(m, bins) && 1 <= i < NBINS && 0 <= k <= |bins[i]| && p in m && m[p].st == Limbo
    ensures BinHomes(m[p := Chunk(m[p].sz, Free(i))], bins[i := InsertAt(bins[i], k, p)])
  {
    var s := bins[i];
    var t := InsertAt(s, k, p);
    assert p !in s by {
      assert forall l :: 0 <= l < |s| ==> m[s[l]].st == Free(i);
    }
    InsertedDistinct(s, k, p);
    hide InsertAt, Distinct;
    var m', bins' := m[p := Chunk(m[p].sz, Free(i))], bins[i := t];
    forall j, l | 0 <= j < NBINS && 0 <= l < |bins'[j]| ensures bins'[j][l] in m' && m'[bins'[j][l]].st == Free(j) {
      assert j == i ==> t[l] in t;
      assert j != i ==> m[bins[j][l]].st == Free(j);
    }
  }

  lemma InsertedDistinct(s: seq<int>, k: int, p: int)
    requires 0 <= k <= |s| && p !in s && Distinct(s)
    ensures Distinct(InsertAt(s, k, p)) && forall x :: x in InsertAt(s, k, p) <==> x in s || x == p
  {
    var t := InsertAt(s, k, p);
    assert forall l :: 0 <= l < |t| ==> t[l] == if l < k then s[l] else if l == k then p else s[l - 1];
    forall x | x in s || x == p ensures x in t {
      if x == p {
        assert t[k] == x;
      } else {
        var j :| 0 <= j < |s| && s[j] == x;
        assert x == if j < k then t[j] else t[j + 1];
      }
    }
  }

  lemma LinkFiled(m: Map, bins: seq<seq<int>>, p: int, i: int, k: int)
    requires BinHomes(m, bins) && Filed(m, bins) && 1 <= i < NBINS && 0 <= k <= |bins[i]| && p in m && m[p].st == Limbo
    requires i >= 2 ==> m[p].sz >= 2 && BinOf(m[p].sz) == i
    requires i >= 2 && k > 0 ==> m[bins[i][k - 1]].sz >= m[p].sz
    requires i >= 2 && k < |bins[i]| ==> m[p].sz >= m[bins[i][k]].sz
    ensures Filed(m[p := Chunk(m[p].sz, Free(i))], bins[i := InsertAt(bins[i], k, p)])
  {
    hide BinOf, InsertAt, Distinct, Sorted;
    var s := bins[i];
    var t := InsertAt(s, k, p);
    var m' := m[p := Chunk(m[p].sz, Free(i))];
    var bins' := bins[i := t];
    forall j | 2 <= j < |bins| ensures Sorted(m', bins'[j]) {
      assert Sorted(m, bins[j]);
      SortedSame(m, m', bins[j]);
      if j == i {
        SortedInsert(m', s, p, k);
      }
    }
  }

  lemma SortedSame(m: Map, m': Map, s: seq<int>)
    requires Sorted(m, s) && forall k :: 0 <= k < |s| && s[k] in m' ==> s[k] in m && m'[s[k]].sz == m[s[k]].sz
    ensures Sorted(m', s)
  {
  }

  lemma SortedInsert(m: Map, s: seq<int>, p: int, k: int)
    requires Sorted(m, s) && 0 <= k <= |s| && p in m && forall j :: 0 <= j < |s| ==> s[j] in m
    requires k > 0 ==> m[s[k - 1]].sz >= m[p].sz
    requires k < |s| ==> m[p].sz >= m[s[k]].sz
    ensures Sorted(m, InsertAt(s, k, p))
  {
    var t := InsertAt(s, k, p);
    forall j, l | 0 <= j < l < |t| ensures m[t[j]].sz >= m[t[l]].sz {
      assert t[j] == if j < k then s[j] else if j == k then p else s[j - 1];
      assert t[l] == if l < k then s[l] else if l == k then p else s[l - 1];
    }
  }

  lemma LinkOnlyBin(m: Map, bins: seq<seq<int>>, mem: seq<Cell>, p: int, i: int, k: int)
    requires BinHomes(m, bins) && 1 <= i < NBINS && 0 <= k <= |bins[i]| && Separate(m)
    requires Linked(mem, Ring(i, bins[i])) && p in m && m[p].st == Limbo && p + 1 < |mem|
    ensures var r := Ring(i, bins[i]);
            Joined(mem, r[k], r[k + 1]) && OnlyBin(m, mem, LinkBetween(mem, p, r[k], r[k + 1]), i)
  {
    var r := Ring(i, bins[i]);
    assert Joined(mem, r[k], r[k + 1]);
    RingNodes(m, bins, i, k);
    RingNodes(m, bins, i, k + 1);
    OnlyBinRefl(m, mem, i);
    hide BinHomes, Linked, Ring, Separate, OnlyBin;
    var bck, fwd := r[k], r[k + 1];
    var mem1 := SetA(SetB(mem, p + 1, bck), p + 1, fwd);
    var mem2 := SetB(mem1, fwd + 1, p);
    assert mem1 == mem[p + 1 := Cell(fwd, bck)];
    PokeOnlyBin(m, mem, mem, p, Cell(fwd, bck), i);
    PokeOnlyBin(m, mem, mem1, fwd, mem2[fwd + 1], i);
    PokeOnlyBin(m, mem, mem2, bck, Cell(p, mem2[bck + 1].b), i);
  }

  lemma LinkLists(m: Map, bins: seq<seq<int>>, fast: seq<seq<int>>, fb: seq<int>, mem: seq<Cell>, p: int, i: int,
                  k: int)
    requires Separate(m) && Lists(m, bins, fast, fb, mem) && 1 <= i < NBINS && 0 <= k <= |bins[i]|
    requires p in m && m[p].st == Limbo && p + 1 < |mem|
    requires i >= 2 ==> m[p].sz >= 2 && BinOf(m[p].sz) == i
    requires i >= 2 && k > 0 ==> m[bins[i][k - 1]].sz >= m[p].sz
    requires i >= 2 && k < |bins[i]| ==> m[p].sz >= m[bins[i][k]].sz
    requires Joined(mem, Ring(i, bins[i])[k], Ring(i, bins[i])[k + 1])
    ensures Lists(m[p := Chunk(m[p].sz, Free(i))], bins[i := InsertAt(bins[i], k, p)], fast, fb,
                  LinkBetween(mem, p, Ring(i, bins[i])[k], Ring(i, bins[i])[k + 1]))
  {
    hide BinOf;
    var r := Ring(i, bins[i]);
    LinkBinHomes(m, bins, p, i, k);
    LinkFiled(m, bins, p, i, k);
    LinkRing(mem, i, bins[i], k, p);
    LinkOnlyBin(m, bins, mem, p, i, k);
    OnlyBinWired(m, bins, fast, fb, mem, LinkBetween(mem, p, r[k], r[k + 1]), i, InsertAt(bins[i], k, p));
    FastHomesFrame(m, m[p := Chunk(m[p].sz, Free(i))], fast);
  }

  // ---------- fastbins ----------

  lemma PushFastHomes(m: Map, fast: seq<seq<int>>, p: int, i: int)
    requires FastHomes(m, fast) && 0 <= i < NFASTBINS && p in m && m[p].st == Used
    ensures FastHomes(m[p := Chunk(m[p].sz, Fast(i))], fast[i := [p] + fast[i]])
  {
    var t := [p] + fast[i];
    assert t[0] == p && forall k :: 0 < k < |t| ==> t[k] == fast[i][k - 1];
    forall x | x in fast[i] ensures x in t {
      var k :| 0 <= k < |fast[i]| && fast[i][k] == x;
      assert t[k + 1] == x;
    }
  }

  lemma PushWired(m: Map, bins: seq<seq<int>>, fast: seq<seq<int>>, fb: seq<int>, mem: seq<Cell>, p: int, i: int)
    requires Separate(m) && Lists(m, bins, fast, fb, mem) && 0 <= i < NFASTBINS
    requires p in m && m[p].st == Used && p + 1 < |mem|
    ensures Wired(SetA(mem, p + 1, fb[i]), bins, fast[i := [p] + fast[i]], fb[i := p])
  {
    var mem' := SetA(mem, p + 1, fb[i]);
    PokeOnlyBin(m, mem, mem, p, mem'[p + 1], 0);
    ListsFrame(m, m, bins, fast, fb, mem, mem');
    var fast' := fast[i := [p] + fast[i]];
    assert fast'[i][1..] == fast[i];
  }

  lemma PushFast(m: Map, bins: seq<seq<int>>, fast: seq<seq<int>>, fb: seq<int>, mem: seq<Cell>, p: int, i: int)
    requires Separate(m) && Lists(m, bins, fast, fb, mem) && 0 <= i < NFASTBINS
    requires p in m && m[p].st == Used && p + 1 < |mem| && i == FastBinOf(m[p].sz) && m[p].sz <= MAX_FAST
    ensures Lists(m[p := Chunk(m[p].sz, Fast(i))], bins, fast[i := [p] + fast[i]], fb[i := p], SetA(mem, p + 1, fb[i]))
  {
    hide BinOf;
    var m' := m[p := Chunk(m[p].sz, Fast(i))];
    PushFastHomes(m, fast, p, i);
    PushWired(m, bins, fast, fb, mem, p, i);
    BinHomesFrame(m, m', bins);
    assert forall j :: 2 <= j < |bins| && Sorted(m, bins[j]) ==> Sorted(m', bins[j]);
  }

  lemma PopFastHomes(m: Map, fast: seq<seq<int>>, i: int)
    requires FastHomes(m, fast) && 0 <= i < NFASTBINS && fast[i] != []
    ensures FastHomes(m[fast[i][0] := Chunk(m[fast[i][0]].sz, Used)], fast[i := fast[i][1..]])
  {
    RemoveDistinct(fast[i], 0);
    assert Without(fast[i], 0) == fast[i][1..];
  }

  lemma PopFast(m: Map, bins: seq<seq<int>>, fast: seq<seq<int>>, fb: seq<int>, mem: seq<Cell>, i: int)
    requires Separate(m) && Lists(m, bins, fast, fb, mem) && 0 <= i < NFASTBINS && fast[i] != []
    ensures fb[i] == fast[i][0] && fb[i] + 1 < |mem| && m[fb[i]].st == Fast(i)
    ensures Lists(m[fb[i] := Chunk(m[fb[i]].sz, Used)], bins, fast[i := fast[i][1..]], fb[i := mem[fb[i] + 1].a], mem)
  {
    hide BinOf;
    var p := fast[i][0];
    assert Chain(mem, fb[i], fast[i]);
    var m' := m[p := Chunk(m[p].sz, Used)];
    PopFastHomes(m, fast, i);
    BinHomesFrame(m, m', bins);
    assert forall j :: 2 <= j < |bins| && Sorted(m, bins[j]) ==> Sorted(m', bins[j]);
  }
}
