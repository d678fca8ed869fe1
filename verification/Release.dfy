/** Giving a chunk back (src/mem/malloc.c, `fREe` and `malloc_consolidate`): merging a used chunk with the
    free neighbours that were taken out of their bins, into the unsorted queue or into top. */
module Release {
  import opened BinIndex
  import opened Chunks
  import opened Rings
  import opened FreeLists
  import opened Heap
  import opened Reshape
  import opened Steps

  /** Chunk k is used and the rest of the run i..j is in limbo. */
  ghost predicate Run(h: Heap, i: int, k: int, j: int) {
    && 0 <= i <= k < j <= |h.cs| && h.cs[k].st == Used
    && (forall l :: i <= l < j && l != k ==> h.cs[l].st == Limbo)
    && (i > 0 ==> !IsFree(h.cs[i - 1]))
  }

  lemma RunView(h: Heap, mem: seq<Cell>, i: int, k: int, j: int)
    requires Arena(h.cs, mem, h.base) && Run(h, i, k, j)
    ensures Live(Outside(View(h), Addr(h, i), Addr(h, j))) == Live(View(h)) - {Addr(h, k)}
  {
    var m, p, q := View(h), Addr(h, i), Addr(h, j);
    hide Blocks, Len, Tags, Arena;
    forall n | n in m && p <= n < q && n != Addr(h, k) ensures m[n].st == Limbo {
      var l := IndexIn(h, mem, n, i, j);
    }
    RunMember(h, mem, i, k, j);
  }

  lemma RunMember(h: Heap, mem: seq<Cell>, i: int, k: int, j: int)
    requires Arena(h.cs, mem, h.base) && 0 <= i <= k < j <= |h.cs|
    ensures Addr(h, i) <= Addr(h, k) < Addr(h, j)
  {
    AddrSum(h, mem, i, k);
    AddrSum(h, mem, k, j);
  }

  lemma IndexIn(h: Heap, mem: seq<Cell>, n: int, i: int, j: int) returns (l: int)
    requires Arena(h.cs, mem, h.base) && n in View(h) && 0 <= i <= j <= |h.cs| && Addr(h, i) <= n < Addr(h, j)
    ensures i <= l < j && Addr(h, l) == n && h.cs[l] == View(h)[n]
  {
    ViewFacts(h, mem);
    l := Find(h.cs, h.base, n);
    if l < i {
      AddrSum(h, mem, l, i);
    } else if l >= j {
      AddrSum(h, mem, j, l);
    }
  }

  lemma IndexOf(h: Heap, mem: seq<Cell>, p: int) returns (k: int)
    requires Arena(h.cs, mem, h.base) && p in View(h)
    ensures 0 <= k < |h.cs| && Addr(h, k) == p && h.cs[k] == View(h)[p]
  {
    ViewFacts(h, mem);
    k := Find(h.cs, h.base, p);
  }

  lemma BeforeFree(h: Heap, mem: seq<Cell>, i: int)
    requires Arena(h.cs, mem, h.base) && 0 < i < |h.cs| && IsFree(h.cs[i])
    ensures !IsFree(h.cs[i - 1])
  {
    AroundNext(h, mem, i - 1);
  }

  lemma RunPlain(h: Heap, i: int, k: int, j: int)
    requires Run(h, i, k, j)
    ensures Plain(h.cs[i..j])
  {
  }

  ghost predicate Released(h: Heap, mem: seq<Cell>, h': Heap, mem': seq<Cell>, q: int, e: int) {
    && h'.base == h.base && h'.fast == h.fast && Top(h') == Top(h)
    && |h.bins| == NBINS && h'.bins == h.bins[1 := [q] + h.bins[1]]
    && View(h') == Outside(View(h), q, e)[q := Chunk(e - q, Free(1))]
    && Kept(Live(Outside(View(h), q, e)), mem, mem')
  }

  /** The run becomes one free chunk at the front of the unsorted queue. */
  lemma ReleaseStep(h: Heap, mem: seq<Cell>, mem1: seq<Cell>, fb: seq<int>, i: int, k: int, j: int) returns (h': Heap)
    requires Inv(h, mem, fb) && Run(h, i, k, j) && j < |h.cs| && !IsFree(h.cs[j])
    requires Local(mem, mem1, Addr(h, i), Addr(h, j), false) && 0 <= Addr(h, j) < |mem|
    requires mem1[Addr(h, i)].b == 16 * (Addr(h, j) - Addr(h, i)) + 1
    requires mem1[Addr(h, j)] == Cell(16 * (Addr(h, j) - Addr(h, i)), 16 * h.cs[j].sz)
    ensures 0 <= Addr(h, i) && Addr(h, i) + 1 < |mem1| && 0 <= mem1[2].a && mem1[2].a + 1 < |mem1|
    ensures var q, e := Addr(h, i), Addr(h, j);
            var mem2 := LinkBetween(mem1, q, 1, mem1[2].a);
            Inv(h', mem2, fb) && Released(h, mem, h', mem2, q, e)
  {
    hide Blocks, Len, Tags, Arena, Lists, Kept, Live, Inv, ReadyAt, Plain, LinkBetween, LastFree;
    var q, e := Addr(h, i), Addr(h, j);
    var c := Chunk(e - q, Limbo);
    InvArena(h, mem, fb);
    FreeReady(h, mem, mem1, i, j);
    RunPlain(h, i, k, j);
    assert Plain([c]) by { OnePlain(c); }
    var h1 := StepAt(h, mem, mem1, fb, i, j, [c]);
    One(c, mem1, q, false);
    assert View(h1) == Outside(View(h), q, e)[q := c];
    TopOfStep(h, mem, h1, i, j, [c]);
    assert Fits(View(h1), h1.bins, q, 1, 0) by { FitsUnsorted(h1, mem1, fb, q); }
    h' := LinkStep(h1, mem1, fb, q, 1, 0);
    assert Ring(1, h1.bins[1])[0] == 1;
    assert Ring(1, h1.bins[1])[1] == mem1[2].a;
    assert InsertAt(h1.bins[1], 0, q) == [q] + h1.bins[1];
    RunMember(h, mem, i, i, j);
    LimboLive(Outside(View(h), q, e), q, c);
    KeptTrans(Live(Outside(View(h), q, e)), Live(View(h1)), mem, mem1, LinkBetween(mem1, q, 1, mem1[2].a));
  }

  /** The run joins the top chunk that follows it. */
  lemma IntoTopStep(h: Heap, mem: seq<Cell>, fb: seq<int>, i: int, k: int) returns (h': Heap)
    requires Inv(h, mem, fb) && Run(h, i, k, |h.cs|)
    ensures 0 <= Addr(h, i) < |mem|
    ensures var q := Addr(h, i);
            var mem' := SetHead(mem, q, 16 * (|mem| - q) + 1);
            && Inv(h', mem', fb) && h'.base == h.base && h'.bins == h.bins && h'.fast == h.fast && Top(h') == q
            && View(h') == Outside(View(h), q, Top(h)) && Kept(Live(Outside(View(h), q, Top(h))), mem, mem')
  {
    hide Blocks, Len, Tags, Arena, Lists, Kept, Live, Inv, ReadyAt, Plain, LastFree;
    var q := Addr(h, i);
    InvArena(h, mem, fb);
    IntoTopReady(h, mem, i);
    RunPlain(h, i, k, |h.cs|);
    assert Plain([]) by { NilPlain(); }
    h' := StepAt(h, mem, SetHead(mem, q, 16 * (|mem| - q) + 1), fb, i, |h.cs|, []);
    NilBlocks(q);
    assert h.cs[..i] + [] + h.cs[|h.cs|..] == h.cs[..i];
  }

  lemma NilPlain()
    ensures Plain([])
  {
  }

  lemma InvArena(h: Heap, mem: seq<Cell>, fb: seq<int>)
    requires Inv(h, mem, fb)
    ensures Arena(h.cs, mem, h.base) && |h.bins| == NBINS && |h.fast| == |fb| == NFASTBINS
  {
    hide Tags, Blocks, Filed;
  }

  lemma OnePlain(c: Chunk)
    requires c.st == Used || c.st == Limbo
    ensures Plain([c])
  {
  }

  lemma FitsUnsorted(h: Heap, mem: seq<Cell>, fb: seq<int>, q: int)
    requires Inv(h, mem, fb) && q in View(h) && View(h)[q].st == Limbo
    ensures Fits(View(h), h.bins, q, 1, 0)
  {
    hide Tags, Blocks, Filed, BinOf;
  }

  lemma LimboLive(m: Map, q: int, c: Chunk)
    requires q !in m && c.st == Limbo
    ensures Live(m[q := c]) == Live(m)
  {
  }

  lemma InThree(cs: seq<Chunk>, i: int, j: int)
    requires 0 <= i <= j <= |cs|
    ensures cs == cs[..i] + cs[i..j] + cs[j..]
  {
  }

  lemma TopOfStep(h: Heap, mem: seq<Cell>, h1: Heap, i: int, j: int, mid: seq<Chunk>)
    requires Arena(h.cs, mem, h.base) && 0 <= i <= j <= |h.cs|
    requires h1.base == h.base && h1.cs == h.cs[..i] + mid + h.cs[j..] && Len(mid) == Addr(h, j) - Addr(h, i)
    ensures Top(h1) == Top(h)
  {
    hide Arena;
    AddrSum(h, mem, i, j);
    InThree(h.cs, i, j);
    SameTop(h.cs[..i], h.cs[i..j], mid, h.cs[j..]);
  }

  lemma KeptTrans(live: map<int, int>, live': map<int, int>, mem: seq<Cell>, mem1: seq<Cell>, mem2: seq<Cell>)
    requires Kept(live, mem, mem1) && Kept(live', mem1, mem2)
    requires forall n <- live' :: n in live && live[n] == live'[n]
    ensures Kept(live', mem, mem2)
  {
    forall n <- live' ensures SameData(mem, mem2, n, live'[n]) {
      assert SameData(mem, mem1, n, live[n]) && SameData(mem1, mem2, n, live'[n]);
    }
  }

  lemma KeptSubset(live: map<int, int>, live': map<int, int>, mem: seq<Cell>, mem': seq<Cell>)
    requires Kept(live, mem, mem') && forall n <- live' :: n in live && live[n] == live'[n]
    ensures Kept(live', mem, mem')
  {
  }

  // ---------- the whole of it ----------

  ghost predicate NoLimbo(m: Map) { forall n <- m :: m[n].st != Limbo }

  /** Only the chunks of a run may be in limbo. */
  ghost predicate LimboIn(h: Heap, i: int, j: int) {
    forall l :: 0 <= l < |h.cs| && h.cs[l].st == Limbo ==> i <= l < j
  }

  lemma NoLimboAt(h: Heap, mem: seq<Cell>, k: int)
    requires Arena(h.cs, mem, h.base) && NoLimbo(View(h)) && 0 <= k < |h.cs|
    ensures h.cs[k].st != Limbo
  {
    Around(h, mem, k);
  }

  lemma LimboNone(h: Heap, mem: seq<Cell>)
    requires Arena(h.cs, mem, h.base) && NoLimbo(View(h))
    ensures forall l :: 0 <= l < |h.cs| ==> h.cs[l].st != Limbo
  {
    forall l | 0 <= l < |h.cs| ensures h.cs[l].st != Limbo {
      NoLimboAt(h, mem, l);
    }
  }

  /** What is left outside the run: no chunk in limbo, all fast chunks, all live blocks but chunk k. */
  lemma RunRest(h: Heap, mem: seq<Cell>, i: int, k: int, j: int)
    requires Arena(h.cs, mem, h.base) && Run(h, i, k, j) && LimboIn(h, i, j)
    ensures var rest := Outside(View(h), Addr(h, i), Addr(h, j));
            NoLimbo(rest) && SameFast(View(h), rest) && Live(rest) == Live(View(h)) - {Addr(h, k)}
  {
    hide Blocks, Len, Tags, Arena;
    RunView(h, mem, i, k, j);
    hide Live;
    var m, p, q := View(h), Addr(h, i), Addr(h, j);
    forall n | n in m ensures p <= n < q ==> m[n].st == Limbo || m[n].st == Used {
      if p <= n < q {
        var l := IndexIn(h, mem, n, i, j);
      }
    }
    forall n | n in m && !(p <= n < q) ensures m[n].st != Limbo {
      OutsideIndex(h, mem, n, i, j);
    }
  }

  lemma OutsideIndex(h: Heap, mem: seq<Cell>, n: int, i: int, j: int)
    requires Arena(h.cs, mem, h.base) && n in View(h) && 0 <= i <= j <= |h.cs| && !(Addr(h, i) <= n < Addr(h, j))
    requires LimboIn(h, i, j)
    ensures View(h)[n].st != Limbo
  {
    ViewFacts(h, mem);
    var l := Find(h.cs, h.base, n);
    if i <= l < j {
      RunMember(h, mem, i, l, j);
    }
  }

  lemma UnlinkedMap(m: Map, p: int)
    requires p in m && m[p].st.Free?
    ensures var m' := m[p := Chunk(m[p].sz, Limbo)]; Live(m') == Live(m) && SameFast(m, m')
  {
  }

  lemma OutsideAt(m: Map, q: int, e: int)
    requires q < e
    ensures q !in Outside(m, q, e)
  {
  }

  lemma FreedMap(m: Map, q: int, c: Chunk)
    requires q !in m && c.st == Free(1) && NoLimbo(m)
    ensures Live(m[q := c]) == Live(m) && SameFast(m, m[q := c]) && NoLimbo(m[q := c])
  {
  }

  lemma SameFastRefl(m: Map)
    ensures SameFast(m, m)
  {
  }

  lemma SameFastTrans(m: Map, m1: Map, m2: Map)
    requires SameFast(m, m1) && SameFast(m1, m2)
    ensures SameFast(m, m2)
  {
  }

  lemma SameIndex(h: Heap, mem: seq<Cell>, n: int, l: int)
    requires Arena(h.cs, mem, h.base) && 0 <= n < |h.cs| && 0 <= l < |h.cs| && Addr(h, n) == Addr(h, l)
    ensures n == l
  {
    if n < l {
      RunMember(h, mem, n, n, l);
    } else if l < n {
      RunMember(h, mem, l, l, n);
    }
  }

  lemma StatusAddr(h: Heap, h': Heap, mem: seq<Cell>, k: int, st: Status)
    requires Arena(h.cs, mem, h.base) && 0 <= k < |h.cs| && h'.base == h.base && h'.cs == SetStatus(h.cs, k, st)
    ensures forall l :: 0 <= l <= |h.cs| ==> Addr(h', l) == Addr(h, l)
  {
    TagsSized(h.cs, mem, h.base, false);
    forall l | 0 <= l <= |h.cs| ensures Addr(h', l) == Addr(h, l) {
      if k < l {
        assert h'.cs[..l] == SetStatus(h.cs[..l], k, st);
        StatusBlocks(h.cs[..l], 0, k, st);
      } else {
        assert h'.cs[..l] == h.cs[..l];
      }
    }
  }

  /** The tags written for a run from q to e whose successor at the start was at next. */
  function FreeTags(mem: seq<Cell>, q: int, next: int, nextsize: int, size: int): (r: seq<Cell>)
    requires 0 <= q < |mem| && 0 <= next < |mem| && 0 <= q + size < |mem|
    ensures |r| == |mem|
  {
    SetFoot(SetHead(SetHead(mem, next, 16 * nextsize), q, 16 * size + 1), q, size)
  }

  lemma FreeTagsLocal(mem: seq<Cell>, q: int, next: int, nextsize: int, size: int)
    requires 0 <= q < next <= q + size < |mem|
    ensures var mem1 := FreeTags(mem, q, next, nextsize, size);
            && Local(mem, mem1, q, q + size, false) && mem1[q].b == 16 * size + 1
            && mem1[q + size] == Cell(16 * size, if next == q + size then 16 * nextsize else mem[q + size].b)
  {
  }

  lemma PoppedMap(m: Map, p: int)
    requires p in m && m[p].st.Fast?
    ensures var m' := m[p := Chunk(m[p].sz, Used)];
            && Live(m') - {p} == Live(m) && (NoLimbo(m) ==> NoLimbo(m')) && Live(m') == Live(m)[p := m[p].sz]
            && p !in Live(m)
            && (forall n <- m' :: m'[n].st.Fast? ==> n in m && m[n] == m'[n] && n != p)
  {
  }

  lemma PushedMap(m: Map, p: int, i: int)
    requires p in m && m[p].st == Used
    ensures var m' := m[p := Chunk(m[p].sz, Fast(i))];
            Live(m') == Live(m) - {p} && (NoLimbo(m) ==> NoLimbo(m'))
  {
  }

  // ---------- what is merged ----------

  /** The stretch from q to e that becomes free with the chunk at p: the chunk itself and its free neighbours. */
  ghost predicate Gap(m: Map, p: int, q: int, e: int) {
    && p in m
    && (if FreeBefore(m, p) then q in m && m[q].st.Free? && q + m[q].sz == p else q == p)
    && var n := p + m[p].sz;
       e == if n in m && m[n].st.Free? then n + m[n].sz else n
  }

  ghost predicate FreeBefore(m: Map, p: int) { exists u <- m :: m[u].st.Free? && u + m[u].sz == p }

  /** The stretch from q to e becomes the front of top if it borders it, else the first chunk of the unsorted queue. */
  ghost predicate Merged(h: Heap, q: int, e: int, h': Heap) {
    if e == Top(h) then View(h') == Outside(View(h), q, e) && Top(h') == q
    else
      && View(h') == Outside(View(h), q, e)[q := Chunk(e - q, Free(1))] && Top(h') == Top(h)
      && |h'.bins| > 1 && h'.bins[1] != [] && h'.bins[1][0] == q
  }

  /** Where the run around chunk k begins: at the free chunk before it, if there is one. */
  ghost predicate Starts(cs: seq<Chunk>, i: int, k: int) {
    0 <= k < |cs| && if k > 0 && cs[k - 1].st.Free? then i == k - 1 else i == k
  }

  /** Where it ends. */
  ghost predicate Ends(cs: seq<Chunk>, k: int, j: int) {
    0 <= k < |cs| && if k + 1 < |cs| && cs[k + 1].st.Free? then j == k + 2 else j == k + 1
  }

  lemma GapBack(h: Heap, mem: seq<Cell>, k: int)
    requires Arena(h.cs, mem, h.base) && 0 <= k < |h.cs|
    ensures FreeBefore(View(h), Addr(h, k)) <==> k > 0 && h.cs[k - 1].st.Free?
  {
    hide Blocks, Len, Tags, Arena;
    var m, p := View(h), Addr(h, k);
    if k > 0 {
      Around(h, mem, k - 1);
    }
    if FreeBefore(m, p) {
      var u :| u in m && m[u].st.Free? && u + m[u].sz == p;
      var l := IndexOf(h, mem, u);
      Around(h, mem, l);
      NextIndex(h, mem, l + 1, k);
    }
  }

  lemma NextIndex(h: Heap, mem: seq<Cell>, n: int, l: int)
    requires Arena(h.cs, mem, h.base) && 0 <= n <= |h.cs| && 0 <= l < |h.cs| && Addr(h, n) == Addr(h, l)
    ensures n == l
  {
    hide Blocks, Len, Tags, Arena;
    if n < l {
      AddrSum(h, mem, n, l);
    } else if l < n {
      AddrSum(h, mem, l, n);
    }
  }

  lemma GapIs(h: Heap, mem: seq<Cell>, i: int, k: int, j: int)
    requires Arena(h.cs, mem, h.base) && Starts(h.cs, i, k) && Ends(h.cs, k, j)
    ensures 0 <= i <= k < j <= |h.cs| && Gap(View(h), Addr(h, k), Addr(h, i), Addr(h, j))
  {
    hide Blocks, Len, Tags, Arena, FreeBefore;
    GapBack(h, mem, k);
    Around(h, mem, k);
    if k > 0 {
      Around(h, mem, k - 1);
    }
    if k + 1 < |h.cs| {
      Around(h, mem, k + 1);
    } else {
      NothingThere(h, mem);
    }
  }

  lemma BelowTop(h: Heap, mem: seq<Cell>, j: int)
    requires Arena(h.cs, mem, h.base) && 0 <= j < |h.cs|
    ensures Addr(h, j) < Top(h)
  {
    hide Blocks, Len, Tags, Arena;
    Around(h, mem, j);
  }

  lemma NothingThere(h: Heap, mem: seq<Cell>)
    requires Arena(h.cs, mem, h.base)
    ensures Top(h) !in View(h)
  {
    ViewFacts(h, mem);
  }

  lemma OutsideBack(m: Map, m': Map, p: int, q: int)
    requires q <= p && m' == if q == p then m else m[q := Chunk(p - q, Limbo)]
    ensures forall e :: p < e ==> Outside(m', q, e) == Outside(m, q, e)
  {
  }

  lemma OutsideNext(m: Map, m': Map, q: int, e: int, n: int)
    requires q <= n <= e && m' == if e == n then m else m[n := Chunk(e - n, Limbo)]
    ensures Outside(m', q, e) == Outside(m, q, e)
  {
  }
}
