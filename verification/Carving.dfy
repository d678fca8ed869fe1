/** Handing a chunk to the client (src/mem/malloc.c, `mALLOc`): whole, split with a remainder, or cut
    from the top chunk. */
module Carving {
  import opened BinIndex
  import opened Chunks
  import opened Rings
  import opened FreeLists
  import opened Heap
  import opened Reshape
  import opened Steps
  import opened Release

  lemma OutsideOne(h: Heap, mem: seq<Cell>, k: int)
    requires Arena(h.cs, mem, h.base) && 0 <= k < |h.cs|
    ensures Outside(View(h), Addr(h, k), Addr(h, k + 1)) == View(h) - {Addr(h, k)}
  {
    hide Blocks, Len, Tags, Arena;
    var m, p, q := View(h), Addr(h, k), Addr(h, k + 1);
    RunMember(h, mem, k, k, k + 1);
    forall n | n in m && p <= n < q ensures n == p {
      var l := IndexIn(h, mem, n, k, k + 1);
    }
  }

  /** What an allocation does: one more live block, of at least nb and less than nb + MINSIZE cells. */
  ghost predicate Handed(m: Map, mem: seq<Cell>, m': Map, mem': seq<Cell>, p: int, sz: int) {
    && p !in Live(m) && Live(m') == Live(m)[p := sz] && Kept(Live(m), mem, mem') && |mem'| == |mem|
    && SameFast(m, m') && NoLimbo(m')
  }

  /** The chunks after a request of nb cells is carved from the free chunk at p: whole, or with the rest
      left as an unsorted chunk of its own. */
  ghost function CarvedFrom(m: Map, p: int, nb: int): Map
    requires p in m
  {
    if m[p].sz - nb < MINSIZE then m[p := Chunk(m[p].sz, Used)]
    else m[p := Chunk(nb, Used)][p + nb := Chunk(m[p].sz - nb, Free(1))]
  }

  ghost predicate OnlyLimbo(m: Map, p: int) {
    p in m && m[p].st == Limbo && NoLimbo(m - {p})
  }

  lemma OnlyLimboAt(h: Heap, mem: seq<Cell>, k: int)
    requires Arena(h.cs, mem, h.base) && 0 <= k < |h.cs| && h.cs[k].st == Limbo && LimboIn(h, k, k + 1)
    ensures OnlyLimbo(View(h), Addr(h, k))
  {
    hide Blocks, Len, Tags, Arena;
    Scout(h, mem, k);
    var m, p := View(h), Addr(h, k);
    forall n | n in m && n != p ensures m[n].st != Limbo {
      var l := IndexOf(h, mem, n);
    }
  }

  lemma TakenMap(m: Map, p: int, sz: int)
    requires OnlyLimbo(m, p)
    ensures var m' := (m - {p}) + map[p := Chunk(sz, Used)];
            && p !in Live(m) && Live(m') == Live(m)[p := sz] && SameFast(m, m') && NoLimbo(m')
            && Live(m - {p}) == Live(m)
            && m' == m[p := Chunk(sz, Used)]
  {
  }

  lemma TakeWhole(h: Heap, mem: seq<Cell>, fb: seq<int>, k: int) returns (h': Heap)
    requires Inv(h, mem, fb) && 0 <= k < |h.cs| && h.cs[k].st == Limbo && LimboIn(h, k, k + 1)
    ensures 0 <= Addr(h, k) < Addr(h, k) + h.cs[k].sz < |mem|
    ensures var p, sz := Addr(h, k), h.cs[k].sz;
            var mem' := SetInuse(mem, p + sz);
            && Inv(h', mem', fb) && Handed(View(h), mem, View(h'), mem', p, sz)
            && View(h') == View(h)[p := Chunk(sz, Used)]
            && h'.base == h.base && h'.bins == h.bins && h'.fast == h.fast && Top(h') == Top(h)
  {
    hide Blocks, Len, Tags, Arena, Lists, Kept, Live, Inv, NoLimbo, SameFast, Outside, LimboIn;
    InvArena(h, mem, fb);
    Scout(h, mem, k);
    OutsideOne(h, mem, k);
    OnlyLimboAt(h, mem, k);
    TakenMap(View(h), Addr(h, k), h.cs[k].sz);
    h' := TakeStep(h, mem, fb, k);
    StatusLen(h.cs, mem, h.base, k, Used);
  }

  lemma StatusLen(cs: seq<Chunk>, mem: seq<Cell>, base: int, k: int, st: Status)
    requires Arena(cs, mem, base) && 0 <= k < |cs|
    ensures Len(SetStatus(cs, k, st)) == Len(cs)
  {
    TagsSized(cs, mem, base, false);
    StatusBlocks(cs, base, k, st);
  }

  function SplitTags(mem: seq<Cell>, p: int, n: int, r: int): (mem': seq<Cell>)
    requires 0 <= p && 0 <= n && 0 <= r && p + n + r < |mem|
    ensures |mem'| == |mem|
  {
    SetFoot(SetHead(SetHead(mem, p, 16 * n + 1), p + n, 16 * r + 1), p + n, r)
  }

  lemma SplitMap(m: Map, p: int, n: int, r: int)
    requires OnlyLimbo(m, p) && p + n !in m && n > 0
    ensures var m' := ((m - {p}) + map[p := Chunk(n, Used), p + n := Chunk(r, Limbo)])[p + n := Chunk(r, Free(1))];
            && p !in Live(m) && Live(m') == Live(m)[p := n] && SameFast(m, m') && NoLimbo(m')
            && Live(m - {p}) == Live(m)
            && m' == m[p := Chunk(n, Used)][p + n := Chunk(r, Free(1))]
  {
  }

  lemma SplitLive(m: Map, p: int, n: int, r: int)
    requires OnlyLimbo(m, p) && p + n !in m && n > 0
    ensures Live((m - {p}) + map[p := Chunk(n, Used), p + n := Chunk(r, Limbo)]) == Live(m)[p := n]
  {
  }

  lemma NotInside(h: Heap, mem: seq<Cell>, k: int, n: int)
    requires Arena(h.cs, mem, h.base) && 0 <= k < |h.cs| && 0 < n < h.cs[k].sz
    ensures Addr(h, k) + n !in View(h)
  {
    hide Blocks, Len, Tags, Arena;
    Scout(h, mem, k);
    ViewFacts(h, mem);
  }

  lemma TwoPlain(h: Heap, k: int, n: int, r: int)
    requires 0 <= k < |h.cs| && h.cs[k].st == Limbo
    ensures Plain(h.cs[k..k + 1]) && Plain([Chunk(n, Used), Chunk(r, Limbo)])
  {
  }

  lemma TakeSplit(h: Heap, mem: seq<Cell>, fb: seq<int>, k: int, n: int) returns (h': Heap)
    requires Inv(h, mem, fb) && 0 <= k < |h.cs| && h.cs[k].st == Limbo && LimboIn(h, k, k + 1)
    requires 2 <= n <= h.cs[k].sz - 2
    requires |h.bins| == NBINS && h.bins[1] == []
    ensures 128 <= Addr(h, k) < Addr(h, k) + h.cs[k].sz < |mem|
    ensures var p, r := Addr(h, k), h.cs[k].sz - n;
            var mem' := LinkBetween(SplitTags(mem, p, n, r), p + n, 1, 1);
            && Inv(h', mem', fb) && Handed(View(h), mem, View(h'), mem', p, n)
            && View(h') == View(h)[p := Chunk(n, Used)][p + n := Chunk(r, Free(1))]
            && h'.base == h.base && h'.bins == h.bins[1 := [p + n]] && h'.fast == h.fast && Top(h') == Top(h)
  {
    hide Blocks, Len, Tags, Arena, Lists, Kept, Live, Inv, NoLimbo, SameFast, Outside, LimboIn, ReadyAt, Plain,
         LinkBetween;
    var p, r := Addr(h, k), h.cs[k].sz - n;
    InvArena(h, mem, fb);
    Scout(h, mem, k);
    OutsideOne(h, mem, k);
    OnlyLimboAt(h, mem, k);
    NotInside(h, mem, k, n);
    SplitReady(h, mem, k, n);
    var mem1 := SplitTags(mem, p, n, r);
    var mid := [Chunk(n, Used), Chunk(r, Limbo)];
    assert Plain(mid) && Plain(h.cs[k..k + 1]) by { TwoPlain(h, k, n, r); }
    Two(mid[0], mid[1], mem1, p, false);
    var h1 := StepAt(h, mem, mem1, fb, k, k + 1, mid);
    SplitLive(View(h), p, n, r);
    SplitMap(View(h), p, n, r);
    FitsUnsorted(h1, mem1, fb, p + n);
    h' := LinkStep(h1, mem1, fb, p + n, 1, 0);
    assert Ring(1, []) == [1, 1];
    assert InsertAt([], 0, p + n) == [p + n];
    KeptSubset(Live(View(h1)), Live(View(h)), mem1, LinkBetween(mem1, p + n, 1, 1));
    KeptTrans(Live(View(h)), Live(View(h)), mem, mem1, LinkBetween(mem1, p + n, 1, 1));
    TopOfStep(h, mem, h1, k, k + 1, mid);
  }

  function TopTags(mem: seq<Cell>, p: int, n: int): (mem': seq<Cell>)
    requires 0 <= p && 0 <= n && p + n < |mem|
    ensures |mem'| == |mem|
  {
    SetHead(SetHead(mem, p, 16 * n + 1), p + n, 16 * (|mem| - p - n) + 1)
  }

  lemma TakeTop(h: Heap, mem: seq<Cell>, fb: seq<int>, n: int) returns (h': Heap)
    requires Inv(h, mem, fb) && NoLimbo(View(h)) && 2 <= n && Top(h) + n + 2 <= |mem|
    ensures 128 <= Top(h)
    ensures var p := Top(h);
            var mem' := TopTags(mem, p, n);
            && Inv(h', mem', fb) && Handed(View(h), mem, View(h'), mem', p, n)
            && View(h') == View(h)[p := Chunk(n, Used)]
            && h'.base == h.base && h'.bins == h.bins && h'.fast == h.fast && Top(h') == p + n
  {
    hide Blocks, Len, Tags, Lists, Kept, Inv, ReadyAt, Plain, Arena;
    var p, k, c := Top(h), |h.cs|, Chunk(n, Used);
    InvArena(h, mem, fb);
    TopReady(h, mem, n);
    NothingAtTop(h, mem);
    assert h.cs[k..k] == [];
    OnePlain(c);
    NilPlain();
    One(c, mem, p, false);
    h' := StepAt(h, mem, TopTags(mem, p, n), fb, k, k, [c]);
    assert Outside(View(h), p, p) == View(h);
    TopGrows(h.cs, c);
  }

  lemma NothingAtTop(h: Heap, mem: seq<Cell>)
    requires Arena(h.cs, mem, h.base)
    ensures Top(h) !in View(h) && 128 <= Top(h)
  {
    ViewFacts(h, mem);
  }

  lemma LenOne(c: Chunk)
    ensures Len([c]) == c.sz
  {
    assert [c][1..] == [];
  }

  lemma TopGrows(cs: seq<Chunk>, c: Chunk)
    ensures Len(cs[..|cs|] + [c] + cs[|cs|..]) == Len(cs) + c.sz
  {
    LenOne(c);
    hide Len;
    assert cs[..|cs|] + [c] + cs[|cs|..] == cs + [c];
    LenConcat(cs, [c]);
  }

  /** The size word of a free chunk has PREV_INUSE set. */
  lemma FreeHead(h: Heap, mem: seq<Cell>, p: int)
    requires Arena(h.cs, mem, h.base) && p in View(h) && IsFree(View(h)[p])
    ensures 128 <= p < |mem| && mem[p].b == 16 * View(h)[p].sz + 1
  {
    hide Blocks, Len, Tags, Arena;
    var k := IndexOf(h, mem, p);
    Around(h, mem, k);
  }

  lemma BinHeads(h: Heap, mem: seq<Cell>, fb: seq<int>, i: int)
    requires Inv(h, mem, fb) && 1 <= i < NBINS
    ensures |h.bins| == NBINS
    ensures forall k :: 0 <= k < |h.bins[i]| ==> h.bins[i][k] in View(h) && 0 <= h.bins[i][k] < |mem|
                                                 && mem[h.bins[i][k]].b == 16 * View(h)[h.bins[i][k]].sz + 1
  {
    hide Blocks, Len, Tags, Arena, Lists, Inv, Reads;
    InvArena(h, mem, fb);
    BinReads(h, mem, fb, i);
    forall k | 0 <= k < |h.bins[i]|
      ensures h.bins[i][k] in View(h) && 0 <= h.bins[i][k] < |mem|
      ensures mem[h.bins[i][k]].b == 16 * View(h)[h.bins[i][k]].sz + 1
    {
      FreeHead(h, mem, h.bins[i][k]);
    }
  }

  /** Position k of a bin is the place for a chunk of the given size. */
  ghost predicate PlaceFor(m: Map, s: seq<int>, size: int, k: int) {
    && 0 <= k <= |s|
    && (k > 0 && s[k - 1] in m ==> m[s[k - 1]].sz >= size)
    && (k < |s| && s[k] in m ==> size >= m[s[k]].sz)
  }
}
