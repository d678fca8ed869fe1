/** Changing a live block in place (src/mem/malloc.c, `rEALLOc` and `mEMALIGn`), and the client's own writes. */
module Resize {
  import opened BinIndex
  import opened Chunks
  import opened Rings
  import opened FreeLists
  import opened Heap
  import opened Reshape
  import opened Steps
  import opened Release
  import opened Carving

  /** A live block of n + r cells becomes two. */
  lemma CutStep(h: Heap, mem: seq<Cell>, fb: seq<int>, k: int, n: int) returns (h': Heap)
    requires Inv(h, mem, fb) && NoLimbo(View(h)) && 0 <= k < |h.cs| && h.cs[k].st == Used && 2 <= n <= h.cs[k].sz - 2
    ensures 128 <= Addr(h, k) < Addr(h, k) + h.cs[k].sz < |mem|
    ensures var p, r := Addr(h, k), h.cs[k].sz - n;
            var mem' := SetHead(SetHeadSize(mem, p, n), p + n, 16 * r + 1);
            && Inv(h', mem', fb) && h'.base == h.base && h'.bins == h.bins && h'.fast == h.fast && Top(h') == Top(h)
            && View(h') == View(h)[p := Chunk(n, Used)][p + n := Chunk(r, Used)] && p + n !in View(h)
            && Kept(Live(View(h)) - {p}, mem, mem') && SameData(mem, mem', p, n)
  {
    hide Blocks, Len, Tags, Arena, Lists, Kept, Live, Inv, NoLimbo, Outside, ReadyAt, Plain;
    var p, r := Addr(h, k), h.cs[k].sz - n;
    InvArena(h, mem, fb);
    Scout(h, mem, k);
    OutsideOne(h, mem, k);
    NotInside(h, mem, k, n);
    CutReady(h, mem, k, n);
    var mem1 := SetHead(SetHeadSize(mem, p, n), p + n, 16 * r + 1);
    var mid := [Chunk(n, Used), Chunk(r, Used)];
    assert Plain(mid) && Plain(h.cs[k..k + 1]) by { UsedPlain(h, k, n, r); }
    Two(mid[0], mid[1], mem1, p, false);
    h' := StepAt(h, mem, mem1, fb, k, k + 1, mid);
    LiveMinus(View(h), p);
    TopOfStep(h, mem, h', k, k + 1, mid);
  }

  lemma UsedPlain(h: Heap, k: int, n: int, r: int)
    requires 0 <= k < |h.cs| && h.cs[k].st == Used
    ensures Plain(h.cs[k..k + 1]) && Plain([Chunk(n, Used), Chunk(r, Used)])
  {
  }

  lemma LiveMinus(m: Map, p: int)
    ensures Live(m - {p}) == Live(m) - {p}
  {
  }

  /** A live block and the chunk after it, in limbo or live itself, become one live block. */
  lemma JoinStep(h: Heap, mem: seq<Cell>, fb: seq<int>, k: int) returns (h': Heap)
    requires Inv(h, mem, fb) && 0 <= k && k + 1 < |h.cs| && h.cs[k].st == Used
    requires h.cs[k + 1].st == Limbo || h.cs[k + 1].st == Used
    ensures 128 <= Addr(h, k) < Addr(h, k) + h.cs[k].sz + h.cs[k + 1].sz < |mem|
    ensures var p, sz := Addr(h, k), h.cs[k].sz + h.cs[k + 1].sz;
            var mem' := SetInuse(SetHeadSize(mem, p, sz), p + sz);
            && Inv(h', mem', fb) && h'.base == h.base && h'.bins == h.bins && h'.fast == h.fast && Top(h') == Top(h)
            && p + h.cs[k].sz in View(h) && View(h)[p + h.cs[k].sz] == h.cs[k + 1]
            && View(h') == (View(h) - {p + h.cs[k].sz})[p := Chunk(sz, Used)]
            && Kept(Live(View(h)) - {p, p + h.cs[k].sz}, mem, mem') && SameData(mem, mem', p, h.cs[k].sz)
  {
    hide Blocks, Len, Tags, Arena, Lists, Kept, Live, Inv, Outside, ReadyAt, Plain;
    var p, sz := Addr(h, k), h.cs[k].sz + h.cs[k + 1].sz;
    InvArena(h, mem, fb);
    Scout(h, mem, k);
    Scout(h, mem, k + 1);
    OutsideTwo(h, mem, k);
    UseReady(h, mem, k, k + 2);
    var mem1 := SetInuse(SetHeadSize(mem, p, sz), p + sz);
    var c := Chunk(sz, Used);
    OnePlain(c);
    assert Plain(h.cs[k..k + 2]) by { PairPlain(h, k); }
    One(c, mem1, p, false);
    h' := StepAt(h, mem, mem1, fb, k, k + 2, [c]);
    TopOfStep(h, mem, h', k, k + 2, [c]);
    LiveMinus2(View(h), p, p + h.cs[k].sz);
  }

  lemma PairPlain(h: Heap, k: int)
    requires 0 <= k && k + 1 < |h.cs| && h.cs[k].st == Used && (h.cs[k + 1].st == Limbo || h.cs[k + 1].st == Used)
    ensures Plain(h.cs[k..k + 2])
  {
  }

  lemma LiveMinus2(m: Map, p: int, q: int)
    ensures Live(m - {p, q}) == Live(m) - {p, q}
  {
  }

  lemma OutsideTwo(h: Heap, mem: seq<Cell>, k: int)
    requires Arena(h.cs, mem, h.base) && 0 <= k && k + 1 < |h.cs|
    ensures Outside(View(h), Addr(h, k), Addr(h, k + 2)) == View(h) - {Addr(h, k), Addr(h, k + 1)}
  {
    hide Blocks, Len, Tags, Arena;
    var m, p, q := View(h), Addr(h, k), Addr(h, k + 2);
    RunMember(h, mem, k, k, k + 2);
    RunMember(h, mem, k, k + 1, k + 2);
    forall n | n in m && p <= n < q ensures n == p || n == Addr(h, k + 1) {
      var l := IndexIn(h, mem, n, k, k + 2);
    }
  }

  /** A live block that borders top takes cells from it. */
  lemma GrowStep(h: Heap, mem: seq<Cell>, fb: seq<int>, n: int) returns (h': Heap)
    requires Inv(h, mem, fb) && h.cs != [] && h.cs[|h.cs| - 1].st == Used && 2 <= n && h.cs[|h.cs| - 1].sz <= n
    requires Addr(h, |h.cs| - 1) + n + 2 <= |mem|
    ensures 128 <= Addr(h, |h.cs| - 1)
    ensures var p, sz := Addr(h, |h.cs| - 1), h.cs[|h.cs| - 1].sz;
            var mem' := SetHead(SetHeadSize(mem, p, n), p + n, 16 * (|mem| - p - n) + 1);
            && Inv(h', mem', fb) && h'.base == h.base && h'.bins == h.bins && h'.fast == h.fast && Top(h') == p + n
            && View(h') == View(h)[p := Chunk(n, Used)]
            && Kept(Live(View(h)) - {p}, mem, mem') && SameData(mem, mem', p, sz)
  {
    hide Blocks, Len, Tags, Arena, Lists, Kept, Live, Inv, Outside, ReadyAt, Plain;
    var k := |h.cs| - 1;
    var p := Addr(h, k);
    InvArena(h, mem, fb);
    Scout(h, mem, k);
    OutsideOne(h, mem, k);
    GrowReady(h, mem, n);
    var mem1 := SetHead(SetHeadSize(mem, p, n), p + n, 16 * (|mem| - p - n) + 1);
    var c := Chunk(n, Used);
    OnePlain(c);
    assert Plain(h.cs[k..k + 1]) by { UsedPlain(h, k, 0, 0); }
    One(c, mem1, p, false);
    h' := StepAt(h, mem, mem1, fb, k, k + 1, [c]);
    LiveMinus(View(h), p);
    GrownTop(h.cs, c);
  }

  lemma GrownTop(cs: seq<Chunk>, c: Chunk)
    requires cs != []
    ensures Len(cs[..|cs| - 1] + [c] + cs[|cs|..]) == Len(cs[..|cs| - 1]) + c.sz
  {
    var pre := cs[..|cs| - 1];
    assert pre + [c] + cs[|cs|..] == pre + [c];
    LenConcat(pre, [c]);
    assert [c][1..] == [];
  }

  // ---------- the client's data ----------

  /** mem' differs from mem only in the client's part of the block at p. */
  ghost predicate DataOnly(mem: seq<Cell>, mem': seq<Cell>, p: int, sz: int) {
    && |mem'| == |mem| && 0 <= p + sz < |mem| && mem'[p + sz].b == mem[p + sz].b
    && forall c :: 0 <= c < |mem| && (c <= p || c > p + sz) ==> mem'[c] == mem[c]
  }

  /** Whatever the client writes into its blocks, the allocator's invariant and all other blocks are safe. */
  lemma DataWrite(h: Heap, mem: seq<Cell>, mem': seq<Cell>, fb: seq<int>, p: int)
    requires Inv(h, mem, fb) && p in Live(View(h)) && DataOnly(mem, mem', p, Live(View(h))[p])
    ensures Inv(h, mem', fb) && Kept(Live(View(h)) - {p}, mem, mem')
  {
    hide BinOf, Tags, Blocks, BinHomes, FastHomes, Filed, Wired, Len;
    ViewFacts(h, mem);
    var m := View(h);
    DataFrames(m, mem, mem', p);
    TagsFrame(h.cs, mem, mem', h.base, false);
    hide SameTags, OnlyBin, Kept, Separate;
    SameBoth(m);
    ListsFrame(m, m, h.bins, h.fast, fb, mem, mem');
  }

  lemma SameBoth(m: Map)
    ensures SameFree(m, m) && SameFast(m, m)
  {
  }

  lemma DataFrames(m: Map, mem: seq<Cell>, mem': seq<Cell>, p: int)
    requires Separate(m) && p in m && m[p].st == Used && DataOnly(mem, mem', p, m[p].sz)
    ensures SameTags(m, mem, mem') && OnlyBin(m, mem, mem', 0) && Kept(Live(m) - {p}, mem, mem')
  {
    DataTags(m, mem, mem', p);
    DataLinks(m, mem, mem', p);
    DataOthers(m, mem, mem', p);
  }

  lemma DataTags(m: Map, mem: seq<Cell>, mem': seq<Cell>, p: int)
    requires Separate(m) && p in m && m[p].st == Used && DataOnly(mem, mem', p, m[p].sz)
    ensures SameTags(m, mem, mem')
  {
  }

  lemma DataLinks(m: Map, mem: seq<Cell>, mem': seq<Cell>, p: int)
    requires Separate(m) && p in m && m[p].st == Used && DataOnly(mem, mem', p, m[p].sz)
    ensures OnlyBin(m, mem, mem', 0)
  {
  }

  lemma DataOthers(m: Map, mem: seq<Cell>, mem': seq<Cell>, p: int)
    requires Separate(m) && p in m && m[p].st == Used && DataOnly(mem, mem', p, m[p].sz)
    ensures Kept(Live(m) - {p}, mem, mem')
  {
  }
}
