/** The concrete splits and merges of the allocator, each an instance of a reshaping step. */
module Steps {
  import opened Basics
  import opened BinIndex
  import opened Chunks
  import opened Rings
  import opened FreeLists
  import opened Heap
  import opened Reshape

  ghost function Addr(h: Heap, k: int): int
    requires 0 <= k <= |h.cs|
  {
    h.base + Len(h.cs[..k])
  }

  lemma One(c: Chunk, mem: seq<Cell>, a: int, pf: bool)
    ensures Len([c]) == c.sz && Blocks([c], a) == map[a := c] && LastFree([c], pf) == IsFree(c)
    ensures Tags([c], mem, a, pf) <==>
            && 0 <= a && c.sz >= 2 && a + c.sz < |mem| && mem[a].b == 16 * c.sz + (if pf then 0 else 1)
            && (IsFree(c) ==> !pf && mem[a + c.sz].a == 16 * c.sz)
  {
    assert [c][1..] == [];
  }

  lemma Two(c: Chunk, d: Chunk, mem: seq<Cell>, a: int, pf: bool)
    requires c.sz > 0
    ensures Len([c, d]) == c.sz + d.sz && Blocks([c, d], a) == map[a := c, a + c.sz := d]
    ensures LastFree([c, d], pf) == IsFree(d)
    ensures Tags([c, d], mem, a, pf) <==>
            && 0 <= a && c.sz >= 2 && a + c.sz < |mem| && mem[a].b == 16 * c.sz + (if pf then 0 else 1)
            && (IsFree(c) ==> !pf && mem[a + c.sz].a == 16 * c.sz)
            && Tags([d], mem, a + c.sz, IsFree(c))
  {
    assert [c, d][1..] == [d];
    One(d, mem, a + c.sz, IsFree(c));
  }

  /** What the words around the chunk number k say. */
  lemma Around(h: Heap, mem: seq<Cell>, k: int)
    requires Arena(h.cs, mem, h.base) && 0 <= k < |h.cs|
    ensures var p, c := Addr(h, k), h.cs[k];
            && 128 <= h.base <= p && c.sz >= 2 && p + c.sz < |mem| && p in View(h) && View(h)[p] == c
            && Addr(h, k + 1) == p + c.sz
            && mem[p].b == 16 * c.sz + (if k > 0 && IsFree(h.cs[k - 1]) then 0 else 1)
            && (IsFree(c) ==>
                    && mem[p + c.sz].a == 16 * c.sz && k + 1 < |h.cs| && !IsFree(h.cs[k + 1])
                    && (k > 0 ==> !IsFree(h.cs[k - 1])))
            && (k + 1 == |h.cs| ==> p + c.sz == Top(h))
            && p + c.sz <= Top(h)
  {
    hide Len, Blocks, Tags;
    var pre, mid, post := h.cs[..k], [h.cs[k]], h.cs[k + 1..];
    var p := Addr(h, k);
    assert h.cs == pre + mid + post;
    assert h.cs[..k + 1] == pre + mid;
    LenConcat(pre, mid);
    ArenaPieces(pre, mid, post, mem, h.base);
    One(h.cs[k], mem, p, LastFree(pre, false));
    View3(pre, mid, post, h.base);
    Regions(pre, mid, post, mem, h.base);
    AroundNext(h, mem, k);
  }

  lemma AroundNext(h: Heap, mem: seq<Cell>, k: int)
    requires Arena(h.cs, mem, h.base) && 0 <= k < |h.cs|
    ensures IsFree(h.cs[k]) ==> k + 1 < |h.cs| && !IsFree(h.cs[k + 1])
    ensures Len(h.cs[..k + 1]) <= Len(h.cs) && (k + 1 == |h.cs| ==> h.cs[..k + 1] == h.cs)
  {
    var pre, post := h.cs[..k + 1], h.cs[k + 1..];
    assert h.cs == pre + [] + post;
    ArenaPieces(pre, [], post, mem, h.base);
    LenConcat(pre, post);
    assert h.cs == pre + post;
  }

  function SetInuse(mem: seq<Cell>, q: int): seq<Cell>
    requires 0 <= q < |mem|
  {
    SetB(mem, q, mem[q].b - mem[q].b % 2 + 1)
  }

  function SetHead(mem: seq<Cell>, p: int, v: int): seq<Cell>
    requires 0 <= p < |mem|
  {
    SetB(mem, p, v)
  }

  function SetHeadSize(mem: seq<Cell>, p: int, sz: int): seq<Cell>
    requires 0 <= p < |mem|
  {
    SetB(mem, p, 16 * sz + mem[p].b % 2)
  }

  function SetFoot(mem: seq<Cell>, p: int, sz: int): seq<Cell>
    requires 0 <= p + sz < |mem|
  {
    SetA(mem, p + sz, 16 * sz)
  }

  /** What a step does to the heap: nothing changes outside the cells p..q, where `inner` comes to be. */
  ghost predicate Became(h: Heap, mem: seq<Cell>, h': Heap, mem': seq<Cell>, p: int, q: int, inner: Map) {
    && h'.base == h.base && h'.bins == h.bins && h'.fast == h.fast
    && View(h') == Outside(View(h), p, q) + inner
    && Kept(Live(Outside(View(h), p, q)), mem, mem')
  }

  ghost predicate ReadyAt(h: Heap, mem: seq<Cell>, mem': seq<Cell>, i: int, j: int, mid': seq<Chunk>)
    requires 0 <= i <= j <= |h.cs|
  {
    Ready(h.cs[..i], h.cs[i..j], mid', h.cs[j..], mem, mem', h.base)
  }

  /** The chunks number i up to j become mid'. */
  lemma StepAt(h: Heap, mem: seq<Cell>, mem': seq<Cell>, fb: seq<int>, i: int, j: int, mid': seq<Chunk>)
    returns (h': Heap)
    requires Inv(h, mem, fb) && 0 <= i <= j <= |h.cs| && Plain(h.cs[i..j]) && Plain(mid')
    requires ReadyAt(h, mem, mem', i, j, mid')
    ensures Inv(h', mem', fb) && Became(h, mem, h', mem', Addr(h, i), Addr(h, j), Blocks(mid', Addr(h, i)))
    ensures h'.cs == h.cs[..i] + mid' + h.cs[j..]
  {
    hide Blocks, Lists, Kept, Live, Outside, Len, Arena, Tags, Ready, Plain, Inv;
    assert h.cs == h.cs[..i] + h.cs[i..j] + h.cs[j..];
    h' := ReshapeStep(h, mem, mem', fb, h.cs[..i], h.cs[i..j], mid', h.cs[j..]);
    assert h.cs[..j] == h.cs[..i] + h.cs[i..j];
    LenConcat(h.cs[..i], h.cs[i..j]);
  }

  /** A chunk in limbo goes to the client whole. */
  lemma TakeStep(h: Heap, mem: seq<Cell>, fb: seq<int>, k: int) returns (h': Heap)
    requires Inv(h, mem, fb) && 0 <= k < |h.cs| && h.cs[k].st == Limbo
    ensures 0 <= Addr(h, k) < Addr(h, k) + h.cs[k].sz < |mem|
    ensures var p, sz := Addr(h, k), h.cs[k].sz;
            var mem' := SetInuse(mem, p + sz);
            && Inv(h', mem', fb) && Became(h, mem, h', mem', p, p + sz, map[p := Chunk(sz, Used)])
            && SameData(mem, mem', p, sz) && h'.cs == h.cs[k := Chunk(sz, Used)]
  {
    hide Blocks, Lists, Kept, Live, Outside, Became, Len, Arena, Tags, ReadyAt;
    var c := Chunk(h.cs[k].sz, Used);
    TakeReady(h, mem, k);
    var mem' := SetInuse(mem, Addr(h, k) + c.sz);
    One(c, mem', Addr(h, k), false);
    assert h.cs[k..k + 1] == [h.cs[k]];
    h' := StepAt(h, mem, mem', fb, k, k + 1, [c]);
  }

  lemma TakeReady(h: Heap, mem: seq<Cell>, k: int)
    requires Arena(h.cs, mem, h.base) && 0 <= k < |h.cs| && h.cs[k].st == Limbo
    ensures 0 <= Addr(h, k) < Addr(h, k) + h.cs[k].sz < |mem| && Addr(h, k + 1) == Addr(h, k) + h.cs[k].sz
    ensures ReadyAt(h, mem, SetInuse(mem, Addr(h, k) + h.cs[k].sz), k, k + 1, [Chunk(h.cs[k].sz, Used)])
  {
    hide Blocks, Len, Arena, Tags;
    var p, sz := Addr(h, k), h.cs[k].sz;
    Around(h, mem, k);
    Around(h, mem, k + 1);
    SizeWord(mem[p + sz].b, h.cs[k + 1].sz);
    var mem' := SetInuse(mem, p + sz);
    assert h.cs[k..k + 1] == [h.cs[k]];
    One(h.cs[k], mem, p, false);
    One(Chunk(sz, Used), mem', p, LastFree(h.cs[..k], false));
  }

  lemma SameTop(pre: seq<Chunk>, mid: seq<Chunk>, mid': seq<Chunk>, post: seq<Chunk>)
    requires Len(mid) == Len(mid')
    ensures Len(pre + mid + post) == Len(pre + mid' + post)
  {
    LenConcat(pre, mid);
    LenConcat(pre, mid');
    LenConcat(pre + mid, post);
    LenConcat(pre + mid', post);
  }

  lemma SplitReady(h: Heap, mem: seq<Cell>, k: int, n: int)
    requires Arena(h.cs, mem, h.base) && 0 <= k < |h.cs| && h.cs[k].st == Limbo && 2 <= n <= h.cs[k].sz - 2
    ensures 0 <= Addr(h, k) < Addr(h, k) + h.cs[k].sz < |mem| && Addr(h, k + 1) == Addr(h, k) + h.cs[k].sz
    ensures var p, r := Addr(h, k), h.cs[k].sz - n;
            ReadyAt(h, mem, SetFoot(SetHead(SetHead(mem, p, 16 * n + 1), p + n, 16 * r + 1), p + n, r), k, k + 1,
                    [Chunk(n, Used), Chunk(r, Limbo)])
  {
    hide Blocks, Len, Arena, Tags;
    var p, r := Addr(h, k), h.cs[k].sz - n;
    Around(h, mem, k);
    Around(h, mem, k + 1);
    var mem' := SetFoot(SetHead(SetHead(mem, p, 16 * n + 1), p + n, 16 * r + 1), p + n, r);
    assert h.cs[k..k + 1] == [h.cs[k]];
    One(h.cs[k], mem, p, false);
    Two(Chunk(n, Used), Chunk(r, Limbo), mem', p, LastFree(h.cs[..k], false));
    One(Chunk(r, Limbo), mem', p + n, false);
  }

  lemma TopReady(h: Heap, mem: seq<Cell>, n: int)
    requires Arena(h.cs, mem, h.base) && 2 <= n && Top(h) + n + 2 <= |mem|
    ensures 0 <= Top(h) && Addr(h, |h.cs|) == Top(h)
    ensures ReadyAt(h, mem, SetHead(SetHead(mem, Top(h), 16 * n + 1), Top(h) + n, 16 * (|mem| - Top(h) - n) + 1),
                    |h.cs|, |h.cs|, [Chunk(n, Used)])
  {
    hide Blocks, Tags;
    var p := Top(h);
    assert h.cs[..|h.cs|] == h.cs && h.cs[|h.cs|..|h.cs|] == [];
    var mem' := SetHead(SetHead(mem, p, 16 * n + 1), p + n, 16 * (|mem| - p - n) + 1);
    One(Chunk(n, Used), mem', p, false);
  }

  /** Chunks i up to j become one free chunk: its head and foot are written and PREV_INUSE is clear
      in the chunk that follows.  Old tags inside the run may hold anything. */
  lemma FreeReady(h: Heap, mem: seq<Cell>, mem': seq<Cell>, i: int, j: int)
    requires Arena(h.cs, mem, h.base) && 0 <= i < j < |h.cs| && !IsFree(h.cs[j]) && (i > 0 ==> !IsFree(h.cs[i - 1]))
    requires Local(mem, mem', Addr(h, i), Addr(h, j), false) && 0 <= Addr(h, j) < |mem|
    requires mem'[Addr(h, i)].b == 16 * (Addr(h, j) - Addr(h, i)) + 1
    requires mem'[Addr(h, j)] == Cell(16 * (Addr(h, j) - Addr(h, i)), 16 * h.cs[j].sz)
    ensures ReadyAt(h, mem, mem', i, j, [Chunk(Addr(h, j) - Addr(h, i), Limbo)])
  {
    hide Blocks, Len, Arena, Tags;
    var p, q := Addr(h, i), Addr(h, j);
    Around(h, mem, i);
    Around(h, mem, j);
    AddrSum(h, mem, i, j);
    One(Chunk(q - p, Limbo), mem', p, LastFree(h.cs[..i], false));
  }

  lemma AddrSum(h: Heap, mem: seq<Cell>, i: int, j: int)
    requires Arena(h.cs, mem, h.base) && 0 <= i <= j <= |h.cs|
    ensures Addr(h, j) == Addr(h, i) + Len(h.cs[i..j]) && Addr(h, j) >= Addr(h, i) + 2 * (j - i)
  {
    TagsSized(h.cs, mem, h.base, false);
    hide Len, Blocks, Tags, Arena;
    assert h.cs[..j] == h.cs[..i] + h.cs[i..j];
    LenConcat(h.cs[..i], h.cs[i..j]);
    Range(h.cs[i..j], 0);
  }

  lemma IntoTopReady(h: Heap, mem: seq<Cell>, i: int)
    requires Arena(h.cs, mem, h.base) && 0 <= i <= |h.cs| && (i > 0 ==> !IsFree(h.cs[i - 1]))
    ensures 0 <= Addr(h, i) <= Top(h) == Addr(h, |h.cs|) < |mem|
    ensures ReadyAt(h, mem, SetHead(mem, Addr(h, i), 16 * (|mem| - Addr(h, i)) + 1), i, |h.cs|, [])
  {
    hide Blocks, Tags;
    assert h.cs[..|h.cs|] == h.cs;
    AddrSum(h, mem, i, |h.cs|);
    AddrSum(h, mem, 0, i);
    TagsNil(SetHead(mem, Addr(h, i), 16 * (|mem| - Addr(h, i)) + 1), Addr(h, i), LastFree(h.cs[..i], false));
  }

  lemma SizeWord(b: int, sz: int)
    requires b == 16 * sz || b == 16 * sz + 1
    ensures b / 16 == sz && b % 2 == b - 16 * sz && b - b % 2 + 1 == 16 * sz + 1
  {
    LowBit(b, 8 * sz);
  }

  lemma LowBit(b: int, x: int)
    requires b == 2 * x || b == 2 * x + 1
    ensures b % 2 == b - 2 * x
  {
  }

  /** The size word after chunk j - 1, be it a chunk or top. */
  lemma HeadAt(h: Heap, mem: seq<Cell>, j: int)
    requires Arena(h.cs, mem, h.base) && 0 < j <= |h.cs|
    ensures 0 <= Addr(h, j) <= |mem| - 2 && (j == |h.cs| ==> Addr(h, j) == Top(h) && h.cs[j..] == [])
    ensures var sz := if j < |h.cs| then h.cs[j].sz else |mem| - Top(h);
            var b := mem[Addr(h, j)].b;
            b == 16 * sz + (if IsFree(h.cs[j - 1]) then 0 else 1) && b - b % 2 + 1 == 16 * sz + 1
  {
    if j < |h.cs| {
      hide Blocks, Tags, Arena, Len;
      Around(h, mem, j);
      SizeWord(mem[Addr(h, j)].b, h.cs[j].sz);
    } else {
      hide Blocks, Tags;
      assert h.cs[..j] == h.cs;
      SizeWord(mem[Top(h)].b, |mem| - Top(h));
    }
  }

  lemma UseReady(h: Heap, mem: seq<Cell>, i: int, j: int)
    requires Arena(h.cs, mem, h.base) && 0 <= i < j <= |h.cs|
    ensures 0 <= Addr(h, i) < Addr(h, i) + 2 <= Addr(h, j) < |mem|
    ensures var p, q := Addr(h, i), Addr(h, j);
            ReadyAt(h, mem, SetInuse(SetHeadSize(mem, p, q - p), q), i, j, [Chunk(q - p, Used)])
  {
    hide Blocks, Len, Tags, Arena;
    var p, q := Addr(h, i), Addr(h, j);
    Around(h, mem, i);
    AddrSum(h, mem, i, j);
    SizeWord(mem[p].b, h.cs[i].sz);
    HeadAt(h, mem, j);
    var mem' := SetInuse(SetHeadSize(mem, p, q - p), q);
    One(Chunk(q - p, Used), mem', p, LastFree(h.cs[..i], false));
  }

  lemma CutReady(h: Heap, mem: seq<Cell>, k: int, n: int)
    requires Arena(h.cs, mem, h.base) && 0 <= k < |h.cs| && h.cs[k].st == Used && 2 <= n <= h.cs[k].sz - 2
    ensures 0 <= Addr(h, k) < Addr(h, k) + h.cs[k].sz < |mem| && Addr(h, k + 1) == Addr(h, k) + h.cs[k].sz
    ensures var p, r := Addr(h, k), h.cs[k].sz - n;
            ReadyAt(h, mem, SetHead(SetHeadSize(mem, p, n), p + n, 16 * r + 1), k, k + 1,
                    [Chunk(n, Used), Chunk(r, Used)])
  {
    hide Blocks, Len, Tags, Arena;
    var p, r := Addr(h, k), h.cs[k].sz - n;
    Around(h, mem, k);
    HeadAt(h, mem, k + 1);
    SizeWord(mem[p].b, h.cs[k].sz);
    var mem' := SetHead(SetHeadSize(mem, p, n), p + n, 16 * r + 1);
    assert h.cs[k..k + 1] == [h.cs[k]];
    One(h.cs[k], mem, p, false);
    Two(Chunk(n, Used), Chunk(r, Used), mem', p, LastFree(h.cs[..k], false));
    One(Chunk(r, Used), mem', p + n, false);
  }

  lemma GrowReady(h: Heap, mem: seq<Cell>, n: int)
    requires Arena(h.cs, mem, h.base) && h.cs != [] && 2 <= n && Addr(h, |h.cs| - 1) + n + 2 <= |mem|
    ensures 0 <= Addr(h, |h.cs| - 1) < |mem| && Addr(h, |h.cs|) == Top(h)
    ensures var p := Addr(h, |h.cs| - 1);
            ReadyAt(h, mem, SetHead(SetHeadSize(mem, p, n), p + n, 16 * (|mem| - p - n) + 1),
                    |h.cs| - 1, |h.cs|, [Chunk(n, Used)])
  {
    hide Blocks, Len, Tags, Arena;
    var k := |h.cs| - 1;
    var p := Addr(h, k);
    Around(h, mem, k);
    assert h.cs[..k + 1] == h.cs && h.cs[k + 1..] == [];
    SizeWord(mem[p].b, h.cs[k].sz);
    var mem' := SetHead(SetHeadSize(mem, p, n), p + n, 16 * (|mem| - p - n) + 1);
    One(Chunk(n, Used), mem', p, LastFree(h.cs[..k], false));
  }

  // ---------- more memory ----------

  /** MORECORE extends the arena: the new cells join the top chunk. */
  lemma ExtendStep(h: Heap, mem: seq<Cell>, more: seq<Cell>, fb: seq<int>)
    requires Inv(h, mem, fb) && 16 * (|mem| + |more| - h.base) <= TWO_32
    ensures 0 <= Top(h) < |mem|
    ensures var mem' := SetHead(mem + more, Top(h), 16 * (|mem| + |more| - Top(h)) + 1);
            Inv(h, mem', fb) && Kept(Live(View(h)), mem, mem')
  {
    hide BinOf, Tags, Blocks, BinHomes, FastHomes, Filed, Wired, Len;
    var mem' := SetHead(mem + more, Top(h), 16 * (|mem| + |more| - Top(h)) + 1);
    ViewFacts(h, mem);
    ExtendFrames(h, mem, mem');
    TagsFrame(h.cs, mem, mem', h.base, false);
    hide SameTags, OnlyBin, Kept, Separate;
    ListsFrame(View(h), View(h), h.bins, h.fast, fb, mem, mem');
  }

  lemma ExtendFrames(h: Heap, mem: seq<Cell>, mem': seq<Cell>)
    requires Separate(View(h)) && |mem| <= |mem'| && 128 <= Top(h) < |mem|
    requires forall c :: 0 <= c < |mem| && c != Top(h) ==> mem'[c] == mem[c]
    requires mem'[Top(h)].a == mem[Top(h)].a
    requires forall n <- View(h) :: n + View(h)[n].sz <= Top(h)
    ensures SameTags(View(h), mem, mem') && OnlyBin(View(h), mem, mem', 0) && Kept(Live(View(h)), mem, mem')
  {
    hide Blocks, Len;
  }

  ghost function EmptyHeap(base: int): Heap {
    Heap(base, [], seq(NBINS, _ => []), seq(NFASTBINS, _ => []))
  }

  /** Before the first chunk exists all bins are empty rings and all fastbins are null. */
  ghost predicate Bare(mem: seq<Cell>, fb: seq<int>) {
    && |mem| >= 256 && |fb| == NFASTBINS
    && (forall i :: 0 <= i < NFASTBINS ==> fb[i] == 0)
    && (forall i :: 1 <= i < NBINS ==> Joined(mem, i, i))
  }

  lemma FirstMemory(mem: seq<Cell>, more: seq<Cell>, fb: seq<int>)
    requires Bare(mem, fb) && |more| >= 2 && 16 * |more| <= TWO_32
    ensures var mem' := SetHead(mem + more, |mem|, 16 * |more| + 1);
            Inv(EmptyHeap(|mem|), mem', fb) && View(EmptyHeap(|mem|)) == map[] && Top(EmptyHeap(|mem|)) == |mem|
  {
    var mem' := SetHead(mem + more, |mem|, 16 * |more| + 1);
    var h := EmptyHeap(|mem|);
    forall i | 1 <= i < NBINS ensures Linked(mem', Ring(i, h.bins[i])) {
      assert Ring(i, h.bins[i]) == [i, i];
      assert Joined(mem, i, i) && mem'[i + 1] == mem[i + 1];
      assert Joined(mem', i, i);
    }
  }

  // ---------- reading the tags ----------

  /** The tags of the chunk number k lead to its neighbours and tell whether they are free. */
  ghost predicate Scouted(h: Heap, mem: seq<Cell>, k: int) {
    0 <= k < |h.cs| && (
      var p, c := Addr(h, k), h.cs[k];
      && 128 <= p && c.sz >= 2 && mem != [] && p + c.sz < |mem| && mem[p].b / 16 == c.sz && mem[p].b % 2 in {0, 1}
      && (mem[p].b % 2 == 0 <==> k > 0 && IsFree(h.cs[k - 1]))
      && (mem[p].b % 2 == 0 ==> mem[p].a / 16 == h.cs[k - 1].sz && Addr(h, k - 1) == p - h.cs[k - 1].sz)
      && Addr(h, k + 1) == p + c.sz && (p + c.sz == Top(h) <==> k + 1 == |h.cs|)
      && mem[p + c.sz].b / 16 == if k + 1 < |h.cs| then h.cs[k + 1].sz else |mem| - Top(h))
  }

  lemma Scout(h: Heap, mem: seq<Cell>, k: int)
    requires Arena(h.cs, mem, h.base) && 0 <= k < |h.cs|
    ensures Scouted(h, mem, k)
    ensures Addr(h, k) in View(h) && View(h)[Addr(h, k)] == h.cs[k]
  {
    hide Blocks, Len, Tags, Arena;
    var p, c := Addr(h, k), h.cs[k];
    Around(h, mem, k);
    SizeWord(mem[p].b, c.sz);
    if k > 0 {
      Around(h, mem, k - 1);
    }
    HeadAt(h, mem, k + 1);
    SizeWord(mem[p + c.sz].b, if k + 1 < |h.cs| then h.cs[k + 1].sz else |mem| - Top(h));
    if k + 1 < |h.cs| {
      Around(h, mem, k + 1);
    }
  }

  /** The chunk that follows, when it is not top. */
  lemma ScoutNext(h: Heap, mem: seq<Cell>, k: int)
    requires Arena(h.cs, mem, h.base) && 0 <= k && k + 1 < |h.cs|
    ensures var n, c := Addr(h, k + 1), h.cs[k + 1];
            && 128 <= n && n in View(h) && View(h)[n] == c && c.sz >= 2 && n + c.sz < |mem|
            && Addr(h, k + 2) == n + c.sz
            && (mem[n + c.sz].b % 2 == 0 <==> IsFree(c))
            && (IsFree(c) ==> k + 2 < |h.cs| && !IsFree(h.cs[k + 2]) && mem[n + c.sz].b == 16 * h.cs[k + 2].sz)
  {
    hide Blocks, Len, Tags, Arena;
    Around(h, mem, k + 1);
    HeadAt(h, mem, k + 2);
    var b := mem[Addr(h, k + 2)].b;
    SizeWord(b, if k + 2 < |h.cs| then h.cs[k + 2].sz else |mem| - Top(h));
  }
}
