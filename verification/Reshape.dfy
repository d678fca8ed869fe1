/** Splitting and merging chunks (src/mem/malloc.c): one run of chunks is replaced by another over the
    same cells, with the tags of the new run written and everything else left alone. */
module Reshape {
  import opened BinIndex
  import opened Chunks
  import opened Rings
  import opened FreeLists
  import opened Heap

  /** Chunks that are in no list. */
  ghost predicate Plain(cs: seq<Chunk>) {
    forall k :: 0 <= k < |cs| ==> cs[k].st == Used || cs[k].st == Limbo
  }

  lemma {:induction false} PlainBlocks(cs: seq<Chunk>, a: int)
    requires Plain(cs)
    ensures forall n <- Blocks(cs, a) :: Blocks(cs, a)[n].st == Used || Blocks(cs, a)[n].st == Limbo
  {
    if cs != [] {
      PlainBlocks(cs[1..], a + cs[0].sz);
    }
  }

  ghost function Outside(m: Map, p: int, q: int): Map {
    map n | n in m && !(p <= n < q) :: m[n]
  }

  lemma View3(pre: seq<Chunk>, mid: seq<Chunk>, post: seq<Chunk>, base: int)
    ensures Blocks(pre + mid + post, base)
         == Blocks(post, base + Len(pre) + Len(mid)) + Blocks(mid, base + Len(pre)) + Blocks(pre, base)
  {
    BlocksConcat(pre, mid, base);
    BlocksConcat(pre + mid, post, base);
    LenConcat(pre, mid);
  }

  /** mem' differs from mem only in the cells p..q of the run (from p on when the run borders top),
      and not in the first word of cell p, which belongs to the chunk before. */
  ghost predicate Local(mem: seq<Cell>, mem': seq<Cell>, p: int, q: int, last: bool) {
    && |mem'| == |mem| && 0 <= p < |mem| && mem'[p].a == mem[p].a
    && forall c :: 0 <= c < |mem| && (c < p || (!last && c > q)) ==> mem'[c] == mem[c]
  }

  lemma PreFrame(pre: seq<Chunk>, mem: seq<Cell>, mem': seq<Cell>, base: int, q: int, last: bool)
    requires 0 <= base && Tags(pre, mem, base, false) && Local(mem, mem', base + Len(pre), q, last)
    ensures Tags(pre, mem', base, false)
  {
    TagsSized(pre, mem, base, false);
    Range(pre, base);
    TagsFrame(pre, mem, mem', base, false);
  }

  lemma PostFrame(post: seq<Chunk>, mem: seq<Cell>, mem': seq<Cell>, p: int, q: int, pf: bool, pf': bool)
    requires post != [] && Tags(post, mem, q, pf) && Local(mem, mem', p, q, false)
    requires 0 <= q < |mem| && mem'[q].b == 16 * post[0].sz + (if pf' then 0 else 1)
    requires pf' ==> !IsFree(post[0])
    ensures Tags(post, mem', q, pf')
  {
    var t, b := post[1..], q + post[0].sz;
    TagsSized(t, mem, b, IsFree(post[0]));
    Range(t, b);
    TagsFrame(t, mem, mem', b, IsFree(post[0]));
  }

  ghost predicate Ready(pre: seq<Chunk>, mid: seq<Chunk>, mid': seq<Chunk>, post: seq<Chunk>,
                        mem: seq<Cell>, mem': seq<Cell>, base: int) {
    var p := base + Len(pre);
    var q := p + Len(mid);
    var pf := LastFree(mid', LastFree(pre, false));
    && Local(mem, mem', p, q, post == [])
    && Tags(mid', mem', p, LastFree(pre, false))
    && (if post == [] then
          var top := p + Len(mid');
          p <= top <= |mem| - 2 && !pf && mem'[top].b == 16 * (|mem| - top) + 1
        else
          && Len(mid') == Len(mid) && 0 <= q < |mem| && mem'[q].b == 16 * post[0].sz + (if pf then 0 else 1)
          && (pf ==> !IsFree(post[0])))
  }

  lemma ReshapeArena(pre: seq<Chunk>, mid: seq<Chunk>, mid': seq<Chunk>, post: seq<Chunk>,
                     mem: seq<Cell>, mem': seq<Cell>, base: int)
    requires Arena(pre + mid + post, mem, base) && Ready(pre, mid, mid', post, mem, mem', base)
    ensures Arena(pre + mid' + post, mem', base)
  {
    hide Tags, Len;
    ArenaPieces(pre, mid, post, mem, base);
    ArenaPieces(pre, mid', post, mem', base);
    var q := base + Len(pre) + Len(mid);
    PreFrame(pre, mem, mem', base, q, post == []);
    if post != [] {
      PostFrame(post, mem, mem', base + Len(pre), q, LastFree(mid, LastFree(pre, false)),
                LastFree(mid', LastFree(pre, false)));
      PostTop(post, mem, mem', base + Len(pre), q, LastFree(mid, LastFree(pre, false)));
    } else {
      TagsNil(mem', base + Len(pre) + Len(mid'), LastFree(mid', LastFree(pre, false)));
    }
  }

  lemma TagsNil(mem: seq<Cell>, a: int, pf: bool)
    ensures Tags([], mem, a, pf) && Len([]) == 0
  {
  }

  lemma PostTop(post: seq<Chunk>, mem: seq<Cell>, mem': seq<Cell>, p: int, q: int, pf: bool)
    requires post != [] && Tags(post, mem, q, pf) && Local(mem, mem', p, q, false)
    ensures 0 <= q < q + Len(post) < |mem| && mem'[q + Len(post)] == mem[q + Len(post)]
  {
    TagsSized(post, mem, q, pf);
    Range(post, q);
  }

  lemma NilBlocks(q: int)
    ensures Blocks([], q) == map[]
  {
  }

  /** Sub-maps of a view by position. */
  lemma Regions(pre: seq<Chunk>, mid: seq<Chunk>, post: seq<Chunk>, mem: seq<Cell>, base: int)
    requires Arena(pre + mid + post, mem, base)
    ensures var p := base + Len(pre);
            var q := p + Len(mid);
            && (forall n <- Blocks(pre, base) :: n + 1 < p)
            && (forall n <- Blocks(mid, p) :: p <= n < q)
            && (forall n <- Blocks(post, q) :: q <= n)
            && (post == [] ==> Blocks(post, q) == map[])
            && Outside(Blocks(pre + mid + post, base), p, q) == Blocks(post, q) + Blocks(pre, base)
  {
    var p := base + Len(pre);
    var q := p + Len(mid);
    hide Arena, Blocks, Len, Tags, LastFree;
    ArenaPieces(pre, mid, post, mem, base);
    TagsSized(pre, mem, base, false);
    TagsSized(mid, mem, p, LastFree(pre, false));
    TagsSized(post, mem, q, LastFree(mid, LastFree(pre, false)));
    Range(pre, base);
    Range(mid, p);
    Range(post, q);
    View3(pre, mid, post, base);
    NilBlocks(q);
  }

  lemma ReshapeView(pre: seq<Chunk>, mid: seq<Chunk>, mid': seq<Chunk>, post: seq<Chunk>, mem: seq<Cell>,
                    mem': seq<Cell>, base: int)
    requires Arena(pre + mid + post, mem, base) && Arena(pre + mid' + post, mem', base)
    requires post == [] || Len(mid') == Len(mid)
    ensures var p := base + Len(pre);
            Blocks(pre + mid' + post, base)
            == Outside(Blocks(pre + mid + post, base), p, p + Len(mid)) + Blocks(mid', p)
  {
    hide Arena, Blocks, Len;
    Regions(pre, mid, post, mem, base);
    Regions(pre, mid', post, mem', base);
    View3(pre, mid', post, base);
  }

  lemma ReshapeLists(m: Map, m': Map, inner: Map, p: int, q: int, q': int, bins: seq<seq<int>>, fast: seq<seq<int>>,
                     fb: seq<int>,
                     mem: seq<Cell>, mem': seq<Cell>, last: bool)
    requires Separate(m) && Lists(m, bins, fast, fb, mem) && m' == Outside(m, p, q) + inner
    requires Placed(m, p, q, last) && Inner(inner, p, q') && (last || q == q')
    requires Local(mem, mem', p, q, last) && 128 <= p
    ensures Lists(m', bins, fast, fb, mem')
  {
    hide BinOf, BinHomes, FastHomes, Filed, Wired;
    ReshapeListed(m, m', inner, p, q, q', last);
    hide SameFree, SameFast;
    assert OnlyBin(m, mem, mem', 0);
    ListsFrame(m, m', bins, fast, fb, mem, mem');
  }

  lemma ReshapeListed(m: Map, m': Map, inner: Map, p: int, q: int, q': int, last: bool)
    requires Separate(m) && m' == Outside(m, p, q) + inner
    requires Placed(m, p, q, last) && Inner(inner, p, q') && (last || q == q')
    ensures SameFree(m, m') && SameFast(m, m')
  {
  }

  lemma ReshapeKept(m: Map, p: int, q: int, mem: seq<Cell>, mem': seq<Cell>, last: bool)
    requires Separate(m) && Local(mem, mem', p, q, last) && Placed(m, p, q, last)
    ensures Kept(Live(Outside(m, p, q)), mem, mem')
  {
  }

  /** Every chunk of m lies before p, or starts in p..q and is in no list, or starts at q or later. */
  ghost predicate Placed(m: Map, p: int, q: int, last: bool) {
    && (forall n <- m :: p <= n < q ==> m[n].st == Used || m[n].st == Limbo)
    && (forall n <- m :: n + m[n].sz <= p || p <= n < q || (q <= n && !last))
  }

  ghost predicate Inner(m: Map, p: int, q: int) {
    forall n <- m :: p <= n < q && (m[n].st == Used || m[n].st == Limbo)
  }

  lemma Positions(h: Heap, mem: seq<Cell>, pre: seq<Chunk>, mid: seq<Chunk>, post: seq<Chunk>, p: int, q: int)
    requires Arena(h.cs, mem, h.base) && h.cs == pre + mid + post && Plain(mid)
    requires p == h.base + Len(pre) && q == p + Len(mid)
    ensures 128 <= h.base <= p <= q && Placed(View(h), p, q, post == []) && Inner(Blocks(mid, p), p, q)
  {
    hide Tags, Blocks, Len, LastFree, Plain;
    Regions(pre, mid, post, mem, h.base);
    View3(pre, mid, post, h.base);
    PlainBlocks(mid, p);
    ArenaPieces(pre, mid, post, mem, h.base);
    TagsSized(pre, mem, h.base, false);
    Range(pre, h.base);
  }

  /** The step: mid becomes mid', both made of chunks that are in no list. */
  lemma ReshapeStep(h: Heap, mem: seq<Cell>, mem': seq<Cell>, fb: seq<int>,
                    pre: seq<Chunk>, mid: seq<Chunk>, mid': seq<Chunk>, post: seq<Chunk>) returns (h': Heap)
    requires Inv(h, mem, fb) && h.cs == pre + mid + post && Plain(mid) && Plain(mid')
    requires Ready(pre, mid, mid', post, mem, mem', h.base)
    ensures h' == h.(cs := pre + mid' + post) && Inv(h', mem', fb)
    ensures var p := h.base + Len(pre);
            var q := p + Len(mid);
            View(h') == Outside(View(h), p, q) + Blocks(mid', p) && Kept(Live(Outside(View(h), p, q)), mem, mem')
  {
    hide Lists, Tags, Len, Blocks, Live, Kept, LastFree, Arena, Separate, Placed, Inner, Plain, Outside;
    h' := h.(cs := pre + mid' + post);
    var p := h.base + Len(pre);
    var q := p + Len(mid);
    ReshapeArena(pre, mid, mid', post, mem, mem', h.base);
    ReshapeView(pre, mid, mid', post, mem, mem', h.base);
    Positions(h, mem, pre, mid, post, p, q);
    Positions(h', mem', pre, mid', post, p, p + Len(mid'));
    ViewFacts(h, mem);
    ReshapeLists(View(h), View(h'), Blocks(mid', p), p, q, p + Len(mid'), h.bins, h.fast, fb, mem, mem', post == []);
    ReshapeKept(View(h), p, q, mem, mem', post == []);
  }
}
