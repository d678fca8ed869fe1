/** The physical layout of the arena (src/mem/malloc.c).

    Every chunk address is a multiple of MALLOC_ALIGNMENT = 16, so memory is a sequence of 16-byte
    cells of two words each and a chunk address is a cell index.  In a chunk at p the cell p holds
    prev_size and size, the cell p + 1 holds fd and bk (or the first two words of the client).
    The ghost list `cs` names the chunks from the base of the arena up to the top chunk. */
module Chunks {

  datatype Cell = Cell(a: int, b: int)

  // Limbo: free by its tags but, for the moment, in no list
  datatype Status = Used | Fast(bin: int) | Free(bin: int) | Limbo

  datatype Chunk = Chunk(sz: int, st: Status)

  function SetA(mem: seq<Cell>, i: int, v: int): seq<Cell>
    requires 0 <= i < |mem|
  {
    mem[i := mem[i].(a := v)]
  }

  function SetB(mem: seq<Cell>, i: int, v: int): seq<Cell>
    requires 0 <= i < |mem|
  {
    mem[i := mem[i].(b := v)]
  }

  ghost predicate IsFree(c: Chunk) { c.st.Free? || c.st.Limbo? }

  ghost function Len(cs: seq<Chunk>): int {
    if cs == [] then 0 else cs[0].sz + Len(cs[1..])
  }

  /** The chunks by address, when the first one is at a. */
  ghost function Blocks(cs: seq<Chunk>, a: int): map<int, Chunk> {
    if cs == [] then map[] else Blocks(cs[1..], a + cs[0].sz)[a := cs[0]]
  }

  ghost function LastFree(cs: seq<Chunk>, pf: bool): bool {
    if cs == [] then pf else IsFree(cs[|cs| - 1])
  }

  /** The boundary tags of cs: sizes and PREV_INUSE bits match, free chunks carry a footer, and no
      free chunk follows a free one.  pf tells whether the chunk before a is free. */
  ghost predicate Tags(cs: seq<Chunk>, mem: seq<Cell>, a: int, pf: bool) {
    cs == [] || (
      && 0 <= a && cs[0].sz >= 2 && a + cs[0].sz < |mem|
      && mem[a].b == 16 * cs[0].sz + (if pf then 0 else 1)
      && (IsFree(cs[0]) ==> !pf && mem[a + cs[0].sz].a == 16 * cs[0].sz)
      && Tags(cs[1..], mem, a + cs[0].sz, IsFree(cs[0])))
  }

  /** cs tiles the arena from base up to the top chunk, which reaches the end of memory. */
  ghost predicate Arena(cs: seq<Chunk>, mem: seq<Cell>, base: int) {
    && 128 <= base
    && Tags(cs, mem, base, false) && !LastFree(cs, false)
    && 0 <= Len(cs) && base + Len(cs) + 2 <= |mem|
    && mem[base + Len(cs)].b == 16 * (|mem| - base - Len(cs)) + 1
  }

  // ---------- lists of chunks ----------

  ghost predicate Sized(cs: seq<Chunk>) { forall k :: 0 <= k < |cs| ==> cs[k].sz >= 2 }

  lemma {:induction false} LenConcat(s: seq<Chunk>, t: seq<Chunk>)
    ensures Len(s + t) == Len(s) + Len(t)
  {
    if s == [] {
      assert s + t == t;
    } else {
      assert (s + t)[1..] == s[1..] + t;
      LenConcat(s[1..], t);
    }
  }

  lemma {:induction false} BlocksConcat(s: seq<Chunk>, t: seq<Chunk>, a: int)
    ensures Blocks(s + t, a) == Blocks(t, a + Len(s)) + Blocks(s, a)
  {
    if s == [] {
      assert s + t == t;
    } else {
      assert (s + t)[1..] == s[1..] + t;
      BlocksConcat(s[1..], t, a + s[0].sz);
    }
  }

  lemma {:induction false} TagsConcat(s: seq<Chunk>, t: seq<Chunk>, mem: seq<Cell>, a: int, pf: bool)
    ensures Tags(s + t, mem, a, pf) <==> Tags(s, mem, a, pf) && Tags(t, mem, a + Len(s), LastFree(s, pf))
  {
    if s == [] {
      assert s + t == t;
    } else {
      assert (s + t)[1..] == s[1..] + t;
      TagsConcat(s[1..], t, mem, a + s[0].sz, IsFree(s[0]));
    }
  }

  lemma {:induction false} Range(s: seq<Chunk>, a: int)
    requires Sized(s)
    ensures Len(s) >= 2 * |s|
    ensures forall n <- Blocks(s, a) :: a <= n && Blocks(s, a)[n].sz >= 2 && n + Blocks(s, a)[n].sz <= a + Len(s)
  {
    if s != [] {
      Range(s[1..], a + s[0].sz);
    }
  }

  lemma {:induction false} TagsSized(s: seq<Chunk>, mem: seq<Cell>, a: int, pf: bool)
    requires Tags(s, mem, a, pf)
    ensures Sized(s)
    ensures s != [] ==> 0 <= a && a + Len(s) < |mem|
  {
    if s != [] {
      TagsSized(s[1..], mem, a + s[0].sz, IsFree(s[0]));
      assert forall k :: 0 < k < |s| ==> s[k] == s[1..][k - 1];
    }
  }

  lemma {:induction false} BlocksApart(s: seq<Chunk>, a: int, n: int, m: int)
    requires Sized(s) && n in Blocks(s, a) && m in Blocks(s, a) && n < m
    ensures n + Blocks(s, a)[n].sz <= m
  {
    Range(s[1..], a + s[0].sz);
    if n != a {
      BlocksApart(s[1..], a + s[0].sz, n, m);
    }
  }

  lemma {:induction false} Find(s: seq<Chunk>, a: int, p: int) returns (k: int)
    requires Sized(s) && p in Blocks(s, a)
    ensures 0 <= k < |s| && a + Len(s[..k]) == p && s[k] == Blocks(s, a)[p]
  {
    if p == a {
      k := 0;
    } else {
      k := Find(s[1..], a + s[0].sz, p);
      k := k + 1;
      assert s[..k][1..] == s[1..][..k - 1];
    }
  }

  /** mem' has the tags of the chunks m that mem has. */
  ghost predicate SameTags(m: map<int, Chunk>, mem: seq<Cell>, mem': seq<Cell>) {
    && |mem| <= |mem'|
    && (forall n <- m :: 0 <= n < |mem| ==> mem'[n].b == mem[n].b)
    && (forall n <- m :: IsFree(m[n]) && 0 <= n + m[n].sz < |mem| ==> mem'[n + m[n].sz].a == mem[n + m[n].sz].a)
  }

  lemma TailTags(s: seq<Chunk>, mem: seq<Cell>, mem': seq<Cell>, a: int)
    requires s != [] && s[0].sz >= 2 && Sized(s[1..]) && SameTags(Blocks(s, a), mem, mem')
    ensures SameTags(Blocks(s[1..], a + s[0].sz), mem, mem')
  {
    var t, b := s[1..], a + s[0].sz;
    Range(t, b);
    assert forall n <- Blocks(t, b) :: n in Blocks(s, a) && Blocks(s, a)[n] == Blocks(t, b)[n];
  }

  lemma {:induction false} TagsFrame(s: seq<Chunk>, mem: seq<Cell>, mem': seq<Cell>, a: int, pf: bool)
    requires Tags(s, mem, a, pf) && SameTags(Blocks(s, a), mem, mem')
    ensures Tags(s, mem', a, pf)
  {
    if s != [] {
      var t, b := s[1..], a + s[0].sz;
      TagsSized(t, mem, b, IsFree(s[0]));
      TailTags(s, mem, mem', a);
      TagsFrame(t, mem, mem', b, IsFree(s[0]));
      assert a in Blocks(s, a);
      hide Blocks;
    }
  }

  /** The arena seen as three runs of chunks. */
  ghost predicate Pieces(pre: seq<Chunk>, mid: seq<Chunk>, post: seq<Chunk>, mem: seq<Cell>, base: int) {
    var p := base + Len(pre);
    var q := p + Len(mid);
    var top := q + Len(post);
    && 128 <= base <= p <= q <= top <= |mem| - 2
    && Tags(pre, mem, base, false)
    && Tags(mid, mem, p, LastFree(pre, false))
    && Tags(post, mem, q, LastFree(mid, LastFree(pre, false)))
    && !LastFree(post, LastFree(mid, LastFree(pre, false)))
    && mem[top].b == 16 * (|mem| - top) + 1
  }

  lemma LastFreeConcat(s: seq<Chunk>, t: seq<Chunk>, pf: bool)
    ensures LastFree(s + t, pf) == LastFree(t, LastFree(s, pf))
  {
    assert t == [] ==> s + t == s;
  }

  lemma ArenaPieces(pre: seq<Chunk>, mid: seq<Chunk>, post: seq<Chunk>, mem: seq<Cell>, base: int)
    ensures Arena(pre + mid + post, mem, base) <==> Pieces(pre, mid, post, mem, base)
  {
    hide Tags, Len, LastFree, Blocks;
    TagsConcat(pre, mid, mem, base, false);
    TagsConcat(pre + mid, post, mem, base, false);
    LenConcat(pre, mid);
    LenConcat(pre + mid, post);
    LastFreeConcat(pre, mid, false);
    LastFreeConcat(pre + mid, post, false);
    if Arena(pre + mid + post, mem, base) {
      TagsSized(pre, mem, base, false);
      TagsSized(mid, mem, base + Len(pre), LastFree(pre, false));
      TagsSized(post, mem, base + Len(pre) + Len(mid), LastFree(mid, LastFree(pre, false)));
      Range(pre, base);
      Range(mid, base);
      Range(post, base);
    }
  }
}
