/** The heap at rest (src/mem/malloc.c, the overview of boundary tags and `malloc_consolidate`): once the
    fastbins are empty, the free chunks are exactly the gaps between the live blocks. */
module Resting {
  import opened Chunks
  import opened FreeLists
  import opened Heap
  import opened Steps
  import opened Release

  /** The chunks tile the memory from base to top; each is in use or in a bin, and a free one is followed by
      one in use. */
  ghost predicate AtRest(m: Map, base: int, top: int) {
    && Separate(m) && base <= top && (base < top ==> base in m)
    && (forall n <- m :: base <= n && n + m[n].sz <= top && (n + m[n].sz < top ==> n + m[n].sz in m))
    && (forall n <- m :: m[n].st.Used? || (m[n].st.Free? && n + m[n].sz in m && m[n + m[n].sz].st.Used?))
  }

  lemma RestAt(h: Heap, mem: seq<Cell>, n: int)
    requires Arena(h.cs, mem, h.base) && n in View(h)
    ensures var m, e := View(h), n + View(h)[n].sz;
            && e <= Top(h) && (e < Top(h) ==> e in m) && (IsFree(m[n]) ==> e in m && !IsFree(m[e]))
  {
    hide Blocks, Len, Tags, Arena;
    var k := IndexOf(h, mem, n);
    Around(h, mem, k);
    if k + 1 < |h.cs| {
      Around(h, mem, k + 1);
    }
  }

  lemma BaseFirst(h: Heap, mem: seq<Cell>)
    requires Arena(h.cs, mem, h.base)
    ensures h.base <= Top(h) && (h.base < Top(h) ==> h.base in View(h))
  {
    if h.cs != [] {
      hide Blocks, Tags, Arena;
      Around(h, mem, 0);
      assert h.cs[..0] == [];
    }
  }

  lemma RestingView(h: Heap, mem: seq<Cell>, fb: seq<int>)
    requires Inv(h, mem, fb) && NoLimbo(View(h)) && forall n <- View(h) :: !View(h)[n].st.Fast?
    ensures AtRest(View(h), h.base, Top(h))
  {
    hide Blocks, Len, Tags, Lists, Arena, Top, View;
    InvArena(h, mem, fb);
    ViewFacts(h, mem);
    BaseFirst(h, mem);
    forall n | n in View(h)
      ensures var m, e := View(h), n + View(h)[n].sz;
              && e <= Top(h) && (e < Top(h) ==> e in m) && (IsFree(m[n]) ==> e in m && !IsFree(m[e]))
    {
      RestAt(h, mem, n);
    }
  }

  ghost predicate SameAt(m: Map, m': Map, n: int) {
    (n in m <==> n in m') && (n in m && n in m' ==> m'[n].sz == m[n].sz && (m'[n].st.Used? <==> m[n].st.Used?))
  }

  lemma LiveSame(m: Map, m': Map, n: int)
    requires Live(m) == Live(m') && n in m && m[n].st.Used?
    ensures n in m' && m'[n] == m[n]
  {
    assert n in Live(m) && Live(m)[n] == m[n].sz;
    assert n in Live(m');
  }

  lemma GapAt(m: Map, m': Map, base: int, top: int, a: int)
    requires AtRest(m, base, top) && AtRest(m', base, top) && Live(m) == Live(m') && a in m && a in m'
    ensures m'[a].sz == m[a].sz && (m'[a].st.Used? <==> m[a].st.Used?)
  {
    hide Live;
    if m[a].st.Used? {
      LiveSame(m, m', a);
    } else if m'[a].st.Used? {
      LiveSame(m', m, a);
    } else {
      LiveSame(m, m', a + m[a].sz);
      LiveSame(m', m, a + m'[a].sz);
    }
  }

  lemma {:induction false} SameFrom(m: Map, m': Map, base: int, top: int, a: int, n: int)
    requires AtRest(m, base, top) && AtRest(m', base, top) && Live(m) == Live(m') && a in m && a in m' && a <= n
    ensures SameAt(m, m', n)
    decreases top - a
  {
    hide Live;
    GapAt(m, m', base, top, a);
    var e := a + m[a].sz;
    if a < n && e < top {
      if e <= n {
        SameFrom(m, m', base, top, e, n);
      }
    }
  }

  /** The last chunk below top is in use. */
  lemma {:induction false} LastUsed(m: Map, base: int, top: int, a: int) returns (n: int)
    requires AtRest(m, base, top) && a in m
    ensures n in m && m[n].st.Used? && n + m[n].sz == top
    decreases top - a
  {
    n := a;
    var e := a + m[a].sz;
    assert m[a].st.Free? ==> m[e].st.Used? && e + m[e].sz <= top;
    if e < top {
      n := LastUsed(m, base, top, e);
    }
  }

  lemma TopNotAbove(m: Map, m': Map, base: int, top: int, top': int)
    requires AtRest(m, base, top) && AtRest(m', base, top') && Live(m) == Live(m')
    ensures top <= top'
  {
    hide Live;
    if base < top {
      var n := LastUsed(m, base, top, base);
      LiveSame(m, m', n);
    }
  }

  /** At rest, top begins where the last live block ends. */
  lemma TopUnique(m: Map, m': Map, base: int, top: int, top': int)
    requires AtRest(m, base, top) && AtRest(m', base, top') && Live(m) == Live(m')
    ensures top == top'
  {
    hide AtRest, Live;
    TopNotAbove(m, m', base, top, top');
    TopNotAbove(m', m, base, top', top);
  }

  /** At rest, the live blocks determine top and all chunks, up to the bins that the free ones are in. */
  lemma GapsUnique(m: Map, m': Map, base: int, top: int, top': int, n: int)
    requires AtRest(m, base, top) && AtRest(m', base, top') && Live(m) == Live(m')
    ensures top' == top && SameAt(m, m', n)
  {
    hide Live;
    TopUnique(m, m', base, top, top');
    if base <= n && base < top {
      SameFrom(m, m', base, top, base, n);
    }
  }
}
