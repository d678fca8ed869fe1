/** Every cell of the arena is accounted for (src/mem/malloc.c): it is in a live block, a fastbin, a
    bin or top, and in only one of them. */
module Accounting {
  import opened Basics
  import opened BinIndex
  import opened Chunks
  import opened Rings
  import opened FreeLists
  import opened Heap
  import opened Release

  /** Total size of the chunks of cs, laid out from a on, whose address is in s. */
  ghost function Weight(cs: seq<Chunk>, a: int, s: set<int>): int {
    if cs == [] then 0 else (if a in s then cs[0].sz else 0) + Weight(cs[1..], a + cs[0].sz, s)
  }

  lemma {:induction false} WeightUnion(cs: seq<Chunk>, a: int, s: set<int>, t: set<int>)
    requires s !! t
    ensures Weight(cs, a, s + t) == Weight(cs, a, s) + Weight(cs, a, t)
  {
    if cs != [] {
      WeightUnion(cs[1..], a + cs[0].sz, s, t);
    }
  }

  lemma {:induction false} WeightNone(cs: seq<Chunk>, a: int, s: set<int>)
    requires forall n <- Blocks(cs, a) :: n !in s
    ensures Weight(cs, a, s) == 0
  {
    if cs != [] {
      assert a in Blocks(cs, a);
      assert forall n <- Blocks(cs[1..], a + cs[0].sz) :: n in Blocks(cs, a);
      WeightNone(cs[1..], a + cs[0].sz, s);
    }
  }

  lemma {:induction false} WeightAll(cs: seq<Chunk>, a: int, s: set<int>)
    requires forall n <- Blocks(cs, a) :: n in s
    ensures Weight(cs, a, s) == Len(cs)
  {
    if cs != [] {
      assert a in Blocks(cs, a);
      assert forall n <- Blocks(cs[1..], a + cs[0].sz) :: n in Blocks(cs, a);
      WeightAll(cs[1..], a + cs[0].sz, s);
    }
  }

  lemma {:induction false} WeightOne(cs: seq<Chunk>, a: int, x: int)
    requires Sized(cs) && x in Blocks(cs, a)
    ensures Weight(cs, a, {x}) == Blocks(cs, a)[x].sz
  {
    var b := a + cs[0].sz;
    Range(cs[1..], b);
    if x == a {
      WeightNone(cs[1..], b, {x});
    } else {
      WeightOne(cs[1..], b, x);
    }
  }

  /** Total size of the chunks on the first n lists. */
  ghost function OnLists(m: Map, lists: seq<seq<int>>, n: int): int
    requires 0 <= n <= |lists|
  {
    if n == 0 then 0 else OnLists(m, lists, n - 1) + OnList(m, lists[n - 1])
  }

  ghost function OnList(m: Map, s: seq<int>): int {
    if s == [] then 0 else (if s[0] in m then m[s[0]].sz else 0) + OnList(m, s[1..])
  }

  ghost function Elems(s: seq<int>): set<int> { set x | x in s }

  lemma {:induction false} OnListWeight(cs: seq<Chunk>, a: int, s: seq<int>)
    requires Sized(cs) && Distinct(s) && Elems(s) <= Blocks(cs, a).Keys
    ensures OnList(Blocks(cs, a), s) == Weight(cs, a, Elems(s))
  {
    hide Blocks;
    if s == [] {
      WeightNone(cs, a, Elems(s));
    } else {
      assert s[0] in Elems(s) && s[0] !in s[1..];
      assert Elems(s) == {s[0]} + Elems(s[1..]);
      WeightUnion(cs, a, {s[0]}, Elems(s[1..]));
      WeightOne(cs, a, s[0]);
      OnListWeight(cs, a, s[1..]);
    }
  }

  ghost function FreeBelow(m: Map, n: int): set<int> { set x | x in m && m[x].st.Free? && 0 <= m[x].st.bin < n }
  ghost function FastBelow(m: Map, n: int): set<int> { set x | x in m && m[x].st.Fast? && 0 <= m[x].st.bin < n }

  lemma {:induction false} BinsWeight(h: Heap, n: int)
    requires Sized(h.cs) && BinHomes(View(h), h.bins) && 0 <= n <= NBINS
    ensures OnLists(View(h), h.bins, n) == Weight(h.cs, h.base, FreeBelow(View(h), n))
  {
    hide Blocks, Weight;
    var m := View(h);
    if n > 0 {
      BinsWeight(h, n - 1);
      var s := h.bins[n - 1];
      assert forall x :: x in s <==> x in m && m[x].st == Free(n - 1);
      OnListWeight(h.cs, h.base, s);
      assert FreeBelow(m, n) == FreeBelow(m, n - 1) + Elems(s);
      WeightUnion(h.cs, h.base, FreeBelow(m, n - 1), Elems(s));
    } else {
      WeightNone(h.cs, h.base, FreeBelow(m, 0));
    }
  }

  lemma {:induction false} FastWeight(h: Heap, n: int)
    requires Sized(h.cs) && FastHomes(View(h), h.fast) && 0 <= n <= NFASTBINS
    ensures OnLists(View(h), h.fast, n) == Weight(h.cs, h.base, FastBelow(View(h), n))
  {
    hide Blocks, Weight;
    var m := View(h);
    if n > 0 {
      FastWeight(h, n - 1);
      var s := h.fast[n - 1];
      assert forall x :: x in s <==> x in m && m[x].st == Fast(n - 1);
      OnListWeight(h.cs, h.base, s);
      assert FastBelow(m, n) == FastBelow(m, n - 1) + Elems(s);
      WeightUnion(h.cs, h.base, FastBelow(m, n - 1), Elems(s));
    } else {
      WeightNone(h.cs, h.base, FastBelow(m, 0));
    }
  }

  /** The cells in live blocks, on fastbins, on bins, and in top. */
  ghost function Parts(h: Heap, mem: seq<Cell>): int
    requires |h.bins| == NBINS && |h.fast| == NFASTBINS && 0 <= Top(h) < |mem|
  {
    Weight(h.cs, h.base, Live(View(h)).Keys) + OnLists(View(h), h.fast, NFASTBINS) + OnLists(View(h), h.bins, NBINS)
    + mem[Top(h)].b / 16
  }

  /** In-use, fastbin and binned cells and top add up to the arena: whatever an operation does without
      new memory from the system, the sum stays the same. */
  lemma AllAccounted(h: Heap, mem: seq<Cell>, fb: seq<int>)
    requires Inv(h, mem, fb) && NoLimbo(View(h))
    ensures |h.bins| == NBINS && |h.fast| == NFASTBINS && 0 <= Top(h) < |mem|
    ensures Parts(h, mem) == |mem| - h.base
  {
    hide Tags, Blocks, Len, Weight, OnLists, Filed, Wired;
    ViewFacts(h, mem);
    var m := View(h);
    BinsWeight(h, NBINS);
    FastWeight(h, NFASTBINS);
    var u, f, b := Live(m).Keys, FastBelow(m, NFASTBINS), FreeBelow(m, NBINS);
    WeightUnion(h.cs, h.base, u, f);
    WeightUnion(h.cs, h.base, u + f, b);
    forall n | n in m ensures n in u + f + b {
      assert m[n].st == Used || m[n].st.Fast? || m[n].st.Free?;
    }
    WeightAll(h.cs, h.base, u + f + b);
  }
}
