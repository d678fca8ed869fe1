/** The physical page allocator (src/mem/physical.cpp): a linked list of free regions whose links are kept
    in the regions themselves.  Addresses and sizes are in pages of 4096 bytes; page 0 is never usable, as
    the Limine boot protocol promises, and stands for the null pointer. */
module Frames {
  /** The words at the start of a free region. */
  datatype FreeEntry = FreeEntry(next: int, size: int)

  /** An entry of the boot loader's memory map. */
  datatype Region = Region(base: int, pages: int, usable: bool)

  ghost function Pages(p: int, n: int): (s: set<int>)
    ensures forall f :: f in s <==> p <= f < p + n
    decreases n
  {
    if n <= 0 then {} else Pages(p, n - 1) + {p + n - 1}
  }

  ghost predicate Chain(nodes: map<int, FreeEntry>, p: int, list: seq<int>)
    decreases |list|
  {
    if list == [] then p == 0
    else p == list[0] && p > 0 && p in nodes && nodes[p].size > 0 && Chain(nodes, nodes[p].next, list[1..])
  }

  /** The free pages. */
  ghost function FreeOf(nodes: map<int, FreeEntry>, list: seq<int>): set<int>
    requires forall p <- list :: p in nodes
  {
    if list == [] then {} else Pages(list[0], nodes[list[0]].size) + FreeOf(nodes, list[1..])
  }

  /** No page is in two regions of the list. */
  ghost predicate Apart(nodes: map<int, FreeEntry>, list: seq<int>)
    requires forall p <- list :: p in nodes
  {
    list == [] || (Pages(list[0], nodes[list[0]].size) !! FreeOf(nodes, list[1..]) && Apart(nodes, list[1..]))
  }

  lemma {:induction false} ChainNodes(nodes: map<int, FreeEntry>, p: int, list: seq<int>)
    requires Chain(nodes, p, list)
    ensures forall q <- list :: q in nodes && q > 0 && nodes[q].size > 0
    decreases |list|
  {
    if list != [] {
      ChainNodes(nodes, nodes[p].next, list[1..]);
      assert forall q <- list :: q == list[0] || q in list[1..];
    }
  }

  /** Entries that are not on the list do not matter. */
  lemma {:induction false} ChainFrame(nodes: map<int, FreeEntry>, nodes': map<int, FreeEntry>, p: int, list: seq<int>)
    requires Chain(nodes, p, list) && forall q <- list :: q in nodes && q in nodes' && nodes'[q] == nodes[q]
    ensures Chain(nodes', p, list) && FreeOf(nodes', list) == FreeOf(nodes, list)
    ensures (Apart(nodes, list) ==> Apart(nodes', list))
    decreases |list|
  {
    if list != [] {
      assert list[0] in list;
      assert forall q <- list[1..] :: q in list;
      ChainFrame(nodes, nodes', nodes[p].next, list[1..]);
    }
  }

  /** The first page of a region on the list is free. */
  lemma {:induction false} OnList(nodes: map<int, FreeEntry>, p: int, list: seq<int>, q: int)
    requires Chain(nodes, p, list) && q in list && forall x <- list :: x in nodes
    ensures q in FreeOf(nodes, list) && q > 0
    decreases |list|
  {
    ChainNodes(nodes, p, list);
    if q != list[0] {
      OnList(nodes, nodes[p].next, list[1..], q);
    }
  }

  lemma {:induction false} FreePositive(nodes: map<int, FreeEntry>, p: int, list: seq<int>)
    requires Chain(nodes, p, list) && forall x <- list :: x in nodes
    ensures forall f <- FreeOf(nodes, list) :: f > 0
    decreases |list|
  {
    if list != [] {
      assert forall x <- list[1..] :: x in list;
      FreePositive(nodes, nodes[p].next, list[1..]);
    }
  }

  // ---------- giving pages back ----------

  /** The words of page f after `push_to_freelist`, which does not touch them when the list is empty. */
  function Pushed(nodes: map<int, FreeEntry>, head: int, f: int): map<int, FreeEntry>
    requires f in nodes
  {
    if head == 0 then nodes else nodes[f := nodes[f].(next := head)]
  }

  /** The words at the start of a page are those of a region of one page. */
  predicate Clean(nodes: map<int, FreeEntry>, head: int, f: int)
    requires f in nodes
  {
    nodes[f].size == 1 && (head == 0 ==> nodes[f].next == 0)
  }

  /** From p on, the links make up a list with just these free pages. */
  ghost predicate Lists(nodes: map<int, FreeEntry>, p: int, list: seq<int>, free: set<int>) {
    Chain(nodes, p, list) && (forall q <- list :: q in nodes) && Apart(nodes, list) && FreeOf(nodes, list) == free
  }

  lemma OnePage(f: int)
    ensures Pages(f, 1) == {f}
  {
  }

  lemma {:induction false} ChainUnique(nodes: map<int, FreeEntry>, p: int, list: seq<int>, list': seq<int>)
    requires Chain(nodes, p, list) && Chain(nodes, p, list')
    ensures list' == list
    decreases |list|
  {
    if list != [] && list' != [] {
      ChainUnique(nodes, nodes[p].next, list[1..], list'[1..]);
      assert list == [p] + list[1..] && list' == [p] + list'[1..];
    }
  }

  /** A list without free pages is empty. */
  lemma NoneFree(nodes: map<int, FreeEntry>, p: int, list: seq<int>)
    requires Lists(nodes, p, list, {})
    ensures list == [] && p == 0
  {
    if list != [] {
      OnList(nodes, p, list, list[0]);
    }
  }

  lemma JustOne(f: int, n: int, free: set<int>)
    requires n > 0 && Pages(f, n) !! free && Pages(f, n) <= free + {f}
    ensures n == 1
  {
    assert forall q <- Pages(f, n) :: q == f;
  }

  lemma PushedSame(nodes: map<int, FreeEntry>, head: int, list: seq<int>, free: set<int>, f: int)
    requires Lists(nodes, head, list, free) && f > 0 && f in nodes && f !in free
    ensures Lists(Pushed(nodes, head, f), head, list, free)
  {
    assert f !in list by {
      if f in list {
        OnList(nodes, head, list, f);
      }
    }
    ChainFrame(nodes, Pushed(nodes, head, f), head, list);
  }

  lemma GivenBackOnly(nodes: map<int, FreeEntry>, head: int, list: seq<int>, free: set<int>, f: int, list': seq<int>)
    requires Lists(nodes, head, list, free) && f > 0 && f in nodes && f !in free
    requires Lists(Pushed(nodes, head, f), f, list', free + {f})
    ensures Clean(nodes, head, f)
  {
    var nodes', rest := Pushed(nodes, head, f), list'[1..];
    PushedSame(nodes, head, list, free, f);
    FirstPage(f, nodes[f].size);
    if head == 0 {
      assert FreeOf(nodes', rest) == {} by {
        assert forall q <- FreeOf(nodes', rest) :: q == f;
      }
      NoneFree(nodes', nodes[f].next, rest);
    } else {
      ChainUnique(nodes', head, list, rest);
    }
    JustOne(f, nodes[f].size, free);
  }

  /** After a page is pushed, the links make up a list of the free pages and that one exactly if the words of
      the page were clean. */
  lemma GivenBackExactly(nodes: map<int, FreeEntry>, head: int, list: seq<int>, free: set<int>, f: int)
    requires Lists(nodes, head, list, free) && f > 0 && f in nodes && f !in free
    ensures Clean(nodes, head, f) <==> exists list' :: Lists(Pushed(nodes, head, f), f, list', free + {f})
  {
    if list' :| Lists(Pushed(nodes, head, f), f, list', free + {f}) {
      GivenBackOnly(nodes, head, list, free, f, list');
    }
    if Clean(nodes, head, f) {
      var list' := [f] + list;
      PushedSame(nodes, head, list, free, f);
      assert list'[1..] == list;
      OnePage(f);
      assert Lists(Pushed(nodes, head, f), f, list', free + {f});
    }
  }

  /** A page whose old link was left in it: pushed on an empty list, it brings along page 7. */
  lemma StaleLink()
    ensures var nodes := map[5 := FreeEntry(7, 1), 7 := FreeEntry(0, 1)];
            Lists(nodes, 0, [], {}) && !Clean(nodes, 0, 5) && Chain(Pushed(nodes, 0, 5), 5, [5, 7])
  {
    assert [5, 7][1..] == [7] && [7][1..] == [];
  }

  class FrameAllocator {
    var head: int
    var nodes: map<int, FreeEntry>
    ghost var list: seq<int>

    ghost predicate Valid()
      reads this
    {
      Chain(nodes, head, list) && (forall p <- list :: p in nodes) && Apart(nodes, list)
    }

    ghost function Free(): set<int>
      requires Valid()
      reads this
    {
      FreeOf(nodes, list)
    }

    constructor ()
      ensures Valid() && Free() == {}
    {
      head, nodes, list := 0, map[], [];
    }

    /** `push_to_freelist` of the region at p, whose entry ends the list unless one is there already. */
    method Push(p: int)
      requires Valid() && p > 0 && p in nodes && nodes[p].size > 0 && (head == 0 ==> nodes[p].next == 0)
      requires Pages(p, nodes[p].size) !! Free()
      modifies this
      ensures Valid() && Free() == old(Free()) + Pages(p, old(nodes[p].size)) && list == [p] + old(list)
      ensures head == p && nodes == Pushed(old(nodes), old(head), p)
    {
      assert p in Pages(p, nodes[p].size);
      assert p !in list by {
        if p in list {
          OnList(nodes, head, list, p);
        }
      }
      ghost var was := nodes;
      if head == 0 {
        head := p;
      } else {
        nodes := nodes[p := nodes[p].(next := head)];
        ChainFrame(was, nodes, head, list);
        head := p;
      }
      list := [p] + list;
      assert list[1..] == old(list);
    }

    /** `deallocate_physical_page`, which leaves the words of the page as they are: with clean ones the page is
        free again; `GivenBackExactly` says that nothing else will do. */
    method Deallocate(f: int)
      requires Valid() && f > 0 && f in nodes && f !in Free() && Clean(nodes, head, f)
      modifies this
      ensures Valid() && Free() == old(Free()) + {f} && nodes == Pushed(old(nodes), old(head), f)
    {
      OnePage(f);
      Push(f);
    }

    /** Writes the entry of a new region and pushes it. */
    method Begin(p: int, pages: int)
      requires Valid() && p > 0 && pages > 0 && Pages(p, pages) !! Free()
      modifies this
      ensures Valid() && Free() == old(Free()) + Pages(p, pages)
    {
      ghost var was := nodes;
      NotThere(nodes, head, list, p, pages);
      nodes := nodes[p := FreeEntry(0, pages)];
      ChainFrame(was, nodes, head, list);
      Push(p);
    }

    /** `pop_from_freelist` */
    method Pop() returns (p: int)
      requires Valid()
      modifies this`head, this`list
      ensures Valid() && (p == 0 <==> old(list) == [])
      ensures p == 0 ==> head == old(head) && list == old(list)
      ensures p != 0 ==> p == old(head) && p > 0 && p in nodes && head == nodes[p].next && list == old(list)[1..]
      ensures p != 0 ==> nodes[p].size > 0
    {
      p := head;
      if head != 0 {
        head := nodes[head].next;
        list := list[1..];
      }
    }

    /** `allocate_physical_page`: a free page, split off the first region, or 0 if there is none. */
    method Allocate() returns (f: int)
      requires Valid()
      modifies this
      ensures Valid() && (f == 0 <==> old(Free()) == {})
      ensures f == 0 ==> Free() == old(Free())
      ensures f != 0 ==> f > 0 && f == old(head) && f in old(Free()) && Free() == old(Free()) - {f}
      ensures f != 0 ==> f in nodes && Clean(nodes, head, f)
    {
      hide Pages;
      f := Pop();
      if f == 0 {
        return;
      }
      FirstPage(f, nodes[f].size);
      if nodes[f].size > 1 {
        Split(f);
      }
    }

    /** Gives back all but the first page of the region that was just taken off the list. */
    method Split(f: int)
      requires Valid() && f > 0 && f in nodes && nodes[f].size > 1 && head == nodes[f].next
      requires Pages(f, nodes[f].size) !! Free()
      modifies this
      ensures Valid() && Free() == old(Free()) + Pages(f + 1, old(nodes[f].size) - 1)
      ensures f in nodes && Clean(nodes, head, f)
    {
      hide Pages;
      var size := nodes[f].size;
      ghost var was := nodes;
      NotThere(nodes, head, list, f, size);
      FirstPage(f, size);
      FirstPage(f + 1, size - 1);
      nodes := nodes[f + 1 := FreeEntry(nodes[f].next, size - 1)];
      nodes := nodes[f := FreeEntry(0, 1)];
      ChainFrame(was, nodes, head, list);
      Push(f + 1);
    }

    /** `get_available_usable_memory`, in pages. */
    method Available() returns (total: int)
      requires Valid()
      ensures total == |Free()|
    {
      total := 0;
      var p := head;
      ghost var rest := list;
      ChainNodes(nodes, head, list);
      FreeCount(nodes, list);
      while p != 0
        invariant Chain(nodes, p, rest) && (forall q <- rest :: q in nodes) && total + Sizes(nodes, rest) == |Free()|
        decreases |rest|
      {
        total := total + nodes[p].size;
        p := nodes[p].next;
        rest := rest[1..];
      }
    }
  }

  lemma FirstPage(p: int, n: int)
    requires n > 0
    ensures p in Pages(p, n) && Pages(p, n) == {p} + Pages(p + 1, n - 1) && p !in Pages(p + 1, n - 1)
  {
  }

  /** The pages of the usable regions of the memory map. */
  ghost function Usable(regions: seq<Region>): set<int> {
    if regions == [] then {} else
      var r := regions[|regions| - 1];
      Usable(regions[..|regions| - 1]) + if r.usable then Pages(r.base, r.pages) else {}
  }

  /** The promises of the boot protocol: usable regions hold whole pages above page 0 and do not overlap. */
  ghost predicate ProperMap(regions: seq<Region>) {
    && (forall r <- regions :: r.usable ==> r.base > 0 && r.pages > 0)
    && (forall i, j :: 0 <= i < j < |regions| && regions[i].usable && regions[j].usable ==>
          Pages(regions[i].base, regions[i].pages) !! Pages(regions[j].base, regions[j].pages))
  }

  lemma {:induction false} UsableApart(regions: seq<Region>, i: nat, j: nat)
    requires ProperMap(regions) && i <= j < |regions| && regions[j].usable
    ensures Usable(regions[..i]) !! Pages(regions[j].base, regions[j].pages)
  {
    if i > 0 {
      assert regions[..i][..i - 1] == regions[..i - 1];
      UsableApart(regions, i - 1, j);
    }
  }

  /** `initialize_physical_memory`: exactly the usable pages are free. */
  method Initialize(regions: seq<Region>) returns (a: FrameAllocator)
    requires ProperMap(regions)
    ensures fresh(a) && a.Valid() && a.Free() == Usable(regions)
  {
    a := new FrameAllocator();
    for i := 0 to |regions|
      invariant fresh(a) && a.Valid() && a.Free() == Usable(regions[..i])
    {
      assert regions[..i + 1][..i] == regions[..i];
      var r := regions[i];
      if r.usable {
        UsableApart(regions, i, i);
        a.Begin(r.base, r.pages);
      }
    }
    assert regions[..|regions|] == regions;
  }

  lemma NotThere(nodes: map<int, FreeEntry>, p: int, list: seq<int>, f: int, size: int)
    requires Chain(nodes, p, list) && (forall x <- list :: x in nodes) && Pages(f, size) !! FreeOf(nodes, list)
    ensures forall q <- list :: q !in Pages(f, size)
  {
    forall q | q in list ensures q !in Pages(f, size) {
      OnList(nodes, p, list, q);
    }
  }

  ghost function Sizes(nodes: map<int, FreeEntry>, list: seq<int>): int
    requires forall p <- list :: p in nodes
  {
    if list == [] then 0 else
      var p := list[0];
      assert p in list;
      nodes[p].size + Sizes(nodes, list[1..])
  }

  lemma {:induction false} PageCount(p: int, n: nat)
    ensures |Pages(p, n)| == n
  {
    if n > 0 {
      PageCount(p, n - 1);
    }
  }

  lemma {:induction false} FreeCount(nodes: map<int, FreeEntry>, list: seq<int>)
    requires (forall p <- list :: p in nodes && nodes[p].size > 0) && Apart(nodes, list)
    ensures Sizes(nodes, list) == |FreeOf(nodes, list)|
  {
    if list != [] {
      assert list[0] in list;
      PageCount(list[0], nodes[list[0]].size);
      FreeCount(nodes, list[1..]);
    }
  }
}
