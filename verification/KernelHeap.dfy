/** The program break of the kernel heap (src/mem/heap.cpp): `sbrk` maps fresh pages at the end of a reserved
    area in the upper half of the address space. */
module KernelHeap {
  import opened Basics
  import opened Addresses
  import opened PageTables
  import opened Frames
  import opened AddressSpace
  import opened Morecore

  const HEAP_SIZE: int := 0x4_0000_0000              // 16 GiB
  const UPPER: int := 0xFFFF_0000_0000_0000          // addresses from here on have all of bits 48 to 63 set
  const MAX_LONG: int := 0x7FFF_FFFF_FFFF_FFFF

  /** Pages of the upper half are told apart by bits 12 to 47. */
  lemma UpperPages(a: int, b: int)
    requires UPPER <= a < TWO_64 && UPPER <= b < TWO_64 && PageOf(a) == PageOf(b)
    ensures a / PAGE == b / PAGE
  {
    var base := 0xFFFF * TWO_36;
    assert base <= a / PAGE < base + TWO_36 && base <= b / PAGE < base + TWO_36;
    Quotient(a / PAGE, TWO_36, 0xFFFF, a / PAGE - base);
    Quotient(b / PAGE, TWO_36, 0xFFFF, b / PAGE - base);
  }

  /** The test of `expand_heap`, in 64 bits. */
  predicate Refused(start: int, end: int, size: int) {
    (end + size) % TWO_64 > start + HEAP_SIZE
  }

  /** The test lets exactly those expansions through that stay inside the reserved area, unless the sum
      wraps around to an address below the end of the area. */
  lemma RefusedExactly(start: int, end: int, size: int)
    requires 0 <= start <= end <= start + HEAP_SIZE < TWO_64 && 0 <= size < TWO_64
    ensures (Refused(start, end, size) <==> end + size > start + HEAP_SIZE)
       <==> !(end + size >= TWO_64 && end + size - TWO_64 <= start + HEAP_SIZE)
  {
    assert end + size < TWO_64 ==> (end + size) % TWO_64 == end + size;
    assert end + size >= TWO_64 ==> (end + size) % TWO_64 == end + size - TWO_64;
  }

  /** For the sizes that `sbrk` passes on, at most 2^63 bytes in whole pages, the test is right exactly when
      the new break does not pass the end of the address space. */
  lemma SbrkTest(start: int, end: int, size: int)
    requires UPPER <= start <= end <= start + HEAP_SIZE < TWO_64 && 0 <= size <= MAX_LONG + 1
    ensures (Refused(start, end, size) <==> end + size > start + HEAP_SIZE) <==> end + size < TWO_64
  {
    RefusedExactly(start, end, size);
  }

  /** A break at the start of the upper half, moved by 128 TiB, is let through and comes out at 0. */
  lemma WrappedBreak()
    ensures var start, size := 0xFFFF_8000_0000_0000, 0x8000_0000_0000;
            !Refused(start, start, size) && (start + size) % TWO_64 == 0 && start + size > start + HEAP_SIZE
  {
  }

  class Heap {
    const space: Space
    const start: int
    var end: int
    ghost var backing: seq<int>

    /** The break is page-aligned inside the area, and every page below it has a frame of its own, which is
        no page table and not free. */
    ghost predicate Valid()
      reads this, space, space.frames
    {
      && space.Valid() && (forall f <- space.frames.Free() :: f * PAGE < MAX_PHYSICAL)
      && UPPER <= start && start % PAGE == 0 && end % PAGE == 0 && start <= end <= start + HEAP_SIZE < TWO_64
      && end == start + |backing| * PAGE
      && Backed(space.tables, space.root, start, backing)
      && Own(backing, space.tables.Keys, space.frames.Free())
    }

    constructor (s: Space, base: int)
      requires s.Valid() && (forall f <- s.frames.Free() :: f * PAGE < MAX_PHYSICAL)
      requires UPPER <= base && base % PAGE == 0 && base + HEAP_SIZE < TWO_64
      ensures Valid() && space == s && start == base && end == base
    {
      space, start, end, backing := s, base, base, [];
    }

    /** One page more; false if the machine is halted for lack of a page. */
    method Grow() returns (ok: bool)
      requires Valid() && end + PAGE <= start + HEAP_SIZE
      modifies this, space, space.frames
      ensures Valid()
      ensures if ok then end == old(end) + PAGE && |backing| == |old(backing)| + 1
                         && backing[..|old(backing)|] == old(backing)
              else end == old(end) && backing == old(backing) && space.frames.Free() == {}
    {
      hide Backed, Own, Leaf, Tree, PathOf, Canonical, Clean, SameLeaves, FrameAllocator.Valid, FrameAllocator.Free;
      ok := false;
      OwnNot(backing, space.tables.Keys, space.frames.Free());
      var f := space.frames.Allocate();
      if f == 0 {
        return;
      }
      ghost var ts, free := space.tables, space.frames.Free();
      ghost var was := backing;
      PageMath(f);
      UpperCanonical(end);
      ok := space.VirtualMap(f * PAGE, end, true);
      OwnLess(was, ts.Keys, free + {f}, f, space.tables.Keys, space.frames.Free());
      if ok {
        BackedMore(ts, space.tables, space.root, start, was, f);
        backing := was + [f];
        end := end + PAGE;
      } else {
        BackedSame(ts, space.tables, space.root, start, was);
      }
    }

    /** `expand_heap`; false if the machine is halted. */
    method Expand(pages: int) returns (ok: bool)
      requires Valid() && 0 < pages && end + pages * PAGE < TWO_64
      modifies this, space, space.frames
      ensures Valid() && |old(backing)| <= |backing| && old(backing) == backing[..|old(backing)|]
      ensures ok ==> end == old(end) + pages * PAGE
      ensures old(end) + pages * PAGE > start + HEAP_SIZE ==> !ok && end == old(end)
      ensures !ok ==> old(end) + pages * PAGE > start + HEAP_SIZE || space.frames.Free() == {}
    {
      hide Backed, Own, Valid;
      ok := false;
      HeapRange();
      if Refused(start, end, pages * PAGE) {
        return;
      }
      ghost var e, b := end, backing;
      for i := 0 to pages
        invariant Valid() && end == e + i * PAGE && |b| <= |backing| && b == backing[..|b|]
        invariant e + pages * PAGE <= start + HEAP_SIZE
      {
        ghost var before := backing;
        var more := Grow();
        assert b == before[..|b|];
        if !more {
          return;
        }
        assert before[..|b|] == backing[..|b|];
      }
      ok := true;
    }

    lemma HeapRange()
      requires Valid()
      ensures 0 <= start <= end <= start + HEAP_SIZE < TWO_64 && start % PAGE == 0 && end % PAGE == 0
    {
    }

    /** `sbrk`: refuses negative sizes and otherwise moves the break by whole pages and returns the old one.
        Halting is ok == false; the pages mapped until then stay mapped. */
    method Sbrk(size: int) returns (ok: bool, r: int)
      requires Valid() && end + size + PAGE <= TWO_64
      modifies this, space, space.frames
      ensures Valid() && |old(backing)| <= |backing| && old(backing) == backing[..|old(backing)|]
      ensures size < 0 ==> ok && r == -1 && end == old(end)
      ensures size >= 0 && ok ==> r == old(end) && r + size <= end < r + size + PAGE && (size == 0 ==> end == r)
      ensures size >= 0 && old(end) + size > start + HEAP_SIZE ==> !ok
      ensures !ok ==> old(end) + size > start + HEAP_SIZE || space.frames.Free() == {}
    {
      hide Valid;
      ok, r := true, -1;
      if size < 0 {
        return;
      }
      HeapRange();
      var pages := (size + PAGE - 1) / PAGE;
      WholePages(start + HEAP_SIZE - end, size, pages);
      r := end;
      if pages > 0 {
        ok := Expand(pages);
      }
    }

    /** Any run of `sbrk` obeys the rules of MORECORE; it ends early only at a call that halts the machine. */
    method Run(sizes: seq<int>) returns (calls: seq<Call>)
      requires Valid()
      modifies this, space, space.frames
      ensures Valid() && |calls| <= |sizes| && Rules(old(end), calls)
      ensures forall i :: 0 <= i < |calls| ==> calls[i].size == sizes[i] && (sizes[i] >= 0 ==> calls[i].r != FAILURE)
      ensures |calls| == |sizes| ==> end == Before(old(end), calls, |calls|)
      ensures |calls| < |sizes| ==> Before(old(end), calls, |calls|) + sizes[|calls|] > start + HEAP_SIZE
                                    || space.frames.Free() == {}
    {
      hide Valid;
      calls := [];
      for i := 0 to |sizes|
        invariant Valid() && |calls| == i && Rules(old(end), calls) && end == Before(old(end), calls, i)
        invariant forall k :: 0 <= k < i ==> calls[k].size == sizes[k] && (sizes[k] >= 0 ==> calls[k].r != FAILURE)
      {
        HeapRange();
        if end + sizes[i] + PAGE > TWO_64 {
          return;
        }
        var ok, r := Sbrk(sizes[i]);
        if !ok {
          return;
        }
        var c := Call(sizes[i], r, end);
        RulesMore(old(end), calls, c);
        calls := calls + [c];
      }
    }

    /** Every address below the break leads to its own byte of physical memory. */
    lemma HeapTranslates(a: int)
      requires Valid() && start <= a < end
      ensures var i := (a - start) / PAGE;
              0 <= i < |backing| && Translate(space.tables, space.root, a) == At(backing[i] * PAGE + a % PAGE)
    {
      var i := (a - start) / PAGE;
      var page := start + i * PAGE;
      InPage(start, a, i);
      assert PageLeads(space.tables, space.root, page, backing[i]);
      SamePath(a, page);
    }
  }

  lemma InPage(start: int, a: int, i: int)
    requires UPPER <= start <= a < TWO_64 && start % PAGE == 0 && i == (a - start) / PAGE
    ensures start + i * PAGE <= a && PageOf(a) == PageOf(start + i * PAGE) && Canonical(a)
  {
    assert a / PAGE == start / PAGE + i;
    assert (start + i * PAGE) / PAGE == start / PAGE + i;
    UpperCanonical(a);
  }

  /** The frames of the heap: each only once, none of them a table or free. */
  ghost predicate Own(backing: seq<int>, tables: set<int>, free: set<int>) {
    && (forall i :: 0 <= i < |backing| ==> backing[i] !in tables && backing[i] !in free)
    && (forall i, j :: 0 <= i < j < |backing| ==> backing[i] != backing[j])
  }

  lemma OwnNot(backing: seq<int>, tables: set<int>, free: set<int>)
    requires Own(backing, tables, free)
    ensures forall free' :: free' <= free ==> Own(backing, tables, free')
  {
  }

  lemma UpperCanonical(a: int)
    requires UPPER <= a < TWO_64
    ensures Canonical(a)
  {
    Quotient(a, 0x1_0000_0000_0000, 0xFFFF, a - UPPER);
  }

  /** Between page boundaries, a size fits exactly if its pages do. */
  lemma WholePages(space: int, size: int, pages: int)
    requires space % PAGE == 0 && 0 <= size && pages == (size + PAGE - 1) / PAGE
    ensures size <= space <==> pages * PAGE <= space
  {
    var k := space / PAGE;
    assert space == k * PAGE;
    assert size <= pages * PAGE < size + PAGE;
  }

  lemma PageMath(f: int)
    ensures f * PAGE % PAGE == 0 && f * PAGE / PAGE == f
  {
  }

  /** A free page f is taken, and tables are made of other free pages. */
  lemma OwnLess(backing: seq<int>, tables: set<int>, free: set<int>, f: int, tables': set<int>, free': set<int>)
    requires Own(backing, tables, free) && f in free && f !in tables && free' <= free - {f}
    requires tables' - tables <= free - {f}
    ensures Own(backing, tables', free') && Own(backing + [f], tables', free')
  {
    assert f !in backing;
    forall x | x in tables' || x in free' ensures x in tables || x in free - {f} {
      assert x in tables' ==> x in tables || x in tables' - tables;
    }
  }

  lemma BackedSame(ts: Tables, ts': Tables, root: int, start: int, backing: seq<int>)
    requires Backed(ts, root, start, backing) && SameLeaves(ts, ts', root)
    ensures Backed(ts', root, start, backing)
  {
    hide Leaf;
    forall i | 0 <= i < |backing| ensures PageLeads(ts', root, start + i * PAGE, backing[i]) {
      assert PageLeads(ts, root, start + i * PAGE, backing[i]);
    }
  }

  lemma BackedMore(ts: Tables, ts': Tables, root: int, start: int, backing: seq<int>, f: int)
    requires Backed(ts, root, start, backing) && UPPER <= start && start % PAGE == 0
    requires start + |backing| * PAGE < TWO_64
    requires var p := PathOf(start + |backing| * PAGE);
             && Leaf(ts', root, p).Some? && Leaf(ts', root, p).entry.ppn == f
             && forall q: Path :: q != p ==> Leaf(ts', root, q) == Leaf(ts, root, q)
    ensures Backed(ts', root, start, backing + [f])
  {
    hide Leaf, PathOf, PageOf;
    var end, more := start + |backing| * PAGE, backing + [f];
    forall i | 0 <= i < |more| ensures PageLeads(ts', root, start + i * PAGE, more[i]) {
      if i < |backing| {
        assert PageLeads(ts, root, start + i * PAGE, backing[i]);
        OtherPage(start, i, |backing|);
      }
    }
  }

  lemma OtherPage(start: int, i: nat, n: nat)
    requires UPPER <= start && start % PAGE == 0 && i < n && start + n * PAGE < TWO_64
    ensures PathOf(start + i * PAGE) != PathOf(start + n * PAGE)
  {
    var a, b := start + i * PAGE, start + n * PAGE;
    SamePath(a, b);
    assert a / PAGE == start / PAGE + i && b / PAGE == start / PAGE + n;
    if PageOf(a) == PageOf(b) {
      UpperPages(a, b);
    }
  }

  /** Page i of the heap leads to frame backing[i]. */
  ghost predicate Backed(ts: Tables, root: int, start: int, backing: seq<int>) {
    forall i :: 0 <= i < |backing| ==> PageLeads(ts, root, start + i * PAGE, backing[i])
  }

  ghost predicate PageLeads(ts: Tables, root: int, a: int, f: int) {
    0 <= a < TWO_64 && var leaf := Leaf(ts, root, PathOf(a)); leaf.Some? && leaf.entry.ppn == f
  }
}
