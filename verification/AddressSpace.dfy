/** `virtual_map`, `virtual_to_physical` and the flag checks (src/mem/virtual.cpp, src/mem/virtual.h). */
module AddressSpace {
  import opened Basics
  import opened Addresses
  import opened PageTables
  import opened Frames

  const MAX_PHYSICAL: int := 0x10_0000_0000_0000     // page numbers have 40 bits

  /** The check of both functions: bits 48 to 63 all clear or all set. */
  predicate Canonical(a: int)
    requires 0 <= a < TWO_64
  {
    a / 0x1_0000_0000_0000 == 0 || a / 0x1_0000_0000_0000 == 0xFFFF
  }

  datatype Physical = At(address: int) | Unmapped

  /** What an address is translated to. */
  function Translate(ts: Tables, root: int, a: int): Physical
    requires 0 <= a < TWO_64
  {
    var leaf := Leaf(ts, root, PathOf(a));
    if Canonical(a) && leaf.Some? then At(leaf.entry.ppn * PAGE + a % PAGE) else Unmapped
  }

  /** More tables, none of them mapping anything new; each was a free page. */
  ghost predicate Grew(ts: Tables, ts': Tables, free: set<int>, free': set<int>, root: int) {
    && SameLeaves(ts, ts', root) && ts.Keys <= ts'.Keys && free' <= free && ts'.Keys - ts.Keys <= free - free'
    && forall u, j :: Next(ts, u, j) != 0 ==> Next(ts', u, j) == Next(ts, u, j)
  }

  lemma GrewNot(ts: Tables, free: set<int>, root: int)
    ensures Grew(ts, ts, free, free, root)
  {
  }

  lemma GrewSame(ts: Tables, ts': Tables, free: set<int>, free': set<int>, root: int)
    requires Grew(ts, ts', free, free', root)
    ensures SameLeaves(ts, ts', root) && ts.Keys <= ts'.Keys && free' <= free && ts'.Keys - ts.Keys <= free - free'
  {
  }

  lemma GrewNext(ts: Tables, ts': Tables, free: set<int>, free': set<int>, root: int, u: int, j: int)
    requires Grew(ts, ts', free, free', root)
    ensures Next(ts, u, j) != 0 ==> Next(ts', u, j) == Next(ts, u, j)
  {
  }

  lemma GrewTwice(ts: Tables, ts1: Tables, ts2: Tables, free: set<int>, free1: set<int>, free2: set<int>, root: int)
    requires Grew(ts, ts1, free, free1, root) && Grew(ts1, ts2, free1, free2, root)
    ensures Grew(ts, ts2, free, free2, root)
  {
    hide Next, Leaf;
    forall x | x in ts2.Keys - ts.Keys ensures x in free - free2 {
      assert x in ts1.Keys - ts.Keys || x in ts2.Keys - ts1.Keys;
    }
    forall u, j | Next(ts, u, j) != 0 ensures Next(ts2, u, j) == Next(ts, u, j) {
      assert Next(ts1, u, j) == Next(ts, u, j);
    }
    forall p: Path ensures Leaf(ts2, root, p) == Leaf(ts, root, p) {
      assert Leaf(ts1, root, p) == Leaf(ts, root, p);
    }
  }

  lemma FlagGrew(ts: Tables, root: int, lay: Layout, t: int, i: int, w: bool, free: set<int>)
    requires Tree(ts, root, lay) && t in ts && lay.level[t] > 1 && 0 <= i < |ts[t]|
    ensures Grew(ts, SetEntry(ts, t, i, ts[t][i].(writable := w)), free, free, root)
  {
    hide Tree, Leaf, Next;
    var ts' := SetEntry(ts, t, i, ts[t][i].(writable := w));
    forall q: Path ensures Leaf(ts', root, q) == Leaf(ts, root, q) {
      FlagSame(ts, root, lay, t, i, w, q);
    }
    forall u, j ensures Next(ts', u, j) == Next(ts, u, j) {
      FlagNext(ts, t, i, w, u, j);
    }
  }

  ghost predicate SameLeaves(ts: Tables, ts': Tables, root: int) {
    forall p: Path :: Leaf(ts', root, p) == Leaf(ts, root, p)
  }

  /** The page of an address is mapped, by an entry that passes the filter. */
  predicate Allows(ts: Tables, root: int, a: int, filter: Entry -> bool) {
    0 <= a < TWO_64 && var leaf := Leaf(ts, root, PathOf(a)); leaf.Some? && filter(leaf.entry)
  }

  class Space {
    var tables: Tables
    const root: int
    const frames: FrameAllocator
    ghost var lay: Layout

    /** The tables form a tree, and no table is on the free list. */
    ghost predicate Valid()
      reads this, frames
    {
      Tree(tables, root, lay) && frames.Valid() && frames.Free() !! tables.Keys
    }

    constructor (ts: Tables, r: int, fr: FrameAllocator, ghost l: Layout)
      requires Tree(ts, r, l) && fr.Valid() && fr.Free() !! ts.Keys
      ensures Valid() && tables == ts && root == r && frames == fr
    {
      tables, root, frames, lay := ts, r, fr, l;
    }

    /** Allocates an empty table for entry i of table t; false if there is no page for it. */
    method Attach(t: int, i: int) returns (ok: bool)
      requires Valid() && t in tables && t in lay.level && lay.level[t] > 1 && 0 <= i < |tables[t]|
      requires !tables[t][i].present
      modifies this, frames
      ensures Valid() && Grew(old(tables), tables, old(frames.Free()), frames.Free(), root)
      ensures if ok then t in tables && i < |tables[t]| && tables[t][i].present && lay.level[t] == old(lay.level[t])
              else tables == old(tables) && lay == old(lay) && frames.Free() == {}
    {
      hide Tree, Leaf;
      ghost var ts0, lay0 := tables, lay;
      var p := frames.Allocate();
      ok := p != 0;
      if !ok {
        return;
      }
      tables := AddTable(tables, t, i, p);
      lay := AddLayout(lay, t, i, p);
      AddTree(ts0, root, lay0, t, i, p);
      forall q: Path ensures Leaf(tables, root, q) == Leaf(ts0, root, q) {
        AddSame(ts0, root, lay0, t, i, p, q);
      }
      forall u, j | Next(ts0, u, j) != 0 ensures Next(tables, u, j) == Next(ts0, u, j) {
        AddedNext(ts0, t, i, p, u, j);
        NextOk(ts0, root, lay0, u, j);
      }
    }

    /** One level of `virtual_map`: the table behind entry i of table t, allocated if need be; 0 if there is
        no page for it. */
    method Descend(t: int, i: int, writable: bool) returns (c: int)
      requires Valid() && t in tables && t in lay.level && lay.level[t] > 1 && 0 <= i < 512
      modifies this, frames
      ensures Valid() && Grew(old(tables), tables, old(frames.Free()), frames.Free(), root)
      ensures c == 0 ==> tables == old(tables) && frames.Free() == {}
      ensures c != 0 ==> c in tables && c in lay.level && lay.level[c] == old(lay.level[t]) - 1
      ensures c != 0 ==> Next(tables, t, i) == c
    {
      hide Tree, Leaf, Grew;
      GrewNot(tables, frames.Free(), root);
      TableIs(tables, root, lay, t, i);
      if tables[t][i].ppn == 0 {
        var ok := Attach(t, i);
        if !ok {
          return 0;
        }
      }
      ghost var ts0 := tables;
      TableIs(tables, root, lay, t, i);
      FlagTree(tables, root, lay, t, i, writable);
      FlagGrew(tables, root, lay, t, i, writable, frames.Free());
      tables := SetEntry(tables, t, i, tables[t][i].(present := true, writable := writable));
      GrewTwice(old(tables), ts0, tables, old(frames.Free()), frames.Free(), frames.Free(), root);
      c := tables[t][i].ppn;
      NextOk(tables, root, lay, t, i);
    }

    /** `virtual_map` of a present page: on success the page leads to the frame, on failure, for lack of
        pages or because of a misaligned or non-canonical address, no translation changes. */
    method VirtualMap(physical: int, a: int, writable: bool) returns (ok: bool)
      requires Valid() && 0 <= a < TWO_64 && 0 <= physical < MAX_PHYSICAL
      modifies this, frames
      ensures Valid() && frames.Free() <= old(frames.Free()) && old(tables.Keys) <= tables.Keys
      ensures tables.Keys - old(tables.Keys) <= old(frames.Free()) - frames.Free()
      ensures !ok ==> SameLeaves(old(tables), tables, root)
      ensures !ok ==> physical % PAGE != 0 || a % PAGE != 0 || !Canonical(a) || frames.Free() == {}
      ensures ok ==> physical % PAGE == 0 && a % PAGE == 0 && Canonical(a)
      ensures ok ==> Leaf(tables, root, PathOf(a)) == Some(Entry(true, writable, physical / PAGE))
      ensures ok ==> forall p: Path :: p != PathOf(a) ==> Leaf(tables, root, p) == Leaf(old(tables), root, p)
    {
      hide Tree, Leaf, Grew, Next;
      GrewNot(tables, frames.Free(), root);
      GrewSame(tables, tables, frames.Free(), frames.Free(), root);
      ok := false;
      if physical % PAGE != 0 || a % PAGE != 0 || !Canonical(a) {
        return;
      }
      var v := Split(a);
      ghost var ts0, free0 := tables, frames.Free();
      RootLevel(tables, root, lay);
      var t3 := Descend(root, v.pml4, writable);
      GrewSame(ts0, tables, free0, frames.Free(), root);
      if t3 == 0 {
        return;
      }
      ghost var ts1, free1 := tables, frames.Free();
      var t2 := Descend(t3, v.pdp, writable);
      GrewTwice(ts0, ts1, tables, free0, free1, frames.Free(), root);
      GrewSame(ts0, tables, free0, frames.Free(), root);
      if t2 == 0 {
        return;
      }
      ghost var ts2, free2 := tables, frames.Free();
      var t1 := Descend(t2, v.pd, writable);
      GrewTwice(ts0, ts2, tables, free0, free2, frames.Free(), root);
      GrewSame(ts0, tables, free0, frames.Free(), root);
      if t1 == 0 {
        return;
      }
      GrewNext(ts1, ts2, free1, free2, root, root, v.pml4);
      GrewNext(ts2, tables, free2, frames.Free(), root, root, v.pml4);
      GrewNext(ts2, tables, free2, frames.Free(), root, t3, v.pdp);
      ghost var ts3 := tables;
      TableSize(tables, root, lay, t1);
      var e := Entry(true, writable, physical / PAGE);
      SetLeaf(tables, root, lay, PathOf(a), e);
      tables := SetEntry(tables, t1, v.pt, e);
      ok := true;
    }

    /** `ensure_virtual_memory_flags` */
    method EnsureFlags(a: int, filter: Entry -> bool) returns (ok: bool)
      requires Valid() && 0 <= a < TWO_64
      ensures ok <==> Allows(tables, root, a, filter)
    {
      var v := Split(a);
      var e4 := EntryAt(tables, root, v.pml4);
      NoWay(tables, root, lay, PathOf(a));
      if !e4.present {
        return false;
      }
      var e3 := EntryAt(tables, e4.ppn, v.pdp);
      if !e3.present {
        return false;
      }
      var e2 := EntryAt(tables, e3.ppn, v.pd);
      if !e2.present {
        return false;
      }
      var e1 := EntryAt(tables, e2.ppn, v.pt);
      return e1.present && filter(e1);
    }

    /** `ensure_virtual_memory_flags_in_range`: all pages that hold a byte of the range pass the check; the
        end of the range is rounded up in 64 bits. */
    method EnsureFlagsInRange(first: int, end: int, filter: Entry -> bool) returns (ok: bool)
      requires Valid() && 0 <= first < TWO_64 && 0 <= end < TWO_64
      ensures var e := (end + PAGE - 1) % TWO_64 / PAGE;
              ok <==> first / PAGE <= e && forall k :: first / PAGE <= k < e ==> Allows(tables, root, k * PAGE, filter)
    {
      var addr, stop := first / PAGE, (end + PAGE - 1) % TWO_64 / PAGE;
      if addr > stop {
        return false;
      }
      while addr < stop
        invariant first / PAGE <= addr <= stop
        invariant forall k :: first / PAGE <= k < addr ==> Allows(tables, root, k * PAGE, filter)
      {
        var pass := EnsureFlags(addr * PAGE, filter);
        if !pass {
          return false;
        }
        addr := addr + 1;
      }
      ok := true;
    }

    /** `virtual_to_physical` */
    method VirtualToPhysical(a: int) returns (ok: bool, physical: int)
      requires Valid() && 0 <= a < TWO_64
      ensures Translate(tables, root, a) == if ok then At(physical) else Unmapped
    {
      ok, physical := false, 0;
      if !Canonical(a) {
        return;
      }
      var v := Split(a);
      var e4 := EntryAt(tables, root, v.pml4);
      if !e4.present {
        NoWay(tables, root, lay, PathOf(a));
        return;
      }
      var e3 := EntryAt(tables, e4.ppn, v.pdp);
      if !e3.present {
        NoWay(tables, root, lay, PathOf(a));
        return;
      }
      var e2 := EntryAt(tables, e3.ppn, v.pd);
      if !e2.present {
        NoWay(tables, root, lay, PathOf(a));
        return;
      }
      var e1 := EntryAt(tables, e2.ppn, v.pt);
      if !e1.present {
        return;
      }
      ok, physical := true, e1.ppn * PAGE + v.offset;
    }
  }

  /** Mapping a page makes every address in it lead to the frame, at the same offset, and leaves every
      address that differs in bits 12 to 47 alone. */
  lemma MapTranslates(ts: Tables, ts': Tables, root: int, physical: int, a: int, e: Entry, b: int)
    requires 0 <= a < TWO_64 && 0 <= b < TWO_64 && physical % PAGE == 0 && e == Entry(true, e.writable, physical / PAGE)
    requires Leaf(ts', root, PathOf(a)) == Some(e)
    requires forall p: Path :: p != PathOf(a) ==> Leaf(ts', root, p) == Leaf(ts, root, p)
    ensures PageOf(b) == PageOf(a) && Canonical(b) ==> Translate(ts', root, b) == At(physical + b % PAGE)
    ensures PageOf(b) != PageOf(a) ==> Translate(ts', root, b) == Translate(ts, root, b)
  {
    hide Leaf, PathOf, PageOf, Canonical;
    SamePath(a, b);
  }

  lemma TableIs(ts: Tables, root: int, lay: Layout, t: int, i: int)
    requires Tree(ts, root, lay) && t in ts && 0 <= i < 512
    ensures t in lay.level && |ts[t]| == 512 && (lay.level[t] > 1 ==> (ts[t][i].present <==> ts[t][i].ppn != 0))
  {
    assert TableOk(ts, lay, t);
    assert lay.level[t] > 1 ==> PointerOk(ts, lay, t, i, ts[t][i]);
  }

  lemma TableSize(ts: Tables, root: int, lay: Layout, t: int)
    requires Tree(ts, root, lay) && t in ts
    ensures |ts[t]| == 512
  {
    assert TableOk(ts, lay, t);
  }

  lemma NoWay(ts: Tables, root: int, lay: Layout, p: Path)
    requires Tree(ts, root, lay)
    ensures var t3 := Next(ts, root, p.pml4); var t2 := Next(ts, t3, p.pdp);
            t3 == 0 || t2 == 0 || Next(ts, t2, p.pd) == 0 ==> Leaf(ts, root, p) == None
  {
    WayDown(ts, root, lay, p);
  }
}
