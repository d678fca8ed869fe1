/** Four-level page tables (src/mem/virtual.cpp, src/mem/virtual.h): tables by page frame number, each with
    512 entries. */
module PageTables {
  import opened Addresses

  datatype Entry = Entry(present: bool, writable: bool, ppn: int)

  type Tables = map<int, seq<Entry>>

  const NONE: Entry := Entry(false, false, 0)

  datatype Option = Some(entry: Entry) | None

  /** Where each table hangs: its level, 4 for the root, and the entry that points to it. */
  datatype Layout = Layout(level: map<int, int>, up: map<int, (int, int)>)

  function EntryAt(ts: Tables, t: int, i: int): Entry {
    if t in ts && 0 <= i < |ts[t]| then ts[t][i] else NONE
  }

  /** The table that entry i of table t points to, 0 if none. */
  function Next(ts: Tables, t: int, i: int): int {
    var e := EntryAt(ts, t, i);
    if e.present then e.ppn else 0
  }

  /** The last-level table for a path. */
  function TableFor(ts: Tables, root: int, p: Path): int {
    Next(ts, Next(ts, Next(ts, root, p.pml4), p.pdp), p.pd)
  }

  /** The entry that maps the page of a path. */
  function Leaf(ts: Tables, root: int, p: Path): Option {
    var e := EntryAt(ts, TableFor(ts, root, p), p.pt);
    if e.present then Some(e) else None
  }

  // ---------- the tables form a tree ----------

  ghost predicate TableOk(ts: Tables, lay: Layout, t: int)
    requires t in ts && t in lay.level
  {
    && t != 0 && |ts[t]| == 512 && 1 <= lay.level[t] <= 4
    && forall i :: 0 <= i < 512 && lay.level[t] > 1 ==> PointerOk(ts, lay, t, i, ts[t][i])
  }

  /** An entry of an upper level is present exactly if its page number is not zero, and then points to a
      table of the level below that no other entry points to. */
  ghost predicate PointerOk(ts: Tables, lay: Layout, t: int, i: int, e: Entry)
    requires t in lay.level
  {
    && (e.present <==> e.ppn != 0)
    && (e.present ==> e.ppn in ts && e.ppn in lay.level && lay.level[e.ppn] == lay.level[t] - 1
                      && e.ppn in lay.up && lay.up[e.ppn] == (t, i))
  }

  ghost predicate Tree(ts: Tables, root: int, lay: Layout) {
    && root in ts && lay.level.Keys == ts.Keys && lay.level[root] == 4
    && forall t <- ts :: TableOk(ts, lay, t)
  }

  lemma NextOk(ts: Tables, root: int, lay: Layout, t: int, i: int)
    requires Tree(ts, root, lay)
    ensures 0 !in ts
    ensures t in ts && lay.level[t] > 1 && Next(ts, t, i) != 0 ==>
              var c := Next(ts, t, i);
              c in ts && lay.level[c] == lay.level[t] - 1 && c in lay.up && lay.up[c] == (t, i)
  {
    if t in ts {
      assert TableOk(ts, lay, t);
      if 0 <= i < 512 && lay.level[t] > 1 {
        assert PointerOk(ts, lay, t, i, ts[t][i]);
      }
    }
    forall u | u in ts ensures u != 0 {
      assert TableOk(ts, lay, u);
    }
  }

  /** The tables on the way to the last level, each of the level it should be. */
  lemma WayDown(ts: Tables, root: int, lay: Layout, p: Path)
    requires Tree(ts, root, lay)
    ensures 0 !in ts
    ensures var t3 := Next(ts, root, p.pml4); var t2 := Next(ts, t3, p.pdp); var t1 := Next(ts, t2, p.pd);
            && (t3 == 0 || (t3 in ts && lay.level[t3] == 3 && t3 in lay.up && lay.up[t3] == (root, p.pml4)))
            && (t2 == 0 || (t2 in ts && lay.level[t2] == 2 && t2 in lay.up && lay.up[t2] == (t3, p.pdp)))
            && (t1 == 0 || (t1 in ts && lay.level[t1] == 1 && t1 in lay.up && lay.up[t1] == (t2, p.pd)))
            && (t3 == 0 ==> t2 == 0) && (t2 == 0 ==> t1 == 0)
  {
    hide Tree;
    NextOk(ts, root, lay, root, p.pml4);
    var t3 := Next(ts, root, p.pml4);
    NextOk(ts, root, lay, t3, p.pdp);
    var t2 := Next(ts, t3, p.pdp);
    NextOk(ts, root, lay, t2, p.pd);
    RootLevel(ts, root, lay);
  }

  lemma RootLevel(ts: Tables, root: int, lay: Layout)
    requires Tree(ts, root, lay)
    ensures root in ts && root in lay.level && lay.level[root] == 4 && lay.level.Keys == ts.Keys
  {
  }

  /** Two paths to the same last-level table differ at most in the last index. */
  lemma OneWay(ts: Tables, root: int, lay: Layout, p: Path, q: Path)
    requires Tree(ts, root, lay) && TableFor(ts, root, p) == TableFor(ts, root, q) != 0
    ensures p.pml4 == q.pml4 && p.pdp == q.pdp && p.pd == q.pd
  {
    hide Tree, Next;
    WayDown(ts, root, lay, p);
    WayDown(ts, root, lay, q);
  }

  // ---------- writing entries ----------

  function SetEntry(ts: Tables, t: int, i: int, e: Entry): Tables
    requires t in ts && 0 <= i < |ts[t]|
  {
    ts[t := ts[t][i := e]]
  }

  lemma SetEntryAt(ts: Tables, t: int, i: int, e: Entry, u: int, j: int)
    requires t in ts && 0 <= i < |ts[t]|
    ensures EntryAt(SetEntry(ts, t, i, e), u, j) == if u == t && j == i then e else EntryAt(ts, u, j)
  {
  }

  /** The path to the last level does not pass through last-level tables. */
  lemma SetLeaf(ts: Tables, root: int, lay: Layout, p: Path, e: Entry)
    requires Tree(ts, root, lay) && p.InRange() && TableFor(ts, root, p) in ts && |ts[TableFor(ts, root, p)]| == 512
    requires e.present
    ensures var ts' := SetEntry(ts, TableFor(ts, root, p), p.pt, e);
            && Tree(ts', root, lay) && Leaf(ts', root, p) == Some(e) && TableFor(ts', root, p) == TableFor(ts, root, p)
            && forall q: Path :: q != p ==> Leaf(ts', root, q) == Leaf(ts, root, q)
  {
    hide Tree, Leaf, Next;
    var t := TableFor(ts, root, p);
    var ts' := SetEntry(ts, t, p.pt, e);
    WayDown(ts, root, lay, p);
    forall q: Path ensures TableFor(ts', root, q) == TableFor(ts, root, q) {
      SameTableFor(ts, root, lay, t, p.pt, e, q);
    }
    LeafTree(ts, root, lay, t, p.pt, e);
    LeafIs(ts', root, p);
    SetEntryAt(ts, t, p.pt, e, t, p.pt);
    forall q: Path | q != p ensures Leaf(ts', root, q) == Leaf(ts, root, q) {
      LeafIs(ts, root, q);
      LeafIs(ts', root, q);
      SetEntryAt(ts, t, p.pt, e, TableFor(ts, root, q), q.pt);
      if TableFor(ts, root, q) == t {
        OneWay(ts, root, lay, p, q);
      }
    }
  }

  lemma LeafIs(ts: Tables, root: int, p: Path)
    ensures Leaf(ts, root, p) == var e := EntryAt(ts, TableFor(ts, root, p), p.pt); if e.present then Some(e) else None
  {
  }

  lemma LeafTree(ts: Tables, root: int, lay: Layout, t: int, i: int, e: Entry)
    requires Tree(ts, root, lay) && t in ts && lay.level[t] == 1 && 0 <= i < |ts[t]|
    ensures Tree(SetEntry(ts, t, i, e), root, lay)
  {
    var ts' := SetEntry(ts, t, i, e);
    forall u | u in ts' ensures TableOk(ts', lay, u) {
      assert TableOk(ts, lay, u);
      forall j | 0 <= j < 512 && lay.level[u] > 1 ensures PointerOk(ts', lay, u, j, ts'[u][j]) {
        assert PointerOk(ts, lay, u, j, ts[u][j]);
      }
    }
  }

  lemma SameTableFor(ts: Tables, root: int, lay: Layout, t: int, i: int, e: Entry, q: Path)
    requires Tree(ts, root, lay) && t in ts && lay.level[t] == 1 && 0 <= i < |ts[t]|
    ensures TableFor(SetEntry(ts, t, i, e), root, q) == TableFor(ts, root, q)
  {
    hide Tree;
    WayDown(ts, root, lay, q);
    RootLevel(ts, root, lay);
    SetEntryAt(ts, t, i, e, root, q.pml4);
    var t3 := Next(ts, root, q.pml4);
    SetEntryAt(ts, t, i, e, t3, q.pdp);
    var t2 := Next(ts, t3, q.pdp);
    SetEntryAt(ts, t, i, e, t2, q.pd);
  }

  // ---------- growing the tree ----------

  function Empty(): (s: seq<Entry>)
    ensures |s| == 512 && forall i :: 0 <= i < 512 ==> s[i] == NONE
  {
    seq(512, _ => NONE)
  }

  /** A new empty table behind entry i of table t. */
  function AddTable(ts: Tables, t: int, i: int, n: int): Tables
    requires t in ts && 0 <= i < |ts[t]|
  {
    SetEntry(ts, t, i, Entry(true, false, n))[n := Empty()]
  }

  ghost function AddLayout(lay: Layout, t: int, i: int, n: int): Layout
    requires t in lay.level
  {
    Layout(lay.level[n := lay.level[t] - 1], lay.up[n := (t, i)])
  }

  lemma AddTree(ts: Tables, root: int, lay: Layout, t: int, i: int, n: int)
    requires Tree(ts, root, lay) && t in ts && lay.level[t] > 1 && 0 <= i < |ts[t]| && n !in ts && n != 0
    ensures Tree(AddTable(ts, t, i, n), root, AddLayout(lay, t, i, n))
  {
    var ts', lay' := AddTable(ts, t, i, n), AddLayout(lay, t, i, n);
    assert TableOk(ts, lay, t);
    forall u | u in ts' ensures TableOk(ts', lay', u) {
      if u != n {
        assert TableOk(ts, lay, u);
        forall j | 0 <= j < 512 && lay'.level[u] > 1 ensures PointerOk(ts', lay', u, j, ts'[u][j]) {
          assert PointerOk(ts, lay, u, j, ts[u][j]);
        }
      }
    }
  }

  /** Through the new table nothing is mapped, and nothing was mapped through the entry before. */
  lemma AddSame(ts: Tables, root: int, lay: Layout, t: int, i: int, n: int, p: Path)
    requires Tree(ts, root, lay) && t in ts && lay.level[t] > 1 && 0 <= i < |ts[t]| && !ts[t][i].present && n !in ts
    requires n != 0
    ensures Leaf(AddTable(ts, t, i, n), root, p) == Leaf(ts, root, p)
  {
    hide Tree;
    var ts' := AddTable(ts, t, i, n);
    WayDown(ts, root, lay, p);
    RootLevel(ts, root, lay);
    var t3 := Next(ts, root, p.pml4);
    var t2 := Next(ts, t3, p.pdp);
    var t1 := Next(ts, t2, p.pd);
    AddedNext(ts, t, i, n, root, p.pml4);
    AddedNext(ts, t, i, n, t3, p.pdp);
    AddedNext(ts, t, i, n, t2, p.pd);
    AddedNext(ts, t, i, n, t1, p.pt);
    EmptyNext(ts', n, p.pdp);
    EmptyNext(ts', n, p.pd);
    EmptyNext(ts', n, p.pt);
    EmptyNext(ts', 0, p.pd);
    EmptyNext(ts', 0, p.pt);
  }

  lemma AddedNext(ts: Tables, t: int, i: int, n: int, u: int, j: int)
    requires t in ts && 0 <= i < |ts[t]| && n !in ts && n != 0
    ensures var ts' := AddTable(ts, t, i, n);
            u != n && !(u == t && j == i) ==>
              EntryAt(ts', u, j) == EntryAt(ts, u, j) && Next(ts', u, j) == Next(ts, u, j)
    ensures t != n ==> Next(AddTable(ts, t, i, n), t, i) == n
  {
  }

  lemma EmptyNext(ts: Tables, n: int, i: int)
    requires n !in ts || ts[n] == Empty()
    ensures EntryAt(ts, n, i) == NONE && Next(ts, n, i) == 0
  {
  }

  /** Other flags of an upper-level entry do not change what is mapped. */
  lemma FlagTree(ts: Tables, root: int, lay: Layout, t: int, i: int, w: bool)
    requires Tree(ts, root, lay) && t in ts && lay.level[t] > 1 && 0 <= i < |ts[t]|
    ensures Tree(SetEntry(ts, t, i, ts[t][i].(writable := w)), root, lay)
  {
    var ts' := SetEntry(ts, t, i, ts[t][i].(writable := w));
    assert TableOk(ts, lay, t);
    forall u | u in ts' ensures TableOk(ts', lay, u) {
      assert TableOk(ts, lay, u);
      forall j | 0 <= j < 512 && lay.level[u] > 1 ensures PointerOk(ts', lay, u, j, ts'[u][j]) {
        assert PointerOk(ts, lay, u, j, ts[u][j]);
      }
    }
  }

  lemma FlagNext(ts: Tables, t: int, i: int, w: bool, u: int, j: int)
    requires t in ts && 0 <= i < |ts[t]|
    ensures Next(SetEntry(ts, t, i, ts[t][i].(writable := w)), u, j) == Next(ts, u, j)
  {
    SetEntryAt(ts, t, i, ts[t][i].(writable := w), u, j);
  }

  lemma FlagSame(ts: Tables, root: int, lay: Layout, t: int, i: int, w: bool, p: Path)
    requires Tree(ts, root, lay) && t in ts && lay.level[t] > 1 && 0 <= i < |ts[t]|
    ensures Leaf(SetEntry(ts, t, i, ts[t][i].(writable := w)), root, p) == Leaf(ts, root, p)
  {
    hide Tree, Next;
    var t3 := Next(ts, root, p.pml4);
    var t2 := Next(ts, t3, p.pdp);
    FlagNext(ts, t, i, w, root, p.pml4);
    FlagNext(ts, t, i, w, t3, p.pdp);
    FlagNext(ts, t, i, w, t2, p.pd);
    WayDown(ts, root, lay, p);
    SetEntryAt(ts, t, i, ts[t][i].(writable := w), TableFor(ts, root, p), p.pt);
  }
}
