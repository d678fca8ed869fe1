/** The namespace as it changes (src/acpi/uacpi/namespace.c): nodes are installed after their last peer,
    uninstalled once they have no children, and all torn down at the end. */
module NamespaceTree {
  import opened Basics
  import opened Namespace

  // ---------- values ----------

  /** The nodes after the i-th child n of p is unlinked. */
  function Unlinked(ns: Nodes, p: int, n: int, prev: int): Nodes
    requires p in ns && n in ns && (prev == NULL || prev in ns)
  {
    var next := ns[n].next;
    (if prev == NULL then ns[p := ns[p].(child := next)] else ns[prev := ns[prev].(next := next)]) - {n}
  }

  ghost function Cut(g: Shape, p: int, n: int, i: int): Shape
    requires p in g.kids && 0 <= i < |g.kids[p]|
  {
    Shape(g.kids[p := Without(g.kids[p], i)] - {n}, g.depth - {n}, g.height)
  }

  lemma WithoutDistinct(s: seq<int>, i: int)
    requires Distinct(s) && 0 <= i < |s|
    ensures Distinct(Without(s, i)) && forall x :: x in Without(s, i) <==> x in s && x != s[i]
  {
    var t := Without(s, i);
    forall x | x in s && x != s[i] ensures x in t {
      var k :| 0 <= k < |s| && s[k] == x;
      assert t[if k < i then k else k - 1] == x;
    }
  }

  /** Facts about the i-th child n of p, which has no children of its own. */
  ghost predicate Leaf(ns: Nodes, g: Shape, p: int, n: int, i: int) {
    Well(ns, g) && p in ns && n in ns && n != ROOT && 0 <= i < |g.kids[p]| && g.kids[p][i] == n && g.kids[n] == []
  }

  ghost function Before(g: Shape, p: int, i: int): int
    requires p in g.kids && 0 <= i < |g.kids[p]|
  {
    if i == 0 then NULL else g.kids[p][i - 1]
  }

  lemma LeafFacts(ns: Nodes, g: Shape, p: int, n: int, i: int)
    requires Leaf(ns, g, p, n, i)
    ensures ns[n].parent == p && p != n && ns[n].next == First(g.kids[p][i + 1..])
    ensures var prev := Before(g, p, i);
            if i == 0 then prev == NULL
            else prev in ns && prev != NULL && ns[prev].parent == p && prev != n && prev != p
  {
    assert ChildAt(ns, g, p, i);
    if i > 0 {
      assert ChildAt(ns, g, p, i - 1);
    }
  }

  lemma UnlinkedChildren(ns: Nodes, g: Shape, p: int, n: int, i: int, m: int, k: int)
    requires Leaf(ns, g, p, n, i) && m in ns && m != n
    requires ns[n].parent == p && p != n && m in Cut(g, p, n, i).kids && 0 <= k < |Cut(g, p, n, i).kids[m]|
    requires Before(g, p, i) == NULL || Before(g, p, i) in ns
    ensures ChildAt(Unlinked(ns, p, n, Before(g, p, i)), Cut(g, p, n, i), m, k)
  {
    LeafFacts(ns, g, p, n, i);
    if m == p {
      UnlinkedPeer(ns, g, p, n, i, k);
    } else {
      assert ChildAt(ns, g, m, k);
      hide Well, Without, First;
    }
  }

  lemma UnlinkedPeer(ns: Nodes, g: Shape, p: int, n: int, i: int, k: int)
    requires Leaf(ns, g, p, n, i) && p != n && 0 <= k < |g.kids[p]| - 1
    requires Before(g, p, i) == NULL || Before(g, p, i) in ns
    ensures |Without(g.kids[p], i)| == |g.kids[p]| - 1
    ensures ChildAt(Unlinked(ns, p, n, Before(g, p, i)), Cut(g, p, n, i), p, k)
  {
    LeafFacts(ns, g, p, n, i);
    var s := g.kids[p];
    var j := if k < i then k else k + 1;
    WithoutAt(s, i, k);
    assert ChildAt(ns, g, p, j) && Distinct(s);
    hide Well, Without, First;
    assert s[j] != s[i] && (i > 0 && j != i - 1 ==> s[j] != s[i - 1]);
    assert Cut(g, p, n, i).kids[p] == Without(s, i);
  }

  lemma WithoutAt(s: seq<int>, i: int, k: int)
    requires 0 <= i < |s| && 0 <= k < |s| - 1
    ensures |Without(s, i)| == |s| - 1
    ensures var j := if k < i then k else k + 1;
            && Without(s, i)[k] == s[j]
            && First(Without(s, i)[k + 1..]) == First(if k + 1 == i then s[i + 1..] else s[j + 1..])
  {
    var t := Without(s, i);
    if k + 1 < |t| {
      assert t[k + 1..][0] == t[k + 1];
    }
  }

  lemma UnlinkedNode(ns: Nodes, g: Shape, p: int, n: int, i: int, m: int)
    requires Leaf(ns, g, p, n, i) && m in ns && m != n
    requires Before(g, p, i) == NULL || Before(g, p, i) in ns
    ensures var ns', g' := Unlinked(ns, p, n, Before(g, p, i)), Cut(g, p, n, i);
            && m in ns' && m in g'.kids && m in g'.depth && ns'[m].parent == ns[m].parent
            && g'.depth[m] == g.depth[m] <= g'.height
            && Distinct(g'.kids[m]) && ns'[m].child == First(g'.kids[m])
            && (m != ROOT ==> ns[m].parent in ns' && ns[m].parent in g'.kids && m in g'.kids[ns[m].parent])
  {
    LeafFacts(ns, g, p, n, i);
    hide ChildAt;
    WithoutDistinct(g.kids[p], i);
    if i == 0 {
      assert Without(g.kids[p], i) == g.kids[p][1..];
    } else {
      assert Without(g.kids[p], i)[0] == g.kids[p][0];
    }
    assert m != ROOT ==> m in g.kids[ns[m].parent];
  }

  lemma UnlinkedWell(ns: Nodes, g: Shape, p: int, n: int, i: int)
    requires Leaf(ns, g, p, n, i)
    ensures Before(g, p, i) == NULL || Before(g, p, i) in ns
    ensures Well(Unlinked(ns, p, n, Before(g, p, i)), Cut(g, p, n, i))
  {
    LeafFacts(ns, g, p, n, i);
    var ns', g' := Unlinked(ns, p, n, Before(g, p, i)), Cut(g, p, n, i);
    Kept(ns, g, p, n, i);
    hide ChildAt, Without, Distinct, First, Unlinked, Cut;
    forall m | m in ns'
      ensures m in g'.kids && m in g'.depth && g'.depth[m] <= g'.height && Distinct(g'.kids[m])
      ensures ns'[m].child == First(g'.kids[m])
      ensures m != ROOT ==> ns'[m].parent in ns' && ns'[m].parent in g'.kids && m in g'.kids[ns'[m].parent]
    {
      UnlinkedNode(ns, g, p, n, i, m);
    }
    forall m, k | m in ns' && 0 <= k < |g'.kids[m]| ensures ChildAt(ns', g', m, k) {
      UnlinkedChildren(ns, g, p, n, i, m, k);
    }
  }

  lemma Kept(ns: Nodes, g: Shape, p: int, n: int, i: int)
    requires Leaf(ns, g, p, n, i) && (Before(g, p, i) == NULL || Before(g, p, i) in ns)
    ensures var ns', g' := Unlinked(ns, p, n, Before(g, p, i)), Cut(g, p, n, i);
            && ns'.Keys == ns.Keys - {n} && g'.kids.Keys == ns'.Keys && g'.depth.Keys == ns'.Keys
            && g'.height == g.height
            && NULL !in ns' && ROOT in ns' && ns'[ROOT].parent == NULL && ns'[ROOT].next == NULL && g'.depth[ROOT] == 0
  {
    LeafFacts(ns, g, p, n, i);
    if i > 0 {
      assert ChildAt(ns, g, p, i - 1);
    }
  }

  // ---------- installing ----------

  ghost function Last(g: Shape, p: int): int
    requires p in g.kids
  {
    if g.kids[p] == [] then NULL else g.kids[p][|g.kids[p]| - 1]
  }

  /** The nodes after a new node without children is linked behind the last child of p. */
  function Linked(ns: Nodes, p: int, n: int, last: int, node: Node): Nodes
    requires p in ns && (last == NULL || last in ns)
  {
    (if last == NULL then ns[p := ns[p].(child := n)] else ns[last := ns[last].(next := n)])
    [n := node.(child := NULL, next := NULL, parent := p)]
  }

  ghost function Grown(g: Shape, p: int, n: int): Shape
    requires p in g.kids && p in g.depth
  {
    var d := g.depth[p] + 1;
    Shape(g.kids[p := g.kids[p] + [n]][n := []], g.depth[n := d], if d > g.height then d else g.height)
  }

  lemma LastFacts(ns: Nodes, g: Shape, p: int)
    requires Well(ns, g) && p in ns
    ensures var last := Last(g, p);
            if g.kids[p] == [] then last == NULL
            else last in ns && last != NULL && last != p && ns[last].parent == p
                 && ns[last].next == NULL && last != ROOT
  {
    if g.kids[p] != [] {
      assert ChildAt(ns, g, p, |g.kids[p]| - 1);
    }
  }

  lemma LinkedChildren(ns: Nodes, g: Shape, p: int, n: int, node: Node, m: int, k: int)
    requires Well(ns, g) && p in ns && n !in ns && n != NULL && (Last(g, p) == NULL || Last(g, p) in ns)
    requires m in Grown(g, p, n).kids && 0 <= k < |Grown(g, p, n).kids[m]|
    ensures ChildAt(Linked(ns, p, n, Last(g, p), node), Grown(g, p, n), m, k)
  {
    LastFacts(ns, g, p);
    var s := g.kids[p];
    if m == p && k == |s| {
    } else {
      assert ChildAt(ns, g, m, k);
      var c := g.kids[m][k];
      if m == p {
        assert (s + [n])[k + 1..] == s[k + 1..] + [n];
        assert c == Last(g, p) <==> k == |s| - 1;
      }
    }
  }

  lemma LinkedNode(ns: Nodes, g: Shape, p: int, n: int, node: Node, m: int)
    requires Well(ns, g) && p in ns && n !in ns && n != NULL && (Last(g, p) == NULL || Last(g, p) in ns)
    requires m in ns || m == n
    ensures var ns', g' := Linked(ns, p, n, Last(g, p), node), Grown(g, p, n);
            && m in ns' && m in g'.kids && m in g'.depth && g'.depth[m] <= g'.height
            && Distinct(g'.kids[m]) && ns'[m].child == First(g'.kids[m])
            && (m != ROOT ==> ns'[m].parent in ns && ns'[m].parent in g'.kids && m in g'.kids[ns'[m].parent])
  {
    LastFacts(ns, g, p);
    forall x | x in g.kids[p] ensures x in ns {
      var i :| 0 <= i < |g.kids[p]| && g.kids[p][i] == x;
      assert ChildAt(ns, g, p, i);
    }
    hide ChildAt;
    assert m in ns && m != ROOT ==> m in g.kids[ns[m].parent];
  }

  lemma LinkedWell(ns: Nodes, g: Shape, p: int, n: int, node: Node)
    requires Well(ns, g) && p in ns && n !in ns && n != NULL
    ensures Last(g, p) == NULL || Last(g, p) in ns
    ensures Well(Linked(ns, p, n, Last(g, p), node), Grown(g, p, n))
  {
    hide Well, ChildAt, Distinct, First, Linked, Grown;
    WellKeys(ns, g);
    LastFacts(ns, g, p);
    var ns', g' := Linked(ns, p, n, Last(g, p), node), Grown(g, p, n);
    LinkedKeys(ns, g, p, n, node);
    forall m | m in ns'
      ensures m in g'.kids && m in g'.depth && g'.depth[m] <= g'.height && Distinct(g'.kids[m])
      ensures ns'[m].child == First(g'.kids[m])
      ensures m != ROOT ==> ns'[m].parent in ns' && ns'[m].parent in g'.kids && m in g'.kids[ns'[m].parent]
    {
      LinkedNode(ns, g, p, n, node, m);
    }
    forall m, k | m in ns' && 0 <= k < |g'.kids[m]| ensures ChildAt(ns', g', m, k) {
      LinkedChildren(ns, g, p, n, node, m, k);
    }
    WellFrom(ns', g');
  }

  lemma WellFrom(ns: Nodes, g: Shape)
    requires g.kids.Keys == ns.Keys && g.depth.Keys == ns.Keys
    requires NULL !in ns && ROOT in ns && ns[ROOT].parent == NULL && ns[ROOT].next == NULL && g.depth[ROOT] == 0
    requires forall n <- ns :: n in g.kids && n in g.depth && g.depth[n] <= g.height && Distinct(g.kids[n])
    requires forall n <- ns :: n in g.kids && ns[n].child == First(g.kids[n])
    requires forall n <- ns :: n != ROOT ==> ns[n].parent in ns && ns[n].parent in g.kids && n in g.kids[ns[n].parent]
    requires forall n, i :: n in ns && n in g.kids && 0 <= i < |g.kids[n]| ==> ChildAt(ns, g, n, i)
    ensures Well(ns, g)
  {
  }

  lemma LinkedKeys(ns: Nodes, g: Shape, p: int, n: int, node: Node)
    requires Well(ns, g) && p in ns && n !in ns && n != NULL && (Last(g, p) == NULL || Last(g, p) in ns)
    ensures var ns', g' := Linked(ns, p, n, Last(g, p), node), Grown(g, p, n);
            && ns'.Keys == ns.Keys + {n} && g'.kids.Keys == ns'.Keys && g'.depth.Keys == ns'.Keys
            && NULL !in ns' && ROOT in ns' && ns'[ROOT].parent == NULL && ns'[ROOT].next == NULL && g'.depth[ROOT] == 0
  {
    LastFacts(ns, g, p);
  }

  lemma WellKeys(ns: Nodes, g: Shape)
    requires Well(ns, g)
    ensures ROOT in ns && forall n <- ns :: n in g.kids && n in g.depth
  {
  }

  lemma LinkedNames(ns: Nodes, p: int, n: int, last: int, node: Node)
    requires p in ns && n !in ns && (last == NULL || last in ns)
    ensures var ns' := Linked(ns, p, n, last, node);
            && n in ns' && ns'[n].name == node.name
            && forall m <- ns :: m in ns' && ns'[m].name == ns[m].name && ns'[m].parent == ns[m].parent
  {
  }

  /** The loop to the last child of p. */
  method LastPeer(ns: Nodes, ghost g: Shape, p: int) returns (prev: int)
    requires Well(ns, g) && p in ns
    ensures prev == Last(g, p) && (prev == NULL || prev in ns)
  {
    ghost var s := g.kids[p];
    prev := ns[p].child;
    if prev == NULL {
      assert s != [] ==> ChildAt(ns, g, p, 0);
      return;
    }
    ghost var i := 0;
    assert ChildAt(ns, g, p, 0);
    while ns[prev].next != NULL
      invariant 0 <= i < |s| && prev == s[i] && prev in ns
      decreases |s| - i
    {
      assert ChildAt(ns, g, p, i) && s[i + 1..] != [];
      assert ChildAt(ns, g, p, i + 1);
      prev, i := ns[prev].next, i + 1;
    }
    assert ChildAt(ns, g, p, i);
    assert i + 1 < |s| ==> s[i + 1..][0] == s[i + 1] && ChildAt(ns, g, p, i + 1);
  }

  lemma Childless(ns: Nodes, g: Shape, n: int)
    requires Well(ns, g) && n in ns
    ensures n in g.kids && (ns[n].child == NULL <==> g.kids[n] == [])
  {
    if g.kids[n] != [] {
      assert ChildAt(ns, g, n, 0);
    }
  }

  /** The loop to the child before n, the i-th of p; NULL for the first. */
  method PeerBefore(ns: Nodes, ghost g: Shape, p: int, n: int, ghost i: int) returns (prev: int)
    requires Leaf(ns, g, p, n, i)
    ensures prev == Before(g, p, i) && (prev == NULL || prev in ns)
  {
    ghost var s := g.kids[p];
    LeafFacts(ns, g, p, n, i);
    prev := NULL;
    if ns[p].child != n {
      assert i > 0;
      prev := ns[p].child;
      ghost var k := 0;
      assert ChildAt(ns, g, p, 0);
      while ns[prev].next != n
        invariant 0 <= k < i && prev == s[k] && prev in ns
        decreases i - k
      {
        assert ChildAt(ns, g, p, k) && s[k + 1..][0] == s[k + 1];
        assert ChildAt(ns, g, p, k + 1);
        prev, k := ns[prev].next, k + 1;
      }
      assert ChildAt(ns, g, p, k) && s[k + 1..][0] == s[k + 1];
    }
  }

  // ---------- the tree as an object ----------

  class Tree {
    var ns: Nodes
    ghost var g: Shape
    ghost var removed: seq<int>     // the nodes uninstalled so far, in this order

    /** `uacpi_namespace_node_install` of a node that is not in the tree. */
    method Install(parent: int, n: int, node: Node)
      requires Well(ns, g) && (parent == NULL || parent in ns) && n !in ns && n != NULL
      modifies this
      ensures Well(ns, g) && var p := if parent == NULL then ROOT else parent;
              && g == Grown(old(g), p, n) && (Last(old(g), p) == NULL || Last(old(g), p) in old(ns))
              && ns == Linked(old(ns), p, n, Last(old(g), p), node)
      ensures removed == old(removed) && ns[n].name == node.name
      ensures forall m <- old(ns) :: m in ns && ns[m].name == old(ns)[m].name
    {
      hide Well, Linked, Grown, Last;
      WellKeys(ns, g);
      var p := if parent == NULL then ROOT else parent;
      var last := LastPeer(ns, g, p);
      LinkedWell(ns, g, p, n, node);
      LinkedNames(ns, p, n, last, node);
      ns := Linked(ns, p, n, last, node);
      g := Grown(g, p, n);
    }

    /** `uacpi_namespace_node_uninstall`: refused while the node has children. */
    method Uninstall(n: int) returns (ok: bool, ghost i: int)
      requires Well(ns, g) && n in ns && n != ROOT
      modifies this
      ensures Well(ns, g) && (ok <==> old(g).kids[n] == [])
      ensures !ok ==> ns == old(ns) && g == old(g) && removed == old(removed)
      ensures ok ==> ns.Keys == old(ns).Keys - {n} && removed == old(removed) + [n]
      ensures ok ==> var p := old(ns)[n].parent;
                     && p in old(g).kids && 0 <= i < |old(g).kids[p]| && old(g).kids[p][i] == n
                     && g == Cut(old(g), p, n, i)
    {
      hide Well, Unlinked, Cut;
      WellKeys(ns, g);
      i := InParent(ns, g, n);
      var p := ns[n].parent;
      Childless(ns, g, n);
      ok := ns[n].child == NULL;
      if !ok {
        return;
      }
      UnlinkedWell(ns, g, p, n, i);
      Kept(ns, g, p, n, i);
      var prev := PeerBefore(ns, g, p, n, i);
      ns := Unlinked(ns, p, n, prev);
      g, removed := Cut(g, p, n, i), removed + [n];
    }
  }
}
