/** The namespace tree (src/acpi/uacpi/namespace.c): nodes linked by child, next and parent pointers.
    A shape lists the children of every node in order. */
module Namespace {
  import opened Basics

  const NULL: int := 0
  const ROOT: int := 1

  datatype Node = Node(name: string, child: int, next: int, parent: int, kind: nat, temporary: bool)

  type Nodes = map<int, Node>

  datatype Shape = Shape(kids: map<int, seq<int>>, depth: map<int, nat>, height: nat)

  function First(s: seq<int>): int { if s == [] then NULL else s[0] }

  /** The i-th child of n is linked to n and to the child after it. */
  ghost predicate ChildAt(ns: Nodes, g: Shape, n: int, i: int)
    requires n in g.kids && 0 <= i < |g.kids[n]|
  {
    var c := g.kids[n][i];
    && c in ns && c in g.depth && n in g.depth
    && ns[c].parent == n && g.depth[c] == g.depth[n] + 1
    && ns[c].next == First(g.kids[n][i + 1..])
  }

  /** The links of ns form the tree g. */
  ghost predicate Well(ns: Nodes, g: Shape) {
    && g.kids.Keys == ns.Keys && g.depth.Keys == ns.Keys
    && NULL !in ns && ROOT in ns && ns[ROOT].parent == NULL && ns[ROOT].next == NULL && g.depth[ROOT] == 0
    && (forall n <- ns :: g.depth[n] <= g.height && Distinct(g.kids[n]) && ns[n].child == First(g.kids[n]))
    && (forall n <- ns, i :: 0 <= i < |g.kids[n]| ==> ChildAt(ns, g, n, i))
    && (forall n <- ns :: n != ROOT ==> ns[n].parent in ns && n in g.kids[ns[n].parent])
  }

  /** A node other than the root is one of the children of its parent. */
  lemma InParent(ns: Nodes, g: Shape, n: int) returns (i: int)
    requires Well(ns, g) && n in ns && n != ROOT
    ensures ns[n].parent in ns && 0 <= i < |g.kids[ns[n].parent]| && g.kids[ns[n].parent][i] == n
    ensures ChildAt(ns, g, ns[n].parent, i) && g.depth[n] == g.depth[ns[n].parent] + 1
  {
    i :| 0 <= i < |g.kids[ns[n].parent]| && g.kids[ns[n].parent][i] == n;
  }

  // ---------- above and below ----------

  /** The node k links above n, NULL when there are fewer. */
  ghost function Up(ns: Nodes, n: int, k: nat): int
    decreases k
  {
    if k == 0 then n else if n in ns then Up(ns, ns[n].parent, k - 1) else NULL
  }

  /** n is p or lies below it. */
  ghost predicate Under(ns: Nodes, n: int, p: int) {
    exists k: nat :: Up(ns, n, k) == p
  }

  lemma {:induction false} UpUp(ns: Nodes, n: int, j: nat, k: nat)
    requires NULL !in ns && (j > 0 ==> n in ns)
    ensures Up(ns, Up(ns, n, j), k) == Up(ns, n, j + k)
    decreases j
  {
    if j > 0 {
      if j == 1 || ns[n].parent in ns {
        UpUp(ns, ns[n].parent, j - 1, k);
      } else {
        Nowhere(ns, ns[n].parent, j - 1);
        Nowhere(ns, NULL, k);
      }
    }
  }

  lemma Nowhere(ns: Nodes, n: int, k: nat)
    requires NULL !in ns && n !in ns
    ensures k > 0 || n == NULL ==> Up(ns, n, k) == NULL
  {
  }

  lemma {:induction false} UpDepth(ns: Nodes, g: Shape, n: int, k: nat)
    requires Well(ns, g) && n in ns && Up(ns, n, k) in ns
    ensures Up(ns, n, k) in g.depth && n in g.depth && g.depth[n] == g.depth[Up(ns, n, k)] + k
    decreases k
  {
    if k > 0 && n != ROOT {
      var i := InParent(ns, g, n);
      UpDepth(ns, g, ns[n].parent, k - 1);
    }
  }

  lemma WellNull(ns: Nodes, g: Shape)
    requires Well(ns, g)
    ensures NULL !in ns
  {
  }

  lemma UnderUnder(ns: Nodes, g: Shape, x: int, y: int, z: int)
    requires Well(ns, g) && x in ns && y in ns && Under(ns, x, y) && Under(ns, y, z)
    ensures Under(ns, x, z)
  {
    hide Well;
    WellNull(ns, g);
    var j: nat :| Up(ns, x, j) == y;
    var k: nat :| Up(ns, y, k) == z;
    UpUp(ns, x, j, k);
  }

  lemma Reaches(ns: Nodes, n: int, k: nat)
    ensures Under(ns, n, Up(ns, n, k))
  {
  }

  // ---------- finding a child ----------

  /** The first of these nodes with the name. */
  function FindIn(ns: Nodes, s: seq<int>, name: string): (r: int)
    ensures r != NULL ==> r in s && r in ns && ns[r].name == name
  {
    if s == [] then NULL
    else if s[0] != NULL && s[0] in ns && ns[s[0]].name == name then s[0]
    else FindIn(ns, s[1..], name)
  }

  ghost function Find(ns: Nodes, g: Shape, p: int, name: string): int
    requires p in g.kids
  {
    FindIn(ns, g.kids[p], name)
  }

  /** `uacpi_namespace_node_find_sub_node` */
  method FindSubNode(ns: Nodes, ghost g: Shape, p: int, name: string) returns (r: int)
    requires Well(ns, g) && (p == NULL || p in ns)
    ensures r == Find(ns, g, if p == NULL then ROOT else p, name)
  {
    var q := if p == NULL then ROOT else p;
    ghost var s := g.kids[q];
    r := ns[q].child;
    ghost var i := 0;
    while r != NULL
      invariant 0 <= i <= |s| && r == First(s[i..]) && FindIn(ns, s[i..], name) == FindIn(ns, s, name)
      decreases |s| - i
    {
      assert s[i] == r && s[i..][1..] == s[i + 1..] && ChildAt(ns, g, q, i);
      if ns[r].name == name {
        return;
      }
      r := ns[r].next;
      i := i + 1;
    }
    assert i < |s| ==> ChildAt(ns, g, q, i);
  }
}
