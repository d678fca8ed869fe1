/** What a walk of the namespace (src/acpi/uacpi/namespace.c) comes to: the recursive traversal, and which
    nodes it calls the callbacks for, how often and in what order. */
module Traversal {
  import opened Basics
  import opened Namespace

  /** peers: the nodes for which the descending callback asks for the next peer; breaks: the calls that
      break off the walk.  Every node holds an object, of the kind in the node. */
  datatype Walk = Walk(mask: set<nat>, maxDepth: nat, permanentOnly: bool,
                       descending: bool, ascending: bool, peers: set<int>, breaks: set<Call>)

  datatype Call = Descend(node: int, depth: nat) | Ascend(node: int, depth: nat)

  predicate Selected(ns: Nodes, w: Walk, n: int)
    requires n in ns
  {
    ns[n].kind in w.mask && !(w.permanentOnly && ns[n].temporary)
  }

  /** Whether the children of n are walked, when n is at this depth of the walk. */
  predicate Enters(ns: Nodes, w: Walk, n: int, depth: nat)
    requires n in ns
  {
    depth != w.maxDepth && (ns[n].kind !in w.mask || (Selected(ns, w, n) && !(w.descending && n in w.peers)))
  }

  // ---------- the recursive traversal ----------

  ghost predicate Level(ns: Nodes, g: Shape, s: seq<int>, d: nat)
    requires Well(ns, g)
  {
    forall n <- s :: n in ns && g.depth[n] == d
  }

  lemma KidsLevel(ns: Nodes, g: Shape, n: int)
    requires Well(ns, g) && n in ns
    ensures Level(ns, g, g.kids[n], g.depth[n] + 1) && (g.kids[n] != [] ==> g.depth[n] < g.height)
  {
    forall c | c in g.kids[n] ensures c in ns && g.depth[c] == g.depth[n] + 1 {
      var i :| 0 <= i < |g.kids[n]| && g.kids[n][i] == c;
      assert ChildAt(ns, g, n, i);
    }
    if g.kids[n] != [] {
      assert ChildAt(ns, g, n, 0);
    }
  }

  ghost function Visit(ns: Nodes, g: Shape, w: Walk, n: int, depth: nat): seq<Call>
    requires Well(ns, g) && n in ns
    decreases g.height - g.depth[n], |g.kids[n]| + 1
  {
    KidsLevel(ns, g, n);
    (if Selected(ns, w, n) && w.descending then [Descend(n, depth)] else [])
    + ((if Enters(ns, w, n, depth) then VisitAll(ns, g, w, g.kids[n], g.depth[n] + 1, depth + 1) else [])
       + if Selected(ns, w, n) && w.ascending then [Ascend(n, depth)] else [])
  }

  ghost function VisitAll(ns: Nodes, g: Shape, w: Walk, s: seq<int>, d: nat, depth: nat): seq<Call>
    requires Well(ns, g) && Level(ns, g, s, d) && d > 0
    decreases g.height - d + 1, |s|
  {
    if s == [] then [] else
      assert s[0] in s;
      Visit(ns, g, w, s[0], depth) + VisitAll(ns, g, w, s[1..], d, depth)
  }

  // ---------- which nodes are called for ----------

  /** A node that keeps the walk from the nodes below it. */
  ghost predicate Barrier(ns: Nodes, w: Walk, m: int) {
    && m in ns && ns[m].kind in w.mask
    && ((w.descending && m in w.peers) || (w.permanentOnly && ns[m].temporary))
  }

  /** None of the j nodes above n is a barrier. */
  ghost predicate Open(ns: Nodes, w: Walk, n: int, j: nat) {
    forall k: nat :: 1 <= k <= j ==> !Barrier(ns, w, Up(ns, n, k))
  }

  /** n, at this depth of the walk, is one the callbacks are called for. */
  ghost predicate Wanted(ns: Nodes, w: Walk, n: int, depth: nat) {
    && n in ns && depth <= w.maxDepth && ns[n].kind in w.mask && !(w.permanentOnly && ns[n].temporary)
  }

  /** The walk below top has this call. */
  ghost predicate Called(ns: Nodes, w: Walk, top: int, c: Call) {
    && (if c.Descend? then w.descending else w.ascending)
    && Wanted(ns, w, c.node, c.depth) && c.depth >= 1 && Up(ns, c.node, c.depth) == top
    && Open(ns, w, c.node, c.depth - 1)
  }

  /** The call is for a node of a part of the walk that begins at this depth, in which nothing keeps it away. */
  ghost predicate Within(ns: Nodes, w: Walk, c: Call, depth: nat) {
    && (if c.Descend? then w.descending else w.ascending)
    && Wanted(ns, w, c.node, c.depth) && c.depth >= depth && Open(ns, w, c.node, c.depth - depth)
  }

  ghost predicate CallsFor(ns: Nodes, w: Walk, n: int, depth: nat, c: Call) {
    Within(ns, w, c, depth) && Up(ns, c.node, c.depth - depth) == n
  }

  ghost predicate CallsForAny(ns: Nodes, w: Walk, s: seq<int>, depth: nat, c: Call) {
    Within(ns, w, c, depth) && Up(ns, c.node, c.depth - depth) in s
  }

  lemma KidOf(ns: Nodes, g: Shape, n: int, m: int)
    requires Well(ns, g) && n in ns
    ensures n in g.kids && (m in g.kids[n] <==> m in ns && ns[m].parent == n)
  {
    if m in g.kids[n] {
      var i :| 0 <= i < |g.kids[n]| && g.kids[n][i] == m;
      assert ChildAt(ns, g, n, i);
    }
  }

  /** A call at a greater depth is for a node below n exactly if it is for one at or below a child of n. */
  lemma Deeper(ns: Nodes, g: Shape, w: Walk, n: int, depth: nat, c: Call)
    requires Well(ns, g) && n in ns && c.depth > depth
    ensures n in g.kids
    ensures CallsFor(ns, w, n, depth, c) <==> !Barrier(ns, w, n) && CallsForAny(ns, w, g.kids[n], depth + 1, c)
  {
    hide Well, Barrier;
    var e := c.depth - depth;
    KidOf(ns, g, n, Up(ns, c.node, e - 1));
    if c.node in ns {
      WellNull(ns, g);
      UpUp(ns, c.node, e - 1, 1);
      var m := Up(ns, c.node, e - 1);
      assert m in ns ==> Up(ns, m, 1) == ns[m].parent;
      assert Open(ns, w, c.node, e) <==> Open(ns, w, c.node, e - 1) && !Barrier(ns, w, Up(ns, c.node, e));
    }
  }

  lemma VisitSplit(ns: Nodes, g: Shape, w: Walk, n: int, depth: nat) returns (a: seq<Call>, m: seq<Call>, z: seq<Call>)
    requires Well(ns, g) && n in ns
    ensures n in g.kids && n in g.depth && Level(ns, g, g.kids[n], g.depth[n] + 1)
    ensures a == if Selected(ns, w, n) && w.descending then [Descend(n, depth)] else []
    ensures z == if Selected(ns, w, n) && w.ascending then [Ascend(n, depth)] else []
    ensures m == if depth != w.maxDepth && !Barrier(ns, w, n)
                 then VisitAll(ns, g, w, g.kids[n], g.depth[n] + 1, depth + 1) else []
    ensures Visit(ns, g, w, n, depth) == a + (m + z)
  {
    KidsLevel(ns, g, n);
    a := if Selected(ns, w, n) && w.descending then [Descend(n, depth)] else [];
    z := if Selected(ns, w, n) && w.ascending then [Ascend(n, depth)] else [];
    m := if Enters(ns, w, n, depth) then VisitAll(ns, g, w, g.kids[n], g.depth[n] + 1, depth + 1) else [];
  }

  lemma OpenNone(ns: Nodes, w: Walk, n: int)
    ensures Open(ns, w, n, 0)
  {
  }

  lemma Thrice(a: seq<Call>, m: seq<Call>, z: seq<Call>, c: Call)
    ensures multiset(a + (m + z))[c] == multiset(a)[c] + multiset(m)[c] + multiset(z)[c]
  {
  }

  /** At its own depth, a node has the calls of its ends only. */
  lemma EndCount(ns: Nodes, w: Walk, n: int, depth: nat, c: Call, a: seq<Call>, z: seq<Call>)
    requires n in ns && depth <= w.maxDepth
    requires a == if Selected(ns, w, n) && w.descending then [Descend(n, depth)] else []
    requires z == if Selected(ns, w, n) && w.ascending then [Ascend(n, depth)] else []
    ensures c.depth != depth ==> multiset(a)[c] + multiset(z)[c] == 0
    ensures c.depth == depth ==>
              multiset(a)[c] + multiset(z)[c] == if CallsFor(ns, w, n, depth, c) then 1 else 0
  {
    if c.depth == depth {
      OpenNone(ns, w, c.node);
    }
  }

  lemma {:induction false} VisitCount(ns: Nodes, g: Shape, w: Walk, n: int, depth: nat, c: Call)
    requires Well(ns, g) && n in ns && depth <= w.maxDepth
    ensures multiset(Visit(ns, g, w, n, depth))[c] == if CallsFor(ns, w, n, depth, c) then 1 else 0
    decreases g.height - g.depth[n], |g.kids[n]| + 1
  {
    hide Well, Level, Visit, VisitAll, Barrier, Open, Selected, Up;
    var a, m, z := VisitSplit(ns, g, w, n, depth);
    Thrice(a, m, z, c);
    EndCount(ns, w, n, depth, c, a, z);
    KidsDistinct(ns, g, n);
    if depth != w.maxDepth && !Barrier(ns, w, n) {
      VisitAllCount(ns, g, w, g.kids[n], g.depth[n] + 1, depth + 1, c);
    }
    if c.depth > depth {
      Deeper(ns, g, w, n, depth, c);
    }
  }

  lemma KidsDistinct(ns: Nodes, g: Shape, n: int)
    requires Well(ns, g) && n in ns
    ensures n in g.kids && n in g.depth && Distinct(g.kids[n]) && (g.kids[n] != [] ==> g.depth[n] < g.height)
  {
    KidsLevel(ns, g, n);
  }

  lemma {:induction false} VisitAllCount(ns: Nodes, g: Shape, w: Walk, s: seq<int>, d: nat, depth: nat, c: Call)
    requires Well(ns, g) && Level(ns, g, s, d) && d > 0 && Distinct(s) && depth <= w.maxDepth
    ensures multiset(VisitAll(ns, g, w, s, d, depth))[c] == if CallsForAny(ns, w, s, depth, c) then 1 else 0
    decreases g.height - d + 1, |s|
  {
    if s != [] {
      assert s[0] in s;
      VisitCount(ns, g, w, s[0], depth, c);
      VisitAllCount(ns, g, w, s[1..], d, depth, c);
    }
  }

  /** The walk below top makes each call it has once, and no others. */
  lemma WalkCount(ns: Nodes, g: Shape, w: Walk, top: int, c: Call)
    requires Well(ns, g) && top in ns && w.maxDepth > 0
    ensures top in g.kids && top in g.depth && Level(ns, g, g.kids[top], g.depth[top] + 1)
    ensures multiset(VisitAll(ns, g, w, g.kids[top], g.depth[top] + 1, 1))[c]
         == if Called(ns, w, top, c) then 1 else 0
  {
    hide Well, Level, VisitAll, Open;
    KidsDistinct(ns, g, top);
    KidsLevel(ns, g, top);
    VisitAllCount(ns, g, w, g.kids[top], g.depth[top] + 1, 1, c);
    if c.depth > 0 && c.node in ns {
      WellNull(ns, g);
      var m := Up(ns, c.node, c.depth - 1);
      UpUp(ns, c.node, c.depth - 1, 1);
      KidOf(ns, g, top, m);
      assert m in ns ==> Up(ns, m, 1) == ns[m].parent;
    }
  }

  // ---------- the order of the calls ----------

  /** If x and y lie at or below nodes of s, then y not below an earlier one. */
  ghost predicate InTurn(ns: Nodes, x: int, y: int, s: seq<int>) {
    forall i, j :: 0 <= i < |s| && 0 <= j < |s| && Under(ns, x, s[i]) && Under(ns, y, s[j]) ==> i <= j
  }

  /** Call a may come before call b: a node's descending call comes before, and its ascending call after,
      those of the nodes below it, and the nodes at or below a child come before those at or below the
      children after it. */
  ghost predicate Follows(ns: Nodes, g: Shape, a: Call, b: Call) {
    && (a.node == b.node ==> a.Descend? && b.Ascend?)
    && (a.node != b.node && Under(ns, b.node, a.node) ==> a.Descend?)
    && (a.node != b.node && Under(ns, a.node, b.node) ==> b.Ascend?)
    && (forall p <- g.kids :: InTurn(ns, a.node, b.node, g.kids[p]))
  }

  ghost predicate Ordered(ns: Nodes, g: Shape, cs: seq<Call>) {
    forall i, j :: 0 <= i < j < |cs| ==> Follows(ns, g, cs[i], cs[j])
  }

  lemma UnderDepth(ns: Nodes, g: Shape, x: int, y: int)
    requires Well(ns, g) && x in ns && y in ns && Under(ns, x, y)
    ensures x in g.depth && y in g.depth && g.depth[y] <= g.depth[x] && Up(ns, x, g.depth[x] - g.depth[y]) == y
  {
    hide Well;
    var k: nat :| Up(ns, x, k) == y;
    UpDepth(ns, g, x, k);
  }

  /** Of two nodes that x lies below, the one that is not higher lies below the other. */
  lemma Between(ns: Nodes, g: Shape, x: int, y: int, z: int)
    requires Well(ns, g) && x in ns && y in ns && z in ns && Under(ns, x, y) && Under(ns, x, z)
    ensures y in g.depth && z in g.depth && (g.depth[y] >= g.depth[z] ==> Under(ns, y, z))
    ensures g.depth[y] == g.depth[z] ==> y == z
  {
    hide Well;
    UnderDepth(ns, g, x, y);
    UnderDepth(ns, g, x, z);
    if g.depth[y] >= g.depth[z] {
      WellNull(ns, g);
      UpUp(ns, x, g.depth[x] - g.depth[y], g.depth[y] - g.depth[z]);
    }
  }

  /** Below a child and yet not as deep as it means below its parent. */
  lemma ParentUnder(ns: Nodes, g: Shape, x: int, y: int)
    requires Well(ns, g) && x in ns && y in ns && x != y && Under(ns, x, y)
    ensures Under(ns, ns[x].parent, y)
  {
    hide Well;
    var k: nat :| Up(ns, x, k) == y;
    assert Up(ns, ns[x].parent, k - 1) == y;
  }

  /** Two children of p that have the same node below them are the same child. */
  lemma OneChild(ns: Nodes, g: Shape, x: int, p: int, i: int, j: int)
    requires Well(ns, g) && x in ns && p in g.kids && 0 <= i < |g.kids[p]| && 0 <= j < |g.kids[p]|
    requires Under(ns, x, g.kids[p][i]) && Under(ns, x, g.kids[p][j])
    ensures i == j
  {
    assert ChildAt(ns, g, p, i) && ChildAt(ns, g, p, j);
    Between(ns, g, x, g.kids[p][i], g.kids[p][j]);
  }

  lemma UnderSelf(ns: Nodes, x: int)
    ensures Under(ns, x, x)
  {
    assert Up(ns, x, 0) == x;
  }

  /** The ends of a node's own calls and the calls below it. */
  lemma EndsFollow(ns: Nodes, g: Shape, a: Call, b: Call)
    requires Well(ns, g) && a.node in ns && b.node in ns
    requires if a.node == b.node then a.Descend? && b.Ascend?
             else (a.Descend? && Under(ns, b.node, a.node)) || (b.Ascend? && Under(ns, a.node, b.node))
    ensures Follows(ns, g, a, b)
  {
    hide Well, Under;
    if Under(ns, a.node, b.node) && Under(ns, b.node, a.node) {
      UnderDepth(ns, g, a.node, b.node);
      UnderDepth(ns, g, b.node, a.node);
    }
    forall p, i, j | p in g.kids && 0 <= i < |g.kids[p]| && 0 <= j < |g.kids[p]|
                     && Under(ns, a.node, g.kids[p][i]) && Under(ns, b.node, g.kids[p][j])
      ensures i <= j
    {
      KidIn(ns, g, p, i);
      KidIn(ns, g, p, j);
      UnderSelf(ns, a.node);
      if Under(ns, b.node, a.node) || a.node == b.node {
        UnderUnder(ns, g, b.node, a.node, g.kids[p][i]);
        OneChild(ns, g, b.node, p, i, j);
      } else {
        UnderUnder(ns, g, a.node, b.node, g.kids[p][j]);
        OneChild(ns, g, a.node, p, i, j);
      }
    }
  }

  lemma KidIn(ns: Nodes, g: Shape, p: int, i: int)
    requires Well(ns, g) && p in g.kids && 0 <= i < |g.kids[p]|
    ensures p in ns && g.kids[p][i] in ns && ns[g.kids[p][i]].parent == p
    ensures p in g.depth && g.kids[p][i] in g.depth && g.depth[g.kids[p][i]] == g.depth[p] + 1
  {
    assert ChildAt(ns, g, p, i);
  }

  /** Below two different children, neither is below the other, and the other children come in turn too. */
  lemma Apart(ns: Nodes, g: Shape, x: int, y: int, p: int, i: int, j: int)
    requires Well(ns, g) && x in ns && y in ns && p in g.kids && 0 <= i < j < |g.kids[p]|
    requires Under(ns, x, g.kids[p][i]) && Under(ns, y, g.kids[p][j])
    ensures !Under(ns, x, y) && !Under(ns, y, x) && x != y
  {
    hide Well, Under;
    KidIn(ns, g, p, i);
    KidIn(ns, g, p, j);
    UnderSelf(ns, x);
    if Under(ns, x, y) {
      UnderUnder(ns, g, x, y, g.kids[p][j]);
      OneChild(ns, g, x, p, i, j);
    }
    if Under(ns, y, x) {
      UnderUnder(ns, g, y, x, g.kids[p][i]);
      OneChild(ns, g, y, p, i, j);
    }
  }

  lemma OtherTurn(ns: Nodes, g: Shape, x: int, y: int, p: int, i: int, j: int, q: int, k: int, l: int)
    requires Well(ns, g) && x in ns && y in ns && p in g.kids && 0 <= i < j < |g.kids[p]|
    requires q in g.kids && 0 <= k < |g.kids[q]| && 0 <= l < |g.kids[q]|
    requires Under(ns, x, g.kids[p][i]) && Under(ns, y, g.kids[p][j])
    requires Under(ns, x, g.kids[q][k]) && Under(ns, y, g.kids[q][l])
    ensures k <= l
  {
    hide Well, Under;
    var a, b, c, d := g.kids[p][i], g.kids[p][j], g.kids[q][k], g.kids[q][l];
    KidIn(ns, g, p, i);
    KidIn(ns, g, p, j);
    KidIn(ns, g, q, k);
    KidIn(ns, g, q, l);
    Between(ns, g, x, a, c);
    Between(ns, g, x, c, a);
    Between(ns, g, y, b, d);
    Between(ns, g, y, d, b);
    if g.depth[p] == g.depth[q] {
      KidsDistinct(ns, g, p);
    } else if g.depth[p] > g.depth[q] {
      ParentUnder(ns, g, a, c);
      ParentUnder(ns, g, b, d);
      OneChild(ns, g, p, q, k, l);
    } else {
      ParentUnder(ns, g, c, a);
      ParentUnder(ns, g, d, b);
      OneChild(ns, g, q, p, i, j);
    }
  }

  lemma SiblingsFollow(ns: Nodes, g: Shape, a: Call, b: Call, p: int, i: int, j: int)
    requires Well(ns, g) && a.node in ns && b.node in ns && p in g.kids && 0 <= i < j < |g.kids[p]|
    requires Under(ns, a.node, g.kids[p][i]) && Under(ns, b.node, g.kids[p][j])
    ensures Follows(ns, g, a, b)
  {
    hide Well, Under;
    Apart(ns, g, a.node, b.node, p, i, j);
    forall q <- g.kids, k, l | 0 <= k < |g.kids[q]| && 0 <= l < |g.kids[q]|
                                && Under(ns, a.node, g.kids[q][k]) && Under(ns, b.node, g.kids[q][l])
      ensures k <= l
    {
      OtherTurn(ns, g, a.node, b.node, p, i, j, q, k, l);
    }
  }

  lemma OrderedConcat(ns: Nodes, g: Shape, s: seq<Call>, t: seq<Call>)
    requires Ordered(ns, g, s) && Ordered(ns, g, t)
    requires forall a <- s, b <- t :: Follows(ns, g, a, b)
    ensures Ordered(ns, g, s + t)
  {
    hide Follows;
    forall i, j | 0 <= i < j < |s + t| ensures Follows(ns, g, (s + t)[i], (s + t)[j]) {
      if i < |s| {
        assert (s + t)[i] in s;
      }
      if j >= |s| {
        assert (s + t)[j] in t;
      }
    }
  }

  /** The calls of a visit are for nodes at or below it. */
  lemma VisitUnder(ns: Nodes, g: Shape, w: Walk, n: int, depth: nat, c: Call)
    requires Well(ns, g) && n in ns && depth <= w.maxDepth && c in Visit(ns, g, w, n, depth)
    ensures c.node in ns && Under(ns, c.node, n)
  {
    hide Well, Visit;
    VisitCount(ns, g, w, n, depth, c);
    assert c in multiset(Visit(ns, g, w, n, depth));
  }

  lemma VisitAllUnder(ns: Nodes, g: Shape, w: Walk, s: seq<int>, d: nat, depth: nat, c: Call) returns (i: int)
    requires Well(ns, g) && Level(ns, g, s, d) && d > 0 && Distinct(s) && depth <= w.maxDepth
    requires c in VisitAll(ns, g, w, s, d, depth)
    ensures 0 <= i < |s| && c.node in ns && Under(ns, c.node, s[i])
  {
    hide Well, VisitAll, Level;
    VisitAllCount(ns, g, w, s, d, depth, c);
    assert c in multiset(VisitAll(ns, g, w, s, d, depth));
    i :| 0 <= i < |s| && s[i] == Up(ns, c.node, c.depth - depth);
  }

  /** The calls below n come between its own. */
  lemma Inside(ns: Nodes, g: Shape, w: Walk, n: int, depth: nat, c: Call)
    requires Well(ns, g) && n in ns && depth < w.maxDepth && Level(ns, g, g.kids[n], g.depth[n] + 1)
    requires c in VisitAll(ns, g, w, g.kids[n], g.depth[n] + 1, depth + 1)
    ensures Follows(ns, g, Descend(n, depth), c) && Follows(ns, g, c, Ascend(n, depth))
  {
    hide Well, VisitAll, Level, Under;
    KidsDistinct(ns, g, n);
    var i := VisitAllUnder(ns, g, w, g.kids[n], g.depth[n] + 1, depth + 1, c);
    var m := g.kids[n][i];
    KidIn(ns, g, n, i);
    UnderSelf(ns, m);
    UnderDepth(ns, g, c.node, m);
    assert Under(ns, m, n) by {
      assert Up(ns, m, 1) == n;
      Reaches(ns, m, 1);
    }
    UnderUnder(ns, g, c.node, m, n);
    EndsFollow(ns, g, Descend(n, depth), c);
    EndsFollow(ns, g, c, Ascend(n, depth));
  }

  lemma {:induction false} VisitOrdered(ns: Nodes, g: Shape, w: Walk, n: int, depth: nat)
    requires Well(ns, g) && n in ns && depth <= w.maxDepth
    ensures Ordered(ns, g, Visit(ns, g, w, n, depth))
    decreases g.height - g.depth[n], |g.kids[n]| + 1
  {
    hide Well, Level, Visit, VisitAll, Follows, Barrier;
    var a, m, z := VisitSplit(ns, g, w, n, depth);
    KidsDistinct(ns, g, n);
    if depth != w.maxDepth && !Barrier(ns, w, n) {
      assert g.kids[n][0..] == g.kids[n];
      VisitAllOrdered(ns, g, w, n, 0, depth + 1);
      forall c <- m ensures Follows(ns, g, Descend(n, depth), c) && Follows(ns, g, c, Ascend(n, depth)) {
        Inside(ns, g, w, n, depth, c);
      }
    }
    EndsFollow(ns, g, Descend(n, depth), Ascend(n, depth));
    OrderedConcat(ns, g, m, z);
    OrderedConcat(ns, g, a, m + z);
  }

  /** Over the children of p from the t-th on. */
  lemma {:induction false} VisitAllOrdered(ns: Nodes, g: Shape, w: Walk, p: int, t: nat, depth: nat)
    requires Well(ns, g) && p in ns && t <= |g.kids[p]| && depth <= w.maxDepth
    ensures Level(ns, g, g.kids[p][t..], g.depth[p] + 1)
    ensures Ordered(ns, g, VisitAll(ns, g, w, g.kids[p][t..], g.depth[p] + 1, depth))
    decreases g.height - g.depth[p], |g.kids[p]| - t
  {
    hide Well, Level, Visit, Follows, Under, Ordered;
    LevelFrom(ns, g, p, t);
    var s, d := g.kids[p][t..], g.depth[p] + 1;
    if s == [] {
      NoneOrdered(ns, g);
    } else {
      KidIn(ns, g, p, t);
      KidsDistinct(ns, g, p);
      assert s[0] == g.kids[p][t] && s[1..] == g.kids[p][t + 1..];
      LevelFrom(ns, g, p, t + 1);
      VisitOrdered(ns, g, w, s[0], depth);
      VisitAllOrdered(ns, g, w, p, t + 1, depth);
      var first, others := Visit(ns, g, w, s[0], depth), VisitAll(ns, g, w, s[1..], d, depth);
      forall a <- first, b <- others ensures Follows(ns, g, a, b) {
        VisitUnder(ns, g, w, s[0], depth, a);
        var j := VisitAllUnder(ns, g, w, s[1..], d, depth, b);
        SiblingsFollow(ns, g, a, b, p, t, t + 1 + j);
      }
      OrderedConcat(ns, g, first, others);
    }
  }

  lemma NoneOrdered(ns: Nodes, g: Shape)
    ensures Ordered(ns, g, [])
  {
  }

  lemma LevelFrom(ns: Nodes, g: Shape, p: int, t: nat)
    requires Well(ns, g) && p in ns && t <= |g.kids[p]|
    ensures p in g.kids && p in g.depth && Level(ns, g, g.kids[p][t..], g.depth[p] + 1) && Distinct(g.kids[p][t..])
  {
    KidsLevel(ns, g, p);
  }
}
