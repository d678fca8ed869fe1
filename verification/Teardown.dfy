/** `uacpi_deinitialize_namespace` (src/acpi/uacpi/namespace.c): tears the tree down without recursion,
    every node after all its children. */
module Teardown {
  import opened Basics
  import opened Namespace
  import opened NamespaceTree

  /** Where the teardown stands: the nodes from the root down to the current one, the index of the child
      each of them has come to (-1 before the first), the nodes not reached yet, the nodes without
      children left, and those uninstalled so far. */
  datatype Stage = Stage(stack: seq<int>, at: seq<int>, todo: set<int>, done: set<int>, order: seq<int>)

  /** Level l of the stack: children up to the one it has come to are done, later ones are not reached. */
  ghost predicate LevelOk(g0: Shape, s: Stage, l: int)
    requires 0 <= l < |s.stack| == |s.at|
  {
    var n := s.stack[l];
    && n in g0.kids && -1 <= s.at[l] < |g0.kids[n]|
    && (l + 1 < |s.stack| ==> 0 <= s.at[l] && s.stack[l + 1] == g0.kids[n][s.at[l]])
    && (forall k :: 0 <= k < s.at[l] ==> g0.kids[n][k] in s.done)
    && (l + 1 == |s.stack| && s.at[l] >= 0 ==> g0.kids[n][s.at[l]] in s.done)
    && (forall k :: s.at[l] < k < |g0.kids[n]| ==> g0.kids[n][k] in s.todo)
  }

  /** Every node is not reached, on the stack, or done. */
  ghost predicate Sorted(g0: Shape, s: Stage) {
    && (forall n <- g0.kids :: n in s.todo || n in s.stack || n in s.done)
    && s.todo !! s.done && (forall n <- s.stack :: n in g0.kids && n !in s.todo && n !in s.done)
    && s.todo <= g0.kids.Keys && s.done <= g0.kids.Keys && Distinct(s.stack)
  }

  /** The children of a node not reached are not reached; those of a done node are uninstalled. */
  ghost predicate Closed(g0: Shape, s: Stage) {
    && (forall n, c :: n in s.todo && n in g0.kids && c in g0.kids[n] ==> c in s.todo)
    && (forall n, c :: n in s.done && n in g0.kids && c in g0.kids[n] ==> c in s.order)
    && (forall n <- s.order :: n in s.done)
  }

  /** The tree now: as at the start, but for the nodes that are done. */
  ghost predicate Left(g0: Shape, g: Shape, s: Stage) {
    && (forall n <- g.kids :: n in g0.kids && n !in s.order && g.kids[n] == if n in s.done then [] else g0.kids[n])
    && (forall n <- g0.kids :: n !in s.order ==> n in g.kids)
  }

  ghost predicate Children(g0: Shape, order: seq<int>) {
    forall k :: 0 <= k < |order| && order[k] in g0.kids ==> forall c <- g0.kids[order[k]] :: c in order[..k]
  }

  ghost predicate Ok(g0: Shape, g: Shape, s: Stage) {
    && |s.stack| == |s.at| && (s.stack != [] ==> s.stack[0] == ROOT) && (s.stack == [] ==> ROOT in s.done)
    && (forall l :: 0 <= l < |s.stack| ==> LevelOk(g0, s, l))
    && Sorted(g0, s) && Closed(g0, s) && Left(g0, g, s) && Distinct(s.order) && Children(g0, s.order)
  }

  // ---------- moving on ----------

  ghost function Top(s: Stage): int
    requires |s.stack| == |s.at| && s.stack != []
  {
    s.at[|s.at| - 1]
  }

  /** The next child has no children: it is done at once. */
  ghost function Pass(s: Stage, c: int): Stage
    requires |s.stack| == |s.at| && s.stack != []
  {
    s.(at := s.at[|s.at| - 1 := Top(s) + 1], todo := s.todo - {c}, done := s.done + {c})
  }

  /** The next child has children: it becomes the current node. */
  ghost function Enter(s: Stage, c: int): Stage
    requires |s.stack| == |s.at| && s.stack != []
  {
    s.(stack := s.stack + [c], at := s.at[|s.at| - 1 := Top(s) + 1] + [-1], todo := s.todo - {c})
  }

  /** c is the child that the current node comes to next. */
  ghost predicate NextChild(g0: Shape, s: Stage, c: int) {
    && |s.stack| == |s.at| && s.stack != []
    && var cur := s.stack[|s.stack| - 1];
       cur in g0.kids && 0 <= Top(s) + 1 < |g0.kids[cur]| && c == g0.kids[cur][Top(s) + 1] && c in g0.kids
  }

  /** No node is twice among the children of nodes. */
  lemma OneParent(ns: Nodes, g: Shape, p: int, k: int, q: int, j: int)
    requires Well(ns, g) && p in ns && q in ns && 0 <= k < |g.kids[p]| && 0 <= j < |g.kids[q]|
    requires g.kids[p][k] == g.kids[q][j]
    ensures p == q && k == j
  {
    assert ChildAt(ns, g, p, k) && ChildAt(ns, g, q, j);
  }

  /** Other levels are not concerned when level m comes to its next child. */
  lemma LevelKept(ns: Nodes, g0: Shape, s: Stage, t: Stage, c: int, l: int)
    requires Well(ns, g0) && NextChild(g0, s, c) && 0 <= l < |s.stack| - 1 && LevelOk(g0, s, l) && Distinct(s.stack)
    requires |t.stack| == |t.at| >= |s.stack| && t.stack[l] == s.stack[l] && t.stack[l + 1] == s.stack[l + 1]
    requires t.at[l] == s.at[l]
    requires s.done <= t.done && forall x :: x in s.todo && x != c ==> x in t.todo
    ensures LevelOk(g0, t, l)
  {
    var n, cur := s.stack[l], s.stack[|s.stack| - 1];
    forall k | s.at[l] < k < |g0.kids[n]| ensures g0.kids[n][k] in t.todo {
      if g0.kids[n][k] == c {
        OneParent(ns, g0, n, k, cur, Top(s) + 1);
      }
    }
  }

  /** The current level moves on by one child. */
  lemma LevelMoved(ns: Nodes, g0: Shape, s: Stage, t: Stage, c: int)
    requires Well(ns, g0) && NextChild(g0, s, c) && LevelOk(g0, s, |s.stack| - 1)
    requires var m := |s.stack| - 1;
             && |t.stack| == |t.at| > m && t.stack[m] == s.stack[m] && t.at[m] == s.at[m] + 1
             && if |t.stack| == |s.stack| then c in t.done else t.stack[m + 1] == c
    requires s.done <= t.done && forall x :: x in s.todo && x != c ==> x in t.todo
    ensures LevelOk(g0, t, |s.stack| - 1) && c in s.todo
  {
    var m := |s.stack| - 1;
    var n := s.stack[m];
    assert Distinct(g0.kids[n]);
  }

  lemma TodoClosed(ns: Nodes, g0: Shape, s: Stage, c: int, n: int, x: int)
    requires Well(ns, g0) && NextChild(g0, s, c) && Sorted(g0, s) && Closed(g0, s)
    requires n in s.todo - {c} && n in g0.kids && x in g0.kids[n]
    ensures x in s.todo - {c}
  {
    hide Sorted;
    var cur := s.stack[|s.stack| - 1];
    assert cur in s.stack && cur !in s.todo by { OnStack(g0, s, |s.stack| - 1); }
    if x == c {
      var k :| 0 <= k < |g0.kids[n]| && g0.kids[n][k] == x;
      OneParent(ns, g0, n, k, cur, Top(s) + 1);
    }
  }

  lemma OnStack(g0: Shape, s: Stage, l: int)
    requires Sorted(g0, s) && 0 <= l < |s.stack|
    ensures s.stack[l] in s.stack && s.stack[l] in g0.kids && s.stack[l] !in s.todo && s.stack[l] !in s.done
  {
    var n := s.stack[l];
    assert n in s.stack;
  }

  lemma PassSets(ns: Nodes, g0: Shape, g: Shape, s: Stage, c: int)
    requires Well(ns, g0) && Sorted(g0, s) && Closed(g0, s) && Left(g0, g, s) && NextChild(g0, s, c) && c in s.todo
    requires g0.kids[c] == []
    ensures var t := Pass(s, c); Sorted(g0, t) && Closed(g0, t) && Left(g0, g, t)
  {
    hide Well;
    forall n, x | n in s.todo - {c} && n in g0.kids && x in g0.kids[n] ensures x in s.todo - {c} {
      TodoClosed(ns, g0, s, c, n, x);
    }
  }

  lemma EnterSets(ns: Nodes, g0: Shape, g: Shape, s: Stage, c: int)
    requires Well(ns, g0) && Sorted(g0, s) && Closed(g0, s) && Left(g0, g, s) && NextChild(g0, s, c) && c in s.todo
    ensures var t := Enter(s, c); Sorted(g0, t) && Closed(g0, t) && Left(g0, g, t)
  {
    hide Well;
    forall n, x | n in s.todo - {c} && n in g0.kids && x in g0.kids[n] ensures x in s.todo - {c} {
      TodoClosed(ns, g0, s, c, n, x);
    }
    assert forall n :: n in Enter(s, c).stack <==> n in s.stack || n == c;
  }

  lemma PassOk(ns: Nodes, g0: Shape, g: Shape, s: Stage, c: int)
    requires Well(ns, g0) && Ok(g0, g, s) && NextChild(g0, s, c) && g0.kids[c] == []
    ensures Ok(g0, g, Pass(s, c)) && c in s.todo
  {
    hide Well, LevelOk, Closed, Left, Children;
    var t, m := Pass(s, c), |s.stack| - 1;
    LevelMoved(ns, g0, s, t, c);
    forall l | 0 <= l < |t.stack| ensures LevelOk(g0, t, l) {
      if l < m {
        LevelKept(ns, g0, s, t, c, l);
      }
    }
    PassSets(ns, g0, g, s, c);
  }

  lemma EnterOk(ns: Nodes, g0: Shape, g: Shape, s: Stage, c: int)
    requires Well(ns, g0) && Ok(g0, g, s) && NextChild(g0, s, c)
    ensures Ok(g0, g, Enter(s, c)) && c in s.todo
  {
    hide Well, LevelOk, Closed, Left, Children;
    var t, m := Enter(s, c), |s.stack| - 1;
    LevelMoved(ns, g0, s, t, c);
    EnterSets(ns, g0, g, s, c);
    forall l | 0 <= l < |t.stack| ensures LevelOk(g0, t, l) {
      if l < m {
        LevelKept(ns, g0, s, t, c, l);
      } else if l > m {
        NotOwnChild(ns, g0, c);
        Entered(g0, s, c);
      }
    }
  }

  lemma Entered(g0: Shape, s: Stage, c: int)
    requires NextChild(g0, s, c) && c in s.todo && Closed(g0, s) && c !in g0.kids[c]
    ensures LevelOk(g0, Enter(s, c), |s.stack|)
  {
    forall k | 0 <= k < |g0.kids[c]| ensures g0.kids[c][k] in Enter(s, c).todo {
      var x := g0.kids[c][k];
      assert x in g0.kids[c] && x in s.todo;
    }
  }

  lemma NotOwnChild(ns: Nodes, g: Shape, n: int)
    requires Well(ns, g) && n in g.kids
    ensures n !in g.kids[n]
  {
    forall k | 0 <= k < |g.kids[n]| ensures g.kids[n][k] != n {
      assert ChildAt(ns, g, n, k);
    }
  }

  // ---------- wiping the current node ----------

  /** The tree with the first j children of cur uninstalled, cur being the last node on the stack. */
  ghost predicate Wiped(g0: Shape, g: Shape, s: Stage, cur: int, j: int) {
    && cur in g0.kids && 0 <= j <= |g0.kids[cur]| && Distinct(s.order) && Children(g0, s.order)
    && (forall n <- s.order :: n in s.done)
    && (forall n <- g.kids :: n in g0.kids && n !in s.order)
    && (forall n <- g.kids :: g.kids[n] ==
            if n == cur then g0.kids[cur][j..] else if n in s.done then [] else g0.kids[n])
    && (forall n <- g0.kids :: n !in s.order ==> n in g.kids)
    && (forall k :: 0 <= k < j ==> g0.kids[cur][k] in s.order)
  }

  lemma StartWipe(g0: Shape, g: Shape, s: Stage, cur: int)
    requires Ok(g0, g, s) && s.stack != [] && cur == s.stack[|s.stack| - 1]
    ensures Wiped(g0, g, s, cur, 0) && cur in g.kids && cur !in s.done && LevelOk(g0, s, |s.stack| - 1)
  {
    hide LevelOk, Children;
    OnStack(g0, s, |s.stack| - 1);
    assert g0.kids[cur][0..] == g0.kids[cur];
  }

  lemma CutFirst(g: Shape, cur: int, c: int)
    requires cur in g.kids && g.kids[cur] != [] && g.kids[cur][0] == c && c != cur
    ensures var g' := Cut(g, cur, c, 0);
            && (forall n :: n in g'.kids <==> n in g.kids && n != c)
            && (forall n <- g'.kids :: g'.kids[n] == if n == cur then g.kids[cur][1..] else g.kids[n])
  {
    assert Without(g.kids[cur], 0) == g.kids[cur][1..];
  }

  lemma WipeFirst(ns: Nodes, g0: Shape, g: Shape, s: Stage, cur: int, j: int, c: int)
    requires Well(ns, g0) && Wiped(g0, g, s, cur, j) && cur in g.kids && j < |g0.kids[cur]| && c == g0.kids[cur][j]
    requires c in s.done && c in g.kids
    ensures g.kids[cur] != [] && g.kids[cur][0] == c && c != cur && g.kids[c] == []
    ensures g.kids[cur][1..] == g0.kids[cur][j + 1..]
  {
    hide Children;
    NotOwnChild(ns, g0, cur);
    assert c in g0.kids[cur];
  }

  /** One more child uninstalled. */
  lemma WipeOne(ns: Nodes, g0: Shape, g: Shape, s: Stage, cur: int, j: int, c: int)
    requires Well(ns, g0) && Wiped(g0, g, s, cur, j) && cur in g.kids && j < |g0.kids[cur]| && c == g0.kids[cur][j]
    requires c in s.done && c in g.kids && Closed(g0, s)
    ensures g.kids[cur] != [] && g.kids[cur][0] == c && g.kids[c] == []
    ensures Wiped(g0, Cut(g, cur, c, 0), s.(order := s.order + [c]), cur, j + 1)
  {
    hide Children, Well, Cut, Closed;
    WipeFirst(ns, g0, g, s, cur, j, c);
    CutFirst(g, cur, c);
    var t := s.(order := s.order + [c]);
    assert forall n :: n in t.order <==> n in s.order || n == c;
    ChildrenSnoc(g0, s, c);
  }

  lemma ChildrenSnoc(g0: Shape, s: Stage, c: int)
    requires Children(g0, s.order) && Closed(g0, s) && c in s.done
    ensures Children(g0, s.order + [c])
  {
    var order := s.order + [c];
    forall k | 0 <= k < |order| && order[k] in g0.kids ensures forall x <- g0.kids[order[k]] :: x in order[..k] {
      if k < |s.order| {
        assert order[..k] == s.order[..k];
      } else {
        assert order[..k] == s.order;
      }
    }
  }

  ghost function Leave(s: Stage, cur: int): Stage
    requires s.stack != [] && |s.stack| == |s.at|
  {
    var m := |s.stack| - 1;
    s.(stack := s.stack[..m], at := s.at[..m], done := s.done + {cur})
  }

  /** All children uninstalled: the current node is done, and its parent is the current one. */
  lemma LeaveOk(ns: Nodes, g0: Shape, g: Shape, s: Stage, cur: int)
    requires Well(ns, g0) && |s.stack| == |s.at| && s.stack != [] && s.stack[0] == ROOT && cur == s.stack[|s.stack| - 1]
    requires forall l :: 0 <= l < |s.stack| ==> LevelOk(g0, s, l)
    requires Sorted(g0, s) && Closed(g0, s) && cur in g0.kids && Wiped(g0, g, s, cur, |g0.kids[cur]|)
    ensures Ok(g0, g, Leave(s, cur))
  {
    hide Well, Children;
    var t, m := Leave(s, cur), |s.stack| - 1;
    forall l | 0 <= l < |t.stack| ensures LevelOk(g0, t, l) {
      assert LevelOk(g0, s, l);
    }
    hide LevelOk;
    LeaveSets(g0, g, s, cur);
  }

  lemma LeaveSets(g0: Shape, g: Shape, s: Stage, cur: int)
    requires |s.stack| == |s.at| && s.stack != [] && cur == s.stack[|s.stack| - 1]
    requires Sorted(g0, s) && Closed(g0, s) && cur in g0.kids && Wiped(g0, g, s, cur, |g0.kids[cur]|)
    ensures var t := Leave(s, cur); Sorted(g0, t) && Closed(g0, t) && Left(g0, g, t)
  {
    LeaveSorted(g0, s, cur);
    LeaveClosed(g0, g, s, cur);
    hide *;
  }

  lemma LeaveSorted(g0: Shape, s: Stage, cur: int)
    requires |s.stack| == |s.at| && s.stack != [] && cur == s.stack[|s.stack| - 1] && Sorted(g0, s)
    ensures Sorted(g0, Leave(s, cur))
  {
    var t := Leave(s, cur);
    assert s.stack == t.stack + [cur];
    assert forall n :: n in s.stack <==> n in t.stack || n == cur;
  }

  lemma LeaveClosed(g0: Shape, g: Shape, s: Stage, cur: int)
    requires |s.stack| == |s.at| && s.stack != []
    requires Closed(g0, s) && cur in g0.kids && Wiped(g0, g, s, cur, |g0.kids[cur]|)
    ensures Closed(g0, Leave(s, cur)) && Left(g0, g, Leave(s, cur))
  {
    hide Children, Distinct;
    assert g0.kids[cur][|g0.kids[cur]|..] == [];
  }

  lemma MoreOrder(g0: Shape, s: Stage, c: int)
    requires Sorted(g0, s) && Closed(g0, s) && c in s.done
    ensures var t := s.(order := s.order + [c]); Sorted(g0, t) && Closed(g0, t)
  {
  }

  lemma LevelOrder(g0: Shape, s: Stage, t: Stage, l: int)
    requires 0 <= l < |s.stack| == |s.at| && t == s.(order := t.order) && LevelOk(g0, s, l)
    ensures LevelOk(g0, t, l)
  {
  }

  // ---------- the end ----------

  lemma {:induction false} AllDone(ns: Nodes, g0: Shape, s: Stage, n: int)
    requires Well(ns, g0) && ROOT in s.done && Closed(g0, s) && n in ns
    ensures n in s.done && (n != ROOT ==> n in s.order)
    decreases g0.depth[n]
  {
    if n != ROOT {
      var i := InParent(ns, g0, n);
      AllDone(ns, g0, s, ns[n].parent);
    }
  }

  lemma FirstChild(ns: Nodes, g: Shape, n: int)
    requires Well(ns, g) && n in ns
    ensures n in g.kids && (ns[n].child == NULL <==> g.kids[n] == [])
    ensures g.kids[n] != [] ==> ns[n].child == g.kids[n][0] && g.kids[n][0] in ns && g.kids[n][0] != ROOT
    ensures g.kids[n] != [] ==> ns[g.kids[n][0]].parent == n
  {
    if g.kids[n] != [] {
      assert ChildAt(ns, g, n, 0);
    }
  }

  lemma AtZero(ns: Nodes, g: Shape, n: int, i: int)
    requires Well(ns, g) && n in ns && 0 <= i < |g.kids[n]| && g.kids[n][i] == g.kids[n][0]
    ensures i == 0
  {
  }

  /** A child of the current node, all of whose children have been come to, is done. */
  lemma KidDone(g0: Shape, s: Stage, k: int)
    requires |s.stack| == |s.at| && s.stack != [] && LevelOk(g0, s, |s.stack| - 1)
    requires var cur := s.stack[|s.stack| - 1];
             cur in g0.kids && Top(s) == |g0.kids[cur]| - 1 && 0 <= k < |g0.kids[cur]|
    ensures g0.kids[s.stack[|s.stack| - 1]][k] in s.done
  {
  }

  lemma WipeAt(g0: Shape, g: Shape, s: Stage, cur: int, j: int)
    requires Wiped(g0, g, s, cur, j) && cur in g.kids
    ensures cur in g0.kids && 0 <= j <= |g0.kids[cur]| && g.kids[cur] == g0.kids[cur][j..]
  {
  }

  /** The inner loop: uninstalls the children of the current node. */
  method Wipe(t: Tree, cur: int, ghost ns0: Nodes, ghost g0: Shape, ghost s: Stage, ghost before: seq<int>)
    returns (ghost s': Stage)
    requires t.removed == before + s.order
    requires Well(t.ns, t.g) && Well(ns0, g0) && Ok(g0, t.g, s) && s.stack != [] && cur == s.stack[|s.stack| - 1]
    requires cur in g0.kids && Top(s) == |g0.kids[cur]| - 1 && cur in t.ns
    modifies t
    ensures Well(t.ns, t.g) && s' == s.(order := s'.order) && Ok(g0, t.g, Leave(s', cur)) && cur in t.ns
    ensures t.removed == before + s'.order
  {
    hide Well, LevelOk, Sorted, Closed, Children, Left, Wiped, Cut;
    s' := s;
    StartWipe(g0, t.g, s, cur);
    ghost var j := 0;
    while t.ns[cur].child != NULL
      invariant Well(t.ns, t.g) && cur in t.ns && cur in t.g.kids && t.removed == before + s'.order
      invariant 0 <= j <= |g0.kids[cur]| && Wiped(g0, t.g, s', cur, j) && s' == s.(order := s'.order)
      invariant Sorted(g0, s') && Closed(g0, s')
      decreases |g0.kids[cur]| - j
    {
      WipeAt(g0, t.g, s', cur, j);
      FirstChild(t.ns, t.g, cur);
      var c := t.ns[cur].child;
      assert c == g0.kids[cur][j];
      KidDone(g0, s, j);
      KeysOf(t.ns, t.g, c);
      WipeOne(ns0, g0, t.g, s', cur, j, c);
      MoreOrder(g0, s', c);
      ghost var ns, g := t.ns, t.g;
      var ok, i := t.Uninstall(c);
      AtZero(ns, g, cur, i);
      s', j := s'.(order := s'.order + [c]), j + 1;
      CutKeeps(g, cur, c);
      KeysOf(t.ns, t.g, cur);
    }
    WipeAt(g0, t.g, s', cur, j);
    FirstChild(t.ns, t.g, cur);
    forall l | 0 <= l < |s'.stack| ensures LevelOk(g0, s', l) {
      LevelOrder(g0, s, s', l);
    }
    LeaveOk(ns0, g0, t.g, s', cur);
  }

  lemma CutKeeps(g: Shape, cur: int, c: int)
    requires cur in g.kids && g.kids[cur] != [] && c != cur
    ensures cur in Cut(g, cur, c, 0).kids
  {
  }

  lemma KeysOf(ns: Nodes, g: Shape, n: int)
    requires Well(ns, g)
    ensures (n in ns <==> n in g.kids) && ROOT in ns
  {
  }

  // ---------- the outer loop ----------

  lemma Started(ns: Nodes, g: Shape)
    requires Well(ns, g)
    ensures Ok(g, g, Stage([ROOT], [-1], g.kids.Keys - {ROOT}, {}, []))
  {
    var s := Stage([ROOT], [-1], g.kids.Keys - {ROOT}, {}, []);
    forall n, c | n in g.kids && c in g.kids[n] ensures c in s.todo {
      var k :| 0 <= k < |g.kids[n]| && g.kids[n][k] == c;
      assert ChildAt(ns, g, n, k);
    }
    assert forall k :: 0 <= k < |g.kids[ROOT]| ==> g.kids[ROOT][k] in g.kids[ROOT];
    assert LevelOk(g, s, 0);
  }

  /** The node that the links lead to from the current one is the next of its children, if one is left. */
  lemma NextLink(ns: Nodes, g0: Shape, g: Shape, s: Stage, cur: int, next: int)
    requires Well(ns, g) && Ok(g0, g, s) && s.stack != [] && cur == s.stack[|s.stack| - 1]
    ensures cur in g0.kids && -1 <= Top(s) < |g0.kids[cur]| && cur in ns
    ensures next == (if Top(s) == -1 then NULL else g0.kids[cur][Top(s)]) ==>
              && (next != NULL <==> Top(s) >= 0) && (next != NULL ==> next in ns)
              && var n := if next == NULL then ns[cur].child else ns[next].next;
                 if Top(s) + 1 < |g0.kids[cur]| then n == g0.kids[cur][Top(s) + 1] && n in ns && n != NULL
                 else n == NULL
  {
    hide Well, LevelOk, Sorted, Closed, Left, Children;
    var k, m := Top(s), |s.stack| - 1;
    Uncut(g0, g, s, m);
    AtRange(g0, g, s, m);
    NthLink(ns, g, cur, k);
  }

  /** The links to the child after the k-th, and to the first one after k = -1. */
  lemma NthLink(ns: Nodes, g: Shape, cur: int, k: int)
    requires Well(ns, g) && cur in g.kids && -1 <= k < |g.kids[cur]|
    ensures cur in ns && (k >= 0 ==> g.kids[cur][k] in ns && g.kids[cur][k] != NULL)
    ensures var n := if k == -1 then ns[cur].child else ns[g.kids[cur][k]].next;
            if k + 1 < |g.kids[cur]| then n == g.kids[cur][k + 1] && n in ns && n != NULL else n == NULL
  {
    KeysOf(ns, g, cur);
    FirstChild(ns, g, cur);
    if k >= 0 {
      KidLink(ns, g, cur, k);
    }
    if k + 1 < |g.kids[cur]| {
      KidLink(ns, g, cur, k + 1);
    }
    hide Well, ChildAt, First;
  }

  lemma KidLink(ns: Nodes, g: Shape, cur: int, k: int)
    requires Well(ns, g) && cur in ns && 0 <= k < |g.kids[cur]|
    ensures var c := g.kids[cur][k];
            c in ns && c != NULL && ns[c].next == if k + 1 < |g.kids[cur]| then g.kids[cur][k + 1] else NULL
  {
    assert ChildAt(ns, g, cur, k);
    hide Well;
    if k + 1 < |g.kids[cur]| {
      assert g.kids[cur][k + 1..][0] == g.kids[cur][k + 1];
    }
  }

  lemma AtRange(g0: Shape, g: Shape, s: Stage, l: int)
    requires Ok(g0, g, s) && 0 <= l < |s.stack|
    ensures s.stack[l] in g0.kids && -1 <= s.at[l] < |g0.kids[s.stack[l]]|
  {
    hide Sorted, Closed, Left, Children;
    assert LevelOk(g0, s, l);
  }

  lemma Uncut(g0: Shape, g: Shape, s: Stage, l: int)
    requires Ok(g0, g, s) && 0 <= l < |s.stack|
    ensures s.stack[l] in g0.kids && s.stack[l] in g.kids && g.kids[s.stack[l]] == g0.kids[s.stack[l]]
  {
    hide LevelOk, Children;
    OnStack(g0, s, l);
  }

  lemma TodoUncut(g0: Shape, g: Shape, s: Stage, n: int)
    requires Ok(g0, g, s) && n in s.todo
    ensures n in g0.kids && n in g.kids && g.kids[n] == g0.kids[n]
  {
    hide LevelOk, Children;
  }

  /** Where the links lead from a node that is done: to its parent. */
  lemma BackLink(ns: Nodes, g0: Shape, g: Shape, s: Stage, cur: int)
    requires Well(ns, g) && |s.stack| == |s.at| && s.stack != [] && s.stack[0] == ROOT && cur == s.stack[|s.stack| - 1]
    requires LevelOk(g0, s, |s.stack| - 1) && (|s.stack| > 1 ==> LevelOk(g0, s, |s.stack| - 2))
    requires Ok(g0, g, Leave(s, cur)) && cur in ns
    ensures var t := Leave(s, cur);
            if t.stack == [] then ns[cur].parent == NULL
            else ns[cur].parent == t.stack[|t.stack| - 1] && t.stack[|t.stack| - 1] in g0.kids
                 && 0 <= Top(t) < |g0.kids[t.stack[|t.stack| - 1]]| && cur == g0.kids[t.stack[|t.stack| - 1]][Top(t)]
  {
    hide Ok;
    var t := Leave(s, cur);
    if t.stack == [] {
      assert cur == ROOT;
    } else {
      var l := |t.stack| - 1;
      Uncut(g0, g, t, l);
      assert ChildAt(ns, g, t.stack[l], t.at[l]);
    }
  }

  /** `uacpi_deinitialize_namespace`: ends, having uninstalled every node once, after all its children. */
  method Deinitialize(t: Tree) returns (ghost order: seq<int>)
    requires Well(t.ns, t.g)
    modifies t
    ensures Well(t.ns, t.g) && t.ns.Keys == {ROOT} && t.removed == old(t.removed) + order
    ensures Distinct(order) && Children(old(t.g), order) && forall n :: n in order <==> n in old(t.ns) && n != ROOT
  {
    hide Well, LevelOk, Sorted, Closed, Children, Left, Pass, Enter, Leave;
    ghost var ns0, g0 := t.ns, t.g;
    var cur, next, depth := ROOT, NULL, 1;
    ghost var s := Stage([ROOT], [-1], g0.kids.Keys - {ROOT}, {}, []);
    Started(ns0, g0);
    NextLink(t.ns, g0, t.g, s, cur, next);
    while depth > 0
      invariant Well(t.ns, t.g) && Ok(g0, t.g, s) && depth == |s.stack| && t.removed == old(t.removed) + s.order
      invariant depth > 0 ==> cur == s.stack[depth - 1] && cur in g0.kids && -1 <= Top(s) < |g0.kids[cur]|
      invariant depth > 0 ==> next == if Top(s) == -1 then NULL else g0.kids[cur][Top(s)]
      decreases |s.todo|, depth
    {
      NextLink(t.ns, g0, t.g, s, cur, next);
      next := if next == NULL then t.ns[cur].child else t.ns[next].next;
      if next == NULL {
        depth := depth - 1;
        ghost var was := s;
        s := Wipe(t, cur, ns0, g0, s, old(t.removed));
        Orders(g0, was, s);
        BackLink(t.ns, g0, t.g, s, cur);
        next := cur;
        cur := t.ns[cur].parent;
        LeaveIs(s, next);
        s := Leave(s, next);
      } else {
        KeysOf(t.ns, t.g, next);
        assert next in g0.kids by { InOld(g0, t.g, s, next); }
        FirstChild(t.ns, t.g, next);
        ghost var c := next;
        PassIs(s, c);
        if t.ns[next].child != NULL {
          EnterOk(ns0, g0, t.g, s, c);
          depth := depth + 1;
          cur := next;
          next := NULL;
          s := Enter(s, c);
        } else {
          TodoNext(g0, s, c);
          TodoUncut(g0, t.g, s, c);
          PassOk(ns0, g0, t.g, s, c);
          s := Pass(s, c);
        }
      }
    }
    order := s.order;
    Finished(ns0, g0, t.ns, t.g, s);
  }

  lemma Finished(ns0: Nodes, g0: Shape, ns: Nodes, g: Shape, s: Stage)
    requires Well(ns0, g0) && Well(ns, g) && Ok(g0, g, s) && s.stack == []
    ensures ns.Keys == {ROOT} && forall n :: n in s.order <==> n in ns0 && n != ROOT
  {
    forall n | n in ns0 ensures n in s.done && (n != ROOT ==> n in s.order) {
      AllDone(ns0, g0, s, n);
    }
    assert ROOT in g.kids && ROOT !in s.order;
    forall n | n in ns ensures n == ROOT {
      assert n in g.kids && n in g0.kids && n !in s.order;
    }
  }

  lemma InOld(g0: Shape, g: Shape, s: Stage, n: int)
    requires Ok(g0, g, s) && n in g.kids
    ensures n in g0.kids
  {
  }

  lemma TodoNext(g0: Shape, s: Stage, c: int)
    requires NextChild(g0, s, c) && LevelOk(g0, s, |s.stack| - 1)
    ensures c in s.todo
  {
  }

  lemma Orders(g0: Shape, s: Stage, t: Stage)
    requires |s.stack| == |s.at| && s.stack != [] && t == s.(order := t.order)
    requires forall l :: 0 <= l < |s.stack| ==> LevelOk(g0, s, l)
    ensures LevelOk(g0, t, |t.stack| - 1) && (|t.stack| > 1 ==> LevelOk(g0, t, |t.stack| - 2))
  {
    LevelOrder(g0, s, t, |t.stack| - 1);
    if |t.stack| > 1 {
      LevelOrder(g0, s, t, |t.stack| - 2);
    }
  }

  lemma LeaveIs(s: Stage, cur: int)
    requires s.stack != [] && |s.stack| == |s.at|
    ensures var t := Leave(s, cur);
            t.todo == s.todo && t.stack == s.stack[..|s.stack| - 1] && |t.at| == |t.stack| && t.order == s.order
  {
  }

  lemma PassIs(s: Stage, c: int)
    requires |s.stack| == |s.at| && s.stack != []
    ensures var t := Pass(s, c);
            && t.todo == s.todo - {c} && t.stack == s.stack && |t.at| == |s.at| && Top(t) == Top(s) + 1
            && t.order == s.order
    ensures var t := Enter(s, c);
            && t.todo == s.todo - {c} && t.stack == s.stack + [c] && |t.at| == |s.at| + 1 && Top(t) == -1
            && t.order == s.order
  {
  }
}
