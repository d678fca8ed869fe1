/** The namespace walk without recursion (src/acpi/uacpi/namespace.c), which finds its way back up by the
    parent links, calls the callbacks exactly as a recursive traversal does. */
module Walks {
  import opened Basics
  import opened Namespace
  import opened Traversal

  // ---------- the rounds of the loop ----------

  /** One round of the loop at a node, on the way down or back up; most rounds call a callback. */
  datatype Stop = Stop(node: int, depth: nat, up: bool)

  ghost function Stops(ns: Nodes, g: Shape, w: Walk, n: int, depth: nat): seq<Stop>
    requires Well(ns, g) && n in ns
    decreases g.height - g.depth[n], |g.kids[n]| + 1
  {
    KidsLevel(ns, g, n);
    [Stop(n, depth, false)]
    + ((if Enters(ns, w, n, depth) then StopsAll(ns, g, w, g.kids[n], g.depth[n] + 1, depth + 1) else [])
       + [Stop(n, depth, true)])
  }

  ghost function StopsAll(ns: Nodes, g: Shape, w: Walk, s: seq<int>, d: nat, depth: nat): seq<Stop>
    requires Well(ns, g) && Level(ns, g, s, d) && d > 0
    decreases g.height - d + 1, |s|
  {
    if s == [] then [] else
      assert s[0] in s;
      Stops(ns, g, w, s[0], depth) + StopsAll(ns, g, w, s[1..], d, depth)
  }

  /** The calls made in a round. */
  ghost function CallsAt(ns: Nodes, w: Walk, x: Stop): seq<Call> {
    if x.node in ns && Selected(ns, w, x.node) && (if x.up then w.ascending else w.descending)
    then [if x.up then Ascend(x.node, x.depth) else Descend(x.node, x.depth)] else []
  }

  ghost function Calls(ns: Nodes, w: Walk, xs: seq<Stop>): seq<Call> {
    if xs == [] then [] else CallsAt(ns, w, xs[0]) + Calls(ns, w, xs[1..])
  }

  lemma {:induction false} CallsConcat(ns: Nodes, w: Walk, xs: seq<Stop>, ys: seq<Stop>)
    ensures Calls(ns, w, xs + ys) == Calls(ns, w, xs) + Calls(ns, w, ys)
  {
    if xs == [] {
      assert xs + ys == ys;
    } else {
      assert (xs + ys)[1..] == xs[1..] + ys;
      CallsConcat(ns, w, xs[1..], ys);
    }
  }

  lemma CallsOne(ns: Nodes, w: Walk, x: Stop)
    ensures Calls(ns, w, [x]) == CallsAt(ns, w, x)
  {
    assert [x][1..] == [];
  }

  lemma {:induction false} CallsStops(ns: Nodes, g: Shape, w: Walk, n: int, depth: nat)
    requires Well(ns, g) && n in ns
    ensures Calls(ns, w, Stops(ns, g, w, n, depth)) == Visit(ns, g, w, n, depth)
    decreases g.height - g.depth[n], |g.kids[n]| + 1
  {
    hide Well, Level, Calls, Selected, Enters, StopsAll, VisitAll;
    KidsLevel(ns, g, n);
    Keys(ns, g, n);
    var inner := if Enters(ns, w, n, depth) then StopsAll(ns, g, w, g.kids[n], g.depth[n] + 1, depth + 1) else [];
    CallsConcat(ns, w, [Stop(n, depth, false)], inner + [Stop(n, depth, true)]);
    CallsConcat(ns, w, inner, [Stop(n, depth, true)]);
    CallsOne(ns, w, Stop(n, depth, false));
    CallsOne(ns, w, Stop(n, depth, true));
    if Enters(ns, w, n, depth) {
      CallsStopsAll(ns, g, w, g.kids[n], g.depth[n] + 1, depth + 1);
    } else {
      NoCalls(ns, w);
    }
  }

  lemma NoCalls(ns: Nodes, w: Walk)
    ensures Calls(ns, w, []) == []
  {
  }

  lemma Keys(ns: Nodes, g: Shape, n: int)
    requires Well(ns, g) && n in ns
    ensures n in g.kids && n in g.depth && n != NULL
  {
  }

  lemma {:induction false} CallsStopsAll(ns: Nodes, g: Shape, w: Walk, s: seq<int>, d: nat, depth: nat)
    requires Well(ns, g) && Level(ns, g, s, d) && d > 0
    ensures Calls(ns, w, StopsAll(ns, g, w, s, d, depth)) == VisitAll(ns, g, w, s, d, depth)
    decreases g.height - d + 1, |s|
  {
    if s != [] {
      assert s[0] in s;
      assert Level(ns, g, s[1..], d);
      CallsStops(ns, g, w, s[0], depth);
      CallsStopsAll(ns, g, w, s[1..], d, depth);
      CallsConcat(ns, w, Stops(ns, g, w, s[0], depth), StopsAll(ns, g, w, s[1..], d, depth));
    }
  }

  // ---------- what is left of the walk ----------

  /** The peers after x. */
  ghost function After(s: seq<int>, x: int): (r: seq<int>)
    ensures forall n <- r :: n in s
  {
    if s == [] then [] else if s[0] == x then s[1..] else After(s[1..], x)
  }

  lemma {:induction false} AfterAt(s: seq<int>, i: nat)
    requires Distinct(s) && i < |s|
    ensures After(s, s[i]) == s[i + 1..]
  {
    if i > 0 {
      AfterAt(s[1..], i - 1);
      assert s[1..][i..] == s[i + 1..];
    }
  }

  ghost function Peers(ns: Nodes, g: Shape, n: int): seq<int>
    requires Well(ns, g) && n in ns && n != ROOT
  {
    After(g.kids[ns[n].parent], n)
  }

  /** The next link leads to the first of the peers that are left, and from there to the others. */
  lemma PeerLinks(ns: Nodes, g: Shape, n: int)
    requires Well(ns, g) && n in ns && n != ROOT
    ensures ns[n].parent in ns && g.depth[n] == g.depth[ns[n].parent] + 1 && Level(ns, g, Peers(ns, g, n), g.depth[n])
    ensures ns[n].next == First(Peers(ns, g, n))
    ensures ns[n].next != NULL ==>
              && ns[n].next in ns && ns[n].next != ROOT && ns[ns[n].next].parent == ns[n].parent
              && g.depth[ns[n].next] == g.depth[n] && Peers(ns, g, ns[n].next) == Peers(ns, g, n)[1..]
              && Peers(ns, g, n) != []
    ensures ns[n].next == NULL ==> Peers(ns, g, n) == []
  {
    var p := ns[n].parent;
    var i := InParent(ns, g, n);
    AfterAt(g.kids[p], i);
    KidsLevel(ns, g, p);
    if i + 1 < |g.kids[p]| {
      assert ChildAt(ns, g, p, i + 1);
      AfterAt(g.kids[p], i + 1);
    }
  }

  lemma ChildLinks(ns: Nodes, g: Shape, n: int)
    requires Well(ns, g) && n in ns
    ensures ns[n].child == NULL <==> g.kids[n] == []
    ensures ns[n].child != NULL ==>
              var c := ns[n].child;
              && c in ns && c != ROOT && c == g.kids[n][0] && ns[c].parent == n && g.depth[c] == g.depth[n] + 1
              && Peers(ns, g, c) == g.kids[n][1..]
  {
    if g.kids[n] != [] {
      assert ChildAt(ns, g, n, 0);
      AfterAt(g.kids[n], 0);
    }
  }

  /** The rounds from node n on, n at this depth below the node the walk started from. */
  ghost function Rest(ns: Nodes, g: Shape, w: Walk, n: int, depth: nat, up: bool): seq<Stop>
    requires Well(ns, g) && n in ns && 1 <= depth <= g.depth[n]
    decreases depth
  {
    assert n != ROOT;
    PeerLinks(ns, g, n);
    (if up then [Stop(n, depth, true)] else Stops(ns, g, w, n, depth))
    + (StopsAll(ns, g, w, Peers(ns, g, n), g.depth[n], depth)
       + if depth == 1 then [] else Rest(ns, g, w, ns[n].parent, depth - 1, true))
  }

  lemma StopsAllFirst(ns: Nodes, g: Shape, w: Walk, s: seq<int>, d: nat, depth: nat)
    requires Well(ns, g) && Level(ns, g, s, d) && d > 0
    ensures s == [] ==> StopsAll(ns, g, w, s, d, depth) == []
    ensures s != [] ==> s[0] in ns && Level(ns, g, s[1..], d)
                        && StopsAll(ns, g, w, s, d, depth)
                           == Stops(ns, g, w, s[0], depth) + StopsAll(ns, g, w, s[1..], d, depth)
  {
    if s != [] {
      var x := s[0];
      assert x in s && x in ns;
    }
  }

  lemma Regroup(s: seq<Stop>, a: seq<Stop>, b: seq<Stop>, u: seq<Stop>, p: seq<Stop>)
    ensures (s + ((a + b) + u)) + p == s + (a + (b + (u + p)))
  {
  }

  lemma StopsSplit(ns: Nodes, g: Shape, w: Walk, n: int, depth: nat)
    requires Well(ns, g) && n in ns
    ensures Level(ns, g, g.kids[n], g.depth[n] + 1)
    ensures Stops(ns, g, w, n, depth) == [Stop(n, depth, false)]
              + ((if Enters(ns, w, n, depth) then StopsAll(ns, g, w, g.kids[n], g.depth[n] + 1, depth + 1) else [])
                 + [Stop(n, depth, true)])
  {
    KidsLevel(ns, g, n);
  }

  lemma RestSplit(ns: Nodes, g: Shape, w: Walk, n: int, depth: nat, up: bool)
    requires Well(ns, g) && n in ns && 1 <= depth <= g.depth[n]
    ensures n != ROOT && ns[n].parent in ns && g.depth[n] == g.depth[ns[n].parent] + 1
    ensures Level(ns, g, Peers(ns, g, n), g.depth[n])
    ensures Rest(ns, g, w, n, depth, up) ==
              (if up then [Stop(n, depth, true)] else Stops(ns, g, w, n, depth))
              + (StopsAll(ns, g, w, Peers(ns, g, n), g.depth[n], depth)
                 + if depth == 1 then [] else Rest(ns, g, w, ns[n].parent, depth - 1, true))
  {
    PeerLinks(ns, g, n);
  }

  /** A round on the way down. */
  lemma RestDown(ns: Nodes, g: Shape, w: Walk, n: int, depth: nat)
    requires Well(ns, g) && n in ns && 1 <= depth <= g.depth[n]
    ensures var c := ns[n].child;
            && (c != NULL ==> c in ns && g.depth[c] == g.depth[n] + 1)
            && Rest(ns, g, w, n, depth, false) == [Stop(n, depth, false)] +
                 if Enters(ns, w, n, depth) && c != NULL then Rest(ns, g, w, c, depth + 1, false)
                 else Rest(ns, g, w, n, depth, true)
  {
    hide Well, Level, Stops, StopsAll, Rest, Peers, Enters;
    Keys(ns, g, n);
    StopsSplit(ns, g, w, n, depth);
    RestSplit(ns, g, w, n, depth, false);
    RestSplit(ns, g, w, n, depth, true);
    ChildLinks(ns, g, n);
    StopsAllFirst(ns, g, w, g.kids[n], g.depth[n] + 1, depth + 1);
    var c := ns[n].child;
    var later := StopsAll(ns, g, w, Peers(ns, g, n), g.depth[n], depth)
                 + if depth == 1 then [] else Rest(ns, g, w, ns[n].parent, depth - 1, true);
    if Enters(ns, w, n, depth) && c != NULL {
      Keys(ns, g, c);
      RestSplit(ns, g, w, c, depth + 1, false);
      Regroup([Stop(n, depth, false)], Stops(ns, g, w, c, depth + 1),
              StopsAll(ns, g, w, g.kids[n][1..], g.depth[n] + 1, depth + 1),
              [Stop(n, depth, true)], later);
    } else {
      Regroup([Stop(n, depth, false)], [], [], [Stop(n, depth, true)], later);
      Empties([Stop(n, depth, true)], later);
    }
  }

  lemma Empties(u: seq<Stop>, p: seq<Stop>)
    ensures [] + ([] + (u + p)) == u + p && ([] + []) + u == [] + u
  {
  }

  /** A round on the way back up. */
  lemma RestUp(ns: Nodes, g: Shape, w: Walk, n: int, depth: nat)
    requires Well(ns, g) && n in ns && 1 <= depth <= g.depth[n]
    ensures var c, p := ns[n].next, ns[n].parent;
            && n != ROOT && p in ns && g.depth[n] == g.depth[p] + 1
            && (c != NULL ==> c in ns && g.depth[c] == g.depth[n] && ns[c].parent == p)
            && Rest(ns, g, w, n, depth, true) == [Stop(n, depth, true)] +
                 if c != NULL then Rest(ns, g, w, c, depth, false)
                 else if depth == 1 then []
                 else Rest(ns, g, w, p, depth - 1, true)
  {
    hide Well, Level, Stops, StopsAll, Rest, Peers;
    Keys(ns, g, n);
    RestSplit(ns, g, w, n, depth, true);
    PeerLinks(ns, g, n);
    Keys(ns, g, ns[n].parent);
    StopsAllFirst(ns, g, w, Peers(ns, g, n), g.depth[n], depth);
    if ns[n].next != NULL {
      Keys(ns, g, ns[n].next);
      RestSplit(ns, g, w, ns[n].next, depth, false);
    }
  }

  /** The calls made of the whole walk: all of them, or those up to the first that breaks it off. */
  ghost predicate UpToBreak(calls: seq<Call>, whole: seq<Call>, breaks: set<Call>) {
    && calls <= whole && (forall i :: 0 <= i < |calls| - 1 ==> calls[i] !in breaks)
    && (calls != whole ==> calls != [] && calls[|calls| - 1] in breaks)
  }

  lemma WalkLaws(ns: Nodes, g: Shape, w: Walk, top: int)
    requires Well(ns, g) && top in ns && w.maxDepth > 0
    ensures top in g.kids && top in g.depth && Level(ns, g, g.kids[top], g.depth[top] + 1)
    ensures var whole := VisitAll(ns, g, w, g.kids[top], g.depth[top] + 1, 1);
            && (forall c :: multiset(whole)[c] == if Called(ns, w, top, c) then 1 else 0) && Ordered(ns, g, whole)
  {
    hide Well, Level, VisitAll, Called, Ordered;
    Keys(ns, g, top);
    VisitAllOrdered(ns, g, w, top, 0, 1);
    assert g.kids[top][0..] == g.kids[top];
    WalkCount(ns, g, w, top, Descend(top, 0));
    forall c ensures multiset(VisitAll(ns, g, w, g.kids[top], g.depth[top] + 1, 1))[c]
                  == if Called(ns, w, top, c) then 1 else 0
    {
      WalkCount(ns, g, w, top, c);
    }
  }

  /** The call of a round that breaks off the walk is the next of the whole walk. */
  lemma Broken(ns: Nodes, w: Walk, before: seq<Stop>, later: seq<Stop>, c: Call)
    requires later != [] && CallsAt(ns, w, later[0]) == [c] && c in w.breaks
    requires forall b <- Calls(ns, w, before) :: b !in w.breaks
    ensures UpToBreak(Calls(ns, w, before) + [c], Calls(ns, w, before + later), w.breaks)
  {
    var a := Calls(ns, w, before);
    CallsConcat(ns, w, before, later);
    assert a + Calls(ns, w, later) == (a + [c]) + Calls(ns, w, later[1..]);
  }

  /** `uacpi_namespace_do_for_each_child` without locking. */
  method ForEachChild(ns: Nodes, ghost g: Shape, top: int, w: Walk)
    returns (ok: bool, calls: seq<Call>, ghost whole: seq<Call>)
    requires Well(ns, g) && (top == NULL || top in ns)
    ensures ok <==> top != NULL && w.maxDepth != 0 && (w.descending || w.ascending)
    ensures !ok ==> calls == []
    ensures ok ==> forall c :: multiset(whole)[c] == if Called(ns, w, top, c) then 1 else 0
    ensures ok ==> Ordered(ns, g, whole)
    ensures ok ==> UpToBreak(calls, whole, w.breaks)
  {
    hide Well, Level, Rest, StopsAll, VisitAll, Calls, Called, Ordered;
    calls, whole := [], [];
    ok := top != NULL && w.maxDepth != 0 && (w.descending || w.ascending);
    if !ok {
      return;
    }
    Keys(ns, g, top);
    KidsLevel(ns, g, top);
    whole := VisitAll(ns, g, w, g.kids[top], g.depth[top] + 1, 1);
    WalkLaws(ns, g, w, top);
    ghost var all, stops := StopsAll(ns, g, w, g.kids[top], g.depth[top] + 1, 1), [];
    CallsStopsAll(ns, g, w, g.kids[top], g.depth[top] + 1, 1);
    NoCalls(ns, w);
    ChildLinks(ns, g, top);
    StopsAllFirst(ns, g, w, g.kids[top], g.depth[top] + 1, 1);
    if ns[top].child == NULL {
      return;
    }
    var node, depth, up := ns[top].child, 1, false;
    Keys(ns, g, node);
    RestSplit(ns, g, w, node, 1, false);
    while depth > 0
      invariant 0 <= depth && calls == Calls(ns, w, stops) && forall c <- calls :: c !in w.breaks
      invariant depth > 0 ==> node in ns && node in g.depth && depth <= g.depth[node]
      invariant depth > 0 ==> all == stops + Rest(ns, g, w, node, depth, up)
      invariant depth == 0 ==> all == stops
      decreases |all| - |stops|
    {
      Keys(ns, g, node);
      ghost var stop := Stop(node, depth, up);
      CallsConcat(ns, w, stops, [stop]);
      CallsOne(ns, w, stop);
      RestDown(ns, g, w, node, depth);
      RestUp(ns, g, w, node, depth);
      ghost var before, later := stops, Rest(ns, g, w, node, depth, up);
      stops := stops + [stop];
      var goOn := true;
      if ns[node].kind in w.mask {
        if w.permanentOnly && ns[node].temporary {
          goOn := false;
        } else if up {
          if w.ascending {
            calls := calls + [Ascend(node, depth)];
            if Ascend(node, depth) in w.breaks {
              Broken(ns, w, before, later, Ascend(node, depth));
              return;
            }
          }
        } else if w.descending {
          calls := calls + [Descend(node, depth)];
          if Descend(node, depth) in w.breaks {
            Broken(ns, w, before, later, Descend(node, depth));
            return;
          }
          goOn := node !in w.peers;
        }
      }
      if up {
        if ns[node].next != NULL {
          node, up := ns[node].next, false;
        } else {
          depth, node := depth - 1, ns[node].parent;
        }
      } else if goOn && depth != w.maxDepth && ns[node].child != NULL {
        node, depth := ns[node].child, depth + 1;
      } else {
        up := true;
      }
      if depth > 0 {
        Keys(ns, g, node);
      }
    }
  }
}
