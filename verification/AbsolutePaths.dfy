/** The absolute path of a node (src/acpi/uacpi/namespace.c), generated back to front, and the way back
    from the path to the node. */
module AbsolutePaths {
  import opened Namespace
  import opened Names
  import opened Resolvers

  /** The names from the root down to n. */
  ghost function Segs(ns: Nodes, g: Shape, n: int): (s: seq<string>)
    requires Well(ns, g) && n in ns
    ensures |s| == g.depth[n]
    decreases g.depth[n]
  {
    if n == ROOT then [] else ParentAbove(ns, g, n); Segs(ns, g, ns[n].parent) + [ns[n].name]
  }

  ghost function PathText(ns: Nodes, g: Shape, n: int): string
    requires Well(ns, g) && n in ns
  {
    Text(NameString(true, 0, Segs(ns, g, n)))
  }

  /** `uacpi_namespace_node_depth` */
  method NodeDepth(ns: Nodes, ghost g: Shape, n: int) returns (d: nat)
    requires Well(ns, g) && n in ns
    ensures d == g.depth[n]
  {
    hide Well;
    d := 0;
    var m := n;
    Links(ns, g, m);
    while ns[m].parent != NULL
      invariant m in ns && m in g.depth && d + g.depth[m] == g.depth[n] && (ns[m].parent != NULL ==> m != ROOT)
      decreases g.depth[m]
    {
      Links(ns, g, m);
      m, d := ns[m].parent, d + 1;
      Links(ns, g, m);
    }
    RootDepth(ns, g, m);
  }

  lemma RootDepth(ns: Nodes, g: Shape, m: int)
    requires Well(ns, g) && m in ns && ns[m].parent == NULL
    ensures m == ROOT && g.depth[m] == 0
  {
  }

  ghost predicate FourEach(ns: Nodes) { forall n <- ns :: |ns[n].name| == 4 }

  ghost function JoinLen(k: nat): nat { if k == 0 then 0 else 5 * k - 1 }

  /** The part of the path that is in place once the climb has reached cur, with its terminator. */
  ghost function Tail(cur: int, done: seq<string>): string {
    var joined := Join(done) + "\0";
    if done == [] || cur == ROOT then joined else "." + joined
  }

  /** Puts a name in front of what is in place, and a dot unless the parent is the root. */
  method PlaceName(path: array<char>, end: nat, name: string, parent: int) returns (offset: nat)
    requires |name| == 4 && end <= path.Length && (if parent == ROOT then 5 else 6) <= end
    modifies path
    ensures offset == (if parent == ROOT then end - 4 else end - 5) && path[0] == old(path[0])
    ensures var rest := name + old(path[end..]); path[offset..] == if parent == ROOT then rest else "." + rest
  {
    offset := end - 4;
    forall k | 0 <= k < 4 {
      path[offset + k] := name[k];
    }
    ghost var rest := path[offset..];
    assert rest == name + old(path[end..]);
    if parent != ROOT {
      offset := offset - 1;
      path[offset] := '.';
      assert path[offset..] == "." + rest;
    }
  }

  /** `uacpi_namespace_node_generate_absolute_path`: the buffer holds the path and its terminator and
      nothing else. */
  method GenerateAbsolutePath(ns: Nodes, ghost g: Shape, node: int) returns (path: array<char>)
    requires Well(ns, g) && node in ns && FourEach(ns)
    ensures fresh(path) && path[..] == PathText(ns, g, node) + "\0"
  {
    hide Well, Segs, Join, FourEach, Text;
    var d := NodeDepth(ns, g, node);
    var depth := d + 1;
    var size := 1 + (depth - 1) * 4 + (if depth > 2 then depth - 2 else 0) + 1;
    path := new char[size](_ => ' ');
    path[0] := '\\';
    var offset := size - 1;
    path[offset] := '\0';
    var cur := node;
    ghost var done: seq<string> := [];
    assert Tail(cur, done) == "\0" by { NoneJoined(cur); }
    LinksDepth(ns, g, node);
    hide Tail;
    assert Segs(ns, g, cur) + done == Segs(ns, g, node);
    while cur != ROOT
      invariant cur in ns && cur in g.depth && Segs(ns, g, cur) + done == Segs(ns, g, node)
      invariant path.Length == size && path[0] == '\\' && offset == 1 + JoinLen(g.depth[cur]) <= size - 1
      invariant path[offset..] == Tail(cur, done)
      decreases g.depth[cur]
    {
      Links(ns, g, cur);
      SegsStep(ns, g, cur, done);
      TailStep(ns[cur].name, cur, ns[cur].parent, done);
      NameSize(ns, cur);
      LinksDepth(ns, g, ns[cur].parent);
      offset := PlaceName(path, offset, ns[cur].name, ns[cur].parent);
      done := [ns[cur].name] + done;
      cur := ns[cur].parent;
    }
    LinksDepth(ns, g, cur);
    NoSegs(ns, g, cur, done);
    WholePath(path[..], done);
  }

  lemma WholePath(p: string, done: seq<string>)
    requires |p| > 0 && p[0] == '\\' && p[1..] == Tail(ROOT, done)
    ensures p == Text(NameString(true, 0, done)) + "\0"
  {
    assert p == ['\\'] + p[1..];
  }

  lemma LinksDepth(ns: Nodes, g: Shape, n: int)
    requires Well(ns, g) && n in ns
    ensures n in g.depth && (n == ROOT <==> g.depth[n] == 0)
  {
    if n != ROOT {
      ParentAbove(ns, g, n);
    }
  }

  lemma NameSize(ns: Nodes, n: int)
    requires FourEach(ns) && n in ns
    ensures |ns[n].name| == 4
  {
  }

  lemma SegsStep(ns: Nodes, g: Shape, n: int, done: seq<string>)
    requires Well(ns, g) && n in ns && n != ROOT
    ensures ns[n].parent in ns && Segs(ns, g, n) + done == Segs(ns, g, ns[n].parent) + ([ns[n].name] + done)
  {
    ParentAbove(ns, g, n);
  }

  lemma TailStep(name: string, cur: int, parent: int, done: seq<string>)
    requires cur != ROOT
    ensures Tail(parent, [name] + done) ==
            if parent == ROOT then name + Tail(cur, done)
            else "." + (name + Tail(cur, done))
  {
    assert ([name] + done)[1..] == done;
    assert Join([name] + done) + "\0" == name + Tail(cur, done);
  }

  lemma NoneJoined(cur: int)
    ensures Tail(cur, []) == "\0"
  {
  }

  lemma NoSegs(ns: Nodes, g: Shape, n: int, done: seq<string>)
    requires Well(ns, g) && n == ROOT
    ensures n in ns && Segs(ns, g, n) + done == done
  {
  }

  // ---------- from the path back to the node ----------

  ghost predicate UniqueNames(ns: Nodes, g: Shape)
    requires Well(ns, g)
  {
    forall n <- ns, i, j :: 0 <= i < j < |g.kids[n]| && g.kids[n][i] in ns && g.kids[n][j] in ns ==>
      ns[g.kids[n][i]].name != ns[g.kids[n][j]].name
  }

  ghost predicate ValidNames(ns: Nodes) { forall n <- ns :: n != ROOT ==> ValidSeg(ns[n].name) }

  lemma {:induction false} FindNth(ns: Nodes, s: seq<int>, i: nat)
    requires i < |s| && forall k :: 0 <= k < |s| ==> s[k] in ns && s[k] != NULL
    requires forall k, l :: 0 <= k < l < |s| ==> ns[s[k]].name != ns[s[l]].name
    ensures FindIn(ns, s, ns[s[i]].name) == s[i]
  {
    if i > 0 {
      FindNth(ns, s[1..], i - 1);
    }
  }

  lemma FindSelf(ns: Nodes, g: Shape, n: int)
    requires Well(ns, g) && UniqueNames(ns, g) && n in ns && n != ROOT
    ensures ns[n].parent in g.kids && Find(ns, g, ns[n].parent, ns[n].name) == n
  {
    var i := InParent(ns, g, n);
    var s := g.kids[ns[n].parent];
    forall k | 0 <= k < |s| ensures s[k] in ns && s[k] != NULL {
      assert ChildAt(ns, g, ns[n].parent, k);
    }
    FindNth(ns, s, i);
  }

  lemma {:induction false} DownSnoc(ns: Nodes, g: Shape, p: int, segs: seq<string>, name: string)
    requires Well(ns, g) && p in ns
    ensures var q := Down(ns, g, p, segs);
            Down(ns, g, p, segs + [name]) == if q == NULL || q !in g.kids then NULL else Find(ns, g, q, name)
    decreases |segs|
  {
    hide Well, Find;
    WellRoot(ns, g);
    Links(ns, g, p);
    if segs == [] {
      assert segs + [name] == [name] && [name][1..] == [];
      FoundIn(ns, g, p, name);
    } else {
      assert (segs + [name])[1..] == segs[1..] + [name];
      FoundIn(ns, g, p, segs[0]);
      var r := Find(ns, g, p, segs[0]);
      if r != NULL {
        DownSnoc(ns, g, r, segs[1..], name);
      }
    }
  }

  lemma {:induction false} DownSegs(ns: Nodes, g: Shape, n: int)
    requires Well(ns, g) && UniqueNames(ns, g) && n in ns
    ensures Down(ns, g, ROOT, Segs(ns, g, n)) == n
    decreases g.depth[n]
  {
    hide UniqueNames, Find;
    if n != ROOT {
      ParentAbove(ns, g, n);
      DownSegs(ns, g, ns[n].parent);
      DownSnoc(ns, g, ROOT, Segs(ns, g, ns[n].parent), ns[n].name);
      FindSelf(ns, g, n);
    }
  }

  lemma {:induction false} SegsValid(ns: Nodes, g: Shape, n: int)
    requires Well(ns, g) && ValidNames(ns) && n in ns
    ensures AllValid(Segs(ns, g, n))
    decreases g.depth[n]
  {
    if n != ROOT {
      ParentAbove(ns, g, n);
      SegsValid(ns, g, ns[n].parent);
    }
  }

  /** The absolute path of a node resolves to that node, from any scope, with or without the search above. */
  lemma PathResolves(ns: Nodes, g: Shape, n: int, scope: int, above: bool)
    requires Well(ns, g) && UniqueNames(ns, g) && ValidNames(ns) && n in ns && scope in ns
    ensures TextLookup(ns, g, PathText(ns, g, n), scope, above) == Found(n)
  {
    hide Well, Down, Segs, UniqueNames, ValidNames, ValidSeg, TextLookup;
    var name := NameString(true, 0, Segs(ns, g, n));
    SegsValid(ns, g, n);
    TextMeaning(ns, g, name, scope);
    TextBelow(ns, g, name, scope);
    DownSegs(ns, g, n);
    WellRoot(ns, g);
    RootBase(ns, g, scope);
  }

  lemma RootBase(ns: Nodes, g: Shape, scope: int)
    requires Well(ns, g) && scope in ns
    ensures Base(ns, g, scope, "\\", false) == ROOT
  {
    assert "\\"[1..] == "";
  }
}
