/** Names for new objects (src/acpi/uacpi/interpreter.c, `resolve_name_string` with
    RESOLVE_CREATE_LAST_NAMESEG_FAIL_IF_EXISTS): the place that the bytes reserve, and that the same bytes lead
    to the new node once it is installed there. */
module Creation {
  import opened Namespace
  import opened Names
  import opened Resolvers
  import opened NamespaceTree

  datatype Place = Place(parent: int, name: string) | Exists | Missing | Malformed

  // ---------- the place of a new node ----------

  ghost function PlaceBelow(ns: Nodes, g: Shape, p: int, s: string, n: nat): Place
    requires Well(ns, g) && p in ns && 0 < 4 * n <= |s|
    decreases n
  {
    if !ValidSeg(s[..4]) then Malformed
    else
      var r := Find(ns, g, p, s[..4]);
      if n == 1 then (if r == NULL then Place(p, s[..4]) else Exists)
      else if r == NULL then Missing
      else PlaceBelow(ns, g, r, s[4..], n - 1)
  }

  ghost function PlaceFor(ns: Nodes, g: Shape, code: string, scope: int): Place
    requires Well(ns, g) && scope in ns
  {
    var p := PrefixLen(code);
    var start := Base(ns, g, scope, code[..p], false);
    var h := ReadHead(code[p..]);
    if start == NULL || h.Bad? || h.n == 0 then Malformed else PlaceBelow(ns, g, start, code[p + h.skip..], h.n)
  }

  /** `resolve_name_string` for a name that must not exist yet; `end` is the new code offset. */
  method ResolveForCreation(ns: Nodes, ghost g: Shape, code: string, offset: nat, scope: int)
    returns (r: Place, end: nat)
    requires Well(ns, g) && scope in ns && offset <= |code|
    ensures r == PlaceFor(ns, g, code[offset..], scope)
    ensures !r.Malformed? ==> end == offset + NameLen(code[offset..])
  {
    hide Well, Find, ReadHead, PrefixLen, Base, ValidSeg, PlaceBelow;
    r, end := Malformed, 0;
    var s := code[offset..];
    var ok, cur, i := FollowPrefix(ns, g, s, scope);
    if !ok {
      return;
    }
    var h := ReadHead(s[i..]);
    if h.Bad? || h.n == 0 {
      return;
    }
    end := offset + i + h.skip + 4 * h.n;
    r := PlaceSegments(ns, g, cur, s[i + h.skip..], h.n);
  }

  /** The loop over the segments. */
  method PlaceSegments(ns: Nodes, ghost g: Shape, start: int, s: string, n: nat) returns (r: Place)
    requires Well(ns, g) && start in ns && 0 < 4 * n <= |s|
    ensures r == PlaceBelow(ns, g, start, s, n)
  {
    hide Well, Find, ValidSeg;
    var cur, c, left := start, 0, n;
    assert s[0..] == s;
    while true
      invariant 0 < left && 0 <= c && c + 4 * left <= |s| && cur in ns
      invariant PlaceBelow(ns, g, start, s, n) == PlaceBelow(ns, g, cur, s[c..], left)
      decreases left
    {
      var name := s[c..c + 4];
      assert s[c..][..4] == name && s[c..][4..] == s[c + 4..];
      if !ValidSeg(name) {
        return Malformed;
      }
      WellRoot(ns, g);
      FoundIn(ns, g, cur, name);
      var next := FindSubNode(ns, g, cur, name);
      if left == 1 {
        return if next == NULL then Place(cur, name) else Exists;
      }
      if next == NULL {
        return Missing;
      }
      cur, c, left := next, c + 4, left - 1;
    }
  }

  // ---------- which place it is ----------

  /** What a path to a new node comes to: all but its last name are followed, and the last one must be new. */
  ghost function Spot(ns: Nodes, g: Shape, p: int, segs: seq<string>): Place
    requires Well(ns, g) && p in ns && segs != []
  {
    var last := segs[|segs| - 1];
    var q := Down(ns, g, p, segs[..|segs| - 1]);
    if q !in ns then Missing else if Lacks(ns, q, last) then Place(q, last) else Exists
  }

  lemma SpotStep(ns: Nodes, g: Shape, p: int, segs: seq<string>)
    requires Well(ns, g) && p in ns && segs != []
    ensures p in g.kids
    ensures var r := Find(ns, g, p, segs[0]);
            Spot(ns, g, p, segs) == if |segs| == 1 then (if r == NULL then Place(p, segs[0]) else Exists)
                                    else if r !in ns then Missing
                                    else Spot(ns, g, r, segs[1..])
  {
    hide Well, Find;
    WellRoot(ns, g);
    FoundChild(ns, g, p, segs[0]);
    if |segs| == 1 {
      assert segs[..0] == [];
    } else {
      assert segs[..|segs| - 1][1..] == segs[1..][..|segs| - 2];
    }
  }

  lemma {:induction false} PlaceFlat(ns: Nodes, g: Shape, p: int, segs: seq<string>, rest: string)
    requires Well(ns, g) && p in ns && AllValid(segs) && segs != []
    ensures 4 * |segs| <= |Flat(segs) + rest| && PlaceBelow(ns, g, p, Flat(segs) + rest, |segs|) == Spot(ns, g, p, segs)
    decreases |segs|
  {
    hide Well, Find, Flat, Spot, ValidSeg;
    FlatSize(segs);
    FlatFirst(segs, rest);
    SpotStep(ns, g, p, segs);
    WellRoot(ns, g);
    FoundIn(ns, g, p, segs[0]);
    var r := Find(ns, g, p, segs[0]);
    if |segs| > 1 && r != NULL {
      PlaceFlat(ns, g, r, segs[1..], rest);
    }
  }

  /** The bytes of a name reserve the place it means, or are refused for the reason that holds. */
  lemma PlaceMeant(ns: Nodes, g: Shape, name: NameString, multi: bool, rest: string, scope: int)
    requires Well(ns, g) && scope in ns && name.Wf() && HasForm(name, multi)
    ensures var start := Base(ns, g, scope, name.Prefix(), false);
            PlaceFor(ns, g, Encode(name, multi) + rest, scope)
            == if start == NULL || name.segs == [] then Malformed else Spot(ns, g, start, name.segs)
  {
    hide Well, Encode, Find, ReadHead, PrefixLen, Base, PlaceBelow, Spot, ValidSeg, Flat;
    EncodedHead(name, multi, rest);
    WellRoot(ns, g);
    var start := Base(ns, g, scope, name.Prefix(), false);
    if start != NULL && name.segs != [] {
      PlaceFlat(ns, g, start, name.segs, rest);
    }
  }

  // ---------- what a new node changes ----------

  lemma {:induction false} FindInSame(ns: Nodes, ns': Nodes, s: seq<int>, name: string)
    requires forall i :: 0 <= i < |s| ==> s[i] in ns && s[i] in ns' && ns'[s[i]].name == ns[s[i]].name
    ensures FindIn(ns', s, name) == FindIn(ns, s, name)
  {
    if s != [] {
      FindInSame(ns, ns', s[1..], name);
    }
  }

  lemma {:induction false} FindInMore(ns: Nodes, s: seq<int>, n: int, name: string)
    requires n in ns && n != NULL
    ensures FindIn(ns, s + [n], name)
         == if FindIn(ns, s, name) != NULL then FindIn(ns, s, name) else if ns[n].name == name then n else NULL
  {
    if s == [] {
      assert FindIn(ns, [n][1..], name) == NULL;
    } else {
      assert (s + [n])[1..] == s[1..] + [n];
      FindInMore(ns, s[1..], n, name);
    }
  }

  /** The nodes and the shape after node n with the given name is installed below p. */
  ghost predicate Added(ns: Nodes, g: Shape, p: int, n: int, name: string, ns': Nodes, g': Shape) {
    && Well(ns, g) && Well(ns', g') && p in ns && n !in ns && n != NULL && n in ns' && ns'[n].name == name
    && g' == Grown(g, p, n)
    && forall m <- ns :: m in ns' && ns'[m].name == ns[m].name && ns'[m].parent == ns[m].parent
  }

  lemma InstalledAdds(ns: Nodes, g: Shape, p: int, n: int, node: Node)
    requires Well(ns, g) && p in ns && n !in ns && n != NULL && (Last(g, p) == NULL || Last(g, p) in ns)
    ensures Added(ns, g, p, n, node.name, Linked(ns, p, n, Last(g, p), node), Grown(g, p, n))
  {
    hide Well, Grown, Linked, Last;
    WellKeys(ns, g);
    LinkedWell(ns, g, p, n, node);
    LinkedNames(ns, p, n, Last(g, p), node);
  }

  lemma KidsIn(ns: Nodes, g: Shape, m: int)
    requires Well(ns, g) && m in ns
    ensures m in g.kids && forall i :: 0 <= i < |g.kids[m]| ==> g.kids[m][i] in ns
  {
    forall i | 0 <= i < |g.kids[m]| ensures g.kids[m][i] in ns {
      assert ChildAt(ns, g, m, i);
    }
  }

  /** Only the new name below p is found where it was not. */
  lemma AddedFind(ns: Nodes, g: Shape, p: int, n: int, name: string, ns': Nodes, g': Shape, m: int, x: string)
    requires Added(ns, g, p, n, name, ns', g') && m in ns
    ensures m in g.kids && m in g'.kids
    ensures Find(ns', g', m, x) == if m == p && Find(ns, g, p, x) == NULL && x == name then n else Find(ns, g, m, x)
  {
    KidsIn(ns, g, m);
    KidsIn(ns, g, p);
    KidsIn(ns', g', m);
    hide Well, FindIn;
    FindInSame(ns, ns', g.kids[m], x);
    if m == p {
      FindInMore(ns', g.kids[m], n, x);
    }
  }

  lemma {:induction false} AddedBase(ns: Nodes, g: Shape, p: int, n: int, name: string, ns': Nodes, g': Shape, m: int,
                                     prefix: string, caret: bool)
    requires Added(ns, g, p, n, name, ns', g') && m in ns
    ensures Base(ns', g', m, prefix, caret) == Base(ns, g, m, prefix, caret)
    decreases |prefix|
  {
    hide Well, Grown;
    WellRoot(ns, g);
    if prefix != [] && prefix[0] == '\\' {
      AddedBase(ns, g, p, n, name, ns', g', ROOT, prefix[1..], false);
    } else if prefix != [] && m != ROOT {
      ParentAbove(ns, g, m);
      AddedBase(ns, g, p, n, name, ns', g', ns[m].parent, prefix[1..], true);
    }
  }

  /** The segments that led to the place lead to the new node. */
  lemma {:induction false} AddedDown(ns: Nodes, g: Shape, p: int, n: int, name: string, ns': Nodes, g': Shape, m: int,
                                     s: string, k: nat)
    requires Added(ns, g, p, n, name, ns', g') && m in ns && 0 < 4 * k <= |s|
    requires PlaceBelow(ns, g, m, s, k) == Place(p, name)
    ensures DownBytes(ns', g', m, s, k) == Found(n)
    decreases k
  {
    hide Well, Grown, Find, ValidSeg;
    var x := s[..4];
    AddedFind(ns, g, p, n, name, ns', g', m, x);
    FoundIn(ns, g, m, x);
    if k > 1 {
      AddedDown(ns, g, p, n, name, ns', g', Find(ns, g, m, x), s[4..], k - 1);
    }
  }

  /** A name for which a place was reserved leads to the node installed there. */
  lemma CreatedIsFound(ns: Nodes, g: Shape, code: string, scope: int, p: int, n: int, name: string, ns': Nodes,
                       g': Shape)
    requires Added(ns, g, p, n, name, ns', g') && scope in ns && PlaceFor(ns, g, code, scope) == Place(p, name)
    ensures BytesLookup(ns', g', code, scope) == Found(n)
  {
    hide Well, Grown, Find, ValidSeg, PrefixLen, ReadHead, PlaceBelow, DownBytes, Base;
    var k := PrefixLen(code);
    var start := Base(ns, g, scope, code[..k], false);
    var h := ReadHead(code[k..]);
    WellRoot(ns', g');
    AddedBase(ns, g, p, n, name, ns', g', scope, code[..k], false);
    if h.single && k == 0 {
      assert code[0..] == code && code[..0] == "";
      OneSkip(code);
      OneFound(ns, g, code, scope, p, n, name, ns', g');
    } else {
      AddedDown(ns, g, p, n, name, ns', g', start, code[k + h.skip..], h.n);
    }
  }

  lemma OneFound(ns: Nodes, g: Shape, code: string, scope: int, p: int, n: int, name: string, ns': Nodes, g': Shape)
    requires Added(ns, g, p, n, name, ns', g') && scope in ns && |code| >= 4
    requires PlaceBelow(ns, g, Base(ns, g, scope, "", false), code, 1) == Place(p, name)
    ensures ValidSeg(code[..4]) && SearchUp(ns', g', Base(ns', g', scope, "", false), code[..4]) == n
  {
    hide Well, Grown, Find, ValidSeg;
    AddedFind(ns, g, p, n, name, ns', g', scope, code[..4]);
  }

  /** Segments that led to a node still lead to it. */
  lemma {:induction false} OthersKeep(ns: Nodes, g: Shape, p: int, n: int, name: string, ns': Nodes, g': Shape, m: int,
                                      s: string, k: nat)
    requires Added(ns, g, p, n, name, ns', g') && m in ns && 4 * k <= |s| && DownBytes(ns, g, m, s, k).Found?
    ensures DownBytes(ns', g', m, s, k) == DownBytes(ns, g, m, s, k)
    decreases k
  {
    hide Well, Grown, Find, ValidSeg;
    if k > 0 {
      var x := s[..4];
      AddedFind(ns, g, p, n, name, ns', g', m, x);
      FoundIn(ns, g, m, x);
      OthersKeep(ns, g, p, n, name, ns', g', Find(ns, g, m, x), s[4..], k - 1);
    }
  }

  /** A name is resolved for creation and the new node installed in its place: from then on the name leads to it. */
  method Declare(t: Tree, code: string, offset: nat, scope: int, n: int, node: Node) returns (r: Place, end: nat)
    requires Well(t.ns, t.g) && scope in t.ns && offset <= |code| && n !in t.ns && n != NULL
    modifies t
    ensures Well(t.ns, t.g) && r == PlaceFor(old(t.ns), old(t.g), code[offset..], scope)
    ensures if r.Place? then scope in t.ns && BytesLookup(t.ns, t.g, code[offset..], scope) == Found(n)
            else t.ns == old(t.ns) && t.g == old(t.g)
  {
    hide Well, PlaceFor, BytesLookup, Grown, Linked, Last;
    r, end := ResolveForCreation(t.ns, t.g, code, offset, scope);
    if r.Place? {
      ghost var ns, g := t.ns, t.g;
      PlaceIn(ns, g, code[offset..], scope);
      Names.WellRoot(ns, g);
      t.Install(r.parent, n, node.(name := r.name));
      InstalledAdds(ns, g, r.parent, n, node.(name := r.name));
      CreatedIsFound(ns, g, code[offset..], scope, r.parent, n, r.name, t.ns, t.g);
    }
  }

  lemma PlaceIn(ns: Nodes, g: Shape, code: string, scope: int)
    requires Well(ns, g) && scope in ns && PlaceFor(ns, g, code, scope).Place?
    ensures PlaceFor(ns, g, code, scope).parent in ns
  {
    hide Well, PrefixLen, ReadHead, Base, PlaceBelow;
    var k := PrefixLen(code);
    var h := ReadHead(code[k..]);
    PlaceBelowIn(ns, g, Base(ns, g, scope, code[..k], false), code[k + h.skip..], h.n);
  }

  lemma {:induction false} PlaceBelowIn(ns: Nodes, g: Shape, p: int, s: string, n: nat)
    requires Well(ns, g) && p in ns && 0 < 4 * n <= |s| && PlaceBelow(ns, g, p, s, n).Place?
    ensures PlaceBelow(ns, g, p, s, n).parent in ns
    decreases n
  {
    hide Well, Find, ValidSeg;
    FoundIn(ns, g, p, s[..4]);
    if n > 1 {
      PlaceBelowIn(ns, g, Find(ns, g, p, s[..4]), s[4..], n - 1);
    }
  }
}
