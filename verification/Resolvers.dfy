/** The code of the two resolvers (src/acpi/uacpi/interpreter.c, src/acpi/uacpi/namespace.c), of the
    conversion between them and of the absolute path of a node. */
module Resolvers {
  import opened Namespace
  import opened Names

  // ---------- bytes to text ----------

  lemma {:induction false} JoinBytesSize(s: string, n: nat)
    requires 4 * n <= |s|
    ensures |JoinBytes(s, n)| == if n == 0 then 0 else 5 * n - 1
  {
    if n > 1 {
      JoinBytesSize(s[4..], n - 1);
    }
  }

  method SkipPrefix(code: string, offset: nat) returns (i: nat)
    requires offset <= |code|
    ensures offset <= i <= |code| && i - offset == PrefixLen(code[offset..])
  {
    ghost var s := code[offset..];
    i := offset;
    var prev := '^';
    while prev == '^' && i < |code|
      invariant offset <= i <= |code|
      invariant PrefixLen(s) == i - offset + if prev == '^' then PrefixLen(code[i..]) else 0
      decreases |code| - i, if prev == '^' then 1 else 0
    {
      prev := code[i];
      if prev == '^' || prev == '\\' {
        assert code[i..][1..] == code[i + 1..];
        i := i + 1;
      }
    }
  }

  /** The bytes written for one segment: a dot follows all but the last. */
  function Segment(code: string, at: nat, last: bool): string
    requires at + 4 <= |code|
  {
    code[at..at + 4] + if last then "" else "."
  }

  lemma JoinStep(code: string, at: nat, n: nat)
    requires 0 < n && at + 4 * n <= |code|
    ensures JoinBytes(code[at..], n) == Segment(code, at, n == 1) + JoinBytes(code[at + 4..], n - 1)
  {
    assert code[at..][..4] == code[at..at + 4] && code[at..][4..] == code[at + 4..];
  }

  lemma Glue(a: string, b: string, c: string)
    ensures a + (b + c) == (a + b) + c
  {
  }

  method PutSegment(out: array<char>, b: nat, code: string, at: nat, last: bool) returns (e: nat)
    requires at + 4 <= |code| && b + (if last then 4 else 5) <= out.Length
    modifies out
    ensures e == b + (if last then 4 else 5) && out[..e] == old(out[..b]) + Segment(code, at, last)
  {
    forall k | 0 <= k < 4 {
      out[b + k] := code[at + k];
    }
    e := b + 4;
    if !last {
      out[e] := '.';
      e := e + 1;
    }
  }

  /** Copies n segments into out at b, with dots between them. */
  method PutSegments(out: array<char>, b: nat, code: string, at: nat, n: nat) returns (e: nat)
    requires at + 4 * n <= |code| && b + (if n == 0 then 0 else 5 * n - 1) <= out.Length
    modifies out
    ensures e <= out.Length && out[..e] == old(out[..b]) + JoinBytes(code[at..], n)
  {
    hide JoinBytes, Segment;
    var cursor, left := at, n;
    e := b;
    ghost var full := out[..b] + JoinBytes(code[at..], n);
    while left > 0
      invariant 0 <= left && at <= cursor && cursor + 4 * left <= |code| && b <= e <= out.Length
      invariant e + (if left == 0 then 0 else 5 * left - 1) <= out.Length
      invariant full == out[..e] + JoinBytes(code[cursor..], left)
    {
      JoinStep(code, cursor, left);
      Glue(out[..e], Segment(code, cursor, left == 1), JoinBytes(code[cursor + 4..], left - 1));
      e := PutSegment(out, e, code, cursor, left == 1);
      cursor, left := cursor + 4, left - 1;
    }
    NoneJoined(code[cursor..]);
  }

  lemma NoneJoined(s: string)
    ensures JoinBytes(s, 0) == ""
  {
  }

  /** `name_string_to_path`: the buffer allocated for the path is filled to its last byte. */
  method NameStringToPath(code: string, offset: nat) returns (r: PathResult)
    requires offset <= |code|
    ensures r == PathOf(code[offset..])
  {
    hide JoinBytes, PrefixLen, ReadHead;
    var i := SkipPrefix(code, offset);
    var prefix, h := i - offset, ReadHead(code[i..]);
    assert code[offset..][prefix..] == code[i..];
    if h.Bad? {
      return BadName;
    }
    var size := prefix + (if h.n == 0 then 0 else 4 * h.n + h.n - 1) + 1;
    var out := new char[size](_ => ' ');
    forall k | 0 <= k < prefix {
      out[k] := code[offset + k];
    }
    assert out[..prefix] == code[offset..][..prefix];
    var e := PutSegments(out, prefix, code, i + h.skip, h.n);
    JoinBytesSize(code[i + h.skip..], h.n);
    assert e == size - 1;
    out[e] := '\0';
    assert code[offset..][prefix + h.skip..] == code[i + h.skip..];
    r := Path(out[..e]);
  }

  // ---------- the prefix ----------

  /** One step of the prefix, and where the rest of it leads. */
  lemma BaseStep(ns: Nodes, g: Shape, n: int, s: string, i: nat, caret: bool)
    requires Well(ns, g) && n in ns && i < |s| && s[i] in {'^', '\\'}
    ensures PrefixLen(s[i..]) >= 1
    ensures s[i] == '^' ==> PrefixLen(s[i..]) == 1 + PrefixLen(s[i + 1..])
    ensures s[i] == '\\' ==> PrefixLen(s[i..]) == 1
    ensures var p := i + PrefixLen(s[i..]);
            var q := if s[i] == '\\' then ROOT else ns[n].parent;
            Base(ns, g, n, s[i..p], caret) ==
              if (if s[i] == '\\' then caret else n == ROOT) || q !in ns then NULL
              else Base(ns, g, q, s[i + 1..p], s[i] == '^')
  {
    hide Well;
    assert s[i..][1..] == s[i + 1..];
    var p := i + PrefixLen(s[i..]);
    assert s[i..p][1..] == s[i + 1..p] && s[i..p][0] == s[i];
    WellRoot(ns, g);
    if s[i] == '^' && n != ROOT {
      ParentAbove(ns, g, n);
    }
  }

  /** The loop over the prefix that both resolvers start with. */
  method FollowPrefix(ns: Nodes, ghost g: Shape, s: string, scope: int) returns (ok: bool, cur: int, i: nat)
    requires Well(ns, g) && scope in ns
    ensures ok <==> Base(ns, g, scope, s[..PrefixLen(s)], false) != NULL
    ensures ok ==> cur == Base(ns, g, scope, s[..PrefixLen(s)], false) && cur in ns && i == PrefixLen(s)
  {
    hide Well, Base, PrefixLen;
    ok, cur, i := true, scope, 0;
    var prev := '_';
    ghost var p := PrefixLen(s);
    assert s[0..] == s && s[0..p] == s[..p];
    ghost var want := Base(ns, g, scope, s[..p], false);
    WellRoot(ns, g);
    while i < |s|
      invariant i <= |s| && cur in ns && prev in {'_', '^'} && p == i + PrefixLen(s[i..]) && p <= |s|
      invariant want == Base(ns, g, cur, s[i..p], prev == '^')
    {
      if s[i] != '^' && s[i] != '\\' {
        break;
      }
      BaseStep(ns, g, cur, s, i, prev == '^');
      if s[i] == '\\' {
        if prev == '^' {
          ok := false;
          return;
        }
        cur, i := ROOT, i + 1;
        NoBase(ns, g, cur, prev == '^');
        assert s[i..p] == "" && want == cur;
        return;
      }
      if cur == ROOT {
        ok := false;
        return;
      }
      ParentAbove(ns, g, cur);
      cur, prev, i := ns[cur].parent, '^', i + 1;
    }
    NoMore(s[i..]);
    NoBase(ns, g, cur, prev == '^');
    assert s[i..p] == "";
  }

  lemma NoBase(ns: Nodes, g: Shape, n: int, caret: bool)
    requires Well(ns, g) && n in ns
    ensures Base(ns, g, n, "", caret) == n && n != NULL
  {
  }

  lemma NoMore(s: string)
    requires s == [] || (s[0] != '^' && s[0] != '\\')
    ensures PrefixLen(s) == 0
  {
  }

  // ---------- resolving bytes ----------

  /** The upward search of the byte resolver, after the scope itself gave `first`. */
  method SearchFrom(ns: Nodes, ghost g: Shape, scope: int, name: string, first: int) returns (r: int)
    requires Well(ns, g) && scope in ns && first == Find(ns, g, scope, name)
    ensures r == SearchUp(ns, g, scope, name)
  {
    hide Well, Find;
    var parent := scope;
    r := first;
    WellRoot(ns, g);
    Depths(ns, g, scope);
    while r == NULL && parent != ROOT
      invariant parent in ns && parent in g.kids && parent in g.depth && r == Find(ns, g, parent, name)
      invariant SearchUp(ns, g, parent, name) == SearchUp(ns, g, scope, name)
      decreases g.depth[parent]
    {
      ParentAbove(ns, g, parent);
      parent := ns[parent].parent;
      Depths(ns, g, parent);
      r := FindSubNode(ns, g, parent, name);
    }
  }

  lemma Depths(ns: Nodes, g: Shape, n: int)
    requires Well(ns, g) && n in ns
    ensures n in g.kids && n in g.depth
  {
  }

  /** Bytes that the name takes up. */
  function NameLen(s: string): nat {
    var p := PrefixLen(s);
    match ReadHead(s[p..])
    case Bad => 0
    case Head(skip, n, _) => p + skip + 4 * n
  }

  /** Of the bytes of a name and what follows them, the name takes up its own. */
  lemma NameEnds(name: NameString, multi: bool, rest: string)
    requires name.Wf() && HasForm(name, multi)
    ensures NameLen(Encode(name, multi) + rest) == |Encode(name, multi)|
  {
    hide ReadHead, PrefixLen, ValidSeg, Flat;
    EncodedHead(name, multi, rest);
    FlatSize(name.segs);
    assert Encode(name, multi) == name.Prefix() + NamePath(name.segs, multi);
  }

  /** `resolve_name_string` for a name that has to exist; `end` is the new code offset. */
  method ResolveNameString(ns: Nodes, ghost g: Shape, code: string, offset: nat, scope: int)
    returns (r: Outcome, end: nat)
    requires Well(ns, g) && scope in ns && offset <= |code|
    ensures r == BytesLookup(ns, g, code[offset..], scope)
    ensures !r.Invalid? ==> end == offset + NameLen(code[offset..])
  {
    hide Well, Find, ReadHead, PrefixLen, Base, SearchUp, ValidSeg;
    r, end := Invalid, 0;
    var s := code[offset..];
    var ok, cur, i := FollowPrefix(ns, g, s, scope);
    if !ok {
      return;
    }
    var h := ReadHead(s[i..]);
    if h.Bad? {
      return;
    }
    WellRoot(ns, g);
    end := offset + i + h.skip + 4 * h.n;
    if h.n == 0 {
      if i > 0 {
        r := Found(cur);
      }
      return;
    }
    if h.single && i == 0 {
      OneSkip(s);
      if ValidSeg(s[..4]) {
        cur := FindSubNode(ns, g, cur, s[..4]);
        NoBase(ns, g, scope, false);
        cur := SearchFrom(ns, g, scope, s[..4], cur);
        r := if cur == NULL then NotFound else Found(cur);
      }
      return;
    }
    r := ResolveSegments(ns, g, cur, s[i + h.skip..], h.n);
  }

  lemma OneSkip(s: string)
    requires ReadHead(s).Head? && ReadHead(s).single
    ensures |s| >= 4 && ReadHead(s) == Head(0, 1, true)
  {
  }

  /** The loop over the segments. */
  method ResolveSegments(ns: Nodes, ghost g: Shape, start: int, s: string, n: nat) returns (r: Outcome)
    requires Well(ns, g) && start in ns && 4 * n <= |s|
    ensures r == DownBytes(ns, g, start, s, n)
  {
    hide Well, Find, ValidSeg;
    var cur, c, left := start, 0, n;
    assert s[0..] == s;
    while left > 0
      invariant 0 <= left && 0 <= c && c + 4 * left <= |s| && cur in ns
      invariant DownBytes(ns, g, start, s, n) == DownBytes(ns, g, cur, s[c..], left)
    {
      var name := s[c..c + 4];
      assert s[c..][..4] == name && s[c..][4..] == s[c + 4..];
      if !ValidSeg(name) {
        return Invalid;
      }
      WellRoot(ns, g);
      FoundIn(ns, g, cur, name);
      var next := FindSubNode(ns, g, cur, name);
      if next == NULL {
        return NotFound;
      }
      cur, c, left := next, c + 4, left - 1;
    }
    r := Found(cur);
  }

  // ---------- resolving text ----------

  /** `segment_to_name` */
  method SegmentToName(s: string, c: nat) returns (name: string, e: nat)
    requires c <= |s|
    ensures c <= e <= |s| && e == c + SegLen(s[c..], 4) && name == Pad(s[c..e])
  {
    e, name := c, "";
    for offset := 0 to 4
      invariant c <= e <= |s| && e - c <= offset && name == s[c..e] + seq(offset - (e - c), _ => '_')
      invariant SegLen(s[c..], 4) == e - c + SegLen(s[e..], 4 - offset)
      invariant e - c < offset ==> e == |s| || s[e] == '.'
    {
      if e == |s| || s[e] == '.' {
        name := name + "_";
      } else {
        assert s[e..][1..] == s[e + 1..];
        name, e := name + [s[e]], e + 1;
      }
    }
  }

  /** The upward search of the text resolver, in the scopes above. */
  method SearchAbove(ns: Nodes, ghost g: Shape, scope: int, name: string) returns (r: int)
    requires Well(ns, g) && scope in ns
    ensures r == if scope == ROOT || ns[scope].parent !in ns then NULL else SearchUp(ns, g, ns[scope].parent, name)
  {
    hide Well, Find;
    var q := ns[scope].parent;
    r := NULL;
    WellRoot(ns, g);
    Links(ns, g, scope);
    ghost var want := if scope == ROOT || q !in ns then NULL else SearchUp(ns, g, q, name);
    while q != NULL
      invariant q == NULL || (q in ns && q in g.depth)
      invariant want == if q == NULL then r else SearchUp(ns, g, q, name)
      invariant r == NULL
      decreases if q == NULL then 0 else 1 + g.depth[q]
    {
      Links(ns, g, q);
      r := FindSubNode(ns, g, q, name);
      if r != NULL {
        return;
      }
      q := ns[q].parent;
    }
  }

  lemma Links(ns: Nodes, g: Shape, n: int)
    requires Well(ns, g) && n in ns
    ensures n in g.depth && n in g.kids && (n == ROOT <==> ns[n].parent == NULL)
    ensures n != ROOT ==> ns[n].parent in ns && ns[n].parent in g.depth && g.depth[n] == g.depth[ns[n].parent] + 1
  {
    if n != ROOT {
      ParentAbove(ns, g, n);
    }
  }

  /** `uacpi_namespace_node_resolve`; without a parent it starts at the root, and cannot search above. */
  method Resolve(ns: Nodes, ghost g: Shape, path: string, parent: int, above: bool, permanentOnly: bool)
    returns (r: Outcome)
    requires Well(ns, g) && (parent in ns || (parent == NULL && !above))
    ensures ROOT in ns
    ensures var found := TextLookup(ns, g, path, if parent == NULL then ROOT else parent, above);
            && (r.Denied? <==> permanentOnly && found.Found? && found.node in ns && ns[found.node].temporary)
            && (!r.Denied? ==> r == found)
  {
    hide Well, TextLookup;
    WellRoot(ns, g);
    r := ResolvePath(ns, g, path, if parent == NULL then ROOT else parent, above);
    if r.Found? && ns[r.node].temporary && permanentOnly {
      r := Denied;
    }
  }

  /** The search itself. */
  method ResolvePath(ns: Nodes, ghost g: Shape, path: string, parent: int, above: bool) returns (r: Outcome)
    requires Well(ns, g) && parent in ns
    ensures r == TextLookup(ns, g, path, parent, above) && !r.Denied? && (r.Found? ==> r.node in ns)
    ensures r.Found? && !above && PrefixLen(path) == 0 ==> Under(ns, r.node, parent)
    ensures forall name: NameString :: name.Wf() && Text(name) == path ==>
              r == if above then Meaning(ns, g, name, parent) else Followed(ns, g, name, parent)
  {
    hide Well, Find, PrefixLen, Base, SearchUp, SegLen, Pad, TextDown, Meaning, Followed, Under, Text;
    TextIn(ns, g, path, parent, above);
    forall name: NameString | name.Wf() && Text(name) == path
      ensures TextLookup(ns, g, path, parent, above)
           == if above then Meaning(ns, g, name, parent) else Followed(ns, g, name, parent)
    {
      if above {
        TextMeaning(ns, g, name, parent);
      } else {
        TextBelow(ns, g, name, parent);
      }
    }
    var ok, cur, i := FollowPrefix(ns, g, path, parent);
    if !ok {
      return Invalid;
    }
    var single := i == 0;
    ghost var want := TextDown(ns, g, cur, path[i..], single, above, parent);
    while i < |path|
      invariant i <= |path| && cur in ns && want == TextDown(ns, g, cur, path[i..], single, above, parent)
      decreases |path| - i
    {
      TextStep(ns, g, cur, path, i, single, above, parent);
      if path[i] == '.' {
        i := i + 1;
      }
      var name, e := SegmentToName(path, i);
      if e < |path| {
        single := false;
      }
      Sound(ns, g, cur, parent, name);
      var next := FindSubNode(ns, g, cur, name);
      if next == NULL {
        if !above || !single {
          return NotFound;
        }
        next := SearchAbove(ns, g, parent, name);
        return if next == NULL then NotFound else Found(next);
      }
      cur, i := next, e;
    }
    TextEnd(ns, g, cur, single, above, parent);
    assert path[i..] == "";
    r := Found(cur);
  }

  lemma TextEnd(ns: Nodes, g: Shape, p: int, single: bool, above: bool, scope: int)
    requires Well(ns, g) && p in ns && scope in ns
    ensures TextDown(ns, g, p, "", single, above, scope) == Found(p)
  {
  }

  lemma Sound(ns: Nodes, g: Shape, p: int, scope: int, name: string)
    requires Well(ns, g) && p in ns && scope in ns
    ensures p in g.kids && NULL !in ns && (Find(ns, g, p, name) == NULL || Find(ns, g, p, name) in ns)
    ensures scope != ROOT ==> ns[scope].parent in ns
  {
    FoundIn(ns, g, p, name);
    Links(ns, g, scope);
  }

  /** What a segment leads to: found below p, with the rest of the text to follow, or searched for above. */
  ghost function NextText(ns: Nodes, g: Shape, p: int, name: string, rest: string, one: bool, above: bool,
                          scope: int): Outcome
    requires Well(ns, g) && p in ns && scope in ns
  {
    Sound(ns, g, p, scope, name);
    var r := Find(ns, g, p, name);
    if r != NULL then TextDown(ns, g, r, rest, one, above, scope)
    else if above && one && scope != ROOT then OutcomeOf(SearchUp(ns, g, ns[scope].parent, name))
    else NotFound
  }

  lemma TextUnfold(ns: Nodes, g: Shape, p: int, s: string, t: string, single: bool, above: bool, scope: int)
    requires Well(ns, g) && p in ns && scope in ns && s != [] && t == if s[0] == '.' then s[1..] else s
    ensures var k := SegLen(t, 4);
            TextDown(ns, g, p, s, single, above, scope)
            == NextText(ns, g, p, Pad(t[..k]), t[k..], single && k == |t|, above, scope)
  {
    hide Well, Find, SearchUp, SegLen, Pad;
    Sound(ns, g, p, scope, Pad(t[..SegLen(t, 4)]));
  }

  /** One segment of the text from position i on. */
  lemma TextStep(ns: Nodes, g: Shape, p: int, path: string, i: nat, single: bool, above: bool, scope: int)
    requires Well(ns, g) && p in ns && scope in ns && i < |path|
    ensures var j := if path[i] == '.' then i + 1 else i;
            var e := j + SegLen(path[j..], 4);
            && i < e <= |path|
            && TextDown(ns, g, p, path[i..], single, above, scope)
               == NextText(ns, g, p, Pad(path[j..e]), path[e..], single && e == |path|, above, scope)
  {
    hide Well, TextDown, NextText, SegLen, Pad;
    Slices(path, i);
    var j := if path[i] == '.' then i + 1 else i;
    TextUnfold(ns, g, p, path[i..], path[j..], single, above, scope);
  }

  lemma Slices(path: string, i: nat)
    requires i < |path|
    ensures var j := if path[i] == '.' then i + 1 else i;
            var s := path[i..];
            var t := if s[0] == '.' then s[1..] else s;
            var k := SegLen(t, 4);
            t == path[j..] && t[..k] == path[j..j + k] && t[k..] == path[j + k..] && i < j + k <= |path|
  {
    var j := if path[i] == '.' then i + 1 else i;
    assert path[i..][1..] == path[i + 1..];
    Progress(path[j..]);
  }

  lemma Progress(t: string)
    ensures t != [] && t[0] != '.' ==> SegLen(t, 4) > 0
  {
  }
}
