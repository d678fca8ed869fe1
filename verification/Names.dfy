/** The two name resolvers: over AML bytes (src/acpi/uacpi/interpreter.c) and over text
    (src/acpi/uacpi/namespace.c), and the conversion of bytes to text between them.
    The grammar is that of section 20.2.2 of ACPI 6.5; bytes are characters. */
module Names {
  import opened Namespace

  const DUAL: char := '.'     // 0x2E
  const MULTI: char := '/'    // 0x2F
  const NULLNAME: char := '\0'

  datatype Outcome = Found(node: int) | NotFound | Invalid | Denied

  predicate NameChar(c: char) { c == '_' || '0' <= c <= '9' || 'A' <= c <= 'Z' }

  /** `uacpi_is_valid_nameseg` */
  predicate ValidSeg(s: string) { |s| == 4 && NameChar(s[0]) && NameChar(s[1]) && NameChar(s[2]) && NameChar(s[3]) }

  // ---------- moving about the tree ----------

  lemma ParentAbove(ns: Nodes, g: Shape, n: int)
    requires Well(ns, g) && n in ns && n != ROOT
    ensures ns[n].parent in ns && ns[n].parent != NULL && g.depth[n] == g.depth[ns[n].parent] + 1
  {
    var i := InParent(ns, g, n);
  }

  /** The search rule for a single name: in the scope, then in every scope above it. */
  ghost function SearchUp(ns: Nodes, g: Shape, p: int, name: string): int
    requires Well(ns, g) && p in ns
    decreases g.depth[p]
  {
    var r := Find(ns, g, p, name);
    if r != NULL || p == ROOT then r else ParentAbove(ns, g, p); SearchUp(ns, g, ns[p].parent, name)
  }

  /** Name by name down the tree. */
  ghost function Down(ns: Nodes, g: Shape, p: int, segs: seq<string>): int
    requires Well(ns, g) && p in ns
    decreases |segs|
  {
    if segs == [] then p
    else
      var r := Find(ns, g, p, segs[0]);
      if r == NULL then NULL else Down(ns, g, r, segs[1..])
  }

  /** The node that a prefix leads to from n, NULL if it is malformed or leads beyond the root. */
  ghost function Base(ns: Nodes, g: Shape, n: int, prefix: string, caret: bool): (r: int)
    requires Well(ns, g) && n in ns
    ensures r == NULL || r in ns
    decreases |prefix|
  {
    if prefix == [] then n
    else if prefix[0] == '\\' then (if caret then NULL else Base(ns, g, ROOT, prefix[1..], false))
    else if n == ROOT then NULL
    else ParentAbove(ns, g, n); Base(ns, g, ns[n].parent, prefix[1..], true)
  }

  ghost function OutcomeOf(r: int): Outcome { if r == NULL then NotFound else Found(r) }

  // ---------- what a name means ----------

  datatype NameString = NameString(rooted: bool, carets: nat, segs: seq<string>) {
    ghost predicate Wf() {
      && (rooted ==> carets == 0) && (forall i :: 0 <= i < |segs| ==> ValidSeg(segs[i]))
      && (segs == [] ==> rooted || carets > 0)
    }

    predicate Prefixed() { rooted || carets > 0 }
    function Prefix(): string { if rooted then "\\" else seq(carets, _ => '^') }
  }

  /** The name followed from where its prefix leads. */
  ghost function Followed(ns: Nodes, g: Shape, name: NameString, scope: int): Outcome
    requires Well(ns, g) && scope in ns
  {
    var start := Base(ns, g, scope, name.Prefix(), false);
    if start == NULL then Invalid else OutcomeOf(Down(ns, g, start, name.segs))
  }

  ghost function Meaning(ns: Nodes, g: Shape, name: NameString, scope: int): Outcome
    requires Well(ns, g) && scope in ns
  {
    if |name.segs| == 1 && !name.Prefixed() then OutcomeOf(SearchUp(ns, g, scope, name.segs[0]))
    else Followed(ns, g, name, scope)
  }

  function Flat(segs: seq<string>): string { if segs == [] then "" else segs[0] + Flat(segs[1..]) }

  function Join(segs: seq<string>): string {
    if segs == [] then "" else if |segs| == 1 then segs[0] else segs[0] + "." + Join(segs[1..])
  }

  /** The bytes of a name; multi selects the MultiNamePath form. */
  function Encode(name: NameString, multi: bool): string
    requires |name.segs| <= 255
  {
    name.Prefix() + NamePath(name.segs, multi)
  }

  function NamePath(segs: seq<string>, multi: bool): string
    requires |segs| <= 255
  {
    if multi then [MULTI, |segs| as char] + Flat(segs)
    else if segs == [] then [NULLNAME]
    else if |segs| == 1 then segs[0]
    else [DUAL] + Flat(segs)
  }

  /** The forms the grammar has for a name.  A MultiNamePath of one segment is left to names with a prefix. */
  ghost predicate HasForm(name: NameString, multi: bool) {
    if multi then 1 <= |name.segs| <= 255 && (|name.segs| == 1 ==> name.Prefixed()) else |name.segs| <= 2
  }

  function Text(name: NameString): string { name.Prefix() + Join(name.segs) }

  // ---------- reading bytes ----------

  /** Length of the leading carets or root character. */
  function PrefixLen(code: string): (p: nat)
    ensures p <= |code|
  {
    if code == [] then 0
    else if code[0] == '^' then 1 + PrefixLen(code[1..])
    else if code[0] == '\\' then 1
    else 0
  }

  /** The number of segments and the bytes before the first one. */
  datatype Head = Head(skip: nat, n: nat, single: bool) | Bad

  function ReadHead(s: string): (h: Head)
    ensures h.Head? ==> h.skip + 4 * h.n <= |s|
  {
    if s == [] then Bad
    else if s[0] == DUAL then (if |s| < 9 then Bad else Head(1, 2, false))
    else if s[0] == MULTI then
      (if |s| < 2 || s[1] as int == 0 || 4 * (s[1] as int) > |s| - 2 then Bad else Head(2, s[1] as int, false))
    else if s[0] == NULLNAME then Head(1, 0, false)
    else if |s| < 4 then Bad
    else Head(0, 1, true)
  }

  function JoinBytes(s: string, n: nat): string
    requires 4 * n <= |s|
  {
    if n == 0 then "" else if n == 1 then s[..4] else s[..4] + "." + JoinBytes(s[4..], n - 1)
  }

  datatype PathResult = Path(text: string) | BadName

  /** What `name_string_to_path` makes of the bytes. */
  function PathOf(code: string): PathResult {
    var p := PrefixLen(code);
    match ReadHead(code[p..])
    case Bad => BadName
    case Head(skip, n, _) => Path(code[..p] + JoinBytes(code[p + skip..], n))
  }

  ghost function DownBytes(ns: Nodes, g: Shape, p: int, s: string, n: nat): Outcome
    requires Well(ns, g) && p in ns && 4 * n <= |s|
    decreases n
  {
    if n == 0 then Found(p)
    else if !ValidSeg(s[..4]) then Invalid
    else
      var r := Find(ns, g, p, s[..4]);
      if r == NULL then NotFound else DownBytes(ns, g, r, s[4..], n - 1)
  }

  /** What `resolve_name_string` finds for the bytes. */
  ghost function BytesLookup(ns: Nodes, g: Shape, code: string, scope: int): Outcome
    requires Well(ns, g) && scope in ns
  {
    var p := PrefixLen(code);
    var start := Base(ns, g, scope, code[..p], false);
    var h := ReadHead(code[p..]);
    if start == NULL || h.Bad? then Invalid
    else if h.n == 0 then (if p == 0 then Invalid else Found(start))
    else if h.single && p == 0 then
      (if ValidSeg(code[..4]) then OutcomeOf(SearchUp(ns, g, start, code[..4])) else Invalid)
    else DownBytes(ns, g, start, code[p + h.skip..], h.n)
  }

  // ---------- reading text ----------

  /** Characters of the next segment: up to four, none of them a dot. */
  function SegLen(s: string, max: nat): (k: nat)
    ensures k <= |s| && k <= max
  {
    if max == 0 || s == [] || s[0] == '.' then 0 else 1 + SegLen(s[1..], max - 1)
  }

  function Pad(s: string): (r: string)
    ensures |s| <= 4 ==> |r| == 4
  {
    s + seq(if |s| < 4 then 4 - |s| else 0, _ => '_')
  }

  ghost function TextDown(ns: Nodes, g: Shape, p: int, s: string, single: bool, above: bool, scope: int): Outcome
    requires Well(ns, g) && p in ns && scope in ns
    decreases |s|
  {
    if s == [] then Found(p)
    else
      var t := if s[0] == '.' then s[1..] else s;
      var k := SegLen(t, 4);
      var one := single && k == |t|;
      var r := Find(ns, g, p, Pad(t[..k]));
      if r != NULL then TextDown(ns, g, r, t[k..], one, above, scope)
      else if above && one && scope != ROOT then
        ParentAbove(ns, g, scope); OutcomeOf(SearchUp(ns, g, ns[scope].parent, Pad(t[..k])))
      else NotFound
  }

  /** What `uacpi_namespace_node_resolve` finds for a path. */
  ghost function TextLookup(ns: Nodes, g: Shape, path: string, scope: int, above: bool): Outcome
    requires Well(ns, g) && scope in ns
  {
    var p := PrefixLen(path);
    var start := Base(ns, g, scope, path[..p], false);
    if start == NULL then Invalid else TextDown(ns, g, start, path[p..], p == 0, above, scope)
  }

  // ---------- the readers agree ----------

  lemma {:induction false} CaretsRead(k: nat, tail: string)
    requires tail == [] || (tail[0] != '^' && tail[0] != '\\')
    ensures PrefixLen(seq(k, _ => '^') + tail) == k
  {
    var s := seq(k, _ => '^') + tail;
    if k == 0 {
      assert s == tail;
    } else {
      assert s[0] == '^' && s[1..] == seq(k - 1, _ => '^') + tail;
      CaretsRead(k - 1, tail);
    }
  }

  lemma PrefixRead(name: NameString, tail: string)
    requires tail == [] || (tail[0] != '^' && tail[0] != '\\')
    ensures PrefixLen(name.Prefix() + tail) == |name.Prefix()|
  {
    if !name.rooted {
      CaretsRead(name.carets, tail);
    }
  }

  ghost predicate AllValid(segs: seq<string>) { forall i :: 0 <= i < |segs| ==> ValidSeg(segs[i]) }

  lemma {:induction false} FlatSize(segs: seq<string>)
    requires AllValid(segs)
    ensures |Flat(segs)| == 4 * |segs|
  {
    if segs != [] {
      FlatSize(segs[1..]);
    }
  }

  lemma FlatFirst(segs: seq<string>, rest: string)
    requires AllValid(segs) && segs != []
    ensures var s := Flat(segs) + rest; |s| >= 4 && s[..4] == segs[0] && s[4..] == Flat(segs[1..]) + rest
  {
    assert ValidSeg(segs[0]);
    assert Flat(segs) + rest == segs[0] + (Flat(segs[1..]) + rest);
  }

  lemma {:induction false} DownBytesFlat(ns: Nodes, g: Shape, p: int, segs: seq<string>, rest: string)
    requires Well(ns, g) && p in ns && AllValid(segs)
    ensures 4 * |segs| <= |Flat(segs) + rest|
    ensures DownBytes(ns, g, p, Flat(segs) + rest, |segs|) == OutcomeOf(Down(ns, g, p, segs))
    decreases |segs|
  {
    hide Well, Find;
    WellRoot(ns, g);
    FlatSize(segs);
    if segs != [] {
      FlatFirst(segs, rest);
      FoundIn(ns, g, p, segs[0]);
      var r := Find(ns, g, p, segs[0]);
      if r != NULL {
        DownBytesFlat(ns, g, r, segs[1..], rest);
      }
    }
  }

  lemma FoundIn(ns: Nodes, g: Shape, p: int, name: string)
    requires Well(ns, g) && p in ns
    ensures p in g.kids && (Find(ns, g, p, name) == NULL || Find(ns, g, p, name) in ns)
  {
  }

  lemma {:induction false} JoinBytesFlat(segs: seq<string>, rest: string)
    requires AllValid(segs)
    ensures 4 * |segs| <= |Flat(segs) + rest| && JoinBytes(Flat(segs) + rest, |segs|) == Join(segs)
  {
    FlatSize(segs);
    if segs != [] {
      FlatFirst(segs, rest);
      JoinBytesFlat(segs[1..], rest);
    }
  }

  /** The first segment of a dotted path, and what follows it. */
  lemma JoinFirst(segs: seq<string>)
    requires AllValid(segs) && segs != []
    ensures var t := Join(segs);
            && |t| >= 4 && t[0] != '.' && t[0] != '^' && t[0] != '\\' && SegLen(t, 4) == 4 && t[..4] == segs[0]
            && Pad(t[..4]) == segs[0]
            && t[4..] == if |segs| == 1 then "" else "." + Join(segs[1..])
  {
    var t := Join(segs);
    assert ValidSeg(segs[0]);
    assert t[..4] == segs[0];
    assert forall i :: 0 <= i < 4 ==> t[i] == segs[0][i] && t[i] != '.';
    FourLong(t);
  }

  lemma FourLong(t: string)
    requires |t| >= 4 && t[0] != '.' && t[1] != '.' && t[2] != '.' && t[3] != '.'
    ensures SegLen(t, 4) == 4
  {
    assert SegLen(t[3..], 1) == 1;
    assert t[2..][1..] == t[3..] && SegLen(t[2..], 2) == 2;
    assert t[1..][1..] == t[2..] && SegLen(t[1..], 3) == 3;
  }

  /** A dotted path, with or without a leading dot, is followed name by name. */
  lemma {:induction false} TextDownJoin(ns: Nodes, g: Shape, p: int, segs: seq<string>, dot: bool, single: bool,
                                        above: bool, scope: int)
    requires Well(ns, g) && p in ns && scope in ns && AllValid(segs) && (dot ==> segs != [])
    requires single && above ==> |segs| != 1
    ensures TextDown(ns, g, p, (if dot then "." else "") + Join(segs), single, above, scope)
         == OutcomeOf(Down(ns, g, p, segs))
    decreases |segs|
  {
    hide Well, Find;
    var s := (if dot then "." else "") + Join(segs);
    WellRoot(ns, g);
    if segs == [] {
      assert s == "";
    } else {
      JoinFirst(segs);
      var t := if s[0] == '.' then s[1..] else s;
      assert t == Join(segs);
      FoundIn(ns, g, p, segs[0]);
      var r := Find(ns, g, p, segs[0]);
      if r != NULL {
        TextDownJoin(ns, g, r, segs[1..], |segs| > 1, single && |segs| == 1, above, scope);
      }
    }
  }

  lemma WellRoot(ns: Nodes, g: Shape)
    requires Well(ns, g)
    ensures NULL !in ns && ROOT in ns
  {
  }

  ghost function Skip(name: NameString, multi: bool): nat {
    if multi then 2 else if |name.segs| == 1 then 0 else 1
  }

  /** The bytes s of a name path announce n segments, which start at t. */
  ghost predicate Opens(s: string, skip: nat, n: nat, single: bool, t: string) {
    s != [] && s[0] != '^' && s[0] != '\\' && skip <= |s| && ReadHead(s) == Head(skip, n, single) && s[skip..] == t
  }

  lemma EncodedPath(segs: seq<string>, multi: bool, rest: string)
    requires |segs| <= 255 && AllValid(segs) && if multi then |segs| >= 1 else |segs| <= 2
    ensures Opens(NamePath(segs, multi) + rest, if multi then 2 else if |segs| == 1 then 0 else 1,
                  |segs|, !multi && |segs| == 1,
                  Flat(segs) + rest)
  {
    hide Opens, Flat, ValidSeg;
    var s, t := NamePath(segs, multi) + rest, Flat(segs) + rest;
    FlatSize(segs);
    if multi {
      var c := |segs| as char;
      assert c as int == |segs|;
      assert s == [MULTI, c] + t;
      MultiHead(c, t);
    } else if segs == [] {
      assert t == rest;
      NullHead(t);
    } else if |segs| == 1 {
      FlatOne(segs);
      OneHead(s);
    } else {
      assert s == [DUAL] + t;
      DualHead(t);
    }
  }

  lemma MultiHead(c: char, t: string)
    requires 0 < 4 * (c as int) <= |t|
    ensures Opens([MULTI, c] + t, 2, c as int, false, t)
  {
  }

  lemma DualHead(t: string)
    requires |t| >= 8
    ensures Opens([DUAL] + t, 1, 2, false, t)
  {
  }

  lemma NullHead(t: string)
    ensures Opens([NULLNAME] + t, 1, 0, false, t)
  {
  }

  lemma OneHead(s: string)
    requires |s| >= 4 && NameChar(s[0])
    ensures Opens(s, 0, 1, true, s)
  {
  }

  lemma FlatOne(segs: seq<string>)
    requires |segs| == 1 && ValidSeg(segs[0])
    ensures Flat(segs) == segs[0] && |segs[0]| == 4 && NameChar(segs[0][0])
  {
  }

  /** Both readers take the same prefix and the same segments from the bytes of a name. */
  lemma EncodedHead(name: NameString, multi: bool, rest: string)
    requires name.Wf() && HasForm(name, multi)
    ensures var code, p, skip := Encode(name, multi) + rest, |name.Prefix()|, Skip(name, multi);
            && PrefixLen(code) == p && code[..p] == name.Prefix() && p + skip <= |code|
            && ReadHead(code[p..]) == Head(skip, |name.segs|, !multi && |name.segs| == 1)
            && code[p + skip..] == Flat(name.segs) + rest
  {
    hide NamePath, ReadHead, PrefixLen, Flat, ValidSeg;
    var code, p := Encode(name, multi) + rest, |name.Prefix()|;
    var tail := NamePath(name.segs, multi) + rest;
    assert code == name.Prefix() + tail && code[p..] == tail;
    EncodedPath(name.segs, multi, rest);
    PrefixRead(name, tail);
  }

  lemma NoPrefix(name: NameString)
    ensures name.Prefix() == "" <==> !name.Prefixed()
  {
  }

  /** Resolving the bytes of a name finds what the name means. */
  lemma BytesMeaning(ns: Nodes, g: Shape, name: NameString, multi: bool, rest: string, scope: int)
    requires Well(ns, g) && scope in ns && name.Wf() && HasForm(name, multi)
    ensures BytesLookup(ns, g, Encode(name, multi) + rest, scope) == Meaning(ns, g, name, scope)
  {
    hide Well, Encode, Find, ReadHead, PrefixLen, Base, SearchUp, Down, DownBytes, ValidSeg;
    var code, p := Encode(name, multi) + rest, |name.Prefix()|;
    EncodedHead(name, multi, rest);
    NoPrefix(name);
    WellRoot(ns, g);
    BaseNone(ns, g, scope);
    var start := Base(ns, g, scope, name.Prefix(), false);
    if start != NULL {
      DownBytesFlat(ns, g, start, name.segs, rest);
      DownNone(ns, g, start);
      if |name.segs| == 1 {
        FlatFirst(name.segs, rest);
      }
    }
  }

  lemma DownNone(ns: Nodes, g: Shape, p: int)
    requires Well(ns, g) && p in ns
    ensures Down(ns, g, p, []) == p
  {
  }

  /** Converting the bytes of a name yields its text. */
  lemma PathText(name: NameString, multi: bool, rest: string)
    requires name.Wf() && HasForm(name, multi)
    ensures PathOf(Encode(name, multi) + rest) == Path(Text(name))
  {
    hide Encode, ReadHead, PrefixLen, ValidSeg;
    EncodedHead(name, multi, rest);
    JoinBytesFlat(name.segs, rest);
  }

  /** Resolving the text of a name, with the search above its scope, finds what the name means. */
  lemma TextMeaning(ns: Nodes, g: Shape, name: NameString, scope: int)
    requires Well(ns, g) && scope in ns && name.Wf()
    ensures TextLookup(ns, g, Text(name), scope, true) == Meaning(ns, g, name, scope)
  {
    hide Well, Find, PrefixLen, Base, Down, ValidSeg, SegLen;
    var p, tail := |name.Prefix()|, Join(name.segs);
    if name.segs != [] {
      JoinFirst(name.segs);
    }
    PrefixRead(name, tail);
    NoPrefix(name);
    assert Text(name)[..p] == name.Prefix() && Text(name)[p..] == tail;
    WellRoot(ns, g);
    BaseNone(ns, g, scope);
    var start := Base(ns, g, scope, name.Prefix(), false);
    if start != NULL {
      if |name.segs| == 1 && p == 0 {
        SingleText(ns, g, scope, name.segs[0]);
      } else {
        assert "" + Join(name.segs) == tail;
        TextDownJoin(ns, g, start, name.segs, false, p == 0, true, scope);
      }
    }
  }

  /** Resolving the text of a name without the search above follows the name from where its prefix leads. */
  lemma TextBelow(ns: Nodes, g: Shape, name: NameString, scope: int)
    requires Well(ns, g) && scope in ns && name.Wf()
    ensures TextLookup(ns, g, Text(name), scope, false) == Followed(ns, g, name, scope)
  {
    hide Well, Find, PrefixLen, Base, Down, ValidSeg, SegLen;
    var p, tail := |name.Prefix()|, Join(name.segs);
    if name.segs != [] {
      JoinFirst(name.segs);
    }
    PrefixRead(name, tail);
    assert Text(name)[..p] == name.Prefix() && Text(name)[p..] == tail;
    var start := Base(ns, g, scope, name.Prefix(), false);
    if start != NULL {
      assert "" + Join(name.segs) == tail;
      TextDownJoin(ns, g, start, name.segs, false, p == 0, false, scope);
    }
  }

  // ---------- bytes that may not be a name ----------

  /** The first n groups of four bytes. */
  function SegsOf(s: string, n: nat): (segs: seq<string>)
    requires 4 * n <= |s|
    ensures |segs| == n
  {
    if n == 0 then [] else [s[..4]] + SegsOf(s[4..], n - 1)
  }

  lemma {:induction false} FlatSegs(s: string, n: nat)
    requires 4 * n <= |s|
    ensures Flat(SegsOf(s, n)) == s[..4 * n]
  {
    if n > 0 {
      FlatSegs(s[4..], n - 1);
      assert SegsOf(s, n)[1..] == SegsOf(s[4..], n - 1);
      assert s[..4 * n] == s[..4] + s[4..][..4 * (n - 1)];
    }
  }

  /** The bytes that are read as a path of segments are the bytes of that path. */
  lemma HeadEncodes(s: string)
    requires ReadHead(s).Head? && ReadHead(s).n <= 255
    ensures var h := ReadHead(s);
            s != [] && NamePath(SegsOf(s[h.skip..], h.n), s[0] == MULTI) == s[..h.skip + 4 * h.n]
  {
    var h := ReadHead(s);
    FlatSegs(s[h.skip..], h.n);
    assert s[..h.skip + 4 * h.n] == s[..h.skip] + s[h.skip..][..4 * h.n];
    if h.single {
      assert SegsOf(s, 1)[0] == s[..4];
    }
  }

  /** The segment at k is malformed and is come to: those before it are well-formed and lead to a node. */
  ghost predicate Stumbles(ns: Nodes, g: Shape, p: int, segs: seq<string>, k: int)
    requires Well(ns, g) && p in ns
  {
    0 <= k < |segs| && !ValidSeg(segs[k]) && AllValid(segs[..k]) && Down(ns, g, p, segs[..k]) != NULL
  }

  ghost predicate StumblesSomewhere(ns: Nodes, g: Shape, p: int, segs: seq<string>)
    requires Well(ns, g) && p in ns
  {
    exists k :: Stumbles(ns, g, p, segs, k)
  }

  /** Whatever the bytes of the segments: invalid exactly if a malformed one is come to, found exactly if all are
      well-formed and lead to a node. */
  lemma {:induction false} DownBytesOutcome(ns: Nodes, g: Shape, p: int, s: string, n: nat)
    requires Well(ns, g) && p in ns && 4 * n <= |s|
    ensures var r, segs := DownBytes(ns, g, p, s, n), SegsOf(s, n);
            && !r.Denied? && (r.Invalid? <==> StumblesSomewhere(ns, g, p, segs))
            && (r.Found? <==> AllValid(segs) && Down(ns, g, p, segs) != NULL)
            && (r.Found? ==> r.node == Down(ns, g, p, segs))
    decreases n
  {
    hide Well, Find, ValidSeg;
    WellRoot(ns, g);
    var segs := SegsOf(s, n);
    if n > 0 {
      var x, rest := s[..4], SegsOf(s[4..], n - 1);
      assert segs == [x] + rest && segs[1..] == rest;
      FoundIn(ns, g, p, x);
      var m := Find(ns, g, p, x);
      if !ValidSeg(x) {
        assert segs[..0] == [] && segs[0] == x && DownBytes(ns, g, p, s, n) == Invalid;
        assert Stumbles(ns, g, p, segs, 0);
      } else {
        if m != NULL {
          DownBytesOutcome(ns, g, m, s[4..], n - 1);
        }
        StumblesLater(ns, g, p, x, rest);
        AllAfter(x, rest);
      }
    }
  }

  lemma AllAfter(x: string, rest: seq<string>)
    requires ValidSeg(x)
    ensures AllValid([x] + rest) <==> AllValid(rest)
  {
    hide ValidSeg;
    if AllValid([x] + rest) {
      forall i | 0 <= i < |rest| ensures ValidSeg(rest[i]) {
        assert ([x] + rest)[i + 1] == rest[i];
      }
    }
  }

  lemma StumblesLater(ns: Nodes, g: Shape, p: int, x: string, rest: seq<string>)
    requires Well(ns, g) && p in ns && ValidSeg(x)
    ensures p in g.kids
    ensures var m := Find(ns, g, p, x);
            StumblesSomewhere(ns, g, p, [x] + rest) <==> m in ns && StumblesSomewhere(ns, g, m, rest)
  {
    hide Well, Find, ValidSeg;
    WellRoot(ns, g);
    FoundIn(ns, g, p, x);
    var m, segs := Find(ns, g, p, x), [x] + rest;
    forall k | 0 <= k < |rest| ensures Stumbles(ns, g, p, segs, k + 1) <==> m in ns && Stumbles(ns, g, m, rest, k) {
      assert segs[..k + 1] == [x] + rest[..k] && segs[..k + 1][1..] == rest[..k] && segs[k + 1] == rest[k];
      AllAfter(x, rest[..k]);
    }
    if k :| Stumbles(ns, g, p, segs, k) {
      assert k > 0;
      assert Stumbles(ns, g, m, rest, k - 1);
    }
    if m in ns {
      if k :| Stumbles(ns, g, m, rest, k) {
        assert Stumbles(ns, g, p, segs, k + 1);
      }
    }
  }

  // ---------- where the nodes found lie ----------

  lemma FoundChild(ns: Nodes, g: Shape, p: int, name: string)
    requires Well(ns, g) && p in ns
    ensures p in g.kids
    ensures var r := Find(ns, g, p, name);
            if r == NULL then forall m <- ns :: ns[m].parent == p ==> ns[m].name != name
            else r in ns && ns[r].parent == p && ns[r].name == name
  {
    var s, r := g.kids[p], Find(ns, g, p, name);
    if r == NULL {
      forall m <- ns | ns[m].parent == p ensures ns[m].name != name {
        NotIn(ns, s, name, m);
      }
    } else {
      var i :| 0 <= i < |s| && s[i] == r;
      assert ChildAt(ns, g, p, i);
    }
  }

  lemma {:induction false} NotIn(ns: Nodes, s: seq<int>, name: string, m: int)
    requires FindIn(ns, s, name) == NULL && m in s && m in ns && m != NULL
    ensures ns[m].name != name
  {
    if s[0] != m {
      NotIn(ns, s[1..], name, m);
    }
  }

  /** The last |segs| nodes on the way down to n have these names. */
  ghost predicate Named(ns: Nodes, n: int, segs: seq<string>) {
    forall i :: 0 <= i < |segs| ==> HasName(ns, Up(ns, n, |segs| - 1 - i), segs[i])
  }

  ghost predicate HasName(ns: Nodes, n: int, name: string) { n in ns && ns[n].name == name }

  /** Following a path leads as many links down as it has names, past nodes of those names. */
  lemma {:induction false} DownNamed(ns: Nodes, g: Shape, p: int, segs: seq<string>)
    requires Well(ns, g) && p in ns
    ensures var r := Down(ns, g, p, segs);
            r != NULL ==> r in ns && Up(ns, r, |segs|) == p && Named(ns, r, segs)
    decreases |segs|
  {
    hide Well, Find;
    WellRoot(ns, g);
    if segs != [] {
      FoundChild(ns, g, p, segs[0]);
      var m := Find(ns, g, p, segs[0]);
      if m != NULL {
        DownNamed(ns, g, m, segs[1..]);
        var r := Down(ns, g, m, segs[1..]);
        if r != NULL {
          UpUp(ns, r, |segs| - 1, 1);
          assert Up(ns, m, 1) == p;
          forall i | 0 <= i < |segs|
            ensures HasName(ns, Up(ns, r, |segs| - 1 - i), segs[i])
          {
            if i > 0 {
              assert HasName(ns, Up(ns, r, |segs[1..]| - 1 - (i - 1)), segs[1..][i - 1]);
            }
          }
        }
      }
    }
  }

  /** A node found for an unprefixed name, without the search above, lies below the scope. */
  lemma StaysBelow(ns: Nodes, g: Shape, name: NameString, scope: int)
    requires Well(ns, g) && scope in ns && name.Wf() && !name.Prefixed()
    ensures var r := TextLookup(ns, g, Text(name), scope, false);
            r.Found? ==> r.node in ns && Up(ns, r.node, |name.segs|) == scope && Named(ns, r.node, name.segs)
  {
    hide Well, TextLookup, Down, Up, Named;
    TextBelow(ns, g, name, scope);
    NoPrefix(name);
    BaseNone(ns, g, scope);
    DownNamed(ns, g, scope, name.segs);
  }

  /** Whatever the path, what is found is a node, and without the search above one at or below the start. */
  lemma {:induction false} TextDownIn(ns: Nodes, g: Shape, p: int, s: string, single: bool, above: bool, scope: int)
    requires Well(ns, g) && p in ns && scope in ns
    ensures var r := TextDown(ns, g, p, s, single, above, scope);
            && (r.Found? || r.NotFound?) && (r.Found? ==> r.node in ns) && (r.Found? && !above ==> Under(ns, r.node, p))
    decreases |s|
  {
    hide Well, Find, Pad, SearchUp, Under;
    if s == [] {
      Reaches(ns, p, 0);
    } else {
      var t := if s[0] == '.' then s[1..] else s;
      var k := SegLen(t, 4);
      FoundChild(ns, g, p, Pad(t[..k]));
      WellRoot(ns, g);
      var r := Find(ns, g, p, Pad(t[..k]));
      if r != NULL {
        TextDownIn(ns, g, r, t[k..], single && k == |t|, above, scope);
        if TextDown(ns, g, p, s, single, above, scope).Found? && !above {
          assert Up(ns, r, 1) == p;
          Reaches(ns, r, 1);
          UnderUnder(ns, g, TextDown(ns, g, p, s, single, above, scope).node, r, p);
        }
      } else if scope != ROOT {
        ParentAbove(ns, g, scope);
        SearchedIn(ns, g, ns[scope].parent, Pad(t[..k]));
      }
    }
  }

  lemma SearchedIn(ns: Nodes, g: Shape, p: int, name: string)
    requires Well(ns, g) && p in ns
    ensures SearchUp(ns, g, p, name) == NULL || SearchUp(ns, g, p, name) in ns
  {
    var k := Nearest(ns, g, p, name);
  }

  lemma TextIn(ns: Nodes, g: Shape, path: string, scope: int, above: bool)
    requires Well(ns, g) && scope in ns
    ensures var r := TextLookup(ns, g, path, scope, above);
            && !r.Denied? && (r.Found? ==> r.node in ns)
            && (r.Found? && !above && PrefixLen(path) == 0 ==> Under(ns, r.node, scope))
  {
    hide Well, TextDown, PrefixLen, Under;
    var p := PrefixLen(path);
    var start := Base(ns, g, scope, path[..p], false);
    if start != NULL {
      TextDownIn(ns, g, start, path[p..], p == 0, above, scope);
    }
  }

  /** Carets lead one link up each, and not beyond the root. */
  lemma {:induction false} CaretsLead(ns: Nodes, g: Shape, n: int, k: nat, caret: bool)
    requires Well(ns, g) && n in ns
    ensures Base(ns, g, n, seq(k, _ => '^'), caret) == Up(ns, n, k)
    decreases k
  {
    hide Well;
    WellRoot(ns, g);
    var s := seq(k, _ => '^');
    if k > 0 {
      if n == ROOT {
        RootTop(ns, g, k);
      } else {
        ParentAbove(ns, g, n);
        assert s[1..] == seq(k - 1, _ => '^');
        CaretsLead(ns, g, ns[n].parent, k - 1, true);
      }
    }
  }

  lemma RootTop(ns: Nodes, g: Shape, k: nat)
    requires Well(ns, g) && k > 0
    ensures Up(ns, ROOT, k) == NULL
  {
    Nowhere(ns, NULL, k - 1);
  }

  /** The upward search finds the name in the nearest scope at or above the first that has it. */
  lemma {:induction false} Nearest(ns: Nodes, g: Shape, p: int, name: string) returns (k: nat)
    requires Well(ns, g) && p in ns
    ensures forall j: nat :: j < k ==> Lacks(ns, Up(ns, p, j), name)
    ensures var r, q := SearchUp(ns, g, p, name), Up(ns, p, k);
            if r == NULL then q == NULL else q in ns && r in ns && ns[r].parent == q && ns[r].name == name
    decreases g.depth[p]
  {
    hide Find;
    FoundChild(ns, g, p, name);
    if Find(ns, g, p, name) != NULL {
      k := 0;
    } else if p == ROOT {
      RootTop(ns, g, 1);
      k := 1;
    } else {
      ParentAbove(ns, g, p);
      var l := Nearest(ns, g, ns[p].parent, name);
      k := l + 1;
      forall j: nat | j < k ensures Lacks(ns, Up(ns, p, j), name) {
        if j > 0 {
          assert Lacks(ns, Up(ns, ns[p].parent, j - 1), name);
        }
      }
    }
  }

  /** The scope p has no node of this name. */
  ghost predicate Lacks(ns: Nodes, p: int, name: string) {
    forall m <- ns :: ns[m].parent == p ==> ns[m].name != name
  }

  lemma BaseNone(ns: Nodes, g: Shape, n: int)
    requires Well(ns, g) && n in ns
    ensures Base(ns, g, n, "", false) == n
  {
  }

  lemma SingleText(ns: Nodes, g: Shape, scope: int, seg: string)
    requires Well(ns, g) && scope in ns && ValidSeg(seg)
    ensures TextDown(ns, g, scope, seg, true, true, scope) == OutcomeOf(SearchUp(ns, g, scope, seg))
  {
    hide Well, Find;
    JoinFirst([seg]);
    WellRoot(ns, g);
    FoundIn(ns, g, scope, seg);
    assert Join([seg]) == seg;
  }

  /** The text stored for a name resolves, with the upward search, to the node the bytes resolve to, or
      fails for the same reason. */
  lemma ResolversAgree(ns: Nodes, g: Shape, name: NameString, multi: bool, rest: string, scope: int)
    requires Well(ns, g) && scope in ns && name.Wf() && HasForm(name, multi)
    ensures var code := Encode(name, multi) + rest;
            PathOf(code).Path? && TextLookup(ns, g, PathOf(code).text, scope, true) == BytesLookup(ns, g, code, scope)
  {
    hide *;
    BytesMeaning(ns, g, name, multi, rest, scope);
    PathText(name, multi, rest);
    TextMeaning(ns, g, name, scope);
  }

  lemma MultiText(seg: string)
    requires ValidSeg(seg)
    ensures var code := [MULTI, 1 as char] + seg;
            && PrefixLen(code) == 0 && PrefixLen(seg) == 0 && PathOf(code) == Path(seg)
            && ReadHead(code) == Head(2, 1, false)
  {
    var code := [MULTI, 1 as char] + seg;
    assert code[2..] == seg && code[0..] == code && code[..0] == "" && seg[..4] == seg;
  }

  lemma MultiBytes(ns: Nodes, g: Shape, seg: string, scope: int)
    requires Well(ns, g) && scope in ns && ValidSeg(seg)
    ensures scope in g.kids && BytesLookup(ns, g, [MULTI, 1 as char] + seg, scope) == OutcomeOf(Find(ns, g, scope, seg))
  {
    var code := [MULTI, 1 as char] + seg;
    MultiText(seg);
    WellRoot(ns, g);
    FoundIn(ns, g, scope, seg);
    BaseNone(ns, g, scope);
    hide Well, Find, Base, PrefixLen, ReadHead;
    assert code[2..] == seg && code[0..] == code && code[..0] == "" && seg[..4] == seg;
  }

  lemma OneText(ns: Nodes, g: Shape, seg: string, scope: int)
    requires Well(ns, g) && scope in ns && ValidSeg(seg)
    ensures TextLookup(ns, g, seg, scope, true) == OutcomeOf(SearchUp(ns, g, scope, seg))
  {
    MultiText(seg);
    WellRoot(ns, g);
    BaseNone(ns, g, scope);
    SingleText(ns, g, scope, seg);
    hide Well, Find, Base, PrefixLen, TextDown, SearchUp;
    assert seg[0..] == seg && seg[..0] == "";
  }

  /** A MultiNamePath of one segment and no prefix is searched upwards as text but not as bytes: the two
      agree exactly when the scope itself has the name or nothing above it does. */
  lemma MultiOfOne(ns: Nodes, g: Shape, seg: string, scope: int)
    requires Well(ns, g) && scope in ns && ValidSeg(seg)
    ensures var code := [MULTI, 1 as char] + seg;
            && PathOf(code) == Path(seg)
            && (TextLookup(ns, g, seg, scope, true) == BytesLookup(ns, g, code, scope)
                <==> scope in g.kids && (Find(ns, g, scope, seg) != NULL || SearchUp(ns, g, scope, seg) == NULL))
  {
    hide Well, Find, TextLookup, BytesLookup, PathOf, ValidSeg;
    MultiText(seg);
    MultiBytes(ns, g, seg, scope);
    OneText(ns, g, seg, scope);
  }

  /** A namespace with one node below its root. */
  function SmallTree(): Nodes {
    map[ROOT := Node("\\___", 2, NULL, NULL, 0, false), 2 := Node("_SB_", NULL, NULL, ROOT, 0, false)]
  }

  ghost function SmallShape(): Shape {
    Shape(map[ROOT := [2], 2 := []], map[ROOT := 0, 2 := 1], 1)
  }

  lemma SmallWell()
    ensures Well(SmallTree(), SmallShape())
  {
  }

  /** From inside `_SB_`, the name `_SB_` as a MultiNamePath is found as text and not as bytes. */
  lemma MultiDiffers()
    ensures Well(SmallTree(), SmallShape()) && 2 in SmallTree() && ValidSeg("_SB_")
    ensures var code := [MULTI, 1 as char] + "_SB_";
            && PathOf(code) == Path("_SB_") && BytesLookup(SmallTree(), SmallShape(), code, 2) == NotFound
            && TextLookup(SmallTree(), SmallShape(), "_SB_", 2, true) == Found(2)
  {
    SmallWell();
    MultiText("_SB_");
    MultiBytes(SmallTree(), SmallShape(), "_SB_", 2);
    OneText(SmallTree(), SmallShape(), "_SB_", 2);
    hide Well, TextLookup, BytesLookup, PathOf, PrefixLen, ReadHead;
    assert Find(SmallTree(), SmallShape(), 2, "_SB_") == NULL;
    assert SmallShape().kids[ROOT][0] == 2;
    assert Find(SmallTree(), SmallShape(), ROOT, "_SB_") == 2;
  }

  /** A NullName without a prefix is refused as bytes; as text it is the empty path, which names the scope. */
  lemma BareNull(ns: Nodes, g: Shape, scope: int)
    requires Well(ns, g) && scope in ns
    ensures BytesLookup(ns, g, [NULLNAME], scope) == Invalid && PathOf([NULLNAME]) == Path("")
    ensures TextLookup(ns, g, "", scope, true) == Found(scope)
  {
    hide Well;
    WellRoot(ns, g);
  }
}
