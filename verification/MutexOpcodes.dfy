/** The Acquire and Release operators (src/acpi/uacpi/interpreter.c): which mutexes an execution context holds,
    in which order, and at which sync level it runs.  A thread runs one context; other threads may take and
    free other mutexes between any two operators. */
module MutexOpcodes {
  import opened Basics
  import opened HeldMutexes

  datatype Owner = Nobody | Me | Other

  datatype Mutex = Mutex(level: int, owner: Owner, depth: int)

  type Mutexes = map<int, Mutex>

  datatype Status = Ok | OutOfMemory | Refused

  /** What the context holds: every mutex it owns once, in order of their levels. */
  ghost predicate InOrder(ms: Mutexes, s: seq<int>) {
    && (forall m <- s :: m in ms)
    && (forall i, j :: 0 <= i < j < |s| ==>
            s[i] != s[j] && (s[i] in ms && s[j] in ms ==> ms[s[i]].level <= ms[s[j]].level))
  }

  ghost predicate Exactly(ms: Mutexes, s: seq<int>) {
    (forall m :: m in s <==> m in ms && ms[m].owner.Me?) && (forall m <- ms :: ms[m].owner.Me? ==> ms[m].depth >= 1)
  }

  /** The level of the last mutex, 0 if there is none. */
  ghost function LevelOf(ms: Mutexes, s: seq<int>): int {
    if s != [] && s[|s| - 1] in ms then ms[s[|s| - 1]].level else 0
  }

  ghost predicate Consistent(ms: Mutexes, s: seq<int>, level: int) {
    InOrder(ms, s) && Exactly(ms, s) && level == LevelOf(ms, s) && forall m <- ms :: ms[m].level >= 0
  }

  /** Other threads change only mutexes that this context does not own, and no levels. */
  predicate Interference(ms: Mutexes, ms': Mutexes) {
    && ms'.Keys == ms.Keys
    && forall m <- ms :: ms'[m].level == ms[m].level
                         && (ms[m].owner.Me? <==> ms'[m].owner.Me?) && (ms[m].owner.Me? ==> ms'[m] == ms[m])
  }

  lemma InterferenceKeeps(ms: Mutexes, ms': Mutexes, s: seq<int>, level: int)
    requires Consistent(ms, s, level) && Interference(ms, ms')
    ensures Consistent(ms', s, level)
  {
    forall m | m in s ensures m in ms' {
      assert m in ms;
    }
    if s != [] {
      var last := s[|s| - 1];
      assert last in s;
    }
  }

  lemma PushKeeps(ms: Mutexes, s: seq<int>, level: int, m: int)
    requires Consistent(ms, s, level) && m in ms && !ms[m].owner.Me? && level <= ms[m].level
    ensures Consistent(ms[m := ms[m].(owner := Me, depth := 1)], s + [m], ms[m].level)
  {
    var ms', t := ms[m := ms[m].(owner := Me, depth := 1)], s + [m];
    assert m !in s;
    forall i, j | 0 <= i < j < |t|
      ensures t[i] != t[j] && (t[i] in ms' && t[j] in ms' ==> ms'[t[i]].level <= ms'[t[j]].level)
    {
      assert t[i] in s;
      if j == |s| {
        var last := s[|s| - 1];
        assert last in s && ms[last].level == level;
        assert i < |s| - 1 ==> ms[s[i]].level <= ms[last].level;
      }
    }
  }

  lemma NestKeeps(ms: Mutexes, s: seq<int>, level: int, m: int, d: int)
    requires Consistent(ms, s, level) && m in ms && ms[m].owner.Me? && d >= 1
    ensures Consistent(ms[m := ms[m].(depth := d)], s, level)
  {
    var ms' := ms[m := ms[m].(depth := d)];
    forall x | x in s ensures x in ms' {
      assert x in ms;
    }
    if s != [] {
      var last := s[|s| - 1];
      assert last in s;
    }
  }

  lemma WithoutHas(s: seq<int>, i: int, x: int)
    requires 0 <= i < |s| && forall a, b :: 0 <= a < b < |s| ==> s[a] != s[b]
    ensures x in Without(s, i) <==> x in s && x != s[i]
  {
    var t := Without(s, i);
    if x in s && x != s[i] {
      var k :| 0 <= k < |s| && s[k] == x;
      assert t[if k < i then k else k - 1] == x;
    }
  }

  lemma WithoutOrder(ms: Mutexes, s: seq<int>, i: int)
    requires InOrder(ms, s) && 0 <= i < |s|
    ensures InOrder(ms, Without(s, i))
  {
    var t := Without(s, i);
    forall a, b | 0 <= a < b < |t|
      ensures t[a] != t[b] && (t[a] in ms && t[b] in ms ==> ms[t[a]].level <= ms[t[b]].level)
    {
      var a', b' := if a < i then a else a + 1, if b < i then b else b + 1;
      assert t[a] == s[a'] && t[b] == s[b'];
    }
  }

  lemma RemoveKeeps(ms: Mutexes, s: seq<int>, level: int, i: int)
    requires Consistent(ms, s, level) && 0 <= i < |s| && s[i] in ms
    ensures var ms', t := ms[s[i] := ms[s[i]].(owner := Nobody, depth := 0)], Without(s, i);
            Consistent(ms', t, LevelOf(ms', t))
  {
    var m, t := s[i], Without(s, i);
    var ms' := ms[m := ms[m].(owner := Nobody, depth := 0)];
    forall x ensures x in t <==> x in s && x != m {
      WithoutHas(s, i, x);
    }
    WithoutOrder(ms, s, i);
    hide Without;
    assert InOrder(ms', t);
  }

  lemma OwnedHeld(ms: Mutexes, s: seq<int>, level: int, m: int)
    requires Consistent(ms, s, level) && m in ms && ms[m].owner.Me?
    ensures ms[m].depth >= 1 && m in s
  {
  }

  lemma LastIn(ms: Mutexes, s: seq<int>, level: int)
    requires Consistent(ms, s, level)
    ensures if s == [] then level == 0 else s[|s| - 1] in ms && level == ms[s[|s| - 1]].level
  {
    if s != [] {
      var last := s[|s| - 1];
      assert last in s;
    }
  }

  /** An acquire is refused for a lower level, at the largest depth, or if another thread keeps the mutex. */
  predicate Refuses(level: int, x: Mutex, granted: bool) {
    level > x.level || if x.owner.Me? then x.depth == MAX_DEPTH else !granted || !x.owner.Nobody?
  }

  // ---------- what the operators do ----------

  /** The mutexes, those that the context holds, and its sync level. */
  datatype State = State(ms: Mutexes, held: seq<int>, level: int)

  /** Acquire: refused, one deeper, or pushed at the end, which may fail for lack of memory. */
  ghost predicate Acquires(s: State, m: int, granted: bool, room: bool, st: Status, s': State)
    requires m in s.ms
  {
    var x := s.ms[m];
    match st
    case Refused => Refuses(s.level, x, granted) && s' == s
    case OutOfMemory =>
      && !Refuses(s.level, x, granted) && !x.owner.Me? && !room && |s.held| >= INLINE
      && s' == s.(ms := s.ms[m := x.(owner := Nobody, depth := 0)])
    case Ok =>
      && !Refuses(s.level, x, granted)
      && s' == if x.owner.Me? then s.(ms := s.ms[m := x.(depth := x.depth + 1)])
               else State(s.ms[m := x.(owner := Me, depth := 1)], s.held + [m], x.level)
  }

  /** Release: refused unless the mutex is held at the current level; then one less deep, or taken out of the
      list, and the level is that of the last mutex left. */
  ghost predicate Releases(s: State, m: int, st: Status, s': State)
    requires m in s.ms
  {
    var x := s.ms[m];
    match st
    case Refused => !(x.owner.Me? && x.level == s.level) && s' == s
    case OutOfMemory => false
    case Ok =>
      && x.owner.Me? && x.level == s.level
      && if x.depth > 1 then s' == s.(ms := s.ms[m := x.(depth := x.depth - 1)])
         else && s'.ms == s.ms[m := x.(owner := Nobody, depth := 0)] && s'.level == LevelOf(s'.ms, s'.held)
              && exists i :: 0 <= i < |s.held| && s.held[i] == m && s'.held == Without(s.held, i)
  }

  /** A mutex that the context owns and may acquire again is at the level of the context. */
  lemma OwnLevel(ms: Mutexes, s: seq<int>, level: int, m: int)
    requires Consistent(ms, s, level) && m in ms && ms[m].owner.Me? && level <= ms[m].level
    ensures ms[m].level == level
  {
    OwnedHeld(ms, s, level, m);
    LastIn(ms, s, level);
    hide Exactly;
    var i :| 0 <= i < |s| && s[i] == m;
    assert i < |s| - 1 ==> ms[s[i]].level <= ms[s[|s| - 1]].level;
  }

  lemma NotHeld(ms: Mutexes, s: seq<int>, level: int, m: int, x: Mutex)
    requires Consistent(ms, s, level) && m in ms && !ms[m].owner.Me?
    ensures m !in s && LevelOf(ms[m := x], s) == level
  {
  }

  lemma WithoutLast(s: seq<int>, m: int, i: int)
    requires m !in s && 0 <= i <= |s| && (s + [m])[i] == m
    ensures Without(s + [m], i) == s
  {
    assert forall k :: 0 <= k < |s| ==> (s + [m])[k] == s[k] != m;
  }

  lemma NestedUndone(s: State, m: int, s1: State, st: Status, s2: State)
    requires m in s.ms && s.ms[m].owner.Me? && s.ms[m].depth >= 1 && s.ms[m].level == s.level
    requires s1 == s.(ms := s.ms[m := s.ms[m].(depth := s.ms[m].depth + 1)]) && Releases(s1, m, st, s2)
    ensures st.Ok? && s2 == s
  {
    hide LevelOf, Without;
    assert st.Ok?;
    assert s2.ms == s.ms;
  }

  lemma PushUndone(s: State, m: int, s1: State, st: Status, s2: State)
    requires m in s.ms && m !in s.held && LevelOf(s.ms[m := s.ms[m].(owner := Nobody, depth := 0)], s.held) == s.level
    requires s1 == State(s.ms[m := s.ms[m].(owner := Me, depth := 1)], s.held + [m], s.ms[m].level)
    requires Releases(s1, m, st, s2)
    ensures st.Ok? && s2 == s.(ms := s.ms[m := s.ms[m].(owner := Nobody, depth := 0)])
  {
    hide LevelOf, Without;
    assert st.Ok?;
    var i :| 0 <= i < |s1.held| && s1.held[i] == m && s2.held == Without(s1.held, i);
    WithoutLast(s.held, m, i);
    assert s2.ms == s.ms[m := s.ms[m].(owner := Nobody, depth := 0)];
  }

  /** Releasing at once what was acquired succeeds and undoes it, but for the state of a mutex nobody held. */
  lemma ReleaseUndoes(s: State, m: int, granted: bool, room: bool, s1: State, st: Status, s2: State)
    requires m in s.ms && Consistent(s.ms, s.held, s.level) && Acquires(s, m, granted, room, Ok, s1)
    requires Releases(s1, m, st, s2)
    ensures st.Ok? && s2.held == s.held && s2.level == s.level
    ensures if s.ms[m].owner.Me? then s2 == s else s2.ms == s.ms[m := s.ms[m].(owner := Nobody, depth := 0)]
  {
    hide Releases;
    if s.ms[m].owner.Me? {
      OwnedHeld(s.ms, s.held, s.level, m);
      OwnLevel(s.ms, s.held, s.level, m);
      NestedUndone(s, m, s1, st, s2);
    } else {
      NotHeld(s.ms, s.held, s.level, m, s.ms[m].(owner := Nobody, depth := 0));
      PushUndone(s, m, s1, st, s2);
    }
  }

  class Context {
    const held: HeldArray
    var level: int
    var mutexes: Mutexes

    ghost predicate Valid()
      reads this, held
    {
      held.Valid() && Consistent(mutexes, held.Contents(), level)
    }

    ghost function Now(): State
      requires held.Valid()
      reads this, held
    {
      State(mutexes, held.Contents(), level)
    }

    constructor (ms: Mutexes)
      requires forall m <- ms :: !ms[m].owner.Me? && ms[m].level >= 0
      ensures Valid() && fresh(held) && Now() == State(ms, [], 0)
    {
      held := new HeldArray();
      level, mutexes := 0, ms;
    }

    /** The Acquire operator.  granted: the native mutex was had in time; room: memory for the list could be had. */
    method Acquire(m: int, granted: bool, room: bool) returns (st: Status)
      requires Valid() && m in mutexes
      modifies this, held
      ensures Valid() && Acquires(old(Now()), m, granted, room, st, Now())
      ensures old(level) > old(mutexes)[m].level ==> st.Refused?
      ensures old(level) <= old(mutexes)[m].level ==>
                match old(mutexes)[m].owner
                case Nobody => st.Ok? <==> granted && (room || old(held.size) < INLINE + old(|held.dyn|))
                case Me => st.Ok? <==> old(mutexes)[m].depth != MAX_DEPTH
                case Other => st.Refused?
    {
      hide Consistent;
      ghost var ms, s, l := mutexes, held.Contents(), level;
      var x := mutexes[m];
      if level > x.level {
        return Refused;
      }
      if x.owner.Me? {
        if x.depth == MAX_DEPTH {
          return Refused;
        }
        OwnedHeld(ms, s, l, m);
        NestKeeps(ms, s, l, m, x.depth + 1);
        mutexes := mutexes[m := x.(depth := x.depth + 1)];
        return Ok;
      }
      if !granted || !x.owner.Nobody? {
        return Refused;
      }
      PushKeeps(ms, s, l, m);
      mutexes := mutexes[m := x.(owner := Me, depth := 1)];
      var pushed := held.Push(m, room);
      if !pushed {
        mutexes := mutexes[m := x.(owner := Nobody, depth := 0)];
        InterferenceKeeps(ms, mutexes, s, l);
        return OutOfMemory;
      }
      level := x.level;
      st := Ok;
    }

    /** The search for a mutex from the end of the list. */
    method Find(m: int) returns (i: int)
      requires held.Valid() && m in held.Contents()
      ensures 0 <= i < held.size && held.Contents()[i] == m
    {
      i := held.size - 1;
      while held.At(i) != m
        invariant 0 <= i < held.size && m in held.Contents()[..i + 1]
        decreases i
      {
        assert held.Contents()[..i + 1] == held.Contents()[..i] + [held.Contents()[i]];
        i := i - 1;
      }
    }

    /** The Release operator. */
    method Release(m: int) returns (st: Status)
      requires Valid() && m in mutexes
      modifies this, held
      ensures Valid() && Releases(old(Now()), m, st, Now())
    {
      hide Consistent;
      ghost var ms, s, l := mutexes, held.Contents(), level;
      var x := mutexes[m];
      if !x.owner.Me? {
        return Refused;
      }
      OwnedHeld(ms, s, l, m);
      LastIn(ms, s, l);
      var last := held.At(held.size - 1);
      if mutexes[last].level != x.level {
        level := mutexes[last].level;
        return Refused;
      }
      st := Ok;
      if x.depth > 1 {
        NestKeeps(ms, s, l, m, x.depth - 1);
        mutexes := mutexes[m := x.(depth := x.depth - 1)];
        return;
      }
      ghost var i := held.size - 1;
      if last == m {
        assert s[..held.size - 1] == Without(s, held.size - 1);
        held.Pop();
      } else {
        var k := Find(m);
        i := k;
        held.RemoveIdx(k);
      }
      RemoveKeeps(ms, s, l, i);
      mutexes := mutexes[m := x.(owner := Nobody, depth := 0)];
      LastIn(mutexes, held.Contents(), LevelOf(mutexes, held.Contents()));
      if held.size == 0 {
        level := 0;
      } else {
        level := mutexes[held.At(held.size - 1)].level;
      }
    }

    /** Other threads at work. */
    method Elsewhere(ms: Mutexes)
      requires Valid() && Interference(mutexes, ms)
      modifies this`mutexes
      ensures Valid() && Now() == old(Now()).(ms := ms)
    {
      InterferenceKeeps(mutexes, ms, held.Contents(), level);
      mutexes := ms;
    }
  }

  // ---------- runs ----------

  datatype Op = DoAcquire(m: int, granted: bool, room: bool) | DoRelease(m: int) | DoElsewhere(after: Mutexes)

  /** Operators on what is not a mutex, and impossible changes by other threads, do not occur. */
  ghost predicate Does(s: State, op: Op, s': State) {
    match op
    case DoAcquire(m, granted, room) =>
      if m in s.ms then exists st :: Acquires(s, m, granted, room, st, s') else s' == s
    case DoRelease(m) => if m in s.ms then exists st :: Releases(s, m, st, s') else s' == s
    case DoElsewhere(after) => s' == if Interference(s.ms, after) then s.(ms := after) else s
  }

  method Perform(c: Context, op: Op)
    requires c.Valid()
    modifies c, c.held
    ensures c.Valid() && Does(old(c.Now()), op, c.Now())
  {
    hide Acquires, Releases, Consistent, HeldArray.Valid;
    match op {
      case DoAcquire(m, granted, room) =>
        if m in c.mutexes {
          var st := c.Acquire(m, granted, room);
        }
      case DoRelease(m) =>
        if m in c.mutexes {
          var st := c.Release(m);
        }
      case DoElsewhere(after) =>
        if Interference(c.mutexes, after) {
          c.Elsewhere(after);
        }
    }
  }

  /** Any sequence of operators, with other threads at work in between: at every point the context holds
      exactly what it owns, in order of the levels, and runs at the level of the last. */
  method Run(ms: Mutexes, ops: seq<Op>) returns (c: Context, ghost trace: seq<State>)
    requires forall m <- ms :: !ms[m].owner.Me? && ms[m].level >= 0
    ensures fresh(c) && c.Valid() && |trace| == |ops| + 1 && trace[0] == State(ms, [], 0) && trace[|ops|] == c.Now()
    ensures forall i :: 0 <= i < |ops| ==> Does(trace[i], ops[i], trace[i + 1])
    ensures forall i :: 0 <= i <= |ops| ==> Consistent(trace[i].ms, trace[i].held, trace[i].level)
  {
    hide Does, Consistent, HeldArray.Valid, HeldArray.Contents;
    c := new Context(ms);
    trace := [c.Now()];
    for i := 0 to |ops|
      invariant fresh(c) && fresh(c.held) && c.Valid() && |trace| == i + 1
      invariant trace[0] == State(ms, [], 0) && trace[i] == c.Now()
      invariant forall k :: 0 <= k < i ==> Does(trace[k], ops[k], trace[k + 1])
      invariant forall k :: 0 <= k <= i ==> Consistent(trace[k].ms, trace[k].held, trace[k].level)
    {
      Perform(c, ops[i]);
      trace := trace + [c.Now()];
    }
  }
}
