/** AML mutexes and recursive locks (src/acpi/uacpi/mutex.c) for any number of threads: a native mutex with an
    owner field that is read without holding it, and a nesting depth.  Every access to the owner, the depth
    and the native mutex is a step of its own. */
module OwnerMutex {
  /** n is the number of acquires of this thread that are not released yet. */
  datatype Pc =
    | Out
    | Tested                // acquire: the owner was another thread or none
    | GotNative             // acquire: has the native mutex
    | Stored                // acquire: has stored itself as the owner
    | Held(n: nat)
    | Nesting(n: nat)       // acquire: the owner was this thread
    | Last                  // release: the depth was one, and is now zero
    | Cleared               // release: has stored that there is no owner

  /** Threads are numbered from 0; -1 is `UACPI_THREAD_ID_NONE` and nobody. */
  datatype State = State(pcs: seq<Pc>, native: int, owner: int, depth: int)

  datatype Step =
    | TestOwner(t: int) | TakeNative(t: int) | FailNative(t: int)
    | GiveBack(t: int) | StoreOwner(t: int) | SetDepth(t: int)
    | Nest(t: int) | Refuse(t: int) | Unnest(t: int) | ClearOwner(t: int) | FreeNative(t: int)

  /** The depth at which a nested acquire is refused: 0xFFFF for AML mutexes; recursive locks have none. */
  datatype Limit = Limit(depth: int) | Unlimited

  predicate Enabled(s: State, a: Step, limit: Limit) {
    && 0 <= a.t < |s.pcs|
    && var pc := s.pcs[a.t];
       match a
       case TestOwner(_) => pc.Out? || pc.Held?
       case TakeNative(_) => pc.Tested? && s.native == -1
       case FailNative(_) => pc.Tested?                  // a timeout or a host error
       case GiveBack(_) => pc.GotNative?                 // the global lock could not be had from the firmware
       case StoreOwner(_) => pc.GotNative?
       case SetDepth(_) => pc.Stored?
       case Nest(_) => pc.Nesting? && !(limit.Limit? && s.depth == limit.depth)
       case Refuse(_) => pc.Nesting? && limit.Limit? && s.depth == limit.depth
       case Unnest(_) => pc.Held?
       case ClearOwner(_) => pc.Last?
       case FreeNative(_) => pc.Cleared?
  }

  function Apply(s: State, a: Step, limit: Limit): State
    requires Enabled(s, a, limit)
  {
    var t, pc := a.t, s.pcs[a.t];
    match a
    case TestOwner(_) => s.(pcs := s.pcs[t := if s.owner == t then Nesting(if pc.Held? then pc.n else 0) else Tested])
    case TakeNative(_) => s.(pcs := s.pcs[t := GotNative], native := t)
    case FailNative(_) => s.(pcs := s.pcs[t := Out])
    case GiveBack(_) => s.(pcs := s.pcs[t := Out], native := -1)
    case StoreOwner(_) => s.(pcs := s.pcs[t := Stored], owner := t)
    case SetDepth(_) => s.(pcs := s.pcs[t := Held(1)], depth := 1)
    case Nest(_) => s.(pcs := s.pcs[t := Held(pc.n + 1)], depth := s.depth + 1)
    case Refuse(_) => s.(pcs := s.pcs[t := Held(pc.n)])
    case Unnest(_) =>
      s.(pcs := s.pcs[t := if s.depth > 1 then Held(if pc.n > 0 then pc.n - 1 else 0) else Last], depth := s.depth - 1)
    case ClearOwner(_) => s.(pcs := s.pcs[t := Cleared], owner := -1)
    case FreeNative(_) => s.(pcs := s.pcs[t := Out], native := -1)
  }

  predicate HasNative(pc: Pc) { !pc.Out? && !pc.Tested? }

  /** The threads whose number the owner field may hold. */
  predicate IsOwner(pc: Pc) { pc.Stored? || pc.Held? || pc.Nesting? || pc.Last? }

  /** The owner field names a thread only while that thread has the native mutex, and the depth is the number
      of its acquires. */
  ghost predicate Inv(s: State) {
    && -1 <= s.native < |s.pcs| && -1 <= s.owner < |s.pcs|
    && (forall t :: 0 <= t < |s.pcs| ==>
            (HasNative(s.pcs[t]) <==> s.native == t) && (IsOwner(s.pcs[t]) <==> s.owner == t))
    && (forall t :: 0 <= t < |s.pcs| && (s.pcs[t].Held? || s.pcs[t].Nesting?) ==> s.pcs[t].n == s.depth && s.depth >= 1)
  }

  lemma StepKeeps(s: State, a: Step, limit: Limit)
    requires Inv(s) && Enabled(s, a, limit)
    ensures Inv(Apply(s, a, limit))
  {
  }

  /** The unlocked test is right: it finds this thread exactly if this thread holds the mutex. */
  lemma TestSound(s: State, t: int, limit: Limit)
    requires Inv(s) && Enabled(s, TestOwner(t), limit)
    ensures Apply(s, TestOwner(t), limit).pcs[t].Nesting? <==> s.pcs[t].Held?
  {
  }

  ghost predicate Start(s: State) {
    s.native == -1 && s.owner == -1 && forall t :: 0 <= t < |s.pcs| ==> s.pcs[t].Out?
  }

  ghost predicate Run(trace: seq<State>, steps: seq<Step>, limit: Limit) {
    |trace| == |steps| + 1
    && forall k :: 0 <= k < |steps| ==>
           Enabled(trace[k], steps[k], limit) && trace[k + 1] == Apply(trace[k], steps[k], limit)
  }

  /** For any number of threads, in every run, at every moment. */
  lemma {:induction false} RunKeeps(trace: seq<State>, steps: seq<Step>, limit: Limit, k: nat)
    requires Run(trace, steps, limit) && Start(trace[0]) && k < |trace|
    ensures Inv(trace[k])
  {
    if k > 0 {
      RunKeeps(trace, steps, limit, k - 1);
      StepKeeps(trace[k - 1], steps[k - 1], limit);
    }
  }

  /** Two threads never hold the mutex at the same time. */
  lemma Exclusive(s: State, t: int, u: int)
    requires Inv(s) && 0 <= t < |s.pcs| && 0 <= u < |s.pcs| && s.pcs[t].Held? && s.pcs[u].Held?
    ensures t == u
  {
  }

  /** Acquires of thread t in a run that have returned successfully, less its releases. */
  function Balance(steps: seq<Step>, t: int): int {
    if steps == [] then 0
    else
      var a := steps[|steps| - 1];
      Balance(steps[..|steps| - 1], t) + Gain(a, t)
  }

  ghost function Depth(pc: Pc): int { if pc.Held? || pc.Nesting? then pc.n else 0 }

  /** The depth counts the nested acquires: whenever thread t holds the mutex, the depth is the number of its
      acquires less the number of its releases. */
  lemma {:induction false} DepthCounts(trace: seq<State>, steps: seq<Step>, limit: Limit, k: nat, t: int)
    requires Run(trace, steps, limit) && Start(trace[0]) && k < |trace| && 0 <= t < |trace[k].pcs|
    ensures Balance(steps[..k], t) == Depth(trace[k].pcs[t])
    ensures trace[k].pcs[t].Held? ==> trace[k].depth == Balance(steps[..k], t)
  {
    hide Inv, Enabled, Apply, Depth;
    RunKeeps(trace, steps, limit, k);
    HeldDepth(trace[k], t);
    if k == 0 {
      NotHeld(trace[0], t);
    } else {
      RunKeeps(trace, steps, limit, k - 1);
      StepCounts(trace[k - 1], steps[k - 1], limit, t);
      DepthCounts(trace, steps, limit, k - 1, t);
      assert steps[..k][..k - 1] == steps[..k - 1];
    }
  }

  lemma HeldDepth(s: State, t: int)
    requires Inv(s) && 0 <= t < |s.pcs|
    ensures s.pcs[t].Held? ==> s.depth == Depth(s.pcs[t])
  {
  }

  lemma NotHeld(s: State, t: int)
    requires Start(s) && 0 <= t < |s.pcs|
    ensures Depth(s.pcs[t]) == 0
  {
  }

  /** What a step adds to the balance of thread t. */
  function Gain(a: Step, t: int): int {
    if a == SetDepth(t) || a == Nest(t) then 1 else if a == Unnest(t) then -1 else 0
  }

  lemma StepCounts(s: State, a: Step, limit: Limit, t: int)
    requires Inv(s) && Enabled(s, a, limit) && 0 <= t < |Apply(s, a, limit).pcs|
    ensures t < |s.pcs| && Depth(Apply(s, a, limit).pcs[t]) == Depth(s.pcs[t]) + Gain(a, t)
  {
  }

  /** With a limit, a nested acquire is refused exactly if the thread has that many acquires not yet released. */
  lemma RefusedAtLimit(s: State, t: int, limit: Limit)
    requires Inv(s) && 0 <= t < |s.pcs| && s.pcs[t].Nesting?
    ensures Enabled(s, Refuse(t), limit) <==> limit == Limit(s.pcs[t].n)
    ensures Enabled(s, Nest(t), limit) <==> limit != Limit(s.pcs[t].n)
  {
  }

  /** No thread ever has more acquires than the limit. */
  lemma {:induction false} DepthBounded(trace: seq<State>, steps: seq<Step>, limit: Limit, k: nat, t: int)
    requires Run(trace, steps, limit) && Start(trace[0]) && limit.Limit? && limit.depth >= 1
    requires k < |trace| && 0 <= t < |trace[k].pcs|
    ensures Balance(steps[..k], t) <= limit.depth
  {
    hide Inv, Run, Balance;
    DepthCounts(trace, steps, limit, k, t);
    PcBounded(trace, steps, limit, k, t);
  }

  lemma {:induction false} PcBounded(trace: seq<State>, steps: seq<Step>, limit: Limit, k: nat, t: int)
    requires Run(trace, steps, limit) && Start(trace[0]) && limit.Limit? && limit.depth >= 1
    requires k < |trace| && 0 <= t < |trace[k].pcs|
    ensures Depth(trace[k].pcs[t]) <= limit.depth
  {
    hide Inv, Depth, Apply, Enabled;
    if k == 0 {
      NotHeld(trace[0], t);
    } else {
      var s, a := trace[k - 1], steps[k - 1];
      RunKeeps(trace, steps, limit, k - 1);
      StepCounts(s, a, limit, t);
      PcBounded(trace, steps, limit, k - 1, t);
      StepBounded(s, a, limit, t);
    }
  }

  lemma StepBounded(s: State, a: Step, limit: Limit, t: int)
    requires Inv(s) && Enabled(s, a, limit) && 0 <= t < |s.pcs| && limit.Limit? && limit.depth >= 1
    requires Depth(s.pcs[t]) <= limit.depth
    ensures Depth(Apply(s, a, limit).pcs[t]) <= limit.depth
  {
  }
}
