/** Masking a general-purpose event against work in flight (src/acpi/uacpi/event.c; section 5.6.4 of ACPI 6.5).
    Interrupt and deferred work, any number of them at a time, set and clear enable bits of one register; the
    mask is looked at outside the spinlock under which the register is read, changed and written.  Masking waits
    for the work in flight, as `uacpi_kernel_wait_for_work_completion` promises
    (src/acpi/uacpi/kernel_api.h). */
module GpeMasking {
  const EVENTS: int := 8
  const MASKER: int := -2
  const NOBODY: int := -1

  type Bits = seq<bool>

  /** `set_gpe_state` for event e, done by work in flight. */
  datatype Worker =
    | Idle
    | Started(e: int, on: bool)                 // before the test of the mask
    | Going(e: int, on: bool)                   // past the test
    | Locked(e: int, on: bool)                  // has the spinlock
    | HasRead(e: int, on: bool, value: Bits)    // has read the register

  /** `gpe_mask_unmask`; left: the work that was in flight when the wait began and has not finished. */
  datatype Masker =
    | Free
    | Waiting(e: int, left: set<int>)
    | Ready(e: int)
    | MLocked(e: int)
    | MRead(e: int, value: Bits)
    | WaitingAgain(e: int, left: set<int>)

  /** settled: the events whose masking has returned and that have not been unmasked since. */
  datatype State = State(enable: Bits, masked: Bits, workers: seq<Worker>, masker: Masker, spin: int, settled: set<int>)

  datatype Step =
    | Begin(w: int, e: int, on: bool) | Skip(w: int) | Test(w: int) | Lock(w: int) | Read(w: int) | Write(w: int)
    | MaskBegin(e: int) | WaitDone | MaskLock | MaskRead | MaskWrite | WaitAgainDone | Unmask(e: int)

  predicate Event(e: int) { 0 <= e < EVENTS }

  function InFlight(ws: seq<Worker>): set<int> { set w | 0 <= w < |ws| && !ws[w].Idle? }

  predicate Enabled(s: State, a: Step) {
    match a
    case Begin(w, e, on) => 0 <= w < |s.workers| && s.workers[w].Idle? && Event(e)
    case Skip(w) => 0 <= w < |s.workers| && s.workers[w].Started?                // the event has no users
    case Test(w) => 0 <= w < |s.workers| && s.workers[w].Started?
    case Lock(w) => 0 <= w < |s.workers| && s.workers[w].Going? && s.spin == NOBODY
    case Read(w) => 0 <= w < |s.workers| && s.workers[w].Locked?
    case Write(w) => 0 <= w < |s.workers| && s.workers[w].HasRead?
    case MaskBegin(e) => s.masker.Free? && Event(e) && |s.masked| == EVENTS && !s.masked[e]
    case WaitDone => s.masker.Waiting? && s.masker.left == {}
    case MaskLock => s.masker.Ready? && s.spin == NOBODY
    case MaskRead => s.masker.MLocked?
    case MaskWrite => s.masker.MRead?
    case WaitAgainDone => s.masker.WaitingAgain? && s.masker.left == {}
    case Unmask(e) => s.masker.Free? && Event(e) && |s.masked| == EVENTS && s.masked[e]
  }

  /** A worker that finishes is no longer waited for. */
  function Finish(m: Masker, w: int): Masker {
    match m
    case Waiting(e, left) => Waiting(e, left - {w})
    case WaitingAgain(e, left) => WaitingAgain(e, left - {w})
    case _ => m
  }

  function Set(v: Bits, e: int, on: bool): Bits { if 0 <= e < |v| then v[e := on] else v }

  function Apply(s: State, a: Step): State
    requires Enabled(s, a)
  {
    match a
    case Begin(w, e, on) => s.(workers := s.workers[w := Started(e, on)])
    case Skip(w) => s.(workers := s.workers[w := Idle], masker := Finish(s.masker, w))
    case Test(w) =>
      var x := s.workers[w];
      if x.on && 0 <= x.e < |s.masked| && s.masked[x.e] then
        s.(workers := s.workers[w := Idle], masker := Finish(s.masker, w))
      else s.(workers := s.workers[w := Going(x.e, x.on)])
    case Lock(w) => s.(workers := s.workers[w := Locked(s.workers[w].e, s.workers[w].on)], spin := w)
    case Read(w) => s.(workers := s.workers[w := HasRead(s.workers[w].e, s.workers[w].on, s.enable)])
    case Write(w) =>
      var x := s.workers[w];
      s.(enable := Set(x.value, x.e, x.on), workers := s.workers[w := Idle],
         masker := Finish(s.masker, w), spin := NOBODY)
    case MaskBegin(e) => s.(masked := s.masked[e := true], masker := Waiting(e, InFlight(s.workers)))
    case WaitDone => s.(masker := Ready(s.masker.e))
    case MaskLock => s.(masker := MLocked(s.masker.e), spin := MASKER)
    case MaskRead => s.(masker := MRead(s.masker.e, s.enable))
    case MaskWrite =>
      s.(enable := Set(s.masker.value, s.masker.e, false), masker := WaitingAgain(s.masker.e, InFlight(s.workers)),
         spin := NOBODY)
    case WaitAgainDone => s.(masker := Free, settled := s.settled + {s.masker.e})
    case Unmask(e) => s.(masked := s.masked[e := false], settled := s.settled - {e})
  }

  /** Work past the test that is going to set the bit of event e. */
  predicate Sets(x: Worker, e: int) { !x.Idle? && !x.Started? && x.on && x.e == e }

  predicate HasSpin(x: Worker) { x.Locked? || x.HasRead? }

  /** The masking of e has come so far that no work may be about to set its bit. */
  predicate Quiet(s: State, e: int) {
    e in s.settled
    || ((s.masker.Ready? || s.masker.MLocked? || s.masker.MRead? || s.masker.WaitingAgain?) && s.masker.e == e)
  }

  /** The masking of e has cleared its bit. */
  predicate Cleared(s: State, e: int) { e in s.settled || (s.masker.WaitingAgain? && s.masker.e == e) }

  ghost predicate Inv(s: State) {
    && |s.enable| == EVENTS && |s.masked| == EVENTS
    && (forall w :: 0 <= w < |s.workers| ==> (HasSpin(s.workers[w]) <==> s.spin == w))
    && (s.spin == MASKER <==> s.masker.MLocked? || s.masker.MRead?)
    && (forall w :: 0 <= w < |s.workers| && s.workers[w].HasRead? ==> s.workers[w].value == s.enable)
    && (s.masker.MRead? ==> s.masker.value == s.enable)
    && (!s.masker.Free? ==> Event(s.masker.e) && s.masked[s.masker.e] && s.masker.e !in s.settled)
    && (forall e <- s.settled :: Event(e) && s.masked[e])
    && (forall w, e :: 0 <= w < |s.workers| && Sets(s.workers[w], e) ==> !Quiet(s, e))
    && (forall w :: 0 <= w < |s.workers| && s.masker.Waiting? && Sets(s.workers[w], s.masker.e) ==> w in s.masker.left)
    && (forall e :: Event(e) && Cleared(s, e) ==> !s.enable[e])
  }

  lemma BeginKeeps(s: State, w: int, e: int, on: bool)
    requires Inv(s) && Enabled(s, Begin(w, e, on))
    ensures Inv(Apply(s, Begin(w, e, on)))
  {
    var t := Apply(s, Begin(w, e, on));
    forall v, e | 0 <= v < |t.workers| && Sets(t.workers[v], e)
      ensures !Quiet(t, e) && (t.masker.Waiting? && t.masker.e == e ==> v in t.masker.left)
    {
      assert Sets(s.workers[v], e) && !Quiet(s, e);
    }
  }

  lemma StopKeeps(s: State, w: int)
    requires Inv(s) && 0 <= w < |s.workers| && s.workers[w].Started?
    ensures Inv(s.(workers := s.workers[w := Idle], masker := Finish(s.masker, w)))
  {
    var t := s.(workers := s.workers[w := Idle], masker := Finish(s.masker, w));
    forall v, e | 0 <= v < |t.workers| && Sets(t.workers[v], e) ensures !Quiet(t, e) {
      assert Sets(s.workers[v], e) && !Quiet(s, e);
    }
  }

  /** Past the test: the event was not masked, so its masking has not begun. */
  lemma TestKeeps(s: State, w: int)
    requires Inv(s) && Enabled(s, Test(w))
    ensures Inv(Apply(s, Test(w)))
  {
    var t, x := Apply(s, Test(w)), s.workers[w];
    forall e | Quiet(s, e) ensures Event(e) && s.masked[e] {
    }
    if t.workers[w].Idle? {
      StopKeeps(s, w);
    } else {
      forall v, e | 0 <= v < |t.workers| && Sets(t.workers[v], e)
        ensures !Quiet(t, e) && (t.masker.Waiting? && t.masker.e == e ==> v in t.masker.left)
      {
        if v != w {
          assert Sets(s.workers[v], e) && !Quiet(s, e);
        }
      }
    }
  }

  lemma LockKeeps(s: State, w: int)
    requires Inv(s) && Enabled(s, Lock(w))
    ensures Inv(Apply(s, Lock(w)))
  {
    var t := Apply(s, Lock(w));
    forall v, e | 0 <= v < |t.workers| && Sets(t.workers[v], e)
      ensures !Quiet(t, e) && (t.masker.Waiting? && t.masker.e == e ==> v in t.masker.left)
    {
      assert Sets(s.workers[v], e) && !Quiet(s, e);
    }
  }

  lemma ReadKeeps(s: State, w: int)
    requires Inv(s) && Enabled(s, Read(w))
    ensures Inv(Apply(s, Read(w)))
  {
    var t := Apply(s, Read(w));
    forall v, e | 0 <= v < |t.workers| && Sets(t.workers[v], e)
      ensures !Quiet(t, e) && (t.masker.Waiting? && t.masker.e == e ==> v in t.masker.left)
    {
      assert Sets(s.workers[v], e) && !Quiet(s, e);
    }
  }

  /** The write sets no bit of an event whose masking has cleared it. */
  lemma WriteKeeps(s: State, w: int)
    requires Inv(s) && Enabled(s, Write(w))
    ensures Inv(Apply(s, Write(w)))
  {
    var t, x := Apply(s, Write(w)), s.workers[w];
    forall v, e | 0 <= v < |t.workers| && Sets(t.workers[v], e)
      ensures !Quiet(t, e) && (t.masker.Waiting? && t.masker.e == e ==> v in t.masker.left)
    {
      assert Sets(s.workers[v], e) && !Quiet(s, e);
    }
    forall e | Event(e) && Cleared(t, e) ensures !t.enable[e] {
      assert Cleared(s, e) && Quiet(s, e);
      assert !Sets(x, e);
    }
  }

  lemma MaskBeginKeeps(s: State, e: int)
    requires Inv(s) && Enabled(s, MaskBegin(e))
    ensures Inv(Apply(s, MaskBegin(e)))
  {
    var t := Apply(s, MaskBegin(e));
    forall v, e | 0 <= v < |t.workers| && Sets(t.workers[v], e)
      ensures !Quiet(t, e) && (t.masker.Waiting? && t.masker.e == e ==> v in t.masker.left)
    {
      assert Sets(s.workers[v], e) && !Quiet(s, e);
    }
    forall e | Event(e) && Cleared(t, e) ensures !t.enable[e] {
      assert Cleared(s, e);
    }
  }

  /** When the wait ends, all work that was past the test has finished. */
  lemma WaitDoneKeeps(s: State)
    requires Inv(s) && Enabled(s, WaitDone)
    ensures Inv(Apply(s, WaitDone))
  {
    var t := Apply(s, WaitDone);
    forall v, e | 0 <= v < |t.workers| && Sets(t.workers[v], e) ensures !Quiet(t, e) {
      assert !Quiet(s, e);
    }
    forall e | Event(e) && Cleared(t, e) ensures !t.enable[e] {
      assert Cleared(s, e);
    }
  }

  lemma MaskerKeeps(s: State, a: Step)
    requires Inv(s) && Enabled(s, a) && a in {MaskLock, MaskRead, MaskWrite, WaitAgainDone}
    ensures Inv(Apply(s, a))
  {
    var t := Apply(s, a);
    forall v, e | 0 <= v < |t.workers| && Sets(t.workers[v], e) ensures !Quiet(t, e) {
      assert !Quiet(s, e);
    }
    forall e | Event(e) && Cleared(t, e) ensures !t.enable[e] {
      assert Cleared(s, e) || (a == MaskWrite && e == s.masker.e);
    }
  }

  lemma UnmaskKeeps(s: State, e: int)
    requires Inv(s) && Enabled(s, Unmask(e))
    ensures Inv(Apply(s, Unmask(e)))
  {
    var t := Apply(s, Unmask(e));
    forall v, f | 0 <= v < |t.workers| && Sets(t.workers[v], f) ensures !Quiet(t, f) {
      assert !Quiet(s, f);
    }
    forall f | Event(f) && Cleared(t, f) ensures !t.enable[f] {
      assert Cleared(s, f);
    }
  }

  lemma StepKeeps(s: State, a: Step)
    requires Inv(s) && Enabled(s, a)
    ensures Inv(Apply(s, a))
  {
    hide Inv;
    match a {
      case Begin(w, e, on) => BeginKeeps(s, w, e, on);
      case Skip(w) => StopKeeps(s, w);
      case Test(w) => TestKeeps(s, w);
      case Lock(w) => LockKeeps(s, w);
      case Read(w) => ReadKeeps(s, w);
      case Write(w) => WriteKeeps(s, w);
      case MaskBegin(e) => MaskBeginKeeps(s, e);
      case WaitDone => WaitDoneKeeps(s);
      case Unmask(e) => UnmaskKeeps(s, e);
      case _ => MaskerKeeps(s, a);
    }
  }

  ghost predicate Start(s: State) {
    && |s.enable| == EVENTS && |s.masked| == EVENTS && s.settled == {} && s.masker.Free? && s.spin == NOBODY
    && forall w :: 0 <= w < |s.workers| ==> s.workers[w].Idle?
  }

  ghost predicate Run(trace: seq<State>, steps: seq<Step>) {
    && |trace| == |steps| + 1
    && forall k :: 0 <= k < |steps| ==> Enabled(trace[k], steps[k]) && trace[k + 1] == Apply(trace[k], steps[k])
  }

  lemma {:induction false} RunKeeps(trace: seq<State>, steps: seq<Step>, k: nat)
    requires Run(trace, steps) && Start(trace[0]) && k < |trace|
    ensures Inv(trace[k])
  {
    hide Enabled, Apply;
    if k > 0 {
      RunKeeps(trace, steps, k - 1);
      StepKeeps(trace[k - 1], steps[k - 1]);
    }
  }

  /** With any number of workers, in every run: once the masking of an event has returned, and until it is
      unmasked, its enable bit is clear. */
  lemma {:induction false} StaysClear(trace: seq<State>, steps: seq<Step>, i: nat, k: nat, e: int)
    requires Run(trace, steps) && Start(trace[0]) && i <= k < |trace| && e in trace[i].settled
    requires forall j :: i <= j < k ==> steps[j] != Unmask(e)
    ensures Event(e) && |trace[k].enable| == EVENTS && !trace[k].enable[e] && e in trace[k].settled
    decreases k
  {
    RunKeeps(trace, steps, k);
    if k == i {
      assert Cleared(trace[k], e);
    } else {
      StaysClear(trace, steps, i, k - 1, e);
      SettledStays(trace[k - 1], steps[k - 1], e);
      assert Cleared(trace[k], e);
    }
  }

  lemma SettledStays(s: State, a: Step, e: int)
    requires Enabled(s, a) && e in s.settled && a != Unmask(e)
    ensures e in Apply(s, a).settled
  {
  }

  /** Masking returns with the event settled. */
  lemma MaskingReturns(s: State)
    requires Inv(s) && Enabled(s, WaitAgainDone)
    ensures var t := Apply(s, WaitAgainDone);
            t.masker.Free? && s.masker.e in t.settled && Event(s.masker.e) && !t.enable[s.masker.e]
  {
    assert Cleared(s, s.masker.e);
  }

  /** Work for an event that is not masked, or that clears its bit, does so when nothing comes in between. */
  lemma WorkDone(s: State, w: int)
    requires Inv(s) && 0 <= w < |s.workers| && s.workers[w].Started? && Event(s.workers[w].e) && s.spin == NOBODY
    requires s.workers[w].on ==> !s.masked[s.workers[w].e]
    ensures Enabled(s, Test(w))
    ensures var s1 := Apply(s, Test(w));
            && Enabled(s1, Lock(w))
            && var s2 := Apply(s1, Lock(w));
               && Enabled(s2, Read(w))
               && var s3 := Apply(s2, Read(w));
                  && Enabled(s3, Write(w))
                  && Apply(s3, Write(w)).enable == s.enable[s.workers[w].e := s.workers[w].on]
  {
  }
}
