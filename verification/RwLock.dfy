/** The readers-writer lock (src/acpi/uacpi/mutex.c) for any number of threads: every operation on one of the
    two native mutexes and every change of the reader count is a step of its own. */
module RwLock {
  /** Where a thread is.  The states from Entering on to EnterFailed and from Leaving on to Left hold the read
      mutex. */
  datatype Pc =
    | Out
    | Entering                  // lock_read: has the read mutex
    | Counted(first: bool)      // lock_read: has counted itself
    | Entered                   // lock_read: about to release the read mutex
    | EnterFailed               // lock_read: the write mutex could not be had, and the count is back at zero
    | Reading
    | Leaving                   // unlock_read: has the read mutex
    | Uncounted(last: bool)     // unlock_read: has taken itself off the count
    | Left                      // unlock_read: about to release the read mutex
    | Writing

  /** Who has the write mutex: nobody, the readers together, or a writer. */
  datatype WriteMutex = Free | Readers | Writer(t: int)

  /** readHolder is the thread that has the read mutex, -1 if none. */
  datatype State = State(pcs: seq<Pc>, readHolder: int, write: WriteMutex, numReaders: int)

  datatype Step =
    | TakeRead(t: int) | CountIn(t: int) | TakeWrite(t: int) | FailWrite(t: int) | Admit(t: int) | GiveUp(t: int)
    | TakeReadAgain(t: int) | CountOut(t: int) | FreeWrite(t: int) | GoOut(t: int)
    | LockWrite(t: int) | UnlockWrite(t: int)

  /** A step that a thread can take; taking a mutex waits until it is free, and may also fail, in which case
      only FailWrite changes anything. */
  predicate Enabled(s: State, a: Step) {
    && 0 <= a.t < |s.pcs|
    && var pc := s.pcs[a.t];
       match a
       case TakeRead(_) => pc.Out? && s.readHolder == -1
       case CountIn(_) => pc.Entering?
       case TakeWrite(_) => pc == Counted(true) && s.write.Free?
       case FailWrite(_) => pc == Counted(true)
       case Admit(_) => pc.Entered? || pc == Counted(false)
       case GiveUp(_) => pc.EnterFailed?
       case TakeReadAgain(_) => pc.Reading? && s.readHolder == -1
       case CountOut(_) => pc.Leaving?
       case FreeWrite(_) => pc == Uncounted(true)
       case GoOut(_) => pc.Left? || pc == Uncounted(false)
       case LockWrite(_) => pc.Out? && s.write.Free?
       case UnlockWrite(_) => pc.Writing?
  }

  function Apply(s: State, a: Step): State
    requires Enabled(s, a)
  {
    var t := a.t;
    match a
    case TakeRead(_) => s.(pcs := s.pcs[t := Entering], readHolder := t)
    case CountIn(_) => s.(pcs := s.pcs[t := Counted(s.numReaders == 0)], numReaders := s.numReaders + 1)
    case TakeWrite(_) => s.(pcs := s.pcs[t := Entered], write := Readers)
    case FailWrite(_) => s.(pcs := s.pcs[t := EnterFailed], numReaders := 0)
    case Admit(_) => s.(pcs := s.pcs[t := Reading], readHolder := -1)
    case GiveUp(_) => s.(pcs := s.pcs[t := Out], readHolder := -1)
    case TakeReadAgain(_) => s.(pcs := s.pcs[t := Leaving], readHolder := t)
    case CountOut(_) => s.(pcs := s.pcs[t := Uncounted(s.numReaders == 1)], numReaders := s.numReaders - 1)
    case FreeWrite(_) => s.(pcs := s.pcs[t := Left], write := Free)
    case GoOut(_) => s.(pcs := s.pcs[t := Out], readHolder := -1)
    case LockWrite(_) => s.(pcs := s.pcs[t := Writing], write := Writer(t))
    case UnlockWrite(_) => s.(pcs := s.pcs[t := Out], write := Free)
  }

  predicate HoldsRead(pc: Pc) { !pc.Out? && !pc.Reading? && !pc.Writing? }
  predicate IsCounted(pc: Pc) { pc.Counted? || pc.Entered? || pc.Reading? || pc.Leaving? }
  predicate Admitted(pc: Pc) { pc.Reading? || pc.Leaving? }

  function Count(pcs: seq<Pc>): nat {
    if pcs == [] then 0 else Count(pcs[1..]) + if IsCounted(pcs[0]) then 1 else 0
  }

  lemma {:induction false} CountUpdate(pcs: seq<Pc>, t: nat, pc: Pc)
    requires t < |pcs|
    ensures Count(pcs[t := pc]) - (if IsCounted(pc) then 1 else 0) == Count(pcs) - (if IsCounted(pcs[t]) then 1 else 0)
  {
    if t == 0 {
      assert pcs[t := pc][1..] == pcs[1..];
    } else {
      assert pcs[t := pc][1..] == pcs[1..][t - 1 := pc];
      CountUpdate(pcs[1..], t - 1, pc);
    }
  }

  lemma {:induction false} CountOne(pcs: seq<Pc>, t: nat)
    requires t < |pcs| && IsCounted(pcs[t])
    ensures Count(pcs) >= 1
    ensures forall u :: 0 <= u < |pcs| && u != t && IsCounted(pcs[u]) ==> Count(pcs) >= 2
  {
    if t > 0 {
      CountOne(pcs[1..], t - 1);
      assert forall u :: 0 < u < |pcs| ==> pcs[u] == pcs[1..][u - 1];
    } else {
      forall u | 0 < u < |pcs| && IsCounted(pcs[u]) ensures Count(pcs) >= 2 {
        CountOne(pcs[1..], u - 1);
      }
    }
  }

  /** The readers hold the write mutex exactly while there are any, but for the moments between the count and
      the mutex operation. */
  ghost predicate ReadersHold(s: State) {
    var pc := if 0 <= s.readHolder < |s.pcs| then s.pcs[s.readHolder] else Out;
    if pc == Counted(true) then !s.write.Readers? && s.numReaders == 1
    else if pc == Uncounted(true) then s.write.Readers? && s.numReaders == 0
    else s.write.Readers? <==> s.numReaders > 0
  }

  ghost predicate Inv(s: State) {
    && -1 <= s.readHolder < |s.pcs| && (s.write.Writer? ==> 0 <= s.write.t < |s.pcs|)
    && (forall t :: 0 <= t < |s.pcs| ==> (HoldsRead(s.pcs[t]) <==> s.readHolder == t))
    && (forall t :: 0 <= t < |s.pcs| ==> (s.pcs[t].Writing? <==> s.write == Writer(t)))
    && s.numReaders == Count(s.pcs)
    && ReadersHold(s)
  }

  lemma StepKeeps(s: State, a: Step)
    requires Inv(s) && Enabled(s, a)
    ensures Inv(Apply(s, a))
  {
    var s' := Apply(s, a);
    CountUpdate(s.pcs, a.t, s'.pcs[a.t]);
    if IsCounted(s.pcs[a.t]) {
      CountOne(s.pcs, a.t);
    }
  }

  ghost predicate Start(s: State) {
    s.readHolder == -1 && s.write.Free? && s.numReaders == 0 && forall t :: 0 <= t < |s.pcs| ==> s.pcs[t].Out?
  }

  lemma {:induction false} NoneCounted(pcs: seq<Pc>)
    requires forall t :: 0 <= t < |pcs| ==> pcs[t].Out?
    ensures Count(pcs) == 0
  {
    if pcs != [] {
      NoneCounted(pcs[1..]);
    }
  }

  ghost predicate Run(trace: seq<State>, steps: seq<Step>) {
    && |trace| == |steps| + 1
    && forall k :: 0 <= k < |steps| ==> Enabled(trace[k], steps[k]) && trace[k + 1] == Apply(trace[k], steps[k])
  }

  /** For any number of threads, in every run, at every moment. */
  lemma {:induction false} RunKeeps(trace: seq<State>, steps: seq<Step>, k: nat)
    requires Run(trace, steps) && Start(trace[0]) && k < |trace|
    ensures Inv(trace[k])
  {
    if k == 0 {
      NoneCounted(trace[0].pcs);
    } else {
      RunKeeps(trace, steps, k - 1);
      StepKeeps(trace[k - 1], steps[k - 1]);
    }
  }

  /** A writer excludes every reader and every other writer. */
  lemma WriterExcludes(s: State, t: int, u: int)
    requires Inv(s) && 0 <= t < |s.pcs| && 0 <= u < |s.pcs| && t != u && s.pcs[t].Writing?
    ensures !Admitted(s.pcs[u]) && !s.pcs[u].Entered? && !s.pcs[u].Writing?
  {
    if IsCounted(s.pcs[u]) {
      CountOne(s.pcs, u);
    }
  }

  /** While no thread has the read mutex, the count is the number of admitted readers. */
  function AdmittedCount(pcs: seq<Pc>): nat {
    if pcs == [] then 0 else AdmittedCount(pcs[1..]) + if Admitted(pcs[0]) then 1 else 0
  }

  lemma {:induction false} CountIsAdmitted(pcs: seq<Pc>)
    requires forall t :: 0 <= t < |pcs| ==> !HoldsRead(pcs[t])
    ensures Count(pcs) == AdmittedCount(pcs)
  {
    if pcs != [] {
      CountIsAdmitted(pcs[1..]);
    }
  }

  lemma CountsReaders(s: State)
    requires Inv(s) && s.readHolder == -1
    ensures s.numReaders == AdmittedCount(s.pcs)
  {
    CountIsAdmitted(s.pcs);
  }

  /** Readers share: while one reads, and the read mutex is free, another gets in by its own steps alone. */
  lemma ReadersShare(s: State, t: int, u: int)
    requires Inv(s) && 0 <= t < |s.pcs| && 0 <= u < |s.pcs| && s.pcs[t].Out? && s.pcs[u].Reading?
    requires s.readHolder == -1
    ensures Enabled(s, TakeRead(t))
    ensures var s1 := Apply(s, TakeRead(t));
            && Enabled(s1, CountIn(t))
            && var s2 := Apply(s1, CountIn(t));
               && Enabled(s2, Admit(t))
               && var s3 := Apply(s2, Admit(t));
                  s3.pcs[t].Reading? && s3.pcs[u].Reading? && s3.readHolder == -1
  {
    CountOne(s.pcs, u);
  }

  /** When every thread is out again, nothing is held, and a writer or a reader can go in. */
  lemma NothingLeft(s: State)
    requires Inv(s) && forall t :: 0 <= t < |s.pcs| ==> s.pcs[t].Out?
    ensures Start(s)
    ensures forall t :: 0 <= t < |s.pcs| ==> Enabled(s, LockWrite(t)) && Enabled(s, TakeRead(t))
  {
    NoneCounted(s.pcs);
  }
}
