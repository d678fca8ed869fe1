/** The global lock shared with the firmware (src/acpi/uacpi/mutex.c; section 5.2.10.1 of ACPI 6.5): two sides
    change one 32-bit word by compare-and-exchange loops.  Every read and every exchange is a step of its
    own, and the steps of the two sides interleave freely. */
module GlobalLock {
  predicate Pending(v: int) { v % 2 == 1 }
  predicate Owned(v: int) { v / 2 % 2 == 1 }

  /** The word an acquire asks for: owned, and pending if it was owned; the other bits stay. */
  function Taken(v: int): (w: int)
    ensures Owned(w) && (Pending(w) <==> Owned(v)) && w / 4 == v / 4
  {
    v / 4 * 4 + 2 + if Owned(v) then 1 else 0
  }

  /** The word a release asks for: both bits clear. */
  function Freed(v: int): (w: int)
    ensures !Owned(w) && !Pending(w) && w / 4 == v / 4
  {
    v / 4 * 4
  }

  /** Where a side is: `seen` is the value its loop has read last. */
  datatype Pc = Idle | Acquiring(seen: int) | Owner | Releasing(seen: int)

  /** waiting: the last acquire failed; told: a release has reported pending to this side since. */
  datatype Agent = Agent(pc: Pc, waiting: bool, told: bool)

  /** Side 0 is the operating system, side 1 the firmware. */
  datatype State = State(word: int, sides: seq<Agent>)

  datatype Step = BeginAcquire(i: int) | TryAcquire(i: int) | BeginRelease(i: int) | TryRelease(i: int)

  ghost predicate Enabled(s: State, a: Step) {
    && |s.sides| == 2 && 0 <= a.i < 2
    && var pc := s.sides[a.i].pc;
       match a
       case BeginAcquire(_) => pc.Idle?
       case TryAcquire(_) => pc.Acquiring?
       case BeginRelease(_) => pc.Owner?
       case TryRelease(_) => pc.Releasing?
  }

  /** An exchange succeeds if the word still is what was seen; otherwise the loop sees it anew. */
  function Apply(s: State, a: Step): State
    requires Enabled(s, a)
  {
    var me := s.sides[a.i];
    match a
    case BeginAcquire(i) => s.(sides := s.sides[i := me.(pc := Acquiring(s.word))])
    case BeginRelease(i) => s.(sides := s.sides[i := me.(pc := Releasing(s.word))])
    case TryAcquire(i) =>
      if s.word != me.pc.seen then s.(sides := s.sides[i := me.(pc := Acquiring(s.word))])
      else State(Taken(s.word),
                 s.sides[i := if Owned(s.word) then Agent(Idle, true, false) else Agent(Owner, false, false)])
    case TryRelease(i) =>
      if s.word != me.pc.seen then s.(sides := s.sides[i := me.(pc := Releasing(s.word))])
      else
        var other := s.sides[1 - i];
        State(Freed(s.word),
              s.sides[i := me.(pc := Idle)][1 - i := other.(told := other.told || Pending(s.word))])
  }

  ghost predicate Owns(s: State, i: int)
    requires |s.sides| == 2 && 0 <= i < 2
  {
    s.sides[i].pc.Owner? || s.sides[i].pc.Releasing?
  }

  /** At most one side owns the lock, and the word says so; pending is only set while it is owned; and a side
      whose acquire failed has been told, or the release of the other side will tell it. */
  ghost predicate Inv(s: State) {
    && |s.sides| == 2
    && !(Owns(s, 0) && Owns(s, 1))
    && (Owned(s.word) <==> Owns(s, 0) || Owns(s, 1))
    && (Pending(s.word) ==> Owned(s.word))
    && forall i :: 0 <= i < 2 && s.sides[i].waiting ==> s.sides[i].told || (Pending(s.word) && Owns(s, 1 - i))
  }

  lemma StepKeeps(s: State, a: Step)
    requires Inv(s) && Enabled(s, a)
    ensures Inv(Apply(s, a))
  {
  }

  ghost predicate Run(trace: seq<State>, steps: seq<Step>) {
    && |trace| == |steps| + 1
    && forall k :: 0 <= k < |steps| ==> Enabled(trace[k], steps[k]) && trace[k + 1] == Apply(trace[k], steps[k])
  }

  ghost predicate Start(s: State) {
    && |s.sides| == 2 && !Owned(s.word) && !Pending(s.word)
    && forall i :: 0 <= i < 2 ==> s.sides[i] == Agent(Idle, false, false)
  }

  /** In every run, at every moment. */
  lemma {:induction false} RunKeeps(trace: seq<State>, steps: seq<Step>, k: nat)
    requires Run(trace, steps) && Start(trace[0]) && k < |trace|
    ensures Inv(trace[k])
  {
    if k > 0 {
      RunKeeps(trace, steps, k - 1);
      StepKeeps(trace[k - 1], steps[k - 1]);
    }
  }

  /** A release that follows a failed acquire of the other side reports pending. */
  lemma ReleaseTells(s: State, i: int)
    requires Inv(s) && Enabled(s, TryRelease(i)) && s.word == s.sides[i].pc.seen && s.sides[1 - i].waiting
    requires !s.sides[1 - i].told
    ensures Pending(s.word) && Apply(s, TryRelease(i)).sides[1 - i].told
  {
  }

  /** An acquire succeeds exactly if the lock was free when the exchange took place, and then only this side
      owns it; the bits of the word that are not part of the lock never change. */
  lemma AcquireWins(s: State, i: int)
    requires Inv(s) && Enabled(s, TryAcquire(i)) && s.word == s.sides[i].pc.seen
    ensures var t := Apply(s, TryAcquire(i)); (Owns(t, i) <==> !Owns(s, 1 - i)) && (Owns(t, i) ==> !Owns(t, 1 - i))
  {
  }

  lemma {:induction false} RestKept(trace: seq<State>, steps: seq<Step>, k: nat)
    requires Run(trace, steps) && k < |trace|
    ensures trace[k].word / 4 == trace[0].word / 4
  {
    if k > 0 {
      RestKept(trace, steps, k - 1);
      var s, a := trace[k - 1], steps[k - 1];
      assert Apply(s, a).word in {s.word, Taken(s.word), Freed(s.word)};
    }
  }
}
