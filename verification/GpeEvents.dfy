/** The events of a GPE register (src/acpi/uacpi/event.c), each operation taken as one step.  Accesses to the
    status and the enable register may fail; whether they do is part of each operation. */
module GpeEvents {
  const EVENTS: int := 8
  const MAX_USERS: int := 0xFF

  datatype Wish = Enable | EnableConditionally | Disable

  /** One event: its bits in the masks of the register, its enable bit in the hardware, and its own fields. */
  datatype Event =
    Event(runtime: bool, current: bool, masked: bool, enable: bool, users: int, blocked: bool, edge: bool)

  function Unused(edge: bool): Event { Event(false, false, false, false, 0, false, edge) }

  /** `io`, `off` and `on` say whether the enable register can be written, `clear` whether the status register can. */
  datatype Op =
    | Add(e: int, io: bool)
    | Remove(e: int, io: bool)
    | Fire(e: int, raw: bool, reenable: bool, off: bool, clear: bool, on: bool)
    | Restored(e: int, clear: bool, io: bool)
    | Masking(e: int, mask: bool, io: bool)
    | Suspend(e: int, io: bool)
    | Resume(e: int, io: bool)

  /** The runtime and the current bit say whether the event has users. */
  predicate Counted(x: Event) {
    0 <= x.users <= MAX_USERS && (x.runtime <==> x.users > 0) && x.current == x.runtime
  }

  /** An event that is neither masked nor waiting for its handler is enabled exactly if it has users; without
      users, or masked, it is not enabled. */
  predicate Lawful(x: Event) {
    (!x.masked && !x.blocked ==> (x.enable <==> x.runtime)) && (x.enable ==> x.runtime && !x.masked)
  }

  // ---------- what each operation does to its event ----------

  /** Requests that return before any register is accessed. */
  predicate Skipped(x: Event, wish: Wish) {
    !wish.Disable? && (x.masked || (wish.EnableConditionally? && !x.current))
  }

  function Written(x: Event, wish: Wish, io: bool): (y: Event)
    ensures y == x.(enable := y.enable)
  {
    if Skipped(x, wish) || !io then x else x.(enable := !wish.Disable?)
  }

  function Restoring(x: Event, clear: bool, io: bool): (y: Event)
    ensures y == x.(enable := y.enable, blocked := y.blocked)
  {
    if !x.edge && !clear then x else Written(x, EnableConditionally, io).(blocked := false)
  }

  function Dispatched(x: Event, reenable: bool, clear: bool, on: bool): (y: Event)
    ensures y == x.(enable := y.enable, blocked := y.blocked)
  {
    var y := x.(enable := false, blocked := true);
    if x.edge && !clear then Written(y, EnableConditionally, on)
    else if reenable then Restoring(y, clear, on)
    else y
  }

  /** Whether a user is added or dropped. */
  predicate Counts(x: Event, op: Op) {
    match op
    case Add(_, io) => x.users < MAX_USERS && (io || x.users > 0 || x.masked)
    case Remove(_, io) => x.users > 0 && (io || x.users > 1)
    case _ => false
  }

  function After(x: Event, op: Op): Event {
    match op
    case Add(_, io) =>
      if !Counts(x, op) then x
      else if x.users > 0 then x.(users := x.users + 1)
      else Written(x.(users := 1, runtime := true, current := true), Enable, io)
    case Remove(_, io) =>
      if !Counts(x, op) then x
      else if x.users > 1 then x.(users := x.users - 1)
      else x.(users := 0, runtime := false, current := false, enable := false)
    case Fire(_, raw, reenable, off, clear, on) =>
      if raw || !off then x else Dispatched(x, reenable, clear, on)
    case Restored(_, clear, io) => Restoring(x, clear, io)
    case Masking(_, mask, io) =>
      if x.masked == mask then x
      else if mask then Written(x.(masked := true), Disable, io)
      else if x.blocked || x.users == 0 then x.(masked := false)
      else Written(x.(masked := false), EnableConditionally, io)
    case Suspend(_, io) => Written(x.(blocked := true), Disable, io)
    case Resume(_, io) => Written(x.(blocked := false), Enable, io)
  }

  // ---------- what the operations keep ----------

  /** The steps after which the enable bit is wrong: an access error that is not undone, or an event without
      users that is resumed. */
  predicate Lost(x: Event, op: Op) {
    match op
    case Add(_, _) => false
    case Remove(_, _) => false
    case Fire(_, raw, reenable, off, clear, on) => !raw && off && reenable && clear && !on && x.runtime && !x.masked
    case Restored(_, clear, io) => (x.edge || clear) && !io && x.runtime && !x.masked && !x.enable
    case Masking(_, mask, io) => !io && x.masked != mask && if mask then x.enable else !x.blocked && x.users > 0
    case Suspend(_, io) => false
    case Resume(_, io) => !x.masked && if io then !x.runtime else x.enable != x.runtime
  }

  lemma CountedAfter(x: Event, op: Op)
    requires Counted(x)
    ensures Counted(After(x, op))
    ensures After(x, op).users == x.users + (if Counts(x, op) then (if op.Add? then 1 else -1) else 0)
  {
    hide Written, Restoring, Dispatched;
  }

  /** A mask changes only by masking. */
  lemma MaskedAfter(x: Event, op: Op)
    ensures After(x, op).edge == x.edge && After(x, op).masked == if op.Masking? then op.mask else x.masked
  {
    hide Written, Restoring, Dispatched, Counts;
    match op {
      case Masking(_, _, _) =>
      case Fire(_, _, _, _, _, _) =>
      case _ =>
    }
  }

  /** An event waits for its handler from when it fires, or is suspended, until it is restored, or resumed. */
  predicate Waits(x: Event, op: Op) {
    match op
    case Fire(_, raw, reenable, off, clear, on) => if raw || !off then x.blocked else !(reenable && clear)
    case Restored(_, clear, _) => x.blocked && !x.edge && !clear
    case Suspend(_, _) => true
    case Resume(_, _) => false
    case _ => x.blocked
  }

  lemma BlockedAfter(x: Event, op: Op)
    ensures After(x, op).blocked <==> Waits(x, op)
  {
    hide Written;
    if op.Fire? {
      hide Restoring;
      if !(x.edge && !op.clear) && op.reenable {
        RestoringUnblocks(x.(enable := false, blocked := true), op.clear, op.on);
      }
    }
  }

  lemma RestoringUnblocks(x: Event, clear: bool, io: bool)
    ensures Restoring(x, clear, io).blocked <==> x.blocked && !x.edge && !clear
  {
  }

  /** The enable bit stays right exactly until a step in `Lost`. */
  lemma LawfulAfter(x: Event, op: Op)
    requires Counted(x) && Lawful(x)
    ensures Lawful(After(x, op)) <==> !Lost(x, op)
  {
  }

  /** An event with a user that stays off when it is unmasked, and one without users that is switched on. */
  lemma Spoilt()
    ensures var x := Event(true, true, true, false, 1, false, true);
            Counted(x) && Lawful(x) && !Lawful(After(x, Masking(0, false, false)))
    ensures Lawful(Unused(true)) && !Lawful(After(Unused(true), Resume(0, true)))
  {
  }

  // ---------- the register ----------

  ghost predicate Stepped(s: seq<Event>, op: Op, s': seq<Event>) {
    0 <= op.e < |s| && s' == s[op.e := After(s[op.e], op)]
  }

  ghost predicate AllCounted(s: seq<Event>) { forall e :: 0 <= e < |s| ==> Counted(s[e]) }

  ghost predicate AllLawful(s: seq<Event>) { forall e :: 0 <= e < |s| ==> Lawful(s[e]) }

  class Register {
    var events: seq<Event>

    ghost predicate Valid()
      reads this
    {
      |events| == EVENTS && AllCounted(events)
    }

    constructor (edges: seq<bool>)
      requires |edges| == EVENTS
      ensures Valid() && AllLawful(events)
      ensures forall e :: 0 <= e < EVENTS ==> events[e] == Unused(edges[e])
    {
      events := seq(EVENTS, e requires 0 <= e < |edges| => Unused(edges[e]));
    }

    /** `set_gpe_state` */
    method SetState(e: int, wish: Wish, io: bool) returns (ok: bool)
      requires |events| == EVENTS && 0 <= e < EVENTS
      modifies this
      ensures events == old(events)[e := Written(old(events)[e], wish, io)]
      ensures ok <==> io || Skipped(old(events)[e], wish)
    {
      var x := events[e];
      ok := true;
      if wish != Disable && x.masked {
        return;
      }
      if wish == EnableConditionally && !x.current {
        return;
      }
      ok := io;
      if io {
        events := events[e := x.(enable := wish != Disable)];
      }
    }

    /** `gp_event_toggle_masks` */
    method ToggleMasks(e: int, on: bool)
      requires |events| == EVENTS && 0 <= e < EVENTS
      requires forall f :: 0 <= f < EVENTS ==> events[f].current == events[f].runtime
      modifies this
      ensures events == old(events)[e := old(events)[e].(runtime := on, current := on)]
    {
      events := events[e := events[e].(runtime := on)];
      events := seq(EVENTS, f requires 0 <= f < EVENTS && |events| == EVENTS reads this =>
                              events[f].(current := events[f].runtime));
    }

    /** `gpe_add_user`; a user that cannot be served is taken back. */
    method AddUser(e: int, io: bool) returns (ok: bool)
      requires Valid() && 0 <= e < EVENTS
      modifies this
      ensures Valid() && Stepped(old(events), Add(e, io), events)
      ensures var x := old(events)[e]; ok <==> x.users < MAX_USERS && (io || x.users > 0 || x.masked)
      ensures ok && !events[e].masked && (old(events)[e].users == 0 || old(events)[e].enable) ==> events[e].enable
    {
      var x := events[e];
      if x.users == MAX_USERS {
        return false;
      }
      events := events[e := x.(users := x.users + 1)];
      ok := true;
      if x.users == 0 {
        ToggleMasks(e, true);
        ok := SetState(e, Enable, io);
        if !ok {
          ToggleMasks(e, false);
          events := events[e := events[e].(users := events[e].users - 1)];
        }
      }
    }

    /** `gpe_remove_user` */
    method RemoveUser(e: int, io: bool) returns (ok: bool)
      requires Valid() && 0 <= e < EVENTS
      modifies this
      ensures Valid() && Stepped(old(events), Remove(e, io), events)
      ensures var x := old(events)[e]; ok <==> x.users > 0 && (io || x.users > 1)
      ensures ok && events[e].users == 0 ==> !events[e].enable
    {
      var x := events[e];
      if x.users == 0 {
        return false;
      }
      events := events[e := x.(users := x.users - 1)];
      ok := true;
      if x.users == 1 {
        ToggleMasks(e, false);
        ok := SetState(e, Disable, io);
        if !ok {
          ToggleMasks(e, true);
          events := events[e := events[e].(users := events[e].users + 1)];
        }
      }
    }

    /** `restore_gpe` */
    method Restore(e: int, clear: bool, io: bool) returns (ok: bool)
      requires Valid() && 0 <= e < EVENTS
      modifies this
      ensures Valid() && Stepped(old(events), Restored(e, clear, io), events)
      ensures ok && Lawful(old(events)[e]) ==> (events[e].enable <==> events[e].users > 0 && !events[e].masked)
      ensures ok ==> !events[e].blocked
    {
      if !events[e].edge && !clear {
        return false;
      }
      ok := SetState(e, EnableConditionally, io);
      events := events[e := events[e].(blocked := false)];
    }

    /** `dispatch_gpe`: the event is off until it is restored, at once if the handler asks for it. */
    method Dispatch(e: int, raw: bool, reenable: bool, off: bool, clear: bool, on: bool)
      requires Valid() && 0 <= e < EVENTS
      modifies this
      ensures Valid() && Stepped(old(events), Fire(e, raw, reenable, off, clear, on), events)
      ensures !raw && off && !reenable && (clear || !events[e].edge) ==> !events[e].enable && events[e].blocked
    {
      if raw {
        return;
      }
      var ok := SetState(e, Disable, off);
      if !ok {
        return;
      }
      events := events[e := events[e].(blocked := true)];
      if events[e].edge && !clear {
        ok := SetState(e, EnableConditionally, on);
        return;
      }
      if reenable {
        ok := Restore(e, clear, on);
      }
    }

    /** `gpe_mask_unmask`, which ignores access errors. */
    method MaskUnmask(e: int, mask: bool, io: bool) returns (ok: bool)
      requires Valid() && 0 <= e < EVENTS
      modifies this
      ensures Valid() && Stepped(old(events), Masking(e, mask, io), events) && (ok <==> old(events)[e].masked != mask)
      ensures ok && mask && io ==> !events[e].enable
      ensures ok && !mask && io && !events[e].blocked && Lawful(old(events)[e])
              ==> (events[e].enable <==> events[e].users > 0)
    {
      var x := events[e];
      if x.masked == mask {
        return false;
      }
      ok := true;
      events := events[e := x.(masked := mask)];
      if mask {
        var _ := SetState(e, Disable, io);
      } else if !x.blocked && x.users > 0 {
        var _ := SetState(e, EnableConditionally, io);
      }
    }

    /** `gpe_suspend_resume` */
    method SuspendResume(e: int, resume: bool, io: bool) returns (ok: bool)
      requires Valid() && 0 <= e < EVENTS
      modifies this
      ensures Valid() && Stepped(old(events), if resume then Resume(e, io) else Suspend(e, io), events)
      ensures ok ==> events[e].blocked != resume
      ensures ok ==> (events[e].enable <==> if events[e].masked then resume && old(events)[e].enable else resume)
    {
      events := events[e := events[e].(blocked := !resume)];
      ok := SetState(e, if resume then Enable else Disable, io);
    }
  }

  // ---------- runs ----------

  method Perform(r: Register, op: Op) returns (ok: bool)
    requires r.Valid() && 0 <= op.e < EVENTS
    modifies r
    ensures r.Valid() && Stepped(old(r.events), op, r.events)
  {
    ok := true;
    match op {
      case Add(e, io) => ok := r.AddUser(e, io);
      case Remove(e, io) => ok := r.RemoveUser(e, io);
      case Fire(e, raw, reenable, off, clear, on) => r.Dispatch(e, raw, reenable, off, clear, on);
      case Restored(e, clear, io) => ok := r.Restore(e, clear, io);
      case Masking(e, mask, io) => ok := r.MaskUnmask(e, mask, io);
      case Suspend(e, io) => ok := r.SuspendResume(e, false, io);
      case Resume(e, io) => ok := r.SuspendResume(e, true, io);
    }
  }

  /** A run of the register from some state on. */
  ghost predicate Trace(trace: seq<seq<Event>>, ops: seq<Op>) {
    && |trace| == |ops| + 1 && AllCounted(trace[0])
    && forall i :: 0 <= i < |ops| ==> Stepped(trace[i], ops[i], trace[i + 1])
  }

  lemma {:induction false} CountedThroughout(trace: seq<seq<Event>>, ops: seq<Op>, n: int)
    requires Trace(trace, ops) && 0 <= n <= |ops|
    ensures |trace[n]| == |trace[0]| && AllCounted(trace[n])
  {
    if n > 0 {
      CountedThroughout(trace, ops, n - 1);
      assert Stepped(trace[n - 1], ops[n - 1], trace[n]);
      CountedAfter(trace[n - 1][ops[n - 1].e], ops[n - 1]);
    }
  }

  ghost predicate Unspoilt(trace: seq<seq<Event>>, ops: seq<Op>, n: int)
    requires Trace(trace, ops) && 0 <= n <= |ops|
  {
    forall i :: 0 <= i < n ==> Stepped(trace[i], ops[i], trace[i + 1]) && !Lost(trace[i][ops[i].e], ops[i])
  }

  ghost predicate LawfulUpTo(trace: seq<seq<Event>>, n: int)
    requires 0 <= n < |trace|
  {
    forall k :: 0 <= k <= n ==> AllLawful(trace[k])
  }

  /** The enable bits are right at every point of a run exactly if no step so far is in `Lost`. */
  lemma {:induction false} LawfulThroughout(trace: seq<seq<Event>>, ops: seq<Op>, n: int)
    requires Trace(trace, ops) && 0 <= n <= |ops| && AllLawful(trace[0])
    ensures Unspoilt(trace, ops, n) <==> LawfulUpTo(trace, n)
  {
    hide Lost, Lawful, Counted, After;
    if n > 0 {
      LawfulThroughout(trace, ops, n - 1);
      CountedThroughout(trace, ops, n - 1);
      var s, op := trace[n - 1], ops[n - 1];
      assert Stepped(s, op, trace[n]);
      if AllLawful(s) {
        LawfulAfter(s[op.e], op);
        assert AllLawful(trace[n]) <==> !Lost(s[op.e], op) by {
          assert trace[n][op.e] == After(s[op.e], op);
        }
      }
      assert Unspoilt(trace, ops, n) <==> Unspoilt(trace, ops, n - 1) && !Lost(s[op.e], op);
    }
  }

  /** Users added minus users dropped in the first n steps. */
  ghost function Balance(trace: seq<seq<Event>>, ops: seq<Op>, e: int, n: int): int
    requires Trace(trace, ops) && 0 <= n <= |ops|
  {
    if n == 0 then 0
    else
      var op := ops[n - 1];
      assert Stepped(trace[n - 1], op, trace[n]);
      Balance(trace, ops, e, n - 1)
      + if op.e == e && Counts(trace[n - 1][e], op) then (if op.Add? then 1 else -1) else 0
  }

  /** The count of users is what was added and not dropped. */
  lemma {:induction false} UsersBalance(trace: seq<seq<Event>>, ops: seq<Op>, e: int, n: int)
    requires Trace(trace, ops) && 0 <= n <= |ops| && 0 <= e < |trace[0]|
    ensures |trace[n]| == |trace[0]| && trace[n][e].users == trace[0][e].users + Balance(trace, ops, e, n)
  {
    if n > 0 {
      UsersBalance(trace, ops, e, n - 1);
      CountedThroughout(trace, ops, n - 1);
      var s, op := trace[n - 1], ops[n - 1];
      assert Stepped(s, op, trace[n]);
      CountedAfter(s[op.e], op);
    }
  }

  /** Any sequence of operations: the users are counted throughout, and the enable bits are right as long as
      no step is in `Lost`. */
  method Run(edges: seq<bool>, ops: seq<Op>) returns (r: Register, ghost trace: seq<seq<Event>>)
    requires |edges| == EVENTS && forall op <- ops :: 0 <= op.e < EVENTS
    ensures fresh(r) && r.Valid() && Trace(trace, ops) && trace[|ops|] == r.events && |trace[0]| == EVENTS
    ensures forall e :: 0 <= e < EVENTS ==> trace[0][e] == Unused(edges[e])
    ensures forall n :: 0 <= n <= |ops| ==> |trace[n]| == EVENTS && AllCounted(trace[n])
    ensures forall n, e :: 0 <= n <= |ops| && 0 <= e < EVENTS ==> trace[n][e].users == Balance(trace, ops, e, n)
    ensures forall n :: 0 <= n <= |ops| ==> (Unspoilt(trace, ops, n) <==> LawfulUpTo(trace, n))
  {
    hide Stepped, AllCounted, AllLawful, Balance, Unspoilt, LawfulUpTo;
    r := new Register(edges);
    trace := [r.events];
    ghost var first := r.events;
    for i := 0 to |ops|
      invariant fresh(r) && r.Valid() && |trace| == i + 1 && trace[0] == first && trace[i] == r.events
      invariant forall k :: 0 <= k < i ==> Stepped(trace[k], ops[k], trace[k + 1])
    {
      assert ops[i] in ops;
      var _ := Perform(r, ops[i]);
      trace := trace + [r.events];
    }
    forall n, e | 0 <= n <= |ops| && 0 <= e < EVENTS
      ensures |trace[n]| == EVENTS && trace[n][e].users == Balance(trace, ops, e, n)
    {
      UsersBalance(trace, ops, e, n);
    }
    forall n | 0 <= n <= |ops|
      ensures |trace[n]| == EVENTS && AllCounted(trace[n])
      ensures Unspoilt(trace, ops, n) <==> LawfulUpTo(trace, n)
    {
      CountedThroughout(trace, ops, n);
      LawfulThroughout(trace, ops, n);
    }
  }
}
