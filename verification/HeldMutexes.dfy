/** The mutexes held by an AML execution context (src/acpi/uacpi/interpreter.c,
    src/acpi/uacpi/internal/dynamic_array.h; sync levels: section 19.6.2 of ACPI 6.5). */
module HeldMutexes {
  import opened Basics

  const INLINE: int := 8
  const MAX_DEPTH: int := 0xFFFF

  /** `memmove` inside a buffer. */
  function Move(s: seq<int>, to: int, from: int, n: int): (r: seq<int>)
    requires 0 <= to && 0 <= from && 0 <= n && to + n <= |s| && from + n <= |s|
    ensures |r| == |s| && forall k :: 0 <= k < |s| ==> r[k] == if to <= k < to + n then s[from + k - to] else s[k]
  {
    s[..to] + s[from..from + n] + s[to + n..]
  }

  /** all' is all, as far as size, with item i removed. */
  ghost predicate Removed(all: seq<int>, all': seq<int>, size: int, i: int) {
    0 <= i < size <= |all| == |all'| && forall k :: 0 <= k < size - 1 ==> all'[k] == all[if k < i then k else k + 1]
  }

  lemma RemovedWithout(all: seq<int>, all': seq<int>, size: int, i: int)
    requires Removed(all, all', size, i)
    ensures all'[..size][..size - 1] == Without(all[..size], i)
  {
  }

  lemma RemoveDynamic(inl: seq<int>, dyn: seq<int>, size: int, k: int)
    requires |inl| == INLINE && 0 <= k < size - INLINE <= |dyn|
    ensures Removed(inl + dyn, inl + Move(dyn, k, k + 1, size - INLINE - (k + 1)), size, INLINE + k)
  {
    var all, all' := inl + dyn, inl + Move(dyn, k, k + 1, size - INLINE - (k + 1));
    forall j | 0 <= j < size - 1 ensures all'[j] == all[if j < INLINE + k then j else j + 1] {
    }
  }

  lemma RemoveInline(inl: seq<int>, dyn: seq<int>, size: int, i: int)
    requires |inl| == INLINE && 0 <= i < size <= INLINE
    ensures Removed(inl + dyn, Move(inl, i, i + 1, size - (i + 1)) + dyn, size, i)
  {
    var all, all' := inl + dyn, Move(inl, i, i + 1, size - (i + 1)) + dyn;
    forall k | 0 <= k < size - 1 ensures all'[k] == all[if k < i then k else k + 1] {
    }
  }

  lemma RemoveBoth(inl: seq<int>, dyn: seq<int>, size: int, i: int)
    requires |inl| == INLINE && 0 <= i < INLINE < size <= INLINE + |dyn|
    ensures Removed(inl + dyn,
                    Move(inl, i, i + 1, INLINE - (i + 1))[INLINE - 1 := dyn[0]] + Move(dyn, 0, 1, size - (INLINE + 1)),
                    size, i)
  {
    var all, all' := inl + dyn,
                     Move(inl, i, i + 1, INLINE - (i + 1))[INLINE - 1 := dyn[0]] + Move(dyn, 0, 1, size - (INLINE + 1));
    forall k | 0 <= k < size - 1 ensures all'[k] == all[if k < i then k else k + 1] {
    }
  }

  /** Eight items are kept in the array itself, further ones in a buffer that grows. */
  class HeldArray {
    var inl: seq<int>
    var dyn: seq<int>
    var size: int

    ghost predicate Valid()
      reads this
    {
      |inl| == INLINE && 0 <= size <= INLINE + |dyn|
    }

    ghost function Contents(): seq<int>
      requires Valid()
      reads this
    {
      (inl + dyn)[..size]
    }

    constructor ()
      ensures Valid() && Contents() == []
    {
      inl, dyn, size := [0, 0, 0, 0, 0, 0, 0, 0], [], 0;
    }

    function At(i: int): (m: int)
      requires Valid() && 0 <= i < size
      reads this
      ensures m == Contents()[i]
    {
      if i < INLINE then inl[i] else dyn[i - INLINE]
    }

    /** `held_mutexes_array_push`; room: whether memory for a larger buffer can be had. */
    method Push(m: int, room: bool) returns (ok: bool)
      requires Valid()
      modifies this
      ensures ok <==> room || old(size) < INLINE + old(|dyn|)
      ensures Valid() && Contents() == if ok then old(Contents()) + [m] else old(Contents())
    {
      ghost var was := inl + dyn;
      if size < INLINE {
        inl := inl[size := m];
      } else {
        if size - INLINE == |dyn| {
          if !room {
            return false;
          }
          var more := if |dyn| == 0 then INLINE else if |dyn| / 2 == 0 then 1 else |dyn| / 2;
          dyn := dyn + seq(more, _ => 0);
        }
        dyn := dyn[size - INLINE := m];
      }
      assert (inl + dyn)[size] == m && forall k :: 0 <= k < size ==> (inl + dyn)[k] == was[k];
      size := size + 1;
      ok := true;
    }

    method Pop()
      requires Valid() && size > 0
      modifies this`size
      ensures Valid() && size == old(size) - 1 && Contents() == old(Contents())[..size]
    {
      size := size - 1;
    }

    /** `held_mutexes_array_remove_idx`: across the two buffers, one item is removed from one sequence. */
    method RemoveIdx(i: int)
      requires Valid() && 0 <= i < size
      modifies this
      ensures Valid() && Contents() == Without(old(Contents()), i)
    {
      hide Move;
      ghost var all, inl0, dyn0 := inl + dyn, inl, dyn;
      if i >= INLINE {
        var k := i - INLINE;
        RemoveDynamic(inl, dyn, size, k);
        dyn := Move(dyn, k, k + 1, size - INLINE - (k + 1));
      } else {
        var n := (if size < INLINE then size else INLINE) - (i + 1);
        inl := Move(inl, i, i + 1, n);
        if size <= INLINE {
          RemoveInline(inl0, dyn0, size, i);
        } else {
          RemoveBoth(inl0, dyn0, size, i);
          inl := inl[INLINE - 1 := dyn[0]];
          dyn := Move(dyn, 0, 1, size - (INLINE + 1));
        }
      }
      RemovedWithout(all, inl + dyn, size, i);
      Pop();
    }
  }
}
