/** What the heap asks of the function that gets memory from the system (src/mem/malloc.c, general
    requirements for MORECORE), for one that extends its memory contiguously. */
module Morecore {
  const FAILURE: int := -1

  /** One call: its argument, its result and the end of the memory after it. */
  datatype Call = Call(size: int, r: int, end: int)

  /** The end of the memory before call i. */
  function Before(first: int, calls: seq<Call>, i: int): int
    requires 0 <= i <= |calls|
  {
    if i == 0 then first else calls[i - 1].end
  }

  /** A positive argument adds at least that much memory right behind what there is, or fails; zero and
      negative ones add nothing, zero returns the end and negative ones are refused. */
  predicate Obeys(before: int, c: Call) {
    if c.size > 0 then (c.r == before && c.r + c.size <= c.end) || (c.r == FAILURE && c.end == before)
    else c.end == before && c.r == if c.size == 0 then before else FAILURE
  }

  ghost predicate Rules(first: int, calls: seq<Call>) {
    forall i :: 0 <= i < |calls| ==> Obeys(Before(first, calls, i), calls[i])
  }

  lemma RulesMore(first: int, calls: seq<Call>, c: Call)
    requires Rules(first, calls) && Obeys(Before(first, calls, |calls|), c)
    ensures Rules(first, calls + [c])
  {
    hide Obeys;
    var more := calls + [c];
    forall i | 0 <= i < |more| ensures Obeys(Before(first, more, i), more[i]) {
      assert Before(first, more, i) == Before(first, calls, i);
      assert i < |calls| ==> more[i] == calls[i];
    }
  }

  lemma {:induction false} EndsGrow(first: int, calls: seq<Call>, i: int, j: int)
    requires Rules(first, calls) && 0 <= i <= j <= |calls|
    ensures Before(first, calls, i) <= Before(first, calls, j)
    decreases j - i
  {
    if i < j {
      EndsGrow(first, calls, i, j - 1);
      assert Obeys(Before(first, calls, j - 1), calls[j - 1]);
    }
  }

  /** Calls with positive arguments return increasing addresses, each beyond all that was handed out before. */
  lemma Increasing(first: int, calls: seq<Call>, i: int, j: int)
    requires Rules(first, calls) && 0 <= i < j < |calls| && first >= 0
    requires calls[i].size > 0 && calls[j].size > 0 && calls[i].r != FAILURE && calls[j].r != FAILURE
    ensures calls[i].r + calls[i].size <= calls[i].end <= calls[j].r
  {
    EndsGrow(first, calls, i + 1, j);
    assert Obeys(Before(first, calls, i), calls[i]) && Obeys(Before(first, calls, j), calls[j]);
  }

  lemma {:induction false} EndsHold(first: int, calls: seq<Call>, i: int, j: int)
    requires Rules(first, calls) && 0 <= i <= j <= |calls| && forall k :: i <= k < j ==> calls[k].size <= 0
    ensures Before(first, calls, j) == Before(first, calls, i)
    decreases j - i
  {
    if i < j {
      EndsHold(first, calls, i, j - 1);
      assert Obeys(Before(first, calls, j - 1), calls[j - 1]);
    }
  }

  /** Between calls with positive arguments the end stands still, so the memory is extended contiguously. */
  lemma Contiguous(first: int, calls: seq<Call>, i: int, j: int)
    requires Rules(first, calls) && 0 <= i < j < |calls| && calls[j].size > 0 && calls[j].r != FAILURE
    requires forall k :: i < k < j ==> calls[k].size <= 0
    ensures calls[j].r == calls[i].end
  {
    EndsHold(first, calls, i + 1, j);
    assert Obeys(Before(first, calls, j), calls[j]);
  }
}
