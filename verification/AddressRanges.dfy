/** The address ranges of a process (src/smp/sched.cpp): a list of free ranges from which allocations are cut,
    at a chosen address or at the first that fits.  The list is indexed; the source keeps a reference into it
    across an append. */
module AddressRanges {
  import opened Basics

  const LIMIT: int := 0x8000_0000

  datatype Range = Range(base: int, length: int) {
    function End(): int { base + length }
    predicate Has(x: int) { base <= x < base + length }
    predicate Contains(b: int, size: int) { base <= b && b + size <= base + length }
  }

  ghost predicate In(rs: seq<Range>, x: int) { exists i :: 0 <= i < |rs| && rs[i].Has(x) }

  /** No address is in two ranges of the list. */
  ghost predicate Apart(rs: seq<Range>) {
    forall i, j, x :: 0 <= i < j < |rs| && rs[i].Has(x) ==> !rs[j].Has(x)
  }

  /** Every address of the space is free or taken, and none is both. */
  ghost predicate Partition(free: seq<Range>, taken: seq<Range>) {
    && (forall x :: In(free, x) || In(taken, x) <==> 0 <= x < LIMIT)
    && (forall x :: In(free, x) ==> !In(taken, x))
    && Apart(free) && Apart(taken)
    && (forall r <- free :: 0 <= r.base && 0 <= r.length && r.End() <= LIMIT) && (forall r <- taken :: 0 < r.length)
  }

  /** A free range ends where the space ends or a taken range begins. */
  ghost predicate Maximal(free: seq<Range>, taken: seq<Range>) {
    forall i :: 0 <= i < |free| && free[i].length > 0 ==> free[i].End() == LIMIT || In(taken, free[i].End())
  }

  /** The request lies inside the space and overlaps nothing taken. */
  ghost predicate Available(taken: seq<Range>, b: int, size: int) {
    0 <= b && b + size <= LIMIT && forall x :: b <= x < b + size ==> !In(taken, x)
  }

  /** A request inside a free range is available. */
  lemma Fits(free: seq<Range>, taken: seq<Range>, i: int, b: int, size: int)
    requires Partition(free, taken) && 0 <= i < |free| && free[i].Contains(b, size) && size >= 0
    ensures Available(taken, b, size)
  {
    assert free[i] in free;
    forall x | b <= x < b + size ensures !In(taken, x) {
      assert free[i].Has(x) && In(free, x);
    }
  }

  /** One free range holds the whole request exactly when the request is available. */
  lemma FitsExactly(free: seq<Range>, taken: seq<Range>, b: int, size: int)
    requires Partition(free, taken) && Maximal(free, taken) && size > 0
    ensures (exists i :: 0 <= i < |free| && free[i].Contains(b, size)) <==> Available(taken, b, size)
  {
    if i :| 0 <= i < |free| && free[i].Contains(b, size) {
      Fits(free, taken, i, b, size);
    }
    if Available(taken, b, size) {
      assert In(free, b) || In(taken, b);
      var i :| 0 <= i < |free| && free[i].Has(b);
      var e := free[i].End();
      assert b <= e < b + size ==> !In(taken, e);
      assert free[i].Contains(b, size);
    }
  }

  /** Cutting a request out of the i-th free range: the code of `allocate_virtual_memory_at`. */
  function CutAt(free: seq<Range>, i: int, b: int, size: int): seq<Range>
    requires 0 <= i < |free|
  {
    var e := free[i];
    var rest := e.End() - (b + size);
    if b == e.base then free[i := Range(e.base + size, e.length - size)]
    else (free + if rest > 0 then [Range(b + size, rest)] else [])[i := Range(e.base, b - e.base)]
  }

  /** What is free afterwards: the old free addresses without the request. */
  lemma CutFree(free: seq<Range>, i: int, b: int, size: int, x: int)
    requires 0 <= i < |free| && free[i].Contains(b, size) && size >= 0 && Apart(free)
    ensures In(CutAt(free, i, b, size), x) <==> In(free, x) && !(b <= x < b + size)
  {
    var after := CutAt(free, i, b, size);
    if In(after, x) {
      var k :| 0 <= k < |after| && after[k].Has(x);
      assert free[if k == |free| then i else k].Has(x);
    }
    if In(free, x) && !(b <= x < b + size) {
      var k :| 0 <= k < |free| && free[k].Has(x);
      if k != i {
        assert after[k].Has(x);
      } else if b == free[i].base || x < b {
        assert after[i].Has(x);
      } else {
        assert after[|free|].Has(x);
      }
    }
  }

  lemma CutApart(free: seq<Range>, i: int, b: int, size: int)
    requires 0 <= i < |free| && free[i].Contains(b, size) && size >= 0 && Apart(free)
    ensures Apart(CutAt(free, i, b, size))
  {
    var after := CutAt(free, i, b, size);
    forall k, x | 0 <= k < |after| && after[k].Has(x) ensures free[if k == |free| then i else k].Has(x) {
    }
    forall k, l, x | 0 <= k < l < |after| && after[k].Has(x) ensures !after[l].Has(x) {
    }
  }

  lemma CutMaximal(free: seq<Range>, taken: seq<Range>, i: int, b: int, size: int)
    requires 0 <= i < |free| && free[i].Contains(b, size) && size > 0 && Maximal(free, taken)
    ensures Maximal(CutAt(free, i, b, size), taken + [Range(b, size)])
  {
    var after, more := CutAt(free, i, b, size), taken + [Range(b, size)];
    forall k | 0 <= k < |after| && after[k].length > 0 ensures after[k].End() == LIMIT || In(more, after[k].End()) {
      if k == i && b != free[i].base {
        assert more[|taken|].Has(b);
      } else {
        var l := if k == |free| then i else k;
        assert after[k].End() == free[l].End() && free[l].length > 0;
        if free[l].End() != LIMIT {
          InMore(taken, Range(b, size), free[l].End());
        }
      }
    }
  }

  lemma InMore(taken: seq<Range>, r: Range, x: int)
    ensures In(taken + [r], x) <==> In(taken, x) || r.Has(x)
  {
    var more := taken + [r];
    if In(taken, x) {
      var k :| 0 <= k < |taken| && taken[k].Has(x);
      assert more[k].Has(x);
    }
    if r.Has(x) {
      assert more[|taken|].Has(x);
    }
  }

  lemma CutInside(free: seq<Range>, i: int, b: int, size: int)
    requires 0 <= i < |free| && free[i].Contains(b, size) && size >= 0
    requires forall r <- free :: 0 <= r.base && 0 <= r.length && r.End() <= LIMIT
    ensures forall r <- CutAt(free, i, b, size) :: 0 <= r.base && 0 <= r.length && r.End() <= LIMIT
  {
    assert free[i] in free;
  }

  lemma CutPartition(free: seq<Range>, taken: seq<Range>, i: int, b: int, size: int)
    requires Partition(free, taken) && 0 <= i < |free| && free[i].Contains(b, size) && size > 0
    ensures Partition(CutAt(free, i, b, size), taken + [Range(b, size)])
  {
    hide In;
    var after, r := CutAt(free, i, b, size), Range(b, size);
    forall x ensures In(after, x) <==> In(free, x) && !r.Has(x) {
      CutFree(free, i, b, size, x);
    }
    forall x ensures In(taken + [r], x) <==> In(taken, x) || r.Has(x) {
      InMore(taken, r, x);
    }
    forall x | r.Has(x) ensures In(free, x) {
      Inside(free, i, x);
    }
    CutApart(free, i, b, size);
    MoreApart(taken, r);
    CutInside(free, i, b, size);
  }

  lemma Inside(rs: seq<Range>, i: int, x: int)
    requires 0 <= i < |rs| && rs[i].Has(x)
    ensures In(rs, x)
  {
  }

  lemma MoreApart(taken: seq<Range>, r: Range)
    requires Apart(taken) && forall x :: r.Has(x) ==> !In(taken, x)
    ensures Apart(taken + [r])
  {
    var more := taken + [r];
    forall k, l, x | 0 <= k < l < |more| && more[k].Has(x) ensures !more[l].Has(x) {
      Inside(taken, k, x);
    }
  }

  // ---------- requests of no bytes ----------

  lemma EmptyPartition(free: seq<Range>, taken: seq<Range>, i: int, b: int)
    requires Partition(free, taken) && 0 <= i < |free| && free[i].Contains(b, 0)
    ensures Partition(CutAt(free, i, b, 0), taken)
  {
    hide In;
    var after := CutAt(free, i, b, 0);
    forall x ensures In(after, x) <==> In(free, x) {
      CutFree(free, i, b, 0, x);
    }
    CutApart(free, i, b, 0);
    CutInside(free, i, b, 0);
  }

  /** Nothing is lost by a request of no bytes exactly if it is at an end of the range it is cut from. */
  lemma EmptyMaximal(free: seq<Range>, taken: seq<Range>, i: int, b: int)
    requires Partition(free, taken) && Maximal(free, taken) && 0 <= i < |free| && free[i].Contains(b, 0)
    ensures Maximal(CutAt(free, i, b, 0), taken) <==> b == free[i].base || b == free[i].End()
  {
    var after := CutAt(free, i, b, 0);
    if b == free[i].base || b == free[i].End() {
      assert after == free;
    } else {
      assert free[i] in free && after[i] == Range(free[i].base, b - free[i].base);
      assert free[i].Has(b) && In(free, b);
    }
  }

  /** The request lies strictly inside the first free range that reaches it. */
  predicate Splits(free: seq<Range>, b: int) {
    exists i :: 0 <= i < |free| && free[i].base < b < free[i].End()
                && forall k :: 0 <= k < i ==> !free[k].Contains(b, 0)
  }

  lemma SplitsAt(free: seq<Range>, i: int, b: int)
    requires 0 <= i < |free| && free[i].Contains(b, 0) && forall k :: 0 <= k < i ==> !free[k].Contains(b, 0)
    ensures Splits(free, b) <==> free[i].base < b < free[i].End()
  {
    if j :| 0 <= j < |free| && free[j].base < b < free[j].End() && forall k :: 0 <= k < j ==> !free[k].Contains(b, 0) {
      assert free[j].Contains(b, 0);
      assert i == j;
    }
  }

  /** A request of no bytes at 5 leaves the bytes 4 and 5 in ranges that no later request can span. */
  lemma EmptyRequestSplits()
    ensures var free := CutAt([Range(0, LIMIT)], 0, 5, 0);
            && Splits([Range(0, LIMIT)], 5) && Available([], 4, 2)
            && forall i :: 0 <= i < |free| ==> !free[i].Contains(4, 2)
  {
    SplitsAt([Range(0, LIMIT)], 0, 5);
  }

  /** The i-th free range is the first that is long enough. */
  predicate FirstFit(free: seq<Range>, size: int, i: int) {
    0 <= i < |free| && free[i].length >= size && forall k :: 0 <= k < i ==> free[k].length < size
  }

  // ---------- the test in 64 bits ----------

  /** The test of `allocate_virtual_memory_at`. */
  predicate Passes(r: Range, b: int, size: int) {
    r.base <= b && (b + size) % TWO_64 <= r.End()
  }

  /** The test is right unless the end of the request wraps around to an address before the end of the range. */
  lemma PassesExactly(r: Range, b: int, size: int)
    requires 0 <= r.base && 0 <= r.length && r.End() <= LIMIT && 0 <= b < TWO_64 && 0 <= size < TWO_64
    ensures (Passes(r, b, size) <==> r.Contains(b, size))
       <==> !(b + size >= TWO_64 && r.base <= b && b + size - TWO_64 <= r.End())
  {
    assert b + size < TWO_64 ==> (b + size) % TWO_64 == b + size;
    assert b + size >= TWO_64 ==> (b + size) % TWO_64 == b + size - TWO_64;
  }

  /** The last page of the address space, which no process has, passes. */
  lemma WrappedRequest()
    ensures Passes(Range(0, LIMIT), TWO_64 - 4096, 4096) && !Range(0, LIMIT).Contains(TWO_64 - 4096, 4096)
  {
  }

  lemma TestRight(free: seq<Range>, taken: seq<Range>, i: int, b: int, size: int)
    requires Partition(free, taken) && 0 <= i < |free| && 0 <= b < TWO_64 && 0 <= size < TWO_64
    requires b + size < TWO_64 || b + size - TWO_64 > LIMIT
    ensures Passes(free[i], b, size) <==> free[i].Contains(b, size)
  {
    assert free[i] in free;
    PassesExactly(free[i], b, size);
  }

  // ---------- the ranges of a process ----------

  class Ranges {
    var free: seq<Range>
    ghost var taken: seq<Range>

    ghost predicate Valid()
      reads this
    {
      Partition(free, taken)
    }

    constructor ()
      ensures Valid() && Maximal(free, taken) && taken == []
    {
      free, taken := [Range(0, LIMIT)], [];
      new;
      forall x | 0 <= x < LIMIT ensures In(free, x) {
        assert free[0].Has(x);
      }
    }

    /** `allocate_virtual_memory_at`: hands out only what is available, and as long as no free range has been
        split, everything that is. */
    method AllocateAt(b: int, size: int) returns (ok: bool, at: int)
      requires Valid() && 0 <= b < TWO_64 && 0 <= size < TWO_64 && (b + size < TWO_64 || b + size - TWO_64 > LIMIT)
      modifies this
      ensures Valid() && (ok <==> exists i :: 0 <= i < |old(free)| && old(free)[i].Contains(b, size))
      ensures if ok then at == b && Available(old(taken), b, size) else free == old(free)
      ensures taken == if ok && size > 0 then old(taken) + [Range(b, size)] else old(taken)
      ensures old(Maximal(free, taken)) && size > 0 ==> Maximal(free, taken) && (ok <==> Available(old(taken), b, size))
      ensures old(Maximal(free, taken)) && size == 0 ==> (Maximal(free, taken) <==> !Splits(old(free), b))
    {
      hide Partition, Maximal, In, Available, Splits, Passes;
      if Maximal(free, taken) && size > 0 {
        FitsExactly(free, taken, b, size);
      }
      for i := 0 to |free|
        invariant free == old(free) && taken == old(taken) && forall k :: 0 <= k < i ==> !free[k].Contains(b, size)
      {
        assert Passes(free[i], b, size) <==> free[i].Contains(b, size) by { TestRight(free, taken, i, b, size); }
        if Passes(free[i], b, size) {
          Fits(free, taken, i, b, size);
          CutOne(i, b, size);
          return true, b;
        }
      }
      if size == 0 {
        NoSplit(free, b);
      }
      return false, 0;
    }

    method CutOne(i: int, b: int, size: int)
      requires Valid() && 0 <= i < |free| && free[i].Contains(b, size) && size >= 0
      requires forall k :: 0 <= k < i ==> !free[k].Contains(b, size)
      modifies this
      ensures Valid() && taken == if size > 0 then old(taken) + [Range(b, size)] else old(taken)
      ensures old(Maximal(free, taken)) ==> (Maximal(free, taken) <==> size > 0 || !Splits(old(free), b))
    {
      hide Partition, Maximal, Splits;
      if size > 0 {
        CutPartition(free, taken, i, b, size);
        if Maximal(free, taken) {
          CutMaximal(free, taken, i, b, size);
        }
        taken := taken + [Range(b, size)];
      } else {
        EmptyPartition(free, taken, i, b);
        SplitsAt(free, i, b);
        if Maximal(free, taken) {
          EmptyMaximal(free, taken, i, b);
        }
      }
      free := CutAt(free, i, b, size);
    }

    /** `allocate_virtual_memory`: the start of the first free range that is long enough.  As long as no free
        range has been split it fails only if no address has room; a request of no bytes fails only if there
        is no free range at all. */
    method Allocate(size: int) returns (ok: bool, at: int)
      requires Valid() && 0 <= size
      modifies this
      ensures Valid() && (old(Maximal(free, taken)) ==> Maximal(free, taken))
      ensures if ok then Available(old(taken), at, size) else free == old(free)
      ensures if ok then exists i :: FirstFit(old(free), size, i) && at == old(free)[i].base
              else forall i :: 0 <= i < |free| ==> free[i].length < size
      ensures taken == if ok && size > 0 then old(taken) + [Range(at, size)] else old(taken)
      ensures old(Maximal(free, taken)) && size > 0 ==> (ok <==> exists b :: Available(old(taken), b, size))
      ensures size == 0 ==> (ok <==> old(free) != []) && (ok ==> at == old(free)[0].base)
    {
      hide Partition, Maximal, In, Available, Splits;
      ghost var was := free;
      for i := 0 to |free|
        invariant free == was == old(free) && taken == old(taken) && forall k :: 0 <= k < i ==> free[k].length < size
        invariant size == 0 ==> i == 0
      {
        NotNegative(free, taken);
        assert free[i] in free;
        if free[i].length >= size {
          at := free[i].base;
          assert FirstFit(free, size, i);
          Fits(free, taken, i, at, size);
          TakeFront(i, size);
          return true, at;
        }
      }
      if Maximal(free, taken) && size > 0 {
        forall b ensures !Available(taken, b, size) {
          FitsExactly(free, taken, b, size);
        }
      }
      return false, 0;
    }

    method TakeFront(i: int, size: int)
      requires Valid() && 0 <= i < |free| && 0 <= size <= free[i].length
      modifies this
      ensures Valid() && taken == if size > 0 then old(taken) + [Range(old(free)[i].base, size)] else old(taken)
      ensures old(Maximal(free, taken)) ==> Maximal(free, taken)
    {
      hide Partition, Maximal;
      var at := free[i].base;
      if size > 0 {
        CutPartition(free, taken, i, at, size);
        if Maximal(free, taken) {
          CutMaximal(free, taken, i, at, size);
        }
        taken := taken + [Range(at, size)];
      } else {
        assert free[i := Range(at + size, free[i].length - size)] == free;
      }
      free := free[i := Range(at + size, free[i].length - size)];
      if free[i].length == 0 {
        DropEmpty(free, taken, i);
        free := free[..i] + free[i + 1..];
      }
    }
  }

  lemma NoSplit(free: seq<Range>, b: int)
    requires forall k :: 0 <= k < |free| ==> !free[k].Contains(b, 0)
    ensures !Splits(free, b)
  {
    forall i | 0 <= i < |free| ensures !(free[i].base < b < free[i].End()) {
      assert !free[i].Contains(b, 0);
    }
  }

  lemma NotNegative(free: seq<Range>, taken: seq<Range>)
    requires Partition(free, taken)
    ensures forall r <- free :: r.length >= 0
  {
  }

  /** An empty range can go. */
  lemma DropEmpty(free: seq<Range>, taken: seq<Range>, i: int)
    requires Partition(free, taken) && 0 <= i < |free| && free[i].length == 0
    ensures Partition(free[..i] + free[i + 1..], taken)
    ensures Maximal(free, taken) ==> Maximal(free[..i] + free[i + 1..], taken)
  {
    var less := free[..i] + free[i + 1..];
    assert forall k :: 0 <= k < |less| ==> less[k] == free[if k < i then k else k + 1];
    hide In;
    forall x ensures In(less, x) <==> In(free, x) {
      DropIn(free, i, x);
    }
  }

  lemma DropIn(free: seq<Range>, i: int, x: int)
    requires 0 <= i < |free| && free[i].length == 0
    ensures In(free[..i] + free[i + 1..], x) <==> In(free, x)
  {
    var less := free[..i] + free[i + 1..];
    if In(free, x) {
      var k :| 0 <= k < |free| && free[k].Has(x);
      assert less[if k < i then k else k - 1].Has(x);
    }
  }
}
