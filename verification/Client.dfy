/** What a program that uses the allocator may rely on over any run (src/mem/malloc.c): the heap
    behaves as a map from addresses to separate blocks, each with its own words. */
module Client {
  import opened Basics
  import opened BinIndex
  import opened Chunks
  import opened FreeLists
  import opened Heap
  import opened Steps
  import opened Release
  import opened Resize
  import opened Choosing
  import opened CopyWords
  import opened Alignment
  import opened Allocator

  /** A block in the program's hands: what was asked for, and the words stored in all of its usable part. */
  datatype Block = Block(bytes: int, alignment: int, data: seq<int>)

  datatype Op =
    | New(bytes: int)
    | Aligned(alignment: int, bytes: int)
    | Resize(r: int, bytes: int)
    | Drop(r: int)
    | Store(r: int, i: int, v: int)

  /** The n words from cell r on. */
  function Words(mem: seq<Cell>, r: int, n: int): (w: seq<int>)
    requires 0 <= r && 0 <= n && 2 * r + n <= 2 * |mem|
    ensures |w| == n && forall i :: 0 <= i < n ==> w[i] == GetWord(mem, 2 * r + i)
  {
    seq(n, i requires 0 <= i < n => GetWord(mem, 2 * r + i))
  }

  /** The usable part of a chunk of sz cells at p lies inside the memory and holds these words. */
  ghost predicate Reads(mem: seq<Cell>, p: int, sz: int, data: seq<int>) {
    0 <= p && 2 <= sz && p + sz < |mem| && data == Words(mem, p + 1, 2 * sz - 1)
  }

  ghost predicate Holds(mem: seq<Cell>, r: int, sz: int, b: Block) {
    && Reads(mem, r - 1, sz, b.data) && b.bytes <= 8 * |b.data|
    && (PowerOfTwo(b.alignment) ==> 16 * r % b.alignment == 0)
  }

  /** The program holds exactly the live blocks. */
  ghost predicate Agrees(live: map<int, int>, mem: seq<Cell>, held: map<int, Block>) {
    && (forall r <- held :: r - 1 in live && Holds(mem, r, live[r - 1], held[r]))
    && (forall p <- live :: p + 1 in held)
  }

  /** Every block is as large and as aligned as asked for, and no two of them overlap. */
  ghost predicate Proper(held: map<int, Block>) {
    && (forall r <- held :: held[r].bytes <= 8 * |held[r].data|
               && (PowerOfTwo(held[r].alignment) ==> 16 * r % held[r].alignment == 0))
    && (forall r, s :: r in held && s in held && r < s ==> 2 * r + |held[r].data| < 2 * s)
  }

  // ---------- the meaning of an operation ----------

  /** A new block at an address that was not held. */
  ghost predicate Added(held: map<int, Block>, held': map<int, Block>, r: int, bytes: int, alignment: int) {
    && r !in held && r in held' && held' == held[r := held'[r]]
    && held'[r].bytes == bytes && held'[r].alignment == alignment
  }

  /** Block r becomes block r', with the words both have room for. */
  ghost predicate Replaced(held: map<int, Block>, held': map<int, Block>, r: int, r': int, bytes: int) {
    && r in held && r' !in held - {r} && r' in held' && held' == (held - {r})[r' := held'[r']]
    && held'[r'].bytes == bytes && held'[r'].alignment == 16
    && var d, d' := held[r].data, held'[r'].data;
       var n := if |d| < |d'| then |d| else |d'|;
       d'[..n] == d[..n]
  }

  /** The blocks that a program holds, the heap they are in, and the memory that is left. */
  datatype State = State(held: map<int, Block>, h: Heap, fastChunks: bool, last: int, room: Room)

  /** A request of nb cells is served at p, from the chunk that the order of the search gives. */
  ghost predicate Obtains(s: State, nb: int, p: int, h': Heap) {
    exists from :: From(s.h, s.fastChunks, s.last, s.room.top, nb, from) && Takes(from, s.last, nb, p, h')
  }

  /** An aligned block lies at p inside a chunk that the order of the search gives for the padded request. */
  ghost predicate ObtainsAligned(s: State, alignment: int, nb: int, p: int) {
    exists padded, q, h1 :: Obtains(s, padded, q, h1) && AlignedIn(alignment, nb, padded, q, p)
  }

  /** Where a block of the new size ends up: where it is, if it can grow there, else at a new chunk. */
  ghost predicate Finds(s: State, r: int, nb: int, r': int) {
    if Stays(s.h, s.room.cells, r - 1, nb) then r' == r
    else exists q, h1 :: Obtains(s, nb, q, h1) && r' - 1 == Lands(Live(View(s.h)), r - 1, q)
  }

  /** What an operation does.  An allocation takes the chunk that the order of the search gives; it changes no
      block when it fails, and it fails only when the request is out of range or what is left in top and below the
      limit is too little, and a block that could grow in place does not.  Operations on an address that is not held
      are not performed. */
  ghost predicate Does(s: State, op: Op, s': State) {
    match op
    case New(bytes) =>
      if s'.held == s.held then Denied(s'.room, bytes)
      else 0 <= bytes < TWO_64 && !RequestOutOfRange(bytes)
           && exists r :: Added(s.held, s'.held, r, bytes, 16) && Obtains(s, RequestToCells(bytes), r - 1, s'.h)
    case Aligned(alignment, bytes) =>
      if s'.held == s.held then DeniedAligned(s'.room, alignment, bytes)
      else 0 <= bytes < TWO_64 && !RequestOutOfRange(bytes)
           && exists r :: Added(s.held, s'.held, r, bytes, alignment)
                && ObtainsAligned(s, alignment, RequestToCells(bytes), r - 1)
    case Resize(r, bytes) =>
      if r !in s.held then s'.held == s.held
      else || (s'.held == s.held && Denied(s'.room, bytes) && Stuck(s, r, bytes))
           || (0 <= bytes < TWO_64 && !RequestOutOfRange(bytes)
               && exists r' :: Replaced(s.held, s'.held, r, r', bytes) && Finds(s, r, RequestToCells(bytes), r'))
    case Drop(r) =>
      && s'.held == s.held - {r}
      && (r in s.held ==> r - 1 in View(s.h) && Freed(s.h, s.fastChunks, s.room.cells, r - 1, s'.h))
    case Store(r, i, v) =>
      && s'.held == (if r in s.held && 0 <= i < |s.held[r].data| then s.held[r := Stored(s.held[r], i, v)] else s.held)
      && s'.h == s.h
  }

  /** The block cannot grow where it is. */
  ghost predicate Stuck(s: State, r: int, bytes: int) {
    0 <= bytes < TWO_64 && !RequestOutOfRange(bytes) ==> !Stays(s.h, s.room.cells, r - 1, RequestToCells(bytes))
  }

  /** A block after one of its words is overwritten. */
  function Stored(b: Block, i: int, v: int): Block
    requires 0 <= i < |b.data|
  {
    b.(data := b.data[i := v])
  }

  /** Sizes that the bins can serve, in 64 bits. */
  ghost predicate Serves(bytes: int) {
    0 <= bytes < TWO_64 && (RequestOutOfRange(bytes) || Searchable(RequestToCells(bytes)))
  }

  ghost predicate Sound(op: Op) {
    match op
    case New(bytes) => Serves(bytes)
    case Aligned(alignment, bytes) =>
      && Serves(bytes) && 0 <= alignment <= TWO_64 / 2
      && (RequestOutOfRange(bytes) || Roomy(RequestToCells(bytes), alignment))
    case Resize(_, bytes) => Serves(bytes)
    case Drop(_) => true
    case Store(_, _, _) => true
  }

  // ---------- how each promise of the allocator carries the blocks along ----------

  lemma SameWords(mem: seq<Cell>, mem': seq<Cell>, p: int, sz: int, data: seq<int>)
    requires Reads(mem, p, sz, data) && SameData(mem, mem', p, sz)
    ensures Reads(mem', p, sz, data)
  {
    forall w | 2 * (p + 1) <= w <= 2 * (p + sz) ensures GetWord(mem', w) == GetWord(mem, w) {
      assert p < w / 2 < p + sz || (w / 2 == p + sz && w % 2 == 0);
    }
  }

  lemma KeptAgrees(live: map<int, int>, mem: seq<Cell>, mem': seq<Cell>, held: map<int, Block>)
    requires Agrees(live, mem, held) && Kept(live, mem, mem')
    ensures Agrees(live, mem', held)
  {
    hide Reads, SameData;
    forall r | r in held ensures r - 1 in live && Holds(mem', r, live[r - 1], held[r]) {
      assert Holds(mem, r, live[r - 1], held[r]);
      SameWords(mem, mem', r - 1, live[r - 1], held[r].data);
    }
  }

  lemma AddAgrees(live: map<int, int>, mem: seq<Cell>, held: map<int, Block>, p: int, sz: int, b: Block)
    requires Agrees(live, mem, held) && p !in live && Holds(mem, p + 1, sz, b)
    ensures p + 1 !in held && Agrees(live[p := sz], mem, held[p + 1 := b])
  {
    hide Holds;
  }

  lemma HeldLive(live: map<int, int>, mem: seq<Cell>, held: map<int, Block>, r: int)
    requires Agrees(live, mem, held) && r in held
    ensures r > 0 && r - 1 in live
  {
  }

  lemma DropAgrees(live: map<int, int>, mem: seq<Cell>, held: map<int, Block>, r: int)
    requires Agrees(live, mem, held)
    ensures Agrees(live - {r - 1}, mem, held - {r})
  {
    hide Holds;
  }

  lemma MovedWords(mem: seq<Cell>, mem': seq<Cell>, p: int, p': int, n: int, data: seq<int>, data': seq<int>)
    requires 2 <= n && SameBlock(mem, p, mem', p', n) && 2 * n - 1 <= |data| && 2 * n - 1 <= |data'|
    requires 2 * (p + 1) + |data| <= 2 * |mem| && data == Words(mem, p + 1, |data|)
    requires 2 * (p' + 1) + |data'| <= 2 * |mem'| && data' == Words(mem', p' + 1, |data'|)
    ensures data'[..2 * n - 1] == data[..2 * n - 1]
  {
    forall i | 0 <= i < 2 * n - 1 ensures data'[i] == data[i] {
      var w, w' := 2 * (p + 1) + i, 2 * (p' + 1) + i;
      assert w % 2 == w' % 2 && w' / 2 - p' + p == w / 2;
      assert p' < w' / 2 < p' + n || (w' / 2 == p' + n && w % 2 == 0);
    }
  }

  lemma NewReads(mem: seq<Cell>, r: int, sz: int)
    requires 1 <= r && 2 <= sz && r - 1 + sz < |mem|
    ensures Reads(mem, r - 1, sz, Words(mem, r, 2 * sz - 1))
  {
  }

  lemma HeldReads(live: map<int, int>, mem: seq<Cell>, held: map<int, Block>, r: int)
    requires Agrees(live, mem, held) && r in held
    ensures r - 1 in live && Reads(mem, r - 1, live[r - 1], held[r].data)
  {
  }

  /** A block keeps the words that its old and its new place both have room for. */
  lemma MovedPrefix(mem: seq<Cell>, mem': seq<Cell>, r: int, r': int, sz: int, sz': int, data: seq<int>,
                    data': seq<int>)
    requires Reads(mem, r - 1, sz, data) && Reads(mem', r' - 1, sz', data')
    requires SameBlock(mem, r - 1, mem', r' - 1, if sz < sz' then sz else sz')
    ensures var n := if |data| < |data'| then |data| else |data'|; data'[..n] == data[..n]
  {
    hide SameBlock;
    MovedWords(mem, mem', r - 1, r' - 1, if sz < sz' then sz else sz', data, data');
  }

  lemma ReplacedBy(held: map<int, Block>, r: int, r': int, b: Block)
    requires r in held && r' !in held - {r} && b.alignment == 16
    requires var d, d' := held[r].data, b.data;
             var n := if |d| < |d'| then |d| else |d'|;
             d'[..n] == d[..n]
    ensures Replaced(held, (held - {r})[r' := b], r, r', b.bytes)
  {
  }

  lemma StoreWords(mem: seq<Cell>, r: int, sz: int, b: Block, i: int, v: int)
    requires Holds(mem, r, sz, b) && 0 <= i < |b.data|
    ensures var mem' := SetWord(mem, 2 * r + i, v);
            Holds(mem', r, sz, Stored(b, i, v)) && DataOnly(mem, mem', r - 1, sz)
  {
    var mem' := SetWord(mem, 2 * r + i, v);
    assert Words(mem', r, 2 * sz - 1) == b.data[i := v];
    var c := (2 * r + i) / 2;
    assert r <= c < r - 1 + sz || (c == r - 1 + sz && (2 * r + i) % 2 == 0);
  }

  // ---------- the program ----------

  class Program {
    const heap: Allocator
    var held: map<int, Block>

    ghost predicate Ok()
      reads this, heap
    {
      heap.Valid() && Agrees(Live(View(heap.h)), heap.mem, held)
    }

    constructor (n: int, limit: int)
      requires n >= PAGE && n % PAGE == 0 && 16 * (limit - n) <= TWO_32
      ensures Ok() && held == map[] && fresh(heap)
    {
      heap := new Allocator(n, limit);
      held := map[];
    }

    ghost function Now(): State
      reads this, heap
    {
      State(held, heap.h, heap.fastChunks, heap.lastRemainder, heap.Space())
    }

    method Grant(r: int, bytes: int, alignment: int, ghost mem0: seq<Cell>, ghost live: map<int, int>, ghost sz: int)
      requires heap.Valid() && Agrees(live, mem0, held) && 0 <= bytes <= 16 * sz - 8
      requires Served(live, mem0, Live(View(heap.h)), heap.mem, r - 1, sz)
      requires PowerOfTwo(alignment) ==> 16 * r % alignment == 0
      modifies this`held
      ensures Ok() && Added(old(held), held, r, bytes, alignment)
    {
      hide Inv, View, Live, PowerOfTwo;
      heap.LiveSettled(r - 1);
      LiveBound(heap.h, heap.mem, heap.fastbins);
      var cells := heap.mem[r - 1].b / 16;
      assert cells == sz by { LiveHead(heap.h, heap.mem, heap.fastbins, r - 1); }
      var b := Block(bytes, alignment, Words(heap.mem, r, 2 * cells - 1));
      KeptAgrees(live, mem0, heap.mem, held);
      AddAgrees(live, heap.mem, held, r - 1, sz, b);
      held := held[r := b];
    }

    method Step(op: Op)
      requires Ok() && Sound(op)
      modifies this`held, heap
      ensures Ok() && Does(old(Now()), op, Now())
    {
      hide View, Live, Agrees, Served, Moved, RequestToCells, Searchable, Roomy, PowerOfTwo, Kept, Words, Holds, Denied,
           DeniedAligned, Replaced, Stays, From, Takes, Lands, Freed, Top, AlignedIn;
      hide Allocator.Valid;
      ghost var live, mem, was := Live(View(heap.h)), heap.mem, Now();
      match op {
        case New(bytes) =>
          var r, sz, from := heap.Malloc(bytes);
          if r != 0 {
            SmallAlignment(16, r);
            Grant(r, bytes, 16, mem, live, sz);
          } else {
            KeptAgrees(live, mem, heap.mem, held);
          }
        case Aligned(alignment, bytes) =>
          var r, sz, from, padded, p, h1 := heap.Memalign(alignment, bytes);
          if r != 0 {
            assert Obtains(was, padded, p, h1);
            Grant(r, bytes, alignment, mem, live, sz);
          } else {
            KeptAgrees(live, mem, heap.mem, held);
          }
        case Resize(r, bytes) =>
          if r in held {
            HeldLive(live, mem, held, r);
            var r', sz, from, q, h1 := heap.Realloc(r, bytes);
            if r' != 0 {
              assert Finds(was, r, RequestToCells(bytes), r') by {
                assert Stays(was.h, was.room.cells, r - 1, RequestToCells(bytes))
                       || Obtains(was, RequestToCells(bytes), q, h1);
              }
              Replace(r, r', bytes, mem, live, sz);
            } else {
              KeptAgrees(live, mem, heap.mem, held);
            }
          }
        case Drop(r) =>
          if r in held {
            HeldLive(live, mem, held, r);
            heap.FreeMem(r);
            DropAgrees(live, mem, held, r);
            held := held - {r};
            KeptAgrees(Live(View(heap.h)), mem, heap.mem, held);
          }
        case Store(r, i, v) =>
          if r in held && 0 <= i < |held[r].data| {
            Put(r, i, v);
          }
      }
    }

    /** Any run of operations: the blocks follow the operations one by one, and never overlap. */
    method Run(ops: seq<Op>) returns (ghost trace: seq<State>)
      requires Ok() && forall op <- ops :: Sound(op)
      modifies this`held, heap
      ensures Ok() && |trace| == |ops| + 1 && trace[0] == old(Now()) && trace[|ops|] == Now()
      ensures forall i :: 0 <= i < |ops| ==> Does(trace[i], ops[i], trace[i + 1])
      ensures forall i :: 0 <= i <= |ops| ==> Proper(trace[i].held)
    {
      hide Ok, Does, Proper, Sound;
      trace := [Now()];
      HeldProper();
      for i := 0 to |ops|
        invariant Ok() && |trace| == i + 1 && trace[0] == old(Now()) && trace[i] == Now()
        invariant forall j :: 0 <= j < i ==> Does(trace[j], ops[j], trace[j + 1])
        invariant forall j :: 0 <= j <= i ==> Proper(trace[j].held)
      {
        Step(ops[i]);
        HeldProper();
        trace := trace + [Now()];
      }
    }

    method Put(r: int, i: int, v: int)
      requires Ok() && r in held && 0 <= i < |held[r].data|
      modifies this`held, heap
      ensures Ok() && held == old(held)[r := Stored(old(held)[r], i, v)] && heap.h == old(heap.h)
    {
      hide View, Live, Inv, DataOnly, PowerOfTwo, Kept;
      ghost var live, mem, sz := Live(View(heap.h)), heap.mem, Live(View(heap.h))[r - 1];
      heap.LiveSettled(r - 1);
      StoreWords(mem, r, sz, held[r], i, v);
      DropAgrees(live, mem, held, r);
      heap.mem := SetWord(heap.mem, 2 * r + i, v);
      DataWrite(heap.h, mem, heap.mem, heap.fastbins, r - 1);
      KeptAgrees(live - {r - 1}, mem, heap.mem, held - {r});
      var b := Stored(held[r], i, v);
      AddAgrees(live - {r - 1}, heap.mem, held - {r}, r - 1, sz, b);
      assert live == (live - {r - 1})[r - 1 := sz] && held[r := b] == (held - {r})[r := b];
      held := held[r := b];
    }

    method Replace(r: int, r': int, bytes: int, ghost mem0: seq<Cell>, ghost live: map<int, int>, ghost sz: int)
      requires heap.Valid() && Agrees(live, mem0, held) && r in held && 0 <= bytes <= 16 * sz - 8
      requires Moved(live, mem0, Live(View(heap.h)), heap.mem, r - 1, r' - 1, sz)
      modifies this`held
      ensures Ok() && Replaced(old(held), held, r, r', bytes)
    {
      hide Inv, View, Live, PowerOfTwo, Kept, SameBlock, Agrees, Reads, Words, Replaced;
      heap.LiveSettled(r' - 1);
      LiveBound(heap.h, heap.mem, heap.fastbins);
      var cells := heap.mem[r' - 1].b / 16;
      assert cells == sz by { LiveHead(heap.h, heap.mem, heap.fastbins, r' - 1); }
      var b := Block(bytes, 16, Words(heap.mem, r', 2 * cells - 1));
      SmallAlignment(16, r');
      NewReads(heap.mem, r', cells);
      HeldReads(live, mem0, held, r);
      MovedPrefix(mem0, heap.mem, r, r', live[r - 1], sz, held[r].data, b.data);
      DropAgrees(live, mem0, held, r);
      KeptAgrees(live - {r - 1}, mem0, heap.mem, held - {r});
      AddAgrees(live - {r - 1}, heap.mem, held - {r}, r' - 1, sz, b);
      ReplacedBy(held, r, r', b);
      held := (held - {r})[r' := b];
    }

    lemma HeldProper()
      requires Ok()
      ensures Proper(held)
    {
      hide Inv, View, Live, Agrees, Proper, Flags, NoLimbo, Marked, Top;
      if heap.Settled() {
        LiveApart(heap.h, heap.mem, heap.fastbins);
      } else {
        EmptyFacts(|heap.mem|, heap.mem, heap.mem);
        NoneLive(heap.h);
      }
      AgreesProper(Live(View(heap.h)), heap.mem, held);
    }
  }

  lemma LiveHead(h: Heap, mem: seq<Cell>, fb: seq<int>, p: int)
    requires Inv(h, mem, fb) && p in Live(View(h))
    ensures 0 <= p < |mem| && mem[p].b / 16 == Live(View(h))[p]
  {
    hide Lists, Len, Blocks, Arena, Inv, Tags, View, Live, Top;
    InvArena(h, mem, fb);
    LiveView(View(h), p);
    var k := IndexOf(h, mem, p);
    Scout(h, mem, k);
  }

  ghost predicate Spread(live: map<int, int>) {
    forall u, n :: u in live && n in live && u < n ==> u + live[u] <= n
  }

  lemma NoneLive(h: Heap)
    requires View(h) == map[]
    ensures Spread(Live(View(h)))
  {
  }

  lemma AgreesProper(live: map<int, int>, mem: seq<Cell>, held: map<int, Block>)
    requires Agrees(live, mem, held) && Spread(live)
    ensures Proper(held)
  {
    hide PowerOfTwo;
    forall r, s | r in held && s in held && r < s ensures 2 * r + |held[r].data| < 2 * s {
      assert Holds(mem, r, live[r - 1], held[r]);
      assert s - 1 in live;
    }
  }

  lemma LiveApart(h: Heap, mem: seq<Cell>, fb: seq<int>)
    requires Inv(h, mem, fb)
    ensures Spread(Live(View(h)))
  {
    hide Tags, Lists, Blocks, Len;
    ViewFacts(h, mem);
  }
}
