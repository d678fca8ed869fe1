/** The copy in `rEALLOc` (src/mem/malloc.c): an odd number of words, unrolled up to nine. */
module CopyWords {
  import opened Chunks

  /** Words of memory: word 2 * c is the first word of cell c. */
  function GetWord(mem: seq<Cell>, w: int): int
    requires 0 <= w < 2 * |mem|
  {
    if w % 2 == 0 then mem[w / 2].a else mem[w / 2].b
  }

  function SetWord(mem: seq<Cell>, w: int, v: int): (r: seq<Cell>)
    requires 0 <= w < 2 * |mem|
    ensures |r| == |mem|
    ensures forall x :: 0 <= x < 2 * |mem| ==> GetWord(r, x) == if x == w then v else GetWord(mem, x)
  {
    if w % 2 == 0 then mem[w / 2 := mem[w / 2].(a := v)] else mem[w / 2 := mem[w / 2].(b := v)]
  }

  /** n words from s have been copied to d, and nothing else has changed. */
  ghost predicate Copied(mem: seq<Cell>, mem': seq<Cell>, s: int, d: int, n: int) {
    && |mem'| == |mem| && 0 <= s && 0 <= d && 0 <= n && s + n <= 2 * |mem| && d + n <= 2 * |mem|
    && forall x :: 0 <= x < 2 * |mem| ==> GetWord(mem', x) == GetWord(mem, if d <= x < d + n then x - d + s else x)
  }

  method CopyOne(mem: seq<Cell>, ghost orig: seq<Cell>, s: int, d: int, i: int) returns (mem': seq<Cell>)
    requires Copied(orig, mem, s, d, i) && s + i < 2 * |mem| && d + i < 2 * |mem| && (s + i < d || d + i <= s)
    ensures Copied(orig, mem', s, d, i + 1) && |mem'| == |mem|
  {
    mem' := SetWord(mem, d + i, GetWord(mem, s + i));
  }

  method CopyTwo(mem: seq<Cell>, ghost orig: seq<Cell>, s: int, d: int, i: int) returns (mem': seq<Cell>)
    requires Copied(orig, mem, s, d, i) && s + i + 1 < 2 * |mem| && d + i + 1 < 2 * |mem|
    requires (s + i + 1 < d || d + i + 1 <= s)
    ensures Copied(orig, mem', s, d, i + 2) && |mem'| == |mem|
  {
    mem' := CopyOne(mem, orig, s, d, i);
    mem' := CopyOne(mem', orig, s, d, i + 1);
  }

  /** Copies all words of a block of `size` cells between two blocks that do not overlap. */
  method CopyBlock(mem: seq<Cell>, s: int, d: int, size: int) returns (mem': seq<Cell>)
    requires 2 <= size && 0 <= s && 0 <= d && s + size <= |mem| && d + size <= |mem| && (s + size <= d || d + size <= s)
    ensures Copied(mem, mem', 2 * s, 2 * d, 2 * size - 1)
  {
    hide Copied;
    CopiedNone(mem, 2 * s, 2 * d);
    var ncopies := 2 * size - 1;
    mem' := mem;
    if ncopies > 9 {
      var i := 0;
      while i < ncopies
        invariant 0 <= i <= ncopies && Copied(mem, mem', 2 * s, 2 * d, i) && |mem'| == |mem|
      {
        mem' := CopyOne(mem', mem, 2 * s, 2 * d, i);
        i := i + 1;
      }
    } else {
      mem' := CopyOne(mem', mem, 2 * s, 2 * d, 0);
      mem' := CopyTwo(mem', mem, 2 * s, 2 * d, 1);
      if ncopies > 4 {
        mem' := CopyTwo(mem', mem, 2 * s, 2 * d, 3);
        if ncopies > 6 {
          mem' := CopyTwo(mem', mem, 2 * s, 2 * d, 5);
          if ncopies > 8 {
            mem' := CopyTwo(mem', mem, 2 * s, 2 * d, 7);
          }
        }
      }
    }
  }

  lemma CopiedNone(mem: seq<Cell>, s: int, d: int)
    requires 0 <= s <= 2 * |mem| && 0 <= d <= 2 * |mem|
    ensures Copied(mem, mem, s, d, 0)
  {
  }

  /** The same by cells: the cells of the block but the last, and the first word of that one. */
  lemma CopiedCells(mem: seq<Cell>, mem': seq<Cell>, s: int, d: int, size: int)
    requires 2 <= size && 0 <= s && 0 <= d && s + size <= |mem| && d + size <= |mem|
    requires Copied(mem, mem', 2 * s, 2 * d, 2 * size - 1)
    ensures forall c :: d <= c < d + size - 1 ==> mem'[c] == mem[c - d + s]
    ensures mem'[d + size - 1] == Cell(mem[s + size - 1].a, mem[d + size - 1].b)
    ensures |mem'| == |mem| && forall c :: 0 <= c < |mem| && !(d <= c < d + size) ==> mem'[c] == mem[c]
  {
    hide GetWord;
    forall c | d <= c < d + size - 1 ensures mem'[c] == mem[c - d + s] {
      CellWords(mem, c - d + s);
      CellWords(mem', c);
    }
    CellWords(mem, s + size - 1);
    CellWords(mem', d + size - 1);
    CellWords(mem, d + size - 1);
    forall c | 0 <= c < |mem| && !(d <= c < d + size) ensures mem'[c] == mem[c] {
      CellWords(mem, c);
      CellWords(mem', c);
    }
  }

  lemma CellWords(mem: seq<Cell>, c: int)
    requires 0 <= c < |mem|
    ensures mem[c] == Cell(GetWord(mem, 2 * c), GetWord(mem, 2 * c + 1))
  {
  }
}
