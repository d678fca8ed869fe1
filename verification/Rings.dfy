/** Circular doubly linked lists through the fd/bk cells (src/mem/malloc.c, `unlink` and the bin headers).

    A ring is written out as the list of its nodes in fd order with the bin header at both ends.
    The links of node n are in cell n + 1: fd in word a, bk in word b. */
module Rings {
  import opened Basics
  import opened Chunks

  ghost predicate Nodes(r: seq<int>, mem: seq<Cell>) {
    forall k :: 0 <= k < |r| ==> 0 <= r[k] && r[k] + 1 < |mem|
  }

  ghost predicate Joined(mem: seq<Cell>, x: int, y: int) {
    && 0 <= x && x + 1 < |mem| && 0 <= y && y + 1 < |mem|
    && mem[x + 1].a == y && mem[y + 1].b == x
  }

  ghost predicate Linked(mem: seq<Cell>, r: seq<int>) {
    forall k, l {:trigger r[k], r[l]} :: 0 <= k && l == k + 1 && l < |r| ==> Joined(mem, r[k], r[l])
  }

  ghost function Ring(hd: int, s: seq<int>): seq<int> { [hd] + s + [hd] }

  function Unlink(mem: seq<Cell>, p: int): (r: seq<Cell>)
    requires 0 <= p && p + 1 < |mem|
    requires 0 <= mem[p + 1].a && mem[p + 1].a + 1 < |mem| && 0 <= mem[p + 1].b && mem[p + 1].b + 1 < |mem|
  {
    var fd := mem[p + 1].a;
    var bk := mem[p + 1].b;
    SetA(SetB(mem, fd + 1, bk), bk + 1, fd)
  }

  function LinkBetween(mem: seq<Cell>, p: int, bck: int, fwd: int): (r: seq<Cell>)
    requires 0 <= p && p + 1 < |mem| && 0 <= bck && bck + 1 < |mem| && 0 <= fwd && fwd + 1 < |mem|
    ensures |r| == |mem|
  {
    SetA(SetB(SetA(SetB(mem, p + 1, bck), p + 1, fwd), fwd + 1, p), bck + 1, p)
  }

  ghost function InsertAt(s: seq<int>, k: int, p: int): seq<int>
    requires 0 <= k <= |s|
  {
    s[..k] + [p] + s[k..]
  }

  lemma Neighbours(mem: seq<Cell>, hd: int, s: seq<int>, k: int)
    requires Linked(mem, Ring(hd, s)) && 0 <= k < |s|
    ensures 0 <= s[k] && s[k] + 1 < |mem|
    ensures mem[s[k] + 1].a == Ring(hd, s)[k + 2] && mem[s[k] + 1].b == Ring(hd, s)[k]
    ensures Joined(mem, Ring(hd, s)[k], s[k]) && Joined(mem, s[k], Ring(hd, s)[k + 2])
  {
    var r := Ring(hd, s);
    assert r[k + 1] == s[k];
    assert Joined(mem, r[k], r[k + 1]) && Joined(mem, r[k + 1], r[k + 2]);
  }

  lemma UnlinkRing(mem: seq<Cell>, hd: int, s: seq<int>, k: int)
    requires Linked(mem, Ring(hd, s)) && Distinct(s) && hd !in s && 0 <= k < |s|
    requires 0 <= s[k] && s[k] + 1 < |mem|
    requires 0 <= mem[s[k] + 1].a && mem[s[k] + 1].a + 1 < |mem| && 0 <= mem[s[k] + 1].b && mem[s[k] + 1].b + 1 < |mem|
    ensures Linked(Unlink(mem, s[k]), Ring(hd, Without(s, k)))
  {
    var r, r' := Ring(hd, s), Ring(hd, Without(s, k));
    Neighbours(mem, hd, s, k);
    var mem' := Unlink(mem, s[k]);
    forall i, j | 0 <= i && j == i + 1 && j < |r'| ensures Joined(mem', r'[i], r'[j]) {
      if i < k {
        assert r'[i] == r[i] && r'[j] == r[j] && Joined(mem, r[i], r[j]);
      } else if i > k {
        assert r'[i] == r[i + 1] && r'[j] == r[j + 1] && Joined(mem, r[i + 1], r[j + 1]);
      } else {
        assert r'[i] == r[k] && r'[j] == r[k + 2];
      }
    }
  }

  lemma LinkRing(mem: seq<Cell>, hd: int, s: seq<int>, k: int, p: int)
    requires Linked(mem, Ring(hd, s)) && Distinct(s) && hd !in s && 0 <= k <= |s|
    requires p !in s && p != hd && 0 <= p && p + 1 < |mem|
    requires Joined(mem, Ring(hd, s)[k], Ring(hd, s)[k + 1])
    ensures Linked(LinkBetween(mem, p, Ring(hd, s)[k], Ring(hd, s)[k + 1]), Ring(hd, InsertAt(s, k, p)))
  {
    var r, r' := Ring(hd, s), Ring(hd, InsertAt(s, k, p));
    var mem' := LinkBetween(mem, p, r[k], r[k + 1]);
    forall i, j | 0 <= i && j == i + 1 && j < |r'| ensures Joined(mem', r'[i], r'[j]) {
      if i < k {
        assert r'[i] == r[i] && r'[j] == r[j] && Joined(mem, r[i], r[j]);
      } else if i > k + 1 {
        assert r'[i] == r[i - 1] && r'[j] == r[j - 1] && Joined(mem, r[i - 1], r[j - 1]);
      } else {
        assert r'[k] == r[k] && r'[k + 1] == p && r'[k + 2] == r[k + 1];
      }
    }
  }

  lemma LinkedFrame(mem: seq<Cell>, mem': seq<Cell>, r: seq<int>)
    requires Linked(mem, r) && |mem| <= |mem'|
    requires forall k :: 0 <= k < |r| && 0 <= r[k] && r[k] + 1 < |mem| ==> mem'[r[k] + 1] == mem[r[k] + 1]
    ensures Linked(mem', r)
  {
  }

  ghost predicate Reads(mem: seq<Cell>, i: int, s: seq<int>) {
    && 0 <= i && i + 1 < |mem|
    && mem[i + 1].a == (if s == [] then i else s[0]) && mem[i + 1].b == (if s == [] then i else s[|s| - 1])
    && (forall k :: 0 <= k < |s| ==> 0 <= s[k] && s[k] + 1 < |mem|)
    && (forall k :: 0 <= k < |s| ==> mem[s[k] + 1].a == (if k == |s| - 1 then i else s[k + 1]))
    && (forall k :: 0 <= k < |s| ==> mem[s[k] + 1].b == (if k == 0 then i else s[k - 1]))
  }

  /** first(b) and last(b), and the neighbours of each chunk in its bin. */
  lemma RingReads(mem: seq<Cell>, i: int, s: seq<int>)
    requires Linked(mem, Ring(i, s))
    ensures Reads(mem, i, s)
  {
    var r := Ring(i, s);
    assert Joined(mem, r[0], r[1]) && Joined(mem, r[|s|], r[|s| + 1]);
    forall k | 0 <= k < |s|
      ensures 0 <= s[k] && s[k] + 1 < |mem| && mem[s[k] + 1].a == (if k == |s| - 1 then i else s[k + 1])
           && mem[s[k] + 1].b == (if k == 0 then i else s[k - 1])
    {
      Neighbours(mem, i, s, k);
      assert r[k] == (if k == 0 then i else s[k - 1]) && r[k + 2] == (if k == |s| - 1 then i else s[k + 1]);
    }
  }
}
