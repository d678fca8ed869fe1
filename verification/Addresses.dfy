/** Virtual addresses of 4-level paging (src/mem/virtual.h; section 4.5 of the Intel SDM, Volume 3A). */
module Addresses {
  import opened Basics

  const PAGE: int := 0x1000
  const TWO_36: int := 0x10_0000_0000

  datatype VirtualAddress = VirtualAddress(canonical: int, pml4: int, pdp: int, pd: int, pt: int, offset: int) {
    predicate InRange() {
      && 0 <= canonical < 0x1_0000 && 0 <= pml4 < 512 && 0 <= pdp < 512 && 0 <= pd < 512 && 0 <= pt < 512
      && 0 <= offset < 4096
    }
  }

  /** `split_virtual_address_to_structure` */
  function Split(a: int): (v: VirtualAddress)
    requires 0 <= a < TWO_64
    ensures v.InRange()
  {
    VirtualAddress(a / 0x1_0000_0000_0000 % 0x1_0000, a / 0x80_0000_0000 % 512, a / 0x4000_0000 % 512,
                   a / 0x20_0000 % 512,
                   a / 0x1000 % 512, a % 0x1000)
  }

  /** `structure_to_virtual_address` */
  function Join(v: VirtualAddress): int {
    v.canonical * 0x1_0000_0000_0000 + v.pml4 * 0x80_0000_0000 + v.pdp * 0x4000_0000
    + v.pd * 0x20_0000 + v.pt * 0x1000 + v.offset
  }

  lemma Quotient(a: int, d: int, q: int, r: int)
    requires d > 0 && a == q * d + r && 0 <= r < d
    ensures a / d == q
  {
    var k := a / d - q;
    assert a == (a / d) * d + a % d;
    assert k * d == r - a % d;
    assert k >= 1 ==> k * d >= d;
    assert k <= -1 ==> k * d <= -d;
  }

  lemma Shifts(a: int)
    requires 0 <= a
    ensures a / 0x20_0000 == a / 0x1000 / 512 && a / 0x4000_0000 == a / 0x20_0000 / 512
    ensures a / 0x80_0000_0000 == a / 0x4000_0000 / 512 && a / 0x1_0000_0000_0000 == a / 0x80_0000_0000 / 512
  {
    var q1 := a / 0x1000;
    Quotient(a, 0x20_0000, q1 / 512, q1 % 512 * 0x1000 + a % 0x1000);
    var q2 := a / 0x20_0000;
    Quotient(a, 0x4000_0000, q2 / 512, q2 % 512 * 0x20_0000 + a % 0x20_0000);
    var q3 := a / 0x4000_0000;
    Quotient(a, 0x80_0000_0000, q3 / 512, q3 % 512 * 0x4000_0000 + a % 0x4000_0000);
    var q4 := a / 0x80_0000_0000;
    Quotient(a, 0x1_0000_0000_0000, q4 / 512, q4 % 512 * 0x80_0000_0000 + a % 0x80_0000_0000);
  }

  lemma JoinSplit(a: int)
    requires 0 <= a < TWO_64
    ensures Join(Split(a)) == a
  {
    Shifts(a);
  }

  lemma SplitJoin(v: VirtualAddress)
    requires v.InRange()
    ensures 0 <= Join(v) < TWO_64 && Split(Join(v)) == v
  {
    var a := Join(v);
    var x4 := v.canonical * 512 + v.pml4;
    var x3 := x4 * 512 + v.pdp;
    var x2 := x3 * 512 + v.pd;
    var x1 := x2 * 512 + v.pt;
    assert a == x1 * 0x1000 + v.offset;
    Shifts(a);
    hide Join, Split;
    Quotient(a, 0x1000, x1, v.offset);
    Digit(x2, v.pt);
    Digit(x3, v.pd);
    Digit(x4, v.pdp);
    Digit(v.canonical, v.pml4);
    SplitIs(a, v, x1, x2, x3, x4);
  }

  lemma Digit(x: int, d: int)
    requires 0 <= d < 512
    ensures (x * 512 + d) / 512 == x && (x * 512 + d) % 512 == d
  {
  }

  lemma SplitIs(a: int, v: VirtualAddress, x1: int, x2: int, x3: int, x4: int)
    requires 0 <= a < TWO_64 && v.InRange() && a == x1 * 0x1000 + v.offset
    requires a / 0x1000 == x1 && a / 0x20_0000 == x2 && a / 0x4000_0000 == x3 && a / 0x80_0000_0000 == x4
    requires a / 0x1_0000_0000_0000 == v.canonical && x1 % 512 == v.pt && x2 % 512 == v.pd && x3 % 512 == v.pdp
    requires x4 % 512 == v.pml4
    ensures Split(a) == v
  {
    assert a % 0x1000 == v.offset;
  }

  /** Bits 12 to 47: the page, whatever the sign extension. */
  function PageOf(a: int): int { a / PAGE % TWO_36 }

  /** The four table indices of an address. */
  datatype Path = Path(pml4: int, pdp: int, pd: int, pt: int) {
    predicate InRange() { 0 <= pml4 < 512 && 0 <= pdp < 512 && 0 <= pd < 512 && 0 <= pt < 512 }
  }

  function PathOf(a: int): (p: Path)
    requires 0 <= a < TWO_64
    ensures p.InRange()
  {
    var v := Split(a);
    Path(v.pml4, v.pdp, v.pd, v.pt)
  }

  /** Two addresses take the same path through the tables exactly when they agree on bits 12 to 47. */
  lemma SamePath(a: int, b: int)
    requires 0 <= a < TWO_64 && 0 <= b < TWO_64
    ensures PathOf(a) == PathOf(b) <==> PageOf(a) == PageOf(b)
  {
    hide PathOf, PageOf;
    PagePath(a);
    PagePath(b);
    SameNumber(PathOf(a), PathOf(b));
  }

  lemma SameNumber(p: Path, q: Path)
    requires p.InRange() && q.InRange()
    ensures ((p.pml4 * 512 + p.pdp) * 512 + p.pd) * 512 + p.pt == ((q.pml4 * 512 + q.pdp) * 512 + q.pd) * 512 + q.pt
       <==> p == q
  {
  }

  lemma PagePath(a: int)
    requires 0 <= a < TWO_64
    ensures var p := PathOf(a); PageOf(a) == ((p.pml4 * 512 + p.pdp) * 512 + p.pd) * 512 + p.pt
  {
    Shifts(a);
    var v := Split(a);
    var q := a / PAGE;
    var page := ((v.pml4 * 512 + v.pdp) * 512 + v.pd) * 512 + v.pt;
    assert q == v.canonical * TWO_36 + page;
    Quotient(q, TWO_36, v.canonical, page);
  }
}
