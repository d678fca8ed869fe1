/** Bytes as their eight bits, least significant first, with the C operators the field code uses. */
module Bits {
  type Byte = b: seq<bool> | |b| == 8 witness [false, false, false, false, false, false, false, false]

  /** `b >> k` */
  function Shr(b: seq<bool>, k: nat): (r: seq<bool>)
    ensures |r| == |b| && forall j :: 0 <= j < |b| ==> r[j] == (j + k < |b| && b[j + k])
  {
    seq(|b|, j requires 0 <= j => j + k < |b| && b[j + k])
  }

  /** `b << k`, cut to the width of b */
  function Shl(b: seq<bool>, k: nat): (r: seq<bool>)
    ensures |r| == |b| && forall j :: 0 <= j < |b| ==> r[j] == (j >= k && b[j - k])
  {
    seq(|b|, j requires 0 <= j < |b| => j >= k && b[j - k])
  }

  function And(a: seq<bool>, b: seq<bool>): (r: seq<bool>)
    requires |a| == |b|
    ensures |r| == |a| && forall j :: 0 <= j < |a| ==> r[j] == (a[j] && b[j])
  {
    seq(|a|, j requires 0 <= j < |a| => a[j] && b[j])
  }

  function Or(a: seq<bool>, b: seq<bool>): (r: seq<bool>)
    requires |a| == |b|
    ensures |r| == |a| && forall j :: 0 <= j < |a| ==> r[j] == (a[j] || b[j])
  {
    seq(|a|, j requires 0 <= j < |a| => a[j] || b[j])
  }

  function Not(a: seq<bool>): (r: seq<bool>)
    ensures |r| == |a| && forall j :: 0 <= j < |a| ==> r[j] == !a[j]
  {
    seq(|a|, j requires 0 <= j < |a| => !a[j])
  }

  /** `(1 << n) - 1` in a word of w bits */
  function Ones(n: nat, w: nat): (r: seq<bool>)
    ensures |r| == w && forall j :: 0 <= j < w ==> r[j] == (j < n)
  {
    seq(w, j => j < n)
  }

  const ZERO: Byte := [false, false, false, false, false, false, false, false]

  /** Bit i of a buffer. */
  predicate BitAt(s: seq<Byte>, i: int)
    requires 0 <= i < 8 * |s|
  {
    s[i / 8][i % 8]
  }

  /** dst' is dst with the dn bits from di on replaced by the sn source bits from si on, cut or extended
      with zeroes. */
  ghost predicate Copied(dst: seq<Byte>, dst': seq<Byte>, di: int, dn: int, src: seq<Byte>, si: int, sn: int) {
    && 0 <= di && 0 <= dn && 0 <= si && 0 <= sn && di + dn <= 8 * |dst| && si + sn <= 8 * |src| && |dst'| == |dst|
    && forall i :: 0 <= i < 8 * |dst| ==>
        BitAt(dst', i) == if di <= i < di + dn then i - di < sn && BitAt(src, si + i - di) else BitAt(dst, i)
  }
}
