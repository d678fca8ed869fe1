/** `bit_copy` (src/acpi/uacpi/io.c): copies a span of bits into another, at any two bit offsets. */
module BitCopy {
  import opened Bits

  /** The next eight source bits, with zeroes beyond the last of the n that are left. */
  method Gather(src: array<Byte>, s: nat, shift: nat, n: nat) returns (bits: Byte)
    requires shift < 8 && 0 < n && 8 * s + shift + n <= 8 * src.Length
    ensures forall j :: 0 <= j < 8 ==> bits[j] == (j < n && BitAt(src[..], 8 * s + shift + j))
  {
    bits := Shr(src[s], shift);
    if shift != 0 && n > 8 - shift {
      bits := Or(bits, Shl(src[s + 1], 8 - shift));
    }
    if n < 8 {
      bits := And(bits, Ones(n, 8));
    }
  }

  /** The byte x with the first n of eight bits stored from bit `shift` on, as far as they fit. */
  function LowPart(x: Byte, bits: Byte, shift: nat, n: nat): (r: Byte)
    requires shift < 8 && 0 < n <= 8
    ensures forall b :: 0 <= b < 8 ==> r[b] == if shift <= b < shift + n then bits[b - shift] else x[b]
  {
    var mask := Shl(Ones(n, 16), shift);
    Or(And(x, Not(mask)[..8]), And(Shl(bits, shift), mask[..8]))
  }

  /** The next byte x with the bits that did not fit. */
  function HighPart(x: Byte, bits: Byte, shift: nat, n: nat): (r: Byte)
    requires 0 < shift < 8 && 0 < n <= 8
    ensures forall b :: 0 <= b < 8 ==> r[b] == if b + 8 < shift + n then bits[b + 8 - shift] else x[b]
  {
    var mask := Shr(Shl(Ones(n, 16), shift), 8);
    Or(And(x, Not(mask)[..8]), And(Shr(bits, 8 - shift), mask[..8]))
  }

  /** Stores the first n of eight bits, all of them if n is larger, at a bit position of dst. */
  method Scatter(dst: array<Byte>, d: nat, shift: nat, n: nat, bits: Byte)
    requires shift < 8 && 0 < n && 8 * d + shift + n <= 8 * dst.Length
    modifies dst
    ensures var a := 8 * d + shift;
            forall i :: 0 <= i < 8 * dst.Length ==>
              BitAt(dst[..], i) == if a <= i < a + n && i < a + 8 then bits[i - a] else BitAt(old(dst[..]), i)
  {
    hide LowPart, HighPart;
    var m := if n < 8 then n else 8;
    dst[d] := LowPart(dst[d], bits, shift, m);
    if shift != 0 && n > 8 - shift {
      dst[d + 1] := HighPart(dst[d + 1], bits, shift, m);
    }
  }

  /** `bit_copy` */
  method Copy(dst: array<Byte>, di: nat, dn: nat, src: array<Byte>, si: nat, sn: nat)
    requires dst != src && di + dn <= 8 * dst.Length && si + sn <= 8 * src.Length
    modifies dst
    ensures Copied(old(dst[..]), dst[..], di, dn, src[..], si, sn)
  {
    var d, dcount, dshift := di / 8, dn, di % 8;
    var s, scount, sshift := si / 8, sn, si % 8;
    ghost var was := dst[..];
    ghost var done := 0;
    while dcount > 0
      invariant 0 <= done <= dn && dcount == dn - done && (dcount > 0 ==> 8 * d + dshift == di + done)
      invariant dcount > 0 ==> scount == (if done < sn then sn - done else 0)
      invariant dcount > 0 ==> (scount > 0 ==> 8 * s + sshift == si + done)
      invariant Copied(was, dst[..], di, done, src[..], si, sn)
    {
      var bits := ZERO;
      if scount > 0 {
        bits := Gather(src, s, sshift, scount);
        if scount < 8 {
          scount := 0;
        } else {
          scount := scount - 8;
          s := s + 1;
        }
      }
      Scatter(dst, d, dshift, dcount, bits);
      done := if dcount > 8 then done + 8 else dn;
      dcount := if dcount > 8 then dcount - 8 else 0;
      d := d + 1;
    }
  }
}
