/** Buffer fields (src/acpi/uacpi/io.c): a range of bits of a buffer read and written as bytes, with a
    fast path for ranges that start at a byte. */
module BufferFields {
  import opened Bits
  import BitCopy

  /** `uacpi_round_up_bits_to_bytes` */
  function RoundUp(bits: nat): int {
    (bits + 7) / 8
  }

  /** `cut_misaligned_tail`: clears the bits of the last byte past the length. */
  method CutTail(data: array<Byte>, offset: int, length: nat)
    requires length % 8 != 0 ==> 0 <= offset < data.Length
    modifies data
    ensures length % 8 == 0 ==> data[..] == old(data[..])
    ensures length % 8 != 0 ==>
              data[..] == old(data[..])[offset := And(old(data[offset]), Ones(length % 8, 8))]
  {
    var remainder := length % 8;
    if remainder == 0 {
      return;
    }
    data[offset] := And(data[offset], Ones(remainder, 8));
  }

  /** `uacpi_memcpy_zerout` from the start of src to dst at `at`, size bytes. */
  method CopyZeroOut(dst: array<Byte>, at: nat, size: nat, src: array<Byte>, n: nat)
    requires dst != src && at + size <= dst.Length && n <= src.Length
    modifies dst
    ensures forall j :: at <= j < at + size ==> dst[j] == if j - at < n then src[j - at] else ZERO
    ensures forall j :: 0 <= j < at || at + size <= j < dst.Length ==> dst[j] == old(dst[j])
  {
    var count := if n < size then n else size;
    forall j | 0 <= j < count {
      dst[at + j] := src[j];
    }
    forall j | at + count <= j < at + size {
      dst[j] := ZERO;
    }
  }

  /** Byte j of a field with the bits past the length cut. */
  ghost predicate CutByte(x: Byte, y: Byte, j: nat, length: nat) {
    forall b :: 0 <= b < 8 ==> x[b] == (8 * j + b < length && y[b])
  }

  lemma CutAt(y: Byte, j: nat, length: nat)
    requires 8 * j < length
    ensures CutByte(if 8 * j + 8 > length then And(y, Ones(length % 8, 8)) else y, y, j, length)
  {
  }

  /** Bytes that are a copy of the aligned bytes of a field, with the tail cut, are a copy of its bits. */
  lemma AlignedRead(d: seq<Byte>, d': seq<Byte>, b: seq<Byte>, base: nat, length: nat)
    requires 8 * base + length <= 8 * |b| && RoundUp(length) <= |d| == |d'|
    requires forall j :: 0 <= j < RoundUp(length) ==> CutByte(d'[j], b[base + j], j, length)
    requires forall j :: RoundUp(length) <= j < |d| ==> d'[j] == d[j]
    ensures Copied(d, d', 0, 8 * RoundUp(length), b, 8 * base, length)
  {
    forall i | 0 <= i < 8 * |d|
      ensures BitAt(d', i) == if i < 8 * RoundUp(length) then i < length && BitAt(b, 8 * base + i) else BitAt(d, i)
    {
      var j := i / 8;
      assert (8 * base + i) / 8 == base + j;
      if j < RoundUp(length) {
        assert CutByte(d'[j], b[base + j], j, length);
      }
    }
  }

  /** `uacpi_read_buffer_field` */
  method ReadField(backing: array<Byte>, index: nat, length: nat, dst: array<Byte>)
    requires backing != dst && index + length <= 8 * backing.Length && RoundUp(length) <= dst.Length
    modifies dst
    ensures Copied(old(dst[..]), dst[..], 0, 8 * RoundUp(length), backing[..], index, length)
  {
    hide Copied, CutByte, And, Ones;
    var count := RoundUp(length);
    if index % 8 == 0 {
      forall j | 0 <= j < count {
        dst[j] := backing[index / 8 + j];
      }
      CutTail(dst, count - 1, length);
      forall j | 0 <= j < count ensures CutByte(dst[j], backing[index / 8 + j], j, length) {
        CutAt(backing[index / 8 + j], j, length);
      }
      AlignedRead(old(dst[..]), dst[..], backing[..], index / 8, length);
    } else {
      BitCopy.Copy(dst, 0, 8 * count, backing, index, length);
    }
  }

  /** The last byte of an aligned write: the new bits below `tail`, the old ones above. */
  function MergeTail(now: Byte, was: Byte, tail: nat): (r: Byte)
    requires 0 < tail < 8
    ensures forall b :: 0 <= b < 8 ==> r[b] == if b < tail then now[b] else was[b]
  {
    Or(Shr(Shl(now, 8 - tail), 8 - tail), Shl(Shr(was, tail), tail))
  }

  /** Byte j of a field that holds a value, with the old bits past the length kept. */
  ghost predicate HoldsByte(x: Byte, now: Byte, was: Byte, j: nat, length: nat) {
    forall b :: 0 <= b < 8 ==> x[b] == if 8 * j + b < length then now[b] else was[b]
  }

  lemma MergeAt(now: Byte, was: Byte, j: nat, length: nat)
    requires 8 * j < length
    ensures HoldsByte(if 8 * j + 8 > length then MergeTail(now, was, length % 8) else now, now, was, j, length)
  {
    hide MergeTail;
  }

  function ByteOrZero(src: seq<Byte>, j: nat): Byte { if j < |src| then src[j] else ZERO }

  lemma AlignedWrite(b: seq<Byte>, b': seq<Byte>, src: seq<Byte>, base: nat, length: nat)
    requires 0 < length && 8 * base + length <= 8 * |b| && |b'| == |b|
    requires forall j :: 0 <= j < RoundUp(length) ==>
               HoldsByte(b'[base + j], ByteOrZero(src, j), b[base + j], j, length)
    requires forall j :: 0 <= j < |b| && !(base <= j < base + RoundUp(length)) ==> b'[j] == b[j]
    ensures Copied(b, b', 8 * base, length, src, 0, 8 * |src|)
  {
    forall i | 0 <= i < 8 * |b|
      ensures BitAt(b', i) ==
              if 8 * base <= i < 8 * base + length then i - 8 * base < 8 * |src| && BitAt(src, i - 8 * base)
              else BitAt(b, i)
    {
      var j := i / 8 - base;
      assert (i - 8 * base) / 8 == j;
      if 0 <= j < RoundUp(length) {
        assert HoldsByte(b'[base + j], ByteOrZero(src, j), b[base + j], j, length);
      }
    }
  }

  /** The path for fields that start at a byte. */
  method WriteAligned(backing: array<Byte>, base: nat, length: nat, src: array<Byte>)
    requires backing != src && 0 < length && 8 * base + length <= 8 * backing.Length
    modifies backing
    ensures Copied(old(backing[..]), backing[..], 8 * base, length, src[..], 0, 8 * src.Length)
  {
    hide MergeTail, Copied, HoldsByte;
    var count, tail := RoundUp(length), length % 8;
    var last := backing[base + count - 1];
    CopyZeroOut(backing, base, count, src, src.Length);
    assert forall j :: base <= j < base + count ==> backing[j] == ByteOrZero(src[..], j - base);
    ghost var mid := backing[..];
    if tail != 0 {
      backing[base + count - 1] := MergeTail(backing[base + count - 1], last, tail);
    }
    hide ByteOrZero;
    forall j | 0 <= j < count
      ensures HoldsByte(backing[base + j], ByteOrZero(src[..], j), old(backing[base + j]), j, length)
    {
      assert mid[base + j] == ByteOrZero(src[..], j);
      MergeAt(ByteOrZero(src[..], j), old(backing[base + j]), j, length);
    }
    AlignedWrite(old(backing[..]), backing[..], src[..], base, length);
  }

  /** `uacpi_write_buffer_field`; the interpreter creates no field without bits. */
  method WriteField(backing: array<Byte>, index: nat, length: nat, src: array<Byte>)
    requires backing != src && 0 < length && index + length <= 8 * backing.Length
    modifies backing
    ensures Copied(old(backing[..]), backing[..], index, length, src[..], 0, 8 * src.Length)
  {
    if index % 8 == 0 {
      WriteAligned(backing, index / 8, length, src);
    } else {
      BitCopy.Copy(backing, index, length, src, 0, 8 * src.Length);
    }
  }

  /** A write followed by a read of the same field yields the value written, cut or extended with zeroes
      to the length of the field. */
  lemma WriteThenRead(b: seq<Byte>, b': seq<Byte>, src: seq<Byte>, d: seq<Byte>, d': seq<Byte>, index: nat, length: nat)
    requires Copied(b, b', index, length, src, 0, 8 * |src|)
    requires Copied(d, d', 0, 8 * RoundUp(length), b', index, length)
    ensures Copied(d, d', 0, 8 * RoundUp(length), src, 0, if length < 8 * |src| then length else 8 * |src|)
  {
    forall i | 0 <= i < 8 * |d|
      ensures BitAt(d', i) ==
              if i < 8 * RoundUp(length) then i < length && i < 8 * |src| && BitAt(src, i)
              else BitAt(d, i)
    {
      if i < length {
        assert BitAt(b', index + i) == (i < 8 * |src| && BitAt(src, i));
      }
    }
  }

  /** A write leaves every field that shares no bit with it as it was. */
  lemma WriteElsewhere(b: seq<Byte>, b': seq<Byte>, src: seq<Byte>, index: nat, length: nat,
                       d: seq<Byte>, d': seq<Byte>, index': nat, length': nat)
    requires Copied(b, b', index, length, src, 0, 8 * |src|) && (index' + length' <= index || index + length <= index')
    ensures Copied(d, d', 0, 8 * RoundUp(length'), b', index', length')
         <==> Copied(d, d', 0, 8 * RoundUp(length'), b, index', length')
  {
    if index' + length' <= 8 * |b| {
      forall i | index' <= i < index' + length' ensures BitAt(b', i) == BitAt(b, i) {
      }
    }
  }
}
