/** Field units (src/acpi/uacpi/io.c): a range of bits of an operation region read and written in
    accesses of a fixed width.  The region is memory, as for the PCC address space. */
module FieldUnits {
  import opened Bits
  import BitCopy
  import opened BufferFields

  /** Reserved is the fourth value of the two bits that encode the rule. */
  datatype UpdateRule = Preserve | WriteAsOnes | WriteAsZeroes | Reserved

  /** width in bytes; the field starts bitOffset bits into the access unit at byteOffset. */
  datatype Field = Field(byteOffset: nat, bitOffset: nat, length: nat, width: nat, rule: UpdateRule) {
    ghost predicate Valid() {
      IsWidth(width) && 0 < width <= 8 && bitOffset < 8 * width && bitOffset + length + 63 < 0x1_0000_0000
    }

    /** First bit of the field in the region. */
    function Start(): nat { 8 * byteOffset + bitOffset }
  }

  ghost predicate IsWidth(width: nat) { width in {1, 2, 4, 8} }

  datatype Status = Ok | OutOfBounds | InvalidRule

  /** The end of the access units from byte b on that together reach bit `goal`. */
  function UnitsEnd(b: nat, width: nat, goal: nat): (e: nat)
    requires width > 0
    ensures b <= e
    decreases goal - 8 * b
  {
    if 8 * b >= goal then b else UnitsEnd(b + width, width, goal)
  }

  /** One past the last byte that an access to the field touches. */
  function End(f: Field): (e: nat)
    requires f.Valid()
    ensures f.Start() + f.length <= 8 * e && f.byteOffset + f.width <= e
  {
    Reaches(f.byteOffset + f.width, f.width, f.Start() + f.length);
    UnitsEnd(f.byteOffset + f.width, f.width, f.Start() + f.length)
  }

  lemma {:induction false} Reaches(b: nat, width: nat, goal: nat)
    requires width > 0
    ensures goal <= 8 * UnitsEnd(b, width, goal)
    decreases goal - 8 * b
  {
    if 8 * b < goal {
      Reaches(b + width, width, goal);
    }
  }

  // ---------- one access ----------

  /** A read of one unit, extended with zeroes to 64 bits. */
  method ReadUnit(region: array<Byte>, at: nat, width: nat, out: array<Byte>) returns (ok: bool)
    requires region != out && out.Length == 8 && width <= 8
    modifies out
    ensures ok <==> at + width <= region.Length
    ensures ok ==> forall j :: 0 <= j < 8 ==> out[j] == if j < width then region[at + j] else ZERO
  {
    ok := at + width <= region.Length;
    if ok {
      forall j | 0 <= j < 8 {
        out[j] := if j < width then region[at + j] else ZERO;
      }
    }
  }

  method WriteUnit(region: array<Byte>, at: nat, width: nat, word: array<Byte>) returns (ok: bool)
    requires region != word && word.Length == 8 && width <= 8
    modifies region
    ensures ok <==> at + width <= region.Length
    ensures forall j :: 0 <= j < region.Length ==>
              region[j] == if ok && at <= j < at + width then word[j - at] else old(region[j])
  {
    ok := at + width <= region.Length;
    if ok {
      forall j | 0 <= j < width {
        region[at + j] := word[j];
      }
    }
  }

  // ---------- reading ----------

  /** Accesses needed for x bits: `UACPI_ALIGN_UP(x, bits) / bits` */
  function Units(x: nat, width: nat): nat
    requires width > 0
  {
    (x + 8 * width - 1) / (8 * width)
  }

  lemma UnitsStep(x: nat, width: nat)
    requires IsWidth(width) && width > 0
    ensures Units(x, width) == 0 <==> x == 0
    ensures 0 < x <= 8 * width ==> Units(x, width) == 1
    ensures x > 8 * width ==> Units(x, width) == Units(x - 8 * width, width) + 1
  {
  }

  lemma NextUnit(at: nat, width: nat, idx: nat, left: nat)
    requires width > 0
    ensures var goal := 8 * at + idx + left;
            UnitsEnd(at + width, width, goal) ==
              if idx + left <= 8 * width then at + width
              else UnitsEnd(at + width + width, width, goal)
  {
  }

  lemma UnitBit(region: seq<Byte>, at: nat, out: seq<Byte>, t: nat)
    requires t / 8 < |out| && at + t / 8 < |region| && out[t / 8] == region[at + t / 8]
    ensures BitAt(out, t) == BitAt(region, 8 * at + t)
  {
    assert (8 * at + t) / 8 == at + t / 8 && (8 * at + t) % 8 == t % 8;
  }

  /** Bits n of the field from bit pos on have been added to what was read before. */
  lemma ReadStep(was: seq<Byte>, now: seq<Byte>, next: seq<Byte>, region: seq<Byte>, start: nat, pos: nat,
                 out: seq<Byte>, at: nat, width: nat, idx: nat, n: nat)
    requires |was| == |now| && start + pos == 8 * at + idx && idx + n <= 8 * width && width <= 8
    requires at + width <= |region|
    requires pos == 0 || Copied(was, now, 0, 8 * |was|, region, start, pos)
    requires |out| == 8 && forall j :: 0 <= j < width ==> out[j] == region[at + j]
    requires var d := if pos < 8 * |was| then pos else 8 * |was|; Copied(now, next, d, 8 * |was| - d, out, idx, n)
    ensures Copied(was, next, 0, 8 * |was|, region, start, pos + n)
  {
    hide BitAt;
    forall i | 0 <= i < 8 * |was| ensures BitAt(next, i) == (i < pos + n && BitAt(region, start + i)) {
      if pos <= i < pos + n {
        UnitBit(region, at, out, idx + i - pos);
      }
    }
  }

  /** One access of the slow read: the n bits from bit idx of the unit go to what is left of dst. */
  method ReadOne(region: array<Byte>, at: nat, width: nat, idx: nat, n: nat, dst: array<Byte>, di: nat, dn: nat,
                 ghost was: seq<Byte>, ghost start: nat, ghost pos: nat) returns (ok: bool)
    requires region != dst && width <= 8 && idx + n <= 8 * width && start + pos == 8 * at + idx && |was| == dst.Length
    requires di == (if pos < 8 * dst.Length then pos else 8 * dst.Length) && di + dn == 8 * dst.Length
    requires pos == 0 || Copied(was, dst[..], 0, 8 * |was|, region[..], start, pos)
    modifies dst
    ensures ok <==> at + width <= region.Length
    ensures ok ==> Copied(was, dst[..], 0, 8 * |was|, region[..], start, pos + n)
  {
    hide Copied;
    var out := new Byte[8](_ => ZERO);
    ok := ReadUnit(region, at, width, out);
    if ok {
      ghost var now := dst[..];
      BitCopy.Copy(dst, di, dn, out, idx, n);
      ReadStep(was, now, dst[..], region[..], start, pos, out[..], at, width, idx, n);
    }
  }

  /** `do_read_misaligned_field_unit` */
  method ReadSlow(region: array<Byte>, f: Field, dst: array<Byte>) returns (ok: bool)
    requires f.Valid() && 0 < f.bitOffset + f.length && region != dst
    modifies dst
    ensures ok <==> End(f) <= region.Length
    ensures ok ==> Copied(old(dst[..]), dst[..], 0, 8 * dst.Length, region[..], f.Start(), f.length)
  {
    hide Copied, Units, UnitsEnd, IsWidth;
    var at: nat, left: nat, idx: nat := f.byteOffset, f.length, f.bitOffset;
    var di: nat, dn: nat := 0, 8 * dst.Length;
    var todo := Units(f.bitOffset + f.length, f.width);
    ghost var pos: nat := 0;
    UnitsStep(f.bitOffset + f.length, f.width);
    while todo > 0
      invariant left <= f.length && idx < 8 * f.width && pos == f.length - left && todo == Units(idx + left, f.width)
      invariant todo > 0 ==> f.Start() + pos == 8 * at + idx
      invariant todo > 0 ==> UnitsEnd(at + f.width, f.width, f.Start() + f.length) == End(f)
      invariant todo == 0 ==> left == 0 && at == End(f) <= region.Length
      invariant di == (if pos < 8 * dst.Length then pos else 8 * dst.Length) && di + dn == 8 * dst.Length
      invariant (todo > 0 && pos == 0) || Copied(old(dst[..]), dst[..], 0, 8 * dst.Length, region[..], f.Start(), pos)
    {
      UnitsStep(idx + left, f.width);
      NextUnit(at, f.width, idx, left);
      var n := if left < 8 * f.width - idx then left else 8 * f.width - idx;
      ok := ReadOne(region, at, f.width, idx, n, dst, di, dn, old(dst[..]), f.Start(), pos);
      if !ok {
        return;
      }
      pos := pos + n;
      left, idx := left - n, 0;
      var delta := if dn < n then dn else n;
      di, dn := di + delta, dn - delta;
      at := at + f.width;
      todo := todo - 1;
      UnitsStep(left, f.width);
    }
    ok := true;
  }

  /** The bytes of one access, cut to the length and extended with zeroes, are the bits of the field. */
  lemma FastBits(was: seq<Byte>, now: seq<Byte>, region: seq<Byte>, at: nat, length: nat)
    requires |was| == |now| && 8 * at + length <= 8 * |region|
    requires forall j :: 0 <= j < |now| && 8 * j < length ==> CutByte(now[j], region[at + j], j, length)
    requires forall j :: 0 <= j < |now| && 8 * j >= length ==> now[j] == ZERO
    ensures Copied(was, now, 0, 8 * |was|, region, 8 * at, length)
  {
    forall i | 0 <= i < 8 * |was| ensures BitAt(now, i) == (i < length && BitAt(region, 8 * at + i)) {
      var j := i / 8;
      assert (8 * at + i) / 8 == at + j;
      if 8 * j < length {
        assert CutByte(now[j], region[at + j], j, length);
      }
    }
  }

  /** The one-access path of `uacpi_read_field_unit`. */
  method ReadFast(region: array<Byte>, at: nat, width: nat, length: nat, dst: array<Byte>) returns (ok: bool)
    requires region != dst && RoundUp(length) <= width <= 8
    modifies dst
    ensures ok <==> at + width <= region.Length
    ensures ok ==> Copied(old(dst[..]), dst[..], 0, 8 * dst.Length, region[..], 8 * at, length)
  {
    hide Copied, CutByte, And, Ones;
    var count := RoundUp(length);
    var out := new Byte[8](_ => ZERO);
    ok := ReadUnit(region, at, width, out);
    if ok {
      CopyZeroOut(dst, 0, dst.Length, out, count);
      ghost var mid := dst[..];
      if dst.Length >= count {
        CutTail(dst, count - 1, length);
      }
      forall j | 0 <= j < dst.Length && 8 * j < length ensures CutByte(dst[j], region[at + j], j, length) {
        assert mid[j] == region[at + j];
        CutAt(region[at + j], j, length);
      }
      FastBits(old(dst[..]), dst[..], region[..], at, length);
    }
  }

  /** `uacpi_read_field_unit`: either path yields the bits of the field, cut or extended with zeroes to
      the size of dst, and fails exactly when an access leaves the region. */
  method ReadFieldUnit(region: array<Byte>, f: Field, dst: array<Byte>) returns (ok: bool)
    requires f.Valid() && region != dst
    modifies dst
    ensures ok <==> End(f) <= region.Length
    ensures ok ==> Copied(old(dst[..]), dst[..], 0, 8 * dst.Length, region[..], f.Start(), f.length)
  {
    hide Copied, IsWidth;
    if f.bitOffset == 0 && RoundUp(f.length) <= f.width {
      ok := ReadFast(region, f.byteOffset, f.width, f.length, dst);
    } else {
      ok := ReadSlow(region, f, dst);
    }
  }

  // ---------- writing ----------

  /** What a bit of a touched unit outside the field becomes. */
  predicate RuleBit(rule: UpdateRule, was: bool) {
    match rule
    case Preserve => was
    case WriteAsOnes => true
    case WriteAsZeroes => false
    case Reserved => false
  }

  /** The region after all units before byte e have been written. */
  ghost predicate Written(r: seq<Byte>, r': seq<Byte>, f: Field, src: seq<Byte>, e: nat) {
    |r'| == |r| && forall i :: 0 <= i < 8 * |r| ==>
      BitAt(r', i) ==
        if !(8 * f.byteOffset <= i < 8 * e) then BitAt(r, i)
        else if f.Start() <= i < f.Start() + f.length then i - f.Start() < 8 * |src| && BitAt(src, i - f.Start())
        else RuleBit(f.rule, BitAt(r, i))
  }

  /** The word that a unit is filled up from. */
  ghost predicate Background(word: seq<Byte>, rule: UpdateRule, region: seq<Byte>, at: nat, width: nat) {
    |word| == 8 && width <= 8 && at + width <= |region| &&
    forall t :: 0 <= t < 8 * width ==> BitAt(word, t) == RuleBit(rule, BitAt(region, 8 * at + t))
  }

  /** One more unit: the word holds n bits of the value from bit idx on, and goes to the region. */
  lemma WriteStep(r: seq<Byte>, now: seq<Byte>, next: seq<Byte>, f: Field, src: seq<Byte>, at: nat, pos: nat,
                  idx: nat, n: nat,
                  word: seq<Byte>, word': seq<Byte>)
    requires Written(r, now, f, src, at) && f.byteOffset <= at && at + f.width <= |r| && f.width <= 8 && |word| == 8
    requires f.Start() + pos == 8 * at + idx && idx + n <= 8 * f.width && pos + n <= f.length && (pos > 0 ==> idx == 0)
    requires pos + n < f.length ==> idx + n == 8 * f.width
    requires (idx == 0 && n == 8 * f.width) || Background(word, f.rule, now, at, f.width)
    requires var s := if pos < 8 * |src| then pos else 8 * |src|; Copied(word, word', idx, n, src, s, 8 * |src| - s)
    requires |next| == |now|
    requires forall j :: 0 <= j < |now| ==> next[j] == if at <= j < at + f.width then word'[j - at] else now[j]
    ensures Written(r, next, f, src, at + f.width)
  {
    hide BitAt, RuleBit;
    forall i | 0 <= i < 8 * |r|
      ensures BitAt(next, i) ==
        if !(8 * f.byteOffset <= i < 8 * (at + f.width)) then BitAt(r, i)
        else if f.Start() <= i < f.Start() + f.length then i - f.Start() < 8 * |src| && BitAt(src, i - f.Start())
        else RuleBit(f.rule, BitAt(r, i))
    {
      if 8 * at <= i < 8 * (at + f.width) {
        UnitBit(next, at, word', i - 8 * at);
      } else {
        SameByte(next, now, i);
      }
    }
  }

  lemma SameByte(a: seq<Byte>, b: seq<Byte>, i: nat)
    requires i / 8 < |a| && i / 8 < |b| && a[i / 8] == b[i / 8]
    ensures BitAt(a, i) == BitAt(b, i)
  {
  }

  lemma ReadBackground(word: seq<Byte>, region: seq<Byte>, at: nat, width: nat)
    requires |word| == 8 && width <= 8 && at + width <= |region|
    requires forall j :: 0 <= j < width ==> word[j] == region[at + j]
    ensures Background(word, Preserve, region, at, width)
  {
    hide BitAt;
    forall t | 0 <= t < 8 * width ensures BitAt(word, t) == RuleBit(Preserve, BitAt(region, 8 * at + t)) {
      UnitBit(region, at, word, t);
    }
  }

  /** What a partial unit is filled up from: the old contents, ones or zeroes. */
  method Fill(region: array<Byte>, at: nat, width: nat, rule: UpdateRule, word: array<Byte>) returns (st: Status)
    requires region != word && word.Length == 8 && width <= 8 && forall j :: 0 <= j < 8 ==> word[j] == ZERO
    modifies word
    ensures st.InvalidRule? <==> rule.Reserved?
    ensures st.OutOfBounds? ==> at + width > region.Length
    ensures st.Ok? && at + width <= region.Length ==> Background(word[..], rule, region[..], at, width)
    ensures rule.WriteAsOnes? ==> st.Ok? && forall t :: 0 <= t < 64 ==> BitAt(word[..], t)
    ensures rule.WriteAsZeroes? ==> st.Ok? && forall t :: 0 <= t < 64 ==> !BitAt(word[..], t)
  {
    st := Ok;
    match rule {
      case Preserve =>
        var ok := ReadUnit(region, at, width, word);
        if ok {
          ReadBackground(word[..], region[..], at, width);
        } else {
          st := OutOfBounds;
        }
      case WriteAsOnes =>
        forall j | 0 <= j < 8 {
          word[j] := Not(word[j]);
        }
      case WriteAsZeroes =>
      case Reserved =>
        st := InvalidRule;
    }
  }

  /** One round of the write: fills up, merges n bits of the value and stores the unit. */
  method WriteOne(region: array<Byte>, f: Field, src: array<Byte>, at: nat, idx: nat, n: nat, si: nat, sn: nat,
                  ghost r: seq<Byte>, ghost pos: nat) returns (st: Status)
    requires region != src && f.Valid() && Written(r, region[..], f, src[..], at) && f.byteOffset <= at
    requires f.Start() + pos == 8 * at + idx && idx + n <= 8 * f.width && pos + n <= f.length && (pos > 0 ==> idx == 0)
    requires pos + n < f.length ==> idx + n == 8 * f.width
    requires si == (if pos < 8 * src.Length then pos else 8 * src.Length) && si + sn == 8 * src.Length
    modifies region
    ensures st.InvalidRule? ==> f.rule.Reserved? && (idx != 0 || n < 8 * f.width)
    ensures st.Ok? && f.rule.Reserved? ==> idx == 0 && n == 8 * f.width
    ensures st.OutOfBounds? ==> at + f.width > region.Length
    ensures st.Ok? ==> at + f.width <= region.Length && Written(r, region[..], f, src[..], at + f.width)
    ensures !st.Ok? ==> region[..] == old(region[..])
  {
    hide Copied, Written, IsWidth, Background;
    var word := new Byte[8](_ => ZERO);
    st := Ok;
    if idx != 0 || n < 8 * f.width {
      st := Fill(region, at, f.width, f.rule, word);
      if !st.Ok? {
        return;
      }
    }
    ghost var before := word[..];
    BitCopy.Copy(word, idx, n, src, si, sn);
    var ok := WriteUnit(region, at, f.width, word);
    if !ok {
      return OutOfBounds;
    }
    WrittenSize(r, old(region[..]), f, src[..], at);
    WriteStep(r, old(region[..]), region[..], f, src[..], at, pos, idx, n, before, word[..]);
  }

  lemma WrittenSize(r: seq<Byte>, r': seq<Byte>, f: Field, src: seq<Byte>, e: nat)
    requires Written(r, r', f, src, e)
    ensures |r'| == |r|
  {
  }

  lemma WrittenNone(r: seq<Byte>, f: Field, src: seq<Byte>)
    ensures Written(r, r, f, src, f.byteOffset)
  {
  }

  /** The bits of the touched units beside the field, from byte b up to byte e, are set, clear or as before, as the
      rule says, and all bits outside these units are as before. */
  ghost predicate RestFollows(r: seq<Byte>, r': seq<Byte>, f: Field, e: nat) {
    |r'| == |r| && forall i :: 0 <= i < 8 * |r| && !(f.Start() <= i < f.Start() + f.length) ==>
      if !(8 * f.byteOffset <= i < 8 * e) || f.rule.Preserve? then BitAt(r', i) == BitAt(r, i)
      else if f.rule.WriteAsOnes? then BitAt(r', i)
      else if f.rule.WriteAsZeroes? then !BitAt(r', i)
      else true
  }

  lemma WrittenRest(r: seq<Byte>, r': seq<Byte>, f: Field, src: seq<Byte>, e: nat)
    requires Written(r, r', f, src, e) && f.Start() + f.length <= 8 * e
    ensures RestFollows(r, r', f, e)
  {
    hide BitAt;
  }

  /** The field consists of whole access units, so that there is nothing to fill up. */
  predicate Whole(f: Field)
    requires f.width > 0
  {
    f.bitOffset == 0 && f.length % (8 * f.width) == 0
  }

  lemma ModStep(x: nat, y: nat, unit: nat)
    requires unit > 0 && x % unit == 0 && y <= unit
    ensures (x + y) % unit == if y == unit then 0 else y
  {
    var q, d := x / unit, (x + y) / unit;
    assert x == q * unit && x + y == d * unit + (x + y) % unit;
    if y < unit {
      NoMultiple(q - d, unit, (x + y) % unit - y);
    } else {
      assert x + y == (q + 1) * unit;
      NoMultiple(q + 1 - d, unit, (x + y) % unit);
    }
  }

  lemma NoMultiple(k: int, unit: int, rest: int)
    requires unit > 0 && k * unit == rest && -unit < rest < unit
    ensures rest == 0
  {
    assert k >= 1 ==> k * unit >= unit;
    assert k <= -1 ==> k * unit <= -unit;
  }

  /** `write_generic_field_unit`: on success every bit of the field holds the value, extended with zeroes,
      and the other bits of the units touched follow the update rule; on failure the units before `done`
      have been written. */
  method WriteFieldUnit(region: array<Byte>, f: Field, src: array<Byte>) returns (st: Status, ghost done: nat)
    requires region != src && f.Valid()
    modifies region
    ensures Written(old(region[..]), region[..], f, src[..], done) && f.byteOffset <= done <= End(f)
    ensures st.Ok? ==> done == (if f.length == 0 then f.byteOffset else End(f))
    ensures st.Ok? && f.length > 0 ==> RestFollows(old(region[..]), region[..], f, End(f))
    ensures f.length == 0 ==> region[..] == old(region[..])
    ensures st.InvalidRule? ==> f.rule.Reserved? && !Whole(f)
    ensures st.OutOfBounds? ==> End(f) > region.Length
    ensures st.Ok? <==> f.length == 0 || (End(f) <= region.Length && (f.rule.Reserved? ==> Whole(f)))
  {
    hide Written, UnitsEnd, IsWidth, RestFollows;
    var at: nat, left: nat, idx: nat := f.byteOffset, f.length, f.bitOffset;
    var si: nat, sn: nat := 0, 8 * src.Length;
    ghost var pos: nat := 0;
    done := at;
    WrittenNone(region[..], f, src[..]);
    while left > 0
      invariant left <= f.length && idx < 8 * f.width && pos == f.length - left && (pos > 0 ==> idx == 0)
      invariant f.byteOffset <= at == done <= End(f)
      invariant left > 0 ==> f.Start() + pos == 8 * at + idx
      invariant left > 0 ==> UnitsEnd(at + f.width, f.width, f.Start() + f.length) == End(f)
      invariant left == 0 && f.length > 0 ==> at == End(f) <= region.Length
      invariant left == f.length ==> at == f.byteOffset
      invariant si == (if pos < 8 * src.Length then pos else 8 * src.Length) && si + sn == 8 * src.Length
      invariant Written(old(region[..]), region[..], f, src[..], at)
      invariant f.length == 0 ==> region[..] == old(region[..])
      invariant f.bitOffset == 0 && left > 0 ==> pos % (8 * f.width) == 0
      invariant f.rule.Reserved? && pos > 0 ==> f.bitOffset == 0 && pos % (8 * f.width) == 0
    {
      NextUnit(at, f.width, idx, left);
      var n := if left < 8 * f.width - idx then left else 8 * f.width - idx;
      st := WriteOne(region, f, src, at, idx, n, si, sn, old(region[..]), pos);
      if !st.Ok? {
        if f.bitOffset == 0 {
          ModStep(pos, n, 8 * f.width);
        }
        return;
      }
      if f.bitOffset == 0 {
        ModStep(pos, n, 8 * f.width);
      }
      pos := pos + n;
      var delta := if sn < n then sn else n;
      si, sn := si + delta, sn - delta;
      left, idx := left - n, 0;
      at := at + f.width;
      done := at;
    }
    st := Ok;
    if f.length > 0 {
      WrittenRest(old(region[..]), region[..], f, src[..], done);
    }
  }

  /** Reading a field back after a write yields the value written, cut or extended with zeroes to the
      length of the field, whatever the offset, the length, the access width and the rule. */
  lemma FieldRoundTrip(r: seq<Byte>, r': seq<Byte>, f: Field, src: seq<Byte>, d: seq<Byte>, d': seq<Byte>)
    requires f.Valid() && 0 < f.length && End(f) <= |r| && Written(r, r', f, src, End(f))
    requires Copied(d, d', 0, 8 * |d|, r', f.Start(), f.length)
    ensures Copied(d, d', 0, 8 * |d|, src, 0, if f.length < 8 * |src| then f.length else 8 * |src|)
  {
    hide BitAt, RuleBit;
    forall i | 0 <= i < 8 * |d| ensures BitAt(d', i) == (i < f.length && i < 8 * |src| && BitAt(src, i)) {
      if i < f.length {
        assert BitAt(r', f.Start() + i) == (i < 8 * |src| && BitAt(src, i));
      }
    }
  }
}
