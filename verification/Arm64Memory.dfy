/** AArch64 stage-1 translation with 4, 16 and 64 KiB granules. */
module Arm64Memory {
  import opened Bytes

  // ----- bit fields of unbounded numbers

  function P(n: nat): (p: nat)
    ensures 1 <= p
  {
    if n == 0 then 1 else 2 * P(n - 1)
  }

  /** Without the low n bits. */
  function Shr(x: nat, n: nat): nat { if n == 0 then x else Shr(x / 2, n - 1) }

  /** Only the low n bits. */
  function Low(x: nat, n: nat): (r: nat)
    ensures r < P(n) && r <= x
  {
    if n == 0 then 0 else x % 2 + 2 * Low(x / 2, n - 1)
  }

  function Shl(x: nat, n: nat): nat { if n == 0 then x else 2 * Shl(x, n - 1) }

  /** A step that does not leave a block of 2^s changes only low bits, and for larger blocks too. */
  lemma {:induction false} Steps(x: nat, k: nat, s: nat, t: nat)
    requires Low(x, s) + k < P(s) && s <= t
    ensures Shr(x + k, t) == Shr(x, t) && Low(x + k, t) == Low(x, t) + k
    decreases s
  {
    if s > 0 {
      var c := (x % 2 + k) / 2;
      assert (x + k) / 2 == x / 2 + c && (x + k) % 2 + 2 * c == x % 2 + k;
      Steps(x / 2, c, s - 1, t - 1);
    }
  }

  lemma {:induction false} LowLow(x: nat, s: nat, t: nat)
    requires s <= t
    ensures Low(Low(x, t), s) == Low(x, s)
    decreases s
  {
    if s > 0 {
      assert Low(x, t) / 2 == Low(x / 2, t - 1) && Low(x, t) % 2 == x % 2;
      LowLow(x / 2, s - 1, t - 1);
    }
  }

  lemma {:induction false} LowShl(x: nat, s: nat, t: nat)
    requires s <= t
    ensures Low(Shl(x, t), s) == 0
    decreases s
  {
    if s > 0 {
      assert Shl(x, t) / 2 == Shl(x, t - 1) && Shl(x, t) % 2 == 0;
      LowShl(x, s - 1, t - 1);
    }
  }

  lemma {:induction false} LowPlusShl(x: nat, y: nat, s: nat, t: nat)
    requires s <= t
    ensures Low(x + Shl(y, t), s) == Low(x, s)
    decreases s
  {
    if s > 0 {
      assert (x + Shl(y, t)) / 2 == x / 2 + Shl(y, t - 1) && (x + Shl(y, t)) % 2 == x % 2;
      LowPlusShl(x / 2, y, s - 1, t - 1);
    }
  }

  lemma {:induction false} ShrBound(x: nat, s: nat, t: nat)
    requires x < P(s + t)
    ensures Shr(x, s) < P(t)
    decreases s
  {
    if s > 0 { assert P(s + t) == 2 * P(s - 1 + t); ShrBound(x / 2, s - 1, t); }
  }

  // ----- the configuration

  function Bit(x: nat, n: nat): bool { Shr(x, n) % 2 == 1 }
  function Field(x: nat, lo: nat, width: nat): nat { Low(Shr(x, lo), width) }

  datatype Registers = Registers(tcr: nat, ttbr0: nat, ttbr1: nat)

  function IsUpper(r: Registers, va: nat): bool { if Bit(r.tcr, 37) || Bit(r.tcr, 38) then Bit(va, 55) else Bit(va, 63) }

  function SizeField(r: Registers, upper: bool): nat { if upper then Field(r.tcr, 16, 6) else Field(r.tcr, 0, 6) }

  /** The width of a page address: 12, 14 or 16 bits, or none. */
  function PageBits(r: Registers, upper: bool): nat {
    var g := if upper then Field(r.tcr, 30, 2) else Field(r.tcr, 14, 2);
    if upper then if g == 2 then 12 else if g == 1 then 14 else if g == 3 then 16 else 0
    else if g == 0 then 12 else if g == 2 then 14 else if g == 1 then 16 else 0
  }

  predicate Supported(r: Registers, upper: bool) {
    && 16 <= SizeField(r, upper) <= 39 && PageBits(r, upper) != 0 && !Bit(r.tcr, 59) && Field(r.tcr, 32, 3) <= 5
    && !Bit(r.tcr, if upper then 23 else 7)
  }

  /** The address with the byte that may be ignored filled in. */
  function Canonical(r: Registers, upper: bool, va: nat): nat {
    if !Bit(r.tcr, if upper then 38 else 37) then va
    else if upper then Low(va, 56) + Shl(255, 56)
    else Low(va, 56)
  }

  /** The address belongs to its half of the address space. */
  predicate InHalf(upper: bool, bits: nat, va: nat)
    requires bits <= 64
  {
    Shr(va, bits) == if upper then P(64 - bits) - 1 else 0
  }

  function Levels(bits: nat, pageBits: nat): nat
    requires 12 <= pageBits <= bits
  {
    (bits - pageBits + pageBits - 4) / (pageBits - 3)
  }

  /** Bits that index the first table. */
  function RootBits(bits: nat, pageBits: nat): int
    requires 12 <= pageBits <= bits
  {
    bits - pageBits - (Levels(bits, pageBits) - 1) * (pageBits - 3)
  }

  /** Every supported configuration needs one to four levels, and its first table is not larger than the others. */
  lemma LevelBounds(bits: nat, pageBits: nat)
    requires pageBits in {12, 14, 16} && 25 <= bits <= 48
    ensures 1 <= Levels(bits, pageBits) <= 4 && (pageBits == 16 ==> Levels(bits, pageBits) <= 3)
    ensures 1 <= RootBits(bits, pageBits) <= pageBits - 3 && bits == Shift(pageBits, 4 - Levels(bits, pageBits)) + RootBits(bits, pageBits)
  {
  }

  function Shift(pageBits: nat, level: nat): nat
    requires pageBits >= 3 && level <= 3
  {
    pageBits + (3 - level) * (pageBits - 3)
  }

  // ----- the walk

  type Memory = nat -> Option<byte>

  function WordAt(mem: Memory, a: nat, width: nat): Option<nat>
    decreases width
  {
    if width == 0 then Some(0)
    else match (mem(a), WordAt(mem, a + 1, width - 1))
      case (Some(b), Some(rest)) => Some(b as nat + 256 * rest)
      case _ => None
  }

  /** One look into a table of 2^bits entries. */
  datatype Lookup = Lookup(table: nat, index: nat, bits: nat)

  datatype Walked = Mapped(physical: nat, span: nat, looks: seq<Lookup>) | Unmapped(looks: seq<Lookup>)

  /** A 48-bit address aligned down. */
  function Aligned(v: nat, n: nat): nat { Shl(Shr(Low(v, 48), n), n) }

  function IndexAt(pageBits: nat, level: nat, addr: nat): nat
    requires pageBits >= 3 && level <= 3
  {
    Low(Shr(addr, Shift(pageBits, level)), pageBits - 3)
  }

  /** Follows tables from a level on; `bits` index the present one. */
  function WalkFrom(mem: Memory, pageBits: nat, level: nat, table: nat, bits: nat, addr: nat, looks: seq<Lookup>): Walked
    requires pageBits >= 3 && level <= 3
    decreases 3 - level
  {
    var shift, index := Shift(pageBits, level), IndexAt(pageBits, level, addr);
    var more := looks + [Lookup(table, index, bits)];
    match WordAt(mem, table + index * 8, 8)
    case None => Unmapped(more)
    case Some(desc) =>
      if desc % 2 == 0 then Unmapped(more)
      else if level < 3 && desc / 2 % 2 == 1 then WalkFrom(mem, pageBits, level + 1, Aligned(desc, pageBits), pageBits - 3, addr, more)
      else if level == 0 || (level == 3 && desc / 2 % 2 == 0) then Unmapped(more)
      else Mapped(Aligned(desc, shift) + Low(addr, shift), P(shift) - Low(addr, shift), more)
  }

  function Translation(mem: Memory, r: Registers, va: nat): Walked {
    var upper := IsUpper(r, va);
    if !Supported(r, upper) then Unmapped([])
    else
      var pageBits, bits := PageBits(r, upper), 64 - SizeField(r, upper);
      if !InHalf(upper, bits, Canonical(r, upper, va)) then Unmapped([])
      else
        LevelBounds(bits, pageBits);
        var root := RootBits(bits, pageBits);
        WalkFrom(mem, pageBits, 4 - Levels(bits, pageBits), Aligned(if upper then r.ttbr1 else r.ttbr0, root + 3), root, Low(va, bits), [])
  }

  /** The entry lies in its table, which is aligned to its own size. */
  predicate InTable(l: Lookup) { l.index < P(l.bits) && Low(l.table, l.bits + 3) == 0
                    && Shr(l.table + 8 * l.index + 7, l.bits + 3) == Shr(l.table, l.bits + 3) }

  predicate InTables(looks: seq<Lookup>) { forall i :: 0 <= i < |looks| ==> InTable(looks[i]) }

  lemma OneLook(table: nat, index: nat, bits: nat)
    requires index < P(bits) && Low(table, bits + 3) == 0
    ensures InTable(Lookup(table, index, bits))
  {
    assert P(bits + 3) == 2 * P(bits + 2) && P(bits + 2) == 2 * P(bits + 1);
    Steps(table, 8 * index + 7, bits + 3, bits + 3);
  }

  /** Each look stays in its table, and there is at most one for each level left. */
  lemma {:induction false} LooksInside(mem: Memory, pageBits: nat, level: nat, table: nat, bits: nat, addr: nat, looks: seq<Lookup>)
    requires pageBits >= 3 && level <= 3 && InTables(looks) && Low(table, bits + 3) == 0 && IndexAt(pageBits, level, addr) < P(bits)
    ensures var w := WalkFrom(mem, pageBits, level, table, bits, addr, looks); InTables(w.looks) && |w.looks| <= |looks| + 4 - level
    decreases 3 - level
  {
    hide WordAt, Aligned, P, Low, Shr, InTable, Shift;
    var index := IndexAt(pageBits, level, addr);
    var more := looks + [Lookup(table, index, bits)];
    OneLook(table, index, bits);
    match WordAt(mem, table + index * 8, 8) {
      case None =>
      case Some(desc) =>
        if desc % 2 == 1 && level < 3 && desc / 2 % 2 == 1 {
          AlignedLow(desc, pageBits);
          LooksInside(mem, pageBits, level + 1, Aligned(desc, pageBits), pageBits - 3, addr, more);
        }
    }
  }

  lemma AlignedLow(v: nat, n: nat)
    ensures Low(Aligned(v, n), n) == 0
  {
    LowShl(Shr(Low(v, 48), n), n, n);
  }

  /** A walk ends after at most four looks, each inside its table. */
  lemma WalkEnds(mem: Memory, r: Registers, va: nat)
    ensures var w := Translation(mem, r, va); |w.looks| <= 4 && InTables(w.looks)
  {
    hide WordAt, P, Low, Shr, Aligned, Bit, Field, InHalf, WalkFrom, Canonical, Shift, Levels, RootBits;
    var upper := IsUpper(r, va);
    if Supported(r, upper) {
      var pageBits, bits := PageBits(r, upper), 64 - SizeField(r, upper);
      if InHalf(upper, bits, Canonical(r, upper, va)) {
        LevelBounds(bits, pageBits);
        var root, level := RootBits(bits, pageBits), 4 - Levels(bits, pageBits);
        RootIndex(bits, pageBits, Low(va, bits));
        AlignedLow(if upper then r.ttbr1 else r.ttbr0, root + 3);
        LooksInside(mem, pageBits, level, Aligned(if upper then r.ttbr1 else r.ttbr0, root + 3), root, Low(va, bits), []);
      }
    }
  }

  lemma RootIndex(bits: nat, pageBits: nat, addr: nat)
    requires pageBits in {12, 14, 16} && 25 <= bits <= 48 && addr < P(bits)
    ensures 1 <= Levels(bits, pageBits) <= 4 && 1 <= RootBits(bits, pageBits)
            && IndexAt(pageBits, 4 - Levels(bits, pageBits), addr) < P(RootBits(bits, pageBits))
  {
    hide P, Low, Shr;
    LevelBounds(bits, pageBits);
    ShrBound(addr, Shift(pageBits, 4 - Levels(bits, pageBits)), RootBits(bits, pageBits));
  }

  // ----- addresses of one page or block

  lemma {:induction false} WalkSteps(mem: Memory, pageBits: nat, level: nat, table: nat, bits: nat, addr: nat, looks: seq<Lookup>, k: nat)
    requires pageBits >= 3 && level <= 3
    requires var w := WalkFrom(mem, pageBits, level, table, bits, addr, looks); w.Mapped? && k < w.span
    ensures var w := WalkFrom(mem, pageBits, level, table, bits, addr, looks);
            WalkFrom(mem, pageBits, level, table, bits, addr + k, looks) == Mapped(w.physical + k, w.span - k, w.looks)
    ensures Low(addr, Shift(pageBits, level)) + k < P(Shift(pageBits, level))
    decreases 3 - level
  {
    hide WordAt, Aligned, P, Low, Shr, WalkFrom, Shift;
    var shift, index := Shift(pageBits, level), IndexAt(pageBits, level, addr);
    var more := looks + [Lookup(table, index, bits)];
    WalkOpen(mem, pageBits, level, table, bits, addr, looks);
    WalkOpen(mem, pageBits, level, table, bits, addr + k, looks);
    var desc := WordAt(mem, table + index * 8, 8).value;
    if level < 3 && desc / 2 % 2 == 1 {
      WalkSteps(mem, pageBits, level + 1, Aligned(desc, pageBits), pageBits - 3, addr, more, k);
      assert Shift(pageBits, level + 1) <= shift by { ShiftFalls(pageBits, level); }
      Steps(addr, k, Shift(pageBits, level + 1), shift);
    } else {
      Steps(addr, k, shift, shift);
    }
  }

  lemma ShiftFalls(pageBits: nat, level: nat)
    requires pageBits >= 3 && level < 3
    ensures Shift(pageBits, level + 1) <= Shift(pageBits, level)
  {
  }

  /** One step of a walk. */
  lemma WalkOpen(mem: Memory, pageBits: nat, level: nat, table: nat, bits: nat, addr: nat, looks: seq<Lookup>)
    requires pageBits >= 3 && level <= 3
    ensures var shift, index := Shift(pageBits, level), IndexAt(pageBits, level, addr);
            var more := looks + [Lookup(table, index, bits)];
            WalkFrom(mem, pageBits, level, table, bits, addr, looks) ==
              match WordAt(mem, table + index * 8, 8)
              case None => Unmapped(more)
              case Some(desc) =>
                if desc % 2 == 0 then Unmapped(more)
                else if level < 3 && desc / 2 % 2 == 1 then WalkFrom(mem, pageBits, level + 1, Aligned(desc, pageBits), pageBits - 3, addr, more)
                else if level == 0 || (level == 3 && desc / 2 % 2 == 0) then Unmapped(more)
                else Mapped(Aligned(desc, shift) + Low(addr, shift), P(shift) - Low(addr, shift), more)
  {
    hide WordAt, Aligned, P, Low, Shr, Shift;
  }

  /** Addresses within a span translate to consecutive physical addresses. */
  lemma SpanSteps(mem: Memory, r: Registers, va: nat, k: nat)
    requires Translation(mem, r, va).Mapped? && k < Translation(mem, r, va).span
    ensures var w := Translation(mem, r, va); Translation(mem, r, va + k) == Mapped(w.physical + k, w.span - k, w.looks)
  {
    hide WordAt, Aligned, P, Low, Shr, Shl, WalkFrom, Supported, PageBits, SizeField, Levels, RootBits, Shift, Bit, Canonical, InHalf,
         IsUpper;
    var upper := IsUpper(r, va);
    Facts(r, upper);
    var pageBits, bits := PageBits(r, upper), 64 - SizeField(r, upper);
    LevelBounds(bits, pageBits);
    var root, level := RootBits(bits, pageBits), 4 - Levels(bits, pageBits);
    WalkSteps(mem, pageBits, level, Aligned(if upper then r.ttbr1 else r.ttbr0, root + 3), root, Low(va, bits), [], k);
    LowLow(va, Shift(pageBits, level), bits);
    Same(r, va, k, upper, Shift(pageBits, level), bits);
    Steps(va, k, Shift(pageBits, level), bits);
  }

  lemma Facts(r: Registers, upper: bool)
    requires Supported(r, upper)
    ensures PageBits(r, upper) in {12, 14, 16} && 25 <= 64 - SizeField(r, upper) <= 48
  {
    hide Bit, Field;
  }

  /** Which half an address is in, and whether it belongs there, does not change within a block. */
  lemma Same(r: Registers, va: nat, k: nat, upper: bool, s: nat, bits: nat)
    requires Low(va, s) + k < P(s) && s <= bits <= 48
    ensures IsUpper(r, va + k) == IsUpper(r, va) && InHalf(upper, bits, Canonical(r, upper, va + k)) == InHalf(upper, bits,
            Canonical(r, upper, va))
  {
    hide P, Low, Shr, Shl;
    Steps(va, k, s, 55);
    Steps(va, k, s, 63);
    Steps(va, k, s, 56);
    LowLow(va, s, 56);
    LowPlusShl(Low(va, 56), 255, s, 56);
    var c := Canonical(r, upper, va);
    assert Canonical(r, upper, va + k) == c + k;
    Steps(c, k, s, bits);
  }

  // ----- as the program does it

  /** Bytes of physical memory, all or none. */
  function ReadPhysical(mem: Memory, a: nat, n: nat): Option<bytes> {
    if n == 0 then Some([])
    else match (ReadPhysical(mem, a, n - 1), mem(a + n - 1))
      case (Some(front), Some(b)) => Some(front + [b])
      case _ => None
  }

  lemma {:induction false} PhysicalBytes(mem: Memory, a: nat, n: nat)
    ensures ReadPhysical(mem, a, n).Some? ==>
              |ReadPhysical(mem, a, n).value| == n && forall i :: 0 <= i < n ==> mem(a + i) == Some(ReadPhysical(mem, a, n).value[i])
  {
    if n > 0 { PhysicalBytes(mem, a, n - 1); }
  }

  /** Translates an address by following tables level by level. */
  method Translate(mem: Memory, r: Registers, va: nat) returns (w: Walked)
    ensures w == Translation(mem, r, va)
  {
    hide WordAt, Aligned, P, Low, Shr, Shl, WalkFrom, Supported, PageBits, SizeField, Levels, RootBits, Shift, Bit, Field, Canonical,
         InHalf, IsUpper;
    var upper := IsUpper(r, va);
    if !Supported(r, upper) {
      return Unmapped([]);
    }
    Facts(r, upper);
    var pageBits, bits := PageBits(r, upper), 64 - SizeField(r, upper);
    if !InHalf(upper, bits, Canonical(r, upper, va)) {
      return Unmapped([]);
    }
    LevelBounds(bits, pageBits);
    w := WalkLevels(mem, pageBits, 4 - Levels(bits, pageBits), Aligned(if upper then r.ttbr1 else r.ttbr0, RootBits(bits, pageBits) + 3),
        RootBits(bits, pageBits), Low(va, bits));
  }

  method WalkLevels(mem: Memory, pageBits: nat, first: nat, start: nat, root: nat, addr: nat) returns (w: Walked)
    requires pageBits >= 3 && first <= 3
    ensures w == WalkFrom(mem, pageBits, first, start, root, addr, [])
  {
    hide WordAt, Aligned, P, Low, Shr, Shl, Shift, IndexAt, WalkFrom;
    var level, table: nat, bits: nat, looks, done := first, start, root, [], false;
    w := Unmapped([]);
    while level < 4 && !done
      invariant first <= level <= 3
      invariant !done ==> WalkFrom(mem, pageBits, first, start, root, addr, []) == WalkFrom(mem, pageBits, level, table, bits, addr, looks)
      invariant done ==> w == WalkFrom(mem, pageBits, first, start, root, addr, [])
      decreases !done, 3 - level
    {
      var shift, index := Shift(pageBits, level), IndexAt(pageBits, level, addr);
      var entry := WordAt(mem, table + index * 8, 8);
      OneLevel(mem, pageBits, level, table, bits, addr, looks);
      looks, done := looks + [Lookup(table, index, bits)], true;
      if entry.None? || entry.value % 2 == 0 {
        w := Unmapped(looks);
      } else if level < 3 && entry.value / 2 % 2 == 1 {
        table, bits, level, done := Aligned(entry.value, pageBits), pageBits - 3, level + 1, false;
      } else if level == 0 || (level == 3 && entry.value / 2 % 2 == 0) {
        w := Unmapped(looks);
      } else {
        w := Mapped(Aligned(entry.value, shift) + Low(addr, shift), P(shift) - Low(addr, shift), looks);
      }
    }
  }

  /** One level of a walk. */
  lemma OneLevel(mem: Memory, pageBits: nat, level: nat, table: nat, bits: nat, addr: nat, looks: seq<Lookup>)
    requires pageBits >= 3 && level <= 3
    ensures var w := WalkFrom(mem, pageBits, level, table, bits, addr, looks);
            var shift, index := Shift(pageBits, level), IndexAt(pageBits, level, addr);
            var more := looks + [Lookup(table, index, bits)];
            match WordAt(mem, table + index * 8, 8)
            case None => w == Unmapped(more)
            case Some(desc) =>
              && (desc % 2 == 0 ==> w == Unmapped(more))
              && (desc % 2 == 1 && level < 3 && desc / 2 % 2 == 1
                  ==> w == WalkFrom(mem, pageBits, level + 1, Aligned(desc, pageBits), pageBits - 3, addr, more))
              && (desc % 2 == 1 && ((level == 0 && desc / 2 % 2 == 0) || (level == 3 && desc / 2 % 2 == 0)) ==> w == Unmapped(more))
              && (desc % 2 == 1 && ((0 < level < 3 && desc / 2 % 2 == 0) || (level == 3 && desc / 2 % 2 == 1)) ==>
                    w == Mapped(Aligned(desc, shift) + Low(addr, shift), P(shift) - Low(addr, shift), more))
  {
    hide WordAt, Aligned, P, Low, Shr, Shl, Shift, IndexAt;
  }

  /** The byte at a virtual address. */
  ghost function At(mem: Memory, r: Registers, va: nat): Option<byte> {
    match Translation(mem, r, va)
    case Unmapped(_) => None
    case Mapped(physical, _, _) => mem(physical)
  }

  /** Reads across pages, all or nothing; each byte is the one its own address translates to. */
  method Read(mem: Memory, r: Registers, address: nat, size: int) returns (out: Option<bytes>)
    ensures out.Some? ==>
              0 <= size <= 0x1_0000 && |out.value| == size && forall i :: 0 <= i < size ==> At(mem, r, address + i) == Some(out.value[i])
    ensures out.None? && 0 <= size <= 0x1_0000 && address + size < 0x1_0000_0000_0000_0000 ==>
              exists a :: address <= a < address + size && At(mem, r, a) == None
  {
    hide Translation, ReadPhysical;
    if size < 0 || size > 0x1_0000 || size > 0xffff_ffff_ffff_ffff - address {
      return None;
    }
    var result: bytes := [];
    while |result| < size
      invariant |result| <= size && forall i :: 0 <= i < |result| ==> At(mem, r, address + i) == Some(result[i])
      decreases size - |result|
    {
      var va := address + |result|;
      var w := Translate(mem, r, va);
      if w.Unmapped? {
        assert At(mem, r, address + |result|) == None;
        return None;
      }
      SpanPositive(mem, r, va);
      var n := if size - |result| < w.span then size - |result| else w.span;
      var data := ReadPhysical(mem, w.physical, n);
      PhysicalBytes(mem, w.physical, n);
      if data.None? {
        ghost var i := MissingByte(mem, w.physical, n);
        SpanSteps(mem, r, va, i);
        assert At(mem, r, address + (|result| + i)) == None;
        return None;
      }
      ghost var before := result;
      result := result + data.value;
      forall i | 0 <= i < |result| ensures At(mem, r, address + i) == Some(result[i]) {
        if i >= |before| {
          SpanSteps(mem, r, va, i - |before|);
          assert mem(w.physical + (i - |before|)) == Some(data.value[i - |before|]);
        }
      }
    }
    out := Some(result);
  }

  lemma SpanPositive(mem: Memory, r: Registers, va: nat)
    requires Translation(mem, r, va).Mapped?
    ensures 0 < Translation(mem, r, va).span
  {
    hide WordAt, Aligned, P, Low, Shr, Shl, Bit, Field, Canonical, InHalf, WalkFrom;
    var upper := IsUpper(r, va);
    Facts(r, upper);
    var pageBits, bits := PageBits(r, upper), 64 - SizeField(r, upper);
    LevelBounds(bits, pageBits);
    SpanOf(mem, pageBits, 4 - Levels(bits, pageBits), Aligned(if upper then r.ttbr1 else r.ttbr0, RootBits(bits, pageBits) + 3),
        RootBits(bits, pageBits), Low(va, bits), []);
  }

  lemma {:induction false} SpanOf(mem: Memory, pageBits: nat, level: nat, table: nat, bits: nat, addr: nat, looks: seq<Lookup>)
    requires pageBits >= 3 && level <= 3
    ensures var w := WalkFrom(mem, pageBits, level, table, bits, addr, looks); w.Mapped? ==> 0 < w.span
    decreases 3 - level
  {
    hide WordAt, Aligned, P, Low, Shr, Shl;
    var index := IndexAt(pageBits, level, addr);
    match WordAt(mem, table + index * 8, 8) {
      case None =>
      case Some(desc) =>
        if level < 3 {
          SpanOf(mem, pageBits, level + 1, Aligned(desc, pageBits), pageBits - 3, addr, looks + [Lookup(table, index, bits)]);
        }
    }
  }

  lemma {:induction false} MissingByte(mem: Memory, a: nat, n: nat) returns (i: nat)
    requires ReadPhysical(mem, a, n).None?
    ensures i < n && mem(a + i) == None
  {
    if ReadPhysical(mem, a, n - 1).None? { i := MissingByte(mem, a, n - 1); } else { i := n - 1; }
  }
}
