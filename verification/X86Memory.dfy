/** i386 address spaces over captured physical memory. */
module X86Memory {
  import opened Bytes

  // ----- captured memory

  /** Captured addresses from `start` on are in the source from `offset` on. */
  datatype Range = Range(start: nat, offset: nat, size: nat)

  datatype Kind = InvalidAddress | NotCaptured | NotPresent | Unsupported | SourceError

  datatype Fault = Fault(kind: Kind, address: nat)

  const MAX: nat := 0x7fff_ffff_ffff_ffff

  predicate Sorted(rs: seq<Range>) { forall i, j :: 0 <= i < j < |rs| ==> rs[i].start + rs[i].size <= rs[j].start }

  predicate InSource(r: Range, size: nat) { 0 < r.size && r.start + r.size <= MAX && r.offset + r.size <= size }

  predicate ValidRanges(rs: seq<Range>, size: nat) { Sorted(rs) && forall i :: 0 <= i < |rs| ==> InSource(rs[i], size) }

  /** The captured byte at an address, if there is one. */
  function ByteAt(source: bytes, rs: seq<Range>, a: nat): Option<byte> {
    if rs == [] then None
    else
      var r := rs[|rs| - 1];
      if r.start <= a < r.start + r.size && r.offset + r.size <= |source| then Some(source[r.offset + (a - r.start)]) else ByteAt(source,
          rs[..|rs| - 1], a)
  }

  lemma {:induction false} InRange(source: bytes, rs: seq<Range>, i: nat, a: nat)
    requires ValidRanges(rs, |source|) && i < |rs| && rs[i].start <= a < rs[i].start + rs[i].size
    ensures ByteAt(source, rs, a) == Some(source[rs[i].offset + (a - rs[i].start)])
  {
    var n := |rs| - 1;
    if i < n { InRange(source, rs[..n], i, a); }
  }

  lemma {:induction false} InNone(source: bytes, rs: seq<Range>, a: nat)
    requires forall i :: 0 <= i < |rs| ==> !(rs[i].start <= a < rs[i].start + rs[i].size)
    ensures ByteAt(source, rs, a) == None
  {
    if rs != [] { InNone(source, rs[..|rs| - 1], a); }
  }

  predicate Rising(s: seq<Range>) { forall i, j :: 0 <= i < j < |s| ==> s[i].start <= s[j].start }

  /** Sorts ranges by where they start. */
  method SortRanges(rs: seq<Range>) returns (s: seq<Range>)
    ensures multiset(s) == multiset(rs) && Rising(s)
  {
    hide Rising;
    s := [];
    var n := 0;
    NoneRising();
    while n < |rs|
      invariant 0 <= n <= |rs| && multiset(s) == multiset(rs[..n]) && Rising(s)
    {
      assert rs[..n + 1] == rs[..n] + [rs[n]];
      s := InsertRange(s, rs[n]);
      n := n + 1;
    }
    assert rs[..n] == rs;
  }

  method InsertRange(s: seq<Range>, r: Range) returns (t: seq<Range>)
    requires Rising(s)
    ensures Rising(t) && multiset(t) == multiset(s) + multiset{r}
  {
    hide Rising;
    var i := |s|;
    while i > 0 && r.start < s[i - 1].start
      invariant 0 <= i <= |s| && forall k :: i <= k < |s| ==> r.start < s[k].start
    {
      i := i - 1;
    }
    PlaceRange(s, r, i);
    PlacedAll(s, r, i);
    t := s[..i] + [r] + s[i..];
  }

  lemma PlacedAll(s: seq<Range>, r: Range, i: nat)
    requires i <= |s|
    ensures multiset(s[..i] + [r] + s[i..]) == multiset(s) + multiset{r}
  {
    assert s == s[..i] + s[i..];
  }

  lemma NoneRising()
    ensures Rising([])
  {
  }

  lemma PlaceRange(s: seq<Range>, r: Range, i: nat)
    requires Rising(s) && i <= |s| && (forall k :: i <= k < |s| ==> r.start < s[k].start) && (i > 0 ==> s[i - 1].start <= r.start)
    ensures Rising(s[..i] + [r] + s[i..])
  {
    var t := s[..i] + [r] + s[i..];
    forall a, b | 0 <= a < b < |t| ensures t[a].start <= t[b].start {
      assert t[a] == if a < i then s[a] else if a == i then r else s[a - 1];
      assert t[b] == if b < i then s[b] else if b == i then r else s[b - 1];
    }
  }

  class Physical {
    const source: bytes
    const ranges: seq<Range>
    /** The source has failed to give what it was asked for. */
    ghost var faulty: bool

    ghost predicate Valid() { ValidRanges(ranges, |source|) }

    /** The captured byte at an address. */
    ghost function At(a: nat): Option<byte> { ByteAt(source, ranges, a) }

    constructor (source: bytes, ranges: seq<Range>)
      requires ValidRanges(ranges, |source|)
      ensures Valid() && this.source == source && this.ranges == ranges
    {
      this.source, this.ranges, faulty := source, ranges, false;
    }

    /** The first range that ends behind an address. */
    method Search(address: nat) returns (index: nat)
      requires Valid()
      ensures index <= |ranges| && (forall i :: 0 <= i < index ==> ranges[i].start + ranges[i].size <= address)
      ensures index < |ranges| ==> address < ranges[index].start + ranges[index].size
    {
      var low, high := 0, |ranges|;
      while low < high
        invariant 0 <= low <= high <= |ranges| && (forall i :: 0 <= i < low ==> ranges[i].start + ranges[i].size <= address)
        invariant high < |ranges| ==> address < ranges[high].start + ranges[high].size
      {
        var middle := (low + high) / 2;
        if ranges[middle].start + ranges[middle].size > address {
          high := middle;
        } else {
          forall i | 0 <= i < middle ensures ranges[i].start + ranges[i].size <= address {
            assert ranges[i].start + ranges[i].size <= ranges[middle].start;
          }
          low := middle + 1;
        }
      }
      index := low;
    }

    /** The source may give less than asked for, or fail. */
    method ReadSource(n: nat, off: nat) returns (got: bytes, failed: bool)
      requires off + n <= |source|
      modifies this`faulty
      ensures |got| <= n && got == source[off..off + |got|] && faulty == (old(faulty) || failed || |got| < n)
    {
      var k: nat :| k <= n;
      got := source[off..off + k];
      failed := *;
      faulty := faulty || failed || |got| < n;
    }

    /** Reads captured bytes; what is returned is right, and a fault names the first byte that is not. */
    method ReadAt(n: nat, offset: nat) returns (got: bytes, fault: Option<Fault>)
      requires Valid()
      modifies this`faulty
      ensures |got| <= n && (fault.None? ==> |got| == n) && (old(faulty) ==> faulty)
              && (fault.Some? && fault.value.kind == SourceError ==> faulty)
      ensures forall i :: 0 <= i < |got| ==> At(offset + i) == Some(got[i])
      ensures fault.Some? ==> fault.value.address == offset + |got| && fault.value.kind in {NotCaptured, SourceError}
      ensures fault.Some? && fault.value.kind == NotCaptured ==> |got| < n && At(offset + |got|) == None
    {
      hide ByteAt, ValidRanges;
      got, fault := [], None;
      while |got| < n && fault.None?
        invariant |got| <= n && (forall i :: 0 <= i < |got| ==> At(offset + i) == Some(got[i]))
        invariant fault.Some? ==> fault.value.address == offset + |got| && fault.value.kind in {NotCaptured, SourceError}
        invariant fault.Some? && fault.value.kind == NotCaptured ==> |got| < n && At(offset + |got|) == None
        invariant (old(faulty) ==> faulty) && (fault.Some? && fault.value.kind == SourceError ==> faulty)
        decreases n - |got|, fault.None?
      {
        var address := offset + |got|;
        var index := Search(address);
        if index == |ranges| || address < ranges[index].start {
          OutOfRanges(address, index);
          fault := Some(Fault(NotCaptured, address));
        } else {
          var piece, bad := ReadRange(index, address, n - |got|);
          ghost var before := got;
          got := got + piece;
          forall i | 0 <= i < |got| ensures At(offset + i) == Some(got[i]) {
            if i >= |before| { assert got[i] == piece[i - |before|] && At(address + (i - |before|)) == Some(piece[i - |before|]); }
          }
          if bad { fault := Some(Fault(SourceError, offset + |got|)); }
        }
      }
    }

    lemma OutOfRanges(address: nat, index: nat)
      requires Valid() && index <= |ranges| && (forall i :: 0 <= i < index ==> ranges[i].start + ranges[i].size <= address)
      requires index < |ranges| ==> address < ranges[index].start
      ensures At(address) == None
    {
      forall i | 0 <= i < |ranges| ensures !(ranges[i].start <= address < ranges[i].start + ranges[i].size) {
        if i > index { assert ranges[index].start + ranges[index].size <= ranges[i].start; }
      }
      InNone(source, ranges, address);
    }

    method ReadRange(index: nat, address: nat, n: nat) returns (piece: bytes, bad: bool)
      requires Valid() && index < |ranges| && ranges[index].start <= address < ranges[index].start + ranges[index].size && 0 < n
      modifies this`faulty
      ensures |piece| <= n && (!bad ==> 0 < |piece|) && (forall i :: 0 <= i < |piece| ==> At(address + i) == Some(piece[i]))
              && (old(faulty) || bad ==> faulty)
    {
      hide ByteAt;
      var r := ranges[index];
      var count := if n < r.start + r.size - address then n else r.start + r.size - address;
      var failed;
      piece, failed := ReadSource(count, r.offset + (address - r.start));
      bad := failed || |piece| != count;
      forall i | 0 <= i < |piece| ensures At(address + i) == Some(piece[i]) { InRange(source, ranges, index, address + i); }
    }
  }

  /** Builds a capture; ranges may come in any order but may not be empty, overlap or leave the source. */
  method NewPhysical(source: bytes, given: Option<seq<Range>>) returns (p: Option<Physical>)
    ensures p.Some? ==> p.value.Valid() && p.value.source == source && multiset(p.value.ranges) == multiset(Wanted(source, given))
    ensures p.None? ==>
              || |Wanted(source, given)| > 0x10_0000
              || exists s :: Rising(s) && multiset(s) == multiset(Wanted(source, given)) && !ValidRanges(s, |source|)
  {
    hide ValidRanges, Rising;
    p := None;
    var rs := Wanted(source, given);
    if |rs| <= 0x10_0000 {
      rs := SortRanges(rs);
      var ok := CheckRanges(rs, |source|);
      if ok {
        var q := new Physical(source, rs);
        p := Some(q);
      }
    }
  }

  /** No ranges given means the whole source from address zero on. */
  function Wanted(source: bytes, given: Option<seq<Range>>): seq<Range> {
    match given
    case Some(rs) => rs
    case None => if source == [] then [] else [Range(0, 0, |source|)]
  }

  method CheckRanges(rs: seq<Range>, size: nat) returns (ok: bool)
    ensures ok <==> ValidRanges(rs, size)
  {
    hide ValidRanges;
    var end, i := 0, 0;
    ok := true;
    NoRanges(size);
    assert rs[..0] == [];
    while i < |rs| && ok
      invariant 0 <= i <= |rs| && (ok ==> ValidRanges(rs[..i], size) && end == (if i == 0 then 0 else rs[i - 1].start + rs[i - 1].size))
      invariant !ok ==> !ValidRanges(rs, size)
    {
      var r := rs[i];
      if r.size == 0 || r.start > MAX || r.size > MAX - r.start || r.offset > size || r.size > size - r.offset || r.start < end {
        NotValid(rs, i, size);
        ok := false;
      } else {
        SortedMore(rs, i, size);
        end := r.start + r.size;
      }
      i := i + 1;
    }
    assert rs[..|rs|] == rs;
  }

  lemma NoRanges(size: nat)
    ensures ValidRanges([], size)
  {
  }

  lemma NotValid(rs: seq<Range>, i: nat, size: nat)
    requires i < |rs| && (!InSource(rs[i], size) || (i > 0 && rs[i].start < rs[i - 1].start + rs[i - 1].size))
    ensures !ValidRanges(rs, size)
  {
  }

  lemma SortedMore(rs: seq<Range>, i: nat, size: nat)
    requires i < |rs| && ValidRanges(rs[..i], size) && InSource(rs[i], size) && (i > 0 ==> rs[i - 1].start + rs[i - 1].size <= rs[i].start)
    ensures ValidRanges(rs[..i + 1], size)
  {
    var s := rs[..i + 1];
    forall a, b | 0 <= a < b < |s| ensures s[a].start + s[a].size <= s[b].start {
      if b == i && a < i - 1 { assert rs[..i][a].start + rs[..i][a].size <= rs[..i][i - 1].start; }
      if b < i { assert rs[..i][a].start + rs[..i][a].size <= rs[..i][b].start; }
    }
    forall a | 0 <= a < |s| ensures InSource(s[a], size) { if a < i { assert InSource(rs[..i][a], size); } }
  }

  // ----- translation

  datatype Page = Page(physical: nat, size: nat)
  datatype Walked = Mapped(page: Page) | Unmapped(kind: Kind)

  const SPACE: nat := 0x1_0000_0000

  /** A little-endian word of captured memory. */
  ghost function WordAt(p: Physical, a: nat, width: nat): Option<nat>
    decreases width
  {
    if width == 0 then Some(0)
    else match (p.At(a), WordAt(p, a + 1, width - 1))
      case (Some(b), Some(rest)) => Some(b as nat + 256 * rest)
      case _ => None
  }

  /** Bits lo and up of a word, in place. */
  function Base(v: nat, lo: nat, hi: nat): nat
    requires 0 < lo && 0 < hi
  {
    v % hi / lo * lo
  }

  function Present(v: nat): bool { v % 2 == 1 }
  function Large(v: nat): bool { v / 0x80 % 2 == 1 }

  const HIGH: nat := 0x10_0000_0000_0000

  // Where the entries of an address are: page number, table number, directory number.
  function PageNumber(va: nat): nat { va / 0x1000 }

  /** The table entry at each stage of a walk with 8-byte entries. */
  ghost function WalkPae(p: Physical, dtb: nat, va: nat): Walked {
    match WordAt(p, dtb / 32 * 32 + PageNumber(va) / 512 / 512 % 4 * 8, 8)
    case None => Unmapped(NotCaptured)
    case Some(pdpte) =>
      if !Present(pdpte) then Unmapped(NotPresent)
      else match WordAt(p, Base(pdpte, 0x1000, HIGH) + PageNumber(va) / 512 % 512 * 8, 8)
        case None => Unmapped(NotCaptured)
        case Some(pde) =>
          if !Present(pde) then Unmapped(NotPresent)
          else if Large(pde) then Mapped(Page(Base(pde, 0x20_0000, HIGH) + va % 0x20_0000, 0x20_0000))
          else match WordAt(p, Base(pde, 0x1000, HIGH) + PageNumber(va) % 512 * 8, 8)
            case None => Unmapped(NotCaptured)
            case Some(pte) =>
              if !Present(pte) then Unmapped(NotPresent) else Mapped(Page(Base(pte, 0x1000, HIGH) + va % 0x1000, 0x1000))
  }

  /** The same with 4-byte entries and two stages. */
  ghost function WalkTwo(p: Physical, dtb: nat, va: nat): Walked {
    match WordAt(p, dtb / 0x1000 * 0x1000 + PageNumber(va) / 1024 * 4, 4)
    case None => Unmapped(NotCaptured)
    case Some(pde) =>
      if !Present(pde) then Unmapped(NotPresent)
      else if Large(pde) then
        if pde / 0x2000 % 512 != 0 then Unmapped(Unsupported) else Mapped(Page(Base(pde, 0x40_0000, SPACE) + va % 0x40_0000, 0x40_0000))
      else match WordAt(p, Base(pde, 0x1000, SPACE) + PageNumber(va) % 1024 * 4, 4)
        case None => Unmapped(NotCaptured)
        case Some(pte) =>
          if !Present(pte) then Unmapped(NotPresent) else Mapped(Page(Base(pte, 0x1000, SPACE) + va % 0x1000, 0x1000))
  }

  ghost function Walk(p: Physical, dtb: nat, pae: bool, va: nat): Walked {
    if va >= SPACE then Unmapped(InvalidAddress) else if pae then WalkPae(p, dtb, va) else WalkTwo(p, dtb, va)
  }

  /** Addresses of one page translate to consecutive physical addresses. */
  lemma OnePage(p: Physical, dtb: nat, pae: bool, va: nat, k: nat)
    requires Walk(p, dtb, pae, va).Mapped? && va % Walk(p, dtb, pae, va).page.size + k < Walk(p, dtb, pae, va).page.size
    ensures Walk(p, dtb, pae, va + k) == Mapped(Page(Walk(p, dtb, pae, va).page.physical + k, Walk(p, dtb, pae, va).page.size))
  {
    hide WordAt, Base, Present, Large;
    var size := Walk(p, dtb, pae, va).page.size;
    SamePage(va, k, size);
    InSpace(va, k, size);
  }

  lemma SamePage(va: nat, k: nat, size: nat)
    requires size in {0x1000, 0x20_0000, 0x40_0000} && va % size + k < size
    ensures (va + k) % size == va % size + k
    ensures size == 0x1000 ==> PageNumber(va + k) == PageNumber(va)
    ensures size == 0x20_0000 ==> PageNumber(va + k) / 512 == PageNumber(va) / 512
    ensures size == 0x40_0000 ==> PageNumber(va + k) / 1024 == PageNumber(va) / 1024
  {
    Nested(va);
    Nested(va + k);
    if size == 0x1000 {
      SmallStep(va, k);
    } else if size == 0x20_0000 {
      MiddleStep(va, k);
    } else {
      LargeStep(va, k);
    }
  }

  lemma Nested(x: nat)
    ensures x / 0x1000 / 512 == x / 0x20_0000 && x / 0x1000 / 1024 == x / 0x40_0000
  {
  }

  lemma SmallStep(x: nat, k: nat)
    requires x % 0x1000 + k < 0x1000
    ensures (x + k) / 0x1000 == x / 0x1000 && (x + k) % 0x1000 == x % 0x1000 + k
  {
  }

  lemma MiddleStep(x: nat, k: nat)
    requires x % 0x20_0000 + k < 0x20_0000
    ensures (x + k) / 0x20_0000 == x / 0x20_0000 && (x + k) % 0x20_0000 == x % 0x20_0000 + k
  {
  }

  lemma LargeStep(x: nat, k: nat)
    requires x % 0x40_0000 + k < 0x40_0000
    ensures (x + k) / 0x40_0000 == x / 0x40_0000 && (x + k) % 0x40_0000 == x % 0x40_0000 + k
  {
  }

  lemma InSpace(va: nat, k: nat, size: nat)
    requires size in {0x1000, 0x20_0000, 0x40_0000} && va % size + k < size && va < SPACE
    ensures va + k < SPACE
  {
  }

  class Space {
    const physical: Physical
    const dtb: nat
    const pae: bool

    constructor (physical: Physical, dtb: nat, pae: bool)
      requires dtb < SPACE
      ensures this.physical == physical && this.dtb == dtb && this.pae == pae
    {
      this.physical, this.dtb, this.pae := physical, dtb, pae;
    }

    /** Reads a table entry; the source may fail it, and an entry that is not present stops the walk. */
    method ReadEntry(va: nat, address: nat, width: nat) returns (r: Option<nat>, fault: Fault)
      requires physical.Valid()
      modifies physical`faulty
      ensures (old(physical.faulty) ==> physical.faulty) && (r.None? && fault.kind == SourceError ==> physical.faulty)
      ensures r.Some? ==> WordAt(physical, address, width) == r && Present(r.value)
      ensures fault.address == va
      ensures r.None? && fault.kind != SourceError ==>
                match WordAt(physical, address, width)
                case None => fault.kind == NotCaptured
                case Some(v) => !Present(v) && fault.kind == NotPresent
    {
      hide ByteAt;
      var data, bad := physical.ReadAt(width, address);
      r, fault := None, Fault(SourceError, va);
      if bad.Some? {
        fault := Fault(bad.value.kind, va);
        if bad.value.kind == NotCaptured { WordMissing(physical, address, width, |data|); }
      } else {
        WordRead(physical, address, width, data);
        var v := Value(data);
        if v % 2 == 0 { fault := Fault(NotPresent, va); } else { r := Some(v); }
      }
    }

    /** Translates an address, or names it in a fault. */
    method Translate(va: nat) returns (r: Option<Page>, fault: Fault)
      requires physical.Valid()
      modifies physical`faulty
      ensures (old(physical.faulty) ==> physical.faulty) && (r.None? && fault.kind == SourceError ==> physical.faulty)
      ensures r.Some? ==> Walk(physical, dtb, pae, va) == Mapped(r.value)
      ensures r.None? ==> fault.address == va && (fault.kind != SourceError ==> Walk(physical, dtb, pae, va) == Unmapped(fault.kind))
    {
      if va >= SPACE {
        r, fault := None, Fault(InvalidAddress, va);
      } else if pae {
        r, fault := TranslatePae(va);
      } else {
        r, fault := TranslateTwo(va);
      }
    }

    method TranslatePae(va: nat) returns (r: Option<Page>, fault: Fault)
      requires physical.Valid()
      modifies physical`faulty
      ensures (old(physical.faulty) ==> physical.faulty) && (r.None? && fault.kind == SourceError ==> physical.faulty)
      ensures r.Some? ==> WalkPae(physical, dtb, va) == Mapped(r.value)
      ensures r.None? ==> fault.address == va && (fault.kind != SourceError ==> WalkPae(physical, dtb, va) == Unmapped(fault.kind))
    {
      hide WordAt, Base, Large, Present;
      r := None;
      var pdpte, pde, pte;
      pdpte, fault := ReadEntry(va, dtb / 32 * 32 + PageNumber(va) / 512 / 512 % 4 * 8, 8);
      if pdpte.Some? {
        pde, fault := ReadEntry(va, Base(pdpte.value, 0x1000, HIGH) + PageNumber(va) / 512 % 512 * 8, 8);
        if pde.Some? {
          if Large(pde.value) {
            r := Some(Page(Base(pde.value, 0x20_0000, HIGH) + va % 0x20_0000, 0x20_0000));
          } else {
            pte, fault := ReadEntry(va, Base(pde.value, 0x1000, HIGH) + PageNumber(va) % 512 * 8, 8);
            if pte.Some? {
              r := Some(Page(Base(pte.value, 0x1000, HIGH) + va % 0x1000, 0x1000));
            }
          }
        }
      }
    }

    method TranslateTwo(va: nat) returns (r: Option<Page>, fault: Fault)
      requires physical.Valid()
      modifies physical`faulty
      ensures (old(physical.faulty) ==> physical.faulty) && (r.None? && fault.kind == SourceError ==> physical.faulty)
      ensures r.Some? ==> WalkTwo(physical, dtb, va) == Mapped(r.value)
      ensures r.None? ==> fault.address == va && (fault.kind != SourceError ==> WalkTwo(physical, dtb, va) == Unmapped(fault.kind))
    {
      hide WordAt, Base, Large, Present;
      r := None;
      var pde, pte;
      pde, fault := ReadEntry(va, dtb / 0x1000 * 0x1000 + PageNumber(va) / 1024 * 4, 4);
      if pde.Some? {
        if Large(pde.value) {
          if pde.value / 0x2000 % 512 != 0 {
            fault := Fault(Unsupported, va);
          } else {
            r := Some(Page(Base(pde.value, 0x40_0000, SPACE) + va % 0x40_0000, 0x40_0000));
          }
        } else {
          pte, fault := ReadEntry(va, Base(pde.value, 0x1000, SPACE) + PageNumber(va) % 1024 * 4, 4);
          if pte.Some? {
            r := Some(Page(Base(pte.value, 0x1000, SPACE) + va % 0x1000, 0x1000));
          }
        }
      }
    }

    /** The byte at a virtual address: translated, then captured. */
    ghost function At(va: nat): Option<byte> {
      match Walk(physical, dtb, pae, va)
      case Unmapped(_) => None
      case Mapped(page) => physical.At(page.physical)
    }

    /** Reads across pages; each byte is the one its own address translates to, and a fault names the first byte not read. */
    method ReadAt(n: nat, offset: int) returns (got: bytes, fault: Option<Fault>)
      requires physical.Valid()
      modifies physical`faulty
      ensures (old(physical.faulty) ==> physical.faulty) && (fault.Some? && fault.value.kind == SourceError ==> physical.faulty)
      ensures |got| <= n && (fault.None? ==> |got| == n) && (offset < 0 ==> n == 0 || fault.Some?)
      ensures 0 <= offset ==> forall i :: 0 <= i < |got| ==> At(offset + i) == Some(got[i])
      ensures 0 <= offset && fault.Some? ==> fault.value.address == offset + |got|
      ensures 0 <= offset && offset + n <= SPACE && fault.Some? && fault.value.kind != SourceError ==>
                |got| < n && At(offset + |got|) == None
    {
      hide ByteAt, Walk;
      got, fault := [], None;
      if offset < 0 || offset > SPACE || n > SPACE - offset {
        return [], Some(Fault(InvalidAddress, if offset < 0 then 0 else offset));
      }
      while |got| < n && fault.None?
        invariant |got| <= n && (forall i :: 0 <= i < |got| ==> At(offset + i) == Some(got[i]))
        invariant fault.Some? ==>
                    fault.value.address == offset + |got| && (fault.value.kind != SourceError ==> |got| < n && At(offset + |got|) == None)
        invariant (old(physical.faulty) ==> physical.faulty) && (fault.Some? && fault.value.kind == SourceError ==> physical.faulty)
        decreases n - |got|, fault.None?
      {
        var piece;
        piece, fault := ReadPage(offset + |got|, n - |got|);
        ghost var before := got;
        got := got + piece;
        forall i | 0 <= i < |got| ensures At(offset + i) == Some(got[i]) {
          if i >= |before| { assert got[i] == piece[i - |before|] && At(offset + |before| + (i - |before|)) == Some(piece[i - |before|]); }
        }
      }
    }

    /** Reads as far as the page of an address goes. */
    method ReadPage(va: nat, n: nat) returns (piece: bytes, fault: Option<Fault>)
      requires physical.Valid() && 0 < n
      modifies physical`faulty
      ensures (old(physical.faulty) ==> physical.faulty) && (fault.Some? && fault.value.kind == SourceError ==> physical.faulty)
      ensures |piece| <= n && (fault.None? ==> 0 < |piece|) && forall i :: 0 <= i < |piece| ==> At(va + i) == Some(piece[i])
      ensures fault.Some? ==>
                fault.value.address == va + |piece| && (fault.value.kind != SourceError ==> |piece| < n && At(va + |piece|) == None)
    {
      hide ByteAt, Walk;
      var t, bad := Translate(va);
      piece, fault := [], None;
      if t.None? {
        fault := Some(bad);
      } else {
        PageSizes(physical, dtb, pae, va);
        var page := t.value;
        var count := if n < page.size - va % page.size then n else page.size - va % page.size;
        var inner;
        piece, inner := physical.ReadAt(count, page.physical);
        forall i | 0 <= i < |piece| ensures At(va + i) == Some(piece[i]) {
          OnePage(physical, dtb, pae, va, i);
          assert physical.At(page.physical + i) == Some(piece[i]);
        }
        if inner.Some? {
          if inner.value.kind == NotCaptured { OnePage(physical, dtb, pae, va, |piece|); }
          fault := Some(Fault(inner.value.kind, va + |piece|));
        }
      }
    }
  }

  lemma PageSizes(p: Physical, dtb: nat, pae: bool, va: nat)
    ensures Walk(p, dtb, pae, va).Mapped? ==> Walk(p, dtb, pae, va).page.size in {0x1000, 0x20_0000, 0x40_0000}
  {
  }

  function Value(b: bytes): nat { if b == [] then 0 else b[0] as nat + 256 * Value(b[1..]) }

  lemma {:induction false} WordRead(p: Physical, a: nat, width: nat, data: bytes)
    requires |data| == width && forall i :: 0 <= i < width ==> p.At(a + i) == Some(data[i])
    ensures WordAt(p, a, width) == Some(Value(data))
    decreases width
  {
    hide ByteAt;
    if width > 0 {
      assert p.At(a + 0) == Some(data[0]);
      forall i | 0 <= i < width - 1 ensures p.At(a + 1 + i) == Some(data[1..][i]) { assert p.At(a + (i + 1)) == Some(data[i + 1]); }
      WordRead(p, a + 1, width - 1, data[1..]);
    }
  }

  lemma {:induction false} WordMissing(p: Physical, a: nat, width: nat, i: nat)
    requires i < width && p.At(a + i) == None
    ensures WordAt(p, a, width) == None
    decreases width
  {
    hide ByteAt;
    if i > 0 { WordMissing(p, a + 1, width - 1, i - 1); }
  }
}
