/** How a hive image is cut into bins and cells.
 *
 * A bin is a 32-byte header followed by cells; a cell starts with a signed size,
 * negative while the cell is allocated. In format 1.1 the next word of every cell
 * links back to the cell before it in the same bin.
 *
 * A layout is the list of headers and cells an image is made of, and `Flat` gives
 * its bytes: an image is tiled when it is the bytes of some layout. `at` is always
 * the offset in the image of the first item.
 */
module HiveLayout {
  import opened Bytes
  import opened FreeIndex

  const BASE: nat := 0x1000
  const HEADER: nat := 0x20
  const NONE: nat := 0xffff_ffff
  const HBIN: bytes := [104, 98, 105, 110]

  /** The bodies of the allocated cells, by cell number. */
  type Live = map<nat, bytes>

  /** Bin headers and cells in order; of a cell, everything after its size word. */
  datatype Layout = End | Bin(head: bytes, next: Layout) | Cell(free: bool, rest: bytes, next: Layout)

  function Cat(a: Layout, b: Layout): Layout {
    match a
    case End => b
    case Bin(h, n) => Bin(h, Cat(n, b))
    case Cell(f, r, n) => Cell(f, r, Cat(n, b))
  }

  function Len(x: Layout): nat {
    match x
    case End => 0
    case Bin(h, n) => |h| + Len(n)
    case Cell(_, r, n) => 4 + |r| + Len(n)
  }

  function SizeWord(free: bool, rest: bytes): (r: bytes)
    ensures |r| == 4
  {
    Enc32(if free then 4 + |rest| else -(4 + |rest|))
  }

  function Flat(x: Layout): (r: bytes)
    ensures |r| == Len(x)
  {
    match x
    case End => []
    case Bin(h, n) => h + Flat(n)
    case Cell(f, r, n) => SizeWord(f, r) + r + Flat(n)
  }

  /** The bytes of the cells up to the next bin header; `tail` is that count after the layout. */
  function Run(x: Layout, tail: nat): nat {
    match x
    case End => tail
    case Bin(_, _) => 0
    case Cell(_, r, n) => 4 + |r| + Run(n, tail)
  }

  predicate HeadOk(h: bytes, at: nat, run: nat) {
    |h| == HEADER && h[..4] == HBIN && BASE <= at && U32(h, 4) == at - BASE && U32(h, 8) == HEADER + run
  }

  predicate SizeOk(rest: bytes) { 8 <= 4 + |rest| < 0x8000_0000 }

  /** Headers state where they are and how long their bin is; cells have representable sizes. */
  predicate Ok(x: Layout, at: nat, tail: nat) {
    match x
    case End => true
    case Bin(h, n) => HeadOk(h, at, Run(n, tail)) && Ok(n, at + |h|, tail)
    case Cell(_, r, n) => SizeOk(r) && Ok(n, at + 4 + |r|, tail)
  }

  /** Only cells, of representable sizes. */
  predicate OnlyCells(x: Layout) {
    match x
    case End => true
    case Bin(_, _) => false
    case Cell(_, r, n) => SizeOk(r) && OnlyCells(n)
  }

  // ----- what a layout holds

  /** The bin an item after this layout belongs to. */
  function BinAfter(x: Layout, at: nat, bin: nat): nat {
    match x
    case End => bin
    case Bin(h, n) => BinAfter(n, at + |h|, at)
    case Cell(_, r, n) => BinAfter(n, at + 4 + |r|, bin)
  }

  ghost function Free(x: Layout, at: nat, bin: nat): set<FreeCell> {
    match x
    case End => {}
    case Bin(h, n) => Free(n, at + |h|, at)
    case Cell(f, r, n) => (if f then {FreeCell(at, bin, 4 + |r|)} else {}) + Free(n, at + 4 + |r|, bin)
  }

  ghost function LiveOf(x: Layout, at: nat, header: nat): Live
    requires BASE <= at && 4 <= header
  {
    match x
    case End => map[]
    case Bin(h, n) => LiveOf(n, at + |h|, header)
    case Cell(f, r, n) =>
      var more := LiveOf(n, at + 4 + |r|, header);
      if !f && header <= 4 + |r| then more[at - BASE := r[header - 4..]] else more
  }

  /** What the next cell of the bin must link back to. */
  function LinkAfter(x: Layout, at: nat, bin: nat, previous: int): int {
    match x
    case End => previous
    case Bin(h, n) => LinkAfter(n, at + |h|, at, NONE)
    case Cell(_, r, n) => LinkAfter(n, at + 4 + |r|, bin, at - bin)
  }

  /** Every cell names the cell before it in its bin, the first one nothing. */
  predicate Linked(x: Layout, at: nat, bin: nat, previous: int) {
    match x
    case End => true
    case Bin(h, n) => Linked(n, at + |h|, at, NONE)
    case Cell(_, r, n) => 4 <= |r| && U32(r, 0) == previous && Linked(n, at + 4 + |r|, bin, at - bin)
  }

  function BinOffsets(x: Layout, at: nat): seq<nat> {
    match x
    case End => []
    case Bin(h, n) => [at] + BinOffsets(n, at + |h|)
    case Cell(_, r, n) => BinOffsets(n, at + 4 + |r|)
  }

  // ----- layouts side by side

  lemma {:induction false} CatFlat(a: Layout, b: Layout)
    ensures Flat(Cat(a, b)) == Flat(a) + Flat(b) && Len(Cat(a, b)) == Len(a) + Len(b)
  {
    match a
    case End =>
    case Bin(h, n) => CatFlat(n, b);
    case Cell(_, r, n) => CatFlat(n, b);
  }

  lemma {:induction false} CatOk(a: Layout, b: Layout, at: nat, tail: nat)
    ensures Run(Cat(a, b), tail) == Run(a, Run(b, tail))
    ensures Ok(Cat(a, b), at, tail) <==> Ok(a, at, Run(b, tail)) && Ok(b, at + Len(a), tail)
  {
    match a
    case End =>
    case Bin(h, n) => CatOk(n, b, at + |h|, tail);
    case Cell(_, r, n) => CatOk(n, b, at + 4 + |r|, tail);
  }

  lemma {:induction false} CatBins(a: Layout, b: Layout, at: nat)
    ensures BinOffsets(Cat(a, b), at) == BinOffsets(a, at) + BinOffsets(b, at + Len(a))
  {
    match a
    case End =>
    case Bin(h, n) => CatBins(n, b, at + |h|);
    case Cell(_, r, n) => CatBins(n, b, at + 4 + |r|);
  }

  lemma {:induction false} CatFree(a: Layout, b: Layout, at: nat, bin: nat)
    ensures Free(Cat(a, b), at, bin) == Free(a, at, bin) + Free(b, at + Len(a), BinAfter(a, at, bin))
  {
    match a
    case End =>
    case Bin(h, n) => CatFree(n, b, at + |h|, at);
    case Cell(_, r, n) => CatFree(n, b, at + 4 + |r|, bin);
  }

  lemma {:induction false} CatLive(a: Layout, b: Layout, at: nat, header: nat)
    requires BASE <= at && 4 <= header
    ensures LiveOf(Cat(a, b), at, header) == LiveOf(b, at + Len(a), header) + LiveOf(a, at, header)
  {
    match a
    case End =>
    case Bin(h, n) => CatLive(n, b, at + |h|, header);
    case Cell(_, r, n) => CatLive(n, b, at + 4 + |r|, header);
  }

  lemma {:induction false} CatLinked(a: Layout, b: Layout, at: nat, bin: nat, previous: int)
    ensures Linked(Cat(a, b), at, bin, previous) <==>
            Linked(a, at, bin, previous) && Linked(b, at + Len(a), BinAfter(a, at, bin), LinkAfter(a, at, bin, previous))
  {
    match a
    case End =>
    case Bin(h, n) => CatLinked(n, b, at + |h|, at, NONE);
    case Cell(_, r, n) => CatLinked(n, b, at + 4 + |r|, bin, at - bin);
  }

  lemma {:induction false} FreeBounds(x: Layout, at: nat, bin: nat)
    ensures forall c :: c in Free(x, at, bin) ==> at <= c.offset < at + Len(x)
  {
    match x
    case End =>
    case Bin(h, n) => FreeBounds(n, at + |h|, at);
    case Cell(_, r, n) => FreeBounds(n, at + 4 + |r|, bin);
  }

  lemma {:induction false} LiveBounds(x: Layout, at: nat, header: nat)
    requires BASE <= at && 4 <= header
    ensures forall k :: k in LiveOf(x, at, header) ==> at - BASE <= k < at - BASE + Len(x)
  {
    match x
    case End =>
    case Bin(h, n) => LiveBounds(n, at + |h|, header);
    case Cell(_, r, n) => LiveBounds(n, at + 4 + |r|, header);
  }

  lemma {:induction false} CellsFacts(w: Layout, at: nat, bin: nat, tail: nat)
    requires OnlyCells(w)
    ensures Run(w, tail) == Len(w) + tail && Ok(w, at, tail) && BinAfter(w, at, bin) == bin && BinOffsets(w, at) == []
  {
    if w.Cell? {
      CellsFacts(w.next, at + 4 + |w.rest|, bin, tail);
    }
  }

  // ----- a run of cells w between a and b, and exchanging it for another of the same length

  lemma FlatFill(a: Layout, w: Layout, b: Layout)
    ensures Flat(Cat(a, Cat(w, b))) == Flat(a) + Flat(w) + Flat(b)
  {
    hide *;
    CatFlat(a, Cat(w, b));
    CatFlat(w, b);
  }

  lemma OkFill(a: Layout, w: Layout, v: Layout, b: Layout, at: nat, tail: nat)
    requires OnlyCells(w) && OnlyCells(v) && Len(w) == Len(v) && Ok(Cat(a, Cat(w, b)), at, tail)
    ensures Ok(Cat(a, Cat(v, b)), at, tail)
  {
    hide *;
    var o := at + Len(a);
    CatOk(a, Cat(w, b), at, tail);
    CatOk(a, Cat(v, b), at, tail);
    CatOk(w, b, o, tail);
    CatOk(v, b, o, tail);
    CellsFacts(w, o, 0, Run(b, tail));
    CellsFacts(v, o, 0, Run(b, tail));
  }

  lemma BinsFill(a: Layout, w: Layout, v: Layout, b: Layout, at: nat)
    requires OnlyCells(w) && OnlyCells(v) && Len(w) == Len(v)
    ensures BinOffsets(Cat(a, Cat(w, b)), at) == BinOffsets(Cat(a, Cat(v, b)), at)
  {
    hide *;
    var o := at + Len(a);
    CatBins(a, Cat(w, b), at);
    CatBins(a, Cat(v, b), at);
    CatBins(w, b, o);
    CatBins(v, b, o);
    CellsFacts(w, o, 0, 0);
    CellsFacts(v, o, 0, 0);
  }

  /** The free cells outside the run, and those in it. */
  lemma FreeFill(a: Layout, w: Layout, b: Layout, at: nat, bin: nat) returns (around: set<FreeCell>)
    requires OnlyCells(w)
    ensures Free(Cat(a, Cat(w, b)), at, bin) == around + Free(w, at + Len(a), BinAfter(a, at, bin))
    ensures around == Free(a, at, bin) + Free(b, at + Len(a) + Len(w), BinAfter(a, at, bin))
    ensures forall c :: c in around ==> c.offset < at + Len(a) || at + Len(a) + Len(w) <= c.offset
  {
    hide *;
    var o, here := at + Len(a), BinAfter(a, at, bin);
    CatFree(a, Cat(w, b), at, bin);
    CatFree(w, b, o, here);
    CellsFacts(w, o, here, 0);
    FreeBounds(a, at, bin);
    FreeBounds(b, o + Len(w), here);
    around := Free(a, at, bin) + Free(b, o + Len(w), here);
  }

  /** The live cells outside the run, and those in it. */
  lemma LiveFill(a: Layout, w: Layout, b: Layout, at: nat, header: nat) returns (around: Live)
    requires BASE <= at && 4 <= header
    ensures LiveOf(Cat(a, Cat(w, b)), at, header) == around + LiveOf(w, at + Len(a), header)
    ensures around == LiveOf(b, at + Len(a) + Len(w), header) + LiveOf(a, at, header)
    ensures forall k :: k in around ==> BASE + k < at + Len(a) || at + Len(a) + Len(w) <= BASE + k
  {
    hide *;
    var o := at + Len(a);
    CatLive(a, Cat(w, b), at, header);
    CatLive(w, b, o, header);
    LiveBounds(a, at, header);
    LiveBounds(w, o, header);
    LiveBounds(b, o + Len(w), header);
    around := LiveOf(b, o + Len(w), header) + LiveOf(a, at, header);
  }

  lemma LinkedFill(a: Layout, w: Layout, b: Layout, at: nat, bin: nat, previous: int)
    requires OnlyCells(w)
    ensures Linked(Cat(a, Cat(w, b)), at, bin, previous) <==>
            var o, here, link := at + Len(a), BinAfter(a, at, bin), LinkAfter(a, at, bin, previous);
            && Linked(a, at, bin, previous) && Linked(w, o, here, link)
            && Linked(b, o + Len(w), here, LinkAfter(w, o, here, link))
  {
    hide *;
    var o, here := at + Len(a), BinAfter(a, at, bin);
    CatLinked(a, Cat(w, b), at, bin, previous);
    CatLinked(w, b, o, here, LinkAfter(a, at, bin, previous));
    CellsFacts(w, o, here, 0);
  }

  // ----- finding a cell again

  lemma {:induction false} LocateFree(x: Layout, at: nat, bin: nat, c: FreeCell) returns (a: Layout, rest: bytes, b: Layout)
    requires c in Free(x, at, bin)
    ensures x == Cat(a, Cell(true, rest, b)) && 4 + |rest| == c.size
    ensures c.offset == at + Len(a) && BinAfter(a, at, bin) == c.bin
  {
    match x
    case Bin(h, n) =>
      a, rest, b := LocateFree(n, at + |h|, at, c);
      a := Bin(h, a);
    case Cell(f, r, n) =>
      if f && c == FreeCell(at, bin, 4 + |r|) {
        a, rest, b := End, r, n;
      } else {
        a, rest, b := LocateFree(n, at + 4 + |r|, bin, c);
        a := Cell(f, r, a);
      }
  }

  lemma {:induction false} LocateLive(x: Layout, at: nat, header: nat, k: nat) returns (a: Layout, rest: bytes, b: Layout)
    requires BASE <= at && 4 <= header && k in LiveOf(x, at, header)
    ensures x == Cat(a, Cell(false, rest, b)) && header <= 4 + |rest|
    ensures BASE + k == at + Len(a) && LiveOf(x, at, header)[k] == rest[header - 4..]
  {
    match x
    case Bin(h, n) =>
      a, rest, b := LocateLive(n, at + |h|, header, k);
      a := Bin(h, a);
    case Cell(f, r, n) =>
      LiveBounds(n, at + 4 + |r|, header);
      if !f && header <= 4 + |r| && BASE + k == at {
        a, rest, b := End, r, n;
      } else {
        a, rest, b := LocateLive(n, at + 4 + |r|, header, k);
        a := Cell(f, r, a);
      }
  }

  // ----- the scan, on bytes alone

  function Extent(s: bytes): nat
    requires 4 <= |s|
  {
    if S32(s, 0) < 0 then -S32(s, 0) else S32(s, 0)
  }

  /** The scan of a bin goes on only over a cell that has a header and stays inside the bin. */
  predicate CellFits(s: bytes) { 4 <= |s| && 8 <= Extent(s) <= |s| }

  ghost function ScanCells(s: bytes, at: nat, bin: nat): set<FreeCell>
    decreases |s|
  {
    if !CellFits(s) then {}
    else (if S32(s, 0) > 0 then {FreeCell(at, bin, Extent(s))} else {}) + ScanCells(s[Extent(s)..], at + Extent(s), bin)
  }

  predicate BinFits(s: bytes) { HEADER <= |s| && s[..4] == HBIN && 0 < U32(s, 8) <= |s| }

  function BinCells(s: bytes): bytes
    requires BinFits(s)
  {
    if U32(s, 8) < HEADER then [] else s[HEADER..U32(s, 8)]
  }

  /** The free cells that a scan of all bins collects. */
  ghost function Scan(s: bytes, at: nat): set<FreeCell>
    decreases |s|
  {
    if !BinFits(s) then {} else ScanCells(BinCells(s), at + HEADER, at) + Scan(s[U32(s, 8)..], at + U32(s, 8))
  }

  ghost function ScanOffsets(s: bytes, at: nat): seq<nat>
    decreases |s|
  {
    if !BinFits(s) then [] else [at] + ScanOffsets(s[U32(s, 8)..], at + U32(s, 8))
  }

  /** The same scan of bytes that are longer or shorter than the image says it is: it goes on while the image says there is a bin. */
  ghost function ScanTo(s: bytes, at: nat, left: int): set<FreeCell>
    decreases |s|
  {
    if left < HEADER || !BinFits(s) then {} else ScanCells(BinCells(s), at + HEADER, at) + ScanTo(s[U32(s, 8)..], at + U32(s, 8),
        left - U32(s, 8))
  }

  ghost function ScanOffsetsTo(s: bytes, at: nat, left: int): seq<nat>
    decreases |s|
  {
    if left < HEADER || !BinFits(s) then [] else [at] + ScanOffsetsTo(s[U32(s, 8)..], at + U32(s, 8), left - U32(s, 8))
  }

  /** Bytes as long as the image says they are, or shorter, are scanned to their end. */
  lemma {:induction false} ScanWhole(s: bytes, at: nat, left: int)
    requires |s| <= left
    ensures ScanTo(s, at, left) == Scan(s, at) && ScanOffsetsTo(s, at, left) == ScanOffsets(s, at)
    decreases |s|
  {
    hide LE, ScanCells;
    if BinFits(s) { ScanWhole(s[U32(s, 8)..], at + U32(s, 8), left - U32(s, 8)); }
  }

  lemma ScanCell(f: bool, r: bytes, s: bytes, at: nat, bin: nat)
    requires SizeOk(r)
    ensures var t := SizeWord(f, r) + r + s; CellFits(t) && Extent(t) == 4 + |r| && (S32(t, 0) > 0 <==> f)
    ensures ScanCells(SizeWord(f, r) + r + s, at, bin) == (if f then {FreeCell(at, bin, 4 + |r|)} else {}) + ScanCells(s, at + 4 + |r|, bin)
  {
    hide LE, ScanCells;
    var n: int := 4 + |r|;
    var t := SizeWord(f, r) + r + s;
    S32Enc(if f then n else -n);
    U32Concat(SizeWord(f, r), r + s, 0);
    assert t == SizeWord(f, r) + (r + s);
    assert t[n..] == s;
    ScanStep(t, at, bin);
  }

  lemma ScanStep(t: bytes, at: nat, bin: nat)
    requires CellFits(t)
    ensures ScanCells(t, at, bin) == (if S32(t, 0) > 0 then {FreeCell(at, bin, Extent(t))} else {}) + ScanCells(t[Extent(t)..],
            at + Extent(t), bin)
  {
  }

  lemma {:induction false} ScanCellsFlat(w: Layout, at: nat, bin: nat)
    requires OnlyCells(w)
    ensures ScanCells(Flat(w), at, bin) == Free(w, at, bin)
  {
    hide ScanCells, SizeWord, LE;
    if w.Cell? {
      ScanCell(w.free, w.rest, Flat(w.next), at, bin);
      ScanCellsFlat(w.next, at + 4 + |w.rest|, bin);
    } else {
      NoCells(at, bin);
    }
  }

  lemma NoCells(at: nat, bin: nat)
    ensures ScanCells([], at, bin) == {}
  {
  }

  lemma ScanHead(h: bytes, w: bytes, b: bytes, at: nat)
    requires |h| == HEADER && h[..4] == HBIN && U32(h, 8) == HEADER + |w|
    ensures Scan(h + (w + b), at) == ScanCells(w, at + HEADER, at) + Scan(b, at + HEADER + |w|)
    ensures ScanOffsets(h + (w + b), at) == [at] + ScanOffsets(b, at + HEADER + |w|)
  {
    hide LE, ScanCells;
    var t := h + (w + b);
    assert t[..4] == h[..4];
    U32Concat(h, w + b, 8);
    assert BinCells(t) == w;
    assert t[U32(t, 8)..] == b;
  }

  function Front(x: Layout): Layout { if x.Cell? then Cell(x.free, x.rest, Front(x.next)) else End }

  function Back(x: Layout): Layout { if x.Cell? then Back(x.next) else x }

  lemma {:induction false} CutBin(x: Layout, at: nat)
    requires Ok(x, at, 0)
    ensures x == Cat(Front(x), Back(x)) && OnlyCells(Front(x)) && Run(x, 0) == Len(Front(x))
    ensures Ok(Back(x), at + Len(Front(x)), 0) && !Back(x).Cell? && Len(Back(x)) <= Len(x)
  {
    if x.Cell? {
      CutBin(x.next, at + 4 + |x.rest|);
    }
  }

  lemma OpenBin(h: bytes, n: Layout, at: nat, bin: nat)
    requires Ok(Bin(h, n), at, 0)
    ensures |h| == HEADER && h[..4] == HBIN && U32(h, 8) == HEADER + Run(n, 0) && Ok(n, at + HEADER, 0)
    ensures Flat(Bin(h, n)) == h + Flat(n) && Len(n) < Len(Bin(h, n))
    ensures Free(Bin(h, n), at, bin) == Free(n, at + HEADER, at)
    ensures BinOffsets(Bin(h, n), at) == [at] + BinOffsets(n, at + HEADER)
  {
  }

  lemma NoBins(at: nat, bin: nat)
    ensures Scan(Flat(End), at) == Free(End, at, bin) && ScanOffsets(Flat(End), at) == BinOffsets(End, at)
  {
  }

  /** The scan of a tiled image finds exactly the free cells and the bins of its layout. */
  lemma {:induction false} ScanFlat(x: Layout, at: nat, bin: nat)
    requires Ok(x, at, 0) && !x.Cell?
    ensures Scan(Flat(x), at) == Free(x, at, bin) && ScanOffsets(Flat(x), at) == BinOffsets(x, at)
    decreases Len(x)
  {
    hide *;
    if x.End? {
      NoBins(at, bin);
    } else {
      OpenBin(x.head, x.next, at, bin);
      CutBin(x.next, at + HEADER);
      var w, b := Front(x.next), Back(x.next);
      CatFlat(w, b);
      CatFree(w, b, at + HEADER, at);
      CatBins(w, b, at + HEADER);
      CellsFacts(w, at + HEADER, at, 0);
      ScanCellsFlat(w, at + HEADER, at);
      ScanHead(x.head, Flat(w), Flat(b), at);
      ScanFlat(b, at + HEADER + Len(w), at);
    }
  }
}
