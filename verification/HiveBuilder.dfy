/** The writer that lays out a new hive: cells are put one after another into bins,
 * a bin is closed with a free cell when the next cell does not fit, and bins larger
 * than a page are aligned to their own size by filler bins.
 */
module HiveBuilder {
  import opened Bytes
  import opened HiveLayout
  import opened HiveImage

  /** A multiple of the smallest cell. */
  predicate Whole(n: nat, legacy: bool) { if legacy then n % 16 == 0 else n % 8 == 0 }

  function AlignedSize(legacy: bool, n: nat): (r: nat)
    ensures n <= r < n + 16 && Whole(r, legacy) && (4 <= n ==> 8 <= r)
  {
    if legacy then Align(n, 16) else Align(n, 8)
  }

  // ----- one more item at the end of a layout that is still `tail` bytes short of its last bin

  lemma {:induction false} CatLinkAfter(a: Layout, b: Layout, at: nat, bin: nat, previous: int)
    ensures LinkAfter(Cat(a, b), at, bin, previous) == LinkAfter(b, at + Len(a), BinAfter(a, at, bin), LinkAfter(a, at, bin, previous))
    ensures BinAfter(Cat(a, b), at, bin) == BinAfter(b, at + Len(a), BinAfter(a, at, bin))
  {
    match a
    case End =>
    case Bin(h, n) => CatLinkAfter(n, b, at + |h|, at, NONE);
    case Cell(_, r, n) => CatLinkAfter(n, b, at + 4 + |r|, bin, at - bin);
  }

  /** The layout of a hive under construction. */
  ghost predicate Growing(x: Layout, tail: nat, legacy: bool) {
    Ok(x, BASE, tail) && !x.Cell? && (legacy ==> Linked(x, BASE, 0, NONE))
  }

  ghost function Bin0(x: Layout): nat { BinAfter(x, BASE, 0) }
  ghost function Link0(x: Layout): int { LinkAfter(x, BASE, 0, NONE) }

  lemma PushCell(x: Layout, f: bool, s: bytes, tail: nat, legacy: bool)
    requires Growing(x, 4 + |s| + tail, legacy) && SizeOk(s) && (legacy ==> U32(s, 0) == Link0(x))
    requires x.Bin?
    ensures var y := Cat(x, Cell(f, s, End));
            && Growing(y, tail, legacy) && y.Bin? && Flat(y) == Flat(x) + (SizeWord(f, s) + s)
            && Bin0(y) == Bin0(x) && Link0(y) == BASE + Len(x) - Bin0(x)
  {
    hide Cat, Ok, Linked, Flat, Len, BinAfter, LinkAfter, LE, Run;
    var c := Cell(f, s, End);
    OneView(f, s, BASE + Len(x), tail, Bin0(x), Link0(x));
    CatOk(x, c, BASE, tail);
    CatLinked(x, c, BASE, 0, NONE);
    CatLinkAfter(x, c, BASE, 0, NONE);
    CatFlat(x, c);
    OneCell(f, s, End);
    BinFirst(x, c);
  }

  lemma OneView(f: bool, s: bytes, at: nat, tail: nat, bin: nat, link: int)
    requires SizeOk(s)
    ensures var c := Cell(f, s, End);
            && Run(c, tail) == 4 + |s| + tail && Ok(c, at, tail) && BinAfter(c, at, bin) == bin && LinkAfter(c, at, bin, link) == at - bin
            && (U32(s, 0) == link ==> Linked(c, at, bin, link))
  {
  }

  lemma PushLive(x: Layout, f: bool, s: bytes, header: nat)
    requires 4 <= header <= 8 && SizeOk(s)
    ensures Len(x) !in LiveOf(x, BASE, header)
    ensures LiveOf(Cat(x, Cell(f, s, End)), BASE, header) == if f then LiveOf(x, BASE, header) else LiveOf(x, BASE,
            header)[Len(x) := s[header - 4..]]
  {
    hide Cat, LiveOf, Len;
    CatLive(x, Cell(f, s, End), BASE, header);
    LiveOne(f, s, BASE + Len(x), header);
    LiveBounds(x, BASE, header);
  }

  lemma PushHead(x: Layout, h: bytes, tail: nat, legacy: bool, header: nat)
    requires Growing(x, 0, legacy) && HeadOk(h, BASE + Len(x), tail) && 4 <= header
    ensures var y := Cat(x, Bin(h, End));
            && Growing(y, tail, legacy) && y.Bin? && Flat(y) == Flat(x) + h
            && Bin0(y) == BASE + Len(x) && Link0(y) == NONE && LiveOf(y, BASE, header) == LiveOf(x, BASE, header)
  {
    hide Cat, Ok, Linked, Flat, Len, BinAfter, LinkAfter, LE, Run, LiveOf;
    var b := Bin(h, End);
    HeadView(h, BASE + Len(x), tail, Bin0(x), Link0(x), header);
    CatOk(x, b, BASE, tail);
    CatLinked(x, b, BASE, 0, NONE);
    CatLinkAfter(x, b, BASE, 0, NONE);
    CatFlat(x, b);
    CatLive(x, b, BASE, header);
    HeadFirst(x, h);
  }

  lemma HeadFirst(x: Layout, h: bytes)
    requires !x.Cell?
    ensures Cat(x, Bin(h, End)).Bin?
  {
  }

  lemma HeadView(h: bytes, at: nat, tail: nat, bin: nat, link: int, header: nat)
    requires HeadOk(h, at, tail) && 4 <= header
    ensures var b := Bin(h, End);
            && Run(b, tail) == 0 && Ok(b, at, tail) && BinAfter(b, at, bin) == at && LinkAfter(b, at, bin, link) == NONE
            && Linked(b, at, bin, link) && Flat(b) == h && LiveOf(b, at, header) == map[]
  {
    assert h + [] == h;
  }

  lemma MulMono(a: nat, b: nat, m: nat)
    ensures a <= b ==> a * m <= b * m
  {
  }

  lemma ModUnique(n: nat, m: nat, q: nat, r: nat)
    requires r < m && n == q * m + r
    ensures n % m == r
  {
    MulMono(n / m + 1, q, m);
    MulMono(q + 1, n / m, m);
  }

  lemma PageMod(a: nat, k: nat)
    requires 0 < k
    ensures (0x1000 * a) % (0x1000 * k) == 0x1000 * (a % k)
  {
    var q := a / k;
    assert a == q * k + a % k;
    assert q * (0x1000 * k) == 0x1000 * (q * k);
    ModUnique(0x1000 * a, 0x1000 * k, q, 0x1000 * (a % k));
  }

  lemma NextMod(a: nat, k: nat)
    requires 0 < k
    ensures (a + 1) % k == if a % k + 1 == k then 0 else a % k + 1
  {
    var q := a / k;
    assert a == q * k + a % k;
    assert (q + 1) * k == q * k + k;
    if a % k + 1 == k { ModUnique(a + 1, k, q + 1, 0); } else { ModUnique(a + 1, k, q, a % k + 1); }
  }

  /** Adding a page to a multiple of a page, modulo another such multiple. */
  lemma PageStep(n: nat, m: nat)
    requires m > 0 && n % 0x1000 == 0 && m % 0x1000 == 0
    ensures n % m + 0x1000 <= m && (n + 0x1000) % m == if n % m + 0x1000 == m then 0 else n % m + 0x1000
  {
    var a, k := n / 0x1000, m / 0x1000;
    PageMod(a, k);
    PageMod(a + 1, k);
    NextMod(a, k);
  }

  /** Writing a cell over the zeros at the end. */
  lemma SpliceTail(f: bytes, tail: nat, w: bytes)
    requires |w| <= tail
    ensures Splice(f + Zeros(tail), |f|, w) == (f + w) + Zeros(tail - |w|)
  {
    var d := f + Zeros(tail);
    assert d[..|f|] == f;
    assert d[|f| + |w|..] == Zeros(tail - |w|);
  }

  /** The same, when the end of the new cell is itself zeros that are already there. */
  lemma SpliceTailZeros(f: bytes, tail: nat, w: bytes)
    requires |w| <= tail
    ensures Splice(f + Zeros(tail), |f|, w) == f + (w + Zeros(tail - |w|))
  {
    SpliceTail(f, tail, w);
  }

  lemma PageTail(n: nat, m: nat, legacy: bool)
    requires n % 0x1000 == 0 && m % 0x1000 == 0
    ensures (n + m) % 0x1000 == 0 && (0x20 <= m ==> Whole(m - 0x20, legacy))
  {
  }

  lemma TailLess(a: nat, b: nat, legacy: bool)
    requires b <= a && Whole(a, legacy) && Whole(b, legacy)
    ensures Whole(a - b, legacy)
  {
  }

  /** The bytes of a new cell after its size word. */
  function CellRest(legacy: bool, link: int, body: bytes, size: nat): (s: bytes)
    requires Header(legacy) + |body| <= size
    ensures |s| == size - 4
  {
    (if legacy then Enc32(link) else []) + Stored(legacy, body, size)
  }

  lemma WriteEdit(data: bytes, x: Layout, tail: nat, legacy: bool, link: int, body: bytes, size: nat) returns (y: Layout)
    requires Growing(x, tail, legacy) && x.Bin? && data == Flat(x) + Zeros(tail) && Header(legacy) + |body| <= size <= tail
    requires 8 <= size < LIMIT && (legacy ==> link == Link0(x) && 0 <= link < 0x1_0000_0000)
    ensures Growing(y, tail - size, legacy) && y.Bin? && Len(x) + size <= |data| && Len(y) == Len(x) + size
    ensures Splice(data, Len(x), Enc32(-(size as int)) + CellRest(legacy, link, body, size)) == Flat(y) + Zeros(tail - size)
    ensures Bin0(y) == Bin0(x) && Link0(y) == BASE + Len(x) - Bin0(x)
    ensures Len(x) !in LiveOf(x, BASE, Header(legacy))
    ensures LiveOf(y, BASE, Header(legacy)) == LiveOf(x, BASE, Header(legacy))[Len(x) := Stored(legacy, body, size)]
  {
    hide LiveOf, Flat, Len, Growing, Bin0, Link0, Stored, Splice, Cat, LE;
    var s := CellRest(legacy, link, body, size);
    if legacy { ReadLink(link, Stored(legacy, body, size)); }
    PushCell(x, false, s, tail - size, legacy);
    PushLive(x, false, s, Header(legacy));
    assert s[Header(legacy) - 4..] == Stored(legacy, body, size);
    SpliceTail(Flat(x), tail, SizeWord(false, s) + s);
    y := Cat(x, Cell(false, s, End));
  }

  lemma PatchShape(a: Layout, r: bytes, s: bytes, b: Layout, tail: nat, legacy: bool)
    requires Growing(Cat(a, Cell(false, r, b)), tail, legacy) && |r| == |s| && (legacy ==> 4 <= |r| && s[..4] == r[..4])
    ensures var x, y := Cat(a, Cell(false, r, b)), Cat(a, Cell(false, s, b));
            && SizeOk(r) && Growing(y, tail, legacy) && x.Bin? && y.Bin? && Bin0(y) == Bin0(x) && Link0(y) == Link0(x)
            && Flat(x) == Flat(a) + (SizeWord(false, r) + r) + Flat(b) && Flat(y) == Flat(a) + (SizeWord(false, s) + s) + Flat(b)
  {
    hide Cat, Ok, Linked, Flat, Len, LE, Run, OnlyCells, BinAfter, LinkAfter;
    PrefixBin(a, false, r, b);
    SizeAt(a, false, r, b, BASE, tail);
    var w, v := Cell(false, r, End), Cell(false, s, End);
    OneCell(false, r, b); OneCell(false, s, b);
    SingleCell(false, r); SingleCell(false, s);
    OkFill(a, w, v, b, BASE, tail);
    BinFirst(a, Cell(false, r, b)); BinFirst(a, Cell(false, s, b));
    FlatFill(a, w, b); FlatFill(a, v, b);
    if legacy {
      LinkedFill(a, w, b, BASE, 0, NONE);
      RecellLink(false, r, false, s, BASE + Len(a), BinAfter(a, BASE, 0), LinkAfter(a, BASE, 0, NONE));
      ExchangeLinks(a, w, v, b);
    }
    CatLinkAfter(a, Cell(false, r, b), BASE, 0, NONE);
    CatLinkAfter(a, Cell(false, s, b), BASE, 0, NONE);
    SameAfter(r, s, b, BASE + Len(a), BinAfter(a, BASE, 0), LinkAfter(a, BASE, 0, NONE));
  }

  lemma SameAfter(r: bytes, s: bytes, b: Layout, at: nat, bin: nat, link: int)
    requires |r| == |s|
    ensures BinAfter(Cell(false, r, b), at, bin) == BinAfter(Cell(false, s, b), at, bin)
    ensures LinkAfter(Cell(false, r, b), at, bin, link) == LinkAfter(Cell(false, s, b), at, bin, link)
  {
  }

  lemma PatchEdit(data: bytes, x: Layout, tail: nat, legacy: bool, k: nat, o: nat, w: bytes) returns (y: Layout)
    requires Growing(x, tail, legacy) && data == Flat(x) + Zeros(tail)
    requires k in LiveOf(x, BASE, Header(legacy)) && o + |w| <= |LiveOf(x, BASE, Header(legacy))[k]|
    ensures k + Header(legacy) + o + |w| <= |data| && Len(y) == Len(x)
    ensures Splice(data, k + Header(legacy) + o, w) == Flat(y) + Zeros(tail)
    ensures Growing(y, tail, legacy) && x.Bin? && y.Bin? && Bin0(y) == Bin0(x) && Link0(y) == Link0(x)
    ensures LiveOf(y, BASE, Header(legacy)) == LiveOf(x, BASE, Header(legacy))[k := Splice(LiveOf(x, BASE, Header(legacy))[k], o, w)]
  {
    hide Cat, LE, LiveOf, Growing, Flat, Len, Bin0, Link0, Splice;
    var h := Header(legacy);
    var a, r, b := LocateLive(x, BASE, h, k);
    var s := Splice(r, h - 4 + o, w);
    PatchRest(r, h - 4, o, w);
    PatchShape(a, r, s, b, tail, legacy);
    RecellLive(a, false, r, false, s, b, h);
    y := Cat(a, Cell(false, s, b));
    PatchBytes(Flat(a), SizeWord(false, r), r, Flat(b), Zeros(tail), h - 4 + o, w);
  }

  lemma PatchRest(r: bytes, skip: nat, o: nat, w: bytes)
    requires skip + o + |w| <= |r|
    ensures Splice(r, skip + o, w)[skip..] == Splice(r[skip..], o, w) && Splice(r, skip + o, w)[..skip] == r[..skip]
  {
  }

  lemma PatchBytes(a: bytes, head: bytes, r: bytes, b: bytes, z: bytes, i: nat, w: bytes)
    requires i + |w| <= |r|
    ensures Splice(a + (head + r) + b + z, |a| + |head| + i, w) == a + (head + Splice(r, i, w)) + b + z
  {
  }

  class Writer {
    var data: bytes
    const legacy: bool
    var binStart: nat
    var binEnd: nat
    var cellOffset: nat
    var previousCell: int
    ghost var layout: Layout
    ghost var tail: nat

    /** The bytes written so far are a layout followed by the zeros of an unfinished bin. */
    ghost predicate Valid()
      reads this
    {
      && Growing(layout, tail, legacy) && data == Flat(layout) + Zeros(tail)
      && |data| % 0x1000 == 0 && BASE + |data| <= LIMIT && previousCell <= |data|
      && (tail == 0 ==> cellOffset == 0 || cellOffset >= binEnd)
      && (tail > 0 ==>
            && layout.Bin? && binStart < cellOffset == Len(layout) && binEnd == |data| && Bin0(layout) == BASE + binStart
            && Whole(tail, legacy) && (legacy ==> Link0(layout) == PreviousLink()))
    }

    function PreviousLink(): int
      reads this
    {
      if previousCell >= binStart then previousCell - binStart else NONE
    }

    ghost function Live(): Live
      reads this
    {
      LiveOf(layout, BASE, Header(legacy))
    }

    constructor (legacy: bool)
      ensures Valid() && Live() == map[] && data == [] && this.legacy == legacy
    {
      this.legacy, data, binStart, binEnd, cellOffset, previousCell := legacy, [], 0, 0, 0, 0;
      layout, tail := End, 0;
    }

    /** Closes the bin: what is left of it becomes one free cell. */
    method FinishBin()
      requires Valid()
      modifies this
      ensures Valid() && tail == 0 && Live() == old(Live()) && |data| == |old(data)|
    {
      hide LiveOf, Linked, LE, Ok, Flat, Cat, BinAfter, LinkAfter, Splice, Len;
      if cellOffset == 0 || cellOffset >= binEnd {
        return;
      }
      var remaining := binEnd - cellOffset;
      ghost var zeros := Zeros(remaining - Header(legacy));
      ghost var s := (if legacy then Enc32(PreviousLink()) else []) + zeros;
      if legacy { ReadLink(PreviousLink(), zeros); }
      PushCell(layout, true, s, 0, legacy);
      PushLive(layout, true, s, Header(legacy));
      if legacy {
        SpliceTailZeros(Flat(layout), tail, Enc32(remaining) + Enc32(PreviousLink()));
        data := Splice(data, cellOffset, Enc32(remaining) + Enc32(PreviousLink()));
      } else {
        SpliceTailZeros(Flat(layout), tail, Enc32(remaining));
        data := Splice(data, cellOffset, Enc32(remaining));
      }
      layout, tail := Cat(layout, Cell(true, s, End)), 0;
      assert data == Flat(layout) + Zeros(0);
      cellOffset, binStart, binEnd, previousCell := 0, 0, 0, -1;
    }

    /** Appends one page that is a single free cell. */
    method AppendEmptyBin()
      requires Valid() && tail == 0 && BASE + |data| + 0x1000 <= LIMIT
      modifies this`data, this`layout
      ensures Valid() && Live() == old(Live()) && |data| == |old(data)| + 0x1000
    {
      hide LiveOf, Linked, LE, Ok, Flat, Cat, BinAfter, LinkAfter, Splice, Len, NewHead, HeadOk;
      var at := BASE + |data|;
      assert Flat(layout) + Zeros(0) == Flat(layout);
      NewHeadOk(legacy, at, 0x1000);
      PushHead(layout, NewHead(legacy, at, 0x1000), 0x1000 - 0x20, legacy, Header(legacy));
      ghost var begun := Cat(layout, Bin(NewHead(legacy, at, 0x1000), End));
      var s := (if legacy then Enc32(NONE) else []) + Zeros(0x1000 - 0x20 - Header(legacy));
      if legacy { ReadLink(NONE, Zeros(0x1000 - 0x20 - 8)); }
      PushCell(begun, true, s, 0, legacy);
      PushLive(begun, true, s, Header(legacy));
      data := data + NewHead(legacy, at, 0x1000) + (Enc32(0x1000 - 0x20) + s);
      layout := Cat(begun, Cell(true, s, End));
      assert data == Flat(layout) + Zeros(0);
    }

    /** Fills up with empty bins to a multiple of a bin size. */
    method AlignTo(binSize: nat)
      requires Valid() && tail == 0 && 0 < binSize && binSize % 0x1000 == 0 && BASE + |data| + binSize <= LIMIT
      modifies this`data, this`layout
      ensures Valid() && Live() == old(Live()) && |data| % binSize == 0 && |data| <= |old(data)| + binSize
    {
      hide Growing, Flat, LiveOf, Len, Bin0, Link0;
      ghost var first := |data| % binSize;
      ghost var phase := first;
      while |data| % binSize != 0
        invariant Valid() && Live() == old(Live())
        invariant phase == |data| % binSize && first <= binSize
        invariant if phase == 0 then |data| <= |old(data)| + binSize else |data| - |old(data)| == phase - first
        decreases if phase == 0 then 0 else binSize - phase
      {
        PageStep(|data|, binSize);
        AppendEmptyBin();
        phase := |data| % binSize;
      }
    }

    /** Opens a bin with room for a cell of the needed size, at a multiple of the bin's own size. */
    method StartBin(needed: nat)
      requires Valid() && tail == 0 && 8 <= needed && Whole(needed, legacy)
      requires BASE + |data| + 2 * Align(0x20 + needed, 0x1000) <= LIMIT
      modifies this
      ensures Valid() && Live() == old(Live()) && tail > 0 && needed <= tail
      ensures |data| <= |old(data)| + 2 * Align(0x20 + needed, 0x1000)
    {
      hide LiveOf, Linked, LE, Ok, Flat, Cat, BinAfter, LinkAfter, Splice, Len, NewHead, HeadOk, Growing, Bin0, Link0, Whole, Align;
      var binSize := Align(0x20 + needed, 0x1000);
      AlignTo(binSize);
      PageTail(|data|, binSize, legacy);
      var at := BASE + |data|;
      assert Flat(layout) + Zeros(0) == Flat(layout);
      NewHeadOk(legacy, at, binSize);
      PushHead(layout, NewHead(legacy, at, binSize), binSize - 0x20, legacy, Header(legacy));
      binStart, binEnd := |data|, |data| + binSize;
      data := data + NewHead(legacy, at, binSize) + Zeros(binSize - 0x20);
      cellOffset, previousCell := binStart + 0x20, -1;
      layout, tail := Cat(layout, Bin(NewHead(legacy, at, binSize), End)), binSize - 0x20;
    }

    /** The number of the cell the next body of this size will get, opening a bin if it does not fit. */
    method NextCell(bodySize: nat) returns (cell: nat)
      requires Valid() && BASE + |data| + 2 * Align(0x20 + AlignedSize(legacy, bodySize + Header(legacy)), 0x1000) <= LIMIT
      modifies this
      ensures Valid() && Live() == old(Live()) && cell == cellOffset && AlignedSize(legacy, bodySize + Header(legacy)) <= tail
      ensures |data| <= |old(data)| + 2 * Align(0x20 + AlignedSize(legacy, bodySize + Header(legacy)), 0x1000)
    {
      hide LiveOf, Flat, Len, Growing, Bin0, Link0, Align;
      var needed := AlignedSize(legacy, bodySize + Header(legacy));
      if cellOffset == 0 || cellOffset + needed > binEnd {
        FinishBin();
        StartBin(needed);
      }
      cell := cellOffset;
    }

    /** Writes a cell and returns its number. */
    method WriteCell(body: bytes) returns (cell: nat, ghost stored: bytes)
      requires Valid() && BASE + |data| + 2 * Align(0x20 + AlignedSize(legacy, |body| + Header(legacy)), 0x1000) <= LIMIT
      modifies this
      ensures Valid() && cell !in old(Live()) && Live() == old(Live())[cell := stored]
      ensures stored == Stored(legacy, body, AlignedSize(legacy, |body| + Header(legacy)))
      ensures |data| <= |old(data)| + 2 * Align(0x20 + AlignedSize(legacy, |body| + Header(legacy)), 0x1000)
    {
      hide LiveOf, Flat, Len, Growing, Bin0, Link0, Align, Stored, Splice, Cat, LE, Whole, AlignedSize, CellRest;
      var size := AlignedSize(legacy, |body| + Header(legacy));
      cell := NextCell(|body|);
      TailLess(tail, size, legacy);
      stored := Stored(legacy, body, size);
      ghost var y := WriteEdit(data, layout, tail, legacy, PreviousLink(), body, size);
      data := Splice(data, cellOffset, Enc32(-(size as int)) + CellRest(legacy, PreviousLink(), body, size));
      previousCell := cellOffset;
      cellOffset := cellOffset + size;
      layout, tail := y, tail - size;
    }

    /** Overwrites part of the body of a cell already written. */
    method Patch(cell: nat, o: nat, w: bytes)
      requires Valid() && cell in Live() && o + |w| <= |Live()[cell]|
      modifies this`data, this`layout
      ensures Valid() && Live() == old(Live())[cell := Splice(old(Live())[cell], o, w)] && |data| == |old(data)|
    {
      hide LiveOf, Flat, Len, Growing, Bin0, Link0, Splice, LE, Whole;
      ghost var y := PatchEdit(data, layout, tail, legacy, cell, o, w);
      data := Splice(data, cell + Header(legacy) + o, w);
      layout := y;
    }

    /** The finished hive: a base block in front of the bins. */
    method Finish(base: bytes) returns (image: bytes)
      requires Valid() && |base| == BASE
      modifies this
      ensures Live() == old(Live()) && Image(image, layout, legacy) && image[BASE..] == data && image[..0x28] == base[..0x28]
              && |image| == BASE + |old(data)|
    {
      hide LiveOf, Flat, Len, LE, Ok, Linked;
      FinishBin();
      image := Put32(base, 0x28, |data|) + data;
      assert Flat(layout) + Zeros(0) == Flat(layout);
      U32Enc(|data|);
      SpliceAt(base, 0x28, Enc32(|data|));
      U32Concat(Put32(base, 0x28, |data|), data, 0x28);
      ImageFrom(image, layout, legacy);
      SpliceBefore(base, 0x28, Enc32(|data|), 0, 0x28);
    }

    /** Cell numbers fit in a signed 32-bit word. */
    lemma CellsBelow()
      requires Valid()
      ensures forall k :: k in Live() ==> k + BASE < LIMIT
    {
      hide LE, Linked, Ok, LiveOf, Free;
      LiveBounds(layout, BASE, Header(legacy));
    }
  }

  lemma ReadLink(link: int, more: bytes)
    requires 0 <= link < 0x1_0000_0000
    ensures U32(Enc32(link) + more, 0) == link
  {
    hide LE;
    U32Concat(Enc32(link), more, 0);
    assert Enc32(link)[0..4] == Enc32(link);
    U32Enc(link);
  }
}
