/** The hive cell store: reading, allocating, freeing and overwriting cells of an
 * image that is edited in place.
 *
 * Every operation is stated on `Live()`, the map from cell numbers to bodies, and
 * keeps `Valid()`: the bytes stay exactly tiled by bins and cells, format 1.1 keeps
 * its backward links, and the free-cell index stays equal to what a fresh scan of
 * the bytes collects.
 */
module MutableHive {
  import opened Bytes
  import opened FreeIndex
  import opened HiveLayout
  import opened HiveImage

  datatype Error = Outside | Freed | BadSize | NotAllocated | MissingBin | Malformed
  datatype Result<+T> = Success(value: T) | Failure(error: Error)

  /** The body of a cell, for any bytes and any cell number. */
  function CellBody(data: bytes, legacy: bool, cell: nat): Result<bytes> {
    var offset := BASE + cell;
    if offset + 4 > |data| then Failure(Outside)
    else
      var size := S32(data, offset);
      if size >= 0 then Failure(Freed)
      // The 32-bit negation of the smallest integer is itself.
      else if size == -0x8000_0000 || -size < Header(legacy) || offset - size > |data| then Failure(BadSize)
      else Success(data[offset + Header(legacy)..offset - size])
  }

  /** In a tiled image every live cell reads as its body, and every free one fails as free. */
  lemma CellBodyOfImage(data: bytes, x: Layout, legacy: bool, cell: nat)
    requires Image(data, x, legacy)
    ensures cell in LiveCells(x, legacy) ==> CellBody(data, legacy, cell) == Success(LiveCells(x, legacy)[cell])
    ensures (exists c :: c in FreeSet(x) && c.offset == BASE + cell) ==> CellBody(data, legacy, cell) == Failure(Freed)
  {
    hide Image, Free, LiveOf, Len, Cat, BinAfter, LE;
    if cell in LiveCells(x, legacy) {
      var a, r, b := LocateLive(x, BASE, Header(legacy), cell);
      CellAt(data, a, false, r, b, legacy);
      var o, h := BASE + cell, Header(legacy);
      assert data[o + h..o + 4 + |r|] == data[o + 4..o + 4 + |r|][h - 4..];
    }
    if c :| c in FreeSet(x) && c.offset == BASE + cell {
      var a, r, b := LocateFree(x, BASE, 0, c);
      CellAt(data, a, true, r, b, legacy);
    }
  }

  lemma LiveIsNegative(data: bytes, x: Layout, legacy: bool, cell: nat)
    requires Image(data, x, legacy)
    ensures cell in LiveCells(x, legacy) ==> BASE + cell + 4 <= |data| && S32(data, BASE + cell) < 0
  {
    hide Image, LiveCells, LE;
    CellBodyOfImage(data, x, legacy, cell);
  }

  /** Writing behind the base block keeps the number of the root cell. */
  lemma RootKept(data: bytes, o: nat, w: bytes)
    requires BASE <= o && o + |w| <= |data|
    ensures U32(Splice(data, o, w), 0x24) == U32(data, 0x24)
  {
    hide LE;
    SpliceBefore(data, o, w, 0x24, 0x28);
  }

  function MinimumFree(legacy: bool): nat { if legacy then 16 else 8 }

  function Needed(legacy: bool, body: bytes): (n: nat)
    ensures Header(legacy) + |body| <= n && 8 <= n
  {
    if legacy then Align(|body| + Header(legacy), 16) else Align(|body| + Header(legacy), 8)
  }

  /** A body never needs more than its size and two pages. */
  lemma RoomFor(legacy: bool, body: bytes)
    ensures Align(Needed(legacy, body) + 0x20, 0x1000) <= |body| + 0x1040
  {
  }

  /** How much of a piece of the given size an allocation uses. */
  function Used(legacy: bool, needed: nat, size: nat): (u: nat)
    requires needed <= size
    ensures needed <= u <= size && (u == size || u + MinimumFree(legacy) <= size)
  {
    if size - needed < MinimumFree(legacy) then size else needed
  }

  // ----- the scan that builds the index

  /** One step of the scan of a bin, read at its place in the image. */
  lemma ScanAt(data: bytes, at: nat, end: nat, bin: nat)
    requires at <= end <= |data|
    ensures end < at + 4 ==> ScanCells(data[at..end], at, bin) == {}
    ensures at + 4 <= end ==>
              var raw := S32(data, at); var size := if raw < 0 then -raw else raw;
              ScanCells(data[at..end], at, bin) ==
                if size < 8 || size > end - at then {}
                else (if raw > 0 then {FreeCell(at, bin, size)} else {}) + ScanCells(data[at + size..end], at + size, bin)
  {
    hide LE;
    var s := data[at..end];
    if at + 4 <= end {
      assert s[0..4] == data[at..at + 4];
      if CellFits(s) {
        assert s[Extent(s)..] == data[at + Extent(s)..end];
        ScanStep(s, at, bin);
      }
    }
  }

  lemma AddNew(cells: set<FreeCell>, at: nat)
    requires forall c :: c in cells ==> c.offset < at
    ensures Without(cells, at) == cells
  {
  }

  /** Collects the free cells of one bin. */
  method IndexBin(data: bytes, f: Index, bin: nat, start: nat, end: nat)
    requires f.Valid() && start <= end <= |data|
    requires forall c :: c in f.FreeCells() ==> c.offset < start
    modifies f.Repr
    ensures f.Valid() && fresh(f.Repr - old(f.Repr)) && f.bins == old(f.bins)
    ensures f.FreeCells() == old(f.FreeCells()) + ScanCells(data[start..end], start, bin)
    ensures forall c :: c in f.FreeCells() ==> c.offset < end
  {
    hide *;
    var at := start;
    ghost var goal := f.FreeCells() + ScanCells(data[at..end], at, bin);
    ScanAt(data, at, end, bin);
    while at + 4 <= end
      invariant at <= end && f.Valid() && fresh(f.Repr - old(f.Repr)) && f.bins == old(f.bins)
      invariant f.FreeCells() + ScanCells(data[at..end], at, bin) == goal
      invariant forall c :: c in f.FreeCells() ==> c.offset < at
      invariant end < at + 4 ==> ScanCells(data[at..end], at, bin) == {}
    {
      ScanAt(data, at, end, bin);
      var raw := S32(data, at);
      var size := if raw < 0 then -raw else raw;
      if size < 8 || size > end - at {
        break;
      }
      if raw > 0 {
        AddNew(f.FreeCells(), at);
        f.Add(bin, at, size);
      }
      at := at + size;
      ScanAt(data, at, end, bin);
    }
  }

  /** One step of the scan of the bins. */
  lemma ScanBinAt(data: bytes, at: nat, left: int)
    requires BASE <= at <= |data|
    ensures BASE == 0x1000 && HEADER == 0x20
    ensures |data| < at + HEADER || left < HEADER ==> ScanTo(data[at..], at, left) == {} && ScanOffsetsTo(data[at..], at, left) == []
    ensures at + HEADER <= |data| && HEADER <= left ==>
              var size := U32(data, at + 8);
              if data[at..at + 4] != HBIN || size == 0 || size > |data| - at then ScanTo(data[at..], at, left) == {}
                  && ScanOffsetsTo(data[at..], at, left) == []
              else
                && ScanTo(data[at..], at, left) == (if size < HEADER then {} else ScanCells(data[at + HEADER..at + size], at + HEADER,
                    at)) + ScanTo(data[at + size..], at + size, left - size)
                && ScanOffsetsTo(data[at..], at, left) == [at] + ScanOffsetsTo(data[at + size..], at + size, left - size)
  {
    hide LE;
    var s := data[at..];
    if at + HEADER <= |data| {
      var size := U32(data, at + 8);
      assert s[8..12] == data[at + 8..at + 12];
      assert s[..4] == data[at..at + 4];
      if BinFits(s) {
        assert s[size..] == data[at + size..];
        if HEADER <= size { assert s[HEADER..size] == data[at + HEADER..at + size]; }
        else { NoCells(at + HEADER, at); }
      }
    }
  }

  /** Builds the index from the bytes alone, stopping where they are not a bin or the image says there is none. */
  method IndexFreeCells(data: bytes) returns (f: Index)
    requires BASE <= |data|
    ensures f.Valid() && fresh(f.Repr)
    ensures f.FreeCells() == ScanTo(data[BASE..], BASE, U32(data, 0x28)) && f.bins == ScanOffsetsTo(data[BASE..], BASE, U32(data, 0x28))
  {
    hide *;
    ScanBinAt(data, BASE, 0);
    var hiveSize := U32(data, 0x28);
    ScanBinAt(data, BASE, hiveSize);
    f := new Index();
    var binRel := 0;
    while binRel + 0x20 <= hiveSize
      invariant BASE + binRel <= |data| && f.Valid() && fresh(f.Repr)
      invariant f.FreeCells() + ScanTo(data[BASE + binRel..], BASE + binRel, hiveSize - binRel) == ScanTo(data[BASE..], BASE, hiveSize)
      invariant f.bins + ScanOffsetsTo(data[BASE + binRel..], BASE + binRel, hiveSize - binRel) == ScanOffsetsTo(data[BASE..], BASE,
                hiveSize)
      invariant forall c :: c in f.FreeCells() ==> c.offset < BASE + binRel
      invariant hiveSize < binRel + 0x20 ==>
                  ScanTo(data[BASE + binRel..], BASE + binRel, hiveSize - binRel) == {}
                  && ScanOffsetsTo(data[BASE + binRel..], BASE + binRel, hiveSize - binRel) == []
      decreases |data| - BASE - binRel
    {
      var binOff := BASE + binRel;
      ScanBinAt(data, binOff, hiveSize - binRel);
      if binOff + 0x20 > |data| || data[binOff..binOff + 4] != HBIN {
        break;
      }
      var binSize := U32(data, binOff + 8);
      if binSize == 0 || binSize > |data| - binOff {
        break;
      }
      f.AppendBin(binOff);
      if HEADER <= binSize {
        IndexBin(data, f, binOff, binOff + HEADER, binOff + binSize);
      }
      binRel := binRel + binSize;
      ScanBinAt(data, BASE + binRel, hiveSize - binRel);
    }
  }

  /** The last bin that starts at or before an offset. */
  method BinOf(bins: seq<nat>, offset: nat, ghost lo: nat, ghost hi: nat) returns (i: int)
    requires Ascending(bins, lo, hi)
    ensures -1 <= i < |bins| && (i >= 0 ==> bins[i] <= offset) && (i + 1 < |bins| ==> offset < bins[i + 1])
  {
    var low, high := 0, |bins|;
    while low < high
      invariant 0 <= low <= high <= |bins|
      invariant low > 0 ==> bins[low - 1] <= offset
      invariant high < |bins| ==> offset < bins[high]
    {
      var mid := (low + high) / 2;
      if bins[mid] > offset { high := mid; } else { low := mid + 1; }
    }
    i := low - 1;
  }

  /** Records a freed cell under the bin it lies in. */
  method AddFreed(f: Index, offset: nat, size: nat, ghost bin: nat, ghost hi: nat)
    requires f.Valid() && Ascending(f.bins, BASE, hi) && InBin(f.bins, offset, bin)
    modifies f.Repr
    ensures f.Valid() && fresh(f.Repr - old(f.Repr)) && f.bins == old(f.bins)
    ensures f.FreeCells() == Without(old(f.FreeCells()), offset) + {FreeIndex.FreeCell(offset, bin, size)}
  {
    hide Index.Valid, Index.FreeCells, Without;
    var i := BinOf(f.bins, offset, BASE, hi);
    if i >= 0 {
      f.Add(f.bins[i], offset, size);
    }
  }

  /** Records a new bin and what is free in it. */
  method AddBin(f: Index, at: nat, used: nat, size: nat)
    requires f.Valid() && 0x20 + used <= size && Without(f.FreeCells(), at + 0x20 + used) == f.FreeCells()
    modifies f.Repr
    ensures f.Valid() && fresh(f.Repr - old(f.Repr)) && f.bins == old(f.bins) + [at]
    ensures f.FreeCells() == old(f.FreeCells()) + (if 0x20 + used == size then {} else {FreeIndex.FreeCell(at + 0x20 + used, at,
            size - 0x20 - used)})
  {
    hide Index.Valid, Index.FreeCells, Without;
    f.AppendBin(at);
    if size - 0x20 - used > 0 {
      f.Add(at, at + 0x20 + used, size - 0x20 - used);
    }
  }

  // ----- the store

  /** Where the cells of a layout start. */
  ghost function CellStarts(x: Layout, legacy: bool): set<nat> {
    LiveCells(x, legacy).Keys + set c | c in FreeSet(x) && BASE <= c.offset :: c.offset - BASE
  }

  /** No cell is ever joined with another, so where one starts one will always start. */
  lemma StartsKept(x: Layout, y: Layout, legacy: bool, o: nat)
    requires BASE <= o && Without(FreeSet(x), o) <= FreeSet(y) && LiveCells(x, legacy).Keys - {o - BASE} <= LiveCells(y, legacy).Keys
    requires o - BASE in LiveCells(y, legacy) || exists c :: c in FreeSet(y) && c.offset == o
    ensures CellStarts(x, legacy) <= CellStarts(y, legacy)
  {
    hide FreeSet, LiveCells;
    forall s | s in CellStarts(x, legacy) ensures s in CellStarts(y, legacy) {
      if s !in LiveCells(x, legacy) {
        var c :| c in FreeSet(x) && BASE <= c.offset && s == c.offset - BASE;
        assert c.offset != o ==> c in Without(FreeSet(x), o);
      }
    }
  }

  lemma StartsFreed(x: Layout, y: Layout, legacy: bool, k: nat, bin: nat, size: nat)
    requires LiveCells(y, legacy) == LiveCells(x, legacy) - {k}
             && FreeSet(y) == Without(FreeSet(x), BASE + k) + {FreeCell(BASE + k, bin, size)}
    ensures CellStarts(x, legacy) <= CellStarts(y, legacy)
  {
    hide FreeSet, LiveCells, CellStarts, Without;
    assert FreeCell(BASE + k, bin, size) in FreeSet(y);
    StartsKept(x, y, legacy, BASE + k);
  }

  lemma StartsTaken(x: Layout, y: Layout, legacy: bool, o: nat, stored: bytes, left: set<FreeCell>)
    requires Took(x, y, legacy, o, stored, left)
    ensures CellStarts(x, legacy) <= CellStarts(y, legacy)
  {
    hide FreeSet, LiveCells, CellStarts, Without;
    StartsKept(x, y, legacy, o);
  }

  lemma StartsMore(x: Layout, y: Layout, legacy: bool, k: nat, b: bytes)
    requires LiveCells(y, legacy) == LiveCells(x, legacy)[k := b] && FreeSet(x) <= FreeSet(y)
    ensures CellStarts(x, legacy) <= CellStarts(y, legacy)
  {
    hide FreeSet, LiveCells;
  }

  class Hive {
    var data: bytes
    const legacy: bool
    const root: nat
    var freeCells: Index?
    ghost var layout: Layout
    ghost var Repr: set<object>

    /** Exact tiling, backward links, and an index equal to the free cells of the layout. */
    ghost predicate Valid()
      reads this, Repr
      ensures Valid() ==> this in Repr
    {
      && this in Repr && Image(data, layout, legacy) && BASE <= |data| && U32(data, 0x24) == root
      && (freeCells != null ==>
            && freeCells in Repr && freeCells.Repr <= Repr && this !in freeCells.Repr && freeCells.Valid()
            && freeCells.FreeCells() == FreeSet(layout) && freeCells.bins == BinOffsets(layout, BASE))
    }

    /** The allocated cells and their bodies. */
    ghost function Live(): Live
      reads this
    {
      LiveCells(layout, legacy)
    }

    /** Where cells start, allocated or free. */
    ghost function Starts(): set<nat>
      reads this
    {
      CellStarts(layout, legacy)
    }

    lemma LiveStarts()
      ensures forall c :: c in Live() ==> c in Starts()
    {
      hide FreeSet, LiveCells;
    }

    /** A number where a cell starts reads as the cell, or as freed. */
    lemma StartReads(cell: nat)
      requires Valid() && cell in Starts()
      ensures CellBody(data, legacy, cell) == if cell in Live() then Success(Live()[cell]) else Failure(Freed)
    {
      hide Image, FreeSet, LiveCells, CellBody;
      CellBodyOfImage(data, layout, legacy, cell);
    }

    constructor (data: bytes, legacy: bool, ghost layout: Layout)
      requires Image(data, layout, legacy)
      ensures Valid() && fresh(Repr) && this.data == data && this.legacy == legacy && this.layout == layout && root == U32(data, 0x24)
    {
      this.data, this.legacy, this.layout, this.root := data, legacy, layout, U32(data, 0x24);
      this.freeCells, this.Repr := null, {this};
    }

    /** Cell numbers fit in a signed 32-bit word. */
    lemma CellsBelow()
      requires Valid()
      ensures forall k :: k in Live() ==> k + BASE < LIMIT
    {
      hide LE, Linked, Ok, LiveOf, Free;
      LiveBounds(layout, BASE, Header(legacy));
    }

    /** Reads a cell. */
    method Body(cell: nat) returns (r: Result<bytes>)
      requires Valid()
      ensures r == CellBody(data, legacy, cell)
      ensures cell in Live() ==> r == Success(Live()[cell])
    {
      hide Image;
      CellBodyOfImage(data, layout, legacy, cell);
      r := CellBody(data, legacy, cell);
    }

    /** Writes inside the body of an allocated cell. */
    method Poke(cell: nat, o: nat, w: bytes)
      requires Valid() && cell in Live() && o + |w| <= |Live()[cell]|
      modifies this`data, this`layout
      ensures Valid() && Live() == old(Live())[cell := Splice(old(Live())[cell], o, w)]
      ensures |data| == |old(data)| && old(Starts()) <= Starts()
    {
      hide Image, LiveCells, FreeSet, BinOffsets, LE, Index.Valid, Index.FreeCells, CellStarts;
      ghost var y := PokeEdit(data, layout, legacy, cell, o, w);
      StartsMore(layout, y, legacy, cell, LiveCells(y, legacy)[cell]);
      RootKept(data, BASE + cell + Header(legacy) + o, w);
      data := Splice(data, BASE + cell + Header(legacy) + o, w);
      layout := y;
    }

    /** Frees an allocated cell; anything else is refused. */
    method FreeCell(cell: nat) returns (r: Result<()>)
      requires Valid()
      requires cell !in Live() ==> BASE + cell + 4 > |data| || S32(data, BASE + cell) >= 0
      modifies Repr
      ensures Valid() && fresh(Repr - old(Repr)) && old(Starts()) <= Starts()
      ensures r.Success? <==> cell in old(Live())
      ensures Live() == old(Live()) - {cell} && |data| == |old(data)|
    {
      hide Image, LiveCells, FreeSet, BinOffsets, LE, Index.Valid, Index.FreeCells, Without, Splice, InBin, Ascending, Len, CellBody, S32,
           CellStarts;
      LiveIsNegative(data, layout, legacy, cell);
      var offset := BASE + cell;
      if offset + 4 > |data| {
        return Failure(Outside);
      }
      var raw := S32(data, offset);
      if raw >= 0 {
        return Failure(NotAllocated);
      }
      ghost var y, bin, size := FreeEdit(data, layout, legacy, cell);
      StartsFreed(layout, y, legacy, cell, bin, size);
      RootKept(data, offset, Enc32(-raw));
      data := Put32(data, offset, -raw);
      if freeCells != null {
        AddFreed(freeCells, offset, -raw, bin, BASE + Len(layout));
        Repr := Repr + freeCells.Repr;
      }
      layout := y;
      r := Success(());
    }

    method EnsureIndex()
      requires Valid()
      modifies this`freeCells, this`Repr
      ensures Valid() && freeCells != null && fresh(Repr - old(Repr)) && old(Starts()) <= Starts()
    {
      hide Image, FreeSet, BinOffsets, LE, Index.Valid, Index.FreeCells, LiveCells, Scan, ScanOffsets, Ok;
      if freeCells == null {
        ImageFacts(data, layout, legacy);
        ScanFlat(layout, BASE, 0);
        IsFreeSet(layout);
        ScanWhole(data[BASE..], BASE, U32(data, 0x28));
        freeCells := IndexFreeCells(data);
        Repr := Repr + freeCells.Repr;
      }
    }

    /** Turns the free cell `c`, already out of the index, into an allocated one holding `body`;
      * what is left of it, if large enough, becomes a free cell again. */
    method WriteAllocated(c: FreeIndex.FreeCell, body: bytes, needed: nat) returns (ghost stored: bytes)
      requires this in Repr && Image(data, layout, legacy) && BASE <= |data| && U32(data, 0x24) == root && c in FreeSet(layout)
               && Header(legacy) + |body| <= needed <= c.size && 8 <= needed
      requires freeCells != null && freeCells in Repr && freeCells.Repr <= Repr && this !in freeCells.Repr && freeCells.Valid()
      requires freeCells.FreeCells() == Without(FreeSet(layout), c.offset) && freeCells.bins == BinOffsets(layout, BASE)
      modifies Repr
      ensures Valid() && fresh(Repr - old(Repr)) && old(Starts()) <= Starts() && |data| == |old(data)|
      ensures BASE <= c.offset && c.offset - BASE !in old(Live()) && Live() == old(Live())[c.offset - BASE := stored]
      ensures stored == Stored(legacy, body, Used(legacy, needed, c.size))
    {
      hide Image, LiveCells, FreeSet, BinOffsets, LE, Index.Valid, Index.FreeCells, Without, Splice, Allocated, Leftover, Stored,
           CellStarts;
      var used := if c.size - needed < MinimumFree(legacy) then c.size else needed;
      stored := Stored(legacy, body, used);
      var remaining := c.size - used;
      ghost var y;
      if remaining == 0 {
        y := CarveWhole(data, layout, legacy, c, body);
        StartsTaken(layout, y, legacy, c.offset, stored, {});
        RootKept(data, c.offset, Allocated(data, legacy, c.offset, body, used));
        data := Splice(data, c.offset, Allocated(data, legacy, c.offset, body, used));
      } else {
        ghost var follows;
        y, follows := CarveSplit(data, layout, legacy, c, body, used);
        if legacy && follows { y := CarveRelink(data, layout, c, body, used); }
        StartsTaken(layout, y, legacy, c.offset, stored, {FreeIndex.FreeCell.FreeCell(c.offset + used, c.bin, remaining)});
        var rest := c.offset + used;
        var binEnd := c.bin + U32(data, c.bin + 8);
        RootKept(data, c.offset, Allocated(data, legacy, c.offset, body, used) + Leftover(legacy, c.offset - c.bin, remaining));
        data := Splice(data, c.offset, Allocated(data, legacy, c.offset, body, used) + Leftover(legacy, c.offset - c.bin, remaining));
        if legacy && c.offset + c.size < binEnd {
          RootKept(data, c.offset + c.size + 4, Enc32(rest - c.bin));
          data := Put32(data, c.offset + c.size + 4, rest - c.bin);
        }
        WithoutTwice(old(FreeSet(layout)), c.offset, rest);
        freeCells.Add(c.bin, rest, remaining);
        Repr := Repr + freeCells.Repr;
      }
      layout := y;
    }

    /** Rewrites the checksum word of the base block. */
    method UpdateBaseChecksum()
      requires BASE <= |data|
      modifies this`data
      ensures data == Put32(old(data), 0x1fc, HeaderSum(old(data), 127))
    {
      hide LE, Xor, HeaderSum;
      var checksum, n := 0, 0;
      SumStep(data, 0);
      while n < 127
        invariant 0 <= n <= 127 && data == old(data) && checksum == HeaderSum(data, n)
      {
        SumStep(data, n);
        checksum := Xor(checksum, U32(data, 4 * n));
        n := n + 1;
      }
      data := Put32(data, 0x1fc, checksum);
    }

    /** Stores `body` in a cell: the lowest free cell that is large enough, or a new bin. */
    method AllocateCell(body: bytes) returns (r: Result<nat>, ghost found: Found, ghost stored: bytes)
      requires Valid() && |data| + Align(Needed(legacy, body) + 0x20, 0x1000) <= LIMIT
      modifies Repr
      ensures Valid() && fresh(Repr - old(Repr)) && old(Starts()) <= Starts()
      ensures r.Failure? <==> old(layout).End?
      ensures old(Live()) != map[] ==> r.Success?
      ensures r.Failure? ==> Live() == old(Live()) && data == old(data)
      ensures r.Success? ==>
                && r.value !in old(Live()) && Live() == old(Live())[r.value := stored]
                && body <= stored && stored == Stored(legacy, body, |stored| + Header(legacy))
                && IsFirstFit(old(FreeSet(layout)), Needed(legacy, body), found)
                && (found.At? ==> BASE + r.value == found.cell.offset && |data| == |old(data)|)
                && (found.NotFound? ==> r.value == |old(data)| - BASE + 0x20 && |data| == |old(data)| + Align(Needed(legacy, body) + 0x20, 0x1000))
    {
      hide Image, LiveCells, FreeSet, BinOffsets, LE, Index.Valid, Index.FreeCells, Without, Stored, Needed, Align, IsFirstFit, CellStarts;
      found, stored := NotFound, [];
      EmptyLayout(layout, legacy);
      FirstBin(data, layout, legacy);
      if |data| < BASE + 0x20 || data[BASE..BASE + 4] != HBIN {
        return Failure(MissingBin), NotFound, [];
      }
      var needed := Needed(legacy, body);
      var fit;
      fit, stored := AllocateExisting(body, needed);
      found := fit;
      if fit.At? {
        r := Success(fit.cell.offset - BASE);
      } else {
        r, stored := Grow(body, needed);
      }
      StoredPrefix(legacy, body, stored);
    }

    /** Takes the lowest free cell that is large enough, if there is one. */
    method AllocateExisting(body: bytes, needed: nat) returns (found: Found, ghost stored: bytes)
      requires Valid() && Header(legacy) + |body| <= needed && 8 <= needed
      modifies Repr
      ensures Valid() && fresh(Repr - old(Repr)) && old(Starts()) <= Starts() && |data| == |old(data)|
      ensures IsFirstFit(old(FreeSet(layout)), needed, found)
      ensures found.NotFound? ==> freeCells != null && data == old(data) && layout == old(layout)
      ensures found.At? ==>
                && BASE <= found.cell.offset && found.cell.offset - BASE !in old(Live())
                    && Live() == old(Live())[found.cell.offset - BASE := stored]
                && exists used: nat :: Header(legacy) + |body| <= used && stored == Stored(legacy, body, used)
    {
      hide Image, LiveCells, FreeSet, BinOffsets, LE, Index.Valid, Index.FreeCells, Without, Stored, CellStarts;
      stored := [];
      EnsureIndex();
      found := freeCells.Fit(needed);
      if found.At? {
        freeCells.Drop(found.cell.offset);
        stored := WriteAllocated(found.cell, body, needed);
      }
    }

    method Grow(body: bytes, needed: nat) returns (r: Result<nat>, ghost stored: bytes)
      requires Valid() && freeCells != null && Header(legacy) + |body| <= needed && 8 <= needed
               && |data| + Align(needed + 0x20, 0x1000) <= LIMIT
      modifies Repr
      ensures Valid() && fresh(Repr - old(Repr)) && old(Starts()) <= Starts() && |data| == |old(data)| + Align(needed + 0x20, 0x1000)
              && BASE <= |old(data)|
      ensures r == Success(|old(data)| - BASE + 0x20) && r.value !in old(Live()) && Live() == old(Live())[r.value := stored]
      ensures exists used: nat :: Header(legacy) + |body| <= used && stored == Stored(legacy, body, used)
    {
      hide Image, LiveCells, FreeSet, BinOffsets, LE, Index.Valid, Index.FreeCells, Without, Splice, NewBin, Stored, Align, HeaderSum,
           Put32, U32, CellStarts;
      ImageFacts(data, layout, legacy);
      var size := Align(needed + 0x20, 0x1000);
      var oldSize, at := U32(data, 0x28), |data|;
      var used := if size - 0x20 - needed < MinimumFree(legacy) then size - 0x20 else needed;
      stored := Stored(legacy, body, used);
      data := data + NewBin(legacy, at, size, body, used);
      data := Put32(data, 0x28, oldSize + size);
      ghost var before := data;
      UpdateBaseChecksum();
      GrownBytes(old(data), NewBin(legacy, at, size, body, used), oldSize + size, HeaderSum(before, 127));
      ghost var y := GrowEdit(old(data), layout, legacy, body, used, size, data);
      StartsMore(layout, y, legacy, oldSize + 0x20, stored);
      AddBin(freeCells, at, used, size);
      Repr := Repr + freeCells.Repr;
      layout := y;
      r := Success(oldSize + 0x20);
    }
  }

  /** The exclusive or of the first n words of the base block. */
  function HeaderSum(data: bytes, n: nat): nat
    requires 4 * n <= |data|
  {
    if n == 0 then 0 else Xor(HeaderSum(data, n - 1), U32(data, 4 * (n - 1)))
  }

  lemma SumStep(data: bytes, n: nat)
    requires 4 * n + 4 <= |data|
    ensures HeaderSum(data, 0) == 0 && HeaderSum(data, n + 1) == Xor(HeaderSum(data, n), U32(data, 4 * n))
  {
  }

  /** An image starts with a bin exactly when its layout is not empty. */
  lemma FirstBin(data: bytes, x: Layout, legacy: bool)
    requires Image(data, x, legacy)
    ensures BASE == 0x1000 <= |data|
    ensures x.End? <==> (|data| < BASE + 0x20 || data[BASE..BASE + 4] != HBIN)
  {
    hide LE, Linked;
    if x.Bin? {
      assert data[BASE..][..4] == data[BASE..BASE + 4];
      assert data[BASE..][..4] == x.head[..4];
    }
  }

  lemma EmptyLayout(x: Layout, legacy: bool)
    ensures x.End? ==> LiveCells(x, legacy) == map[]
  {
  }

  /** What appending a bin and rewriting two words of the base block amount to. */
  lemma GrownBytes(data: bytes, bin: bytes, size: nat, sum: nat)
    requires BASE <= |data| && size < 0x1_0000_0000
    ensures var d := Put32(Put32(data + bin, 0x28, size), 0x1fc, sum);
            && |d| == |data| + |bin| && d[BASE..] == data[BASE..] + bin && U32(d, 0x28) == size && U32(d, 0x24) == U32(data, 0x24)
  {
    hide LE;
    var e := Put32(data + bin, 0x28, size);
    var d := Put32(e, 0x1fc, sum);
    SpliceAfter(data + bin, 0x28, Enc32(size), BASE, |e|);
    SpliceAfter(e, 0x1fc, Enc32(sum), BASE, |d|);
    SpliceBefore(e, 0x1fc, Enc32(sum), 0x28, 0x2c);
    SpliceAt(data + bin, 0x28, Enc32(size));
    U32Enc(size);
    assert d[BASE..] == d[BASE..|d|] && e[BASE..] == e[BASE..|e|];
    assert (data + bin)[BASE..] == data[BASE..] + bin;
    SpliceBefore(data + bin, 0x28, Enc32(size), 0x24, 0x28);
    SpliceBefore(e, 0x1fc, Enc32(sum), 0x24, 0x28);
    assert (data + bin)[0x24..0x28] == data[0x24..0x28];
  }

  lemma StoredPrefix(legacy: bool, body: bytes, stored: bytes)
    requires exists used: nat :: Header(legacy) + |body| <= used && stored == Stored(legacy, body, used)
    ensures body <= stored && stored == Stored(legacy, body, |stored| + Header(legacy))
  {
  }

  lemma WithoutTwice(cells: set<FreeCell>, a: nat, b: nat)
    requires Without(cells, b) == cells
    ensures Without(Without(cells, a), b) == Without(cells, a)
  {
    assert forall c :: c in cells ==> c in Without(cells, b);
  }

  lemma IsFreeSet(x: Layout)
    ensures FreeSet(x) == Free(x, BASE, 0)
  {
  }

  /** The index always holds exactly what a fresh scan of the bytes would collect. */
  lemma IndexIsFreshScan(h: Hive)
    requires h.Valid() && h.freeCells != null
    ensures h.freeCells.FreeCells() == Scan(h.data[BASE..], BASE) && h.freeCells.bins == ScanOffsets(h.data[BASE..], BASE)
  {
    hide Image, BinOffsets, LE, Index.Valid, Index.FreeCells, Scan, ScanOffsets, Ok, Free;
    ImageFacts(h.data, h.layout, h.legacy);
    ScanFlat(h.layout, BASE, 0);
  }
}
