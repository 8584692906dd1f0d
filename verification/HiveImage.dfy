/** Edits of a hive image: what overwriting one cell, or appending a bin, does to
 * the layout, the live cells and the free cells.
 */
module HiveImage {
  import opened Bytes
  import opened FreeIndex
  import opened HiveLayout

  /** Cell references and sizes are signed 32-bit quantities, so an image ends here. */
  const LIMIT: nat := 0x8000_0000

  /** An image that is its 4096-byte base block followed by exactly the bytes of a layout. */
  ghost predicate Image(data: bytes, x: Layout, legacy: bool) {
    && BASE <= |data| <= LIMIT && data[BASE..] == Flat(x) && U32(data, 0x28) == Len(x)
    && Ok(x, BASE, 0) && !x.Cell?
    && (legacy ==> Linked(x, BASE, 0, NONE))
  }

  /** Where the body of a cell starts. */
  function Header(legacy: bool): nat { if legacy then 8 else 4 }

  ghost function LiveCells(x: Layout, legacy: bool): Live { LiveOf(x, BASE, Header(legacy)) }

  lemma SameCells(x: Layout, legacy: bool)
    ensures LiveCells(x, legacy) == LiveOf(x, BASE, Header(legacy))
  {
  }

  ghost function FreeSet(x: Layout): set<FreeCell> { Free(x, BASE, 0) }

  lemma SpliceBody(data: bytes, pre: bytes, mid: bytes, post: bytes, new_: bytes)
    requires BASE <= |data| && data[BASE..] == pre + mid + post && |new_| == |mid|
    ensures BASE + |pre| + |new_| <= |data|
    ensures var d := Splice(data, BASE + |pre|, new_); d[BASE..] == pre + new_ + post && d[..BASE] == data[..BASE]
  {
    hide LE;
    var d := Splice(data, BASE + |pre|, new_);
    assert data == data[..BASE] + (pre + mid + post);
    assert data[BASE + |pre| + |new_|..] == post;
    assert data[..BASE + |pre|] == data[..BASE] + pre;
    assert d == data[..BASE] + (pre + new_ + post);
  }

  lemma SameHead(data: bytes, d: bytes)
    requires BASE <= |data| && BASE <= |d| && d[..BASE] == data[..BASE]
    ensures U32(d, 0x28) == U32(data, 0x28)
  {
    hide LE;
    assert d[..BASE][0x28..0x2c] == d[0x28..0x2c];
    assert data[..BASE][0x28..0x2c] == data[0x28..0x2c];
  }

  lemma ExchangeLinks(a: Layout, w: Layout, v: Layout, b: Layout)
    requires Linked(Cat(a, Cat(w, b)), BASE, 0, NONE) && OnlyCells(w) && OnlyCells(v) && Len(w) == Len(v)
    requires var o, here, link := BASE + Len(a), BinAfter(a, BASE, 0), LinkAfter(a, BASE, 0, NONE);
             Linked(v, o, here, link) && (b.Cell? ==> LinkAfter(v, o, here, link) == LinkAfter(w, o, here, link))
    ensures Linked(Cat(a, Cat(v, b)), BASE, 0, NONE)
  {
    hide *;
    LinkedFill(a, w, b, BASE, 0, NONE);
    LinkedFill(a, v, b, BASE, 0, NONE);
    var o, here, link := BASE + Len(a), BinAfter(a, BASE, 0), LinkAfter(a, BASE, 0, NONE);
    if !b.Cell? { LinkFree(b, o + Len(w), here, LinkAfter(w, o, here, link), LinkAfter(v, o, here, link)); }
  }

  /** Replacing the run w by v of the same length keeps the image an image. */
  lemma Exchange(data: bytes, a: Layout, w: Layout, v: Layout, b: Layout, legacy: bool)
    requires Image(data, Cat(a, Cat(w, b)), legacy) && OnlyCells(w) && OnlyCells(v) && Len(w) == Len(v) && a.Bin?
    requires var o, here, link := BASE + Len(a), BinAfter(a, BASE, 0), LinkAfter(a, BASE, 0, NONE);
             legacy ==> Linked(v, o, here, link) && (b.Cell? ==> LinkAfter(v, o, here, link) == LinkAfter(w, o, here, link))
    ensures BASE + Len(a) + Len(v) <= |data|
    ensures Image(Splice(data, BASE + Len(a), Flat(v)), Cat(a, Cat(v, b)), legacy)
  {
    hide *;
    var x, y := Cat(a, Cat(w, b)), Cat(a, Cat(v, b));
    ImageFacts(data, x, legacy);
    FlatFill(a, w, b);
    FlatFill(a, v, b);
    OkFill(a, w, v, b, BASE, 0);
    if legacy { ExchangeLinks(a, w, v, b); }
    SpliceBody(data, Flat(a), Flat(w), Flat(b), Flat(v));
    var d := Splice(data, BASE + Len(a), Flat(v));
    SameHead(data, d);
    BinFirst(a, Cat(v, b));
    assert |Flat(y)| == |Flat(x)|;
    ImageFrom(d, y, legacy);
  }

  lemma ImageFacts(data: bytes, x: Layout, legacy: bool)
    requires Image(data, x, legacy)
    ensures BASE <= |data| <= LIMIT && data[BASE..] == Flat(x) && U32(data, 0x28) == Len(x) && Ok(x, BASE, 0) && !x.Cell?
    ensures legacy ==> Linked(x, BASE, 0, NONE)
    ensures BASE == 0x1000 && LIMIT == 0x8000_0000 && HEADER == 0x20
  {
  }

  lemma ImageFrom(data: bytes, x: Layout, legacy: bool)
    requires BASE <= |data| <= LIMIT && data[BASE..] == Flat(x) && U32(data, 0x28) == Len(x) && Ok(x, BASE, 0) && !x.Cell?
    requires legacy ==> Linked(x, BASE, 0, NONE)
    ensures Image(data, x, legacy)
  {
  }

  lemma BinFirst(a: Layout, b: Layout)
    requires a.Bin?
    ensures Cat(a, b).Bin?
  {
  }

  lemma LinkFree(b: Layout, at: nat, bin: nat, p: int, q: int)
    requires !b.Cell? && Linked(b, at, bin, p)
    ensures Linked(b, at, bin, q)
  {
  }

  // ----- the bin a cell lies in

  predicate HasBin(x: Layout) { x.Bin? || (x.Cell? && HasBin(x.next)) }

  lemma {:induction false} NoBinFacts(q: Layout, at: nat, bin: nat, tail: nat)
    requires !HasBin(q)
    ensures BinAfter(q, at, bin) == bin && Run(q, tail) == Len(q) + tail && BinOffsets(q, at) == []
  {
    if q.Cell? { NoBinFacts(q.next, at + 4 + |q.rest|, bin, tail); }
  }

  /** The last bin header of a layout, where it is and where its bin ends. */
  lemma {:induction false} LastBin(x: Layout, at: nat, bin: nat, tail: nat) returns (p: Layout, h: bytes, q: Layout)
    requires HasBin(x) && Ok(x, at, tail)
    ensures x == Cat(p, Bin(h, q)) && BinAfter(x, at, bin) == at + Len(p) && |h| == HEADER
    ensures at + Len(p) + U32(h, 8) == at + Len(x) + tail
    ensures BinOffsets(x, at) != [] && BinOffsets(x, at)[|BinOffsets(x, at)| - 1] == at + Len(p)
  {
    match x
    case Cell(f, r, n) =>
      p, h, q := LastBin(n, at + 4 + |r|, bin, tail);
      p := Cell(f, r, p);
    case Bin(g, n) =>
      if HasBin(n) {
        p, h, q := LastBin(n, at + |g|, at, tail);
        p := Bin(g, p);
      } else {
        NoBinFacts(n, at + |g|, at, tail);
        p, h, q := End, g, n;
      }
  }

  ghost predicate Ascending(s: seq<nat>, lo: nat, hi: nat) {
    && (forall i :: 0 <= i < |s| ==> lo <= s[i] < hi)
    && (forall i, j :: 0 <= i < j < |s| ==> s[i] < s[j])
  }

  lemma AscendingCons(o: nat, t: seq<nat>, lo: nat, hi: nat)
    requires Ascending(t, lo, hi) && o < lo && o < hi
    ensures Ascending([o] + t, o, hi)
  {
    var s := [o] + t;
    assert forall i :: 0 < i < |s| ==> s[i] == t[i - 1];
  }

  lemma {:induction false} OffsetBounds(x: Layout, at: nat, tail: nat)
    requires Ok(x, at, tail)
    ensures Ascending(BinOffsets(x, at), at, at + Len(x))
  {
    match x
    case End =>
    case Cell(_, r, n) => OffsetBounds(n, at + 4 + |r|, tail);
    case Bin(h, n) =>
      OffsetBounds(n, at + |h|, tail);
      AscendingCons(at, BinOffsets(n, at + |h|), at + |h|, at + Len(x));
  }

  // ----- one cell of the image

  lemma PrefixBin(a: Layout, f: bool, r: bytes, b: Layout)
    requires !Cat(a, Cell(f, r, b)).Cell?
    ensures a.Bin?
  {
  }

  lemma {:induction false} SizeAt(a: Layout, f: bool, r: bytes, b: Layout, at: nat, tail: nat)
    requires Ok(Cat(a, Cell(f, r, b)), at, tail)
    ensures SizeOk(r) && OnlyCells(Cell(f, r, End))
  {
    hide Cat, Run, LE;
    CatOk(a, Cell(f, r, b), at, tail);
  }

  lemma OneCell(f: bool, r: bytes, b: Layout)
    ensures Cat(Cell(f, r, End), b) == Cell(f, r, b)
    ensures Flat(Cell(f, r, End)) == SizeWord(f, r) + r && Len(Cell(f, r, End)) == 4 + |r|
  {
    assert SizeWord(f, r) + r + [] == SizeWord(f, r) + r;
  }

  /** The bytes of a cell of the layout, found at its offset in the image. */
  lemma CellAt(data: bytes, a: Layout, f: bool, r: bytes, b: Layout, legacy: bool)
    requires Image(data, Cat(a, Cell(f, r, b)), legacy)
    ensures SizeOk(r) && a.Bin?
    ensures var o := BASE + Len(a); var n := 4 + |r|;
            && o + n <= |data| && data[o..o + 4] == SizeWord(f, r) && data[o + 4..o + n] == r
            && S32(data, o) == if f then n else -n
  {
    hide *;
    ImageFacts(data, Cat(a, Cell(f, r, b)), legacy);
    PrefixBin(a, f, r, b);
    SizeAt(a, f, r, b, BASE, 0);
    OneCell(f, r, b);
    FlatFill(a, Cell(f, r, End), b);
    MiddleOf(data, Flat(a), SizeWord(f, r) + r, Flat(b));
    var o, n: int := BASE + Len(a), 4 + |r|;
    assert data[o..o + 4] == data[o..o + n][..4];
    assert data[o + 4..o + n] == data[o..o + n][4..];
    SizeRead(data, o, f, r);
  }

  lemma SizeRead(data: bytes, o: nat, f: bool, r: bytes)
    requires o + 4 <= |data| && data[o..o + 4] == SizeWord(f, r) && SizeOk(r)
    ensures S32(data, o) == if f then 4 + |r| else -(4 + |r|)
  {
    hide LE;
    var n: int := 4 + |r|;
    S32Enc(if f then n else -n);
    assert SizeWord(f, r)[0..4] == SizeWord(f, r);
  }

  lemma MiddleOf(data: bytes, pre: bytes, mid: bytes, post: bytes)
    requires BASE <= |data| && data[BASE..] == pre + mid + post
    ensures BASE + |pre| + |mid| <= |data| && data[BASE + |pre|..BASE + |pre| + |mid|] == mid
  {
    assert data[BASE + |pre|..BASE + |pre| + |mid|] == data[BASE..][|pre|..|pre| + |mid|];
  }

  lemma LiveOne(f: bool, r: bytes, at: nat, header: nat)
    requires BASE <= at && 4 <= header
    ensures LiveOf(Cell(f, r, End), at, header) == if !f && header <= 4 + |r| then map[at - BASE := r[header - 4..]] else map[]
  {
  }

  lemma FreeOne(f: bool, r: bytes, at: nat, bin: nat)
    ensures Free(Cell(f, r, End), at, bin) == if f then {FreeCell(at, bin, 4 + |r|)} else {}
  {
  }

  /** What the live and the free cells become when one cell is rewritten. */
  lemma RecellLive(a: Layout, f: bool, r: bytes, g: bool, s: bytes, b: Layout, header: nat)
    requires |r| == |s| && SizeOk(r) && 4 <= header <= 8
    ensures var x, y := Cat(a, Cell(f, r, b)), Cat(a, Cell(g, s, b)); var k := Len(a);
            LiveOf(y, BASE, header) == (LiveOf(x, BASE, header) - {k}) + (if g then map[] else map[k := s[header - 4..]])
  {
    hide *;
    SingleCell(f, r);
    var o := BASE + Len(a);
    var w, v := Cell(f, r, End), Cell(g, s, End);
    OneCell(f, r, b); OneCell(g, s, b);
    var m := LiveFill(a, w, b, BASE, header);
    m := LiveFill(a, v, b, BASE, header);
    LiveOne(f, r, o, header); LiveOne(g, s, o, header);
  }

  lemma RecellFree(a: Layout, f: bool, r: bytes, g: bool, s: bytes, b: Layout)
    requires |r| == |s| && SizeOk(r)
    ensures var x, y := Cat(a, Cell(f, r, b)), Cat(a, Cell(g, s, b)); var o := BASE + Len(a);
            && FreeSet(y) == Without(FreeSet(x), o) + (if g then {FreeCell(o, BinAfter(a, BASE, 0), 4 + |s|)} else {})
            && BinOffsets(x, BASE) == BinOffsets(y, BASE)
  {
    hide Cat, Len, BinAfter, Free, BinOffsets, OnlyCells, Without;
    var o, here := BASE + Len(a), BinAfter(a, BASE, 0);
    var w, v := Cell(f, r, End), Cell(g, s, End);
    OneCell(f, r, b); OneCell(g, s, b);
    SingleCell(f, r); SingleCell(g, s);
    CellLen(f, r); CellLen(g, s);
    var c := FreeFill(a, w, b, BASE, 0);
    c := FreeFill(a, v, b, BASE, 0);
    FreeOne(f, r, o, here); FreeOne(g, s, o, here);
    WithoutOne(c, Free(w, o, here), o);
    BinsFill(a, w, v, b, BASE);
  }

  lemma CellLen(f: bool, r: bytes)
    ensures Len(Cell(f, r, End)) == 4 + |r|
  {
  }

  lemma WithoutOne(around: set<FreeCell>, mid: set<FreeCell>, o: nat)
    requires (forall c :: c in around ==> c.offset != o) && forall c :: c in mid ==> c.offset == o
    ensures Without(around + mid, o) == around
  {
  }

  lemma SingleCell(f: bool, r: bytes)
    requires SizeOk(r)
    ensures OnlyCells(Cell(f, r, End)) && 4 <= |r| && BASE == 0x1000
  {
  }

  /** Rewriting one cell without touching its backward link keeps the image an image. */
  lemma RecellImage(data: bytes, a: Layout, f: bool, r: bytes, g: bool, s: bytes, b: Layout, legacy: bool)
    requires Image(data, Cat(a, Cell(f, r, b)), legacy) && |r| == |s| && (legacy ==> 4 <= |r| && s[..4] == r[..4])
    ensures BASE + Len(a) + 4 + |s| <= |data|
    ensures Image(Splice(data, BASE + Len(a), SizeWord(g, s) + s), Cat(a, Cell(g, s, b)), legacy)
  {
    hide Cat, Len, BinAfter, LinkAfter, Linked, Flat, Ok, OnlyCells, LE, Splice, Image;
    CellAt(data, a, f, r, b, legacy);
    var w, v := Cell(f, r, End), Cell(g, s, End);
    OneCell(f, r, b); OneCell(g, s, b);
    SingleCell(f, r); SingleCell(g, s);
    if legacy {
      ImageFacts(data, Cat(a, Cat(w, b)), legacy);
      LinkedFill(a, w, b, BASE, 0, NONE);
      RecellLink(f, r, g, s, BASE + Len(a), BinAfter(a, BASE, 0), LinkAfter(a, BASE, 0, NONE));
    }
    Exchange(data, a, w, v, b, legacy);
  }

  lemma RecellLink(f: bool, r: bytes, g: bool, s: bytes, at: nat, bin: nat, link: int)
    requires |r| == |s| && 4 <= |r| && s[..4] == r[..4] && Linked(Cell(f, r, End), at, bin, link)
    ensures Linked(Cell(g, s, End), at, bin, link) && LinkAfter(Cell(g, s, End), at, bin, link) == LinkAfter(Cell(f, r, End), at, bin, link)
  {
    assert r[0..4] == r[..4] && s[0..4] == s[..4];
  }

  /** The last entry of an ascending list that is not above o. */
  ghost predicate InBin(bins: seq<nat>, o: nat, bin: nat) {
    exists i :: 0 <= i < |bins| && bins[i] == bin <= o && (i + 1 < |bins| ==> o < bins[i + 1])
  }

  lemma BinOfCell(data: bytes, a: Layout, f: bool, r: bytes, b: Layout, legacy: bool)
    requires Image(data, Cat(a, Cell(f, r, b)), legacy)
    ensures InBin(BinOffsets(Cat(a, Cell(f, r, b)), BASE), BASE + Len(a), BinAfter(a, BASE, 0))
    ensures Ascending(BinOffsets(Cat(a, Cell(f, r, b)), BASE), BASE, BASE + Len(Cat(a, Cell(f, r, b))))
  {
    hide Cat, Image, BinOffsets, Ok, Run, Len, BinAfter, LE;
    var x := Cat(a, Cell(f, r, b));
    ImageFacts(data, x, legacy);
    CellAt(data, a, f, r, b, legacy);
    CatOk(a, Cell(f, r, b), BASE, 0);
    CatBins(a, Cell(f, r, b), BASE);
    OffsetBounds(x, BASE, 0);
    var p, h, q := LastBin(a, BASE, 0, Run(Cell(f, r, b), 0));
    OffsetBounds(Cell(f, r, b), BASE + Len(a), 0);
    CatFlat(p, Bin(h, q));
    var s, t := BinOffsets(a, BASE), BinOffsets(Cell(f, r, b), BASE + Len(a));
    var i := |s| - 1;
    assert (s + t)[i] == s[i];
    NotFirst(f, r, b, BASE + Len(a));
    if i + 1 < |s + t| { assert (s + t)[i + 1] == t[0]; }
  }

  /** The bins after a cell start beyond it. */
  lemma NotFirst(f: bool, r: bytes, b: Layout, at: nat)
    requires Ok(Cell(f, r, b), at, 0)
    ensures var t := BinOffsets(Cell(f, r, b), at); |t| > 0 ==> at < t[0]
  {
    OffsetBounds(b, at + 4 + |r|, 0);
  }

  /** Freeing a live cell: its size word changes sign, nothing else does. */
  lemma FreeEdit(data: bytes, x: Layout, legacy: bool, k: nat) returns (y: Layout, bin: nat, size: nat)
    requires Image(data, x, legacy) && k in LiveCells(x, legacy)
    ensures BASE + k + 4 <= |data| && S32(data, BASE + k) == -(size as int) && 8 <= size
    ensures Image(Put32(data, BASE + k, size), y, legacy)
    ensures LiveCells(y, legacy) == LiveCells(x, legacy) - {k}
    ensures FreeSet(y) == Without(FreeSet(x), BASE + k) + {FreeCell(BASE + k, bin, size)}
    ensures BinOffsets(y, BASE) == BinOffsets(x, BASE)
    ensures InBin(BinOffsets(x, BASE), BASE + k, bin) && Ascending(BinOffsets(x, BASE), BASE, BASE + Len(x))
  {
    hide Cat, Image, BinOffsets, Ok, Run, Len, BinAfter, LE, LiveOf, Free, Splice;
    var a, r, b := LocateLive(x, BASE, Header(legacy), k);
    CellAt(data, a, false, r, b, legacy);
    BinOfCell(data, a, false, r, b, legacy);
    RecellImage(data, a, false, r, true, r, b, legacy);
    RecellLive(a, false, r, true, r, b, Header(legacy));
    RecellFree(a, false, r, true, r, b);
    y, bin, size := Cat(a, Cell(true, r, b)), BinAfter(a, BASE, 0), 4 + |r|;
    SpliceSame(data, BASE + k, SizeWord(true, r), r);
  }

  /** Writing back bytes that are already there. */
  lemma SpliceSame(data: bytes, o: nat, w: bytes, same: bytes)
    requires o + |w| + |same| <= |data| && data[o + |w|..o + |w| + |same|] == same
    ensures Splice(data, o, w + same) == Splice(data, o, w)
  {
  }

  /** Writing inside the body of a live cell. */
  lemma PokeEdit(data: bytes, x: Layout, legacy: bool, k: nat, o: nat, w: bytes) returns (y: Layout)
    requires Image(data, x, legacy) && k in LiveCells(x, legacy) && o + |w| <= |LiveCells(x, legacy)[k]|
    ensures BASE + k + Header(legacy) + o + |w| <= |data|
    ensures Image(Splice(data, BASE + k + Header(legacy) + o, w), y, legacy)
    ensures LiveCells(y, legacy) == LiveCells(x, legacy)[k := Splice(LiveCells(x, legacy)[k], o, w)]
    ensures FreeSet(y) == FreeSet(x) && BinOffsets(y, BASE) == BinOffsets(x, BASE)
  {
    hide Cat, Image, BinOffsets, Ok, Run, Len, BinAfter, LE, LiveOf, Free;
    var h := Header(legacy);
    var a, r, b := LocateLive(x, BASE, h, k);
    CellAt(data, a, false, r, b, legacy);
    var s := Splice(r, h - 4 + o, w);
    assert s[h - 4..] == Splice(r[h - 4..], o, w);
    if legacy { assert s[..4] == r[..4]; }
    RecellImage(data, a, false, r, false, s, b, legacy);
    RecellLive(a, false, r, false, s, b, h);
    RecellFree(a, false, r, false, s, b);
    y := Cat(a, Cell(false, s, b));
    SpliceInner(data, BASE + k, SizeWord(false, r), r, h - 4 + o, w);
    NotFree(a, r, b);
  }

  lemma SpliceInner(data: bytes, o: nat, head: bytes, r: bytes, i: nat, w: bytes)
    requires o + |head| + |r| <= |data| && data[o..o + |head|] == head && data[o + |head|..o + |head| + |r|] == r && i + |w| <= |r|
    ensures Splice(data, o, head + Splice(r, i, w)) == Splice(data, o + |head| + i, w)
  {
    var d := Splice(data, o, head + Splice(r, i, w));
    assert data == data[..o] + head + r + data[o + |head| + |r|..];
  }

  /** An allocated cell is not among the free ones. */
  lemma NotFree(a: Layout, r: bytes, b: Layout)
    requires SizeOk(r)
    ensures Without(FreeSet(Cat(a, Cell(false, r, b))), BASE + Len(a)) == FreeSet(Cat(a, Cell(false, r, b)))
  {
    hide Cat, Len, BinAfter, Free, OnlyCells;
    OneCell(false, r, b);
    SingleCell(false, r);
    var c := FreeFill(a, Cell(false, r, End), b, BASE, 0);
    FreeOne(false, r, BASE + Len(a), BinAfter(a, BASE, 0));
  }

  // ----- carving an allocated cell out of a free one

  function Two(s: bytes, t: bytes, n: Layout): Layout { Cell(false, s, Cell(true, t, n)) }

  lemma TwoCells(s: bytes, t: bytes, b: Layout)
    requires SizeOk(s) && SizeOk(t)
    ensures Cat(Two(s, t, End), b) == Two(s, t, b) && OnlyCells(Two(s, t, End)) && Len(Two(s, t, End)) == 8 + |s| + |t|
    ensures Flat(Two(s, t, End)) == SizeWord(false, s) + s + (SizeWord(true, t) + t)
  {
    OneCell(true, t, b);
    SingleCell(true, t);
    OneCell(true, t, End);
  }

  lemma TwoSets(s: bytes, t: bytes, at: nat, bin: nat, header: nat)
    requires BASE <= at && 4 <= header <= 8 && SizeOk(s)
    ensures LiveOf(Two(s, t, End), at, header) == map[at - BASE := s[header - 4..]]
    ensures Free(Two(s, t, End), at, bin) == {FreeCell(at + 4 + |s|, bin, 4 + |t|)}
  {
    LiveOne(true, t, at + 4 + |s|, header);
    FreeOne(true, t, at + 4 + |s|, bin);
  }

  lemma SplitLive(a: Layout, r: bytes, s: bytes, t: bytes, b: Layout, header: nat)
    requires SizeOk(r) && SizeOk(s) && SizeOk(t) && |r| == 4 + |s| + |t| && 4 <= header <= 8
    ensures var x, y := Cat(a, Cell(true, r, b)), Cat(a, Two(s, t, b)); var k := Len(a);
            && k !in LiveOf(x, BASE, header) && LiveOf(y, BASE, header) == LiveOf(x, BASE, header)[k := s[header - 4..]]
  {
    hide *;
    SingleCell(true, r);
    SingleCell(true, s);
    var o := BASE + Len(a);
    OneCell(true, r, b); TwoCells(s, t, b);
    var m := LiveFill(a, Cell(true, r, End), b, BASE, header);
    m := LiveFill(a, Two(s, t, End), b, BASE, header);
    LiveOne(true, r, o, header); TwoSets(s, t, o, 0, header);
  }

  lemma SplitFree(a: Layout, r: bytes, s: bytes, t: bytes, b: Layout)
    requires SizeOk(r) && SizeOk(s) && SizeOk(t) && |r| == 4 + |s| + |t|
    ensures var x, y := Cat(a, Cell(true, r, b)), Cat(a, Two(s, t, b)); var o := BASE + Len(a);
            && Free(y, BASE, 0) == Without(Free(x, BASE, 0), o) + {FreeCell(o + 4 + |s|, BinAfter(a, BASE, 0), 4 + |t|)}
            && Without(Free(x, BASE, 0), o + 4 + |s|) == Free(x, BASE, 0)
  {
    hide Cat, Len, Free, BinAfter, OnlyCells, Flat, Two, LiveOf;
    SingleCell(true, r);
    var o, here := BASE + Len(a), BinAfter(a, BASE, 0);
    OneCell(true, r, b); TwoCells(s, t, b);
    var c := FreeFill(a, Cell(true, r, End), b, BASE, 0);
    c := FreeFill(a, Two(s, t, End), b, BASE, 0);
    FreeOne(true, r, o, here); TwoSets(s, t, o, here, 4);
  }

  lemma SplitBins(a: Layout, r: bytes, s: bytes, t: bytes, b: Layout)
    requires SizeOk(r) && SizeOk(s) && SizeOk(t) && |r| == 4 + |s| + |t|
    ensures BinOffsets(Cat(a, Cell(true, r, b)), BASE) == BinOffsets(Cat(a, Two(s, t, b)), BASE)
  {
    hide *;
    SingleCell(true, r);
    OneCell(true, r, b); TwoCells(s, t, b);
    BinsFill(a, Cell(true, r, End), Two(s, t, End), b, BASE);
  }

  /** The image after a split, when no link of a following cell has to change. */
  lemma SplitImage(data: bytes, a: Layout, r: bytes, s: bytes, t: bytes, b: Layout, legacy: bool)
    requires Image(data, Cat(a, Cell(true, r, b)), legacy) && SizeOk(s) && SizeOk(t) && |r| == 4 + |s| + |t|
    requires legacy ==>
               !b.Cell? && s[..4] == r[..4] && t[..4] == Enc32(BASE + Len(a) - BinAfter(a, BASE, 0))
               && BASE + Len(a) - BinAfter(a, BASE, 0) >= 0
    ensures BASE + Len(a) + 4 + |r| <= |data|
    ensures Image(Splice(data, BASE + Len(a), SizeWord(false, s) + s + (SizeWord(true, t) + t)), Cat(a, Two(s, t, b)), legacy)
  {
    hide Cat, Len, BinAfter, LinkAfter, Linked, Flat, Ok, OnlyCells, LE, Splice, Image, Two;
    CellAt(data, a, true, r, b, legacy);
    var w, v := Cell(true, r, End), Two(s, t, End);
    OneCell(true, r, b); TwoCells(s, t, b); SingleCell(true, r);
    if legacy {
      ImageFacts(data, Cat(a, Cat(w, b)), legacy);
      LinkedFill(a, w, b, BASE, 0, NONE);
      TwoLinks(r, s, t, BASE + Len(a), BinAfter(a, BASE, 0), LinkAfter(a, BASE, 0, NONE));
    }
    Exchange(data, a, w, v, b, legacy);
  }

  lemma TwoLinks(r: bytes, s: bytes, t: bytes, at: nat, bin: nat, link: int)
    requires 4 <= |s| && 4 <= |t| && |r| == 4 + |s| + |t| && s[..4] == r[..4] && 0 <= at - bin < 0x1_0000_0000 && t[..4] == Enc32(at - bin)
    requires Linked(Cell(true, r, End), at, bin, link)
    ensures Linked(Two(s, t, End), at, bin, link)
  {
    hide LE;
    assert r[0..4] == r[..4] && s[0..4] == s[..4] && t[0..4] == t[..4];
    U32Enc(at - bin);
    assert Linked(Cell(true, t, End), at + 4 + |s|, bin, at - bin);
  }

  // ----- format 1.1: the cell after a split must name the new free cell

  lemma {:induction false} CatAssoc(a: Layout, b: Layout, c: Layout)
    ensures Cat(Cat(a, b), c) == Cat(a, Cat(b, c))
  {
    match a
    case End =>
    case Bin(_, n) => CatAssoc(n, b, c);
    case Cell(_, _, n) => CatAssoc(n, b, c);
  }

  /** The next cell with its backward link replaced. */
  function Relinked(r: bytes, link: int): (s: bytes)
    requires 4 <= |r|
    ensures |s| == |r| && s[4..] == r[4..]
  {
    Put32(r, 0, link)
  }

  lemma NextLink(f: bool, r: bytes, b: Layout, at: nat, bin: nat, old_: int, link: int)
    requires Linked(Cell(f, r, b), at, bin, old_) && 0 <= link < 0x1_0000_0000
    ensures Linked(Cell(f, Relinked(r, link), b), at, bin, link)
  {
    U32Enc(link);
    SpliceAt(r, 0, Enc32(link));
  }

  lemma TwoLinkAfter(s: bytes, t: bytes, at: nat, bin: nat, link: int)
    ensures LinkAfter(Two(s, t, End), at, bin, link) == at + 4 + |s| - bin
  {
    assert LinkAfter(Cell(true, t, End), at + 4 + |s|, bin, at - bin) == at + 4 + |s| - bin;
  }

  lemma OneLinkAfter(f: bool, r: bytes, at: nat, bin: nat, link: int)
    ensures LinkAfter(Cell(f, r, End), at, bin, link) == at - bin
  {
  }

  lemma SplitLinks(a: Layout, r: bytes, s: bytes, t: bytes, f: bool, q: bytes, b: Layout)
    requires Linked(Cat(a, Cell(true, r, Cell(f, q, b))), BASE, 0, NONE) && SizeOk(r) && SizeOk(s) && SizeOk(t) && |r| == 4 + |s| + |t|
             && 4 <= |q|
    requires var o, here := BASE + Len(a), BinAfter(a, BASE, 0);
             0 <= o - here && o + 4 + |s| < 0x1_0000_0000 && s[..4] == r[..4] && t[..4] == Enc32(o - here)
    ensures Linked(Cat(a, Two(s, t, Cell(f, Relinked(q, BASE + Len(a) + 4 + |s| - BinAfter(a, BASE, 0)), b))), BASE, 0, NONE)
  {
    hide *;
    SingleCell(true, r);
    var o, here, link := BASE + Len(a), BinAfter(a, BASE, 0), LinkAfter(a, BASE, 0, NONE);
    var after := o + 4 + |s| - here;
    var next := Cell(f, q, b);
    var fixed := Cell(f, Relinked(q, after), b);
    OneCell(true, r, next); TwoCells(s, t, fixed);
    LinkedFill(a, Cell(true, r, End), next, BASE, 0, NONE);
    LinkedFill(a, Two(s, t, End), fixed, BASE, 0, NONE);
    SizeFacts(s, t);
    TwoLinks(r, s, t, o, here, link);
    TwoLinkAfter(s, t, o, here, link);
    OneLinkAfter(true, r, o, here, link);
    NextLink(f, q, b, o + 4 + |r|, here, o - here, after);
  }

  lemma SizeFacts(s: bytes, t: bytes)
    requires SizeOk(s) && SizeOk(t)
    ensures 4 <= |s| && 4 <= |t|
  {
  }

  lemma HeadRead(data: bytes, pre: bytes, h: bytes, post: bytes)
    requires BASE <= |data| && data[BASE..] == pre + h + post && |h| == HEADER
    ensures BASE + |pre| + HEADER <= |data| && U32(data, BASE + |pre| + 8) == U32(h, 8)
  {
    hide LE;
    MiddleOf(data, pre, h, post);
    var bin := BASE + |pre|;
    assert data[bin..bin + HEADER][8..12] == data[bin + 8..bin + 12];
  }

  /** The header of the bin a cell lies in says where the bin ends: beyond the cell
    * exactly when another cell follows it there. */
  lemma BinEnd(data: bytes, a: Layout, f: bool, r: bytes, b: Layout, legacy: bool)
    requires Image(data, Cat(a, Cell(f, r, b)), legacy)
    ensures var o, bin := BASE + Len(a), BinAfter(a, BASE, 0);
            && BASE <= bin && bin + HEADER <= o <= |data| && bin + 12 <= |data|
            && (o + 4 + |r| < bin + U32(data, bin + 8) <==> b.Cell?)
  {
    hide *;
    var x, tail := Cat(a, Cell(f, r, b)), Cell(f, r, b);
    ImageFacts(data, x, legacy);
    CellAt(data, a, f, r, b, legacy);
    CatOk(a, tail, BASE, 0);
    IsHasBin(a);
    var p, h, q := LastBin(a, BASE, 0, Run(tail, 0));
    CatFlat(a, tail);
    CatFlat(p, Bin(h, q));
    BinBytes(h, q);
    RunNext(f, r, b, BASE + Len(a));
    assert Flat(p) + (h + Flat(q)) + Flat(tail) == Flat(p) + h + (Flat(q) + Flat(tail));
    HeadRead(data, Flat(p), h, Flat(q) + Flat(tail));
  }

  lemma IsHasBin(a: Layout)
    requires a.Bin?
    ensures HasBin(a)
  {
  }

  lemma BinBytes(h: bytes, q: Layout)
    ensures Flat(Bin(h, q)) == h + Flat(q) && Len(Bin(h, q)) == |h| + Len(q)
  {
  }

  lemma RunNext(f: bool, r: bytes, b: Layout, at: nat)
    requires Ok(Cell(f, r, b), at, 0)
    ensures Run(Cell(f, r, b), 0) == 4 + |r| + Run(b, 0) && (Run(b, 0) > 0 <==> b.Cell?)
  {
  }

  // ----- allocating a free cell

  function Pad(legacy: bool): byte { if legacy then 0xb2 else 0 }

  /** What a body looks like once stored in a cell of the given size. */
  function Stored(legacy: bool, body: bytes, size: nat): (r: bytes)
    requires Header(legacy) + |body| <= size
    ensures |r| == size - Header(legacy)
  {
    body + Fill(size - Header(legacy) - |body|, Pad(legacy))
  }

  /** The bytes an allocated cell gets; the backward link of format 1.1 stays. */
  function Allocated(data: bytes, legacy: bool, o: nat, body: bytes, size: nat): (r: bytes)
    requires o + 8 <= |data| && Header(legacy) + |body| <= size
    ensures |r| == size
  {
    Enc32(-(size as int)) + (data[o + 4..o + Header(legacy)] + Stored(legacy, body, size))
  }

  /** The bytes of the free cell left over, whose link names the allocated cell. */
  function Leftover(legacy: bool, link: int, size: nat): (r: bytes)
    requires 8 <= size
    ensures |r| == size
  {
    Enc32(size) + ((if legacy then Enc32(link) else []) + Zeros(size - Header(legacy)))
  }

  /** One free cell became the live cell k, leaving some free cells behind; nothing else changed. */
  ghost predicate Took(x: Layout, y: Layout, legacy: bool, o: nat, stored: bytes, left: set<FreeCell>) {
    && BASE <= o && o - BASE !in LiveCells(x, legacy) && LiveCells(y, legacy) == LiveCells(x, legacy)[o - BASE := stored]
    && FreeSet(y) == Without(FreeSet(x), o) + left && BinOffsets(y, BASE) == BinOffsets(x, BASE)
  }

  lemma CarveWhole(data: bytes, x: Layout, legacy: bool, c: FreeCell, body: bytes) returns (y: Layout)
    requires Image(data, x, legacy) && c in FreeSet(x) && Header(legacy) + |body| <= c.size
    ensures BASE <= c.offset && c.offset + c.size <= |data| && 8 <= c.size
    ensures Image(Splice(data, c.offset, Allocated(data, legacy, c.offset, body, c.size)), y, legacy)
    ensures Took(x, y, legacy, c.offset, Stored(legacy, body, c.size), {})
  {
    hide Image, Free, LiveOf, Len, Cat, BinAfter, BinOffsets, LE, Splice, Flat;
    var h := Header(legacy);
    var a, r, b := LocateFree(x, BASE, 0, c);
    CellAt(data, a, true, r, b, legacy);
    var o := c.offset;
    var s := data[o + 4..o + h] + Stored(legacy, body, c.size);
    assert s[h - 4..] == Stored(legacy, body, c.size);
    if legacy { assert s[..4] == data[o + 4..o + 8] == data[o + 4..o + c.size][..4]; }
    RecellImage(data, a, true, r, false, s, b, legacy);
    RecellLive(a, true, r, false, s, b, h);
    RecellFree(a, true, r, false, s, b);
    FreeIsNotLive(a, r, b, h);
    y := Cat(a, Cell(false, s, b));
    assert SizeWord(false, s) + s == Allocated(data, legacy, o, body, c.size);
  }

  lemma FreeIsNotLive(a: Layout, r: bytes, b: Layout, header: nat)
    requires 4 <= header
    ensures Len(a) !in LiveOf(Cat(a, Cell(true, r, b)), BASE, header)
  {
    hide Cat, Len, LiveOf, Flat;
    OneCell(true, r, b);
    var m := LiveFill(a, Cell(true, r, End), b, BASE, header);
    LiveOne(true, r, BASE + Len(a), header);
  }

  lemma CarveSplit(data: bytes, x: Layout, legacy: bool, c: FreeCell, body: bytes, used: nat) returns (y: Layout, follows: bool)
    requires Image(data, x, legacy) && c in FreeSet(x) && Header(legacy) + |body| <= used && 8 <= used && used + 8 <= c.size
    ensures BASE <= c.bin && c.bin + HEADER <= c.offset && c.offset + c.size <= |data|
    ensures follows == (c.offset + c.size < c.bin + U32(data, c.bin + 8))
    ensures !legacy || !follows ==>
              Image(Splice(data, c.offset, Allocated(data, legacy, c.offset, body, used) + Leftover(legacy, c.offset - c.bin,
                  c.size - used)), y, legacy)
    ensures Took(x, y, legacy, c.offset, Stored(legacy, body, used), {FreeCell(c.offset + used, c.bin, c.size - used)})
    ensures Without(FreeSet(x), c.offset + used) == FreeSet(x)
  {
    hide Image, Free, LiveOf, Len, Cat, BinAfter, BinOffsets, LE, Splice, Flat, Stored, Allocated, Leftover, SizeWord, Enc32;
    var h := Header(legacy);
    var a, r, b := LocateFree(x, BASE, 0, c);
    CellAt(data, a, true, r, b, legacy);
    BinEnd(data, a, true, r, b, legacy);
    follows := b.Cell?;
    var o := c.offset;
    var s := data[o + 4..o + h] + Stored(legacy, body, used);
    var t := (if legacy then Enc32(o - c.bin) else []) + Zeros(c.size - used - h);
    CarveParts(data, legacy, o, o - c.bin, c.size, body, used, s, t);
    SplitLive(a, r, s, t, b, h);
    SplitFree(a, r, s, t, b);
    SplitBins(a, r, s, t, b);
    y := Cat(a, Two(s, t, b));
    if !legacy || !follows {
      SplitImage(data, a, r, s, t, b, legacy);
    }
  }

  /** The two cells a free one becomes, as they are written. */
  lemma CarveParts(data: bytes, legacy: bool, o: nat, back: nat, size: nat, body: bytes, used: nat, s: bytes, t: bytes)
    requires o + size <= |data| && Header(legacy) + |body| <= used && 8 <= used && used + 8 <= size
    requires s == data[o + 4..o + Header(legacy)] + Stored(legacy, body, used)
    requires t == (if legacy then Enc32(back) else []) + Zeros(size - used - Header(legacy))
    ensures |s| == used - 4 && |t| == size - used - 4 && s[Header(legacy) - 4..] == Stored(legacy, body, used)
    ensures legacy ==> s[..4] == data[o + 4..o + size][..4] && t[..4] == Enc32(back)
    ensures SizeWord(false, s) + s == Allocated(data, legacy, o, body, used) && SizeWord(true, t) + t == Leftover(legacy, back, size - used)
  {
    if legacy { assert s[..4] == data[o + 4..o + 8] == data[o + 4..o + size][..4]; assert t[..4] == Enc32(back); }
  }

  /** Rewriting the link of a cell touches no body and no size. */
  lemma RelinkSets(a: Layout, f: bool, q: bytes, link: int, b: Layout)
    requires SizeOk(q)
    ensures var x, y := Cat(a, Cell(f, q, b)), Cat(a, Cell(f, Relinked(q, link), b));
            && LiveOf(y, BASE, 8) == LiveOf(x, BASE, 8) && Free(y, BASE, 0) == Free(x, BASE, 0)
                && BinOffsets(y, BASE) == BinOffsets(x, BASE)
  {
    hide *;
    SingleCell(f, q);
    RelinkedOk(q, link);
    var s := Relinked(q, link);
    SingleCell(f, s);
    var w, v := Cell(f, q, End), Cell(f, s, End);
    OneCell(f, q, b); OneCell(f, s, b);
    var o, here := BASE + Len(a), BinAfter(a, BASE, 0);
    var m := LiveFill(a, w, b, BASE, 8);
    m := LiveFill(a, v, b, BASE, 8);
    LiveOne(f, q, o, 8); LiveOne(f, s, o, 8);
    var c := FreeFill(a, w, b, BASE, 0);
    c := FreeFill(a, v, b, BASE, 0);
    FreeOne(f, q, o, here); FreeOne(f, s, o, here);
    BinsFill(a, w, v, b, BASE);
  }

  lemma RelinkedOk(q: bytes, link: int)
    requires SizeOk(q)
    ensures SizeOk(Relinked(q, link))
  {
  }

  /** The bytes: first the split, then the link of the next cell. */
  lemma RelinkImage(data: bytes, a: Layout, r: bytes, s: bytes, t: bytes, f: bool, q: bytes, b: Layout)
    requires Image(data, Cat(a, Cell(true, r, Cell(f, q, b))), true) && SizeOk(s) && SizeOk(t) && |r| == 4 + |s| + |t|
    requires var o, here := BASE + Len(a), BinAfter(a, BASE, 0);
             0 <= o - here && s[..4] == r[..4] && t[..4] == Enc32(o - here)
    ensures SizeOk(q) && BASE + Len(a) + 4 + |r| + 8 <= |data|
    ensures var o, here := BASE + Len(a), BinAfter(a, BASE, 0); var link := o + 4 + |s| - here;
            Image(Put32(Splice(data, o, SizeWord(false, s) + s + (SizeWord(true, t) + t)), o + 4 + |r| + 4, link),
                  Cat(a, Two(s, t, Cell(f, Relinked(q, link), b))), true)
  {
    hide *;
    var o, here := BASE + Len(a), BinAfter(a, BASE, 0);
    var link := o + 4 + |s| - here;
    var next := Cell(f, q, b);
    var x := Cat(a, Cell(true, r, next));
    ImageFacts(data, x, true);
    ImageFrom(data, x, false);
    CellAt(data, a, true, r, next, true);
    SplitImage(data, a, r, s, t, next, false);
    var d := Splice(data, o, SizeWord(false, s) + s + (SizeWord(true, t) + t));
    var p := Cat(a, Two(s, t, End));
    TwoCells(s, t, next);
    CatAssoc(a, Two(s, t, End), next);
    CatFlat(a, Two(s, t, End));
    CellAt(d, p, f, q, b, false);
    SizeFacts(q, q);
    RelinkTail(d, p, f, q, b, link);
    TwoCells(s, t, Cell(f, Relinked(q, link), b));
    CatAssoc(a, Two(s, t, End), Cell(f, Relinked(q, link), b));
    assert o + 4 + |s| < 0x1_0000_0000;
    SplitLinks(a, r, s, t, f, q, b);
    var e := Put32(d, o + 4 + |r| + 4, link);
    var y := Cat(a, Two(s, t, Cell(f, Relinked(q, link), b)));
    ImageFacts(e, y, false);
    ImageFrom(e, y, true);
  }

  lemma RelinkTail(d: bytes, p: Layout, f: bool, q: bytes, b: Layout, link: int)
    requires Image(d, Cat(p, Cell(f, q, b)), false) && SizeOk(q)
    ensures BASE + Len(p) + 8 <= |d|
    ensures Image(Put32(d, BASE + Len(p) + 4, link), Cat(p, Cell(f, Relinked(q, link), b)), false)
  {
    hide Image, Cat, Len, LE, Splice;
    CellAt(d, p, f, q, b, false);
    RecellImage(d, p, f, q, f, Relinked(q, link), b, false);
    SpliceInner(d, BASE + Len(p), SizeWord(f, q), q, 0, Enc32(link));
  }

  lemma CarveRelink(data: bytes, x: Layout, c: FreeCell, body: bytes, used: nat) returns (y: Layout)
    requires Image(data, x, true) && c in FreeSet(x) && 8 + |body| <= used && used + 8 <= c.size
    requires c.bin + 12 <= |data| && c.offset + c.size < c.bin + U32(data, c.bin + 8)
    ensures c.bin + HEADER <= c.offset && c.offset + c.size + 8 <= |data|
    ensures Image(Put32(Splice(data, c.offset, Allocated(data, true, c.offset, body, used) + Leftover(true, c.offset - c.bin,
            c.size - used)),
                        c.offset + c.size + 4, c.offset + used - c.bin), y, true)
    ensures Took(x, y, true, c.offset, Stored(true, body, used), {FreeCell(c.offset + used, c.bin, c.size - used)})
  {
    hide Image, Free, LiveOf, Len, Cat, BinAfter, BinOffsets, LE, Splice, Flat, Relinked;
    var a, r, b := LocateFree(x, BASE, 0, c);
    CellAt(data, a, true, r, b, true);
    BinEnd(data, a, true, r, b, true);
    var o := c.offset;
    var s := data[o + 4..o + 8] + Stored(true, body, used);
    var t := Enc32(o - c.bin) + Zeros(c.size - used - 8);
    assert s[4..] == Stored(true, body, used);
    assert s[..4] == data[o + 4..o + 8] == data[o + 4..o + c.size][..4];
    assert t[..4] == Enc32(o - c.bin);
    var f, q, n := b.free, b.rest, b.next;
    RelinkImage(data, a, r, s, t, f, q, n);
    assert SizeWord(false, s) + s == Allocated(data, true, o, body, used);
    assert SizeWord(true, t) + t == Leftover(true, o - c.bin, c.size - used);
    var link := o + used - c.bin;
    y := Cat(a, Two(s, t, Cell(f, Relinked(q, link), n)));
    CarveSets(a, r, s, t, f, q, n, link);
  }

  lemma CarveSets(a: Layout, r: bytes, s: bytes, t: bytes, f: bool, q: bytes, n: Layout, link: int)
    requires SizeOk(r) && SizeOk(s) && SizeOk(t) && SizeOk(q) && |r| == 4 + |s| + |t|
    ensures var x, y := Cat(a, Cell(true, r, Cell(f, q, n))), Cat(a, Two(s, t, Cell(f, Relinked(q, link), n))); var o := BASE + Len(a);
            && Len(a) !in LiveOf(x, BASE, 8) && LiveOf(y, BASE, 8) == LiveOf(x, BASE, 8)[Len(a) := s[4..]]
            && Free(y, BASE, 0) == Without(Free(x, BASE, 0), o) + {FreeCell(o + 4 + |s|, BinAfter(a, BASE, 0), 4 + |t|)}
            && BinOffsets(y, BASE) == BinOffsets(x, BASE)
  {
    hide *;
    SizeFacts(s, q);
    var b := Cell(f, q, n);
    SplitLive(a, r, s, t, b, 8);
    SplitFree(a, r, s, t, b);
    SplitBins(a, r, s, t, b);
    var p := Cat(a, Two(s, t, End));
    var c := Cell(f, Relinked(q, link), n);
    TwoCells(s, t, b); CatAssoc(a, Two(s, t, End), b);
    TwoCells(s, t, c); CatAssoc(a, Two(s, t, End), c);
    RelinkSets(p, f, q, link, n);
  }

  // ----- appending a bin

  function NewHead(legacy: bool, at: nat, size: nat): (h: bytes)
    requires BASE <= at
    ensures |h| == HEADER
  {
    HBIN + Enc32(at - BASE) + Enc32(size) + Zeros(16) + (if legacy then Enc32(size) else Zeros(4))
  }

  lemma NewHeadOk(legacy: bool, at: nat, size: nat)
    requires BASE <= at && at - BASE < 0x1_0000_0000 && HEADER <= size < 0x1_0000_0000
    ensures HeadOk(NewHead(legacy, at, size), at, size - HEADER)
  {
    hide LE;
    var h := NewHead(legacy, at, size);
    assert h[..4] == HBIN;
    assert h[4..8] == Enc32(at - BASE);
    assert h[8..12] == Enc32(size);
    U32Enc(at - BASE);
    U32Enc(size);
  }

  /** An image with one more bin of cells behind it. */
  lemma AppendBin(x: Layout, h: bytes, w: Layout, legacy: bool, header: nat)
    requires Ok(x, BASE, 0) && !x.Cell? && OnlyCells(w) && HeadOk(h, BASE + Len(x), Len(w)) && 4 <= header
    requires legacy ==> Linked(x, BASE, 0, NONE) && Linked(w, BASE + Len(x) + HEADER, BASE + Len(x), NONE)
    ensures var y := Cat(x, Bin(h, w)); var at := BASE + Len(x);
            && Ok(y, BASE, 0) && !y.Cell? && Flat(y) == Flat(x) + (h + Flat(w)) && (legacy ==> Linked(y, BASE, 0, NONE))
            && BinOffsets(y, BASE) == BinOffsets(x, BASE) + [at]
            && Free(y, BASE, 0) == Free(x, BASE, 0) + Free(w, at + HEADER, at)
            && LiveOf(y, BASE, header) == LiveOf(x, BASE, header) + LiveOf(w, at + HEADER, header)
  {
    hide *;
    var b, at := Bin(h, w), BASE + Len(x);
    BinView(h, w, at, BinAfter(x, BASE, 0), LinkAfter(x, BASE, 0, NONE), header);
    CatOk(x, b, BASE, 0);
    CatFlat(x, b);
    CatBins(x, b, BASE);
    CatFree(x, b, BASE, 0);
    CatLive(x, b, BASE, header);
    LiveBounds(x, BASE, header);
    LiveBounds(w, at + HEADER, header);
    CatShape(x, h, w);
    if legacy { CatLinked(x, b, BASE, 0, NONE); }
    CellsFacts(w, at + HEADER, at, 0);
  }

  lemma CatShape(x: Layout, h: bytes, w: Layout)
    requires !x.Cell?
    ensures !Cat(x, Bin(h, w)).Cell?
  {
  }

  lemma BinView(h: bytes, w: Layout, at: nat, bin: nat, link: int, header: nat)
    requires OnlyCells(w) && HeadOk(h, at, Len(w)) && 4 <= header
    ensures var b := Bin(h, w);
            && Ok(b, at, 0) && Run(b, 0) == 0 && Flat(b) == h + Flat(w) && BinOffsets(b, at) == [at] && HEADER == 0x20
                && BASE == 0x1000 <= at
            && Free(b, at, bin) == Free(w, at + HEADER, at) && LiveOf(b, at, header) == LiveOf(w, at + HEADER, header)
            && (Linked(w, at + HEADER, at, NONE) ==> Linked(b, at, bin, link))
  {
    CellsFacts(w, at + HEADER, at, 0);
  }

  /** The first cell of a new bin. */
  function NewCell(legacy: bool, body: bytes, used: nat): (r: bytes)
    requires Header(legacy) + |body| <= used
    ensures |r| == used
  {
    Enc32(-(used as int)) + ((if legacy then Enc32(NONE) else []) + Stored(legacy, body, used))
  }

  /** A whole new bin: one allocated cell and, if anything is left, one free cell. */
  function NewBin(legacy: bool, at: nat, size: nat, body: bytes, used: nat): (r: bytes)
    requires BASE <= at && Header(legacy) + |body| <= used && (HEADER + used == size || HEADER + used + 8 <= size)
    ensures |r| == size
  {
    NewHead(legacy, at, size) + (NewCell(legacy, body, used)
      + if HEADER + used == size then [] else Leftover(legacy, HEADER, size - HEADER - used))
  }

  ghost function NewCells(legacy: bool, size: nat, body: bytes, used: nat): (w: Layout)
    requires Header(legacy) + |body| <= used && (HEADER + used == size || HEADER + used + 8 <= size)
  {
    var s := (if legacy then Enc32(NONE) else []) + Stored(legacy, body, used);
    if HEADER + used == size then Cell(false, s, End)
    else Two(s, (if legacy then Enc32(HEADER) else []) + Zeros(size - HEADER - used - Header(legacy)), End)
  }

  lemma NewCellsFacts(legacy: bool, at: nat, size: nat, body: bytes, used: nat)
    requires BASE <= at && Header(legacy) + |body| <= used && 8 <= used && (HEADER + used == size || HEADER + used + 8 <= size)
             && size < LIMIT
    ensures var w := NewCells(legacy, size, body, used); var o := at + HEADER;
            && OnlyCells(w) && Len(w) == size - HEADER && NewBin(legacy, at, size, body, used) == NewHead(legacy, at, size) + Flat(w)
            && LiveOf(w, o, Header(legacy)) == map[o - BASE := Stored(legacy, body, used)]
            && Free(w, o, at) == (if HEADER + used == size then {} else {FreeCell(o + used, at, size - HEADER - used)})
  {
    hide LE, LiveOf, Free, Flat, Len, OnlyCells, Stored;
    var o, h := at + HEADER, Header(legacy);
    var s := (if legacy then Enc32(NONE) else []) + Stored(legacy, body, used);
    assert s[h - 4..] == Stored(legacy, body, used);
    assert SizeWord(false, s) + s == NewCell(legacy, body, used);
    if HEADER + used == size {
      OneCell(false, s, End);
      SingleCell(false, s);
      LiveOne(false, s, o, h);
      FreeOne(false, s, o, at);
    } else {
      var t := (if legacy then Enc32(HEADER) else []) + Zeros(size - HEADER - used - h);
      TwoCells(s, t, End);
      TwoSets(s, t, o, at, h);
      assert SizeWord(true, t) + t == Leftover(legacy, HEADER, size - HEADER - used);
    }
  }

  lemma NewCellsLinked(at: nat, size: nat, body: bytes, used: nat)
    requires BASE <= at && 8 + |body| <= used && (HEADER + used == size || HEADER + used + 8 <= size)
    ensures Linked(NewCells(true, size, body, used), at + HEADER, at, NONE)
  {
    hide LE, Stored;
    var s := Enc32(NONE) + Stored(true, body, used);
    assert s[0..4] == Enc32(NONE);
    U32Enc(NONE);
    if HEADER + used != size {
      var t := Enc32(HEADER) + Zeros(size - HEADER - used - 8);
      assert t[0..4] == Enc32(HEADER);
      U32Enc(HEADER);
      assert Linked(Cell(true, t, End), at + HEADER + 4 + |s|, at, HEADER);
    }
  }

  /** Appending a bin that holds `body`. */
  lemma GrowEdit(data: bytes, x: Layout, legacy: bool, body: bytes, used: nat, size: nat, d: bytes) returns (y: Layout)
    requires Image(data, x, legacy) && Header(legacy) + |body| <= used && 8 <= used
    requires (HEADER + used == size || HEADER + used + 8 <= size) && |data| + size <= LIMIT
    requires |d| == |data| + size && d[BASE..] == data[BASE..] + NewBin(legacy, |data|, size, body, used)
             && U32(d, 0x28) == |data| - BASE + size
    ensures BASE <= |data| && Image(d, y, legacy)
    ensures var k := |data| - BASE + HEADER;
              k !in LiveCells(x, legacy) && LiveCells(y, legacy) == LiveCells(x, legacy)[k := Stored(legacy, body, used)]
    ensures BinOffsets(y, BASE) == BinOffsets(x, BASE) + [|data|]
    ensures FreeSet(y) == FreeSet(x) + (if HEADER + used == size then {} else {FreeCell(|data| + HEADER + used, |data|,
            size - HEADER - used)})
    ensures Without(FreeSet(x), |data| + HEADER + used) == FreeSet(x)
  {
    hide Image, Ok, Linked, Free, LiveOf, Flat, Len, Cat, BinOffsets, NewBin, NewCells, NewHead, HeadOk, LE, Stored, OnlyCells, Run;
    ImageFacts(data, x, legacy);
    var at := |data|;
    var h, w := NewHead(legacy, at, size), NewCells(legacy, size, body, used);
    NewCellsFacts(legacy, at, size, body, used);
    NewHeadOk(legacy, at, size);
    if legacy { NewCellsLinked(at, size, body, used); }
    AppendBin(x, h, w, legacy, Header(legacy));
    y := Cat(x, Bin(h, w));
    LiveBounds(x, BASE, Header(legacy));
    FreeBounds(x, BASE, 0);
    assert d[BASE..] == Flat(y);
    CatFlat(x, Bin(h, w));
    ImageFrom(d, y, legacy);
  }
}
