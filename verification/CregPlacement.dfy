/** Placing the key records of a CREG file into data blocks. */
module CregPlacement {
  import opened Bytes
  import opened CregRecord

  datatype Generation = Windows95 | Windows95Rtm | Nashville | Windows98 | Windows98Fe | WindowsMe

  predicate Modern(g: Generation) { g == Windows98 || g == Windows98Fe || g == WindowsMe }

  /** Whether small records keep clear of the extent boundaries. */
  predicate Extents(g: Generation) { Modern(g) || g == Windows95Rtm }

  function Limit(g: Generation): nat { if g == Windows95 then 0x4000 else 0xffff }

  /** What a block keeps free behind its records. */
  function Reserve(g: Generation): nat { if g == Windows95Rtm || g == Nashville then 0x100c else 12 }

  function BlockSize(g: Generation, used: nat): (n: nat)
    ensures used + Reserve(g) <= n && n % 0x1000 == 0
  {
    Align(used + Reserve(g), 0x1000)
  }

  /** Records first..end of the list, in a block of the given size. */
  datatype Block = Block(first: nat, end: nat, size: nat)

  // ----- extents: 4 KiB, then 8 KiB each

  predicate IsBoundary(b: nat) { 0x1000 <= b && (b - 0x1000) % 0x2000 == 0 }

  function NextBoundary(at: nat): nat { if at < 0x1000 then 0x1000 else 0x1000 + ((at - 0x1000) / 0x2000 + 1) * 0x2000 }

  lemma NextIsNext(at: nat)
    ensures IsBoundary(NextBoundary(at)) && at < NextBoundary(at) && forall b :: at < b < NextBoundary(at) ==> !IsBoundary(b)
  {
  }

  /** The bytes lie in one extent. */
  predicate InOneExtent(start: nat, length: nat) { start + length <= NextBoundary(start) }

  lemma OneExtentMeans(start: nat, length: nat)
    ensures InOneExtent(start, length) <==> forall b :: start < b < start + length ==> !IsBoundary(b)
  {
    NextIsNext(start);
    if !InOneExtent(start, length) {
      assert start < NextBoundary(start) < start + length;
    }
  }

  // ----- the result of a placement

  function Total(rs: seq<bytes>): nat { if rs == [] then 0 else Total(rs[..|rs| - 1]) + |rs[|rs| - 1]| }

  /** A record with more space behind it: only its leading length tells. */
  predicate Extends(b: bytes, a: bytes) {
    20 <= |a| <= |b| && (b == a || b == Put32(a + Zeros(|b| - |a|), 0, |b|))
  }

  predicate TooBig(g: Generation, r: bytes) { BlockSize(g, 32 + |r|) > Limit(g) }

  ghost predicate Padded(records: seq<bytes>, out: seq<bytes>) {
    |out| == |records| && forall i :: 1 <= i < |records| ==> Extends(out[i], records[i])
  }

  /** Where record i of the list starts in a block that begins with record `first`. */
  function Start(out: seq<bytes>, first: nat, i: nat): nat
    requires first <= i <= |out|
  {
    32 + Total(out[first..i])
  }

  /** Small records, other than the first of the block, keep within one extent. */
  ghost predicate Clear(g: Generation, records: seq<bytes>, out: seq<bytes>, first: nat, end: nat)
    requires end <= |out| == |records|
  {
    Extents(g) ==> forall i :: first < i < end && |records[i]| <= 0x1000 ==> InOneExtent(Start(out, first, i), |out[i]|)
  }

  ghost predicate BlockOk(g: Generation, records: seq<bytes>, out: seq<bytes>, b: Block)
    requires |out| == |records|
  {
    && b.first < b.end <= |out| && b.end - b.first <= 255
    && b.size == BlockSize(g, Start(out, b.first, b.end)) <= Limit(g)
    && Clear(g, records, out, b.first, b.end)
  }

  /** The blocks take the records from one index to another in order, none left out. */
  predicate Covers(blocks: seq<Block>, from: nat, to: nat) {
    if blocks == [] then from == to
    else blocks[|blocks| - 1].end == to && blocks[|blocks| - 1].first <= to && Covers(blocks[..|blocks| - 1], from, blocks[|blocks| - 1].first)
  }

  ghost predicate Placed(g: Generation, records: seq<bytes>, out: seq<bytes>, blocks: seq<Block>, end: nat)
    requires |out| == |records|
  {
    Covers(blocks, 1, end) && forall k :: 0 <= k < |blocks| ==> BlockOk(g, records, out, blocks[k]) && blocks[k].end <= end
  }

  lemma TotalSnoc(out: seq<bytes>, first: nat, i: nat)
    requires first <= i < |out|
    ensures Total(out[first..i + 1]) == Total(out[first..i]) + |out[i]|
  {
    assert out[first..i + 1][..i - first] == out[first..i];
  }

  lemma TotalSame(a: seq<bytes>, b: seq<bytes>, first: nat, i: nat)
    requires first <= i <= |a| == |b| && forall j :: first <= j < i ==> a[j] == b[j]
    ensures Total(a[first..i]) == Total(b[first..i])
  {
    assert a[first..i] == b[first..i];
  }

  lemma Grown(g: Generation, records: seq<bytes>, out: seq<bytes>, first: nat, end: nat)
    requires first <= end < |out| == |records| && Clear(g, records, out, first, end)
    requires Extents(g) && end > first && |records[end]| <= 0x1000 ==> InOneExtent(Start(out, first, end), |out[end]|)
    ensures Clear(g, records, out, first, end + 1) && Start(out, first, end + 1) == Start(out, first, end) + |out[end]|
  {
    hide Total;
    TotalSnoc(out, first, end);
  }

  /** After the stretch the next record starts an extent and does not reach its end. */
  lemma FitsExtent(size: nat, length: nat)
    ensures size + length <= NextBoundary(size) ==> InOneExtent(size, length)
    ensures length <= 0x1000 ==> InOneExtent(NextBoundary(size), length)
  {
  }

  /** Makes sure a small record will not cross an extent boundary, stretching the one before it if need be. */
  method ClearExtent(g: Generation, records: seq<bytes>, given: seq<bytes>, first: nat, end: nat)
    returns (go: bool, out: seq<bytes>, size: nat)
    requires 1 <= first <= end < |records| == |given| && Padded(records, given) && Clear(g, records, given, first, end)
    requires end > first ==> BlockSize(g, Start(given, first, end)) <= Limit(g)
    ensures |out| == |records| && Padded(records, out) && Clear(g, records, out, first, end) && size == Start(out, first, end)
    ensures forall i :: 0 <= i < |records| && i != end - 1 ==> out[i] == given[i]
    ensures end == first ==> go && out == given
    ensures end > first ==> BlockSize(g, size) <= Limit(g)
    ensures go && Extents(g) && end > first && |given[end]| <= 0x1000 ==> InOneExtent(size, |given[end]|)
  {
    hide Total, Extends, NextBoundary, Align, BlockSize, Clear;
    go, out, size := true, given, Start(given, first, end);
    var length := |given[end]|;
    var boundary := NextBoundary(size);
    FitsExtent(size, length);
    SmallerRecord(records, given, end);
    if Extents(g) && length <= 0x1000 && end > first && size + length > boundary {
      if Align(boundary + 12, 0x1000) > Limit(g) {
        go := false;
      } else {
        NextIsNext(size);
        var previous := end - 1;
        ExtendsSize(records, given, previous);
        var padded := given[previous] + Zeros(boundary - size);
        padded := Put32(padded, 0, |padded|);
        MoreSpace(records[previous], given[previous], padded);
        Stretch(g, records, given, first, end, padded);
        RtmFits(g, boundary);
        out, size := given[previous := padded], boundary;
      }
    }
  }

  lemma ExtendsSize(records: seq<bytes>, out: seq<bytes>, i: nat)
    requires Padded(records, out) && 1 <= i < |out|
    ensures |records[i]| <= |out[i]| && 20 <= |out[i]| && Extends(out[i], records[i])
  {
  }

  lemma SmallerRecord(records: seq<bytes>, out: seq<bytes>, i: nat)
    requires Padded(records, out) && 1 <= i < |out|
    ensures |records[i]| <= |out[i]|
  {
  }

  /** Extending the last record of a block to the next boundary. */
  lemma Stretch(g: Generation, records: seq<bytes>, out: seq<bytes>, first: nat, end: nat, padded: bytes)
    requires first < end < |out| == |records| && Clear(g, records, out, first, end) && |records[end]| <= |out[end]| <= 0x1000
    requires var size := Start(out, first, end);
             size + |out[end]| > NextBoundary(size) && |padded| == |out[end - 1]| + NextBoundary(size) - size
    ensures var next := out[end - 1 := padded];
            Clear(g, records, next, first, end) && Start(next, first, end) == NextBoundary(Start(out, first, end))
  {
    hide Total;
    var next := out[end - 1 := padded];
    TotalSnoc(out, first, end - 1);
    TotalSnoc(next, first, end - 1);
    forall i | first <= i < end ensures Start(next, first, i) == Start(out, first, i) { TotalSame(next, out, first, i); }
  }

  /** Fills one block from a given record on. */
  method FillBlock(g: Generation, records: seq<bytes>, given: seq<bytes>, first: nat) returns (r: Parsed<nat>, out: seq<bytes>, size: nat)
    requires 1 <= first < |records| == |given| && Padded(records, given) && forall i :: first <= i < |records| ==> given[i] == records[i]
    ensures |out| == |records| && Padded(records, out)
    ensures r.Bad? <==> TooBig(g, records[first])
    ensures r.Good? ==> BlockOk(g, records, out, Block(first, r.value, BlockSize(g, size))) && size == Start(out, first, r.value)
    ensures r.Good? ==> forall i :: 0 <= i < first || r.value <= i < |records| ==> out[i] == given[i]
  {
    hide Total, Extends, Align, BlockSize, Clear, Padded, Extents, InOneExtent;
    size, out := 32, given;
    var end, go, bad := first, true, false;
    StartAt(out, first);
    ClearStart(g, records, out, first);
    while end < |records| && go
      invariant first <= end <= |records| == |out| && size == Start(out, first, end) && Padded(records, out)
      invariant Clear(g, records, out, first, end) && end - first <= 255
      invariant forall i :: 0 <= i < first || end <= i < |records| ==> out[i] == given[i]
      invariant bad ==> !go && TooBig(g, records[first])
      invariant !bad && end == first ==> go
      invariant end > first ==> BlockSize(g, size) <= Limit(g) && !TooBig(g, records[first]) && !bad
      decreases |records| - end, go
    {
      if end - first == 255 {
        go := false;
      } else {
        go, out, size := ClearExtent(g, records, out, first, end);
        StartAt(out, first);
        var length := |out[end]|;
        if go {
          if BlockSize(g, size + length) > Limit(g) {
            go := false;
            bad := end == first;
          } else {
            Grown(g, records, out, first, end);
            size, end := size + length, end + 1;
          }
        }
      }
    }
    r := if bad then Bad else Good(end);
  }

  lemma ClearStart(g: Generation, records: seq<bytes>, out: seq<bytes>, first: nat)
    requires first <= |out| == |records|
    ensures Clear(g, records, out, first, first)
  {
  }

  lemma StartAt(out: seq<bytes>, first: nat)
    requires first <= |out|
    ensures Start(out, first, first) == 32
  {
    assert out[first..first] == [];
  }

  /** Giving a record more space twice is giving it the sum. */
  lemma MoreSpace(a: bytes, b: bytes, c: bytes)
    requires Extends(b, a) && |c| >= |b| && c == Put32(b + Zeros(|c| - |b|), 0, |c|)
    ensures Extends(c, a)
  {
    var d := a + Zeros(|c| - |a|);
    assert b[4..] == (a + Zeros(|b| - |a|))[4..];
    assert c == Enc32(|c|) + (b + Zeros(|c| - |b|))[4..];
    assert Put32(d, 0, |c|) == Enc32(|c|) + d[4..];
    assert (b + Zeros(|c| - |b|))[4..] == b[4..] + Zeros(|c| - |b|);
    assert d[4..] == a[4..] + Zeros(|c| - |a|);
    assert (a + Zeros(|b| - |a|))[4..] == a[4..] + Zeros(|b| - |a|);
    assert Zeros(|b| - |a|) + Zeros(|c| - |b|) == Zeros(|c| - |a|);
  }

  /** A stretch that leaves room for the free record leaves room for the whole reserve. */
  lemma RtmFits(g: Generation, boundary: nat)
    requires IsBoundary(boundary) && Extents(g) && Align(boundary + 12, 0x1000) <= Limit(g)
    ensures BlockSize(g, boundary) <= Limit(g)
  {
  }

  lemma BlockFrame(g: Generation, records: seq<bytes>, a: seq<bytes>, b: seq<bytes>, k: Block)
    requires |a| == |b| == |records| && BlockOk(g, records, a, k) && forall i :: k.first <= i < k.end ==> a[i] == b[i]
    ensures BlockOk(g, records, b, k)
  {
    hide Total, BlockSize;
    TotalSame(a, b, k.first, k.end);
    forall i | k.first <= i <= k.end ensures Start(a, k.first, i) == Start(b, k.first, i) { TotalSame(a, b, k.first, i); }
  }

  /** The identities of the records: the block number above, the place in the block below. */
  ghost predicate Identified(blocks: seq<Block>, ids: seq<nat>) {
    forall k, i :: 0 <= k < |blocks| && blocks[k].first <= i < blocks[k].end <= |ids| ==> ids[i] == 0x1_0000 * k + (i - blocks[k].first)
  }

  /** Places all records but the first, which has none, and numbers them. */
  method Place(g: Generation, records: seq<bytes>) returns (r: Parsed<seq<Block>>, out: seq<bytes>, ids: seq<nat>)
    requires records != [] && forall i :: 1 <= i < |records| ==> 20 <= |records[i]|
    ensures |out| == |records| == |ids| && Padded(records, out)
    ensures r.Bad? <==> exists j :: 1 <= j < |records| && TooBig(g, records[j])
    ensures r.Good? ==> Placed(g, records, out, r.value, |records|) && Identified(r.value, ids)
  {
    hide BlockOk, TooBig, Total, Covers;
    var blocks: seq<Block>, first, bad := [], 1, false;
    out, ids := records, seq(|records|, _ => 0);
    CoversStart();
    while first < |records| && !bad
      invariant 1 <= first <= |records| == |out| == |ids| && Padded(records, out)
                && (forall i :: first <= i < |records| ==> out[i] == records[i])
      invariant !bad ==>
                  Placed(g, records, out, blocks, first) && Identified(blocks, ids) && forall j :: 1 <= j < first ==> !TooBig(g, records[j])
      invariant bad ==> exists j :: 1 <= j < |records| && TooBig(g, records[j])
      decreases |records| - first, !bad
    {
      var end, next, size := FillBlock(g, records, out, first);
      match end {
        case Bad => bad := true;
        case Good(e) =>
          var b := Block(first, e, BlockSize(g, size));
          SmallBlock(g, records, next, b);
          Appended(g, records, out, next, blocks, b);
          SmallEnough(g, records, next, b);
          ids := NumberBlock(ids, first, e, 0x1_0000 * |blocks|, blocks);
          blocks, out, first := blocks + [b], next, e;
      }
    }
    r := if bad then Bad else Good(blocks);
  }

  lemma CoversStart()
    ensures Covers([], 1, 1)
  {
  }

  lemma Appended(g: Generation, records: seq<bytes>, out: seq<bytes>, next: seq<bytes>, blocks: seq<Block>, b: Block)
    requires |out| == |next| == |records| && Placed(g, records, out, blocks, b.first) && BlockOk(g, records, next, b) && b.first < b.end
    requires forall i :: 0 <= i < b.first ==> out[i] == next[i]
    ensures Placed(g, records, next, blocks + [b], b.end)
  {
    hide BlockOk;
    var more := blocks + [b];
    assert more[..|more| - 1] == blocks;
    forall k | 0 <= k < |blocks| ensures BlockOk(g, records, next, blocks[k]) { BlockFrame(g, records, out, next, blocks[k]); }
  }

  lemma SmallEnough(g: Generation, records: seq<bytes>, out: seq<bytes>, b: Block)
    requires |out| == |records| && BlockOk(g, records, out, b) && Padded(records, out) && 1 <= b.first
    ensures forall j :: b.first <= j < b.end ==> !TooBig(g, records[j])
  {
    hide BlockOk;
    SmallBlock(g, records, out, b);
    forall j | b.first <= j < b.end ensures !TooBig(g, records[j]) {
      PartOfTotal(out, b.first, b.end, j);
      SizeBound(g, records, out, b, j);
    }
  }

  lemma SizeBound(g: Generation, records: seq<bytes>, out: seq<bytes>, b: Block, j: nat)
    requires |out| == |records| && BlockOk(g, records, out, b) && Padded(records, out) && 1 <= b.first <= j < b.end
             && |out[j]| <= Total(out[b.first..b.end])
    ensures !TooBig(g, records[j])
  {
    hide Total, Put32;
  }

  lemma {:induction false} PartOfTotal(out: seq<bytes>, first: nat, end: nat, j: nat)
    requires first <= j < end <= |out|
    ensures |out[j]| <= Total(out[first..end])
    decreases end
  {
    TotalSnoc(out, first, end - 1);
    if j < end - 1 { PartOfTotal(out, first, end - 1, j); }
  }

  method NumberBlock(ids: seq<nat>, first: nat, end: nat, base: nat, ghost blocks: seq<Block>) returns (r: seq<nat>)
    requires first < end <= |ids| && Identified(blocks, ids) && base == 0x1_0000 * |blocks|
    requires forall k :: 0 <= k < |blocks| ==> blocks[k].end <= first
    ensures |r| == |ids| && forall size :: Identified(blocks + [Block(first, end, size)], r)
  {
    r := ids;
    var i := first;
    while i < end
      invariant first <= i <= end && |r| == |ids| && (forall j :: 0 <= j < first ==> r[j] == ids[j])
                && forall j :: first <= j < i ==> r[j] == base + (j - first)
    {
      r := r[i := base + (i - first)];
      i := i + 1;
    }
  }

  lemma {:induction false} FindBlock(blocks: seq<Block>, from: nat, to: nat, i: nat) returns (k: nat)
    requires Covers(blocks, from, to) && from <= i < to
    ensures k < |blocks| && blocks[k].first <= i < blocks[k].end
  {
    var n := |blocks| - 1;
    if blocks[n].first <= i { k := n; } else { k := FindBlock(blocks[..n], from, blocks[n].first, i); }
  }

  /** No two named keys have one identity. */
  lemma IdentitiesDiffer(g: Generation, records: seq<bytes>, out: seq<bytes>, blocks: seq<Block>, ids: seq<nat>, i: nat, j: nat)
    requires |out| == |records| == |ids| && Placed(g, records, out, blocks, |records|) && Identified(blocks, ids) && 1 <= i < j < |records|
    ensures ids[i] != ids[j]
  {
    hide BlockOk, Covers;
    var a := FindBlock(blocks, 1, |records|, i);
    var b := FindBlock(blocks, 1, |records|, j);
    SmallBlock(g, records, out, blocks[a]);
    SmallBlock(g, records, out, blocks[b]);
  }

  lemma SmallBlock(g: Generation, records: seq<bytes>, out: seq<bytes>, b: Block)
    requires |out| == |records| && BlockOk(g, records, out, b)
    ensures b.first < b.end <= |out| && b.end - b.first <= 255
  {
  }
}
