/** A generated disk image: extents of data, of files and of nothing over a sparse range. */
module GeneratedImage {
  import opened Bytes

  /** Where the bytes of an extent come from. A mapped file knows which parts of it are allocated. */
  datatype Source = Hole | Data(data: bytes) | File(content: bytes, off: int, id: nat, mapped: bool)

  datatype Extent = Extent(start: int, size: int, source: Source)

  predicate Fits(e: Extent, size: int) {
    0 <= e.start && 0 < e.size && e.start + e.size <= size && (e.source.Data? ==> e.size <= |e.source.data|)
  }

  predicate Apart(s: seq<Extent>) { forall i, j :: 0 <= i < j < |s| ==> s[i].start + s[i].size <= s[j].start }

  predicate Indexed(s: seq<Extent>, size: int) { 0 <= size && Apart(s) && forall i :: 0 <= i < |s| ==> Fits(s[i], size) }

  /** A file-backed extent lies inside its file. */
  predicate Inside(e: Extent) { e.source.File? ==> 0 <= e.source.off && e.source.off + e.size <= |e.source.content| }

  /** No extent is in a file. */
  predicate InMemory(extents: seq<Extent>) { forall i :: 0 <= i < |extents| ==> !extents[i].source.File? }

  ghost predicate AllInside(s: seq<Extent>) { forall i :: 0 <= i < |s| ==> Inside(s[i]) }

  // ----- the bytes of the image

  function FileByte(content: bytes, i: int): byte { if 0 <= i < |content| then content[i] else 0 }

  function SourceByte(e: Extent, i: int): byte {
    match e.source
    case Hole => 0
    case Data(d) => FileByte(d, i)
    case File(c, off, _, _) => FileByte(c, off + i)
  }

  ghost function ByteAt(s: seq<Extent>, i: int): byte {
    if s == [] then 0
    else
      var e := s[|s| - 1];
      if e.start <= i < e.start + e.size then SourceByte(e, i - e.start) else ByteAt(s[..|s| - 1], i)
  }

  lemma {:induction false} InExtent(s: seq<Extent>, k: nat, i: int)
    requires Apart(s) && k < |s| && s[k].start <= i < s[k].start + s[k].size
    ensures ByteAt(s, i) == SourceByte(s[k], i - s[k].start)
  {
    var n := |s| - 1;
    if k < n { InExtent(s[..n], k, i); }
  }

  lemma {:induction false} InGap(s: seq<Extent>, i: int)
    requires forall k :: 0 <= k < |s| ==> !(s[k].start <= i < s[k].start + s[k].size)
    ensures ByteAt(s, i) == 0
  {
    if s != [] { InGap(s[..|s| - 1], i); }
  }

  // ----- the index

  predicate Rising(s: seq<Extent>) { forall i, j :: 0 <= i < j < |s| ==> s[i].start <= s[j].start }

  function NonEmpty(s: seq<Extent>): seq<Extent> {
    if s == [] then [] else NonEmpty(s[..|s| - 1]) + if s[|s| - 1].size == 0 then [] else [s[|s| - 1]]
  }

  method InsertExtent(s: seq<Extent>, e: Extent) returns (t: seq<Extent>)
    requires Rising(s)
    ensures Rising(t) && multiset(t) == multiset(s) + multiset{e}
  {
    hide Rising;
    var i := |s|;
    while i > 0 && e.start < s[i - 1].start
      invariant 0 <= i <= |s| && forall k :: i <= k < |s| ==> e.start < s[k].start
    {
      i := i - 1;
    }
    PlaceExtent(s, e, i);
    PlacedAll(s, e, i);
    t := s[..i] + [e] + s[i..];
  }

  lemma PlacedAll(s: seq<Extent>, e: Extent, i: nat)
    requires i <= |s|
    ensures multiset(s[..i] + [e] + s[i..]) == multiset(s) + multiset{e}
  {
    assert s == s[..i] + s[i..];
  }

  lemma PlaceExtent(s: seq<Extent>, e: Extent, i: nat)
    requires Rising(s) && i <= |s| && (forall k :: i <= k < |s| ==> e.start < s[k].start) && (i > 0 ==> s[i - 1].start <= e.start)
    ensures Rising(s[..i] + [e] + s[i..])
  {
    var t := s[..i] + [e] + s[i..];
    forall a, b | 0 <= a < b < |t| ensures t[a].start <= t[b].start {
      assert t[a] == if a < i then s[a] else if a == i then e else s[a - 1];
      assert t[b] == if b < i then s[b] else if b == i then e else s[b - 1];
    }
  }

  ghost predicate AllFit(m: multiset<Extent>, size: int) { forall e :: e in m ==> Fits(e, size) }

  ghost predicate Sorts(s: seq<Extent>, given: seq<Extent>) { Rising(s) && multiset(s) == multiset(NonEmpty(given)) }

  /** Drops empty extents, sorts the others, and refuses any that leave the image, lack data or overlap. */
  method EnsureIndexed(size: int, given: seq<Extent>) returns (r: Option<seq<Extent>>)
    ensures r.Some? ==> Indexed(r.value, size) && Sorts(r.value, given)
    ensures r.None? ==> size < 0 || (exists i :: 0 <= i < |given| && given[i].size != 0 && !Fits(given[i], size)) || exists s :: Sorts(s, given) && !Apart(s)
  {
    hide Rising, Fits, AllFit, Apart;
    r := None;
    if size < 0 {
      return;
    }
    var s: seq<Extent>, i := [], 0;
    NoneYet(size);
    assert given[..0] == [];
    while i < |given|
      invariant 0 <= i <= |given| && Sorts(s, given[..i]) && AllFit(multiset(s), size)
    {
      assert given[..i + 1][..i] == given[..i];
      if given[i].size != 0 {
        if !Fits(given[i], size) {
          return;
        }
        OneMoreFits(multiset(s), given[i], size);
        s := InsertExtent(s, given[i]);
      }
      i := i + 1;
    }
    assert given[..|given|] == given;
    SeqFits(s, size);
    var ok := CheckApart(s, size);
    if ok { r := Some(s); }
  }

  lemma NoneYet(size: int)
    ensures Rising([]) && AllFit(multiset{}, size)
  {
  }

  lemma OneMoreFits(m: multiset<Extent>, e: Extent, size: int)
    requires AllFit(m, size) && Fits(e, size)
    ensures AllFit(m + multiset{e}, size)
  {
  }

  lemma SeqFits(s: seq<Extent>, size: int)
    requires AllFit(multiset(s), size)
    ensures forall k :: 0 <= k < |s| ==> Fits(s[k], size)
  {
    forall k | 0 <= k < |s| ensures Fits(s[k], size) { assert s[k] in multiset(s); }
  }

  method CheckApart(s: seq<Extent>, ghost size: int) returns (ok: bool)
    requires forall k :: 0 <= k < |s| ==> Fits(s[k], size)
    ensures ok <==> Apart(s)
  {
    hide Fits;
    ok := true;
    var i := 1;
    while i < |s| && ok
      invariant 1 <= i && (ok ==> forall a, b :: 0 <= a < b < i && b < |s| ==> s[a].start + s[a].size <= s[b].start) && (!ok ==> !Apart(s))
    {
      if s[i].start < s[i - 1].start + s[i - 1].size {
        ok := false;
      } else {
        Positive(s[i - 1], size);
      }
      i := i + 1;
    }
  }

  lemma Positive(e: Extent, size: int)
    requires Fits(e, size)
    ensures 0 < e.size
  {
  }

  // ----- extent maps

  /** A stretch of an image that is stored, or that reads as zero. */
  datatype Piece = Piece(offset: int, length: int, stored: bool)

  /** What a mapped file answers about a range of it, or that it fails. */
  type Nested = (nat, int, int) -> Option<seq<Piece>>

  ghost predicate ZeroFile(content: bytes, p: Piece) {
    !p.stored ==> forall i :: p.offset <= i < p.offset + p.length ==> FileByte(content, i) == 0
  }

  /** A file never calls a range unallocated that holds something but zeros. */
  ghost predicate TruthfulFile(content: bytes, id: nat, nested: Nested) {
    forall off, length, j :: nested(id, off, length).Some? && 0 <= j < |nested(id, off, length).value|
        ==> ZeroFile(content, nested(id, off, length).value[j])
  }

  ghost predicate Truthful(s: seq<Extent>, nested: Nested) {
    forall k :: 0 <= k < |s| && s[k].source.File? ==> TruthfulFile(s[k].source.content, s[k].source.id, nested)
  }

  /** Stretches that follow one another without a gap. */
  predicate Chain(out: seq<Piece>, off: int, end: int) {
    && (out == [] ==> off == end)
    && (out != [] ==> out[0].offset == off && out[|out| - 1].offset + out[|out| - 1].length == end)
    && (forall j :: 0 <= j < |out| ==> 0 < out[j].length)
    && (forall j :: 0 < j < |out| ==> out[j].offset == out[j - 1].offset + out[j - 1].length)
  }

  /** Such stretches, no two neighbours of one kind. */
  predicate Cover(out: seq<Piece>, off: int, end: int) {
    Chain(out, off, end) && forall j :: 0 < j < |out| ==> out[j].stored != out[j - 1].stored
  }

  lemma {:induction false} ChainBound(out: seq<Piece>, off: int, end: int, j: nat)
    requires Chain(out, off, end) && j < |out|
    ensures out[j].offset + out[j].length <= end
    decreases |out| - j
  {
    if j + 1 < |out| { ChainBound(out, off, end, j + 1); }
  }

  /** Every mapped file answers any request inside an extent with stretches that cover it. */
  ghost predicate Answers(s: seq<Extent>, nested: Nested) {
    forall k, within, n :: 0 <= k < |s| ==> AnswersOne(s[k], within, n, nested)
  }

  ghost predicate AnswersOne(e: Extent, within: int, n: int, nested: Nested) {
    e.source.File? && e.source.mapped && 0 <= within && 0 <= n && within + n <= e.size ==>
      var answer := nested(e.source.id, e.source.off + within, n);
      answer.Some? && Chain(answer.value, e.source.off + within, e.source.off + within + n)
  }

  function AppendExtent(out: seq<Piece>, offset: int, size: int, stored: bool): seq<Piece> {
    if size <= 0 then out
    else if out != [] && out[|out| - 1].offset + out[|out| - 1].length == offset && out[|out| - 1].stored == stored then
      out[..|out| - 1] + [out[|out| - 1].(length := out[|out| - 1].length + size)]
    else out + [Piece(offset, size, stored)]
  }

  lemma AppendCovers(out: seq<Piece>, off: int, offset: int, size: int, stored: bool)
    requires Cover(out, off, offset) && 0 <= size
    ensures Cover(AppendExtent(out, offset, size, stored), off, offset + size)
  {
    var more := AppendExtent(out, offset, size, stored);
    if size > 0 {
      forall j | 0 < j < |more| ensures more[j].offset == more[j - 1].offset + more[j - 1].length && more[j].stored != more[j - 1].stored {
        if j < |out| { assert out[j].offset == out[j - 1].offset + out[j - 1].length; }
      }
    }
  }

  datatype Status = Done | Eof | Failed

  class Image {
    const size: int
    const extents: seq<Extent>

    ghost predicate Valid() { Indexed(extents, size) }

    /** The one byte sequence all operations describe. */
    ghost function Bytes(): (b: bytes)
      requires Valid()
      ensures |b| == size
    {
      seq(size, i => ByteAt(extents, i))
    }

    constructor (size: int, extents: seq<Extent>)
      requires Indexed(extents, size)
      ensures Valid() && this.size == size && this.extents == extents
    {
      this.size, this.extents := size, extents;
    }

    /** Extents before an index end before a position, the one at it behind. */
    ghost predicate Cursor(index: nat, pos: int) {
      && index <= |extents| && (forall i :: 0 <= i < index ==> extents[i].start + extents[i].size <= pos)
      && (index < |extents| ==> pos < extents[index].start + extents[index].size)
    }

    method Search(off: int) returns (index: nat)
      requires Valid()
      ensures Cursor(index, off)
    {
      var low, high := 0, |extents|;
      while low < high
        invariant 0 <= low <= high <= |extents| && (forall i :: 0 <= i < low ==> extents[i].start + extents[i].size <= off)
        invariant high < |extents| ==> off < extents[high].start + extents[high].size
      {
        var middle := (low + high) / 2;
        if extents[middle].start + extents[middle].size > off {
          high := middle;
        } else {
          forall i | 0 <= i < middle ensures extents[i].start + extents[i].size <= off {
            assert extents[i].start + extents[i].size <= extents[middle].start && Fits(extents[middle], size);
          }
          low := middle + 1;
        }
      }
      index := low;
    }

    lemma NextCursor(index: nat, pos: int)
      requires Valid() && index < |extents| && (forall i :: 0 <= i < index ==> extents[i].start + extents[i].size <= pos)
               && pos == extents[index].start + extents[index].size
      ensures Cursor(index + 1, pos)
    {
      if index + 1 < |extents| {
        assert extents[index].start + extents[index].size <= extents[index + 1].start && Fits(extents[index + 1], size);
      }
    }

    lemma GapByte(index: nat, pos: int, i: int)
      requires Valid() && Cursor(index, pos) && pos <= i && (index < |extents| ==> i < extents[index].start)
      ensures ByteAt(extents, i) == 0 && forall k :: 0 <= k < |extents| ==> !(extents[k].start <= i < extents[k].start + extents[k].size)
    {
      hide ByteAt;
      forall k | 0 <= k < |extents| ensures !(extents[k].start <= i < extents[k].start + extents[k].size) {
        if k > index { assert extents[index].start + extents[index].size <= extents[k].start && Fits(extents[index], size); }
      }
      InGap(extents, i);
    }

    lemma GapIsZero(index: nat, pos: int, n: nat)
      requires Valid() && Cursor(index, pos) && 0 <= pos && pos + n <= size && (index < |extents| ==> pos + n <= extents[index].start)
      ensures Zeros(n) == Bytes()[pos..pos + n]
    {
      hide ByteAt, Cursor, Indexed;
      var b := Bytes();
      forall i | pos <= i < pos + n ensures b[i] == 0 { GapByte(index, pos, i); }
      assert b[pos..pos + n] == seq(n, k => 0 as byte);
    }

    /** The bytes an extent contributes from a place on. */
    lemma ExtentIs(index: nat, pos: int, piece: bytes)
      requires Valid() && index < |extents| && extents[index].start <= pos && pos + |piece| <= extents[index].start + extents[index].size
      requires forall i :: 0 <= i < |piece| ==> piece[i] == SourceByte(extents[index], pos - extents[index].start + i)
      ensures 0 <= pos && pos + |piece| <= size && piece == Bytes()[pos..pos + |piece|]
    {
      hide ByteAt, SourceByte;
      assert Fits(extents[index], size);
      var b := Bytes();
      forall i | 0 <= i < |piece| ensures piece[i] == b[pos..pos + |piece|][i] { InExtent(extents, index, pos + i); }
    }

    /** Reads from a file, perhaps less than asked for, perhaps failing; at its end it says so. */
    static method ReadFile(content: bytes, n: nat, off: int) returns (got: bytes, status: Status)
      ensures |got| <= n && forall i :: 0 <= i < |got| ==> got[i] == FileByte(content, off + i)
      ensures status == Eof && |got| < n ==> 0 <= off && off + n > |content|
    {
      var m := if off < 0 || off >= |content| then 0 else if n < |content| - off then n else |content| - off;
      var k: nat :| k <= m;
      got, status := if k == 0 then [] else content[off..off + k], Done;
      if off < 0 {
        status := Failed;
      } else if off + k >= |content| {
        status := Eof;
      } else if * {
        status := Failed;
      }
    }

    /** Reads from the place of one extent: all of it, or from its file. */
    static method ReadSource(e: Extent, within: nat, n: nat) returns (piece: bytes, status: Status)
      requires within + n <= e.size && 0 < n && (e.source.Data? ==> e.size <= |e.source.data|)
      ensures |piece| <= n && forall i :: 0 <= i < |piece| ==> piece[i] == SourceByte(e, within + i)
      ensures status == Done ==> 0 < |piece|
      ensures status == Eof ==> !Inside(e) && |piece| < n
      ensures status == Failed ==> e.source.File?
    {
      status := Done;
      match e.source
      case Hole => piece := Zeros(n);
      case Data(d) => piece := d[within..within + n];
      case File(c, o, _, _) =>
        piece, status := ReadFile(c, n, o + within);
        if piece == [] && status == Done {
          status := Failed;
        } else if status == Eof && |piece| == n {
          status := Done;
        }
    }

    /** Reads as far as one gap, or one request to one extent, goes. */
    method ReadPiece(pos: nat, n: nat, index: nat) returns (piece: bytes, next: nat, status: Status)
      requires Valid() && Cursor(index, pos) && 0 < n && pos + n <= size
      ensures |piece| <= n && piece == Bytes()[pos..pos + |piece|] && (status == Eof ==> !AllInside(extents) && |piece| < n)
      ensures status == Done ==> 0 < |piece| && Cursor(next, pos + |piece|)
      ensures status == Failed ==> !InMemory(extents)
    {
      hide Bytes, SourceByte, Apart, Inside;
      next, status := index, Done;
      if index < |extents| {
        var e := extents[index];
        assert Fits(e, size);
        if pos < e.start {
          var count := if n > e.start - pos then e.start - pos else n;
          GapIsZero(index, pos, count);
          piece := Zeros(count);
        } else {
          var within := pos - e.start;
          var count := if n > e.size - within then e.size - within else n;
          piece, status := ReadSource(e, within, count);
          ExtentIs(index, pos, piece);
          if pos + |piece| >= e.start + e.size {
            NextCursor(index, pos + |piece|);
            next := index + 1;
          }
        }
      } else {
        GapIsZero(index, pos, n);
        piece := Zeros(n);
      }
    }

    /** How many bytes of a request the image has. */
    function Available(n: nat, off: nat): nat { if off >= size then 0 else if n > size - off then size - off else n }

    method ReadAt(n: nat, off: int) returns (got: bytes, status: Status)
      requires Valid()
      ensures off < 0 ==> status == Failed && got == []
      ensures 0 <= off ==> |got| <= Available(n, off) && (got != [] ==> got == Bytes()[off..off + |got|])
      ensures status == Done ==> |got| == n
      ensures status == Eof ==> 0 <= off && |got| < n && (|got| == Available(n, off) || !AllInside(extents))
      ensures 0 <= off && InMemory(extents) ==> status != Failed
    {
      hide Bytes, Indexed, Cursor, AllInside, InMemory;
      got, status := [], Done;
      if off < 0 {
        return [], Failed;
      }
      if n == 0 {
        return;
      }
      if off >= size {
        return [], Eof;
      }
      var remaining := Available(n, off);
      var index := Search(off);
      assert Bytes()[off..off] == [];
      while |got| < remaining && status == Done
        invariant |got| <= remaining && got == Bytes()[off..off + |got|]
        invariant status == Done ==> Cursor(index, off + |got|)
        invariant status == Eof ==> !AllInside(extents) && |got| < remaining
        invariant status == Failed ==> !InMemory(extents)
        decreases remaining - |got|, status == Done
      {
        var piece;
        piece, index, status := ReadPiece(off + |got|, remaining - |got|, index);
        assert Bytes()[off..off + |got| + |piece|] == got + piece;
        got := got + piece;
      }
      if status == Done && |got| < n { status := Eof; }
    }

    // ----- writing

    /** Appends to the sink, which may fail half way. */
    static method Emit(out: bytes, piece: bytes) returns (more: bytes, failed: bool)
      ensures out <= more <= out + piece && (!failed ==> more == out + piece)
    {
      var k: nat :| k <= |piece|;
      assert out + piece == (out + piece[..k]) + piece[k..];
      more := out + piece[..k];
      failed := *;
      if k < |piece| { failed := true; }
      assert piece[..|piece|] == piece;
    }

    ghost static function SourceBytes(e: Extent): (b: bytes)
      requires 0 <= e.size
      ensures |b| == e.size
    {
      seq(e.size, i => SourceByte(e, i))
    }

    /** Writes one extent. A file that ends too early is written as far as it goes, and counted in full. */
    static method WriteSource(e: Extent, out: bytes) returns (more: bytes, n: nat, failed: bool)
      requires 0 <= e.size && (e.source.Data? ==> e.size <= |e.source.data|)
      ensures Inside(e) ==> out <= more <= out + SourceBytes(e) && (!failed ==> more == out + SourceBytes(e))
      ensures !failed ==> n == e.size && (!Inside(e) ==> |more| < |out| + e.size)
    {
      match e.source
      case Hole =>
        assert SourceBytes(e) == Zeros(e.size);
        more, failed := Emit(out, Zeros(e.size));
        n := if failed then |more| - |out| else e.size;
      case Data(d) =>
        assert SourceBytes(e) == d[..e.size];
        more, failed := Emit(out, d[..e.size]);
        n := if failed then |more| - |out| else e.size;
      case File(c, off, _, _) =>
        if off < 0 || off > |c| {
          return out, 0, true;
        }
        var count := if e.size > |c| - off then |c| - off else e.size;
        assert Inside(e) ==> SourceBytes(e) == c[off..off + count];
        more, failed := Emit(out, c[off..off + count]);
        n := if failed then 0 else e.size;
    }

    /** What stands in the sink once everything before a position was written. */
    ghost predicate Sunk(i: nat, out: bytes, written: nat)
      requires Valid()
    {
      && i <= |extents| && written <= size
      && (if i == 0 then written == 0 else written == extents[i - 1].start + extents[i - 1].size)
      && (if AllInside(extents[..i]) then out == Bytes()[..written] else |out| < written)
    }

    /** The bytes up to the next thing to write, or up to the end. */
    lemma SunkGap(i: nat, out: bytes, written: nat, n: nat)
      requires Valid() && Sunk(i, out, written) && written + n <= size && (i < |extents| ==> written + n <= extents[i].start)
               && AllInside(extents[..i])
      ensures out + Zeros(n) == Bytes()[..written + n] && Bytes()[..written + n] <= Bytes()
    {
      hide Bytes, AllInside;
      if i > 0 { NextCursor(i - 1, written) by { EndsBefore(i, written); } } else { FirstCursor(); }
      GapIsZero(i, written, n);
      assert Bytes()[..written + n] == Bytes()[..written] + Bytes()[written..written + n];
    }

    lemma FirstCursor()
      requires Valid()
      ensures Cursor(0, 0)
    {
      if extents != [] { assert Fits(extents[0], size); }
    }

    lemma EndsBefore(i: nat, written: nat)
      requires Valid() && 0 < i <= |extents| && written == extents[i - 1].start + extents[i - 1].size
      ensures forall k :: 0 <= k < i - 1 ==> extents[k].start + extents[k].size <= written
    {
      assert Fits(extents[i - 1], size);
    }

    lemma NextFollows(i: nat, out: bytes, written: nat)
      requires Valid() && i < |extents| && Sunk(i, out, written)
      ensures written <= extents[i].start
    {
      assert Fits(extents[i], size);
    }

    lemma SunkExtent(i: nat, more: bytes)
      requires Valid() && i < |extents| && AllInside(extents[..i])
      ensures Fits(extents[i], size) && Bytes()[..extents[i].start] + SourceBytes(extents[i]) == Bytes()[..extents[i].start + extents[i].size]
    {
      hide Bytes, SourceByte, AllInside;
      var e := extents[i];
      assert Fits(e, size);
      ExtentIs(i, e.start, SourceBytes(e));
    }

    lemma InsideStep(i: nat)
      requires i < |extents|
      ensures AllInside(extents[..i + 1]) <==> AllInside(extents[..i]) && Inside(extents[i])
    {
      hide Inside;
      var t := extents[..i + 1];
      if AllInside(t) {
        assert forall k :: 0 <= k < i ==> extents[..i][k] == t[k];
        assert t[i] == extents[i];
      }
      if AllInside(extents[..i]) && Inside(extents[i]) {
        assert forall k :: 0 <= k < i ==> t[k] == extents[..i][k];
      }
    }

    /** Writes the gap in front of an extent and the extent. */
    method WriteExtent(i: nat, out: bytes, written: nat) returns (more: bytes, reached: nat, failed: bool)
      requires Valid() && i < |extents| && Sunk(i, out, written)
      ensures !failed ==> Sunk(i + 1, more, reached)
      ensures AllInside(extents[..i + 1]) ==> more <= Bytes()
    {
      hide Bytes, AllInside, Inside, SourceBytes;
      var e := extents[i];
      more, reached, failed := out, written, false;
      NextFollows(i, out, written);
      InsideStep(i);
      assert Fits(e, size);
      if AllInside(extents[..i]) {
        SunkGap(i, out, written, e.start - written);
        SunkExtent(i, out);
      }
      if e.start > written {
        more, failed := Emit(more, Zeros(e.start - written));
        reached := written + (|more| - |out|);
      }
      if !failed {
        assert AllInside(extents[..i]) ==> more == Bytes()[..e.start];
        var n;
        more, n, failed := WriteSource(e, more);
        reached := reached + n;
      }
    }

    method WriteTo() returns (out: bytes, written: nat, failed: bool)
      requires Valid()
      ensures AllInside(extents) ==> out <= Bytes()
      ensures !failed ==> written == size && (out == Bytes() <==> AllInside(extents))
    {
      hide Bytes, AllInside, Sunk;
      out, written, failed := [], 0, false;
      var i := 0;
      NothingSunk();
      while i < |extents|
        invariant 0 <= i <= |extents| && Sunk(i, out, written)
      {
        if AllInside(extents) { InsidePrefix(i + 1); }
        out, written, failed := WriteExtent(i, out, written);
        if failed {
          return;
        }
        i := i + 1;
      }
      assert extents[..i] == extents;
      SunkFacts(out, written);
      if AllInside(extents) { SunkGap(i, out, written, size - written); }
      if written < size {
        var more;
        more, failed := Emit(out, Zeros(size - written));
        written := written + (|more| - |out|);
        out := more;
      }
    }

    lemma InsidePrefix(i: nat)
      requires i <= |extents| && AllInside(extents)
      ensures AllInside(extents[..i])
    {
    }

    lemma NothingSunk()
      requires Valid()
      ensures Sunk(0, [], 0)
    {
    }

    lemma SunkFacts(out: bytes, written: nat)
      requires Valid() && Sunk(|extents|, out, written)
      ensures written <= size && if AllInside(extents) then out == Bytes()[..written] else |out| < written
    {
      assert extents[..|extents|] == extents;
    }

    // ----- the extent map

    ghost predicate Within(k: int, i: int) { 0 <= k < |extents| && extents[k].start <= i < extents[k].start + extents[k].size }

    /** What a flag may say of a position: a stored place has a source, a hole reads as zero when the files are trusted. */
    ghost predicate Mark(i: int, stored: bool, trust: bool) {
      && (stored ==> exists k :: Within(k, i) && !extents[k].source.Hole?)
      && (!stored && trust ==> ByteAt(extents, i) == 0)
      && (!stored ==> forall k :: Within(k, i) ==> extents[k].source.Hole? || (extents[k].source.File? && extents[k].source.mapped))
    }

    ghost predicate MarkedRange(from: int, to: int, stored: bool, trust: bool) { forall i :: from <= i < to ==> Mark(i, stored, trust) }

    ghost predicate Marked(out: seq<Piece>, trust: bool) {
      forall j :: 0 <= j < |out| ==> MarkedRange(out[j].offset, out[j].offset + out[j].length, out[j].stored, trust)
    }

    lemma AppendMarked(out: seq<Piece>, offset: int, size: int, stored: bool, trust: bool)
      requires Marked(out, trust) && MarkedRange(offset, offset + size, stored, trust)
      ensures Marked(AppendExtent(out, offset, size, stored), trust)
    {
      hide Mark;
    }

    lemma GapMarked(index: nat, pos: int, to: int, trust: bool)
      requires Valid() && Cursor(index, pos) && (index < |extents| ==> to <= extents[index].start)
      ensures MarkedRange(pos, to, false, trust)
    {
      hide ByteAt, Cursor, Indexed;
      forall i | pos <= i < to ensures Mark(i, false, trust) { GapByte(index, pos, i); }
    }

    lemma OnlyWithin(k: int, other: int, i: int)
      requires Valid() && Within(k, i) && Within(other, i)
      ensures other == k
    {
    }

    lemma SourceMark(k: int, i: int, stored: bool, trust: bool)
      requires Valid() && Within(k, i)
      requires if stored then !extents[k].source.Hole?
               else extents[k].source.Hole? ||
                    (extents[k].source.File? && extents[k].source.mapped && (trust ==> SourceByte(extents[k], i - extents[k].start) == 0))
      ensures Mark(i, stored, trust)
    {
      hide ByteAt, Indexed, FileByte;
      ByteWithin(k, i);
      forall other | Within(other, i) ensures other == k { OnlyWithin(k, other, i); }
    }

    lemma ByteWithin(k: int, i: int)
      requires Valid() && Within(k, i)
      ensures 0 <= k < |extents| && ByteAt(extents, i) == SourceByte(extents[k], i - extents[k].start)
    {
      InExtent(extents, k, i);
    }

    lemma NestedMarked(k: nat, source: int, position: int, p: Piece, trust: bool)
      requires Valid() && k < |extents| && extents[k].source.File? && extents[k].source.mapped
      requires position - source == extents[k].start - extents[k].source.off
      requires extents[k].start <= position + (p.offset - source)
               && position + (p.offset - source) + p.length <= extents[k].start + extents[k].size
      requires trust ==> ZeroFile(extents[k].source.content, p)
      ensures MarkedRange(position + (p.offset - source), position + (p.offset - source) + p.length, p.stored, trust)
    {
      hide ByteAt, Indexed, Mark, FileByte;
      forall i | position + (p.offset - source) <= i < position + (p.offset - source) + p.length ensures Mark(i, p.stored, trust) {
        SourceMark(k, i, p.stored, trust);
      }
    }

    /** Takes over the answer of a file, which must cover what was asked for. */
    method AppendNested(k: nat, position: int, n: nat, pieces: seq<Piece>, out: seq<Piece>, ghost off: int, ghost trust: bool)
      returns (r: Option<seq<Piece>>)
      requires Valid() && k < |extents| && extents[k].source.File? && extents[k].source.mapped
      requires extents[k].start <= position && position + n <= extents[k].start + extents[k].size
      requires trust ==> forall j :: 0 <= j < |pieces| ==> ZeroFile(extents[k].source.content, pieces[j])
      requires Cover(out, off, position) && Marked(out, trust)
      ensures r.Some? ==> Cover(r.value, off, position + n) && Marked(r.value, trust)
      ensures r.Some? <== var source := extents[k].source.off + (position - extents[k].start); Chain(pieces, source, source + n)
    {
      hide Indexed, Cover, Marked, ZeroFile, AppendExtent, MarkedRange;
      var source := extents[k].source.off + (position - extents[k].start);
      var expected, j, more := source, 0, out;
      while j < |pieces|
        invariant 0 <= j <= |pieces| && source <= expected <= source + n
        invariant Cover(more, off, position + (expected - source)) && Marked(more, trust)
        invariant expected == if j == 0 then source else pieces[j - 1].offset + pieces[j - 1].length
      {
        var p := pieces[j];
        if Chain(pieces, source, source + n) { ChainBound(pieces, source, source + n, j); }
        if p.length <= 0 || p.offset != expected || p.length > source + n - expected {
          return None;
        }
        NestedMarked(k, source, position, p, trust);
        AppendCovers(more, off, position + (p.offset - source), p.length, p.stored);
        AppendMarked(more, position + (p.offset - source), p.length, p.stored, trust);
        more := AppendExtent(more, position + (p.offset - source), p.length, p.stored);
        expected := expected + p.length;
        j := j + 1;
      }
      if expected != source + n {
        return None;
      }
      r := Some(more);
    }

    /** Maps the part of one extent that a request reaches. */
    method MapExtent(k: nat, position: int, n: nat, nested: Nested, out: seq<Piece>, ghost off: int) returns (r: Option<seq<Piece>>)
      requires Valid() && k < |extents|
      requires extents[k].start <= position && position + n <= extents[k].start + extents[k].size
      requires Cover(out, off, position) && Marked(out, Truthful(extents, nested))
      ensures r.Some? ==> Cover(r.value, off, position + n) && Marked(r.value, Truthful(extents, nested))
      ensures Answers(extents, nested) ==> r.Some?
    {
      hide Indexed, Cover, Marked, ZeroFile, AppendExtent, Mark;
      var e := extents[k];
      if e.source.File? && e.source.mapped {
        assert Answers(extents, nested) ==> AnswersOne(extents[k], position - e.start, n, nested);
        var answer := nested(e.source.id, e.source.off + (position - e.start), n);
        if answer.None? {
          return None;
        }
        r := AppendNested(k, position, n, answer.value, out, off, Truthful(extents, nested));
      } else {
        var stored := !e.source.Hole?;
        forall i | position <= i < position + n ensures Mark(i, stored, Truthful(extents, nested)) {
          SourceMark(k, i, stored, Truthful(extents, nested));
        }
        AppendCovers(out, off, position, n, stored);
        AppendMarked(out, position, n, stored, Truthful(extents, nested));
        r := Some(AppendExtent(out, position, n, stored));
      }
    }

    lemma HasSize(k: nat)
      requires Valid() && k < |extents|
      ensures 0 < extents[k].size
    {
      assert Fits(extents[k], size);
    }

    /** One step along the request: a gap, or the rest of an extent. */
    method MapStep(position: int, end: int, index: nat, nested: Nested, out: seq<Piece>, ghost off: int)
      returns (r: Option<seq<Piece>>, next: int, after: nat)
      requires Valid() && position < end && Cursor(index, position)
      requires Cover(out, off, position) && Marked(out, Truthful(extents, nested))
      ensures r.Some? ==> position < next <= end && Cursor(after, next)
      ensures r.Some? ==> Cover(r.value, off, next) && Marked(r.value, Truthful(extents, nested))
      ensures Answers(extents, nested) ==> r.Some?
    {
      hide Answers, Indexed, Cover, Marked, AppendExtent, MarkedRange, Truthful;
      next, after := end, index;
      if index < |extents| { HasSize(index); }
      if index >= |extents| || position < extents[index].start {
        next := if index >= |extents| || end < extents[index].start then end else extents[index].start;
        GapMarked(index, position, next, Truthful(extents, nested));
        AppendCovers(out, off, position, next - position, false);
        AppendMarked(out, position, next - position, false, Truthful(extents, nested));
        r := Some(AppendExtent(out, position, next - position, false));
      } else {
        var e := extents[index];
        next := if end < e.start + e.size then end else e.start + e.size;
        r := MapExtent(index, position, next - position, nested, out, off);
        if next >= e.start + e.size {
          NextCursor(index, next);
          after := index + 1;
        }
      }
    }

    method Extents(off: int, length: int, nested: Nested) returns (r: Option<seq<Piece>>)
      requires Valid()
      ensures r.Some? ==> 0 <= off && 0 <= length && off + length <= size
      ensures r.Some? ==> Cover(r.value, off, off + length) && Marked(r.value, Truthful(extents, nested))
      ensures 0 <= off && 0 <= length && off + length <= size && Answers(extents, nested) ==> r.Some?
    {
      hide Answers, Indexed, Marked, Truthful, Cursor;
      if off < 0 || length < 0 || off > size || length > size - off {
        return None;
      }
      var out: seq<Piece> := [];
      NothingMarked(Truthful(extents, nested));
      if length == 0 {
        return Some(out);
      }
      var position := off;
      var index := Search(off);
      while position < off + length
        invariant off <= position <= off + length && Cursor(index, position) && Cover(out, off, position)
                  && Marked(out, Truthful(extents, nested))
      {
        var step;
        step, position, index := MapStep(position, off + length, index, nested, out, off);
        if step.None? {
          return None;
        }
        out := step.value;
      }
      r := Some(out);
    }

    lemma NothingMarked(trust: bool)
      ensures Marked([], trust)
    {
    }
  }

  /** The index is built once, before anything is read. */
  method Open(size: int, given: seq<Extent>) returns (image: Option<Image>)
    ensures image.Some? ==> image.value.Valid() && image.value.size == size && Sorts(image.value.extents, given)
  {
    hide Indexed, Sorts;
    var index := EnsureIndexed(size, given);
    if index.None? {
      return None;
    }
    var made := new Image(size, index.value);
    image := Some(made);
  }
}
