/** An overlay of changed chunks over an immutable device, on media that may fail at any time. */
module SparseOverlay {
  import opened Bytes

  const CHUNK: nat := 4096

  ghost function Range(off: nat, n: nat): (s: set<nat>)
    ensures forall i :: i in s <==> off <= i < off + n
  {
    if n == 0 then {} else Range(off, n - 1) + {off + n - 1}
  }

  /** Random-access storage; `filled` are the addresses that hold anything meant, and `faulty` says that it has failed to do what it was
    * asked. */
  class Medium {
    var data: bytes
    ghost var filled: set<nat>
    ghost var faulty: bool

    ghost predicate Holds(off: nat, n: nat)
      reads this`data, this`filled
    {
      off + n <= |data| && forall i :: off <= i < off + n ==> i in filled
    }

    constructor (data: bytes, ghost filled: set<nat>)
      ensures this.data == data && this.filled == filled && !faulty
    {
      this.data, this.filled, faulty := data, filled, false;
    }

    /** May return less than asked for, and may fail. Only meant bytes may be asked for. */
    method ReadAt(n: nat, off: nat) returns (got: bytes, failed: bool)
      requires Holds(off, n)
      modifies this`faulty
      ensures |got| <= n && got == data[off..off + |got|] && faulty == (old(faulty) || failed || (0 < n && got == []))
    {
      var k: nat :| k <= n;
      got := data[off..off + k];
      failed := *;
      faulty := faulty || failed || (0 < n && got == []);
    }

    /** May write less than given, and may fail after writing a part. */
    method WriteAt(w: bytes, off: nat) returns (n: nat, failed: bool)
      requires off + |w| <= |data|
      modifies this
      ensures n <= |w| && data == Splice(old(data), off, w[..n])
      ensures n == |w| ==> forall i :: i in filled <==> i in old(filled) || off <= i < off + |w|
      ensures faulty == (old(faulty) || failed || n < |w|)
    {
      n :| 0 <= n <= |w|;
      data := Splice(data, off, w[..n]);
      filled := filled + Range(off, n);
      failed := *;
      faulty := faulty || failed || n < |w|;
    }

    /** May fail. */
    method Sync() returns (failed: bool)
      modifies this`faulty
      ensures faulty == (old(faulty) || failed)
    {
      failed := *;
      faulty := faulty || failed;
    }

    /** Reads all that is asked for, in as many pieces as it takes. */
    method ReadFull(n: nat, off: nat) returns (got: bytes, failed: bool)
      requires Holds(off, n)
      modifies this`faulty
      ensures |got| <= n && got == data[off..off + |got|] && (!failed ==> |got| == n) && (failed ==> faulty) && (old(faulty) ==> faulty)
    {
      got, failed := [], false;
      while |got| < n && !failed
        invariant |got| <= n && got == data[off..off + |got|] && (failed ==> faulty) && (old(faulty) ==> faulty)
        decreases n - |got|, !failed
      {
        var piece, bad := ReadAt(n - |got|, off + |got|);
        assert data[off..off + |got| + |piece|] == got + piece;
        got := got + piece;
        failed := (bad && |got| < n) || piece == [];
      }
    }
  }

  /** What is read: changed chunks from one medium, the others from the base. */
  function Merged(base: bytes, over: bytes, dirty: set<nat>): (b: bytes)
    requires |base| == |over|
    ensures |b| == |base| && forall i :: 0 <= i < |b| ==> b[i] == if i / CHUNK in dirty then over[i] else base[i]
  {
    seq(|base|, i requires 0 <= i < |base| => if i / CHUNK in dirty then over[i] else base[i])
  }

  function ChunkEnd(size: nat, k: nat): nat { if size < k * CHUNK + CHUNK then size else k * CHUNK + CHUNK }

  datatype Status = Ok | OutOfRange | Broken

  class Overlay {
    const base: Medium
    const backing: Medium
    const size: nat
    var dirty: set<nat>
    var failed: bool

    /** Every changed chunk has been written in full, and nothing has failed unless a medium has. */
    ghost predicate Valid()
      reads this, base, backing
    {
      && base != backing && size == |base.data| == |backing.data| && base.Holds(0, size) && (failed ==> base.faulty || backing.faulty)
      && (!failed ==> forall i :: 0 <= i < size && i / CHUNK in dirty ==> i in backing.filled)
    }

    ghost function Contents(): bytes
      requires |base.data| == |backing.data|
      reads this`dirty, base`data, backing`data
    {
      Merged(base.data, backing.data, dirty)
    }

    constructor (base: Medium, backing: Medium)
      requires base != backing && |base.data| == |backing.data| && base.Holds(0, |base.data|)
      ensures Valid() && !failed && this.base == base && this.backing == backing && Contents() == base.data
    {
      this.base, this.backing, this.size := base, backing, |base.data|;
      dirty, failed := {}, false;
    }

    method ReadAt(n: nat, off: int) returns (status: Status, got: bytes)
      requires Valid()
      modifies this`failed, base`faulty, backing`faulty
      ensures Valid() && (old(failed) ==> status == Broken && got == [])
      ensures failed <==> status == Broken
      ensures !old(failed) ==> (status == OutOfRange <==> !(0 <= off && off + n <= size))
      ensures !old(failed) && status != OutOfRange ==>
                0 <= off && off + n <= size && |got| <= n && got == Contents()[off..off + |got|] && (status == Ok ==> |got| == n)
    {
      hide Merged;
      got := [];
      if failed {
        return Broken, [];
      }
      if off < 0 || off > size || n > size - off {
        return OutOfRange, [];
      }
      status := Ok;
      ghost var all := Contents();
      while |got| < n && !failed
        invariant Valid() && |got| <= n && got == all[off..off + |got|] && all == Contents() && (failed <==> status == Broken)
                  && status != OutOfRange
        decreases n - |got|, !failed
      {
        var pos := off + |got|;
        var piece, bad := ReadStretch(pos, n - |got|);
        assert all[off..off + |got| + |piece|] == got + piece;
        got := got + piece;
        if bad { failed, status := true, Broken; }
      }
    }

    /** Reads as far as one request to one medium goes. */
    method ReadStretch(pos: nat, n: nat) returns (piece: bytes, bad: bool)
      requires Valid() && !failed && 0 < n && pos + n <= size
      modifies base`faulty, backing`faulty
      ensures Valid() && |piece| <= n && piece == Contents()[pos..pos + |piece|] && (!bad ==> 0 < |piece|)
              && (bad ==> base.faulty || backing.faulty)
    {
      hide Merged;
      var length, changed := Stretch(pos, n);
      if changed {
        piece, bad := backing.ReadFull(length, pos);
      } else {
        piece, bad := base.ReadFull(length, pos);
      }
      PieceOf(base.data, backing.data, dirty, pos, length, changed, piece);
    }

    method WriteAt(p: bytes, off: int) returns (status: Status)
      requires Valid()
      modifies this`dirty, this`failed, backing, base`faulty
      ensures Valid() && (old(failed) ==> status == Broken && Contents() == old(Contents()))
      ensures failed <==> status == Broken
      ensures !old(failed) ==> (status == OutOfRange <==> !(0 <= off && off + |p| <= size))
      ensures status == OutOfRange ==> Contents() == old(Contents())
      ensures status == Ok ==> 0 <= off && off + |p| <= size && Contents() == Splice(old(Contents()), off, p)
    {
      hide Merged, Splice;
      if failed {
        return Broken;
      }
      if off < 0 || off > size || |p| > size - off {
        return OutOfRange;
      }
      var done := 0;
      ghost var before := Contents();
      SpliceNone(before, off, p);
      while done < |p| && !failed
        invariant Valid() && 0 <= done <= |p| && (!failed ==> Contents() == Splice(before, off, p[..done]))
        decreases |p| - done, !failed
      {
        var pos := off + done;
        var n := if |p| - done < CHUNK - pos % CHUNK then |p| - done else CHUNK - pos % CHUNK;
        WritePiece(p[done..done + n], pos);
        SpliceMore(before, off, p, done, n);
        done := done + n;
      }
      assert p[..|p|] == p;
      status := if failed then Broken else Ok;
    }

    /** Writes a piece that lies in one chunk; a chunk is copied whole when it first changes. */
    method WritePiece(w: bytes, pos: nat)
      requires Valid() && !failed && pos % CHUNK + |w| <= CHUNK && pos + |w| <= size && 0 < |w|
      modifies this`dirty, this`failed, backing, base`faulty
      ensures Valid() && (!failed ==> Contents() == Splice(old(Contents()), pos, w))
    {
      hide Merged, Splice;
      var k := pos / CHUNK;
      var data, at := w, pos;
      var write := true;
      if k !in dirty {
        var start := k * CHUNK;
        var scratch, bad := base.ReadFull(ChunkEnd(size, k) - start, start);
        if bad {
          failed := true;
        } else if scratch[pos - start..pos - start + |w|] == w {
          SameAlready(base.data, backing.data, dirty, pos, w, scratch);
          write := false;
        } else {
          data, at := Splice(scratch, pos - start, w), start;
        }
      }
      if write && !failed {
        ghost var over := backing.data;
        WholeOrPart(base.data, over, dirty, pos, w, data, at);
        var n, bad := backing.WriteAt(data, at);
        if bad || n != |data| {
          failed := true;
        } else {
          assert data[..n] == data;
          NowFilled(at, data, pos, w, size);
          dirty := dirty + {k};
        }
      }
    }

    method Flush() returns (status: Status)
      requires Valid()
      modifies this`failed, backing`faulty
      ensures Valid() && failed == (status == Broken) && (old(failed) ==> failed) && status != OutOfRange && Contents() == old(Contents())
    {
      if !failed {
        var bad := backing.Sync();
        if bad { failed := true; }
      }
      status := if failed then Broken else Ok;
    }

    /** How far, from a position on, all chunks are changed or all are not. */
    method Stretch(pos: nat, n: nat) returns (length: nat, changed: bool)
      requires Valid() && !failed && 0 < n && pos + n <= size
      ensures 0 < length <= n && forall i :: pos <= i < pos + length ==> (i / CHUNK in dirty <==> changed)
      ensures changed ==> backing.Holds(pos, length)
      ensures base.Holds(pos, length)
    {
      length := if n < CHUNK - pos % CHUNK then n else CHUNK - pos % CHUNK;
      changed := pos / CHUNK in dirty;
      FirstChunk(pos, length);
      var go := true;
      while length < n && go
        invariant 0 < length <= n && (forall i :: pos <= i < pos + length ==> (i / CHUNK in dirty <==> changed))
                  && (length < n ==> (pos + length) % CHUNK == 0)
        decreases n - length, go
      {
        var next := (pos + length) / CHUNK in dirty;
        if next != changed {
          go := false;
        } else {
          var more := if n - length < CHUNK then n - length else CHUNK;
          FirstChunk(pos + length, more);
          length := length + more;
        }
      }
    }
  }

  lemma FirstChunk(pos: nat, length: nat)
    requires pos % CHUNK + length <= CHUNK
    ensures forall i :: pos <= i < pos + length ==> i / CHUNK == pos / CHUNK
  {
  }

  lemma PieceOf(base: bytes, over: bytes, dirty: set<nat>, pos: nat, n: nat, changed: bool, piece: bytes)
    requires |base| == |over| && pos + n <= |base| && |piece| <= n && (forall i :: pos <= i < pos + n ==> (i / CHUNK in dirty <==> changed))
    requires piece == if changed then over[pos..pos + |piece|] else base[pos..pos + |piece|]
    ensures piece == Merged(base, over, dirty)[pos..pos + |piece|]
  {
    var m := Merged(base, over, dirty)[pos..pos + |piece|];
    forall i | 0 <= i < |piece| ensures piece[i] == m[i] {
      assert m[i] == Merged(base, over, dirty)[pos + i];
    }
  }

  lemma SpliceNone(b: bytes, off: nat, p: bytes)
    requires off + |p| <= |b|
    ensures Splice(b, off, p[..0]) == b
  {
  }

  lemma SpliceMore(b: bytes, off: nat, p: bytes, done: nat, n: nat)
    requires off + |p| <= |b| && done + n <= |p|
    ensures Splice(Splice(b, off, p[..done]), off + done, p[done..done + n]) == Splice(b, off, p[..done + n])
  {
  }

  /** A write that would change nothing changes nothing. */
  lemma SameAlready(base: bytes, over: bytes, dirty: set<nat>, pos: nat, w: bytes, scratch: bytes)
    requires |base| == |over| && pos + |w| <= |base| && pos % CHUNK + |w| <= CHUNK && pos / CHUNK !in dirty
    requires var start := pos / CHUNK * CHUNK;
               scratch == base[start..ChunkEnd(|base|, pos / CHUNK)] && scratch[pos - start..pos - start + |w|] == w
    ensures Splice(Merged(base, over, dirty), pos, w) == Merged(base, over, dirty)
  {
    var m := Merged(base, over, dirty);
    var start := pos / CHUNK * CHUNK;
    FirstChunk(pos, |w|);
    forall i | pos <= i < pos + |w| ensures m[i] == w[i - pos] {
      assert scratch[pos - start..pos - start + |w|][i - pos] == scratch[i - start] == base[i];
    }
  }

  /** Writing the piece into a changed chunk, or a whole chunk with the piece in it. */
  lemma WholeOrPart(base: bytes, over: bytes, dirty: set<nat>, pos: nat, w: bytes, data: bytes, at: nat)
    requires |base| == |over| && pos + |w| <= |base| && pos % CHUNK + |w| <= CHUNK && at + |data| <= |base| && 0 < |w|
    requires var k := pos / CHUNK; var start := k * CHUNK;
             if k in dirty then data == w && at == pos
             else at == start && at + |data| == ChunkEnd(|base|, k) && data == Splice(base[start..ChunkEnd(|base|, k)], pos - start, w)
    ensures Merged(base, Splice(over, at, data), dirty + {pos / CHUNK}) == Splice(Merged(base, over, dirty), pos, w)
  {
    var k := pos / CHUNK;
    var u, v := Merged(base, Splice(over, at, data), dirty + {k}), Splice(Merged(base, over, dirty), pos, w);
    FirstChunk(pos, |w|);
    forall i | 0 <= i < |base| ensures u[i] == v[i] {
      if i / CHUNK == k && k !in dirty { assert k * CHUNK <= i < ChunkEnd(|base|, k); }
    }
  }

  lemma NowFilled(at: nat, data: bytes, pos: nat, w: bytes, size: nat)
    ensures at == pos / CHUNK * CHUNK && at + |data| == ChunkEnd(size, pos / CHUNK) ==>
              forall i :: 0 <= i < size && i / CHUNK == pos / CHUNK ==> at <= i < at + |data|
  {
  }

  // ----- whole runs

  datatype Op = Write(p: bytes, off: int) | Read(n: nat, off: int) | Sync

  /** The base with the writes of a run applied in order; one out of range is refused. */
  function Applied(base: bytes, ops: seq<Op>): (b: bytes)
    ensures |b| == |base|
  {
    if ops == [] then base
    else
      var b, op := Applied(base, ops[..|ops| - 1]), ops[|ops| - 1];
      if op.Write? && 0 <= op.off && op.off + |op.p| <= |b| then Splice(b, op.off, op.p) else b
  }

  predicate Inside(b: bytes, op: Op) {
    match op
    case Write(p, off) => 0 <= off && off + |p| <= |b|
    case Read(n, off) => 0 <= off && off + n <= |b|
    case Sync => true
  }

  /** What one operation reported, given the bytes before it, unless it was broken off. */
  ghost predicate Answered(b: bytes, op: Op, status: Status, got: bytes) {
    status != Broken ==> (status == Ok <==> Inside(b, op)) && (op.Read? && status == Ok ==> got == b[op.off..op.off + op.n])
  }

  /** In any run, with any failures: until the first failure everything reads as the base with the
    * writes applied, from then on nothing succeeds, and nothing fails unless a medium has. */
  method Run(base: Medium, backing: Medium, ops: seq<Op>) returns (overlay: Overlay, statuses: seq<Status>, answers: seq<bytes>)
    requires base != backing && |base.data| == |backing.data| && base.Holds(0, |base.data|)
    modifies backing, base`faulty
    ensures overlay.Valid() && base.data == old(base.data) && |statuses| == |answers| == |ops|
    ensures forall i, j :: 0 <= i < j < |ops| && statuses[i] == Broken ==> statuses[j] == Broken
    ensures !overlay.failed ==> overlay.Contents() == Applied(old(base.data), ops) && forall i :: 0 <= i < |ops| ==> statuses[i] != Broken
    ensures forall i :: 0 <= i < |ops| ==> Answered(Applied(old(base.data), ops[..i]), ops[i], statuses[i], answers[i])
    ensures !base.faulty && !backing.faulty ==> !overlay.failed
  {
    hide Overlay.Contents, Applied, Splice;
    overlay := new Overlay(base, backing);
    statuses, answers := [], [];
    var i := 0;
    AppliedStart(base.data, ops);
    while i < |ops|
      invariant 0 <= i <= |ops| && overlay.Valid() && overlay.base == base && overlay.backing == backing && base.data == old(base.data)
                && fresh(overlay) && |statuses| == |answers| == i
      invariant forall k, j :: 0 <= k < j < i && statuses[k] == Broken ==> statuses[j] == Broken
      invariant forall k :: 0 <= k < i && statuses[k] == Broken ==> overlay.failed
      invariant overlay.failed ==> 0 < i && statuses[i - 1] == Broken
      invariant !overlay.failed ==> overlay.Contents() == Applied(old(base.data), ops[..i])
      invariant forall k :: 0 <= k < i ==> Answered(Applied(old(base.data), ops[..k]), ops[k], statuses[k], answers[k])
    {
      AppliedStep(old(base.data), ops, i);
      var status, got := Ok, [];
      match ops[i] {
        case Write(p, off) => status := overlay.WriteAt(p, off);
        case Read(n, off) => status, got := overlay.ReadAt(n, off);
        case Sync => status := overlay.Flush();
      }
      statuses, answers, i := statuses + [status], answers + [got], i + 1;
    }
    assert ops[..|ops|] == ops;
  }

  lemma AppliedStart(base: bytes, ops: seq<Op>)
    ensures Applied(base, ops[..0]) == base
  {
  }

  lemma AppliedStep(base: bytes, ops: seq<Op>, i: nat)
    requires i < |ops|
    ensures var b, op := Applied(base, ops[..i]), ops[i];
            Applied(base, ops[..i + 1]) == if op.Write? && 0 <= op.off && op.off + |op.p| <= |b| then Splice(b, op.off, op.p) else b
  {
    assert ops[..i + 1][..i] == ops[..i];
  }
}
