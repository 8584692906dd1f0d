/** A volatile store of shared pages with snapshots (copy on write).
 *
 * The bytes of a store are those of a plain array; pages exist only to share them.
 */
module MemoryStore {
  import opened Bytes

  const PAGE: nat := 0x1_0000
  const MAX: int := 0x7fff_ffff_ffff_ffff

  // ----- pages as values

  type View = map<nat, bytes>

  ghost predicate Whole(v: View) { forall k :: k in v ==> |v[k]| == PAGE }

  /** The byte at an address; where no page is, zero. */
  ghost function ByteAt(v: View, i: nat): byte
    requires Whole(v)
  {
    if i / PAGE in v then v[i / PAGE][i % PAGE] else 0
  }

  ghost function Plain(v: View, size: nat): (b: bytes)
    requires Whole(v)
    ensures |b| == size && forall i :: 0 <= i < size ==> b[i] == ByteAt(v, i)
  {
    seq(size, i requires 0 <= i < size => ByteAt(v, i))
  }

  /** Behind the end there is nothing but zeros. */
  ghost predicate ZeroBehind(v: View, size: nat)
    requires Whole(v)
  {
    forall i: nat :: size <= i ==> ByteAt(v, i) == 0
  }

  // ----- what the operations mean for a plain array

  function Written(b: bytes, p: bytes, off: nat): bytes {
    if p == [] then b
    else
      var long := if |b| < off + |p| then b + Zeros(off + |p| - |b|) else b;
      long[..off] + p + long[off + |p|..]
  }

  function Cut(b: bytes, n: nat): bytes { if n <= |b| then b[..n] else b + Zeros(n - |b|) }

  function Window(b: bytes, off: nat, n: nat): bytes {
    if |b| <= off then [] else if |b| - off < n then b[off..] else b[off..off + n]
  }

  /** One page after a piece of data was copied into it. */
  ghost function Patched(v: View, page: bytes, off: nat, w: bytes): View
    requires |page| == PAGE && off % PAGE + |w| <= PAGE
  {
    v[off / PAGE := Splice(page, off % PAGE, w)]
  }

  ghost function PageOf(v: View, k: nat): bytes { if k in v then v[k] else Zeros(PAGE) }

  lemma PatchedAt(v: View, off: nat, w: bytes, i: nat)
    requires Whole(v) && off % PAGE + |w| <= PAGE
    ensures var u := Patched(v, PageOf(v, off / PAGE), off, w);
            Whole(u) && ByteAt(u, i) == if off <= i < off + |w| then w[i - off] else ByteAt(v, i)
  {
  }

  lemma WrittenAt(b: bytes, p: bytes, off: nat, i: nat)
    requires p != [] && i < |Written(b, p, off)|
    ensures |Written(b, p, off)| == (if |b| < off + |p| then off + |p| else |b|)
    ensures Written(b, p, off)[i] == if off <= i < off + |p| then p[i - off] else if i < |b| then b[i] else 0
  {
  }

  /** The pages after a write, byte by byte. */
  ghost predicate Copied(v: View, u: View, p: bytes, off: nat)
    requires Whole(v) && Whole(u)
  {
    forall i: nat :: ByteAt(u, i) == if off <= i < off + |p| then p[i - off] else ByteAt(v, i)
  }

  lemma WriteMeans(v: View, u: View, size: nat, p: bytes, off: nat)
    requires Whole(v) && Whole(u) && ZeroBehind(v, size) && Copied(v, u, p, off) && p != []
    ensures var n := if size < off + |p| then off + |p| else size;
            Plain(u, n) == Written(Plain(v, size), p, off) && ZeroBehind(u, n)
  {
    hide Written, Plain;
    var n := if size < off + |p| then off + |p| else size;
    var b := Plain(v, size);
    if 0 < |Written(b, p, off)| { WrittenAt(b, p, off, 0); }
    WrittenLength(b, p, off);
    forall i | 0 <= i < n ensures Plain(u, n)[i] == Written(b, p, off)[i] {
      WrittenAt(b, p, off, i);
    }
  }

  lemma WrittenLength(b: bytes, p: bytes, off: nat)
    requires p != []
    ensures |Written(b, p, off)| == if |b| < off + |p| then off + |p| else |b|
  {
  }

  /** The pages after a cut: those behind the end are gone, the last one is cleared behind it. */
  ghost predicate Trimmed(v: View, u: View, n: nat) {
    && (forall k :: k in u <==> k in v && k * PAGE < n)
    && (forall k :: k in u ==> u[k] == if n - k * PAGE < PAGE && |v[k]| == PAGE then v[k][..n % PAGE] + Zeros(PAGE - n % PAGE) else v[k])
  }

  lemma TrimmedAt(v: View, u: View, n: nat, i: nat)
    requires Whole(v) && Trimmed(v, u, n)
    ensures Whole(u) && ByteAt(u, i) == if i < n then ByteAt(v, i) else 0
  {
    var k := i / PAGE;
    if k in u {
      assert i == k * PAGE + i % PAGE;
      if n - k * PAGE < PAGE { assert n == k * PAGE + n % PAGE; }
    }
  }

  lemma CutMeans(v: View, u: View, size: nat, n: nat)
    requires Whole(v) && Trimmed(v, u, n) && n <= size
    ensures Whole(u) && Plain(u, n) == Cut(Plain(v, size), n) && ZeroBehind(u, n)
  {
    TrimmedAt(v, u, n, 0);
    forall i: nat ensures ByteAt(u, i) == if i < n then ByteAt(v, i) else 0 { TrimmedAt(v, u, n, i); }
  }

  lemma GrowMeans(v: View, size: nat, n: nat)
    requires Whole(v) && ZeroBehind(v, size) && size <= n
    ensures Plain(v, n) == Cut(Plain(v, size), n) && ZeroBehind(v, n)
  {
  }

  // ----- pages as objects

  class Page {
    var data: bytes
    var shared: bool

    constructor (data: bytes)
      ensures this.data == data && !shared
    {
      this.data, shared := data, false;
    }
  }

  ghost function ViewOf(pages: map<nat, Page>): View
    reads pages.Values
  {
    map k | k in pages :: pages[k].data
  }

  /** Different places hold different pages. */
  ghost predicate Separate(pages: map<nat, Page>) { forall j, k :: j in pages && k in pages && pages[j] == pages[k] ==> j == k }

  ghost function Unshared(pages: map<nat, Page>): set<Page>
    reads pages.Values
  {
    set p | p in pages.Values && !p.shared
  }

  lemma InValues(pages: map<nat, Page>, k: nat)
    requires k in pages
    ensures pages[k] in pages.Values
  {
  }

  datatype Outcome<T> = Value(value: T) | Closed | Refused

  /** Reads from pages: the bytes there are, and whether the request ran past the end. */
  method ReadMemory(pages: map<nat, Page>, size: nat, n: nat, off: int) returns (r: Outcome<(bytes, bool)>)
    requires Whole(ViewOf(pages))
    ensures r.Refused? <==> off < 0
    ensures !r.Closed?
    ensures 0 <= off ==> r.value.0 == Window(Plain(ViewOf(pages), size), off, n) && (r.value.1 <==> |r.value.0| < n)
  {
    hide Plain, ViewOf, Whole;
    if off < 0 {
      r := Refused;
    } else if n == 0 {
      assert Window(Plain(ViewOf(pages), size), off, n) == [];
      r := Value(([], false));
    } else if off >= size {
      r := Value(([], true));
    } else {
      var count := if n < size - off then n else size - off;
      var out := ReadRange(pages, size, off, count);
      WindowIs(Plain(ViewOf(pages), size), off, n, count);
      r := Value((out, |out| < n));
    }
  }

  lemma WindowIs(b: bytes, off: nat, n: nat, count: nat)
    requires off < |b| && count == if n < |b| - off then n else |b| - off
    ensures Window(b, off, n) == b[off..off + count]
  {
  }

  method ReadRange(pages: map<nat, Page>, ghost size: nat, off: nat, count: nat) returns (out: bytes)
    requires Whole(ViewOf(pages)) && off + count <= size
    ensures out == Plain(ViewOf(pages), size)[off..off + count]
  {
    hide Plain, ViewOf, Whole;
    out := [];
    var at := off;
    ghost var all := Plain(ViewOf(pages), size);
    while |out| < count
      invariant |out| <= count && at == off + |out| && out == all[off..off + |out|]
      decreases count - |out|
    {
      var part := if count - |out| < PAGE - at % PAGE then count - |out| else PAGE - at % PAGE;
      var piece := ReadPiece(pages, size, at, part);
      assert all[off..off + |out| + part] == all[off..off + |out|] + all[at..at + part];
      out, at := out + piece, at + part;
    }
  }

  /** Reads a piece that lies in one page. */
  method ReadPiece(pages: map<nat, Page>, ghost size: nat, at: nat, n: nat) returns (piece: bytes)
    requires Whole(ViewOf(pages)) && at + n <= size && at % PAGE + n <= PAGE
    ensures piece == Plain(ViewOf(pages), size)[at..at + n]
  {
    hide Plain;
    var k := at / PAGE;
    if k in pages {
      InValues(pages, k);
      assert pages[k].data == ViewOf(pages)[k];
      piece := pages[k].data[at % PAGE..at % PAGE + n];
    } else {
      piece := Zeros(n);
    }
    PieceIs(ViewOf(pages), size, at, n, piece);
  }

  lemma PieceIs(v: View, size: nat, at: nat, n: nat, piece: bytes)
    requires Whole(v) && at + n <= size && at % PAGE + n <= PAGE && |piece| == n
    requires forall i :: 0 <= i < n ==> piece[i] == if at / PAGE in v then v[at / PAGE][at % PAGE + i] else 0
    ensures piece == Plain(v, size)[at..at + n]
  {
    var b := Plain(v, size);
    forall i | 0 <= i < n ensures piece[i] == b[at + i] {
      assert (at + i) / PAGE == at / PAGE && (at + i) % PAGE == at % PAGE + i;
    }
  }

  /** What a snapshot holds: pages that nobody writes to any more. */
  class Snapshot {
    const pages: map<nat, Page>
    const size: nat

    ghost predicate Valid()
      reads pages.Values
    {
      Whole(ViewOf(pages)) && forall p :: p in pages.Values ==> p.shared
    }

    ghost function Contents(): bytes
      requires Valid()
      reads pages.Values
    {
      Plain(ViewOf(pages), size)
    }

    constructor (pages: map<nat, Page>, size: nat)
      ensures this.pages == pages && this.size == size
    {
      this.pages, this.size := pages, size;
    }

    method ReadAt(n: nat, off: int) returns (r: Outcome<(bytes, bool)>)
      requires Valid()
      ensures r.Refused? <==> off < 0
      ensures 0 <= off ==> r.Value? && r.value.0 == Window(Contents(), off, n) && (r.value.1 <==> |r.value.0| < n)
    {
      r := ReadMemory(pages, size, n, off);
    }
  }

  class Store {
    var pages: map<nat, Page>
    var size: nat
    const limit: int
    var closed: bool

    ghost predicate Valid()
      reads this, pages.Values
    {
      Separate(pages) && Whole(ViewOf(pages)) && ZeroBehind(ViewOf(pages), size) && (closed ==> pages == map[])
    }

    ghost function Contents(): bytes
      requires Valid()
      reads this, pages.Values
    {
      Plain(ViewOf(pages), size)
    }

    /** The pages a write may change in place. */
    ghost function Own(): set<Page>
      reads this, pages.Values
    {
      Unshared(pages)
    }

    constructor (limit: int)
      ensures Valid() && Contents() == [] && !closed && this.limit == limit && Own() == {} && pages == map[]
    {
      this.limit, pages, size, closed := limit, map[], 0, false;
    }

    method Close()
      modifies this
      ensures Valid() && closed && Own() == {} && pages == map[]
    {
      closed, pages := true, map[];
    }

    method ReadAt(n: nat, off: int) returns (r: Outcome<(bytes, bool)>)
      requires Valid()
      ensures closed <==> r.Closed?
      ensures !closed ==>
                (r.Refused? <==> off < 0) && (0 <= off ==> r.value.0 == Window(Contents(), off, n) && (r.value.1 <==> |r.value.0| < n))
    {
      if closed {
        r := Closed;
      } else {
        r := ReadMemory(pages, size, n, off);
      }
    }

    /** The page to write to at a place: a new one, a private copy of a shared one, or the one there. */
    method PrivatePage(k: nat) returns (page: Page)
      requires Separate(pages) && Whole(ViewOf(pages))
      modifies this`pages
      ensures Separate(pages) && Whole(ViewOf(pages)) && k in pages && pages[k] == page && !page.shared && Own() <= old(Own()) + {page}
              && pages.Values <= old(pages.Values) + {page} && (page in old(Own()) || fresh(page))
      ensures page.data == PageOf(old(ViewOf(pages)), k) && ViewOf(pages) == old(ViewOf(pages))[k := page.data]
    {
      hide ByteAt;
      ghost var v := ViewOf(pages);
      if k !in pages {
        page := new Page(Zeros(PAGE));
        pages := pages[k := page];
      } else if pages[k].shared {
        InValues(pages, k);
        page := new Page(pages[k].data);
        pages := pages[k := page];
      } else {
        InValues(pages, k);
        page := pages[k];
      }
      assert page.data == PageOf(v, k) && |page.data| == PAGE;
      assert ViewOf(pages) == v[k := page.data];
      forall p | p in pages.Values ensures p in old(pages.Values) + {page} && (!p.shared ==> p in old(Own()) + {page}) {
        var j :| j in pages && pages[j] == p;
        if j != k { InValues(old(pages), j); }
      }
    }

    method WriteAt(p: bytes, off: int) returns (r: Outcome<nat>)
      requires Valid()
      modifies this, Own()
      ensures Valid() && closed == old(closed) && fresh(Own() - old(Own())) && fresh(pages.Values - old(pages.Values))
      ensures closed ==> r == Closed
      ensures r.Value? ==> !closed && 0 <= off && r.value == |p| && Contents() == Written(old(Contents()), p, off)
      ensures !r.Value? ==> Contents() == old(Contents())
      ensures !closed ==> (r.Value? <==> 0 <= off <= MAX - |p| && (p != [] ==> 0 <= limit && off + |p| <= limit))
    {
      hide ByteAt, Written, Plain, ZeroBehind;
      if closed {
        r := Closed;
      } else if off < 0 || |p| > MAX - off {
        r := Refused;
      } else if p == [] {
        WriteNothing(Contents(), off);
        r := Value(0);
      } else if limit < 0 || off + |p| > limit {
        r := Refused;
      } else {
        ghost var v, was := ViewOf(pages), size;
        CopyPages(p, off);
        WriteMeans(v, ViewOf(pages), was, p, off);
        if size < off + |p| { size := off + |p|; }
        r := Value(|p|);
      }
    }

    /** Copies a piece that lies in one page. */
    method CopyPiece(w: bytes, at: nat)
      requires Separate(pages) && Whole(ViewOf(pages)) && at % PAGE + |w| <= PAGE
      modifies this`pages, Own()
      ensures Separate(pages) && Whole(ViewOf(pages)) && fresh(Own() - old(Own())) && fresh(pages.Values - old(pages.Values))
      ensures Whole(old(ViewOf(pages))) && ViewOf(pages) == Patched(old(ViewOf(pages)), PageOf(old(ViewOf(pages)), at / PAGE), at, w)
    {
      hide Splice, ViewOf, Separate;
      var page := PrivatePage(at / PAGE);
      Overwrite(at / PAGE, page, Splice(page.data, at % PAGE, w));
    }

    /** Replaces the bytes of one page. */
    method Overwrite(k: nat, page: Page, data: bytes)
      requires Separate(pages) && Whole(ViewOf(pages)) && k in pages && pages[k] == page && |data| == PAGE
      modifies page`data
      ensures Whole(ViewOf(pages)) && ViewOf(pages) == old(ViewOf(pages))[k := data] && Own() == old(Own())
    {
      ghost var v := ViewOf(pages);
      page.data := data;
      forall j | j in pages && j != k ensures ViewOf(pages)[j] == v[j] { InValues(pages, j); }
    }

    method CopyPages(p: bytes, off: nat)
      requires Valid() && !closed
      modifies this`pages, Own()
      ensures Separate(pages) && Whole(ViewOf(pages)) && fresh(Own() - old(Own())) && fresh(pages.Values - old(pages.Values))
      ensures Copied(old(ViewOf(pages)), ViewOf(pages), p, off)
    {
      hide ByteAt, Copied, Splice, ViewOf, Whole, Separate, Patched, PageOf;
      ghost var v := ViewOf(pages);
      var done, at := 0, off;
      CopiedStart(v, p, off);
      while done < |p|
        invariant 0 <= done <= |p| && at == off + done && Separate(pages) && Whole(ViewOf(pages)) && fresh(Own() - old(Own()))
                  && fresh(pages.Values - old(pages.Values))
        invariant Copied(v, ViewOf(pages), p[..done], off)
      {
        var n := if |p| - done < PAGE - at % PAGE then |p| - done else PAGE - at % PAGE;
        ghost var u := ViewOf(pages);
        CopyPiece(p[done..done + n], at);
        CopiedMore(v, u, p, off, done, n, ViewOf(pages));
        done, at := done + n, at + n;
      }
      assert p[..done] == p;
    }

    method Truncate(n: int) returns (r: Outcome<()>)
      requires Valid()
      modifies this, Own()
      ensures Valid() && closed == old(closed) && fresh(Own() - old(Own())) && fresh(pages.Values - old(pages.Values))
      ensures closed ==> r == Closed
      ensures r.Value? ==> !closed && 0 <= n && Contents() == Cut(old(Contents()), n)
      ensures !r.Value? ==> Contents() == old(Contents())
      ensures !closed ==> (r.Value? <==> 0 <= n <= limit)
    {
      hide ByteAt, Plain, ZeroBehind, Cut, Trimmed;
      if closed {
        r := Closed;
      } else if n < 0 || limit < 0 || n > limit {
        r := Refused;
      } else {
        if n < size {
          ghost var v, was := ViewOf(pages), size;
          TrimPages(n);
          CutMeans(v, ViewOf(pages), was, n);
        } else {
          GrowMeans(ViewOf(pages), size, n);
        }
        size := n;
        r := Value(());
      }
    }

    /** Drops the pages behind the end and clears the rest of the last one. */
    method TrimPages(n: nat)
      requires Valid()
      modifies this`pages, Own()
      ensures Separate(pages) && fresh(Own() - old(Own())) && fresh(pages.Values - old(pages.Values))
              && Trimmed(old(ViewOf(pages)), ViewOf(pages), n)
    {
      hide ByteAt, ZeroBehind, ViewOf, Trimming, Separate, Whole;
      ghost var v := ViewOf(pages);
      var rest := pages.Keys;
      TrimStart(pages, n);
      while rest != {}
        invariant Separate(pages) && Whole(ViewOf(pages)) && fresh(Own() - old(Own())) && fresh(pages.Values - old(pages.Values))
                  && Trimming(v, ViewOf(pages), n, rest)
        decreases |rest|
      {
        var k :| k in rest;
        TrimStep(v, ViewOf(pages), n, rest, k);
        TrimPage(k, n);
        rest := rest - {k};
      }
      TrimEnd(v, ViewOf(pages), n);
    }

    method TrimPage(k: nat, n: nat)
      requires Separate(pages) && Whole(ViewOf(pages)) && k in ViewOf(pages) && |ViewOf(pages)[k]| == PAGE
      modifies this`pages, Own()
      ensures Separate(pages) && Whole(ViewOf(pages)) && fresh(Own() - old(Own())) && fresh(pages.Values - old(pages.Values))
      ensures k * PAGE >= n ==> ViewOf(pages) == old(ViewOf(pages)) - {k}
      ensures k * PAGE < n && n - k * PAGE < PAGE ==> ViewOf(pages) == old(ViewOf(pages))[k := old(ViewOf(pages))[k][..n % PAGE] + Zeros(PAGE - n % PAGE)]
      ensures k * PAGE < n && n - k * PAGE >= PAGE ==> ViewOf(pages) == old(ViewOf(pages))
    {
      hide ViewOf, Separate, Whole;
      InView(pages, k);
      if k * PAGE >= n {
        StillOwn(pages, k);
        pages := pages - {k};
      } else if n - k * PAGE < PAGE {
        var page := PrivatePage(k);
        ClearIs(page.data, n % PAGE);
        Overwrite(k, page, Splice(page.data, n % PAGE, Zeros(PAGE - n % PAGE)));
      }
    }

    /** Captures the present bytes; from here on their pages are shared. */
    method TakeSnapshot() returns (r: Outcome<Snapshot>)
      requires Valid()
      modifies pages.Values`shared
      ensures Valid() && closed == old(closed) && Contents() == old(Contents()) && pages == old(pages)
      ensures closed <==> r.Closed?
      ensures r.Value? || r.Closed?
      ensures r.Value? ==> fresh(r.value) && r.value.Valid() && r.value.Contents() == Contents() && Own() == {}
      ensures closed ==> Own() == old(Own())
    {
      hide ByteAt, ZeroBehind, Plain;
      if closed {
        r := Closed;
      } else {
        var rest := pages.Values;
        while rest != {}
          invariant rest <= pages.Values && forall p :: p in pages.Values && p !in rest ==> p.shared
          invariant ViewOf(pages) == old(ViewOf(pages))
          decreases |rest|
        {
          var p :| p in rest;
          p.shared := true;
          rest := rest - {p};
        }
        var s := new Snapshot(pages, size);
        r := Value(s);
      }
    }
  }

  /** A cut in progress: some places are still to be looked at. */
  ghost predicate Trimming(v: View, u: View, n: nat, rest: set<nat>) {
    && Whole(v) && rest <= v.Keys && rest <= u.Keys && (forall k :: k in rest ==> u[k] == v[k])
    && (forall k :: k in u && k !in rest ==> k in v && k * PAGE < n)
    && (forall k :: k in v && k !in rest && k * PAGE < n ==> k in u)
    && (forall k :: k in u && k !in rest ==> u[k] == if n - k * PAGE < PAGE then v[k][..n % PAGE] + Zeros(PAGE - n % PAGE) else v[k])
  }

  lemma TrimStart(pages: map<nat, Page>, n: nat)
    requires Whole(ViewOf(pages))
    ensures Trimming(ViewOf(pages), ViewOf(pages), n, pages.Keys)
  {
  }

  lemma TrimStep(v: View, u: View, n: nat, rest: set<nat>, k: nat)
    requires Trimming(v, u, n, rest) && k in rest
    ensures k in u && |u[k]| == PAGE
    ensures k * PAGE >= n ==> Trimming(v, u - {k}, n, rest - {k})
    ensures k * PAGE < n && n - k * PAGE < PAGE ==> Trimming(v, u[k := u[k][..n % PAGE] + Zeros(PAGE - n % PAGE)], n, rest - {k})
    ensures k * PAGE < n && n - k * PAGE >= PAGE ==> Trimming(v, u, n, rest - {k})
  {
  }

  lemma TrimEnd(v: View, u: View, n: nat)
    requires Trimming(v, u, n, {})
    ensures Trimmed(v, u, n)
  {
  }

  lemma InView(pages: map<nat, Page>, k: nat)
    ensures k in ViewOf(pages) <==> k in pages
  {
  }

  lemma StillOwn(pages: map<nat, Page>, k: nat)
    ensures Unshared(pages - {k}) <= Unshared(pages) && (pages - {k}).Values <= pages.Values && ViewOf(pages - {k}) == ViewOf(pages) - {k}
    ensures Separate(pages) ==> Separate(pages - {k})
    ensures Whole(ViewOf(pages)) ==> Whole(ViewOf(pages - {k}))
  {
    forall p | p in (pages - {k}).Values ensures p in pages.Values {
      var j :| j in pages - {k} && (pages - {k})[j] == p;
      assert pages[j] == p;
    }
  }

  lemma ClearIs(data: bytes, o: nat)
    requires o <= |data|
    ensures Splice(data, o, Zeros(|data| - o)) == data[..o] + Zeros(|data| - o)
  {
  }

  lemma WriteNothing(b: bytes, off: nat)
    ensures Written(b, [], off) == b
  {
  }

  lemma CopiedStart(v: View, p: bytes, off: nat)
    requires Whole(v)
    ensures Copied(v, v, p[..0], off)
  {
  }

  lemma CopiedMore(v: View, u: View, p: bytes, off: nat, done: nat, n: nat, w: View)
    requires Whole(v) && Whole(u) && done + n <= |p| && Copied(v, u, p[..done], off) && (off + done) % PAGE + n <= PAGE
    requires w == Patched(u, PageOf(u, (off + done) / PAGE), off + done, p[done..done + n])
    ensures Whole(w) && Copied(v, w, p[..done + n], off)
  {
    hide ByteAt, Splice;
    PatchedAt(u, off + done, p[done..done + n], 0);
    forall i: nat ensures ByteAt(w, i) == if off <= i < off + done + n then p[..done + n][i - off] else ByteAt(v, i) {
      PatchedAt(u, off + done, p[done..done + n], i);
    }
  }

  // ----- whole runs

  datatype Op = Write(p: bytes, off: int) | Resize(n: int) | Capture | Shut

  /** A plain byte array, while the store is open. */
  datatype Model = Model(bytes: bytes, open: bool)

  function Next(limit: int, m: Model, op: Op): Model {
    if !m.open then m
    else match op
      case Write(p, off) => if 0 <= off <= MAX - |p|
          && (p != [] ==> 0 <= limit && off + |p| <= limit) then Model(Written(m.bytes, p, off), true) else m
      case Resize(n) => if 0 <= n <= limit then Model(Cut(m.bytes, n), true) else m
      case Capture => m
      case Shut => Model(m.bytes, false)
  }

  function ModelOf(limit: int, ops: seq<Op>): Model {
    if ops == [] then Model([], true) else Next(limit, ModelOf(limit, ops[..|ops| - 1]), ops[|ops| - 1])
  }

  /** What the model held at each capture. */
  function Captured(limit: int, ops: seq<Op>): seq<bytes> {
    if ops == [] then []
    else
      var m := ModelOf(limit, ops[..|ops| - 1]);
      Captured(limit, ops[..|ops| - 1]) + if ops[|ops| - 1].Capture? && m.open then [m.bytes] else []
  }

  /** After any run the store reads as the plain array, and every snapshot as the array was when it was taken. */
  method Run(limit: int, ops: seq<Op>) returns (store: Store, snaps: seq<Snapshot>)
    ensures store.Valid() && store.closed == !ModelOf(limit, ops).open && (!store.closed ==> store.Contents() == ModelOf(limit, ops).bytes)
    ensures |snaps| == |Captured(limit, ops)| && forall k ::
              0 <= k < |snaps| ==> snaps[k].Valid() && snaps[k].Contents() == Captured(limit, ops)[k]
  {
    hide Store.Contents, Snapshot.Contents, Written, Cut, Whole, ViewOf, Plain, ZeroBehind, Separate, Captured, ModelOf;
    store := new Store(limit);
    snaps := [];
    var i := 0;
    RunStart(limit, ops);
    while i < |ops|
      invariant 0 <= i <= |ops| && fresh(store) && fresh(store.pages.Values) && store.limit == limit
      invariant store.Valid() && store.closed == !ModelOf(limit, ops[..i]).open
                && (!store.closed ==> store.Contents() == ModelOf(limit, ops[..i]).bytes)
      invariant |snaps| == |Captured(limit, ops[..i])|
      invariant forall k :: 0 <= k < |snaps| ==> snaps[k].Valid() && snaps[k].Contents() == Captured(limit, ops[..i])[k]
      invariant forall k, p :: 0 <= k < |snaps| && p in snaps[k].pages.Values ==> p.shared
    {
      RunStep(limit, ops, i);
      match ops[i] {
        case Write(p, off) => var r := store.WriteAt(p, off);
        case Resize(n) => var r := store.Truncate(n);
        case Shut => store.Close();
        case Capture =>
          var r := store.TakeSnapshot();
          if r.Value? {
            AllShared(store);
            snaps := snaps + [r.value];
          }
      }
      i := i + 1;
    }
    assert ops[..|ops|] == ops;
  }

  lemma RunStart(limit: int, ops: seq<Op>)
    ensures ModelOf(limit, ops[..0]) == Model([], true) && Captured(limit, ops[..0]) == []
  {
  }

  lemma RunStep(limit: int, ops: seq<Op>, i: nat)
    requires i < |ops|
    ensures ModelOf(limit, ops[..i + 1]) == Next(limit, ModelOf(limit, ops[..i]), ops[i])
    ensures Captured(limit, ops[..i + 1]) == Captured(limit, ops[..i]) + if ops[i].Capture?
            && ModelOf(limit, ops[..i]).open then [ModelOf(limit, ops[..i]).bytes] else []
  {
    assert ops[..i + 1][..i] == ops[..i];
  }

  lemma AllShared(store: Store)
    requires store.Own() == {}
    ensures forall p :: p in store.pages.Values ==> p.shared
  {
    forall p | p in store.pages.Values ensures p.shared { assert p !in store.Own(); }
  }
}
