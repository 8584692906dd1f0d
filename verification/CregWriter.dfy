/** Writing a registry tree as a CREG file. */
module CregWriter {
  import opened Bytes
  import opened CregRecord
  import opened CregPlacement
  import opened CregParser
  import opened CregImage

  // ----- the keys in preorder

  /** The two early generations clear the cache words of values. */
  predicate Cleared(g: Generation) { g == Windows95Rtm || g == Nashville }

  function MinimumValues(g: Generation): nat { if g == Nashville then 13 else 0 }

  /** The 16-bit lengths of a key can be written. */
  predicate KeyFits(k: Record) { |k.0| <= 0xffff && |k.1| <= 0xffff && forall i :: 0 <= i < |k.1| ==> Fits(k.1[i]) }

  predicate KeysFit(keys: seq<Record>) { forall i :: 0 <= i < |keys| ==> KeyFits(keys[i]) }

  ghost predicate TypesOk(keys: seq<Record>) {
    forall i, j :: 0 <= i < |keys| && 0 <= j < |keys[i].1| ==> keys[i].1[j].typ < 0x1_0000_0000
  }

  /** The records hold these keys, each with at least the room it needs. */
  ghost predicate Encoded(g: Generation, records: seq<bytes>, keys: seq<Record>) {
    |records| == |keys| && forall i :: 0 <= i < |keys| ==> RecordOf(g, records[i], keys[i])
  }

  ghost predicate RecordOf(g: Generation, record: bytes, key: Record) {
    && KeyFits(key) && UsedSize(key.0, key.1, Cleared(g)) <= |record| && record == Slot(key.0, key.1, Cleared(g), |record|, 0)
    && |record| == 20 + |key.0| + (if |EncodeValues(key.1, Cleared(g))| < MinimumValues(g) then MinimumValues(g) else |EncodeValues(key.1,
        Cleared(g))|)
  }

  /** Encodes a key and everything below it, in preorder. */
  method WalkKey(g: Generation, t: Tree, parent: int, depth: nat, given: seq<bytes>, had: seq<Link>)
    returns (ok: bool, records: seq<bytes>, links: seq<Link>)
    requires |given| == |had|
    ensures ok <==> KeysFit(Listing(t))
    ensures ok ==> |records| == |links| == |given| + Count(t) && given <= records && had <= links
    ensures ok ==> Encoded(g, records[|given|..], Listing(t)) && LinksTree(t, |given|, parent, links) && links[|given|].peer == -1
    decreases t, 0
  {
    hide LE, EncodeValues, RecordOf, LinksTree, LinksAll, UsedSize, KeysFit;
    records, links := given, had;
    var index := |given|;
    var encoded := EncodeKey(t.name, t.values, Cleared(g), MinimumValues(g));
    KeyEncoded(g, t, encoded);
    ok := encoded.Good?;
    BothFit([(t.name, t.values)], ListingAll(t.kids));
    OneFits((t.name, t.values));
    if ok {
      records, links := given + [encoded.value], had + [Link(parent, -1, -1, depth)];
      var more, next;
      ok, more, next := WalkPeers(g, t.kids, index, depth + 1, records, links);
      if ok {
        ghost var linked := next;
        if t.kids.Kids? { next := next[index := next[index].(child := index + 1)]; }
        ForestFrame(t.kids, index + 1, index, linked, next);
        TreeLinked(t, index, parent, next);
        TreeEncoded(g, t, given, encoded.value, more);
        records, links := more, next;
      }
    }
  }

  /** Encodes a list of siblings, chaining each to the next. */
  method WalkPeers(g: Generation, f: Forest, parent: nat, depth: nat, given: seq<bytes>, had: seq<Link>)
    returns (ok: bool, records: seq<bytes>, links: seq<Link>)
    requires |given| == |had|
    ensures ok <==> KeysFit(ListingAll(f))
    ensures ok ==> |records| == |links| == |given| + CountAll(f) && given <= records && had <= links
    ensures ok ==> Encoded(g, records[|given|..], ListingAll(f)) && LinksAll(f, |given|, parent, links)
    decreases f, 1
  {
    hide LE, RecordOf, LinksTree, Listing, KeysFit, Count;
    records, links, ok := given, had, true;
    NoneFit();
    if f.Kids? {
      var index := |given|;
      ok, records, links := WalkKey(g, f.head, parent, depth, given, had);
      if ok {
        var one := records;
        ghost var two := links;
        ok, records, links := WalkPeers(g, f.tail, parent, depth, records, links);
        if ok {
          ghost var linked := links;
          HeadCount(f.head);
          if f.tail.Kids? { links := links[index := links[index].(peer := |one|)]; }
          TreeFrame(f.head, index, parent, two, links);
          ForestFrame(f.tail, |one|, parent, linked, links);
          PeersEncoded(g, f, given, one, records);
        }
      }
      BothFit(Listing(f.head), ListingAll(f.tail));
    }
  }

  lemma KeyEncoded(g: Generation, t: Tree, r: Parsed<bytes>)
    requires r.Good? <==> |t.name| <= 0xffff && |t.values| <= 0xffff && forall i :: 0 <= i < |t.values| ==> Fits(t.values[i])
    requires r.Good? ==> UsedSize(t.name, t.values, Cleared(g)) <= |r.value| && r.value == Slot(t.name, t.values, Cleared(g), |r.value|, 0)
    requires r.Good? ==> |r.value| == 20 + |t.name| + (if |EncodeValues(t.values,
             Cleared(g))| < MinimumValues(g) then MinimumValues(g) else |EncodeValues(t.values, Cleared(g))|)
    ensures r.Good? <==> KeyFits((t.name, t.values))
    ensures r.Good? ==> RecordOf(g, r.value, (t.name, t.values))
  {
    hide Slot, EncodeValues, Fits;
  }

  lemma BothFit(a: seq<Record>, b: seq<Record>)
    ensures KeysFit(a + b) <==> KeysFit(a) && KeysFit(b)
  {
    hide KeyFits;
    var s := a + b;
    if KeysFit(s) {
      forall i | 0 <= i < |a| ensures KeyFits(a[i]) { assert s[i] == a[i]; }
      forall i | 0 <= i < |b| ensures KeyFits(b[i]) { assert s[|a| + i] == b[i]; }
    }
  }

  lemma OneFits(k: Record)
    ensures KeysFit([k]) <==> KeyFits(k)
  {
    hide KeyFits;
    var s := [k];
    assert s[0] == k;
  }

  lemma HeadCount(t: Tree)
    ensures 0 < Count(t)
  {
  }

  lemma TreeLinked(t: Tree, i: nat, parent: int, links: seq<Link>)
    requires i + Count(t) <= |links| && links[i].parent == parent && links[i].child == (if t.kids.NoKids? then -1 else i + 1)
             && LinksAll(t.kids, i + 1, i, links)
    ensures LinksTree(t, i, parent, links)
  {
  }

  lemma {:induction false} TreeFrame(t: Tree, i: nat, parent: int, a: seq<Link>, b: seq<Link>)
    requires LinksTree(t, i, parent, a) && i + Count(t) <= |b| && (forall j :: i < j < i + Count(t) ==> b[j] == a[j])
    requires b[i].parent == a[i].parent && b[i].child == a[i].child
    ensures LinksTree(t, i, parent, b)
    decreases t, 0
  {
    ForestFrame(t.kids, i + 1, i, a, b);
  }

  lemma {:induction false} ForestFrame(f: Forest, i: nat, parent: int, a: seq<Link>, b: seq<Link>)
    requires LinksAll(f, i, parent, a) && i + CountAll(f) <= |b| && i + CountAll(f) <= |a|
             && forall j :: i <= j < i + CountAll(f) ==> b[j] == a[j]
    ensures LinksAll(f, i, parent, b)
    decreases f, 1
  {
    hide LinksTree, Count;
    if f.Kids? {
      HeadCount(f.head);
      TreeFrame(f.head, i, parent, a, b);
      ForestFrame(f.tail, i + Count(f.head), parent, a, b);
    }
  }

  lemma TreeEncoded(g: Generation, t: Tree, given: seq<bytes>, record: bytes, records: seq<bytes>)
    requires RecordOf(g, record, (t.name, t.values)) && given + [record] <= records && |records| == |given| + Count(t)
    requires Encoded(g, records[|given| + 1..], ListingAll(t.kids))
    ensures Encoded(g, records[|given|..], Listing(t))
  {
    hide RecordOf, ListingAll, CountAll;
    var a, s := records[|given|..], Listing(t);
    assert a[0] == record;
    forall i | 0 <= i < |s| ensures RecordOf(g, a[i], s[i]) {
      if i > 0 { assert a[i] == records[|given| + 1..][i - 1] && s[i] == ListingAll(t.kids)[i - 1]; }
    }
  }

  lemma PeersEncoded(g: Generation, f: Forest, given: seq<bytes>, one: seq<bytes>, records: seq<bytes>)
    requires f.Kids? && given <= one <= records && |one| == |given| + Count(f.head) && |records| == |given| + CountAll(f)
    requires Encoded(g, one[|given|..], Listing(f.head)) && Encoded(g, records[|one|..], ListingAll(f.tail))
    ensures Encoded(g, records[|given|..], ListingAll(f))
  {
    hide RecordOf, Listing, Count;
    var a, s, n := records[|given|..], ListingAll(f), Count(f.head);
    forall i | 0 <= i < |s| ensures RecordOf(g, a[i], s[i]) {
      if i < n {
        assert a[i] == one[|given|..][i] && s[i] == Listing(f.head)[i];
      } else {
        assert a[i] == records[|one|..][i - n] && s[i] == ListingAll(f.tail)[i - n];
      }
    }
  }

  lemma NoneFit()
    ensures KeysFit([])
  {
  }

  // ----- where navigation records go

  /** Whether a record at a cursor must move to the next page. */
  predicate Moves(g: Generation, cursor: nat) {
    && (Modern(g) || g == Nashville) && cursor % 0x1000 + 28 > 0x1000
    && !((g == WindowsMe || g == Nashville || g == Windows98Fe) && cursor < 0x1000)
  }

  /** Each record follows the one before it, the first right behind the header. */
  ghost predicate Spread(offsets: seq<nat>, used: nat) {
    && (forall i :: 0 <= i < |offsets| ==> 32 <= offsets[i] && offsets[i] + 28 <= used)
    && (forall i, j :: 0 <= i < j < |offsets| ==> offsets[i] + 28 <= offsets[j])
  }

  method NavOffsets(g: Generation, n: nat) returns (offsets: seq<nat>, used: nat)
    ensures |offsets| == n && (n > 0 ==> offsets[0] == 32) && Spread(offsets, used) && 32 <= used <= 32 + 56 * n
  {
    hide Spread, Moves, Align;
    offsets, used := [], 32;
    SpreadStart();
    while |offsets| < n
      invariant |offsets| <= n && (offsets != [] ==> offsets[0] == 32) && Spread(offsets, used) && 32 <= used <= 32 + 56 * |offsets|
      invariant offsets == [] ==> used == 32
      decreases n - |offsets|
    {
      MoveBound(g, used);
      var at := if Moves(g, used) then Align(used, 0x1000) else used;
      SpreadMore(offsets, used, at);
      offsets, used := offsets + [at], at + 28;
    }
  }

  lemma SpreadStart()
    ensures Spread([], 32)
  {
  }

  lemma SpreadMore(offsets: seq<nat>, used: nat, at: nat)
    requires Spread(offsets, used) && 32 <= used <= at
    ensures Spread(offsets + [at], at + 28)
  {
  }

  /** A record moves past less than its own length, and never the first one. */
  lemma MoveBound(g: Generation, cursor: nat)
    ensures Moves(g, cursor) ==> cursor <= Align(cursor, 0x1000) <= cursor + 28
    ensures !Moves(g, 32)
  {
  }

  /** The size of the navigation section: whole pages, or such that the data blocks start a page. */
  function NavSize(g: Generation, used: nat): (n: nat)
    ensures used <= n <= used + 0x1000
  {
    if Modern(g) || g == Windows95Rtm then Align(used, 0x1000) else Align(used + 32, 0x1000) - 32
  }

  // ----- the bytes of the parts

  function FileHead(g: Generation, dataAt: nat, blocks: nat, state: nat): (h: bytes)
    ensures |h| == 32
  {
    CREG + [0, 0, 1, 0] + Enc32(dataAt) + (if g == Nashville then Enc32(0xb8b49dbc) else Zeros(4)) + Enc16(blocks) + Enc16(state) + [0, 0,
        1, 0] + Zeros(8)
  }

  function NavHead(g: Generation, size: nat, used: nat): (h: bytes)
    ensures |h| == 32
  {
    RGKN + Enc32(size) + Enc32(32) + Enc32(used) + Enc32(if Cleared(g) then 9 else 8) + (if g == Nashville then Enc32(0x31b49360) else Zeros(4)) + Zeros(8)
  }

  function NameHash(name: bytes): nat {
    if name == [] then 0
    else (NameHash(name[..|name| - 1]) + if name[|name| - 1] < 0x80 then Upper(name[|name| - 1]) as nat else 0) % 0x1_0000_0000
  }

  predicate HasDefault(vs: seq<Value>) { exists i :: 0 <= i < |vs| && vs[i].name == DEFAULT }

  /** The cache word of a navigation record. */
  function ClassWord(g: Generation, i: nat, depth: nat, vs: seq<Value>): nat {
    if Cleared(g) then if i == 0 then 0 else NONE
    else if i == 0 then if g == Windows98 || g == Windows98Fe then 0x3b000123 else 0
    else if g == WindowsMe then if depth < 2 then NONE else if i < 145 then 4 else 0
    else if HasDefault(vs) then 4 else NONE
  }

  function Entry(g: Generation, offsets: seq<nat>, i: nat, l: Link, key: Record, id: nat): (e: bytes)
    requires l.parent < |offsets| && l.child < |offsets| && l.peer < |offsets|
    ensures |e| == 28
  {
    Zeros(4) + Enc32(NameHash(key.0)) + Enc32(ClassWord(g, i, l.depth, key.1))
    + (Enc32(Ref(offsets, l.parent)) + Enc32(Ref(offsets, l.child)) + Enc32(Ref(offsets, l.peer)) + Enc32(if i == 0 then NONE else id))
  }

  function BlockHead(g: Generation, size: nat, free: nat, k: nat, cursor: nat, count: nat): (h: bytes)
    ensures |h| == 32
  {
    RGDB + Enc32(size) + Enc32(free) + Enc16(if Cleared(g) then 9 else 8) + Enc16(k) + Enc32(cursor)
    + Enc16(if count > 0 then count - 1 else 0) + Enc16(count) + Zeros(8)
  }

  lemma FileHeadRead(g: Generation, dataAt: nat, blocks: nat, state: nat, b: bytes)
    requires 32 <= |b| && b[..32] == FileHead(g, dataAt, blocks, state) && dataAt < 0x1_0000_0000 && blocks <= 0xffff
    ensures b[..4] == CREG && U32(b, 8) == dataAt && U16(b, 16) == blocks
  {
    hide LE, U32, U16;
    var h := b[..32];
    assert b[..4] == h[..4] == CREG;
    assert b[8..12] == h[8..12] == Enc32(dataAt);
    assert b[16..18] == h[16..18] == Enc16(blocks);
    WordAt(b, 8, dataAt); HalfAt(b, 16, blocks);
  }

  lemma NavHeadRead(g: Generation, size: nat, used: nat, b: bytes)
    requires 64 <= |b| && b[32..64] == NavHead(g, size, used) && size < 0x1_0000_0000 && used < 0x1_0000_0000
    ensures b[32..36] == RGKN && U32(b, 36) == size && U32(b, 40) == 32 && U32(b, 44) == used
  {
    hide LE, U32, U16;
    var h := NavHead(g, size, used);
    assert h[0..0 + |RGKN|] == RGKN && h[4..8] == Enc32(size) && h[8..12] == Enc32(32) && h[12..16] == Enc32(used);
    SliceOf(b, 32, h, 0, RGKN); SliceOf(b, 32, h, 4, Enc32(size)); SliceOf(b, 32, h, 8, Enc32(32)); SliceOf(b, 32, h, 12, Enc32(used));
    WordAt(b, 36, size); WordAt(b, 40, 32); WordAt(b, 44, used);
  }

  lemma EntryRead(g: Generation, offsets: seq<nat>, i: nat, l: Link, key: Record, id: nat, b: bytes, at: nat)
    requires l.parent < |offsets| && l.child < |offsets| && l.peer < |offsets| && 32 + at + 28 <= |b|
             && b[32 + at..32 + at + 28] == Entry(g, offsets, i, l, key, id)
    requires id < 0x1_0000_0000 && forall j :: 0 <= j < |offsets| ==> offsets[j] < NONE
    ensures LinkWritten(b, offsets, l, id, at, i == 0)
  {
    hide LE, U32, U16, NameHash, ClassWord;
    var e, o := Entry(g, offsets, i, l, key, id), 32 + at;
    SliceOf(b, o, e, 12, Enc32(Ref(offsets, l.parent)));
    SliceOf(b, o, e, 16, Enc32(Ref(offsets, l.child)));
    SliceOf(b, o, e, 20, Enc32(Ref(offsets, l.peer)));
    SliceOf(b, o, e, 24, Enc32(if i == 0 then NONE else id));
    WordAt(b, o + 12, Ref(offsets, l.parent)); WordAt(b, o + 16, Ref(offsets, l.child)); WordAt(b, o + 20, Ref(offsets, l.peer));
    WordAt(b, o + 24, if i == 0 then NONE else id);
  }

  lemma BlockHeadRead(g: Generation, size: nat, free: nat, k: nat, cursor: nat, count: nat, b: bytes, at: nat)
    requires at + 32 <= |b| && b[at..at + 32] == BlockHead(g, size, free, k, cursor, count) && size < 0x1_0000_0000 && k <= 0xffff
             && count <= 0xffff
    ensures b[at..at + 4] == RGDB && U32(b, at + 4) == size && U16(b, at + 14) == k && U16(b, at + 22) == count
  {
    hide LE, U32, U16;
    var h := BlockHead(g, size, free, k, cursor, count);
    assert h[0..0 + |RGDB|] == RGDB && h[4..8] == Enc32(size) && h[14..16] == Enc16(k) && h[22..24] == Enc16(count);
    SliceOf(b, at, h, 0, RGDB); SliceOf(b, at, h, 4, Enc32(size)); SliceOf(b, at, h, 14, Enc16(k)); SliceOf(b, at, h, 22, Enc16(count));
    WordAt(b, at + 4, size); HalfAt(b, at + 14, k); HalfAt(b, at + 22, count);
  }

  // ----- filling the file

  predicate RefsIn(links: seq<Link>, n: nat) {
    forall i :: 0 <= i < |links| ==> links[i].parent < n && links[i].child < n && links[i].peer < n
  }

  /** Writes the navigation records into their places. */
  method WriteNavigation(g: Generation, given: bytes, offsets: seq<nat>, used: nat, links: seq<Link>, keys: seq<Record>, ids: seq<nat>)
    returns (data: bytes)
    requires Spread(offsets, used) && 64 <= |given| && 32 + used <= |given| && |offsets| == |links| == |keys| == |ids|
             && RefsIn(links, |offsets|)
    ensures |data| == |given| && data[..64] == given[..64]
    ensures forall i :: 0 <= i < |offsets| ==> data[32 + offsets[i]..32 + offsets[i] + 28] == Entry(g, offsets, i, links[i], keys[i],
            ids[i])
  {
    hide Entry, LE;
    data := given;
    var i := 0;
    while i < |offsets|
      invariant 0 <= i <= |offsets| && |data| == |given| && data[..64] == given[..64]
      invariant forall j :: 0 <= j < i ==> data[32 + offsets[j]..32 + offsets[j] + 28] == Entry(g, offsets, j, links[j], keys[j], ids[j])
    {
      var at, entry := 32 + offsets[i], Entry(g, offsets, i, links[i], keys[i], ids[i]);
      ghost var before := data;
      data := Splice(data, at, entry);
      SpliceBefore(before, at, entry, 0, 64);
      assert data[..64] == data[0..64] && before[..64] == before[0..64];
      SpliceAt(before, at, entry);
      forall j | 0 <= j < i ensures data[32 + offsets[j]..32 + offsets[j] + 28] == before[32 + offsets[j]..32 + offsets[j] + 28] {
        SpliceBefore(before, at, entry, 32 + offsets[j], 32 + offsets[j] + 28);
      }
      i := i + 1;
    }
  }

  lemma PrefixKept(b: bytes, o: nat, w: bytes, e: nat)
    requires e <= o && o + |w| <= |b|
    ensures Splice(b, o, w)[..e] == b[..e]
  {
    SpliceBefore(b, o, w, 0, e);
    assert Splice(b, o, w)[..e] == Splice(b, o, w)[0..e] && b[..e] == b[0..e];
  }

  /** Marks the rest of the navigation section free. The mark may run over into the first data block, which is written later. */
  method WriteFree(g: Generation, given: bytes, used: nat, size: nat) returns (data: bytes)
    requires used <= size && 32 + size + 12 <= |given|
    ensures |data| == |given| && data[..32 + used] == given[..32 + used]
  {
    hide LE, Splice;
    var at := 32 + used;
    data := given;
    PrefixKept(data, at, Enc32(0x8000_0000) + Enc32(size - used) + Enc32(NONE), at);
    data := Splice(data, at, Enc32(0x8000_0000) + Enc32(size - used) + Enc32(NONE));
    if g == WindowsMe {
      var cursor := 28;
      while cursor + 28 <= size - used
        invariant |data| == |given| && data[..at] == given[..at]
      {
        PrefixKept(data, at + cursor, Enc32(0x8000_0000), at);
        data := Splice(data, at + cursor, Enc32(0x8000_0000));
        PrefixKept(data, at + cursor + 8, Enc32(4), at);
        data := Splice(data, at + cursor + 8, Enc32(4));
        cursor := cursor + 28;
      }
    }
  }

  /** The records as they are stored, with their identities. */
  ghost predicate Numbered(slots: seq<bytes>, out: seq<bytes>, ids: seq<nat>) {
    |slots| == |out| == |ids| && forall i :: 1 <= i < |out| ==> 20 <= |out[i]| && slots[i] == Put32(out[i], 4, ids[i])
  }

  method WriteRecords(given: bytes, at: nat, b: Block, out: seq<bytes>, ids: seq<nat>, ghost slots: seq<bytes>)
    returns (data: bytes, cursor: nat)
    requires Numbered(slots, out, ids) && b.first <= b.end <= |out| && (b.first == b.end || 1 <= b.first)
    requires 32 + Total(slots[b.first..b.end]) + 12 <= b.size && at + b.size <= |given|
    ensures |data| == |given| && data[..at] == given[..at] && cursor == 32 + Total(slots[b.first..b.end])
    ensures data[at + 32..at + cursor] == Concat(slots[b.first..b.end])
  {
    hide LE, Splice, Total, Concat, Put32;
    data, cursor := given, 32;
    var index := b.first;
    NoConcat(slots, b.first);
    assert data[at + 32..at + 32] == [];
    while index < b.end
      invariant b.first <= index <= b.end && |data| == |given| && data[..at] == given[..at] && cursor == 32 + Total(slots[b.first..index])
      invariant cursor <= b.size && data[at + 32..at + cursor] == Concat(slots[b.first..index])
    {
      var record := Put32(out[index], 4, ids[index]);
      ConcatAt(slots, b.first, b.end, index);
      ConcatMore(slots, b.first, index);
      PrefixKept(data, at + cursor, record, at);
      SpliceBefore(data, at + cursor, record, at + 32, at + cursor);
      SpliceAt(data, at + cursor, record);
      ghost var before := data;
      data := Splice(data, at + cursor, record);
      Join(data, at + 32, at + cursor, at + cursor + |record|);
      cursor, index := cursor + |record|, index + 1;
    }
  }

  lemma NoConcat(slots: seq<bytes>, i: nat)
    requires i <= |slots|
    ensures Total(slots[i..i]) == 0 && Concat(slots[i..i]) == []
  {
  }

  lemma ConcatMore(slots: seq<bytes>, first: nat, i: nat)
    requires first <= i < |slots|
    ensures Concat(slots[first..i + 1]) == Concat(slots[first..i]) + slots[i]
  {
    assert slots[first..i + 1][..i - first] == slots[first..i];
  }

  lemma Join(b: bytes, i: nat, j: nat, k: nat)
    requires i <= j <= k <= |b|
    ensures b[i..k] == b[i..j] + b[j..k]
  {
  }

  /** Writes one data block: its records, its header and the mark of its free rest. */
  method WriteBlock(g: Generation, given: bytes, at: nat, b: Block, k: nat, out: seq<bytes>, ids: seq<nat>, ghost slots: seq<bytes>)
    returns (data: bytes)
    requires Numbered(slots, out, ids) && b.first <= b.end <= |out| && (b.first == b.end || 1 <= b.first) && b.end - b.first <= 255
             && k <= 0xffff && b.size <= 0xffff
    requires 32 + Total(slots[b.first..b.end]) + 12 <= b.size && at + b.size <= |given|
    ensures |data| == |given| && data[..at] == given[..at] && BlockWritten(data, at, b, k, slots)
  {
    hide LE, Splice, Total, Concat, Put32, BlockHead, U32, U16;
    var cursor;
    data, cursor := WriteRecords(given, at, b, out, ids, slots);
    var head := BlockHead(g, b.size, b.size - cursor, k, cursor, b.end - b.first);
    var mark := Enc32(b.size - cursor) + Enc32(NONE) + Enc32(NONE);
    ghost var one := data;
    PrefixKept(data, at, head, at);
    SpliceAt(data, at, head);
    SpliceAfter(data, at, head, at + 32, at + cursor);
    data := Splice(data, at, head);
    ghost var two := data;
    PrefixKept(data, at + cursor, mark, at);
    SpliceBefore(data, at + cursor, mark, at, at + 32);
    SpliceBefore(data, at + cursor, mark, at + 32, at + cursor);
    data := Splice(data, at + cursor, mark);
    BlockHeadRead(g, b.size, b.size - cursor, k, cursor, b.end - b.first, data, at);
  }

  function Sizes(blocks: seq<Block>): nat { if blocks == [] then 0 else Sizes(blocks[..|blocks| - 1]) + blocks[|blocks| - 1].size }

  /** A block that has room for its records and the mark behind them. */
  ghost predicate Roomy(b: Block, slots: seq<bytes>) {
    && b.first <= b.end <= |slots| && (b.first == b.end || 1 <= b.first) && b.end - b.first <= 255 && b.size <= 0xffff
    && 32 + Total(slots[b.first..b.end]) + 12 <= b.size
  }

  /** The first k blocks are written one after the other. */
  ghost predicate WrittenUpTo(data: bytes, start: nat, blocks: seq<Block>, k: nat, slots: seq<bytes>) {
    forall j :: 0 <= j < k <= |blocks| ==> BlockWritten(data, start + Sizes(blocks[..j]), blocks[j], j, slots)
  }

  method WriteBlocks(g: Generation, given: bytes, start: nat, blocks: seq<Block>, out: seq<bytes>, ids: seq<nat>, ghost slots: seq<bytes>)
    returns (data: bytes)
    requires Numbered(slots, out, ids) && |blocks| <= 0xffff && start + Sizes(blocks) == |given|
             && forall j :: 0 <= j < |blocks| ==> Roomy(blocks[j], slots)
    ensures |data| == |given| && data[..start] == given[..start] && BlocksWritten(data, start, blocks, 0, slots)
  {
    hide LE, BlockWritten, Numbered, Total, Sizes;
    data := given;
    var k, at := 0, start;
    SizesNone(blocks);
    while k < |blocks|
      invariant 0 <= k <= |blocks| && at == start + Sizes(blocks[..k]) && |data| == |given| && data[..start] == given[..start]
      invariant WrittenUpTo(data, start, blocks, k, slots)
    {
      SizesMore(blocks, k);
      SizesBound(blocks, k + 1);
      ghost var before := data;
      NumberedLength(slots, out, ids);
      data := WriteBlock(g, data, at, blocks[k], k, out, ids, slots);
      ShorterPrefix(before, data, at, start);
      forall j | 0 <= j < k ensures BlockWritten(data, start + Sizes(blocks[..j]), blocks[j], j, slots) {
        SizesMore(blocks, j);
        SizesOrder(blocks, j + 1, k);
        BlockStays(before, data, at, start + Sizes(blocks[..j]), blocks[j], j, slots);
      }
      at, k := at + blocks[k].size, k + 1;
    }
    assert blocks[..|blocks|] == blocks;
    SizesNone(blocks);
    AllBlocks(data, start, blocks, 0, slots);
  }

  lemma SizesNone(blocks: seq<Block>)
    ensures Sizes(blocks[..0]) == 0
  {
  }

  lemma SizesMore(blocks: seq<Block>, k: nat)
    requires k < |blocks|
    ensures Sizes(blocks[..k + 1]) == Sizes(blocks[..k]) + blocks[k].size
  {
    assert blocks[..k + 1][..k] == blocks[..k];
  }

  lemma {:induction false} SizesOrder(blocks: seq<Block>, i: nat, j: nat)
    requires i <= j <= |blocks|
    ensures Sizes(blocks[..i]) <= Sizes(blocks[..j])
    decreases j
  {
    if i < j {
      SizesMore(blocks, j - 1);
      SizesOrder(blocks, i, j - 1);
    }
  }

  lemma SizesBound(blocks: seq<Block>, k: nat)
    requires k <= |blocks|
    ensures Sizes(blocks[..k]) <= Sizes(blocks)
  {
    SizesOrder(blocks, k, |blocks|);
    assert blocks[..|blocks|] == blocks;
  }

  lemma NumberedLength(slots: seq<bytes>, out: seq<bytes>, ids: seq<nat>)
    requires Numbered(slots, out, ids)
    ensures |slots| == |out|
  {
  }

  lemma ShorterPrefix(a: bytes, b: bytes, long: nat, short: nat)
    requires short <= long <= |a| == |b| && a[..long] == b[..long]
    ensures a[..short] == b[..short]
  {
    assert a[..short] == a[..long][..short];
    assert b[..short] == b[..long][..short];
  }

  lemma BlockStays(a: bytes, b: bytes, end: nat, at: nat, block: Block, k: nat, slots: seq<bytes>)
    requires BlockWritten(a, at, block, k, slots) && |a| == |b| && at + block.size <= end <= |a| && a[..end] == b[..end]
    ensures BlockWritten(b, at, block, k, slots)
  {
    hide LE, Total, Concat;
    var n := Total(slots[block.first..block.end]);
    SamePart(a, b, end, at, at + 4);
    SamePart(a, b, end, at + 4, at + 8);
    SamePart(a, b, end, at + 14, at + 16);
    SamePart(a, b, end, at + 22, at + 24);
    SamePart(a, b, end, at + 32, at + 32 + n);
  }

  lemma SamePart(a: bytes, b: bytes, end: nat, i: nat, j: nat)
    requires i <= j <= end <= |a| == |b| && a[..end] == b[..end]
    ensures a[i..j] == b[i..j]
  {
    assert a[i..j] == a[..end][i..j];
    assert b[i..j] == b[..end][i..j];
  }

  lemma {:induction false} AllBlocks(data: bytes, start: nat, blocks: seq<Block>, k: nat, slots: seq<bytes>)
    requires WrittenUpTo(data, start, blocks, |blocks|, slots) && start + Sizes(blocks) == |data| && k <= |blocks|
    ensures BlocksWritten(data, start + Sizes(blocks[..k]), blocks, k, slots)
    decreases |blocks| - k
  {
    hide BlockWritten, Sizes;
    if k < |blocks| {
      SizesMore(blocks, k);
      AllBlocks(data, start, blocks, k + 1, slots);
    } else {
      assert blocks[..k] == blocks;
    }
  }

  // ----- the whole file

  /** The blocks of the file: ME keeps an empty one ready, and there is always one. */
  function FinalBlocks(g: Generation, blocks: seq<Block>, n: nat): seq<Block> {
    var more := if g == WindowsMe then blocks + [Block(n, n, 0x8000)] else blocks;
    if more == [] then [Block(0, 0, 0x1020)] else more
  }

  ghost function SlotsOf(out: seq<bytes>, ids: seq<nat>): (s: seq<bytes>)
    requires |out| == |ids| && forall i :: 1 <= i < |out| ==> 20 <= |out[i]|
    ensures Numbered(s, out, ids)
  {
    seq(|out|, i requires 0 <= i < |out| => if i == 0 then out[0] else Put32(out[i], 4, ids[i]))
  }

  lemma {:induction false} SlotTotals(out: seq<bytes>, slots: seq<bytes>, ids: seq<nat>, first: nat, i: nat)
    requires Numbered(slots, out, ids) && first <= i <= |out| && (first == i || 1 <= first)
    ensures Total(slots[first..i]) == Total(out[first..i])
    decreases i
  {
    hide Put32, Total;
    if first < i {
      TotalSnoc(slots, first, i - 1);
      TotalSnoc(out, first, i - 1);
      SlotTotals(out, slots, ids, first, i - 1);
    } else {
      assert slots[i..i] == [] && out[i..i] == [];
    }
  }

  lemma {:induction false} CoveredInOrder(blocks: seq<Block>, from: nat, to: nat, k: nat)
    requires Covers(blocks, from, to) && k < |blocks|
    ensures blocks[k].first == (if k == 0 then from else blocks[k - 1].end) && (k == |blocks| - 1 ==> blocks[k].end == to)
  {
    var n := |blocks| - 1;
    if k < n {
      CoveredInOrder(blocks[..n], from, blocks[n].first, k);
    } else if n > 0 {
      CoveredInOrder(blocks[..n], from, blocks[n].first, n - 1);
    }
  }

  /** What the placement says about one block. */
  ghost predicate Filled(b: Block, out: seq<bytes>, n: nat) {
    1 <= b.first < b.end <= n == |out| && b.end - b.first <= 255 && 32 + Total(out[b.first..b.end]) + 12 <= b.size <= 0xffff
  }

  lemma PlacedFilled(g: Generation, records: seq<bytes>, out: seq<bytes>, blocks: seq<Block>, k: nat)
    requires |out| == |records| && Placed(g, records, out, blocks, |records|) && k < |blocks|
    ensures Filled(blocks[k], out, |records|)
  {
    hide Total, Covers;
    assert BlockOk(g, records, out, blocks[k]);
    FirstAtLeast(blocks, 1, |records|, k);
  }

  lemma {:induction false} FirstAtLeast(blocks: seq<Block>, from: nat, to: nat, k: nat)
    requires Covers(blocks, from, to) && k < |blocks| && forall j :: 0 <= j < |blocks| ==> blocks[j].first < blocks[j].end
    ensures from <= blocks[k].first
    decreases k
  {
    CoveredInOrder(blocks, from, to, k);
    if k > 0 { FirstAtLeast(blocks, from, to, k - 1); }
  }

  lemma {:induction false} FewRecords(blocks: seq<Block>, from: nat, to: nat)
    requires Covers(blocks, from, to) && forall j :: 0 <= j < |blocks| ==> blocks[j].first < blocks[j].end <= blocks[j].first + 255
    ensures from + |blocks| <= to <= from + 255 * |blocks|
  {
    if blocks != [] {
      var n := |blocks| - 1;
      FewRecords(blocks[..n], from, blocks[n].first);
    }
  }

  lemma {:induction false} ChainFrom(g: Generation, blocks: seq<Block>, n: nat, k: nat)
    requires Covers(blocks, 1, n) && k <= |blocks| && 1 <= n && forall j ::
               0 <= j < |blocks| ==> blocks[j].first < blocks[j].end <= n && blocks[j].end - blocks[j].first <= 255
    ensures Chained(FinalBlocks(g, blocks, n), k, if k == 0 then 1 else blocks[k - 1].end, n)
    decreases |blocks| - k
  {
    var final := FinalBlocks(g, blocks, n);
    if k < |blocks| {
      CoveredInOrder(blocks, 1, n, k);
      assert final[k] == blocks[k];
      ChainFrom(g, blocks, n, k + 1);
    } else {
      if k > 0 { CoveredInOrder(blocks, 1, n, k - 1); }
      assert k >= |final| || (final[k].first == final[k].end <= n && k + 1 >= |final|);
    }
  }

  /** All that later steps need to know about the blocks. */
  lemma FinalFacts(g: Generation, records: seq<bytes>, out: seq<bytes>, ids: seq<nat>, slots: seq<bytes>, blocks: seq<Block>)
    requires |out| == |records| == |ids| && Placed(g, records, out, blocks, |records|) && Identified(blocks, ids)
             && Numbered(slots, out, ids) && 1 <= |records|
    ensures var final := FinalBlocks(g, blocks, |records|);
            && Chained(final, 0, 1, |records|) && Identified(final, ids) && IdsDiffer(ids)
            && (forall k :: 0 <= k < |final| ==> Roomy(final[k], slots)) && 1 <= |final|
            && |blocks| <= |final| <= |blocks| + 1 && |blocks| <= |records| <= 1 + 255 * |blocks|
            && (|final| <= 0xffff ==> forall i :: 1 <= i < |ids| ==> ids[i] < 0x1_0000_0000)
  {
    hide Total, Covers, Chained, Put32;
    var final := FinalBlocks(g, blocks, |records|);
    forall k | 0 <= k < |blocks| ensures Filled(blocks[k], out, |records|) && Roomy(blocks[k], slots) {
      PlacedFilled(g, records, out, blocks, k);
      SlotTotals(out, slots, ids, blocks[k].first, blocks[k].end);
    }
    forall k | |blocks| <= k < |final| ensures Roomy(final[k], slots) {
      TotalNone(slots, final[k].first);
    }
    FewRecords(blocks, 1, |records|);
    ChainFrom(g, blocks, |records|, 0);
    forall i, j | 1 <= i < j < |ids| ensures ids[i] != ids[j] { IdentitiesDiffer(g, records, out, blocks, ids, i, j); }
    forall i | 1 <= i < |ids| && |final| <= 0xffff ensures ids[i] < 0x1_0000_0000 {
      var k := FindBlock(blocks, 1, |records|, i);
    }
  }

  /** Stored records read back as the keys they were made from. */
  lemma SlotReads(g: Generation, record: bytes, out: bytes, slot: bytes, id: nat, key: Record)
    requires RecordOf(g, record, key) && Extends(out, record) && slot == Put32(out, 4, id) && |out| <= 0xffff && id < 0x1_0000_0000
    requires NamesDiffer(Cooked(key.1), {}) && forall j :: 0 <= j < |key.1| ==> key.1[j].typ < 0x1_0000_0000
    ensures SlotOk(slot, id, key)
  {
    hide LE, U32, ReadRecord, Cooked, NamesDiffer, EncodeValues, Slot, Put32;
    var c := Cleared(g);
    SlotGrown(key.0, key.1, c, |record|, 0, |out| - |record|);
    if out == record { assert record + Zeros(0) == record; }
    assert out == Slot(key.0, key.1, c, |out|, 0);
    SlotNamed(key.0, key.1, c, |out|, 0, id);
    SlotBack(key.0, key.1, c, |out|, id);
  }

  lemma AllSlotsRead(g: Generation, t: Tree, records: seq<bytes>, out: seq<bytes>, ids: seq<nat>, slots: seq<bytes>, blocks: seq<Block>)
    requires |out| == |records| == |ids| && Numbered(slots, out, ids) && Padded(records, out) && Placed(g, records, out, blocks, |records|)
    requires |records| == Count(t) && (forall i :: 1 <= i < |records| ==> RecordOf(g, records[i], Listing(t)[i])) && TypesOk(Listing(t))
             && PeersOk(t.kids, {})
    requires forall i :: 1 <= i < |ids| ==> ids[i] < 0x1_0000_0000
    ensures SlotsOk(slots, ids, Listing(t))
  {
    hide LE, RecordOf, Extends, SlotOk, Put32, Total, Covers, BlockOk, NamesDiffer, Cooked, Listing, PeersOk, Count;
    var keys := Listing(t);
    ValuesDiffer(t);
    forall i | 1 <= i < |slots| ensures SlotOk(slots[i], ids[i], keys[i]) {
      var k := FindBlock(blocks, 1, |records|, i);
      PlacedFilled(g, records, out, blocks, k);
      PartOfTotal(out, blocks[k].first, blocks[k].end, i);
      SlotReads(g, records[i], out[i], slots[i], ids[i], keys[i]);
    }
  }

  lemma ValuesDiffer(t: Tree)
    requires PeersOk(t.kids, {})
    ensures forall i :: 1 <= i < |Listing(t)| ==> NamesDiffer(Cooked(Listing(t)[i].1), {})
  {
    hide NamesDiffer, Cooked, PeersOk, ListingAll;
    PeersDiffer(t.kids, {});
    forall i | 1 <= i < |Listing(t)| ensures NamesDiffer(Cooked(Listing(t)[i].1), {}) { assert Listing(t)[i] == ListingAll(t.kids)[i - 1]; }
  }

  lemma {:induction false} PeersDiffer(f: Forest, names: set<bytes>)
    requires PeersOk(f, names)
    ensures forall i :: 0 <= i < |ListingAll(f)| ==> NamesDiffer(Cooked(ListingAll(f)[i].1), {})
  {
    hide NamesDiffer, Cooked, UpperName;
    if f.Kids? {
      var t := f.head;
      PeersDiffer(t.kids, {});
      PeersDiffer(f.tail, names + {UpperName(t.name)});
      var s, n := ListingAll(f), Count(t);
      forall i | 0 <= i < |s| ensures NamesDiffer(Cooked(s[i].1), {}) {
        if i == 0 { assert s[0] == (t.name, t.values); }
        else if i < n { assert s[i] == Listing(t)[i] == ([(t.name, t.values)] + ListingAll(t.kids))[i]; }
        else { assert s[i] == ListingAll(f.tail)[i - n]; }
      }
    }
  }

  lemma {:induction false} LinksBounded(t: Tree, i: nat, parent: int, links: seq<Link>, j: nat)
    requires LinksTree(t, i, parent, links) && parent < i <= j < i + Count(t)
    ensures links[j].parent < |links| && links[j].child < |links| && (j > i ==> links[j].peer < |links|)
    decreases t, 0
  {
    hide CountAll;
    if t.kids.Kids? { HeadCount(t.kids.head); KidsCount(t.kids); }
    if j > i { PeersBounded(t.kids, i + 1, i, links, j); }
  }

  lemma KidsCount(f: Forest)
    requires f.Kids?
    ensures CountAll(f) == Count(f.head) + CountAll(f.tail) && 0 < CountAll(f)
  {
  }

  lemma {:induction false} PeersBounded(f: Forest, i: nat, parent: int, links: seq<Link>, j: nat)
    requires LinksAll(f, i, parent, links) && parent < i <= j < i + CountAll(f) && i + CountAll(f) <= |links|
    ensures links[j].parent < |links| && links[j].child < |links| && links[j].peer < |links|
    decreases f, 1
  {
    hide LinksTree, Count;
    var n := Count(f.head);
    HeadCount(f.head);
    if f.tail.Kids? { KidsCount(f.tail); }
    if j < i + n { LinksBounded(f.head, i, parent, links, j); } else { PeersBounded(f.tail, i + n, parent, links, j); }
  }

  lemma AllBounded(t: Tree, links: seq<Link>)
    requires LinksTree(t, 0, -1, links) && |links| == Count(t) && links[0].peer == -1
    ensures RefsIn(links, |links|)
  {
    hide LinksTree;
    forall i | 0 <= i < |links| ensures links[i].parent < |links| && links[i].child < |links| && links[i].peer < |links| {
      LinksBounded(t, 0, -1, links, i);
    }
  }

  lemma RecordLengths(g: Generation, records: seq<bytes>, keys: seq<Record>)
    requires Encoded(g, records, keys)
    ensures forall i :: 0 <= i < |records| ==> 20 <= |records[i]| && RecordOf(g, records[i], keys[i])
  {
    hide Slot, KeyFits;
  }

  lemma OutLengths(records: seq<bytes>, out: seq<bytes>)
    requires Padded(records, out)
    ensures forall i :: 1 <= i < |out| ==> 20 <= |out[i]|
  {
    hide Put32;
  }

  /** The witnesses of what a file holds. */
  datatype Plan = Plan(used: nat, offsets: seq<nat>, links: seq<Link>, ids: seq<nat>, blocks: seq<Block>, slots: seq<bytes>)

  /** Fills in the file once everything has its place. */
  method Assemble(g: Generation, state: nat, keys: seq<Record>, links: seq<Link>, out: seq<bytes>, ids: seq<nat>, blocks: seq<Block>,
                  ghost slots: seq<bytes>)
    returns (data: bytes, ghost used: nat, ghost offsets: seq<nat>)
    requires |keys| == |links| == |out| == |ids| >= 1 && RefsIn(links, |links|) && Numbered(slots, out, ids)
    requires 1 <= |blocks| <= 0xffff && (forall k :: 0 <= k < |blocks| ==> Roomy(blocks[k], slots)) && |out| <= 0x100_0000
    requires forall i :: 1 <= i < |ids| ==> ids[i] < 0x1_0000_0000
    ensures HeadThere(data) && U32(data, 40) == 32 && U32(data, 44) == used && U16(data, 16) == |blocks|
    ensures |offsets| == |links| && offsets[0] == 32 && NavWritten(data, used, offsets, links, ids)
    ensures BlocksWritten(data, U32(data, 8), blocks, 0, slots)
  {
    hide LE, U32, U16, Sizes, Numbered, Roomy, RefsIn, Spread, NavWritten, BlocksWritten, FileHead, NavHead, Entry, Splice, NavSize;
    var at, cursor := NavOffsets(g, |links|);
    offsets, used := at, cursor;
    var size := NavSize(g, cursor);
    SpreadUsed(at, cursor);
    FirstRoom(blocks, slots);
    var total := 32 + size + Sizes(blocks);
    data := Zeros(total);
    data := Splice(data, 0, FileHead(g, 32 + size, |blocks|, state));
    SpliceAt(Zeros(total), 0, FileHead(g, 32 + size, |blocks|, state));
    ghost var one := data;
    data := Splice(data, 32, NavHead(g, size, cursor));
    SpliceAt(one, 32, NavHead(g, size, cursor));
    SpliceBefore(one, 32, NavHead(g, size, cursor), 0, 32);
    ghost var two := data;
    data := WriteNavigation(g, data, at, cursor, links, keys, ids);
    ghost var three := data;
    data := WriteFree(g, data, cursor, size);
    ghost var four := data;
    data := WriteBlocks(g, data, 32 + size, blocks, out, ids, slots);
    ShorterPrefix(four, data, 32 + size, 32 + cursor);
    SamePart(three, data, 32 + cursor, 0, 32);
    SamePart(three, data, 32 + cursor, 32, 64);
    SamePart(two, three, 64, 0, 32);
    SamePart(two, three, 64, 32, 64);
    assert data[..32] == data[0..32];
    FileHeadRead(g, 32 + size, |blocks|, state, data);
    NavHeadRead(g, size, cursor, data);
    NavIsWritten(g, three, data, cursor, at, links, keys, ids);
  }

  lemma SpreadUsed(offsets: seq<nat>, used: nat)
    requires Spread(offsets, used) && offsets != []
    ensures 60 <= used
  {
    assert offsets[0] + 28 <= used;
  }

  lemma FirstRoom(blocks: seq<Block>, slots: seq<bytes>)
    requires blocks != [] && forall k :: 0 <= k < |blocks| ==> Roomy(blocks[k], slots)
    ensures 44 <= Sizes(blocks)
  {
    hide Total;
  }

  lemma NavIsWritten(g: Generation, a: bytes, b: bytes, used: nat, offsets: seq<nat>, links: seq<Link>, keys: seq<Record>, ids: seq<nat>)
    requires Spread(offsets, used) && 32 + used <= |a| == |b| && a[..32 + used] == b[..32 + used] && |offsets| == |links| == |keys| == |ids|
             && RefsIn(links, |offsets|) && used < NONE
    requires forall i :: 0 <= i < |offsets| ==> a[32 + offsets[i]..32 + offsets[i] + 28] == Entry(g, offsets, i, links[i], keys[i], ids[i])
    requires forall i :: 1 <= i < |ids| ==> ids[i] < 0x1_0000_0000
    ensures NavWritten(b, used, offsets, links, ids)
  {
    hide LE, U32, U16, Entry, LinkWritten;
    forall i | 0 <= i < |offsets| ensures LinkWritten(b, offsets, links[i], ids[i], offsets[i], i == 0) {
      SamePart(a, b, 32 + used, 32 + offsets[i], 32 + offsets[i] + 28);
      if i == 0 {
        RootEntry(g, offsets, links[0], keys[0], ids[0]);
        EntryRead(g, offsets, 0, links[0], keys[0], 0, b, offsets[0]);
        AnyId(b, offsets, links[0], 0, ids[0], offsets[0]);
      } else {
        EntryRead(g, offsets, i, links[i], keys[i], ids[i], b, offsets[i]);
      }
    }
  }

  lemma RootEntry(g: Generation, offsets: seq<nat>, l: Link, key: Record, id: nat)
    requires l.parent < |offsets| && l.child < |offsets| && l.peer < |offsets|
    ensures Entry(g, offsets, 0, l, key, id) == Entry(g, offsets, 0, l, key, 0)
  {
  }

  lemma AnyId(data: bytes, offsets: seq<nat>, l: Link, id: nat, other: nat, at: nat)
    requires LinkWritten(data, offsets, l, id, at, true)
    ensures LinkWritten(data, offsets, l, other, at, true)
  {
  }

  /** Builds the file of a tree. */
  method BuildCreg(t: Tree, state: nat, g: Generation) returns (r: Parsed<bytes>, ghost p: Plan)
    requires TypesOk(Listing(t)) && state <= 0xffff
    ensures r.Good? && PeersOk(t.kids, {}) ==> Written(r.value, t, p.used, p.offsets, p.links, p.ids, p.blocks, p.slots)
    ensures r.Good? ==> KeysFit(Listing(t))
    ensures KeysFit(Listing(t)) && NoneTooBig(g, Listing(t)) && Count(t) < 0xffff ==> r.Good?
  {
    hide LE, U32, U16, KeysFit, TypesOk, Encoded, LinksTree, PeersOk, Listing, Count, Padded, Placed, Identified, NavWritten, BlocksWritten,
         SlotsOk, Chained, IdsDiffer,
         Roomy, RefsIn, Numbered, HeadThere, FinalBlocks, RecordOf, TooBig, NoneTooBig;
    r, p := Bad, Plan(0, [], [], [], [], []);
    HeadCount(t);
    var ok, records, links := WalkKey(g, t, -1, 0, [], []);
    if ok {
      assert records[0..] == records;
      AllBounded(t, links);
      RecordLengths(g, records, Listing(t));
      ghost var encoded := records;
      records := records[0 := []];
      var placed, out, ids := Place(g, records);
      SizesAgree(g, records, Listing(t));
      if placed.Good? {
        OutLengths(records, out);
        ghost var slots := SlotsOf(out, ids);
        FinalFacts(g, records, out, ids, slots, placed.value);
        var blocks := FinalBlocks(g, placed.value, |records|);
        if |blocks| <= 0xffff {
          var data;
          ghost var used, offsets;
          data, used, offsets := Assemble(g, state, Listing(t), links, out, ids, blocks, slots);
          if PeersOk(t.kids, {}) { AllSlotsRead(g, t, records, out, ids, slots, placed.value); }
          SlotCount(slots, out, ids);
          r, p := Good(data), Plan(used, offsets, links, ids, blocks, slots);
        }
      }
    }
  }

  lemma SlotCount(slots: seq<bytes>, out: seq<bytes>, ids: seq<nat>)
    requires Numbered(slots, out, ids)
    ensures |slots| == |out|
  {
  }

  /** The room one key takes in a block. */
  function KeySize(g: Generation, k: Record): nat {
    20 + |k.0| + (if |EncodeValues(k.1, Cleared(g))| < MinimumValues(g) then MinimumValues(g) else |EncodeValues(k.1, Cleared(g))|)
  }

  predicate NoneTooBig(g: Generation, keys: seq<Record>) { forall i :: 1 <= i < |keys| ==> BlockSize(g, 32 + KeySize(g, keys[i])) <= Limit(g) }

  lemma SizesAgree(g: Generation, records: seq<bytes>, keys: seq<Record>)
    requires |records| == |keys| && forall i :: 1 <= i < |records| ==> RecordOf(g, records[i], keys[i])
    ensures NoneTooBig(g, keys) <==> !exists j :: 1 <= j < |records| && TooBig(g, records[j])
  {
    hide Slot, EncodeValues, BlockSize, KeyFits;
    forall i | 1 <= i < |records| ensures |records[i]| == KeySize(g, keys[i]) {}
  }

  // ----- round trip

  predicate AsciiValues(vs: seq<Value>) { forall i :: 0 <= i < |vs| ==> AsciiText(vs[i].name) && AsciiData(vs[i].typ, vs[i].data) }

  predicate AsciiAll(f: Forest) {
    match f
    case NoKids => true
    case Kids(t, g) => AsciiText(t.name) && AsciiValues(t.values) && AsciiAll(t.kids) && AsciiAll(g)
  }

  /** Values in the form the registry keeps them: named, with canonical data. */
  predicate NormalValues(vs: seq<Value>) { forall i :: 0 <= i < |vs| ==> vs[i].name != [] && Canonical(vs[i].typ, vs[i].data) }

  predicate NormalAll(f: Forest) {
    match f
    case NoKids => true
    case Kids(t, g) => NormalValues(t.values) && NormalAll(t.kids) && NormalAll(g)
  }

  lemma {:induction false} ValuesSame(vs: seq<Value>)
    requires AsciiValues(vs)
    ensures Cooked(vs) == vs <==> NormalValues(vs)
  {
    hide CookData, EncodeData, CookName, EncodeName, Canonical, AsciiData;
    if vs != [] {
      var v, rest := vs[0], vs[1..];
      assert vs == [v] + rest && Cooked(vs)[1..] == Cooked(rest);
      DataRoundTrip(v.typ, v.data);
      NameRoundTrip(v.name);
      assert AsciiValues(rest);
      ValuesSame(rest);
      if NormalValues(vs) { assert NormalValues(rest); }
      if Cooked(vs) == vs {
        assert Cook(v) == v && Cooked(rest) == rest;
        forall i | 0 <= i < |vs| ensures vs[i].name != [] && Canonical(vs[i].typ, vs[i].data) { if i > 0 { assert vs[i] == rest[i - 1]; } }
      }
    }
  }

  lemma {:induction false} TreesSame(f: Forest)
    requires AsciiAll(f)
    ensures CookAll(f) == f <==> NormalAll(f)
  {
    hide Cooked, NormalValues, AsciiValues;
    if f.Kids? {
      ValuesSame(f.head.values);
      TreesSame(f.head.kids);
      TreesSame(f.tail);
    }
  }

  /** Building a tree and parsing the file gives the tree back, if its strings are ASCII: exactly when
    * its values are in the registry's own form and the root, which is not stored, is empty. */
  method RoundTrip(t: Tree, state: nat, g: Generation) returns (file: Parsed<bytes>, back: Parsed<Tree>)
    requires TypesOk(Listing(t)) && state <= 0xffff && PeersOk(t.kids, {}) && AsciiAll(t.kids)
    ensures file.Good? ==> back == Good(Rooted(t))
    ensures file.Good? ==> (back == Good(t) <==> t.name == [] && t.values == [] && NormalAll(t.kids))
    ensures KeysFit(Listing(t)) && NoneTooBig(g, Listing(t)) && Count(t) < 0xffff ==> file.Good?
  {
    hide TypesOk, PeersOk, Listing, Written, Parse, KeysFit, NoneTooBig, CookAll, NormalAll;
    ghost var p;
    back := Bad;
    file, p := BuildCreg(t, state, g);
    if file.Good? {
      ParsesBack(file.value, t, p.used, p.offsets, p.links, p.ids, p.blocks, p.slots);
      back := ParseCreg(file.value);
      TreesSame(t.kids);
    }
  }
}
