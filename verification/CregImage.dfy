/** What a CREG file of a tree looks like, and that it parses back to the tree. */
module CregImage {
  import opened Bytes
  import opened CregRecord
  import opened CregPlacement
  import opened CregParser

  // ----- trees in preorder

  function Count(t: Tree): nat { 1 + CountAll(t.kids) }

  function CountAll(f: Forest): nat {
    match f
    case NoKids => 0
    case Kids(t, g) => Count(t) + CountAll(g)
  }

  function Listing(t: Tree): (s: seq<Record>)
    ensures |s| == Count(t)
  {
    [(t.name, t.values)] + ListingAll(t.kids)
  }

  function ListingAll(f: Forest): (s: seq<Record>)
    ensures |s| == CountAll(f)
  {
    match f
    case NoKids => []
    case Kids(t, g) => Listing(t) + ListingAll(g)
  }

  /** What a reader makes of a tree: every value as it reads back, and a root without name and values. */
  function CookTree(t: Tree): Tree { Key(t.name, Cooked(t.values), CookAll(t.kids)) }

  function CookAll(f: Forest): Forest {
    match f
    case NoKids => NoKids
    case Kids(t, g) => Kids(CookTree(t), CookAll(g))
  }

  function Rooted(t: Tree): Tree { Key([], [], CookAll(t.kids)) }

  /** Siblings differ in name by more than case, as do the values of a key. */
  predicate NamesOk(t: Tree) { NamesDiffer(Cooked(t.values), {}) && PeersOk(t.kids, {}) }

  predicate PeersOk(f: Forest, names: set<bytes>) {
    match f
    case NoKids => true
    case Kids(t, g) => NamesOk(t) && UpperName(t.name) !in names && PeersOk(g, names + {UpperName(t.name)})
  }

  // ----- links between navigation records

  /** Parent, first child and next peer by index, -1 for none; and how deep the key is. */
  datatype Link = Link(parent: int, child: int, peer: int, depth: nat)

  predicate LinksTree(t: Tree, i: nat, parent: int, links: seq<Link>) {
    && i + Count(t) <= |links| && links[i].parent == parent && links[i].child == (if t.kids.NoKids? then -1 else i + 1)
    && LinksAll(t.kids, i + 1, i, links)
  }

  predicate LinksAll(f: Forest, i: nat, parent: int, links: seq<Link>) {
    match f
    case NoKids => true
    case Kids(t, g) =>
      LinksTree(t, i, parent, links) && links[i].peer == (if g.NoKids? then -1 else i + Count(t))
          && LinksAll(g, i + Count(t), parent, links)
  }

  function Ref(offsets: seq<nat>, i: int): nat
    requires i < |offsets|
  {
    if i < 0 then NONE else offsets[i]
  }

  /** The navigation records are where the offsets say and carry the links and identities. */
  ghost predicate NavWritten(data: bytes, used: nat, offsets: seq<nat>, links: seq<Link>, ids: seq<nat>) {
    && |offsets| == |links| == |ids| && (forall i :: 0 <= i < |offsets| ==> NavThere(data, used, offsets[i]) && offsets[i] < NONE)
    && (forall i, j :: 0 <= i < j < |offsets| ==> offsets[i] != offsets[j])
    && (forall i :: 0 <= i < |offsets| ==> LinkWritten(data, offsets, links[i], ids[i], offsets[i], i == 0))
  }

  ghost predicate LinkWritten(data: bytes, offsets: seq<nat>, l: Link, id: nat, at: nat, isRoot: bool) {
    && l.parent < |offsets| && l.child < |offsets| && l.peer < |offsets| && 32 + at + 28 <= |data|
    && var nav := NavAt(data, at);
       nav.parent == Ref(offsets, l.parent) && nav.child == Ref(offsets, l.child) && nav.peer == Ref(offsets, l.peer)
           && (isRoot || nav.identity == id)
  }

  /** Each key but the root is among the records under its identity, as it reads back. */
  ghost predicate Stored(records: Records, ids: seq<nat>, keys: seq<Record>) {
    |ids| == |keys| && forall i :: 1 <= i < |keys| ==> ids[i] in records && records[ids[i]] == (keys[i].0, Cooked(keys[i].1))
  }

  /** Offsets of the records of a subtree have not been visited, or have all been. */
  ghost predicate Fresh(offsets: seq<nat>, i: nat, n: nat, visited: set<nat>)
    requires i + n <= |offsets|
  {
    forall j :: i <= j < i + n ==> offsets[j] !in visited
  }

  ghost function Span(offsets: seq<nat>, i: nat, n: nat): set<nat>
    requires i + n <= |offsets|
  {
    set j | i <= j < i + n :: offsets[j]
  }

  /** The keys of a tree, listed from index i on. */
  ghost predicate ListedAt(keys: seq<Record>, i: nat, part: seq<Record>) {
    i + |part| <= |keys| && keys[i..i + |part|] == part
  }

  lemma {:induction false} KeyReads(data: bytes, used: nat, records: Records, offsets: seq<nat>, links: seq<Link>, ids: seq<nat>,
                          keys: seq<Record>, t: Tree, i: nat, parent: int, visited: set<nat>)
    requires NavWritten(data, used, offsets, links, ids) && Stored(records, ids, keys) && |keys| == |offsets|
    requires LinksTree(t, i, parent, links) && ListedAt(keys, i, Listing(t)) && PeersOk(t.kids, {}) && parent < |offsets|
             && Fresh(offsets, i, Count(t), visited)
    ensures var r := ReadKey(data, used, records, offsets[i], Ref(offsets, parent), i == 0, visited);
            r == (Good(if i == 0 then Rooted(t) else CookTree(t)), visited + Span(offsets, i, Count(t)))
    decreases t, 0
  {
    hide LE, U32, ReadPeers, CookAll, Cooked, NamesDiffer, LinksAll, ListingAll, CountAll, PeersOk, NavWritten, Span, Stored, ListedAt,
         NavAt, NavThere;
    OpenNav(data, used, offsets, links, ids, i);
    HeadListed(records, ids, keys, i, t);
    KidsListed(keys, i, t);
    PeersRead(data, used, records, offsets, links, ids, keys, t.kids, i + 1, i, visited + {offsets[i]}, {});
    SpanSplit(offsets, i, Count(t));
    assert visited + {offsets[i]} + Span(offsets, i + 1, CountAll(t.kids)) == visited + Span(offsets, i, Count(t));
  }

  lemma OpenNav(data: bytes, used: nat, offsets: seq<nat>, links: seq<Link>, ids: seq<nat>, i: nat)
    requires NavWritten(data, used, offsets, links, ids) && i < |links|
    ensures |offsets| == |links| == |ids| && NavThere(data, used, offsets[i]) && offsets[i] < NONE
            && LinkWritten(data, offsets, links[i], ids[i], offsets[i], i == 0)
    ensures forall j :: 0 <= j < |offsets| && j != i ==> offsets[i] != offsets[j]
  {
    hide LE, U32, NavThere, LinkWritten;
  }

  lemma HeadListed(records: Records, ids: seq<nat>, keys: seq<Record>, i: nat, t: Tree)
    requires Stored(records, ids, keys) && ListedAt(keys, i, Listing(t))
    ensures i < |ids| && (i != 0 ==> ids[i] in records && records[ids[i]] == (t.name, Cooked(t.values)))
  {
    hide Cooked, ListingAll;
    assert keys[i] == keys[i..i + |Listing(t)|][0];
  }

  lemma KidsListed(keys: seq<Record>, i: nat, t: Tree)
    requires ListedAt(keys, i, Listing(t))
    ensures ListedAt(keys, i + 1, ListingAll(t.kids))
  {
    hide ListingAll;
    var part := Listing(t);
    assert keys[i + 1..i + |part|] == keys[i..i + |part|][1..] == ListingAll(t.kids);
  }

  lemma SpanSplit(offsets: seq<nat>, i: nat, n: nat)
    requires i + n <= |offsets| && n > 0
    ensures Span(offsets, i, n) == {offsets[i]} + Span(offsets, i + 1, n - 1)
  {
  }

  lemma SpanCat(offsets: seq<nat>, i: nat, a: nat, b: nat)
    requires i + a + b <= |offsets|
    ensures Span(offsets, i, a + b) == Span(offsets, i, a) + Span(offsets, i + a, b)
  {
  }

  lemma {:induction false} PeersRead(data: bytes, used: nat, records: Records, offsets: seq<nat>, links: seq<Link>, ids: seq<nat>,
                          keys: seq<Record>, f: Forest, i: nat, parent: int, visited: set<nat>, names: set<bytes>)
    requires NavWritten(data, used, offsets, links, ids) && Stored(records, ids, keys) && |keys| == |offsets| && 0 < i
    requires LinksAll(f, i, parent, links) && ListedAt(keys, i, ListingAll(f)) && PeersOk(f, names) && 0 <= parent < |offsets|
             && Fresh(offsets, i, CountAll(f), visited)
    ensures var at := if f.NoKids? then -1 else i;
            at < |offsets| && ReadPeers(data, used, records, Ref(offsets, at), offsets[parent], visited, names) == (Good(CookAll(f)),
                visited + Span(offsets, i, CountAll(f)))
    decreases f, 1
  {
    hide LE, U32, ReadKey, Cooked, NamesDiffer, LinksTree, Listing, ListingAll, Count, NavWritten, Span, Stored, ListedAt, NavAt, NavThere,
         Fresh, UpperName, CookTree;
    ListedFits(keys, i, ListingAll(f));
    if f.NoKids? {
      assert visited + Span(offsets, i, 0) == visited by { SpanNone(offsets, i); }
    } else {
      var t, g := f.head, f.tail;
      TreeFits(t, i, parent, links);
      OpenNav(data, used, offsets, links, ids, i);
      ForestListed(keys, i, f);
      StillFresh(data, used, links, ids, offsets, i, Count(t), CountAll(g), visited);
      KeyReads(data, used, records, offsets, links, ids, keys, t, i, parent, visited);
      var seen := visited + Span(offsets, i, Count(t));
      PeersRead(data, used, records, offsets, links, ids, keys, g, i + Count(t), parent, seen, names + {UpperName(t.name)});
      SpanCat(offsets, i, Count(t), CountAll(g));
      assert seen + Span(offsets, i + Count(t), CountAll(g)) == visited + Span(offsets, i, CountAll(f));
      assert CookTree(t).name == t.name by { CookedName(t); }
    }
  }

  lemma CookedName(t: Tree)
    ensures CookTree(t).name == t.name
  {
  }

  lemma SpanNone(offsets: seq<nat>, i: nat)
    requires i <= |offsets|
    ensures Span(offsets, i, 0) == {}
  {
  }

  lemma TreeFits(t: Tree, i: nat, parent: int, links: seq<Link>)
    requires LinksTree(t, i, parent, links)
    ensures 0 < Count(t) && i + Count(t) <= |links|
  {
  }

  lemma ForestListed(keys: seq<Record>, i: nat, f: Forest)
    requires f.Kids? && ListedAt(keys, i, ListingAll(f))
    ensures ListedAt(keys, i, Listing(f.head)) && ListedAt(keys, i + Count(f.head), ListingAll(f.tail))
  {
    hide Listing, Count;
    ListedParts(keys, i, Listing(f.head), ListingAll(f.tail));
  }

  lemma ListedParts(keys: seq<Record>, i: nat, a: seq<Record>, b: seq<Record>)
    requires ListedAt(keys, i, a + b)
    ensures ListedAt(keys, i, a) && ListedAt(keys, i + |a|, b)
  {
    var n := |a| + |b|;
    assert keys[i..i + |a|] == keys[i..i + n][..|a|];
    assert keys[i + |a|..i + n] == keys[i..i + n][|a|..];
    assert (a + b)[..|a|] == a && (a + b)[|a|..] == b;
  }

  lemma StillFresh(data: bytes, used: nat, links: seq<Link>, ids: seq<nat>, offsets: seq<nat>, i: nat, a: nat, b: nat, visited: set<nat>)
    requires i + a + b <= |offsets| && Fresh(offsets, i, a + b, visited) && NavWritten(data, used, offsets, links, ids)
    ensures Fresh(offsets, i, a, visited) && Fresh(offsets, i + a, b, visited + Span(offsets, i, a))
  {
  }

  lemma ListedFits(keys: seq<Record>, i: nat, part: seq<Record>)
    requires ListedAt(keys, i, part)
    ensures i + |part| <= |keys|
  {
  }

  // ----- data blocks

  function Concat(rs: seq<bytes>): (b: bytes)
    ensures |b| == Total(rs)
  {
    if rs == [] then [] else Concat(rs[..|rs| - 1]) + rs[|rs| - 1]
  }

  /** A stored record names its extent and its identity, and reads as a key. */
  ghost predicate SlotOk(slot: bytes, id: nat, key: Record) {
    && 20 <= |slot| && U32(slot, 0) == |slot| && U32(slot, 4) == id && 20 <= U32(slot, 8) <= |slot|
    && ReadRecord(slot[..U32(slot, 8)]) == Good((key.0, Cooked(key.1)))
  }

  ghost predicate SlotsOk(slots: seq<bytes>, ids: seq<nat>, keys: seq<Record>) {
    |slots| == |ids| == |keys| && forall i :: 1 <= i < |slots| ==> SlotOk(slots[i], ids[i], keys[i])
  }

  ghost predicate BlockWritten(data: bytes, at: nat, b: Block, k: nat, slots: seq<bytes>) {
    && b.first <= b.end <= |slots| && 44 <= b.size && at + b.size <= |data| && 32 + Total(slots[b.first..b.end]) <= b.size
    && data[at..at + 4] == RGDB && U32(data, at + 4) == b.size && U16(data, at + 14) == k && U16(data, at + 22) == b.end - b.first
    && data[at + 32..at + 32 + Total(slots[b.first..b.end])] == Concat(slots[b.first..b.end])
  }

  /** Blocks from the k-th on, one after the other to the end of the file. */
  ghost predicate BlocksWritten(data: bytes, at: nat, blocks: seq<Block>, k: nat, slots: seq<bytes>)
    decreases |blocks| - k
  {
    if k >= |blocks| then at == |data|
    else BlockWritten(data, at, blocks[k], k, slots) && BlocksWritten(data, at + blocks[k].size, blocks, k + 1, slots)
  }

  /** The records of the keys i..j are in the map. */
  ghost predicate Gathered(acc: Records, ids: seq<nat>, keys: seq<Record>, first: nat, end: nat) {
    |ids| == |keys| && end <= |ids| && forall i :: first <= i < end ==> ids[i] in acc && acc[ids[i]] == (keys[i].0, Cooked(keys[i].1))
  }

  ghost predicate Unseen(acc: Records, ids: seq<nat>, first: nat) {
    forall i :: first <= i < |ids| ==> ids[i] !in acc
  }

  ghost predicate IdsDiffer(ids: seq<nat>) { forall i, j :: 1 <= i < j < |ids| ==> ids[i] != ids[j] }

  lemma SliceOf(data: bytes, at: nat, all: bytes, from: nat, part: bytes)
    requires at + |all| <= |data| && data[at..at + |all|] == all && from + |part| <= |all| && all[from..from + |part|] == part
    ensures data[at + from..at + from + |part|] == part
  {
    var x := data[at..at + |all|];
    var y := data[at + from..at + from + |part|];
    forall i | 0 <= i < |part| ensures y[i] == part[i] {
      assert x[from + i] == data[at + from + i] && all[from..from + |part|][i] == all[from + i];
    }
  }

  lemma {:induction false} ConcatAt(slots: seq<bytes>, first: nat, end: nat, i: nat)
    requires first <= i < end <= |slots|
    ensures var o := Total(slots[first..i]);
            o + |slots[i]| <= Total(slots[first..end]) && Concat(slots[first..end])[o..o + |slots[i]|] == slots[i]
                && Total(slots[first..i + 1]) == o + |slots[i]|
    decreases end
  {
    var n := end - 1;
    assert slots[first..end][..n - first] == slots[first..n];
    TotalSnoc(slots, first, i);
    if i < n {
      ConcatAt(slots, first, n, i);
      var o := Total(slots[first..i]);
      assert Concat(slots[first..end])[o..o + |slots[i]|] == Concat(slots[first..n])[o..o + |slots[i]|];
    }
  }

  /** One record of a block reads as its key. */
  lemma RecordReads(data: bytes, at: nat, slot: bytes, end: nat, id: nat, key: Record)
    requires at + |slot| <= end <= |data| && data[at..at + |slot|] == slot && SlotOk(slot, id, key)
    ensures RecordAt(data, at, end) == Good((|slot|, id, (key.0, Cooked(key.1))))
  {
    hide LE, ReadRecord, Cooked;
    SliceOf(data, at, slot, 0, slot[0..4]);
    SliceOf(data, at, slot, 4, slot[4..8]);
    SliceOf(data, at, slot, 8, slot[8..12]);
    SliceOf(data, at, slot, 0, slot[0..U32(slot, 8)]);
    assert slot[0..U32(slot, 8)] == slot[..U32(slot, 8)];
  }

  lemma {:induction false} RecordsRead(data: bytes, at: nat, b: Block, k: nat, slots: seq<bytes>, ids: seq<nat>, keys: seq<Record>, i: nat,
                          acc: Records)
    requires BlockWritten(data, at, b, k, slots) && SlotsOk(slots, ids, keys) && IdsDiffer(ids) && 1 <= b.first <= i <= b.end && k <= 0xffff
    requires Gathered(acc, ids, keys, 1, i) && Unseen(acc, ids, i)
    requires forall j :: b.first <= j < b.end ==> ids[j] == 0x1_0000 * k + (j - b.first) && j - b.first < 0x1_0000
    ensures var r := ReadRecords(data, at + 32 + Total(slots[b.first..i]), at + b.size, b.end - i, k, acc);
            r.Good? && Gathered(r.value, ids, keys, 1, b.end) && Unseen(r.value, ids, b.end)
    decreases b.end - i
  {
    hide LE, U32, U16, RecordAt, Concat, Total, Cooked, SlotOk;
    if i < b.end {
      ConcatAt(slots, b.first, b.end, i);
      var o := Total(slots[b.first..i]);
      SliceOf(data, at + 32, Concat(slots[b.first..b.end]), o, slots[i]);
      RecordReads(data, at + 32 + o, slots[i], at + b.size, ids[i], keys[i]);
      RecordsRead(data, at, b, k, slots, ids, keys, i + 1, acc[ids[i] := (keys[i].0, Cooked(keys[i].1))]);
    }
  }

  lemma {:induction false} BlocksRead(data: bytes, at: nat, blocks: seq<Block>, k: nat, slots: seq<bytes>, ids: seq<nat>, keys: seq<Record>,
                          from: nat, acc: Records)
    requires BlocksWritten(data, at, blocks, k, slots) && k <= |blocks| <= 0xffff && SlotsOk(slots, ids, keys) && IdsDiffer(ids)
    requires 1 <= from && Chained(blocks, k, from, |slots|) && Identified(blocks, ids) && Gathered(acc, ids, keys, 1, from)
             && Unseen(acc, ids, from)
    ensures var r := ReadBlocks(data, at, |blocks| - k, acc);
            r.Good? && r.value.1 == |data| && Gathered(r.value.0, ids, keys, 1, |slots|)
    decreases |blocks| - k
  {
    hide LE, U32, U16, ReadRecords, Concat, Total, Cooked, SlotOk;
    if k < |blocks| {
      var b := blocks[k];
      TotalNone(slots, b.first);
      if b.first == b.end {
        EmptyReads(data, at, b, k, slots, acc);
        BlocksRead(data, at + b.size, blocks, k + 1, slots, ids, keys, from, acc);
      } else {
        RecordsRead(data, at, b, k, slots, ids, keys, b.first, acc);
        var r := ReadRecords(data, at + 32, at + b.size, b.end - b.first, k, acc);
        BlocksRead(data, at + b.size, blocks, k + 1, slots, ids, keys, b.end, r.value);
      }
    }
  }

  lemma TotalNone(slots: seq<bytes>, i: nat)
    requires i <= |slots|
    ensures Total(slots[i..i]) == 0
  {
  }

  lemma EmptyReads(data: bytes, at: nat, b: Block, k: nat, slots: seq<bytes>, acc: Records)
    requires BlockWritten(data, at, b, k, slots) && b.first == b.end
    ensures ReadRecords(data, at + 32, at + b.size, U16(data, at + 22), k, acc) == Good(acc)
  {
    hide LE, U32, U16, Concat, Total;
  }

  /** From the k-th block on, the blocks take the records in order; empty ones take none. */
  ghost predicate Chained(blocks: seq<Block>, k: nat, from: nat, to: nat)
    decreases |blocks| - k
  {
    if k >= |blocks| then from == to
    else if blocks[k].first == blocks[k].end then blocks[k].first <= to && Chained(blocks, k + 1, from, to)
    else blocks[k].first == from < blocks[k].end <= to && blocks[k].end - from <= 255 && Chained(blocks, k + 1, blocks[k].end, to)
  }

  // ----- the file

  /** The file holds this tree. */
  ghost predicate Written(data: bytes, t: Tree, used: nat, offsets: seq<nat>, links: seq<Link>, ids: seq<nat>, blocks: seq<Block>,
                          slots: seq<bytes>) {
    && HeadThere(data) && U32(data, 40) == 32 && U32(data, 44) == used && U16(data, 16) == |blocks| <= 0xffff
    && offsets != [] && offsets[0] == 32 && NavWritten(data, used, offsets, links, ids) && LinksTree(t, 0, -1, links) && |links| == Count(t)
    && SlotsOk(slots, ids, Listing(t)) && IdsDiffer(ids) && Chained(blocks, 0, 1, |slots|) && Identified(blocks, ids)
    && BlocksWritten(data, U32(data, 8), blocks, 0, slots)
  }

  /** A file that holds a tree parses to it. */
  lemma ParsesBack(data: bytes, t: Tree, used: nat, offsets: seq<nat>, links: seq<Link>, ids: seq<nat>, blocks: seq<Block>,
                   slots: seq<bytes>)
    requires Written(data, t, used, offsets, links, ids, blocks, slots) && PeersOk(t.kids, {})
    ensures Parse(data) == Good(Rooted(t))
  {
    hide LE, U32, U16, ReadBlocks, ReadKey, NavWritten, LinksTree, SlotsOk, IdsDiffer, Chained, Identified, BlocksWritten, PeersOk, Listing,
         Rooted, CookTree, Cooked;
    var keys := Listing(t);
    OpenNav(data, used, offsets, links, ids, 0);
    SlotLengths(slots, ids, keys);
    FirstGathered(ids, keys);
    BlocksRead(data, U32(data, 8), blocks, 0, slots, ids, keys, 1, map[]);
    var records := ReadBlocks(data, U32(data, 8), |blocks|, map[]).value.0;
    StoredIs(records, ids, keys);
    NothingVisited(offsets, Count(t));
    assert keys[0..0 + |keys|] == keys;
    KeyReads(data, used, records, offsets, links, ids, keys, t, 0, -1, {});
  }

  lemma SlotLengths(slots: seq<bytes>, ids: seq<nat>, keys: seq<Record>)
    requires SlotsOk(slots, ids, keys)
    ensures |slots| == |ids| == |keys|
  {
  }

  lemma FirstGathered(ids: seq<nat>, keys: seq<Record>)
    requires |ids| == |keys| && 1 <= |ids|
    ensures Gathered(map[], ids, keys, 1, 1) && Unseen(map[], ids, 1)
  {
  }

  lemma StoredIs(records: Records, ids: seq<nat>, keys: seq<Record>)
    requires Gathered(records, ids, keys, 1, |keys|)
    ensures Stored(records, ids, keys)
  {
  }

  lemma NothingVisited(offsets: seq<nat>, n: nat)
    requires n <= |offsets|
    ensures Fresh(offsets, 0, n, {})
  {
  }
}
