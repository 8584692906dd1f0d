/** Committing a transaction: every changed child list is stored as a sorted index. */
module HiveCommit {
  import opened Bytes
  import opened HiveLayout
  import opened HiveImage
  import opened MutableHive
  import opened SecurityRing
  import opened SubkeyIndex
  import opened HivePatch
  import opened KeyDeletion
  import opened HiveBatch

  // ----- how many keys a hive can hold

  /** Keys of an image below 2 GiB never fill an index whose leaves are counted in 16 bits. */
  lemma KeysFit(h: Hive, keys: set<nat>)
    requires h.Valid() && forall k :: k in keys ==> k in h.Live() && IsKey(h.Live()[k])
    ensures |keys| <= 0x200_0000 && Leaves(|keys|) <= 0xffff
  {
    hide Hive.Valid, Hive.Live;
    FewKeys(h, keys);
  }

  // ----- sorting the children

  ghost function Item(x: Text, live: Live, c: nat): (string, string, nat) { (x.upper(NameOf(x, live, c)), NameOf(x, live, c), c) }

  /** The cells are in index order. */
  ghost predicate Sorted(x: Text, live: Live, cells: seq<nat>) {
    forall i, j :: 0 <= i < j < |cells| ==> Before(Item(x, live, cells[i]), Item(x, live, cells[j]))
  }

  ghost predicate Itemised(x: Text, live: Live, items: seq<(string, string, nat)>, kids: set<nat>) {
    && (forall i :: 0 <= i < |items| ==> items[i].2 in kids && items[i] == Item(x, live, items[i].2))
    && (forall c :: c in kids ==> Item(x, live, c) in items)
    && forall i, j :: 0 <= i < j < |items| ==> items[i] != items[j]
  }

  method NameItems(tx: Transaction, parent: nat) returns (o: Outcome, items: seq<(string, string, nat)>)
    requires tx.Valid() && parent in tx.batches
    ensures o == Done && parent in tx.children && Itemised(tx.text, tx.patch.store.Live(), items, tx.children[parent])
    ensures |items| == |tx.batches[parent].cells|
  {
    hide Hive.Valid, Hive.Live, Hive.Starts, Owns, Family, Pending, Patch.ValidOwing, Patch.Anchored, NameIn, NameOf, Named, Itemised;
    o, items := Done, [];
    var rest := tx.batches[parent].cells;
    ghost var cells, live := rest, tx.patch.store.Live();
    tx.StoreOk();
    BatchAt(tx.text, live, tx.patch.keys, tx.nodes, tx.children, tx.batches, parent);
    SoFarStart(tx.text, live, cells);
    while rest != map[] && o == Done
      invariant o == Done && (forall s :: s in rest ==> s in cells && rest[s] == cells[s]) && |items| + |rest| == |cells|
      invariant SoFar(tx.text, live, items, cells, rest)
      decreases |rest|
    {
      var s :| s in rest;
      BatchMember(tx.text, live, tx.minor, tx.patch.ring, tx.patch.keys, tx.nodes, tx.patch.store.root, tx.children, tx.parents, tx.batches,
          parent, s);
      var name := tx.SubkeyName(rest[s]);
      match name {
        case Failure(_) => o := Refused;
        case Success(n) =>
          SoFarNext(tx.text, live, items, cells, rest, s);
          items := items + [(tx.text.upper(n), n, rest[s])];
          Fewer(rest, s);
          rest := rest - {s};
      }
    }
    SoFarAll(tx.text, live, items, cells, tx.children[parent]);
  }

  lemma Fewer(m: map<string, nat>, s: string)
    requires s in m
    ensures |m - {s}| == |m| - 1
  {
    var n := m - {s};
    assert m == n[s := m[s]];
  }

  lemma BatchAt(x: Text, live: Live, keys: set<nat>, nodes: map<nat, Node>, children: map<nat, set<nat>>, batches: map<nat, Batch>, p: nat)
    requires Pending(x, live, keys, nodes, children, batches) && p in batches
    ensures p in keys && p in children && BatchOk(x, live, batches[p].cells, children[p])
  {
    hide BatchOk, Clean;
  }

  lemma BatchMember(x: Text, live: Live, minor: nat, ring: seq<nat>, keys: set<nat>, nodes: map<nat, Node>, root: nat,
                    children: map<nat, set<nat>>, parents: map<nat, nat>,
                    batches: map<nat, Batch>, p: nat, s: string)
    requires Owns(live, minor, ring, keys, nodes) && Family(root, keys, children, parents)
             && Pending(x, live, keys, nodes, children, batches) && p in batches && s in batches[p].cells
    ensures var c := batches[p].cells[s]; c in keys && c in live && Named(live[c])
  {
    hide Owns, Family, Pending, Named, Folded;
    BatchAt(x, live, keys, nodes, children, batches, p);
    FamilyAt(root, keys, children, parents, p, batches[p].cells[s]);
    OwnsAt(live, minor, ring, keys, nodes, batches[p].cells[s]);
  }

  /** The items taken out of a batch so far. */
  ghost predicate SoFar(x: Text, live: Live, items: seq<(string, string, nat)>, cells: map<string, nat>, rest: map<string, nat>) {
    && (forall i :: 0 <= i < |items| ==>
         && items[i] == Item(x, live, items[i].2) && Folded(x, live, items[i].2) in cells && Folded(x, live, items[i].2) !in rest
         && cells[Folded(x, live, items[i].2)] == items[i].2)
    && (forall s :: s in cells && s !in rest ==> Item(x, live, cells[s]) in items)
    && forall i, j :: 0 <= i < j < |items| ==> items[i] != items[j]
  }

  lemma SoFarStart(x: Text, live: Live, cells: map<string, nat>)
    ensures SoFar(x, live, [], cells, cells)
  {
  }

  lemma SoFarNext(x: Text, live: Live, items: seq<(string, string, nat)>, cells: map<string, nat>, rest: map<string, nat>, s: string)
    requires SoFar(x, live, items, cells, rest) && s in rest && s in cells && rest[s] == cells[s] && Folded(x, live, cells[s]) == s
    ensures SoFar(x, live, items + [Item(x, live, cells[s])], cells, rest - {s})
  {
    hide Folded, NameOf;
    var more := items + [Item(x, live, cells[s])];
    forall t | t in cells && t !in rest - {s} ensures Item(x, live, cells[t]) in more {
      if t == s { assert more[|items|] == Item(x, live, cells[s]); }
    }
    forall i | 0 <= i < |items| ensures more[i] != Item(x, live, cells[s]) {
      assert Folded(x, live, items[i].2) != s;
    }
  }

  lemma SoFarAll(x: Text, live: Live, items: seq<(string, string, nat)>, cells: map<string, nat>, kids: set<nat>)
    requires SoFar(x, live, items, cells, map[]) && BatchOk(x, live, cells, kids)
    ensures Itemised(x, live, items, kids)
  {
    hide Folded, NameOf;
  }

  /** The pending children of a key in index order. */
  method SortedChildren(tx: Transaction, parent: nat) returns (o: Outcome, cells: seq<nat>)
    requires tx.Valid() && parent in tx.batches
    ensures o == Done && parent in tx.children && |cells| == |tx.batches[parent].cells|
    ensures Sorted(tx.text, tx.patch.store.Live(), cells) && Distinct(cells) && Elements(cells) == tx.children[parent]
  {
    hide Hive.Valid, Hive.Live, Hive.Starts, Owns, Family, Pending, Patch.ValidOwing, Patch.Anchored, NameIn, NameOf, Itemised, InOrder,
         Sorted, Distinct, Elements;
    var items;
    o, items := NameItems(tx, parent);
    ItemsDiffer(tx.text, tx.patch.store.Live(), items, tx.children[parent]);
    var sorted := SortItems(items);
    cells := seq(|sorted|, i requires 0 <= i < |sorted| => sorted[i].2);
    SameLength(sorted, items);
    SortedCells(tx.text, tx.patch.store.Live(), items, sorted, cells, tx.children[parent]);
  }

  lemma ItemsDiffer(x: Text, live: Live, items: seq<(string, string, nat)>, kids: set<nat>)
    requires Itemised(x, live, items, kids)
    ensures forall i, j :: 0 <= i < j < |items| ==> items[i] != items[j]
  {
  }

  lemma SameLength(a: seq<(string, string, nat)>, b: seq<(string, string, nat)>)
    requires multiset(a) == multiset(b)
    ensures |a| == |b| && forall e :: e in a <==> e in b
  {
    assert |multiset(a)| == |a| && |multiset(b)| == |b|;
    forall e ensures e in a <==> e in b { assert e in a <==> e in multiset(a); assert e in b <==> e in multiset(b); }
  }

  lemma SortedCells(x: Text, live: Live, items: seq<(string, string, nat)>, sorted: seq<(string, string, nat)>, cells: seq<nat>,
                    kids: set<nat>)
    requires Itemised(x, live, items, kids) && InOrder(sorted) && (forall e :: e in sorted <==> e in items)
    requires |cells| == |sorted| && forall i :: 0 <= i < |cells| ==> cells[i] == sorted[i].2
    ensures Sorted(x, live, cells) && Distinct(cells) && Elements(cells) == kids
  {
    hide NameOf, Before;
    forall i | 0 <= i < |cells| ensures cells[i] in kids && sorted[i] == Item(x, live, cells[i]) {
      assert sorted[i] in items;
    }
    forall i, j | 0 <= i < j < |cells| ensures cells[i] != cells[j] && Before(Item(x, live, cells[i]), Item(x, live, cells[j])) {
      BeforeTotal(sorted[i], sorted[j]);
    }
    forall c | c in kids ensures c in cells {
      var e := Item(x, live, c);
      assert e in sorted;
      var i :| 0 <= i < |sorted| && sorted[i] == e;
      assert cells[i] == c;
    }
  }

  // ----- the header of a key

  ghost function LongestName(x: Text, live: Live, cells: seq<nat>): nat {
    if cells == [] then 0 else Raise(LongestName(x, live, cells[..|cells| - 1]), x.width(NameOf(x, live, cells[|cells| - 1])))
  }

  ghost function ClassSize(live: Live, c: nat): nat { if c in live && IsKey(live[c]) then U16(live[c], 0x4a) else 0 }

  ghost function LargestClass(live: Live, cells: seq<nat>): nat {
    if cells == [] then 0
    else var m := LargestClass(live, cells[..|cells| - 1]); if ClassSize(live, cells[|cells| - 1]) > m then ClassSize(live,
        cells[|cells| - 1]) else m
  }

  /** The recorded width never exceeds 16 bits, and is the width of some name as far as 16 bits show it. */
  lemma {:induction false} LongestFits(x: Text, live: Live, cells: seq<nat>)
    ensures LongestName(x, live, cells) <= 0xffff
    ensures LongestName(x, live, cells) == 0 || exists c ::
              c in cells && x.width(NameOf(x, live, c)) % 0x1_0000 == LongestName(x, live, cells)
  {
    hide NameOf;
    if cells != [] {
      var n := |cells| - 1;
      LongestFits(x, live, cells[..n]);
      assert cells == cells[..n] + [cells[n]];
    }
  }

  lemma {:induction false} LongestGrows(x: Text, live: Live, cells: seq<nat>)
    requires forall c :: c in cells ==> x.width(NameOf(x, live, c)) <= 0xffff
    ensures forall c :: c in cells ==> x.width(NameOf(x, live, c)) <= LongestName(x, live, cells)
  {
    hide NameOf;
    if cells != [] {
      var n := |cells| - 1;
      LongestGrows(x, live, cells[..n]);
      assert cells == cells[..n] + [cells[n]];
    }
  }

  /** The recorded width bounds the names of all children if and only if every name can be measured in 16 bits. */
  lemma LongestIsMaximum(x: Text, live: Live, cells: seq<nat>)
    ensures (forall c :: c in cells ==> x.width(NameOf(x, live, c)) <= LongestName(x, live, cells)) <==>
              forall c :: c in cells ==> x.width(NameOf(x, live, c)) <= 0xffff
  {
    hide NameOf, LongestName;
    LongestFits(x, live, cells);
    if forall c :: c in cells ==> x.width(NameOf(x, live, c)) <= 0xffff { LongestGrows(x, live, cells); }
  }

  /** Names of single bytes that take two bytes each in UTF-16. */
  ghost function ByteText(): Text {
    Text((b: bytes, f: nat) => seq(|b|, i requires 0 <= i < |b| => b[i] as char), (s: string) => seq(|s|, i => 97), 0x20, (s: string) => s,
        (s: string) => s, (s: string) => 2 * |s|)
  }

  /** A key with one child whose name has 0x8001 letters records a width of 2. */
  lemma LongestWraps(c: nat)
    ensures var live := map[c := NewKeyBody(false, 0x20, seq(0x8001, i => 97), 0x20, NONE)];
            && Named(live[c]) && |NameOf(ByteText(), live, c)| == 0x8001 && ByteText().width(NameOf(ByteText(), live, c)) == 0x1_0002
            && LongestName(ByteText(), live, [c]) == 2
  {
    hide NewKeyBody, U16, U32, LE;
    var name: bytes := seq(0x8001, i => 97);
    var b := NewKeyBody(false, 0x20, name, 0x20, NONE);
    NewKeyFacts(false, 0x20, name, 0x20, NONE, b);
    var live := map[c := b];
    assert NameOf(ByteText(), live, c) == ByteText().decode(b[0x4c..0x4c + U16(b, 0x48)], U16(b, 2));
    assert [c][..0] == [];
  }

  lemma {:induction false} LargestIsMaximum(live: Live, cells: seq<nat>)
    ensures forall c :: c in cells ==> ClassSize(live, c) <= LargestClass(live, cells)
    ensures LargestClass(live, cells) <= 0xffff
    ensures LargestClass(live, cells) == 0 || exists c :: c in cells && ClassSize(live, c) == LargestClass(live, cells)
  {
    hide ClassSize;
    if cells != [] {
      var n := |cells| - 1;
      LargestIsMaximum(live, cells[..n]);
      assert cells == cells[..n] + [cells[n]];
      SizeFits(live, cells[n]);
    }
  }

  lemma SizeFits(live: Live, c: nat)
    ensures ClassSize(live, c) <= 0xffff
  {
  }

  /** The key with its maxima, its count and its list written. */
  function Relisted(b: bytes, width: nat, size: nat, count: nat, list: nat): (c: bytes)
    requires IsKey(b)
    ensures |c| == |b|
  {
    Put32(Put32(Splice(Splice(b, 0x34, Enc16(width)), 0x38, Enc32(size)), 0x14, count), 0x1c, list)
  }

  /** Two keys that agree on everything but the list, the count and the maxima. */
  predicate Resembles(a: bytes, b: bytes) {
    IsKey(a) && IsKey(b) && |a| == |b| && b[0x4c..] == a[0x4c..] && Steady(a, b) && SecurityOf(a) == SecurityOf(b)
  }

  lemma ListEdit(b: bytes, o: nat, v: nat)
    requires IsKey(b) && (o == 0x14 || o == 0x1c) && v < 0x1_0000_0000
    ensures var c := Put32(b, o, v);
            && IsKey(c) && Resembles(b, c) && U32(c, o) == v && U32(c, 0x14 + 0x1c - o) == U32(b, 0x14 + 0x1c - o)
                && U16(c, 0x34) == U16(b, 0x34) && U32(c, 0x38) == U32(b, 0x38)
  {
    hide LE, U32, U16, Put32;
    PutField(b, o, v, o); PutField(b, o, v, 0x14 + 0x1c - o);
    PutField(b, o, v, 0x18); PutField(b, o, v, 0x24); PutField(b, o, v, 0x28); PutField(b, o, v, 0x2c); PutField(b, o, v, 0x30); PutField(b,
        o, v, 0x38);
    PutHalf(b, o, v, 2); PutHalf(b, o, v, 0x34); PutHalf(b, o, v, 0x48); PutHalf(b, o, v, 0x4a);
    PutEnds(b, o, v);
  }

  lemma PutHalf(b: bytes, o: nat, v: nat, p: nat)
    requires o + 4 <= |b| && p + 2 <= |b| && (p + 2 <= o || o + 4 <= p)
    ensures U16(Put32(b, o, v), p) == U16(b, p)
  {
    hide LE;
    if p + 2 <= o { SpliceBefore(b, o, Enc32(v), p, p + 2); } else { SpliceAfter(b, o, Enc32(v), p, p + 2); }
  }

  lemma PutEnds(b: bytes, o: nat, v: nat)
    requires 0x4c <= |b| && 2 <= o && o + 4 <= 0x4c
    ensures Put32(b, o, v)[..2] == b[..2] && Put32(b, o, v)[0x4c..] == b[0x4c..]
  {
    hide LE;
    SpliceBefore(b, o, Enc32(v), 0, 2);
    SpliceAfter(b, o, Enc32(v), 0x4c, |b|);
    assert Put32(b, o, v)[0x4c..] == Put32(b, o, v)[0x4c..|b|] && b[0x4c..] == b[0x4c..|b|];
  }

  lemma RelistFacts(b: bytes, width: nat, size: nat, count: nat, list: nat)
    requires IsKey(b) && size < 0x1_0000_0000 && count < 0x1_0000_0000 && list < 0x1_0000_0000
    ensures var c := Relisted(b, width, size, count, list);
            Resembles(b, c) && U32(c, 0x14) == count && U32(c, 0x1c) == list && U16(c, 0x34) == width % 0x1_0000 && U32(c, 0x38) == size
  {
    hide LE, U32, U16, Put32, Splice, Resembles;
    var one := Splice(b, 0x34, Enc16(width));
    var two := Splice(one, 0x38, Enc32(size));
    var three := Put32(two, 0x14, count);
    HeadEdit(b, 0x34, Enc16(width));
    HeadEdit(one, 0x38, Enc32(size));
    SizesWritten(b, width, size);
    ListEdit(two, 0x14, count);
    ListEdit(three, 0x1c, list);
    AlikeResembles(b, one); AlikeResembles(one, two);
    ResemblesThen(b, one, two);
    ResemblesThen(b, two, three);
    ResemblesThen(b, three, Put32(three, 0x1c, list));
  }

  lemma SizesWritten(b: bytes, width: nat, size: nat)
    requires IsKey(b) && size < 0x1_0000_0000
    ensures var two := Splice(Splice(b, 0x34, Enc16(width)), 0x38, Enc32(size));
              U16(two, 0x34) == width % 0x1_0000 && U32(two, 0x38) == size
  {
    hide LE;
    var one := Splice(b, 0x34, Enc16(width));
    SpliceAt(b, 0x34, Enc16(width));
    HalfRead(one, 0x34, width);
    SpliceBefore(one, 0x38, Enc32(size), 0x34, 0x36);
    SpliceAt(one, 0x38, Enc32(size));
    WordRead(Splice(one, 0x38, Enc32(size)), 0x38, size);
  }

  lemma AlikeResembles(a: bytes, b: bytes)
    requires Alike(a, b) && SecurityOf(a) == SecurityOf(b)
    ensures Resembles(a, b)
  {
  }

  lemma ResemblesThen(a: bytes, b: bytes, c: bytes)
    requires Resembles(a, b) && Resembles(b, c)
    ensures Resembles(a, c)
  {
    hide LE, U32, U16;
  }

  // ----- storing one list

  /** What a commit of one key does to the cells: its own cell is rewritten, an index comes and one goes. */
  ghost predicate Swapped(live: Live, m: Live, k: nat, gone: seq<nat>, come: seq<nat>) {
    && (forall c :: c in m <==> (c in live || c in come) && c !in gone)
    && (forall c :: c in live && c != k && c !in gone ==> m[c] == live[c])
    && (forall c :: c in come ==> c !in live) && k in live && k !in gone && k in m
  }

  /** The key after the commit, with its new index if it has any children. */
  function Reindexed(n: Node, t: IndexTree, count: nat): Node { n.(index := if count == 0 then None else Some(t)) }

  method Maxima(tx: Transaction, cells: seq<nat>) returns (width: nat, size: nat)
    requires tx.patch.store.Valid() && forall c :: c in cells ==> c in tx.patch.store.Live() && Named(tx.patch.store.Live()[c])
    ensures width == LongestName(tx.text, tx.patch.store.Live(), cells) && size == LargestClass(tx.patch.store.Live(), cells)
  {
    hide Hive.Valid, Hive.Live, Hive.Starts, LE, NameIn;
    width, size := 0, 0;
    var i := 0;
    assert cells[..0] == [];
    while i < |cells|
      invariant 0 <= i <= |cells| && width == LongestName(tx.text, tx.patch.store.Live(), cells[..i])
                && size == LargestClass(tx.patch.store.Live(), cells[..i])
    {
      assert cells[i] in cells;
      assert cells[..i + 1][..i] == cells[..i];
      var name := tx.SubkeyName(cells[i]);
      var child := tx.patch.store.Body(cells[i]);
      if name.Success? && child.Success? && 0x4c <= |child.value| {
        width := Raise(width, tx.text.width(name.value));
        if U16(child.value, 0x4a) > size { size := U16(child.value, 0x4a); }
      }
      i := i + 1;
    }
    assert cells[..|cells|] == cells;
  }

  /** Writes the maxima, the count and the list of a key. */
  method Relist(store: Hive, k: nat, width: nat, size: nat, count: nat, list: nat)
    requires store.Valid() && k in store.Live() && IsKey(store.Live()[k])
    modifies store.Repr
    ensures store.Valid() && fresh(store.Repr - old(store.Repr)) && old(store.Starts()) <= store.Starts()
            && |store.data| == |old(store.data)|
    ensures store.Live() == old(store.Live())[k := Relisted(old(store.Live())[k], width, size, count, list)]
  {
    hide Hive.Valid, Hive.Live, Hive.Starts, LE, Splice, Enc32, Enc16;
    store.Poke(k, 0x34, Enc16(width));
    store.Poke(k, 0x38, Enc32(size));
    store.Poke(k, 0x14, Enc32(count));
    store.Poke(k, 0x1c, Enc32(list));
  }

  /** Writes a new list of children, points the key at it, and frees the old one. */
  method StoreList(tx: Transaction, parent: nat, list: seq<nat>, ghost n: Node) returns (o: Outcome, ghost t: IndexTree)
    requires tx.patch.store.Valid() && parent in tx.patch.store.Live() && IsKey(tx.patch.store.Live()[parent])
    requires Relistable(tx.patch.store.Live(), parent, list, n) && |tx.patch.store.data| + 0x2200 * Leaves(|list|) + 0x2200 <= LIMIT
    modifies tx.patch.store.Repr
    ensures tx.patch.store.Valid() && fresh(tx.patch.store.Repr - old(tx.patch.store.Repr))
            && old(tx.patch.store.Starts()) <= tx.patch.store.Starts()
    ensures |tx.patch.store.data| <= |old(tx.patch.store.data)| + 0x2200 * Leaves(|list|) + 0x2200
    ensures o == Done ==> Holds(tx.patch.store.Live(), t) && Listed(tx.patch.store.Live(), t) == list && Distinct(Cells(t))
    ensures o == Done ==> Swapped(old(tx.patch.store.Live()), tx.patch.store.Live(), parent, IndexCells(n), Cells(t))
    ensures o == Done ==> Records(old(tx.patch.store.Live()), tx.patch.store.Live(), tx.text, parent, list, t.cell) && Room(t, 0, {})
    ensures o == Done <==> Walks(n)
  {
    hide Hive.Valid, Hive.Live, Hive.Starts, Holds, Listed, Distinct, Elements, Leaves, Reach, Relisted, Swapped, Records, U32, Cells, Room,
         Small, LongestName, LargestClass, IndexCells, Named;
    ghost var live := tx.patch.store.Live();
    o := Done;
    var p := tx.patch.store.Body(parent);
    var former, count := U32(p.value, 0x1c), U32(p.value, 0x14);
    var r;
    SomeLive(live, parent);
    r, t := WriteSubkeyList(tx.patch.store, list);
    ghost var one := tx.patch.store.Live();
    SameMaxima(tx.text, live, one, list);
    var width, size := Maxima(tx, list);
    Relist(tx.patch.store, parent, width, size, |list|, r.value);
    ghost var two := tx.patch.store.Live();
    IndexesHold(live, one, two, parent, n, t, list);
    NoneGone(two);
    if count > 0 && former != NONE {
      var ok, visited := FreeSubkeyIndex(tx.patch.store, former, {}, 0, n.index.value);
      o := if ok then Done else Refused;
    }
    if o == Done {
      ghost var m := tx.patch.store.Live();
      Swap(live, one, two, m, parent, IndexCells(n), Cells(t));
      Recorded(live, m, tx.text, parent, list, r.value);
      IndexStays(two, m, t, IndexCells(n));
    }
  }

  /** A key whose index may be replaced by one that lists these cells. */
  ghost predicate Relistable(live: Live, k: nat, list: seq<nat>, n: Node) {
    && k in live && IsKey(live[k]) && Small(list) && Leaves(|list|) <= 0xffff && Reach(|list|) == |list| <= 0x200_0000
    && (forall c :: c in list ==> c in live && Named(live[c]))
    && (n.index.Some? <==> U32(live[k], 0x14) > 0) && (n.index.None? ==> IndexCells(n) == [])
    && (n.index.Some? ==>
         && n.index.value.cell == U32(live[k], 0x1c) < NONE && Holds(live, n.index.value)
         && Distinct(Cells(n.index.value)) && IndexCells(n) == Cells(n.index.value))
    && (forall c :: c in IndexCells(n) ==> c in live && c != k)
  }

  lemma SomeLive(live: Live, k: nat)
    requires k in live
    ensures live != map[]
  {
  }

  /** Stores the pending children of one key. */
  method CommitParent(tx: Transaction, parent: nat) returns (o: Outcome, ghost cells: seq<nat>, ghost t: IndexTree)
    requires tx.Valid() && parent in tx.batches && parent in tx.nodes
    requires |tx.patch.store.data| + 0x2200 * Leaves(|tx.batches[parent].cells|) + 0x2200 <= LIMIT
    modifies tx`batches, tx`nodes, tx.patch.store.Repr
    ensures fresh(tx.patch.store.Repr - old(tx.patch.store.Repr)) && old(tx.patch.store.Starts()) <= tx.patch.store.Starts()
            && |tx.patch.store.data| <= |old(tx.patch.store.data)| + 0x2200 * Leaves(|old(tx.batches)[parent].cells|) + 0x2200
    ensures parent in tx.children && Sorted(tx.text, old(tx.patch.store.Live()), cells) && Distinct(cells)
            && Elements(cells) == tx.children[parent]
    ensures o == Done ==>
              tx.Valid() && tx.batches == old(tx.batches) - {parent}
              && tx.nodes == old(tx.nodes)[parent := Reindexed(old(tx.nodes)[parent], t, |cells|)]
    ensures o == Done ==> Holds(tx.patch.store.Live(), t) && Listed(tx.patch.store.Live(), t) == cells
    ensures o == Done ==> Swapped(old(tx.patch.store.Live()), tx.patch.store.Live(), parent, IndexCells(old(tx.nodes)[parent]), Cells(t))
    ensures o == Done ==> Records(old(tx.patch.store.Live()), tx.patch.store.Live(), tx.text, parent, cells, t.cell)
    ensures o == Done ==> (old(tx.Open()) ==> tx.Open()) && Robed(old(tx.patch.store.Live()), tx.patch.store.Live(), tx.patch.keys)
    ensures o == Done <==> Walks(old(tx.nodes)[parent])
  {
    hide Hive.Valid, Hive.Live, Hive.Starts, Owns, Family, Pending, Patch.ValidOwing, Sound, Cached, Holds, Listed, Sorted, Distinct,
         Elements, Leaves, Reach, Relistable,
         Swapped, Records, IsKey, U32, Reindexed, Walks, Cells, IndexCells, Named, Traced, Opened, Robed, Room;
    ghost var live, n, a := tx.patch.store.Live(), tx.nodes[parent], tx.Now();
    var list;
    o, list := SortedChildren(tx, parent);
    cells := list;
    tx.patch.Expand(NONE);
    CommitStart(tx, parent, list);
    o, t := StoreList(tx, parent, list, n);
    if o == Done {
      ghost var m := tx.patch.store.Live();
      RecordFacts(live, m, tx.text, parent, list, t.cell);
      SwapSound(live, m, tx.patch.ring, tx.patch.keys, parent, IndexCells(n), Cells(t), tx.patch.securityCells, tx.patch.store.root);
      SwapOwns(live, m, tx.minor, tx.patch.ring, tx.patch.keys, tx.nodes, parent, t, |list|);
      SwapPending(tx.text, a, m, tx.minor, tx.patch.store.root, parent, t, list);
      tx.patch.store.LiveStarts();
      SwapTraced(old(tx.patch.store.Starts()), tx.patch.store.Starts(), a, m, tx.minor, tx.patch.store.root, parent, t, list);
      SwapRobed(live, m, tx.patch.ring, tx.patch.keys, parent, IndexCells(n), Cells(t));
      if Opened(tx.text, live, tx.patch.keys, tx.nodes, tx.batches) {
        SwapOpened(tx.text, a, m, tx.minor, tx.patch.store.root, parent, t, list);
      }
      tx.batches, tx.nodes := tx.batches - {parent}, tx.nodes[parent := Reindexed(n, t, |list|)];
      tx.patch.Collect(NONE);
    }
  }

  lemma RecordFacts(live: Live, m: Live, x: Text, k: nat, cells: seq<nat>, list: nat)
    requires Records(live, m, x, k, cells, list)
    ensures k in live && k in m && Resembles(live[k], m[k]) && IsKey(m[k]) && U32(m[k], 0x14) == |cells| && U32(m[k], 0x1c) == list
  {
  }

  /** What the key says about its children, and that nothing else about it changed. */
  ghost predicate Records(live: Live, m: Live, x: Text, k: nat, cells: seq<nat>, list: nat) {
    && k in live && k in m && Resembles(live[k], m[k])
    && U32(m[k], 0x14) == |cells| && U32(m[k], 0x1c) == list
    && U16(m[k], 0x34) == LongestName(x, live, cells) % 0x1_0000 && U32(m[k], 0x38) == LargestClass(live, cells)
  }

  lemma Recorded(live: Live, m: Live, x: Text, k: nat, cells: seq<nat>, list: nat)
    requires k in live && k in m && IsKey(live[k]) && |cells| < 0x1_0000_0000 && list < 0x1_0000_0000
    requires m[k] == Relisted(live[k], LongestName(x, live, cells), LargestClass(live, cells), |cells|, list)
    ensures Records(live, m, x, k, cells, list)
  {
    hide LE, U32, U16, Relisted, Resembles, LongestName, LargestClass;
    LargestIsMaximum(live, cells);
    RelistFacts(live[k], LongestName(x, live, cells), LargestClass(live, cells), |cells|, list);
  }

  lemma CommitStart(tx: Transaction, parent: nat, list: seq<nat>)
    requires tx.Valid() && parent in tx.batches && parent in tx.nodes && parent in tx.children && Elements(list) == tx.children[parent]
             && Distinct(list)
    ensures parent in tx.patch.keys && parent in tx.patch.store.Live() && IsKey(tx.patch.store.Live()[parent])
    ensures Relistable(tx.patch.store.Live(), parent, list, tx.nodes[parent])
    ensures forall c :: c in IndexCells(tx.nodes[parent]) ==> c !in tx.patch.keys && c !in tx.patch.ring
  {
    hide Hive.Valid, Hive.Live, Hive.Starts, Owns, Family, Pending, Sound, Cached, Holds, Distinct, Leaves, Reach, U32, U16, LE, Cells,
         Named, Owned, ListedValues, ClassCell;
    var live, keys := tx.patch.store.Live(), tx.patch.keys;
    BatchAt(tx.text, live, keys, tx.nodes, tx.children, tx.batches, parent);
    OwnsAt(live, tx.minor, tx.patch.ring, keys, tx.nodes, parent);
    NodeLive(live, tx.minor, parent, tx.nodes[parent]);
    IndexOwned(tx.nodes[parent]);
    tx.patch.store.CellsBelow();
    forall c | c in list ensures c in keys && c in live && Named(live[c]) && IsKey(live[c]) && c < 0x1_0000_0000 {
      assert c in Elements(list);
      FamilyAt(tx.patch.store.root, keys, tx.children, tx.parents, parent, c);
      OwnsAt(live, tx.minor, tx.patch.ring, keys, tx.nodes, c);
    }
    if tx.nodes[parent].index.Some? { TopHeld(live, tx.nodes[parent].index.value); }
    KeysFit(tx.patch.store, Elements(list));
    ElementsSize(list);
    ReachAll(|list|);
    forall i | 0 <= i < |list| ensures list[i] < 0x1_0000_0000 { assert list[i] in list; }
  }

  lemma IndexOwned(n: Node)
    ensures forall c :: c in IndexCells(n) ==> c in Owned(n)
  {
  }

  lemma TopHeld(live: Live, t: IndexTree)
    requires Holds(live, t)
    ensures t.cell in live
  {
  }

  lemma SameMaxima(x: Text, live: Live, m: Live, cells: seq<nat>)
    requires forall c :: c in live ==> c in m && m[c] == live[c]
    requires forall c :: c in cells ==> c in live && Named(live[c])
    ensures LongestName(x, m, cells) == LongestName(x, live, cells) && LargestClass(m, cells) == LargestClass(live, cells)
    ensures forall c :: c in cells ==> c in m && Named(m[c])
  {
    hide NameIn;
    if cells != [] { SameMaxima(x, live, m, cells[..|cells| - 1]); }
  }

  /** The old and the new index are both there while the key is rewritten. */
  lemma IndexesHold(live: Live, one: Live, two: Live, k: nat, n: Node, t: IndexTree, list: seq<nat>)
    requires (forall c :: c in live ==> c in one && one[c] == live[c]) && k in live && k in two && two == one[k := two[k]]
    requires n.index.Some? ==>
               Holds(live, n.index.value) && k !in Cells(n.index.value) && forall c :: c in Cells(n.index.value) ==> c in live
    requires Holds(one, t) && Listed(one, t) == list && forall c :: c in Cells(t) ==> c in one && c !in live
    ensures n.index.Some? ==> Holds(two, n.index.value)
    ensures Holds(two, t) && Listed(two, t) == list
  {
    hide Holds, Listed, Cells;
    Frame(one, two, t);
    if n.index.Some? { Frame(live, two, n.index.value); }
  }

  lemma IndexStays(two: Live, m: Live, t: IndexTree, gone: seq<nat>)
    requires Holds(two, t) && m == two - Elements(gone) && forall c :: c in Cells(t) ==> c !in gone
    ensures Holds(m, t) && Listed(m, t) == Listed(two, t)
  {
    hide Holds, Listed, Cells;
    HeldTree(two, t);
    Frame(two, m, t);
  }

  lemma Swap(live: Live, one: Live, two: Live, m: Live, k: nat, gone: seq<nat>, come: seq<nat>)
    requires one.Keys == live.Keys + Elements(come) && (forall c :: c in live ==> c in one && one[c] == live[c])
             && (forall c :: c in come ==> c !in live)
    requires k in live && k in two && two == one[k := two[k]] && m == two - Elements(gone) && forall c :: c in gone ==> c in live && c != k
    ensures Swapped(live, m, k, gone, come) && m[k] == two[k] && forall c :: c in come ==> c !in gone
  {
    assert forall c :: c in one <==> c in one.Keys;
  }

  lemma SwapSound(live: Live, m: Live, ring: seq<nat>, keys: set<nat>, k: nat, gone: seq<nat>, come: seq<nat>, cache: map<bytes, nat>,
                  root: nat)
    requires Sound(live, ring, keys, NONE) && Swapped(live, m, k, gone, come) && k in keys && Resembles(live[k], m[k])
    requires forall c :: c in gone ==> c !in keys && c !in ring
    ensures Sound(m, ring, keys, NONE) && (Cached(cache, live, ring) ==> Cached(cache, m, ring))
    ensures root in live && root in keys && IsKey(live[root]) && SecurityOf(live[root]) in ring ==>
              root in m && IsKey(m[root]) && SecurityOf(m[root]) in ring
  {
    hide LE, U32, U16;
    KeyFacts(live, ring, keys);
    SoundMembers(live, ring, keys);
    Rekey(live, ring, keys, k, m[k]);
    Elsewhere(live[k := m[k]], m, ring, keys, NONE);
  }

  /** A key whose index was replaced holds what it should. */
  lemma SwapNode(live: Live, m: Live, minor: nat, k: nat, n: Node, t: IndexTree, count: nat)
    requires NodeHolds(live, minor, k, n) && Swapped(live, m, k, IndexCells(n), Cells(t)) && Resembles(live[k], m[k])
             && U32(m[k], 0x14) == count && U32(m[k], 0x1c) == t.cell
    requires Holds(m, t) && |Listed(m, t)| == count && Distinct(Cells(t)) && Distinct(Owned(n) + [k])
    ensures NodeHolds(m, minor, k, Reindexed(n, t, count)) && Distinct(Owned(Reindexed(n, t, count)))
    ensures forall c :: c in Owned(Reindexed(n, t, count)) ==> c in Cells(t) || c in Owned(n)
  {
    hide LE, U32, U16, Row, Holds, Listed, HoldsValues, ListedValues, ClassCell, Cells, Distinct;
    var u := Reindexed(n, t, count);
    var rest := ListedValues(n) + ClassCell(n);
    RestSame(n, t, count);
    DistinctParts(Owned(n), [k]);
    DistinctParts(IndexCells(n), rest);
    NodeLive(live, minor, k, n);
    assert k in [k];
    assert forall c :: c in rest ==> c in Owned(n) && c != k;
    RestHolds(live, m, minor, live[k], n);
    if count != 0 { DistinctCat(Cells(t), rest); } else { assert Owned(u) == rest; }
  }

  lemma RestSame(n: Node, t: IndexTree, count: nat)
    ensures ListedValues(Reindexed(n, t, count)) == ListedValues(n) && ClassCell(Reindexed(n, t, count)) == ClassCell(n)
  {
  }

  lemma SwapOwns(live: Live, m: Live, minor: nat, ring: seq<nat>, keys: set<nat>, nodes: map<nat, Node>, k: nat, t: IndexTree, count: nat)
    requires Owns(live, minor, ring, keys, nodes) && Sound(live, ring, keys, NONE) && k in keys && k in nodes
             && Swapped(live, m, k, IndexCells(nodes[k]), Cells(t))
    requires Resembles(live[k], m[k]) && U32(m[k], 0x14) == count && U32(m[k], 0x1c) == t.cell && Holds(m, t) && |Listed(m, t)| == count
             && Distinct(Cells(t))
    ensures Owns(m, minor, ring, keys, nodes[k := Reindexed(nodes[k], t, count)])
  {
    hide LE, U32, U16, NodeHolds, Holds, Listed, Owned, Distinct, Named, Cells, IndexCells, Sound, Resembles, Reindexed;
    var n := nodes[k];
    var u := Reindexed(n, t, count);
    KeyFacts(live, ring, keys);
    SoundMembers(live, ring, keys);
    OwnsAt(live, minor, ring, keys, nodes, k);
    KeyNotOwned(live, minor, ring, keys, nodes, k);
    SwapNode(live, m, minor, k, n, t, count);
    NamedStill(live[k], m[k]);
    IndexOwned(n);
    forall j | j in keys && j != k ensures Proper(m, minor, ring, keys, j, nodes[j]) && forall c :: c in Owned(nodes[j]) ==> c in live && c !in Owned(u) {
      OwnsAt(live, minor, ring, keys, nodes, j);
      NodeLive(live, minor, j, nodes[j]);
      AlikeItself(live[j]);
      NodeKept(live, m, minor, j, nodes[j]);
    }
  }

  lemma KeyNotOwned(live: Live, minor: nat, ring: seq<nat>, keys: set<nat>, nodes: map<nat, Node>, k: nat)
    requires Owns(live, minor, ring, keys, nodes) && k in keys
    ensures k in nodes && Distinct(Owned(nodes[k]) + [k])
  {
    hide Owned, NodeHolds, Named;
    assert Proper(live, minor, ring, keys, k, nodes[k]);
    DistinctCat(Owned(nodes[k]), [k]);
  }

  lemma NamedStill(a: bytes, b: bytes)
    requires Resembles(a, b) && Named(a)
    ensures Named(b) && forall x :: NameIn(x, b) == NameIn(x, a)
  {
    hide LE, U32, U16;
    assert b[0x4c..][..U16(a, 0x48)] == b[0x4c..0x4c + U16(b, 0x48)];
    assert a[0x4c..][..U16(a, 0x48)] == a[0x4c..0x4c + U16(a, 0x48)];
  }

  lemma SwapPending(x: Text, a: State, m: Live, minor: nat, root: nat, k: nat, t: IndexTree, list: seq<nat>)
    requires Owns(a.live, minor, a.ring, a.keys, a.nodes) && Family(root, a.keys, a.children, a.parents)
             && Pending(x, a.live, a.keys, a.nodes, a.children, a.batches) && Sound(a.live, a.ring, a.keys, NONE)
    requires k in a.keys && k in a.nodes && k in a.children && Swapped(a.live, m, k, IndexCells(a.nodes[k]), Cells(t))
             && Resembles(a.live[k], m[k])
    requires U32(m[k], 0x14) == |list| && Holds(m, t) && Listed(m, t) == list && Elements(list) == a.children[k]
    ensures Pending(x, m, a.keys, a.nodes[k := Reindexed(a.nodes[k], t, |list|)], a.children, a.batches - {k})
  {
    hide LE, U32, U16, Owns, Clean, BatchOk, Folded, Holds, Listed, Cells, IndexCells, Sound, Resembles, NodeHolds, Owned;
    KeyFacts(a.live, a.ring, a.keys);
    OwnsAt(a.live, minor, a.ring, a.keys, a.nodes, k);
    IndexOwned(a.nodes[k]);
    forall c | c in a.keys ensures Folded(x, m, c) == Folded(x, a.live, c) {
      SwapName(x, a.live, m, minor, a.ring, a.keys, a.nodes, k, t, c);
    }
    forall j | j in a.keys && j != k && Clean(a.live, j, a.nodes[j], a.children[j]) ensures Clean(m, j, a.nodes[j], a.children[j]) {
      SwapClean(a.live, m, minor, a.ring, a.keys, a.nodes, k, t, j, a.children[j]);
    }
    BothKeys(a.live[k], m[k]);
    NewlyClean(m, k, a.nodes[k], t, list);
    forall p | p in a.batches && p != k ensures BatchOk(x, m, a.batches[p].cells, a.children[p]) {
      BatchAt(x, a.live, a.keys, a.nodes, a.children, a.batches, p);
      forall c | c in a.children[p] ensures c in a.keys { FamilyAt(root, a.keys, a.children, a.parents, p, c); }
      BatchKept(x, a.live, m, a.batches[p].cells, a.children[p]);
    }
  }

  lemma BothKeys(a: bytes, b: bytes)
    requires Resembles(a, b)
    ensures IsKey(a) && IsKey(b)
  {
  }

  lemma NewlyClean(m: Live, k: nat, n: Node, t: IndexTree, list: seq<nat>)
    requires k in m && IsKey(m[k]) && U32(m[k], 0x14) == |list| && Holds(m, t) && Listed(m, t) == list
    ensures Clean(m, k, Reindexed(n, t, |list|), Elements(list))
  {
    hide LE, U32, Holds, Listed;
  }

  lemma SwapName(x: Text, live: Live, m: Live, minor: nat, ring: seq<nat>, keys: set<nat>, nodes: map<nat, Node>, k: nat, t: IndexTree,
                 c: nat)
    requires Owns(live, minor, ring, keys, nodes) && k in keys && k in nodes && Swapped(live, m, k, IndexCells(nodes[k]), Cells(t))
             && Resembles(live[k], m[k]) && c in keys
    ensures Folded(x, m, c) == Folded(x, live, c) && NameOf(x, m, c) == NameOf(x, live, c)
  {
    hide LE, U32, U16, Owned, NodeHolds, Resembles, NameIn, Named, Cells, IndexCells;
    OwnsAt(live, minor, ring, keys, nodes, k);
    OwnsAt(live, minor, ring, keys, nodes, c);
    IndexOwned(nodes[k]);
    if c == k { NamedStill(live[k], m[k]); }
  }

  lemma SwapClean(live: Live, m: Live, minor: nat, ring: seq<nat>, keys: set<nat>, nodes: map<nat, Node>, k: nat, t: IndexTree, j: nat,
                  kids: set<nat>)
    requires Owns(live, minor, ring, keys, nodes) && k in keys && k in nodes && Swapped(live, m, k, IndexCells(nodes[k]), Cells(t))
             && j in keys && j != k && j in nodes
    requires Clean(live, j, nodes[j], kids)
    ensures Clean(m, j, nodes[j], kids)
  {
    hide NodeHolds, Owned, Distinct, U32, U16, Elements, Holds, Listed, Cells, IndexCells, Named;
    OwnsAt(live, minor, ring, keys, nodes, k);
    OwnsAt(live, minor, ring, keys, nodes, j);
    NodeLive(live, minor, j, nodes[j]);
    IndexOwned(nodes[k]);
    AlikeItself(live[j]);
    NodeKept(live, m, minor, j, nodes[j]);
    IndexThere(m, minor, j, nodes[j]);
  }

  /** No cell of an index looks like a key. */
  lemma {:induction false} IndexNotKeys(m: Live, t: IndexTree)
    requires Holds(m, t)
    ensures forall c :: c in Cells(t) ==> c in m && !IsKey(m[c])
  {
    if t.Branch? { ForestNotKeys(m, t.kids); }
  }

  lemma {:induction false} ForestNotKeys(m: Live, f: Forest)
    requires HoldsAll(m, f)
    ensures forall c :: c in CellsAll(f) ==> c in m && !IsKey(m[c])
  {
    if f.More? {
      IndexNotKeys(m, f.head);
      ForestNotKeys(m, f.tail);
    }
  }

  lemma SwapTraced(starts: set<nat>, wider: set<nat>, a: State, m: Live, minor: nat, root: nat, k: nat, t: IndexTree, list: seq<nat>)
    requires Owns(a.live, minor, a.ring, a.keys, a.nodes) && Traced(starts, a.live, a.keys, a.nodes)
             && Family(root, a.keys, a.children, a.parents)
             && Sound(a.live, a.ring, a.keys, NONE) && starts <= wider
    requires k in a.keys && k in a.nodes && k in a.children && Swapped(a.live, m, k, IndexCells(a.nodes[k]), Cells(t))
             && Resembles(a.live[k], m[k])
    requires Holds(m, t) && Listed(m, t) == list && Elements(list) == a.children[k] && forall c :: c in m ==> c in wider
    ensures Traced(wider, m, a.keys, a.nodes[k := Reindexed(a.nodes[k], t, |list|)])
  {
    hide LE, U32, U16, NodeHolds, Holds, Listed, Owned, Distinct, Named, Cells, IndexCells, Sound, Resembles, IsKey;
    var now := a.nodes[k := Reindexed(a.nodes[k], t, |list|)];
    IndexNotKeys(m, t);
    KeyFacts(a.live, a.ring, a.keys);
    OwnsAt(a.live, minor, a.ring, a.keys, a.nodes, k);
    IndexOwned(a.nodes[k]);
    forall c | c in a.keys ensures c in m {
      OwnsAt(a.live, minor, a.ring, a.keys, a.nodes, c);
      OwnsApart(a.live, minor, a.ring, a.keys, a.nodes, k);
    }
    forall j | j in a.keys && j in now ensures Tracks(wider, m, a.keys, now[j]) {
      if j == k {
        forall e | e in list ensures e in wider && e in a.keys {
          assert e in Elements(list);
          FamilyAt(root, a.keys, a.children, a.parents, k, e);
        }
      } else {
        SwapTracks(starts, wider, a.live, m, minor, a.ring, a.keys, a.nodes, k, t, j);
      }
    }
  }

  lemma SwapTracks(starts: set<nat>, wider: set<nat>, live: Live, m: Live, minor: nat, ring: seq<nat>, keys: set<nat>,
                   nodes: map<nat, Node>, k: nat, t: IndexTree, j: nat)
    requires Owns(live, minor, ring, keys, nodes) && Traced(starts, live, keys, nodes) && starts <= wider && j in keys && j != k
             && k in keys && k in nodes && j in nodes
    requires Swapped(live, m, k, IndexCells(nodes[k]), Cells(t)) && forall c :: c in Cells(t) ==> c in m && !IsKey(m[c])
    ensures Tracks(wider, m, keys, nodes[j])
  {
    hide LE, U32, U16, NodeHolds, Holds, Listed, Owned, Distinct, Named, Cells, IndexCells, IsKey;
    SwapStored(live, m, minor, ring, keys, nodes, k, t, j);
    assert Tracks(starts, live, keys, nodes[j]);
  }

  lemma SwapRobed(live: Live, m: Live, ring: seq<nat>, keys: set<nat>, k: nat, gone: seq<nat>, come: seq<nat>)
    requires Sound(live, ring, keys, NONE) && Swapped(live, m, k, gone, come) && k in keys && Resembles(live[k], m[k])
             && forall c :: c in gone ==> c !in keys && c !in ring
    ensures Robed(live, m, keys)
  {
    hide LE, U32, U16, IsSecurity, Descriptor;
    KeyFacts(live, ring, keys);
    SoundMembers(live, ring, keys);
  }

  /** After a commit of one key its list can be loaded, and so can all that could be before. */
  lemma SwapOpened(x: Text, a: State, m: Live, minor: nat, root: nat, k: nat, t: IndexTree, list: seq<nat>)
    requires Owns(a.live, minor, a.ring, a.keys, a.nodes) && Family(root, a.keys, a.children, a.parents)
             && Pending(x, a.live, a.keys, a.nodes, a.children, a.batches) && Opened(x, a.live, a.keys, a.nodes, a.batches)
    requires k in a.keys && k in a.nodes && k in a.children && k in a.batches && Swapped(a.live, m, k, IndexCells(a.nodes[k]), Cells(t))
             && Records(a.live, m, x, k, list, t.cell)
    requires Holds(m, t) && Listed(m, t) == list && Sorted(x, a.live, list) && Distinct(list) && Elements(list) == a.children[k]
             && Room(t, 0, {})
    ensures Opened(x, m, a.keys, a.nodes[k := Reindexed(a.nodes[k], t, |list|)], a.batches - {k})
  {
    hide Owns, Family, Pending, Swapped, Records, NameOf, Folded, Cells, IndexCells, Holds, Listed, Sorted, Distinct, Room, Elements;
    var now := a.nodes[k := Reindexed(a.nodes[k], t, |list|)];
    CommittedNames(x, a.live, m, minor, a.ring, a.keys, a.nodes, k, t, list);
    PublishThis(x, a, m, root, k, t, list);
    forall j | j in a.keys && j in now ensures Walks(now[j]) && (IsDirty(a.batches - {k}, j) || Loadable(x, m, now[j])) {
      if j != k && !IsDirty(a.batches, j) {
        assert Loadable(x, a.live, a.nodes[j]);
        OpenClean(x, a, minor, root, j);
        SwapStored(a.live, m, minor, a.ring, a.keys, a.nodes, k, t, j);
        SortedFrame(x, a.live, m, StoredChildren(a.live, a.nodes[j]));
      }
    }
  }

  // ----- the whole transaction

  ghost predicate Rising(s: seq<nat>) { forall i, j :: 0 <= i < j < |s| ==> s[i] < s[j] }

  function Dirty(batches: map<nat, Batch>): set<nat> { set p | p in batches && batches[p].dirty }

  /** The changed parents in rising order. */
  method DirtyParents(batches: map<nat, Batch>) returns (s: seq<nat>)
    ensures Rising(s) && Elements(s) == Dirty(batches)
  {
    hide Rising, Elements;
    s := [];
    var rest := Dirty(batches);
    RisingStart();
    NoElements();
    while rest != {}
      invariant Rising(s) && Elements(s) !! rest && Elements(s) + rest == Dirty(batches)
      decreases |rest|
    {
      var x :| x in rest;
      var i := |s|;
      while i > 0 && x < s[i - 1]
        invariant 0 <= i <= |s| && forall k :: i <= k < |s| ==> x < s[k]
      {
        i := i - 1;
      }
      PlaceNumber(s, x, i);
      s, rest := s[..i] + [x] + s[i..], rest - {x};
    }
  }

  lemma RisingStart()
    ensures Rising([])
  {
  }

  lemma PlaceNumber(s: seq<nat>, x: nat, i: nat)
    requires Rising(s) && i <= |s| && x !in Elements(s) && (forall k :: i <= k < |s| ==> x < s[k]) && (i > 0 ==> s[i - 1] <= x)
    ensures Rising(s[..i] + [x] + s[i..]) && Elements(s[..i] + [x] + s[i..]) == Elements(s) + {x}
  {
    hide Elements, Rising;
    if i > 0 {
      assert s[i - 1] in s;
      InSet(s, s[i - 1]);
    }
    PlaceRising(s, x, i);
    assert s == s[..i] + s[i..];
    ElementsCat(s[..i], [x]);
    ElementsCat(s[..i] + [x], s[i..]);
    ElementsCat(s[..i], s[i..]);
    OneElement(x);
  }

  lemma InSet(s: seq<nat>, c: nat)
    ensures c in Elements(s) <==> c in s
  {
  }

  lemma PlaceRising(s: seq<nat>, x: nat, i: nat)
    requires Rising(s) && i <= |s| && (forall k :: i <= k < |s| ==> x < s[k]) && (i > 0 ==> s[i - 1] < x)
    ensures Rising(s[..i] + [x] + s[i..])
  {
    var t := s[..i] + [x] + s[i..];
    forall a, b | 0 <= a < b < |t| ensures t[a] < t[b] {
      assert t[a] == if a < i then s[a] else if a == i then x else s[a - 1];
      assert t[b] == if b < i then s[b] else if b == i then x else s[b - 1];
    }
  }

  /** The room the lists of some parents may take. */
  function Cost(batches: map<nat, Batch>, parents: seq<nat>): nat {
    if parents == [] then 0
    else (if parents[0] in batches then 0x2200 * Leaves(|batches[parents[0]].cells|) + 0x2200 else 0) + Cost(batches, parents[1..])
  }

  /** The stored children of a key are sorted and have distinct folded names. */
  ghost predicate Published(x: Text, live: Live, nodes: map<nat, Node>, k: nat) {
    && k in nodes && (nodes[k].index.Some? ==> Holds(live, nodes[k].index.value))
    && var stored := StoredChildren(live, nodes[k]); Sorted(x, live, stored) && Distinct(stored) && FoldDistinct(x, live, stored)
  }

  /** Publishes every changed child list; afterwards nothing is pending. */
  method FinishChildBatches(tx: Transaction) returns (o: Outcome, ghost s: seq<nat>)
    requires tx.Valid() && forall s: seq<nat> ::
               Rising(s) && Elements(s) == Dirty(tx.batches) ==> |tx.patch.store.data| + Cost(tx.batches, s) <= LIMIT
    modifies tx`batches, tx`nodes, tx.patch.store.Repr
    ensures fresh(tx.patch.store.Repr - old(tx.patch.store.Repr)) && old(tx.patch.store.Starts()) <= tx.patch.store.Starts()
    ensures o == Done ==> tx.Valid() && tx.batches == map[]
    ensures o == Done ==> forall k :: k in tx.patch.keys ==> k in tx.nodes && k in tx.children && Clean(tx.patch.store.Live(), k, tx.nodes[k], tx.children[k])
    ensures o == Done ==> forall k :: k in Dirty(old(tx.batches)) ==> Published(tx.text, tx.patch.store.Live(), tx.nodes, k)
    ensures o == Done ==>
              forall k :: k in tx.patch.keys ==> NameOf(tx.text, tx.patch.store.Live(), k) == NameOf(tx.text, old(tx.patch.store.Live()), k)
    ensures o == Done ==> (old(tx.Open()) ==> tx.Open()) && Robed(old(tx.patch.store.Live()), tx.patch.store.Live(), tx.patch.keys)
    ensures o == Done <==> forall k :: k in Dirty(old(tx.batches)) && k in old(tx.nodes) ==> Walks(old(tx.nodes)[k])
    ensures Rising(s) && Elements(s) == Dirty(old(tx.batches))
            && (o == Done ==> |tx.patch.store.data| <= |old(tx.patch.store.data)| + Cost(old(tx.batches), s))
  {
    hide Hive.Valid, Hive.Live, Hive.Starts, Owns, Family, Pending, Patch.Valid, Published, NameOf, Leaves, Cost, Rising, Elements, Clean,
         Walks, Progress, Swapped, Records, Holds, Listed, Sorted, Distinct, Dirty, Opened, Robed, Traced, Family;
    o := Done;
    var parents := DirtyParents(tx.batches);
    s := parents;
    ghost var all, start, first := tx.batches, tx.patch.store.Live(), tx.nodes;
    var i := 0;
    tx.StoreOk();
    assert parents[0..] == parents;
    ProgressStart(tx.text, start, tx.patch.keys, first, parents, all);
    while i < |parents| && o == Done
      invariant 0 <= i <= |parents| && fresh(tx.patch.store.Repr - old(tx.patch.store.Repr))
                && old(tx.patch.store.Starts()) <= tx.patch.store.Starts()
      invariant o == Done ==>
                  tx.Valid() && tx.batches == all - Elements(parents[..i])
                  && |tx.patch.store.data| + Cost(all, parents[i..]) <= |old(tx.patch.store.data)| + Cost(all, parents)
      invariant o == Done ==> Progress(tx.text, start, tx.patch.store.Live(), tx.patch.keys, first, tx.nodes, parents[..i])
      invariant o == Done ==>
                  (Opened(tx.text, start, tx.patch.keys, first, all) ==> tx.Open()) && Robed(start, tx.patch.store.Live(), tx.patch.keys)
      invariant o == Done ==> forall j :: 0 <= j < i ==> parents[j] in first && Walks(first[parents[j]])
      invariant o == Refused ==> exists k :: k in Dirty(all) && k in first && !Walks(first[k])
    {
      var parent := parents[i];
      ghost var live, nodes, before, a := tx.patch.store.Live(), tx.nodes, tx.batches, tx.Now();
      tx.StoreOk();
      NextParent(tx.text, live, tx.patch.keys, nodes, tx.children, all, before, parents, i);
      NextNode(tx.text, start, live, tx.patch.keys, first, nodes, parents[..i], parent);
      ghost var cells, t;
      o, cells, t := CommitParent(tx, parent);
      if o == Done {
        ProgressNext(tx.text, start, a, tx.patch.store.Live(), tx.minor, tx.patch.store.root, first, all, parent, t, cells, parents[..i]);
        MoreElements(parents, i);
        MinusTwo(all, Elements(parents[..i]), parent);
        RobedThen(start, live, tx.patch.store.Live(), tx.patch.keys);
      }
      i := i + 1;
    }
    if o == Done {
      assert parents[..|parents|] == parents;
      NonePending(tx.text, tx.patch.store.Live(), tx.patch.keys, tx.nodes, tx.children, tx.batches, all, parents);
      ProgressEnd(tx.text, start, tx.patch.store.Live(), tx.patch.keys, first, tx.nodes, parents);
      if tx.Open() { OpenAtRest(tx.text, tx.patch.store.Live(), tx.patch.keys, tx.nodes, tx.batches, all, parents); }
      AllOf(parents, all);
      tx.batches := map[];
    }
  }

  /** What has been reached when some parents are done. */
  ghost predicate Progress(x: Text, start: Live, live: Live, keys: set<nat>, first: map<nat, Node>, nodes: map<nat, Node>, done: seq<nat>) {
    && (forall k :: k in done ==> Published(x, live, nodes, k))
    && (forall k :: k in keys ==> NameOf(x, live, k) == NameOf(x, start, k))
    && first.Keys == nodes.Keys && (forall k :: k in first && k !in done ==> nodes[k] == first[k])
  }

  lemma ProgressStart(x: Text, live: Live, keys: set<nat>, nodes: map<nat, Node>, parents: seq<nat>, all: map<nat, Batch>)
    ensures Progress(x, live, live, keys, nodes, nodes, parents[..0]) && all - Elements(parents[..0]) == all && Robed(live, live, keys)
  {
    hide Published, NameOf, DescOf;
    assert parents[..0] == [];
    NoElements();
  }

  lemma NextNode(x: Text, start: Live, live: Live, keys: set<nat>, first: map<nat, Node>, nodes: map<nat, Node>, done: seq<nat>, k: nat)
    requires Progress(x, start, live, keys, first, nodes, done) && k in nodes && k !in done
    ensures k in first && nodes[k] == first[k]
  {
    hide Published, NameOf;
  }

  lemma ProgressNext(x: Text, start: Live, a: State, m: Live, minor: nat, root: nat, first: map<nat, Node>, all: map<nat, Batch>, k: nat,
                     t: IndexTree, cells: seq<nat>, done: seq<nat>)
    requires Progress(x, start, a.live, a.keys, first, a.nodes, done) && a.batches == all - Elements(done)
    requires Owns(a.live, minor, a.ring, a.keys, a.nodes) && Family(root, a.keys, a.children, a.parents)
             && Pending(x, a.live, a.keys, a.nodes, a.children, a.batches) && k in a.keys && k in a.nodes && k in a.batches && k in a.children
    requires Swapped(a.live, m, k, IndexCells(a.nodes[k]), Cells(t)) && Records(a.live, m, x, k, cells, t.cell)
    requires Holds(m, t) && Listed(m, t) == cells && Sorted(x, a.live, cells) && Distinct(cells) && Elements(cells) == a.children[k]
    ensures Progress(x, start, m, a.keys, first, a.nodes[k := Reindexed(a.nodes[k], t, |cells|)], done + [k])
  {
    hide Owns, Family, Pending, Swapped, Records, NameOf, Cells, IndexCells, Published, Holds, Listed, Sorted, Distinct, Reindexed;
    CommittedNames(x, a.live, m, minor, a.ring, a.keys, a.nodes, k, t, cells);
    PublishOne(x, a, m, minor, root, k, t, cells, done);
  }

  lemma ProgressEnd(x: Text, start: Live, live: Live, keys: set<nat>, first: map<nat, Node>, nodes: map<nat, Node>, done: seq<nat>)
    requires Progress(x, start, live, keys, first, nodes, done)
    ensures forall k :: k in done ==> Published(x, live, nodes, k)
    ensures forall k :: k in keys ==> NameOf(x, live, k) == NameOf(x, start, k)
  {
    hide Published, NameOf;
  }

  lemma RobedThen(a: Live, b: Live, c: Live, keys: set<nat>)
    requires Robed(a, b, keys) && Robed(b, c, keys)
    ensures Robed(a, c, keys)
  {
    hide DescOf;
  }

  /** When every changed list is stored, every list can be loaded. */
  lemma OpenAtRest(x: Text, live: Live, keys: set<nat>, nodes: map<nat, Node>, batches: map<nat, Batch>, all: map<nat, Batch>,
                   parents: seq<nat>)
    requires Opened(x, live, keys, nodes, batches) && batches == all - Elements(parents) && Elements(parents) == Dirty(all)
    ensures Opened(x, live, keys, nodes, map[])
  {
    hide Walks, Loadable, Elements;
  }

  lemma AllOf(parents: seq<nat>, all: map<nat, Batch>)
    requires Elements(parents) == Dirty(all)
    ensures forall k :: k in Dirty(all) ==> exists j :: 0 <= j < |parents| && parents[j] == k
  {
    forall k | k in Dirty(all) ensures exists j :: 0 <= j < |parents| && parents[j] == k { assert k in parents; }
  }

  lemma NoElements()
    ensures Elements<nat>([]) == {}
  {
  }

  lemma MoreElements(s: seq<nat>, i: nat)
    requires i < |s|
    ensures Elements(s[..i + 1]) == Elements(s[..i]) + {s[i]} && s[..i + 1] == s[..i] + [s[i]]
  {
    ElementsCat(s[..i], [s[i]]);
    OneElement(s[i]);
    assert s[..i + 1] == s[..i] + [s[i]];
  }

  lemma MinusTwo(m: map<nat, Batch>, a: set<nat>, p: nat)
    ensures m - a - {p} == m - (a + {p})
  {
  }

  lemma NextParent(x: Text, live: Live, keys: set<nat>, nodes: map<nat, Node>, children: map<nat, set<nat>>, all: map<nat, Batch>,
                   batches: map<nat, Batch>, parents: seq<nat>, i: nat)
    requires Pending(x, live, keys, nodes, children, batches) && i < |parents| && batches == all - Elements(parents[..i]) && Rising(parents)
             && Elements(parents) == Dirty(all)
    ensures var p := parents[i];
            && p in batches && p in all && batches[p] == all[p] && p in nodes && p in keys && p in Dirty(all) && p !in parents[..i]
            && Cost(all, parents[i..]) == 0x2200 * Leaves(|all[p].cells|) + 0x2200 + Cost(all, parents[i + 1..])
  {
    hide Clean, BatchOk, Leaves;
    var p := parents[i];
    assert p in Elements(parents);
    assert p !in parents[..i];
    assert parents[i..][0] == p && parents[i..][1..] == parents[i + 1..];
  }

  lemma CommittedNames(x: Text, live: Live, m: Live, minor: nat, ring: seq<nat>, keys: set<nat>, nodes: map<nat, Node>, k: nat,
                       t: IndexTree, cells: seq<nat>)
    requires Owns(live, minor, ring, keys, nodes) && k in keys && k in nodes && Swapped(live, m, k, IndexCells(nodes[k]), Cells(t))
             && Records(live, m, x, k, cells, t.cell)
    ensures forall c :: c in keys ==> NameOf(x, m, c) == NameOf(x, live, c) && Folded(x, m, c) == Folded(x, live, c)
  {
    hide Owns, Swapped, Records, NameOf, Folded, Cells, IndexCells, Resembles, U32;
    RecordFacts(live, m, x, k, cells, t.cell);
    forall c | c in keys ensures NameOf(x, m, c) == NameOf(x, live, c) && Folded(x, m, c) == Folded(x, live, c) {
      SwapName(x, live, m, minor, ring, keys, nodes, k, t, c);
    }
  }

  lemma SortedFrame(x: Text, live: Live, m: Live, cells: seq<nat>)
    requires forall c :: c in cells ==> NameOf(x, m, c) == NameOf(x, live, c) && Folded(x, m, c) == Folded(x, live, c)
    ensures Sorted(x, live, cells) ==> Sorted(x, m, cells)
    ensures FoldDistinct(x, live, cells) ==> FoldDistinct(x, m, cells)
  {
    hide NameOf, Folded, Before;
    assert forall i :: 0 <= i < |cells| ==> cells[i] in cells;
  }

  lemma PublishOne(x: Text, a: State, m: Live, minor: nat, root: nat, k: nat, t: IndexTree, cells: seq<nat>, done: seq<nat>)
    requires Owns(a.live, minor, a.ring, a.keys, a.nodes) && Family(root, a.keys, a.children, a.parents)
             && Pending(x, a.live, a.keys, a.nodes, a.children, a.batches) && k in a.keys && k in a.nodes && k in a.batches && k in a.children
    requires Swapped(a.live, m, k, IndexCells(a.nodes[k]), Cells(t)) && Records(a.live, m, x, k, cells, t.cell)
    requires Holds(m, t) && Listed(m, t) == cells && Sorted(x, a.live, cells) && Distinct(cells) && Elements(cells) == a.children[k]
    requires forall j :: j in done ==> Published(x, a.live, a.nodes, j) && j !in a.batches
    ensures forall j :: j in done + [k] ==> Published(x, m, a.nodes[k := Reindexed(a.nodes[k], t, |cells|)], j)
  {
    hide Owns, Family, Pending, Swapped, Records, NameOf, Folded, Cells, IndexCells, Published, Holds, Listed, Sorted, Elements, Distinct,
         Reindexed, Resembles;
    CommittedNames(x, a.live, m, minor, a.ring, a.keys, a.nodes, k, t, cells);
    PublishThis(x, a, m, root, k, t, cells);
    forall j | j in done ensures Published(x, m, a.nodes[k := Reindexed(a.nodes[k], t, |cells|)], j) {
      PublishStays(x, a, m, minor, root, k, t, cells, j);
    }
  }

  lemma PublishThis(x: Text, a: State, m: Live, root: nat, k: nat, t: IndexTree, cells: seq<nat>)
    requires Family(root, a.keys, a.children, a.parents) && Pending(x, a.live, a.keys, a.nodes, a.children, a.batches) && k in a.keys
             && k in a.nodes
             && k in a.batches && k in a.children
    requires Holds(m, t) && Listed(m, t) == cells && Sorted(x, a.live, cells) && Distinct(cells) && Elements(cells) == a.children[k]
    requires forall c :: c in a.keys ==> NameOf(x, m, c) == NameOf(x, a.live, c) && Folded(x, m, c) == Folded(x, a.live, c)
    ensures Published(x, m, a.nodes[k := Reindexed(a.nodes[k], t, |cells|)], k)
  {
    hide Family, Pending, NameOf, Folded, Holds, Listed, Sorted;
    BatchAt(x, a.live, a.keys, a.nodes, a.children, a.batches, k);
    forall c | c in cells ensures c in a.keys && c in a.children[k] { FamilyAt(root, a.keys, a.children, a.parents, k, c); }
    forall i, j | 0 <= i < j < |cells| ensures Folded(x, a.live, cells[i]) != Folded(x, a.live, cells[j]) {
      assert cells[i] in cells && cells[j] in cells;
    }
    SortedFrame(x, a.live, m, cells);
  }

  lemma PublishStays(x: Text, a: State, m: Live, minor: nat, root: nat, k: nat, t: IndexTree, cells: seq<nat>, j: nat)
    requires Owns(a.live, minor, a.ring, a.keys, a.nodes) && Family(root, a.keys, a.children, a.parents)
             && Pending(x, a.live, a.keys, a.nodes, a.children, a.batches) && k in a.keys && k in a.nodes
    requires Swapped(a.live, m, k, IndexCells(a.nodes[k]), Cells(t)) && Published(x, a.live, a.nodes, j) && j !in a.batches && j != k
    requires forall c :: c in a.keys ==> NameOf(x, m, c) == NameOf(x, a.live, c) && Folded(x, m, c) == Folded(x, a.live, c)
    ensures Published(x, m, a.nodes[k := Reindexed(a.nodes[k], t, |cells|)], j)
  {
    hide Owns, Family, Pending, Swapped, NameOf, Folded, Cells, IndexCells, Holds, Listed, Sorted, Elements, Distinct, Reindexed, Named,
         U32;
    NodesAreKeys(x, a.live, a.keys, a.nodes, a.children, a.batches);
    OpenClean(x, a, minor, root, j);
    SwapStored(a.live, m, minor, a.ring, a.keys, a.nodes, k, t, j);
    SortedFrame(x, a.live, m, StoredChildren(a.live, a.nodes[j]));
  }

  lemma NodesAreKeys(x: Text, live: Live, keys: set<nat>, nodes: map<nat, Node>, children: map<nat, set<nat>>, batches: map<nat, Batch>)
    requires Pending(x, live, keys, nodes, children, batches)
    ensures nodes.Keys == keys
  {
    hide BatchOk, Clean;
  }

  lemma SwapStored(live: Live, m: Live, minor: nat, ring: seq<nat>, keys: set<nat>, nodes: map<nat, Node>, k: nat, t: IndexTree, j: nat)
    requires Owns(live, minor, ring, keys, nodes) && k in keys && k in nodes && Swapped(live, m, k, IndexCells(nodes[k]), Cells(t))
             && j in keys && j != k && j in nodes
    ensures nodes[j].index.Some? ==> Holds(live, nodes[j].index.value) && Holds(m, nodes[j].index.value)
    ensures (nodes[j].index.Some? ==> Holds(live, nodes[j].index.value)) && StoredChildren(m, nodes[j]) == StoredChildren(live, nodes[j])
  {
    hide NodeHolds, Owned, Distinct, U32, U16, Elements, Holds, Listed, Cells, IndexCells, Named;
    OwnsAt(live, minor, ring, keys, nodes, k);
    OwnsAt(live, minor, ring, keys, nodes, j);
    NodeLive(live, minor, j, nodes[j]);
    IndexOwned(nodes[k]);
    AlikeItself(live[j]);
    NodeKept(live, m, minor, j, nodes[j]);
    IndexThere(live, minor, j, nodes[j]);
    IndexThere(m, minor, j, nodes[j]);
  }

  lemma NonePending(x: Text, live: Live, keys: set<nat>, nodes: map<nat, Node>, children: map<nat, set<nat>>, batches: map<nat, Batch>,
                    all: map<nat, Batch>, parents: seq<nat>)
    requires Pending(x, live, keys, nodes, children, batches) && batches == all - Elements(parents) && Elements(parents) == Dirty(all)
    ensures Pending(x, live, keys, nodes, children, map[])
    ensures forall k :: k in keys ==> k in nodes && k in children && Clean(live, k, nodes[k], children[k])
    ensures forall k :: k in Dirty(all) ==> k in parents
  {
    hide Clean, BatchOk;
  }
}
