/** Removing a key with everything its stored indexes list below it. */
module SubtreeRemoval {
  import opened Bytes
  import opened HiveLayout
  import opened HiveImage
  import opened MutableHive
  import opened SecurityRing
  import opened SubkeyIndex
  import opened HivePatch
  import opened KeyDeletion
  import opened HiveBatch

  // ----- a stored subtree

  /** A tree of keys as their stored indexes list them. */
  ghost predicate Spans(live: Live, nodes: map<nat, Node>, t: KeyTree) {
    && t.cell in nodes && t.node == nodes[t.cell] && (t.node.index.Some? ==> Holds(live, t.node.index.value))
    && StoredChildren(live, t.node) == KeyRoots(t.kids) && SpansAll(live, nodes, t.kids)
  }

  ghost predicate SpansAll(live: Live, nodes: map<nat, Node>, f: Keys) {
    match f
    case NoKey => true
    case AndKey(t, g) => Spans(live, nodes, t) && SpansAll(live, nodes, g)
  }

  /** A stored subtree of keys, none of them twice. */
  ghost predicate Walk(live: Live, nodes: map<nat, Node>, keys: set<nat>, t: KeyTree) {
    Spans(live, nodes, t) && Distinct(KeyCells(t)) && forall k :: k in KeyCells(t) ==> k in keys
  }

  ghost predicate WalkAll(live: Live, nodes: map<nat, Node>, keys: set<nat>, f: Keys) {
    SpansAll(live, nodes, f) && Distinct(KeyCellsAll(f)) && forall k :: k in KeyCellsAll(f) ==> k in keys
  }

  /** What is stored determines the subtree. */
  lemma {:induction false} SpansUnique(live: Live, nodes: map<nat, Node>, t: KeyTree, u: KeyTree)
    requires Spans(live, nodes, t) && Spans(live, nodes, u) && t.cell == u.cell
    ensures t == u
  {
    hide Holds, Listed;
    SpansAllUnique(live, nodes, t.kids, u.kids);
  }

  lemma {:induction false} SpansAllUnique(live: Live, nodes: map<nat, Node>, f: Keys, g: Keys)
    requires SpansAll(live, nodes, f) && SpansAll(live, nodes, g) && KeyRoots(f) == KeyRoots(g)
    ensures f == g
  {
    hide Spans;
    if f.AndKey? && g.AndKey? {
      assert f.head.cell == KeyRoots(f)[0] && g.head.cell == KeyRoots(g)[0];
      assert KeyRoots(f.tail) == KeyRoots(f)[1..] && KeyRoots(g.tail) == KeyRoots(g)[1..];
      SpansUnique(live, nodes, f.head, g.head);
      SpansAllUnique(live, nodes, f.tail, g.tail);
    }
  }

  /** Keys and what they own are the same. */
  ghost predicate Same(live: Live, m: Live, keys: set<nat>, nodes: map<nat, Node>) {
    forall k, c :: k in keys && k in nodes && c in Owned(nodes[k]) + [k] ==> c in live && c in m && m[c] == live[c]
  }

  lemma IndexSame(live: Live, m: Live, keys: set<nat>, nodes: map<nat, Node>, k: nat)
    requires Same(live, m, keys, nodes) && k in keys && k in nodes && nodes[k].index.Some? && Holds(live, nodes[k].index.value)
    ensures Holds(m, nodes[k].index.value) && Listed(m, nodes[k].index.value) == Listed(live, nodes[k].index.value)
  {
    hide Holds, Listed, Owned, Cells;
    IndexInside(nodes[k]);
    assert forall c :: c in Cells(nodes[k].index.value) ==> c in Owned(nodes[k]) + [k];
    Frame(live, m, nodes[k].index.value);
  }

  lemma IndexInside(n: Node)
    ensures n.index.Some? ==> forall c :: c in Cells(n.index.value) ==> c in Owned(n)
  {
    hide Cells, ListedValues, ClassCell;
  }

  lemma {:induction false} SpansSame(live: Live, m: Live, keys: set<nat>, nodes: map<nat, Node>, t: KeyTree)
    requires Same(live, m, keys, nodes) && Spans(live, nodes, t) && forall k :: k in KeyCells(t) ==> k in keys
    ensures Spans(m, nodes, t)
  {
    hide Holds, Listed, Same;
    assert t.cell in KeyCells(t);
    assert forall k :: k in KeyCellsAll(t.kids) ==> k in KeyCells(t);
    if t.node.index.Some? { IndexSame(live, m, keys, nodes, t.cell); }
    SpansAllSame(live, m, keys, nodes, t.kids);
  }

  lemma {:induction false} SpansAllSame(live: Live, m: Live, keys: set<nat>, nodes: map<nat, Node>, f: Keys)
    requires Same(live, m, keys, nodes) && SpansAll(live, nodes, f) && forall k :: k in KeyCellsAll(f) ==> k in keys
    ensures SpansAll(m, nodes, f)
  {
    hide Spans, Same;
    if f.AndKey? {
      assert forall k :: k in KeyCells(f.head) || k in KeyCellsAll(f.tail) ==> k in KeyCellsAll(f);
      SpansSame(live, m, keys, nodes, f.head);
      SpansAllSame(live, m, keys, nodes, f.tail);
    }
  }

  lemma {:induction false} PlainSame(live: Live, m: Live, keys: set<nat>, nodes: map<nat, Node>, t: KeyTree)
    requires Same(live, m, keys, nodes) && Plain(live, t) && keys <= nodes.Keys && forall k :: k in KeyCells(t) ==> k in keys
    ensures Plain(m, t)
  {
    hide Room, U32, Owned, IsKey;
    assert t.cell in KeyCells(t) && t.cell in Owned(nodes[t.cell]) + [t.cell];
    assert forall k :: k in KeyCellsAll(t.kids) ==> k in KeyCells(t);
    PlainAllSame(live, m, keys, nodes, t.kids);
  }

  lemma {:induction false} PlainAllSame(live: Live, m: Live, keys: set<nat>, nodes: map<nat, Node>, f: Keys)
    requires Same(live, m, keys, nodes) && PlainAll(live, f) && keys <= nodes.Keys && forall k :: k in KeyCellsAll(f) ==> k in keys
    ensures PlainAll(m, f)
  {
    hide Plain, Same;
    if f.AndKey? {
      assert forall k :: k in KeyCells(f.head) || k in KeyCellsAll(f.tail) ==> k in KeyCellsAll(f);
      PlainSame(live, m, keys, nodes, f.head);
      PlainAllSame(live, m, keys, nodes, f.tail);
    }
  }

  lemma SameBack(live: Live, m: Live, keys: set<nat>, nodes: map<nat, Node>)
    requires Same(live, m, keys, nodes)
    ensures Same(m, live, keys, nodes)
  {
  }

  // ----- whose cells they are

  /** Each cell of a list is one of some keys or owned by one of them. */
  ghost predicate Sourced(nodes: map<nat, Node>, all: seq<nat>, mine: seq<nat>) {
    forall c :: c in all ==> c in mine || exists k :: k in mine && k in nodes && c in Owned(nodes[k])
  }

  lemma {:induction false} SourcedKey(live: Live, nodes: map<nat, Node>, t: KeyTree)
    requires Spans(live, nodes, t)
    ensures Sourced(nodes, All(t), KeyCells(t))
  {
    hide Owned, Holds, Listed;
    SourcedKeys(live, nodes, t.kids);
    assert t.cell in KeyCells(t);
    forall c | c in All(t) ensures c in KeyCells(t) || exists k :: k in KeyCells(t) && k in nodes && c in Owned(nodes[k]) {
      if c in AllAll(t.kids) && c !in KeyCellsAll(t.kids) {
        var k :| k in KeyCellsAll(t.kids) && k in nodes && c in Owned(nodes[k]);
        assert k in KeyCells(t);
      }
    }
  }

  lemma {:induction false} SourcedKeys(live: Live, nodes: map<nat, Node>, f: Keys)
    requires SpansAll(live, nodes, f)
    ensures Sourced(nodes, AllAll(f), KeyCellsAll(f))
  {
    hide Owned, Holds, Listed, All, KeyCells;
    if f.AndKey? {
      SourcedKey(live, nodes, f.head);
      SourcedKeys(live, nodes, f.tail);
      forall c | c in AllAll(f) ensures c in KeyCellsAll(f) || exists k :: k in KeyCellsAll(f) && k in nodes && c in Owned(nodes[k]) {
        var mine := if c in All(f.head) then KeyCells(f.head) else KeyCellsAll(f.tail);
        assert forall k :: k in mine ==> k in KeyCellsAll(f);
        if c !in mine {
          var k :| k in mine && k in nodes && c in Owned(nodes[k]);
          assert k in KeyCellsAll(f);
        }
      }
    }
  }

  /** What belongs to some keys does not belong to others. */
  lemma OtherKeys(live: Live, minor: nat, ring: seq<nat>, keys: set<nat>, nodes: map<nat, Node>, all: seq<nat>, mine: seq<nat>, k: nat)
    requires Owns(live, minor, ring, keys, nodes) && Sourced(nodes, all, mine) && (forall j :: j in mine ==> j in keys) && k in keys
             && k !in mine
    ensures k in nodes && forall c :: c in Owned(nodes[k]) + [k] ==> c !in all
  {
    hide Owned, NodeHolds, Distinct, Named;
    assert Proper(live, minor, ring, keys, k, nodes[k]);
    forall c | c in Owned(nodes[k]) + [k] ensures c !in all {
      forall j | j in mine && j in nodes ensures c !in Owned(nodes[j]) && c != j {
        assert Proper(live, minor, ring, keys, j, nodes[j]);
      }
    }
  }

  /** The keys with all they own, and lists that name nothing strange. */
  ghost predicate Estate(starts: set<nat>, live: Live, minor: nat, ring: seq<nat>, keys: set<nat>, nodes: map<nat, Node>) {
    Owns(live, minor, ring, keys, nodes) && Traced(starts, live, keys, nodes)
  }

  /** When some keys are gone with all they own, the others are as they were. */
  lemma LeftSame(live: Live, m: Live, minor: nat, ring: seq<nat>, rest: seq<nat>, keys: set<nat>, nodes: map<nat, Node>, all: seq<nat>,
                 mine: seq<nat>)
    requires Owns(live, minor, ring, keys, nodes) && Sound(live, ring, keys, NONE) && Sourced(nodes, all, mine)
             && (forall j :: j in mine ==> j in keys)
    requires After(live, m, ring, rest, Elements(all))
    ensures Same(live, m, keys - Elements(mine), nodes)
  {
    hide NodeHolds, Owned, Distinct, Named, Sound, SameText, Sourced, Owns;
    KeyFacts(live, ring, keys);
    forall k, c | k in keys - Elements(mine) && k in nodes && c in Owned(nodes[k]) + [k] ensures c in live && c in m && m[c] == live[c] {
      OwnsAt(live, minor, ring, keys, nodes, k);
      OwnsApart(live, minor, ring, keys, nodes, k);
      NodeLive(live, minor, k, nodes[k]);
      OtherKeys(live, minor, ring, keys, nodes, all, mine, k);
    }
  }

  lemma LeftEstate(starts: set<nat>, wider: set<nat>, live: Live, m: Live, minor: nat, ring: seq<nat>, rest: seq<nat>, keys: set<nat>,
                   nodes: map<nat, Node>, all: seq<nat>, mine: seq<nat>)
    requires Estate(starts, live, minor, ring, keys, nodes) && Sound(live, ring, keys, NONE) && Sourced(nodes, all, mine)
    requires (forall j :: j in mine ==> j in keys && j in all) && After(live, m, ring, rest, Elements(all)) && starts <= wider
    ensures Estate(wider, m, minor, rest, keys - Elements(mine), nodes) && Same(live, m, keys - Elements(mine), nodes)
  {
    hide NodeHolds, Owned, Distinct, Named, Sound, SameText, Sourced, Owns, Traced, After, Same, Tracks;
    LeftSame(live, m, minor, ring, rest, keys, nodes, all, mine);
    LeftOwns(live, m, minor, ring, rest, keys, nodes, all, mine);
    LeftTraced(starts, wider, live, m, minor, ring, rest, keys, nodes, all, mine);
  }

  lemma LeftOwns(live: Live, m: Live, minor: nat, ring: seq<nat>, rest: seq<nat>, keys: set<nat>, nodes: map<nat, Node>, all: seq<nat>,
                 mine: seq<nat>)
    requires Owns(live, minor, ring, keys, nodes) && After(live, m, ring, rest, Elements(all))
             && Same(live, m, keys - Elements(mine), nodes)
    ensures Owns(m, minor, rest, keys - Elements(mine), nodes)
  {
    hide NodeHolds, Owned, Distinct, Named, SameText;
    forall k | k in keys - Elements(mine) ensures Proper(m, minor, rest, keys - Elements(mine), k, nodes[k]) {
      OwnsAt(live, minor, ring, keys, nodes, k);
      assert k in Owned(nodes[k]) + [k];
      assert forall c :: c in Owned(nodes[k]) ==> c in Owned(nodes[k]) + [k];
      AlikeItself(live[k]);
      NodeKept(live, m, minor, k, nodes[k]);
    }
  }

  lemma LeftTraced(starts: set<nat>, wider: set<nat>, live: Live, m: Live, minor: nat, ring: seq<nat>, rest: seq<nat>, keys: set<nat>,
                   nodes: map<nat, Node>, all: seq<nat>, mine: seq<nat>)
    requires Owns(live, minor, ring, keys, nodes) && Traced(starts, live, keys, nodes) && After(live, m, ring, rest, Elements(all))
             && Same(live, m, keys - Elements(mine), nodes)
    requires starts <= wider && forall j :: j in mine ==> j in all
    ensures Traced(wider, m, keys - Elements(mine), nodes)
  {
    hide NodeHolds, Owned, Distinct, Named, Owns, Holds, Listed, Same, IsKey;
    forall k | k in keys - Elements(mine) && k in nodes ensures Tracks(wider, m, keys - Elements(mine), nodes[k]) {
      OwnsAt(live, minor, ring, keys, nodes, k);
      IndexThere(live, minor, k, nodes[k]);
      if nodes[k].index.Some? {
        IndexSame(live, m, keys - Elements(mine), nodes, k);
        assert Tracks(starts, live, keys, nodes[k]);
        forall e | e in Listed(m, nodes[k].index.value) && e in m && IsKey(m[e])
            ensures e in keys - Elements(mine) { if e in ring { NotBoth(m[e]); } }
      }
    }
  }

  // ----- forests

  function Append(f: Keys, t: KeyTree): Keys {
    match f
    case NoKey => AndKey(t, NoKey)
    case AndKey(h, g) => AndKey(h, Append(g, t))
  }

  lemma {:induction false} AppendFacts(f: Keys, t: KeyTree)
    ensures Append(f, t).AndKey? && KeyRoots(Append(f, t)) == KeyRoots(f) + [t.cell]
    ensures KeyCellsAll(Append(f, t)) == KeyCellsAll(f) + KeyCells(t) && AllAll(Append(f, t)) == AllAll(f) + All(t)
    ensures KeyHeightAll(Append(f, t)) == if KeyHeightAll(f) < KeyHeight(t) then KeyHeight(t) else KeyHeightAll(f)
  {
    hide KeyCells, All, KeyHeight;
    if f.AndKey? {
      AppendFacts(f.tail, t);
    } else {
      assert KeyCells(t) + [] == KeyCells(t) && All(t) + [] == All(t);
    }
  }

  lemma {:induction false} AppendSpans(live: Live, nodes: map<nat, Node>, f: Keys, t: KeyTree)
    requires SpansAll(live, nodes, f) && Spans(live, nodes, t)
    ensures SpansAll(live, nodes, Append(f, t))
  {
    hide Spans;
    if f.AndKey? { AppendSpans(live, nodes, f.tail, t); }
  }

  lemma {:induction false} AppendPlain(live: Live, f: Keys, t: KeyTree)
    requires PlainAll(live, f) && Plain(live, t)
    ensures PlainAll(live, Append(f, t))
  {
    hide Plain;
    if f.AndKey? { AppendPlain(live, f.tail, t); }
  }

  /** What a removal of a stored subtree did. */
  ghost predicate Removed(live: Live, m: Live, nodes: map<nat, Node>, ring: seq<nat>, rest: seq<nat>, keys: set<nat>, left: set<nat>,
                          t: KeyTree) {
    Walk(live, nodes, keys, t) && left == keys - Elements(KeyCells(t)) && After(live, m, ring, rest, Elements(All(t)))
  }

  ghost predicate RemovedAll(live: Live, m: Live, nodes: map<nat, Node>, ring: seq<nat>, rest: seq<nat>, keys: set<nat>, left: set<nat>,
                          f: Keys) {
    WalkAll(live, nodes, keys, f) && left == keys - Elements(KeyCellsAll(f)) && After(live, m, ring, rest, Elements(AllAll(f)))
  }

  /** A subtree that a removal with these limits gets through. */
  ghost predicate Good(live: Live, nodes: map<nat, Node>, keys: set<nat>, t: KeyTree, cell: nat, depth: nat, seen: set<nat>) {
    t.cell == cell && Walk(live, nodes, keys, t) && KeyRoom(live, t, depth, seen)
  }

  ghost predicate GoodAll(live: Live, nodes: map<nat, Node>, keys: set<nat>, f: Keys, cells: seq<nat>, depth: nat, seen: set<nat>) {
    KeyRoots(f) == cells && WalkAll(live, nodes, keys, f) && KeyRoomAll(live, f, depth, seen)
  }

  /** When a subtree is good: its top is within the limits, and so is what is below. */
  lemma GoodOpen(live: Live, nodes: map<nat, Node>, keys: set<nat>, t: KeyTree, cell: nat, depth: nat, seen: set<nat>)
    requires cell in keys && cell in nodes && cell in live && IsKey(live[cell])
             && (nodes[cell].index.Some? ==> Holds(live, nodes[cell].index.value))
    ensures Good(live, nodes, keys, t, cell, depth, seen) <==>
              && t.cell == cell && t.node == nodes[cell] && depth <= 512 && |seen| < 0x10_0000 && cell !in seen
                  && U32(live[cell], 0x18) == 0 && Walks(nodes[cell])
              && GoodAll(live, nodes, keys, t.kids, StoredAt(live, nodes, cell), depth + 1, seen + {cell})
  {
    hide Holds, Listed, U32, Room, SpansAll, PlainAll, KeyCellsAll, KeyHeightAll, Distinct;
    NoKeys(t.kids);
    assert KeyCells(t) == KeyCellsAll(t.kids) + [t.cell];
    if Good(live, nodes, keys, t, cell, depth, seen) {
      DistinctParts(KeyCellsAll(t.kids), [t.cell]);
      assert t.cell in [t.cell] && t.cell in KeyCells(t);
      assert |seen + {cell}| == |seen| + 1;
    }
    if t.cell == cell && cell !in seen && GoodAll(live, nodes, keys, t.kids, StoredAt(live, nodes, cell), depth + 1, seen + {cell}) {
      OneDistinct(t.cell);
      DistinctCat(KeyCellsAll(t.kids), [t.cell]);
    }
  }

  lemma OneDistinct(c: nat)
    ensures Distinct([c])
  {
  }

  lemma NoKeys(f: Keys)
    ensures f.NoKey? ==> KeyCellsAll(f) == [] && KeyHeightAll(f) == 0 && KeyRoots(f) == []
    ensures KeyRoots(f) == [] ==> f.NoKey?
  {
  }

  /** One more subtree removed. */
  lemma RemovedStep(live: Live, m: Live, l: Live, nodes: map<nat, Node>, ring: seq<nat>, turn: seq<nat>, rest: seq<nat>, keys: set<nat>,
                    some: set<nat>, left: set<nat>, f: Keys, t: KeyTree)
    requires RemovedAll(live, m, nodes, ring, turn, keys, some, f) && Removed(m, l, nodes, turn, rest, some, left, t)
             && Same(live, m, some, nodes)
    ensures RemovedAll(live, l, nodes, ring, rest, keys, left, Append(f, t))
  {
    hide SpansAll, Spans, KeyCells, KeyCellsAll, All, AllAll, After, Same, Distinct;
    AppendFacts(f, t);
    ElementsCat(KeyCellsAll(f), KeyCells(t));
    ElementsCat(AllAll(f), All(t));
    SameBack(live, m, some, nodes);
    SpansSame(m, live, some, nodes, t);
    AppendSpans(live, nodes, f, t);
    assert forall k :: k in KeyCellsAll(f) ==> k in Elements(KeyCellsAll(f));
    DistinctCat(KeyCellsAll(f), KeyCells(t));
    AfterThen(live, m, l, ring, turn, rest, Elements(AllAll(f)), Elements(All(t)));
  }

  lemma RoomStep(live: Live, m: Live, nodes: map<nat, Node>, some: set<nat>, f: Keys, t: KeyTree, depth: nat, seen: set<nat>)
    requires KeyRoomAll(live, f, depth, seen) && KeyRoom(m, t, depth, seen + Elements(KeyCellsAll(f))) && Same(live, m, some, nodes)
             && some <= nodes.Keys
    requires Distinct(KeyCellsAll(f)) && forall k :: k in KeyCells(t) ==> k in some
    ensures KeyRoomAll(live, Append(f, t), depth, seen)
  {
    hide KeyCells, KeyCellsAll, Same, Distinct, Plain, PlainAll, KeyHeight, KeyHeightAll;
    AppendFacts(f, t);
    VisitExact(seen, KeyCellsAll(f));
    SameBack(live, m, some, nodes);
    PlainSame(m, live, some, nodes, t);
    AppendPlain(live, f, t);
    EmptyHeight(f, t);
  }

  lemma EmptyHeight(f: Keys, t: KeyTree)
    ensures f.NoKey? ==> KeyHeightAll(f) == 0
  {
  }

  /** What was hoped for, once the first subtree is gone. */
  lemma HopeStep(live: Live, l: Live, nodes: map<nat, Node>, ring: seq<nat>, rest: seq<nat>, keys: set<nat>, left: set<nat>, f: Keys,
                 cells: seq<nat>, t: KeyTree, depth: nat, seen: set<nat>)
    requires GoodAll(live, nodes, keys, f, cells, depth, seen) && cells != [] && Removed(live, l, nodes, ring, rest, keys, left, t)
             && t.cell == cells[0]
    requires Same(live, l, left, nodes) && keys <= nodes.Keys
    ensures f.AndKey? && t == f.head && GoodAll(l, nodes, left, f.tail, cells[1..], depth, seen + Elements(KeyCells(t)))
  {
    hide Spans, KeyCells, After, Same, Distinct, Plain, All, AllAll;
    NoKeys(f);
    SpansUnique(live, nodes, t, f.head);
    assert KeyCellsAll(f) == KeyCells(t) + KeyCellsAll(f.tail);
    DistinctParts(KeyCells(t), KeyCellsAll(f.tail));
    assert forall k :: k in KeyCellsAll(f.tail) ==> k in KeyCellsAll(f);
    VisitExact(seen, KeyCells(t));
    SpansAllSame(live, l, left, nodes, f.tail);
    PlainAllSame(live, l, left, nodes, f.tail);
  }

  lemma HopeHead(live: Live, nodes: map<nat, Node>, keys: set<nat>, f: Keys, cells: seq<nat>, depth: nat, seen: set<nat>)
    requires GoodAll(live, nodes, keys, f, cells, depth, seen) && cells != []
    ensures f.AndKey? && Good(live, nodes, keys, f.head, cells[0], depth, seen)
  {
    hide Spans, KeyCells, Distinct, Plain;
    NoKeys(f);
    assert KeyCellsAll(f) == KeyCells(f.head) + KeyCellsAll(f.tail);
    DistinctParts(KeyCells(f.head), KeyCellsAll(f.tail));
  }

  // ----- the removal

  /** Deletes a key with everything its stored index lists below it. It succeeds exactly when what is stored
    * there is a tree of keys within the limits. */
  method RemoveKey(p: Patch, minor: nat, cell: nat, seen: set<nat>, depth: nat, ghost nodes: map<nat, Node>, ghost hope: KeyTree)
    returns (ok: bool, visited: set<nat>, ghost t: KeyTree)
    requires p.ValidOwing(NONE) && Estate(p.store.Starts(), p.store.Live(), minor, p.ring, p.keys, nodes)
             && (cell in p.keys || cell in seen)
    modifies p`securityCells, p`ring, p`keys, p.store.Repr
    ensures p.store.Valid() && fresh(p.store.Repr - old(p.store.Repr)) && old(p.store.Starts()) <= p.store.Starts()
            && |p.store.data| == |old(p.store.data)|
    ensures ok ==>
              p.ValidOwing(NONE) && Estate(p.store.Starts(), p.store.Live(), minor, p.ring, p.keys, nodes)
              && Same(old(p.store.Live()), p.store.Live(), p.keys, nodes)
    ensures ok ==>
              Removed(old(p.store.Live()), p.store.Live(), nodes, old(p.ring), p.ring, old(p.keys), p.keys, t)
              && visited == seen + Elements(KeyCells(t))
    ensures ok ==> t.cell == cell && Good(old(p.store.Live()), nodes, old(p.keys), t, cell, depth, seen)
    ensures Good(old(p.store.Live()), nodes, old(p.keys), hope, cell, depth, seen) ==> ok
    decreases 513 - depth, 2
  {
    hide Hive.Valid, Hive.Live, Hive.Starts, LE, U32, U16, Sound, Cached, After, SameText, Estate, Removed, RemovedAll, Good, GoodAll,
         KeyCells, Elements, Walks, Patch.ValidOwing, Ready, Same, Emptied, KeyCellsAll;
    visited, ok, t := seen, false, hope;
    ghost var live, ring, keys := p.store.Live(), p.ring, p.keys;
    p.Expand(NONE);
    if Good(live, nodes, keys, hope, cell, depth, seen) { GoodFirst(live, nodes, keys, hope, cell, depth, seen); }
    if depth <= 512 && |seen| < 0x10_0000 && cell !in seen {
      EstateAt(p.store.Starts(), live, minor, ring, keys, nodes, cell);
      GoodOpen(live, nodes, keys, hope, cell, depth, seen);
      visited := visited + {cell};
      var body := p.store.Body(cell);
      if body.Success? && 0x4c <= |body.value| && body.value[..2] == NK && U32(body.value, 0x18) == 0 {
        var key := body.value;
        ghost var f;
        ok, visited, f := RemoveBelow(p, minor, cell, key, visited, depth, nodes, hope.kids);
        if ok {
          t := Key(cell, nodes[cell], f);
          ghost var m, rest, some := p.store.Live(), p.ring, p.keys;
          ok := FinishKey(p, minor, cell, key, nodes[cell]);
          p.Expand(NONE);
          GoodOpen(live, nodes, keys, t, cell, depth, seen);
          WholeKey(old(p.store.Starts()), p.store.Starts(), live, m, p.store.Live(), minor, ring, rest, p.ring, keys, some, p.keys, nodes,
              cell, f, depth, seen);
        }
      }
    }
  }

  lemma GoodFirst(live: Live, nodes: map<nat, Node>, keys: set<nat>, t: KeyTree, cell: nat, depth: nat, seen: set<nat>)
    requires Good(live, nodes, keys, t, cell, depth, seen)
    ensures cell in keys && depth <= 512 && |seen| < 0x10_0000 && cell !in seen
  {
    assert t.cell in KeyCells(t);
  }

  lemma EstateAt(starts: set<nat>, live: Live, minor: nat, ring: seq<nat>, keys: set<nat>, nodes: map<nat, Node>, k: nat)
    requires Estate(starts, live, minor, ring, keys, nodes) && k in keys
    ensures keys <= nodes.Keys && k in live && IsKey(live[k]) && (nodes[k].index.Some? <==> U32(live[k], 0x14) > 0)
    ensures nodes[k].index.Some? ==>
              && Holds(live, nodes[k].index.value) && nodes[k].index.value.cell == U32(live[k], 0x1c)
                  && Distinct(Cells(nodes[k].index.value))
              && |Listed(live, nodes[k].index.value)| == U32(live[k], 0x14) && Started(starts, Listed(live, nodes[k].index.value))
              && forall e :: e in Listed(live, nodes[k].index.value) && e in live && IsKey(live[e]) ==> e in keys
  {
    hide Owns, U32, U16, Distinct, Owned, ValuesHold, ClassHolds, Holds, Listed;
    OwnsDomain(live, minor, ring, keys, nodes);
    OwnsAt(live, minor, ring, keys, nodes, k);
    assert Tracks(starts, live, keys, nodes[k]);
  }

  /** What the removal of the keys below one key and of its index did. */
  ghost predicate Emptied(live: Live, m: Live, nodes: map<nat, Node>, ring: seq<nat>, rest: seq<nat>, keys: set<nat>, left: set<nat>,
                          cell: nat, f: Keys) {
    && WalkAll(live, nodes, keys, f) && left == keys - Elements(KeyCellsAll(f)) && cell in nodes
    && After(live, m, ring, rest, Elements(AllAll(f) + IndexCells(nodes[cell])))
  }

  /** The children, the index and the key itself make the subtree. */
  lemma WholeKey(starts: set<nat>, wider: set<nat>, live: Live, m: Live, l: Live, minor: nat, ring: seq<nat>, turn: seq<nat>,
                 rest: seq<nat>, keys: set<nat>, some: set<nat>, left: set<nat>,
                 nodes: map<nat, Node>, cell: nat, f: Keys, depth: nat, seen: set<nat>)
    requires Estate(starts, live, minor, ring, keys, nodes) && Sound(live, ring, keys, NONE) && starts <= wider && cell in nodes
    requires Emptied(live, m, nodes, ring, turn, keys, some, cell, f)
             && After(m, l, turn, rest, Elements(ListedValues(nodes[cell]) + ClassCell(nodes[cell])) + {cell})
    requires left == some - {cell} && Good(live, nodes, keys, Key(cell, nodes[cell], f), cell, depth, seen)
    ensures Removed(live, l, nodes, ring, rest, keys, left, Key(cell, nodes[cell], f)) && Estate(wider, l, minor, rest, left, nodes)
            && Same(live, l, left, nodes)
    ensures seen + {cell} + Elements(KeyCellsAll(f)) == seen + Elements(KeyCells(Key(cell, nodes[cell], f)))
  {
    hide Sound, After, Estate, KeyCellsAll, AllAll, IndexCells, ListedValues, ClassCell, Spans, Distinct, KeyRoom, SpansAll, Same;
    var n, t := nodes[cell], Key(cell, nodes[cell], f);
    var a, b := AllAll(f) + IndexCells(n), ListedValues(n) + ClassCell(n);
    assert KeyCells(t) == KeyCellsAll(f) + [cell];
    assert All(t) == a + (b + [cell]);
    ElementsCat(KeyCellsAll(f), [cell]);
    ElementsCat(a, b + [cell]);
    ElementsCat(b, [cell]);
    assert Elements([cell]) == {cell};
    AfterThen(live, m, l, ring, turn, rest, Elements(a), Elements(b) + {cell});
    SourcedKey(live, nodes, t);
    KeyOwned(t);
    LeftEstate(starts, wider, live, l, minor, ring, rest, keys, nodes, All(t), KeyCells(t));
  }

  /** What the stored index of a key lists. */
  ghost function StoredAt(live: Live, nodes: map<nat, Node>, k: nat): seq<nat> {
    if k in nodes && nodes[k].index.Some? && Holds(live, nodes[k].index.value) then Listed(live, nodes[k].index.value) else []
  }

  /** Deletes the children of a key, then frees the index that listed them. */
  method RemoveBelow(p: Patch, minor: nat, cell: nat, key: bytes, seen: set<nat>, depth: nat, ghost nodes: map<nat, Node>, ghost hope: Keys)
    returns (ok: bool, visited: set<nat>, ghost f: Keys)
    requires p.ValidOwing(NONE) && Estate(p.store.Starts(), p.store.Live(), minor, p.ring, p.keys, nodes) && depth <= 512
    requires cell in p.keys && cell in seen && |seen| <= 0x10_0000 && cell in nodes && cell in p.store.Live() && p.store.Live()[cell] == key
             && IsKey(key)
    modifies p`securityCells, p`ring, p`keys, p.store.Repr
    ensures p.store.Valid() && fresh(p.store.Repr - old(p.store.Repr)) && old(p.store.Starts()) <= p.store.Starts()
            && |p.store.data| == |old(p.store.data)|
    ensures ok ==> p.ValidOwing(NONE) && Ready(p.store.Live(), minor, p.ring, p.keys, cell, key, nodes[cell])
    ensures ok ==>
              Emptied(old(p.store.Live()), p.store.Live(), nodes, old(p.ring), p.ring, old(p.keys), p.keys, cell, f)
              && visited == seen + Elements(KeyCellsAll(f))
    ensures ok ==> Walks(nodes[cell]) && GoodAll(old(p.store.Live()), nodes, old(p.keys), f, StoredAt(old(p.store.Live()), nodes, cell),
            depth + 1, seen)
    ensures Walks(nodes[cell]) && GoodAll(old(p.store.Live()), nodes, old(p.keys), hope, StoredAt(old(p.store.Live()), nodes, cell), depth + 1, seen) ==>
              ok
    decreases 513 - depth, 1
  {
    hide Hive.Valid, Hive.Live, Hive.Starts, LE, U32, U16, Sound, Cached, After, SameText, Estate, RemovedAll, GoodAll, KeyCellsAll, AllAll,
         Elements, Room, Holds, Listed, Patch.ValidOwing, Ready, LiveKeys, Cells, Distinct, Emptied, Same;
    visited, ok, f := seen, true, hope;
    ghost var live, ring, keys, n := p.store.Live(), p.ring, p.keys, nodes[cell];
    p.Expand(NONE);
    EstateAt(p.store.Starts(), live, minor, ring, keys, nodes, cell);
    if U32(key, 0x14) > 0 {
      ghost var index := n.index.value;
      LiveKeysAll(live, Listed(live, index));
      var children, walked := ReadIndex(p.store, U32(key, 0x1c), {}, 0, index);
      ok := children.Success? && |children.value| == U32(key, 0x14);
      if GoodAll(live, nodes, keys, hope, Listed(live, index), depth + 1, seen) {
        GoodAreKeys(p.store.Starts(), live, minor, ring, keys, nodes, hope, Listed(live, index), depth + 1, seen);
      }
      if ok {
        ok, visited, f := RemoveEach(p, minor, children.value, visited, depth, nodes, hope);
        if ok {
          ghost var m, turn := p.store.Live(), p.ring;
          StillThere(live, m, nodes, ring, turn, keys, p.keys, f, cell, children.value, depth + 1, seen);
          ok := DropIndex(p, minor, cell, key, nodes);
          EmptiedBy(live, m, p.store.Live(), nodes, ring, turn, keys, p.keys, cell, f);
        }
      }
    } else {
      f := NoKey;
      NothingBelow(p.store.Starts(), live, minor, ring, keys, nodes, cell, key, depth + 1, seen);
    }
  }

  /** Frees the index of a key. */
  method DropIndex(p: Patch, minor: nat, cell: nat, key: bytes, ghost nodes: map<nat, Node>) returns (ok: bool)
    requires p.ValidOwing(NONE) && Estate(p.store.Starts(), p.store.Live(), minor, p.ring, p.keys, nodes)
    requires cell in p.keys && cell in nodes && cell in p.store.Live() && p.store.Live()[cell] == key && IsKey(key)
             && nodes[cell].index.Some? && Walks(nodes[cell])
    modifies p.store.Repr
    ensures ok && p.store.Valid() && p.ValidOwing(NONE) && fresh(p.store.Repr - old(p.store.Repr))
            && old(p.store.Starts()) <= p.store.Starts() && |p.store.data| == |old(p.store.data)|
    ensures Ready(p.store.Live(), minor, p.ring, p.keys, cell, key, nodes[cell])
    ensures After(old(p.store.Live()), p.store.Live(), p.ring, p.ring, Elements(Cells(nodes[cell].index.value)))
  {
    hide Hive.Valid, Hive.Live, Hive.Starts, LE, U32, U16, Sound, Cached, After, Estate, Elements, Room, Holds, Listed, Patch.ValidOwing,
         Ready, Cells, Distinct;
    ghost var m := p.store.Live();
    p.Expand(NONE);
    EstateAt(p.store.Starts(), m, minor, p.ring, p.keys, nodes, cell);
    IndexGone(p.store.Starts(), m, minor, p.ring, p.keys, nodes, cell, key, p.securityCells);
    var walked;
    ok, walked := FreeSubkeyIndex(p.store, U32(key, 0x1c), {}, 0, nodes[cell].index.value);
    p.Collect(NONE);
  }

  lemma GoodAreKeys(starts: set<nat>, live: Live, minor: nat, ring: seq<nat>, keys: set<nat>, nodes: map<nat, Node>, f: Keys,
                    cells: seq<nat>, depth: nat, seen: set<nat>)
    requires Estate(starts, live, minor, ring, keys, nodes) && GoodAll(live, nodes, keys, f, cells, depth, seen)
    ensures AllKeys(live, cells)
  {
    hide Owns, Traced, SpansAll, KeyCellsAll, Distinct, PlainAll;
    RootsInside(f);
    forall c | c in cells ensures c in live && IsKey(live[c]) { OwnsAt(live, minor, ring, keys, nodes, c); }
  }

  lemma {:induction false} RootsInside(f: Keys)
    ensures forall c :: c in KeyRoots(f) ==> c in KeyCellsAll(f)
  {
    if f.AndKey? {
      RootsInside(f.tail);
      assert f.head.cell in KeyCells(f.head);
    }
  }

  lemma StillThere(live: Live, m: Live, nodes: map<nat, Node>, ring: seq<nat>, rest: seq<nat>, keys: set<nat>, left: set<nat>, f: Keys,
                   cell: nat, cells: seq<nat>, depth: nat, seen: set<nat>)
    requires RemovedAll(live, m, nodes, ring, rest, keys, left, f) && GoodAll(live, nodes, keys, f, cells, depth, seen)
             && Same(live, m, left, nodes) && cell in keys && cell in seen && cell in nodes
    ensures cell in left && cell in m && cell in live && m[cell] == live[cell]
  {
    hide SpansAll, Distinct, PlainAll, After, Owned, KeyCellsAll;
    assert cell in Owned(nodes[cell]) + [cell];
  }

  /** Once the index of a key is gone, what is left of the key can be removed. */
  lemma IndexGone(starts: set<nat>, m: Live, minor: nat, ring: seq<nat>, keys: set<nat>, nodes: map<nat, Node>, cell: nat, key: bytes,
                  cache: map<bytes, nat>)
    requires Estate(starts, m, minor, ring, keys, nodes) && Sound(m, ring, keys, NONE) && cell in keys && cell in nodes
             && nodes[cell].index.Some? && cell in m && m[cell] == key
    ensures var gone := Elements(Cells(nodes[cell].index.value));
            && Ready(m - gone, minor, ring, keys, cell, key, nodes[cell]) && Sound(m - gone, ring, keys, NONE)
                && After(m, m - gone, ring, ring, gone)
            && (Cached(cache, m, ring) ==> Cached(cache, m - gone, ring))
  {
    hide Owns, Traced, Sound, After, Cached, U32, U16, Distinct, ListedValues, ClassCell, ValuesHold, ClassHolds, Cells, IndexHolds;
    var n := nodes[cell];
    var index := n.index.value;
    var own, gone := ListedValues(n) + ClassCell(n), Elements(Cells(index));
    OwnsAt(m, minor, ring, keys, nodes, cell);
    OwnsApart(m, minor, ring, keys, nodes, cell);
    NodeLive(m, minor, cell, n);
    KeyFacts(m, ring, keys);
    assert Owned(n) == Cells(index) + own;
    DistinctParts(Cells(index), own);
    RestHolds(m, m - gone, minor, key, n);
    Dropped(m, gone, ring, keys, NONE, cache);
    AfterFree(m, ring, keys, NONE, gone);
  }

  lemma EmptiedBy(live: Live, m: Live, l: Live, nodes: map<nat, Node>, ring: seq<nat>, rest: seq<nat>, keys: set<nat>, left: set<nat>,
                  cell: nat, f: Keys)
    requires RemovedAll(live, m, nodes, ring, rest, keys, left, f) && cell in nodes && nodes[cell].index.Some?
             && After(m, l, rest, rest, Elements(Cells(nodes[cell].index.value)))
    ensures Emptied(live, l, nodes, ring, rest, keys, left, cell, f)
  {
    hide SpansAll, Distinct, After, AllAll, KeyCellsAll;
    ElementsCat(AllAll(f), Cells(nodes[cell].index.value));
    AfterThen(live, m, l, ring, rest, rest, Elements(AllAll(f)), Elements(Cells(nodes[cell].index.value)));
  }

  lemma NothingBelow(starts: set<nat>, live: Live, minor: nat, ring: seq<nat>, keys: set<nat>, nodes: map<nat, Node>, cell: nat, key: bytes,
                     depth: nat, seen: set<nat>)
    requires Estate(starts, live, minor, ring, keys, nodes) && Sound(live, ring, keys, NONE) && cell in keys && cell in nodes
             && nodes[cell].index.None? && cell in live && live[cell] == key
    requires |seen| <= 0x10_0000
    ensures Ready(live, minor, ring, keys, cell, key, nodes[cell]) && Emptied(live, live, nodes, ring, ring, keys, keys, cell, NoKey)
            && Walks(nodes[cell])
    ensures GoodAll(live, nodes, keys, NoKey, StoredAt(live, nodes, cell), depth, seen) && Elements(KeyCellsAll(NoKey)) == {}
  {
    hide Owns, Traced, Sound, After, U32, U16, ListedValues, ClassCell, ValuesHold, ClassHolds, IndexHolds;
    var n := nodes[cell];
    OwnsAt(live, minor, ring, keys, nodes, cell);
    OwnsApart(live, minor, ring, keys, nodes, cell);
    assert Owned(n) == ListedValues(n) + ClassCell(n);
    NothingGone(live, ring, keys);
    assert AllAll(NoKey) + IndexCells(n) == [];
    assert Elements<nat>([]) == {};
    assert keys - {} == keys;
  }

  /** Deletes keys one after another, each with what is below it. */
  method RemoveEach(p: Patch, minor: nat, children: seq<nat>, seen: set<nat>, depth: nat, ghost nodes: map<nat, Node>, ghost hope: Keys)
    returns (ok: bool, visited: set<nat>, ghost f: Keys)
    requires p.ValidOwing(NONE) && Estate(p.store.Starts(), p.store.Live(), minor, p.ring, p.keys, nodes) && depth <= 512
             && |seen| <= 0x10_0000
    requires forall c :: c in children ==> c in p.keys
    modifies p`securityCells, p`ring, p`keys, p.store.Repr
    ensures p.store.Valid() && fresh(p.store.Repr - old(p.store.Repr)) && old(p.store.Starts()) <= p.store.Starts()
            && |p.store.data| == |old(p.store.data)|
    ensures ok ==>
              p.ValidOwing(NONE) && Estate(p.store.Starts(), p.store.Live(), minor, p.ring, p.keys, nodes)
              && Same(old(p.store.Live()), p.store.Live(), p.keys, nodes)
    ensures ok ==>
              RemovedAll(old(p.store.Live()), p.store.Live(), nodes, old(p.ring), p.ring, old(p.keys), p.keys, f)
              && visited == seen + Elements(KeyCellsAll(f))
    ensures ok ==> GoodAll(old(p.store.Live()), nodes, old(p.keys), f, children, depth + 1, seen)
    ensures GoodAll(old(p.store.Live()), nodes, old(p.keys), hope, children, depth + 1, seen) ==> ok
    decreases 513 - depth, 0
  {
    hide Hive.Valid, Hive.Live, Hive.Starts, LE, U32, U16, Sound, Cached, After, SameText, Estate, RemovedAll, GoodAll, Removed, Good,
         KeyCells, KeyCellsAll, Elements, Patch.ValidOwing, Same;
    visited, ok, f := seen, true, NoKey;
    ghost var live, ring, keys, hoping := p.store.Live(), p.ring, p.keys, hope;
    var i := 0;
    p.Expand(NONE);
    EstateDomain(p.store.Starts(), live, minor, ring, keys, nodes);
    NoneRemoved(p.store.Starts(), live, minor, ring, keys, nodes, depth + 1, seen);
    assert children[0..] == children && children[..0] == [];
    while i < |children| && ok
      invariant i <= |children| && p.store.Valid() && fresh(p.store.Repr - old(p.store.Repr)) && old(p.store.Starts()) <= p.store.Starts()
                && |p.store.data| == |old(p.store.data)|
      invariant ok ==>
                  p.ValidOwing(NONE) && Estate(p.store.Starts(), p.store.Live(), minor, p.ring, p.keys, nodes)
                  && Same(live, p.store.Live(), p.keys, nodes)
      invariant ok ==> RemovedAll(live, p.store.Live(), nodes, ring, p.ring, keys, p.keys, f) && visited == seen + Elements(KeyCellsAll(f))
      invariant ok ==> GoodAll(live, nodes, keys, f, children[..i], depth + 1, seen)
      invariant GoodAll(live, nodes, keys, hope, children, depth + 1, seen) ==>
                  ok && GoodAll(p.store.Live(), nodes, p.keys, hoping, children[i..], depth + 1, visited)
    {
      ghost var m, turn, some := p.store.Live(), p.ring, p.keys;
      ghost var t;
      EstateDomain(p.store.Starts(), m, minor, turn, some, nodes);
      ghost var hopeful := GoodAll(m, nodes, some, hoping, children[i..], depth + 1, visited);
      p.Expand(NONE);
      SeenOrThere(live, m, nodes, ring, turn, keys, some, f, seen, children[i]);
      if hopeful { HopeHead(m, nodes, some, hoping, children[i..], depth + 1, visited); }
      ghost var before := visited;
      ok, visited, t := RemoveKey(p, minor, children[i], visited, depth + 1, nodes,
          if hoping.AndKey? then hoping.head else Key(0, EMPTY, NoKey));
      if ok {
        EachStep(live, m, p.store.Live(), minor, nodes, ring, turn, p.ring, keys, some, p.keys, f, t, children, i, depth + 1, seen);
        if hopeful { HopeStep(m, p.store.Live(), nodes, turn, p.ring, some, p.keys, hoping, children[i..], t, depth + 1, before); }
        hoping := if hoping.AndKey? then hoping.tail else hoping;
        f := Append(f, t);
      }
      i := i + 1;
    }
    assert children[..|children|] == children;
  }

  lemma NoneRemoved(starts: set<nat>, live: Live, minor: nat, ring: seq<nat>, keys: set<nat>, nodes: map<nat, Node>, depth: nat,
                    seen: set<nat>)
    requires Estate(starts, live, minor, ring, keys, nodes) && Sound(live, ring, keys, NONE) && |seen| <= 0x10_0000
    ensures RemovedAll(live, live, nodes, ring, ring, keys, keys, NoKey) && GoodAll(live, nodes, keys, NoKey, [], depth, seen)
            && Same(live, live, keys, nodes)
    ensures seen == seen + Elements(KeyCellsAll(NoKey))
  {
    hide Owns, Traced, Sound, After, Owned, NodeHolds;
    NothingGone(live, ring, keys);
    assert Elements<nat>([]) == {};
    forall k, c | k in keys && k in nodes && c in Owned(nodes[k]) + [k] ensures c in live {
      OwnsAt(live, minor, ring, keys, nodes, k);
      NodeLive(live, minor, k, nodes[k]);
    }
  }

  lemma EstateDomain(starts: set<nat>, live: Live, minor: nat, ring: seq<nat>, keys: set<nat>, nodes: map<nat, Node>)
    requires Estate(starts, live, minor, ring, keys, nodes)
    ensures keys <= nodes.Keys
  {
    hide Owns, Traced;
    OwnsDomain(live, minor, ring, keys, nodes);
  }

  lemma SeenOrThere(live: Live, m: Live, nodes: map<nat, Node>, ring: seq<nat>, rest: seq<nat>, keys: set<nat>, left: set<nat>, f: Keys,
                    seen: set<nat>, c: nat)
    requires RemovedAll(live, m, nodes, ring, rest, keys, left, f) && c in keys
    ensures c in left || c in seen + Elements(KeyCellsAll(f))
  {
    hide After, SpansAll, KeyCellsAll, Distinct;
  }

  lemma EachStep(live: Live, m: Live, l: Live, minor: nat, nodes: map<nat, Node>, ring: seq<nat>, turn: seq<nat>, rest: seq<nat>,
                 keys: set<nat>, some: set<nat>, left: set<nat>,
                 f: Keys, t: KeyTree, cells: seq<nat>, i: nat, depth: nat, seen: set<nat>)
    requires i < |cells| && RemovedAll(live, m, nodes, ring, turn, keys, some, f) && GoodAll(live, nodes, keys, f, cells[..i], depth, seen)
             && Same(live, m, some, nodes)
    requires Removed(m, l, nodes, turn, rest, some, left, t) && Good(m, nodes, some, t, cells[i], depth, seen + Elements(KeyCellsAll(f)))
             && Same(m, l, left, nodes) && keys <= nodes.Keys
    ensures RemovedAll(live, l, nodes, ring, rest, keys, left, Append(f, t))
            && GoodAll(live, nodes, keys, Append(f, t), cells[..i + 1], depth, seen) && Same(live, l, left, nodes)
    ensures seen + Elements(KeyCellsAll(Append(f, t))) == seen + Elements(KeyCellsAll(f)) + Elements(KeyCells(t))
  {
    hide Spans, SpansAll, KeyCells, KeyCellsAll, After, Distinct, KeyRoom, KeyRoomAll, All, AllAll, Same;
    RemovedStep(live, m, l, nodes, ring, turn, rest, keys, some, left, f, t);
    RoomStep(live, m, nodes, some, f, t, depth, seen);
    AppendFacts(f, t);
    ElementsCat(KeyCellsAll(f), KeyCells(t));
    assert cells[..i + 1] == cells[..i] + [cells[i]];
    SameThen(live, m, l, some, left, nodes);
  }

  lemma SameThen(live: Live, m: Live, l: Live, some: set<nat>, left: set<nat>, nodes: map<nat, Node>)
    requires Same(live, m, some, nodes) && Same(m, l, left, nodes) && left <= some
    ensures Same(live, l, left, nodes)
  {
    hide Owned;
  }
}
