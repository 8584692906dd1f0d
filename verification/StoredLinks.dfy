/** Where the stored lists of a hive lead. */
module StoredLinks {
  import opened Bytes
  import opened HiveLayout
  import opened HiveImage
  import opened SecurityRing
  import opened SubkeyIndex
  import opened KeyDeletion
  import opened HiveBatch
  import opened KeyPaths
  import opened SubtreeRemoval

  /** Each key with what its stored list names. */
  ghost function Links(live: Live, nodes: map<nat, Node>): map<nat, set<nat>> { map k | k in nodes :: Elements(StoredAt(live, nodes, k)) }

  /** What the stored index of a key of a subtree lists is in the subtree. */
  lemma {:induction false} ListsInside(live: Live, nodes: map<nat, Node>, t: KeyTree, k: nat, e: nat)
    requires Spans(live, nodes, t) && k in KeyCells(t) && e in StoredAt(live, nodes, k)
    ensures e in KeyCells(t)
  {
    hide Holds, Listed;
    assert forall c :: c in KeyCellsAll(t.kids) ==> c in KeyCells(t);
    RootsInside(t.kids);
    if k in KeyCellsAll(t.kids) {
      ForestLists(live, nodes, t.kids, k, e);
    } else {
      assert k == t.cell;
      assert e in KeyRoots(t.kids);
    }
  }

  lemma {:induction false} ForestLists(live: Live, nodes: map<nat, Node>, f: Keys, k: nat, e: nat)
    requires SpansAll(live, nodes, f) && k in KeyCellsAll(f) && e in StoredAt(live, nodes, k)
    ensures e in KeyCellsAll(f)
  {
    hide Holds, Listed, Spans, KeyCells;
    if f.AndKey? {
      if k in KeyCells(f.head) { ListsInside(live, nodes, f.head, k, e); } else { ForestLists(live, nodes, f.tail, k, e); }
    }
  }

  /** Every key of a stored subtree can be reached from its top along the stored lists. */
  lemma {:induction false} TreeReached(live: Live, nodes: map<nat, Node>, t: KeyTree, k: nat)
    requires Spans(live, nodes, t) && k in KeyCells(t)
    ensures Below(Links(live, nodes), t.cell, k)
  {
    hide Holds, Listed, Below;
    if k in KeyCellsAll(t.kids) {
      ForestReached(live, nodes, t.kids, t.cell, k);
    } else {
      assert k == t.cell;
      BelowSelf(Links(live, nodes), k);
    }
  }

  lemma {:induction false} ForestReached(live: Live, nodes: map<nat, Node>, f: Keys, top: nat, k: nat)
    requires SpansAll(live, nodes, f) && k in KeyCellsAll(f) && top in nodes && forall c :: c in KeyRoots(f) ==> c in StoredAt(live, nodes, top)
    ensures Below(Links(live, nodes), top, k)
  {
    hide Spans, KeyCells, Below, StoredAt;
    if f.AndKey? {
      assert f.head.cell in KeyRoots(f) && forall c :: c in KeyRoots(f.tail) ==> c in KeyRoots(f);
      if k in KeyCells(f.head) {
        TreeReached(live, nodes, f.head, k);
        BelowSelf(Links(live, nodes), top);
        BelowStep(Links(live, nodes), top, top, f.head.cell);
        BelowThen(Links(live, nodes), top, f.head.cell, k);
      } else {
        ForestReached(live, nodes, f.tail, top, k);
      }
    }
  }

  /** The keys of a stored subtree are those its lists lead to. */
  lemma SpansReach(live: Live, nodes: map<nat, Node>, t: KeyTree)
    requires Spans(live, nodes, t)
    ensures forall k :: k in KeyCells(t) <==> Below(Links(live, nodes), t.cell, k)
  {
    hide Spans, StoredAt;
    var links := Links(live, nodes);
    forall k | k in KeyCells(t) ensures Below(links, t.cell, k) { TreeReached(live, nodes, t, k); }
    forall k | Below(links, t.cell, k) ensures k in KeyCells(t) {
      var trail :| trail != [] && trail[0] == t.cell && trail[|trail| - 1] == k && Chain(links, trail);
      forall j, c | j in KeyCells(t) && j in links && c in links[j] ensures c in KeyCells(t) { ListsInside(live, nodes, t, j, c); }
      assert t.cell in KeyCells(t);
      Closed(links, KeyCells(t), trail);
    }
  }
}
