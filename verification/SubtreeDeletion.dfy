/** Deleting a key inside a transaction. */
module SubtreeDeletion {
  import opened Bytes
  import opened HiveLayout
  import opened HiveImage
  import opened MutableHive
  import opened SecurityRing
  import opened SubkeyIndex
  import opened HivePatch
  import opened KeyDeletion
  import opened HiveBatch
  import opened KeyPaths
  import opened SubtreeRemoval
  import opened StoredLinks

  /** The keys of a stored subtree are exactly those pending below its top, and the parent is not among them. */
  ghost predicate Whole(children: map<nat, set<nat>>, parent: nat, t: KeyTree) {
    parent !in KeyCells(t) && forall k :: k in KeyCells(t) <==> Below(children, t.cell, k)
  }

  /** From a key on, the stored lists lead to the same keys as the pending ones. */
  ghost predicate Matched(live: Live, nodes: map<nat, Node>, children: map<nat, set<nat>>, top: nat) {
    forall k :: Below(Links(live, nodes), top, k) <==> Below(children, top, k)
  }

  lemma MatchedWhole(live: Live, nodes: map<nat, Node>, root: nat, keys: set<nat>, children: map<nat, set<nat>>, parents: map<nat, nat>,
                     trail: seq<nat>, t: KeyTree)
    requires Family(root, keys, children, parents) && Rooted(root, children, trail) && |trail| >= 2 && t.cell == trail[|trail| - 1]
             && Spans(live, nodes, t)
    ensures Matched(live, nodes, children, t.cell) <==> Whole(children, trail[|trail| - 2], t)
  {
    hide Family, Below, Spans, KeyCells, Links;
    SpansReach(live, nodes, t);
    var n := |trail| - 1;
    if Matched(live, nodes, children, t.cell) && trail[n - 1] in KeyCells(t) {
      assert trail[n - 1] in children && t.cell in children[trail[n - 1]];
      ChainFront(children, trail, n);
      BelowApart(root, keys, children, parents, trail[..n], t.cell, t.cell, trail[n - 1]);
      assert false;
    }
  }

  // ----- subtrees without pending changes

  /** No pending change is waiting for any of these keys. */
  ghost predicate Settled(live: Live, nodes: map<nat, Node>, children: map<nat, set<nat>>, cells: seq<nat>) {
    forall k :: k in cells ==> k in nodes && k in children && Clean(live, k, nodes[k], children[k])
  }

  ghost predicate NoneDirty(batches: map<nat, Batch>, cells: seq<nat>) { forall k :: k in cells ==> !IsDirty(batches, k) }

  lemma CalmSettled(x: Text, live: Live, keys: set<nat>, nodes: map<nat, Node>, children: map<nat, set<nat>>, batches: map<nat, Batch>,
                    cells: seq<nat>)
    requires Pending(x, live, keys, nodes, children, batches) && NoneDirty(batches, cells) && forall k :: k in cells ==> k in keys
    ensures Settled(live, nodes, children, cells)
  {
    hide Clean, BatchOk;
  }

  /** Below its top, the parent of every key of a subtree is in the subtree. */
  lemma {:induction false} ParentsInside(live: Live, root: nat, keys: set<nat>, nodes: map<nat, Node>, children: map<nat, set<nat>>,
                          parents: map<nat, nat>, t: KeyTree)
    requires Spans(live, nodes, t) && Settled(live, nodes, children, KeyCells(t)) && Family(root, keys, children, parents)
             && forall k :: k in KeyCells(t) ==> k in keys
    ensures forall c :: c in KeyCellsAll(t.kids) ==> c in parents && parents[c] in KeyCells(t)
    ensures forall k, c :: k in KeyCells(t) && c in children[k] ==> c in KeyCellsAll(t.kids)
    ensures forall c :: c in KeyCells(t) ==> Below(children, t.cell, c)
  {
    hide Holds, Listed, Owned, U32, Family, Below;
    assert t.cell in KeyCells(t);
    assert forall k :: k in KeyCellsAll(t.kids) ==> k in KeyCells(t);
    assert children[t.cell] == Elements(KeyRoots(t.kids)) by { assert Clean(live, t.cell, nodes[t.cell], children[t.cell]); }
    BelowSelf(children, t.cell);
    forall c | c in KeyRoots(t.kids) ensures c in parents && parents[c] == t.cell && Below(children, t.cell, c) {
      assert c in children[t.cell];
      FamilyAt(root, keys, children, parents, t.cell, c);
      BelowStep(children, t.cell, t.cell, c);
    }
    ForestParents(live, root, keys, nodes, children, parents, t.kids, t.cell);
    RootsInside(t.kids);
    forall k, c | k in KeyCells(t) && c in children[k] ensures c in KeyCellsAll(t.kids) {
      if k == t.cell { assert c in KeyRoots(t.kids); }
    }
  }

  lemma {:induction false} ForestParents(live: Live, root: nat, keys: set<nat>, nodes: map<nat, Node>, children: map<nat, set<nat>>,
                          parents: map<nat, nat>, f: Keys, top: nat)
    requires SpansAll(live, nodes, f) && Settled(live, nodes, children, KeyCellsAll(f)) && Family(root, keys, children, parents)
             && forall k :: k in KeyCellsAll(f) ==> k in keys
    requires forall c :: c in KeyRoots(f) ==> Below(children, top, c)
    ensures forall c :: c in KeyCellsAll(f) ==> c in KeyRoots(f) || (c in parents && parents[c] in KeyCellsAll(f))
    ensures forall k, c :: k in KeyCellsAll(f) && c in children[k] ==> c in KeyCellsAll(f)
    ensures forall c :: c in KeyCellsAll(f) ==> Below(children, top, c)
  {
    hide Holds, Listed, Owned, U32, Family, Spans, Clean, Below;
    if f.AndKey? {
      assert forall k :: k in KeyCells(f.head) || k in KeyCellsAll(f.tail) ==> k in KeyCellsAll(f);
      ParentsInside(live, root, keys, nodes, children, parents, f.head);
      forall c | c in KeyCells(f.head) ensures Below(children, top, c) { BelowThen(children, top, f.head.cell, c); }
      ForestParents(live, root, keys, nodes, children, parents, f.tail, top);
    }
  }

  /** A stored subtree in which nothing is pending is the pending subtree. */
  lemma SettledExact(live: Live, root: nat, keys: set<nat>, nodes: map<nat, Node>, children: map<nat, set<nat>>, parents: map<nat, nat>,
                     t: KeyTree, parent: nat)
    requires Walk(live, nodes, keys, t) && Settled(live, nodes, children, KeyCells(t)) && Family(root, keys, children, parents)
             && parent in keys && t.cell in children[parent]
    ensures Whole(children, parent, t)
  {
    hide Holds, Listed, Owned, U32, Family, Spans, Settled, Below, Clean;
    ParentsInside(live, root, keys, nodes, children, parents, t);
    FamilyAt(root, keys, children, parents, parent, t.cell);
    DistinctParts(KeyCellsAll(t.kids), [t.cell]);
    assert t.cell in [t.cell] && t.cell !in KeyCellsAll(t.kids);
    forall k | Below(children, t.cell, k) ensures k in KeyCells(t) { SettledBelow(live, root, keys, nodes, children, parents, t, k); }
    assert parent in KeyCells(t) ==> t.cell in KeyCellsAll(t.kids);
  }

  lemma SettledBelow(live: Live, root: nat, keys: set<nat>, nodes: map<nat, Node>, children: map<nat, set<nat>>, parents: map<nat, nat>,
                     t: KeyTree, k: nat)
    requires Walk(live, nodes, keys, t) && Settled(live, nodes, children, KeyCells(t)) && Family(root, keys, children, parents)
             && Below(children, t.cell, k)
    ensures k in KeyCells(t)
  {
    hide Holds, Listed, Owned, U32, Family, Spans, Clean;
    ParentsInside(live, root, keys, nodes, children, parents, t);
    assert t.cell in KeyCells(t) && forall c :: c in KeyCellsAll(t.kids) ==> c in KeyCells(t);
    var trail :| trail != [] && trail[0] == t.cell && trail[|trail| - 1] == k && Chain(children, trail);
    Closed(children, KeyCells(t), trail);
  }

  // ----- the family without the subtree

  /** Only one link leads from the rest of the hive into a set of keys. */
  ghost predicate OnlyLink(keys: set<nat>, children: map<nat, set<nat>>, gone: set<nat>, parent: nat, cell: nat) {
    forall p, c :: p in keys && p in children && p !in gone && c in children[p] && c in gone ==> p == parent && c == cell
  }

  /** The top of an exact subtree is the only link into it, and the root is not inside. */
  lemma Outside(root: nat, keys: set<nat>, children: map<nat, set<nat>>, parents: map<nat, nat>, t: KeyTree, parent: nat)
    requires Whole(children, parent, t) && Family(root, keys, children, parents) && (forall k :: k in KeyCells(t) ==> k in keys)
             && parent in keys && t.cell in children[parent]
    ensures root !in KeyCells(t) && OnlyLink(keys, children, Elements(KeyCells(t)), parent, t.cell)
  {
    hide Below, KeyCells, Family;
    FamilyAt(root, keys, children, parents, parent, t.cell);
    FamilyDomain(root, keys, children, parents);
    forall c | c in KeyCells(t) ensures c == t.cell || exists p :: p in KeyCells(t) && p in children && c in children[p] {
      BelowOpen(children, t.cell, c);
    }
    forall c | c in KeyCells(t) ensures c != root {
      if c != t.cell {
        var p :| p in KeyCells(t) && p in children && c in children[p];
        FamilyAt(root, keys, children, parents, p, c);
      }
    }
    forall p, c | p in keys && p in children && p !in Elements(KeyCells(t)) && c in children[p] && c in Elements(KeyCells(t))
        ensures p == parent && c == t.cell {
      FamilyAt(root, keys, children, parents, p, c);
      if c != t.cell {
        var q :| q in KeyCells(t) && q in children && c in children[q];
        FamilyAt(root, keys, children, parents, q, c);
      }
    }
  }

  /** The children left when a subtree is gone. */
  ghost function Pruned(children: map<nat, set<nat>>, gone: set<nat>, parent: nat, cell: nat): map<nat, set<nat>> {
    map k | k in children && k !in gone :: if k == parent then children[k] - {cell} else children[k]
  }

  /** The batches left: none for the keys gone, and the parent's without the name. */
  function Unbatched(batches: map<nat, Batch>, gone: set<nat>, parent: nat, name: string): map<nat, Batch> {
    var left := batches - gone;
    if parent in left then left[parent := Batch(left[parent].cells - {name}, true)] else left
  }

  lemma PrunedChain(children: map<nat, set<nat>>, gone: set<nat>, parent: nat, cell: nat, trail: seq<nat>)
    requires cell in gone
    ensures Chain(Pruned(children, gone, parent, cell), trail) ==> Chain(children, trail)
    ensures Chain(children, trail) && (forall i :: 0 <= i < |trail| ==> trail[i] !in gone)
            ==> Chain(Pruned(children, gone, parent, cell), trail)
  {
  }

  lemma PrunedFamily(root: nat, keys: set<nat>, children: map<nat, set<nat>>, parents: map<nat, nat>, gone: set<nat>, parent: nat,
                     cell: nat)
    requires Family(root, keys, children, parents)
    requires OnlyLink(keys, children, gone, parent, cell)
    ensures Family(root, keys - gone, Pruned(children, gone, parent, cell), parents - gone)
  {
  }

  lemma PrunedPending(x: Text, minor: nat, root: nat, s: State, m: Live, gone: set<nat>, parent: nat, cell: nat)
    requires cell in gone && parent in s.keys && parent !in gone && parent in s.batches && parent in s.children && cell in s.children[parent]
    requires Stands(minor, root, s) && Pending(x, s.live, s.keys, s.nodes, s.children, s.batches)
    requires Same(s.live, m, s.keys - gone, s.nodes) && OnlyLink(s.keys, s.children, gone, parent, cell)
    ensures Pending(x, m, s.keys - gone, s.nodes - gone, Pruned(s.children, gone, parent, cell),
            Unbatched(s.batches, gone, parent, Folded(x, s.live, cell)))
  {
    hide Owns, Sound, Clean, BatchOk, Folded, Owned;
    var live, keys, nodes, children, batches := s.live, s.keys, s.nodes, s.children, s.batches;
    var left := Pruned(children, gone, parent, cell);
    forall c | c in keys && c !in gone ensures Folded(x, m, c) == Folded(x, live, c) { SameNamed(x, live, m, keys - gone, nodes, c); }
    forall k | k in keys && k !in gone && Clean(live, k, nodes[k], children[k]) ensures Clean(m, k, nodes[k], children[k]) {
      CleanSame(live, m, minor, s.ring, keys, nodes, gone, k, children[k]);
    }
    forall p | p in batches && p !in gone ensures BatchOk(x, m,
        if p == parent then batches[p].cells - {Folded(x, live, cell)} else batches[p].cells, left[p]) {
      PendingAt(x, live, keys, nodes, children, batches, p);
      forall c | c in left[p] ensures c in keys && c !in gone { FamilyAt(root, keys, children, s.parents, p, c); }
      BatchLess(x, live, m, batches[p].cells, children[p], left[p], cell);
    }
    PendingAt(x, live, keys, nodes, children, batches, parent);
    BatchHas(x, live, batches[parent].cells, children[parent], cell);
  }

  lemma SameNamed(x: Text, live: Live, m: Live, keys: set<nat>, nodes: map<nat, Node>, c: nat)
    requires Same(live, m, keys, nodes) && c in keys && c in nodes
    ensures c in live && c in m && m[c] == live[c] && Folded(x, m, c) == Folded(x, live, c) && NameOf(x, m, c) == NameOf(x, live, c)
  {
    hide Owned, NameIn;
    assert c in Owned(nodes[c]) + [c];
  }

  lemma BatchHas(x: Text, live: Live, cells: map<string, nat>, kids: set<nat>, c: nat)
    requires BatchOk(x, live, cells, kids) && c in kids
    ensures Folded(x, live, c) in cells
  {
  }

  lemma BatchLess(x: Text, live: Live, m: Live, cells: map<string, nat>, kids: set<nat>, left: set<nat>, c: nat)
    requires BatchOk(x, live, cells, kids) && (left == kids || left == kids - {c}) && forall d ::
               d in left ==> Folded(x, m, d) == Folded(x, live, d)
    ensures left == kids ==> BatchOk(x, m, cells, left)
    ensures c in kids && left == kids - {c} ==> BatchOk(x, m, cells - {Folded(x, live, c)}, left)
  {
    hide Folded;
  }

  lemma CleanSame(live: Live, m: Live, minor: nat, ring: seq<nat>, keys: set<nat>, nodes: map<nat, Node>, gone: set<nat>, k: nat,
                  kids: set<nat>)
    requires Owns(live, minor, ring, keys, nodes) && k in keys && k !in gone && k in nodes && Clean(live, k, nodes[k], kids)
             && Same(live, m, keys - gone, nodes)
    ensures Clean(m, k, nodes[k], kids)
  {
    hide NodeHolds, Owned, Distinct, U32, U16, Owns, Elements, Holds, Listed, Same, IsKey;
    SameKey(live, m, keys - gone, nodes, k);
    if nodes[k].index.Some? { IndexSame(live, m, keys - gone, nodes, k); }
  }

  lemma SameKey(live: Live, m: Live, keys: set<nat>, nodes: map<nat, Node>, k: nat)
    requires Same(live, m, keys, nodes) && k in keys && k in nodes
    ensures k in live && k in m && m[k] == live[k]
  {
    hide Owned;
    assert k in Owned(nodes[k]) + [k];
  }

  /** Everything a transaction keeps is kept when an exact subtree and the link to it are gone. */
  lemma AfterDelete(x: Text, minor: nat, root: nat, s: State, m: Live, rest: seq<nat>, t: KeyTree, parent: nat)
    requires Stands(minor, root, s) && Pending(x, s.live, s.keys, s.nodes, s.children, s.batches)
    requires var left := s.keys - Elements(KeyCells(t));
             Removed(s.live, m, s.nodes, s.ring, rest, s.keys, left, t) && Same(s.live, m, left, s.nodes) && Sound(m, rest, left, NONE)
    requires parent in s.keys && parent in s.children && parent in s.batches && t.cell in s.children[parent] && Whole(s.children, parent, t)
    ensures var gone := Elements(KeyCells(t));
            var left, kids, pend := s.keys - gone, Pruned(s.children, gone, parent, t.cell),
                Unbatched(s.batches, gone, parent, Folded(x, s.live, t.cell));
            && Family(root, left, kids, s.parents - gone) && root !in gone && Pending(x, m, left, s.nodes - gone, kids, pend)
            && (Opened(x, s.live, s.keys, s.nodes, s.batches) ==> Opened(x, m, left, s.nodes - gone, pend))
    ensures Robed(s.live, m, s.keys - Elements(KeyCells(t)))
  {
    hide Sound, Owns, Family, Pending, KeyCells, OnlyLink, Same, After, All, Pruned, Unbatched, Folded, Spans, Distinct, Below, Opened,
         Robed;
    var gone := Elements(KeyCells(t));
    assert t.cell in gone by { TopIsGone(t); }
    Outside(root, s.keys, s.children, s.parents, t, parent);
    PrunedFamily(root, s.keys, s.children, s.parents, gone, parent, t.cell);
    PrunedPending(x, minor, root, s, m, gone, parent, t.cell);
    PrunedRobed(s.live, m, s.ring, rest, s.keys, gone, s.nodes, All(t));
    if Opened(x, s.live, s.keys, s.nodes, s.batches) { PrunedOpened(x, minor, root, s, m, gone, parent, t.cell); }
  }

  lemma TopIsGone(t: KeyTree)
    ensures t.cell in Elements(KeyCells(t))
  {
    assert t.cell in KeyCells(t);
  }

  lemma PrunedRobed(live: Live, m: Live, ring: seq<nat>, rest: seq<nat>, keys: set<nat>, gone: set<nat>, nodes: map<nat, Node>,
                    all: seq<nat>)
    requires Sound(live, ring, keys, NONE) && Sound(m, rest, keys - gone, NONE) && After(live, m, ring, rest, Elements(all))
    ensures Robed(live, m, keys - gone)
  {
    hide U32, U16, LE, IsSecurity, Descriptor;
    KeyFacts(live, ring, keys);
    KeyFacts(m, rest, keys - gone);
    SoundMembers(live, ring, keys);
    SoundMembers(m, rest, keys - gone);
  }

  lemma PrunedOpened(x: Text, minor: nat, root: nat, s: State, m: Live, gone: set<nat>, parent: nat, cell: nat)
    requires parent in s.keys && parent !in gone && parent in s.batches && Stands(minor, root, s)
             && Pending(x, s.live, s.keys, s.nodes, s.children, s.batches)
    requires Same(s.live, m, s.keys - gone, s.nodes) && OnlyLink(s.keys, s.children, gone, parent, cell)
             && Opened(x, s.live, s.keys, s.nodes, s.batches)
    ensures Opened(x, m, s.keys - gone, s.nodes - gone, Unbatched(s.batches, gone, parent, Folded(x, s.live, cell)))
  {
    hide Owns, Sound, Family, Pending, Same, Folded, Holds, Listed, Room, Owned;
    var live, keys, nodes, batches := s.live, s.keys, s.nodes, s.batches;
    var b := Unbatched(batches, gone, parent, Folded(x, live, cell));
    FamilyDomain(root, keys, s.children, s.parents);
    forall k | k in keys - gone && k in nodes - gone ensures Walks(nodes[k]) && (IsDirty(b, k) || Loadable(x, m, nodes[k])) {
      if k != parent && !IsDirty(batches, k) {
        assert Loadable(x, live, nodes[k]);
        OpenClean(x, s, minor, root, k);
        if nodes[k].index.Some? {
          IndexSame(live, m, keys - gone, nodes, k);
          forall c | c in StoredChildren(live, nodes[k]) ensures Folded(x, m, c) == Folded(x, live, c) {
            assert c in Elements(StoredChildren(live, nodes[k]));
            OwnsAt(live, minor, s.ring, keys, nodes, c);
            SameNamed(x, live, m, keys - gone, nodes, c);
          }
        }
      }
    }
  }

  /** The same keys with what they own, seen without the others. */
  lemma EstateLess(starts: set<nat>, live: Live, minor: nat, ring: seq<nat>, keys: set<nat>, nodes: map<nat, Node>, gone: set<nat>)
    requires Estate(starts, live, minor, ring, keys, nodes) && keys !! gone
    ensures Estate(starts, live, minor, ring, keys, nodes - gone)
  {
    hide NodeHolds, Owned, Distinct, Named, Holds, Listed, IsKey;
    forall k | k in keys ensures Proper(live, minor, ring, keys, k, (nodes - gone)[k]) {
      assert Proper(live, minor, ring, keys, k, nodes[k]);
    }
    forall k | k in keys && k in nodes - gone ensures Tracks(starts, live, keys, (nodes - gone)[k]) {
      assert Tracks(starts, live, keys, nodes[k]);
    }
  }

  // ----- the deletion

  /** What a deletion of a stored subtree leaves of a transaction. */
  ghost predicate Severed(x: Text, a: State, b: State, parent: nat, t: KeyTree) {
    var gone := Elements(KeyCells(t));
    && Removed(a.live, b.live, a.nodes, a.ring, b.ring, a.keys, b.keys, t) && b.nodes == a.nodes - gone && b.parents == a.parents - gone
    && b.children == Pruned(a.children, gone, parent, t.cell)
    && b.batches == Unbatched(a.batches, gone, parent, Folded(x, a.live, t.cell))
  }

  ghost predicate Clearable(live: Live, nodes: map<nat, Node>, keys: set<nat>,
                          cell: nat) { exists u :: Good(live, nodes, keys, u, cell, 0, {}) }

  /** The stored subtree of a key, if a removal gets through it. */
  ghost function Hope(live: Live, nodes: map<nat, Node>, keys: set<nat>, cell: nat): (t: KeyTree)
    ensures Clearable(live, nodes, keys, cell) ==> Good(live, nodes, keys, t, cell, 0, {})
  {
    if Clearable(live, nodes, keys, cell) then
      var u :| Good(live, nodes, keys, u, cell, 0, {});
      u
    else Key(0, EMPTY, NoKey)
  }

  lemma GoodClears(live: Live, nodes: map<nat, Node>, keys: set<nat>, t: KeyTree, cell: nat)
    requires Good(live, nodes, keys, t, cell, 0, {})
    ensures Clearable(live, nodes, keys, cell)
  {
    hide Good;
  }

  /** Deletes a pending child of a key with everything stored below it. */
  method DeleteTree(tx: Transaction, parent: nat, name: string, cell: nat) returns (o: Outcome, ghost t: KeyTree)
    requires tx.Valid() && parent in tx.patch.keys && parent in tx.children && parent in tx.batches
    requires cell in tx.children[parent] && Folded(tx.text, tx.patch.store.Live(), cell) == tx.text.fold(name)
    modifies tx`batches, tx`nodes, tx`children, tx`parents, tx.patch`securityCells, tx.patch`ring, tx.patch`keys, tx.patch.store.Repr
    ensures fresh(tx.patch.store.Repr - old(tx.patch.store.Repr)) && old(tx.patch.store.Starts()) <= tx.patch.store.Starts()
            && |tx.patch.store.data| == |old(tx.patch.store.data)|
    ensures o == Done <==> Clearable(old(tx.patch.store.Live()), old(tx.nodes), old(tx.patch.keys), cell)
    ensures o == Done ==> Good(old(tx.patch.store.Live()), old(tx.nodes), old(tx.patch.keys), t, cell, 0, {}) && tx.patch.ValidOwing(NONE)
    ensures o == Done ==> Severed(tx.text, old(tx.Now()), tx.Now(), parent, t)
    ensures o == Done && Whole(old(tx.children), parent, t) ==>
              tx.Valid() && (old(tx.Open()) ==> tx.Open()) && Robed(old(tx.patch.store.Live()), tx.patch.store.Live(), tx.patch.keys)
  {
    hide Hive.Valid, Hive.Live, Hive.Starts, Owns, Family, Pending, Traced, Sound, Cached, Patch.ValidOwing, After, Good, Elements,
         KeyCells, Folded, Pruned, Opened, Robed, Whole, Same, Removed, U32, IsKey, Unbatched, BatchOk, Clean, Walk, Clearable, Hope;
    ghost var live, ring, keys, nodes, children, parents, batches := tx.patch.store.Live(), tx.patch.ring, tx.patch.keys, tx.nodes,
        tx.children, tx.parents, tx.batches;
    ghost var s := tx.Now();
    o := Refused;
    tx.patch.Expand(NONE);
    tx.StandsNow();
    tx.EstateHolds();
    tx.FamilyHolds();
    FamilyAt(tx.patch.store.root, keys, children, parents, parent, cell);
    ghost var hope := Hope(live, nodes, keys, cell);
    var ok, visited;
    ok, visited, t := RemoveKey(tx.patch, tx.minor, cell, {}, 0, nodes, hope);
    if ok {
      ghost var gone := Elements(KeyCells(t));
      assert visited == gone;
      GoodClears(live, nodes, keys, t, cell);
      OwnsDomain(live, tx.minor, ring, keys, nodes);
      tx.patch.Expand(NONE);
      RemovedMeans(live, tx.patch.store.Live(), nodes, ring, tx.patch.ring, keys, tx.patch.keys, t);
      EstateLess(tx.patch.store.Starts(), tx.patch.store.Live(), tx.minor, tx.patch.ring, tx.patch.keys, nodes, gone);
      if Whole(children, parent, t) {
        AfterDelete(tx.text, tx.minor, tx.patch.store.root, s, tx.patch.store.Live(), tx.patch.ring, t, parent);
        AnchorStays(live, tx.patch.store.Live(), ring, tx.patch.ring, keys, gone, nodes, tx.patch.store.root);
      }
      tx.batches := Unbatched(tx.batches, visited, parent, tx.text.fold(name));
      tx.nodes, tx.children, tx.parents := tx.nodes - gone, Pruned(tx.children, gone, parent, cell), tx.parents - gone;
      o := Done;
    }
  }

  lemma RemovedMeans(live: Live, m: Live, nodes: map<nat, Node>, ring: seq<nat>, rest: seq<nat>, keys: set<nat>, left: set<nat>, t: KeyTree)
    requires Removed(live, m, nodes, ring, rest, keys, left, t)
    ensures left == keys - Elements(KeyCells(t)) && t.cell in keys
  {
    hide After, Spans;
    assert t.cell in KeyCells(t);
  }

  lemma AnchorStays(live: Live, m: Live, ring: seq<nat>, rest: seq<nat>, keys: set<nat>, gone: set<nat>, nodes: map<nat, Node>, root: nat)
    requires Sound(live, ring, keys, NONE) && Sound(m, rest, keys - gone, NONE) && root !in gone && root in nodes
             && Same(live, m, keys - gone, nodes)
    requires root in keys && root in live && IsKey(live[root]) && SecurityOf(live[root]) in ring
    ensures root in m && IsKey(m[root]) && SecurityOf(m[root]) in rest
  {
    hide Owned, U32;
    SameKey(live, m, keys - gone, nodes, root);
    KeyFacts(m, rest, keys - gone);
    BelowNone(live, ring, keys, NONE);
  }

  /** A key has a child of some name whose stored subtree a removal gets through. */
  ghost predicate Deletable(x: Text, live: Live, nodes: map<nat, Node>, keys: set<nat>, children: map<nat, set<nat>>,
                          batches: map<nat, Batch>, parent: nat, name: string) {
    && !Unloadable(x, live, nodes, batches, parent) && parent in children
    && exists c :: c in children[parent] && Folded(x, live, c) == x.fold(name) && Clearable(live, nodes, keys, c)
  }

  /** Deletes the pending child of a key that has a given name, with everything stored below it. */
  method DeleteSubkey(tx: Transaction, parent: nat, name: string) returns (o: Outcome, ghost held: map<nat, Batch>, ghost t: KeyTree)
    requires tx.Valid() && parent in tx.patch.keys
    modifies tx`batches, tx`nodes, tx`children, tx`parents, tx.patch`securityCells, tx.patch`ring, tx.patch`keys, tx.patch.store.Repr
    ensures fresh(tx.patch.store.Repr - old(tx.patch.store.Repr)) && old(tx.patch.store.Starts()) <= tx.patch.store.Starts()
            && |tx.patch.store.data| == |old(tx.patch.store.data)|
    ensures o == Done <==> Deletable(tx.text, old(tx.patch.store.Live()), old(tx.nodes), old(tx.patch.keys), old(tx.children),
            old(tx.batches), parent, name)
    ensures o == Done ==> Chosen(tx.text, old(tx.patch.store.Live()), old(tx.nodes), old(tx.patch.keys), old(tx.children), old(tx.batches),
            held, parent, name, t) && tx.patch.ValidOwing(NONE)
    ensures o == Done ==> Severed(tx.text, old(tx.Now()).(batches := held), tx.Now(), parent, t)
    ensures o == Done && Whole(old(tx.children), parent, t) ==>
              tx.Valid() && (old(tx.Open()) ==> tx.Open()) && Robed(old(tx.patch.store.Live()), tx.patch.store.Live(), tx.patch.keys)
  {
    hide Hive.Valid, Hive.Live, Hive.Starts, Owns, Family, Pending, Traced, Patch.Valid, Folded, BatchOk, Loadable, Opened, Severed, Whole,
         Clearable, Good, Robed, Clean, Walk;
    ghost var live, keys := tx.patch.store.Live(), tx.patch.keys;
    tx.PendingHolds();
    t := Key(0, EMPTY, NoKey);
    o := tx.ChildBatch(parent);
    tx.PendingHolds();
    held := tx.batches;
    Reload(old(tx.batches), old(tx.batches), held, parent);
    if Opened(tx.text, live, keys, tx.nodes, old(tx.batches)) { OpenedMore(tx.text, live, keys, tx.nodes, old(tx.batches), held); }
    if o == Done {
      PendingAt(tx.text, live, keys, tx.nodes, tx.children, tx.batches, parent);
      OneNamed(tx.text, live, tx.batches[parent].cells, tx.children[parent], tx.text.fold(name));
      o := Refused;
      if tx.text.fold(name) in tx.batches[parent].cells {
        var cell := tx.batches[parent].cells[tx.text.fold(name)];
        o, t := DeleteTree(tx, parent, name, cell);
        GoodTop(live, old(tx.nodes), keys, t, cell);
      }
    }
  }

  /** The subtree a deletion takes: that of the one child with the name. */
  ghost predicate Chosen(x: Text, live: Live, nodes: map<nat, Node>, keys: set<nat>, children: map<nat, set<nat>>, batches: map<nat, Batch>,
                         held: map<nat, Batch>, parent: nat, name: string, t: KeyTree) {
    && Reloaded(batches, held) && parent in held && held.Keys == batches.Keys + {parent} && Good(live, nodes, keys, t, t.cell, 0, {})
    && parent in children && t.cell in children[parent] && Folded(x, live, t.cell) == x.fold(name)
    && forall c :: c in children[parent] && Folded(x, live, c) == x.fold(name) ==> c == t.cell
  }

  lemma OneNamed(x: Text, live: Live, cells: map<string, nat>, kids: set<nat>, folded: string)
    requires BatchOk(x, live, cells, kids)
    ensures forall c :: c in kids && Folded(x, live, c) == folded ==> folded in cells && cells[folded] == c
    ensures folded in cells ==> cells[folded] in kids && Folded(x, live, cells[folded]) == folded
  {
    hide Folded;
  }

  lemma GoodTop(live: Live, nodes: map<nat, Node>, keys: set<nat>, t: KeyTree, cell: nat)
    ensures Good(live, nodes, keys, t, cell, 0, {}) ==> t.cell == cell && Walk(live, nodes, keys, t)
  {
  }

  // ----- while nothing is created

  /** Since the hive was opened there were deletions only: every list names the children left and cells that are gone,
    * and a list that is waiting names at least one that is gone. */
  ghost predicate Shrunk(live: Live, keys: set<nat>, nodes: map<nat, Node>, children: map<nat, set<nat>>, batches: map<nat, Batch>) {
    forall k :: k in keys && k in children ==> Shrinks(live, nodes, children[k], IsDirty(batches, k), k)
  }

  ghost predicate Shrinks(live: Live, nodes: map<nat, Node>, kids: set<nat>, dirty: bool, k: nat) {
    && (forall c :: c in kids ==> c in StoredAt(live, nodes, k)) && (forall e :: e in StoredAt(live, nodes, k) ==> e in kids || e !in live)
    && (dirty ==> exists e :: e in StoredAt(live, nodes, k) && e !in live)
  }

  /** When no list is waiting, nothing is gone. */
  lemma ShrunkStart(x: Text, a: State, minor: nat, root: nat)
    requires Owns(a.live, minor, a.ring, a.keys, a.nodes) && Family(root, a.keys, a.children, a.parents)
             && Pending(x, a.live, a.keys, a.nodes, a.children, a.batches) && forall k :: !IsDirty(a.batches, k)
    ensures Shrunk(a.live, a.keys, a.nodes, a.children, a.batches)
  {
    hide Owns, Family, Pending, Holds, Listed, U32, Named;
    forall k | k in a.keys && k in a.children ensures Shrinks(a.live, a.nodes, a.children[k], IsDirty(a.batches, k), k) {
      assert !IsDirty(a.batches, k);
      OpenClean(x, a, minor, root, k);
      assert forall e :: e in StoredAt(a.live, a.nodes, k) <==> e in StoredChildren(a.live, a.nodes[k]);
    }
  }

  /** While nothing is created, a stored subtree that can be removed has no waiting list in it. */
  lemma ShrunkCalm(live: Live, minor: nat, ring: seq<nat>, keys: set<nat>, nodes: map<nat, Node>, children: map<nat, set<nat>>,
                   batches: map<nat, Batch>, t: KeyTree)
    requires Shrunk(live, keys, nodes, children, batches) && Owns(live, minor, ring, keys, nodes) && children.Keys == keys
             && Walk(live, nodes, keys, t)
    ensures NoneDirty(batches, KeyCells(t))
  {
    hide Owns, Spans, KeyCells, Distinct;
    OwnsDomain(live, minor, ring, keys, nodes);
    forall k | k in KeyCells(t) ensures !IsDirty(batches, k) {
      assert Shrinks(live, nodes, children[k], IsDirty(batches, k), k);
      forall e | e in StoredAt(live, nodes, k) ensures e in live { ListsInside(live, nodes, t, k, e); }
    }
  }

  /** So the stored subtree is the pending one. */
  lemma ShrunkExact(x: Text, a: State, minor: nat, root: nat, t: KeyTree, parent: nat)
    requires Owns(a.live, minor, a.ring, a.keys, a.nodes) && Family(root, a.keys, a.children, a.parents)
             && Pending(x, a.live, a.keys, a.nodes, a.children, a.batches) && Shrunk(a.live, a.keys, a.nodes, a.children, a.batches)
    requires Walk(a.live, a.nodes, a.keys, t) && parent in a.keys && parent in a.children && t.cell in a.children[parent]
    ensures Whole(a.children, parent, t) && NoneDirty(a.batches, KeyCells(t))
  {
    hide Owns, Family, Pending, Shrunk, Spans, Distinct, KeyCells, NoneDirty;
    FamilyDomain(root, a.keys, a.children, a.parents);
    ShrunkCalm(a.live, minor, a.ring, a.keys, a.nodes, a.children, a.batches, t);
    CalmSettled(x, a.live, a.keys, a.nodes, a.children, a.batches, KeyCells(t));
    SettledExact(a.live, root, a.keys, a.nodes, a.children, a.parents, t, parent);
  }

  /** A deletion leaves nothing but deletions. */
  lemma ShrunkAfter(x: Text, minor: nat, root: nat, a: State, b: State, parent: nat, t: KeyTree)
    requires Severed(x, a, b, parent, t) && Shrunk(a.live, a.keys, a.nodes, a.children, a.batches) && Stands(minor, root, a)
    requires parent in a.keys && parent in a.children && t.cell in a.children[parent] && parent in a.batches && parent !in KeyCells(t)
    ensures Shrunk(b.live, b.keys, b.nodes, b.children, b.batches)
  {
    hide Owns, Sound, Family, Spans, Distinct, KeyCells, All, Folded, After, Same, Shrinks;
    OwnsDomain(a.live, minor, a.ring, a.keys, a.nodes);
    FamilyDomain(root, a.keys, a.children, a.parents);
    SourcedKey(a.live, a.nodes, t);
    KeyOwned(t);
    TopIsGone(t);
    LeftSame(a.live, b.live, minor, a.ring, b.ring, a.keys, a.nodes, All(t), KeyCells(t));
    forall k | k in b.keys && k in b.children ensures Shrinks(b.live, b.nodes, b.children[k], IsDirty(b.batches, k), k) {
      assert Shrinks(a.live, a.nodes, a.children[k], IsDirty(a.batches, k), k);
      ListStays(a.live, b.live, minor, a.ring, a.keys, b.keys, a.nodes, b.nodes, k);
      ShrinksAfter(a.live, b.live, a.ring, b.ring, a.nodes, b.nodes, a.children[k], b.children[k], IsDirty(a.batches, k),
          IsDirty(b.batches, k), k, t);
    }
  }

  lemma ListStays(live: Live, m: Live, minor: nat, ring: seq<nat>, keys: set<nat>, left: set<nat>, nodes: map<nat, Node>,
                  boughs: map<nat, Node>, k: nat)
    requires Owns(live, minor, ring, keys, nodes) && Same(live, m, left, nodes) && left <= keys && k in left && k in nodes && k in boughs
             && boughs[k] == nodes[k]
    ensures StoredAt(m, boughs, k) == StoredAt(live, nodes, k)
  {
    hide Owns, Same, NodeHolds, Holds, Listed;
    OwnsAt(live, minor, ring, keys, nodes, k);
    IndexThere(live, minor, k, nodes[k]);
    if nodes[k].index.Some? { IndexSame(live, m, left, nodes, k); }
  }

  lemma ShrinksAfter(live: Live, m: Live, ring: seq<nat>, rest: seq<nat>, nodes: map<nat, Node>, boughs: map<nat, Node>, was: set<nat>,
                     now: set<nat>, dirty: bool, dirtied: bool, k: nat, t: KeyTree)
    requires Shrinks(live, nodes, was, dirty, k) && StoredAt(m, boughs, k) == StoredAt(live, nodes, k)
             && After(live, m, ring, rest, Elements(All(t)))
    requires was - {t.cell} <= now <= was && (dirtied ==> dirty || t.cell in was) && t.cell in All(t)
    ensures Shrinks(m, boughs, now, dirtied, k)
  {
    hide Spans, All, KeyCells;
    if dirtied && t.cell in was { assert t.cell in StoredAt(m, boughs, k) && t.cell !in m; }
  }

  // ----- what is left

  /** A key below the deleted one that the stored lists do not lead to stays: its cells are kept, and no path leads to it. */
  lemma LeftBehind(x: Text, minor: nat, root: nat, a: State, b: State, trail: seq<nat>, t: KeyTree, k: nat)
    requires Stands(minor, root, a) && Rooted(root, a.children, trail) && |trail| >= 2 && t.cell == trail[|trail| - 1]
    requires Severed(x, a, b, trail[|trail| - 2], t) && Below(a.children, t.cell, k) && k !in KeyCells(t)
    ensures k in b.keys && k in b.live && k in b.children && !Below(b.children, root, k)
  {
    hide Owns, Sound, Family, KeyCells, Spans, After, Unbatched, Folded, Distinct, Same, All, Owned;
    RootedKeys(root, a.keys, a.children, a.parents, trail);
    FamilyDomain(root, a.keys, a.children, a.parents);
    BelowKeys(root, a.keys, a.children, a.parents, t.cell, k);
    OwnsDomain(a.live, minor, a.ring, a.keys, a.nodes);
    SourcedKey(a.live, a.nodes, t);
    LeftSame(a.live, b.live, minor, a.ring, b.ring, a.keys, a.nodes, All(t), KeyCells(t));
    SameKey(a.live, b.live, a.keys - Elements(KeyCells(t)), a.nodes, k);
    if Below(b.children, root, k) {
      var v :| v != [] && v[0] == root && v[|v| - 1] == k && Chain(b.children, v);
      var gone, p := Elements(KeyCells(t)), trail[|trail| - 2];
      TopIsGone(t);
      PrunedChain(a.children, gone, p, t.cell, v);
      Passes(root, a.keys, a.children, a.parents, trail, v, |v| - 1);
      CutLink(a.children, gone, p, t.cell, v, |trail| - 2, trail);
      assert false;
    }
  }

  lemma CutLink(children: map<nat, set<nat>>, gone: set<nat>, parent: nat, cell: nat, v: seq<nat>, i: nat, trail: seq<nat>)
    requires |trail| == i + 2 && i + 1 < |v| && v[..i + 2] == trail && trail[i] == parent && trail[i + 1] == cell
    ensures !Chain(Pruned(children, gone, parent, cell), v)
  {
    assert v[i] == trail[i] && v[i + 1] == trail[i + 1];
  }

  /** A key that was reached from the root, but not through the deleted one, and is gone: some list left names a freed cell. */
  lemma TooMuch(x: Text, root: nat, a: State, b: State, parent: nat, t: KeyTree, k: nat) returns (q: nat, c: nat)
    requires Severed(x, a, b, parent, t) && a.children.Keys == a.keys && root in b.keys
    requires k in KeyCells(t) && Below(a.children, root, k) && !Below(a.children, t.cell, k)
    ensures q in b.keys && q in b.children && c in b.children[q] && c in KeyCells(t) && c !in b.keys && c !in b.live
  {
    hide KeyCells, Spans, Unbatched, Folded, Distinct, All, Below;
    KeyOwned(t);
    var v := BelowTrail(a.children, root, k);
    var i := Enters(Elements(KeyCells(t)), v);
    assert v[i - 1] in a.children && v[i] in a.children[v[i - 1]];
    if v[i] == t.cell { BelowTail(a.children, v, i); }
    q, c := v[i - 1], v[i];
  }

  /** Where a chain enters a set. */
  lemma {:induction false} Enters(gone: set<nat>, v: seq<nat>) returns (i: nat)
    requires v != [] && v[0] !in gone && v[|v| - 1] in gone
    ensures 0 < i < |v| && v[i - 1] !in gone && v[i] in gone
  {
    i := |v| - 1;
    if v[i - 1] in gone { i := Enters(gone, v[..i]); }
  }

  /** What is left after an exact deletion is all reached from the root. */
  lemma PrunedReached(root: nat, keys: set<nat>, children: map<nat, set<nat>>, parents: map<nat, nat>, parent: nat, t: KeyTree)
    requires Family(root, keys, children, parents) && Whole(children, parent, t) && Intact(root, keys, children)
             && (forall k :: k in KeyCells(t) ==> k in keys) && parent in keys && t.cell in children[parent]
    ensures var gone := Elements(KeyCells(t)); Intact(root, keys - gone, Pruned(children, gone, parent, t.cell))
  {
    hide Family, KeyCells, Below;
    var gone := Elements(KeyCells(t));
    var kids := Pruned(children, gone, parent, t.cell);
    FamilyDomain(root, keys, children, parents);
    Outside(root, keys, children, parents, t, parent);
    assert t.cell in gone by { TopIsGone(t); }
    forall k | k in keys - gone ensures Below(kids, root, k) {
      var v := BelowTrail(children, root, k);
      forall i | 0 <= i < |v| ensures v[i] !in gone {
        if v[i] in gone { BelowTail(children, v, i); BelowThen(children, t.cell, v[i], k); }
      }
      PrunedChain(children, gone, parent, t.cell, v);
      ChainIsBelow(kids, v);
    }
    assert keys - gone == BelowSet(kids, root);
  }

  /** After a deletion every key left is reached and no list left names a freed cell, exactly if the stored lists lead from the deleted key
    * where the pending ones do. */
  lemma CutExactly(x: Text, minor: nat, root: nat, a: State, b: State, trail: seq<nat>, t: KeyTree)
    requires Stands(minor, root, a) && Intact(root, a.keys, a.children) && Rooted(root, a.children, trail) && |trail| >= 2
    requires t.cell == trail[|trail| - 1] && Severed(x, a, b, trail[|trail| - 2], t)
    ensures Intact(root, b.keys, b.children) <==> Matched(a.live, a.nodes, a.children, t.cell)
  {
    hide Owns, Sound, Family, KeyCells, Spans, After, Unbatched, Pruned, Folded, Distinct, Links, Below, Chain;
    var p := trail[|trail| - 2];
    RootedKeys(root, a.keys, a.children, a.parents, trail);
    FamilyDomain(root, a.keys, a.children, a.parents);
    RootedLink(root, a.children, trail);
    MatchedWhole(a.live, a.nodes, root, a.keys, a.children, a.parents, trail, t);
    SpansReach(a.live, a.nodes, t);
    if Whole(a.children, p, t) { PrunedReached(root, a.keys, a.children, a.parents, p, t); }
    if Intact(root, b.keys, b.children) {
      forall k ensures Below(Links(a.live, a.nodes), t.cell, k) <==> Below(a.children, t.cell, k) {
        if k in KeyCells(t) && !Below(a.children, t.cell, k) {
          var q, c := TooMuch(x, root, a, b, p, t, k);
          assert false;
        }
        if k !in KeyCells(t) && Below(a.children, t.cell, k) {
          LeftBehind(x, minor, root, a, b, trail, t, k);
          assert false;
        }
      }
    }
  }

  lemma RootedLink(root: nat, children: map<nat, set<nat>>, trail: seq<nat>)
    requires Rooted(root, children, trail) && |trail| >= 2
    ensures trail[|trail| - 2] in children && trail[|trail| - 1] in children[trail[|trail| - 2]]
  {
  }

  // ----- by path

  /** Why a path cannot be deleted: it is empty, it leads nowhere, or the key it names has no subtree that a removal gets through. */
  ghost predicate Undeletable(x: Text, live: Live, nodes: map<nat, Node>, keys: set<nat>, children: map<nat, set<nat>>,
                          batches: map<nat, Batch>, trail: seq<nat>, parts: seq<string>) {
    || parts == []
    || (0 < |trail| <= |parts| && Path(x, live, children, trail, parts[..|trail| - 1])
        && (if |trail| < |parts| then Unloadable(x, live, nodes, batches, trail[|trail| - 1])
            || Missing(x, live, children, trail[|trail| - 1], parts[|trail| - 1])
            else !Deletable(x, live, nodes, keys, children, batches, trail[|trail| - 1], parts[|trail| - 1])))
  }

  /** Whatever way a path of names is followed from the root, it ends at one cell. */
  ghost predicate OnlyAt(x: Text, live: Live, children: map<nat, set<nat>>, root: nat, parts: seq<string>, cell: nat) {
    forall there :: there != [] && there[0] == root && Path(x, live, children, there, parts) ==> there[|parts|] == cell
  }

  lemma OnlyParent(tx: Transaction, trail: seq<nat>, parts: seq<string>)
    requires tx.Valid() && parts != [] && |trail| == |parts| && trail[0] == tx.patch.store.root
    requires Path(tx.text, tx.patch.store.Live(), tx.children, trail, parts[..|parts| - 1])
             && forall i :: 0 <= i < |parts| - 1 ==> trail[i] in tx.batches
    ensures OnlyAt(tx.text, tx.patch.store.Live(), tx.children, tx.patch.store.root, parts[..|parts| - 1], trail[|parts| - 1])
  {
    hide Hive.Valid, Hive.Live, Hive.Starts, Owns, Family, Pending, Traced, Patch.Valid, Step;
    var n, live := |parts| - 1, tx.patch.store.Live();
    forall there | there != [] && there[0] == tx.patch.store.root && Path(tx.text, live, tx.children, there, parts[..n])
        ensures there[n] == trail[n] {
      assert parts[..n][..n] == parts[..n];
      OnePath(tx, trail, there, parts[..n], n);
    }
  }

  lemma ReloadedStuck(x: Text, live: Live, nodes: map<nat, Node>, a: map<nat, Batch>, b: map<nat, Batch>, k: nat)
    requires Reloaded(a, b)
    ensures Unloadable(x, live, nodes, b, k) ==> Unloadable(x, live, nodes, a, k)
    ensures forall j :: IsDirty(a, j) ==> IsDirty(b, j)
  {
    hide Loadable;
  }

  lemma DeletableStill(x: Text, live: Live, nodes: map<nat, Node>, keys: set<nat>, children: map<nat, set<nat>>, a: map<nat, Batch>,
                       b: map<nat, Batch>, parent: nat, name: string)
    requires Reloaded(a, b) && Deletable(x, live, nodes, keys, children, a, parent, name)
    ensures Deletable(x, live, nodes, keys, children, b, parent, name)
  {
    hide Loadable, Folded, Clearable;
    ReloadedStuck(x, live, nodes, a, b, parent);
  }

  lemma ChosenMeans(x: Text, live: Live, nodes: map<nat, Node>, keys: set<nat>, children: map<nat, set<nat>>, a: map<nat, Batch>,
                    b: map<nat, Batch>, held: map<nat, Batch>, root: nat, name: string, t: KeyTree,
                    trail: seq<nat>, parts: seq<string>)
    requires parts != [] && |trail| == |parts| && trail[0] == root && name == parts[|parts| - 1]
             && Path(x, live, children, trail, parts[..|parts| - 1])
    requires Reloaded(a, b) && Chosen(x, live, nodes, keys, children, b, held, trail[|parts| - 1], name, t)
             && OnlyAt(x, live, children, root, parts[..|parts| - 1], trail[|parts| - 1])
    ensures Path(x, live, children, trail + [t.cell], parts) && OnlyAt(x, live, children, root, parts, t.cell)
    ensures Reloaded(a, held) && trail[|parts| - 1] in held && Good(live, nodes, keys, t, t.cell, 0, {})
  {
    hide Folded, Good;
    var n := |parts| - 1;
    StepIs(x, live, children, trail[n], name, t.cell);
    PathStep(x, live, children, trail, parts[..n], name, t.cell);
    assert parts[..n] + [name] == parts;
    forall there | there != [] && there[0] == root && Path(x, live, children, there, parts) ensures there[|parts|] == t.cell {
      PathPrefix(x, live, children, there, parts, n);
      assert there[..n + 1][n] == there[n];
      PathLast(x, live, children, there, parts);
    }
  }

  lemma PathChain(x: Text, live: Live, children: map<nat, set<nat>>, trail: seq<nat>, parts: seq<string>)
    requires Path(x, live, children, trail, parts)
    ensures Chain(children, trail)
  {
    hide Folded;
    forall i | 0 <= i < |trail| - 1 ensures trail[i] in children && trail[i + 1] in children[trail[i]] {
      assert Step(x, live, children, trail[i], parts[i], trail[i + 1]);
    }
  }

  lemma PathLast(x: Text, live: Live, children: map<nat, set<nat>>, there: seq<nat>, parts: seq<string>)
    requires Path(x, live, children, there, parts) && parts != []
    ensures Step(x, live, children, there[|parts| - 1], parts[|parts| - 1], there[|parts|])
  {
    hide Step;
  }

  /** Deletes the key a path names. The root cannot be deleted. */
  method DeleteKey(tx: Transaction, parts: seq<string>)
    returns (o: Outcome, ghost trail: seq<nat>, ghost held: map<nat, Batch>, ghost t: KeyTree)
    requires tx.Valid()
    modifies tx`batches, tx`nodes, tx`children, tx`parents, tx.patch`securityCells, tx.patch`ring, tx.patch`keys, tx.patch.store.Repr
    ensures fresh(tx.patch.store.Repr - old(tx.patch.store.Repr)) && old(tx.patch.store.Starts()) <= tx.patch.store.Starts()
            && |tx.patch.store.data| == |old(tx.patch.store.data)|
    ensures trail != [] && trail[0] == tx.patch.store.root
    ensures o == Refused ==> Undeletable(tx.text, old(tx.patch.store.Live()), old(tx.nodes), old(tx.patch.keys), old(tx.children),
            old(tx.batches), trail, parts)
    ensures o == Done ==>
              parts != [] && |trail| == |parts| + 1 && Path(tx.text, old(tx.patch.store.Live()), old(tx.children), trail, parts)
              && t.cell == trail[|parts|]
    ensures o == Done ==> OnlyAt(tx.text, old(tx.patch.store.Live()), old(tx.children), tx.patch.store.root, parts, t.cell)
    ensures o == Done ==>
              Reloaded(old(tx.batches), held) && trail[|parts| - 1] in held
              && Good(old(tx.patch.store.Live()), old(tx.nodes), old(tx.patch.keys), t, t.cell, 0, {})
    ensures o == Done ==> Severed(tx.text, old(tx.Now()).(batches := held), tx.Now(), trail[|parts| - 1], t)
    ensures o == Done && Matched(old(tx.patch.store.Live()), old(tx.nodes), old(tx.children), t.cell) ==>
              tx.Valid() && (old(tx.Open()) ==> tx.Open()) && Robed(old(tx.patch.store.Live()), tx.patch.store.Live(), tx.patch.keys)
    ensures o == Done && old(Intact(tx.patch.store.root, tx.patch.keys, tx.children)) ==>
              (Intact(tx.patch.store.root, tx.patch.keys, tx.children)
              <==> Matched(old(tx.patch.store.Live()), old(tx.nodes), old(tx.children), t.cell))
  {
    hide Hive.Valid, Hive.Live, Hive.Starts, Owns, Family, Pending, Traced, Patch.Valid, Folded, Loadable, Opened, Severed, Whole, Good,
         Robed, Path, Missing, Deletable, OnlyAt, Intact, Matched, Sound, Chain;
    ghost var live, nodes, children, s := tx.patch.store.Live(), tx.nodes, tx.children, tx.Now();
    tx.StandsNow();
    o, held, t, trail := Refused, tx.batches, Key(0, EMPTY, NoKey), [tx.patch.store.root];
    if parts != [] {
      var n := |parts| - 1;
      var r;
      o, r, trail := tx.LookupKey(parts[..n]);
      assert parts[..n][..|trail| - 1] == parts[..|trail| - 1];
      if |trail| <= n { assert parts[..n][|trail| - 1] == parts[|trail| - 1]; }
      ghost var loaded := tx.batches;
      ReloadedStuck(tx.text, live, nodes, old(tx.batches), loaded, trail[|trail| - 1]);
      if Opened(tx.text, live, tx.patch.keys, nodes, old(tx.batches)) {
        OpenedMore(tx.text, live, tx.patch.keys, nodes, old(tx.batches), loaded);
      }
      if r.None? {
        o := Refused;
      } else {
        OnlyParent(tx, trail, parts);
        o, held, t := DeleteSubkey(tx, r.value, parts[n]);
        if o == Done {
          ChosenMeans(tx.text, live, nodes, old(tx.patch.keys), children, old(tx.batches), loaded, held, tx.patch.store.root, parts[n], t,
              trail, parts);
          trail := trail + [t.cell];
          PathChain(tx.text, live, children, trail, parts);
          GoodTop(live, nodes, s.keys, t, t.cell);
          MatchedWhole(live, nodes, tx.patch.store.root, s.keys, children, s.parents, trail, t);
          if Intact(tx.patch.store.root, s.keys, children) {
            CutExactly(tx.text, tx.minor, tx.patch.store.root, s.(batches := held), tx.Now(), trail, t);
          }
        } else {
          if Deletable(tx.text, live, nodes, old(tx.patch.keys), children, old(tx.batches), r.value, parts[n]) {
            DeletableStill(tx.text, live, nodes, old(tx.patch.keys), children, old(tx.batches), loaded, r.value, parts[n]);
          }
        }
      }
    }
  }
}
