/** A whole patch of a hive: deletions, then creations with their security, lookups at any time, and the commit. */
module PatchRun {
  import opened Bytes
  import opened HiveLayout
  import opened HiveImage
  import opened MutableHive
  import opened SecurityRing
  import opened SubkeyIndex
  import opened HivePatch
  import opened KeyDeletion
  import opened HiveBatch
  import opened KeyPaths
  import opened SubtreeRemoval
  import opened SubtreeDeletion
  import opened SubtreeLimits
  import opened HiveCommit
  import opened NameTree
  import opened EnlargedKeys
  import opened RemovablePaths
  import opened DeletableShape
  import opened CreatedPaths
  import opened CommitSize
  import opened HiveStart

  /** What a transaction shows. */
  ghost function View(tx: Transaction): Shape
    reads tx, tx.patch, tx.patch.store
  {
    ShapeOf(tx.text, tx.patch.store.Live(), tx.children, tx.patch.store.root)
  }

  /** Every key of a transaction is reached from the root. */
  ghost predicate AllReached(tx: Transaction)
    reads tx, tx.patch, tx.patch.store
  {
    Intact(tx.patch.store.root, tx.patch.keys, tx.children)
  }

  lemma Opens(tx: Transaction)
    requires tx.Valid() && tx.Open()
    ensures Unambiguous(tx.text, tx.patch.store.Live(), tx.children) && tx.patch.store.root in tx.patch.keys
            && Family(tx.patch.store.root, tx.patch.keys, tx.children, tx.parents)
    ensures tx.children.Keys == tx.patch.keys == tx.nodes.Keys
    ensures forall k :: k in tx.patch.keys ==> !Unloadable(tx.text, tx.patch.store.Live(), tx.nodes, tx.batches, k)
  {
    hide Hive.Valid, Hive.Live, Hive.Starts, Owns, Family, Pending, Traced, Patch.Valid, Opened, Unambiguous;
    tx.EstateHolds();
    tx.FamilyHolds();
    tx.PendingHolds();
    tx.RootIsKey();
    OpenUnambiguous(tx.text, tx.Now(), tx.minor, tx.patch.store.root);
    forall k | k in tx.patch.keys ensures !Unloadable(tx.text, tx.patch.store.Live(), tx.nodes, tx.batches, k) {
      OpenLoads(tx.text, tx.patch.store.Live(), tx.patch.keys, tx.nodes, tx.batches, k);
    }
  }

  lemma OpenLoads(x: Text, live: Live, keys: set<nat>, nodes: map<nat, Node>, batches: map<nat, Batch>, k: nat)
    requires Opened(x, live, keys, nodes, batches) && k in keys
    ensures !Unloadable(x, live, nodes, batches, k)
  {
    hide Loadable, Walks;
  }

  /** A lookup finds a key exactly if the path is in the view. */
  method Lookup(tx: Transaction, parts: seq<string>) returns (o: Outcome, r: Option<nat>)
    requires tx.Valid() && tx.Open()
    modifies tx`batches
    ensures o == Done && tx.Valid() && tx.Open() && View(tx) == old(View(tx))
    ensures r.Some? <==> FoldAll(tx.text, parts) in View(tx)
    ensures r.Some? ==> InfoOf(tx.patch.store.Live(), r.value) == View(tx)[FoldAll(tx.text, parts)]
    ensures forall k :: IsDirty(tx.batches, k) <==> IsDirty(old(tx.batches), k)
  {
    hide Hive.Valid, Hive.Live, Hive.Starts, Owns, Family, Pending, Traced, Patch.Valid, Opened, Unambiguous, Path, Missing, Folded,
         ShapeOf, InfoOf, Loadable;
    ghost var live := tx.patch.store.Live();
    Opens(tx);
    ghost var trail;
    o, r, trail := tx.LookupKey(parts);
    DirtySame(old(tx.batches), tx.batches);
    OpenedMore(tx.text, live, tx.patch.keys, tx.nodes, old(tx.batches), tx.batches);
    Opens(tx);
    PathIs(tx.text, live, tx.children, trail, parts[..|trail| - 1]);
    assert parts[..|parts|] == parts;
    if r.Some? {
      ShapeAt(tx.text, live, tx.children, tx.patch.store.root, trail);
    } else {
      assert trail[|trail| - 1] in tx.patch.keys;
      Absent(tx.text, live, tx.children, tx.patch.store.root, trail, parts);
    }
  }

  lemma DirtySame(a: map<nat, Batch>, b: map<nat, Batch>)
    requires Reloaded(a, b)
    ensures forall k :: IsDirty(a, k) <==> IsDirty(b, k)
  {
  }

  /** Where a trail has no child of the next name, the path is not in the shape. */
  lemma Absent(x: Text, live: Live, children: map<nat, set<nat>>, root: nat, trail: seq<nat>, parts: seq<string>)
    requires Unambiguous(x, live, children) && 0 < |trail| <= |parts| && Rooted(root, children, trail)
             && Names(x, live, trail) == FoldAll(x, parts[..|trail| - 1])
    requires Missing(x, live, children, trail[|trail| - 1], parts[|trail| - 1])
    ensures FoldAll(x, parts) !in ShapeOf(x, live, children, root)
  {
    hide Unambiguous, Folded, ShapeOf, InfoOf;
    var f := FoldAll(x, parts);
    if f in ShapeOf(x, live, children, root) {
      var u := ShapeFrom(x, live, children, root, f);
      SameFront(x, live, children, root, u, trail, parts);
      assert false;
    }
  }

  lemma SameFront(x: Text, live: Live, children: map<nat, set<nat>>, root: nat, u: seq<nat>, trail: seq<nat>, parts: seq<string>)
    requires Unambiguous(x, live, children) && 0 < |trail| <= |parts| && Rooted(root, children, trail)
             && Names(x, live, trail) == FoldAll(x, parts[..|trail| - 1])
    requires Rooted(root, children, u) && Names(x, live, u) == FoldAll(x, parts)
    ensures |u| == |parts| + 1 && u[|trail| - 1] == trail[|trail| - 1]
  {
    hide Unambiguous, Folded;
    var n := |trail|;
    assert |Names(x, live, u)| == |FoldAll(x, parts)|;
    ChainFront(children, u, n);
    NamesFront(x, live, u, n);
    assert FoldAll(x, parts)[..n - 1] == FoldAll(x, parts[..n - 1]);
    OneTrail(x, live, children, root, u[..n], trail);
    assert u[..n][n - 1] == u[n - 1];
  }

  // ----- deletions

  /** The paths a deletion gets through. */
  ghost function Removables(tx: Transaction): iset<seq<string>>
    reads tx, tx.patch, tx.patch.store
  {
    iset f | Removable(tx.text, tx.patch.store.Live(), tx.children, tx.batches, tx.patch.store.root, f)
  }

  /** The paths that neither continue a path nor lead to it. */
  ghost function Beside(s: iset<seq<string>>, g: seq<string>): iset<seq<string>> { iset f | f in s && !(f <= g) && !(g <= f) }

  ghost predicate OnlyDeletions(tx: Transaction)
    reads tx, tx.patch, tx.patch.store
  {
    Shrunk(tx.patch.store.Live(), tx.patch.keys, tx.nodes, tx.children, tx.batches)
  }

  /** While there were deletions only, a deletion succeeds exactly if the path is in the view, nothing was deleted below it,
    * and it is within the limits; then exactly the path and all that continue it are gone. */
  method Delete(tx: Transaction, parts: seq<string>)
    returns (o: Outcome, ghost trail: seq<nat>, ghost held: map<nat, Batch>, ghost t: KeyTree)
    requires tx.Valid() && tx.Open() && OnlyDeletions(tx)
    modifies tx`batches, tx`nodes, tx`children, tx`parents, tx.patch`securityCells, tx.patch`ring, tx.patch`keys, tx.patch.store.Repr
    ensures fresh(tx.patch.store.Repr - old(tx.patch.store.Repr)) && |tx.patch.store.data| == |old(tx.patch.store.data)|
    ensures o == Done <==> FoldAll(tx.text, parts) in old(Removables(tx))
    ensures o == Done ==> tx.Valid() && tx.Open() && OnlyDeletions(tx) && View(tx) == Lop(old(View(tx)), FoldAll(tx.text, parts))
    ensures o == Done ==> Removables(tx) == Beside(old(Removables(tx)), FoldAll(tx.text, parts))
    ensures o == Done ==>
              Weight(tx) <= old(Weight(tx)) + 0x4400 && |tx.patch.keys| <= |old(tx.patch.keys)| && (old(AllReached(tx)) ==> AllReached(tx))
    ensures o == Done ==> tx.patch.keys == Spared(tx.text, tx.patch.store.root, old(tx.Now()), [FoldAll(tx.text, parts)])
    ensures o == Done ==> Untouched(tx.text, tx.patch.store.root, old(tx.Now()), tx.Now())
    ensures o == Done ==>
              |trail| == |parts| + 1 >= 2 && Rooted(tx.patch.store.root, old(tx.children), trail) && t.cell == trail[|parts|]
              && Names(tx.text, old(tx.patch.store.Live()), trail) == FoldAll(tx.text, parts)
              && Whole(old(tx.children), trail[|parts| - 1], t)
    ensures o == Done ==>
              Reloaded(old(tx.batches), held) && trail[|parts| - 1] in held
              && Severed(tx.text, old(tx.Now()).(batches := held), tx.Now(), trail[|parts| - 1], t)
  {
    hide Hive.Valid, Hive.Live, Hive.Starts, Owns, Family, Pending, Traced, Patch.Valid, Opened, Unambiguous, Path, Folded, ShapeOf, Good,
         Severed, Whole, Matched, Intact, Shrunk, Robed, Undeletable, OnlyAt, Clearable, There, Removable, Chain, Rooted, Reloaded, Unloadable, Lop, Sound,
         Cached, BatchOk, Clean, IsDirty, Elements, Dirty, PathOf;
    ghost var a, root, f := tx.Now(), tx.patch.store.root, FoldAll(tx.text, parts);
    Opens(tx);
    tx.StandsNow();
    tx.PendingHolds();
    RemovableClear(tx, f);
    o, trail, held, t := DeleteKey(tx, parts);
    if o == Done {
      DeleteFacts(tx.text, tx.minor, root, a, held, trail, parts, t);
      Opens(tx);
      tx.SoundHolds();
      SeveredShape(tx.text, tx.minor, root, a.(batches := held), tx.Now(), trail, t);
      SeveredSize(tx.text, a, held, tx.Now(), trail[|parts| - 1], t);
      SeveredPaths(tx.text, tx.minor, root, a, held, tx.Now(), trail, t);
      SeveredSpares(tx.text, tx.minor, root, a.(batches := held), tx.Now(), trail, t);
    } else {
      NotDeletable(tx.text, a.live, root, a.keys, a.nodes, a.children, a.parents, a.batches, trail, parts);
    }
  }

  lemma RemovableClear(tx: Transaction, f: seq<string>)
    requires tx.Valid() && tx.Open() && OnlyDeletions(tx)
    ensures var live, root := tx.patch.store.Live(), tx.patch.store.root;
            f in Removables(tx) <==>
              && f != [] && There(tx.text, live, tx.children, root, f)
              && Clearable(live, tx.nodes, tx.patch.keys, TrailTo(tx.text, live, tx.children, root, f)[|f|])
  {
    hide Hive.Valid, Hive.Live, Hive.Starts, Owns, Family, Pending, Traced, Patch.Valid, Opened, Unambiguous, Folded, Clearable, Quiet,
         Shrunk;
    Opens(tx);
    tx.EstateHolds();
    var live, root := tx.patch.store.Live(), tx.patch.store.root;
    if f != [] && There(tx.text, live, tx.children, root, f) {
      ClearableExact(tx.text, tx.Now(), tx.minor, root, TrailTo(tx.text, live, tx.children, root, f));
    }
  }

  /** What a deletion of a path says of the tree before it. */
  lemma DeleteFacts(x: Text, minor: nat, root: nat, a: State, held: map<nat, Batch>, trail: seq<nat>, parts: seq<string>, t: KeyTree)
    requires Stands(minor, root, a) && Pending(x, a.live, a.keys, a.nodes, a.children, a.batches)
             && Shrunk(a.live, a.keys, a.nodes, a.children, a.batches) && Unambiguous(x, a.live, a.children)
    requires Reloaded(a.batches, held) && parts != [] && |trail| == |parts| + 1 && trail[0] == root
             && Path(x, a.live, a.children, trail, parts)
    requires t.cell == trail[|parts|] && Good(a.live, a.nodes, a.keys, t, t.cell, 0, {})
    ensures Rooted(root, a.children, trail) && Names(x, a.live, trail) == FoldAll(x, parts) && trail[|parts| - 1] in a.children
            && t.cell in a.children[trail[|parts| - 1]] && trail[|parts| - 1] in a.keys
    ensures Whole(a.children, trail[|parts| - 1], t) && Matched(a.live, a.nodes, a.children, t.cell)
            && Shrunk(a.live, a.keys, a.nodes, a.children, held)
    ensures var f := FoldAll(x, parts);
            There(x, a.live, a.children, root, f) && TrailTo(x, a.live, a.children, root, f) == trail
            && Clearable(a.live, a.nodes, a.keys, trail[|f|])
  {
    hide Owns, Sound, Family, Pending, Unambiguous, Folded, KeyRoom, Spans, Shrinks, Whole, Matched;
    PathIs(x, a.live, a.children, trail, parts);
    RootedKeys(root, a.keys, a.children, a.parents, trail);
    ShrunkExact(x, a, minor, root, t, trail[|parts| - 1]);
    MatchedWhole(a.live, a.nodes, root, a.keys, a.children, a.parents, trail, t);
    DirtySame(a.batches, held);
    var f := FoldAll(x, parts);
    assert Reaches(x, a.live, a.children, root, f, trail);
    OneTrail(x, a.live, a.children, root, trail, TrailTo(x, a.live, a.children, root, f));
  }

  /** What is left when a subtree is gone looks as it did. */
  lemma SeveredNames(x: Text, minor: nat, root: nat, a: State, b: State, parent: nat, t: KeyTree)
    requires Stands(minor, root, a) && Severed(x, a, b, parent, t)
    ensures Same(a.live, b.live, a.keys - Elements(KeyCells(t)), a.nodes) && a.children.Keys == a.keys <= a.nodes.Keys
    ensures forall c :: c in a.keys && c !in KeyCells(t) ==> Folded(x, b.live, c) == Folded(x, a.live, c)
  {
    hide Owns, Family, Sound, Folded, Spans, After, Distinct, KeyCells, All, Pruned, Unbatched, Same;
    FamilyDomain(root, a.keys, a.children, a.parents);
    OwnsDomain(a.live, minor, a.ring, a.keys, a.nodes);
    SourcedKey(a.live, a.nodes, t);
    LeftSame(a.live, b.live, minor, a.ring, b.ring, a.keys, a.nodes, All(t), KeyCells(t));
    forall c | c in a.keys && c !in KeyCells(t) ensures Folded(x, b.live, c) == Folded(x, a.live, c) {
      SameNamed(x, a.live, b.live, a.keys - Elements(KeyCells(t)), a.nodes, c);
    }
  }

  /** The view loses the path of the deleted key and all that continue it. */
  lemma SeveredView(x: Text, minor: nat, root: nat, a: State, b: State, trail: seq<nat>, t: KeyTree)
    requires Stands(minor, root, a) && Unambiguous(x, a.live, a.children)
    requires Rooted(root, a.children, trail) && |trail| >= 2 && t.cell == trail[|trail| - 1]
    requires Severed(x, a, b, trail[|trail| - 2], t) && Whole(a.children, trail[|trail| - 2], t) && Robed(a.live, b.live, b.keys)
    ensures ShapeOf(x, b.live, b.children, root) == Lop(ShapeOf(x, a.live, a.children, root), Names(x, a.live, trail))
  {
    hide Owns, Family, Sound, Unambiguous, Folded, Spans, Below, Robed, After, Distinct, KeyCells, All, ShapeOf, Pruned, Unbatched, Same;
    SeveredNames(x, minor, root, a, b, trail[|trail| - 2], t);
    DeletedShape(x, a.live, b.live, root, a.keys, a.nodes, a.children, a.parents, t, trail[|trail| - 2], trail);
  }

  lemma SeveredShape(x: Text, minor: nat, root: nat, a: State, b: State, trail: seq<nat>, t: KeyTree)
    requires Stands(minor, root, a) && Unambiguous(x, a.live, a.children)
    requires Rooted(root, a.children, trail) && |trail| >= 2 && t.cell == trail[|trail| - 1] && trail[|trail| - 2] in a.keys
             && trail[|trail| - 2] in a.children && t.cell in a.children[trail[|trail| - 2]]
    requires Severed(x, a, b, trail[|trail| - 2], t) && Whole(a.children, trail[|trail| - 2], t)
    requires Shrunk(a.live, a.keys, a.nodes, a.children, a.batches) && trail[|trail| - 2] in a.batches && Robed(a.live, b.live, b.keys)
    ensures ShapeOf(x, b.live, b.children, root) == Lop(ShapeOf(x, a.live, a.children, root), Names(x, a.live, trail))
            && Shrunk(b.live, b.keys, b.nodes, b.children, b.batches)
  {
    hide Owns, Family, Sound, Unambiguous, Folded, Spans, Shrunk, Below, Robed, After, Distinct, KeyCells, All, ShapeOf, Pruned, Unbatched,
         Same;
    SeveredView(x, minor, root, a, b, trail, t);
    ShrunkAfter(x, minor, root, a, b, trail[|trail| - 2], t);
  }

  /** A deletion makes no key, no descriptor and at most one waiting list. */
  lemma SeveredSize(x: Text, a: State, held: map<nat, Batch>, b: State, parent: nat, t: KeyTree)
    requires Severed(x, a.(batches := held), b, parent, t) && Reloaded(a.batches, held) && Sound(b.live, b.ring, b.keys, NONE)
    ensures |b.keys| <= |a.keys| && |Dirty(b.batches)| <= |Dirty(a.batches)| + 1 && |b.ring| <= |a.ring|
  {
    hide Spans, KeyCells, All, Sound, Pruned, Folded, Same;
    Smaller(b.keys, a.keys);
    assert Dirty(b.batches) <= Dirty(a.batches) + {parent};
    Smaller(Dirty(b.batches), Dirty(a.batches) + {parent});
    SoundDistinct(b.live, b.ring, b.keys);
    ElementsSize(b.ring);
    Smaller(Elements(b.ring), Elements(a.ring));
    ElementsShort(a.ring);
  }

  lemma SoundDistinct(live: Live, ring: seq<nat>, keys: set<nat>)
    requires Sound(live, ring, keys, NONE)
    ensures Distinct(ring)
  {
  }

  /** What can be deleted after a deletion: the paths beside it. */
  lemma SeveredPaths(x: Text, minor: nat, root: nat, a: State, held: map<nat, Batch>, b: State, trail: seq<nat>, t: KeyTree)
    requires Stands(minor, root, a) && Unambiguous(x, a.live, a.children) && Unambiguous(x, b.live, b.children)
    requires Rooted(root, a.children, trail) && |trail| >= 2 && t.cell == trail[|trail| - 1]
    requires Severed(x, a.(batches := held), b, trail[|trail| - 2], t) && Whole(a.children, trail[|trail| - 2], t)
    requires trail[|trail| - 2] in held && Reloaded(a.batches, held)
    ensures var g := Names(x, a.live, trail);
            forall f :: Removable(x, b.live, b.children, b.batches, root, f)
                   <==> Removable(x, a.live, a.children, a.batches, root, f) && !(f <= g) && !(g <= f)
  {
    hide Owns, Family, Sound, Unambiguous, Folded, Spans, Below, After, Distinct, KeyCells, All, Pruned, Unbatched, Same, Removable, Quiet,
         Whole, Chain;
    SeveredNames(x, minor, root, a.(batches := held), b, trail[|trail| - 2], t);
    var g := Names(x, a.live, trail);
    forall f ensures Removable(x, b.live, b.children, b.batches, root, f)
                <==> Removable(x, a.live, a.children, a.batches, root, f) && !(f <= g) && !(g <= f) {
      RemovableAfter(x, a.(batches := held), b.live, root, Folded(x, a.live, t.cell), t, trail, f);
      RemovableReloaded(x, a.live, a.children, a.batches, held, root, f);
    }
  }

  /** The keys that none of some paths leads to or through. */
  ghost function Spared(x: Text, root: nat, s: State, fs: seq<seq<string>>): set<nat> {
    set k | k in s.keys && forall i :: 0 <= i < |fs| ==> !(fs[i] <= PathOf(x, s.live, s.children, root, k))
  }

  /** The keys that are left are as they were and where they were. */
  ghost predicate Untouched(x: Text, root: nat, a: State, b: State) {
    forall k :: k in b.keys ==>
      && k in a.keys && k in a.live && k in b.live && b.live[k] == a.live[k]
      && PathOf(x, b.live, b.children, root, k) == PathOf(x, a.live, a.children, root, k)
  }

  /** A deletion spares the keys elsewhere. */
  lemma SeveredSpares(x: Text, minor: nat, root: nat, a: State, b: State, trail: seq<nat>, t: KeyTree)
    requires Stands(minor, root, a) && Unambiguous(x, a.live, a.children) && Family(root, b.keys, b.children, b.parents)
    requires Rooted(root, a.children, trail) && |trail| >= 2 && t.cell == trail[|trail| - 1]
    requires Severed(x, a, b, trail[|trail| - 2], t) && Whole(a.children, trail[|trail| - 2], t)
    ensures b.keys == Spared(x, root, a, [Names(x, a.live, trail)]) && Untouched(x, root, a, b)
  {
    hide Owns, Family, Sound, Unambiguous, Folded, Spans, Below, After, Distinct, KeyCells, All, Pruned, Unbatched, Same, Chain, PathOf;
    var f := Names(x, a.live, trail);
    SeveredNames(x, minor, root, a, b, trail[|trail| - 2], t);
    assert [f][0] == f;
    forall k | k in a.keys ensures k in KeyCells(t) <==> f <= PathOf(x, a.live, a.children, root, k) {
      if k in KeyCells(t) { PathInside(x, a.live, root, a.keys, a.children, a.parents, trail, k); } else {
        PathOutside(x, root, a, trail, k);
      }
    }
    forall k | k in b.keys ensures k in a.keys && k in a.live && k in b.live && b.live[k] == a.live[k]
        && PathOf(x, b.live, b.children, root, k) == PathOf(x, a.live, a.children, root, k) {
      SameKey(a.live, b.live, a.keys - Elements(KeyCells(t)), a.nodes, k);
      PathStays(x, root, a, b, trail, t, k);
    }
  }

  lemma PathOutside(x: Text, root: nat, a: State, trail: seq<nat>, k: nat)
    requires Family(root, a.keys, a.children, a.parents) && Unambiguous(x, a.live, a.children) && Rooted(root, a.children, trail)
             && |trail| >= 2 && !Below(a.children, trail[|trail| - 1], k)
    ensures !(Names(x, a.live, trail) <= PathOf(x, a.live, a.children, root, k))
  {
    hide Family, Unambiguous, Folded, Chain, PathOf, Below;
    if Below(a.children, root, k) {
      var v := BelowTrail(a.children, root, k);
      PathOfTrail(x, a.live, root, a.keys, a.children, a.parents, v);
      if Names(x, a.live, trail) <= Names(x, a.live, v) {
        var n := |trail|;
        ChainFront(a.children, v, n);
        NamesFront(x, a.live, v, n);
        OneTrail(x, a.live, a.children, root, v[..n], trail);
        assert v[n - 1] == v[..n][n - 1];
        BelowTail(a.children, v, n - 1);
      }
    } else {
      NoPath(x, a.live, a.children, root, k);
    }
  }

  lemma NoPath(x: Text, live: Live, children: map<nat, set<nat>>, root: nat, k: nat)
    requires !Below(children, root, k)
    ensures PathOf(x, live, children, root, k) == []
  {
    hide Below;
  }

  lemma PathStays(x: Text, root: nat, a: State, b: State, trail: seq<nat>, t: KeyTree, k: nat)
    requires Family(root, a.keys, a.children, a.parents) && Family(root, b.keys, b.children, b.parents) && root in a.keys
             && a.children.Keys == a.keys && |trail| >= 2 && Whole(a.children, trail[|trail| - 2], t)
    requires b.children == Pruned(a.children, Elements(KeyCells(t)), trail[|trail| - 2], t.cell)
    requires (forall c :: c in a.keys && c !in KeyCells(t) ==> Folded(x, b.live, c) == Folded(x, a.live, c)) && k in a.keys && k !in KeyCells(t)
    ensures PathOf(x, b.live, b.children, root, k) == PathOf(x, a.live, a.children, root, k)
  {
    hide Family, Folded, PathOf, Below, KeyCells, Pruned;
    var gone := Elements(KeyCells(t));
    TopIsGone(t);
    if Below(a.children, root, k) {
      var v := BelowTrail(a.children, root, k);
      forall i | 0 <= i < |v| ensures v[i] !in gone {
        if v[i] in gone { BelowTail(a.children, v, i); BelowThen(a.children, t.cell, v[i], k); }
      }
      RootedKeys(root, a.keys, a.children, a.parents, v);
      PrunedChain(a.children, gone, trail[|trail| - 2], t.cell, v);
      PathOfTrail(x, a.live, root, a.keys, a.children, a.parents, v);
      PathOfTrail(x, b.live, root, b.keys, b.children, b.parents, v);
      assert Names(x, b.live, v) == Names(x, a.live, v);
    } else {
      NoPath(x, a.live, a.children, root, k);
      if Below(b.children, root, k) {
        var v := BelowTrail(b.children, root, k);
        PrunedChain(a.children, gone, trail[|trail| - 2], t.cell, v);
        ChainIsBelow(a.children, v);
      }
      NoPath(x, b.live, b.children, root, k);
    }
  }

  lemma RemovableReloaded(x: Text, live: Live, children: map<nat, set<nat>>, a: map<nat, Batch>, b: map<nat, Batch>, root: nat,
                          f: seq<string>)
    requires Reloaded(a, b)
    ensures Removable(x, live, children, a, root, f) <==> Removable(x, live, children, b, root, f)
  {
    hide Below, ChainFrom, BelowSet, Reloaded, IsDirty, Stable;
    DirtySame(a, b);
  }

  /** A path that was not deleted is not there, or its stored subtree cannot be removed. */
  lemma NotDeletable(x: Text, live: Live, root: nat, keys: set<nat>, nodes: map<nat, Node>, children: map<nat, set<nat>>,
                     parents: map<nat, nat>, batches: map<nat, Batch>, trail: seq<nat>, parts: seq<string>)
    requires Family(root, keys, children, parents) && Unambiguous(x, live, children) && root in keys
             && Undeletable(x, live, nodes, keys, children, batches, trail, parts) && trail != [] && trail[0] == root
    requires forall k :: k in keys ==> !Unloadable(x, live, nodes, batches, k)
    ensures var f := FoldAll(x, parts);
              f == [] || !There(x, live, children, root, f) || !Clearable(live, nodes, keys, TrailTo(x, live, children, root, f)[|f|])
  {
    hide Family, Unambiguous, Folded, Clearable, Loadable;
    var f := FoldAll(x, parts);
    if f != [] && There(x, live, children, root, f) {
      var u := TrailTo(x, live, children, root, f);
      PathIs(x, live, children, trail, parts[..|trail| - 1]);
      RootedKeys(root, keys, children, parents, trail);
      SameFront(x, live, children, root, u, trail, parts);
      var n := |trail|;
      assert u[n - 1] in children && u[n] in children[u[n - 1]] && Names(x, live, u)[n - 1] == f[n - 1];
    }
  }

  // ----- sizes

  /** The room a transaction may still need: what is there, and what a commit of it may add. */
  ghost function Weight(tx: Transaction): nat
    reads tx, tx.patch, tx.patch.store
  {
    |tx.patch.store.data| + 0x4400 * |Dirty(tx.batches)| + 9 * |tx.patch.keys|
  }

  /** The ring of descriptors was read, or is short enough to be. */
  ghost predicate Roomy(p: Patch)
    reads p
  {
    p.cacheReady || |p.ring| <= 0x10_0000
  }

  /** The security cells some keys point at. */
  ghost function Shields(live: Live, keys: set<nat>): set<nat> {
    set k | k in keys && k in live && IsKey(live[k]) && SecurityOf(live[k]) != NONE :: SecurityOf(live[k])
  }

  /** The same, once some paths are deleted. */
  ghost predicate RoomyWithout(tx: Transaction, fs: seq<seq<string>>)
    reads tx, tx.patch, tx.patch.store
  {
    tx.patch.cacheReady || |Shields(tx.patch.store.Live(), Spared(tx.text, tx.patch.store.root, tx.Now(), fs))| <= 0x10_0000
  }

  /** Every cell of the ring is used. */
  lemma RingUsed(live: Live, ring: seq<nat>, keys: set<nat>)
    requires Sound(live, ring, keys, NONE)
    ensures |ring| == |Shields(live, keys)|
  {
    hide Ring, U32, IsKey, References;
    KeyFacts(live, ring, keys);
    BelowNone(live, ring, keys, NONE);
    forall c | c in ring ensures c in Shields(live, keys) {
      assert Users(live, keys, c) != {};
      var k :| k in Users(live, keys, c);
    }
    assert Shields(live, keys) == Elements(ring);
    SoundDistinct(live, ring, keys);
    ElementsSize(ring);
  }

  /** What the ring is like when the keys left are as they were. */
  lemma ShieldsLeft(a: Live, b: Live, keys: set<nat>)
    requires forall k :: k in keys ==> k in a && k in b && b[k] == a[k]
    ensures Shields(a, keys) == Shields(b, keys)
  {
    hide IsKey, U32;
  }

  lemma ShieldsFewer(live: Live, some: set<nat>, keys: set<nat>)
    requires some <= keys
    ensures |Shields(live, some)| <= |Shields(live, keys)|
  {
    Smaller(Shields(live, some), Shields(live, keys));
  }

  /** A key to create, and the descriptor to give it. */
  datatype Creation = Creation(parts: seq<string>, security: Option<bytes>)

  function Load(x: Text, c: Creation): nat {
    PathRoom(x, c.parts) + 0x4409 * (|c.parts| + 1) + if c.security.Some? then |c.security.value| + 0x2000 else 0
  }

  // ----- creations

  /** What a creation leaves of a shape, if it has somewhere to land and its descriptor is one; a descriptor other than
    * the one the key has needs a ring that can be read. */
  ghost function Create(x: Text, s: Shape, c: Creation, roomy: bool): Option<Shape> {
    match Landing(x, s, [], c.parts)
    case None => None
    case Some(at) =>
      var made := Sow(s, at);
      if c.security.None? then Some(made)
      else if at in made && ValidDescriptor(c.security.value)
          && (roomy || made[at].descriptor == c.security) then Some(made[at := Info(c.security, made[at].volatile)])
      else None
  }

  /** Creates a path: it is refused exactly if it cannot land, and then it and what is on the way to it are there. */
  method EnsurePath(tx: Transaction, parts: seq<string>) returns (o: Outcome, cell: nat, ghost trail: seq<nat>)
    requires tx.Valid() && tx.Open() && tx.text.flags < 0x1_0000 && |tx.patch.store.data| + PathRoom(tx.text, parts) <= LIMIT
    modifies tx`batches, tx`nodes, tx`children, tx`parents, tx.patch`keys, tx.patch.store.Repr
    ensures fresh(tx.patch.store.Repr - old(tx.patch.store.Repr))
    ensures o == Done <==> Landing(tx.text, old(View(tx)), [], parts).Some?
    ensures o == Done ==> tx.Valid() && tx.Open() && View(tx) == Sow(old(View(tx)), Landing(tx.text, old(View(tx)), [], parts).value)
    ensures o == Done ==> Rooted(tx.patch.store.root, tx.children, trail) && trail[|trail| - 1] == cell && cell in tx.patch.keys
    ensures o == Done ==> Names(tx.text, tx.patch.store.Live(), trail) == Landing(tx.text, old(View(tx)), [], parts).value
    ensures o == Done ==> |tx.patch.store.data| <= |old(tx.patch.store.data)| + PathRoom(tx.text, parts)
    ensures o == Done ==>
              |Dirty(tx.batches)| <= |Dirty(old(tx.batches))| + |parts| + 1 && |tx.patch.keys| <= |old(tx.patch.keys)| + |parts| + 1
    ensures o == Done ==> Enlarged(tx.text, old(tx.Now()), tx.Now()) && (old(AllReached(tx)) ==> AllReached(tx))
    ensures o == Done ==> |trail| == |parts| + 1 && Planted(old(tx.patch.keys), tx.patch.keys, old(tx.children), tx.children, trail)
  {
    hide Hive.Valid, Hive.Live, Hive.Starts, Owns, Family, Pending, Traced, Patch.Valid, Opened, Unambiguous, Path, Folded, ShapeOf, Grew,
         Planted, Carries, Inherits, Stirred, Passable, Blocked, Unloadable, PathRoom, Landing, Chain, Sow, Elements, Dirty, Intact, Enlarged,
         Shelved;
    ghost var live, keys, children, nodes, parents, batches, root := tx.patch.store.Live(), tx.patch.keys, tx.children, tx.nodes,
        tx.parents, tx.batches, tx.patch.store.root;
    ghost var a := tx.Now();
    Opens(tx);
    o, cell, trail := tx.EnsureKey(parts);
    if o == Done {
      Opens(tx);
      ghost var m := tx.patch.store.Live();
      PlantedRooted(root, keys, tx.patch.keys, children, tx.children, trail);
      LandingDone(tx.text, a, tx.Now(), root, trail, parts, 0);
      assert parts[0..] == parts && Names(tx.text, m, trail)[..0] == [];
      CreatedShape(tx.text, live, m, root, keys, tx.patch.keys, children, tx.children, parents, tx.parents, trail);
      MoreDirty(keys, batches, tx.batches, trail);
      EnlargedPlanted(tx.text, a, tx.Now(), trail);
      MoreKeys(keys, tx.patch.keys, children, tx.children, trail);
      if Intact(root, keys, children) { PlantedReached(root, keys, tx.patch.keys, children, tx.children, tx.parents, trail); }
    } else {
      LandsNowhere(tx.text, a, root, trail, parts);
    }
  }

  lemma LandsNowhere(x: Text, a: State, root: nat, trail: seq<nat>, parts: seq<string>)
    requires Family(root, a.keys, a.children, a.parents) && root in a.keys && Unambiguous(x, a.live, a.children)
             && Blocked(x, a.live, a.children, a.nodes, a.batches, trail, parts) && trail[0] == root
    requires forall k :: k in a.keys ==> !Unloadable(x, a.live, a.nodes, a.batches, k)
    ensures Landing(x, ShapeOf(x, a.live, a.children, root), [], parts) == None
  {
    hide Folded, Unambiguous, Family, ShapeOf, Chain, Unloadable, Landing, Stuck, Path;
    PathIs(x, a.live, a.children, trail, parts[..|trail| - 1]);
    RootedKeys(root, a.keys, a.children, a.parents, trail);
    LandingNone(x, a, root, trail, parts, 0);
    assert parts[0..] == parts && Names(x, a.live, trail)[..0] == [];
  }

  lemma MoreDirty(keys: set<nat>, a: map<nat, Batch>, b: map<nat, Batch>, trail: seq<nat>)
    requires Stirred(keys, a, b, trail)
    ensures |Dirty(b)| <= |Dirty(a)| + |trail|
  {
    forall k | k in Dirty(b) ensures k in Dirty(a) + Elements(trail) { assert IsDirty(b, k); }
    Smaller(Dirty(b), Dirty(a) + Elements(trail));
    ElementsShort(trail);
  }

  lemma {:induction false} ElementsShort(s: seq<nat>)
    ensures |Elements(s)| <= |s|
  {
    if s != [] {
      var n := |s| - 1;
      ElementsShort(s[..n]);
      assert Elements(s) == Elements(s[..n]) + {s[n]};
    }
  }

  lemma MoreKeys(keys: set<nat>, more: set<nat>, kids: map<nat, set<nat>>, wide: map<nat, set<nat>>, trail: seq<nat>)
    requires Planted(keys, more, kids, wide, trail)
    ensures |more| <= |keys| + |trail|
  {
    ElementsShort(trail);
  }

  /** Creating a path leaves every key reached. */
  lemma PlantedReached(root: nat, keys: set<nat>, more: set<nat>, kids: map<nat, set<nat>>, wide: map<nat, set<nat>>,
                       parents: map<nat, nat>, trail: seq<nat>)
    requires Planted(keys, more, kids, wide, trail) && Family(root, more, wide, parents) && Intact(root, keys, kids) && trail != []
             && trail[0] == root
    ensures Intact(root, more, wide)
  {
    hide Family, Below;
    FamilyDomain(root, more, wide, parents);
    PlantedRooted(root, keys, more, kids, wide, trail);
    forall k | k in more ensures Below(wide, root, k) {
      if k in keys {
        var v := BelowTrail(kids, root, k);
        forall i | 0 <= i < |v| - 1 ensures v[i] in wide && v[i + 1] in wide[v[i]] { assert v[i] in kids && v[i + 1] in kids[v[i]]; }
        ChainIsBelow(wide, v);
      } else {
        var i :| 0 <= i < |trail| && trail[i] == k;
        ChainFront(wide, trail, i + 1);
        ChainIsBelow(wide, trail[..i + 1]);
      }
    }
    forall k, c | k in more && c in wide[k] ensures c in more { FamilyAt(root, more, wide, parents, k, c); }
    assert more == BelowSet(wide, root);
  }

  /** Creates a key and gives it its descriptor, as it is said of the view. */
  method CreateKey(tx: Transaction, c: Creation) returns (o: Outcome)
    requires tx.Valid() && tx.Open() && tx.text.flags < 0x1_0000 && Weight(tx) + Load(tx.text, c) <= LIMIT
    modifies tx`batches, tx`nodes, tx`children, tx`parents, tx.patch`cacheReady, tx.patch`securityCells, tx.patch`ring, tx.patch`keys,
             tx.patch.store.Repr
    ensures fresh(tx.patch.store.Repr - old(tx.patch.store.Repr))
    ensures o == Done <==> Create(tx.text, old(View(tx)), c, old(Roomy(tx.patch))).Some?
    ensures o == Done ==>
              tx.Valid() && tx.Open() && Roomy(tx.patch) == old(Roomy(tx.patch)) && Weight(tx) <= old(Weight(tx)) + Load(tx.text, c)
    ensures o == Done ==>
              View(tx) == Create(tx.text, old(View(tx)), c, old(Roomy(tx.patch))).value
              && |tx.patch.keys| <= |old(tx.patch.keys)| + |c.parts| + 1
    ensures o == Done ==> Enlarged(tx.text, old(tx.Now()), tx.Now()) && (old(AllReached(tx)) ==> AllReached(tx))
  {
    hide Hive.Valid, Hive.Live, Hive.Starts, Owns, Family, Pending, Traced, Patch.Valid, Opened, Unambiguous, Folded, ShapeOf, Grew,
         PathRoom, Landing, Chain, Sow, ValidDescriptor, Has, Robed, InfoOf, Dirty, Intact, Enlarged, Shelved;
    ghost var before, a := View(tx), tx.Now();
    tx.StoreOk();
    var cell;
    ghost var trail;
    o, cell, trail := EnsurePath(tx, c.parts);
    if o == Done && c.security.Some? {
      Opens(tx);
      tx.StoreOk();
      ghost var live, root, b := tx.patch.store.Live(), tx.patch.store.root, tx.Now();
      ShapeAt(tx.text, live, tx.children, root, trail);
      tx.patch.store.CellsBelow();
      HasDescriptor(live, cell, c.security.value);
      o := tx.SetSecurity(cell, c.security.value);
      if o == Done {
        Opens(tx);
        SecuredShape(tx.text, live, tx.patch.store.Live(), root, tx.patch.keys, tx.children, tx.parents, trail);
        EnlargedSecured(tx.text, b, tx.Now(), cell);
        EnlargedThen(tx.text, a, b, tx.Now());
      }
    }
  }

  lemma HasDescriptor(live: Live, k: nat, d: bytes)
    requires NONE !in live
    ensures Has(live, k, d) <==> InfoOf(live, k).descriptor == Some(d)
  {
    hide IsSecurity, Descriptor, SecurityOf, IsKey;
  }

  // ----- the commit

  /** Publishes what is pending; the view stays, and it is what is stored. */
  method Commit(tx: Transaction) returns (o: Outcome)
    requires tx.Valid() && tx.Open() && Weight(tx) <= LIMIT
    modifies tx`batches, tx`nodes, tx.patch.store.Repr
    ensures o == Done && fresh(tx.patch.store.Repr - old(tx.patch.store.Repr))
    ensures tx.Valid() && tx.Open() && tx.batches == map[] && View(tx) == old(View(tx))
            && Weight(tx) <= old(Weight(tx)) + 9 * |tx.patch.keys| && AllReached(tx) == old(AllReached(tx))
    ensures forall k ::
              k in tx.patch.keys ==> k in tx.nodes && k in tx.children && Clean(tx.patch.store.Live(), k, tx.nodes[k], tx.children[k])
  {
    hide Hive.Valid, Hive.Live, Hive.Starts, Owns, Family, Pending, Traced, Patch.Valid, Opened, Unambiguous, Folded, NameOf, ShapeOf, Grew,
         Chain, Clean, Walks, Published, Robed, Dirty, Cost, Rising, Elements, Intact;
    ghost var live, root, keys, nodes := tx.patch.store.Live(), tx.patch.store.root, tx.patch.keys, tx.nodes;
    Opens(tx);
    tx.StoreOk();
    tx.EstateHolds();
    forall s: seq<nat> | Rising(s) && Elements(s) == Dirty(tx.batches) ensures |tx.patch.store.data| + Cost(tx.batches, s) <= LIMIT {
      CommitFits(tx.text, live, root, tx.patch.keys, tx.nodes, tx.children, tx.parents, tx.batches, s);
    }
    forall k | k in tx.patch.keys ensures Walks(tx.nodes[k]) { OpenWalks(tx.text, live, tx.patch.keys, tx.nodes, tx.batches, k); }
    DirtyAreKeys(tx.text, live, tx.patch.keys, tx.nodes, tx.children, tx.batches);
    assert forall k :: k in Dirty(tx.batches) && k in tx.nodes ==> Walks(tx.nodes[k]);
    ghost var s, batches := [], tx.batches;
    o, s := FinishChildBatches(tx);
    assert o == Done;
    CommitFits(tx.text, live, root, keys, nodes, tx.children, tx.parents, batches, s);
    NoneDirtyNow();
    NamesKept(tx.text, live, tx.patch.store.Live(), tx.patch.keys, tx.children);
    KeptShape(tx.text, live, tx.patch.store.Live(), root, tx.patch.keys, tx.children, tx.parents);
  }

  lemma NoneDirtyNow()
    ensures Dirty(map[]) == {}
  {
  }

  lemma DirtyAreKeys(x: Text, live: Live, keys: set<nat>, nodes: map<nat, Node>, children: map<nat, set<nat>>, batches: map<nat, Batch>)
    requires Pending(x, live, keys, nodes, children, batches)
    ensures forall k :: k in Dirty(batches) ==> k in keys
  {
    hide BatchOk, Clean;
  }

  lemma NamesKept(x: Text, live: Live, m: Live, keys: set<nat>, children: map<nat, set<nat>>)
    requires children.Keys == keys && forall k :: k in keys ==> NameOf(x, m, k) == NameOf(x, live, k)
    ensures Grew(x, live, m, keys, keys, children, children)
  {
    hide NameOf;
  }

  // ----- whole patches

  function FoldEach(x: Text, paths: seq<seq<string>>): (fs: seq<seq<string>>)
    ensures |fs| == |paths| && forall i :: 0 <= i < |paths| ==> fs[i] == FoldAll(x, paths[i])
  {
    seq(|paths|, i requires 0 <= i < |paths| => FoldAll(x, paths[i]))
  }

  /** Paths that can be deleted, none of which continues another one. */
  ghost predicate Independent(s: iset<seq<string>>, fs: seq<seq<string>>) {
    (forall i :: 0 <= i < |fs| ==> fs[i] in s) && forall i, j :: 0 <= i < j < |fs| ==> !(fs[i] <= fs[j]) && !(fs[j] <= fs[i])
  }

  ghost function LopAll(s: Shape, fs: seq<seq<string>>): Shape { imap g | g in s && (forall i :: 0 <= i < |fs| ==> !(fs[i] <= g)) :: s[g] }

  ghost function BesideAll(s: iset<seq<string>>, fs: seq<seq<string>>): iset<seq<string>> {
    iset f | f in s && forall i :: 0 <= i < |fs| ==> !(f <= fs[i]) && !(fs[i] <= f)
  }

  lemma IndependentStep(s: iset<seq<string>>, fs: seq<seq<string>>, n: nat)
    requires n < |fs| && Independent(s, fs[..n])
    ensures Independent(s, fs[..n + 1]) <==> fs[n] in BesideAll(s, fs[..n])
    ensures BesideAll(s, fs[..n + 1]) == Beside(BesideAll(s, fs[..n]), fs[n])
  {
    var a, b := fs[..n], fs[..n + 1];
    assert b == a + [fs[n]];
    forall f ensures f in BesideAll(s, b) <==> f in Beside(BesideAll(s, a), fs[n]) {
      if f in Beside(BesideAll(s, a), fs[n]) { assert forall i :: 0 <= i < |b| ==> b[i] == if i < n then a[i] else fs[n]; }
      if f in BesideAll(s, b) { assert b[n] == fs[n] && forall i :: 0 <= i < n ==> a[i] == b[i]; }
    }
    if Independent(s, b) {
      assert b[n] == fs[n];
      assert forall i :: 0 <= i < n ==> a[i] == b[i] && !(b[i] <= b[n]) && !(b[n] <= b[i]);
    }
  }

  lemma LopStep(s: Shape, fs: seq<seq<string>>, n: nat)
    requires n < |fs|
    ensures LopAll(s, fs[..n + 1]) == Lop(LopAll(s, fs[..n]), fs[n])
  {
    var a, b := fs[..n], fs[..n + 1];
    assert b == a + [fs[n]] && b[n] == fs[n] && forall i :: 0 <= i < n ==> a[i] == b[i];
    SameShape(LopAll(s, b), Lop(LopAll(s, a), fs[n]));
  }

  lemma NotIndependent(s: iset<seq<string>>, fs: seq<seq<string>>, n: nat)
    requires n <= |fs| && !Independent(s, fs[..n])
    ensures !Independent(s, fs)
  {
    if Independent(s, fs) { IndependentFront(s, fs, n); }
  }

  lemma IndependentFront(s: iset<seq<string>>, fs: seq<seq<string>>, n: nat)
    requires n <= |fs| && Independent(s, fs)
    ensures Independent(s, fs[..n])
  {
    var a := fs[..n];
    assert forall i :: 0 <= i < n ==> a[i] == fs[i];
  }

  /** Deletes paths. They are all deleted exactly if each could be deleted at first and none continues another one. */
  method DeleteAll(tx: Transaction, paths: seq<seq<string>>) returns (done: bool)
    requires tx.Valid() && tx.Open() && OnlyDeletions(tx)
    modifies tx`batches, tx`nodes, tx`children, tx`parents, tx.patch`securityCells, tx.patch`ring, tx.patch`keys, tx.patch.store.Repr
    ensures fresh(tx.patch.store.Repr - old(tx.patch.store.Repr))
    ensures done <==> Independent(old(Removables(tx)), FoldEach(tx.text, paths))
    ensures done ==> tx.Valid() && tx.Open() && View(tx) == LopAll(old(View(tx)), FoldEach(tx.text, paths))
    ensures done ==> Weight(tx) <= old(Weight(tx)) + 0x4400 * |paths| && |tx.patch.keys| <= |old(tx.patch.keys)|
    ensures done ==> Roomy(tx.patch) == old(RoomyWithout(tx, FoldEach(tx.text, paths))) && (old(AllReached(tx)) ==> AllReached(tx))
  {
    hide Hive.Valid, Hive.Live, Hive.Starts, Owns, Family, Pending, Traced, Patch.Valid, Opened, ShapeOf, Removable, Shrunk, Independent,
         BesideAll, Beside, Lop, LopAll, Dirty, Spared, Untouched, Intact, Shields, OnlyDeletions, Removables, View, Weight, Severed, Whole,
         Rooted, Reloaded, Folded, Sound, AllReached;
    ghost var s, v, fs, a, root := Removables(tx), View(tx), FoldEach(tx.text, paths), tx.Now(), tx.patch.store.root;
    done := true;
    var i := 0;
    NothingDeleted(s, v, fs);
    tx.KeysAreLive();
    tx.StoreOk();
    NothingTouched(tx.text, root, a, fs);
    while i < |paths| && done
      invariant 0 <= i <= |paths| && fresh(tx.patch.store.Repr - old(tx.patch.store.Repr))
      invariant done ==>
                  tx.Valid() && tx.Open() && OnlyDeletions(tx) && View(tx) == LopAll(v, fs[..i]) && Removables(tx) == BesideAll(s, fs[..i])
                  && Independent(s, fs[..i])
      invariant done ==>
                  Weight(tx) <= old(Weight(tx)) + 0x4400 * i && |tx.patch.keys| <= |old(tx.patch.keys)|
                  && (old(AllReached(tx)) ==> AllReached(tx))
      invariant done ==> tx.patch.keys == Spared(tx.text, root, a, fs[..i]) && Untouched(tx.text, root, a, tx.Now())
      invariant !done ==> !Independent(s, fs)
    {
      IndependentStep(s, fs, i);
      LopStep(v, fs, i);
      ghost var b := tx.Now();
      var o, trail, held, t := Delete(tx, paths[i]);
      done := o == Done;
      if done { SparedStep(tx.text, root, a, b, tx.Now(), fs, i); } else { NotIndependent(s, fs, i + 1); }
      i := i + 1;
    }
    assert fs[..|fs|] == fs;
    if done {
      assert fs[..i] == fs;
      tx.SoundHolds();
      RingUsed(tx.patch.store.Live(), tx.patch.ring, tx.patch.keys);
      UntouchedShields(tx.text, root, a, tx.Now());
    }
  }

  lemma NothingTouched(x: Text, root: nat, a: State, fs: seq<seq<string>>)
    requires forall k :: k in a.keys ==> k in a.live
    ensures a.keys == Spared(x, root, a, fs[..0]) && Untouched(x, root, a, a)
  {
    hide PathOf;
  }

  lemma SparedStep(x: Text, root: nat, a: State, b: State, c: State, fs: seq<seq<string>>, n: nat)
    requires n < |fs| && b.keys == Spared(x, root, a, fs[..n]) && Untouched(x, root, a, b)
    requires c.keys == Spared(x, root, b, [fs[n]]) && Untouched(x, root, b, c)
    ensures c.keys == Spared(x, root, a, fs[..n + 1]) && Untouched(x, root, a, c)
  {
    hide PathOf;
    var one, some, more := [fs[n]], fs[..n], fs[..n + 1];
    assert more == some + one && one[0] == fs[n];
    forall k ensures k in c.keys <==> k in Spared(x, root, a, more) {
      var p := PathOf(x, a.live, a.children, root, k);
      if k in Spared(x, root, a, more) {
        forall i | 0 <= i < |some| ensures !(some[i] <= p) { assert more[i] == some[i]; }
        assert !(more[n] <= p);
      }
      if k in c.keys { forall i | 0 <= i < |more| ensures !(more[i] <= p) { if i < n { assert more[i] == some[i]; } } }
    }
  }

  lemma UntouchedShields(x: Text, root: nat, a: State, b: State)
    requires Untouched(x, root, a, b)
    ensures Shields(a.live, b.keys) == Shields(b.live, b.keys)
  {
    hide PathOf, Shields;
    ShieldsLeft(a.live, b.live, b.keys);
  }

  lemma NothingDeleted(s: iset<seq<string>>, v: Shape, fs: seq<seq<string>>)
    ensures Independent(s, fs[..0]) && BesideAll(s, fs[..0]) == s && LopAll(v, fs[..0]) == v
  {
    SameShape(LopAll(v, fs[..0]), v);
  }

  ghost function CreateEach(x: Text, s: Shape, cs: seq<Creation>, roomy: bool): Option<Shape> {
    if cs == [] then Some(s)
    else
      var r := CreateEach(x, s, cs[..|cs| - 1], roomy);
      if r.Some? then Create(x, r.value, cs[|cs| - 1], roomy) else None
  }

  function Loads(x: Text, cs: seq<Creation>): nat {
    if cs == [] then 0 else Load(x, cs[0]) + Loads(x, cs[1..])
  }

  /** How many keys some creations may add. */
  function Births(cs: seq<Creation>): nat {
    if cs == [] then 0 else |cs[0].parts| + 1 + Births(cs[1..])
  }

  lemma LoadsStep(x: Text, cs: seq<Creation>, i: nat)
    requires i < |cs|
    ensures Loads(x, cs[i..]) == Load(x, cs[i]) + Loads(x, cs[i + 1..]) && Births(cs[i..]) == |cs[i].parts| + 1 + Births(cs[i + 1..])
  {
    assert cs[i..][1..] == cs[i + 1..];
  }

  lemma CreateStep(x: Text, s: Shape, cs: seq<Creation>, i: nat, roomy: bool)
    requires i < |cs|
    ensures CreateEach(x, s, cs[..i + 1], roomy) == (if CreateEach(x, s, cs[..i], roomy).Some? then Create(x,
            CreateEach(x, s, cs[..i], roomy).value, cs[i], roomy) else None)
  {
    hide Create;
    assert cs[..i + 1][..i] == cs[..i];
  }

  lemma {:induction false} NotCreated(x: Text, s: Shape, cs: seq<Creation>, i: nat, roomy: bool)
    requires i <= |cs| && CreateEach(x, s, cs[..i], roomy) == None
    ensures CreateEach(x, s, cs, roomy) == None
    decreases |cs| - i
  {
    hide Create;
    if i == |cs| { assert cs[..i] == cs; } else { CreateStep(x, s, cs, i, roomy); NotCreated(x, s, cs, i + 1, roomy); }
  }

  /** Creates keys one after the other, each as it is said of the view. */
  method CreateAll(tx: Transaction, cs: seq<Creation>) returns (done: bool)
    requires tx.Valid() && tx.Open() && tx.text.flags < 0x1_0000 && Weight(tx) + Loads(tx.text, cs) <= LIMIT
    modifies tx`batches, tx`nodes, tx`children, tx`parents, tx.patch`cacheReady, tx.patch`securityCells, tx.patch`ring, tx.patch`keys,
             tx.patch.store.Repr
    ensures fresh(tx.patch.store.Repr - old(tx.patch.store.Repr))
    ensures done <==> CreateEach(tx.text, old(View(tx)), cs, old(Roomy(tx.patch))).Some?
    ensures done ==>
              tx.Valid() && tx.Open() && View(tx) == CreateEach(tx.text, old(View(tx)), cs, old(Roomy(tx.patch))).value
              && Roomy(tx.patch) == old(Roomy(tx.patch))
    ensures done ==> Weight(tx) <= old(Weight(tx)) + Loads(tx.text, cs) && |tx.patch.keys| <= |old(tx.patch.keys)| + Births(cs)
    ensures done ==> Enlarged(tx.text, old(tx.Now()), tx.Now()) && (old(AllReached(tx)) ==> AllReached(tx))
  {
    hide Hive.Valid, Hive.Live, Hive.Starts, Owns, Family, Pending, Traced, Patch.Valid, Opened, ShapeOf, Create, CreateEach, Load, Loads,
         Births, Weight, Intact, Enlarged;
    ghost var v, roomy, a := View(tx), Roomy(tx.patch), tx.Now();
    tx.PendingHolds();
    EnlargedSelf(tx.text, a);
    done := true;
    var i := 0;
    assert cs[0..] == cs && CreateEach(tx.text, v, cs[..0], roomy) == Some(v) by { NoneCreated(tx.text, v, cs, roomy); }
    while i < |cs| && done
      invariant 0 <= i <= |cs| && fresh(tx.patch.store.Repr - old(tx.patch.store.Repr))
      invariant done ==> tx.Valid() && tx.Open() && Roomy(tx.patch) == roomy && CreateEach(tx.text, v, cs[..i], roomy) == Some(View(tx))
      invariant done ==>
                  Weight(tx) + Loads(tx.text, cs[i..]) <= old(Weight(tx)) + Loads(tx.text, cs)
                  && |tx.patch.keys| + Births(cs[i..]) <= |old(tx.patch.keys)| + Births(cs) && (old(AllReached(tx)) ==> AllReached(tx))
      invariant done ==> Enlarged(tx.text, a, tx.Now())
      invariant !done ==> CreateEach(tx.text, v, cs, roomy) == None
    {
      LoadsStep(tx.text, cs, i);
      CreateStep(tx.text, v, cs, i, roomy);
      tx.PendingHolds();
      ghost var b := tx.Now();
      var o := CreateKey(tx, cs[i]);
      done := o == Done;
      if done { EnlargedThen(tx.text, a, b, tx.Now()); } else { NotCreated(tx.text, v, cs, i + 1, roomy); }
      i := i + 1;
    }
    assert cs[..|cs|] == cs;
  }

  lemma NoneCreated(x: Text, v: Shape, cs: seq<Creation>, roomy: bool)
    ensures CreateEach(x, v, cs[..0], roomy) == Some(v)
  {
  }

  /** Looks up paths: each is found exactly if it is in the view. */
  method LookupAll(tx: Transaction, paths: seq<seq<string>>) returns (found: seq<bool>)
    requires tx.Valid() && tx.Open()
    modifies tx`batches
    ensures tx.Valid() && tx.Open() && View(tx) == old(View(tx)) && Weight(tx) == old(Weight(tx))
    ensures |found| == |paths| && forall i :: 0 <= i < |paths| ==> (found[i] <==> FoldAll(tx.text, paths[i]) in View(tx))
  {
    hide Hive.Valid, Hive.Live, Hive.Starts, Owns, Family, Pending, Traced, Patch.Valid, Opened, ShapeOf, InfoOf, IsDirty;
    found := [];
    for i := 0 to |paths|
      invariant tx.Valid() && tx.Open() && View(tx) == old(View(tx)) && |found| == i && Dirty(tx.batches) == old(Dirty(tx.batches))
      invariant forall j :: 0 <= j < i ==> (found[j] <==> FoldAll(tx.text, paths[j]) in View(tx))
    {
      ghost var was := tx.batches;
      var o, r := Lookup(tx, paths[i]);
      SameDirty(was, tx.batches);
      found := found + [r.Some?];
    }
  }

  lemma SameDirty(a: map<nat, Batch>, b: map<nat, Batch>)
    requires forall k :: IsDirty(a, k) <==> IsDirty(b, k)
    ensures Dirty(a) == Dirty(b)
  {
    forall k ensures k in Dirty(a) <==> k in Dirty(b) { assert IsDirty(a, k) <==> IsDirty(b, k); }
  }

  /** Looks up paths and commits: what was found is in the view, and the view is stored. */
  method Publish(tx: Transaction, queries: seq<seq<string>>) returns (found: seq<bool>)
    requires tx.Valid() && tx.Open() && Weight(tx) <= LIMIT
    modifies tx`batches, tx`nodes, tx.patch.store.Repr
    ensures fresh(tx.patch.store.Repr - old(tx.patch.store.Repr)) && tx.Valid() && tx.Open() && tx.batches == map[]
            && View(tx) == old(View(tx))
    ensures Weight(tx) <= old(Weight(tx)) + 9 * |tx.patch.keys| && tx.patch.keys == old(tx.patch.keys)
            && Roomy(tx.patch) == old(Roomy(tx.patch)) && AllReached(tx) == old(AllReached(tx))
    ensures |found| == |queries| && forall i :: 0 <= i < |queries| ==> (found[i] <==> FoldAll(tx.text, queries[i]) in View(tx))
    ensures forall k ::
              k in tx.patch.keys ==> k in tx.nodes && k in tx.children && Clean(tx.patch.store.Live(), k, tx.nodes[k], tx.children[k])
  {
    hide Hive.Valid, Hive.Live, Hive.Starts, Owns, Family, Pending, Traced, Patch.Valid, Opened, ShapeOf, Clean, Shrunk, Unambiguous,
         Intact;
    found := LookupAll(tx, queries);
    tx.StoreOk();
    var o := Commit(tx);
  }

  /** Some edits of a hive. */
  datatype Edits = Edits(deletions: seq<seq<string>>, creations: seq<Creation>)

  /** What edits leave of a shape: the deletions must be of paths that can be deleted, none continuing another one, and the creations must
    * have
    * somewhere to land. */
  ghost function Edited(x: Text, s: Shape, e: Edits, roomy: bool): Option<Shape> {
    var fs := FoldEach(x, e.deletions);
    if Independent(Deletables(s), fs) then CreateEach(x, LopAll(s, fs), e.creations, roomy) else None
  }

  function Spending(x: Text, e: Edits): nat { 0x4400 * |e.deletions| + Loads(x, e.creations) }

  /** In a transaction at rest what can be deleted is said by the view. */
  lemma AtRest(tx: Transaction)
    requires tx.Valid() && tx.Open() && forall k :: !IsDirty(tx.batches, k)
    ensures OnlyDeletions(tx) && Removables(tx) == Deletables(View(tx))
  {
    hide Hive.Valid, Hive.Live, Hive.Starts, Owns, Family, Pending, Traced, Patch.Valid, Opened, ShapeOf, Shrunk, Unambiguous, Removable,
         Compact, IsDirty;
    Opens(tx);
    tx.EstateHolds();
    var live, root := tx.patch.store.Live(), tx.patch.store.root;
    ShrunkStart(tx.text, tx.Now(), tx.minor, root);
    forall f ensures f in Removables(tx) <==> f in Deletables(View(tx)) {
      RemovableIsDeletable(tx.text, tx.Now(), tx.minor, root, f);
    }
  }

  /** A patch of a hive at rest: deletions, then creations, then what a caller looks up, and the commit. It goes through exactly if the
    * edits make
    * sense of the view; the view is then what they say, before the commit and after it, and it is what is stored. */
  method PatchHive(tx: Transaction, e: Edits, queries: seq<seq<string>>) returns (done: bool, found: seq<bool>)
    requires tx.Valid() && tx.Open() && (forall k :: !IsDirty(tx.batches, k)) && tx.text.flags < 0x1_0000
             && Weight(tx) + Spending(tx.text, e) <= LIMIT
    modifies tx`batches, tx`nodes, tx`children, tx`parents, tx.patch`cacheReady, tx.patch`securityCells, tx.patch`ring, tx.patch`keys,
             tx.patch.store.Repr
    ensures fresh(tx.patch.store.Repr - old(tx.patch.store.Repr))
    ensures done <==> Edited(tx.text, old(View(tx)), e, old(RoomyWithout(tx, FoldEach(tx.text, e.deletions)))).Some?
    ensures done ==>
              tx.Valid() && tx.Open() && tx.batches == map[]
              && View(tx) == Edited(tx.text, old(View(tx)), e, old(RoomyWithout(tx, FoldEach(tx.text, e.deletions)))).value
    ensures done ==> Roomy(tx.patch) == old(RoomyWithout(tx, FoldEach(tx.text, e.deletions))) && (old(AllReached(tx)) ==> AllReached(tx))
    ensures done ==> |found| == |queries| && forall i :: 0 <= i < |queries| ==> (found[i] <==> FoldAll(tx.text, queries[i]) in View(tx))
    ensures done ==> forall k :: k in tx.patch.keys ==> k in tx.nodes && k in tx.children && Clean(tx.patch.store.Live(), k, tx.nodes[k], tx.children[k])
    ensures done ==>
              |tx.patch.keys| <= |old(tx.patch.keys)| + Births(e.creations)
              && Weight(tx) <= old(Weight(tx)) + Spending(tx.text, e) + 9 * |tx.patch.keys|
  {
    hide Hive.Valid, Hive.Live, Hive.Starts, Owns, Family, Pending, Traced, Patch.Valid, Opened, ShapeOf, Create, CreateEach, Loads, Births,
         Weight, Independent, LopAll, Clean, OnlyDeletions, Removables, Deletables, View, Roomy, RoomyWithout, AllReached, IsDirty;
    found := [];
    AtRest(tx);
    done := DeleteAll(tx, e.deletions);
    if done {
      done := CreateAll(tx, e.creations);
      if done { found := Publish(tx, queries); }
    }
  }

  /** Deletions do not make the ring longer. */
  lemma RoomyStays(tx: Transaction, fs: seq<seq<string>>)
    requires tx.Valid() && Roomy(tx.patch)
    ensures RoomyWithout(tx, fs)
  {
    hide Hive.Valid, Hive.Live, Hive.Starts, Owns, Family, Pending, Traced, Patch.Valid, Shields, Sound, PathOf;
    tx.SoundHolds();
    RingUsed(tx.patch.store.Live(), tx.patch.ring, tx.patch.keys);
    ShieldsFewer(tx.patch.store.Live(), Spared(tx.text, tx.patch.store.root, tx.Now(), fs), tx.patch.keys);
  }

  // ----- any number of patches

  ghost function EditedAll(x: Text, s: Shape, es: seq<Edits>): Option<Shape> {
    if es == [] then Some(s)
    else
      var r := EditedAll(x, s, es[..|es| - 1]);
      if r.Some? then Edited(x, r.value, es[|es| - 1], true) else None
  }

  /** The room some patches may take, one after the other, in a hive of so many keys. */
  function Budget(x: Text, keys: nat, es: seq<Edits>): nat
    decreases |es|
  {
    if es == [] then 0
    else Spending(x, es[0]) + 9 * (keys + Births(es[0].creations)) + Budget(x, keys + Births(es[0].creations), es[1..])
  }

  lemma {:induction false} BudgetLess(x: Text, few: nat, many: nat, es: seq<Edits>)
    requires few <= many
    ensures Budget(x, few, es) <= Budget(x, many, es)
    decreases |es|
  {
    hide Spending, Births;
    if es != [] { BudgetLess(x, few + Births(es[0].creations), many + Births(es[0].creations), es[1..]); }
  }

  lemma BudgetStep(x: Text, keys: nat, es: seq<Edits>, i: nat)
    requires i < |es|
    ensures Budget(x, keys, es[i..]) == Spending(x, es[i]) + 9 * (keys + Births(es[i].creations)) + Budget(x,
            keys + Births(es[i].creations), es[i + 1..])
  {
    hide Spending, Births;
    assert es[i..][1..] == es[i + 1..] && es[i..][0] == es[i];
  }

  lemma EditedStep(x: Text, s: Shape, es: seq<Edits>, i: nat)
    requires i < |es|
    ensures EditedAll(x, s, es[..i + 1]) == (if EditedAll(x, s, es[..i]).Some? then Edited(x, EditedAll(x, s, es[..i]).value, es[i],
            true) else None)
  {
    hide Edited;
    assert es[..i + 1][..i] == es[..i];
  }

  lemma {:induction false} NotEdited(x: Text, s: Shape, es: seq<Edits>, i: nat)
    requires i <= |es| && EditedAll(x, s, es[..i]) == None
    ensures EditedAll(x, s, es) == None
    decreases |es| - i
  {
    hide Edited;
    if i == |es| { assert es[..i] == es; } else { EditedStep(x, s, es, i); NotEdited(x, s, es, i + 1); }
  }

  lemma NothingEdited(x: Text, s: Shape, es: seq<Edits>)
    ensures EditedAll(x, s, es[..0]) == Some(s)
  {
  }

  /** Patches one after the other, each committed before the next. */
  method PatchAll(tx: Transaction, es: seq<Edits>) returns (done: bool)
    requires tx.Valid() && tx.Open() && tx.batches == map[] && tx.text.flags < 0x1_0000 && Roomy(tx.patch)
             && Weight(tx) + Budget(tx.text, |tx.patch.keys|, es) <= LIMIT
    modifies tx`batches, tx`nodes, tx`children, tx`parents, tx.patch`cacheReady, tx.patch`securityCells, tx.patch`ring, tx.patch`keys,
             tx.patch.store.Repr
    ensures fresh(tx.patch.store.Repr - old(tx.patch.store.Repr))
    ensures done <==> EditedAll(tx.text, old(View(tx)), es).Some?
    ensures done ==> tx.Valid() && tx.Open() && tx.batches == map[] && View(tx) == EditedAll(tx.text, old(View(tx)), es).value
    ensures done && old(AllReached(tx)) ==> AllReached(tx)
  {
    hide Hive.Valid, Hive.Live, Hive.Starts, Owns, Family, Pending, Traced, Patch.Valid, Opened, ShapeOf, Births, Weight, Clean, Edited,
         EditedAll, Budget, Spending, View, Roomy, RoomyWithout, AllReached;
    ghost var v := View(tx);
    done := true;
    var i := 0;
    NothingEdited(tx.text, v, es);
    assert es[0..] == es;
    while i < |es| && done
      invariant 0 <= i <= |es| && fresh(tx.patch.store.Repr - old(tx.patch.store.Repr))
      invariant done ==>
                  tx.Valid() && tx.Open() && tx.batches == map[] && Roomy(tx.patch) && EditedAll(tx.text, v, es[..i]) == Some(View(tx))
      invariant done ==> Weight(tx) + Budget(tx.text, |tx.patch.keys|, es[i..]) <= LIMIT && (old(AllReached(tx)) ==> AllReached(tx))
      invariant !done ==> EditedAll(tx.text, v, es) == None
    {
      BudgetStep(tx.text, |tx.patch.keys|, es, i);
      EditedStep(tx.text, v, es, i);
      ghost var n := |tx.patch.keys| + Births(es[i].creations);
      RoomyStays(tx, FoldEach(tx.text, es[i].deletions));
      var found;
      done, found := PatchHive(tx, es[i], []);
      if done { BudgetLess(tx.text, |tx.patch.keys|, n, es[i + 1..]); } else { NotEdited(tx.text, v, es, i + 1); }
      i := i + 1;
    }
    assert es[..|es|] == es;
  }

  // ----- from a new hive

  /** The shape of a hive that has only its root. */
  ghost function Lone(d: bytes): Shape { imap[[] := Info(Some(d), 0)] }

  lemma LoneShape(x: Text, live: Live, root: nat, d: bytes)
    requires InfoOf(live, root) == Info(Some(d), 0)
    ensures ShapeOf(x, live, map[root := {}], root) == Lone(d)
  {
    hide InfoOf, Folded;
    var children: map<nat, set<nat>> := map[root := {}];
    var s := ShapeOf(x, live, children, root);
    OneChain(children, root);
    assert Names(x, live, [root]) == [];
    ShapeThere(x, live, children, root, [root]);
    forall f | f in s ensures f == [] && s[f] == Info(Some(d), 0) {
      var u := ShapeFrom(x, live, children, root, f);
      if |u| > 1 { ChainFirst(children, u); }
    }
    SameShape(Lone(d), s);
  }

  /** A new hive and any number of patches of it: what is stored at the end is what the edits say, and they fail only where they say
    * nothing. */
  method Session(legacy: bool, given: bytes, minor: nat, text: Text, name: bytes, descriptor: bytes, es: seq<Edits>)
    returns (done: bool, tx: Transaction)
    requires |given| == BASE && text.flags < 0x1_0000 && |name| + |descriptor| <= 0x1000_0000
    requires 0x6000 + 2 * (|name| + |descriptor|) + Budget(text, 1, es) <= LIMIT
    ensures fresh(tx) && tx.text == text && (done <==> EditedAll(text, Lone(descriptor), es).Some?)
    ensures done ==> tx.Valid() && tx.Open() && tx.batches == map[] && View(tx) == EditedAll(text, Lone(descriptor), es).value
    ensures done ==> AllReached(tx)
  {
    hide Hive.Valid, Hive.Live, Hive.Starts, Owns, Family, Pending, Traced, Patch.Valid, Opened, ShapeOf, EditedAll, Budget, InfoOf,
         Intact;
    tx := Start(legacy, given, minor, text, name, descriptor);
    LoneShape(text, tx.patch.store.Live(), tx.patch.store.root, descriptor);
    NoneDirtyNow();
    done := PatchAll(tx, es);
  }

  lemma {:induction false} SowHas(s: Shape, f: seq<string>)
    requires [] in s
    ensures f in Sow(s, f) && forall g :: g in s ==> g in Sow(s, f)
    decreases |f|
  {
    if f != [] && f !in s { SowHas(s, f[..|f| - 1]); }
  }

  /** Creations with names that read back and descriptors that are some always go through. */
  lemma {:induction false} LegibleSession(x: Text, s: Shape, cs: seq<Creation>)
    requires forall c :: c in cs ==> Legible(x, c.parts) && (c.security.Some? ==> ValidDescriptor(c.security.value))
    requires [] in s
    ensures CreateEach(x, s, cs, true).Some? && [] in CreateEach(x, s, cs, true).value
  {
    hide Legible, ValidDescriptor, Sow;
    if cs != [] {
      var n := |cs| - 1;
      LegibleSession(x, s, cs[..n]);
      assert cs[n] in cs;
      var r := CreateEach(x, s, cs[..n], true).value;
      LegibleLands(x, r, [], cs[n].parts);
      SowHas(r, Landing(x, r, [], cs[n].parts).value);
    }
  }

  // ----- deletions of one patch that get in each other's way

  /** Of two deletions of one patch neither may continue the other: a child deleted before its parent makes the patch fail, and so does
    * one deleted after it. */
  lemma ChildFirst(x: Text, s: Shape, parent: seq<string>, child: seq<string>, cs: seq<Creation>, roomy: bool)
    requires FoldAll(x, parent) <= FoldAll(x, child)
    ensures Edited(x, s, Edits([child, parent], cs), roomy) == None && Edited(x, s, Edits([parent, child], cs), roomy) == None
  {
    hide CreateEach, LopAll, Deletables;
    var fs, gs := FoldEach(x, [child, parent]), FoldEach(x, [parent, child]);
    assert fs[0] == FoldAll(x, child) && fs[1] == FoldAll(x, parent) && gs[0] == FoldAll(x, parent) && gs[1] == FoldAll(x, child);
  }

  /** The parent alone is deleted with all that is below it. */
  lemma ParentAlone(x: Text, s: Shape, parent: seq<string>, roomy: bool)
    ensures Edited(x, s, Edits([parent], []), roomy) == if FoldAll(x,
            parent) in Deletables(s) then Some(Lop(s, FoldAll(x, parent))) else None
  {
    hide Deletables, Lop;
    var f := FoldAll(x, parent);
    var fs := FoldEach(x, [parent]);
    assert fs == [f];
    LopStep(s, fs, 0);
    NothingDeleted(iset{}, s, fs);
    assert fs[..1] == fs;
  }

  /** Such a session: two keys are made, and then the child and the parent are to go. */
  lemma ChildThenParent(x: Text, d: bytes)
    requires Legible(x, ["P", "A"])
    ensures var make := Edits([], [Creation(["P", "A"], None)]);
            && EditedAll(x, Lone(d), [make, Edits([["P", "A"], ["P"]], [])]) == None
            && EditedAll(x, Lone(d), [make, Edits([["P"]], [])]) == Some(Lone(d))
  {
    hide Edited, Legible, Deletables, Lop;
    var make, s := Edits([], [Creation(["P", "A"], None)]), Lone(d);
    var p, a := x.fold("P"), x.fold("A");
    var made := s[[p] := Heir(s[[]])][[p, a] := Heir(s[[]])];
    MakeBoth(x, d);
    var both, one := [make, Edits([["P", "A"], ["P"]], [])], [make, Edits([["P"]], [])];
    TwoEdits(x, s, make, both[1]);
    TwoEdits(x, s, make, one[1]);
    assert FoldAll(x, ["P"]) == [p] && FoldAll(x, ["P", "A"]) == [p, a];
    ChildFirst(x, made, ["P"], ["P", "A"], [], true);
    ParentAlone(x, made, ["P"], true);
    MadeDeletable(s, made, p, a);
  }

  lemma TwoEdits(x: Text, s: Shape, a: Edits, b: Edits)
    ensures EditedAll(x, s, [a, b]) == if Edited(x, s, a, true).Some? then Edited(x, Edited(x, s, a, true).value, b, true) else None
  {
    hide Edited, EditedAll;
    var es := [a, b];
    NothingEdited(x, s, es);
    EditedStep(x, s, es, 0);
    EditedStep(x, s, es, 1);
    assert es[..2] == es;
  }

  lemma MakeBoth(x: Text, d: bytes)
    requires Legible(x, ["P", "A"])
    ensures var p, a, s := x.fold("P"), x.fold("A"), Lone(d);
            Edited(x, s, Edits([], [Creation(["P", "A"], None)]), true) == Some(s[[p] := Heir(s[[]])][[p, a] := Heir(s[[]])])
  {
    hide Legible, Deletables, Lone, Landing, CreateEach, Independent, LopAll;
    var p, a, s, c := x.fold("P"), x.fold("A"), Lone(d), Creation(["P", "A"], None);
    assert [] in s && s.Keys == iset{[]} by { LoneIs(d); }
    LegibleLands(x, s, [], ["P", "A"]);
    assert [] + FoldAll(x, ["P", "A"]) == [p, a];
    assert FoldEach(x, []) == [];
    NothingDeleted(Deletables(s), s, []);
    NoneCreated(x, s, [c], true);
    CreateStep(x, s, [c], 0, true);
    assert [c][..1] == [c];
    assert [p, a][..1] == [p] && [p][..0] == [];
    assert [p] !in s && [p, a] !in s;
    assert Sow(s, [p]) == s[[p] := Heir(s[[]])];
  }

  lemma LoneIs(d: bytes)
    ensures [] in Lone(d) && Lone(d).Keys == iset{[]} && Lone(d)[[]].volatile == 0
  {
  }

  lemma MadeDeletable(s: Shape, made: Shape, p: string, a: string)
    requires s.Keys == iset{[]} && s[[]].volatile == 0 && made == s[[p] := Heir(s[[]])][[p, a] := Heir(s[[]])]
    ensures [p] in Deletables(made) && Lop(made, [p]) == s
  {
    forall g | g in made && [p] <= g ensures made[g].volatile == 0 && |g| <= 513 {}
    forall all: set<seq<string>> | forall g :: g in all ==> g in made && [p] <= g ensures |all| <= 0x10_0000 {
      forall g | g in all ensures g in {[p], [p, a]} {}
      FewPaths(all, {[p], [p, a]});
    }
    SameShape(Lop(made, [p]), s);
  }

  lemma {:induction false} FewPaths(a: set<seq<string>>, b: set<seq<string>>)
    requires a <= b
    ensures |a| <= |b|
  {
    InjectSize(a, b, (g: seq<string>) => g);
  }
}
