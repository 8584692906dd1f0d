/** Deletions after creations that were not committed: when they are right, and how they go wrong. A patch deletes before it creates, so
  * this is about other callers. */
module PendingDeletion {
  import opened Bytes
  import opened HiveLayout
  import opened HiveImage
  import opened MutableHive
  import opened SecurityRing
  import opened SubkeyIndex
  import opened HivePatch
  import opened KeyDeletion
  import opened HiveBatch
  import opened KeyPaths
  import opened SubtreeRemoval
  import opened StoredLinks
  import opened SubtreeDeletion
  import opened SubtreeLimits
  import opened NameTree
  import opened EnlargedKeys
  import opened RemovablePaths
  import opened DeletableShape
  import opened CreatedPaths
  import opened PatchRun

  // ----- a deletion after creations

  /** A path that is there and, unless it is new, could be deleted at first. */
  ghost predicate StillDeletable(s: Shape, made: Shape, f: seq<string>) { f != [] && f in made && (f in s ==> f in Deletables(s)) }

  /** Nothing below a path is new. */
  ghost predicate NothingNew(s: Shape, made: Shape, f: seq<string>) { forall g :: g in made && f < g ==> g in s }

  lemma Rests(tx: Transaction)
    requires tx.Valid() && forall k :: !IsDirty(tx.batches, k)
    ensures Resting(tx.text, tx.minor, tx.patch.store.root, tx.Now())
  {
    hide Hive.Valid, Hive.Live, Hive.Starts, Owns, Family, Pending, Traced, Patch.Valid, Sound, IsDirty;
    tx.StandsNow();
    tx.PendingHolds();
  }

  /** After creations a path leads to a key that can be removed exactly if it is still deletable. */
  lemma StillClearable(x: Text, minor: nat, root: nat, a: State, b: State, f: seq<string>)
    requires Resting(x, minor, root, a) && Enlarged(x, a, b) && Stands(minor, root, b) && b.nodes.Keys == b.keys
    requires Unambiguous(x, a.live, a.children) && Unambiguous(x, b.live, b.children)
    requires var s := ShapeOf(x, a.live, a.children, root);
             f in Deletables(s) <==>
               f != [] && There(x, a.live, a.children, root, f)
               && Clearable(a.live, a.nodes, a.keys, TrailTo(x, a.live, a.children, root, f)[|f|])
    ensures StillDeletable(ShapeOf(x, a.live, a.children, root), ShapeOf(x, b.live, b.children, root), f) <==>
              f != [] && There(x, b.live, b.children, root, f)
              && Clearable(b.live, b.nodes, b.keys, TrailTo(x, b.live, b.children, root, f)[|f|])
  {
    hide Owns, Sound, Family, Pending, Unambiguous, Folded, Clearable, Enlarged, Chain, InfoOf, IsDirty, Compact;
    if There(x, b.live, b.children, root, f) {
      var v := TrailTo(x, b.live, b.children, root, f);
      RootedKeys(root, b.keys, b.children, b.parents, v);
      FamilyDomain(root, b.keys, b.children, b.parents);
      OldPath(x, root, a, b, v);
      if v[|f|] in a.keys {
        EnlargedDomain(x, a, b);
        OldTrail(x, a, b, root, v);
        FoldedOld(x, a, b, v);
        assert Reaches(x, a.live, a.children, root, f, v);
        OneTrail(x, a.live, a.children, root, v, TrailTo(x, a.live, a.children, root, f));
        ClearableSince(x, minor, root, a, b, v[|f|]);
      } else {
        ClearableNew(x, minor, root, a, b, v[|f|]);
      }
    }
  }

  /** Creates keys in a hive at rest and then, before a commit, deletes a path. The deletion succeeds exactly if the path is there and, unless
    * it is new, could have been deleted at first. It is right, that is, every key left is reached and no list names a freed cell, exactly if
    * nothing below the path is new; then the path and all that continue it are gone. */
  method DeleteAfterCreations(tx: Transaction, cs: seq<Creation>, parts: seq<string>) returns (done: bool, o: Outcome)
    requires tx.Valid() && tx.Open() && (forall k :: !IsDirty(tx.batches, k)) && tx.text.flags < 0x1_0000
             && Weight(tx) + Loads(tx.text, cs) <= LIMIT
    modifies tx`batches, tx`nodes, tx`children, tx`parents, tx.patch`cacheReady, tx.patch`securityCells, tx.patch`ring, tx.patch`keys,
             tx.patch.store.Repr
    ensures done <==> CreateEach(tx.text, old(View(tx)), cs, old(Roomy(tx.patch))).Some?
    ensures done ==>
              var made := CreateEach(tx.text, old(View(tx)), cs, old(Roomy(tx.patch))).value;
              o == Done <==> StillDeletable(old(View(tx)), made, FoldAll(tx.text, parts))
    ensures done && o == Done && old(AllReached(tx)) ==>
              var made := CreateEach(tx.text, old(View(tx)), cs, old(Roomy(tx.patch))).value;
              AllReached(tx) <==> NothingNew(old(View(tx)), made, FoldAll(tx.text, parts))
    ensures done && o == Done ==>
              var made := CreateEach(tx.text, old(View(tx)), cs, old(Roomy(tx.patch))).value;
              NothingNew(old(View(tx)), made, FoldAll(tx.text, parts)) ==>
                tx.Valid() && tx.Open() && View(tx) == Lop(made, FoldAll(tx.text, parts))
  {
    hide Hive.Valid, Hive.Live, Hive.Starts, Owns, Family, Pending, Traced, Patch.Valid, Opened, Unambiguous, Path, Folded, ShapeOf, Good,
         Severed, Whole, Matched, Intact, Robed, Undeletable, OnlyAt, Clearable, There, Removable, Chain, Rooted, Reloaded, Unloadable, Lop,
         Sound, IsDirty, CreateEach, Loads, Roomy, Weight, Enlarged, Resting, OnlyDeletions, Removables, Deletables, StillDeletable,
         NothingNew;
    ghost var a, root, f := tx.Now(), tx.patch.store.root, FoldAll(tx.text, parts);
    o := Refused;
    Opens(tx);
    Rests(tx);
    AtRest(tx);
    RemovableClear(tx, f);
    done := CreateAll(tx, cs);
    if done {
      ghost var b := tx.Now();
      Opens(tx);
      tx.StandsNow();
      StillClearable(tx.text, tx.minor, root, a, b, f);
      ghost var trail, held, t;
      o, trail, held, t := DeleteKey(tx, parts);
      if o == Done {
        DeletedTrail(tx.text, root, b, trail, parts, t);
        RestStands(tx.text, tx.minor, root, a);
        NewMatched(tx.text, tx.minor, root, a, b, trail);
        if Matched(b.live, b.nodes, b.children, t.cell) {
          MatchedWhole(b.live, b.nodes, root, b.keys, b.children, b.parents, trail, t);
          SeveredView(tx.text, tx.minor, root, b.(batches := held), tx.Now(), trail, t);
        }
      } else {
        NotDeletable(tx.text, b.live, root, b.keys, b.nodes, b.children, b.parents, b.batches, trail, parts);
      }
    }
  }

  /** What a deletion says of the path it was asked for. */
  lemma DeletedTrail(x: Text, root: nat, b: State, trail: seq<nat>, parts: seq<string>, t: KeyTree)
    requires Unambiguous(x, b.live, b.children) && parts != [] && |trail| == |parts| + 1 && trail[0] == root
             && Path(x, b.live, b.children, trail, parts) && t.cell == trail[|parts|] && Good(b.live, b.nodes, b.keys, t, t.cell, 0, {})
    ensures Rooted(root, b.children, trail) && Names(x, b.live, trail) == FoldAll(x, parts) && Spans(b.live, b.nodes, t)
    ensures var f := FoldAll(x, parts);
            There(x, b.live, b.children, root, f) && TrailTo(x, b.live, b.children, root, f) == trail
            && Clearable(b.live, b.nodes, b.keys, trail[|f|])
  {
    hide Unambiguous, Folded, KeyRoom, Spans, Distinct, KeyCells;
    PathIs(x, b.live, b.children, trail, parts);
    var f := FoldAll(x, parts);
    assert Reaches(x, b.live, b.children, root, f, trail);
    OneTrail(x, b.live, b.children, root, trail, TrailTo(x, b.live, b.children, root, f));
  }

  lemma NewMatched(x: Text, minor: nat, root: nat, a: State, b: State, trail: seq<nat>)
    requires Resting(x, minor, root, a) && Enlarged(x, a, b) && Stands(minor, root, b) && b.nodes.Keys == b.keys
             && Unambiguous(x, b.live, b.children) && Rooted(root, b.children, trail)
    ensures Matched(b.live, b.nodes, b.children, trail[|trail| - 1]) <==>
              NothingNew(ShapeOf(x, a.live, a.children, root), ShapeOf(x, b.live, b.children, root), Names(x, b.live, trail))
  {
    hide Owns, Sound, Family, Pending, Unambiguous, Folded, Matched, Enlarged, Chain, IsDirty, ShapeOf, Below;
    MatchedSince(x, minor, root, a, b, trail);
    NewPaths(x, root, a, b, trail);
  }

  // ----- creating below a key and then deleting it

  lemma {:induction false} LandingThrough(x: Text, s: Shape, at: seq<string>, parts: seq<string>, name: string)
    requires forall i :: 0 <= i <= |parts| ==> at + FoldAll(x, parts)[..i] in s
    requires at + FoldAll(x, parts) + [x.fold(name)] !in s && at + FoldAll(x, parts) + [x.fold(Readable(x, name))] !in s
    ensures Landing(x, s, at, parts + [name]) == Some(at + FoldAll(x, parts) + [x.fold(Readable(x, name))])
    decreases |parts|
  {
    hide Readable;
    var f := FoldAll(x, parts);
    if parts == [] {
      assert at + f == at && [name][1..] == [] && parts + [name] == [name];
    } else {
      var one := at + [f[0]];
      assert f[..1] == [f[0]] && at + f[..1] in s;
      assert (parts + [name])[0] == parts[0] && (parts + [name])[1..] == parts[1..] + [name];
      var g := FoldAll(x, parts[1..]);
      assert one + g == at + f;
      forall i | 0 <= i <= |parts| - 1 ensures one + g[..i] in s { assert one + g[..i] == at + f[..i + 1]; }
      LandingThrough(x, s, one, parts[1..], name);
    }
  }

  /** Every front of a path that is there is there. */
  lemma FrontsThere(x: Text, live: Live, children: map<nat, set<nat>>, root: nat, f: seq<string>, i: nat)
    requires f in ShapeOf(x, live, children, root) && i <= |f|
    ensures f[..i] in ShapeOf(x, live, children, root)
  {
    hide ShapeOf, Folded, InfoOf;
    var u := ShapeFrom(x, live, children, root, f);
    ChainFront(children, u, i + 1);
    NamesFront(x, live, u, i + 1);
    ShapeThere(x, live, children, root, u[..i + 1]);
  }

  /** A name that is not there yet is created below a path that is. */
  ghost predicate Vacant(x: Text, s: Shape, parts: seq<string>, name: string) {
    var f := FoldAll(x, parts);
    f in s && f + [x.fold(name)] !in s && f + [x.fold(Readable(x, name))] !in s
  }

  lemma LandsBelow(x: Text, live: Live, children: map<nat, set<nat>>, root: nat, parts: seq<string>, name: string)
    requires Vacant(x, ShapeOf(x, live, children, root), parts, name)
    ensures Landing(x, ShapeOf(x, live, children, root), [], parts + [name]) == Some(FoldAll(x, parts) + [x.fold(Readable(x, name))])
  {
    hide ShapeOf, Folded, Readable, Landing;
    var s, f := ShapeOf(x, live, children, root), FoldAll(x, parts);
    forall i | 0 <= i <= |parts| ensures [] + f[..i] in s { FrontsThere(x, live, children, root, f, i); assert [] + f[..i] == f[..i]; }
    assert [] + f == f;
    LandingThrough(x, s, [], parts, name);
  }

  /** The trail of such a creation: the trail of the path, and a key that is new. */
  lemma NewChild(x: Text, root: nat, a: State, b: State, trail: seq<nat>, u: seq<nat>, parts: seq<string>, name: string)
    requires Enlarged(x, a, b) && Family(root, a.keys, a.children, a.parents) && Family(root, b.keys, b.children, b.parents)
             && Unambiguous(x, b.live, b.children) && root in a.keys
    requires Rooted(root, b.children, trail) && |trail| == |parts| + 2
             && Names(x, b.live, trail) == FoldAll(x, parts) + [x.fold(Readable(x, name))]
    requires Rooted(root, a.children, u) && Names(x, a.live, u) == FoldAll(x, parts)
             && Vacant(x, ShapeOf(x, a.live, a.children, root), parts, name)
    ensures trail == u + [trail[|parts| + 1]] && trail[|parts| + 1] !in a.keys && Rooted(root, b.children, u)
            && Names(x, b.live, u) == FoldAll(x, parts) && forall i :: 0 <= i < |u| ==> u[i] in a.keys
  {
    hide Folded, Unambiguous, Family, Enlarged, ShapeOf, Chain, Readable, Grew;
    var n, f := |parts|, FoldAll(x, parts);
    FamilyDomain(root, b.keys, b.children, b.parents);
    EnlargedDomain(x, a, b);
    GrewChain(x, a.live, b.live, root, a.keys, b.keys, a.children, b.children, a.parents, u);
    ChainFront(b.children, trail, n + 1);
    NamesFront(x, b.live, trail, n + 1);
    assert Names(x, b.live, trail)[..n] == f;
    OneTrail(x, b.live, b.children, root, trail[..n + 1], u);
    assert trail == trail[..n + 1] + [trail[n + 1]];
    OldPath(x, root, a, b, trail);
  }

  /** Creates a child of a key and, before a commit, deletes the key: the deletion succeeds, and the child stays as a key that no path
    * leads to. */
  method CreateThenDelete(tx: Transaction, parts: seq<string>, name: string) returns (o: Outcome, orphan: nat)
    requires tx.Valid() && tx.Open() && (forall k :: !IsDirty(tx.batches, k)) && tx.text.flags < 0x1_0000
             && |tx.patch.store.data| + PathRoom(tx.text, parts + [name]) <= LIMIT
    requires FoldAll(tx.text, parts) in Deletables(View(tx)) && Vacant(tx.text, View(tx), parts, name)
    modifies tx`batches, tx`nodes, tx`children, tx`parents, tx.patch`securityCells, tx.patch`ring, tx.patch`keys, tx.patch.store.Repr
    ensures o == Done && orphan in tx.patch.keys && orphan in tx.patch.store.Live() && !Below(tx.children, tx.patch.store.root, orphan)
  {
    hide Hive.Valid, Hive.Live, Hive.Starts, Owns, Family, Pending, Traced, Patch.Valid, Opened, Unambiguous, Path, Folded, ShapeOf,
         PathRoom, Landing, Chain, Readable, Removable, Good, Severed, Whole, Matched, Intact, Clearable, There, Undeletable, OnlyAt,
         Reloaded, IsDirty, Below, Deletables, KeyCells, Sound, Robed, Enlarged, Resting, Planted, OnlyDeletions, Removables, Sow, Vacant;
    ghost var a, root, x := tx.Now(), tx.patch.store.root, tx.text;
    Opens(tx);
    Rests(tx);
    AtRest(tx);
    ghost var u, t := GoodAtRest(tx, parts);
    LandsBelow(x, a.live, a.children, root, parts, name);
    ghost var trail;
    o, orphan, trail := EnsurePath(tx, parts + [name]);
    Opens(tx);
    tx.StandsNow();
    ghost var b := tx.Now();
    NewChild(x, root, a, b, trail, u, parts, name);
    GoodSince(x, tx.minor, root, a, b, t, u[|parts|]);
    GoodClears(b.live, b.nodes, b.keys, t, u[|parts|]);
    FoundThere(x, b.live, b.children, root, u);
    ghost var way, held, got;
    o, way, held, got := DeleteKey(tx, parts);
    if o == Refused {
      NotDeletable(x, b.live, root, b.keys, b.nodes, b.children, b.parents, b.batches, way, parts);
      assert false;
    }
    DeletedTrail(x, root, b, way, parts, got);
    OneTrail(x, b.live, b.children, root, way, u);
    GoodUnique(b.live, b.nodes, b.keys, t, got, u[|parts|]);
    ChildBelow(b.children, trail, |parts|);
    LeftBehind(x, tx.minor, root, b.(batches := held), tx.Now(), way, got, orphan);
  }

  /** The stored subtree of a path that can be deleted. */
  lemma GoodAtRest(tx: Transaction, parts: seq<string>) returns (u: seq<nat>, t: KeyTree)
    requires tx.Valid() && tx.Open() && OnlyDeletions(tx) && FoldAll(tx.text, parts) in Removables(tx)
    ensures Rooted(tx.patch.store.root, tx.children, u) && Names(tx.text, tx.patch.store.Live(), u) == FoldAll(tx.text, parts)
            && |u| == |parts| + 1 && |u| >= 2
    ensures Good(tx.patch.store.Live(), tx.nodes, tx.patch.keys, t, u[|parts|], 0, {})
            && forall k :: k in KeyCells(t) ==> k in tx.patch.keys
  {
    hide Hive.Valid, Hive.Live, Hive.Starts, Owns, Family, Pending, Traced, Patch.Valid, Opened, Unambiguous, Folded, Good, Quiet, Shrunk,
         Removable;
    var f, live, root := FoldAll(tx.text, parts), tx.patch.store.Live(), tx.patch.store.root;
    RemovableClear(tx, f);
    u := TrailTo(tx.text, live, tx.children, root, f);
    t :| Good(live, tx.nodes, tx.patch.keys, t, u[|f|], 0, {});
    GoodInside(live, tx.nodes, tx.patch.keys, t, u[|f|]);
  }

  lemma GoodInside(live: Live, nodes: map<nat, Node>, keys: set<nat>, t: KeyTree, cell: nat)
    requires Good(live, nodes, keys, t, cell, 0, {})
    ensures forall k :: k in KeyCells(t) ==> k in keys
  {
    hide Spans, KeyCells, Distinct, KeyRoom;
  }

  lemma FoundThere(x: Text, m: Live, wide: map<nat, set<nat>>, root: nat, u: seq<nat>)
    requires Unambiguous(x, m, wide) && Rooted(root, wide, u)
    ensures var f := Names(x, m, u); There(x, m, wide, root, f) && TrailTo(x, m, wide, root, f) == u
  {
    hide Unambiguous, Folded, Chain;
    var f := Names(x, m, u);
    assert Reaches(x, m, wide, root, f, u);
    OneTrail(x, m, wide, root, u, TrailTo(x, m, wide, root, f));
  }

  lemma GoodUnique(live: Live, nodes: map<nat, Node>, keys: set<nat>, t: KeyTree, got: KeyTree, cell: nat)
    requires Good(live, nodes, keys, t, cell, 0, {}) && Good(live, nodes, keys, got, cell, 0, {})
    ensures got == t
  {
    hide Spans, KeyCells, Distinct, KeyRoom;
    SpansUnique(live, nodes, t, got);
  }

  lemma ChildBelow(children: map<nat, set<nat>>, trail: seq<nat>, n: nat)
    requires Chain(children, trail) && n + 1 < |trail|
    ensures Below(children, trail[n], trail[n + 1])
  {
    var w := [trail[n], trail[n + 1]];
    assert w != [] && w[0] == trail[n] && w[|w| - 1] == trail[n + 1] && Chain(children, w);
  }

  // ----- deleting, creating elsewhere, and deleting again

  /** A child of a key was deleted and then a child of another key created: what is linked and listed then. */
  ghost predicate Replaced(a: State, b: State, c: State, parent: nat, was: nat, keeper: nat, made: nat) {
    && a.children.Keys == a.keys && b.children.Keys == b.keys && c.children.Keys == c.keys && c.nodes.Keys == c.keys
    && b.keys <= a.keys && was in a.keys && was !in b.keys && parent in b.keys && was in a.children[parent]
    && keeper in b.keys && keeper != parent && made !in b.keys && c.keys == b.keys + {made}
    && (forall k :: k in b.keys ==> b.children[k] == a.children[k] - (if k == parent then {was} else {}))
    && (forall k :: k in b.keys ==> c.children[k] == b.children[k] + (if k == keeper then {made} else {}))
    && (forall k, e :: k in b.keys && e in a.children[k] ==> e in b.keys || (k == parent && e == was))
    && (forall k :: k in b.keys ==> k in a.nodes && c.nodes[k] == a.nodes[k] && StoredAt(c.live, c.nodes, k) == StoredAt(a.live, a.nodes, k))
    && c.nodes[made] == EMPTY
  }

  /** The links left by the deletion. */
  lemma ReplacedLinks(x: Text, minor: nat, root: nat, a: State, b: State, parent: nat, t: KeyTree)
    requires Stands(minor, root, a) && Severed(x, a, b, parent, t) && Whole(a.children, parent, t) && parent in a.keys && parent in a.children
             && t.cell in a.children[parent]
    ensures a.children.Keys == a.keys && b.children.Keys == b.keys <= a.keys && t.cell in a.keys && t.cell !in b.keys && parent in b.keys
    ensures forall k :: k in b.keys ==> b.children[k] == a.children[k] - (if k == parent then {t.cell} else {})
    ensures forall k, e :: k in b.keys && e in a.children[k] ==> e in b.keys || (k == parent && e == t.cell)
  {
    hide Owns, Sound, Family, KeyCells, Spans, After, Unbatched, Folded, Distinct, Below;
    FamilyDomain(root, a.keys, a.children, a.parents);
    TopIsGone(t);
    SubtreeDeletion.Outside(root, a.keys, a.children, a.parents, t, parent);
    forall k, e | k in b.keys && e in a.children[k] ensures e in b.keys || (k == parent && e == t.cell) {
      FamilyAt(root, a.keys, a.children, a.parents, k, e);
    }
  }

  /** The links gained by the creation. */
  lemma ReplacedChild(b: State, c: State, root: nat, u: seq<nat>, made: nat)
    requires Planted(b.keys, c.keys, b.children, c.children, u + [made]) && Rooted(root, b.children, u) && made !in b.keys
             && forall i :: 0 <= i < |u| ==> u[i] in b.keys
    ensures c.children.Keys == c.keys && c.keys == b.keys + {made}
    ensures forall k :: k in b.keys ==> c.children[k] == b.children[k] + (if k == u[|u| - 1] then {made} else {})
  {
    var trail := u + [made];
    forall k, e | k in b.keys ensures Follows(trail, k, e) ==> e in b.children[k] || (k == u[|u| - 1] && e == made) {
      if Follows(trail, k, e) {
        var i :| 0 <= i < |trail| - 1 && trail[i] == k && trail[i + 1] == e;
        if i < |u| - 1 { assert u[i] == k && u[i + 1] == e; }
      }
    }
    assert trail[|u| - 1] == u[|u| - 1] && trail[|u|] == made;
    assert Follows(trail, u[|u| - 1], made);
    forall k | k in b.keys ensures c.children[k] == b.children[k] + (if k == u[|u| - 1] then {made} else {}) {
      forall e ensures e in c.children[k] <==> e in b.children[k] || (k == u[|u| - 1] && e == made) {}
    }
    forall k ensures k in Elements(trail) ==> k in b.keys || k == made {}
    assert made in Elements(trail);
  }

  /** The lists stay as they were. */
  lemma ReplacedLists(x: Text, minor: nat, root: nat, a: State, b: State, c: State, parent: nat, t: KeyTree, k: nat)
    requires Stands(minor, root, a) && Stands(minor, root, b) && Severed(x, a, b, parent, t) && Enlarged(x, b, c) && k in b.keys
    ensures k in a.nodes && k in c.nodes && c.nodes[k] == a.nodes[k] && StoredAt(c.live, c.nodes, k) == StoredAt(a.live, a.nodes, k)
  {
    hide Owns, Sound, Family, KeyCells, Spans, After, Unbatched, Folded, Distinct, Grew, InfoOf, IsDirty, Holds, Listed, NodeHolds, Same,
         Pruned;
    SeveredNames(x, minor, root, a, b, parent, t);
    ListStays(a.live, b.live, minor, a.ring, a.keys, b.keys, a.nodes, b.nodes, k);
    OwnsAt(b.live, minor, b.ring, b.keys, b.nodes, k);
    IndexThere(b.live, minor, k, b.nodes[k]);
    assert SameList(b.live, c.live, b.nodes[k]);
  }

  lemma ReplacedFacts(x: Text, minor: nat, root: nat, a: State, b: State, c: State, parent: nat, t: KeyTree, u: seq<nat>, made: nat)
    requires Stands(minor, root, a) && Stands(minor, root, b) && Severed(x, a, b, parent, t) && Whole(a.children, parent, t)
             && parent in a.keys && parent in a.children && t.cell in a.children[parent]
    requires Enlarged(x, b, c) && c.nodes.Keys == c.keys && Planted(b.keys, c.keys, b.children, c.children, u + [made])
             && Rooted(root, b.children, u) && made !in b.keys && (forall i :: 0 <= i < |u| ==> u[i] in b.keys) && u[|u| - 1] != parent
    ensures Replaced(a, b, c, parent, t.cell, u[|u| - 1], made)
  {
    hide Stands, Severed, Whole, Enlarged, Planted, Chain, StoredAt;
    ReplacedLinks(x, minor, root, a, b, parent, t);
    ReplacedChild(b, c, root, u, made);
    forall k | k in b.keys ensures k in a.nodes && k in c.nodes && c.nodes[k] == a.nodes[k]
        && StoredAt(c.live, c.nodes, k) == StoredAt(a.live, a.nodes, k) {
      ReplacedLists(x, minor, root, a, b, c, parent, t, k);
    }
    NewEmpty(x, b, c, made);
  }

  lemma NewEmpty(x: Text, b: State, c: State, made: nat)
    requires Enlarged(x, b, c) && made in c.nodes && made !in b.keys
    ensures c.nodes[made] == EMPTY
  {
    hide Grew, InfoOf, IsDirty;
  }

  /** The key that lost a child can be deleted only if the new key took the cell of the lost one. */
  lemma OnlyReused(x: Text, minor: nat, root: nat, a: State, b: State, c: State, parent: nat, was: nat, keeper: nat, made: nat)
    requires Resting(x, minor, root, a) && Replaced(a, b, c, parent, was, keeper, made) && Clearable(c.live, c.nodes, c.keys, parent)
    ensures made == was
  {
    hide Resting, Spans, Distinct, KeyRoom, StoredAt;
    var t :| Good(c.live, c.nodes, c.keys, t, parent, 0, {});
    ListedWas(x, minor, root, a, b, c, parent, was, keeper, made);
    assert parent in KeyCells(t);
    ListsInside(c.live, c.nodes, t, parent, was);
  }

  lemma ListedWas(x: Text, minor: nat, root: nat, a: State, b: State, c: State, parent: nat, was: nat, keeper: nat, made: nat)
    requires Resting(x, minor, root, a) && Replaced(a, b, c, parent, was, keeper, made)
    ensures was in StoredAt(c.live, c.nodes, parent)
  {
    hide Resting, StoredAt;
    RestClean(x, minor, root, a, parent);
    assert was in Elements(StoredAt(a.live, a.nodes, parent));
  }

  /** What the stored lists link then: what was linked at first, as far as it is left. */
  ghost function Remains(a: State, b: State, c: State): map<nat, set<nat>> {
    map k | k in c.keys :: if k in b.keys && k in a.children then a.children[k] else {}
  }

  lemma RemainsFamily(root: nat, a: State, b: State, c: State, parent: nat, was: nat, keeper: nat)
    requires Family(root, a.keys, a.children, a.parents) && Replaced(a, b, c, parent, was, keeper, was)
    ensures Family(root, c.keys, Remains(a, b, c), map k | k in a.parents && k in c.keys :: a.parents[k])
  {
    hide Replaced;
    var kids := Remains(a, b, c);
    RemainsKeys(a, b, c, parent, was, keeper);
    forall p, e | p in c.keys && e in kids[p] ensures e in c.keys && e in a.parents && a.parents[e] == p {
      RemainsLink(a, b, c, parent, was, keeper, p, e);
    }
  }

  lemma RemainsKeys(a: State, b: State, c: State, parent: nat, was: nat, keeper: nat)
    requires Replaced(a, b, c, parent, was, keeper, was)
    ensures c.keys <= a.keys
  {
    hide StoredAt;
  }

  lemma RemainsLink(a: State, b: State, c: State, parent: nat, was: nat, keeper: nat, p: nat, e: nat)
    requires Replaced(a, b, c, parent, was, keeper, was) && p in c.keys && e in Remains(a, b, c)[p]
    ensures p in a.keys && p in a.children && e in a.children[p] && e in c.keys
  {
    hide StoredAt;
  }

  lemma RemainsNeat(x: Text, minor: nat, root: nat, a: State, b: State, c: State, parent: nat, was: nat, keeper: nat, k: nat)
    requires Resting(x, minor, root, a) && Opened(x, a.live, a.keys, a.nodes, a.batches) && Replaced(a, b, c, parent, was, keeper, was)
             && k in c.keys && (forall j :: j in c.keys && j in c.nodes && c.nodes[j].index.Some? ==> Holds(c.live, c.nodes[j].index.value))
    ensures Neat(c.live, c.nodes, Remains(a, b, c), k) && Walks(c.nodes[k])
  {
    hide Owns, Sound, Family, Pending, Opened, IsDirty, Holds, Listed, Distinct, Room;
    if k in b.keys {
      RestCalm(x, minor, root, a, k);
      NeatAt(x, a, minor, root, k);
      OpenWalks(x, a.live, a.keys, a.nodes, a.batches, k);
    } else {
      NoneDistinct();
      assert Elements<nat>([]) == {};
    }
  }

  lemma RemainsChain(a: State, b: State, c: State, v: seq<nat>)
    requires Chain(Remains(a, b, c), v)
    ensures Chain(a.children, v)
  {
    var kids := Remains(a, b, c);
    forall i | 0 <= i < |v| - 1 ensures v[i] in a.children && v[i + 1] in a.children[v[i]] { assert v[i] in kids && v[i + 1] in kids[v[i]]; }
  }

  lemma RemainsBelow(a: State, b: State, c: State, top: nat, k: nat)
    requires Below(Remains(a, b, c), top, k)
    ensures Below(a.children, top, k)
  {
    hide Remains;
    var v := BelowTrail(Remains(a, b, c), top, k);
    RemainsChain(a, b, c, v);
    ChainIsBelow(a.children, v);
  }

  lemma IndexesHold(minor: nat, root: nat, c: State)
    requires Stands(minor, root, c)
    ensures forall j :: j in c.keys && j in c.nodes && c.nodes[j].index.Some? ==> Holds(c.live, c.nodes[j].index.value)
  {
    hide Owns, Sound, Family, NodeHolds, Holds;
    forall j | j in c.keys && j in c.nodes && c.nodes[j].index.Some? ensures Holds(c.live, c.nodes[j].index.value) {
      OwnsAt(c.live, minor, c.ring, c.keys, c.nodes, j);
      IndexThere(c.live, minor, j, c.nodes[j]);
    }
  }

  /** If it did, the key can be deleted. */
  lemma ReusedClearable(x: Text, minor: nat, root: nat, a: State, b: State, c: State, u: seq<nat>, was: nat, keeper: nat)
    requires Resting(x, minor, root, a) && Opened(x, a.live, a.keys, a.nodes, a.batches) && Stands(minor, root, c)
    requires Rooted(root, a.children, u) && (forall i :: 0 <= i < |u| ==> u[i] in b.keys) && Quiet(a.live, a.children, a.batches, u[|u| - 1])
    requires Replaced(a, b, c, u[|u| - 1], was, keeper, was) && forall k :: k in c.keys && Stable(a.live, k) ==> Stable(c.live, k)
    ensures Clearable(c.live, c.nodes, c.keys, u[|u| - 1])
  {
    hide Owns, Sound, Family, Pending, Opened, IsDirty, Below, Chain, Neat, Spans, KeyCells, KeyHeight, Plain, Stable, Distinct, Walks,
         Replaced, Remains, BelowSet;
    var kids, top := Remains(a, b, c), u[|u| - 1];
    var parents := map k | k in a.parents && k in c.keys :: a.parents[k];
    RemainsFamily(root, a, b, c, top, was, keeper);
    IndexesHold(minor, root, c);
    RemainsRooted(root, a, b, c, u, was, keeper);
    RootedKeys(root, c.keys, kids, parents, u);
    FamilyDomain(root, c.keys, kids, parents);
    OwnsDomain(c.live, minor, c.ring, c.keys, c.nodes);
    forall k | Below(kids, top, k) ensures Neat(c.live, c.nodes, kids, k) && k in c.keys && Walks(c.nodes[k]) && Stable(c.live, k) {
      BelowKeys(root, c.keys, kids, parents, top, k);
      RemainsNeat(x, minor, root, a, b, c, top, was, keeper, k);
      RemainsBelow(a, b, c, top, k);
    }
    var t, v := TreeBelow(c.live, c.nodes, root, c.keys, kids, parents, u);
    PlainFrom(c.live, c.nodes, t);
    BelowSize(kids, t);
    RemainsFewer(a, b, c, top, was, keeper);
    RemainsChain(a, b, c, v);
    assert ChainFrom(a.children, top, v);
    assert Good(c.live, c.nodes, c.keys, t, top, 0, {});
  }

  lemma RemainsFewer(a: State, b: State, c: State, top: nat, was: nat, keeper: nat)
    requires Replaced(a, b, c, top, was, keeper, was)
    ensures |BelowSet(Remains(a, b, c), top)| <= |BelowSet(a.children, top)|
  {
    hide Below, StoredAt;
    var kids := Remains(a, b, c);
    forall k | k in BelowSet(kids, top) ensures k in BelowSet(a.children, top) { RemainsBelow(a, b, c, top, k); }
    Smaller(BelowSet(kids, top), BelowSet(a.children, top));
  }

  lemma RemainsRooted(root: nat, a: State, b: State, c: State, u: seq<nat>, was: nat, keeper: nat)
    requires Rooted(root, a.children, u) && (forall i :: 0 <= i < |u| ==> u[i] in b.keys) && Replaced(a, b, c, u[|u| - 1], was, keeper, was)
    ensures Rooted(root, Remains(a, b, c), u)
  {
    hide StoredAt;
  }

  lemma LinksRemain(x: Text, minor: nat, root: nat, a: State, b: State, c: State, parent: nat, was: nat, keeper: nat)
    requires Resting(x, minor, root, a) && Replaced(a, b, c, parent, was, keeper, was)
    ensures Links(c.live, c.nodes) == Remains(a, b, c)
  {
    hide Resting, Holds, Listed;
    forall k | k in c.keys ensures Elements(StoredAt(c.live, c.nodes, k)) == Remains(a, b, c)[k] {
      if k in b.keys { RestClean(x, minor, root, a, k); } else { assert Elements<nat>([]) == {}; }
    }
  }

  /** The deletion then takes the new key, and leaves the one that has it as a child. */
  lemma ReusedGone(x: Text, minor: nat, root: nat, a: State, b: State, c: State, parent: nat, was: nat, keeper: nat, t: KeyTree)
    requires Resting(x, minor, root, a) && Replaced(a, b, c, parent, was, keeper, was) && Spans(c.live, c.nodes, t) && t.cell == parent
             && !Below(a.children, parent, keeper)
    ensures was in KeyCells(t) && keeper !in KeyCells(t)
  {
    hide Resting, Spans, StoredAt, Replaced, Below, Remains, Links;
    ListedWas(x, minor, root, a, b, c, parent, was, keeper, was);
    assert parent in KeyCells(t);
    ListsInside(c.live, c.nodes, t, parent, was);
    SpansReach(c.live, c.nodes, t);
    LinksRemain(x, minor, root, a, b, c, parent, was, keeper);
    if keeper in KeyCells(t) { RemainsBelow(a, b, c, parent, keeper); }
  }

  lemma OneParent(root: nat, a: State, p: nat, q: nat, c: nat)
    requires Family(root, a.keys, a.children, a.parents) && p in a.keys && q in a.keys && p != q && c in a.children[p]
    ensures c !in a.children[q]
  {
    hide Family;
    FamilyDomain(root, a.keys, a.children, a.parents);
    FamilyAt(root, a.keys, a.children, a.parents, p, c);
    if c in a.children[q] { FamilyAt(root, a.keys, a.children, a.parents, q, c); }
  }

  /** The list of the keeper is waiting, and names its new child. */
  lemma KeeperWaits(x: Text, minor: nat, root: nat, a: State, b: State, c: State, parent: nat, was: nat, keeper: nat)
    requires Resting(x, minor, root, a) && Replaced(a, b, c, parent, was, keeper, was)
             && Pending(x, c.live, c.keys, c.nodes, c.children, c.batches)
    ensures keeper in c.batches && BatchOk(x, c.live, c.batches[keeper].cells, c.children[keeper])
  {
    hide Owns, Sound, Pending, Holds, Listed, U32, BatchOk;
    PendingAt(x, c.live, c.keys, c.nodes, c.children, c.batches, keeper);
    if keeper !in c.batches {
      RestClean(x, minor, root, a, keeper);
      OneParent(root, a, parent, keeper, was);
      assert false;
    }
  }

  /** A child that is left in a batch when another child, or none, is taken out of it. */
  lemma BatchKeeps(x: Text, live: Live, held: map<nat, Batch>, gone: set<nat>, keeper: nat, kids: set<nat>, c: nat, top: nat, above: nat)
    requires keeper in held && keeper !in gone && BatchOk(x, live, held[keeper].cells, kids) && c in kids && c != top
             && (keeper == above ==> top in kids)
    ensures var pend := Unbatched(held, gone, above, Folded(x, live, top)); keeper in pend && c in pend[keeper].cells.Values
  {
    hide Folded;
    var name := Folded(x, live, c);
    var pend := Unbatched(held, gone, above, Folded(x, live, top));
    assert name in held[keeper].cells && held[keeper].cells[name] == c;
    assert name in pend[keeper].cells && pend[keeper].cells[name] == c;
  }

  /** A cell is free and no key, while a key has it as a child and names it in its pending list. */
  ghost predicate Dangling(s: State, k: nat, c: nat) {
    c !in s.keys && c !in s.live && k in s.keys && k in s.children && c in s.children[k] && k in s.batches && c in s.batches[k].cells.Values
  }

  /** So a key is freed that is still a pending child of another key. */
  lemma ReusedLost(x: Text, minor: nat, root: nat, a: State, b: State, c: State, held: map<nat, Batch>, d: State, u: seq<nat>, was: nat,
                   keeper: nat, t: KeyTree)
    requires Resting(x, minor, root, a) && Stands(minor, root, c) && Pending(x, c.live, c.keys, c.nodes, c.children, c.batches)
             && Reloaded(c.batches, held) && Rooted(root, c.children, u) && |u| >= 2
    requires Replaced(a, b, c, u[|u| - 1], was, keeper, was) && !Below(a.children, u[|u| - 1], keeper) && t.cell == u[|u| - 1]
             && Severed(x, c.(batches := held), d, u[|u| - 2], t)
    ensures Dangling(d, keeper, was)
  {
    hide Resting, Owns, Sound, Family, Pending, Spans, StoredAt, Below, Remains, Links, KeyCells, Distinct, Folded, BatchOk, All, Unbatched;
    var parent, above := u[|u| - 1], u[|u| - 2];
    ReusedGone(x, minor, root, a, b, c, parent, was, keeper, t);
    KeyOwned(t);
    KeeperWaits(x, minor, root, a, b, c, parent, was, keeper);
    RootedLink(root, c.children, u);
    assert was != parent && held[keeper] == c.batches[keeper];
    BatchKeeps(x, c.live, held, Elements(KeyCells(t)), keeper, c.children[keeper], was, parent, above);
  }

  lemma CompactDown(s: Shape, f: seq<string>, g: seq<string>)
    requires f in Deletables(s) && g in s && f <= g
    ensures g in Deletables(s)
  {
    forall h | h in s && g <= h ensures s[h].volatile == 0 && |h| <= |g| + 512 { assert f <= h; }
    forall all: set<seq<string>> | forall h :: h in all ==> h in s && g <= h ensures |all| <= 0x10_0000 {
      assert forall h :: h in all ==> h in s && f <= h;
    }
  }

  /** The keys that two paths lead to, neither of which continues the other. */
  lemma Endpoints(x: Text, root: nat, a: State, f: seq<string>, g: seq<string>) returns (u: seq<nat>, v: seq<nat>)
    requires Family(root, a.keys, a.children, a.parents) && root in a.keys && Unambiguous(x, a.live, a.children)
    requires var s := ShapeOf(x, a.live, a.children, root); f in s && g in s && f != [] && !(f <= g)
    ensures Rooted(root, a.children, u) && Names(x, a.live, u) == f && |u| == |f| + 1
    ensures Rooted(root, a.children, v) && Names(x, a.live, v) == g && |v| == |g| + 1
    ensures !Below(a.children, u[|f|], v[|g|]) && u[|f|] != v[|g|] && v[|g|] == KeyAt(x, a.live, a.children, root, g)
  {
    hide Family, Unambiguous, Folded, ShapeOf, Chain, Below, KeyAt, InfoOf;
    u := ShapeFrom(x, a.live, a.children, root, f);
    v := ShapeFrom(x, a.live, a.children, root, g);
    KeyAtTrail(x, a.live, a.children, root, v);
    BelowSelf(a.children, u[|f|]);
    if Below(a.children, u[|f|], v[|g|]) {
      Passes(root, a.keys, a.children, a.parents, u, v, |g|);
      assert false;
    }
  }

  /** A trail that does not pass the deleted key is left. */
  lemma TrailLeft(x: Text, minor: nat, root: nat, a: State, b: State, first: seq<nat>, t: KeyTree, v: seq<nat>)
    requires Stands(minor, root, a) && Stands(minor, root, b) && Rooted(root, a.children, first) && |first| >= 2
             && t.cell == first[|first| - 1] && Severed(x, a, b, first[|first| - 2], t) && Whole(a.children, first[|first| - 2], t)
    requires Rooted(root, a.children, v) && !(Names(x, a.live, first) <= Names(x, a.live, v))
    ensures Rooted(root, b.children, v) && Names(x, b.live, v) == Names(x, a.live, v) && forall i :: 0 <= i < |v| ==> v[i] in b.keys
  {
    hide Owns, Sound, Family, KeyCells, Spans, After, Unbatched, Pruned, Folded, Distinct, Below, Chain, Same;
    SeveredNames(x, minor, root, a, b, first[|first| - 2], t);
    TopIsGone(t);
    DeletedIn(x, a.live, b.live, root, a.keys, a.children, a.parents, t, first[|first| - 2], first, v);
    RootedKeys(root, b.keys, b.children, b.parents, v);
  }

  /** The deleted child, and where its parent was. */
  lemma FirstTrail(x: Text, root: nat, a: State, first: seq<nat>, u: seq<nat>, f: seq<string>, s: string)
    requires Unambiguous(x, a.live, a.children) && Rooted(root, a.children, first) && Rooted(root, a.children, u) && |u| == |f| + 1
    requires Names(x, a.live, first) == f + [s] && Names(x, a.live, u) == f
    ensures first == u + [first[|u|]] && first[|u| - 1] == u[|u| - 1] && u[|u| - 1] in a.children && first[|u|] in a.children[u[|u| - 1]]
    ensures KeyAt(x, a.live, a.children, root, f + [s]) == first[|u|]
  {
    hide Unambiguous, Folded, KeyAt;
    var n := |u|;
    assert |first| == n + 1 by { assert |Names(x, a.live, first)| == |f + [s]|; }
    ChainFront(a.children, first, n);
    NamesFront(x, a.live, first, n);
    assert (f + [s])[..n - 1] == f;
    OneTrail(x, a.live, a.children, root, first[..n], u);
    assert first == first[..n] + [first[n]];
    KeyAtTrail(x, a.live, a.children, root, first);
  }

  /** When the creation is done, the key that lost a child can be deleted exactly if the cell was reused. */
  lemma ReusedExactly(x: Text, minor: nat, root: nat, a: State, b: State, c: State, u: seq<nat>, was: nat, keeper: nat, made: nat)
    requires Resting(x, minor, root, a) && Opened(x, a.live, a.keys, a.nodes, a.batches) && Stands(minor, root, b) && Stands(minor, root, c)
    requires Rooted(root, a.children, u) && (forall i :: 0 <= i < |u| ==> u[i] in b.keys) && Quiet(a.live, a.children, a.batches, u[|u| - 1])
    requires Replaced(a, b, c, u[|u| - 1], was, keeper, made) && Enlarged(x, b, c)
             && forall k :: k in b.keys ==> k in a.live && k in b.live && b.live[k] == a.live[k]
    ensures Clearable(c.live, c.nodes, c.keys, u[|u| - 1]) <==> made == was
  {
    hide Owns, Sound, Family, Pending, Opened, IsDirty, Chain, Quiet, Clearable, Enlarged, StoredAt, Resting, U32, IsKey;
    if Clearable(c.live, c.nodes, c.keys, u[|u| - 1]) { OnlyReused(x, minor, root, a, b, c, u[|u| - 1], was, keeper, made); }
    if made == was {
      forall k | k in c.keys && Stable(a.live, k) ensures Stable(c.live, k) { StableSince(x, minor, root, b, c, k); }
      ReusedClearable(x, minor, root, a, b, c, u, was, keeper);
    }
  }

  lemma LongerFront(f: seq<string>, s: string, g: seq<string>)
    requires !(f <= g)
    ensures !(f + [s] <= g)
  {
    assert f <= f + [s];
  }

  /** A child of the key at the end of one trail was deleted from a hive at rest; another trail is as it was. */
  ghost predicate Lost(x: Text, root: nat, a: State, held: map<nat, Batch>, b: State, u: seq<nat>, v: seq<nat>, t: KeyTree) {
    && Rooted(root, a.children, u) && |u| >= 2 && Rooted(root, b.children, u) && Names(x, b.live, u) == Names(x, a.live, u)
    && Rooted(root, b.children, v) && (forall i :: 0 <= i < |u| ==> u[i] in b.keys) && (forall i :: 0 <= i < |v| ==> v[i] in b.keys)
    && var parent, keeper := u[|u| - 1], v[|v| - 1];
    && parent in a.keys && parent in a.children && t.cell in a.children[parent] && Quiet(a.live, a.children, a.batches, parent)
    && !Below(a.children, parent, keeper) && keeper != parent
    && Severed(x, a.(batches := held), b, parent, t) && Whole(a.children, parent, t)
    && forall k :: k in b.keys ==> k in a.live && k in b.live && b.live[k] == a.live[k]
  }

  lemma LostChild(x: Text, minor: nat, root: nat, a: State, held: map<nat, Batch>, b: State, first: seq<nat>, u: seq<nat>, v: seq<nat>,
                  t: KeyTree, s: string)
    requires Stands(minor, root, a) && Stands(minor, root, b) && Unambiguous(x, a.live, a.children)
    requires Rooted(root, a.children, u) && Rooted(root, a.children, v) && Rooted(root, a.children, first) && |u| >= 2
    requires Names(x, a.live, first) == Names(x, a.live, u) + [s] && !(Names(x, a.live, u) <= Names(x, a.live, v))
             && !Below(a.children, u[|u| - 1], v[|v| - 1]) && u[|u| - 1] != v[|v| - 1] && Quiet(a.live, a.children, a.batches, u[|u| - 1])
    requires |first| == |u| + 1 && t.cell == first[|u|] && Severed(x, a.(batches := held), b, first[|u| - 1], t)
             && Whole(a.children, first[|u| - 1], t)
    requires forall k :: k in b.keys ==> k in a.live && k in b.live && b.live[k] == a.live[k]
    ensures Lost(x, root, a, held, b, u, v, t) && Names(x, b.live, v) == Names(x, a.live, v)
            && t.cell == KeyAt(x, a.live, a.children, root, Names(x, a.live, first))
  {
    hide Owns, Sound, Family, Unambiguous, Folded, Chain, Below, KeyAt, Quiet, Severed, Whole;
    var f := Names(x, a.live, u);
    FirstTrail(x, root, a, first, u, f, s);
    RootedKeys(root, a.keys, a.children, a.parents, u);
    var c := a.(batches := held);
    LongerFront(f, s, Names(x, a.live, v));
    TrailLeft(x, minor, root, c, b, first, t, u);
    TrailLeft(x, minor, root, c, b, first, t, v);
  }

  /** The key a path leads to. */
  ghost function KeyOf(tx: Transaction, parts: seq<string>): nat
    reads tx, tx.patch, tx.patch.store
  {
    KeyAt(tx.text, tx.patch.store.Live(), tx.children, tx.patch.store.root, FoldAll(tx.text, parts))
  }

  method DeleteChild(tx: Transaction, p: seq<string>, child: string, q: seq<string>)
    returns (ghost u: seq<nat>, ghost v: seq<nat>, ghost held: map<nat, Batch>, ghost t: KeyTree)
    requires tx.Valid() && tx.Open() && forall k :: !IsDirty(tx.batches, k)
    requires FoldAll(tx.text, p) in Deletables(View(tx)) && FoldAll(tx.text, p + [child]) in View(tx) && FoldAll(tx.text, q) in View(tx)
             && !(FoldAll(tx.text, p) <= FoldAll(tx.text, q))
    modifies tx`batches, tx`nodes, tx`children, tx`parents, tx.patch`securityCells, tx.patch`ring, tx.patch`keys, tx.patch.store.Repr
    ensures tx.Valid() && tx.Open() && fresh(tx.patch.store.Repr - old(tx.patch.store.Repr))
            && |tx.patch.store.data| == |old(tx.patch.store.data)|
    ensures View(tx) == Lop(old(View(tx)), FoldAll(tx.text, p + [child]))
    ensures Lost(tx.text, tx.patch.store.root, old(tx.Now()), held, tx.Now(), u, v, t) && |u| == |p| + 1 && |v| == |q| + 1
            && Names(tx.text, tx.patch.store.Live(), u) == FoldAll(tx.text, p)
            && Names(tx.text, tx.patch.store.Live(), v) == FoldAll(tx.text, q)
    ensures t.cell == old(KeyOf(tx, p + [child])) && v[|q|] == old(KeyOf(tx, q))
  {
    hide Hive.Valid, Hive.Live, Hive.Starts, Owns, Family, Pending, Traced, Patch.Valid, Opened, Unambiguous, Folded, ShapeOf, Chain,
         Severed, Whole, Intact, Reloaded, IsDirty, Below, Sound, OnlyDeletions, Spared, Weight, Quiet, Stands, KeyAt, AllReached, Removable,
         Compact, Lost, Lop, PathOf;
    ghost var a, root, x, f := tx.Now(), tx.patch.store.root, tx.text, FoldAll(tx.text, p);
    Opens(tx);
    tx.StandsNow();
    AtRest(tx);
    DeletableIs(View(tx), f);
    u, v := Endpoints(x, root, a, f, FoldAll(x, q));
    QuietAt(tx, u, f);
    CompactDown(View(tx), f, FoldAll(x, p + [child]));
    assert FoldAll(x, p + [child]) == f + [x.fold(child)];
    var o;
    ghost var first;
    o, first, held, t := Delete(tx, p + [child]);
    tx.StandsNow();
    LostChild(x, tx.minor, root, a, held, tx.Now(), first, u, v, t, x.fold(child));
    LostTrail(x, root, a, held, tx.Now(), u, v, t);
  }

  lemma DeletableIs(s: Shape, f: seq<string>)
    requires f in Deletables(s)
    ensures f != [] && f in s
  {
    hide Compact;
  }

  lemma QuietAt(tx: Transaction, u: seq<nat>, f: seq<string>)
    requires tx.Valid() && tx.Open() && f in Removables(tx) && Rooted(tx.patch.store.root, tx.children, u)
             && Names(tx.text, tx.patch.store.Live(), u) == f
    ensures Quiet(tx.patch.store.Live(), tx.children, tx.batches, u[|u| - 1])
  {
    hide Hive.Valid, Hive.Live, Hive.Starts, Owns, Family, Pending, Traced, Patch.Valid, Opened, Unambiguous, Folded, Chain, Quiet,
         Removable;
    Opens(tx);
    RemovableAt(tx.text, tx.patch.store.Live(), tx.children, tx.batches, tx.patch.store.root, u);
  }

  lemma AfterSecond(x: Text, minor: nat, root: nat, a: State, held: map<nat, Batch>, b: State, c: State, u: seq<nat>, v: seq<nat>,
                    t: KeyTree, made: nat)
    requires Resting(x, minor, root, a) && Opened(x, a.live, a.keys, a.nodes, a.batches) && Stands(minor, root, b) && Stands(minor, root, c)
    requires Lost(x, root, a, held, b, u, v, t) && Enlarged(x, b, c) && c.nodes.Keys == c.keys && made !in b.keys
             && Planted(b.keys, c.keys, b.children, c.children, v + [made])
    ensures Replaced(a, b, c, u[|u| - 1], t.cell, v[|v| - 1], made) && Rooted(root, c.children, u)
            && Names(x, c.live, u) == Names(x, a.live, u)
    ensures Clearable(c.live, c.nodes, c.keys, u[|u| - 1]) <==> made == t.cell
  {
    hide Owns, Sound, Family, Pending, Opened, Folded, Chain, Below, Quiet, Severed, Whole, Planted, Enlarged, Replaced, Clearable, IsDirty,
         Resting, Grew;
    RestStands(x, minor, root, a);
    ReplacedFacts(x, minor, root, a.(batches := held), b, c, u[|u| - 1], t, v, made);
    ReplacedAny(a, held, b, c, u[|u| - 1], t.cell, v[|v| - 1], made);
    EnlargedDomain(x, b, c);
    GrewChain(x, b.live, c.live, root, b.keys, c.keys, b.children, c.children, b.parents, u);
    ReusedExactly(x, minor, root, a, b, c, u, t.cell, v[|v| - 1], made);
  }

  lemma ReplacedAny(a: State, held: map<nat, Batch>, b: State, c: State, parent: nat, was: nat, keeper: nat, made: nat)
    requires Replaced(a.(batches := held), b, c, parent, was, keeper, made)
    ensures Replaced(a, b, c, parent, was, keeper, made)
  {
    hide StoredAt;
  }

  method AddChild(tx: Transaction, q: seq<string>, name: string, ghost a: State, ghost held: map<nat, Batch>, ghost u: seq<nat>,
                  ghost v: seq<nat>, ghost t: KeyTree) returns (made: nat)
    requires tx.Valid() && tx.Open() && tx.text.flags < 0x1_0000 && |tx.patch.store.data| + PathRoom(tx.text, q + [name]) <= LIMIT
    requires Resting(tx.text, tx.minor, tx.patch.store.root, a) && Opened(tx.text, a.live, a.keys, a.nodes, a.batches)
             && Lost(tx.text, tx.patch.store.root, a, held, tx.Now(), u, v, t) && Vacant(tx.text, View(tx), q, name) && |v| == |q| + 1
             && Names(tx.text, tx.patch.store.Live(), v) == FoldAll(tx.text, q)
    modifies tx`batches, tx`nodes, tx`children, tx`parents, tx.patch`keys, tx.patch.store.Repr
    ensures tx.Valid() && tx.Open() && fresh(tx.patch.store.Repr - old(tx.patch.store.Repr))
    ensures Replaced(a, old(tx.Now()), tx.Now(), u[|u| - 1], t.cell, v[|v| - 1], made)
            && Rooted(tx.patch.store.root, tx.children, u) && Names(tx.text, tx.patch.store.Live(), u) == Names(tx.text, a.live, u)
    ensures Clearable(tx.patch.store.Live(), tx.nodes, tx.patch.keys, u[|u| - 1]) <==> made == t.cell
  {
    hide Hive.Valid, Hive.Live, Hive.Starts, Owns, Family, Pending, Traced, Patch.Valid, Opened, Unambiguous, Folded, ShapeOf, PathRoom,
         Landing, Chain, Readable, Clearable, IsDirty, Enlarged, Resting, Planted, Sow, Vacant, Replaced, Lost, AllReached;
    ghost var b, root, x := tx.Now(), tx.patch.store.root, tx.text;
    Opens(tx);
    tx.StandsNow();
    LandsBelow(x, b.live, b.children, root, q, name);
    var o;
    ghost var trail;
    LostTrail(x, root, a, held, b, u, v, t);
    o, made, trail := EnsurePath(tx, q + [name]);
    Opens(tx);
    tx.StandsNow();
    NewChild(x, root, b, tx.Now(), trail, v, q, name);
    AfterSecond(x, tx.minor, root, a, held, b, tx.Now(), u, v, t, made);
  }

  lemma LostTrail(x: Text, root: nat, a: State, held: map<nat, Batch>, b: State, u: seq<nat>, v: seq<nat>, t: KeyTree)
    requires Lost(x, root, a, held, b, u, v, t)
    ensures Rooted(root, b.children, v) && |u| >= 2 && Rooted(root, a.children, u) && !Below(a.children, u[|u| - 1], v[|v| - 1])
            && Names(x, b.live, u) == Names(x, a.live, u)
  {
    hide Severed, Whole, Chain, Below, Quiet, Folded;
  }

  method DeleteParent(tx: Transaction, p: seq<string>, ghost a: State, ghost b: State, ghost u: seq<nat>, ghost was: nat,
                      ghost keeper: nat, ghost made: nat) returns (o: Outcome)
    requires tx.Valid() && tx.Open() && p != [] && |u| == |p| + 1
    requires Resting(tx.text, tx.minor, tx.patch.store.root, a) && !Below(a.children, u[|p|], keeper)
             && Replaced(a, b, tx.Now(), u[|p|], was, keeper, made)
    requires Rooted(tx.patch.store.root, tx.children, u) && Names(tx.text, tx.patch.store.Live(), u) == FoldAll(tx.text, p)
             && (Clearable(tx.patch.store.Live(), tx.nodes, tx.patch.keys, u[|p|]) <==> made == was)
    modifies tx`batches, tx`nodes, tx`children, tx`parents, tx.patch`securityCells, tx.patch`ring, tx.patch`keys, tx.patch.store.Repr
    ensures o == Done <==> made == was
    ensures o == Done ==> Dangling(tx.Now(), keeper, made)
  {
    hide Hive.Valid, Hive.Live, Hive.Starts, Owns, Family, Pending, Traced, Patch.Valid, Opened, Unambiguous, Path, Folded, Chain, Good,
         Severed, Matched, Intact, Clearable, There, Undeletable, OnlyAt, Reloaded, Below, Resting, Replaced, Robed, Stands;
    ghost var c, root, x := tx.Now(), tx.patch.store.root, tx.text;
    Opens(tx);
    tx.StandsNow();
    tx.PendingHolds();
    FoundThere(x, c.live, c.children, root, u);
    ghost var way, held, t;
    o, way, held, t := DeleteKey(tx, p);
    if o == Done {
      DeletedTrail(x, root, c, way, p, t);
      ReusedLost(x, tx.minor, root, a, b, c, held, tx.Now(), u, was, keeper, t);
    } else {
      NotDeletable(x, c.live, root, c.keys, c.nodes, c.children, c.parents, c.batches, way, p);
    }
  }

  /** A path that can be deleted, one below it, and a name that is not there yet elsewhere. */
  ghost predicate Elsewhere(x: Text, s: Shape, p: seq<string>, child: string, q: seq<string>, name: string) {
    && FoldAll(x, p) in Deletables(s) && FoldAll(x, p + [child]) in s
    && Vacant(x, s, q, name) && !(FoldAll(x, p) <= FoldAll(x, q))
  }

  /** Deletes a child of a key, creates a child of another key that does not lie below it, and then, before a commit, deletes the first key.
    * The last deletion succeeds exactly if the new child was given the cell of the deleted one. Then the new child is freed, while the
    * pending list of its parent still names it. */
  method DeleteCreateDelete(tx: Transaction, p: seq<string>, child: string, q: seq<string>, name: string)
    returns (o: Outcome, made: nat, ghost was: nat, ghost keeper: nat)
    requires tx.Valid() && tx.Open() && (forall k :: !IsDirty(tx.batches, k)) && tx.text.flags < 0x1_0000
             && |tx.patch.store.data| + PathRoom(tx.text, q + [name]) <= LIMIT
             && Elsewhere(tx.text, View(tx), p, child, q, name)
    modifies tx`batches, tx`nodes, tx`children, tx`parents, tx.patch`securityCells, tx.patch`ring, tx.patch`keys, tx.patch.store.Repr
    ensures was == old(KeyOf(tx, p + [child])) && keeper == old(KeyOf(tx, q)) && (o == Done <==> made == was)
    ensures o == Done ==> Dangling(tx.Now(), keeper, made)
  {
    hide Hive.Valid, Hive.Live, Hive.Starts, Owns, Family, Pending, Traced, Patch.Valid, Opened, Folded, ShapeOf, PathRoom, Chain, Readable,
         Clearable, IsDirty, Below, Compact, Resting, Replaced, Lost, View, KeyAt, KeyOf, Lop, Vacant, Deletables, Elsewhere;
    ghost var a, root, x, f := tx.Now(), tx.patch.store.root, tx.text, FoldAll(tx.text, p);
    ElsewhereIs(x, View(tx), p, child, q, name);
    Rests(tx);
    DeletableIs(View(tx), f);
    OpenNow(tx);
    VacantIn(x, View(tx), f, p, child, q, name);
    ghost var u, v, held, t;
    u, v, held, t := DeleteChild(tx, p, child, q);
    was, keeper := t.cell, v[|q|];
    ghost var b := tx.Now();
    LostTrail(x, root, a, held, b, u, v, t);
    made := AddChild(tx, q, name, a, held, u, v, t);
    o := DeleteParent(tx, p, a, b, u, was, keeper, made);
  }

  lemma ElsewhereIs(x: Text, s: Shape, p: seq<string>, child: string, q: seq<string>, name: string)
    requires Elsewhere(x, s, p, child, q, name)
    ensures FoldAll(x, p) in Deletables(s) && FoldAll(x, p + [child]) in s && Vacant(x, s, q, name) && !(FoldAll(x, p) <= FoldAll(x, q))
  {
    hide Deletables, Vacant;
  }

  lemma OpenNow(tx: Transaction)
    requires tx.Open()
    ensures var a := tx.Now(); Opened(tx.text, a.live, a.keys, a.nodes, a.batches)
  {
    hide Opened, Hive.Live;
  }

  lemma VacantIn(x: Text, s: Shape, f: seq<string>, p: seq<string>, child: string, q: seq<string>, name: string)
    requires f == FoldAll(x, p) && Vacant(x, s, q, name) && !(f <= FoldAll(x, q))
    ensures FoldAll(x, q) in s && Vacant(x, Lop(s, FoldAll(x, p + [child])), q, name)
  {
    hide Readable;
    var g, h := FoldAll(x, q), FoldAll(x, p + [child]);
    assert h == f + [x.fold(child)];
    LongerFront(f, x.fold(child), g);
  }
}
