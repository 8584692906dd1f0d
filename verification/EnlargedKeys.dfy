/** What creations leave of a transaction, and of its stored lists. */
module EnlargedKeys {
  import opened Bytes
  import opened HiveLayout
  import opened HiveImage
  import opened SecurityRing
  import opened SubkeyIndex
  import opened KeyDeletion
  import opened HiveBatch
  import opened KeyPaths
  import opened SubtreeRemoval
  import opened StoredLinks
  import opened SubtreeDeletion
  import opened SubtreeLimits
  import opened NameTree

  /** A key has a child that is not one of some keys. */
  ghost predicate HasNew(keys: set<nat>, children: map<nat, set<nat>>, k: nat) {
    k in children && exists c :: c in children[k] && c !in keys
  }

  /** There were creations only: the keys that were there keep names, links, stored lists and volatile counts, what is new lies below them
    * and has nothing stored below it, and only what gained a child has become dirty. */
  ghost predicate Enlarged(x: Text, a: State, b: State) {
    && Grew(x, a.live, b.live, a.keys, b.keys, a.children, b.children) && Shelved(a.live, b.live, a.keys, a.nodes, b.nodes)
    && (forall k, c :: k in b.keys && k !in a.keys && c in b.children[k] ==> c !in a.keys)
    && (forall k :: k in b.keys ==> InfoOf(b.live, k).volatile == if k in a.keys then InfoOf(a.live, k).volatile else 0)
    && (forall k :: IsDirty(b.batches, k) ==> IsDirty(a.batches, k) || HasNew(a.keys, b.children, k))
  }

  lemma EnlargedSelf(x: Text, a: State)
    requires a.children.Keys == a.keys == a.nodes.Keys
    ensures Enlarged(x, a, a)
  {
    hide InfoOf, Folded, IsDirty;
    GrewStart(x, a.live, a.keys, a.children);
  }

  lemma EnlargedThen(x: Text, a: State, b: State, c: State)
    requires Enlarged(x, a, b) && Enlarged(x, b, c) && b.nodes.Keys == b.keys
    ensures Enlarged(x, a, c)
  {
    hide InfoOf, NameOf, IsDirty, Shelved;
    GrewThen(x, a.live, b.live, c.live, a.keys, b.keys, c.keys, a.children, b.children, c.children);
    ShelvedThen(a.live, b.live, c.live, a.keys, b.keys, a.nodes, b.nodes, c.nodes);
    forall k | IsDirty(c.batches, k) ensures IsDirty(a.batches, k) || HasNew(a.keys, c.children, k) {
      if !IsDirty(a.batches, k) && IsDirty(b.batches, k) {
        var d :| d in b.children[k] && d !in a.keys;
        assert d in c.children[k];
      }
    }
    forall k, d | k in c.keys && k !in a.keys && d in c.children[k] ensures d !in a.keys {
      if k in b.keys { assert d in b.children[k] || d !in b.keys; }
    }
  }

  /** Creating a path is such a change. */
  lemma EnlargedPlanted(x: Text, a: State, b: State, trail: seq<nat>)
    requires Grew(x, a.live, b.live, a.keys, b.keys, a.children, b.children) && Shelved(a.live, b.live, a.keys, a.nodes, b.nodes)
    requires trail != [] && trail[0] in a.keys && Planted(a.keys, b.keys, a.children, b.children, trail)
             && Inherits(a.live, b.live, a.keys, trail) && Stirred(a.keys, a.batches, b.batches, trail)
    ensures Enlarged(x, a, b)
  {
    hide Grew, Shelved, InfoOf, IsDirty;
    forall k | k in b.keys && k !in a.keys ensures InfoOf(b.live, k).volatile == 0 {
      var i :| 0 <= i < |trail| && trail[i] == k;
      assert InfoOf(b.live, trail[i]) == Heir(InfoOf(b.live, trail[i - 1]));
    }
    forall k | IsDirty(b.batches, k) && !IsDirty(a.batches, k) ensures HasNew(a.keys, b.children, k) {
      var i :| 0 <= i < |trail| - 1 && trail[i] == k && trail[i + 1] !in a.keys;
      assert k in Elements(trail) && Follows(trail, k, trail[i + 1]);
    }
  }

  /** So is giving a key a descriptor. */
  lemma EnlargedSecured(x: Text, a: State, b: State, cell: nat)
    requires Grew(x, a.live, b.live, a.keys, b.keys, a.children, b.children) && Shelved(a.live, b.live, a.keys, a.nodes, b.nodes)
    requires a.keys == b.keys && a.batches == b.batches && Robed(a.live, b.live, a.keys - {cell})
             && InfoOf(b.live, cell).volatile == InfoOf(a.live, cell).volatile
    ensures Enlarged(x, a, b)
  {
    hide Grew, Shelved, InfoOf, IsDirty;
  }

  // ----- the stored lists after creations

  /** A transaction in which no list is waiting. */
  ghost predicate Resting(x: Text, minor: nat, root: nat, a: State) {
    && Stands(minor, root, a) && Pending(x, a.live, a.keys, a.nodes, a.children, a.batches) && forall k :: !IsDirty(a.batches, k)
  }

  /** The stored lists link what was linked before, and nothing new. */
  lemma ListsSince(x: Text, minor: nat, root: nat, a: State, b: State, k: nat)
    requires Resting(x, minor, root, a) && Enlarged(x, a, b) && b.nodes.Keys == b.keys && k in b.keys
    ensures k in Links(b.live, b.nodes) && Links(b.live, b.nodes)[k] == if k in a.keys && k in a.children then a.children[k] else {}
    ensures k in a.keys ==> StoredAt(b.live, b.nodes, k) == StoredAt(a.live, a.nodes, k)
  {
    hide Owns, Sound, Family, Pending, Grew, Holds, Listed, InfoOf, IsDirty, U32, Named;
    if k in a.keys {
      assert !IsDirty(a.batches, k);
      RestClean(x, minor, root, a, k);
      assert SameList(a.live, b.live, a.nodes[k]);
    } else {
      assert Elements<nat>([]) == {};
    }
  }

  lemma RestClean(x: Text, minor: nat, root: nat, a: State, k: nat)
    requires Resting(x, minor, root, a) && k in a.keys
    ensures k in a.nodes && k in a.children && (a.nodes[k].index.Some? ==> Holds(a.live, a.nodes[k].index.value))
            && Elements(StoredAt(a.live, a.nodes, k)) == a.children[k]
  {
    hide Owns, Sound, Family, Pending, Holds, Listed, U32, Named;
    assert !IsDirty(a.batches, k);
    OpenClean(x, a, minor, root, k);
  }

  /** A link between keys that were there was there. */
  lemma OldLink(x: Text, a: State, b: State, k: nat, c: nat)
    requires Enlarged(x, a, b) && k in b.keys && c in b.children[k] && c in a.keys
    ensures k in a.keys && c in a.children[k]
  {
    hide Shelved, InfoOf, NameOf, IsDirty;
  }

  /** The stored lists lead where the pending ones do exactly if no key was created below. */
  lemma MatchedSince(x: Text, minor: nat, root: nat, a: State, b: State, trail: seq<nat>)
    requires Resting(x, minor, root, a) && Enlarged(x, a, b) && b.nodes.Keys == b.keys && Family(root, b.keys, b.children, b.parents)
             && Rooted(root, b.children, trail)
    ensures var top := trail[|trail| - 1];
            Matched(b.live, b.nodes, b.children, top) <==> forall k :: Below(b.children, top, k) && k != top ==> k in a.keys
  {
    hide Owns, Sound, Family, Pending, Grew, Holds, Listed, InfoOf, IsDirty, Links, Below, Shelved, Resting, Enlarged, Chain;
    FamilyDomain(root, b.keys, b.children, b.parents);
    var links, top := Links(b.live, b.nodes), trail[|trail| - 1];
    if forall k :: Below(b.children, top, k) && k != top ==> k in a.keys {
      forall k ensures Below(links, top, k) <==> Below(b.children, top, k) {
        if Below(links, top, k) { LinksInside(x, minor, root, a, b, top, k); }
        if Below(b.children, top, k) { LinksOutside(x, minor, root, a, b, trail, k); }
      }
    } else {
      var k :| Below(b.children, top, k) && k != top && k !in a.keys;
      if Below(links, top, k) {
        BelowOpen(links, top, k);
        var p :| Below(links, top, p) && p in links && k in links[p];
        LinksKeys(b, p);
        ListsSince(x, minor, root, a, b, p);
        RestFamily(minor, root, a, x, p, k);
        assert false;
      }
    }
  }

  lemma LinksKeys(b: State, p: nat)
    requires p in Links(b.live, b.nodes) && b.nodes.Keys == b.keys
    ensures p in b.keys
  {
  }

  lemma RestFamily(minor: nat, root: nat, a: State, x: Text, p: nat, k: nat)
    requires Resting(x, minor, root, a) && p in a.keys && p in a.children && k in a.children[p]
    ensures k in a.keys
  {
    hide Owns, Sound, Pending, IsDirty;
  }

  /** Where the stored lists lead, the pending ones do. */
  lemma LinksInside(x: Text, minor: nat, root: nat, a: State, b: State, top: nat, k: nat)
    requires Resting(x, minor, root, a) && Enlarged(x, a, b) && b.nodes.Keys == b.keys == b.children.Keys
             && Below(Links(b.live, b.nodes), top, k)
    ensures Below(b.children, top, k)
  {
    hide Owns, Sound, Family, Pending, Holds, Listed, InfoOf, IsDirty, Links, Below, Shelved, Resting, NameOf;
    var links := Links(b.live, b.nodes);
    var v := BelowTrail(links, top, k);
    forall i | 0 <= i < |v| - 1 ensures v[i] in b.children && v[i + 1] in b.children[v[i]] {
      assert v[i] in links && v[i + 1] in links[v[i]];
      LinksKeys(b, v[i]);
      ListsSince(x, minor, root, a, b, v[i]);
    }
    ChainIsBelow(b.children, v);
  }

  /** Where the pending lists lead, the stored ones do, as long as nothing there is new. */
  lemma LinksOutside(x: Text, minor: nat, root: nat, a: State, b: State, trail: seq<nat>, k: nat)
    requires Resting(x, minor, root, a) && Enlarged(x, a, b) && b.nodes.Keys == b.keys && Family(root, b.keys, b.children, b.parents)
             && Rooted(root, b.children, trail) && Below(b.children, trail[|trail| - 1], k)
    requires forall j :: Below(b.children, trail[|trail| - 1], j) && j != trail[|trail| - 1] ==> j in a.keys
    ensures Below(Links(b.live, b.nodes), trail[|trail| - 1], k)
  {
    hide Owns, Sound, Family, Pending, Holds, Listed, InfoOf, IsDirty, Links, Below, Shelved, Resting, Enlarged;
    var links, top := Links(b.live, b.nodes), trail[|trail| - 1];
    FamilyDomain(root, b.keys, b.children, b.parents);
    var v := BelowTrail(b.children, top, k);
    forall i | 0 <= i < |v| - 1 ensures v[i] in links && v[i + 1] in links[v[i]] {
      assert v[i] in b.children && v[i + 1] in b.children[v[i]];
      BelowFront(b.children, v, i + 1);
      NoReturn(root, b.keys, b.children, b.parents, trail, v, i + 1);
      LinkOutside(x, minor, root, a, b, v[i], v[i + 1]);
    }
    ChainIsBelow(links, v);
  }

  lemma BelowFront(children: map<nat, set<nat>>, v: seq<nat>, i: nat)
    requires Chain(children, v) && i < |v|
    ensures Below(children, v[0], v[i])
  {
    ChainFront(children, v, i + 1);
    ChainIsBelow(children, v[..i + 1]);
  }

  lemma LinkOutside(x: Text, minor: nat, root: nat, a: State, b: State, k: nat, c: nat)
    requires Resting(x, minor, root, a) && Enlarged(x, a, b) && b.nodes.Keys == b.keys == b.children.Keys && k in b.keys && c in b.children[k]
             && c in a.keys
    ensures k in Links(b.live, b.nodes) && c in Links(b.live, b.nodes)[k]
  {
    hide Owns, Sound, Family, Pending, Holds, Listed, InfoOf, IsDirty, Links, Below, Shelved, Resting, Enlarged;
    OldLink(x, a, b, k, c);
    RestClean(x, minor, root, a, k);
    ListsSince(x, minor, root, a, b, k);
  }

  /** No key was created below a key exactly if no list at or below it is waiting. */
  lemma WaitingSince(x: Text, minor: nat, root: nat, a: State, b: State, trail: seq<nat>)
    requires Resting(x, minor, root, a) && Enlarged(x, a, b) && Stands(minor, root, b)
             && Pending(x, b.live, b.keys, b.nodes, b.children, b.batches) && Rooted(root, b.children, trail)
    ensures var top := trail[|trail| - 1];
            (forall k :: Below(b.children, top, k) ==> !IsDirty(b.batches, k))
            <==> forall k :: Below(b.children, top, k) && k != top ==> k in a.keys
  {
    hide Owns, Sound, Family, Pending, Grew, Holds, Listed, InfoOf, Links, Below, Shelved, Resting, Chain, IsDirty;
    var top := trail[|trail| - 1];
    FamilyDomain(root, b.keys, b.children, b.parents);
    RootedKeys(root, b.keys, b.children, b.parents, trail);
    if k :| Below(b.children, top, k) && k != top && k !in a.keys {
      BelowOpen(b.children, top, k);
      var p :| Below(b.children, top, p) && p in b.children && k in b.children[p];
      NewWaits(x, minor, root, a, b, p, k);
    }
    if k :| Below(b.children, top, k) && IsDirty(b.batches, k) {
      RestCalm(x, minor, root, a, k);
      var c :| c in b.children[k] && c !in a.keys;
      BelowStep(b.children, top, k, c);
      var v := BelowTrail(b.children, top, k);
      ChainMore(b.children, v, c);
      NoReturn(root, b.keys, b.children, b.parents, trail, v + [c], |v|);
    }
  }

  lemma RestCalm(x: Text, minor: nat, root: nat, a: State, k: nat)
    requires Resting(x, minor, root, a)
    ensures !IsDirty(a.batches, k)
  {
    hide Stands, Pending;
  }

  /** A list that lacks a new child is waiting. */
  lemma NewWaits(x: Text, minor: nat, root: nat, a: State, b: State, p: nat, k: nat)
    requires Resting(x, minor, root, a) && Enlarged(x, a, b) && Stands(minor, root, b)
             && Pending(x, b.live, b.keys, b.nodes, b.children, b.batches)
    requires p in b.keys && p in b.children && k in b.children[p] && k !in a.keys
    ensures IsDirty(b.batches, p)
  {
    hide Owns, Sound, Family, Pending, Grew, Holds, Listed, InfoOf, Shelved, Resting, Enlarged, U32;
    PendingAt(x, b.live, b.keys, b.nodes, b.children, b.batches, p);
    if !IsDirty(b.batches, p) {
      NodesKeys(x, b);
      ListsSince(x, minor, root, a, b, p);
      assert k in Links(b.live, b.nodes)[p];
      RestFamily(minor, root, a, x, p, k);
    }
  }

  lemma NodesKeys(x: Text, b: State)
    requires Pending(x, b.live, b.keys, b.nodes, b.children, b.batches)
    ensures b.nodes.Keys == b.keys == b.children.Keys
  {
    hide BatchOk, Clean;
  }

  /** After creations only, the stored lists lead from a key where the pending ones do exactly if no list at or below it is waiting. */
  lemma WaitingExact(x: Text, minor: nat, root: nat, a: State, b: State, trail: seq<nat>)
    requires Resting(x, minor, root, a) && Enlarged(x, a, b) && Stands(minor, root, b)
             && Pending(x, b.live, b.keys, b.nodes, b.children, b.batches) && Rooted(root, b.children, trail)
    ensures var top := trail[|trail| - 1];
            Matched(b.live, b.nodes, b.children, top) <==> forall k :: Below(b.children, top, k) ==> !IsDirty(b.batches, k)
  {
    hide Owns, Sound, Family, Pending, Resting, Enlarged, Below, Chain, Matched, IsDirty;
    NodesKeys(x, b);
    MatchedSince(x, minor, root, a, b, trail);
    WaitingSince(x, minor, root, a, b, trail);
  }

  // ----- which subtrees can be removed after creations

  lemma {:induction false} PlainStable(live: Live, m: Live, t: KeyTree)
    requires Plain(m, t) && forall k :: k in KeyCells(t) ==> Stable(live, k)
    ensures Plain(live, t)
  {
    hide U32, IsKey, Room;
    assert t.cell in KeyCells(t) && forall k :: k in KeyCellsAll(t.kids) ==> k in KeyCells(t);
    PlainAllStable(live, m, t.kids);
  }

  lemma {:induction false} PlainAllStable(live: Live, m: Live, f: Keys)
    requires PlainAll(m, f) && forall k :: k in KeyCellsAll(f) ==> Stable(live, k)
    ensures PlainAll(live, f)
  {
    hide Plain, Stable;
    if f.AndKey? {
      assert forall k :: k in KeyCells(f.head) || k in KeyCellsAll(f.tail) ==> k in KeyCellsAll(f);
      PlainStable(live, m, f.head);
      PlainAllStable(live, m, f.tail);
    }
  }

  /** What was stored below a key is still stored below it, and nothing else. */
  lemma {:induction false} SpansSince(x: Text, minor: nat, root: nat, a: State, b: State, t: KeyTree)
    requires Resting(x, minor, root, a) && Enlarged(x, a, b) && b.nodes.Keys == b.keys && t.cell in a.keys
    ensures Spans(a.live, a.nodes, t) <==> Spans(b.live, b.nodes, t)
    ensures Spans(a.live, a.nodes, t) ==> forall k :: k in KeyCells(t) ==> k in a.keys
  {
    hide Holds, Listed, Resting, Grew, InfoOf, IsDirty;
    var k := t.cell;
    RestClean(x, minor, root, a, k);
    ListsSince(x, minor, root, a, b, k);
    assert SameList(a.live, b.live, a.nodes[k]);
    if Spans(a.live, a.nodes, t) || Spans(b.live, b.nodes, t) {
      assert KeyRoots(t.kids) == StoredAt(a.live, a.nodes, k);
      forall c | c in KeyRoots(t.kids) ensures c in a.keys { RestFamily(minor, root, a, x, k, c); }
      ForestSince(x, minor, root, a, b, t.kids);
    }
  }

  lemma {:induction false} ForestSince(x: Text, minor: nat, root: nat, a: State, b: State, f: Keys)
    requires Resting(x, minor, root, a) && Enlarged(x, a, b) && b.nodes.Keys == b.keys && forall c :: c in KeyRoots(f) ==> c in a.keys
    ensures SpansAll(a.live, a.nodes, f) <==> SpansAll(b.live, b.nodes, f)
    ensures SpansAll(a.live, a.nodes, f) ==> forall k :: k in KeyCellsAll(f) ==> k in a.keys
  {
    hide Spans, Resting, Enlarged, KeyCells;
    if f.AndKey? {
      assert f.head.cell in KeyRoots(f) && forall c :: c in KeyRoots(f.tail) ==> c in KeyRoots(f);
      SpansSince(x, minor, root, a, b, f.head);
      ForestSince(x, minor, root, a, b, f.tail);
    }
  }

  lemma StableSince(x: Text, minor: nat, root: nat, a: State, b: State, k: nat)
    requires Enlarged(x, a, b) && Stands(minor, root, b) && k in b.keys && (k in a.keys ==> Stands(minor, root, a))
    ensures if k in a.keys then Stable(b.live, k) <==> Stable(a.live, k) else Stable(b.live, k)
  {
    hide Grew, Shelved, Owns, Sound, Family, IsDirty, InfoOf, IsKey, U32;
    OwnsAt(b.live, minor, b.ring, b.keys, b.nodes, k);
    if k in a.keys { OwnsAt(a.live, minor, a.ring, a.keys, a.nodes, k); }
    StableInfo(a.live, k);
    StableInfo(b.live, k);
  }

  /** A key that was there can be removed exactly if it could be. */
  lemma ClearableSince(x: Text, minor: nat, root: nat, a: State, b: State, k: nat)
    requires Resting(x, minor, root, a) && Enlarged(x, a, b) && Stands(minor, root, b) && b.nodes.Keys == b.keys && k in a.keys
    ensures Clearable(b.live, b.nodes, b.keys, k) <==> Clearable(a.live, a.nodes, a.keys, k)
  {
    hide Spans, KeyCells, Distinct, Plain, KeyHeight, Stable, Enlarged;
    if Clearable(a.live, a.nodes, a.keys, k) {
      var t :| Good(a.live, a.nodes, a.keys, t, k, 0, {});
      GoodSince(x, minor, root, a, b, t, k);
      assert Good(b.live, b.nodes, b.keys, t, k, 0, {});
    }
    if Clearable(b.live, b.nodes, b.keys, k) {
      var t :| Good(b.live, b.nodes, b.keys, t, k, 0, {});
      GoodSince(x, minor, root, a, b, t, k);
      assert Good(a.live, a.nodes, a.keys, t, k, 0, {});
    }
  }

  lemma GoodSince(x: Text, minor: nat, root: nat, a: State, b: State, t: KeyTree, k: nat)
    requires Resting(x, minor, root, a) && Enlarged(x, a, b) && Stands(minor, root, b) && b.nodes.Keys == b.keys && k in a.keys
    ensures Good(b.live, b.nodes, b.keys, t, k, 0, {}) <==> Good(a.live, a.nodes, a.keys, t, k, 0, {})
  {
    hide Spans, KeyCells, Distinct, Plain, KeyHeight, Stable, Enlarged, Resting, Stands;
    if t.cell == k && (Spans(a.live, a.nodes, t) || Spans(b.live, b.nodes, t)) {
      SpansSince(x, minor, root, a, b, t);
      EnlargedKeep(x, a, b);
      RestStands(x, minor, root, a);
      forall j | j in KeyCells(t) ensures Stable(b.live, j) <==> Stable(a.live, j) { StableSince(x, minor, root, a, b, j); }
      if Plain(a.live, t) { PlainEach(a.live, t); PlainStable(b.live, a.live, t); }
      if Plain(b.live, t) { PlainEach(b.live, t); PlainStable(a.live, b.live, t); }
    }
  }

  lemma RestStands(x: Text, minor: nat, root: nat, a: State)
    requires Resting(x, minor, root, a)
    ensures Stands(minor, root, a)
  {
    hide Stands, Pending, IsDirty;
  }

  lemma EnlargedKeep(x: Text, a: State, b: State)
    requires Enlarged(x, a, b)
    ensures a.keys <= b.keys
  {
    hide NameOf, Shelved, InfoOf, IsDirty;
  }

  /** A new key can always be removed. */
  lemma ClearableNew(x: Text, minor: nat, root: nat, a: State, b: State, k: nat)
    requires Enlarged(x, a, b) && Stands(minor, root, b) && b.nodes.Keys == b.keys && k in b.keys && k !in a.keys
    ensures Clearable(b.live, b.nodes, b.keys, k)
  {
    hide Owns, Sound, Family, Grew, InfoOf, IsDirty, Holds, Listed, U32, IsKey;
    StableSince(x, minor, root, a, b, k);
    var t := Key(k, EMPTY, NoKey);
    assert b.nodes[k] == EMPTY;
    OneDistinct(k);
    assert KeyCells(t) == [k] && Spans(b.live, b.nodes, t) && Plain(b.live, t);
    assert Good(b.live, b.nodes, b.keys, t, k, 0, {});
  }

  // ----- what is new, by names

  lemma {:induction false} OldTrail(x: Text, a: State, b: State, root: nat, v: seq<nat>)
    requires Enlarged(x, a, b) && root in a.keys && b.children.Keys == b.keys && Rooted(root, b.children, v) && v[|v| - 1] in a.keys
    ensures Rooted(root, a.children, v) && forall i :: 0 <= i < |v| ==> v[i] in a.keys
  {
    hide Enlarged;
    var n := |v| - 1;
    if n > 0 {
      OldLink(x, a, b, v[n - 1], v[n]);
      ChainFront(b.children, v, n);
      OldTrail(x, a, b, root, v[..n]);
      EnlargedDomain(x, a, b);
      ChainMore(a.children, v[..n], v[n]);
      assert v == v[..n] + [v[n]];
    }
  }

  lemma EnlargedDomain(x: Text, a: State, b: State)
    requires Enlarged(x, a, b)
    ensures a.children.Keys == a.keys && Grew(x, a.live, b.live, a.keys, b.keys, a.children, b.children)
  {
    hide NameOf, Shelved, InfoOf, IsDirty;
  }

  /** A key was there exactly if its path was. */
  lemma OldPath(x: Text, root: nat, a: State, b: State, v: seq<nat>)
    requires Enlarged(x, a, b) && Family(root, a.keys, a.children, a.parents) && Unambiguous(x, b.live, b.children) && root in a.keys
             && b.children.Keys == b.keys && Rooted(root, b.children, v)
    ensures v[|v| - 1] in a.keys <==> Names(x, b.live, v) in ShapeOf(x, a.live, a.children, root)
  {
    hide Enlarged, Family, Unambiguous, Folded, Chain, ShapeOf, Grew, InfoOf;
    EnlargedDomain(x, a, b);
    if v[|v| - 1] in a.keys {
      OldTrail(x, a, b, root, v);
      GrewChain(x, a.live, b.live, root, a.keys, b.keys, a.children, b.children, a.parents, v);
      ShapeThere(x, a.live, a.children, root, v);
    }
    if Names(x, b.live, v) in ShapeOf(x, a.live, a.children, root) {
      var u := ShapeFrom(x, a.live, a.children, root, Names(x, b.live, v));
      GrewChain(x, a.live, b.live, root, a.keys, b.keys, a.children, b.children, a.parents, u);
      OneTrail(x, b.live, b.children, root, u, v);
    }
  }

  /** No key was created below a key exactly if every path that continues its own was there. */
  lemma NewPaths(x: Text, root: nat, a: State, b: State, trail: seq<nat>)
    requires Enlarged(x, a, b) && Family(root, a.keys, a.children, a.parents) && Family(root, b.keys, b.children, b.parents)
             && Unambiguous(x, b.live, b.children) && root in a.keys && Rooted(root, b.children, trail)
    ensures var top, f := trail[|trail| - 1], Names(x, b.live, trail);
            (forall k :: Below(b.children, top, k) && k != top ==> k in a.keys)
            <==> forall g :: g in ShapeOf(x, b.live, b.children, root) && f < g ==> g in ShapeOf(x, a.live, a.children, root)
  {
    hide Enlarged, Family, Unambiguous, Folded, Chain, ShapeOf, Below, InfoOf;
    var top, f := trail[|trail| - 1], Names(x, b.live, trail);
    FamilyDomain(root, b.keys, b.children, b.parents);
    if k :| Below(b.children, top, k) && k != top && k !in a.keys {
      var w := BelowTrail(b.children, top, k);
      var v := trail + w[1..];
      Rejoined(b.children, trail, w);
      assert v[|v| - 1] == k && v[..|trail|] == trail;
      OldPath(x, root, a, b, v);
      ShapeThere(x, b.live, b.children, root, v);
      NamesFront(x, b.live, v, |trail|);
      assert f < Names(x, b.live, v);
    }
    if g :| g in ShapeOf(x, b.live, b.children, root) && f < g && g !in ShapeOf(x, a.live, a.children, root) {
      var v := ShapeFrom(x, b.live, b.children, root, g);
      var n := |trail|;
      ChainFront(b.children, v, n);
      NamesFront(x, b.live, v, n);
      OneTrail(x, b.live, b.children, root, v[..n], trail);
      assert v[n - 1] == v[..n][n - 1];
      BelowTail(b.children, v, n - 1);
      OldPath(x, root, a, b, v);
      if v[|v| - 1] == top { OneWay(root, b.keys, b.children, b.parents, v, trail); }
    }
  }
}
