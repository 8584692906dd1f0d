/** Exactly when the subtree of a key can be removed while there were deletions only. */
module SubtreeLimits {
  import opened Bytes
  import opened HiveLayout
  import opened HiveImage
  import opened MutableHive
  import opened SecurityRing
  import opened SubkeyIndex
  import opened HivePatch
  import opened KeyDeletion
  import opened HiveBatch
  import opened KeyPaths
  import opened SubtreeRemoval
  import opened SubtreeDeletion

  // ----- what a subtree must be like

  /** A chain that starts at a key. */
  ghost predicate ChainFrom(children: map<nat, set<nat>>, top: nat, u: seq<nat>) { u != [] && u[0] == top && Chain(children, u) }

  /** No list below a key is waiting, no key has volatile children, and there are at most 513 levels and 2^20 keys. */
  ghost predicate Quiet(live: Live, children: map<nat, set<nat>>, batches: map<nat, Batch>, top: nat) {
    && (forall k :: Below(children, top, k) ==> !IsDirty(batches, k) && Stable(live, k))
    && (forall u :: ChainFrom(children, top, u) ==> |u| <= 513)
    && |BelowSet(children, top)| <= 0x10_0000
  }

  ghost predicate Stable(live: Live, k: nat) { k in live && IsKey(live[k]) && U32(live[k], 0x18) == 0 }

  lemma StableInfo(live: Live, k: nat)
    ensures Stable(live, k) <==> k in live && IsKey(live[k]) && InfoOf(live, k).volatile == 0
  {
    hide DescOf, U32;
  }

  /** A key whose stored index lists its pending children, each once. */
  ghost predicate Neat(live: Live, nodes: map<nat, Node>, children: map<nat, set<nat>>, k: nat) {
    && k in nodes && k in children && (nodes[k].index.Some? ==> Holds(live, nodes[k].index.value))
    && Distinct(StoredAt(live, nodes, k)) && Elements(StoredAt(live, nodes, k)) == children[k]
  }

  ghost predicate NeatBelow(live: Live, nodes: map<nat, Node>, children: map<nat, set<nat>>, top: nat) {
    forall k :: Below(children, top, k) ==> Neat(live, nodes, children, k)
  }

  lemma NeatAt(x: Text, a: State, minor: nat, root: nat, k: nat)
    requires Owns(a.live, minor, a.ring, a.keys, a.nodes) && Family(root, a.keys, a.children, a.parents)
             && Pending(x, a.live, a.keys, a.nodes, a.children, a.batches) && Opened(x, a.live, a.keys, a.nodes, a.batches)
    requires k in a.keys && !IsDirty(a.batches, k)
    ensures Neat(a.live, a.nodes, a.children, k)
  {
    hide Owns, Family, Pending, Holds, Listed, U32, Named, Room, Folded;
    OpenClean(x, a, minor, root, k);
    var cells := StoredAt(a.live, a.nodes, k);
    assert cells == StoredChildren(a.live, a.nodes[k]);
    assert a.nodes[k].index.Some? ==> FoldDistinct(x, a.live, cells);
    forall i, j | 0 <= i < j < |cells| ensures cells[i] != cells[j] { assert Folded(x, a.live, cells[i]) != Folded(x, a.live, cells[j]); }
  }

  // ----- the subtree as it is stored

  lemma RootedShort(root: nat, keys: set<nat>, children: map<nat, set<nat>>, parents: map<nat, nat>, trail: seq<nat>)
    requires Family(root, keys, children, parents) && Rooted(root, children, trail) && root in keys
    ensures |trail| <= |keys|
  {
    hide Family, Chain;
    RootedDistinct(root, keys, children, parents, trail);
    RootedKeys(root, keys, children, parents, trail);
    ElementsSize(trail);
    assert Elements(trail) <= keys;
    Smaller(Elements(trail), keys);
  }

  /** The stored subtree of a key below which every list is in order, with a longest chain in it. */
  lemma {:induction false} TreeBelow(live: Live, nodes: map<nat, Node>, root: nat, keys: set<nat>, children: map<nat, set<nat>>,
                          parents: map<nat, nat>, trail: seq<nat>)
    returns (t: KeyTree, u: seq<nat>)
    requires Family(root, keys, children, parents) && Rooted(root, children, trail) && root in keys
             && NeatBelow(live, nodes, children, trail[|trail| - 1])
    ensures t.cell == trail[|trail| - 1] && Spans(live, nodes, t) && Distinct(KeyCells(t))
            && forall k :: k in KeyCells(t) <==> Below(children, t.cell, k)
    ensures ChainFrom(children, t.cell, u) && |u| == KeyHeight(t) + 1
    decreases |keys| - |trail|, 1, 0
  {
    hide Family, Below, Spans, SpansAll, Holds, Listed, Chain, KeyCellsAll, KeyHeightAll;
    var k := trail[|trail| - 1];
    BelowSelf(children, k);
    assert Neat(live, nodes, children, k);
    RootedShort(root, keys, children, parents, trail);
    RootedKeys(root, keys, children, parents, trail);
    var f, v := ForestBelow(live, nodes, root, keys, children, parents, trail, StoredAt(live, nodes, k));
    t, u := Key(k, nodes[k], f), [k] + v;
    TreeJoined(live, nodes, children, k, f);
    KeysJoined(root, keys, children, parents, trail, f);
    if f.NoKey? { u := [k]; OneChain(children, k); } else { ChainJoined(children, k, v); }
  }

  lemma OneChain(children: map<nat, set<nat>>, k: nat)
    ensures Chain(children, [k])
  {
  }

  lemma ChainJoined(children: map<nat, set<nat>>, k: nat, v: seq<nat>)
    requires k in children && v != [] && v[0] in children[k] && Chain(children, v)
    ensures Chain(children, [k] + v)
  {
    OneChain(children, k);
    ChainCat(children, [k], v);
  }

  lemma TreeJoined(live: Live, nodes: map<nat, Node>, children: map<nat, set<nat>>, k: nat, f: Keys)
    requires Neat(live, nodes, children, k) && KeyRoots(f) == StoredAt(live, nodes, k) && SpansAll(live, nodes, f)
    ensures Spans(live, nodes, Key(k, nodes[k], f))
  {
    hide Holds, Listed, SpansAll;
  }

  /** The forest below each of some children of a key. */
  lemma KeysJoined(root: nat, keys: set<nat>, children: map<nat, set<nat>>, parents: map<nat, nat>, trail: seq<nat>, f: Keys)
    requires Family(root, keys, children, parents) && Rooted(root, children, trail) && trail[|trail| - 1] in children
             && Elements(KeyRoots(f)) == children[trail[|trail| - 1]] && Distinct(KeyCellsAll(f))
    requires forall k :: k in KeyCellsAll(f) <==> exists c :: c in KeyRoots(f) && Below(children, c, k)
    ensures var top := trail[|trail| - 1];
              Distinct(KeyCellsAll(f) + [top]) && forall k :: k in KeyCellsAll(f) + [top] <==> Below(children, top, k)
  {
    hide Family, Below, Chain, KeyCellsAll, KeyRoots;
    var top := trail[|trail| - 1];
    BelowSelf(children, top);
    forall k | k in KeyCellsAll(f) ensures k != top && Below(children, top, k) {
      var c :| c in KeyRoots(f) && Below(children, c, k);
      assert c in children[top];
      BelowApart(root, keys, children, parents, trail, c, c, k);
      BelowStep(children, top, top, c);
      BelowThen(children, top, c, k);
    }
    OneDistinct(top);
    DistinctCat(KeyCellsAll(f), [top]);
    forall k | Below(children, top, k) ensures k == top || k in KeyCellsAll(f) {
      var c := FirstBelow(children, top, k);
      if k != top { assert c in KeyRoots(f); }
    }
  }

  lemma FirstBelow(children: map<nat, set<nat>>, top: nat, k: nat) returns (c: nat)
    requires Below(children, top, k)
    ensures k == top || (top in children && c in children[top] && Below(children, c, k))
  {
    var u :| u != [] && u[0] == top && u[|u| - 1] == k && Chain(children, u);
    c := k;
    if |u| > 1 {
      c := u[1];
      var v := u[1..];
      forall i | 0 <= i < |v| - 1 ensures v[i] in children && v[i + 1] in children[v[i]] {
        assert v[i] == u[i + 1] && v[i + 1] == u[i + 2];
      }
      assert v != [] && v[0] == c && v[|v| - 1] == k && Chain(children, v);
    }
  }

  lemma {:induction false} ForestBelow(live: Live, nodes: map<nat, Node>, root: nat, keys: set<nat>, children: map<nat, set<nat>>,
                          parents: map<nat, nat>, trail: seq<nat>, cells: seq<nat>)
    returns (f: Keys, u: seq<nat>)
    requires Family(root, keys, children, parents) && Rooted(root, children, trail) && root in keys && trail[|trail| - 1] in children
             && NeatBelow(live, nodes, children, trail[|trail| - 1])
    requires Distinct(cells) && forall c :: c in cells ==> c in children[trail[|trail| - 1]]
    ensures KeyRoots(f) == cells && SpansAll(live, nodes, f) && Distinct(KeyCellsAll(f))
    ensures forall k :: k in KeyCellsAll(f) <==> exists c :: c in cells && Below(children, c, k)
    ensures f.AndKey? ==> u != [] && u[0] in cells && Chain(children, u) && |u| == KeyHeightAll(f) + 1
    decreases |keys| - |trail|, 0, |cells|
  {
    hide Family, Below, Spans, Chain, KeyCells, KeyHeight, NeatBelow, Neat, Distinct;
    if cells == [] {
      f, u := NoKey, [];
      NoneDistinct();
    } else {
      var top, c, rest := trail[|trail| - 1], cells[0], cells[1..];
      assert c in cells && cells == [c] + rest;
      assert forall d :: d in rest ==> d in cells;
      DistinctParts([c], rest);
      ChainMore(children, trail, c);
      RootedShort(root, keys, children, parents, trail + [c]);
      NeatDown(live, nodes, children, top, c);
      var t, v := TreeBelow(live, nodes, root, keys, children, parents, trail + [c]);
      var g, w := ForestBelow(live, nodes, root, keys, children, parents, trail, rest);
      f := AndKey(t, g);
      u := if KeyHeight(t) < KeyHeightAll(g) then w else v;
      if g.NoKey? { assert KeyHeightAll(g) == 0; }
      forall k | k in KeyCells(t) ensures k !in KeyCellsAll(g) {
        if k in KeyCellsAll(g) {
          var d :| d in rest && Below(children, d, k);
          BelowApart(root, keys, children, parents, trail, c, d, k);
          assert false;
        }
      }
      DistinctCat(KeyCells(t), KeyCellsAll(g));
      assert c in [c];
      assert forall d :: d in cells <==> d == c || d in rest;
    }
  }

  lemma NoneDistinct()
    ensures Distinct<nat>([])
  {
  }

  lemma NeatDown(live: Live, nodes: map<nat, Node>, children: map<nat, set<nat>>, top: nat, c: nat)
    requires NeatBelow(live, nodes, children, top) && top in children && c in children[top]
    ensures NeatBelow(live, nodes, children, c)
  {
    hide Below, Neat;
    BelowSelf(children, top);
    BelowStep(children, top, top, c);
    forall k | Below(children, c, k) ensures Neat(live, nodes, children, k) { BelowThen(children, top, c, k); }
  }

  // ----- the limits

  lemma {:induction false} PlainFrom(live: Live, nodes: map<nat, Node>, t: KeyTree)
    requires Spans(live, nodes, t) && forall k :: k in KeyCells(t) ==> Stable(live, k) && k in nodes && Walks(nodes[k])
    ensures Plain(live, t)
  {
    hide U32, IsKey, Room, Holds, Listed;
    assert t.cell in KeyCells(t) && forall k :: k in KeyCellsAll(t.kids) ==> k in KeyCells(t);
    PlainAllFrom(live, nodes, t.kids);
  }

  lemma {:induction false} PlainAllFrom(live: Live, nodes: map<nat, Node>, f: Keys)
    requires SpansAll(live, nodes, f) && forall k :: k in KeyCellsAll(f) ==> Stable(live, k) && k in nodes && Walks(nodes[k])
    ensures PlainAll(live, f)
  {
    hide Stable, Walks, Spans;
    if f.AndKey? {
      assert forall k :: k in KeyCells(f.head) || k in KeyCellsAll(f.tail) ==> k in KeyCellsAll(f);
      PlainFrom(live, nodes, f.head);
      PlainAllFrom(live, nodes, f.tail);
    }
  }

  lemma {:induction false} PlainEach(live: Live, t: KeyTree)
    requires Plain(live, t)
    ensures forall k :: k in KeyCells(t) ==> Stable(live, k)
  {
    hide U32, IsKey, Room;
    PlainEachAll(live, t.kids);
  }

  lemma {:induction false} PlainEachAll(live: Live, f: Keys)
    requires PlainAll(live, f)
    ensures forall k :: k in KeyCellsAll(f) ==> Stable(live, k)
  {
    hide Plain, Stable, KeyCells;
    if f.AndKey? {
      PlainEach(live, f.head);
      PlainEachAll(live, f.tail);
    }
  }

  /** No chain is longer than the subtree is high. */
  lemma {:induction false} ChainsFit(live: Live, nodes: map<nat, Node>, children: map<nat, set<nat>>, t: KeyTree, u: seq<nat>)
    requires Spans(live, nodes, t) && Settled(live, nodes, children, KeyCells(t)) && ChainFrom(children, t.cell, u)
    ensures |u| <= KeyHeight(t) + 1
  {
    hide Holds, Listed, U32, Chain;
    assert t.cell in KeyCells(t) && forall k :: k in KeyCellsAll(t.kids) ==> k in KeyCells(t);
    if |u| > 1 {
      assert u[1] in children[t.cell] by { ChainFirst(children, u); }
      assert children[t.cell] == Elements(KeyRoots(t.kids)) by { assert Clean(live, t.cell, nodes[t.cell], children[t.cell]); }
      ChainTail(children, u);
      ForestChains(live, nodes, children, t.kids, u[1..]);
    }
  }

  lemma {:induction false} ForestChains(live: Live, nodes: map<nat, Node>, children: map<nat, set<nat>>, f: Keys, u: seq<nat>)
    requires SpansAll(live, nodes, f) && Settled(live, nodes, children, KeyCellsAll(f)) && u != [] && u[0] in KeyRoots(f)
             && Chain(children, u)
    ensures f.AndKey? && |u| <= KeyHeightAll(f) + 1
  {
    hide Spans, Chain, KeyCells, Clean, KeyHeight;
    assert forall k :: k in KeyCells(f.head) || k in KeyCellsAll(f.tail) ==> k in KeyCellsAll(f);
    if u[0] == f.head.cell { ChainsFit(live, nodes, children, f.head, u); } else { ForestChains(live, nodes, children, f.tail, u); }
  }

  lemma BelowSize(children: map<nat, set<nat>>, t: KeyTree)
    requires Distinct(KeyCells(t)) && (forall k :: k in KeyCells(t) <==> Below(children, t.cell, k))
             && forall k :: k in KeyCells(t) ==> k in children
    ensures |BelowSet(children, t.cell)| == |KeyCells(t)|
  {
    hide Below, KeyCells;
    ElementsSize(KeyCells(t));
    assert BelowSet(children, t.cell) == Elements(KeyCells(t));
  }

  // ----- the exact condition

  /** While there were deletions only, the subtree of a key can be removed exactly if it is quiet: nothing was deleted inside it, and it
    * is within the limits. */
  lemma ClearableExact(x: Text, a: State, minor: nat, root: nat, trail: seq<nat>)
    requires Owns(a.live, minor, a.ring, a.keys, a.nodes) && Family(root, a.keys, a.children, a.parents)
             && Pending(x, a.live, a.keys, a.nodes, a.children, a.batches) && Opened(x, a.live, a.keys, a.nodes, a.batches)
    requires Shrunk(a.live, a.keys, a.nodes, a.children, a.batches) && Rooted(root, a.children, trail) && root in a.keys && |trail| >= 2
    ensures Clearable(a.live, a.nodes, a.keys, trail[|trail| - 1]) <==> Quiet(a.live, a.children, a.batches, trail[|trail| - 1])
  {
    hide Owns, Family, Pending, Opened, Shrunk, Chain, Quiet, Clearable;
    if Clearable(a.live, a.nodes, a.keys, trail[|trail| - 1]) {
      ClearableQuiet(x, a, minor, root, trail);
    }
    if Quiet(a.live, a.children, a.batches, trail[|trail| - 1]) {
      QuietClearable(x, a, minor, root, trail);
    }
  }

  lemma ClearableQuiet(x: Text, a: State, minor: nat, root: nat, trail: seq<nat>)
    requires Owns(a.live, minor, a.ring, a.keys, a.nodes) && Family(root, a.keys, a.children, a.parents)
             && Pending(x, a.live, a.keys, a.nodes, a.children, a.batches)
    requires Shrunk(a.live, a.keys, a.nodes, a.children, a.batches) && Rooted(root, a.children, trail) && root in a.keys && |trail| >= 2
             && Clearable(a.live, a.nodes, a.keys, trail[|trail| - 1])
    ensures Quiet(a.live, a.children, a.batches, trail[|trail| - 1])
  {
    hide Owns, Family, Pending, Shrunk, Below, Spans, KeyCells, KeyHeight, Plain, Stable, Distinct, Settled, IsDirty, BelowSet;
    var cell, p := trail[|trail| - 1], trail[|trail| - 2];
    var t :| Good(a.live, a.nodes, a.keys, t, cell, 0, {});
    RootedKeys(root, a.keys, a.children, a.parents, trail);
    FamilyDomain(root, a.keys, a.children, a.parents);
    assert cell in a.children[p] && t.cell == cell;
    ShrunkExact(x, a, minor, root, t, p);
    CalmSettled(x, a.live, a.keys, a.nodes, a.children, a.batches, KeyCells(t));
    PlainEach(a.live, t);
    BelowSize(a.children, t);
    forall u | ChainFrom(a.children, cell, u) ensures |u| <= 513 { ChainsFit(a.live, a.nodes, a.children, t, u); }
  }

  lemma QuietClearable(x: Text, a: State, minor: nat, root: nat, trail: seq<nat>)
    requires Owns(a.live, minor, a.ring, a.keys, a.nodes) && Family(root, a.keys, a.children, a.parents)
             && Pending(x, a.live, a.keys, a.nodes, a.children, a.batches) && Opened(x, a.live, a.keys, a.nodes, a.batches)
    requires Rooted(root, a.children, trail) && root in a.keys && Quiet(a.live, a.children, a.batches, trail[|trail| - 1])
    ensures Clearable(a.live, a.nodes, a.keys, trail[|trail| - 1])
  {
    hide Owns, Family, Pending, Opened, Below, Spans, KeyCells, KeyHeight, Plain, Stable, Distinct, IsDirty, BelowSet, Chain, Neat, Walks;
    var cell := trail[|trail| - 1];
    RootedKeys(root, a.keys, a.children, a.parents, trail);
    FamilyDomain(root, a.keys, a.children, a.parents);
    OwnsDomain(a.live, minor, a.ring, a.keys, a.nodes);
    forall k | Below(a.children, cell, k) ensures Neat(a.live, a.nodes, a.children, k) && k in a.keys && Walks(a.nodes[k]) {
      BelowKeys(root, a.keys, a.children, a.parents, cell, k);
      NeatAt(x, a, minor, root, k);
      OpenWalks(x, a.live, a.keys, a.nodes, a.batches, k);
    }
    var t, u := TreeBelow(a.live, a.nodes, root, a.keys, a.children, a.parents, trail);
    PlainFrom(a.live, a.nodes, t);
    BelowSize(a.children, t);
    assert Good(a.live, a.nodes, a.keys, t, cell, 0, {});
  }

  lemma OpenWalks(x: Text, live: Live, keys: set<nat>, nodes: map<nat, Node>, batches: map<nat, Batch>, k: nat)
    requires Opened(x, live, keys, nodes, batches) && k in keys && k in nodes
    ensures Walks(nodes[k])
  {
    hide Walks, Loadable;
  }
}
