/** The paths that can be deleted, and what a deletion leaves of them. */
module RemovablePaths {
  import opened Bytes
  import opened HiveLayout
  import opened HiveImage
  import opened SecurityRing
  import opened SubkeyIndex
  import opened KeyDeletion
  import opened HiveBatch
  import opened KeyPaths
  import opened SubtreeRemoval
  import opened SubtreeDeletion
  import opened SubtreeLimits
  import opened NameTree

  /** A path, not the root's own, to a key whose subtree is quiet. */
  ghost predicate Removable(x: Text, live: Live, children: map<nat, set<nat>>, batches: map<nat, Batch>, root: nat, f: seq<string>) {
    f != [] && There(x, live, children, root, f) && Quiet(live, children, batches, TrailTo(x, live, children, root, f)[|f|])
  }

  lemma RemovableAt(x: Text, live: Live, children: map<nat, set<nat>>, batches: map<nat, Batch>, root: nat, u: seq<nat>)
    requires Unambiguous(x, live, children) && Rooted(root, children, u)
    ensures Removable(x, live, children, batches, root, Names(x, live, u)) <==> |u| > 1 && Quiet(live, children, batches, u[|u| - 1])
  {
    hide Quiet, Unambiguous, Folded;
    var f := Names(x, live, u);
    assert Reaches(x, live, children, root, f, u);
    OneTrail(x, live, children, root, u, TrailTo(x, live, children, root, f));
  }

  // ----- the same keys below

  lemma {:induction false} ChainBelow(children: map<nat, set<nat>>, top: nat, u: seq<nat>, i: nat)
    requires ChainFrom(children, top, u) && i < |u|
    ensures Below(children, top, u[i])
  {
    ChainFront(children, u, i + 1);
    var v := u[..i + 1];
    assert v != [] && v[0] == top && v[|v| - 1] == u[i] && Chain(children, v);
  }

  /** Where the children of all keys below a key are the same, so are the chains. */
  lemma SameChains(children: map<nat, set<nat>>, kids: map<nat, set<nat>>, top: nat)
    requires (forall k :: Below(children, top, k) && k in children ==> k in kids && kids[k] == children[k])
             && forall k :: k in kids ==> k in children && kids[k] <= children[k]
    ensures forall u :: ChainFrom(kids, top, u) <==> ChainFrom(children, top, u)
    ensures forall k :: Below(kids, top, k) <==> Below(children, top, k)
  {
    hide Below;
    forall u ensures ChainFrom(kids, top, u) <==> ChainFrom(children, top, u) {
      if ChainFrom(children, top, u) {
        forall i | 0 <= i < |u| - 1 ensures u[i] in kids && u[i + 1] in kids[u[i]] { ChainBelow(children, top, u, i); }
      }
    }
    forall k ensures Below(kids, top, k) <==> Below(children, top, k) { SameBelow(children, kids, top, k); }
  }

  lemma SameBelow(children: map<nat, set<nat>>, kids: map<nat, set<nat>>, top: nat, k: nat)
    requires forall u :: ChainFrom(kids, top, u) <==> ChainFrom(children, top, u)
    ensures Below(kids, top, k) <==> Below(children, top, k)
  {
    hide Chain;
    if Below(children, top, k) {
      var u :| u != [] && u[0] == top && u[|u| - 1] == k && Chain(children, u);
      assert ChainFrom(kids, top, u);
    }
    if Below(kids, top, k) {
      var u :| u != [] && u[0] == top && u[|u| - 1] == k && Chain(kids, u);
      assert ChainFrom(children, top, u);
    }
  }

  lemma QuietSame(live: Live, m: Live, children: map<nat, set<nat>>, kids: map<nat, set<nat>>, batches: map<nat, Batch>,
                  pend: map<nat, Batch>, top: nat)
    requires (forall u :: ChainFrom(kids, top, u) <==> ChainFrom(children, top, u))
             && (forall k :: Below(kids, top, k) <==> Below(children, top, k))
    requires forall k :: Below(children, top, k) ==>
               && (k in kids <==> k in children) && (IsDirty(pend, k) <==> IsDirty(batches, k))
               && k in live && k in m && m[k] == live[k]
    ensures Quiet(m, kids, pend, top) <==> Quiet(live, children, batches, top)
  {
    hide Below, ChainFrom, IsDirty, U32;
    assert BelowSet(kids, top) == BelowSet(children, top);
  }

  // ----- after a deletion

  /** Keys below a path beside the deleted one have nothing to do with it. */
  lemma Apart(root: nat, keys: set<nat>, children: map<nat, set<nat>>, parents: map<nat, nat>, t: KeyTree, trail: seq<nat>, u: seq<nat>,
              k: nat)
    requires Family(root, keys, children, parents) && Rooted(root, children, trail) && |trail| >= 2 && trail[|trail| - 1] == t.cell
             && Rooted(root, children, u) && !(u <= trail) && !(trail <= u)
    requires (forall k :: k in KeyCells(t) <==> Below(children, t.cell, k)) && Below(children, u[|u| - 1], k)
    ensures k != trail[|trail| - 2] && k !in KeyCells(t)
  {
    hide Family, KeyCells;
    var n := |trail|;
    var w :| w != [] && w[0] == u[|u| - 1] && w[|w| - 1] == k && Chain(children, w);
    var v := u + w[1..];
    assert Rooted(root, children, v) by { Rejoined(children, u, w); }
    assert v[|v| - 1] == k;
    if k == trail[n - 2] {
      ChainFront(children, trail, n - 1);
      OneWay(root, keys, children, parents, v, trail[..n - 1]);
      assert false;
    }
    if k in KeyCells(t) {
      Passes(root, keys, children, parents, trail, v, |v| - 1);
      assert false;
    }
  }

  lemma PrunedSame(children: map<nat, set<nat>>, gone: set<nat>, parent: nat, cell: nat, batches: map<nat, Batch>, name: string, k: nat)
    requires k !in gone && k != parent
    ensures var kids := Pruned(children, gone, parent, cell); (k in kids <==> k in children) && (k in children ==> kids[k] == children[k])
    ensures IsDirty(Unbatched(batches, gone, parent, name), k) <==> IsDirty(batches, k)
  {
  }

  lemma PrunedLess(children: map<nat, set<nat>>, gone: set<nat>, parent: nat, cell: nat)
    ensures var kids := Pruned(children, gone, parent, cell); forall k :: k in kids ==> k in children && kids[k] <= children[k]
  {
  }

  /** A subtree beside the deleted one is as quiet as it was. */
  lemma QuietBeside(a: State, m: Live, root: nat, name: string, t: KeyTree, trail: seq<nat>, u: seq<nat>)
    requires Family(root, a.keys, a.children, a.parents) && root in a.keys && Rooted(root, a.children, trail) && |trail| >= 2
             && trail[|trail| - 1] == t.cell && Rooted(root, a.children, u) && !(u <= trail) && !(trail <= u)
    requires Whole(a.children, trail[|trail| - 2], t) && Same(a.live, m, a.keys - Elements(KeyCells(t)), a.nodes) && a.keys <= a.nodes.Keys
    ensures var gone, p := Elements(KeyCells(t)), trail[|trail| - 2];
            Quiet(m, Pruned(a.children, gone, p, t.cell), Unbatched(a.batches, gone, p, name), u[|u| - 1]) <==>
              Quiet(a.live, a.children, a.batches, u[|u| - 1])
  {
    hide Family, KeyCells, Below, Chain, Quiet, Pruned, Unbatched, IsDirty, Owned;
    var gone, p, top := Elements(KeyCells(t)), trail[|trail| - 2], u[|u| - 1];
    var kids, pend := Pruned(a.children, gone, p, t.cell), Unbatched(a.batches, gone, p, name);
    RootedKeys(root, a.keys, a.children, a.parents, u);
    forall k | Below(a.children, top, k)
      ensures (k in kids <==> k in a.children) && (k in a.children ==> kids[k] == a.children[k]) && (IsDirty(pend, k) <==> IsDirty(a.batches, k))
              && k in a.live && k in m && m[k] == a.live[k]
    {
      Apart(root, a.keys, a.children, a.parents, t, trail, u, k);
      PrunedSame(a.children, gone, p, t.cell, a.batches, name, k);
      BelowKeys(root, a.keys, a.children, a.parents, top, k);
      assert k in Owned(a.nodes[k]) + [k];
    }
    PrunedLess(a.children, gone, p, t.cell);
    SameChains(a.children, kids, top);
    QuietSame(a.live, m, a.children, kids, a.batches, pend, top);
  }

  /** A subtree in which something was deleted is not quiet. */
  lemma NotQuietAbove(root: nat, m: Live, keys: set<nat>, children: map<nat, set<nat>>, parents: map<nat, nat>, batches: map<nat, Batch>,
                      name: string, t: KeyTree, trail: seq<nat>, n: nat)
    requires Family(root, keys, children, parents) && Rooted(root, children, trail) && |trail| >= 2 && trail[|trail| - 1] == t.cell
             && 0 < n < |trail|
    requires Whole(children, trail[|trail| - 2], t) && trail[|trail| - 2] in batches
    ensures var gone, p := Elements(KeyCells(t)), trail[|trail| - 2];
            !Quiet(m, Pruned(children, gone, p, t.cell), Unbatched(batches, gone, p, name), trail[n - 1])
  {
    hide Family, KeyCells, Quiet;
    var gone, p := Elements(KeyCells(t)), trail[|trail| - 2];
    var kids, pend := Pruned(children, gone, p, t.cell), Unbatched(batches, gone, p, name);
    var w := trail[n - 1..|trail| - 1];
    forall i | 0 <= i < |trail| - 1 ensures trail[i] !in KeyCells(t) {
      if trail[i] in KeyCells(t) {
        Passes(root, keys, children, parents, trail, trail, i);
        assert false;
      }
    }
    forall i | 0 <= i < |w| - 1 ensures w[i] in kids && w[i + 1] in kids[w[i]] {
      assert w[i] == trail[n - 1 + i] && w[i + 1] == trail[n + i];
      assert w[i + 1] != t.cell by { BelowSelf(children, t.cell); }
    }
    assert w != [] && w[0] == trail[n - 1] && w[|w| - 1] == p && Chain(kids, w);
    assert Below(kids, trail[n - 1], p) && IsDirty(pend, p);
    LoudAt(m, kids, pend, trail[n - 1], p);
  }

  lemma LoudAt(live: Live, children: map<nat, set<nat>>, batches: map<nat, Batch>, top: nat, k: nat)
    requires Below(children, top, k) && IsDirty(batches, k)
    ensures !Quiet(live, children, batches, top)
  {
    hide Below, ChainFrom, IsDirty, BelowSet;
  }

  /** A deletion leaves removable exactly the paths that were and neither lead to the deleted key nor pass it. */
  lemma RemovableAfter(x: Text, a: State, m: Live, root: nat, name: string, t: KeyTree, trail: seq<nat>, f: seq<string>)
    requires Family(root, a.keys, a.children, a.parents) && root in a.keys && Unambiguous(x, a.live, a.children)
             && Rooted(root, a.children, trail)
             && |trail| >= 2 && trail[|trail| - 1] == t.cell
    requires Whole(a.children, trail[|trail| - 2], t)
             && (forall c :: c in a.keys && c !in KeyCells(t) ==> Folded(x, m, c) == Folded(x, a.live, c)) && trail[|trail| - 2] in a.batches
    requires Same(a.live, m, a.keys - Elements(KeyCells(t)), a.nodes) && a.keys <= a.nodes.Keys
    requires Unambiguous(x, m, Pruned(a.children, Elements(KeyCells(t)), trail[|trail| - 2], t.cell))
    ensures var gone, p, g := Elements(KeyCells(t)), trail[|trail| - 2], Names(x, a.live, trail);
            Removable(x, m, Pruned(a.children, gone, p, t.cell), Unbatched(a.batches, gone, p, name), root, f) <==>
              Removable(x, a.live, a.children, a.batches, root, f) && !(f <= g) && !(g <= f)
  {
    hide Family, KeyCells, Below, Chain, Quiet, Pruned, Unbatched, Folded, Unambiguous, Same, Removable, There;
    var gone, p, g := Elements(KeyCells(t)), trail[|trail| - 2], Names(x, a.live, trail);
    var kids, pend := Pruned(a.children, gone, p, t.cell), Unbatched(a.batches, gone, p, name);
    TopIsGone(t);
    if Removable(x, m, kids, pend, root, f) {
      var u := RemovableTrail(x, m, kids, pend, root, f);
      DeletedOut(x, a.live, m, root, a.keys, a.children, a.parents, t, p, trail, u);
      RemovableAt(x, m, kids, pend, root, u);
      if f <= g {
        NamesFront(x, a.live, trail, |u|);
        ChainFront(a.children, trail, |u|);
        OneTrail(x, a.live, a.children, root, u, trail[..|u|]);
        NotQuietAbove(root, m, a.keys, a.children, a.parents, a.batches, name, t, trail, |u|);
        assert false;
      }
      NotPrefix(x, a.live, trail, u);
      QuietBeside(a, m, root, name, t, trail, u);
      RemovableAt(x, a.live, a.children, a.batches, root, u);
    }
    if Removable(x, a.live, a.children, a.batches, root, f) && !(f <= g) && !(g <= f) {
      var u := RemovableTrail(x, a.live, a.children, a.batches, root, f);
      DeletedIn(x, a.live, m, root, a.keys, a.children, a.parents, t, p, trail, u);
      RemovableAt(x, a.live, a.children, a.batches, root, u);
      NotPrefix(x, a.live, trail, u);
      QuietBeside(a, m, root, name, t, trail, u);
      RemovableAt(x, m, kids, pend, root, u);
    }
  }

  lemma RemovableTrail(x: Text, live: Live, children: map<nat, set<nat>>, batches: map<nat, Batch>, root: nat, f: seq<string>)
    returns (u: seq<nat>)
    requires Removable(x, live, children, batches, root, f)
    ensures Rooted(root, children, u) && Names(x, live, u) == f && |u| > 1
  {
    hide Quiet, Folded;
    u := TrailTo(x, live, children, root, f);
  }

  lemma NotPrefix(x: Text, live: Live, trail: seq<nat>, u: seq<nat>)
    requires trail != [] && u != []
    ensures u <= trail ==> Names(x, live, u) <= Names(x, live, trail)
    ensures trail <= u ==> Names(x, live, trail) <= Names(x, live, u)
  {
    hide Folded;
    if u <= trail { NamesFront(x, live, trail, |u|); assert trail[..|u|] == u; }
    if trail <= u { NamesFront(x, live, u, |trail|); assert u[..|trail|] == trail; }
  }
}
