/** A transaction seen from outside: folded paths of names, and the security descriptor at each. */
module NameTree {
  import opened Bytes
  import opened HiveLayout
  import opened HiveImage
  import opened MutableHive
  import opened SecurityRing
  import opened SubkeyIndex
  import opened HivePatch
  import opened KeyDeletion
  import opened HiveBatch
  import opened KeyPaths
  import opened SubtreeRemoval
  import opened SubtreeDeletion

  /** For every path of folded names that leads to a key, what the key says. */
  type Shape = imap<seq<string>, Info>

  function FoldAll(x: Text, parts: seq<string>): (f: seq<string>)
    ensures |f| == |parts| && forall i :: 0 <= i < |parts| ==> f[i] == x.fold(parts[i])
  {
    seq(|parts|, i requires 0 <= i < |parts| => x.fold(parts[i]))
  }

  /** The folded names along a trail. */
  ghost function Names(x: Text, live: Live, trail: seq<nat>): (f: seq<string>)
    requires trail != []
    ensures |f| == |trail| - 1 && forall i :: 0 <= i < |f| ==> f[i] == Folded(x, live, trail[i + 1])
  {
    seq(|trail| - 1, i requires 0 <= i < |trail| - 1 => Folded(x, live, trail[i + 1]))
  }

  ghost predicate Reaches(x: Text, live: Live, children: map<nat, set<nat>>, root: nat, f: seq<string>, trail: seq<nat>) {
    Rooted(root, children, trail) && Names(x, live, trail) == f
  }

  ghost predicate There(x: Text, live: Live, children: map<nat, set<nat>>, root: nat,
                        f: seq<string>) { exists trail :: Reaches(x, live, children, root, f, trail) }

  ghost function TrailTo(x: Text, live: Live, children: map<nat, set<nat>>, root: nat, f: seq<string>): (trail: seq<nat>)
    requires There(x, live, children, root, f)
    ensures Reaches(x, live, children, root, f, trail) && |trail| == |f| + 1
  {
    var trail :| Reaches(x, live, children, root, f, trail);
    trail
  }

  ghost function ShapeOf(x: Text, live: Live, children: map<nat, set<nat>>, root: nat): Shape {
    imap f | There(x, live, children, root, f) :: InfoOf(live, TrailTo(x, live, children, root, f)[|f|])
  }

  /** No two children of a key have one folded name. */
  ghost predicate Unambiguous(x: Text, live: Live, children: map<nat, set<nat>>) {
    forall p, a, b :: p in children && a in children[p] && b in children[p] && Folded(x, live, a) == Folded(x, live, b) ==> a == b
  }

  /** A path of names is a trail of keys and their folded names. */
  lemma PathIs(x: Text, live: Live, children: map<nat, set<nat>>, trail: seq<nat>, parts: seq<string>)
    ensures Path(x, live, children, trail, parts) <==> trail != [] && Chain(children, trail) && Names(x, live, trail) == FoldAll(x, parts)
  {
    hide Folded;
    if trail != [] && Chain(children, trail) && Names(x, live, trail) == FoldAll(x, parts) {
      forall i | 0 <= i < |parts| ensures Step(x, live, children, trail[i], parts[i], trail[i + 1]) {
        assert Names(x, live, trail)[i] == FoldAll(x, parts)[i];
      }
    }
    if Path(x, live, children, trail, parts) {
      forall i | 0 <= i < |parts| ensures trail[i] in children && trail[i + 1] in children[trail[i]]
          && Folded(x, live, trail[i + 1]) == x.fold(parts[i]) {
        assert Step(x, live, children, trail[i], parts[i], trail[i + 1]);
      }
    }
  }

  lemma {:induction false} OneTrail(x: Text, live: Live, children: map<nat, set<nat>>, root: nat, u: seq<nat>, v: seq<nat>)
    requires Unambiguous(x, live, children) && Rooted(root, children, u) && Rooted(root, children, v)
             && Names(x, live, u) == Names(x, live, v)
    ensures u == v
    decreases |u|
  {
    hide Folded;
    var n := |u| - 1;
    assert |v| == |u| by { assert |Names(x, live, u)| == |Names(x, live, v)|; }
    if n > 0 {
      ChainFront(children, u, n);
      ChainFront(children, v, n);
      NamesFront(x, live, u, n);
      NamesFront(x, live, v, n);
      OneTrail(x, live, children, root, u[..n], v[..n]);
      assert u[n - 1] == u[..n][n - 1] == v[n - 1];
      assert Names(x, live, u)[n - 1] == Names(x, live, v)[n - 1];
      assert u == u[..n] + [u[n]] && v == v[..n] + [v[n]];
    }
  }

  lemma NamesFront(x: Text, live: Live, trail: seq<nat>, n: nat)
    requires 0 < n <= |trail|
    ensures Names(x, live, trail[..n]) == Names(x, live, trail)[..n - 1]
  {
    hide Folded;
  }

  /** What a trail says of the shape. */
  lemma ShapeAt(x: Text, live: Live, children: map<nat, set<nat>>, root: nat, trail: seq<nat>)
    requires Unambiguous(x, live, children) && Rooted(root, children, trail)
    ensures var f := Names(x, live, trail);
              f in ShapeOf(x, live, children, root) && ShapeOf(x, live, children, root)[f] == InfoOf(live, trail[|trail| - 1])
  {
    hide Folded, InfoOf, Unambiguous;
    var f := Names(x, live, trail);
    assert Reaches(x, live, children, root, f, trail);
    OneTrail(x, live, children, root, trail, TrailTo(x, live, children, root, f));
  }

  lemma ShapeFrom(x: Text, live: Live, children: map<nat, set<nat>>, root: nat, f: seq<string>) returns (trail: seq<nat>)
    requires f in ShapeOf(x, live, children, root)
    ensures Rooted(root, children, trail) && Names(x, live, trail) == f && |trail| == |f| + 1
            && ShapeOf(x, live, children, root)[f] == InfoOf(live, trail[|f|])
  {
    hide Folded, InfoOf;
    trail := TrailTo(x, live, children, root, f);
  }

  /** Shapes are equal when their trails are. */
  lemma SameShape(a: Shape, b: Shape)
    requires (forall f :: f in a ==> f in b && a[f] == b[f]) && forall f :: f in b ==> f in a
    ensures a == b
  {
  }

  // ----- when the lists can be loaded, names are unambiguous

  lemma OpenUnambiguous(x: Text, a: State, minor: nat, root: nat)
    requires Owns(a.live, minor, a.ring, a.keys, a.nodes) && Family(root, a.keys, a.children, a.parents)
             && Pending(x, a.live, a.keys, a.nodes, a.children, a.batches) && Opened(x, a.live, a.keys, a.nodes, a.batches)
    ensures Unambiguous(x, a.live, a.children)
  {
    hide Owns, Family, Pending, Folded, Loadable, Walks;
    FamilyDomain(root, a.keys, a.children, a.parents);
    OwnsDomain(a.live, minor, a.ring, a.keys, a.nodes);
    forall p, c, d | p in a.children && c in a.children[p] && d in a.children[p] && Folded(x, a.live, c) == Folded(x, a.live, d)
        ensures c == d {
      assert IsDirty(a.batches, p) || Loadable(x, a.live, a.nodes[p]);
      OpenNames(x, a, minor, root, p, c, d);
    }
  }

  lemma OpenNames(x: Text, s: State, minor: nat, root: nat, p: nat, a: nat, b: nat)
    requires Owns(s.live, minor, s.ring, s.keys, s.nodes) && Family(root, s.keys, s.children, s.parents)
             && Pending(x, s.live, s.keys, s.nodes, s.children, s.batches) && p in s.keys && p in s.nodes && p in s.children
    requires (IsDirty(s.batches, p) || Loadable(x, s.live, s.nodes[p])) && a in s.children[p] && b in s.children[p]
             && Folded(x, s.live, a) == Folded(x, s.live, b)
    ensures a == b
  {
    hide Owns, Family, Pending, Folded, Holds, Listed, Room, U32, Named;
    if IsDirty(s.batches, p) {
      PendingAt(x, s.live, s.keys, s.nodes, s.children, s.batches, p);
    } else {
      OpenClean(x, s, minor, root, p);
      var cells := StoredChildren(s.live, s.nodes[p]);
      assert a in Elements(cells) && b in Elements(cells);
      var i :| 0 <= i < |cells| && cells[i] == a;
      var j :| 0 <= j < |cells| && cells[j] == b;
    }
  }

  // ----- deletion

  /** A shape without everything at or below a path. */
  ghost function Lop(s: Shape, f: seq<string>): Shape { imap g | g in s && !(f <= g) :: s[g] }

  /** Deleting what a path names takes away that path and all that continue it, and nothing else. */
  lemma DeletedShape(x: Text, live: Live, m: Live, root: nat, keys: set<nat>, nodes: map<nat, Node>, children: map<nat, set<nat>>,
                     parents: map<nat, nat>, t: KeyTree, parent: nat, trail: seq<nat>)
    requires Family(root, keys, children, parents) && root in keys && Unambiguous(x, live, children) && Rooted(root, children, trail)
             && |trail| >= 2 && trail[|trail| - 1] == t.cell && trail[|trail| - 2] == parent
    requires Whole(children, parent, t) && (forall c :: c in keys && c !in KeyCells(t) ==> Folded(x, m, c) == Folded(x, live, c))
    requires Robed(live, m, keys - Elements(KeyCells(t)))
    ensures ShapeOf(x, m, Pruned(children, Elements(KeyCells(t)), parent, t.cell), root) == Lop(ShapeOf(x, live, children, root),
            Names(x, live, trail))
  {
    hide Family, Folded, InfoOf, Unambiguous, KeyCells, Pruned, ShapeOf, Below;
    var gone, f := Elements(KeyCells(t)), Names(x, live, trail);
    var kids := Pruned(children, gone, parent, t.cell);
    var s, r := ShapeOf(x, live, children, root), ShapeOf(x, m, kids, root);
    TopIsGone(t);
    forall g | g in r ensures g in Lop(s, f) && r[g] == Lop(s, f)[g] {
      var u := ShapeFrom(x, m, kids, root, g);
      DeletedOut(x, live, m, root, keys, children, parents, t, parent, trail, u);
      ShapeAt(x, live, children, root, u);
    }
    forall g | g in Lop(s, f) ensures g in r {
      var u := ShapeFrom(x, live, children, root, g);
      DeletedIn(x, live, m, root, keys, children, parents, t, parent, trail, u);
      ShapeThere(x, m, kids, root, u);
    }
    SameShape(r, Lop(s, f));
  }

  lemma ShapeThere(x: Text, live: Live, children: map<nat, set<nat>>, root: nat, trail: seq<nat>)
    requires Rooted(root, children, trail)
    ensures Names(x, live, trail) in ShapeOf(x, live, children, root)
  {
    hide Folded, InfoOf;
    assert Reaches(x, live, children, root, Names(x, live, trail), trail);
  }

  /** A trail that is left does not pass what was deleted, and was there before. */
  lemma DeletedOut(x: Text, live: Live, m: Live, root: nat, keys: set<nat>, children: map<nat, set<nat>>, parents: map<nat, nat>,
                   t: KeyTree, parent: nat, trail: seq<nat>, u: seq<nat>)
    requires Family(root, keys, children, parents) && root in keys && Unambiguous(x, live, children) && Rooted(root, children, trail)
             && |trail| >= 2 && trail[|trail| - 1] == t.cell && trail[|trail| - 2] == parent
    requires Whole(children, parent, t) && (forall c :: c in keys && c !in KeyCells(t) ==> Folded(x, m, c) == Folded(x, live, c))
             && t.cell in KeyCells(t)
    requires Rooted(root, Pruned(children, Elements(KeyCells(t)), parent, t.cell), u)
    ensures Rooted(root, children, u) && Names(x, live, u) == Names(x, m, u) && !(Names(x, live, trail) <= Names(x, live, u))
            && u[|u| - 1] in keys - Elements(KeyCells(t))
  {
    hide Family, Folded, InfoOf, Unambiguous, KeyCells, Below;
    var gone := Elements(KeyCells(t));
    var kids := Pruned(children, gone, parent, t.cell);
    PrunedChain(children, gone, parent, t.cell, u);
    RootedKeys(root, keys, children, parents, u);
    StaysOut(root, keys, children, parents, t, parent, trail, u);
    assert Names(x, live, u) == Names(x, m, u);
    if Names(x, live, trail) <= Names(x, live, u) {
      var n := |trail|;
      ChainFront(children, u, n);
      NamesFront(x, live, u, n);
      OneTrail(x, live, children, root, u[..n], trail);
      assert false;
    }
  }

  lemma StaysOut(root: nat, keys: set<nat>, children: map<nat, set<nat>>, parents: map<nat, nat>, t: KeyTree, parent: nat, trail: seq<nat>,
                 u: seq<nat>)
    requires Family(root, keys, children, parents) && Rooted(root, children, trail) && |trail| >= 2 && trail[|trail| - 1] == t.cell
             && trail[|trail| - 2] == parent && Whole(children, parent, t)
    requires Rooted(root, Pruned(children, Elements(KeyCells(t)), parent, t.cell), u) && Rooted(root, children, u)
    ensures forall i :: 0 <= i < |u| ==> u[i] !in KeyCells(t)
  {
    hide Family, KeyCells, Below;
    forall i | 0 <= i < |u| ensures u[i] !in KeyCells(t) {
      if u[i] in KeyCells(t) {
        Passes(root, keys, children, parents, trail, u, i);
        assert false;
      }
    }
  }

  /** A trail that does not pass the deleted path is still there. */
  lemma DeletedIn(x: Text, live: Live, m: Live, root: nat, keys: set<nat>, children: map<nat, set<nat>>, parents: map<nat, nat>, t: KeyTree,
                  parent: nat, trail: seq<nat>, u: seq<nat>)
    requires Family(root, keys, children, parents) && root in keys && Rooted(root, children, trail) && |trail| >= 2
             && trail[|trail| - 1] == t.cell && trail[|trail| - 2] == parent
    requires Whole(children, parent, t) && (forall c :: c in keys && c !in KeyCells(t) ==> Folded(x, m, c) == Folded(x, live, c))
             && t.cell in KeyCells(t)
    requires Rooted(root, children, u) && !(Names(x, live, trail) <= Names(x, live, u))
    ensures Rooted(root, Pruned(children, Elements(KeyCells(t)), parent, t.cell), u) && Names(x, m, u) == Names(x, live, u)
  {
    hide Family, Folded, KeyCells, Below, Pruned;
    forall i | 0 <= i < |u| ensures u[i] !in KeyCells(t) {
      if u[i] in KeyCells(t) {
        Passes(root, keys, children, parents, trail, u, i);
        NamesFront(x, live, u, |trail|);
        assert false;
      }
    }
    PrunedChain(children, Elements(KeyCells(t)), parent, t.cell, u);
    RootedKeys(root, keys, children, parents, u);
    assert Names(x, live, u) == Names(x, m, u);
  }

  // ----- creation

  /** A shape with a path and all paths on the way to it; what is new is an heir of what it lies in. */
  ghost function Sow(s: Shape, f: seq<string>): Shape {
    if f == [] || f in s then s
    else
      var r := Sow(s, f[..|f| - 1]);
      if f[..|f| - 1] in r then r[f := Heir(r[f[..|f| - 1]])] else r
  }

  lemma PlantedRooted(root: nat, keys: set<nat>, more: set<nat>, kids: map<nat, set<nat>>, wide: map<nat, set<nat>>, trail: seq<nat>)
    requires Planted(keys, more, kids, wide, trail) && trail != [] && trail[0] == root
    ensures Rooted(root, wide, trail)
  {
    forall i | 0 <= i < |trail| - 1 ensures trail[i] in wide && trail[i + 1] in wide[trail[i]] {
      assert trail[i] in Elements(trail);
      assert Follows(trail, trail[i], trail[i + 1]);
    }
  }

  lemma GrewChain(x: Text, live: Live, m: Live, root: nat, keys: set<nat>, more: set<nat>, kids: map<nat, set<nat>>,
                  wide: map<nat, set<nat>>, parents: map<nat, nat>, u: seq<nat>)
    requires Grew(x, live, m, keys, more, kids, wide) && Family(root, keys, kids, parents) && root in keys && Rooted(root, kids, u)
    ensures Rooted(root, wide, u) && Names(x, m, u) == Names(x, live, u) && forall i :: 0 <= i < |u| ==> u[i] in keys
  {
    hide NameOf;
    RootedKeys(root, keys, kids, parents, u);
  }

  /** A trail of the wider tree is one of the old tree, or a front of the trail that was planted. */
  lemma OldOrPlanted(x: Text, live: Live, m: Live, root: nat, keys: set<nat>, more: set<nat>, kids: map<nat, set<nat>>,
                     wide: map<nat, set<nat>>, parents: map<nat, nat>, trail: seq<nat>, u: seq<nat>)
    requires Grew(x, live, m, keys, more, kids, wide) && Planted(keys, more, kids, wide, trail) && Family(root, more, wide, parents)
             && root in keys && trail != [] && trail[0] == root
    requires Rooted(root, wide, u)
    ensures Rooted(root, kids, u) || (|u| <= |trail| && u == trail[..|u|])
  {
    hide NameOf, Family;
    RootedKeys(root, more, wide, parents, u);
    var n := |u| - 1;
    if u[n] in keys {
      AllOld(keys, more, kids, wide, trail, u);
      forall i | 0 <= i < |u| - 1 ensures u[i] in kids && u[i + 1] in kids[u[i]] { assert u[i + 1] in wide[u[i]]; }
    } else {
      assert u[n] in Elements(trail);
      var j :| 0 <= j < |trail| && trail[j] == u[n];
      PlantedRooted(root, keys, more, kids, wide, trail);
      ChainFront(wide, trail, j + 1);
      OneWay(root, more, wide, parents, u, trail[..j + 1]);
    }
  }

  lemma {:induction false} AllOld(keys: set<nat>, more: set<nat>, kids: map<nat, set<nat>>, wide: map<nat, set<nat>>, trail: seq<nat>,
                          u: seq<nat>)
    requires Planted(keys, more, kids, wide, trail) && Chain(wide, u) && u != [] && u[|u| - 1] in keys
             && forall i :: 0 <= i < |u| ==> u[i] in more
    ensures forall i :: 0 <= i < |u| ==> u[i] in keys
  {
    var n := |u| - 1;
    if n > 0 {
      assert u[n] in wide[u[n - 1]];
      assert u[n - 1] in keys;
      ChainFront(wide, u, n);
      AllOld(keys, more, kids, wide, trail, u[..n]);
      forall i | 0 <= i < |u| ensures u[i] in keys { if i < n { assert u[i] == u[..n][i]; } }
    }
  }

  /** What the shape is once a front of the trail is counted in. */
  lemma {:induction false} SownFront(x: Text, live: Live, m: Live, root: nat, keys: set<nat>, more: set<nat>, kids: map<nat, set<nat>>,
                          wide: map<nat, set<nat>>, parents: map<nat, nat>, trail: seq<nat>, n: nat)
    requires Grew(x, live, m, keys, more, kids, wide) && Family(root, keys, kids, parents) && root in keys && n < |trail|
             && trail[0] == root && Inherits(live, m, keys, trail) && Planted(keys, more, kids, wide, trail)
    requires Unambiguous(x, live, kids) && Unambiguous(x, m, wide) && Rooted(root, wide, trail)
    ensures var s, r := ShapeOf(x, live, kids, root), Sow(ShapeOf(x, live, kids, root), Names(x, m, trail)[..n]);
            && (forall g :: g in r <==> g in s || g <= Names(x, m, trail)[..n])
            && (forall g :: g in s ==> r[g] == s[g])
            && forall j :: 0 <= j <= n ==> Names(x, m, trail)[..j] in r && r[Names(x, m, trail)[..j]] == InfoOf(m, trail[j])
  {
    hide Folded, InfoOf, Unambiguous, Family, Grew, ShapeOf, Inherits, Planted;
    var s, f := ShapeOf(x, live, kids, root), Names(x, m, trail);
    RootThere(x, live, m, root, keys, more, kids, wide, parents, trail);
    if n > 0 {
      SownFront(x, live, m, root, keys, more, kids, wide, parents, trail, n - 1);
      assert f[..n][..n - 1] == f[..n - 1];
      FrontThere(x, live, m, root, keys, more, kids, wide, parents, trail, n);
      var r := Sow(s, f[..n]);
      forall g ensures g in r <==> g in s || g <= f[..n] { FrontStep(f, n, g); }
      forall j | 0 <= j <= n ensures f[..j] in r && r[f[..j]] == InfoOf(m, trail[j]) {
        assert f[..j] == f[..n][..j];
        if f[..n] in s && j > 0 { FrontThere(x, live, m, root, keys, more, kids, wide, parents, trail, j); }
      }
    }
  }

  lemma FrontStep(f: seq<string>, n: nat, g: seq<string>)
    requires 0 < n <= |f|
    ensures g <= f[..n] <==> g <= f[..n - 1] || g == f[..n]
  {
    if g <= f[..n] && |g| < n { assert g == f[..n - 1][..|g|]; }
  }

  lemma RootThere(x: Text, live: Live, m: Live, root: nat, keys: set<nat>, more: set<nat>, kids: map<nat, set<nat>>,
                  wide: map<nat, set<nat>>, parents: map<nat, nat>, trail: seq<nat>)
    requires Grew(x, live, m, keys, more, kids, wide) && root in keys && trail != [] && trail[0] == root && Inherits(live, m, keys, trail)
             && Unambiguous(x, live, kids)
    ensures [] in ShapeOf(x, live, kids, root) && ShapeOf(x, live, kids, root)[[]] == InfoOf(m, root)
  {
    hide Folded, InfoOf, Unambiguous, Grew, ShapeOf;
    assert Rooted(root, kids, [root]);
    assert Names(x, live, [root]) == [];
    ShapeAt(x, live, kids, root, [root]);
  }

  /** Either a front of the trail was there with all before it, or it is new and inherits. */
  lemma FrontThere(x: Text, live: Live, m: Live, root: nat, keys: set<nat>, more: set<nat>, kids: map<nat, set<nat>>,
                   wide: map<nat, set<nat>>, parents: map<nat, nat>, trail: seq<nat>, n: nat)
    requires Grew(x, live, m, keys, more, kids, wide) && Family(root, keys, kids, parents) && root in keys && 0 < n < |trail|
             && trail[0] == root && Inherits(live, m, keys, trail) && Planted(keys, more, kids, wide, trail)
    requires Unambiguous(x, live, kids) && Unambiguous(x, m, wide) && Rooted(root, wide, trail)
    ensures var s, f := ShapeOf(x, live, kids, root), Names(x, m, trail);
            if f[..n] in s then s[f[..n]] == InfoOf(m, trail[n]) && forall g :: g <= f[..n] ==> g in s else InfoOf(m, trail[n]) == Heir(InfoOf(m, trail[n - 1]))
  {
    hide Folded, InfoOf, Unambiguous, Family, Grew, ShapeOf, Planted;
    var s, f := ShapeOf(x, live, kids, root), Names(x, m, trail);
    ChainFront(wide, trail, n + 1);
    NamesFront(x, m, trail, n + 1);
    if trail[n] in keys { FrontOld(x, live, m, root, keys, more, kids, wide, trail, n); }
    if f[..n] in s {
      var u := ShapeFrom(x, live, kids, root, f[..n]);
      GrewChain(x, live, m, root, keys, more, kids, wide, parents, u);
      OneTrail(x, m, wide, root, u, trail[..n + 1]);
      assert u[n] == trail[n];
      forall g | g <= f[..n] ensures g in s {
        ChainFront(kids, u, |g| + 1);
        NamesFront(x, live, u, |g| + 1);
        assert g == f[..n][..|g|];
        ShapeThere(x, live, kids, root, u[..|g| + 1]);
      }
    }
  }

  lemma FrontOld(x: Text, live: Live, m: Live, root: nat, keys: set<nat>, more: set<nat>, kids: map<nat, set<nat>>,
                 wide: map<nat, set<nat>>, trail: seq<nat>, n: nat)
    requires Grew(x, live, m, keys, more, kids, wide) && Planted(keys, more, kids, wide, trail) && n < |trail| && trail[0] == root
             && Rooted(root, wide, trail) && trail[n] in keys
    ensures Names(x, m, trail)[..n] in ShapeOf(x, live, kids, root)
  {
    hide InfoOf, ShapeOf, NameOf, Follows;
    var u := trail[..n + 1];
    ChainFront(wide, trail, n + 1);
    NamesFront(x, m, trail, n + 1);
    assert forall i :: 0 <= i < |u| ==> u[i] in Elements(trail);
    AllOld(keys, more, kids, wide, trail, u);
    forall i | 0 <= i < |u| - 1 ensures u[i] in kids && u[i + 1] in kids[u[i]] { assert u[i + 1] in wide[u[i]]; }
    assert Names(x, live, u) == Names(x, m, u);
    ShapeThere(x, live, kids, root, u);
  }

  /** Creating a path adds it and the paths on the way to it, and nothing else. */
  lemma CreatedShape(x: Text, live: Live, m: Live, root: nat, keys: set<nat>, more: set<nat>, kids: map<nat, set<nat>>,
                     wide: map<nat, set<nat>>, parents: map<nat, nat>, wider: map<nat, nat>, trail: seq<nat>)
    requires Grew(x, live, m, keys, more, kids, wide) && Family(root, keys, kids, parents) && Family(root, more, wide, wider)
             && root in keys && trail != [] && trail[0] == root
    requires Inherits(live, m, keys, trail) && Planted(keys, more, kids, wide, trail) && Unambiguous(x, live, kids)
             && Unambiguous(x, m, wide)
    ensures ShapeOf(x, m, wide, root) == Sow(ShapeOf(x, live, kids, root), Names(x, m, trail))
  {
    hide Folded, InfoOf, Unambiguous, Family, Grew, ShapeOf, Planted, Inherits, Sow;
    var n, f := |trail| - 1, Names(x, m, trail);
    var s, r, w := ShapeOf(x, live, kids, root), Sow(ShapeOf(x, live, kids, root), f), ShapeOf(x, m, wide, root);
    PlantedRooted(root, keys, more, kids, wide, trail);
    SownFront(x, live, m, root, keys, more, kids, wide, parents, trail, n);
    assert f[..n] == f;
    forall g | g in r ensures g in w && r[g] == w[g] {
      if g in s { OldShape(x, live, m, root, keys, more, kids, wide, parents, trail, g); } else { NewShape(x, m, root, wide, trail,
          |g|); assert g == f[..|g|]; }
    }
    forall g | g in w ensures g in r {
      var u := ShapeFrom(x, m, wide, root, g);
      OldOrPlanted(x, live, m, root, keys, more, kids, wide, wider, trail, u);
      if Rooted(root, kids, u) {
        GrewChain(x, live, m, root, keys, more, kids, wide, parents, u);
        ShapeThere(x, live, kids, root, u);
      } else {
        NamesFront(x, m, trail, |u|);
      }
    }
    SameShape(r, w);
  }

  lemma OldShape(x: Text, live: Live, m: Live, root: nat, keys: set<nat>, more: set<nat>, kids: map<nat, set<nat>>,
                 wide: map<nat, set<nat>>, parents: map<nat, nat>, trail: seq<nat>, g: seq<string>)
    requires Grew(x, live, m, keys, more, kids, wide) && Family(root, keys, kids, parents) && root in keys && Inherits(live, m, keys, trail)
             && Unambiguous(x, m, wide)
    requires g in ShapeOf(x, live, kids, root)
    ensures g in ShapeOf(x, m, wide, root) && ShapeOf(x, m, wide, root)[g] == ShapeOf(x, live, kids, root)[g]
  {
    hide Folded, InfoOf, Unambiguous, Family, Grew, ShapeOf;
    var u := ShapeFrom(x, live, kids, root, g);
    GrewChain(x, live, m, root, keys, more, kids, wide, parents, u);
    ShapeAt(x, m, wide, root, u);
  }

  lemma NewShape(x: Text, m: Live, root: nat, wide: map<nat, set<nat>>, trail: seq<nat>, n: nat)
    requires n < |trail| && Unambiguous(x, m, wide) && Rooted(root, wide, trail)
    ensures var g := Names(x, m, trail)[..n]; g in ShapeOf(x, m, wide, root) && ShapeOf(x, m, wide, root)[g] == InfoOf(m, trail[n])
  {
    hide Folded, InfoOf, Unambiguous, ShapeOf;
    ChainFront(wide, trail, n + 1);
    NamesFront(x, m, trail, n + 1);
    ShapeAt(x, m, wide, root, trail[..n + 1]);
  }

  // ----- security and commits

  /** A change of names and links leaves the trails; a key that is given a descriptor has it on its one path. */
  lemma SecuredShape(x: Text, live: Live, m: Live, root: nat, keys: set<nat>, kids: map<nat, set<nat>>, parents: map<nat, nat>,
                     trail: seq<nat>)
    requires Grew(x, live, m, keys, keys, kids, kids) && Family(root, keys, kids, parents) && root in keys && Rooted(root, kids, trail)
             && Unambiguous(x, live, kids) && Unambiguous(x, m, kids)
    requires Robed(live, m, keys - {trail[|trail| - 1]})
    ensures ShapeOf(x, m, kids, root) == ShapeOf(x, live, kids, root)[Names(x, live, trail) := InfoOf(m, trail[|trail| - 1])]
  {
    hide Folded, InfoOf, Unambiguous, Family, Grew, ShapeOf;
    var f := Names(x, live, trail);
    var s, w := ShapeOf(x, live, kids, root), ShapeOf(x, m, kids, root);
    var i := InfoOf(m, trail[|trail| - 1]);
    ShapeThere(x, live, kids, root, trail);
    forall g | g in w ensures g in s[f := i] && w[g] == s[f := i][g] {
      var u := ShapeFrom(x, m, kids, root, g);
      GrewChain(x, live, m, root, keys, keys, kids, kids, parents, u);
      ShapeAt(x, live, kids, root, u);
      if u[|g|] == trail[|trail| - 1] { OneWay(root, keys, kids, parents, u, trail); }
      if g == f { OneTrail(x, live, kids, root, u, trail); }
    }
    forall g | g in s ensures g in w {
      var u := ShapeFrom(x, live, kids, root, g);
      GrewChain(x, live, m, root, keys, keys, kids, kids, parents, u);
      ShapeThere(x, m, kids, root, u);
    }
    SameShape(w, s[f := i]);
  }

  lemma KeptShape(x: Text, live: Live, m: Live, root: nat, keys: set<nat>, kids: map<nat, set<nat>>, parents: map<nat, nat>)
    requires Grew(x, live, m, keys, keys, kids, kids) && Family(root, keys, kids, parents) && root in keys && Unambiguous(x, live, kids)
             && Robed(live, m, keys)
    ensures ShapeOf(x, m, kids, root) == ShapeOf(x, live, kids, root)
  {
    hide Folded, InfoOf, Unambiguous, Family, Grew, ShapeOf;
    var s, w := ShapeOf(x, live, kids, root), ShapeOf(x, m, kids, root);
    forall g | g in w ensures g in s && w[g] == s[g] {
      var u := ShapeFrom(x, m, kids, root, g);
      GrewChain(x, live, m, root, keys, keys, kids, kids, parents, u);
      ShapeAt(x, live, kids, root, u);
    }
    forall g | g in s ensures g in w {
      var u := ShapeFrom(x, live, kids, root, g);
      GrewChain(x, live, m, root, keys, keys, kids, kids, parents, u);
      ShapeThere(x, m, kids, root, u);
    }
    SameShape(w, s);
  }
}
