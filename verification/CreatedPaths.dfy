/** Where the creation of a path lands among the names that are there. */
module CreatedPaths {
  import opened Bytes
  import opened HiveLayout
  import opened HiveImage
  import opened SecurityRing
  import opened SubkeyIndex
  import opened KeyDeletion
  import opened HiveBatch
  import opened KeyPaths
  import opened NameTree

  /** The path that is there after a creation, from a path on: a part that is there is followed, another one is added under the name it
    * can be
    * read by; there is none if that name is taken. */
  ghost function Landing(x: Text, s: Shape, at: seq<string>, parts: seq<string>): Option<seq<string>>
    decreases |parts|
  {
    if parts == [] then Some(at)
    else if at + [x.fold(parts[0])] in s then Landing(x, s, at + [x.fold(parts[0])], parts[1..])
    else if at + [x.fold(Readable(x, parts[0]))] in s then None
    else Landing(x, s, at + [x.fold(Readable(x, parts[0]))], parts[1..])
  }

  /** Names that fold as they do when they are read back. */
  predicate Legible(x: Text, parts: seq<string>) { forall s :: s in parts ==> x.fold(Readable(x, s)) == x.fold(s) }

  /** A path of such names is always created, and just where it was asked for. */
  lemma {:induction false} LegibleLands(x: Text, s: Shape, at: seq<string>, parts: seq<string>)
    requires Legible(x, parts)
    ensures Landing(x, s, at, parts) == Some(at + FoldAll(x, parts))
    decreases |parts|
  {
    hide Readable;
    if parts == [] {
      assert at + FoldAll(x, parts) == at;
    } else {
      var f := x.fold(parts[0]);
      assert parts[0] in parts && forall p :: p in parts[1..] ==> p in parts;
      LegibleLands(x, s, at + [f], parts[1..]);
      assert at + [f] + FoldAll(x, parts[1..]) == at + FoldAll(x, parts);
    }
  }

  /** A name that lands elsewhere is one that is not read back as it was given. */
  lemma LandsElsewhere(x: Text, s: Shape, at: seq<string>, part: string)
    ensures Landing(x, s, at, [part]) == Some(at + [x.fold(part)]) <==>
              at + [x.fold(part)] in s || x.fold(Readable(x, part)) == x.fold(part)
  {
    hide Readable;
    var f, r := at + [x.fold(part)], at + [x.fold(Readable(x, part))];
    assert [part][1..] == [];
    assert f == r <==> f[|at|] == r[|at|];
  }

  // ----- the trail of a creation

  /** A path that was there one step beyond a trail leads to a child of the trail's key. */
  lemma StepBeyond(x: Text, a: State, b: State, root: nat, trail: seq<nat>, i: nat, name: string)
    requires Grew(x, a.live, b.live, a.keys, b.keys, a.children, b.children) && Family(root, a.keys, a.children, a.parents)
             && root in a.keys && Unambiguous(x, b.live, b.children)
             && Rooted(root, b.children, trail) && i < |trail|
    requires Names(x, b.live, trail)[..i] + [name] in ShapeOf(x, a.live, a.children, root)
    ensures trail[i] in a.children && !Unused(x, a.live, a.children[trail[i]], name)
  {
    hide Folded, Unambiguous, Family, Grew, ShapeOf, Chain;
    var f := Names(x, b.live, trail)[..i] + [name];
    var u := ShapeFrom(x, a.live, a.children, root, f);
    GrewChain(x, a.live, b.live, root, a.keys, b.keys, a.children, b.children, a.parents, u);
    ChainFront(b.children, u, i + 1);
    ChainFront(b.children, trail, i + 1);
    NamesFront(x, b.live, u, i + 1);
    NamesFront(x, b.live, trail, i + 1);
    assert Names(x, b.live, u)[..i] == f[..i] == Names(x, b.live, trail)[..i];
    OneTrail(x, b.live, b.children, root, u[..i + 1], trail[..i + 1]);
    ChainLast(a.children, u, i);
    assert u[i] == u[..i + 1][i] == trail[i];
    assert Folded(x, a.live, u[i + 1]) == f[i] == name;
  }

  lemma NotThere(x: Text, a: State, b: State, root: nat, trail: seq<nat>, i: nat, name: string)
    requires Grew(x, a.live, b.live, a.keys, b.keys, a.children, b.children) && Family(root, a.keys, a.children, a.parents)
             && root in a.keys && Unambiguous(x, b.live, b.children)
             && Rooted(root, b.children, trail) && i < |trail|
    requires trail[i] in a.children ==> Unused(x, a.live, a.children[trail[i]], name)
    ensures Names(x, b.live, trail)[..i] + [name] !in ShapeOf(x, a.live, a.children, root)
  {
    hide Folded, Unambiguous, Family, Grew, ShapeOf, Chain, Unused;
    if Names(x, b.live, trail)[..i] + [name] in ShapeOf(x, a.live, a.children, root) {
      StepBeyond(x, a, b, root, trail, i, name);
    }
  }

  lemma ChainLast(kids: map<nat, set<nat>>, u: seq<nat>, i: nat)
    requires Chain(kids, u) && i + 1 < |u|
    ensures u[i] in kids && u[i + 1] in kids[u[i]]
  {
  }

  /** The part of a trail that was there before. */
  lemma OldFront(x: Text, a: State, b: State, root: nat, trail: seq<nat>, n: nat)
    requires Grew(x, a.live, b.live, a.keys, b.keys, a.children, b.children) && Planted(a.keys, b.keys, a.children, b.children, trail)
             && Rooted(root, b.children, trail) && n < |trail|
             && trail[n] in a.keys
    ensures Names(x, b.live, trail)[..n] in ShapeOf(x, a.live, a.children, root)
  {
    hide Folded, ShapeOf, NameOf;
    OldAll(a.keys, b.keys, a.children, b.children, trail, n);
    var u := trail[..n + 1];
    forall i | 0 <= i < |u| - 1 ensures u[i] in a.children && u[i + 1] in a.children[u[i]] {
      assert u[i] == trail[i] && u[i + 1] == trail[i + 1] && trail[i + 1] in b.children[trail[i]];
    }
    NamesFront(x, b.live, trail, n + 1);
    assert Names(x, a.live, u) == Names(x, b.live, u) by { FoldedOld(x, a, b, u); }
    ShapeThere(x, a.live, a.children, root, u);
  }

  lemma FoldedOld(x: Text, a: State, b: State, u: seq<nat>)
    requires Grew(x, a.live, b.live, a.keys, b.keys, a.children, b.children) && u != [] && forall i :: 0 <= i < |u| ==> u[i] in a.keys
    ensures Names(x, a.live, u) == Names(x, b.live, u)
  {
    hide NameOf;
  }

  lemma {:induction false} OldAll(keys: set<nat>, more: set<nat>, kids: map<nat, set<nat>>, wide: map<nat, set<nat>>, trail: seq<nat>,
                          n: nat)
    requires Planted(keys, more, kids, wide, trail) && n < |trail| && trail[n] in keys
    ensures forall i :: 0 <= i <= n ==> trail[i] in keys
  {
    if n > 0 { OldAll(keys, more, kids, wide, trail, n - 1); }
  }

  /** A creation that went through has landed at the names of its trail. */
  lemma {:induction false} LandingDone(x: Text, a: State, b: State, root: nat, trail: seq<nat>, parts: seq<string>, i: nat)
    requires Grew(x, a.live, b.live, a.keys, b.keys, a.children, b.children) && Family(root, a.keys, a.children, a.parents)
             && root in a.keys && Unambiguous(x, b.live, b.children)
             && Rooted(root, b.children, trail)
    requires Planted(a.keys, b.keys, a.children, b.children, trail) && Carries(x, b.live, a.keys, trail, parts)
             && Passable(x, a.live, a.children, a.nodes, a.batches, trail, parts) && i <= |parts|
    ensures Landing(x, ShapeOf(x, a.live, a.children, root), Names(x, b.live, trail)[..i], parts[i..]) == Some(Names(x, b.live, trail))
    decreases |parts| - i
  {
    hide Folded, Unambiguous, Family, Grew, ShapeOf, Chain, Readable, Planted, Unused, Stuck, Carries, Passable;
    var s, f := ShapeOf(x, a.live, a.children, root), Names(x, b.live, trail);
    CarriesLength(x, b.live, a.keys, trail, parts);
    if i == |parts| {
      assert f[..i] == f;
    } else {
      LandingDone(x, a, b, root, trail, parts, i + 1);
      assert parts[i..][1..] == parts[i + 1..] && parts[i..][0] == parts[i];
      assert f[..i + 1] == f[..i] + [f[i]];
      LandingStep(x, a, b, root, trail, parts, i);
    }
  }

  lemma CarriesLength(x: Text, m: Live, keys: set<nat>, trail: seq<nat>, parts: seq<string>)
    requires Carries(x, m, keys, trail, parts)
    ensures |trail| == |parts| + 1
  {
  }

  lemma LandingStep(x: Text, a: State, b: State, root: nat, trail: seq<nat>, parts: seq<string>, i: nat)
    requires Grew(x, a.live, b.live, a.keys, b.keys, a.children, b.children) && Family(root, a.keys, a.children, a.parents)
             && root in a.keys && Unambiguous(x, b.live, b.children)
             && Rooted(root, b.children, trail)
    requires Planted(a.keys, b.keys, a.children, b.children, trail) && Carries(x, b.live, a.keys, trail, parts)
             && Passable(x, a.live, a.children, a.nodes, a.batches, trail, parts) && i < |parts|
    ensures |trail| == |parts| + 1
    ensures var s, f := ShapeOf(x, a.live, a.children, root), Names(x, b.live, trail);
            if f[..i] + [x.fold(parts[i])] in s then f[i] == x.fold(parts[i])
            else f[i] == x.fold(Readable(x, parts[i])) && f[..i] + [f[i]] !in s
  {
    hide Folded, Unambiguous, Family, Grew, ShapeOf, Chain, Readable, Planted, Unused, Unloadable;
    var s, f := ShapeOf(x, a.live, a.children, root), Names(x, b.live, trail);
    FamilyDomain(root, a.keys, a.children, a.parents);
    assert Permitted(x, a.live, a.children, a.nodes, a.batches, trail[i], parts[i], trail[i + 1]);
    if trail[i + 1] in a.keys {
      OldFront(x, a, b, root, trail, i + 1);
      assert f[..i + 1] == f[..i] + [f[i]];
    } else {
      NotThere(x, a, b, root, trail, i, x.fold(parts[i]));
      NotThere(x, a, b, root, trail, i, x.fold(Readable(x, parts[i])));
    }
  }

  /** A creation that was refused has nowhere to land. */
  lemma {:induction false} LandingNone(x: Text, a: State, root: nat, trail: seq<nat>, parts: seq<string>, i: nat)
    requires Family(root, a.keys, a.children, a.parents) && root in a.keys && Unambiguous(x, a.live, a.children)
             && Blocked(x, a.live, a.children, a.nodes, a.batches, trail, parts) && trail[0] == root && i < |trail|
    requires !Unloadable(x, a.live, a.nodes, a.batches, trail[|trail| - 1])
    ensures Landing(x, ShapeOf(x, a.live, a.children, root), Names(x, a.live, trail)[..i], parts[i..]) == None
    decreases |trail| - i
  {
    hide Folded, Unambiguous, Family, ShapeOf, Chain, Readable, Unloadable, Unused, Path;
    var s, f, n := ShapeOf(x, a.live, a.children, root), Names(x, a.live, trail), |trail| - 1;
    PathIs(x, a.live, a.children, trail, parts[..n]);
    assert parts[i..][1..] == parts[i + 1..] && parts[i..][0] == parts[i];
    if i < n {
      LandingNone(x, a, root, trail, parts, i + 1);
      assert f[..i + 1] == f[..i] + [f[i]] && f[i] == x.fold(parts[i]);
      ChainFront(a.children, trail, i + 2);
      NamesFront(x, a.live, trail, i + 2);
      ShapeThere(x, a.live, a.children, root, trail[..i + 2]);
    } else {
      StuckHere(x, a, root, trail, parts[n]);
      assert f[..i] == f;
    }
  }

  lemma StuckHere(x: Text, a: State, root: nat, trail: seq<nat>, name: string)
    requires Family(root, a.keys, a.children, a.parents) && root in a.keys && Unambiguous(x, a.live, a.children)
             && Rooted(root, a.children, trail)
    requires trail[|trail| - 1] in a.children && !Placeable(x, a.live, a.children[trail[|trail| - 1]], name)
    ensures var s, f := ShapeOf(x, a.live, a.children, root), Names(x, a.live, trail);
              f + [x.fold(name)] !in s && f + [x.fold(Readable(x, name))] in s
  {
    hide Folded, Unambiguous, Family, ShapeOf, Readable;
    var f, n := Names(x, a.live, trail), |trail| - 1;
    FamilyDomain(root, a.keys, a.children, a.parents);
    GrewStart(x, a.live, a.keys, a.children);
    NotThere(x, a, a, root, trail, n, x.fold(name));
    assert f[..n] == f;
    var c :| c in a.children[trail[n]] && Folded(x, a.live, c) == x.fold(Readable(x, name));
    ChainMore(a.children, trail, c);
    assert Names(x, a.live, trail + [c]) == f + [x.fold(Readable(x, name))];
    ShapeThere(x, a.live, a.children, root, trail + [c]);
  }
}
