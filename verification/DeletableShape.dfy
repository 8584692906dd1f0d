/** Which paths of a hive at rest can be deleted, said of its names alone. */
module DeletableShape {
  import opened Bytes
  import opened HiveLayout
  import opened HiveImage
  import opened SecurityRing
  import opened SubkeyIndex
  import opened KeyDeletion
  import opened HiveBatch
  import opened KeyPaths
  import opened SubtreeRemoval
  import opened SubtreeDeletion
  import opened SubtreeLimits
  import opened NameTree
  import opened RemovablePaths

  /** At and below a path no key has volatile children, and there are at most 513 levels and 2^20 keys. */
  ghost predicate Compact(s: Shape, f: seq<string>) {
    && (forall g :: g in s && f <= g ==> s[g].volatile == 0 && |g| <= |f| + 512)
    && forall all: set<seq<string>> :: (forall g :: g in all ==> g in s && f <= g) ==> |all| <= 0x10_0000
  }

  ghost function Deletables(s: Shape): iset<seq<string>> { iset f | f != [] && f in s && Compact(s, f) }

  // ----- counting

  lemma {:induction false} InjectSize<A(!new), B(!new)>(a: set<A>, b: set<B>, f: A -> B)
    requires (forall x :: x in a ==> f(x) in b) && forall x, y :: x in a && y in a && f(x) == f(y) ==> x == y
    ensures |a| <= |b|
  {
    if a != {} {
      var x :| x in a;
      InjectSize(a - {x}, b - {f(x)}, f);
    }
  }

  // ----- keys below a key and paths below a path

  ghost function KeyAt(x: Text, live: Live, children: map<nat, set<nat>>, root: nat, g: seq<string>): nat {
    if There(x, live, children, root, g) then TrailTo(x, live, children, root, g)[|g|] else 0
  }

  /** The path of a key. */
  ghost function PathOf(x: Text, live: Live, children: map<nat, set<nat>>, root: nat, k: nat): seq<string> {
    if Below(children, root, k) then
      var v :| v != [] && v[0] == root && v[|v| - 1] == k && Chain(children, v);
      Names(x, live, v)
    else []
  }

  lemma PathOfTrail(x: Text, live: Live, root: nat, keys: set<nat>, children: map<nat, set<nat>>, parents: map<nat, nat>, v: seq<nat>)
    requires Family(root, keys, children, parents) && Rooted(root, children, v)
    ensures PathOf(x, live, children, root, v[|v| - 1]) == Names(x, live, v)
  {
    hide Family, Folded;
    var k := v[|v| - 1];
    assert Below(children, root, k);
    var w :| w != [] && w[0] == root && w[|w| - 1] == k && Chain(children, w) && PathOf(x, live, children, root, k) == Names(x, live, w);
    OneWay(root, keys, children, parents, v, w);
  }

  lemma KeyAtTrail(x: Text, live: Live, children: map<nat, set<nat>>, root: nat, v: seq<nat>)
    requires Unambiguous(x, live, children) && Rooted(root, children, v)
    ensures KeyAt(x, live, children, root, Names(x, live, v)) == v[|v| - 1]
  {
    hide Unambiguous, Folded;
    var g := Names(x, live, v);
    assert Reaches(x, live, children, root, g, v);
    OneTrail(x, live, children, root, v, TrailTo(x, live, children, root, g));
  }

  /** A key below the end of a trail has a path that continues the trail's. */
  lemma BelowPath(x: Text, live: Live, children: map<nat, set<nat>>, root: nat, u: seq<nat>, w: seq<nat>)
    requires Rooted(root, children, u) && ChainFrom(children, u[|u| - 1], w)
    ensures var v := u + w[1..];
              Rooted(root, children, v) && v[|v| - 1] == w[|w| - 1] && Names(x, live, u) <= Names(x, live, v)
              && |Names(x, live, v)| == |u| + |w| - 2
  {
    hide Folded, Chain;
    var v := u + w[1..];
    Rejoined(children, u, w);
    NamesFront(x, live, v, |u|);
    assert v[..|u|] == u;
  }

  lemma PathBelow(x: Text, live: Live, children: map<nat, set<nat>>, root: nat, u: seq<nat>, g: seq<string>) returns (v: seq<nat>)
    requires Unambiguous(x, live, children) && Rooted(root, children, u) && g in ShapeOf(x, live, children, root) && Names(x, live, u) <= g
    ensures Rooted(root, children, v) && Names(x, live, v) == g && |v| == |g| + 1 && |u| <= |v|
            && ChainFrom(children, u[|u| - 1], v[|u| - 1..]) && v[..|u|] == u
    ensures ShapeOf(x, live, children, root)[g] == InfoOf(live, v[|g|])
  {
    hide Folded, Unambiguous, ShapeOf, InfoOf;
    v := ShapeFrom(x, live, children, root, g);
    var n := |u|;
    ChainFront(children, v, n);
    NamesFront(x, live, v, n);
    OneTrail(x, live, children, root, v[..n], u);
    var w := v[n - 1..];
    forall i | 0 <= i < |w| - 1 ensures w[i] in children && w[i + 1] in children[w[i]] {
      assert w[i] == v[n - 1 + i] && w[i + 1] == v[n + i];
    }
    assert v[n - 1] == v[..n][n - 1];
  }

  lemma ChainEnds(children: map<nat, set<nat>>, top: nat, w: seq<nat>)
    requires ChainFrom(children, top, w)
    ensures Below(children, top, w[|w| - 1])
  {
  }

  // ----- quiet and small

  lemma QuietCompact(x: Text, live: Live, root: nat, keys: set<nat>, children: map<nat, set<nat>>, parents: map<nat, nat>,
                     batches: map<nat, Batch>, u: seq<nat>)
    requires Family(root, keys, children, parents) && root in keys && Unambiguous(x, live, children) && Rooted(root, children, u)
             && Quiet(live, children, batches, u[|u| - 1])
    ensures Compact(ShapeOf(x, live, children, root), Names(x, live, u))
  {
    hide Family, Unambiguous, Folded, ShapeOf, Chain, BelowSet, Below, Stable, InfoOf, KeyAt;
    var s, f, top := ShapeOf(x, live, children, root), Names(x, live, u), u[|u| - 1];
    forall g | g in s && f <= g ensures s[g].volatile == 0 && |g| <= |f| + 512 {
      var v := PathBelow(x, live, children, root, u, g);
      ChainEnds(children, top, v[|u| - 1..]);
      assert v[|u| - 1..][|v[|u| - 1..]| - 1] == v[|g|];
      StableInfo(live, v[|g|]);
    }
    forall all: set<seq<string>> | forall g :: g in all ==> g in s && f <= g ensures |all| <= 0x10_0000 {
      forall g | g in all ensures KeyAt(x, live, children, root, g) in BelowSet(children, top) {
        KeyInside(x, live, root, keys, children, parents, u, g);
      }
      forall g, h | g in all && h in all && KeyAt(x, live, children, root, g) == KeyAt(x, live, children, root, h) ensures g == h {
        var v := ShapeFrom(x, live, children, root, g);
        var w := ShapeFrom(x, live, children, root, h);
        KeyAtTrail(x, live, children, root, v);
        KeyAtTrail(x, live, children, root, w);
        OneWay(root, keys, children, parents, v, w);
      }
      InjectSize(all, BelowSet(children, top), g => KeyAt(x, live, children, root, g));
    }
  }

  lemma KeyInside(x: Text, live: Live, root: nat, keys: set<nat>, children: map<nat, set<nat>>, parents: map<nat, nat>, u: seq<nat>,
                  g: seq<string>)
    requires Family(root, keys, children, parents) && root in keys && Unambiguous(x, live, children) && Rooted(root, children, u)
    requires g in ShapeOf(x, live, children, root) && Names(x, live, u) <= g
    ensures KeyAt(x, live, children, root, g) in BelowSet(children, u[|u| - 1])
  {
    hide Family, Unambiguous, Folded, ShapeOf, Chain, Below, KeyAt;
    var v := PathBelow(x, live, children, root, u, g);
    var w := v[|u| - 1..];
    ChainEnds(children, u[|u| - 1], w);
    assert w[|w| - 1] == v[|g|];
    KeyAtTrail(x, live, children, root, v);
    RootedKeys(root, keys, children, parents, v);
    FamilyDomain(root, keys, children, parents);
  }

  lemma CompactQuiet(x: Text, a: State, minor: nat, root: nat, u: seq<nat>)
    requires Owns(a.live, minor, a.ring, a.keys, a.nodes) && Family(root, a.keys, a.children, a.parents) && root in a.keys
             && Unambiguous(x, a.live, a.children)
             && Rooted(root, a.children, u)
    requires (forall k :: !IsDirty(a.batches, k)) && Compact(ShapeOf(x, a.live, a.children, root), Names(x, a.live, u))
    ensures Quiet(a.live, a.children, a.batches, u[|u| - 1])
  {
    hide Owns, Family, Unambiguous, Folded, ShapeOf, Chain, BelowSet, Below, Stable, InfoOf, PathOf, IsDirty;
    var s, f, top := ShapeOf(x, a.live, a.children, root), Names(x, a.live, u), u[|u| - 1];
    RootedKeys(root, a.keys, a.children, a.parents, u);
    forall w | ChainFrom(a.children, top, w) ensures |w| <= 513 {
      BelowPath(x, a.live, a.children, root, u, w);
      ShapeAt(x, a.live, a.children, root, u + w[1..]);
    }
    forall k | Below(a.children, top, k) ensures !IsDirty(a.batches, k) && Stable(a.live, k) {
      var g := PathOf(x, a.live, a.children, root, k);
      PathInside(x, a.live, root, a.keys, a.children, a.parents, u, k);
      BelowKeys(root, a.keys, a.children, a.parents, top, k);
      OwnsAt(a.live, minor, a.ring, a.keys, a.nodes, k);
      StableInfo(a.live, k);
    }
    CompactSize(x, a.live, root, a.keys, a.children, a.parents, u);
  }

  lemma PathInside(x: Text, live: Live, root: nat, keys: set<nat>, children: map<nat, set<nat>>, parents: map<nat, nat>, u: seq<nat>,
                   k: nat)
    requires Family(root, keys, children, parents) && Unambiguous(x, live, children) && Rooted(root, children, u)
             && Below(children, u[|u| - 1], k)
    ensures var g, s := PathOf(x, live, children, root, k), ShapeOf(x, live, children, root);
            Names(x, live, u) <= g && g in s && s[g] == InfoOf(live, k) && KeyAt(x, live, children, root, g) == k
  {
    hide Family, Unambiguous, Folded, ShapeOf, Chain, InfoOf, PathOf, KeyAt;
    var w :| w != [] && w[0] == u[|u| - 1] && w[|w| - 1] == k && Chain(children, w);
    BelowPath(x, live, children, root, u, w);
    var v := u + w[1..];
    PathOfTrail(x, live, root, keys, children, parents, v);
    ShapeAt(x, live, children, root, v);
    KeyAtTrail(x, live, children, root, v);
  }

  lemma CompactSize(x: Text, live: Live, root: nat, keys: set<nat>, children: map<nat, set<nat>>, parents: map<nat, nat>, u: seq<nat>)
    requires Family(root, keys, children, parents) && Unambiguous(x, live, children) && Rooted(root, children, u)
             && Compact(ShapeOf(x, live, children, root), Names(x, live, u))
    ensures |BelowSet(children, u[|u| - 1])| <= 0x10_0000
  {
    hide Family, Unambiguous, Folded, ShapeOf, Chain, InfoOf, PathOf, KeyAt, Below;
    var s, f, top := ShapeOf(x, live, children, root), Names(x, live, u), u[|u| - 1];
    var below := BelowSet(children, top);
    var all := set k | k in below :: PathOf(x, live, children, root, k);
    forall g | g in all ensures g in s && f <= g {
      var k :| k in below && g == PathOf(x, live, children, root, k);
      PathInside(x, live, root, keys, children, parents, u, k);
    }
    forall j, k | j in below && k in below && PathOf(x, live, children, root, j) == PathOf(x, live, children, root, k) ensures j == k {
      PathInside(x, live, root, keys, children, parents, u, j);
      PathInside(x, live, root, keys, children, parents, u, k);
    }
    InjectSize(below, all, k => PathOf(x, live, children, root, k));
  }

  /** In a hive at rest a path can be deleted exactly if it is there and what lies below it is small. */
  lemma RemovableIsDeletable(x: Text, a: State, minor: nat, root: nat, f: seq<string>)
    requires Owns(a.live, minor, a.ring, a.keys, a.nodes) && Family(root, a.keys, a.children, a.parents) && root in a.keys
             && Unambiguous(x, a.live, a.children)
             && forall k :: !IsDirty(a.batches, k)
    ensures Removable(x, a.live, a.children, a.batches, root, f) <==> f in Deletables(ShapeOf(x, a.live, a.children, root))
  {
    hide Owns, Family, Unambiguous, Folded, ShapeOf, Chain, Quiet, Compact, IsDirty, Removable;
    if Removable(x, a.live, a.children, a.batches, root, f) {
      var u := RemovableTrail(x, a.live, a.children, a.batches, root, f);
      RemovableAt(x, a.live, a.children, a.batches, root, u);
      ShapeThere(x, a.live, a.children, root, u);
      QuietCompact(x, a.live, root, a.keys, a.children, a.parents, a.batches, u);
    }
    if f in Deletables(ShapeOf(x, a.live, a.children, root)) {
      var u := ShapeFrom(x, a.live, a.children, root, f);
      CompactQuiet(x, a, minor, root, u);
      RemovableAt(x, a.live, a.children, a.batches, root, u);
    }
  }
}
