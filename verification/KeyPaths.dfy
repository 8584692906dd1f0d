/** Chains of pending children. */
module KeyPaths {
  import opened HiveLayout
  import opened HiveBatch

  /** Each cell is a pending child of the one before. */
  ghost predicate Chain(children: map<nat, set<nat>>, trail: seq<nat>) {
    forall i :: 0 <= i < |trail| - 1 ==> trail[i] in children && trail[i + 1] in children[trail[i]]
  }

  /** A key is another one, or pending somewhere below it. */
  ghost predicate Below(children: map<nat, set<nat>>, top: nat, k: nat) {
    exists trail :: trail != [] && trail[0] == top && trail[|trail| - 1] == k && Chain(children, trail)
  }

  lemma BelowSelf(children: map<nat, set<nat>>, k: nat)
    ensures Below(children, k, k)
  {
    assert Chain(children, [k]);
    assert [k][0] == k;
  }

  lemma BelowStep(children: map<nat, set<nat>>, top: nat, k: nat, c: nat)
    requires Below(children, top, k) && k in children && c in children[k]
    ensures Below(children, top, c)
  {
    var trail :| trail != [] && trail[0] == top && trail[|trail| - 1] == k && Chain(children, trail);
    var more := trail + [c];
    assert Chain(children, more) && more[0] == top && more[|more| - 1] == c;
  }

  lemma BelowOpen(children: map<nat, set<nat>>, top: nat, k: nat)
    requires Below(children, top, k)
    ensures k == top || exists p :: Below(children, top, p) && p in children && k in children[p]
  {
    var trail :| trail != [] && trail[0] == top && trail[|trail| - 1] == k && Chain(children, trail);
    if |trail| > 1 {
      var n := |trail| - 1;
      var front := trail[..n];
      assert Chain(children, front) && front[0] == top && front[|front| - 1] == trail[n - 1];
      assert trail[n - 1] in children && k in children[trail[n - 1]];
    }
  }

  lemma BelowThen(children: map<nat, set<nat>>, top: nat, mid: nat, k: nat)
    requires Below(children, top, mid) && Below(children, mid, k)
    ensures Below(children, top, k)
  {
    var a :| a != [] && a[0] == top && a[|a| - 1] == mid && Chain(children, a);
    var b :| b != [] && b[0] == mid && b[|b| - 1] == k && Chain(children, b);
    var c := a + b[1..];
    forall i | 0 <= i < |c| - 1 ensures c[i] in children && c[i + 1] in children[c[i]] {
      if i >= |a| - 1 { assert c[i] == b[i - (|a| - 1)] && c[i + 1] == b[i + 1 - (|a| - 1)]; }
    }
    assert c[0] == top && c[|c| - 1] == k && Chain(children, c);
  }

  lemma {:induction false} Closed(children: map<nat, set<nat>>, cells: seq<nat>, trail: seq<nat>)
    requires Chain(children, trail) && trail != [] && trail[0] in cells && forall k, c ::
               k in cells && k in children && c in children[k] ==> c in cells
    ensures trail[|trail| - 1] in cells
  {
    var n := |trail| - 1;
    if n > 0 {
      Closed(children, cells, trail[..n]);
      assert trail[n - 1] in children && trail[n] in children[trail[n - 1]];
    }
  }

  // ----- chains from the root

  /** A chain that starts at the root. */
  ghost predicate Rooted(root: nat, children: map<nat, set<nat>>, trail: seq<nat>) { trail != [] && trail[0] == root
                         && Chain(children, trail) }

  lemma ChainFront(children: map<nat, set<nat>>, trail: seq<nat>, n: nat)
    requires Chain(children, trail) && n <= |trail|
    ensures Chain(children, trail[..n])
  {
    var front := trail[..n];
    forall i | 0 <= i < |front| - 1 ensures front[i] in children && front[i + 1] in children[front[i]] {
      assert front[i] == trail[i] && front[i + 1] == trail[i + 1];
    }
  }

  lemma ChainMore(children: map<nat, set<nat>>, trail: seq<nat>, c: nat)
    requires Chain(children, trail) && trail != [] && trail[|trail| - 1] in children && c in children[trail[|trail| - 1]]
    ensures Chain(children, trail + [c])
  {
    var more := trail + [c];
    forall i | 0 <= i < |more| - 1 ensures more[i] in children && more[i + 1] in children[more[i]] { assert more[i] == trail[i]; }
  }

  /** Only one chain leads from the root to a key. */
  lemma {:induction false} OneWay(root: nat, keys: set<nat>, children: map<nat, set<nat>>, parents: map<nat, nat>, u: seq<nat>, v: seq<nat>)
    requires Family(root, keys, children, parents) && Rooted(root, children, u) && Rooted(root, children, v) && u[|u| - 1] == v[|v| - 1]
    ensures u == v
    decreases |u|
  {
    var n, m := |u| - 1, |v| - 1;
    if n > 0 { FamilyAt(root, keys, children, parents, u[n - 1], u[n]); }
    if m > 0 { FamilyAt(root, keys, children, parents, v[m - 1], v[m]); }
    if n > 0 && m > 0 {
      ChainFront(children, u, n);
      ChainFront(children, v, m);
      OneWay(root, keys, children, parents, u[..n], v[..m]);
      assert u == u[..n] + [u[n]] && v == v[..m] + [v[m]];
    }
  }

  /** No key comes twice on a chain from the root. */
  lemma RootedDistinct(root: nat, keys: set<nat>, children: map<nat, set<nat>>, parents: map<nat, nat>, trail: seq<nat>)
    requires Family(root, keys, children, parents) && Rooted(root, children, trail)
    ensures forall i, j :: 0 <= i < j < |trail| ==> trail[i] != trail[j]
  {
    hide Family;
    forall i, j | 0 <= i < j < |trail| ensures trail[i] != trail[j] {
      ChainFront(children, trail, i + 1);
      ChainFront(children, trail, j + 1);
      if trail[i] == trail[j] { OneWay(root, keys, children, parents, trail[..i + 1], trail[..j + 1]); }
    }
  }

  lemma RootedKeys(root: nat, keys: set<nat>, children: map<nat, set<nat>>, parents: map<nat, nat>, trail: seq<nat>)
    requires Family(root, keys, children, parents) && Rooted(root, children, trail) && root in keys
    ensures forall i :: 0 <= i < |trail| ==> trail[i] in keys
  {
    forall i | 0 < i < |trail| ensures trail[i] in keys { FamilyAt(root, keys, children, parents, trail[i - 1], trail[i]); }
  }

  /** What lies below two different children of a key is different, and none of it is the key. */
  lemma BelowApart(root: nat, keys: set<nat>, children: map<nat, set<nat>>, parents: map<nat, nat>, trail: seq<nat>, a: nat, b: nat, k: nat)
    requires Family(root, keys, children, parents) && Rooted(root, children, trail) && Below(children, a, k)
    requires var p := trail[|trail| - 1]; p in children && a in children[p] && b in children[p]
    ensures k != trail[|trail| - 1] && (Below(children, b, k) ==> a == b)
  {
    hide Family;
    var u :| u != [] && u[0] == a && u[|u| - 1] == k && Chain(children, u);
    ChainCat(children, trail, u);
    if k == trail[|trail| - 1] { OneWay(root, keys, children, parents, trail + u, trail); }
    if Below(children, b, k) {
      var v :| v != [] && v[0] == b && v[|v| - 1] == k && Chain(children, v);
      ChainCat(children, trail, v);
      OneWay(root, keys, children, parents, trail + u, trail + v);
      assert (trail + u)[|trail|] == a && (trail + v)[|trail|] == b;
    }
  }

  lemma ChainCat(children: map<nat, set<nat>>, a: seq<nat>, b: seq<nat>)
    requires Chain(children, a) && Chain(children, b) && a != [] && b != [] && a[|a| - 1] in children && b[0] in children[a[|a| - 1]]
    ensures Chain(children, a + b)
  {
    var c := a + b;
    forall i | 0 <= i < |c| - 1 ensures c[i] in children && c[i + 1] in children[c[i]] {
      if i >= |a| { assert c[i] == b[i - |a|] && c[i + 1] == b[i + 1 - |a|]; }
    }
  }

  /** A trail that meets a key below another one passes that one. */
  lemma Passes(root: nat, keys: set<nat>, children: map<nat, set<nat>>, parents: map<nat, nat>, trail: seq<nat>, u: seq<nat>, i: nat)
    requires Family(root, keys, children, parents) && Rooted(root, children, trail) && Rooted(root, children, u) && i < |u|
             && Below(children, trail[|trail| - 1], u[i])
    ensures |trail| <= i + 1 && u[..|trail|] == trail
  {
    hide Family;
    var top := trail[|trail| - 1];
    var w :| w != [] && w[0] == top && w[|w| - 1] == u[i] && Chain(children, w);
    ChainFront(children, u, i + 1);
    if |w| == 1 {
      OneWay(root, keys, children, parents, u[..i + 1], trail);
    } else {
      var n := |trail| - 1;
      assert Chain(children, w[1..]) by { forall j | 0 <= j < |w[1..]| - 1 ensures w[1..][j] in children
          && w[1..][j + 1] in children[w[1..][j]] { assert w[1..][j] == w[j + 1] && w[1..][j + 1] == w[j + 2]; } }
      assert w[0] in children && w[1] in children[w[0]];
      ChainCat(children, trail, w[1..]);
      OneWay(root, keys, children, parents, u[..i + 1], trail + w[1..]);
      assert u[..|trail|] == u[..i + 1][..|trail|];
    }
  }

  lemma ChainFirst(children: map<nat, set<nat>>, u: seq<nat>)
    requires Chain(children, u) && |u| > 1
    ensures u[0] in children && u[1] in children[u[0]]
  {
  }

  lemma ChainTail(children: map<nat, set<nat>>, u: seq<nat>)
    requires Chain(children, u) && u != []
    ensures Chain(children, u[1..])
  {
    var v := u[1..];
    forall i | 0 <= i < |v| - 1 ensures v[i] in children && v[i + 1] in children[v[i]] { assert v[i] == u[i + 1] && v[i + 1] == u[i + 2]; }
  }

  lemma Rejoined(children: map<nat, set<nat>>, u: seq<nat>, w: seq<nat>)
    requires Chain(children, u) && Chain(children, w) && u != [] && w != [] && w[0] == u[|u| - 1]
    ensures Chain(children, u + w[1..])
  {
    if |w| == 1 {
      assert u + w[1..] == u;
    } else {
      ChainTail(children, w);
      ChainFirst(children, w);
      ChainCat(children, u, w[1..]);
    }
  }

  /** A chain that goes on from one of the root's does not come back. */
  lemma NoReturn(root: nat, keys: set<nat>, children: map<nat, set<nat>>, parents: map<nat, nat>, trail: seq<nat>, v: seq<nat>, i: nat)
    requires Family(root, keys, children, parents) && Rooted(root, children, trail) && Chain(children, v) && 0 < i < |v|
             && v[0] == trail[|trail| - 1]
    ensures v[i] != v[0]
  {
    hide Family;
    if v[i] == v[0] {
      var w := v[1..i + 1];
      forall j | 0 <= j < |w| - 1 ensures w[j] in children && w[j + 1] in children[w[j]] { assert w[j] == v[j + 1] && w[j + 1] == v[j + 2]; }
      assert v[0] in children && v[1] in children[v[0]];
      ChainCat(children, trail, w);
      OneWay(root, keys, children, parents, trail + w, trail);
    }
  }

  // ----- all keys

  lemma BelowTrail(children: map<nat, set<nat>>, top: nat, k: nat) returns (v: seq<nat>)
    requires Below(children, top, k)
    ensures v != [] && v[0] == top && v[|v| - 1] == k && Chain(children, v)
  {
    v :| v != [] && v[0] == top && v[|v| - 1] == k && Chain(children, v);
  }

  lemma BelowTail(children: map<nat, set<nat>>, v: seq<nat>, i: nat)
    requires Chain(children, v) && i < |v|
    ensures Below(children, v[i], v[|v| - 1])
  {
    var w := v[i..];
    forall j | 0 <= j < |w| - 1 ensures w[j] in children && w[j + 1] in children[w[j]] { assert w[j] == v[i + j] && w[j + 1] == v[i + j + 1]; }
    assert w != [] && w[0] == v[i] && w[|w| - 1] == v[|v| - 1] && Chain(children, w);
  }

  lemma ChainIsBelow(children: map<nat, set<nat>>, v: seq<nat>)
    requires Chain(children, v) && v != []
    ensures Below(children, v[0], v[|v| - 1])
  {
  }

  lemma BelowKeys(root: nat, keys: set<nat>, children: map<nat, set<nat>>, parents: map<nat, nat>, top: nat, k: nat)
    requires Family(root, keys, children, parents) && top in keys && Below(children, top, k)
    ensures k in keys
  {
    hide Family, Below;
    FamilyDomain(root, keys, children, parents);
    BelowOpen(children, top, k);
    if k != top {
      var p :| Below(children, top, p) && p in children && k in children[p];
      FamilyAt(root, keys, children, parents, p, k);
    }
  }

  /** The keys at and below a key. */
  ghost function BelowSet(children: map<nat, set<nat>>, top: nat): set<nat> { set k | k in children && Below(children, top, k) }

  /** Every key can be reached from the root, and no list names anything but keys. */
  ghost predicate Intact(root: nat, keys: set<nat>, children: map<nat, set<nat>>) {
    && root in keys && keys == BelowSet(children, root)
    && forall k, c :: k in keys && k in children && c in children[k] ==> c in keys
  }
}
