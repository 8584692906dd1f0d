/** How much room the lists of a commit may take. */
module CommitSize {
  import opened Bytes
  import opened HiveLayout
  import opened HiveImage
  import opened SecurityRing
  import opened SubkeyIndex
  import opened KeyDeletion
  import opened HiveBatch
  import opened HiveCommit

  /** The children of some keys. */
  ghost function KidsOf(children: map<nat, set<nat>>, s: seq<nat>): set<nat> { set p, c | p in s && p in children && c in children[p] :: c }

  lemma KidsMore(root: nat, keys: set<nat>, children: map<nat, set<nat>>, parents: map<nat, nat>, p: nat, s: seq<nat>)
    requires Family(root, keys, children, parents) && p in keys && p !in s && forall q :: q in s ==> q in keys
    ensures p in children && |KidsOf(children, [p] + s)| == |children[p]| + |KidsOf(children, s)|
  {
    FamilyDomain(root, keys, children, parents);
    assert KidsOf(children, [p] + s) == children[p] + KidsOf(children, s) by {
      assert forall q :: q in [p] + s <==> q == p || q in s;
    }
    forall c | c in children[p] ensures c !in KidsOf(children, s) {
      if c in KidsOf(children, s) {
        var q :| q in s && q in children && c in children[q];
        FamilyAt(root, keys, children, parents, p, c);
        FamilyAt(root, keys, children, parents, q, c);
        assert false;
      }
    }
  }

  /** A batch holds no more cells than its key has children. */
  lemma {:induction false} BatchCount(x: Text, live: Live, cells: map<string, nat>, kids: set<nat>)
    requires forall s :: s in cells ==> cells[s] in kids && Folded(x, live, cells[s]) == s
    ensures |cells| <= |kids|
    decreases |cells|
  {
    hide Folded;
    if |cells| > 0 {
      var s :| s in cells;
      var less := cells - {s};
      assert cells == less[s := cells[s]];
      BatchCount(x, live, less, kids - {cells[s]});
    }
  }

  lemma LeavesCost(n: nat)
    ensures 0x2200 * Leaves(n) + 0x2200 <= 0x4400 + 9 * n
  {
  }

  lemma {:induction false} CostBound(x: Text, live: Live, root: nat, keys: set<nat>, nodes: map<nat, Node>, children: map<nat, set<nat>>,
                          parents: map<nat, nat>, batches: map<nat, Batch>, s: seq<nat>)
    requires Family(root, keys, children, parents) && Pending(x, live, keys, nodes, children, batches) && Distinct(s)
             && forall p :: p in s ==> p in batches
    ensures Cost(batches, s) <= 0x4400 * |s| + 9 * |KidsOf(children, s)|
    decreases |s|
  {
    hide Family, Pending, Leaves, Folded, BatchOk;
    if s != [] {
      var p, rest := s[0], s[1..];
      assert s == [p] + rest && p in s;
      forall q | q in s ensures q in keys && q in batches { BatchAt(x, live, keys, nodes, children, batches, q); }
      DistinctParts([p], rest);
      assert p in [p];
      CostBound(x, live, root, keys, nodes, children, parents, batches, rest);
      KidsMore(root, keys, children, parents, p, rest);
      BatchAt(x, live, keys, nodes, children, batches, p);
      BatchSmall(x, live, batches[p].cells, children[p]);
      LeavesCost(|batches[p].cells|);
    }
  }

  lemma BatchSmall(x: Text, live: Live, cells: map<string, nat>, kids: set<nat>)
    requires BatchOk(x, live, cells, kids)
    ensures |cells| <= |kids|
  {
    hide Folded;
    BatchCount(x, live, cells, kids);
  }

  /** A commit takes at most 0x4400 bytes for each changed list and 9 for each key. */
  lemma CommitFits(x: Text, live: Live, root: nat, keys: set<nat>, nodes: map<nat, Node>, children: map<nat, set<nat>>,
                   parents: map<nat, nat>, batches: map<nat, Batch>, s: seq<nat>)
    requires Family(root, keys, children, parents) && Pending(x, live, keys, nodes, children, batches) && Rising(s)
             && Elements(s) == Dirty(batches)
    ensures Cost(batches, s) <= 0x4400 * |Dirty(batches)| + 9 * |keys|
  {
    hide Family, Pending, Leaves, Folded, Cost, BatchOk;
    RisingDistinct(s);
    ElementsSize(s);
    assert forall p :: p in s ==> p in Elements(s);
    CostBound(x, live, root, keys, nodes, children, parents, batches, s);
    forall c | c in KidsOf(children, s) ensures c in keys {
      var p :| p in s && p in children && c in children[p];
      BatchAt(x, live, keys, nodes, children, batches, p);
      FamilyAt(root, keys, children, parents, p, c);
    }
    Smaller(KidsOf(children, s), keys);
  }

  lemma RisingDistinct(s: seq<nat>)
    requires Rising(s)
    ensures Distinct(s)
  {
  }
}
