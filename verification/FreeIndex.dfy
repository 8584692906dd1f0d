/** The index of free cells that a mutable hive keeps beside its bytes.
 *
 * It is a treap: a binary search tree on cell offsets, a heap on priorities,
 * each node also carrying the largest free size of its subtree, so that the
 * first cell that is large enough is found by descending once.
 *
 * The first half is about treaps as values: what insertion, merging and removal
 * keep, and which set of free cells a treap stands for. In the second half the
 * nodes are objects updated in place, and every method is tied to a function of
 * the first half.
 */
module FreeIndex {
  import opened Bytes

  datatype FreeCell = FreeCell(offset: nat, bin: nat, size: nat)

  datatype Treap = Leaf | Branch(left: Treap, cell: FreeCell, maximum: nat, priority: nat, right: Treap)

  function MaximumOf(t: Treap): nat { if t.Leaf? then 0 else t.maximum }

  function Branched(left: Treap, cell: FreeCell, priority: nat, right: Treap): Treap {
    Branch(left, cell, Max(cell.size, Max(MaximumOf(left), MaximumOf(right))), priority, right)
  }

  /** The free cells a treap stands for. */
  ghost function Cells(t: Treap): set<FreeCell> {
    match t
    case Leaf => {}
    case Branch(l, c, _, _, r) => Cells(l) + {c} + Cells(r)
  }

  /** The offsets increase from left to right and lie strictly between lo and hi. */
  predicate Ordered(t: Treap, lo: int, hi: int) {
    t.Branch? ==> lo < t.cell.offset < hi && Ordered(t.left, lo, t.cell.offset) && Ordered(t.right, t.cell.offset, hi)
  }

  predicate RootAtLeast(t: Treap, p: nat) { t.Branch? ==> p <= t.priority }

  /** Priorities do not decrease from a node to its children. */
  predicate Heap(t: Treap) {
    t.Branch? ==> Heap(t.left) && Heap(t.right) && RootAtLeast(t.left, t.priority) && RootAtLeast(t.right, t.priority)
  }

  predicate Summarised(t: Treap) {
    t.Branch? ==> Summarised(t.left) && Summarised(t.right) && t == Branched(t.left, t.cell, t.priority, t.right)
  }

  // ----- operations, as functions

  /** Inserts a cell, rotating it up while its priority is smaller; a known offset keeps its node. */
  function Insert(t: Treap, cell: FreeCell, priority: nat): (r: Treap)
    ensures r.Branch?
  {
    match t
    case Leaf => Branch(Leaf, cell, cell.size, priority, Leaf)
    case Branch(l, c, _, p, r) =>
      if cell.offset < c.offset then
        var n := Insert(l, cell, priority);
        if n.priority < p
        then Branched(n.left, n.cell, n.priority, Branched(n.right, c, p, r))
        else Branched(n, c, p, r)
      else if c.offset < cell.offset then
        var n := Insert(r, cell, priority);
        if n.priority < p
        then Branched(Branched(l, c, p, n.left), n.cell, n.priority, n.right)
        else Branched(l, c, p, n)
      else Branched(l, cell, p, r)
  }

  function Merge(a: Treap, b: Treap): Treap {
    if a.Leaf? then b
    else if b.Leaf? then a
    else if a.priority < b.priority then Branched(a.left, a.cell, a.priority, Merge(a.right, b))
    else Branched(Merge(a, b.left), b.cell, b.priority, b.right)
  }

  function Remove(t: Treap, offset: nat): Treap {
    match t
    case Leaf => Leaf
    case Branch(l, c, _, p, r) =>
      if offset < c.offset then Branched(Remove(l, offset), c, p, r)
      else if c.offset < offset then Branched(l, c, p, Remove(r, offset))
      else Merge(l, r)
  }

  // ----- what the operations keep

  ghost function Without(cells: set<FreeCell>, offset: nat): set<FreeCell> {
    set c | c in cells && c.offset != offset
  }

  lemma CellsWithin(t: Treap, lo: int, hi: int)
    requires Ordered(t, lo, hi)
    ensures forall c :: c in Cells(t) ==> lo < c.offset < hi
  {
    if t.Branch? {
      CellsWithin(t.left, lo, t.cell.offset);
      CellsWithin(t.right, t.cell.offset, hi);
    }
  }

  lemma Widen(t: Treap, lo: int, hi: int, lo': int, hi': int)
    requires Ordered(t, lo, hi) && lo' <= lo && hi <= hi'
    ensures Ordered(t, lo', hi')
  {
  }

  lemma {:induction false} InsertOrdered(t: Treap, cell: FreeCell, priority: nat, lo: int, hi: int)
    requires Ordered(t, lo, hi) && lo < cell.offset < hi
    ensures Ordered(Insert(t, cell, priority), lo, hi)
  {
    if t.Branch? {
      if cell.offset < t.cell.offset {
        InsertOrdered(t.left, cell, priority, lo, t.cell.offset);
      } else if t.cell.offset < cell.offset {
        InsertOrdered(t.right, cell, priority, t.cell.offset, hi);
      }
    }
  }

  /** Insertion adds exactly one cell, replacing what was known of its offset. */
  lemma {:induction false} InsertCells(t: Treap, cell: FreeCell, priority: nat, lo: int, hi: int)
    requires Ordered(t, lo, hi) && lo < cell.offset < hi
    ensures Cells(Insert(t, cell, priority)) == Without(Cells(t), cell.offset) + {cell}
  {
    if t.Branch? {
      CellsWithin(t.left, lo, t.cell.offset);
      CellsWithin(t.right, t.cell.offset, hi);
      if cell.offset < t.cell.offset {
        InsertCells(t.left, cell, priority, lo, t.cell.offset);
        var n := Insert(t.left, cell, priority);
        assert Cells(Insert(t, cell, priority)) == Cells(n) + {t.cell} + Cells(t.right);
      } else if t.cell.offset < cell.offset {
        InsertCells(t.right, cell, priority, t.cell.offset, hi);
        var n := Insert(t.right, cell, priority);
        assert Cells(Insert(t, cell, priority)) == Cells(t.left) + {t.cell} + Cells(n);
      }
    }
  }

  /** Below the root, insertion never brings a priority under the old root's. */
  lemma {:induction false} InsertHeap(t: Treap, cell: FreeCell, priority: nat, floor: nat)
    requires Heap(t) && Summarised(t)
    ensures var r := Insert(t, cell, priority);
            && Heap(r) && Summarised(r)
            && (RootAtLeast(t, floor) ==> RootAtLeast(r, floor) || (RootAtLeast(r.left, floor) && RootAtLeast(r.right, floor)))
  {
    if t.Branch? {
      if cell.offset < t.cell.offset {
        InsertHeap(t.left, cell, priority, t.priority);
        InsertHeap(t.left, cell, priority, floor);
      } else if t.cell.offset < cell.offset {
        InsertHeap(t.right, cell, priority, t.priority);
        InsertHeap(t.right, cell, priority, floor);
      }
    }
  }

  /** Insertion keeps the three orders and adds exactly one cell. */
  lemma InsertSound(t: Treap, cell: FreeCell, priority: nat, limit: int, top: int)
    requires Ordered(t, -1, limit) && Heap(t) && Summarised(t) && limit <= top && cell.offset < top
    ensures var r := Insert(t, cell, priority);
            && Ordered(r, -1, top) && Heap(r) && Summarised(r)
            && Cells(r) == Without(Cells(t), cell.offset) + {cell}
  {
    Widen(t, -1, limit, -1, top);
    InsertOrdered(t, cell, priority, -1, top);
    InsertCells(t, cell, priority, -1, top);
    InsertHeap(t, cell, priority, 0);
  }

  lemma {:induction false} MergeSound(a: Treap, b: Treap, lo: int, mid: int, hi: int)
    requires Ordered(a, lo, mid) && Ordered(b, mid, hi) && lo < mid < hi && Heap(a) && Heap(b) && Summarised(a) && Summarised(b)
    ensures var r := Merge(a, b); Ordered(r, lo, hi) && Heap(r) && Summarised(r) && Cells(r) == Cells(a) + Cells(b)
    ensures forall p :: RootAtLeast(a, p) && RootAtLeast(b, p) ==> RootAtLeast(Merge(a, b), p)
  {
    if a.Leaf? {
      Widen(b, mid, hi, lo, hi);
    } else if b.Leaf? {
      Widen(a, lo, mid, lo, hi);
    } else if a.priority < b.priority {
      MergeSound(a.right, b, a.cell.offset, mid, hi);
    } else {
      MergeSound(a, b.left, lo, mid, b.cell.offset);
    }
  }

  lemma {:induction false} RemoveSound(t: Treap, offset: nat, lo: int, hi: int)
    requires Ordered(t, lo, hi) && Heap(t) && Summarised(t)
    ensures var r := Remove(t, offset); Ordered(r, lo, hi) && Heap(r) && Summarised(r) && Cells(r) == Without(Cells(t), offset)
    ensures forall p :: RootAtLeast(t, p) ==> RootAtLeast(Remove(t, offset), p)
  {
    if t.Branch? {
      CellsWithin(t.left, lo, t.cell.offset);
      CellsWithin(t.right, t.cell.offset, hi);
      if offset < t.cell.offset {
        RemoveSound(t.left, offset, lo, t.cell.offset);
      } else if t.cell.offset < offset {
        RemoveSound(t.right, offset, t.cell.offset, hi);
      } else {
        MergeSound(t.left, t.right, lo, offset, hi);
      }
    }
  }

  // ----- first fit

  datatype Found = NotFound | At(cell: FreeCell)

  /** The descent that the subtree maxima guide. */
  function FirstFit(t: Treap, size: int): Found {
    if t.Leaf? then NotFound
    else if MaximumOf(t.left) >= size then FirstFit(t.left, size)
    else if t.cell.size >= size then At(t.cell)
    else if MaximumOf(t.right) >= size then FirstFit(t.right, size)
    else NotFound
  }

  /** What a scan in increasing offset order answers. */
  ghost predicate IsFirstFit(cells: set<FreeCell>, size: int, found: Found) {
    match found
    case NotFound => forall c :: c in cells ==> c.size < size
    case At(best) => best in cells && best.size >= size && forall c :: c in cells && c.size >= size ==> best.offset <= c.offset
  }

  lemma MaximumBound(t: Treap)
    requires Summarised(t)
    ensures forall c :: c in Cells(t) ==> c.size <= MaximumOf(t)
  {
  }

  lemma {:induction false} MaximumReached(t: Treap)
    requires Summarised(t) && 0 < MaximumOf(t)
    ensures exists c :: c in Cells(t) && c.size == MaximumOf(t)
  {
    if t.cell.size == t.maximum {
      assert t.cell in Cells(t);
    } else if MaximumOf(t.left) == t.maximum {
      MaximumReached(t.left);
    } else {
      MaximumReached(t.right);
    }
  }

  /** For a positive request the descent answers exactly what the linear scan does;
    * for any other request it always runs off the left edge and finds nothing. */
  lemma {:induction false} FirstFitCorrect(t: Treap, size: int, lo: int, hi: int)
    requires Ordered(t, lo, hi) && Summarised(t)
    ensures 0 < size ==> IsFirstFit(Cells(t), size, FirstFit(t, size))
    ensures size <= 0 ==> FirstFit(t, size) == NotFound
  {
    if t.Branch? {
      CellsWithin(t.left, lo, t.cell.offset);
      CellsWithin(t.right, t.cell.offset, hi);
      MaximumBound(t.left);
      MaximumBound(t.right);
      if MaximumOf(t.left) >= size {
        FirstFitCorrect(t.left, size, lo, t.cell.offset);
        if 0 < size { MaximumReached(t.left); }
      } else if t.cell.size < size && MaximumOf(t.right) >= size {
        FirstFitCorrect(t.right, size, t.cell.offset, hi);
      }
    }
  }

  // ----- the index as an object

  class FreeNode {
    ghost var tree: Treap
    ghost var Repr: set<object>

    var offset: nat
    var bin: nat
    var size: nat
    var maximum: nat
    const priority: nat
    var left: FreeNode?
    var right: FreeNode?

    /** The fields below this node spell out `tree`, and no node is shared. */
    ghost predicate Valid()
      reads this, Repr
      ensures Valid() ==> this in Repr
      decreases Repr
    {
      && this in Repr
      && (left != null ==> left in Repr && left.Repr <= Repr && this !in left.Repr && left.Valid())
      && (right != null ==> right in Repr && right.Repr <= Repr && this !in right.Repr && right.Valid())
      && (left != null && right != null ==> left.Repr !! right.Repr)
      && tree == Branch(TreeOf(left), FreeCell(offset, bin, size), maximum, priority, TreeOf(right))
    }

    constructor (offset: nat, bin: nat, size: nat, priority: nat)
      ensures IsSingle(this) && tree.cell == FreeCell(offset, bin, size) && this.priority == priority
    {
      this.offset, this.bin, this.size, this.priority := offset, bin, size, priority;
      this.maximum := size;
      this.left, this.right := null, null;
      this.tree := Branch(Leaf, FreeCell(offset, bin, size), size, priority, Leaf);
      this.Repr := {this};
    }

    /** Recomputes the summary of a node whose children are up to date. */
    method Update()
      requires ValidTree(left) && ValidTree(right)
      requires this !in ReprOf(left) && this !in ReprOf(right) && ReprOf(left) !! ReprOf(right)
      modifies this`maximum, this`tree, this`Repr
      ensures Valid()
      ensures tree == Branched(TreeOf(left), FreeCell(offset, bin, size), priority, TreeOf(right))
      ensures Repr == {this} + ReprOf(left) + ReprOf(right)
    {
      maximum := Max(size, Max(if left == null then 0 else left.maximum, if right == null then 0 else right.maximum));
      tree := Branch(TreeOf(left), FreeCell(offset, bin, size), maximum, priority, TreeOf(right));
      Repr := {this} + ReprOf(left) + ReprOf(right);
    }
  }

  ghost function TreeOf(n: FreeNode?): Treap
    reads n
  {
    if n == null then Leaf else n.tree
  }

  ghost function ReprOf(n: FreeNode?): set<object>
    reads n
  {
    if n == null then {} else n.Repr
  }

  ghost predicate ValidTree(n: FreeNode?)
    reads n, ReprOf(n)
  {
    n == null || n.Valid()
  }

  /** The left child, of smaller priority, takes the place of `root`. */
  method RaiseLeft(root: FreeNode, child: FreeNode)
    requires child.Valid() && ValidTree(root.right) && root !in child.Repr && root !in ReprOf(root.right)
             && child.Repr !! ReprOf(root.right)
    modifies root, child
    ensures child.Valid() && child.Repr <= {root} + old(child.Repr) + old(ReprOf(root.right))
    ensures child.tree == old(Branched(TreeOf(child.left), FreeCell(child.offset, child.bin, child.size), child.priority,
                                       Branched(TreeOf(child.right), FreeCell(root.offset, root.bin, root.size), root.priority,
                                           TreeOf(root.right))))
  {
    root.left := child.right;
    root.Update();
    child.right := root;
    child.Update();
  }

  method RaiseRight(root: FreeNode, child: FreeNode)
    requires child.Valid() && ValidTree(root.left) && root !in child.Repr && root !in ReprOf(root.left) && child.Repr !! ReprOf(root.left)
    modifies root, child
    ensures child.Valid() && child.Repr <= {root} + old(child.Repr) + old(ReprOf(root.left))
    ensures child.tree == old(Branched(Branched(TreeOf(root.left), FreeCell(root.offset, root.bin, root.size), root.priority,
            TreeOf(child.left)),
                                       FreeCell(child.offset, child.bin, child.size), child.priority, TreeOf(child.right)))
  {
    root.right := child.left;
    root.Update();
    child.left := root;
    child.Update();
  }

  ghost predicate IsSingle(n: FreeNode)
    reads n
  {
    && n.left == null && n.right == null && n.maximum == n.size && n.Repr == {n}
    && n.tree == Branch(Leaf, FreeCell(n.offset, n.bin, n.size), n.size, n.priority, Leaf)
  }

  /** Inserts the single node `n` below `root`. */
  method InsertNode(root: FreeNode?, n: FreeNode) returns (r: FreeNode)
    requires ValidTree(root) && IsSingle(n) && n !in ReprOf(root)
    modifies ReprOf(root), n
    ensures r.Valid() && r.Repr <= old(ReprOf(root)) + {n}
    ensures r.tree == Insert(old(TreeOf(root)), old(n.tree.cell), n.priority)
    decreases ReprOf(root), 1
  {
    if root == null {
      r := n;
    } else if n.offset < root.offset {
      r := InsertLeft(root, n);
    } else if root.offset < n.offset {
      r := InsertRight(root, n);
    } else {
      root.size, root.bin := n.size, n.bin;
      root.Update();
      r := root;
    }
  }

  method InsertLeft(root: FreeNode, n: FreeNode) returns (r: FreeNode)
    requires root.Valid() && IsSingle(n) && n !in root.Repr && n.offset < root.offset
    modifies root.Repr, n
    ensures r.Valid() && r.Repr <= old(root.Repr) + {n}
    ensures r.tree == Insert(old(root.tree), old(n.tree.cell), n.priority)
    decreases root.Repr, 0
  {
    var child := InsertNode(root.left, n);
    if child.priority < root.priority {
      RaiseLeft(root, child);
      return child;
    }
    root.left := child;
    root.Update();
    r := root;
  }

  method InsertRight(root: FreeNode, n: FreeNode) returns (r: FreeNode)
    requires root.Valid() && IsSingle(n) && n !in root.Repr && root.offset < n.offset
    modifies root.Repr, n
    ensures r.Valid() && r.Repr <= old(root.Repr) + {n}
    ensures r.tree == Insert(old(root.tree), old(n.tree.cell), n.priority)
    decreases root.Repr, 0
  {
    var child := InsertNode(root.right, n);
    if child.priority < root.priority {
      RaiseRight(root, child);
      return child;
    }
    root.right := child;
    root.Update();
    r := root;
  }

  method MergeNodes(a: FreeNode?, b: FreeNode?) returns (r: FreeNode?)
    requires ValidTree(a) && ValidTree(b) && ReprOf(a) !! ReprOf(b)
    modifies ReprOf(a), ReprOf(b)
    ensures ValidTree(r) && ReprOf(r) <= old(ReprOf(a) + ReprOf(b))
    ensures TreeOf(r) == Merge(old(TreeOf(a)), old(TreeOf(b)))
    decreases ReprOf(a) + ReprOf(b)
  {
    if a == null {
      r := b;
    } else if b == null {
      r := a;
    } else if a.priority < b.priority {
      var child := MergeNodes(a.right, b);
      a.right := child;
      a.Update();
      r := a;
    } else {
      var child := MergeNodes(a, b.left);
      b.left := child;
      b.Update();
      r := b;
    }
  }

  method RemoveNode(n: FreeNode?, offset: nat) returns (r: FreeNode?)
    requires ValidTree(n)
    modifies ReprOf(n)
    ensures ValidTree(r) && ReprOf(r) <= old(ReprOf(n))
    ensures TreeOf(r) == Remove(old(TreeOf(n)), offset)
    decreases ReprOf(n)
  {
    if n == null {
      return null;
    }
    if offset < n.offset {
      var child := RemoveNode(n.left, offset);
      n.left := child;
    } else if n.offset < offset {
      var child := RemoveNode(n.right, offset);
      n.right := child;
    } else {
      r := MergeNodes(n.left, n.right);
      return;
    }
    n.Update();
    r := n;
  }

  /** Bitwise exclusive or of two naturals. */
  function Xor(a: nat, b: nat): nat
    decreases a + b
  {
    if a == 0 && b == 0 then 0 else (a + b) % 2 + 2 * Xor(a / 2, b / 2)
  }

  const TWO64: nat := 0x1_0000_0000_0000_0000

  /** The stable mixing that spreads sequential offsets; it only shapes the tree. */
  function Mix(offset: nat): nat {
    var x := (offset + 0x9e3779b97f4a7c15) % TWO64;
    var y := Xor(x, x / 0x4000_0000) * 0xbf58476d1ce4e5b9 % TWO64;
    var z := Xor(y, y / 0x800_0000) * 0x94d049bb133111eb % TWO64;
    Xor(z, z / 0x8000_0000)
  }

  class Index {
    var root: FreeNode?
    var bins: seq<nat>
    ghost var Repr: set<object>
    ghost var limit: nat  // above every offset

    ghost predicate Valid()
      reads this, Repr
      ensures Valid() ==> this in Repr
    {
      && this in Repr
      && (root != null ==> root in Repr && root.Repr <= Repr && this !in root.Repr && root.Valid())
      && Ordered(TreeOf(root), -1, limit) && Heap(TreeOf(root)) && Summarised(TreeOf(root))
    }

    ghost function FreeCells(): set<FreeCell>
      reads this, root
    {
      Cells(TreeOf(root))
    }

    constructor ()
      ensures Valid() && fresh(Repr) && FreeCells() == {} && bins == []
    {
      root, bins, Repr, limit := null, [], {this}, 0;
    }

    /** Records a free cell, replacing what was known of its offset. */
    method Add(bin: nat, offset: nat, size: nat)
      requires Valid()
      modifies Repr
      ensures Valid() && fresh(Repr - old(Repr)) && bins == old(bins)
      ensures FreeCells() == Without(old(FreeCells()), offset) + {FreeCell(offset, bin, size)}
    {
      ghost var t, cell := TreeOf(root), FreeCell(offset, bin, size);
      ghost var top := Max(limit, offset + 1);
      var priority := Mix(offset);
      InsertSound(t, cell, priority, limit, top);
      var n := new FreeNode(offset, bin, size, priority);
      root := InsertNode(root, n);
      limit := top;
      Repr := Repr + {n};
    }

    /** Forgets the cell at `offset`. */
    method Drop(offset: nat)
      requires Valid()
      modifies Repr
      ensures Valid() && Repr == old(Repr) && bins == old(bins)
      ensures FreeCells() == Without(old(FreeCells()), offset)
    {
      RemoveSound(TreeOf(root), offset, -1, limit);
      root := RemoveNode(root, offset);
    }

    method AppendBin(bin: nat)
      requires Valid()
      modifies this`bins
      ensures Valid() && Repr == old(Repr) && bins == old(bins) + [bin] && FreeCells() == old(FreeCells())
    {
      bins := bins + [bin];
    }

    /** Descends once, guided by the subtree maxima. */
    method Fit(size: int) returns (found: Found)
      requires Valid()
      ensures 0 < size ==> IsFirstFit(FreeCells(), size, found)
      ensures size <= 0 ==> found == NotFound
    {
      FirstFitCorrect(TreeOf(root), size, -1, limit);
      var n := root;
      ghost var wanted := FirstFit(TreeOf(root), size);
      while n != null
        invariant ValidTree(n) && ReprOf(n) <= Repr
        invariant wanted == FirstFit(TreeOf(n), size)
        decreases TreeOf(n)
      {
        ghost var t := n.tree;
        assert t.left == TreeOf(n.left) && t.right == TreeOf(n.right);
        assert n.left != null ==> n.left.Valid();
        assert n.right != null ==> n.right.Valid();
        if (if n.left == null then 0 else n.left.maximum) >= size {
          assert wanted == FirstFit(t.left, size);
          n := n.left;
        } else if n.size >= size {
          return At(FreeCell(n.offset, n.bin, n.size));
        } else if (if n.right == null then 0 else n.right.maximum) >= size {
          n := n.right;
        } else {
          return NotFound;
        }
      }
      found := NotFound;
    }
  }
}
