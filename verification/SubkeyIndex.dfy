/** Subkey indexes: the cells that list the children of a key.
 *
 * A leaf ("li", "lf" or "lh") lists key cells; an "ri" cell lists further index
 * cells, to any depth. `IndexTree` is the shape of a stored index.
 */
module SubkeyIndex {
  import opened Bytes
  import opened HiveLayout
  import opened HiveImage
  import opened MutableHive
  import opened SecurityRing

  const LI: bytes := [108, 105]
  const LF: bytes := [108, 102]
  const LH: bytes := [108, 104]
  const RI: bytes := [114, 105]

  /** How many cells one index cell written by an edit holds: a page less its headers. */
  const ENTRIES: nat := 1014

  datatype IndexTree = Leaf(cell: nat) | Branch(cell: nat, kids: Forest)
  datatype Forest = Nil | More(head: IndexTree, tail: Forest)

  // ----- the bytes of one index cell

  predicate IsLeaf(b: bytes) { 4 <= |b| && (b[..2] == LI || b[..2] == LF || b[..2] == LH) }
  predicate IsBranch(b: bytes) { 4 <= |b| && b[..2] == RI }

  predicate IsWide(b: bytes)
    requires 4 <= |b|
  {
    b[..2] == LF || b[..2] == LH
  }

  function Count(b: bytes): nat
    requires 4 <= |b|
  {
    U16(b, 2)
  }

  /** Where entry i starts; the hashed leaves have a second word in each entry. */
  function Place(i: nat, wide: bool): nat { if wide then 4 + 8 * i else 4 + 4 * i }

  /** The first n entries of an index cell. */
  function Entries(b: bytes, wide: bool, n: nat): (s: seq<nat>)
    requires Place(n, wide) <= |b|
    ensures |s| == n
  {
    if n == 0 then [] else Entries(b, wide, n - 1) + [U32(b, Place(n - 1, wide))]
  }

  predicate Fits(b: bytes) { 4 <= |b| && Place(Count(b), IsWide(b)) <= |b| }

  function AllEntries(b: bytes): seq<nat>
    requires Fits(b)
  {
    Entries(b, IsWide(b), Count(b))
  }

  // ----- a stored index

  function Roots(f: Forest): seq<nat> {
    match f
    case Nil => []
    case More(t, g) => [t.cell] + Roots(g)
  }

  /** The store holds an index of this shape. */
  ghost predicate Holds(live: Live, t: IndexTree) {
    && t.cell in live && Fits(live[t.cell])
    && match t
       case Leaf(_) => IsLeaf(live[t.cell])
       case Branch(_, kids) => IsBranch(live[t.cell]) && AllEntries(live[t.cell]) == Roots(kids) && HoldsAll(live, kids)
  }

  ghost predicate HoldsAll(live: Live, f: Forest) {
    match f
    case Nil => true
    case More(t, g) => Holds(live, t) && HoldsAll(live, g)
  }

  /** The key cells an index lists, in order. */
  ghost function Listed(live: Live, t: IndexTree): seq<nat>
    requires Holds(live, t)
  {
    match t
    case Leaf(c) => AllEntries(live[c])
    case Branch(_, kids) => ListedAll(live, kids)
  }

  ghost function ListedAll(live: Live, f: Forest): seq<nat>
    requires HoldsAll(live, f)
  {
    match f
    case Nil => []
    case More(t, g) => Listed(live, t) + ListedAll(live, g)
  }

  /** The cells an index occupies. */
  function Cells(t: IndexTree): seq<nat> {
    match t
    case Leaf(c) => [c]
    case Branch(c, kids) => [c] + CellsAll(kids)
  }

  function CellsAll(f: Forest): seq<nat> {
    match f
    case Nil => []
    case More(t, g) => Cells(t) + CellsAll(g)
  }

  function Height(t: IndexTree): nat {
    match t
    case Leaf(_) => 0
    case Branch(_, kids) => if kids.Nil? then 0 else 1 + HeightAll(kids)
  }

  function HeightAll(f: Forest): nat {
    match f
    case Nil => 0
    case More(t, g) => if Height(t) < HeightAll(g) then HeightAll(g) else Height(t)
  }

  /** What an index looks like depends only on its own cells. */
  lemma {:induction false} Frame(live: Live, m: Live, t: IndexTree)
    requires Holds(live, t) && forall c :: c in Cells(t) ==> c in m && c in live && m[c] == live[c]
    ensures Holds(m, t) && Listed(m, t) == Listed(live, t)
  {
    assert t.cell in Cells(t);
    if t.Branch? {
      FrameAll(live, m, t.kids);
    }
  }

  lemma {:induction false} FrameAll(live: Live, m: Live, f: Forest)
    requires HoldsAll(live, f) && forall c :: c in CellsAll(f) ==> c in m && c in live && m[c] == live[c]
    ensures HoldsAll(m, f) && ListedAll(m, f) == ListedAll(live, f)
  {
    if f.More? {
      Frame(live, m, f.head);
      FrameAll(live, m, f.tail);
    }
  }

  // ----- reading

  lemma EntriesPrefix(b: bytes, wide: bool, i: nat, n: nat)
    requires i <= n && Place(n, wide) <= |b|
    ensures Entries(b, wide, i) == Entries(b, wide, n)[..i]
  {
    if i < n { EntriesPrefix(b, wide, i, n - 1); }
  }

  lemma EntryAt(b: bytes, wide: bool, i: nat, n: nat)
    requires i < n && Place(n, wide) <= |b|
    ensures Entries(b, wide, n)[i] == U32(b, Place(i, wide))
    ensures Entries(b, wide, i + 1) == Entries(b, wide, i) + [U32(b, Place(i, wide))]
  {
    hide LE;
    EntriesPrefix(b, wide, i + 1, n);
  }

  /** The listed cells that are keys: freed cells and cells that are no keys are passed over,
    * any other unreadable cell is an error. */
  function KeepKeys(data: bytes, legacy: bool, cells: seq<nat>): Result<seq<nat>> {
    if cells == [] then Success([])
    else
      var n := |cells| - 1;
      var before := KeepKeys(data, legacy, cells[..n]);
      if before.Failure? then before
      else match CellBody(data, legacy, cells[n])
           case Success(b) => if IsKey(b) then Success(before.value + [cells[n]]) else before
           case Failure(e) => if e == Freed then before else Failure(e)
  }

  /** The cells of a list that are live keys. */
  ghost function LiveKeys(live: Live, cells: seq<nat>): seq<nat> {
    if cells == [] then []
    else
      var n := |cells| - 1;
      LiveKeys(live, cells[..n]) + if cells[n] in live && IsKey(live[cells[n]]) then [cells[n]] else []
  }

  lemma {:induction false} LiveKeysCat(live: Live, a: seq<nat>, b: seq<nat>)
    ensures LiveKeys(live, a + b) == LiveKeys(live, a) + LiveKeys(live, b)
  {
    if b == [] {
      assert a + b == a;
    } else {
      var n := |b| - 1;
      assert (a + b)[..|a| + n] == a + b[..n];
      LiveKeysCat(live, a, b[..n]);
    }
  }

  /** All cells of a list are live keys if and only if none is left out. */
  lemma {:induction false} LiveKeysAll(live: Live, cells: seq<nat>)
    ensures |LiveKeys(live, cells)| <= |cells|
    ensures |LiveKeys(live, cells)| == |cells| <==> AllKeys(live, cells)
    ensures AllKeys(live, cells) ==> LiveKeys(live, cells) == cells
    ensures forall c :: c in LiveKeys(live, cells) <==> c in cells && c in live && IsKey(live[c])
  {
    if cells != [] {
      var n := |cells| - 1;
      LiveKeysAll(live, cells[..n]);
      assert cells == cells[..n] + [cells[n]];
    }
  }

  lemma {:induction false} KeepLive(store: Hive, cells: seq<nat>)
    requires store.Valid() && forall c :: c in cells ==> c in store.Starts()
    ensures KeepKeys(store.data, store.legacy, cells) == Success(LiveKeys(store.Live(), cells))
  {
    hide Hive.Valid, Hive.Live, Hive.Starts, CellBody, LE;
    if cells != [] {
      var n := |cells| - 1;
      assert cells[n] in cells;
      KeepLive(store, cells[..n]);
      store.StartReads(cells[n]);
      var front := LiveKeys(store.Live(), cells[..n]);
      assert front + [] == front;
    }
  }

  method ReadLeaf(store: Hive, list: bytes) returns (r: Result<seq<nat>>)
    requires store.Valid() && Fits(list)
    ensures r == KeepKeys(store.data, store.legacy, AllEntries(list))
  {
    hide Hive.Valid, Hive.Live, Hive.Starts, LE, Entries, U32, CellBody;
    r := Success([]);
    var wide, count := IsWide(list), Count(list);
    var i := 0;
    NoEntries(list, wide);
    while i < count && r.Success?
      invariant 0 <= i <= count && r == KeepKeys(store.data, store.legacy, Entries(list, wide, i))
      invariant r.Failure? ==> r == KeepKeys(store.data, store.legacy, AllEntries(list))
    {
      EntryAt(list, wide, i, count);
      var child := U32(list, Place(i, wide));
      assert Entries(list, wide, i + 1)[..i] == Entries(list, wide, i);
      var body := store.Body(child);
      match body {
        case Success(b) => if 0x4c <= |b| && b[..2] == NK { r := Success(r.value + [child]); }
        case Failure(e) => if e != Freed { r := Failure(e); }
      }
      i := i + 1;
      if r.Failure? { EntriesPrefix(list, wide, i, count); KeepFails(store.data, store.legacy, AllEntries(list), i); }
    }
  }

  lemma {:induction false} KeepFails(data: bytes, legacy: bool, cells: seq<nat>, i: nat)
    requires i <= |cells| && KeepKeys(data, legacy, cells[..i]).Failure?
    ensures KeepKeys(data, legacy, cells) == KeepKeys(data, legacy, cells[..i])
  {
    hide CellBody, LE;
    if i == |cells| {
      assert cells[..i] == cells;
    } else {
      var n := |cells| - 1;
      assert cells[..n][..i] == cells[..i];
      KeepFails(data, legacy, cells[..n], i);
    }
  }

  lemma NoEntries(b: bytes, wide: bool)
    requires 4 <= |b|
    ensures Entries(b, wide, 0) == []
  {
  }

  /** The limits within which a walk over an index is not cut short. */
  ghost predicate Room(t: IndexTree, depth: nat, seen: set<nat>) {
    depth + Height(t) <= 32 && |seen| + |Cells(t)| <= 0x10_0000 && Distinct(Cells(t)) && forall c :: c in Cells(t) ==> c !in seen
  }

  ghost predicate RoomAll(f: Forest, depth: nat, seen: set<nat>) {
    && (f.More? ==> depth + HeightAll(f) <= 32) && (f.More? ==> |seen| + |CellsAll(f)| <= 0x10_0000)
    && Distinct(CellsAll(f)) && forall c :: c in CellsAll(f) ==> c !in seen
  }

  lemma DistinctParts(a: seq<nat>, b: seq<nat>)
    requires Distinct(a + b)
    ensures Distinct(a) && Distinct(b) && forall c :: c in a ==> c !in b
  {
    var s := a + b;
    assert forall i :: 0 <= i < |a| ==> s[i] == a[i];
    assert forall i :: 0 <= i < |b| ==> s[|a| + i] == b[i];
  }

  lemma DistinctCat(a: seq<nat>, b: seq<nat>)
    requires Distinct(a) && Distinct(b) && forall c :: c in a ==> c !in b
    ensures Distinct(a + b)
  {
    var s := a + b;
    forall i, j | 0 <= i < j < |s| ensures s[i] != s[j] {
      if i < |a| <= j { assert s[i] in a && s[j] == b[j - |a|] && s[j] in b; }
    }
  }

  /** Visiting each cell of a list of new and distinct cells adds its length. */
  lemma ElementsSize(s: seq<nat>)
    requires Distinct(s)
    ensures |Elements(s)| == |s|
  {
    VisitExact({}, s);
    assert {} + Elements(s) == Elements(s);
  }

  lemma {:induction false} VisitExact(seen: set<nat>, cells: seq<nat>)
    requires Distinct(cells) && forall c :: c in cells ==> c !in seen
    ensures |seen + Elements(cells)| == |seen| + |cells|
  {
    hide Distinct, Elements;
    if cells == [] {
      NoCellsIn();
      assert seen + {} == seen;
    } else {
      var n := |cells| - 1;
      LastCell(cells);
      VisitExact(seen, cells[..n]);
      assert cells[n] in cells;
      assert seen + (Elements(cells[..n]) + {cells[n]}) == (seen + Elements(cells[..n])) + {cells[n]};
    }
  }

  lemma NoCellsIn()
    ensures Elements<nat>([]) == {}
  {
  }

  lemma LastCell(cells: seq<nat>)
    requires Distinct(cells) && cells != []
    ensures var n := |cells| - 1;
            && Distinct(cells[..n]) && Elements(cells) == Elements(cells[..n]) + {cells[n]} && cells[n] !in Elements(cells[..n])
            && forall c :: c in cells[..n] ==> c in cells
  {
  }

  lemma RoomKids(t: IndexTree, depth: nat, seen: set<nat>)
    requires t.Branch?
    ensures Room(t, depth, seen) <==> depth <= 32 && |seen| < 0x10_0000 && t.cell !in seen && RoomAll(t.kids, depth + 1, seen + {t.cell})
  {
    hide HeightAll, CellsAll;
    assert Cells(t) == [t.cell] + CellsAll(t.kids);
    NilForest(t.kids);
    if Room(t, depth, seen) {
      DistinctParts([t.cell], CellsAll(t.kids));
      assert t.cell in Cells(t);
    }
    if t.cell !in seen && RoomAll(t.kids, depth + 1, seen + {t.cell}) {
      assert forall c :: c in [t.cell] ==> c !in CellsAll(t.kids);
      DistinctCat([t.cell], CellsAll(t.kids));
    }
  }

  lemma RoomLeaf(t: IndexTree, depth: nat, seen: set<nat>)
    requires t.Leaf?
    ensures Room(t, depth, seen) <==> depth <= 32 && |seen| < 0x10_0000 && t.cell !in seen
    ensures Elements(Cells(t)) == {t.cell}
  {
  }

  lemma NilForest(f: Forest)
    ensures f.Nil? ==> CellsAll(f) == [] && HeightAll(f) == 0
  {
  }

  lemma RoomSplit(f: Forest, depth: nat, seen: set<nat>)
    requires f.More?
    ensures RoomAll(f, depth, seen) <==> Room(f.head, depth, seen) && RoomAll(f.tail, depth, seen + Elements(Cells(f.head)))
  {
    hide Cells, CellsAll, Height, HeightAll;
    OpenForest(f);
    NilForest(f.tail);
    if RoomAll(f, depth, seen) {
      DistinctParts(Cells(f.head), CellsAll(f.tail));
      VisitExact(seen, Cells(f.head));
    }
    if Room(f.head, depth, seen) && RoomAll(f.tail, depth, seen + Elements(Cells(f.head))) {
      VisitExact(seen, Cells(f.head));
      DistinctCat(Cells(f.head), CellsAll(f.tail));
    }
  }

  lemma OpenForest(f: Forest)
    requires f.More?
    ensures CellsAll(f) == Cells(f.head) + CellsAll(f.tail)
    ensures HeightAll(f) == if Height(f.head) < HeightAll(f.tail) then HeightAll(f.tail) else Height(f.head)
  {
  }

  ghost predicate AllKeys(live: Live, cells: seq<nat>) {
    forall c :: c in cells ==> c in live && IsKey(live[c])
  }

  ghost predicate Started(starts: set<nat>, cells: seq<nat>) { forall c :: c in cells ==> c in starts }

  /** Reads the key cells an index lists, passing over those that were freed or are no keys. */
  method ReadIndex(store: Hive, cell: nat, seen: set<nat>, depth: nat, ghost t: IndexTree) returns (r: Result<seq<nat>>, visited: set<nat>)
    requires store.Valid() && Holds(store.Live(), t) && t.cell == cell && Started(store.Starts(), Listed(store.Live(), t))
    ensures r.Success? <==> Room(t, depth, seen)
    ensures r.Success? ==> r.value == LiveKeys(store.Live(), Listed(store.Live(), t)) && visited == seen + Elements(Cells(t))
    ensures r.Failure? ==> r.error == Malformed
    decreases 33 - depth, 1
  {
    hide Hive.Valid, Hive.Live, Hive.Starts, LE, Entries, U32, U16, CellBody, Room, RoomAll, LiveKeys, Cells, CellsAll, Elements;
    visited := seen;
    r := Failure(Malformed);
    OpenTree(store.Live(), t, depth, seen);
    if depth <= 32 && |seen| < 0x10_0000 && cell !in seen {
      visited := visited + {cell};
      var list := store.Body(cell);
      if list.Success? && |list.value| >= 4 && Place(Count(list.value), IsWide(list.value)) <= |list.value| {
        if list.value[..2] == RI {
          r, visited := ReadBranch(store, list.value, visited, depth, t.kids);
        } else if list.value[..2] == LI || list.value[..2] == LF || list.value[..2] == LH {
          KeepLive(store, AllEntries(list.value));
          r := ReadLeaf(store, list.value);
        }
      }
    }
  }

  lemma OpenTree(live: Live, t: IndexTree, depth: nat, seen: set<nat>)
    requires Holds(live, t)
    ensures Room(t, depth, seen) ==> depth <= 32 && |seen| < 0x10_0000 && t.cell !in seen
    ensures t.Branch? ==> HoldsAll(live, t.kids) && Listed(live, t) == ListedAll(live, t.kids)
    ensures t.Branch? && depth <= 32 && |seen| < 0x10_0000 && t.cell !in seen ==>
              (Room(t, depth, seen) <==> RoomAll(t.kids, depth + 1, seen + {t.cell}))
    ensures t.Branch? ==> Elements(Cells(t)) == {t.cell} + Elements(CellsAll(t.kids))
    ensures t.Leaf? ==> (Room(t, depth, seen) <==> depth <= 32 && |seen| < 0x10_0000 && t.cell !in seen) && Elements(Cells(t)) == {t.cell}
    ensures t.Leaf? <==> live[t.cell][..2] != RI
  {
    if t.Branch? {
      RoomKids(t, depth, seen);
      ElementsCat([t.cell], CellsAll(t.kids));
    } else {
      RoomLeaf(t, depth, seen);
    }
  }

  method ReadBranch(store: Hive, list: bytes, seen: set<nat>, depth: nat, ghost kids: Forest)
    returns (r: Result<seq<nat>>, visited: set<nat>)
    requires store.Valid() && HoldsAll(store.Live(), kids) && Fits(list) && !IsWide(list) && AllEntries(list) == Roots(kids) && depth <= 32
    requires Started(store.Starts(), ListedAll(store.Live(), kids))
    ensures r.Success? <==> RoomAll(kids, depth + 1, seen)
    ensures r.Success? ==> r.value == LiveKeys(store.Live(), ListedAll(store.Live(), kids)) && visited == seen + Elements(CellsAll(kids))
    ensures r.Failure? ==> r.error == Malformed
    decreases 33 - depth, 0
  {
    hide Hive.Valid, Hive.Live, Hive.Starts, LE, Entries, U32, U16, CellBody, Room, RoomAll, ListedAll, Listed, Cells, CellsAll, HoldsAll,
         Holds, LiveKeys, Elements;
    r, visited := Success([]), seen;
    ghost var f := kids;
    ghost var live := store.Live();
    var i, count := 0, Count(list);
    assert AllEntries(list)[0..] == AllEntries(list);
    while i < count && r.Success?
      invariant 0 <= i <= count && HoldsAll(live, f) && AllEntries(list)[i..] == Roots(f) && Started(store.Starts(), ListedAll(live, f))
      invariant r.Success? ==> r.value + LiveKeys(live, ListedAll(live, f)) == LiveKeys(live, ListedAll(live, kids))
      invariant r.Success? ==> visited + Elements(CellsAll(f)) == seen + Elements(CellsAll(kids))
      invariant r.Failure? ==> r.error == Malformed && !RoomAll(kids, depth + 1, seen)
      invariant r.Success? ==> (RoomAll(kids, depth + 1, seen) <==> RoomAll(f, depth + 1, visited))
    {
      EntryAt(list, false, i, count);
      OpenListed(live, f);
      assert AllEntries(list)[i..][1..] == AllEntries(list)[i + 1..];
      LiveKeysCat(live, Listed(live, f.head), ListedAll(live, f.tail));
      var more, after := ReadIndex(store, U32(list, Place(i, false)), visited, depth + 1, f.head);
      RoomSplit(f, depth + 1, visited);
      visited := after;
      match more {
        case Success(cells) => r := Success(r.value + cells);
        case Failure(e) => if e != Freed { r := Failure(e); }
      }
      f := f.tail;
      i := i + 1;
    }
    if r.Success? { NilListed(live, f, depth + 1, visited); }
  }

  lemma OpenListed(live: Live, f: Forest)
    requires HoldsAll(live, f)
    ensures Roots(f) != [] ==>
              && f.More? && Roots(f) == [f.head.cell] + Roots(f.tail) && Holds(live, f.head) && HoldsAll(live, f.tail)
              && ListedAll(live, f) == Listed(live, f.head) + ListedAll(live, f.tail)
              && CellsAll(f) == Cells(f.head) + CellsAll(f.tail)
              && Elements(CellsAll(f)) == Elements(Cells(f.head)) + Elements(CellsAll(f.tail))
  {
    if f.More? { ElementsCat(Cells(f.head), CellsAll(f.tail)); }
  }

  lemma NilListed(live: Live, f: Forest, depth: nat, seen: set<nat>)
    requires HoldsAll(live, f)
    ensures Roots(f) == [] ==>
              ListedAll(live, f) == [] && LiveKeys(live, ListedAll(live, f)) == [] && Elements(CellsAll(f)) == {} && RoomAll(f, depth, seen)
  {
  }

  // ----- freeing

  lemma ElementsCat(a: seq<nat>, b: seq<nat>)
    ensures Elements(a + b) == Elements(a) + Elements(b)
  {
  }

  /** Frees an index and every index cell below it, each exactly once. */
  method FreeSubkeyIndex(store: Hive, cell: nat, seen: set<nat>, depth: nat, ghost t: IndexTree) returns (ok: bool, visited: set<nat>)
    requires store.Valid() && Holds(store.Live(), t) && t.cell == cell && Distinct(Cells(t))
    modifies store.Repr
    ensures store.Valid() && fresh(store.Repr - old(store.Repr)) && old(store.Starts()) <= store.Starts()
            && |store.data| == |old(store.data)|
    ensures ok <==> Room(t, depth, seen)
    ensures ok ==> store.Live() == old(store.Live()) - Elements(Cells(t)) && visited == seen + Elements(Cells(t))
    decreases 33 - depth, 1
  {
    hide Hive.Valid, Hive.Live, Hive.Starts, LE, Entries, U32, U16, CellBody, Room, Holds, Listed, Elements, Cells, CellsAll, Distinct,
         RoomAll, HoldsAll;
    visited, ok := seen, false;
    ghost var live := store.Live();
    OpenTree(live, t, depth, seen);
    OpenShape(live, t);
    if depth <= 32 && |seen| < 0x10_0000 && cell !in seen {
      visited := visited + {cell};
      var list := store.Body(cell);
      if list.Success? && |list.value| >= 4 && Place(Count(list.value), IsWide(list.value)) <= |list.value| {
        if list.value[..2] == RI {
          ok, visited := FreeBranch(store, list.value, visited, depth, t.kids);
        } else if list.value[..2] == LI || list.value[..2] == LF || list.value[..2] == LH {
          ok := true;
        }
        if ok {
          if t.Branch? { MinusMinus(live, Elements(CellsAll(t.kids)), cell); }
          var f := store.FreeCell(cell);
          ok := f.Success?;
        }
      }
    }
  }

  lemma MinusMinus(live: Live, a: set<nat>, c: nat)
    ensures (live - a) - {c} == live - ({c} + a)
  {
  }

  lemma OpenShape(live: Live, t: IndexTree)
    requires Holds(live, t) && Distinct(Cells(t))
    ensures t.cell in live && Fits(live[t.cell])
    ensures t.Leaf? ==> Elements(Cells(t)) == {t.cell} && IsLeaf(live[t.cell])
    ensures t.Branch? ==>
              && IsBranch(live[t.cell]) && AllEntries(live[t.cell]) == Roots(t.kids)
              && Elements(Cells(t)) == {t.cell} + Elements(CellsAll(t.kids)) && t.cell !in Elements(CellsAll(t.kids))
                  && Distinct(CellsAll(t.kids))
  {
    if t.Branch? {
      DistinctParts([t.cell], CellsAll(t.kids));
      ElementsCat([t.cell], CellsAll(t.kids));
    }
  }

  method FreeBranch(store: Hive, list: bytes, seen: set<nat>, depth: nat, ghost kids: Forest) returns (ok: bool, visited: set<nat>)
    requires store.Valid() && HoldsAll(store.Live(), kids) && Fits(list) && !IsWide(list) && AllEntries(list) == Roots(kids) && depth <= 32
    requires Distinct(CellsAll(kids))
    modifies store.Repr
    ensures store.Valid() && fresh(store.Repr - old(store.Repr)) && old(store.Starts()) <= store.Starts()
            && |store.data| == |old(store.data)|
    ensures ok <==> RoomAll(kids, depth + 1, seen)
    ensures ok ==> store.Live() == old(store.Live()) - Elements(CellsAll(kids)) && visited == seen + Elements(CellsAll(kids))
    decreases 33 - depth, 0
  {
    hide Hive.Valid, Hive.Live, Hive.Starts, LE, Entries, U32, U16, CellBody, Room, RoomAll, Cells, CellsAll, HoldsAll, Holds, Listed,
         ListedAll, Elements, Distinct;
    ok, visited := true, seen;
    ghost var f := kids;
    ghost var freed: set<nat> := {};
    var i, count := 0, Count(list);
    assert AllEntries(list)[0..] == AllEntries(list);
    while i < count && ok
      invariant 0 <= i <= count && store.Valid() && fresh(store.Repr - old(store.Repr)) && old(store.Starts()) <= store.Starts()
                && |store.data| == |old(store.data)|
      invariant ok ==> HoldsAll(store.Live(), f) && AllEntries(list)[i..] == Roots(f) && Distinct(CellsAll(f))
      invariant ok ==> store.Live() == old(store.Live()) - freed && freed + Elements(CellsAll(f)) == Elements(CellsAll(kids))
      invariant ok ==> visited == seen + freed && (RoomAll(kids, depth + 1, seen) <==> RoomAll(f, depth + 1, visited))
      invariant !ok ==> !RoomAll(kids, depth + 1, seen)
    {
      EntryAt(list, false, i, count);
      OpenListed(store.Live(), f);
      OpenDistinct(f);
      ghost var before := store.Live();
      RoomSplit(f, depth + 1, visited);
      ok, visited := FreeSubkeyIndex(store, U32(list, Place(i, false)), visited, depth + 1, f.head);
      if ok { FrameFreed(before, f.tail, f.head); }
      freed := freed + Elements(Cells(f.head));
      f := f.tail;
      i := i + 1;
    }
    if ok { NilListed(store.Live(), f, depth + 1, visited); }
  }

  lemma OpenDistinct(f: Forest)
    requires f.More? && Distinct(CellsAll(f))
    ensures Distinct(Cells(f.head)) && Distinct(CellsAll(f.tail))
            && Elements(CellsAll(f)) == Elements(Cells(f.head)) + Elements(CellsAll(f.tail))
    ensures forall c :: c in Cells(f.head) ==> c !in CellsAll(f.tail)
  {
    DistinctParts(Cells(f.head), CellsAll(f.tail));
    ElementsCat(Cells(f.head), CellsAll(f.tail));
  }

  lemma FrameFreed(live: Live, f: Forest, t: IndexTree)
    requires HoldsAll(live, f) && forall c :: c in Cells(t) ==> c !in CellsAll(f)
    ensures HoldsAll(live - Elements(Cells(t)), f)
  {
    HeldLive(live, f);
    FrameAll(live, live - Elements(Cells(t)), f);
  }

  lemma {:induction false} HeldLive(live: Live, f: Forest)
    requires HoldsAll(live, f)
    ensures forall c :: c in CellsAll(f) ==> c in live
  {
    if f.More? {
      HeldTree(live, f.head);
      HeldLive(live, f.tail);
    }
  }

  lemma {:induction false} HeldTree(live: Live, t: IndexTree)
    requires Holds(live, t)
    ensures forall c :: c in Cells(t) ==> c in live
  {
    if t.Branch? { HeldLive(live, t.kids); }
  }

  // ----- writing

  function Words(cells: seq<nat>): (b: bytes)
    ensures |b| == 4 * |cells|
  {
    if cells == [] then [] else Words(cells[..|cells| - 1]) + Enc32(cells[|cells| - 1])
  }

  function IndexBody(signature: bytes, cells: seq<nat>): (b: bytes)
    requires |signature| == 2
    ensures |b| == 4 + 4 * |cells|
  {
    signature + Enc16(|cells|) + Words(cells)
  }

  predicate Small(cells: seq<nat>) { forall i :: 0 <= i < |cells| ==> cells[i] < 0x1_0000_0000 }

  /** The parts of a slice. */
  lemma SliceParts(b: bytes, o: nat, u: bytes, w: bytes)
    requires o + |u| + |w| <= |b| && b[o..o + |u| + |w|] == u + w
    ensures b[o..o + |u|] == u && b[o + |u|..o + |u| + |w|] == w
  {
    var all := b[o..o + |u| + |w|];
    assert forall k :: 0 <= k < |u| ==> all[k] == b[o + k] && (u + w)[k] == u[k];
    assert forall k :: 0 <= k < |w| ==> all[|u| + k] == b[o + |u| + k] && (u + w)[|u| + k] == w[k];
  }

  /** Some words and one more, as they lie in a body. */
  lemma WordsApart(b: bytes, cells: seq<nat>, n: nat)
    requires |cells| == n + 1 && 4 + 4 * |cells| <= |b| && b[4..4 + 4 * |cells|] == Words(cells)
    ensures b[4..4 + 4 * n] == Words(cells[..n]) && b[4 + 4 * n..4 + 4 * n + 4] == Enc32(cells[n])
  {
    hide Enc32;
    SliceParts(b, 4, Words(cells[..n]), Enc32(cells[n]));
  }

  lemma {:induction false} WordsRead(b: bytes, cells: seq<nat>)
    requires 4 + 4 * |cells| <= |b| && b[4..4 + 4 * |cells|] == Words(cells) && Small(cells)
    ensures Entries(b, false, |cells|) == cells
  {
    hide LE, U32, Words, Enc32;
    if cells == [] {
      NoEntries(b, false);
    } else {
      var n := |cells| - 1;
      WordsApart(b, cells, n);
      WordsRead(b, cells[..n]);
      WordRead(b, 4 + 4 * n, cells[n]);
      assert cells == cells[..n] + [cells[n]];
      EntryAt(b, false, n, n + 1);
    }
  }

  lemma WordRead(b: bytes, o: nat, v: nat)
    requires o + 4 <= |b| && b[o..o + 4] == Enc32(v) && v < 0x1_0000_0000
    ensures U32(b, o) == v
  {
    hide LE;
    U32Enc(v);
  }

  /** An index body reads back as the cells it was made from, as far as its 16-bit count reaches. */
  lemma BodyRead(signature: bytes, cells: seq<nat>, stored: bytes)
    requires (signature == LI || signature == RI) && IndexBody(signature, cells) <= stored && Small(cells)
    ensures 4 <= |stored| && stored[..2] == signature && Count(stored) == |cells| % 0x1_0000 && !IsWide(stored) && Fits(stored)
    ensures AllEntries(stored) == cells[..|cells| % 0x1_0000]
  {
    hide LE, Entries, Words, U32;
    var b := IndexBody(signature, cells);
    assert stored[..2] == b[..2] == signature;
    assert stored[2..4] == b[2..4] == Enc16(|cells|);
    U16Enc(|cells|);
    assert stored[4..4 + 4 * |cells|] == b[4..] == Words(cells);
    WordsRead(stored, cells);
    EntriesPrefix(stored, false, |cells| % 0x1_0000, |cells|);
  }

  /** The number of leaves for n cells, and how many of the n cells a reader can reach. */
  function Leaves(n: nat): nat { (n + ENTRIES - 1) / ENTRIES }

  function Reach(n: nat): nat {
    if n <= ENTRIES then n
    else if Leaves(n) % 0x1_0000 * ENTRIES < n then Leaves(n) % 0x1_0000 * ENTRIES else n
  }

  /** All cells are reachable exactly when the leaves can be counted in 16 bits. */
  lemma ReachAll(n: nat)
    ensures Reach(n) <= n && (Reach(n) == n <==> Leaves(n) <= 0xffff)
  {
  }

  function FromLeaves(s: seq<nat>): Forest {
    if s == [] then Nil else More(Leaf(s[0]), FromLeaves(s[1..]))
  }

  ghost predicate AreLeaves(live: Live, s: seq<nat>) {
    forall i :: 0 <= i < |s| ==> s[i] in live && IsLeaf(live[s[i]]) && Fits(live[s[i]])
  }

  ghost function Gather(live: Live, s: seq<nat>): seq<nat>
    requires AreLeaves(live, s)
  {
    if s == [] then [] else AllEntries(live[s[0]]) + Gather(live, s[1..])
  }

  lemma {:induction false} LeavesForest(live: Live, s: seq<nat>)
    requires AreLeaves(live, s)
    ensures var f := FromLeaves(s);
            Roots(f) == s && CellsAll(f) == s && HoldsAll(live, f) && ListedAll(live, f) == Gather(live, s) && HeightAll(f) == 0
  {
    if s != [] {
      LeavesForest(live, s[1..]);
      assert s == [s[0]] + s[1..];
    }
  }

  /** Leaf i holds the i-th slice of the cells. */
  ghost predicate Sliced(live: Live, s: seq<nat>, cells: seq<nat>) {
    && AreLeaves(live, s)
    && forall i :: 0 <= i < |s| ==>
         ENTRIES * i <= |cells| && AllEntries(live[s[i]]) == cells[ENTRIES * i..Min(ENTRIES * i + ENTRIES, |cells|)]
  }

  lemma {:induction false} GatherSliced(live: Live, s: seq<nat>, cells: seq<nat>)
    requires Sliced(live, s, cells)
    ensures Gather(live, s) == cells[..Min(ENTRIES * |s|, |cells|)]
  {
    hide AllEntries, IsLeaf, Fits;
    if s != [] {
      var n := |s| - 1;
      assert Sliced(live, s[..n], cells);
      GatherSliced(live, s[..n], cells);
      GatherSnoc(live, s[..n], s[n]);
      assert s == s[..n] + [s[n]];
    }
  }

  lemma {:induction false} GatherSnoc(live: Live, s: seq<nat>, c: nat)
    requires AreLeaves(live, s) && c in live && IsLeaf(live[c]) && Fits(live[c])
    ensures AreLeaves(live, s + [c]) && Gather(live, s + [c]) == Gather(live, s) + AllEntries(live[c])
  {
    hide AllEntries, IsLeaf, Fits;
    if s != [] {
      assert (s + [c])[1..] == s[1..] + [c];
      assert AreLeaves(live, s[1..]);
      GatherSnoc(live, s[1..], c);
    } else {
      assert s + [c] == [c];
      assert [c][1..] == [];
    }
  }

  /** Stores one index cell. */
  method WriteIndexCell(store: Hive, signature: bytes, cells: seq<nat>) returns (r: Result<nat>)
    requires store.Valid() && (signature == LI || signature == RI) && Small(cells) && |store.data| + 4 * |cells| + 0x1100 <= LIMIT
    modifies store.Repr
    ensures store.Valid() && fresh(store.Repr - old(store.Repr)) && old(store.Starts()) <= store.Starts()
            && |store.data| <= |old(store.data)| + 4 * |cells| + 0x1100
    ensures old(store.Live()) != map[] ==> r.Success?
    ensures r.Success? ==>
              && r.value !in old(store.Live()) && store.Live().Keys == old(store.Live()).Keys + {r.value}
              && (forall k :: k in old(store.Live()) ==> store.Live()[k] == old(store.Live())[k])
              && 4 <= |store.Live()[r.value]| && store.Live()[r.value][..2] == signature && Fits(store.Live()[r.value])
              && AllEntries(store.Live()[r.value]) == cells[..|cells| % 0x1_0000]
              && r.value < 0x1_0000_0000
  {
    hide Hive.Valid, Hive.Live, Hive.Starts, LE, AllEntries, IndexBody, Fits, Align, U32;
    RoomFor(store.legacy, IndexBody(signature, cells));
    var cell, found, stored := store.AllocateCell(IndexBody(signature, cells));
    r := cell;
    if r.Success? {
      BodyRead(signature, cells, stored);
      store.CellsBelow();
    }
  }

  /** Stores the index of a list of keys: one leaf, or an "ri" cell over leaves. */
  method WriteSubkeyList(store: Hive, cells: seq<nat>) returns (r: Result<nat>, ghost t: IndexTree)
    requires store.Valid() && Small(cells) && store.Live() != map[] && |store.data| + 0x2200 * Leaves(|cells|) + 0x2200 <= LIMIT
    modifies store.Repr
    ensures store.Valid() && fresh(store.Repr - old(store.Repr)) && old(store.Starts()) <= store.Starts() && r.Success?
    ensures |store.data| <= |old(store.data)| + 0x2200 * Leaves(|cells|) + 0x2200
    ensures t.cell == r.value && Holds(store.Live(), t) && Listed(store.Live(), t) == cells[..Reach(|cells|)]
    ensures old(store.Live()).Keys <= store.Live().Keys && forall k :: k in old(store.Live()) ==> store.Live()[k] == old(store.Live())[k]
    ensures Distinct(Cells(t)) && (forall c :: c in Cells(t) ==> c in store.Live() && c !in old(store.Live()))
    ensures Room(t, 0, {}) && r.value < 0x1_0000_0000
    ensures Leaves(|cells|) <= 0xffff ==> store.Live().Keys == old(store.Live()).Keys + Elements(Cells(t))
  {
    hide Hive.Valid, Hive.Live, Hive.Starts, LE, AllEntries, Fits, U32, Elements;
    if |cells| <= ENTRIES {
      r := WriteIndexCell(store, LI, cells);
      t := Leaf(r.value);
      assert cells[..|cells| % 0x1_0000] == cells;
      assert Elements(Cells(t)) == {r.value} by { OneElement(r.value); }
    } else {
      r, t := WriteTwoLevels(store, cells);
    }
  }

  lemma OneElement(c: nat)
    ensures Elements([c]) == {c}
  {
  }

  method WriteLeaves(store: Hive, cells: seq<nat>) returns (leaves: seq<nat>)
    requires store.Valid() && Small(cells) && store.Live() != map[] && |store.data| + 0x2100 * Leaves(|cells|) <= LIMIT
    modifies store.Repr
    ensures store.Valid() && fresh(store.Repr - old(store.Repr)) && old(store.Starts()) <= store.Starts()
            && |store.data| <= |old(store.data)| + 0x2100 * Leaves(|cells|)
    ensures |leaves| == Leaves(|cells|) && Small(leaves) && Sliced(store.Live(), leaves, cells)
    ensures Grown(old(store.Live()), store.Live(), leaves)
  {
    hide Hive.Valid, Hive.Live, Hive.Starts, LE, AllEntries, Fits, U32, Elements, IsLeaf, Sliced, Grown;
    leaves := [];
    var i := 0;
    GrownStart(store.Live());
    assert Sliced(store.Live(), leaves, cells) by { SlicedStart(store.Live(), cells); }
    while i < |cells|
      invariant store.Valid() && fresh(store.Repr - old(store.Repr)) && old(store.Starts()) <= store.Starts()
                && |store.data| <= |old(store.data)| + 0x2100 * |leaves|
      invariant i == ENTRIES * |leaves| && |leaves| <= Leaves(|cells|) && Small(leaves)
      invariant Sliced(store.Live(), leaves, cells) && Grown(old(store.Live()), store.Live(), leaves)
    {
      var end := Min(i + ENTRIES, |cells|);
      ghost var live := store.Live();
      GrownNonEmpty(old(store.Live()), live, leaves);
      var leaf := WriteIndexCell(store, LI, cells[i..end]);
      assert cells[i..end][..|cells[i..end]| % 0x1_0000] == cells[i..end];
      assert IsLeaf(store.Live()[leaf.value]) by { LeafSign(store.Live()[leaf.value]); }
      GrownNext(old(store.Live()), live, leaves, store.Live(), leaf.value);
      SlicedNext(live, store.Live(), leaves, leaf.value, cells);
      leaves := leaves + [leaf.value];
      i := i + ENTRIES;
    }
  }

  lemma LeafSign(b: bytes)
    requires 4 <= |b| && b[..2] == LI
    ensures IsLeaf(b)
  {
  }

  /** `more` is `live` with new distinct cells and nothing else changed. */
  ghost predicate Grown(live: Live, more: Live, cells: seq<nat>) {
    && more.Keys == live.Keys + Elements(cells) && (forall k :: k in live ==> more[k] == live[k])
    && Distinct(cells) && forall c :: c in cells ==> c !in live
  }

  lemma GrownStart(live: Live)
    ensures Grown(live, live, [])
  {
  }

  lemma GrownNonEmpty(live: Live, more: Live, cells: seq<nat>)
    requires Grown(live, more, cells) && live != map[]
    ensures more != map[]
  {
    var k :| k in live;
    assert k in more;
  }

  lemma GrownNext(live: Live, more: Live, cells: seq<nat>, last: Live, c: nat)
    requires Grown(live, more, cells) && c !in more && last.Keys == more.Keys + {c} && forall k :: k in more ==> last[k] == more[k]
    ensures Grown(live, last, cells + [c])
  {
    assert forall k :: k in live ==> k in more;
    assert forall k :: k in cells ==> k in more;
    ElementsCat(cells, [c]);
  }

  lemma SlicedStart(live: Live, cells: seq<nat>)
    ensures Sliced(live, [], cells)
  {
  }

  lemma SlicedNext(live: Live, more: Live, s: seq<nat>, c: nat, cells: seq<nat>)
    requires Sliced(live, s, cells) && (forall k :: k in live ==> k in more && more[k] == live[k])
    requires ENTRIES * |s| <= |cells| && c in more && IsLeaf(more[c]) && Fits(more[c])
             && AllEntries(more[c]) == cells[ENTRIES * |s|..Min(ENTRIES * |s| + ENTRIES, |cells|)]
    ensures Sliced(more, s + [c], cells)
  {
    hide AllEntries, IsLeaf, Fits;
  }

  lemma SlicedFrame(live: Live, more: Live, s: seq<nat>, cells: seq<nat>)
    requires Sliced(live, s, cells) && (forall k :: k in live ==> k in more && more[k] == live[k])
    ensures Sliced(more, s, cells)
  {
    hide AllEntries, IsLeaf, Fits;
  }

  /** The index an "ri" cell over the first k leaves makes. */
  lemma PrefixTree(live: Live, s: seq<nat>, k: nat, cells: seq<nat>, root: nat)
    requires Sliced(live, s, cells) && k <= |s| && k == |s| % 0x1_0000 && |s| == Leaves(|cells|) && ENTRIES < |cells|
    requires root in live && IsBranch(live[root]) && Fits(live[root]) && AllEntries(live[root]) == s[..k] && Distinct(s) && root !in s
    ensures var t := Branch(root, FromLeaves(s[..k]));
            && Holds(live, t) && Listed(live, t) == cells[..Reach(|cells|)] && Cells(t) == [root] + s[..k] && Distinct(Cells(t))
                && Room(t, 0, {})
  {
    hide AllEntries, IsLeaf, Fits, IsBranch;
    LeavesForest(live, s[..k]);
    GatherSliced(live, s[..k], cells);
  }

  lemma AllElements(live: Live, more: Live, s: seq<nat>, root: nat, last: Live, k: nat)
    requires Grown(live, more, s) && root !in more && last.Keys == more.Keys + {root} && (forall k :: k in more ==> last[k] == more[k])
             && k <= |s|
    ensures root !in s && Distinct(s) && live.Keys <= last.Keys && forall k :: k in live ==> last[k] == live[k]
    ensures forall c :: c in [root] + s[..k] ==> c in last && c !in live
    ensures last.Keys == live.Keys + Elements([root] + s)
  {
    assert forall k :: k in live ==> k in more;
    ElementsCat([root], s);
    assert forall c :: c in s ==> c in Elements(s);
    assert root !in s;
    assert forall c :: c in s[..k] ==> c in s;
  }

  method WriteTwoLevels(store: Hive, cells: seq<nat>) returns (r: Result<nat>, ghost t: IndexTree)
    requires store.Valid() && Small(cells) && store.Live() != map[] && |store.data| + 0x2200 * Leaves(|cells|) + 0x2200 <= LIMIT
             && ENTRIES < |cells|
    modifies store.Repr
    ensures store.Valid() && fresh(store.Repr - old(store.Repr)) && old(store.Starts()) <= store.Starts() && r.Success?
    ensures |store.data| <= |old(store.data)| + 0x2200 * Leaves(|cells|) + 0x2200
    ensures t.cell == r.value && Holds(store.Live(), t) && Listed(store.Live(), t) == cells[..Reach(|cells|)]
    ensures old(store.Live()).Keys <= store.Live().Keys && forall k :: k in old(store.Live()) ==> store.Live()[k] == old(store.Live())[k]
    ensures Distinct(Cells(t)) && (forall c :: c in Cells(t) ==> c in store.Live() && c !in old(store.Live()))
    ensures Room(t, 0, {}) && r.value < 0x1_0000_0000
    ensures Leaves(|cells|) <= 0xffff ==> store.Live().Keys == old(store.Live()).Keys + Elements(Cells(t))
  {
    hide Hive.Valid, Hive.Live, Hive.Starts, LE, AllEntries, Fits, U32, Elements, Grown, Sliced, Room, Distinct, Holds, Listed, Cells;
    ghost var start := store.Live();
    var leaves := WriteLeaves(store, cells);
    ghost var live := store.Live();
    GrownNonEmpty(start, live, leaves);
    r := WriteIndexCell(store, RI, leaves);
    ghost var k := |leaves| % 0x1_0000;
    AllElements(start, live, leaves, r.value, store.Live(), k);
    SlicedFrame(live, store.Live(), leaves, cells);
    PrefixTree(store.Live(), leaves, k, cells, r.value);
    t := Branch(r.value, FromLeaves(leaves[..k]));
    if Leaves(|cells|) <= 0xffff {
      assert leaves[..k] == leaves;
    }
  }
}
