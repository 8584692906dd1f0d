/** Deleting a key: which cells a subtree owns, and freeing each of them once. */
module KeyDeletion {
  import opened Bytes
  import opened HiveLayout
  import opened HiveImage
  import opened MutableHive
  import opened SecurityRing
  import opened SubkeyIndex
  import opened HivePatch

  const VK: bytes := [118, 107]
  const DB: bytes := [100, 98]

  /** Values above this size are stored in segments, from format 1.4 on. */
  const SEGMENT: nat := 0x3fd8

  // ----- values

  /** How a value is stored: in its own cell, in a data cell, or in listed segments. */
  datatype ValueTree =
    | Inline(cell: nat)
    | Direct(cell: nat, data: nat)
    | Big(cell: nat, data: nat, list: nat, segments: seq<nat>)

  datatype Values = NoValue | AndValue(head: ValueTree, tail: Values)

  function ValueParts(v: ValueTree): seq<nat> {
    match v
    case Inline(c) => [c]
    case Direct(c, d) => [d, c]
    case Big(c, d, l, s) => s + [l, d, c]
  }

  function AllParts(vs: Values): seq<nat> {
    match vs
    case NoValue => []
    case AndValue(v, ws) => ValueParts(v) + AllParts(ws)
  }

  function ValueRoots(vs: Values): seq<nat> {
    match vs
    case NoValue => []
    case AndValue(v, ws) => [v.cell] + ValueRoots(ws)
  }

  predicate IsValue(b: bytes) { 0x14 <= |b| && b[..2] == VK }

  /** The first n words of a cell. */
  function Row(b: bytes, n: nat): (s: seq<nat>)
    requires 4 * n <= |b|
    ensures |s| == n
  {
    if n == 0 then [] else Row(b, n - 1) + [U32(b, 4 * n - 4)]
  }

  lemma {:induction false} RowPrefix(b: bytes, i: nat, n: nat)
    requires i <= n && 4 * n <= |b|
    ensures Row(b, i) == Row(b, n)[..i]
    ensures i < n ==> Row(b, n)[i] == U32(b, 4 * i) && Row(b, i + 1) == Row(b, i) + [U32(b, 4 * i)]
    decreases n
  {
    hide LE, U32;
    if i < n {
      RowPrefix(b, i, n - 1);
      if i + 1 < n { RowPrefix(b, i + 1, n - 1); }
    }
  }

  function Segments(length: nat): nat { (length + SEGMENT - 1) / SEGMENT }

  predicate IsBig(b: bytes) { 8 <= |b| && b[..2] == DB }

  ghost predicate HoldsBig(live: Live, length: nat, data: bytes, list: nat, segments: seq<nat>) {
    && IsBig(data) && U16(data, 2) == |segments| == Segments(length) && U32(data, 4) == list
    && list in live && 4 * |segments| <= |live[list]| && Row(live[list], |segments|) == segments
    && forall s :: s in segments ==> s in live
  }

  ghost predicate HoldsValue(live: Live, minor: nat, v: ValueTree) {
    && v.cell in live && IsValue(live[v.cell])
    && var length, data := U32(live[v.cell], 4), U32(live[v.cell], 8);
       match v
       case Inline(_) => length == 0 || 0x8000_0000 <= length <= 0x8000_0004
       case Direct(_, d) =>
         0 < length < 0x8000_0000 && (length <= SEGMENT || minor < 4) && d == data && d in live && length <= |live[d]|
       case Big(_, d, list, segments) =>
         SEGMENT < length < 0x8000_0000 && minor >= 4 && d == data && d in live && HoldsBig(live, length, live[d], list, segments)
  }

  ghost predicate HoldsValues(live: Live, minor: nat, vs: Values) {
    match vs
    case NoValue => true
    case AndValue(v, ws) => HoldsValue(live, minor, v) && HoldsValues(live, minor, ws)
  }

  lemma {:induction false} ValueFrame(live: Live, m: Live, minor: nat, v: ValueTree)
    requires HoldsValue(live, minor, v) && forall c :: c in ValueParts(v) ==> c in m && c in live && m[c] == live[c]
    ensures HoldsValue(m, minor, v)
  {
    hide LE, U32, U16, Row;
    assert v.cell in ValueParts(v);
    match v {
      case Inline(_) =>
      case Direct(_, d) => assert d in ValueParts(v);
      case Big(_, d, l, s) =>
        assert d in ValueParts(v) && l in ValueParts(v);
        assert forall c :: c in s ==> c in ValueParts(v);
    }
  }

  lemma {:induction false} ValuesFrame(live: Live, m: Live, minor: nat, vs: Values)
    requires HoldsValues(live, minor, vs) && forall c :: c in AllParts(vs) ==> c in m && c in live && m[c] == live[c]
    ensures HoldsValues(m, minor, vs)
  {
    if vs.AndValue? {
      ValueFrame(live, m, minor, vs.head);
      ValuesFrame(live, m, minor, vs.tail);
    }
  }

  lemma {:induction false} ValuesLive(live: Live, minor: nat, vs: Values)
    requires HoldsValues(live, minor, vs)
    ensures forall c :: c in AllParts(vs) ==> c in live
    ensures forall c :: c in ValueRoots(vs) ==> c in live && IsValue(live[c])
  {
    hide LE, U32, U16, Row;
    if vs.AndValue? { ValuesLive(live, minor, vs.tail); }
  }

  /** Frees the cells that the first n words of a list name. */
  method FreeRow(store: Hive, list: bytes, n: nat) returns (ok: bool)
    requires store.Valid() && 4 * n <= |list| && Distinct(Row(list, n)) && forall c :: c in Row(list, n) ==> c in store.Live()
    modifies store.Repr
    ensures ok && store.Valid() && fresh(store.Repr - old(store.Repr)) && old(store.Starts()) <= store.Starts()
            && |store.data| == |old(store.data)|
    ensures store.Live() == old(store.Live()) - Elements(Row(list, n))
  {
    hide Hive.Valid, Hive.Live, Hive.Starts, LE, U32, Row;
    ok := true;
    var i := 0;
    RowPrefix(list, 0, n);
    while i < n && ok
      invariant ok && i <= n && store.Valid() && fresh(store.Repr - old(store.Repr)) && old(store.Starts()) <= store.Starts()
                && |store.data| == |old(store.data)|
      invariant store.Live() == old(store.Live()) - Elements(Row(list, n)[..i])
    {
      RowPrefix(list, i, n);
      var row := Row(list, n);
      assert row[i] in row && row[i] !in row[..i];
      MinusSnoc(old(store.Live()), row[..i], row[i]);
      assert row[..i + 1] == row[..i] + [row[i]];
      var f := store.FreeCell(U32(list, 4 * i));
      ok := f.Success?;
      i := i + 1;
    }
    assert Row(list, n)[..n] == Row(list, n);
  }

  lemma MinusSnoc(live: Live, a: seq<nat>, c: nat)
    ensures live - Elements(a) - {c} == live - Elements(a + [c])
  {
    ElementsCat(a, [c]);
    assert Elements([c]) == {c};
  }

  lemma MinusCat(live: Live, a: seq<nat>, b: seq<nat>)
    ensures live - Elements(a) - Elements(b) == live - Elements(a + b)
  {
    ElementsCat(a, b);
  }

  /** Frees the segments of a large value and the list that names them. */
  method FreeBig(store: Hive, length: nat, data: bytes, ghost list: nat, ghost segments: seq<nat>) returns (ok: bool)
    requires store.Valid() && HoldsBig(store.Live(), length, data, list, segments) && Distinct(segments + [list])
    modifies store.Repr
    ensures ok && store.Valid() && fresh(store.Repr - old(store.Repr)) && old(store.Starts()) <= store.Starts()
            && |store.data| == |old(store.data)|
    ensures store.Live() == old(store.Live()) - Elements(segments + [list])
  {
    hide Hive.Valid, Hive.Live, Hive.Starts, LE, U32, U16, Row, Distinct, Elements;
    ok := false;
    DistinctParts(segments, [list]);
    ListOutside(segments, list);
    if 8 <= |data| && data[..2] == DB && U16(data, 2) == Segments(length) {
      var cell, count := U32(data, 4), U16(data, 2);
      var body := store.Body(cell);
      if body.Success? && 4 * count <= |body.value| {
        MinusSnoc(store.Live(), segments, list);
        ok := FreeRow(store, body.value, count);
        var f := store.FreeCell(cell);
        ok := f.Success?;
      }
    }
  }

  lemma ListOutside(s: seq<nat>, c: nat)
    requires Distinct(s + [c])
    ensures c !in s && c !in Elements(s)
  {
    var t := s + [c];
    assert t[|s|] == c;
    assert forall i :: 0 <= i < |s| ==> t[i] == s[i];
  }

  /** Frees a value: its data however it is stored, then its own cell. */
  method FreeValue(store: Hive, minor: nat, cell: nat, ghost v: ValueTree) returns (ok: bool)
    requires store.Valid() && HoldsValue(store.Live(), minor, v) && v.cell == cell && Distinct(ValueParts(v))
    modifies store.Repr
    ensures ok && store.Valid() && fresh(store.Repr - old(store.Repr)) && old(store.Starts()) <= store.Starts()
            && |store.data| == |old(store.data)|
    ensures store.Live() == old(store.Live()) - Elements(ValueParts(v))
  {
    hide Hive.Valid, Hive.Live, Hive.Starts, LE, U32, U16, HoldsBig, Distinct, Elements, HoldsValue;
    ok := false;
    ghost var live := store.Live();
    ghost var parts := ValueParts(v);
    ghost var before := parts[..|parts| - 1];
    OpenValue(live, minor, v);
    var value := store.Body(cell);
    if value.Success? && 0x14 <= |value.value| && value.value[..2] == VK {
      var length := U32(value.value, 4);
      if length != 0 && length < 0x8000_0000 {
        ok := FreeData(store, minor, length, U32(value.value, 8), v);
      } else {
        ok := length == 0 || length - 0x8000_0000 <= 4;
        assert live - Elements<nat>([]) == live by { NoneGone(live); }
      }
      if ok {
        MinusSnoc(live, before, cell);
        var f := store.FreeCell(cell);
        ok := f.Success?;
      }
    }
  }

  lemma NoneGone(live: Live)
    ensures live - Elements<nat>([]) == live
  {
    assert Elements<nat>([]) == {};
  }

  /** What a stored value says about its cells. */
  lemma OpenValue(live: Live, minor: nat, v: ValueTree)
    requires HoldsValue(live, minor, v) && Distinct(ValueParts(v))
    ensures v.cell in live && IsValue(live[v.cell])
    ensures var length := U32(live[v.cell], 4);
            && (v.Inline? <==> length == 0 || 0x8000_0000 <= length) && (v.Inline? ==> length == 0 || length - 0x8000_0000 <= 4)
            && (!v.Inline? ==> v.data == U32(live[v.cell], 8) && v.data in live)
            && (v.Big? <==> SEGMENT < length < 0x8000_0000 && minor >= 4)
            && (v.Big? ==> HoldsBig(live, length, live[v.data], v.list, v.segments) && Distinct(v.segments + [v.list]))
            && (v.Direct? ==> length <= |live[v.data]|)
    ensures var parts := ValueParts(v); var before := parts[..|parts| - 1];
            && parts == before + [v.cell] && v.cell !in Elements(before)
            && (v.Inline? ==> before == []) && (v.Direct? ==> before == [v.data])
                && (v.Big? ==> before == v.segments + [v.list] + [v.data] && v.data !in Elements(v.segments + [v.list]))
  {
    hide LE, U32, U16, Row;
    var parts := ValueParts(v);
    var before := parts[..|parts| - 1];
    assert parts == before + [v.cell];
    ListOutside(before, v.cell);
    DistinctParts(before, [v.cell]);
    if v.Big? {
      assert before == v.segments + [v.list] + [v.data];
      ListOutside(v.segments + [v.list], v.data);
      DistinctParts(v.segments + [v.list], [v.data]);
    }
  }

  method FreeData(store: Hive, minor: nat, length: nat, dataCell: nat, ghost v: ValueTree) returns (ok: bool)
    requires store.Valid() && HoldsValue(store.Live(), minor, v) && Distinct(ValueParts(v)) && !v.Inline?
    requires U32(store.Live()[v.cell], 4) == length && U32(store.Live()[v.cell], 8) == dataCell
    modifies store.Repr
    ensures ok && store.Valid() && fresh(store.Repr - old(store.Repr)) && old(store.Starts()) <= store.Starts()
            && |store.data| == |old(store.data)|
    ensures store.Live() == old(store.Live()) - Elements(ValueParts(v)[..|ValueParts(v)| - 1])
  {
    hide Hive.Valid, Hive.Live, Hive.Starts, LE, U32, U16, HoldsBig, Distinct, Elements, HoldsValue, ValueParts;
    ok := false;
    ghost var live := store.Live();
    OpenValue(live, minor, v);
    var data := store.Body(dataCell);
    if data.Success? {
      if length > SEGMENT && minor >= 4 {
        MinusSnoc(live, v.segments + [v.list], dataCell);
        ok := FreeBig(store, length, data.value, v.list, v.segments);
      } else {
        ok := length <= |data.value|;
        NoneGone(live);
        MinusSnoc(live, [], dataCell);
        assert [] + [dataCell] == [dataCell];
      }
      if ok {
        var f := store.FreeCell(dataCell);
        ok := f.Success?;
      }
    }
  }

  /** Of some cells those that hold values, in order; freed cells and others are passed over, and a cell that cannot be read ends it. */
  function KeepValues(data: bytes, legacy: bool, cells: seq<nat>): Result<seq<nat>> {
    if cells == [] then Success([])
    else
      var n := |cells| - 1;
      match KeepValues(data, legacy, cells[..n])
      case Failure(e) => Failure(e)
      case Success(kept) =>
        match CellBody(data, legacy, cells[n])
        case Failure(e) => if e == Freed then Success(kept) else Failure(e)
        case Success(v) => Success(if IsValue(v) then kept + [cells[n]] else kept)
  }

  /** The values a cell lists: none if it was freed, and no more than it has words for. */
  function ListedCells(data: bytes, legacy: bool, listCell: nat, count: nat): Result<seq<nat>> {
    match CellBody(data, legacy, listCell)
    case Failure(e) => if e == Freed then Success([]) else Failure(e)
    case Success(b) => KeepValues(data, legacy, Row(b, if count <= |b| / 4 then count else |b| / 4))
  }

  lemma RowStep(b: bytes, i: nat)
    requires 4 * i + 4 <= |b|
    ensures Row(b, i + 1) == Row(b, i) + [U32(b, 4 * i)] && Row(b, i + 1)[..i] == Row(b, i)
  {
    hide LE, U32;
  }

  lemma {:induction false} KeepFails(data: bytes, legacy: bool, b: bytes, i: nat, n: nat)
    requires i <= n && 4 * n <= |b| && KeepValues(data, legacy, Row(b, i)).Failure?
    ensures KeepValues(data, legacy, Row(b, n)) == KeepValues(data, legacy, Row(b, i))
    decreases n - i
  {
    hide LE, U32, CellBody;
    if i < n {
      RowStep(b, i);
      KeepFails(data, legacy, b, i + 1, n);
    }
  }

  /** The value cells a key lists, for any list and any count. */
  method ValueCells(store: Hive, listCell: nat, count: nat) returns (r: Result<seq<nat>>)
    requires store.Valid()
    ensures r == ListedCells(store.data, store.legacy, listCell, count)
  {
    hide Hive.Valid, Hive.Live, Hive.Starts, LE, U32, Row, CellBody, IsValue;
    r := Success([]);
    var list := store.Body(listCell);
    match list {
      case Failure(e) => if e != Freed { r := Failure(e); }
      case Success(b) =>
        var i := 0;
        ghost var n := if count <= |b| / 4 then count else |b| / 4;
        NoWords(b);
        while 4 * i + 4 <= |b| && i < count && r.Success?
          invariant i <= n && r == KeepValues(store.data, store.legacy, Row(b, i))
        {
          RowStep(b, i);
          var cell := U32(b, 4 * i);
          var value := store.Body(cell);
          match value {
            case Failure(e) => if e != Freed { r := Failure(e); }
            case Success(v) => if IsValue(v) { r := Success(r.value + [cell]); }
          }
          i := i + 1;
        }
        if r.Failure? { KeepFails(store.data, store.legacy, b, i, n); }
    }
  }

  lemma NoWords(b: bytes)
    ensures Row(b, 0) == []
  {
  }

  /** A list of live values is read as it is. */
  lemma {:induction false} KeepAll(data: bytes, legacy: bool, cells: seq<nat>)
    requires forall c :: c in cells ==> CellBody(data, legacy, c).Success? && IsValue(CellBody(data, legacy, c).value)
    ensures KeepValues(data, legacy, cells) == Success(cells)
  {
    hide CellBody, IsValue;
    if cells != [] {
      var n := |cells| - 1;
      assert forall c :: c in cells[..n] ==> c in cells;
      KeepAll(data, legacy, cells[..n]);
      assert cells[n] in cells && cells == cells[..n] + [cells[n]];
    }
  }

  lemma LiveReads(store: Hive, cell: nat)
    requires store.Valid() && cell in store.Live()
    ensures CellBody(store.data, store.legacy, cell) == Success(store.Live()[cell])
  {
    hide Image, LiveCells, CellBody;
    CellBodyOfImage(store.data, store.layout, store.legacy, cell);
  }

  lemma ListedLive(store: Hive, listCell: nat, count: nat)
    requires store.Valid() && listCell in store.Live() && 4 * count <= |store.Live()[listCell]|
    requires forall c :: c in Row(store.Live()[listCell], count) ==> c in store.Live() && IsValue(store.Live()[c])
    ensures ListedCells(store.data, store.legacy, listCell, count) == Success(Row(store.Live()[listCell], count))
  {
    hide Hive.Valid, Hive.Live, Hive.Starts, Row, CellBody, IsValue, KeepValues;
    LiveReads(store, listCell);
    var cells := Row(store.Live()[listCell], count);
    forall c | c in cells ensures CellBody(store.data, store.legacy, c) == Success(store.Live()[c]) { LiveReads(store, c); }
    KeepAll(store.data, store.legacy, cells);
  }

  method FreeValues(store: Hive, minor: nat, cells: seq<nat>, ghost values: Values) returns (ok: bool)
    requires store.Valid() && HoldsValues(store.Live(), minor, values) && ValueRoots(values) == cells && Distinct(AllParts(values))
    modifies store.Repr
    ensures ok && store.Valid() && fresh(store.Repr - old(store.Repr)) && old(store.Starts()) <= store.Starts()
            && |store.data| == |old(store.data)|
    ensures store.Live() == old(store.Live()) - Elements(AllParts(values))
  {
    hide Hive.Valid, Hive.Live, Hive.Starts, LE, HoldsValue, HoldsValues, AllParts, ValueParts, ValueRoots, Distinct, Elements;
    ok := true;
    ghost var vs, freed := values, [];
    var i := 0;
    NoneGone(store.Live());
    assert cells[0..] == cells;
    assert [] + AllParts(values) == AllParts(values);
    while i < |cells| && ok
      invariant ok && i <= |cells| && store.Valid() && fresh(store.Repr - old(store.Repr)) && old(store.Starts()) <= store.Starts()
                && |store.data| == |old(store.data)|
      invariant HoldsValues(store.Live(), minor, vs) && cells[i..] == ValueRoots(vs) && Distinct(AllParts(vs))
      invariant store.Live() == old(store.Live()) - Elements(freed) && freed + AllParts(vs) == AllParts(values)
    {
      ghost var live := store.Live();
      OpenValues(live, minor, vs);
      ok := FreeValue(store, minor, cells[i], vs.head);
      MinusCat(old(store.Live()), freed, ValueParts(vs.head));
      RestFrame(live, minor, vs);
      freed := freed + ValueParts(vs.head);
      vs := vs.tail;
      i := i + 1;
    }
    OpenValues(store.Live(), minor, vs);
    assert freed + [] == freed;
  }

  lemma OpenValues(live: Live, minor: nat, vs: Values)
    requires HoldsValues(live, minor, vs) && Distinct(AllParts(vs))
    ensures ValueRoots(vs) == [] ==> AllParts(vs) == []
    ensures ValueRoots(vs) != [] ==>
              && vs.AndValue? && HoldsValue(live, minor, vs.head) && ValueRoots(vs) == [vs.head.cell] + ValueRoots(vs.tail)
              && AllParts(vs) == ValueParts(vs.head) + AllParts(vs.tail) && Distinct(ValueParts(vs.head)) && Distinct(AllParts(vs.tail))
              && HoldsValues(live, minor, vs.tail)
  {
    if vs.AndValue? { DistinctParts(ValueParts(vs.head), AllParts(vs.tail)); }
  }

  lemma RestFrame(live: Live, minor: nat, vs: Values)
    requires HoldsValues(live, minor, vs) && Distinct(AllParts(vs)) && vs.AndValue?
    ensures HoldsValues(live - Elements(ValueParts(vs.head)), minor, vs.tail)
  {
    DistinctParts(ValueParts(vs.head), AllParts(vs.tail));
    ValuesLive(live, minor, vs);
    ValuesFrame(live, live - Elements(ValueParts(vs.head)), minor, vs.tail);
  }

  // ----- keys

  /** What a key owns besides its own cell and its subkeys. */
  datatype Node = Node(index: Option<IndexTree>, values: Values, list: nat, class_: Option<nat>)

  datatype KeyTree = Key(cell: nat, node: Node, kids: Keys)
  datatype Keys = NoKey | AndKey(head: KeyTree, tail: Keys)

  function ValueCount(vs: Values): nat { if vs.NoValue? then 0 else 1 + ValueCount(vs.tail) }

  function IndexCells(n: Node): seq<nat> { if n.index.Some? then Cells(n.index.value) else [] }
  function ListedValues(n: Node): seq<nat> { if n.values.AndValue? then AllParts(n.values) + [n.list] else [] }
  function ClassCell(n: Node): seq<nat> { if n.class_.Some? then [n.class_.value] else [] }
  function Owned(n: Node): seq<nat> { IndexCells(n) + (ListedValues(n) + ClassCell(n)) }

  function KeyCells(t: KeyTree): seq<nat> { KeyCellsAll(t.kids) + [t.cell] }

  function KeyCellsAll(f: Keys): seq<nat> {
    match f
    case NoKey => []
    case AndKey(t, g) => KeyCells(t) + KeyCellsAll(g)
  }

  /** Every cell a subtree owns. */
  function All(t: KeyTree): seq<nat> { AllAll(t.kids) + (Owned(t.node) + [t.cell]) }

  function AllAll(f: Keys): seq<nat> {
    match f
    case NoKey => []
    case AndKey(t, g) => All(t) + AllAll(g)
  }

  function KeyRoots(f: Keys): seq<nat> {
    match f
    case NoKey => []
    case AndKey(t, g) => [t.cell] + KeyRoots(g)
  }

  ghost predicate IndexHolds(live: Live, key: bytes, n: Node)
    requires IsKey(key)
  {
    && (n.index.Some? <==> U32(key, 0x14) > 0)
    && (n.index.Some? ==>
          && n.index.value.cell == U32(key, 0x1c) && Holds(live, n.index.value) && Distinct(Cells(n.index.value))
          && |Listed(live, n.index.value)| == U32(key, 0x14))
  }

  ghost predicate ValuesHold(live: Live, minor: nat, key: bytes, n: Node)
    requires IsKey(key)
  {
    && U32(key, 0x24) == |ValueRoots(n.values)| && HoldsValues(live, minor, n.values)
    && (n.values.AndValue? ==>
          && n.list == U32(key, 0x28) && n.list in live && 4 * U32(key, 0x24) <= |live[n.list]|
          && Row(live[n.list], U32(key, 0x24)) == ValueRoots(n.values))
  }

  ghost predicate ClassHolds(live: Live, key: bytes, n: Node)
    requires IsKey(key)
  {
    (n.class_.Some? <==> U16(key, 0x4a) != 0) && (n.class_.Some? ==> n.class_.value == U32(key, 0x30) && n.class_.value in live)
  }

  /** The store holds a key with what it owns. */
  ghost predicate NodeHolds(live: Live, minor: nat, k: nat, n: Node) {
    k in live && IsKey(live[k]) && IndexHolds(live, live[k], n) && ValuesHold(live, minor, live[k], n) && ClassHolds(live, live[k], n)
  }

  // ----- what a deletion does to the store and to the ring

  /** Exactly the owned cells and the security cells that left the ring are gone; outside
    * the ring nothing else changed, and in the ring only counts and links did. */
  ghost predicate After(live: Live, m: Live, ring: seq<nat>, rest: seq<nat>, owned: set<nat>) {
    && (forall c :: c in m <==> c in live && c !in owned && (c in ring ==> c in rest))
    && (forall c :: c in m && c !in ring ==> m[c] == live[c])
    && (forall c :: c in rest ==> c in ring && c in m && c in live && SameText(m[c], live[c]))
  }

  lemma AfterThen(live: Live, m: Live, n: Live, ring: seq<nat>, rest: seq<nat>, last: seq<nat>, a: set<nat>, b: set<nat>)
    requires After(live, m, ring, rest, a) && After(m, n, rest, last, b)
    ensures After(live, n, ring, last, a + b)
  {
    hide SameText;
    forall c | c in last ensures c in ring && c in n && c in live && SameText(n[c], live[c]) {
      SameTextThen(n[c], m[c], live[c]);
    }
  }

  lemma SameTextThen(a: bytes, b: bytes, c: bytes)
    requires SameText(a, b) && SameText(b, c)
    ensures SameText(a, c)
  {
  }

  lemma AfterFree(live: Live, ring: seq<nat>, keys: set<nat>, debt: nat, gone: set<nat>)
    requires Sound(live, ring, keys, debt) && forall c :: c in gone ==> c !in ring
    ensures After(live, live - gone, ring, ring, gone)
  {
    RingMembers(live, ring);
  }

  lemma Dropped(live: Live, gone: set<nat>, ring: seq<nat>, keys: set<nat>, debt: nat, cache: map<bytes, nat>)
    requires Sound(live, ring, keys, debt) && forall c :: c in gone ==> c !in ring && c !in keys
    ensures Sound(live - gone, ring, keys, debt) && (Cached(cache, live, ring) ==> Cached(cache, live - gone, ring))
  {
    hide LE, U32;
    RingMembers(live, ring);
    Elsewhere(live, live - gone, ring, keys, debt);
  }

  /** Frees the values of a key with their list, and its class. */
  method FreeRest(store: Hive, minor: nat, key: bytes, ghost n: Node) returns (ok: bool)
    requires store.Valid() && IsKey(key) && ValuesHold(store.Live(), minor, key, n) && ClassHolds(store.Live(), key, n)
    requires Distinct(ListedValues(n) + ClassCell(n))
    modifies store.Repr
    ensures ok && store.Valid() && fresh(store.Repr - old(store.Repr)) && old(store.Starts()) <= store.Starts()
            && |store.data| == |old(store.data)|
    ensures store.Live() == old(store.Live()) - Elements(ListedValues(n) + ClassCell(n))
  {
    hide Hive.Valid, Hive.Live, Hive.Starts, LE, U32, U16, ListedValues, ClassCell, Distinct, Elements, ValuesHold;
    ok := true;
    ghost var live := store.Live();
    DistinctParts(ListedValues(n), ClassCell(n));
    MinusCat(live, ListedValues(n), ClassCell(n));
    ListedOrNot(live, minor, key, n);
    NoneGone(live);
    if U32(key, 0x24) > 0 {
      ok := FreeListed(store, minor, key, n);
    }
    ClassOrNot(live, key, n);
    NoneGone(store.Live());
    if ok && U16(key, 0x4a) != 0 {
      var f := store.FreeCell(U32(key, 0x30));
      ok := f.Success?;
    }
  }

  lemma ListedOrNot(live: Live, minor: nat, key: bytes, n: Node)
    requires IsKey(key) && ValuesHold(live, minor, key, n)
    ensures U32(key, 0x24) == 0 <==> n.values.NoValue?
    ensures n.values.NoValue? ==> ListedValues(n) == []
  {
    hide LE, U32;
  }

  lemma ClassOrNot(live: Live, key: bytes, n: Node)
    requires IsKey(key) && ClassHolds(live, key, n) && Distinct(ListedValues(n) + ClassCell(n))
    ensures U16(key, 0x4a) == 0 ==> ClassCell(n) == []
    ensures U16(key, 0x4a) != 0 ==>
              ClassCell(n) == [U32(key, 0x30)] && Elements(ClassCell(n)) == {U32(key, 0x30)} && U32(key, 0x30) in live
              && U32(key, 0x30) !in Elements(ListedValues(n))
  {
    hide LE, U32, U16, ListedValues;
    if n.class_.Some? { ListOutside(ListedValues(n), n.class_.value); OneElement(n.class_.value); }
  }

  method FreeListed(store: Hive, minor: nat, key: bytes, ghost n: Node) returns (ok: bool)
    requires store.Valid() && IsKey(key) && ValuesHold(store.Live(), minor, key, n) && Distinct(ListedValues(n)) && U32(key, 0x24) > 0
    modifies store.Repr
    ensures ok && store.Valid() && fresh(store.Repr - old(store.Repr)) && old(store.Starts()) <= store.Starts()
            && |store.data| == |old(store.data)|
    ensures store.Live() == old(store.Live()) - Elements(ListedValues(n))
  {
    hide Hive.Valid, Hive.Live, Hive.Starts, LE, U32, U16, Distinct, Elements, HoldsValues, Row, ValueRoots, AllParts;
    ok := false;
    ListedOrNot(store.Live(), minor, key, n);
    DistinctParts(AllParts(n.values), [n.list]);
    ListOutside(AllParts(n.values), n.list);
    MinusSnoc(store.Live(), AllParts(n.values), n.list);
    ValuesLive(store.Live(), minor, n.values);
    ListedLive(store, U32(key, 0x28), U32(key, 0x24));
    var cells := ValueCells(store, U32(key, 0x28), U32(key, 0x24));
    if cells.Success? {
      ok := FreeValues(store, minor, cells.value, n.values);
      if ok {
        var f := store.FreeCell(U32(key, 0x28));
        ok := f.Success?;
      }
    }
  }

  /** A key whose index is gone, with its values and class still there. */
  ghost predicate Ready(live: Live, minor: nat, ring: seq<nat>, keys: set<nat>, cell: nat, key: bytes, n: Node) {
    && cell in keys && cell in live && live[cell] == key && IsKey(key) && ValuesHold(live, minor, key, n) && ClassHolds(live, key, n)
    && Distinct(ListedValues(n) + ClassCell(n)) && cell !in ListedValues(n) + ClassCell(n)
    && forall c :: c in ListedValues(n) + ClassCell(n) ==> c !in ring && c !in keys
  }

  /** The last steps of deleting a key whose children are gone: what it owns, its reference, its cell. */
  method FinishKey(p: Patch, minor: nat, cell: nat, key: bytes, ghost n: Node) returns (ok: bool)
    requires p.ValidOwing(NONE) && Ready(p.store.Live(), minor, p.ring, p.keys, cell, key, n)
    modifies p`securityCells, p`ring, p`keys, p.store.Repr
    ensures ok && p.ValidOwing(NONE) && fresh(p.store.Repr - old(p.store.Repr)) && old(p.store.Starts()) <= p.store.Starts()
            && |p.store.data| == |old(p.store.data)|
    ensures p.keys == old(p.keys) - {cell}
    ensures After(old(p.store.Live()), p.store.Live(), old(p.ring), p.ring, Elements(ListedValues(n) + ClassCell(n)) + {cell})
  {
    hide Hive.Valid, Hive.Live, Hive.Starts, LE, U32, U16, ListedValues, ClassCell, Distinct, ValuesHold, ClassHolds, Sound, Cached, After,
         SameText;
    ghost var live, gone, ring := p.store.Live(), Elements(ListedValues(n) + ClassCell(n)), p.ring;
    Dropped(live, gone, ring, p.keys, NONE, p.securityCells);
    AfterFree(live, ring, p.keys, NONE, gone);
    ok := FreeRest(p.store, minor, key, n);
    ghost var one := p.store.Live();
    KeyFacts(one, ring, p.keys);
    DropKey(one, ring, p.keys, cell);
    p.keys := p.keys - {cell};
    var o := p.ReleaseSecurity(U32(key, 0x2c));
    ghost var two := p.store.Live();
    Released(one, two, ring, p.ring, p.keys, U32(key, 0x2c));
    AfterThen(live, one, two, ring, ring, p.ring, gone, {});
    Dropped(two, {cell}, p.ring, p.keys, NONE, p.securityCells);
    AfterFree(two, p.ring, p.keys, NONE, {cell});
    var f := p.store.FreeCell(cell);
    ok := f.Success?;
    AfterThen(live, two, p.store.Live(), ring, p.ring, p.ring, gone + {}, {cell});
    assert gone + {} + {cell} == gone + {cell};
  }

  lemma Released(live: Live, m: Live, ring: seq<nat>, rest: seq<nat>, keys: set<nat>, c: nat)
    requires Sound(live, ring, keys, c)
    requires forall x :: x in live && x !in ring ==> x in m && m[x] == live[x]
    requires var last := c in ring && References(live[c]) == 1;
             m.Keys == live.Keys - (if last then {c} else {}) && forall x :: x in rest <==> x in ring && !(last && x == c)
    requires forall x :: x in rest ==> x in m && x in live && SameText(m[x], live[x])
    ensures After(live, m, ring, rest, {})
  {
    hide SameText, References, Sound;
    assert forall x :: x in m <==> x in m.Keys;
  }

  // ----- deleting a subtree

  function KeyHeight(t: KeyTree): nat { if t.kids.NoKey? then 0 else 1 + KeyHeightAll(t.kids) }

  function KeyHeightAll(f: Keys): nat {
    match f
    case NoKey => 0
    case AndKey(t, g) => if KeyHeight(t) < KeyHeightAll(g) then KeyHeightAll(g) else KeyHeight(t)
  }

  /** No key of the subtree has volatile children, and no index exceeds the limits of a walk. */
  ghost predicate Plain(live: Live, t: KeyTree) {
    && t.cell in live && IsKey(live[t.cell]) && U32(live[t.cell], 0x18) == 0
    && (t.node.index.Some? ==> Room(t.node.index.value, 0, {})) && PlainAll(live, t.kids)
  }

  ghost predicate PlainAll(live: Live, f: Keys) {
    match f
    case NoKey => true
    case AndKey(t, g) => Plain(live, t) && PlainAll(live, g)
  }

  /** The limits under which a deletion is not refused. */
  ghost predicate KeyRoom(live: Live, t: KeyTree, depth: nat, seen: set<nat>) {
    && depth + KeyHeight(t) <= 512 && |seen| + |KeyCells(t)| <= 0x10_0000 && (forall c :: c in KeyCells(t) ==> c !in seen)
    && Plain(live, t)
  }

  ghost predicate KeyRoomAll(live: Live, f: Keys, depth: nat, seen: set<nat>) {
    && (f.AndKey? ==> depth + KeyHeightAll(f) <= 512) && |seen| + |KeyCellsAll(f)| <= 0x10_0000
        && (forall c :: c in KeyCellsAll(f) ==> c !in seen)
    && PlainAll(live, f)
  }

  lemma {:induction false} KeysOwned(f: Keys)
    ensures forall c :: c in KeyCellsAll(f) ==> c in AllAll(f)
  {
    hide Owned;
    if f.AndKey? {
      KeyOwned(f.head);
      KeysOwned(f.tail);
    }
  }

  lemma {:induction false} KeyOwned(t: KeyTree)
    ensures forall c :: c in KeyCells(t) ==> c in All(t)
  {
    hide Owned;
    KeysOwned(t.kids);
    assert t.cell in Owned(t.node) + [t.cell];
  }

  lemma NodeLive(live: Live, minor: nat, k: nat, n: Node)
    requires NodeHolds(live, minor, k, n)
    ensures forall c :: c in Owned(n) ==> c in live
    ensures forall c :: c in ListedValues(n) + ClassCell(n) ==> c in live
  {
    hide LE, U32, U16, Row, Holds, HoldsValues;
    if n.index.Some? { HeldTree(live, n.index.value); }
    ValuesLive(live, minor, n.values);
  }

  lemma RestHolds(live: Live, m: Live, minor: nat, key: bytes, n: Node)
    requires IsKey(key) && ValuesHold(live, minor, key, n) && ClassHolds(live, key, n)
    requires forall c :: c in ListedValues(n) + ClassCell(n) ==> c in m && c in live && m[c] == live[c]
    ensures ValuesHold(m, minor, key, n) && ClassHolds(m, key, n)
  {
    hide LE, U32, U16, Row;
    assert forall c :: c in ListedValues(n) || c in ClassCell(n) ==> c in ListedValues(n) + ClassCell(n);
    if n.values.AndValue? {
      assert forall c :: c in AllParts(n.values) ==> c in ListedValues(n);
      assert n.list in ListedValues(n);
      ValuesFrame(live, m, minor, n.values);
    }
    if n.class_.Some? { assert n.class_.value in ClassCell(n); }
  }

  lemma NothingGone(live: Live, ring: seq<nat>, keys: set<nat>)
    requires Sound(live, ring, keys, NONE)
    ensures After(live, live, ring, ring, {})
  {
    hide LE, U32;
    RingMembers(live, ring);
  }

  /** A security cell survives a deletion exactly when one of the keys left still points at it. */
  lemma KeptWhileUsed(live: Live, m: Live, ring: seq<nat>, rest: seq<nat>, keys: set<nat>, left: set<nat>, owned: set<nat>, x: nat)
    requires Sound(live, ring, keys, NONE) && Sound(m, rest, left, NONE) && After(live, m, ring, rest, owned) && left <= keys && x in ring
    ensures x in rest <==> exists k :: k in left && k in live && IsKey(live[k]) && SecurityOf(live[k]) == x
    ensures x in rest ==> x in m
    ensures x !in rest ==> x !in m
  {
    hide LE, U32, SameText;
    RingMembers(live, ring);
    if x in rest {
      assert Users(m, left, x) != {};
      var k :| k in Users(m, left, x);
      assert k in left && live[k] == m[k];
    }
    forall k | k in left && k in live && IsKey(live[k]) ensures SecurityOf(live[k]) == NONE || SecurityOf(live[k]) in rest {
      assert live[k] == m[k];
    }
  }
}
