/** A patch transaction: pending child lists, published when the transaction commits. */
module HiveBatch {
  import opened Bytes
  import opened HiveLayout
  import opened HiveImage
  import opened MutableHive
  import opened SecurityRing
  import opened SubkeyIndex
  import opened HivePatch
  import opened KeyDeletion
  import opened StringOrder

  // ----- names and their order

  /** How text is read from a cell, folded, upper-cased, measured and written. */
  datatype Text = Text(decode: (bytes, nat) -> string, encode: string -> bytes, flags: nat, fold: string -> string, upper: string -> string,
      width: string -> nat)

  /** The order of an index: by upper-cased name, then name, then cell. */
  predicate Before(a: (string, string, nat), b: (string, string, nat)) {
    Less(a.0, b.0) || (a.0 == b.0 && (Less(a.1, b.1) || (a.1 == b.1 && a.2 < b.2)))
  }

  lemma BeforeTrans(a: (string, string, nat), b: (string, string, nat), c: (string, string, nat))
    requires Before(a, b) && Before(b, c)
    ensures Before(a, c)
  {
    if Less(a.0, b.0) && Less(b.0, c.0) { LessTrans(a.0, b.0, c.0); }
    if Less(a.1, b.1) && Less(b.1, c.1) { LessTrans(a.1, b.1, c.1); }
  }

  lemma BeforeTotal(a: (string, string, nat), b: (string, string, nat))
    ensures Before(a, b) || a == b || Before(b, a)
    ensures !(Before(a, b) && Before(b, a)) && !Before(a, a)
  {
    LessTotal(a.0, b.0);
    LessTotal(a.1, b.1);
    LessTotal(a.0, a.0);
    LessTotal(a.1, a.1);
  }

  predicate InOrder(s: seq<(string, string, nat)>) { forall i, j :: 0 <= i < j < |s| ==> Before(s[i], s[j]) }

  /** Sorts the items into index order. */
  method SortItems(items: seq<(string, string, nat)>) returns (s: seq<(string, string, nat)>)
    requires forall i, j :: 0 <= i < j < |items| ==> items[i] != items[j]
    ensures InOrder(s) && multiset(s) == multiset(items)
  {
    s := [];
    var n := 0;
    while n < |items|
      invariant 0 <= n <= |items| && InOrder(s) && multiset(s) == multiset(items[..n])
    {
      var x := items[n];
      assert items[..n + 1] == items[..n] + [x];
      NotYet(items, n, s);
      var i := |s|;
      while i > 0 && Before(x, s[i - 1])
        invariant 0 <= i <= |s| && forall k :: i <= k < |s| ==> Before(x, s[k])
      {
        i := i - 1;
      }
      PlaceItem(s, x, i);
      assert s == s[..i] + s[i..];
      s := s[..i] + [x] + s[i..];
      n := n + 1;
    }
    assert items[..n] == items;
  }

  lemma NotYet(items: seq<(string, string, nat)>, n: nat, s: seq<(string, string, nat)>)
    requires n < |items| && multiset(s) == multiset(items[..n]) && forall i, j :: 0 <= i < j < |items| ==> items[i] != items[j]
    ensures items[n] !in s
  {
    var x := items[n];
    assert x !in items[..n];
    assert x !in multiset(items[..n]);
    assert x in s <==> x in multiset(s);
  }

  lemma PlaceItem(s: seq<(string, string, nat)>, x: (string, string, nat), i: nat)
    requires InOrder(s) && i <= |s| && x !in s && (forall k :: i <= k < |s| ==> Before(x, s[k])) && (i > 0 ==> !Before(x, s[i - 1]))
    ensures InOrder(s[..i] + [x] + s[i..])
  {
    hide Before;
    var t := s[..i] + [x] + s[i..];
    if i > 0 {
      BeforeTotal(s[i - 1], x);
      forall k | 0 <= k < i - 1 ensures Before(s[k], x) { BeforeTrans(s[k], s[i - 1], x); }
    }
    forall a, b | 0 <= a < b < |t| ensures Before(t[a], t[b]) {
      assert t[a] == if a < i then s[a] else if a == i then x else s[a - 1];
      assert t[b] == if b < i then s[b] else if b == i then x else s[b - 1];
    }
  }

  // ----- the state of a transaction

  /** The pending children of a key by folded name, and whether they differ from the stored ones. */
  datatype Batch = Batch(cells: map<string, nat>, dirty: bool)

  predicate Named(b: bytes) { IsKey(b) && 0x4c + U16(b, 0x48) <= |b| }

  function NameIn(x: Text, b: bytes): string {
    if Named(b) then x.decode(b[0x4c..0x4c + U16(b, 0x48)], U16(b, 2)) else ""
  }

  ghost function NameOf(x: Text, live: Live, c: nat): string { if c in live then NameIn(x, live[c]) else "" }

  ghost function Folded(x: Text, live: Live, c: nat): string { x.fold(NameOf(x, live, c)) }

  /** The children the stored index of a key lists. */
  ghost function StoredChildren(live: Live, n: Node): seq<nat>
    requires n.index.Some? ==> Holds(live, n.index.value)
  {
    if n.index.Some? then Listed(live, n.index.value) else []
  }

  /** A key with what it owns, apart from the ring and from all keys. */
  ghost predicate Proper(live: Live, minor: nat, ring: seq<nat>, keys: set<nat>, k: nat, n: Node) {
    NodeHolds(live, minor, k, n) && Named(live[k]) && Distinct(Owned(n)) && forall c :: c in Owned(n) ==> c !in ring && c !in keys
  }

  ghost predicate Owns(live: Live, minor: nat, ring: seq<nat>, keys: set<nat>, nodes: map<nat, Node>) {
    && keys <= nodes.Keys && (forall k :: k in keys ==> Proper(live, minor, ring, keys, k, nodes[k]))
    && forall j, k, c :: j in keys && k in keys && c in Owned(nodes[j]) && c in Owned(nodes[k]) ==> j == k
  }

  /** Whatever a stored index lists is or was a cell, and what is still a key there is one of the keys. */
  ghost predicate Tracks(starts: set<nat>, live: Live, keys: set<nat>, n: Node) {
    n.index.Some? && Holds(live, n.index.value) ==>
      forall e :: e in Listed(live, n.index.value) ==> e in starts && (e in live && IsKey(live[e]) ==> e in keys)
  }

  ghost predicate Traced(starts: set<nat>, live: Live, keys: set<nat>, nodes: map<nat, Node>) {
    forall k :: k in keys && k in nodes ==> Tracks(starts, live, keys, nodes[k])
  }

  /** Every key has at most one parent, and the root has none. */
  ghost predicate Family(root: nat, keys: set<nat>, children: map<nat, set<nat>>, parents: map<nat, nat>) {
    && children.Keys == keys && root !in parents && parents.Keys <= keys
    && forall p, c :: p in keys && c in children[p] ==> c in keys && c in parents && parents[c] == p
  }

  /** The stored index of a key lists these children, as many as the key says. */
  ghost predicate Clean(live: Live, k: nat, n: Node, kids: set<nat>) {
    && k in live && IsKey(live[k]) && (n.index.Some? ==> Holds(live, n.index.value))
    && |StoredChildren(live, n)| == U32(live[k], 0x14) && Elements(StoredChildren(live, n)) == kids
  }

  /** The batch holds exactly these children, each under its folded name. */
  ghost predicate BatchOk(x: Text, live: Live, cells: map<string, nat>, kids: set<nat>) {
    && (forall s :: s in cells ==> cells[s] in kids && Folded(x, live, cells[s]) == s)
    && (forall c :: c in kids ==> Folded(x, live, c) in cells && cells[Folded(x, live, c)] == c)
  }

  ghost predicate Pending(x: Text, live: Live, keys: set<nat>, nodes: map<nat, Node>, children: map<nat, set<nat>>,
                          batches: map<nat, Batch>) {
    && nodes.Keys == keys && children.Keys == keys
    && (forall p :: p in batches ==> p in keys && BatchOk(x, live, batches[p].cells, children[p]))
    && (forall k :: k in keys ==> (k in batches && batches[k].dirty) || Clean(live, k, nodes[k], children[k]))
  }

  /** A transaction as it stands at one moment. */
  datatype State = State(live: Live, ring: seq<nat>, keys: set<nat>, nodes: map<nat, Node>, children: map<nat, set<nat>>,
      parents: map<nat, nat>, batches: map<nat, Batch>)

  /** What a transaction keeps of its keys, of what they own and of their links. */
  ghost predicate Stands(minor: nat, root: nat, s: State) {
    && Owns(s.live, minor, s.ring, s.keys, s.nodes) && Sound(s.live, s.ring, s.keys, NONE)
    && Family(root, s.keys, s.children, s.parents) && root in s.keys
  }

  class Transaction {
    const patch: Patch
    const minor: nat
    const text: Text
    var batches: map<nat, Batch>
    ghost var nodes: map<nat, Node>
    ghost var children: map<nat, set<nat>>
    ghost var parents: map<nat, nat>

    ghost predicate Valid()
      reads this, patch, patch.store, patch.store.Repr
    {
      && patch.Valid() && this !in patch.store.Repr
      && Owns(patch.store.Live(), minor, patch.ring, patch.keys, nodes)
      && Family(patch.store.root, patch.keys, children, parents)
      && Pending(text, patch.store.Live(), patch.keys, nodes, children, batches)
      && Traced(patch.store.Starts(), patch.store.Live(), patch.keys, nodes)
    }

    ghost function Now(): State
      reads this, patch, patch.store
    {
      State(patch.store.Live(), patch.ring, patch.keys, nodes, children, parents, batches)
    }

    lemma StandsNow()
      requires Valid()
      ensures Stands(minor, patch.store.root, Now())
    {
      hide Owns, Traced, Family, Pending, Sound, Hive.Live, Hive.Starts, Hive.Valid, Cached;
    }

    /** Every child list is loaded or can be. */
    ghost predicate Open()
      reads this, patch, patch.store
    {
      Opened(text, patch.store.Live(), patch.keys, nodes, batches)
    }

    /** The same while a reference is about to be handed on or released. */
    ghost predicate ValidBut(debt: nat)
      reads this, patch, patch.store, patch.store.Repr
    {
      && patch.ValidOwing(debt) && patch.Anchored() && this !in patch.store.Repr
      && Owns(patch.store.Live(), minor, patch.ring, patch.keys, nodes)
      && Family(patch.store.root, patch.keys, children, parents)
      && Pending(text, patch.store.Live(), patch.keys, nodes, children, batches)
      && Traced(patch.store.Starts(), patch.store.Live(), patch.keys, nodes)
    }

    constructor (patch: Patch, minor: nat, text: Text, ghost nodes: map<nat, Node>, ghost children: map<nat, set<nat>>,
                 ghost parents: map<nat, nat>)
      requires patch.Valid() && Owns(patch.store.Live(), minor, patch.ring, patch.keys, nodes)
      requires Family(patch.store.root, patch.keys, children, parents)
      requires nodes.Keys == children.Keys == patch.keys && forall k ::
                 k in patch.keys ==> Clean(patch.store.Live(), k, nodes[k], children[k])
      ensures Valid() && this.patch == patch && this.nodes == nodes && this.children == children && batches == map[] && this.text == text
              && this.minor == minor
    {
      hide Owns, Family, Pending, Patch.Valid, Hive.Live, Hive.Starts, Hive.Valid, Clean, Traced;
      FirstPending(text, patch.store.Live(), patch.keys, nodes, children);
      patch.store.LiveStarts();
      FirstTraced(patch.store.Starts(), patch.store.Live(), minor, patch.ring, patch.store.root, patch.keys, nodes, children, parents);
      this.patch, this.minor, this.text, this.nodes, this.children, this.parents := patch, minor, text, nodes, children, parents;
      batches := map[];
    }

    method SubkeyName(cell: nat) returns (r: Result<string>)
      requires patch.store.Valid()
      ensures cell in patch.store.Live() && Named(patch.store.Live()[cell]) ==> r == Success(NameOf(text, patch.store.Live(), cell))
    {
      hide Hive.Valid, Hive.Live, Hive.Starts, LE;
      r := Failure(Malformed);
      var child := patch.store.Body(cell);
      match child {
        case Failure(e) => r := Failure(e);
        case Success(b) =>
          if 0x4c <= |b| && b[..2] == NK && 0x4c + U16(b, 0x48) <= |b| {
            r := Success(text.decode(b[0x4c..0x4c + U16(b, 0x48)], U16(b, 2)));
          }
      }
    }

    /** Puts cells under their folded names; two cells with one folded name are refused. */
    method NameCells(cells: seq<nat>) returns (o: Outcome, m: map<string, nat>)
      requires patch.store.Valid() && forall c :: c in cells ==> c in patch.store.Live() && Named(patch.store.Live()[c])
      ensures o == Done ==> BatchOk(text, patch.store.Live(), m, Elements(cells))
      ensures o == Done <==> FoldDistinct(text, patch.store.Live(), cells)
    {
      hide Hive.Valid, Hive.Live, Hive.Starts, LE, Named, NameIn;
      ghost var live := patch.store.Live();
      o, m := Done, map[];
      var i := 0;
      while i < |cells| && o == Done
        invariant 0 <= i <= |cells|
        invariant o == Done ==> BatchOk(text, live, m, Elements(cells[..i])) && FoldDistinct(text, live, cells[..i])
        invariant o == Refused ==> !FoldDistinct(text, live, cells)
      {
        assert cells[i] in cells;
        var name := SubkeyName(cells[i]);
        match name {
          case Failure(e) => o := Refused;
          case Success(s) =>
            var folded := text.fold(s);
            if folded in m {
              var j :| 0 <= j < i && cells[j] == m[folded];
              o := Refused;
            } else {
              BatchMore(text, live, m, cells[..i], cells[i]);
              m := m[folded := cells[i]];
            }
        }
        assert cells[..i + 1] == cells[..i] + [cells[i]];
        i := i + 1;
      }
      assert cells[..|cells|] == cells;
    }

    /** Loads the pending children of a key from its stored index, once. */
    method ChildBatch(parent: nat) returns (o: Outcome)
      requires Valid() && parent in patch.keys
      modifies this`batches
      ensures Valid()
      ensures o == Done ==>
                parent in batches && batches == old(batches)[parent := batches[parent]]
                && (parent in old(batches) ==> batches == old(batches))
      ensures o == Done && parent !in old(batches) ==> !batches[parent].dirty
      ensures o == Refused ==> batches == old(batches) && parent !in batches
      ensures parent in nodes && (o == Done <==> parent in old(batches) || Loadable(text, patch.store.Live(), nodes[parent]))
    {
      hide Hive.Valid, Hive.Live, Hive.Starts, LE, U32, U16, Owns, Family, Pending, BatchOk, Patch.ValidOwing, Patch.Anchored, Clean,
           Elements, Folded, Named, Room, FoldDistinct, Holds, Listed, Distinct, Traced, LiveKeys, Cells;
      PendingAt(text, patch.store.Live(), patch.keys, nodes, children, batches, parent);
      o := Done;
      if parent in batches {
        assert batches == batches[parent := batches[parent]];
        return;
      }
      ghost var live := patch.store.Live();
      OpenClean(text, Now(), minor, patch.store.root, parent);
      StoreValid(patch);
      patch.store.LiveStarts();
      LiveKeysAll(live, StoredChildren(live, nodes[parent]));
      var key := patch.store.Body(parent);
      if key.Failure? || |key.value| < 0x4c || key.value[..2] != NK {
        o := Refused;
      } else {
        var cells: map<string, nat> := map[];
        if U32(key.value, 0x14) > 0 {
          var listed, walked := ReadIndex(patch.store, U32(key.value, 0x1c), {}, 0, nodes[parent].index.value);
          if listed.Failure? {
            o := Refused;
          } else {
            o, cells := NameCells(listed.value);
          }
        }
        if o == Done {
          EmptyBatch(text, live);
          Loaded(text, live, patch.keys, nodes, children, batches, parent, cells);
          batches := batches[parent := Batch(cells, false)];
        }
      }
    }

    /** The pending child of a key with a given name. */
    method FindSubkey(parent: nat, name: string) returns (o: Outcome, r: Option<nat>)
      requires Valid() && parent in patch.keys
      modifies this`batches
      ensures Valid() && parent in children && (o == Done ==> parent in batches)
      ensures o == Done ==> batches == old(batches)[parent := batches[parent]] && (parent in old(batches) ==> batches == old(batches))
      ensures o == Done && parent !in old(batches) ==> !batches[parent].dirty
      ensures o == Refused ==> batches == old(batches)
      ensures r.Some? ==>
                o == Done && r.value in patch.keys && r.value in children[parent]
                && Folded(text, patch.store.Live(), r.value) == text.fold(name)
      ensures o == Done && r.None? ==> Unused(text, patch.store.Live(), children[parent], text.fold(name))
      ensures parent in nodes && (o == Done <==> parent in old(batches) || Loadable(text, patch.store.Live(), nodes[parent]))
    {
      hide Hive.Valid, Hive.Live, Hive.Starts, Owns, Family, Pending, Traced, Patch.Valid, Folded, Loadable;
      r := None;
      PendingAt(text, patch.store.Live(), patch.keys, nodes, children, batches, parent);
      o := ChildBatch(parent);
      if o == Done {
        PendingAt(text, patch.store.Live(), patch.keys, nodes, children, batches, parent);
        if text.fold(name) in batches[parent].cells {
          r := Some(batches[parent].cells[text.fold(name)]);
          FamilyAt(patch.store.root, patch.keys, children, parents, parent, r.value);
        }
      }
    }

    /** Follows a path of names from the root through the pending children. */
    method LookupKey(parts: seq<string>) returns (o: Outcome, r: Option<nat>, ghost trail: seq<nat>)
      requires Valid()
      modifies this`batches
      ensures Valid() && Reloaded(old(batches), batches)
      ensures trail != [] && trail[0] == patch.store.root && |trail| <= |parts| + 1 && trail[|trail| - 1] in patch.keys
      ensures Path(text, patch.store.Live(), children, trail, parts[..|trail| - 1])
      ensures r.Some? ==>
                o == Done && |trail| == |parts| + 1 && r.value == trail[|trail| - 1] && (parts != [] ==> trail[|parts| - 1] in patch.keys)
      ensures o == Done && r.None? ==>
                |trail| <= |parts| && Missing(text, patch.store.Live(), children, trail[|trail| - 1], parts[|trail| - 1])
      ensures forall i :: 0 <= i < |trail| - 1 ==> trail[i] in batches
      ensures o == Done && r.None? ==> trail[|trail| - 1] in batches
      ensures o == Refused ==> |trail| <= |parts| && Unloadable(text, patch.store.Live(), nodes, batches, trail[|trail| - 1])
    {
      hide Hive.Valid, Hive.Live, Hive.Starts, Owns, Family, Pending, Traced, Folded, Path, Missing, Step, Patch.Valid, Loadable, Unused;
      var current, i := patch.store.root, 0;
      trail, r, o := [current], None, Done;
      RootIsKey();
      PathStart(text, patch.store.Live(), children, current);
      assert parts[..0] == [];
      var ok := true;
      while i < |parts| && ok
        invariant 0 <= i <= |parts| && Valid() && current in patch.keys && Reloaded(old(batches), batches)
        invariant trail != [] && trail[0] == patch.store.root && |trail| <= i + 1 && trail[|trail| - 1] == current
        invariant Path(text, patch.store.Live(), children, trail, parts[..|trail| - 1])
        invariant ok ==> o == Done && |trail| == i + 1 && (i > 0 ==> trail[i - 1] in patch.keys)
        invariant forall k :: 0 <= k < |trail| - 1 ==> trail[k] in batches
        invariant !ok && o == Done ==>
                    |trail| <= |parts| && Missing(text, patch.store.Live(), children, current, parts[|trail| - 1]) && current in batches
        invariant o == Refused ==> !ok && |trail| <= |parts| && Unloadable(text, patch.store.Live(), nodes, batches, current)
      {
        ghost var before := batches;
        var next;
        o, next := FindSubkey(current, parts[i]);
        Reload(old(batches), before, batches, current);
        ok := next.Some?;
        StepOrMissing(text, patch.store.Live(), children, current, parts[i], next);
        if next.Some? {
          PathStep(text, patch.store.Live(), children, trail, parts[..i], parts[i], next.value);
          trail := trail + [next.value];
          current := next.value;
          assert parts[..i + 1] == parts[..i] + [parts[i]];
        }
        i := i + 1;
      }
      if ok { r := Some(current); }
    }

    /** Writes a key that inherits its parent's security; no index lists it yet. */
    method WriteKey(name: string, parent: nat) returns (o: Outcome, child: nat)
      requires Valid() && parent in patch.keys && text.flags < 0x1_0000 && |patch.store.data| + |text.encode(name)| + 0x2000 <= LIMIT
      modifies this`nodes, this`children, patch`keys, patch.store.Repr
      ensures fresh(patch.store.Repr - old(patch.store.Repr)) && old(patch.store.Starts()) <= patch.store.Starts()
              && |patch.store.data| <= |old(patch.store.data)| + |text.encode(name)| + 0x2000
      ensures o == Done && Valid() && child !in old(patch.store.Live()) && patch.keys == old(patch.keys) + {child}
              && child !in old(patch.keys)
      ensures children == old(children)[child := {}] && nodes == old(nodes)[child := EMPTY]
      ensures Changed(old(patch.store.Live()), patch.store.Live(), patch.ring, child)
      ensures child in patch.store.Live() && IsNewKey(text, patch.store.Live()[child], name, parent,
              InheritedFrom(old(patch.store.Live()), parent))
    {
      hide Hive.Valid, Hive.Live, Hive.Starts, LE, U32, U16, Owns, Family, Pending, SameText, Patch.ValidOwing, Changed, IsNewKey, Kept,
           Sound, Traced, NoStrays;
      child := 0;
      ghost var live, ring, a := patch.store.Live(), patch.ring, Now();
      patch.Expand(NONE);
      ParentFacts(live, minor, ring, patch.keys, nodes, patch.store.root, children, parents, parent);
      var body := patch.store.Body(parent);
      var security := NONE;
      if body.Success? && 0x30 <= |body.value| { security := U32(body.value, 0x2c); }
      o := patch.IncrementSecurityReference(security);
      if o == Done {
        ghost var one := patch.store.Live();
        SameKept(live, one, minor, ring, patch.keys, nodes);
        OwnsFrame(live, one, minor, ring, ring, patch.keys, nodes);
        PendingFrame(text, a, one, minor, patch.store.root);
        RingStrays(live, one, ring, patch.keys);
        TracedFrame(old(patch.store.Starts()), patch.store.Starts(), live, one, minor, ring, patch.keys, patch.keys, nodes);
        patch.KeepAnchor(live);
        child := StoreKey(name, parent, security);
        ChangedBy(live, one, patch.store.Live(), ring, child);
      }
    }

    /** Stores the cell of a new key, handing it the reference it was given. */
    method StoreKey(name: string, parent: nat, security: nat) returns (child: nat)
      requires ValidBut(security) && parent in patch.keys && security <= NONE
      requires text.flags < 0x1_0000 && |patch.store.data| + |text.encode(name)| + 0x2000 <= LIMIT
      modifies this`nodes, this`children, patch`keys, patch.store.Repr
      ensures fresh(patch.store.Repr - old(patch.store.Repr)) && old(patch.store.Starts()) <= patch.store.Starts()
              && |patch.store.data| <= |old(patch.store.data)| + |text.encode(name)| + 0x2000
      ensures Valid() && child !in old(patch.store.Live()) && patch.keys == old(patch.keys) + {child} && child !in old(patch.keys)
      ensures children == old(children)[child := {}] && nodes == old(nodes)[child := EMPTY]
      ensures child in patch.store.Live() && patch.store.Live() == old(patch.store.Live())[child := patch.store.Live()[child]]
      ensures IsNewKey(text, patch.store.Live()[child], name, parent, security)
    {
      hide Hive.Valid, Hive.Live, Hive.Starts, LE, U32, U16, Owns, Family, Pending, Sound, Cached, NewKeyBody, Align, Named,
           Patch.ValidOwing, IsNewKey, Traced;
      ghost var live, ring, keys, a := patch.store.Live(), patch.ring, patch.keys, Now();
      patch.Expand(security);
      OwnsAt(live, minor, ring, keys, nodes, parent);
      patch.store.CellsBelow();
      var data := text.encode(name);
      RoomFor(patch.store.legacy, NewKeyBody(patch.store.legacy, text.flags, data, parent, security));
      var r, found, stored := patch.store.AllocateCell(NewKeyBody(patch.store.legacy, text.flags, data, parent, security));
      child := r.value;
      NewKeyFacts(patch.store.legacy, text.flags, data, parent, security, stored);
      NewKeyNamed(text, stored, name, parent, security);
      AddKey(live, ring, keys, security, child, stored);
      KeyAdded(text, a, stored, minor, patch.store.root, child, security);
      TracedAdd(old(patch.store.Starts()), patch.store.Starts(), live, stored, minor, ring, keys, nodes, child, security);
      NewInCache(patch.securityCells, live, ring, keys, security, child, stored);
      patch.keys, nodes, children := keys + {child}, nodes[child := EMPTY], children[child := {}];
      patch.Collect(NONE);
    }

    /** The child of a key with a given name, created if there is none. */
    method EnsureSubkey(parent: nat, name: string) returns (o: Outcome, child: nat)
      requires Valid() && parent in patch.keys && text.flags < 0x1_0000 && |patch.store.data| + |text.encode(name)| + 0x2000 <= LIMIT
      modifies this`batches, this`nodes, this`children, this`parents, patch`keys, patch.store.Repr
      ensures fresh(patch.store.Repr - old(patch.store.Repr)) && old(patch.store.Starts()) <= patch.store.Starts()
      ensures |patch.store.data| <= |old(patch.store.data)| + |text.encode(name)| + 0x2000
      ensures o == Done <==> !Stuck(text, old(patch.store.Live()), old(nodes), old(children), old(batches), parent, name)
      ensures o == Done ==> Valid() && (old(Open()) ==> Open())
      ensures o == Done ==> Ensured(text, old(Now()), Now(), parent, name, child)
    {
      hide Hive.Valid, Hive.Live, Hive.Starts, Owns, Family, Pending, Traced, Patch.Valid, Grew, Folded, NameOf, Unused, Loadable, Opened,
           Shelved, InfoOf, Robed, Adopted, Heir;
      ghost var live, keys, kids := patch.store.Live(), patch.keys, children;
      StoreOk();
      RootIsKey();
      PendingHolds();
      GrewStart(text, live, keys, kids);
      var r;
      o, r := FindSubkey(parent, name);
      Reload(old(batches), old(batches), batches, parent);
      if Opened(text, live, keys, nodes, old(batches)) { OpenedMore(text, live, keys, nodes, old(batches), batches); }
      child := 0;
      if r.Some? {
        child := r.value;
        UsedBy(text, live, kids[parent], child, text.fold(name));
      } else {
        o, child := CreateSubkey(parent, name);
      }
    }

    /** Writes a child and makes it pending. */
    method CreateSubkey(parent: nat, name: string) returns (o: Outcome, child: nat)
      requires Valid() && parent in patch.keys && text.flags < 0x1_0000 && |patch.store.data| + |text.encode(name)| + 0x2000 <= LIMIT
      modifies this`batches, this`nodes, this`children, this`parents, patch`keys, patch.store.Repr
      ensures fresh(patch.store.Repr - old(patch.store.Repr)) && old(patch.store.Starts()) <= patch.store.Starts()
      ensures |patch.store.data| <= |old(patch.store.data)| + |text.encode(name)| + 0x2000
      ensures o == Done <==> Creatable(text, old(patch.store.Live()), old(nodes), old(children), old(batches), parent, name)
      ensures o == Done ==> Valid() && (old(Open()) ==> Open())
      ensures o == Done ==> Created(text, old(Now()), Now(), parent, name, child)
    {
      hide Hive.Valid, Hive.Live, Hive.Starts, Owns, Family, Pending, Traced, Patch.Valid, Changed, Touched, IsNewKey, Grew, Folded, NameOf,
           Unused, Loadable, Opened, Sound, Robed, InfoOf, Shelved;
      ghost var live, keys, kids, tree, pend, a := patch.store.Live(), patch.keys, children, nodes, batches, Now();
      StandsNow();
      StoreOk();
      RootIsKey();
      KeysAreLive();
      PendingHolds();
      FamilyHolds();
      SoundHolds();
      o, child := WriteKey(name, parent);
      ghost var one := patch.store.Live();
      NoParent(patch.store.root, keys, kids, parents, child);
      ChangedKept(text, minor, patch.store.root, a, one, parent, child);
      NewName(text, one, child, name, parent, InheritedFrom(live, parent));
      o := AddBatchedSubkey(parent, child);
      if o == Done {
        GrewOne(text, live, one, patch.store.Live(), patch.ring, keys, kids, parent, child, name, InheritedFrom(live, parent));
        RobedGrown(text, live, one, patch.store.Live(), patch.ring, keys, parent, child, name);
        ShelvedGrown(live, one, patch.store.Live(), minor, patch.ring, keys, tree, parent, child);
        if Opened(text, live, keys, tree, pend) {
          OpenedGrown(text, minor, patch.store.root, a, one, patch.store.Live(), batches, parent, child);
        }
      }
    }

    lemma KeysAreLive()
      requires Valid()
      ensures children.Keys == patch.keys && forall k :: k in patch.keys ==> k in patch.store.Live() && k !in patch.ring
    {
      hide Owns, Pending, Traced, Sound, Cached, Hive.Valid, Hive.Live, Hive.Starts;
      KeyFacts(patch.store.Live(), patch.ring, patch.keys);
    }

    /** The key a path names, creating whatever is missing along it. */
    method EnsureKey(parts: seq<string>) returns (o: Outcome, cell: nat, ghost trail: seq<nat>)
      requires Valid() && text.flags < 0x1_0000 && |patch.store.data| + PathRoom(text, parts) <= LIMIT
      modifies this`batches, this`nodes, this`children, this`parents, patch`keys, patch.store.Repr
      ensures fresh(patch.store.Repr - old(patch.store.Repr)) && old(patch.store.Starts()) <= patch.store.Starts()
      ensures trail != [] && trail[0] == patch.store.root
      ensures o == Refused ==> Blocked(text, old(patch.store.Live()), old(children), old(nodes), old(batches), trail, parts)
      ensures o == Done ==> Passable(text, old(patch.store.Live()), old(children), old(nodes), old(batches), trail, parts)
      ensures o == Done ==> Valid() && (old(Open()) ==> Open()) && |patch.store.data| <= |old(patch.store.data)| + PathRoom(text, parts)
      ensures o == Done ==> |trail| == |parts| + 1 && trail[|parts|] == cell && cell in patch.keys
      ensures o == Done ==> Grew(text, old(patch.store.Live()), patch.store.Live(), old(patch.keys), patch.keys, old(children), children)
      ensures o == Done ==>
                Planted(old(patch.keys), patch.keys, old(children), children, trail)
                && Carries(text, patch.store.Live(), old(patch.keys), trail, parts)
      ensures o == Done ==>
                Inherits(old(patch.store.Live()), patch.store.Live(), old(patch.keys), trail)
                && Stirred(old(patch.keys), old(batches), batches, trail)
      ensures o == Done ==> Shelved(old(patch.store.Live()), patch.store.Live(), old(patch.keys), old(nodes), nodes)
    {
      hide Hive.Valid, Hive.Live, Hive.Starts, Owns, Family, Pending, Traced, Patch.Valid, Path, PathRoom, Sprouted, Stuck, Opened,
           Passable, Planted, Carries, Grew, Inherits, Stirred, Shelved;
      ghost var a := Now();
      cell := patch.store.root;
      trail, o := [cell], Done;
      StoreOk();
      RootIsKey();
      PendingHolds();
      SproutedStart(text, a, cell);
      var i := 0;
      assert parts[..0] == [] && parts[0..] == parts;
      while i < |parts| && o == Done
        invariant 0 <= i <= |parts| && fresh(patch.store.Repr - old(patch.store.Repr)) && old(patch.store.Starts()) <= patch.store.Starts()
        invariant trail != [] && trail[0] == patch.store.root
        invariant o == Refused ==> Blocked(text, a.live, a.children, a.nodes, a.batches, trail, parts)
        invariant o == Done ==> Valid() && cell in patch.keys && |trail| == i + 1 && trail[i] == cell
        invariant o == Done ==> Sprouted(text, a, Now(), trail, parts[..i])
        invariant o == Done ==> |patch.store.data| + PathRoom(text, parts[i..]) <= |old(patch.store.data)| + PathRoom(text, parts)
      {
        OpenRoom(text, parts, i);
        var child;
        o, child := EnsureStep(cell, parts[i], trail, a, parts[..i]);
        assert parts[..i + 1] == parts[..i] + [parts[i]];
        if o == Done { cell, trail := child, trail + [child]; }
        i := i + 1;
      }
      assert parts[..|parts|] == parts;
      if o == Done { SproutedMeans(text, a, Now(), trail, parts); }
    }

    /** One part of a path: found, or created below what is there. */
    method EnsureStep(cell: nat, name: string, ghost trail: seq<nat>, ghost a: State, ghost done: seq<string>)
      returns (o: Outcome, child: nat)
      requires Valid() && cell in patch.keys && text.flags < 0x1_0000 && |patch.store.data| + |text.encode(name)| + 0x2000 <= LIMIT
      requires |trail| == |done| + 1 && trail[|done|] == cell && Sprouted(text, a, Now(), trail, done)
      modifies this`batches, this`nodes, this`children, this`parents, patch`keys, patch.store.Repr
      ensures fresh(patch.store.Repr - old(patch.store.Repr)) && old(patch.store.Starts()) <= patch.store.Starts()
      ensures |patch.store.data| <= |old(patch.store.data)| + |text.encode(name)| + 0x2000
      ensures o == Refused ==> Path(text, a.live, a.children, trail, done) && Stuck(text, a.live, a.nodes, a.children, a.batches, cell, name)
      ensures o == Done ==> Valid() && child in patch.keys && Sprouted(text, a, Now(), trail + [child], done + [name])
    {
      hide Hive.Valid, Hive.Live, Hive.Starts, Owns, Family, Pending, Traced, Patch.Valid, Path, Sprouted, Stuck, Opened, Ensured;
      ghost var b := Now();
      PendingHolds();
      FamilyHolds();
      NotStuck(text, a, b, trail, done, name);
      o, child := EnsureSubkey(cell, name);
      if o == Done {
        PendingHolds();
        SproutedStep(text, a, b, Now(), trail, done, name, child);
      }
    }

    lemma EstateHolds()
      requires Valid()
      ensures Owns(patch.store.Live(), minor, patch.ring, patch.keys, nodes)
              && Traced(patch.store.Starts(), patch.store.Live(), patch.keys, nodes)
      ensures Pending(text, patch.store.Live(), patch.keys, nodes, children, batches)
    {
      hide Owns, Traced, Family, Pending, Hive.Live, Hive.Starts, Hive.Valid, Patch.ValidOwing;
    }

    lemma SoundHolds()
      requires Valid()
      ensures Sound(patch.store.Live(), patch.ring, patch.keys, NONE)
    {
      hide Owns, Traced, Family, Pending, Sound, Hive.Live, Hive.Starts, Hive.Valid, Cached;
    }

    lemma PendingHolds()
      requires Valid()
      ensures Pending(text, patch.store.Live(), patch.keys, nodes, children, batches) && children.Keys == patch.keys == nodes.Keys
    {
      hide Owns, Traced, Family, Patch.Valid, Hive.Live, Hive.Starts, BatchOk, Clean;
    }

    lemma FamilyHolds()
      requires Valid()
      ensures Family(patch.store.root, patch.keys, children, parents)
    {
      hide Owns, Pending, Traced, Family, Patch.Valid, Hive.Live, Hive.Starts;
    }

    /** Gives a key a security descriptor; nothing pending and nothing a key owns is affected. */
    method SetSecurity(cell: nat, descriptor: bytes) returns (o: Outcome)
      requires Valid() && cell in patch.keys && |patch.store.data| + |descriptor| + 0x2000 <= LIMIT
      modifies patch`cacheReady, patch`securityCells, patch`ring, patch.store.Repr
      ensures fresh(patch.store.Repr - old(patch.store.Repr)) && old(patch.store.Starts()) <= patch.store.Starts()
      ensures |patch.store.data| <= |old(patch.store.data)| + |descriptor| + 0x2000
      ensures o == Done <==>
                ValidDescriptor(descriptor)
                && (Has(old(patch.store.Live()), cell, descriptor) || old(patch.cacheReady) || |old(patch.ring)| <= 0x10_0000)
      ensures o == Done ==>
                Valid() && (old(Open()) ==> Open())
                && Grew(text, old(patch.store.Live()), patch.store.Live(), patch.keys, patch.keys, children, children)
      ensures o == Done ==>
                InfoOf(patch.store.Live(), cell) == Info(Some(descriptor), InfoOf(old(patch.store.Live()), cell).volatile)
                && Robed(old(patch.store.Live()), patch.store.Live(), patch.keys - {cell})
                && Shelved(old(patch.store.Live()), patch.store.Live(), patch.keys, nodes, nodes)
      ensures o == Done ==>
                if patch.cacheReady then old(patch.cacheReady) || |old(patch.ring)| <= 0x10_0000
                else !old(patch.cacheReady) && |patch.ring| == |old(patch.ring)|
    {
      hide Hive.Valid, Hive.Live, Hive.Starts, LE, U32, U16, Owns, Family, Pending, Traced, Patch.ValidOwing, Patch.Anchored, Alike, Kept,
           IsSecurity, Put32, ValidDescriptor, Descriptor, NoStrays, Opened, Grew, Robed, InfoOf, Has, Sound, SameList;
      ghost var live, ring, a := patch.store.Live(), patch.ring, Now();
      StoreOk();
      KeysAreLive();
      SoundHolds();
      PendingHolds();
      FamilyHolds();
      OwnsAt(live, minor, ring, patch.keys, nodes, cell);
      o := patch.SetKeySecurity(cell, descriptor);
      if o == Done {
        ghost var m := patch.store.Live();
        HasKey(m, cell, descriptor);
        SecurityEdit(live[cell], SecurityOf(m[cell]));
        SecurityKept(live, m, minor, ring, patch.keys, nodes, cell);
        OwnsFrame(live, m, minor, ring, patch.ring, patch.keys, nodes);
        PendingFrame(text, a, m, minor, patch.store.root);
        patch.Expand(NONE);
        SecurityStrays(live, m, ring, patch.ring, patch.keys, cell);
        TracedFrame(old(patch.store.Starts()), patch.store.Starts(), live, m, minor, ring, patch.keys, patch.keys, nodes);
        if Opened(text, live, patch.keys, nodes, batches) {
          OpenedFrame(text, a, m, minor, patch.store.root);
        }
        GrewKept(text, live, m, minor, ring, patch.keys, nodes, children);
        ListsKept(live, m, minor, ring, patch.keys, nodes);
        RobedOthers(live, m, ring, patch.ring, patch.keys, cell, descriptor);
      }
    }

    /** Writes header fields of a key that neither its lists nor its name nor its security depend on. */
    method EditHeader(k: nat, o: nat, w: bytes)
      requires Valid() && k in patch.keys && 0x34 <= o && o + |w| <= 0x44
      modifies patch.store.Repr
      ensures Valid() && fresh(patch.store.Repr - old(patch.store.Repr)) && old(patch.store.Starts()) <= patch.store.Starts()
              && |patch.store.data| == |old(patch.store.data)|
      ensures k in old(patch.store.Live()) && 0x4c <= |old(patch.store.Live())[k]|
      ensures patch.store.Live() == old(patch.store.Live())[k := Splice(old(patch.store.Live())[k], o, w)]
    {
      hide Hive.Valid, Hive.Live, Hive.Starts, LE, U32, U16, Owns, Family, Pending, Sound, Cached, Patch.ValidOwing, Splice, Alike, Kept,
           Traced, NoStrays;
      ghost var live, ring, keys, a := patch.store.Live(), patch.ring, patch.keys, Now();
      patch.Expand(NONE);
      ParentFacts(live, minor, ring, keys, nodes, patch.store.root, children, parents, k);
      HeadEdit(live[k], o, w);
      Rekey(live, ring, keys, k, Splice(live[k], o, w));
      OtherCache(patch.securityCells, live, ring, k, Splice(live[k], o, w));
      EditKept(live, minor, ring, keys, nodes, k, Splice(live[k], o, w));
      ghost var m := live[k := Splice(live[k], o, w)];
      OwnsFrame(live, m, minor, ring, ring, keys, nodes);
      PendingFrame(text, a, m, minor, patch.store.root);
      patch.store.Poke(k, o, w);
      EditStrays(live, m, k, keys);
      TracedFrame(old(patch.store.Starts()), patch.store.Starts(), live, m, minor, ring, keys, keys, nodes);
      patch.Collect(NONE);
    }

    /** Raises the longest child name recorded in a key. */
    method RaiseNameWidth(parent: nat, name: string)
      requires Valid() && parent in patch.keys
      modifies patch.store.Repr
      ensures Valid() && fresh(patch.store.Repr - old(patch.store.Repr)) && old(patch.store.Starts()) <= patch.store.Starts()
              && |patch.store.data| == |old(patch.store.data)|
      ensures Touched(old(patch.store.Live()), patch.store.Live(), parent)
      ensures parent in old(patch.store.Live()) && parent in patch.store.Live()
      ensures NameWidth(patch.store.Live()[parent]) == Raise(NameWidth(old(patch.store.Live())[parent]), text.width(name))
    {
      hide Hive.Valid, Hive.Live, Hive.Starts, LE, U32, U16, Owns, Family, Pending, Traced, Patch.ValidOwing, Patch.Anchored, Splice, Alike;
      ghost var live := patch.store.Live();
      StoreOk();
      AlikeSelf(parent);
      var p := patch.store.Body(parent);
      if p.Success? && 0x4c <= |p.value| && text.width(name) > U16(p.value, 0x34) {
        HeadEdit(live[parent], 0x34, Enc16(text.width(name)));
        WidthEdit(live[parent], text.width(name));
        EditHeader(parent, 0x34, Enc16(text.width(name)));
      }
    }

    /** Makes a key a pending child of another; a second child with one folded name is refused. */
    method AddBatchedSubkey(parent: nat, child: nat) returns (o: Outcome)
      requires Valid() && parent in patch.keys && child in patch.keys && child !in parents && child != patch.store.root
      modifies this`batches, this`children, this`parents, patch.store.Repr
      ensures fresh(patch.store.Repr - old(patch.store.Repr)) && old(patch.store.Starts()) <= patch.store.Starts()
              && |patch.store.data| == |old(patch.store.data)|
      ensures Valid() && parent in old(children) && parent in nodes && Touched(old(patch.store.Live()), patch.store.Live(), parent)
      ensures o == Done ==> children == old(children)[parent := old(children)[parent] + {child}] && parents == old(parents)[child := parent]
      ensures o == Done ==> parent in batches && batches[parent].dirty && batches == old(batches)[parent := batches[parent]]
      ensures o == Refused ==> children == old(children) && parents == old(parents)
      ensures o == Done <==>
                (parent in old(batches) || Loadable(text, old(patch.store.Live()), nodes[parent]))
                && Unused(text, old(patch.store.Live()), old(children)[parent], Folded(text, old(patch.store.Live()), child))
    {
      hide Hive.Valid, Hive.Live, Hive.Starts, LE, U32, U16, Owns, Family, Pending, Traced, Patch.Valid, NameOf, Loadable, Clean, NameIn,
           Named, BatchOk, IsKey, Touched, Unused, Folded;
      ghost var live, keys := patch.store.Live(), patch.keys;
      StoreOk();
      AlikeSelf(parent);
      NotTouched(live, parent);
      PendingAt(text, live, keys, nodes, children, batches, parent);
      o := ChildBatch(parent);
      if o == Done { o := AddLoaded(parent, child); }
    }

    /** The same once the list is loaded. */
    method AddLoaded(parent: nat, child: nat) returns (o: Outcome)
      requires Valid() && parent in patch.keys && child in patch.keys && child !in parents && child != patch.store.root && parent in batches
      modifies this`batches, this`children, this`parents, patch.store.Repr
      ensures fresh(patch.store.Repr - old(patch.store.Repr)) && old(patch.store.Starts()) <= patch.store.Starts()
              && |patch.store.data| == |old(patch.store.data)|
      ensures Valid() && parent in old(children) && Touched(old(patch.store.Live()), patch.store.Live(), parent)
      ensures o == Done ==> children == old(children)[parent := old(children)[parent] + {child}] && parents == old(parents)[child := parent]
      ensures o == Done ==> parent in batches && batches[parent].dirty && batches == old(batches)[parent := batches[parent]]
      ensures o == Refused ==> children == old(children) && parents == old(parents)
      ensures o == Done <==> Unused(text, old(patch.store.Live()), old(children)[parent], Folded(text, old(patch.store.Live()), child))
    {
      hide Hive.Valid, Hive.Live, Hive.Starts, LE, U32, U16, Owns, Family, Pending, Traced, Patch.Valid, NameOf, Clean, NameIn, Named,
           BatchOk, IsKey, Touched, Unused;
      ghost var live, keys := patch.store.Live(), patch.keys;
      StoreOk();
      AlikeSelf(parent);
      NotTouched(live, parent);
      PendingAt(text, live, keys, nodes, children, batches, parent);
      OwnsAt(live, minor, patch.ring, keys, nodes, child);
      UnusedIs(text, live, batches[parent].cells, children[parent], Folded(text, live, child));
      var name := SubkeyName(child);
      o := Refused;
      if name.Success? && text.fold(name.value) !in batches[parent].cells {
        RaiseNameWidth(parent, name.value);
        FoldedKept(text, live, patch.store.Live(), parent);
        ChildAdded(text, patch.store.Live(), keys, nodes, patch.store.root, children, parents, batches, parent, child);
        batches := batches[parent := Batch(batches[parent].cells[text.fold(name.value) := child], true)];
        children, parents := children[parent := children[parent] + {child}], parents[child := parent];
        o := Done;
      }
    }

    lemma StoreOk()
      requires Valid()
      ensures patch.store.Valid() && patch !in patch.store.Repr && Owns(patch.store.Live(), minor, patch.ring, patch.keys, nodes)
    {
      hide Owns, Family, Pending, Traced, Sound, Cached, Hive.Valid, Hive.Live, Hive.Starts;
    }

    lemma AlikeSelf(k: nat)
      requires Valid() && k in patch.keys
      ensures k in patch.store.Live() && IsKey(patch.store.Live()[k]) && Alike(patch.store.Live()[k], patch.store.Live()[k])
    {
      hide Owns, Family, Pending, Traced, Sound, Cached, Hive.Valid, Hive.Live, Hive.Starts, U32, U16;
      OwnsAt(patch.store.Live(), minor, patch.ring, patch.keys, nodes, k);
    }

    lemma RootIsKey()
      requires Valid()
      ensures patch.store.root in patch.keys
    {
      hide Hive.Valid, Hive.Live, Hive.Starts, Owns, Family, Pending, Traced, Patch.ValidOwing;
    }
  }

  /** Batches were loaded, and none was changed. */
  ghost predicate Reloaded(a: map<nat, Batch>, b: map<nat, Batch>) {
    (forall p :: p in a ==> p in b && b[p] == a[p]) && (forall p :: p in b && p !in a ==> !b[p].dirty)
  }

  lemma Reload(a: map<nat, Batch>, b: map<nat, Batch>, c: map<nat, Batch>, k: nat)
    requires Reloaded(a, b) && (c == b || (k in c && c == b[k := c[k]] && (k in b ==> c == b) && (k !in b ==> !c[k].dirty)))
    ensures Reloaded(a, c)
  {
  }

  /** A path of names leads along these cells through the pending children. */
  ghost predicate Path(x: Text, live: Live, children: map<nat, set<nat>>, trail: seq<nat>, parts: seq<string>) {
    |trail| == |parts| + 1 && forall i :: 0 <= i < |parts| ==> Step(x, live, children, trail[i], parts[i], trail[i + 1])
  }

  ghost predicate Step(x: Text, live: Live, children: map<nat, set<nat>>, p: nat, name: string, c: nat) {
    p in children && c in children[p] && Folded(x, live, c) == x.fold(name)
  }

  ghost predicate Missing(x: Text, live: Live, children: map<nat, set<nat>>, p: nat, name: string) {
    p in children && forall c :: c in children[p] ==> Folded(x, live, c) != x.fold(name)
  }

  lemma StepOrMissing(x: Text, live: Live, children: map<nat, set<nat>>, p: nat, name: string, r: Option<nat>)
    ensures p in children && r.Some? && r.value in children[p] && Folded(x, live, r.value) == x.fold(name)
            ==> Step(x, live, children, p, name, r.value)
    ensures p in children && Unused(x, live, children[p], x.fold(name)) ==> Missing(x, live, children, p, name)
  {
  }

  lemma PathStart(x: Text, live: Live, children: map<nat, set<nat>>, k: nat)
    ensures Path(x, live, children, [k], [])
  {
  }

  lemma PathStep(x: Text, live: Live, children: map<nat, set<nat>>, trail: seq<nat>, parts: seq<string>, name: string, c: nat)
    requires Path(x, live, children, trail, parts) && Step(x, live, children, trail[|parts|], name, c)
    ensures Path(x, live, children, trail + [c], parts + [name])
  {
    hide Step;
  }

  /** The stored children can be walked within the limits and have distinct folded names. */
  ghost predicate Loadable(x: Text, live: Live, n: Node) {
    n.index.Some? ==> Holds(live, n.index.value) && Room(n.index.value, 0, {}) && FoldDistinct(x, live, Listed(live, n.index.value))
  }

  ghost predicate FoldDistinct(x: Text, live: Live, cells: seq<nat>) {
    forall i, j :: 0 <= i < j < |cells| ==> Folded(x, live, cells[i]) != Folded(x, live, cells[j])
  }

  lemma StoreValid(p: Patch)
    requires p.ValidOwing(NONE)
    ensures p.store.Valid()
  {
  }

  lemma BatchMore(x: Text, live: Live, m: map<string, nat>, cells: seq<nat>, c: nat)
    requires BatchOk(x, live, m, Elements(cells)) && FoldDistinct(x, live, cells) && Folded(x, live, c) !in m
    ensures BatchOk(x, live, m[Folded(x, live, c) := c], Elements(cells + [c])) && FoldDistinct(x, live, cells + [c])
  {
    hide Folded;
    assert forall d :: d in cells ==> d in Elements(cells);
  }

  lemma EmptyBatch(x: Text, live: Live)
    ensures BatchOk(x, live, map[], Elements<nat>([]))
  {
  }

  lemma OpenClean(x: Text, a: State, minor: nat, root: nat, k: nat)
    requires Owns(a.live, minor, a.ring, a.keys, a.nodes) && Family(root, a.keys, a.children, a.parents)
             && Pending(x, a.live, a.keys, a.nodes, a.children, a.batches)
    requires k in a.keys && (k in a.batches ==> !a.batches[k].dirty)
    ensures k in a.nodes && k in a.children && k in a.live && IsKey(a.live[k])
    ensures var n := a.nodes[k];
            && (n.index.Some? <==> U32(a.live[k], 0x14) > 0)
            && (n.index.Some? ==> n.index.value.cell == U32(a.live[k], 0x1c) && Holds(a.live, n.index.value))
            && Elements(StoredChildren(a.live, n)) == a.children[k] && |StoredChildren(a.live, n)| == U32(a.live[k], 0x14)
            && AllKeys(a.live, StoredChildren(a.live, n)) && (forall c :: c in StoredChildren(a.live, n) ==> c in a.keys && c in a.live && Named(a.live[c]))
  {
    hide LE, U32, U16, Distinct, Owned, Holds, Listed, Owns, Proper, NodeHolds, Pending, Traced, Family, Named, IsKey;
    OwnsAt(a.live, minor, a.ring, a.keys, a.nodes, k);
    PendingAt(x, a.live, a.keys, a.nodes, a.children, a.batches, k);
    forall c | c in StoredChildren(a.live, a.nodes[k]) ensures c in a.keys && c in a.live && Named(a.live[c]) && IsKey(a.live[c]) {
      FamilyAt(root, a.keys, a.children, a.parents, k, c);
      OwnsAt(a.live, minor, a.ring, a.keys, a.nodes, c);
    }
  }

  lemma Loaded(x: Text, live: Live, keys: set<nat>, nodes: map<nat, Node>, children: map<nat, set<nat>>, batches: map<nat, Batch>, k: nat,
               cells: map<string, nat>)
    requires Pending(x, live, keys, nodes, children, batches) && k in keys && k !in batches && BatchOk(x, live, cells, children[k])
    ensures Pending(x, live, keys, nodes, children, batches[k := Batch(cells, false)])
  {
    hide BatchOk, Clean;
  }

  lemma OwnsAt(live: Live, minor: nat, ring: seq<nat>, keys: set<nat>, nodes: map<nat, Node>, k: nat)
    requires Owns(live, minor, ring, keys, nodes) && k in keys
    ensures k in nodes && Proper(live, minor, ring, keys, k, nodes[k]) && NodeHolds(live, minor, k, nodes[k])
    ensures k in live && IsKey(live[k]) && Named(live[k]) && IndexHolds(live, live[k], nodes[k])
  {
    hide LE, U32, U16, Distinct, Owned, IndexHolds, ValuesHold, ClassHolds;
  }

  lemma PendingAt(x: Text, live: Live, keys: set<nat>, nodes: map<nat, Node>, children: map<nat, set<nat>>, batches: map<nat, Batch>,
                  k: nat)
    requires Pending(x, live, keys, nodes, children, batches) && k in keys
    ensures k in nodes && k in children && (k in batches ==> BatchOk(x, live, batches[k].cells, children[k]))
    ensures (k in batches && batches[k].dirty) || Clean(live, k, nodes[k], children[k])
  {
    hide BatchOk, Clean;
  }

  lemma FamilyAt(root: nat, keys: set<nat>, children: map<nat, set<nat>>, parents: map<nat, nat>, p: nat, c: nat)
    requires Family(root, keys, children, parents) && p in keys && c in children[p]
    ensures c in keys && c in parents && parents[c] == p && c != root
  {
  }

  lemma FirstPending(x: Text, live: Live, keys: set<nat>, nodes: map<nat, Node>, children: map<nat, set<nat>>)
    requires nodes.Keys == children.Keys == keys && forall k :: k in keys ==> Clean(live, k, nodes[k], children[k])
    ensures Pending(x, live, keys, nodes, children, map[])
  {
    hide BatchOk, Clean;
  }

  lemma FirstTraced(starts: set<nat>, live: Live, minor: nat, ring: seq<nat>, root: nat, keys: set<nat>, nodes: map<nat, Node>,
                    children: map<nat, set<nat>>, parents: map<nat, nat>)
    requires Owns(live, minor, ring, keys, nodes) && Family(root, keys, children, parents)
             && forall k :: k in keys ==> Clean(live, k, nodes[k], children[k])
    requires forall c :: c in live ==> c in starts
    ensures Traced(starts, live, keys, nodes)
  {
    hide Owns, Holds, Listed, U32, Named, Proper;
    forall k | k in keys && k in nodes ensures Tracks(starts, live, keys, nodes[k]) {
      assert Clean(live, k, nodes[k], children[k]);
      forall e | e in StoredChildren(live, nodes[k]) ensures e in starts && e in keys {
        FamilyAt(root, keys, children, parents, k, e);
        OwnsAt(live, minor, ring, keys, nodes, e);
      }
    }
  }

  /** Cells that look like keys are keys, or were there before. */
  ghost predicate NoStrays(live: Live, m: Live, keys: set<nat>) {
    forall c :: c in m && IsKey(m[c]) && c !in keys ==> c in live && IsKey(live[c])
  }

  lemma TracedFrame(starts: set<nat>, wider: set<nat>, live: Live, m: Live, minor: nat, ring: seq<nat>, keys: set<nat>, more: set<nat>,
                    nodes: map<nat, Node>)
    requires Owns(live, minor, ring, keys, nodes) && Kept(live, m, ring, keys) && (forall k :: k in keys ==> k !in ring)
    requires Traced(starts, live, keys, nodes) && starts <= wider && keys <= more && NoStrays(live, m, more)
    ensures keys <= nodes.Keys
    ensures Traced(wider, m, keys, nodes) || keys != more
    ensures forall k :: k in keys ==> Tracks(wider, m, more, nodes[k])
  {
    hide Owns, NodeHolds, Owned, Alike, Distinct, Named, Holds, Listed, IsKey;
    OwnsDomain(live, minor, ring, keys, nodes);
    forall k | k in keys ensures Tracks(wider, m, more, nodes[k]) {
      OwnsAt(live, minor, ring, keys, nodes, k);
      NodeLive(live, minor, k, nodes[k]);
      NodeKept(live, m, minor, k, nodes[k]);
      assert Tracks(starts, live, keys, nodes[k]);
    }
  }

  lemma OwnsDomain(live: Live, minor: nat, ring: seq<nat>, keys: set<nat>, nodes: map<nat, Node>)
    requires Owns(live, minor, ring, keys, nodes)
    ensures keys <= nodes.Keys && forall k :: k in keys ==> k in live
  {
    hide Owned, Distinct, Named, IndexHolds, ValuesHold, ClassHolds;
  }

  lemma NotBoth(b: bytes)
    ensures IsSecurity(b) ==> !IsKey(b)
  {
  }

  /** A change of counts makes nothing look like a key. */
  lemma RingStrays(live: Live, m: Live, ring: seq<nat>, keys: set<nat>)
    requires m.Keys == live.Keys && (forall c :: c in m && c !in ring ==> m[c] == live[c])
    requires forall c :: c in ring ==> c in m && c in live && SameText(m[c], live[c])
    ensures NoStrays(live, m, keys)
  {
    hide IsKey, IsSecurity, Descriptor;
    forall c | c in m && IsKey(m[c]) && c !in keys ensures c in live && IsKey(live[c]) {
      if c in ring { NotBoth(m[c]); }
    }
  }

  lemma SecurityStrays(live: Live, m: Live, ring: seq<nat>, rest: seq<nat>, keys: set<nat>, k: nat)
    requires k in keys && Sound(m, rest, keys, NONE)
    requires forall c :: c in m && c !in rest ==> c in live && c !in ring
    requires forall c :: c in live && c !in ring && c != k ==> c in m && m[c] == live[c]
    ensures NoStrays(live, m, keys)
  {
    hide IsKey, IsSecurity;
    SoundMembers(m, rest, keys);
    forall c | c in m && IsKey(m[c]) && c !in keys ensures c in live && IsKey(live[c]) { NotBoth(m[c]); }
  }

  lemma EditStrays(live: Live, m: Live, k: nat, keys: set<nat>)
    requires k in keys && k in m && m == live[k := m[k]]
    ensures NoStrays(live, m, keys)
  {
  }

  // ----- which child lists can be loaded

  /** A key whose child list is not loaded and cannot be. */
  ghost predicate Unloadable(x: Text, live: Live, nodes: map<nat, Node>, batches: map<nat, Batch>, k: nat) {
    k in nodes && k !in batches && !Loadable(x, live, nodes[k])
  }

  ghost predicate Walks(n: Node) { n.index.Some? ==> Room(n.index.value, 0, {}) }

  ghost predicate IsDirty(batches: map<nat, Batch>, k: nat) { k in batches && batches[k].dirty }

  /** Every index can be walked, and every child list is changed or can be loaded. */
  ghost predicate Opened(x: Text, live: Live, keys: set<nat>, nodes: map<nat, Node>, batches: map<nat, Batch>) {
    forall k :: k in keys && k in nodes ==> Walks(nodes[k]) && (IsDirty(batches, k) || Loadable(x, live, nodes[k]))
  }

  lemma LoadableKept(x: Text, a: State, m: Live, minor: nat, root: nat, k: nat)
    requires Owns(a.live, minor, a.ring, a.keys, a.nodes) && Family(root, a.keys, a.children, a.parents)
             && Pending(x, a.live, a.keys, a.nodes, a.children, a.batches)
    requires Kept(a.live, m, a.ring, a.keys) && (forall k :: k in a.keys ==> k !in a.ring) && k in a.keys && !IsDirty(a.batches, k)
    ensures k in a.nodes && (Loadable(x, a.live, a.nodes[k]) <==> Loadable(x, m, a.nodes[k]))
  {
    hide Owns, Family, Pending, Alike, Folded, Named, NodeHolds, Holds, Listed, Room, U32, Owned;
    OpenClean(x, a, minor, root, k);
    OwnsAt(a.live, minor, a.ring, a.keys, a.nodes, k);
    NodeLive(a.live, minor, k, a.nodes[k]);
    KeptAt(a.live, m, minor, a.ring, a.keys, a.nodes, k);
    NodeKept(a.live, m, minor, k, a.nodes[k]);
    IndexThere(m, minor, k, a.nodes[k]);
    forall c | c in StoredChildren(a.live, a.nodes[k]) ensures Folded(x, m, c) == Folded(x, a.live, c) {
      KeptAt(a.live, m, minor, a.ring, a.keys, a.nodes, c);
      NameKept(x, a.live, m, c);
    }
  }

  lemma KeptAt(live: Live, m: Live, minor: nat, ring: seq<nat>, keys: set<nat>, nodes: map<nat, Node>, k: nat)
    requires Owns(live, minor, ring, keys, nodes) && Kept(live, m, ring, keys) && k in keys && k !in ring
    ensures k in nodes && k in live && k in m && Alike(live[k], m[k]) && forall c ::
              c in Owned(nodes[k]) ==> c in live && c in m && m[c] == live[c]
  {
    hide NodeHolds, Owned, Alike, Distinct, Named, Owns;
    OwnsAt(live, minor, ring, keys, nodes, k);
    NodeLive(live, minor, k, nodes[k]);
    OwnsApart(live, minor, ring, keys, nodes, k);
  }

  lemma OwnsApart(live: Live, minor: nat, ring: seq<nat>, keys: set<nat>, nodes: map<nat, Node>, k: nat)
    requires Owns(live, minor, ring, keys, nodes) && k in keys
    ensures k in nodes && forall c :: c in Owned(nodes[k]) ==> c !in ring && c !in keys
  {
    hide NodeHolds, Owned, Distinct, Named;
    assert Proper(live, minor, ring, keys, k, nodes[k]);
  }

  /** Nothing that was open is closed by edits elsewhere. */
  lemma OpenedFrame(x: Text, a: State, m: Live, minor: nat, root: nat)
    requires Owns(a.live, minor, a.ring, a.keys, a.nodes) && Family(root, a.keys, a.children, a.parents)
             && Pending(x, a.live, a.keys, a.nodes, a.children, a.batches)
    requires Kept(a.live, m, a.ring, a.keys) && (forall k :: k in a.keys ==> k !in a.ring) && Opened(x, a.live, a.keys, a.nodes, a.batches)
    ensures Opened(x, m, a.keys, a.nodes, a.batches)
  {
    hide Owns, Family, Pending, Kept, Loadable, Walks;
    forall k | k in a.keys && k in a.nodes ensures Walks(a.nodes[k]) && (IsDirty(a.batches, k) || Loadable(x, m, a.nodes[k])) {
      if !IsDirty(a.batches, k) { LoadableKept(x, a, m, minor, root, k); }
    }
  }

  /** Loading and creating leave everything open. */
  lemma OpenedMore(x: Text, live: Live, keys: set<nat>, nodes: map<nat, Node>, a: map<nat, Batch>, b: map<nat, Batch>)
    requires Opened(x, live, keys, nodes, a) && forall k :: IsDirty(a, k) ==> IsDirty(b, k)
    ensures Opened(x, live, keys, nodes, b)
  {
    hide Loadable, Walks;
  }

  lemma OpenedNew(x: Text, live: Live, keys: set<nat>, nodes: map<nat, Node>, a: map<nat, Batch>, k: nat)
    requires Opened(x, live, keys, nodes, a) && k !in keys
    ensures Opened(x, live, keys + {k}, nodes[k := EMPTY], a)
  {
    hide Room, Holds;
  }

  // ----- what edits elsewhere leave alone

  /** Key bodies that agree on their lists, values, class and name. */
  predicate Alike(a: bytes, b: bytes) {
    && IsKey(a) && IsKey(b) && |a| == |b| && b[0x4c..] == a[0x4c..]
    && U32(b, 0x14) == U32(a, 0x14) && U32(b, 0x1c) == U32(a, 0x1c) && Steady(a, b)
  }

  predicate Steady(a: bytes, b: bytes)
    requires IsKey(a) && IsKey(b)
  {
    && U32(b, 0x18) == U32(a, 0x18) && U32(b, 0x24) == U32(a, 0x24) && U32(b, 0x28) == U32(a, 0x28) && U32(b, 0x30) == U32(a, 0x30)
    && U16(b, 2) == U16(a, 2) && U16(b, 0x48) == U16(a, 0x48) && U16(b, 0x4a) == U16(a, 0x4a)
  }

  /** Outside the ring, all cells are kept, and keys are kept alike. */
  ghost predicate Kept(live: Live, m: Live, ring: seq<nat>, keys: set<nat>) {
    forall c :: c in live && c !in ring ==> c in m && if c in keys then Alike(live[c], m[c]) else m[c] == live[c]
  }

  lemma NodeKept(live: Live, m: Live, minor: nat, k: nat, n: Node)
    requires NodeHolds(live, minor, k, n) && k in m && Alike(live[k], m[k]) && forall c ::
               c in Owned(n) ==> c in m && c in live && m[c] == live[c]
    ensures NodeHolds(m, minor, k, n) && (n.index.Some? ==> Holds(live, n.index.value) && Listed(m, n.index.value) == Listed(live, n.index.value))
    ensures Named(live[k]) ==> Named(m[k])
  {
    hide LE, U32, U16, Row, Holds, Listed, HoldsValues, ListedValues, ClassCell;
    assert forall c :: c in IndexCells(n) || c in ListedValues(n) || c in ClassCell(n) ==> c in Owned(n);
    if n.index.Some? { Frame(live, m, n.index.value); }
    RestHolds(live, m, minor, live[k], n);
  }

  lemma OwnsFrame(live: Live, m: Live, minor: nat, ring: seq<nat>, rest: seq<nat>, keys: set<nat>, nodes: map<nat, Node>)
    requires Owns(live, minor, ring, keys, nodes) && Kept(live, m, ring, keys) && (forall c :: c in rest ==> c in ring || c !in live)
    requires forall k :: k in keys ==> k !in ring
    ensures Owns(m, minor, rest, keys, nodes)
  {
    hide NodeHolds, Owned, Alike, Distinct, Named;
    forall k | k in keys ensures Proper(m, minor, rest, keys, k, nodes[k]) {
      OwnsAt(live, minor, ring, keys, nodes, k);
      NodeLive(live, minor, k, nodes[k]);
      NodeKept(live, m, minor, k, nodes[k]);
    }
  }

  lemma NameKept(x: Text, live: Live, m: Live, c: nat)
    requires c in live && c in m && Alike(live[c], m[c])
    ensures Folded(x, m, c) == Folded(x, live, c) && NameOf(x, m, c) == NameOf(x, live, c)
  {
    hide LE, U32, U16;
    var a, b := live[c], m[c];
    if Named(a) {
      assert b[0x4c..][..U16(a, 0x48)] == b[0x4c..0x4c + U16(b, 0x48)];
      assert a[0x4c..][..U16(a, 0x48)] == a[0x4c..0x4c + U16(a, 0x48)];
    }
  }

  lemma CleanKept(live: Live, m: Live, minor: nat, ring: seq<nat>, keys: set<nat>, nodes: map<nat, Node>, k: nat, kids: set<nat>)
    requires Owns(live, minor, ring, keys, nodes) && Kept(live, m, ring, keys) && k in keys && k !in ring && Clean(live, k, nodes[k], kids)
    ensures Clean(m, k, nodes[k], kids)
  {
    hide NodeHolds, Owned, Distinct, U32, U16, Owns, Elements, Holds, Listed;
    OwnsAt(live, minor, ring, keys, nodes, k);
    NodeLive(live, minor, k, nodes[k]);
    NodeKept(live, m, minor, k, nodes[k]);
    IndexThere(m, minor, k, nodes[k]);
  }

  lemma IndexThere(live: Live, minor: nat, k: nat, n: Node)
    requires NodeHolds(live, minor, k, n)
    ensures n.index.Some? ==> Holds(live, n.index.value)
  {
  }

  lemma PendingFrame(x: Text, a: State, m: Live, minor: nat, root: nat)
    requires Owns(a.live, minor, a.ring, a.keys, a.nodes) && Family(root, a.keys, a.children, a.parents)
             && Pending(x, a.live, a.keys, a.nodes, a.children, a.batches)
    requires Kept(a.live, m, a.ring, a.keys) && forall k :: k in a.keys ==> k !in a.ring
    ensures Pending(x, m, a.keys, a.nodes, a.children, a.batches)
  {
    hide Owns, Clean, Alike, Folded, Named, BatchOk;
    forall c | c in a.keys ensures Folded(x, m, c) == Folded(x, a.live, c) {
      OwnsAt(a.live, minor, a.ring, a.keys, a.nodes, c);
      NameKept(x, a.live, m, c);
    }
    forall k | k in a.keys && Clean(a.live, k, a.nodes[k], a.children[k]) ensures Clean(m, k, a.nodes[k], a.children[k]) {
      CleanKept(a.live, m, minor, a.ring, a.keys, a.nodes, k, a.children[k]);
    }
    forall p | p in a.batches ensures BatchOk(x, m, a.batches[p].cells, a.children[p]) {
      BatchKept(x, a.live, m, a.batches[p].cells, a.children[p]);
    }
  }

  lemma BatchKept(x: Text, live: Live, m: Live, cells: map<string, nat>, kids: set<nat>)
    requires BatchOk(x, live, cells, kids) && forall c :: c in kids ==> Folded(x, m, c) == Folded(x, live, c)
    ensures BatchOk(x, m, cells, kids)
  {
    hide Folded;
  }

  lemma SameKept(live: Live, m: Live, minor: nat, ring: seq<nat>, keys: set<nat>, nodes: map<nat, Node>)
    requires Owns(live, minor, ring, keys, nodes) && forall c :: c in live && c !in ring ==> c in m && m[c] == live[c]
    ensures Kept(live, m, ring, keys)
  {
    hide Owns, U32, U16, LE;
    forall c | c in live && c !in ring ensures c in m && if c in keys then Alike(live[c], m[c]) else m[c] == live[c] {
      if c in keys { OwnsAt(live, minor, ring, keys, nodes, c); }
    }
  }

  // ----- creating a key

  /** What a new key owns. */
  const EMPTY: Node := Node(None, NoValue, 0, None)

  /** The fixed time written into new keys, 2026-07-05 as 100 ns steps since 1601. */
  const STAMP_LOW: nat := 955039744
  const STAMP_HIGH: nat := 31263761

  function NewKeyHead(flags: nat, parent: nat): (b: bytes)
    ensures |b| == 0x1c
  {
    NK + Enc16(flags) + Enc32(STAMP_LOW) + Enc32(STAMP_HIGH) + Zeros(4) + Enc32(parent) + Zeros(8)
  }

  function NewKeyLists(security: nat): (b: bytes)
    ensures |b| == 0x28
  {
    Enc32(NONE) + Enc32(NONE) + Zeros(4) + Enc32(NONE) + Enc32(security) + Enc32(NONE) + Zeros(0x10)
  }

  function NewKeyName(legacy: bool, name: bytes): (b: bytes)
    ensures |b| == 8 + |name|
  {
    (if legacy then Enc32(0xb2b2b2b2) else Zeros(4)) + Enc16(|name|) + Zeros(2) + name
  }

  function NewKeyBody(legacy: bool, flags: nat, name: bytes, parent: nat, security: nat): (b: bytes)
    ensures |b| == 0x4c + |name|
  {
    NewKeyHead(flags, parent) + NewKeyLists(security) + NewKeyName(legacy, name)
  }

  /** A new key has no children, values or class, and its name as far as 16 bits count it. */
  lemma NewKeyFacts(legacy: bool, flags: nat, name: bytes, parent: nat, security: nat, stored: bytes)
    requires NewKeyBody(legacy, flags, name, parent, security) <= stored && parent <= NONE && security <= NONE && flags < 0x1_0000
    ensures IsKey(stored) && U32(stored, 0x10) == parent && SecurityOf(stored) == security
    ensures U32(stored, 0x14) == 0 && U32(stored, 0x18) == 0 && U32(stored, 0x24) == 0 && U16(stored, 0x4a) == 0
    ensures U16(stored, 2) == flags && U16(stored, 0x48) == |name| % 0x1_0000 && Named(stored)
    ensures stored[0x4c..0x4c + |name| % 0x1_0000] == name[..|name| % 0x1_0000]
  {
    hide LE, U32, U16, NewKeyHead, NewKeyLists, NewKeyName;
    var b := NewKeyBody(legacy, flags, name, parent, security);
    assert stored[..0x1c] == b[..0x1c] == NewKeyHead(flags, parent);
    assert stored[0x1c..0x44] == b[0x1c..0x44] == NewKeyLists(security);
    assert stored[0x44..0x4c + |name|] == b[0x44..] == NewKeyName(legacy, name);
    HeadFacts(flags, parent, stored);
    ListsFacts(security, stored);
    NameFacts(legacy, name, stored);
  }

  lemma HeadFacts(flags: nat, parent: nat, b: bytes)
    requires 0x4c <= |b| && b[..0x1c] == NewKeyHead(flags, parent) && parent <= NONE && flags < 0x1_0000
    ensures b[..2] == NK && U16(b, 2) == flags && U32(b, 0x10) == parent && U32(b, 0x14) == 0 && U32(b, 0x18) == 0
  {
    hide LE, U32, U16;
    var h := b[..0x1c];
    assert b[..2] == h[..2] == NK;
    assert b[2..4] == h[2..4] == Enc16(flags);
    assert b[0x10..0x14] == h[0x10..0x14] == Enc32(parent);
    assert b[0x14..0x18] == h[0x14..0x18] == Zeros(4);
    assert b[0x18..0x1c] == h[0x18..0x1c] == Zeros(4);
    HalfRead(b, 2, flags); WordRead(b, 0x10, parent); ZeroRead(b, 0x14); ZeroRead(b, 0x18);
  }

  lemma InnerSlice(b: bytes, s: nat, e: nat, i: nat, j: nat)
    requires s <= e <= |b| && i <= j <= e - s
    ensures b[s..e][i..j] == b[s + i..s + j]
  {
    var x, y := b[s..e][i..j], b[s + i..s + j];
    assert forall k :: 0 <= k < j - i ==> x[k] == b[s + i + k] && y[k] == b[s + i + k];
  }

  lemma ListsFacts(security: nat, b: bytes)
    requires 0x4c <= |b| && b[0x1c..0x44] == NewKeyLists(security) && security <= NONE
    ensures U32(b, 0x24) == 0 && U32(b, 0x2c) == security
  {
    hide LE, U32, U16;
    var h := b[0x1c..0x44];
    InnerSlice(b, 0x1c, 0x44, 8, 12); InnerSlice(b, 0x1c, 0x44, 0x10, 0x14);
    assert b[0x24..0x28] == h[8..12] == Zeros(4);
    assert b[0x2c..0x30] == h[0x10..0x14] == Enc32(security);
    ZeroRead(b, 0x24); WordRead(b, 0x2c, security);
  }

  lemma NameFacts(legacy: bool, name: bytes, b: bytes)
    requires 0x4c + |name| <= |b| && b[0x44..0x4c + |name|] == NewKeyName(legacy, name)
    ensures U16(b, 0x48) == |name| % 0x1_0000 && U16(b, 0x4a) == 0
    ensures b[0x4c..0x4c + |name| % 0x1_0000] == name[..|name| % 0x1_0000]
  {
    hide LE, U32, U16;
    var h := b[0x44..0x4c + |name|];
    InnerSlice(b, 0x44, 0x4c + |name|, 4, 6); InnerSlice(b, 0x44, 0x4c + |name|, 6, 8);
    assert b[0x48..0x4a] == h[4..6] == Enc16(|name|);
    assert b[0x4a..0x4c] == h[6..8] == Zeros(2);
    assert b[0x4c..0x4c + |name|] == h[8..] == name;
    assert b[0x4c..0x4c + |name| % 0x1_0000] == b[0x4c..0x4c + |name|][..|name| % 0x1_0000];
    HalfRead(b, 0x48, |name|); ZeroHalf(b, 0x4a);
  }

  lemma ZeroRead(b: bytes, o: nat)
    requires o + 4 <= |b| && b[o..o + 4] == Zeros(4)
    ensures U32(b, o) == 0
  {
    LE4(b[o..o + 4]);
  }

  lemma ZeroHalf(b: bytes, o: nat)
    requires o + 2 <= |b| && b[o..o + 2] == Zeros(2)
    ensures U16(b, o) == 0
  {
    LE2(b[o..o + 2]);
  }

  lemma HalfRead(b: bytes, o: nat, v: nat)
    requires o + 2 <= |b| && b[o..o + 2] == Enc16(v)
    ensures U16(b, o) == v % 0x1_0000
  {
    U16Enc(v);
  }

  ghost function InheritedFrom(live: Live, parent: nat): nat { if parent in live
                          && IsKey(live[parent]) then SecurityOf(live[parent]) else NONE }

  /** The name a reader finds in a key written with a name: its length is kept in 16 bits. */
  function Readable(x: Text, name: string): string { x.decode(x.encode(name)[..|x.encode(name)| % 0x1_0000], x.flags) }

  predicate IsNewKey(x: Text, b: bytes, name: string, parent: nat, security: nat) {
    && Named(b) && U32(b, 0x10) == parent && U32(b, 0x14) == 0 && U32(b, 0x18) == 0 && U32(b, 0x24) == 0 && U16(b, 0x4a) == 0
        && SecurityOf(b) == security
    && NameIn(x, b) == Readable(x, name)
  }

  lemma NewKeyNamed(x: Text, stored: bytes, name: string, parent: nat, security: nat)
    requires IsKey(stored) && U32(stored, 0x10) == parent && SecurityOf(stored) == security
    requires U32(stored, 0x14) == 0 && U32(stored, 0x18) == 0 && U32(stored, 0x24) == 0 && U16(stored, 0x4a) == 0
    requires var data := x.encode(name);
             U16(stored, 2) == x.flags && U16(stored, 0x48) == |data| % 0x1_0000 && Named(stored)
                 && stored[0x4c..0x4c + |data| % 0x1_0000] == data[..|data| % 0x1_0000]
    ensures IsNewKey(x, stored, name, parent, security)
  {
    hide LE, U32, U16;
  }

  /** One cell is new; outside the ring nothing else changed, and in the ring only counts. */
  ghost predicate Changed(live: Live, m: Live, ring: seq<nat>, k: nat) {
    && m.Keys == live.Keys + {k} && (forall c :: c in live && c !in ring ==> m[c] == live[c])
    && (forall c :: c in ring ==> c in m && c in live && SameText(m[c], live[c]))
  }

  lemma ChangedBy(live: Live, one: Live, m: Live, ring: seq<nat>, k: nat)
    requires one.Keys == live.Keys && k !in live && k in m && m == one[k := m[k]]
    requires forall c :: c in one && c !in ring ==> one[c] == live[c]
    requires forall c :: c in ring ==> c in one && c in live && SameText(one[c], live[c])
    ensures Changed(live, m, ring, k)
  {
    hide SameText;
  }

  lemma ParentFacts(live: Live, minor: nat, ring: seq<nat>, keys: set<nat>, nodes: map<nat, Node>, root: nat, children: map<nat, set<nat>>,
                    parents: map<nat, nat>, parent: nat)
    requires Sound(live, ring, keys, NONE) && Owns(live, minor, ring, keys, nodes) && parent in keys
    ensures parent in live && IsKey(live[parent]) && (SecurityOf(live[parent]) == NONE || SecurityOf(live[parent]) in ring)
    ensures live != map[] && (forall k :: k in keys ==> k !in ring && k in live) && (forall c :: c in ring ==> c in live && 20 <= |live[c]|)
    ensures Family(root, keys, children, parents) ==> children.Keys == keys
  {
    hide U32, LE;
    KeyFacts(live, ring, keys);
    SoundMembers(live, ring, keys);
  }

  lemma NewInCache(cache: map<bytes, nat>, live: Live, ring: seq<nat>, keys: set<nat>, debt: nat, k: nat, b: bytes)
    requires Sound(live, ring, keys, debt) && k !in live
    ensures Cached(cache, live, ring) ==> Cached(cache, live[k := b], ring)
  {
    hide LE, U32;
    RingMembers(live, ring);
  }

  /** A new key without children joins the hive. */
  lemma KeyAdded(x: Text, a: State, b: bytes, minor: nat, root: nat, k: nat, debt: nat)
    requires Owns(a.live, minor, a.ring, a.keys, a.nodes) && Family(root, a.keys, a.children, a.parents)
             && Pending(x, a.live, a.keys, a.nodes, a.children, a.batches)
    requires k !in a.live && Named(b) && U32(b, 0x14) == 0 && U32(b, 0x24) == 0 && U16(b, 0x4a) == 0 && Sound(a.live, a.ring, a.keys, debt)
    ensures var m := a.live[k := b];
            && Owns(m, minor, a.ring, a.keys + {k}, a.nodes[k := EMPTY]) && Family(root, a.keys + {k}, a.children[k := {}], a.parents)
            && Pending(x, m, a.keys + {k}, a.nodes[k := EMPTY], a.children[k := {}], a.batches) && k !in a.keys
  {
    hide LE, U32, U16, Owns, Pending, Traced, Clean, Alike, Kept;
    var m := a.live[k := b];
    RingMembers(a.live, a.ring);
    SameKept(a.live, m, minor, a.ring, a.keys, a.nodes);
    OwnsFrame(a.live, m, minor, a.ring, a.ring, a.keys, a.nodes);
    PendingFrame(x, a, m, minor, root);
    OwnsAdd(a.live, m, minor, a.ring, a.keys, a.nodes, k);
    PendingAdd(x, m, a.keys, a.nodes, a.children, a.batches, k);
  }

  lemma TracedAdd(starts: set<nat>, wider: set<nat>, live: Live, b: bytes, minor: nat, ring: seq<nat>, keys: set<nat>,
                  nodes: map<nat, Node>, k: nat, debt: nat)
    requires Owns(live, minor, ring, keys, nodes) && Sound(live, ring, keys, debt) && k !in live && Traced(starts, live, keys, nodes)
             && starts <= wider
    ensures Traced(wider, live[k := b], keys + {k}, nodes[k := EMPTY])
  {
    hide LE, U32, U16, Owns, Kept, Traced, Tracks, IsKey;
    var m := live[k := b];
    RingMembers(live, ring);
    SameKept(live, m, minor, ring, keys, nodes);
    EditStrays(live, m, k, keys + {k});
    TracedFrame(starts, wider, live, m, minor, ring, keys, keys + {k}, nodes);
    OwnsDomain(live, minor, ring, keys, nodes);
    TracedNew(wider, m, keys, nodes, k);
  }

  lemma TracedNew(starts: set<nat>, m: Live, keys: set<nat>, nodes: map<nat, Node>, k: nat)
    requires k !in keys && keys <= nodes.Keys && forall j :: j in keys ==> Tracks(starts, m, keys + {k}, nodes[j])
    ensures Traced(starts, m, keys + {k}, nodes[k := EMPTY])
  {
  }

  lemma EmptyHolds(m: Live, minor: nat, k: nat)
    requires k in m && IsKey(m[k]) && U32(m[k], 0x14) == 0 && U32(m[k], 0x24) == 0 && U16(m[k], 0x4a) == 0
    ensures NodeHolds(m, minor, k, EMPTY) && Owned(EMPTY) == [] && Clean(m, k, EMPTY, {})
  {
    hide LE, U32, U16;
    assert Elements<nat>([]) == {};
  }

  lemma OwnsAdd(live: Live, m: Live, minor: nat, ring: seq<nat>, keys: set<nat>, nodes: map<nat, Node>, k: nat)
    requires Owns(live, minor, ring, keys, nodes) && Owns(m, minor, ring, keys, nodes) && k !in live && k !in keys
    requires k in m && Named(m[k]) && U32(m[k], 0x14) == 0 && U32(m[k], 0x24) == 0 && U16(m[k], 0x4a) == 0
    ensures Owns(m, minor, ring, keys + {k}, nodes[k := EMPTY])
  {
    hide LE, U32, U16, NodeHolds, Owned;
    EmptyHolds(m, minor, k);
    forall j, c | j in keys && c in Owned(nodes[j]) ensures c != k {
      OwnsAt(live, minor, ring, keys, nodes, j);
      NodeLive(live, minor, j, nodes[j]);
    }
  }

  lemma PendingAdd(x: Text, m: Live, keys: set<nat>, nodes: map<nat, Node>, children: map<nat, set<nat>>, batches: map<nat, Batch>, k: nat)
    requires Pending(x, m, keys, nodes, children, batches) && k !in keys
    requires k in m && IsKey(m[k]) && U32(m[k], 0x14) == 0 && U32(m[k], 0x24) == 0 && U16(m[k], 0x4a) == 0
    ensures Pending(x, m, keys + {k}, nodes[k := EMPTY], children[k := {}], batches)
  {
    hide LE, U32, U16, Clean, BatchOk;
    EmptyHolds(m, 0, k);
  }

  /** A recorded maximum after one more name: it is kept in 16 bits. */
  function Raise(longest: nat, width: nat): nat { if width > longest then width % 0x1_0000 else longest }

  /** The longest child name a key records. */
  function NameWidth(b: bytes): nat { if |b| < 0x4c then 0 else U16(b, 0x34) }

  lemma WidthEdit(b: bytes, width: nat)
    requires 0x4c <= |b|
    ensures NameWidth(Splice(b, 0x34, Enc16(width))) == width % 0x1_0000
  {
    hide LE;
    SpliceAt(b, 0x34, Enc16(width));
    U16Enc(width);
  }

  /** Header fields between the class cell and the name length can be written freely. */
  lemma HeadEdit(b: bytes, o: nat, w: bytes)
    requires IsKey(b) && 0x34 <= o && o + |w| <= 0x44
    ensures var c := Splice(b, o, w); IsKey(c) && Alike(b, c) && SecurityOf(c) == SecurityOf(b)
  {
    hide LE;
    var c := Splice(b, o, w);
    SpliceBefore(b, o, w, 0, 2); SpliceBefore(b, o, w, 2, 4);
    SpliceBefore(b, o, w, 0x14, 0x18); SpliceBefore(b, o, w, 0x18, 0x1c); SpliceBefore(b, o, w, 0x1c, 0x20); SpliceBefore(b, o, w, 0x24,
        0x28);
    SpliceBefore(b, o, w, 0x28, 0x2c); SpliceBefore(b, o, w, 0x2c, 0x30); SpliceBefore(b, o, w, 0x30, 0x34);
    SpliceAfter(b, o, w, 0x48, 0x4a); SpliceAfter(b, o, w, 0x4a, 0x4c); SpliceAfter(b, o, w, 0x4c, |b|);
    assert c[0x4c..] == c[0x4c..|b|] && b[0x4c..] == b[0x4c..|b|];
  }

  lemma EditKept(live: Live, minor: nat, ring: seq<nat>, keys: set<nat>, nodes: map<nat, Node>, k: nat, b: bytes)
    requires Owns(live, minor, ring, keys, nodes) && k in keys && k in live && Alike(live[k], b)
    ensures Kept(live, live[k := b], ring, keys)
  {
    hide Owns, U32, U16, LE;
    var m := live[k := b];
    forall c | c in live && c !in ring ensures c in m && if c in keys then Alike(live[c], m[c]) else m[c] == live[c] {
      if c in keys { OwnsAt(live, minor, ring, keys, nodes, c); }
    }
  }

  /** Only one key changed, and not in its lists or name. */
  ghost predicate Touched(live: Live, m: Live, k: nat) {
    k in live && k in m && m == live[k := m[k]] && Alike(live[k], m[k]) && SecurityOf(m[k]) == SecurityOf(live[k])
  }

  lemma NotTouched(live: Live, k: nat)
    requires k in live && Alike(live[k], live[k])
    ensures Touched(live, live, k)
  {
  }

  /** Names do not change when a key stays alike. */
  lemma FoldedKept(x: Text, live: Live, m: Live, k: nat)
    requires Touched(live, m, k)
    ensures forall c :: Folded(x, m, c) == Folded(x, live, c) && NameOf(x, m, c) == NameOf(x, live, c)
  {
    hide Alike, NameIn;
    NameKept(x, live, m, k);
  }

  /** No child has this folded name. */
  ghost predicate Unused(x: Text, live: Live, kids: set<nat>, folded: string) { forall c :: c in kids ==> Folded(x, live, c) != folded }

  lemma UnusedIs(x: Text, live: Live, cells: map<string, nat>, kids: set<nat>, folded: string)
    requires BatchOk(x, live, cells, kids)
    ensures folded !in cells <==> Unused(x, live, kids, folded)
  {
    hide Folded;
  }

  lemma ChildAdded(x: Text, live: Live, keys: set<nat>, nodes: map<nat, Node>, root: nat, children: map<nat, set<nat>>,
                   parents: map<nat, nat>, batches: map<nat, Batch>, parent: nat, child: nat)
    requires Family(root, keys, children, parents) && Pending(x, live, keys, nodes, children, batches)
    requires parent in keys && child in keys && child !in parents && child != root && parent in batches
             && Folded(x, live, child) !in batches[parent].cells
    ensures var more := children[parent := children[parent] + {child}];
            && Family(root, keys, more, parents[child := parent])
            && Pending(x, live, keys, nodes, more, batches[parent := Batch(batches[parent].cells[Folded(x, live, child) := child], true)])
            && forall c :: c in children[parent] ==> Folded(x, live, c) != Folded(x, live, child)
  {
    hide Clean, Folded, BatchOk;
    PendingAt(x, live, keys, nodes, children, batches, parent);
    BatchWith(x, live, batches[parent].cells, children[parent], child);
  }

  lemma BatchWith(x: Text, live: Live, cells: map<string, nat>, kids: set<nat>, child: nat)
    requires BatchOk(x, live, cells, kids) && Folded(x, live, child) !in cells
    ensures BatchOk(x, live, cells[Folded(x, live, child) := child], kids + {child})
    ensures forall c :: c in kids ==> Folded(x, live, c) != Folded(x, live, child)
  {
    hide Folded;
  }

  // ----- growing

  /** Keys were added: the old ones keep their names and their children, and gain only new children. */
  ghost predicate Grew(x: Text, live: Live, m: Live, keys: set<nat>, more: set<nat>, children: map<nat, set<nat>>,
                       wider: map<nat, set<nat>>) {
    && keys <= more && children.Keys == keys && wider.Keys == more
    && (forall k :: k in keys ==> children[k] <= wider[k] && NameOf(x, m, k) == NameOf(x, live, k))
    && (forall k, c :: k in keys && c in wider[k] ==> c in children[k] || c !in keys)
  }

  lemma GrewStart(x: Text, live: Live, keys: set<nat>, children: map<nat, set<nat>>)
    requires children.Keys == keys
    ensures Grew(x, live, live, keys, keys, children, children)
  {
    hide NameOf;
  }

  lemma GrewKept(x: Text, live: Live, m: Live, minor: nat, ring: seq<nat>, keys: set<nat>, nodes: map<nat, Node>,
                 children: map<nat, set<nat>>)
    requires Owns(live, minor, ring, keys, nodes) && Kept(live, m, ring, keys) && (forall k :: k in keys ==> k !in ring)
             && children.Keys == keys
    ensures Grew(x, live, m, keys, keys, children, children)
  {
    hide Owns, Kept, NameOf, Alike, Owned;
    forall k | k in keys ensures NameOf(x, m, k) == NameOf(x, live, k) {
      KeptAt(live, m, minor, ring, keys, nodes, k);
      NameKept(x, live, m, k);
    }
  }

  lemma HasKey(live: Live, k: nat, descriptor: bytes)
    requires Has(live, k, descriptor)
    ensures k in live && IsKey(live[k])
  {
  }

  lemma RobedOthers(live: Live, m: Live, ring: seq<nat>, rest: seq<nat>, keys: set<nat>, cell: nat, descriptor: bytes)
    requires Sound(live, ring, keys, NONE) && Sound(m, rest, keys, NONE) && cell in keys && Has(m, cell, descriptor)
             && SecurityOf(m[cell]) in rest
    requires forall c :: c in live && c !in ring && c != cell ==> c in m && m[c] == live[c]
    requires forall c :: c in rest ==> c in ring || c !in live
    requires forall c :: c in rest && c in ring ==> c in m && c in live && SameText(m[c], live[c])
    requires cell in live && cell in m && Alike(live[cell], m[cell])
    ensures InfoOf(m, cell) == Info(Some(descriptor), InfoOf(live, cell).volatile) && Robed(live, m, keys - {cell})
  {
    hide U32, U16, LE, IsSecurity, Descriptor;
    KeyFacts(live, ring, keys);
    KeyFacts(m, rest, keys);
    SoundMembers(live, ring, keys);
    SoundMembers(m, rest, keys);
    BelowNone(m, rest, keys, NONE);
  }

  lemma GrewThen(x: Text, a: Live, b: Live, c: Live, keys: set<nat>, some: set<nat>, more: set<nat>, kids: map<nat, set<nat>>,
                 wide: map<nat, set<nat>>, wider: map<nat, set<nat>>)
    requires Grew(x, a, b, keys, some, kids, wide) && Grew(x, b, c, some, more, wide, wider)
    ensures Grew(x, a, c, keys, more, kids, wider)
  {
    hide NameOf;
    forall k, d | k in keys && d in wider[k] ensures d in kids[k] || d !in keys {
      if d in wide[k] { assert d in kids[k] || d !in keys; }
    }
  }

  lemma GrewOne(x: Text, live: Live, one: Live, m: Live, ring: seq<nat>, keys: set<nat>, kids: map<nat, set<nat>>, parent: nat, child: nat,
                name: string, security: nat)
    requires Changed(live, one, ring, child) && Touched(one, m, parent) && kids.Keys == keys && parent in keys && child !in keys
             && child in one
    requires (forall k :: k in keys ==> k in live && k !in ring) && IsNewKey(x, one[child], name, parent, security)
    ensures var wide := kids[child := {}];
            Grew(x, live, m, keys, keys + {child}, kids, wide[parent := wide[parent] + {child}])
                && Folded(x, m, child) == x.fold(Readable(x, name))
  {
    hide NameIn, Readable, Touched, SameText;
    FoldedKept(x, one, m, parent);
  }

  /** A child may be added: its name is there, or the name it will be read under is not. */
  ghost predicate Placeable(x: Text, live: Live, kids: set<nat>, name: string) {
    !Unused(x, live, kids, x.fold(name)) || Unused(x, live, kids, x.fold(Readable(x, name)))
  }

  ghost function Adopted(children: map<nat, set<nat>>, parent: nat, child: nat): map<nat, set<nat>> {
    if parent in children then children[child := {}][parent := children[parent] + {child}] else children
  }

  lemma UsedBy(x: Text, live: Live, kids: set<nat>, c: nat, folded: string)
    requires c in kids && Folded(x, live, c) == folded
    ensures !Unused(x, live, kids, folded)
  {
    hide Folded;
  }

  /** Writing a key elsewhere changes neither the names of other keys nor which lists can be loaded. */
  lemma ChangedKept(x: Text, minor: nat, root: nat, a: State, one: Live, parent: nat, child: nat)
    requires Stands(minor, root, a) && Pending(x, a.live, a.keys, a.nodes, a.children, a.batches)
    requires Changed(a.live, one, a.ring, child) && (forall k :: k in a.keys ==> k in a.live && k !in a.ring) && parent in a.keys
    ensures parent in a.nodes && (parent in a.batches || (Loadable(x, a.live, a.nodes[parent]) <==> Loadable(x, one, a.nodes[parent])))
    ensures parent in a.children && forall f :: Unused(x, a.live, a.children[parent], f) <==> Unused(x, one, a.children[parent], f)
  {
    hide Owns, Sound, Family, Pending, Folded, Loadable, SameText;
    OwnsAt(a.live, minor, a.ring, a.keys, a.nodes, parent);
    SameKept(a.live, one, minor, a.ring, a.keys, a.nodes);
    if parent !in a.batches {
      LoadableKept(x, a, one, minor, root, parent);
    }
    assert parent in a.children by { FamilyDomain(root, a.keys, a.children, a.parents); }
    forall c | c in a.children[parent] ensures Folded(x, one, c) == Folded(x, a.live, c) {
      FamilyAt(root, a.keys, a.children, a.parents, parent, c);
      SameFolded(x, a.live, one, c);
    }
  }

  lemma FamilyDomain(root: nat, keys: set<nat>, children: map<nat, set<nat>>, parents: map<nat, nat>)
    requires Family(root, keys, children, parents)
    ensures children.Keys == keys
  {
  }

  lemma AlikeItself(b: bytes)
    requires IsKey(b)
    ensures Alike(b, b)
  {
  }

  lemma SameFolded(x: Text, live: Live, m: Live, c: nat)
    requires c in live && c in m && m[c] == live[c]
    ensures Folded(x, m, c) == Folded(x, live, c)
  {
  }

  lemma NewName(x: Text, one: Live, c: nat, name: string, parent: nat, security: nat)
    requires c in one && IsNewKey(x, one[c], name, parent, security)
    ensures Folded(x, one, c) == x.fold(Readable(x, name))
  {
    hide NameIn, Readable;
  }

  /** What keeps a child from being found or created. */
  ghost predicate Stuck(x: Text, live: Live, nodes: map<nat, Node>, children: map<nat, set<nat>>, batches: map<nat, Batch>, k: nat,
                        name: string) {
    Unloadable(x, live, nodes, batches, k) || (k in children && !Placeable(x, live, children[k], name))
  }

  ghost predicate Creatable(x: Text, live: Live, nodes: map<nat, Node>, children: map<nat, set<nat>>, batches: map<nat, Batch>, k: nat,
                          name: string) {
    !Unloadable(x, live, nodes, batches, k) && k in children && Unused(x, live, children[k], x.fold(Readable(x, name)))
  }

  /** A new child of a key, under the name it can be read by. */
  ghost predicate Created(x: Text, a: State, b: State, parent: nat, name: string, child: nat) {
    && parent in a.children && IsDirty(b.batches, parent) && b.batches == a.batches[parent := b.batches[parent]]
    && Grew(x, a.live, b.live, a.keys, b.keys, a.children, b.children) && Folded(x, b.live, child) == x.fold(Readable(x, name))
    && child !in a.keys && b.keys == a.keys + {child} && b.children == Adopted(a.children, parent, child)
    && b.nodes == a.nodes[child := EMPTY] && Shelved(a.live, b.live, a.keys, a.nodes, b.nodes)
    && Robed(a.live, b.live, a.keys) && InfoOf(b.live, child) == Heir(InfoOf(a.live, parent))
  }

  /** A child that was there under the name, with nothing changed but what was loaded. */
  ghost predicate Found(x: Text, a: State, b: State, parent: nat, name: string, child: nat) {
    && parent in a.children && parent in b.batches && b.batches == a.batches[parent := b.batches[parent]] && Reloaded(a.batches, b.batches)
    && a.children.Keys == a.keys && Folded(x, b.live, child) == x.fold(name) && child in a.keys && child in a.children[parent]
    && b.keys == a.keys && b.live == a.live && b.children == a.children && b.nodes == a.nodes
  }

  ghost predicate Ensured(x: Text, a: State, b: State, parent: nat, name: string, child: nat) {
    parent in a.children &&
    if Unused(x, a.live, a.children[parent], x.fold(name)) then Created(x, a, b, parent, name, child)
    else Found(x, a, b, parent, name, child)
  }

  /** A path leads to a key at which its next part is stuck. */
  ghost predicate Blocked(x: Text, live: Live, kids: map<nat, set<nat>>, tree: map<nat, Node>, pend: map<nat, Batch>, trail: seq<nat>,
                          parts: seq<string>) {
    && 0 < |trail| <= |parts| && Path(x, live, kids, trail, parts[..|trail| - 1])
    && Stuck(x, live, tree, kids, pend, trail[|trail| - 1], parts[|trail| - 1])
  }

  /** No part of a path is stuck on its way, and what is new on it was not there before. */
  ghost predicate Passable(x: Text, live: Live, kids: map<nat, set<nat>>, tree: map<nat, Node>, pend: map<nat, Batch>, trail: seq<nat>,
                          parts: seq<string>) {
    |trail| == |parts| + 1 && forall i :: 0 <= i < |parts| ==> Permitted(x, live, kids, tree, pend, trail[i], parts[i], trail[i + 1])
  }

  ghost predicate Permitted(x: Text, live: Live, kids: map<nat, set<nat>>, tree: map<nat, Node>, pend: map<nat, Batch>, k: nat,
                          name: string, child: nat) {
    !Stuck(x, live, tree, kids, pend, k, name) && (k in kids && child !in kids ==> Unused(x, live, kids[k], x.fold(name)))
  }

  /** A key on a trail whose next key is new. */
  ghost predicate Stems(keys: set<nat>, trail: seq<nat>, k: nat) {
    exists i :: 0 <= i < |trail| - 1 && trail[i] == k && trail[i + 1] !in keys
  }

  /** Only keys that gained a child on a trail have become dirty. */
  ghost predicate Stirred(keys: set<nat>, pend: map<nat, Batch>, batches: map<nat, Batch>, trail: seq<nat>) {
    forall k :: IsDirty(batches, k) ==> IsDirty(pend, k) || Stems(keys, trail, k)
  }

  lemma StirredStep(keys: set<nat>, pend: map<nat, Batch>, held: map<nat, Batch>, batches: map<nat, Batch>, trail: seq<nat>, child: nat)
    requires Stirred(keys, pend, held, trail) && trail != []
    requires Reloaded(held, batches) || (trail[|trail| - 1] in batches && child !in keys
             && batches == held[trail[|trail| - 1] := batches[trail[|trail| - 1]]])
    ensures Stirred(keys, pend, batches, trail + [child])
  {
    var more, n := trail + [child], |trail| - 1;
    forall k | IsDirty(batches, k) ensures IsDirty(pend, k) || Stems(keys, more, k) {
      if IsDirty(held, k) {
        if !IsDirty(pend, k) {
          var i :| 0 <= i < |trail| - 1 && trail[i] == k && trail[i + 1] !in keys;
          assert more[i] == k && more[i + 1] == trail[i + 1];
        }
      } else {
        assert more[n] == k && more[n + 1] == child;
      }
    }
  }

  /** The security descriptor a key has, if any. */
  ghost function DescOf(live: Live, k: nat): Option<bytes> {
    if k in live && IsKey(live[k]) && SecurityOf(live[k]) != NONE && SecurityOf(live[k]) in live && IsSecurity(live[SecurityOf(live[k])])
    then Some(Descriptor(live[SecurityOf(live[k])])) else None
  }

  /** What a key says besides its name: its descriptor, and how many volatile children it counts. */
  datatype Info = Info(descriptor: Option<bytes>, volatile: nat)

  ghost function InfoOf(live: Live, k: nat): Info { Info(DescOf(live, k), if k in live && IsKey(live[k]) then U32(live[k], 0x18) else 0) }

  /** What a new child of a key says. */
  function Heir(parent: Info): Info { Info(parent.descriptor, 0) }

  /** The stored lists of these keys are what they were, and other keys have none. */
  ghost predicate Shelved(live: Live, m: Live, keys: set<nat>, tree: map<nat, Node>, nodes: map<nat, Node>) {
    && (forall k :: k in keys && k in tree ==> k in nodes && nodes[k] == tree[k] && SameList(live, m, tree[k]))
    && forall k :: k in nodes && k !in keys ==> nodes[k] == EMPTY
  }

  ghost predicate SameList(live: Live, m: Live, n: Node) {
    n.index.Some? && Holds(live, n.index.value) ==> Holds(m, n.index.value) && Listed(m, n.index.value) == Listed(live, n.index.value)
  }

  lemma ShelvedThen(live: Live, one: Live, m: Live, keys: set<nat>, some: set<nat>, tree: map<nat, Node>, boughs: map<nat, Node>,
                    nodes: map<nat, Node>)
    requires Shelved(live, one, keys, tree, boughs) && Shelved(one, m, some, boughs, nodes) && keys <= some == boughs.Keys
    ensures Shelved(live, m, keys, tree, nodes)
  {
    hide Holds, Listed;
  }

  lemma ShelvedGrown(live: Live, one: Live, m: Live, minor: nat, ring: seq<nat>, keys: set<nat>, nodes: map<nat, Node>, parent: nat,
                     child: nat)
    requires Owns(live, minor, ring, keys, nodes) && Changed(live, one, ring, child) && Touched(one, m, parent) && parent in keys
             && child !in keys && nodes.Keys == keys
    requires forall k :: k in keys ==> k in live && k !in ring
    ensures Shelved(live, m, keys, nodes, nodes[child := EMPTY])
  {
    hide Owns, NodeHolds, Holds, Listed, Alike, SameText, Owned;
    assert Kept(live, m, ring, keys) by {
      forall c | c in live && c !in ring ensures c in m && if c in keys then Alike(live[c], m[c]) else m[c] == live[c] {
        if c in keys { OwnsAt(live, minor, ring, keys, nodes, c); AlikeItself(live[c]); }
      }
    }
    ListsKept(live, m, minor, ring, keys, nodes);
  }

  lemma ListsKept(live: Live, m: Live, minor: nat, ring: seq<nat>, keys: set<nat>, nodes: map<nat, Node>)
    requires Owns(live, minor, ring, keys, nodes) && Kept(live, m, ring, keys) && forall k :: k in keys ==> k !in ring
    ensures forall k :: k in keys && k in nodes ==> SameList(live, m, nodes[k])
  {
    hide Owns, NodeHolds, Holds, Listed, Alike, Owned;
    forall k | k in keys && k in nodes ensures SameList(live, m, nodes[k]) {
      OwnsAt(live, minor, ring, keys, nodes, k);
      KeptAt(live, m, minor, ring, keys, nodes, k);
      NodeKept(live, m, minor, k, nodes[k]);
      IndexThere(m, minor, k, nodes[k]);
    }
  }

  /** These keys say what they said. */
  ghost predicate Robed(live: Live, m: Live, keys: set<nat>) { forall k :: k in keys ==> InfoOf(m, k) == InfoOf(live, k) }

  lemma RobedGrown(x: Text, live: Live, one: Live, m: Live, ring: seq<nat>, keys: set<nat>, parent: nat, child: nat, name: string)
    requires Sound(live, ring, keys, NONE) && Changed(live, one, ring, child) && child !in live && Touched(one, m, parent) && parent in keys
             && child !in keys
    requires child in one && IsNewKey(x, one[child], name, parent, InheritedFrom(live, parent))
    ensures Robed(live, m, keys) && InfoOf(m, child) == Heir(InfoOf(live, parent))
  {
    hide U32, U16, LE, Alike, NameIn, Readable;
    KeyFacts(live, ring, keys);
    SoundMembers(live, ring, keys);
    TouchedKeys(one, m, parent);
    forall k | k in keys || k == child ensures InfoOf(m, k) == if k == child then Heir(InfoOf(live, parent)) else InfoOf(live, k) {
      RobedAt(live, one, m, ring, keys, parent, child, k);
    }
  }

  lemma TouchedKeys(one: Live, m: Live, parent: nat)
    requires Touched(one, m, parent)
    ensures IsKey(one[parent]) && IsKey(m[parent])
  {
  }

  lemma RobedAt(live: Live, one: Live, m: Live, ring: seq<nat>, keys: set<nat>, parent: nat, child: nat, k: nat)
    requires (forall j :: j in keys ==> j in live && IsKey(live[j]) && j !in ring && (SecurityOf(live[j]) == NONE || SecurityOf(live[j]) in ring))
    requires (forall c :: c in ring ==> c in live && IsSecurity(live[c])) && Changed(live, one, ring, child) && child !in live
             && Touched(one, m, parent) && parent in keys
    requires IsKey(one[parent]) && IsKey(m[parent]) && child in one && IsKey(one[child]) && U32(one[child], 0x18) == 0
             && SecurityOf(one[child]) == InheritedFrom(live, parent) && (k in keys || k == child)
    ensures InfoOf(m, k) == if k == child then Heir(InfoOf(live, parent)) else InfoOf(live, k)
  {
    hide U32, U16, LE, IsSecurity, Descriptor;
    var j := if k == child then parent else k;
    assert one[j] == live[j];
    assert SecurityOf(m[k]) == SecurityOf(live[j]);
  }

  /** Two cells follow one another on a trail. */
  ghost predicate Follows(trail: seq<nat>, k: nat, c: nat) { exists i :: 0 <= i < |trail| - 1 && trail[i] == k && trail[i + 1] == c }

  /** The keys gained are those of the trail, and the links gained are those along it. */
  ghost predicate Planted(keys: set<nat>, more: set<nat>, kids: map<nat, set<nat>>, wide: map<nat, set<nat>>, trail: seq<nat>) {
    && more == keys + Elements(trail) && kids.Keys == keys && wide.Keys == more
    && (forall k, c :: k in more ==> (c in wide[k] <==> (k in keys && c in kids[k]) || Follows(trail, k, c)))
    && forall i :: 0 <= i < |trail| - 1 && trail[i] !in keys ==> trail[i + 1] !in keys
  }

  /** Names along a trail: those of old keys as asked for, those of new keys as they can be read. */
  ghost predicate Carries(x: Text, m: Live, keys: set<nat>, trail: seq<nat>, done: seq<string>) {
    |trail| == |done| + 1 &&
    forall i :: 0 <= i < |done| ==>
      Folded(x, m, trail[i + 1]) == x.fold(if trail[i + 1] in keys then done[i] else Readable(x, done[i]))
  }

  /** New keys along a trail are heirs of the key before them, old keys say what they said. */
  ghost predicate Inherits(live: Live, m: Live, keys: set<nat>, trail: seq<nat>) {
    Robed(live, m, keys) && forall i :: 0 < i < |trail| && trail[i] !in keys ==> InfoOf(m, trail[i]) == Heir(InfoOf(m, trail[i - 1]))
  }

  lemma InheritsStep(live: Live, one: Live, m: Live, keys: set<nat>, some: set<nat>, trail: seq<nat>, child: nat)
    requires Inherits(live, one, keys, trail) && Robed(one, m, some) && keys <= some && trail != []
             && (forall i :: 0 <= i < |trail| ==> trail[i] in some)
    requires child in keys || InfoOf(m, child) == Heir(InfoOf(one, trail[|trail| - 1]))
    ensures Inherits(live, m, keys, trail + [child])
  {
    hide InfoOf;
    var more := trail + [child];
    forall i | 0 < i < |more| && more[i] !in keys ensures InfoOf(m, more[i]) == Heir(InfoOf(m, more[i - 1])) {
      assert more[i - 1] == trail[i - 1] && trail[i - 1] in some;
      if i < |trail| { assert more[i] == trail[i] && trail[i] in some; }
    }
  }

  /** Nothing has been created yet, or the trail ends in a new key without children. */
  ghost predicate Ahead(x: Text, a: State, b: State, cell: nat) {
    if b.keys == a.keys then
      && b.live == a.live && b.children == a.children && b.nodes == a.nodes && Reloaded(a.batches, b.batches)
      && forall p :: p in b.batches && p !in a.batches ==> p in b.nodes && Loadable(x, a.live, b.nodes[p])
    else cell !in a.keys && cell in b.children && b.children[cell] == {} && cell in b.nodes && b.nodes[cell] == EMPTY
  }

  /** Where the creation of a path has come to. */
  ghost predicate Sprouted(x: Text, a: State, b: State, trail: seq<nat>, done: seq<string>) {
    && |trail| == |done| + 1 && trail[0] in a.keys && Grew(x, a.live, b.live, a.keys, b.keys, a.children, b.children)
    && Planted(a.keys, b.keys, a.children, b.children, trail) && Carries(x, b.live, a.keys, trail, done)
    && Ahead(x, a, b, trail[|done|]) && (b.keys == a.keys ==> Path(x, a.live, a.children, trail, done))
    && Passable(x, a.live, a.children, a.nodes, a.batches, trail, done) && a.nodes.Keys == a.keys
    && Inherits(a.live, b.live, a.keys, trail) && Stirred(a.keys, a.batches, b.batches, trail)
    && Shelved(a.live, b.live, a.keys, a.nodes, b.nodes)
    && (Opened(x, a.live, a.keys, a.nodes, a.batches) ==> Opened(x, b.live, b.keys, b.nodes, b.batches))
  }

  lemma SproutedStart(x: Text, a: State, root: nat)
    requires root in a.keys && a.children.Keys == a.keys == a.nodes.Keys
    ensures Sprouted(x, a, a, [root], [])
  {
    hide Opened, Folded, InfoOf;
    GrewStart(x, a.live, a.keys, a.children);
    PathStart(x, a.live, a.children, root);
    assert a.keys + Elements([root]) == a.keys;
  }

  lemma SproutedMeans(x: Text, a: State, b: State, trail: seq<nat>, done: seq<string>)
    requires Sprouted(x, a, b, trail, done)
    ensures |trail| == |done| + 1 && Grew(x, a.live, b.live, a.keys, b.keys, a.children, b.children)
            && Planted(a.keys, b.keys, a.children, b.children, trail) && Carries(x, b.live, a.keys, trail, done)
    ensures Passable(x, a.live, a.children, a.nodes, a.batches, trail, done) && Inherits(a.live, b.live, a.keys, trail)
            && Stirred(a.keys, a.batches, b.batches, trail) && Shelved(a.live, b.live, a.keys, a.nodes, b.nodes)
    ensures Opened(x, a.live, a.keys, a.nodes, a.batches) ==> Opened(x, b.live, b.keys, b.nodes, b.batches)
  {
    hide Grew, Planted, Carries, Passable, Opened, Path, Inherits, Stirred, Shelved;
  }

  /** Whether a child is stuck now or was at the start is the same. */
  lemma NotStuck(x: Text, a: State, b: State, trail: seq<nat>, done: seq<string>, name: string)
    requires Sprouted(x, a, b, trail, done)
    ensures |trail| == |done| + 1
    ensures Stuck(x, b.live, b.nodes, b.children, b.batches, trail[|done|], name)
            <==> Stuck(x, a.live, a.nodes, a.children, a.batches, trail[|done|], name)
    ensures Stuck(x, b.live, b.nodes, b.children, b.batches, trail[|done|], name) ==> Path(x, a.live, a.children, trail, done)
  {
    hide Grew, Carries, Opened, Path, Folded, Room, Holds, Listed, Inherits, Stirred, Shelved;
  }

  lemma SproutedStep(x: Text, a: State, b: State, c: State, trail: seq<nat>, done: seq<string>, name: string, child: nat)
    requires Sprouted(x, a, b, trail, done) && |trail| == |done| + 1 && trail[|done|] in b.keys
    requires !Stuck(x, a.live, a.nodes, a.children, a.batches, trail[|done|], name)
             && !Stuck(x, b.live, b.nodes, b.children, b.batches, trail[|done|], name) && trail[|done|] in b.children
    requires Ensured(x, b, c, trail[|done|], name, child) && b.nodes.Keys == b.keys
    requires Opened(x, b.live, b.keys, b.nodes, b.batches) ==> Opened(x, c.live, c.keys, c.nodes, c.batches)
    ensures Sprouted(x, a, c, trail + [child], done + [name]) && child in c.keys
  {
    hide Opened, Folded, Loadable, Grew, Path, Planted, Stuck, Carries, Unused, Ahead, Created, Found, Passable, Inherits, Stirred, IsDirty,
         Shelved;
    var cell := trail[|done|];
    PlantedOnly(a.keys, b.keys, a.children, b.children, trail);
    StirredEnsured(x, a, b, c, trail, name, child);
    ShelvedEnsured(x, a, b, c, cell, name, child);
    assert a.keys == a.children.Keys by { PlantedKids(a.keys, b.keys, a.children, b.children, trail); }
    AheadUnused(x, a, b, cell, name);
    if child in a.children || cell !in a.children || Unused(x, b.live, b.children[cell], x.fold(name)) {
      PassableStep(x, a.live, a.children, a.nodes, a.batches, trail, done, name, child);
    }
    if Unused(x, b.live, b.children[cell], x.fold(name)) {
      SproutedNew(x, a, b, c, trail, done, name, child);
    } else {
      SproutedOld(x, a, b, c, trail, done, name, child);
    }
  }

  lemma AheadUnused(x: Text, a: State, b: State, cell: nat, name: string)
    requires Ahead(x, a, b, cell) && cell in b.children && a.keys == a.children.Keys
    ensures cell in a.children && Unused(x, b.live, b.children[cell], x.fold(name)) ==> Unused(x, a.live, a.children[cell], x.fold(name))
  {
    hide Unused, Loadable, Reloaded;
  }

  lemma PlantedKids(keys: set<nat>, some: set<nat>, kids: map<nat, set<nat>>, wide: map<nat, set<nat>>, trail: seq<nat>)
    requires Planted(keys, some, kids, wide, trail)
    ensures keys == kids.Keys
  {
  }

  lemma ShelvedEnsured(x: Text, a: State, b: State, c: State, parent: nat, name: string, child: nat)
    requires Shelved(a.live, b.live, a.keys, a.nodes, b.nodes) && a.keys <= b.keys == b.nodes.Keys && Ensured(x, b, c, parent, name, child)
    ensures Shelved(a.live, c.live, a.keys, a.nodes, c.nodes)
  {
    hide Reloaded, Grew, Folded, Unused, Robed, InfoOf, Adopted, Shelved;
    if c.live == b.live && c.nodes == b.nodes {} else { ShelvedThen(a.live, b.live, c.live, a.keys, b.keys, a.nodes, b.nodes, c.nodes); }
  }

  lemma StirredEnsured(x: Text, a: State, b: State, c: State, trail: seq<nat>, name: string, child: nat)
    requires trail != [] && Stirred(a.keys, a.batches, b.batches, trail) && a.keys <= b.keys
             && Ensured(x, b, c, trail[|trail| - 1], name, child)
    ensures Stirred(a.keys, a.batches, c.batches, trail + [child])
  {
    hide Stirred, Reloaded, Grew, Folded, Unused, Robed, InfoOf, Adopted, Shelved;
    StirredStep(a.keys, a.batches, b.batches, c.batches, trail, child);
  }

  lemma PassableStep(x: Text, live: Live, kids: map<nat, set<nat>>, tree: map<nat, Node>, pend: map<nat, Batch>, trail: seq<nat>,
                     done: seq<string>, name: string, child: nat)
    requires Passable(x, live, kids, tree, pend, trail, done) && Permitted(x, live, kids, tree, pend, trail[|done|], name, child)
    ensures Passable(x, live, kids, tree, pend, trail + [child], done + [name])
  {
    hide Permitted;
  }

  lemma SproutedNew(x: Text, a: State, b: State, c: State, trail: seq<nat>, done: seq<string>, name: string, child: nat)
    requires |trail| == |done| + 1 && Grew(x, a.live, b.live, a.keys, b.keys, a.children, b.children)
             && Planted(a.keys, b.keys, a.children, b.children, trail) && Carries(x, b.live, a.keys, trail, done)
    requires Inherits(a.live, b.live, a.keys, trail) && trail[|done|] in b.children && Created(x, b, c, trail[|done|], name, child)
    ensures Grew(x, a.live, c.live, a.keys, c.keys, a.children, c.children)
            && Planted(a.keys, c.keys, a.children, c.children, trail + [child])
            && Carries(x, c.live, a.keys, trail + [child], done + [name])
    ensures Ahead(x, a, c, child) && c.keys != a.keys && child in c.keys && Inherits(a.live, c.live, a.keys, trail + [child])
  {
    hide Folded, Grew, Planted, Carries, Robed, InfoOf, Inherits, Shelved;
    PlantedOnly(a.keys, b.keys, a.children, b.children, trail);
    InheritsStep(a.live, b.live, c.live, a.keys, b.keys, trail, child);
    GrewThen(x, a.live, b.live, c.live, a.keys, b.keys, c.keys, a.children, b.children, c.children);
    CarriesStep(x, b.live, c.live, a.keys, b.keys, c.keys, b.children, c.children, trail, done, name, child);
    PlantedStep(a.keys, b.keys, c.keys, a.children, b.children, c.children, trail, child);
  }

  lemma SproutedOld(x: Text, a: State, b: State, c: State, trail: seq<nat>, done: seq<string>, name: string, child: nat)
    requires |trail| == |done| + 1 && Planted(a.keys, b.keys, a.children, b.children, trail) && Carries(x, b.live, a.keys, trail, done)
             && Inherits(a.live, b.live, a.keys, trail)
    requires Ahead(x, a, b, trail[|done|]) && (b.keys == a.keys ==> Path(x, a.live, a.children, trail, done))
    requires trail[|done|] in b.nodes && !Stuck(x, b.live, b.nodes, b.children, b.batches, trail[|done|], name)
    requires Found(x, b, c, trail[|done|], name, child)
    ensures c.keys == a.keys && c.live == a.live && c.children == a.children && c.nodes == a.nodes && child in c.keys
            && Grew(x, a.live, c.live, a.keys, c.keys, a.children, c.children)
    ensures Planted(a.keys, c.keys, a.children, c.children, trail + [child])
            && Carries(x, c.live, a.keys, trail + [child], done + [name])
    ensures Ahead(x, a, c, child) && Path(x, a.live, a.children, trail + [child], done + [name])
            && Inherits(a.live, c.live, a.keys, trail + [child])
  {
    hide Folded, Planted, Carries, Path, Loadable, Stuck, Inherits, InfoOf;
    PlantedOnly(a.keys, b.keys, a.children, b.children, trail);
    InheritsStep(a.live, b.live, c.live, a.keys, b.keys, trail, child);
    assert b.keys == a.keys;
    GrewStart(x, b.live, b.keys, b.children);
    StepIs(x, a.live, a.children, trail[|done|], name, child);
    PathStep(x, a.live, a.children, trail, done, name, child);
    LoadedWere(x, a.live, b.nodes, a.batches, b.batches, c.batches, trail[|done|], a.children, name);
    CarriesStep(x, b.live, c.live, a.keys, b.keys, c.keys, b.children, c.children, trail, done, name, child);
    PlantedStep(a.keys, b.keys, c.keys, a.children, b.children, c.children, trail, child);
  }

  lemma PlantedOnly(keys: set<nat>, some: set<nat>, kids: map<nat, set<nat>>, wide: map<nat, set<nat>>, trail: seq<nat>)
    requires Planted(keys, some, kids, wide, trail)
    ensures keys <= some && wide.Keys == some && forall i :: 0 <= i < |trail| ==> trail[i] in some
  {
    assert forall i :: 0 <= i < |trail| ==> trail[i] in Elements(trail);
  }

  lemma StepIs(x: Text, live: Live, children: map<nat, set<nat>>, p: nat, name: string, c: nat)
    requires p in children && c in children[p] && Folded(x, live, c) == x.fold(name)
    ensures Step(x, live, children, p, name, c)
  {
  }

  lemma LoadedWere(x: Text, live: Live, nodes: map<nat, Node>, pend: map<nat, Batch>, held: map<nat, Batch>, batches: map<nat, Batch>,
                   cell: nat, kids: map<nat, set<nat>>, name: string)
    requires !Stuck(x, live, nodes, kids, held, cell, name) && cell in nodes && Reloaded(pend, held) && Reloaded(held, batches)
             && batches.Keys == held.Keys + {cell}
    requires forall p :: p in held && p !in pend ==> p in nodes && Loadable(x, live, nodes[p])
    ensures Reloaded(pend, batches) && forall p :: p in batches && p !in pend ==> p in nodes && Loadable(x, live, nodes[p])
  {
    hide Loadable, Placeable;
  }

  lemma CarriesStep(x: Text, one: Live, m: Live, keys: set<nat>, some: set<nat>, more: set<nat>, wide: map<nat, set<nat>>,
                    wider: map<nat, set<nat>>, trail: seq<nat>, done: seq<string>, name: string, child: nat)
    requires Carries(x, one, keys, trail, done) && Grew(x, one, m, some, more, wide, wider)
             && (forall i :: 0 <= i < |trail| ==> trail[i] in some)
    requires Folded(x, m, child) == x.fold(if child in keys then name else Readable(x, name))
    ensures Carries(x, m, keys, trail + [child], done + [name])
  {
    hide NameOf, Readable;
  }

  lemma PlantedStep(keys: set<nat>, some: set<nat>, more: set<nat>, kids: map<nat, set<nat>>, wide: map<nat, set<nat>>,
                    wider: map<nat, set<nat>>, trail: seq<nat>, child: nat)
    requires Planted(keys, some, kids, wide, trail) && trail != []
    requires var cell := trail[|trail| - 1];
             && cell in wide && (cell !in keys ==> child !in keys)
             && ((child in wide[cell] && child in some && more == some && wider == wide)
                 || (child !in some && more == some + {child} && wider == Adopted(wide, cell, child)))
    ensures Planted(keys, more, kids, wider, trail + [child]) && forall i :: 0 <= i < |trail| ==> trail[i] in some
  {
    var cell := trail[|trail| - 1];
    ElementsCat(trail, [child]);
    assert forall i :: 0 <= i < |trail| ==> trail[i] in Elements(trail);
    assert Elements([child]) == {child};
    forall k, c | k in more ensures c in wider[k] <==> (k in keys && c in kids[k]) || Follows(trail + [child], k, c) {
      FollowsStep(trail, child, k, c);
    }
  }

  lemma FollowsStep(trail: seq<nat>, child: nat, k: nat, c: nat)
    requires trail != []
    ensures Follows(trail + [child], k, c) <==> Follows(trail, k, c) || (k == trail[|trail| - 1] && c == child)
    ensures Follows(trail, k, c) ==> k in trail
  {
    var more := trail + [child];
    if Follows(trail, k, c) {
      var i :| 0 <= i < |trail| - 1 && trail[i] == k && trail[i + 1] == c;
      assert more[i] == k && more[i + 1] == c;
    }
    if k == trail[|trail| - 1] && c == child { assert more[|trail| - 1] == k && more[|trail|] == c; }
    if Follows(more, k, c) {
      var i :| 0 <= i < |more| - 1 && more[i] == k && more[i + 1] == c;
      if i < |trail| - 1 { assert trail[i] == k && trail[i + 1] == c; }
    }
  }

  lemma OpenedGrown(x: Text, minor: nat, root: nat, a: State, one: Live, m: Live, batches: map<nat, Batch>, parent: nat, child: nat)
    requires Stands(minor, root, a) && Pending(x, a.live, a.keys, a.nodes, a.children, a.batches)
    requires Changed(a.live, one, a.ring, child) && Touched(one, m, parent) && parent in a.keys && child !in a.keys
             && (forall k :: k in a.keys ==> k in a.live && k !in a.ring)
    requires Opened(x, a.live, a.keys, a.nodes, a.batches) && forall k :: IsDirty(a.batches, k) ==> IsDirty(batches, k)
    ensures Opened(x, m, a.keys + {child}, a.nodes[child := EMPTY], batches)
  {
    hide Owns, Sound, Family, Pending, Opened, Alike, SameText;
    forall c | c in a.live && c !in a.ring ensures c in m && if c in a.keys then Alike(a.live[c], m[c]) else m[c] == a.live[c] {
      if c in a.keys { OwnsAt(a.live, minor, a.ring, a.keys, a.nodes, c); AlikeItself(a.live[c]); }
    }
    OpenedFrame(x, a, m, minor, root);
    OpenedNew(x, m, a.keys, a.nodes, a.batches, child);
    OpenedMore(x, m, a.keys + {child}, a.nodes[child := EMPTY], a.batches, batches);
  }

  lemma NoParent(root: nat, keys: set<nat>, children: map<nat, set<nat>>, parents: map<nat, nat>, c: nat)
    requires Family(root, keys, children, parents) && c !in keys
    ensures c !in parents
  {
  }

  function PathRoom(x: Text, parts: seq<string>): nat {
    if parts == [] then 0 else |x.encode(parts[0])| + 0x2000 + PathRoom(x, parts[1..])
  }

  lemma OpenRoom(x: Text, parts: seq<string>, i: nat)
    requires i < |parts|
    ensures PathRoom(x, parts[i..]) == |x.encode(parts[i])| + 0x2000 + PathRoom(x, parts[i + 1..])
  {
    assert parts[i..][1..] == parts[i + 1..];
  }

  lemma SecurityEdit(b: bytes, v: nat)
    requires IsKey(b)
    ensures Alike(b, b) && Alike(b, Put32(b, 0x2c, v))
  {
    hide LE;
    var w := Enc32(v);
    var c := Put32(b, 0x2c, v);
    SpliceBefore(b, 0x2c, w, 0, 2); SpliceBefore(b, 0x2c, w, 2, 4);
    SpliceBefore(b, 0x2c, w, 0x14, 0x18); SpliceBefore(b, 0x2c, w, 0x18, 0x1c); SpliceBefore(b, 0x2c, w, 0x1c, 0x20); SpliceBefore(b, 0x2c,
        w, 0x24, 0x28); SpliceBefore(b, 0x2c, w, 0x28, 0x2c);
    SpliceAfter(b, 0x2c, w, 0x30, 0x34); SpliceAfter(b, 0x2c, w, 0x48, 0x4a); SpliceAfter(b, 0x2c, w, 0x4a, 0x4c); SpliceAfter(b, 0x2c, w,
        0x4c, |b|);
    assert c[0x4c..] == c[0x4c..|b|] && b[0x4c..] == b[0x4c..|b|];
  }

  lemma SecurityKept(live: Live, m: Live, minor: nat, ring: seq<nat>, keys: set<nat>, nodes: map<nat, Node>, k: nat)
    requires Owns(live, minor, ring, keys, nodes) && k in keys && k in live && k in m && Alike(live[k], m[k])
    requires forall c :: c in live && c !in ring && c != k ==> c in m && m[c] == live[c]
    ensures Kept(live, m, ring, keys)
  {
    hide Owns, U32, U16, LE;
    forall c | c in live && c !in ring ensures c in m && if c in keys then Alike(live[c], m[c]) else m[c] == live[c] {
      if c in keys { OwnsAt(live, minor, ring, keys, nodes, c); }
    }
  }

  /** Under a loaded key a name leads to one child. */
  lemma OneStep(x: Text, live: Live, children: map<nat, set<nat>>, cells: map<string, nat>, p: nat, name: string, a: nat, b: nat)
    requires Step(x, live, children, p, name, a) && Step(x, live, children, p, name, b) && BatchOk(x, live, cells, children[p])
    ensures a == b
  {
    hide Folded;
  }

  /** Along loaded keys a path of names leads to one place. */
  lemma {:induction false} OnePath(tx: Transaction, trail: seq<nat>, there: seq<nat>, parts: seq<string>, n: nat)
    requires tx.Valid() && n <= |parts| && trail != [] && there != [] && trail[0] == there[0]
    requires Path(tx.text, tx.patch.store.Live(), tx.children, there, parts)
             && Path(tx.text, tx.patch.store.Live(), tx.children, trail, parts[..n])
    requires forall i :: 0 <= i < n ==> trail[i] in tx.batches
    ensures trail[n] == there[n]
  {
    hide Hive.Valid, Hive.Live, Hive.Starts, Owns, Family, Patch.Valid, Step, BatchOk, Clean;
    if n > 0 {
      var live := tx.patch.store.Live();
      assert parts[..n - 1] == parts[..n][..n - 1];
      forall i | 0 <= i < n - 1 ensures Step(tx.text, live, tx.children, trail[..n][i], parts[..n - 1][i], trail[..n][i + 1]) {
        assert Step(tx.text, live, tx.children, trail[i], parts[..n][i], trail[i + 1]);
      }
      OnePath(tx, trail[..n], there, parts, n - 1);
      var p := trail[n - 1];
      assert Step(tx.text, live, tx.children, p, parts[..n][n - 1], trail[n]);
      assert Step(tx.text, live, tx.children, there[n - 1], parts[n - 1], there[n]);
      OneStep(tx.text, live, tx.children, tx.batches[p].cells, p, parts[n - 1], trail[n], there[n]);
    }
  }

  lemma PathPrefix(x: Text, live: Live, children: map<nat, set<nat>>, there: seq<nat>, parts: seq<string>, n: nat)
    requires Path(x, live, children, there, parts) && n <= |parts|
    ensures Path(x, live, children, there[..n + 1], parts[..n])
  {
    hide Step;
    forall i | 0 <= i < n ensures Step(x, live, children, there[..n + 1][i], parts[..n][i], there[..n + 1][i + 1]) {
      assert Step(x, live, children, there[i], parts[i], there[i + 1]);
    }
  }
}
