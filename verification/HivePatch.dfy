/** Edits of a hive on top of its cell store: security references. */
module HivePatch {
  import opened Bytes
  import opened HiveLayout
  import opened HiveImage
  import opened MutableHive
  import opened SecurityRing

  datatype Outcome = Done | Refused

  class Patch {
    const store: Hive
    var cacheReady: bool
    var securityCells: map<bytes, nat>
    ghost var keys: set<nat>
    ghost var ring: seq<nat>

    /** The store is tiled, the security cells form one ring with exact counts (up to one
      * reference about to be released), and the descriptor cache agrees with the ring. */
    ghost predicate ValidOwing(debt: nat)
      reads this, store, store.Repr
    {
      && store.Valid() && this !in store.Repr
      && Sound(store.Live(), ring, keys, debt)
      && (cacheReady ==> Cached(securityCells, store.Live(), ring))
    }

    /** The root key has a security cell, so every edit finds the ring from there. */
    ghost predicate Anchored()
      reads this, store
    {
      store.root in keys && store.root in store.Live() && IsKey(store.Live()[store.root]) && SecurityOf(store.Live()[store.root]) in ring
    }

    ghost predicate Valid()
      reads this, store, store.Repr
    {
      ValidOwing(NONE) && Anchored()
    }

    constructor (store: Hive, ghost ring: seq<nat>, ghost keys: set<nat>)
      requires store.Valid() && Sound(store.Live(), ring, keys, NONE)
      requires store.root in keys && IsKey(store.Live()[store.root]) && SecurityOf(store.Live()[store.root]) in ring
      ensures Valid() && this.store == store && this.keys == keys && this.ring == ring
    {
      this.store, this.ring, this.keys := store, ring, keys;
      cacheReady, securityCells := false, map[];
    }

    lemma Expand(debt: nat)
      requires ValidOwing(debt)
      ensures store.Valid() && this !in store.Repr && Sound(store.Live(), ring, keys, debt)
              && (cacheReady ==> Cached(securityCells, store.Live(), ring))
    {
    }

    lemma Collect(debt: nat)
      requires store.Valid() && this !in store.Repr && Sound(store.Live(), ring, keys, debt)
               && (cacheReady ==> Cached(securityCells, store.Live(), ring))
      ensures ValidOwing(debt)
    {
    }

    lemma KeepAnchor(live: Live)
      requires store.root in keys && store.root in live && IsKey(live[store.root]) && SecurityOf(live[store.root]) in ring
      requires store.root in store.Live() && store.Live()[store.root] == live[store.root]
      ensures Anchored()
    {
    }

    /** Reads a security cell, checking its shape. */
    method SecurityCell(cell: nat) returns (r: Result<bytes>)
      requires store.Valid()
      ensures cell in store.Live() && IsSecurity(store.Live()[cell]) ==> r == Success(store.Live()[cell])
      ensures r.Success? ==> IsSecurity(r.value)
    {
      hide Hive.Valid, Hive.Live, Hive.Starts, U32;
      r := store.Body(cell);
      if r.Success? && (|r.value| < 20 || r.value[..2] != SK || U32(r.value, 16) > |r.value| - 20) {
        r := Failure(BadSize);
      }
    }

    /** Gives back a reference: the count goes down, or the last reference takes the cell
      * out of the ring and frees it. */
    method ReleaseSecurity(cell: nat) returns (o: Outcome)
      requires ValidOwing(cell)
      modifies this`securityCells, this`ring, store.Repr
      ensures o == Done && ValidOwing(NONE) && fresh(store.Repr - old(store.Repr)) && old(store.Starts()) <= store.Starts()
      ensures keys == old(keys)
      ensures forall x :: x in old(store.Live()) && x !in old(ring) ==> x in store.Live() && store.Live()[x] == old(store.Live())[x]
      ensures var last := cell in old(ring) && References(old(store.Live())[cell]) == 1;
              && store.Live().Keys == old(store.Live()).Keys - (if last then {cell} else {})
              && (forall x :: x in ring <==> x in old(ring) && !(last && x == cell))
      ensures forall x :: x in ring ==> x in store.Live() && x in old(store.Live()) && SameText(store.Live()[x], old(store.Live())[x])
      ensures |store.data| == |old(store.data)|
    {
      hide Hive.Valid, Hive.Live, Hive.Starts, Exact, KeysPoint, Ring, U32, LE, IsSecurity, Splice, Enc32;
      o := Refused;
      ghost var live := store.Live();
      RingMembers(live, ring);
      if cell == NONE {
        o := Done;
      } else {
        HasCount(live, ring, keys, cell);
        var body := SecurityCell(cell);
        if body.Success? {
          var refs := References(body.value);
          if refs > 1 {
            ReleaseCount(live, ring, keys, cell);
            CountedCache(securityCells, live, ring, cell, refs - 1);
            PutSecurity(live[cell], 12, refs - 1);
            store.Poke(cell, 12, Enc32(refs - 1));
            o := Done;
          } else if refs == 1 {
            o := UnlinkSecurity(cell, body.value);
          }
        }
      }
    }

    /** Counts one more reference to a cell of the ring. A full counter would be refused, but no counter can be full. */
    method IncrementSecurityReference(cell: nat) returns (o: Outcome)
      requires ValidOwing(NONE) && (cell == NONE || cell in ring)
      modifies store.Repr
      ensures fresh(store.Repr - old(store.Repr)) && old(store.Starts()) <= store.Starts() && |store.data| == |old(store.data)|
      ensures o == Done && ValidOwing(cell) && store.Live().Keys == old(store.Live()).Keys
      ensures forall x :: x in store.Live() && x !in ring ==> store.Live()[x] == old(store.Live())[x]
      ensures forall x :: x in ring ==> x in store.Live() && x in old(store.Live()) && SameText(store.Live()[x], old(store.Live())[x])
    {
      hide Hive.Valid, Hive.Live, Hive.Starts, Exact, KeysPoint, Ring, U32, LE, Splice, Enc32;
      o := Refused;
      ghost var live := store.Live();
      RingMembers(live, ring);
      if cell == NONE {
        o := Done;
      } else {
        var body := SecurityCell(cell);
        NeverFull(store, ring, keys, cell);
        if body.Success? && References(body.value) != NONE {
          var count := References(body.value);
          Acquire(live, ring, keys, cell);
          CountedCache(securityCells, live, ring, cell, count + 1);
          PutSecurity(live[cell], 12, count + 1);
          store.Poke(cell, 12, Enc32(count + 1));
          o := Done;
        }
      }
    }

    method UnlinkSecurity(cell: nat, data: bytes) returns (o: Outcome)
      requires ValidOwing(cell) && cell in ring && cell in store.Live() && data == store.Live()[cell] && IsSecurity(data)
               && References(data) == 1
      modifies this`securityCells, this`ring, store.Repr
      ensures o == Done && ValidOwing(NONE) && fresh(store.Repr - old(store.Repr)) && old(store.Starts()) <= store.Starts()
      ensures forall x :: x in old(store.Live()) && x !in old(ring) ==> x in store.Live() && store.Live()[x] == old(store.Live())[x]
      ensures store.Live().Keys == old(store.Live()).Keys - {cell}
      ensures forall x :: x in ring <==> x in old(ring) && x != cell
      ensures forall x :: x in ring ==> x in store.Live() && x in old(store.Live()) && SameText(store.Live()[x], old(store.Live())[x])
      ensures |store.data| == |old(store.data)|
    {
      hide Hive.Valid, Hive.Live, Hive.Starts, Exact, KeysPoint, Ring, U32, LE, Splice, Enc32, Sound, Cached;
      o := Refused;
      ghost var live := store.Live();
      ghost var rest := UnlinkFacts(live, ring, keys, cell, securityCells);
      var next, previous := Next(data), Previous(data);
      var n := SecurityCell(next);
      var p := SecurityCell(previous);
      if n.Success? && p.Success? && Previous(n.value) == cell && Next(p.value) == cell {
        store.Poke(next, 8, Enc32(previous));
        store.Poke(previous, 4, Enc32(next));
        var descriptor := Descriptor(data);
        if descriptor in securityCells && securityCells[descriptor] == cell {
          securityCells := securityCells - {descriptor};
        }
        var f := store.FreeCell(cell);
        if f.Success? {
          ring := rest;
          o := Done;
        }
      }
    }

    /** Fills the cache by walking the ring once from the anchor. */
    method BuildCache(anchor: nat) returns (o: Outcome)
      requires ValidOwing(NONE) && anchor in ring
      modifies this`cacheReady, this`securityCells, this`ring
      ensures ValidOwing(NONE) && (forall x :: x in ring <==> x in old(ring)) && |ring| == |old(ring)|
      ensures o == Done ==> cacheReady
      ensures o == Done <==> old(cacheReady) || |ring| <= 0x10_0000
    {
      hide Hive.Valid, Hive.Live, Hive.Starts, U32, LE, Sound, Cached, Ring;
      if cacheReady {
        return Done;
      }
      ghost var live := store.Live();
      ghost var r := FromAnchor(live, ring, keys, anchor);
      SoundRing(live, r, keys, NONE);
      ring := r;
      var cells: map<bytes, nat> := map[];
      var seen: set<nat> := {};
      var current, walking := anchor, true;
      ghost var i := 0;
      EmptyCache(live, r);
      o := Done;
      while walking && o == Done
        invariant Cached(cells, live, r)
        invariant walking ==> 0 <= i < |r| && current == r[i]
        invariant o == Done ==> |seen| == (if walking then i else |r|) && (walking ==> forall j :: j >= i && j < |r| ==> r[j] !in seen)
        invariant |seen| <= 0x10_0000 && (o == Refused ==> |r| > 0x10_0000)
        decreases o == Done, walking, |r| - i
        modifies {}
      {
        WalkFacts(live, r, i);
        if current in seen || |seen| >= 0x10_0000 {
          o := Refused;
        } else {
          seen := seen + {current};
          var body := SecurityCell(current);
          if body.Failure? {
            o := Refused;
          } else {
            WalkCache(live, r, i, cells);
            cells := cells[Descriptor(body.value) := current];
            current := Next(body.value);
            walking := current != anchor;
            i := i + 1;
          }
        }
      }
      if o == Done {
        securityCells, cacheReady := cells, true;
      }
    }

    /** Stores a new security cell with one reference and puts it into the ring behind the anchor. */
    method NewSecurity(descriptor: bytes, anchor: nat) returns (o: Outcome, cell: nat)
      requires ValidOwing(NONE) && anchor in ring && cacheReady
      requires |store.data| + |descriptor| + 0x2000 <= LIMIT
      modifies this`securityCells, this`ring, store.Repr
      ensures store.Valid() && fresh(store.Repr - old(store.Repr)) && old(store.Starts()) <= store.Starts()
      ensures |store.data| <= |old(store.data)| + |descriptor| + 0x2000
      ensures o == Done
                && ValidOwing(cell) && cell in ring && cell !in old(store.Live())
                && store.Live().Keys == old(store.Live()).Keys + {cell}
                && IsSecurity(store.Live()[cell]) && Descriptor(store.Live()[cell]) == descriptor
                && (forall x :: x in ring <==> x in old(ring) || x == cell)
                && (forall x :: x in old(store.Live()) && x !in ring ==> store.Live()[x] == old(store.Live())[x])
                && (forall x :: x in old(ring) ==> x in store.Live() && x in old(store.Live()) && SameText(store.Live()[x], old(store.Live())[x]))
    {
      hide Hive.Valid, Hive.Live, Hive.Starts, Exact, KeysPoint, Ring, U32, LE, Splice, Enc32, Sound, Cached, LinkedIn, Align,
           NewSecurityBody, References, Next, Previous;
      o, cell := Refused, NONE;
      ghost var live := store.Live();
      ghost var rest := Turned(live, ring, keys, NONE, anchor);
      RoomFor(store.legacy, NewSecurityBody(descriptor));
      var r, found, stored := store.AllocateCell(NewSecurityBody(descriptor));
      SoundMembers(live, old(ring), keys);
      assert anchor in live;
      if r.Success? {
        cell := r.value;
        store.CellsBelow();
        ghost var n := store.Live();
        NewBodyFacts(descriptor, stored);
        LinkFacts(live, rest, anchor, keys, cell, stored, securityCells, descriptor);
        o := LinkSecurity(cell, anchor);
        securityCells := securityCells[descriptor := cell];
        ring := rest + [anchor, cell];
      }
    }

    /** Writes the four links that put a cell behind the anchor. */
    method LinkSecurity(cell: nat, anchor: nat) returns (o: Outcome)
      requires store.Valid() && cell in store.Live() && 20 <= |store.Live()[cell]| && anchor in store.Live()
               && IsSecurity(store.Live()[anchor]) && cell != anchor
      requires var next := Next(store.Live()[anchor]);
               next != cell && next in store.Live() && IsSecurity(store.Live()[next]) && Previous(store.Live()[next]) == anchor
      modifies store.Repr
      ensures o == Done && store.Valid() && fresh(store.Repr - old(store.Repr)) && old(store.Starts()) <= store.Starts()
              && |store.data| == |old(store.data)|
      ensures store.Live() == LinkedIn(old(store.Live()), anchor, cell)
    {
      hide Hive.Valid, Hive.Live, Hive.Starts, U32, LE, Splice, Enc32, LinkedIn;
      o := Refused;
      ghost var n := store.Live();
      var a := SecurityCell(anchor);
      if a.Success? {
        var next := Next(a.value);
        var nb := SecurityCell(next);
        if nb.Success? && Previous(nb.value) == anchor {
          store.Poke(cell, 4, Enc32(next));
          store.Poke(cell, 8, Enc32(anchor));
          store.Poke(anchor, 4, Enc32(cell));
          store.Poke(next, 8, Enc32(cell));
          LinkSteps(n, anchor, cell, next, store.Live());
          o := Done;
        }
      }
    }

    /** Points a key at a security cell that has a reference to spare, and releases the key's old one. */
    method AssignSecurity(cell: nat, replacement: nat, previous: nat) returns (o: Outcome)
      requires ValidOwing(replacement) && replacement in ring && cell in keys && cell in store.Live() && IsKey(store.Live()[cell])
      requires SecurityOf(store.Live()[cell]) == previous != replacement
      modifies this`securityCells, this`ring, store.Repr
      ensures o == Done && ValidOwing(NONE) && fresh(store.Repr - old(store.Repr)) && old(store.Starts()) <= store.Starts()
              && |store.data| == |old(store.data)|
      ensures replacement in ring && replacement in store.Live() && replacement in old(store.Live())
      ensures SameText(store.Live()[replacement], old(store.Live())[replacement])
      ensures cell in store.Live() && store.Live()[cell] == Put32(old(store.Live())[cell], 0x2c, replacement)
      ensures forall x ::
                x in old(store.Live()) && x !in old(ring) && x != cell ==> x in store.Live() && store.Live()[x] == old(store.Live())[x]
      ensures forall x :: x in ring ==> x in old(ring)
      ensures forall x :: x in store.Live() ==> x in old(store.Live()) && (x in old(ring) ==> x in ring)
      ensures forall x :: x in ring ==> x in store.Live() && x in old(store.Live()) && SameText(store.Live()[x], old(store.Live())[x])
    {
      hide Hive.Valid, Hive.Live, Hive.Starts, Exact, Ring, U32, LE, Splice, Enc32, Cached, IsSecurity, Descriptor;
      ghost var live := store.Live();
      RingMembers(live, ring);
      AssignKey(live, ring, keys, replacement, cell);
      OtherCache(securityCells, live, ring, cell, Put32(live[cell], 0x2c, replacement));
      store.Poke(cell, 0x2c, Enc32(replacement));
      o := ReleaseSecurity(previous);
    }

    /** Gives a key a security descriptor: shared with the keys that already have it, or stored anew. */
    method SetKeySecurity(cell: nat, descriptor: bytes) returns (o: Outcome)
      requires Valid() && cell in keys && |store.data| + |descriptor| + 0x2000 <= LIMIT
      modifies this`cacheReady, this`securityCells, this`ring, store.Repr
      ensures store.Valid() && fresh(store.Repr - old(store.Repr)) && old(store.Starts()) <= store.Starts()
      ensures |store.data| <= |old(store.data)| + |descriptor| + 0x2000
      ensures o == Done ==> Valid()
      ensures o == Done <==>
                ValidDescriptor(descriptor) && (Has(old(store.Live()), cell, descriptor) || old(cacheReady) || |old(ring)| <= 0x10_0000)
      ensures o == Done ==> if cacheReady then old(cacheReady) || |old(ring)| <= 0x10_0000 else !old(cacheReady) && |ring| == |old(ring)|
      ensures o == Done ==>
                && Has(store.Live(), cell, descriptor) && SecurityOf(store.Live()[cell]) in ring
      ensures o == Done ==>
                && (forall x :: x in old(store.Live()) && x !in old(ring) && x != cell ==> x in store.Live() && store.Live()[x] == old(store.Live())[x])
                && (forall x :: x in ring ==> x in old(ring) || x !in old(store.Live()))
                && (forall x :: x in store.Live() && x !in ring ==> x in old(store.Live()) && x !in old(ring))
                && (forall x :: x in ring && x in old(ring) ==> x in store.Live() && x in old(store.Live()) && SameText(store.Live()[x], old(store.Live())[x]))
                && cell in old(store.Live()) && 0x30 <= |old(store.Live())[cell]|
                && (store.Live()[cell] == old(store.Live())[cell]
                    || store.Live()[cell] == Put32(old(store.Live())[cell], 0x2c, SecurityOf(store.Live()[cell])))
    {
      hide Hive.Valid, Hive.Live, Hive.Starts, Exact, Ring, U32, LE, Splice, Cached, IsSecurity, ValidDescriptor, Descriptor, Put32, Sound;
      o := Refused;
      if !ValidDescriptor(descriptor) {
        return;
      }
      ghost var live := store.Live();
      SoundMembers(live, ring, keys);
      KeyFacts(live, ring, keys);
      BelowNone(live, ring, keys, NONE);
      store.CellsBelow();
      var key := store.Body(cell);
      var root := store.Body(store.root);
      if key.Success? && root.Success? && |key.value| >= 0x30 && |root.value| >= 0x30 {
        var previous, anchor := SecurityOf(key.value), SecurityOf(root.value);
        var present := false;
        if previous != NONE {
          var was := SecurityCell(previous);
          present := was.Success? && Descriptor(was.value) == descriptor;
          if was.Failure? { return; }
        }
        if present {
          return Done;
        }
        o := BuildCache(anchor);
        if o == Done { o := Replace(cell, descriptor, previous, anchor); }
      }
    }

    /** Points a key at a cell with another descriptor and gives up its old reference. */
    method Replace(cell: nat, descriptor: bytes, previous: nat, anchor: nat) returns (o: Outcome)
      requires Valid() && cell in keys && anchor in ring && cacheReady && |store.data| + |descriptor| + 0x2000 <= LIMIT
      requires cell in store.Live() && IsKey(store.Live()[cell]) && SecurityOf(store.Live()[cell]) == previous
               && !Has(store.Live(), cell, descriptor)
      modifies this`securityCells, this`ring, store.Repr
      ensures o == Done && Valid() && fresh(store.Repr - old(store.Repr)) && old(store.Starts()) <= store.Starts()
      ensures |store.data| <= |old(store.data)| + |descriptor| + 0x2000
      ensures Has(store.Live(), cell, descriptor) && SecurityOf(store.Live()[cell]) in ring
      ensures forall x ::
                x in old(store.Live()) && x !in old(ring) && x != cell ==> x in store.Live() && store.Live()[x] == old(store.Live())[x]
      ensures forall x :: x in ring ==> x in old(ring) || x !in old(store.Live())
      ensures forall x :: x in store.Live() && x !in ring ==> x in old(store.Live()) && x !in old(ring)
      ensures forall x :: x in ring && x in old(ring) ==> x in store.Live() && x in old(store.Live()) && SameText(store.Live()[x], old(store.Live())[x])
      ensures cell in store.Live() && store.Live()[cell] == Put32(old(store.Live())[cell], 0x2c, SecurityOf(store.Live()[cell]))
    {
      hide Hive.Valid, Hive.Live, Hive.Starts, Exact, Ring, U32, LE, Splice, Cached, IsSecurity, Descriptor, Put32, Sound;
      ghost var live := store.Live();
      SoundMembers(live, ring, keys);
      KeyFacts(live, ring, keys);
      BelowNone(live, ring, keys, NONE);
      var replacement;
      o, replacement := TakeReference(descriptor, anchor);
      BelowNone(store.Live(), ring, keys, replacement);
      assert previous != NONE ==> SameText(store.Live()[previous], live[previous]);
      ghost var body := store.Live()[cell];
      o := AssignSecurity(cell, replacement, previous);
      BelowNone(store.Live(), ring, keys, NONE);
      PutKey(body, replacement);
      StillAnchored(store.Live(), ring, keys, store.root);
    }

    /** A reference to a cell that holds the descriptor, not yet handed to any key. */
    method TakeReference(descriptor: bytes, anchor: nat) returns (o: Outcome, cell: nat)
      requires ValidOwing(NONE) && anchor in ring && cacheReady && |store.data| + |descriptor| + 0x2000 <= LIMIT
      modifies this`securityCells, this`ring, store.Repr
      ensures store.Valid() && fresh(store.Repr - old(store.Repr)) && old(store.Starts()) <= store.Starts()
      ensures |store.data| <= |old(store.data)| + |descriptor| + 0x2000
      ensures o == Done
                && ValidOwing(cell) && cell in ring && cell in store.Live() && IsSecurity(store.Live()[cell])
                    && Descriptor(store.Live()[cell]) == descriptor
                && (forall x :: x in old(ring) ==> x in ring) && (forall x :: x in ring && x !in old(ring) ==> x !in old(store.Live()))
                && (forall x :: x in store.Live() ==> x in old(store.Live()) || x in ring)
                && (forall x :: x in old(store.Live()) && x !in old(ring) ==> x in store.Live() && store.Live()[x] == old(store.Live())[x])
                && (forall x :: x in old(ring) ==> x in store.Live() && x in old(store.Live()) && SameText(store.Live()[x], old(store.Live())[x]))
    {
      hide Hive.Valid, Hive.Live, Hive.Starts, Exact, Ring, U32, LE, Splice, Sound, IsSecurity;
      if descriptor in securityCells {
        cell := securityCells[descriptor];
        o := IncrementSecurityReference(cell);
      } else {
        o, cell := NewSecurity(descriptor, anchor);
      }
    }
  }

  /** A key has a security descriptor. */
  ghost predicate Has(live: Live, k: nat, descriptor: bytes) {
    && k in live && IsKey(live[k]) && SecurityOf(live[k]) in live && IsSecurity(live[SecurityOf(live[k])])
    && Descriptor(live[SecurityOf(live[k])]) == descriptor
  }

  /** What a self-relative security descriptor must look like to be accepted. */
  predicate ValidDescriptor(d: bytes) {
    && 20 <= |d| && d[0] == 1 && U16(d, 2) >= 0x8000
    && SidOk(d, U32(d, 4)) && SidOk(d, U32(d, 8)) && AclOk(d, U32(d, 12)) && AclOk(d, U32(d, 16))
  }

  predicate SidOk(d: bytes, start: nat) {
    start == 0 || (20 <= start && start + 8 <= |d| && start + 8 + d[start + 1] as int * 4 <= |d|)
  }

  predicate AclOk(d: bytes, start: nat) {
    start == 0 || (20 <= start && start + 8 <= |d| && 8 <= U16(d, start + 2) <= |d| - start)
  }

  /** The cache does not look at cells outside the ring. */
  lemma OtherCache(cache: map<bytes, nat>, live: Live, ring: seq<nat>, k: nat, b: bytes)
    requires k !in ring
    ensures Cached(cache, live, ring) ==> Cached(cache, live[k := b], ring)
  {
  }

  function NewSecurityBody(descriptor: bytes): (b: bytes)
    ensures |b| == 20 + |descriptor|
  {
    SK + Zeros(10) + Enc32(1) + Enc32(|descriptor|) + descriptor
  }

  lemma NewBodyFacts(descriptor: bytes, stored: bytes)
    requires NewSecurityBody(descriptor) <= stored && |descriptor| < 0x1_0000_0000
    ensures IsSecurity(stored) && References(stored) == 1 && Descriptor(stored) == descriptor
  {
    hide LE;
    var b := NewSecurityBody(descriptor);
    assert stored[12..16] == b[12..16] == Enc32(1);
    assert stored[16..20] == b[16..20] == Enc32(|descriptor|);
    assert stored[20..20 + |descriptor|] == b[20..] == descriptor;
    assert stored[..2] == b[..2] == SK;
    U32Enc(1);
    U32Enc(|descriptor|);
  }

  lemma LinkFacts(live: Live, rest: seq<nat>, a: nat, keys: set<nat>, c: nat, b: bytes, cache: map<bytes, nat>, d: bytes)
    requires Sound(live, rest + [a], keys, NONE) && c !in live && IsSecurity(b) && References(b) == 1 && c < NONE && Descriptor(b) == d
    ensures var n := live[c := b];
            && a in n && IsSecurity(n[a]) && Next(n[a]) in n && IsSecurity(n[Next(n[a])]) && Previous(n[Next(n[a])]) == a && Next(n[a]) != c
                && a != c
            && Sound(LinkedIn(n, a, c), rest + [a, c], keys, c)
            && LinkedIn(n, a, c).Keys == live.Keys + {c}
            && (forall x :: x in live && x !in rest + [a, c] ==> LinkedIn(n, a, c)[x] == live[x])
            && IsSecurity(LinkedIn(n, a, c)[c]) && Descriptor(LinkedIn(n, a, c)[c]) == d
            && (forall x :: x in rest + [a, c] <==> x in rest + [a] || x == c)
            && (forall x :: x in rest + [a] ==> x in live && SameText(LinkedIn(n, a, c)[x], live[x]))
            && (forall ring :: Cached(cache, live, ring) && (forall x :: x in ring <==> x in rest + [a]) ==>
                 Cached(cache[d := c], LinkedIn(n, a, c), rest + [a, c]))
  {
    hide LE, U32, Sound, LinkedIn;
    AcquireNew(live, rest, a, keys, c, b);
    var n := live[c := b];
    var m := LinkedIn(n, a, c);
    assert c in rest + [a, c];
    assert SameRecord(n[c], m[c]);
    assert forall x :: x in rest + [a, c] <==> x in rest + [a] || x == c;
    SoundMembers(live, rest + [a], keys);
    forall x | x in rest + [a] ensures x in live && SameText(m[x], live[x]) {
      assert SameRecord(n[x], m[x]);
    }
    forall ring | Cached(cache, live, ring) && (forall x :: x in ring <==> x in rest + [a])
      ensures Cached(cache[d := c], m, rest + [a, c])
    {
      forall e | e in cache && e != d ensures cache[e] in rest + [a, c] && cache[e] in m && IsSecurity(m[cache[e]])
          && Descriptor(m[cache[e]]) == e {
        assert cache[e] in ring;
        assert SameRecord(n[cache[e]], m[cache[e]]);
      }
    }
  }

  lemma LinkSteps(n: Live, a: nat, c: nat, next: nat, m: Live)
    requires c in n && 20 <= |n[c]| && a in n && 20 <= |n[a]| && next == Next(n[a]) && next in n && 20 <= |n[next]| && a != c && next != c
    requires var one := n[c := Splice(n[c], 4, Enc32(next))];
             var two := one[c := Splice(one[c], 8, Enc32(a))];
             var three := two[a := Splice(two[a], 4, Enc32(c))];
             m == three[next := Splice(three[next], 8, Enc32(c))]
    ensures m == LinkedIn(n, a, c)
  {
    hide Splice, LE, Enc32, U32;
  }

  lemma EmptyCache(live: Live, ring: seq<nat>)
    ensures Cached(map[], live, ring)
  {
  }

  /** The list of the ring turned to start with the anchor. */
  lemma FromAnchor(live: Live, ring: seq<nat>, keys: set<nat>, anchor: nat) returns (r: seq<nat>)
    requires Sound(live, ring, keys, NONE) && anchor in ring
    ensures Sound(live, r, keys, NONE) && r != [] && r[0] == anchor && (forall x :: x in r <==> x in ring) && |r| == |ring|
  {
    hide Exact, KeysPoint, Ring, Distinct, Exact;
    var rest := Turned(live, ring, keys, NONE, anchor);
    assert rest + [anchor] == rest + [anchor];
    SoundRing(live, rest + [anchor], keys, NONE);
    Rotate(live, rest, [anchor]);
    r := [anchor] + rest;
    SoundPermuted(live, rest + [anchor], r, keys);
  }

  lemma KeyFacts(live: Live, ring: seq<nat>, keys: set<nat>)
    requires Sound(live, ring, keys, NONE)
    ensures forall k ::
              k in keys ==> k in live && IsKey(live[k]) && k !in ring && (SecurityOf(live[k]) == NONE || SecurityOf(live[k]) in ring)
  {
  }

  lemma BelowNone(live: Live, ring: seq<nat>, keys: set<nat>, debt: nat)
    requires Sound(live, ring, keys, debt)
    ensures forall x :: x in ring ==> x < NONE
  {
  }

  lemma StillAnchored(live: Live, ring: seq<nat>, keys: set<nat>, root: nat)
    requires Sound(live, ring, keys, NONE) && root in keys
    ensures root in live && IsKey(live[root]) && (SecurityOf(live[root]) != NONE ==> SecurityOf(live[root]) in ring)
  {
  }

  lemma SoundMembers(live: Live, ring: seq<nat>, keys: set<nat>)
    requires Sound(live, ring, keys, NONE)
    ensures forall x :: x in ring ==> x in live && IsSecurity(live[x])
  {
    RingMembers(live, ring);
  }

  lemma SoundRing(live: Live, ring: seq<nat>, keys: set<nat>, debt: nat)
    requires Sound(live, ring, keys, debt)
    ensures Ring(live, ring)
  {
  }

  lemma SoundPermuted(live: Live, s: seq<nat>, t: seq<nat>, keys: set<nat>)
    requires Sound(live, s, keys, NONE) && Ring(live, t) && forall x :: x in s <==> x in t
    ensures Sound(live, t, keys, NONE)
  {
    hide Ring, U32, IsKey;
  }

  lemma WalkFacts(live: Live, r: seq<nat>, i: nat)
    requires Ring(live, r) && i < |r|
    ensures r[i] in live && IsSecurity(live[r[i]]) && Next(live[r[i]]) == r[if i + 1 < |r| then i + 1 else 0]
    ensures forall j :: i < j < |r| ==> r[j] != r[i] && r[j] != r[0]
  {
    if i + 1 < |r| { assert Joined(live, r[i], r[i + 1]); }
  }

  lemma WalkCache(live: Live, r: seq<nat>, i: nat, cells: map<bytes, nat>)
    requires Cached(cells, live, r) && i < |r| && r[i] in live && IsSecurity(live[r[i]])
    ensures Cached(cells[Descriptor(live[r[i]]) := r[i]], live, r)
  {
    hide U32;
  }

  /** The cache after a cell is gone. */
  ghost function Forgotten(cache: map<bytes, nat>, d: bytes, c: nat): map<bytes, nat> {
    if d in cache && cache[d] == c then cache - {d} else cache
  }

  /** What the neighbours look like, and what unlinking a cell without users gives. */
  lemma UnlinkFacts(live: Live, ring: seq<nat>, keys: set<nat>, c: nat, cache: map<bytes, nat>) returns (rest: seq<nat>)
    requires Sound(live, ring, keys, c) && c in ring && c in live && IsSecurity(live[c]) && References(live[c]) == 1
    ensures var n, p := Next(live[c]), Previous(live[c]);
            && n in live && IsSecurity(live[n]) && p in live && IsSecurity(live[p]) && Previous(live[n]) == c && Next(live[p]) == c
            && |Put32(live[n], 8, p)| >= 20
    ensures Sound(Unlinked(live, c), rest, keys, NONE) && Unlinked(live, c).Keys == live.Keys - {c}
    ensures forall x :: x in rest <==> x in ring && x != c
    ensures forall x :: x in live && x !in ring ==> Unlinked(live, c)[x] == live[x]
    ensures forall x :: x in rest ==> x in live && x != c && SameText(Unlinked(live, c)[x], live[x])
    ensures Cached(cache, live, ring) ==> Cached(Forgotten(cache, Descriptor(live[c]), c), Unlinked(live, c), rest)
  {
    hide LE, Put32, U32, Sound, Ring, Distinct;
    rest := Turned(live, ring, keys, c, c);
    if rest == [] {
      assert rest + [c] == [c];
      ReleaseOnly(live, keys, c);
    } else {
      ReleaseTail(live, rest, keys, c);
      var m := Unlinked(live, c);
      forall x | x in rest ensures x in live && x != c && SameText(m[x], live[x]) {
        assert SameRecord(live[x], m[x]);
      }
      forall d | d in Forgotten(cache, Descriptor(live[c]), c) && Cached(cache, live, ring) ensures cache[d] in rest
          && SameRecord(live[cache[d]], m[cache[d]]) {
      }
    }
  }

  /** Security cells with the same descriptor. */
  predicate SameText(a: bytes, b: bytes) { IsSecurity(a) && IsSecurity(b) && Descriptor(a) == Descriptor(b) }

  lemma HasCount(live: Live, ring: seq<nat>, keys: set<nat>, c: nat)
    requires Sound(live, ring, keys, c) && c in ring
    ensures c in live && 20 <= |live[c]| && References(live[c]) > 0
  {
  }

  /** A change of count does not matter to the cache. */
  lemma CountedCache(cache: map<bytes, nat>, live: Live, ring: seq<nat>, c: nat, n: nat)
    requires c in live && IsSecurity(live[c]) && n < 0x1_0000_0000
    ensures Cached(cache, live, ring) ==> Cached(cache, live[c := Put32(live[c], 12, n)], ring)
  {
    hide LE, Put32, U32;
    PutSecurity(live[c], 12, n);
  }

  // ----- how many keys there can be

  lemma {:induction false} Packed(x: Layout, at: nat, header: nat, s: set<nat>)
    requires BASE <= at && 4 <= header && forall k :: k in s ==> k in LiveOf(x, at, header) && 0x4c <= |LiveOf(x, at, header)[k]|
    ensures 0x50 * |s| <= Len(x)
  {
    match x {
      case End => assert s == {};
      case Bin(h, n) => Packed(n, at + |h|, header, s);
      case Cell(f, r, n) =>
        if !f && header <= 4 + |r| && at - BASE in s {
          assert LiveOf(x, at, header)[at - BASE] == r[header - 4..];
          Packed(n, at + 4 + |r|, header, s - {at - BASE});
        } else {
          Packed(n, at + 4 + |r|, header, s);
        }
    }
  }

  /** An image below 2 GiB has room for fewer than 2^26 keys. */
  lemma FewKeys(h: Hive, keys: set<nat>)
    requires h.Valid() && forall k :: k in keys ==> k in h.Live() && IsKey(h.Live()[k])
    ensures |keys| <= 0x200_0000
  {
    hide LE, Ok, Linked, LiveOf, U32;
    Packed(h.layout, BASE, Header(h.legacy), keys);
  }

  /** So no counter of a security cell is ever full. */
  lemma NeverFull(h: Hive, ring: seq<nat>, keys: set<nat>, c: nat)
    requires h.Valid() && Sound(h.Live(), ring, keys, NONE) && c in ring
    ensures c in h.Live() && 20 <= |h.Live()[c]| && References(h.Live()[c]) <= 0x200_0000
  {
    hide Hive.Valid, Hive.Live, U32, LE;
    var live := h.Live();
    FewKeys(h, keys);
    Smaller(Users(live, keys, c), keys);
  }
}
