/** A new hive of one root key with its security, ready for a transaction. */
module HiveStart {
  import opened Bytes
  import opened HiveLayout
  import opened HiveImage
  import opened MutableHive
  import opened HiveBuilder
  import opened SecurityRing
  import opened SubkeyIndex
  import opened HivePatch
  import opened KeyDeletion
  import opened HiveBatch
  import opened KeyPaths

  /** A bare key: no children, no values, no class, and a name inside its cell. */
  ghost predicate Bare(b: bytes) { Named(b) && U32(b, 0x14) == 0 && U32(b, 0x18) == 0 && U32(b, 0x24) == 0 && U16(b, 0x4a) == 0 }

  lemma PointedAt(b: bytes, cell: nat)
    requires Bare(b) && cell < NONE
    ensures Bare(Put32(b, 0x2c, cell)) && SecurityOf(Put32(b, 0x2c, cell)) == cell
  {
    hide LE;
    PutField(b, 0x2c, cell, 0x2c);
    PutField(b, 0x2c, cell, 0x14);
    PutField(b, 0x2c, cell, 0x18);
    PutField(b, 0x2c, cell, 0x24);
    SpliceBefore(b, 0x2c, Enc32(cell), 0, 2);
    SpliceAfter(b, 0x2c, Enc32(cell), 0x48, 0x4a);
    SpliceAfter(b, 0x2c, Enc32(cell), 0x4a, 0x4c);
  }

  lemma SelfLinked(b: bytes, cell: nat)
    requires IsSecurity(b) && References(b) == 1 && cell < NONE
    ensures var s := Put32(Put32(b, 4, cell), 8, cell);
              IsSecurity(s) && References(s) == 1 && Next(s) == cell == Previous(s) && Descriptor(s) == Descriptor(b)
  {
    hide LE;
    var a := Put32(b, 4, cell);
    PutField(b, 4, cell, 4); PutField(b, 4, cell, 12); PutField(b, 4, cell, 16);
    PutField(a, 8, cell, 4); PutField(a, 8, cell, 8); PutField(a, 8, cell, 12); PutField(a, 8, cell, 16);
    SpliceBefore(b, 4, Enc32(cell), 0, 2); SpliceBefore(a, 8, Enc32(cell), 0, 2);
    SpliceAfter(b, 4, Enc32(cell), 20, 20 + U32(b, 16)); SpliceAfter(a, 8, Enc32(cell), 20, 20 + U32(b, 16));
  }

  /** One key and one security cell that points at itself are a ring with exact counts. */
  lemma RingOfOne(live: Live, root: nat, cell: nat)
    requires root in live && cell in live && root != cell && cell < NONE && Bare(live[root]) && SecurityOf(live[root]) == cell
    requires IsSecurity(live[cell]) && References(live[cell]) == 1 && Next(live[cell]) == cell == Previous(live[cell])
    ensures Sound(live, [cell], {root}, NONE)
  {
    hide LE, U32, U16;
    assert Users(live, {root}, cell) == {root};
  }

  lemma OwnsOne(live: Live, minor: nat, root: nat, cell: nat)
    requires root in live && Bare(live[root])
    ensures Owns(live, minor, [cell], {root}, map[root := EMPTY]) && Clean(live, root, EMPTY, {})
            && Family(root, {root}, map[root := {}], map[])
  {
    hide LE, U32, U16, NodeHolds, Clean;
    EmptyHolds(live, minor, root);
  }

  lemma RoomToWrite(legacy: bool, had: nat, n: nat)
    requires had <= 0x3000_0000 && n <= 0x1000_0100
    ensures 2 * Align(0x20 + AlignedSize(legacy, n + Header(legacy)), 0x1000) <= 0x2001_0000
    ensures BASE + had + 2 * Align(0x20 + AlignedSize(legacy, n + Header(legacy)), 0x1000) <= LIMIT
    ensures 2 * Align(0x20 + AlignedSize(legacy, n + Header(legacy)), 0x1000) <= 0x2100 + 2 * n
  {
  }

  lemma KeyIsBare(legacy: bool, flags: nat, name: bytes, stored: bytes)
    requires NewKeyBody(legacy, flags, name, NONE, NONE) <= stored && flags < 0x1_0000
    ensures Bare(stored)
  {
    hide LE, U32, U16, NewKeyBody;
    NewKeyFacts(legacy, flags, name, NONE, NONE, stored);
  }

  lemma Lengths(key: bytes, security: bytes)
    requires Bare(key) && IsSecurity(security)
    ensures 0x4c <= |key| && 20 <= |security|
  {
  }

  lemma StoredStarts(legacy: bool, body: bytes, size: nat)
    requires Header(legacy) + |body| <= size
    ensures body <= Stored(legacy, body, size)
  {
  }

  lemma RootNumber(given: bytes, root: nat, image: bytes)
    requires |given| == BASE && root < 0x1_0000_0000 && BASE <= |image| && image[..0x28] == Put32(given, 0x24, root)[..0x28]
    ensures U32(image, 0x24) == root
  {
    hide LE;
    var base := Put32(given, 0x24, root);
    PutField(given, 0x24, root, 0x24);
    assert image[0x24..0x28] == image[..0x28][0x24..0x28] == base[..0x28][0x24..0x28] == base[0x24..0x28];
  }

  lemma ImageSize(data: bytes, x: Layout, legacy: bool)
    requires Image(data, x, legacy)
    ensures BASE <= |data|
  {
  }

  /** Builds the image of a root key that has a security descriptor. */
  method NewHive(legacy: bool, given: bytes, flags: nat, name: bytes, descriptor: bytes) returns (h: Hive, ghost cell: nat)
    requires |given| == BASE && flags < 0x1_0000 && |name| + |descriptor| <= 0x1000_0000
    ensures h.Valid() && fresh(h.Repr) && h.root in h.Live() && cell in h.Live() && h.root != cell && cell < NONE
    ensures Bare(h.Live()[h.root]) && SecurityOf(h.Live()[h.root]) == cell && IsSecurity(h.Live()[cell])
            && Descriptor(h.Live()[cell]) == descriptor
    ensures Sound(h.Live(), [cell], {h.root}, NONE) && |h.data| <= 0x5400 + 2 * (|name| + |descriptor|)
  {
    hide Hive.Valid, Writer.Valid, LiveCells, LiveOf, Image, Align, NewKeyBody, NewSecurityBody, LE, U32, U16, Splice, References, Next,
         Previous, Descriptor, SecurityOf, IsSecurity, Bare, Sound, Stored;
    var w := new Writer(legacy);
    RoomToWrite(legacy, 0, 0x4c + |name|);
    var root, key := w.WriteCell(NewKeyBody(legacy, flags, name, NONE, NONE));
    RoomToWrite(legacy, |w.data|, 20 + |descriptor|);
    var sk, security := w.WriteCell(NewSecurityBody(descriptor));
    w.CellsBelow();
    assert root in w.Live() && sk in w.Live();
    StoredStarts(legacy, NewKeyBody(legacy, flags, name, NONE, NONE), AlignedSize(legacy, 0x4c + |name| + Header(legacy)));
    StoredStarts(legacy, NewSecurityBody(descriptor), AlignedSize(legacy, 20 + |descriptor| + Header(legacy)));
    KeyIsBare(legacy, flags, name, key);
    NewBodyFacts(descriptor, security);
    PointedAt(key, sk);
    SelfLinked(security, sk);
    Lengths(key, security);
    w.Patch(sk, 4, Enc32(sk));
    w.Patch(sk, 8, Enc32(sk));
    w.Patch(root, 0x2c, Enc32(sk));
    var base := Put32(given, 0x24, root);
    var image := w.Finish(base);
    ImageSize(image, w.layout, legacy);
    RootNumber(given, root, image);
    SameCells(w.layout, legacy);
    h := new Hive(image, legacy, w.layout);
    cell := sk;
    RingOfOne(h.Live(), root, sk);
  }

  /** Opens a transaction on a new hive: everything a transaction keeps holds from the start. */
  method Start(legacy: bool, given: bytes, minor: nat, text: Text, name: bytes, descriptor: bytes) returns (tx: Transaction)
    requires |given| == BASE && text.flags < 0x1_0000 && |name| + |descriptor| <= 0x1000_0000
    ensures tx.Valid() && fresh(tx) && fresh(tx.patch) && fresh(tx.patch.store.Repr) && tx.text == text && tx.batches == map[]
    ensures tx.Open() && |tx.patch.ring| == 1 && |tx.patch.store.data| <= 0x5400 + 2 * (|name| + |descriptor|)
    ensures tx.patch.keys == {tx.patch.store.root} && tx.children == map[tx.patch.store.root := {}]
            && InfoOf(tx.patch.store.Live(), tx.patch.store.root) == Info(Some(descriptor), 0)
    ensures Intact(tx.patch.store.root, tx.patch.keys, tx.children)
  {
    hide Hive.Valid, Hive.Live, Hive.Starts, Owns, Family, Clean, Bare, Sound, IsSecurity, Descriptor, InfoOf, SecurityOf, Intact;
    var h, cell := NewHive(legacy, given, text.flags, name, descriptor);
    OwnsOne(h.Live(), minor, h.root, cell);
    KeyShape(h.Live()[h.root]);
    var patch := new Patch(h, [cell], {h.root});
    tx := new Transaction(patch, minor, text, map[h.root := EMPTY], map[h.root := {}], map[]);
    DescIs(h.Live(), h.root, cell);
    EmptyWalks();
    LoneReached(h.root);
  }

  lemma LoneReached(root: nat)
    ensures Intact(root, {root}, map[root := {}])
  {
    hide Below;
    BelowSelf(map[root := {}], root);
  }

  lemma DescIs(live: Live, k: nat, cell: nat)
    requires k in live && IsKey(live[k]) && SecurityOf(live[k]) == cell && cell < NONE && cell in live && IsSecurity(live[cell])
    ensures InfoOf(live, k) == Info(Some(Descriptor(live[cell])), U32(live[k], 0x18))
  {
  }

  lemma EmptyWalks()
    ensures Walks(EMPTY) && EMPTY.index.None?
  {
  }

  lemma KeyShape(b: bytes)
    requires Bare(b)
    ensures IsKey(b) && U32(b, 0x18) == 0
  {
  }
}
