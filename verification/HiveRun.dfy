/** Whole runs: a hive is built, opened, and its cells are allocated and freed in any order. */
module HiveRun {
  import opened Bytes
  import opened HiveLayout
  import opened HiveImage
  import opened MutableHive
  import opened HiveBuilder
  import opened SecurityRing

  /** Store a body, or give back one of the cells that are held. */
  datatype Edit = Store(body: bytes) | Release(which: nat)

  /** What a run has come to: the live cells, those that are held in the order they were got, and whether there is a bin to store into. */
  datatype Shot = Shot(live: Live, held: seq<nat>, bins: bool)

  /** One step of a run: a body appears in a cell that was not live, unless there is no bin; or one of the held cells goes, unless there
    * is none. */
  ghost predicate Step(a: Shot, b: Shot, e: Edit) {
    match e
    case Store(body) =>
      if a.bins then |b.held| == |a.held| + 1 && Gains(a, b, body, b.held[|a.held|]) else b == a
    case Release(which) =>
      if a.held == [] then b == a
      else b == Shot(a.live - {a.held[which % |a.held|]}, Without(a.held, which % |a.held|), a.bins)
  }

  ghost predicate Gains(a: Shot, b: Shot, body: bytes, cell: nat) {
    b.held == a.held + [cell] && cell !in a.live && cell in b.live && b.live == a.live[cell := b.live[cell]] && body <= b.live[cell]
        && b.bins
  }

  function Without<T>(s: seq<T>, k: nat): seq<T>
    requires k < |s|
  {
    s[..k] + s[k + 1..]
  }

  ghost predicate Steps(trace: seq<Shot>, edits: seq<Edit>) {
    |trace| == |edits| + 1 && forall i :: 0 <= i < |edits| ==> Step(trace[i], trace[i + 1], edits[i])
  }

  /** The bodies that are held after some edits. */
  function Wanted(start: seq<bytes>, edits: seq<Edit>, bins: bool): seq<bytes> {
    if edits == [] then start
    else
      Changed(Wanted(start, edits[..|edits| - 1], bins), edits[|edits| - 1], bins)
  }

  function Changed(had: seq<bytes>, e: Edit, bins: bool): seq<bytes> {
    match e
    case Store(body) => if bins then had + [body] else had
    case Release(which) => if had == [] then had else Without(had, which % |had|)
  }

  /** The held cells are different, they are all that is live, and each starts with its body. */
  ghost predicate Holding(s: Shot, bodies: seq<bytes>) {
    && |s.held| == |bodies| && Distinct(s.held) && (forall c :: c in s.live <==> c in s.held)
    && forall k :: 0 <= k < |bodies| ==> bodies[k] <= s.live[s.held[k]]
  }

  lemma WithoutAt<T>(s: seq<T>, k: nat, i: nat)
    requires k < |s| && i < |s| - 1
    ensures |Without(s, k)| == |s| - 1 && Without(s, k)[i] == s[if i < k then i else i + 1]
  {
  }

  lemma HoldingStore(a: Shot, b: Shot, body: bytes, cell: nat, bodies: seq<bytes>)
    requires Gains(a, b, body, cell) && Holding(a, bodies)
    ensures Holding(b, bodies + [body])
  {
  }

  lemma WithoutIn(s: seq<nat>, k: nat, c: nat)
    requires k < |s| && Distinct(s)
    ensures c in Without(s, k) <==> c in s && c != s[k]
  {
    var r := Without(s, k);
    if c in r {
      var i :| 0 <= i < |r| && r[i] == c;
      WithoutAt(s, k, i);
    }
    if c in s && c != s[k] {
      var i :| 0 <= i < |s| && s[i] == c;
      WithoutAt(s, k, if i < k then i else i - 1);
    }
  }

  lemma WithoutDistinct(s: seq<nat>, k: nat)
    requires k < |s| && Distinct(s)
    ensures Distinct(Without(s, k))
  {
    hide Without;
    forall i, j | 0 <= i < j < |Without(s, k)| ensures Without(s, k)[i] != Without(s, k)[j] {
      assert |Without(s, k)| == |s| - 1 by { WithoutSize(s, k); }
      WithoutAt(s, k, i);
      WithoutAt(s, k, j);
    }
  }

  lemma WithoutSize<T>(s: seq<T>, k: nat)
    requires k < |s|
    ensures |Without(s, k)| == |s| - 1
  {
  }

  lemma HoldingRelease(a: Shot, k: nat, bodies: seq<bytes>)
    requires Holding(a, bodies) && k < |a.held|
    ensures Holding(Shot(a.live - {a.held[k]}, Without(a.held, k), a.bins), Without(bodies, k))
  {
    hide Without, Distinct;
    var held, left := Without(a.held, k), Without(bodies, k);
    WithoutSize(a.held, k);
    WithoutSize(bodies, k);
    WithoutDistinct(a.held, k);
    forall c ensures c in a.live - {a.held[k]} <==> c in held { WithoutIn(a.held, k, c); }
    forall i | 0 <= i < |left| ensures left[i] <= (a.live - {a.held[k]})[held[i]] {
      WithoutAt(a.held, k, i);
      WithoutAt(bodies, k, i);
      assert held[i] in held;
    }
  }

  lemma HoldingNext(a: Shot, b: Shot, e: Edit, bodies: seq<bytes>)
    requires Step(a, b, e) && Holding(a, bodies)
    ensures Holding(b, Changed(bodies, e, a.bins)) && b.bins == a.bins
  {
    hide Holding, Without;
    assert |a.held| == |bodies| by { HeldLive(a, bodies); }
    match e
    case Store(body) => if a.bins { HoldingStore(a, b, body, b.held[|a.held|], bodies); }
    case Release(which) => if a.held != [] { HoldingRelease(a, which % |a.held|, bodies); }
  }

  /** Whatever a run does, what is held at its end is what the edits say. */
  lemma {:induction false} HoldingRun(trace: seq<Shot>, edits: seq<Edit>, start: seq<bytes>)
    requires Steps(trace, edits) && Holding(trace[0], start)
    ensures Holding(trace[|edits|], Wanted(start, edits, trace[0].bins)) && trace[|edits|].bins == trace[0].bins
  {
    hide Holding, Step;
    var n := |edits|;
    if n > 0 {
      HoldingRun(trace[..n], edits[..n - 1], start);
      HoldingNext(trace[n - 1], trace[n], edits[n - 1], Wanted(start, edits[..n - 1], trace[0].bins));
    }
  }

  /** A step gives this cell back. */
  predicate Gives(s: Shot, e: Edit, c: nat) { e.Release? && s.held != [] && s.held[e.which % |s.held|] == c }

  /** A cell that no step gave back still has the body it had. */
  lemma {:induction false} NeverReleased(trace: seq<Shot>, edits: seq<Edit>, c: nat)
    requires Steps(trace, edits) && c in trace[0].live && forall i :: 0 <= i < |edits| ==> !Gives(trace[i], edits[i], c)
    ensures c in trace[|edits|].live && trace[|edits|].live[c] == trace[0].live[c]
  {
    var n := |edits|;
    if n > 0 {
      NeverReleased(trace[..n], edits[..n - 1], c);
      assert Step(trace[n - 1], trace[n], edits[n - 1]);
    }
  }

  // ----- room

  function BuildRoom(legacy: bool, bodies: seq<bytes>): nat {
    if bodies == [] then 0
    else BuildRoom(legacy, bodies[..|bodies| - 1]) + 2 * Align(0x20 + AlignedSize(legacy, |bodies[|bodies| - 1]| + Header(legacy)), 0x1000)
  }

  lemma BuildStep(legacy: bool, bodies: seq<bytes>, i: nat)
    requires i < |bodies|
    ensures BuildRoom(legacy, bodies[..i + 1]) == BuildRoom(legacy,
            bodies[..i]) + 2 * Align(0x20 + AlignedSize(legacy, |bodies[i]| + Header(legacy)), 0x1000)
  {
    assert bodies[..i + 1][..i] == bodies[..i];
  }

  lemma {:induction false} BuildFront(legacy: bool, bodies: seq<bytes>, i: nat)
    requires i <= |bodies|
    ensures BuildRoom(legacy, bodies[..i]) <= BuildRoom(legacy, bodies)
    decreases |bodies| - i
  {
    hide Align, AlignedSize;
    if i < |bodies| { BuildStep(legacy, bodies, i); BuildFront(legacy, bodies, i + 1); } else { assert bodies[..i] == bodies; }
  }

  function EditRoom(legacy: bool, edits: seq<Edit>): nat {
    if edits == [] then 0
    else (if edits[0].Store? then Align(Needed(legacy, edits[0].body) + 0x20, 0x1000) else 0) + EditRoom(legacy, edits[1..])
  }

  lemma EditStep(legacy: bool, edits: seq<Edit>, i: nat)
    requires i < |edits|
    ensures EditRoom(legacy, edits[i..]) == (if edits[i].Store? then Align(Needed(legacy, edits[i].body) + 0x20,
            0x1000) else 0) + EditRoom(legacy, edits[i + 1..])
  {
    hide Align, Needed;
    assert edits[i..][1..] == edits[i + 1..];
  }

  // ----- building

  lemma HoldingMore(live: Live, held: seq<nat>, bodies: seq<bytes>, legacy: bool, i: nat, size: nat, cell: nat, bins: bool)
    requires i < |bodies| && Holding(Shot(live, held, bins), bodies[..i]) && Header(legacy) + |bodies[i]| <= size && cell !in live
    ensures Holding(Shot(live[cell := Stored(legacy, bodies[i], size)], held + [cell], bins), bodies[..i + 1])
  {
    assert bodies[i] <= Stored(legacy, bodies[i], size);
    assert bodies[..i + 1] == bodies[..i] + [bodies[i]];
  }

  lemma HoldingNone(bins: bool)
    ensures Holding(Shot(map[], [], bins), [])
  {
  }

  /** Builds an image of some bodies: cell k holds body k, and there is nothing else. */
  method Build(legacy: bool, base: bytes, bodies: seq<bytes>) returns (h: Hive, held: seq<nat>)
    requires |base| == BASE && BASE + BuildRoom(legacy, bodies) <= LIMIT
    ensures h.Valid() && fresh(h.Repr) && h.legacy == legacy && Holding(Shot(h.Live(), held, bodies != []), bodies)
    ensures (h.layout.End? <==> bodies == []) && |h.data| <= BASE + BuildRoom(legacy, bodies)
  {
    hide Hive.Valid, Writer.Valid, LiveCells, LiveOf, Image, Align, Stored, Holding, BuildRoom, AlignedSize;
    var w := new Writer(legacy);
    held := [];
    HoldingNone(bodies != []);
    assert bodies[..0] == [];
    assert BuildRoom(legacy, bodies[..0]) == 0 by { NoRoom(legacy, bodies); }
    for i := 0 to |bodies|
      invariant w.Valid() && fresh(w) && Holding(Shot(w.Live(), held, bodies != []), bodies[..i])
                && |w.data| <= BuildRoom(legacy, bodies[..i]) && (i == 0 ==> w.data == [])
    {
      BuildStep(legacy, bodies, i);
      BuildFront(legacy, bodies, i + 1);
      ghost var live := w.Live();
      var cell, stored := w.WriteCell(bodies[i]);
      HoldingMore(live, held, bodies, legacy, i, AlignedSize(legacy, |bodies[i]| + Header(legacy)), cell, bodies != []);
      held := held + [cell];
    }
    assert bodies[..|bodies|] == bodies;
    var image := w.Finish(base);
    SameCells(w.layout, legacy);
    h := new Hive(image, legacy, w.layout);
    EndHolds(h, held, bodies);
  }

  lemma NoRoom(legacy: bool, bodies: seq<bytes>)
    ensures BuildRoom(legacy, bodies[..0]) == 0
  {
  }

  /** There is a bin as soon as there is a cell, and none in an image that is only a base block. */
  lemma EndHolds(h: Hive, held: seq<nat>, bodies: seq<bytes>)
    requires h.Valid() && Holding(Shot(h.Live(), held, bodies != []), bodies) && (bodies == [] ==> |h.data| == BASE)
    ensures h.layout.End? <==> bodies == []
  {
    Tiled(h);
    if bodies == [] { FlatEnd(h.layout); } else { assert held[0] in h.Live(); }
  }

  lemma FlatEnd(x: Layout)
    ensures Flat(x) == [] && !x.Cell? && Ok(x, BASE, 0) ==> x.End?
  {
  }

  // ----- editing

  /** Carries out one edit. */
  method Apply(h: Hive, e: Edit, given: seq<nat>) returns (held: seq<nat>)
    requires h.Valid() && (forall c :: c in given ==> c in h.Live())
             && (e.Store? ==> |h.data| + Align(Needed(h.legacy, e.body) + 0x20, 0x1000) <= LIMIT)
    modifies h.Repr
    ensures h.Valid() && fresh(h.Repr - old(h.Repr)) && (h.layout.End? <==> old(h.layout).End?)
    ensures Step(old(Shot(h.Live(), given, !h.layout.End?)), Shot(h.Live(), held, !h.layout.End?), e)
    ensures |h.data| <= |old(h.data)| + if e.Store? then Align(Needed(h.legacy, e.body) + 0x20, 0x1000) else 0
  {
    hide Hive.Valid, Hive.Live, Align, Stored, Needed, FreeIndex.IsFirstFit;
    held := given;
    EndIsEmpty(h);
    match e
    case Store(body) =>
      var r, found, stored := h.AllocateCell(body);
      EndIsEmpty(h);
      if r.Success? { held := given + [r.value]; }
    case Release(which) =>
      if given != [] {
        var k := which % |given|;
        var r := h.FreeCell(given[k]);
        EndIsEmpty(h);
        held := given[..k] + given[k + 1..];
      }
  }

  lemma EndIsEmpty(h: Hive)
    requires h.Valid()
    ensures h.layout.End? <==> |h.data| == BASE
  {
    Tiled(h);
    FlatEnd(h.layout);
  }

  lemma StepsMore(trace: seq<Shot>, edits: seq<Edit>, now: Shot, e: Edit)
    requires Steps(trace, edits) && Step(trace[|edits|], now, e)
    ensures Steps(trace + [now], edits + [e])
  {
    hide Step;
  }

  /** Any run from a built hive keeps it tiled, with an index equal to a fresh scan; each step does to the cells what its edit says, and
    * at the end
    * the bodies the edits ask for are there, one in each cell. */
  method Run(legacy: bool, base: bytes, bodies: seq<bytes>, edits: seq<Edit>) returns (h: Hive, held: seq<nat>, ghost trace: seq<Shot>)
    requires |base| == BASE && BASE + BuildRoom(legacy, bodies) + EditRoom(legacy, edits) <= LIMIT
    ensures h.Valid() && Image(h.data, h.layout, h.legacy) && Steps(trace, edits) && trace[|edits|] == Shot(h.Live(), held, bodies != [])
    ensures Holding(trace[0], bodies) && Holding(Shot(h.Live(), held, bodies != []), Wanted(bodies, edits, bodies != []))
    ensures h.freeCells != null ==>
              h.freeCells.FreeCells() == Scan(h.data[BASE..], BASE) && h.freeCells.bins == ScanOffsets(h.data[BASE..], BASE)
  {
    hide Hive.Valid, Hive.Live, Image, Holding, Steps, Step, Wanted, EditRoom, BuildRoom, Align, Needed;
    h, held := Build(legacy, base, bodies);
    trace := [Shot(h.Live(), held, bodies != [])];
    FirstStep(trace[0]);
    assert edits[0..] == edits && edits[..0] == [];
    for i := 0 to |edits|
      invariant h.Valid() && fresh(h.Repr) && h.legacy == legacy && (h.layout.End? <==> bodies == [])
                && |h.data| + EditRoom(legacy, edits[i..]) <= LIMIT
      invariant |trace| == i + 1 && Steps(trace, edits[..i]) && trace[i] == Shot(h.Live(), held, bodies != []) && Holding(trace[0], bodies)
                && trace[0].bins == (bodies != [])
    {
      EditStep(legacy, edits, i);
      HoldingRun(trace, edits[..i], bodies);
      HeldLive(trace[i], Wanted(bodies, edits[..i], bodies != []));
      held := Apply(h, edits[i], held);
      StepsMore(trace, edits[..i], Shot(h.Live(), held, bodies != []), edits[i]);
      assert edits[..i] + [edits[i]] == edits[..i + 1];
      trace := trace + [Shot(h.Live(), held, bodies != [])];
    }
    assert edits[..|edits|] == edits;
    HoldingRun(trace, edits, bodies);
    Tiled(h);
    if h.freeCells != null { IndexIsFreshScan(h); }
  }

  lemma HeldLive(s: Shot, bodies: seq<bytes>)
    requires Holding(s, bodies)
    ensures |s.held| == |bodies| && forall c :: c in s.held ==> c in s.live
  {
  }

  lemma FirstStep(s: Shot)
    ensures Steps([s], [])
  {
  }

  lemma Tiled(h: Hive)
    requires h.Valid()
    ensures Image(h.data, h.layout, h.legacy) && BASE <= |h.data|
  {
  }
}
