/** Identities shared by several paths: counts, alias lists and per-path identities. */
module HardLinks {
  import opened Bytes
  import opened DirectoryPaths

  const Top: nat := 0x1_0000_0000_0000_0000

  datatype Times = Times(creation: nat, access: nat, write: nat)

  datatype Metadata = Metadata(security: bytes, times: Times, id: nat, shortName: string, other: int)

  const Blank := Metadata([], Times(0, 0, 0), 0, "", 0)

  type Meta = map<Path, Metadata>
  type Refs = map<nat, nat>
  type Names = map<nat, seq<Path>>

  function MetaOf(meta: Meta, p: Path): Metadata { if p in meta then meta[p] else Blank }

  function IdOf(meta: Meta, p: Path): nat { MetaOf(meta, p).id }

  predicate Named(names: Names, id: nat, p: Path) { id in names && p in names[id] }

  ghost predicate Counted(refs: Refs, names: Names) {
    && refs.Keys == names.Keys && 0 !in names
    && forall id :: id in names ==> id < Top && refs[id] == |names[id]| && 0 < |names[id]| && Distinct(names[id])
  }

  /** The alias lists hold exactly the paths that carry an identity. */
  ghost predicate Related(meta: Meta, names: Names) {
    && (forall id, p :: Named(names, id, p) ==> IdOf(meta, p) == id)
    && (forall p :: IdOf(meta, p) != 0 ==> Named(names, IdOf(meta, p), p))
  }

  ghost predicate LinkOk(meta: Meta, refs: Refs, names: Names) { Counted(refs, names) && Related(meta, names) }

  /** Every identity below the hint is taken. */
  ghost predicate Hint(refs: Refs, next: nat) { next < Top && forall k :: 1 <= k < next ==> k in refs }

  /** All aliases of an identity agree on what belongs to the file. */
  ghost predicate Agree(meta: Meta) {
    forall p, q :: p in meta && q in meta && meta[p].id == meta[q].id != 0 ==> meta[p].security == meta[q].security && meta[p].times == meta[q].times
  }

  ghost function Holders(meta: Meta, id: nat): set<Path> { set p | p in meta && meta[p].id == id }

  lemma {:induction false} DistinctSize(s: seq<Path>)
    requires Distinct(s)
    ensures |(set p | p in s)| == |s|
  {
    if s != [] {
      var n := |s| - 1;
      DistinctSize(s[..n]);
      assert (set p | p in s) == (set p | p in s[..n]) + {s[n]};
    }
  }

  /** The stored count of an identity is the number of paths that carry it. */
  lemma CountIsHolders(meta: Meta, refs: Refs, names: Names, id: nat)
    requires LinkOk(meta, refs, names) && id != 0
    ensures (if id in refs then refs[id] else 0) == |Holders(meta, id)|
  {
    if id in names {
      forall p ensures p in Holders(meta, id) <==> p in names[id] { assert Named(names, id, p) <==> IdOf(meta, p) == id; }
      assert Holders(meta, id) == set p | p in names[id];
      DistinctSize(names[id]);
    } else {
      forall p ensures p !in Holders(meta, id) { assert IdOf(meta, p) == id ==> Named(names, id, p); }
      assert Holders(meta, id) == {};
    }
  }

  // ----- giving up and taking an identity

  function FindAlias(s: seq<Path>, p: Path): (i: nat)
    ensures i <= |s| && (i < |s| ==> s[i] == p) && (i == |s| ==> p !in s)
  {
    if s == [] then 0 else if s[0] == p then 0 else 1 + FindAlias(s[1..], p)
  }

  function Cut(s: seq<Path>, i: nat): seq<Path>
    requires i < |s|
  {
    s[..i] + s[i + 1..]
  }

  lemma CutFacts(s: seq<Path>, i: nat)
    requires i < |s| && Distinct(s)
    ensures Distinct(Cut(s, i)) && |Cut(s, i)| == |s| - 1 && forall q :: q in Cut(s, i) <==> q in s && q != s[i]
  {
    var r := Cut(s, i);
    assert forall k :: 0 <= k < |r| ==> r[k] == if k < i then s[k] else s[k + 1];
    forall q | q in s && q != s[i] ensures q in r {
      var k :| 0 <= k < |s| && s[k] == q;
      assert if k < i then r[k] == q else r[k - 1] == q;
    }
  }

  function Without(names: Names, id: nat, p: Path): Names {
    if id !in names then names
    else
      var i := FindAlias(names[id], p);
      var left := if i < |names[id]| then Cut(names[id], i) else names[id];
      if left == [] then names - {id} else names[id := left]
  }

  function Fewer(refs: Refs, id: nat): Refs {
    if id !in refs then refs else if refs[id] <= 1 then refs - {id} else refs[id := refs[id] - 1]
  }

  function With(names: Names, id: nat, p: Path): Names { names[id := (if id in names then names[id] else []) + [p]] }

  function More(refs: Refs, id: nat): Refs { refs[id := (if id in refs then refs[id] else 0) + 1] }

  /** Everywhere else the metadata is the same; here there is no identity. */
  ghost predicate Unbound(meta: Meta, bare: Meta, p: Path) { IdOf(bare, p) == 0 && forall q :: q != p ==> IdOf(bare, q) == IdOf(meta, q) }

  lemma ReleaseCounts(refs: Refs, names: Names, id: nat, p: Path)
    requires Counted(refs, names) && Named(names, id, p)
    ensures Counted(Fewer(refs, id), Without(names, id, p))
  {
    CutFacts(names[id], FindAlias(names[id], p));
  }

  lemma ReleaseNames(refs: Refs, names: Names, id: nat, p: Path, other: nat, q: Path)
    requires Counted(refs, names) && Named(names, id, p)
    ensures Named(Without(names, id, p), other, q) <==> Named(names, other, q) && !(other == id && q == p)
  {
    CutFacts(names[id], FindAlias(names[id], p));
  }

  lemma Release(meta: Meta, bare: Meta, refs: Refs, names: Names, p: Path)
    requires LinkOk(meta, refs, names) && IdOf(meta, p) != 0 && Unbound(meta, bare, p)
    ensures LinkOk(bare, Fewer(refs, IdOf(meta, p)), Without(names, IdOf(meta, p), p))
  {
    hide Without, Named, Counted, IdOf;
    var id := IdOf(meta, p);
    ReleaseCounts(refs, names, id, p);
    var rest := Without(names, id, p);
    forall other, q ensures Named(rest, other, q) <==> Named(names, other, q) && !(other == id && q == p) {
      ReleaseNames(refs, names, id, p, other, q);
    }
  }

  lemma BindCounts(refs: Refs, names: Names, id: nat, p: Path)
    requires Counted(refs, names) && 0 < id < Top && !Named(names, id, p)
    ensures Counted(More(refs, id), With(names, id, p))
  {
  }

  lemma NoZero(refs: Refs, names: Names, p: Path)
    requires Counted(refs, names)
    ensures !Named(names, 0, p)
  {
  }

  lemma BindNames(names: Names, id: nat, p: Path, other: nat, q: Path)
    ensures Named(With(names, id, p), other, q) <==> Named(names, other, q) || (other == id && q == p)
  {
  }

  lemma Bind(bare: Meta, meta: Meta, refs: Refs, names: Names, p: Path)
    requires LinkOk(bare, refs, names) && 0 < IdOf(meta, p) < Top && Unbound(meta, bare, p)
    ensures LinkOk(meta, More(refs, IdOf(meta, p)), With(names, IdOf(meta, p), p))
  {
    hide With, Named, Counted, IdOf;
    var id := IdOf(meta, p);
    BindCounts(refs, names, id, p);
    var more := With(names, id, p);
    forall other, q ensures Named(more, other, q) <==> Named(names, other, q) || (other == id && q == p) {
      BindNames(names, id, p, other, q);
    }
    assert !Named(names, 0, p) by { NoZero(refs, names, p); }
  }

  /** The tables after a path changed its identity. */
  function NamesAfter(names: Names, old': nat, new': nat, p: Path): Names {
    var left := if old' != new' && old' != 0 then Without(names, old', p) else names;
    if old' != new' && new' != 0 then With(left, new', p) else left
  }

  function RefsAfter(refs: Refs, old': nat, new': nat): Refs {
    var left := if old' != new' && old' != 0 then Fewer(refs, old') else refs;
    if old' != new' && new' != 0 then More(left, new') else left
  }

  /** Giving a path any metadata keeps the three tables telling the same. */
  lemma Rebind(meta: Meta, refs: Refs, names: Names, p: Path, m: Metadata)
    requires LinkOk(meta, refs, names) && m.id < Top
    ensures LinkOk(meta[p := m], RefsAfter(refs, IdOf(meta, p), m.id), NamesAfter(names, IdOf(meta, p), m.id, p))
  {
    hide LinkOk, Without, With, Fewer, More;
    var was, now := IdOf(meta, p), meta[p := m];
    if was == m.id {
      SameIds(meta, now, refs, names);
    } else {
      var bare := meta[p := m.(id := 0)];
      if was != 0 { Release(meta, bare, refs, names, p); } else { SameIds(meta, bare, refs, names); }
      var refs1, names1 := RefsAfter(refs, was, 0), NamesAfter(names, was, 0, p);
      if m.id != 0 { Bind(bare, now, refs1, names1, p); } else { SameIds(bare, now, refs1, names1); }
    }
  }

  lemma SameIds(meta: Meta, now: Meta, refs: Refs, names: Names)
    requires LinkOk(meta, refs, names) && forall p :: IdOf(now, p) == IdOf(meta, p)
    ensures LinkOk(now, refs, names)
  {
  }

  lemma HintAfter(refs: Refs, next: nat, old': nat, new': nat)
    requires Hint(refs, next) && 0 !in refs && old' < Top
    ensures Hint(RefsAfter(refs, old', new'), if old' != new' && old' != 0 && old' !in Fewer(refs, old') && old' < next then old' else next)
  {
  }

  /** Of all identities the smallest that no path carries, if there is one. */
  ghost predicate Smallest(refs: Refs, id: nat) { 0 < id < Top && id !in refs && forall k :: 1 <= k < id ==> k in refs }

  method FreshIdentity(refs: Refs, next: nat) returns (id: nat)
    requires Hint(refs, next)
    ensures id == 0 || Smallest(refs, id)
    ensures id == 0 ==> forall k :: 1 <= k < Top ==> k in refs
  {
    id := if next == 0 then 1 else next;
    while id in refs
      invariant 0 < id < Top && forall k :: 1 <= k < id ==> k in refs
      decreases Top - id
    {
      id := (id + 1) % Top;
      if id == 0 {
        return;
      }
    }
  }

  // ----- what belongs to the file and not to a path

  datatype Aspect = Security(descriptor: bytes) | Stamps(times: Times)

  function Put(m: Metadata, a: Aspect): (r: Metadata) {
    match a
    case Security(d) => m.(security := d)
    case Stamps(t) => m.(times := t)
  }

  /** The metadata after one aspect was given to a path and to its aliases. */
  ghost predicate Shared(was: Meta, now: Meta, p: Path, a: Aspect) {
    && now.Keys == was.Keys + {p}
    && now[p] == Put(MetaOf(was, p), a)
    && forall q :: q in was && q != p ==> now[q] == if was[q].id == IdOf(was, p) != 0 then Put(was[q], a) else was[q]
  }

  lemma SharedAgrees(was: Meta, now: Meta, p: Path, a: Aspect)
    requires Agree(was) && Shared(was, now, p, a)
    ensures Agree(now)
  {
    forall x, y | x in now && y in now && now[x].id == now[y].id != 0 ensures now[x].security == now[y].security
        && now[x].times == now[y].times {
      SharedPair(was, now, p, a, x, y);
    }
  }

  lemma SharedAt(was: Meta, now: Meta, p: Path, a: Aspect, x: Path)
    requires Shared(was, now, p, a) && x in now
    ensures now[x].id == IdOf(was, x) && now[x] == if x == p
            || (IdOf(was, x) == IdOf(was, p) != 0) then Put(MetaOf(was, x), a) else MetaOf(was, x)
  {
  }

  lemma SharedPair(was: Meta, now: Meta, p: Path, a: Aspect, x: Path, y: Path)
    requires Agree(was) && Shared(was, now, p, a) && x in now && y in now && now[x].id == now[y].id != 0
    ensures now[x].security == now[y].security && now[x].times == now[y].times
  {
    hide Shared;
    SharedAt(was, now, p, a, x);
    SharedAt(was, now, p, a, y);
    assert x in was && y in was;
  }

  lemma SharedIds(was: Meta, now: Meta, p: Path, a: Aspect)
    requires Shared(was, now, p, a)
    ensures forall q :: IdOf(now, q) == IdOf(was, q)
  {
  }

  /** A path that takes over the metadata of another one agrees with all its aliases. */
  lemma CopyAgrees(meta: Meta, source: Path, destination: Path, m: Metadata)
    requires Agree(meta) && source in meta && m.id == meta[source].id && m.security == meta[source].security
             && m.times == meta[source].times
    ensures Agree(meta[destination := m])
  {
  }

  /** A new identity is shared with nobody. */
  lemma AloneAgrees(meta: Meta, p: Path, m: Metadata)
    requires Agree(meta) && forall q :: q in meta && q != p ==> meta[q].id != m.id || m.id == 0
    ensures Agree(meta[p := m])
  {
  }

  lemma DropAgrees(meta: Meta, p: Path)
    requires Agree(meta)
    ensures Agree(meta - {p})
  {
  }

  /** Removing a path whose metadata was blanked changes no table. */
  lemma DropLinks(meta: Meta, refs: Refs, names: Names, p: Path)
    requires LinkOk(meta, refs, names) && IdOf(meta, p) == 0
    ensures LinkOk(meta - {p}, refs, names)
  {
    SameIds(meta, meta - {p}, refs, names);
  }
}
