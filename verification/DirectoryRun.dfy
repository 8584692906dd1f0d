/** Whole runs of a directory: what is in the tree after any operations, and what each of them answers. */
module DirectoryRun {
  import opened Bytes
  import opened DirectoryPaths
  import opened HardLinks
  import opened Directory

  datatype Op =
    | Make(p: Path)
    | Write(p: Path, content: int)
    | Delete(p: Path)
    | DeleteDir(p: Path)
    | Link(p: Path, q: Path)
    | Secure(p: Path, d: bytes)
    | Stamp(p: Path, t: Times)
    | List(p: Path)

  datatype Reply = Did(ok: bool) | Names(list: seq<Path>)

  /** What there is in a directory: nothing is said of how it is kept. */
  datatype Tree = Tree(dirs: set<Path>, files: map<Path, File>, attributes: map<Path, int>, meta: Meta, order: nat)

  ghost function Entries(t: Tree): set<Path> { t.dirs + t.files.Keys }

  predicate Has(t: Tree, p: Path) { p in t.dirs || p in t.files }

  // ----- identities

  /** The smallest identity that no path carries. */
  ghost predicate Least(meta: Meta, id: nat) {
    0 < id < Top && (forall p :: p in meta ==> meta[p].id != id) && forall k :: 1 <= k < id ==> Carried(meta, k)
  }

  ghost predicate Carried(meta: Meta, id: nat) { exists p :: p in meta && meta[p].id == id }

  lemma LeastUnique(meta: Meta, a: nat, b: nat)
    requires Least(meta, a) && Least(meta, b)
    ensures a == b
  {
    if a < b { LeastCarried(meta, b, a); }
    if b < a { LeastCarried(meta, a, b); }
  }

  lemma LeastCarried(meta: Meta, id: nat, k: nat)
    requires Least(meta, id) && 1 <= k < id
    ensures Carried(meta, k)
  {
  }

  lemma LeastIsSmallest(meta: Meta, refs: Refs, names: HardLinks.Names, id: nat)
    requires LinkOk(meta, refs, names)
    ensures Least(meta, id) <==> Smallest(refs, id)
  {
    forall k | k != 0 ensures k in refs <==> Carried(meta, k) { CarriedIs(meta, refs, names, k); }
    forall p | p in meta && meta[p].id == id && id != 0 ensures Carried(meta, id) {}
  }

  lemma CarriedIs(meta: Meta, refs: Refs, names: HardLinks.Names, k: nat)
    requires LinkOk(meta, refs, names) && k != 0
    ensures k in refs <==> Carried(meta, k)
  {
    if k in refs {
      assert k in names && 0 < |names[k]|;
      assert Named(names, k, names[k][0]);
      assert IdOf(meta, names[k][0]) == k;
    }
    if Carried(meta, k) {
      var p :| p in meta && meta[p].id == k;
      assert IdOf(meta, p) == k;
      assert Named(names, k, p);
    }
  }

  /** The identity a path has or would be given. */
  ghost function Identity(meta: Meta, p: Path): Option<nat> {
    if IdOf(meta, p) != 0 then Some(IdOf(meta, p))
    else if exists id :: Least(meta, id) then
      var id :| Least(meta, id);
      Some(id)
    else None
  }

  // ----- what an operation does

  /** Metadata with one aspect given to a path and to all its aliases. */
  function Given(meta: Meta, p: Path, a: Aspect): Meta {
    map q | q in meta.Keys + {p} :: if q == p || (q in meta && meta[q].id == IdOf(meta, p) != 0) then Put(MetaOf(meta, q), a) else meta[q]
  }

  lemma GivenIs(was: Meta, now: Meta, p: Path, a: Aspect)
    requires Shared(was, now, p, a)
    ensures now == Given(was, p, a)
  {
    assert now.Keys == Given(was, p, a).Keys;
  }

  ghost function LinkedTo(t: Tree, p: Path, q: Path, id: nat): Tree
    requires p in t.files
  {
    var m := MetaOf(t.meta, p).(id := id);
    Tree(t.dirs + Prefixes(Dir(q)), t.files[q := File(t.files[p].content, t.order + 1)],
         if p in t.attributes then t.attributes[q := t.attributes[p]] else t.attributes - {q},
         Renamed(t.meta, m, p, q), t.order + 1)
  }

  ghost function Next(t: Tree, op: Op): Tree {
    match op
    case Make(p) => t.(dirs := t.dirs + Prefixes(p))
    case Write(p, content) => t.(dirs := t.dirs + Prefixes(Dir(p)), files := t.files[p := File(content, t.order + 1)], order := t.order + 1)
    case Delete(p) => if p in t.files then t.(files := t.files - {p}, meta := t.meta - {p}, attributes := t.attributes - {p}) else t
    case DeleteDir(p) => if Answer(t, op) == Did(true) then t.(dirs := t.dirs - {p}, meta := t.meta - {p},
        attributes := t.attributes - {p}) else t
    case Link(p, q) => if p in t.files && Identity(t.meta, p).Some? then LinkedTo(t, p, q, Identity(t.meta, p).value) else t
    case Secure(p, d) => if Answer(t, op) == Did(true) then t.(meta := Given(t.meta, p, Security(d))) else t
    case Stamp(p, times) => if Has(t, p) then t.(meta := Given(t.meta, p, Stamps(times))) else t
    case List(_) => t
  }

  /** What an operation answers; a listing is said by what it must be. */
  ghost function Answer(t: Tree, op: Op): Reply {
    match op
    case Make(_) => Did(true)
    case Write(_, _) => Did(true)
    case Delete(p) => Did(p in t.files)
    case DeleteDir(p) => Did(p != [] && p in t.dirs && p !in t.files && Barren(Entries(t), p))
    case Link(p, _) => Did(p in t.files && Identity(t.meta, p).Some?)
    case Secure(p, d) => Did(Has(t, p) && Directory.Descriptor(d))
    case Stamp(p, _) => Did(Has(t, p))
    case List(_) => Names([])
  }

  ghost predicate Answers(t: Tree, op: Op, r: Reply) {
    if op.List? then r.Names? && Listing(r.list, Entries(t), op.p) else r == Answer(t, op)
  }

  /** There is only one answer. */
  lemma OneAnswer(t: Tree, op: Op, a: Reply, b: Reply)
    requires Answers(t, op, a) && Answers(t, op, b)
    ensures a == b
  {
    if op.List? { ListingUnique(a.list, b.list); }
  }

  ghost function After(t: Tree, ops: seq<Op>): Tree {
    if ops == [] then t else Next(After(t, ops[..|ops| - 1]), ops[|ops| - 1])
  }

  lemma AfterStep(t: Tree, ops: seq<Op>, i: nat)
    requires i < |ops|
    ensures After(t, ops[..i + 1]) == Next(After(t, ops[..i]), ops[i])
  {
    hide Next;
    assert ops[..i + 1][..i] == ops[..i];
  }

  // ----- the directory in memory does this

  ghost function TreeOf(d: Directory): Tree
    reads d
  {
    Tree(d.dirs, d.files, d.attributes, d.metadata, d.nextWriteOrder)
  }

  lemma LinkedIsIdentity(was: Meta, refs: Refs, names: HardLinks.Names, now: Meta, p: Path, q: Path)
    requires LinkOk(was, refs, names) && Linked(was, refs, now, p, q)
    ensures Identity(was, p).Some? && now == Renamed(was, MetaOf(was, p).(id := Identity(was, p).value), p, q)
  {
    hide LinkOk, Least, Smallest, Renamed;
    var m: Metadata :| m == MetaOf(was, p).(id := m.id) && (if IdOf(was, p) != 0 then m.id == IdOf(was, p) else Smallest(refs, m.id))
        && now == Renamed(was, m, p, q);
    if IdOf(was, p) == 0 {
      LeastIsSmallest(was, refs, names, m.id);
      LeastUnique(was, m.id, Identity(was, p).value);
    }
  }

  lemma IdentityThere(was: Meta, refs: Refs, names: HardLinks.Names, p: Path)
    requires LinkOk(was, refs, names)
    ensures Identity(was, p).Some? <==> IdOf(was, p) != 0 || exists k :: Smallest(refs, k)
  {
    hide LinkOk, Least, Smallest;
    if k :| Smallest(refs, k) { LeastIsSmallest(was, refs, names, k); }
    if k :| Least(was, k) { LeastIsSmallest(was, refs, names, k); }
  }

  method ApplyLink(d: Directory, p: Path, q: Path) returns (r: Reply)
    requires d.Valid() && Agree(d.metadata)
    modifies d
    ensures d.Valid() && Agree(d.metadata) && TreeOf(d) == Next(old(TreeOf(d)), Link(p, q)) && Answers(old(TreeOf(d)), Link(p, q), r)
  {
    hide Agree, Rooted, Hint, IndexOk, Linked, Identity, LinkOk, Prefixes, Renamed;
    ghost var was, refs, names := d.metadata, d.refs, d.names;
    IdentityThere(was, refs, names, p);
    var ok := d.HardLink(p, q);
    if ok { LinkedIsIdentity(was, refs, names, d.metadata, p, q); }
    r := Did(ok);
  }

  method ApplyAspect(d: Directory, op: Op) returns (r: Reply)
    requires d.Valid() && Agree(d.metadata) && (op.Secure? || op.Stamp?)
    modifies d
    ensures d.Valid() && Agree(d.metadata) && TreeOf(d) == Next(old(TreeOf(d)), op) && Answers(old(TreeOf(d)), op, r)
  {
    hide Directory.Valid, Agree, Given, Shared;
    ghost var was := d.metadata;
    var ok;
    if op.Secure? {
      ok := d.SetSecurity(op.p, op.d);
      if ok { GivenIs(was, d.metadata, op.p, Security(op.d)); }
    } else {
      ok := d.SetTimes(op.p, op.t);
      if ok { GivenIs(was, d.metadata, op.p, Stamps(op.t)); }
    }
    r := Did(ok);
  }

  method Apply(d: Directory, op: Op) returns (r: Reply)
    requires d.Valid() && Agree(d.metadata)
    modifies d
    ensures d.Valid() && Agree(d.metadata) && TreeOf(d) == Next(old(TreeOf(d)), op) && Answers(old(TreeOf(d)), op, r)
  {
    hide Directory.Valid, Agree, Given, Shared, Identity, Listing, Barren, Prefixes;
    r := Did(true);
    match op
    case Make(p) => d.Mkdir(p);
    case Write(p, content) => d.PutFile(p, content);
    case Delete(p) => var ok := d.Remove(p); r := Did(ok);
    case DeleteDir(p) => var ok := d.RemoveEmptyDirectory(p); r := Did(ok);
    case Link(p, q) => r := ApplyLink(d, p, q);
    case Secure(_, _) => r := ApplyAspect(d, op);
    case Stamp(_, _) => r := ApplyAspect(d, op);
    case List(p) => var list := d.ListDir(p); r := Names(list);
  }

  /** Any operations on a directory leave in it what they say, answer what they must, and keep the tree, its index and the link tables
    * right. */
  method Run(d: Directory, ops: seq<Op>) returns (replies: seq<Reply>)
    requires d.Valid() && Agree(d.metadata)
    modifies d
    ensures d.Valid() && Agree(d.metadata) && TreeOf(d) == After(old(TreeOf(d)), ops)
    ensures |replies| == |ops| && forall i :: 0 <= i < |ops| ==> Answers(After(old(TreeOf(d)), ops[..i]), ops[i], replies[i])
  {
    hide Directory.Valid, Agree, Next, Answers, After;
    ghost var t := TreeOf(d);
    replies := [];
    NoneDone(t, ops);
    for i := 0 to |ops|
      invariant d.Valid() && Agree(d.metadata) && TreeOf(d) == After(t, ops[..i]) && |replies| == i
      invariant forall j :: 0 <= j < i ==> Answers(After(t, ops[..j]), ops[j], replies[j])
    {
      AfterStep(t, ops, i);
      var r := Apply(d, ops[i]);
      replies := replies + [r];
    }
    assert ops[..|ops|] == ops;
  }

  lemma NoneDone(t: Tree, ops: seq<Op>)
    ensures After(t, ops[..0]) == t
  {
  }

  // ----- what a link means

  /** Two paths of one file. */
  ghost predicate Aliases(t: Tree, p: Path, q: Path) {
    p in t.files && q in t.files && t.files[p].content == t.files[q].content && IdOf(t.meta, p) == IdOf(t.meta, q) != 0
  }

  lemma LinkMakesAliases(t: Tree, p: Path, q: Path)
    requires Answer(t, Link(p, q)) == Did(true)
    ensures Aliases(Next(t, Link(p, q)), p, q)
  {
    hide Least;
    assert Identity(t.meta, p).value != 0 by { IdentityNotZero(t.meta, p); }
  }

  lemma IdentityNotZero(meta: Meta, p: Path)
    requires Identity(meta, p).Some?
    ensures Identity(meta, p).value != 0
  {
  }

  /** The same aspect of a path and of its alias, with everything else as it was. */
  ghost predicate OnlyGiven(t: Tree, after: Tree, p: Path, q: Path, a: Aspect) {
    && Aliases(after, p, q) && p in after.meta && q in after.meta
    && after.meta[p] == Put(MetaOf(t.meta, p), a) && after.meta[q] == Put(MetaOf(t.meta, q), a)
    && (forall r :: r in t.meta && t.meta[r].id != IdOf(t.meta, p) ==> r in after.meta && after.meta[r] == t.meta[r])
    && after == t.(meta := after.meta)
  }

  /** Times and descriptors given to one path of a file are given to the other, and to no other file; what is no descriptor changes
    * nothing. */
  lemma GivenToBoth(t: Tree, p: Path, q: Path, times: Times, d: bytes)
    requires Aliases(t, p, q)
    ensures OnlyGiven(t, Next(t, Stamp(p, times)), p, q, Stamps(times))
    ensures if Directory.Descriptor(d) then OnlyGiven(t, Next(t, Secure(p, d)), p, q, Security(d)) else Next(t, Secure(p, d)) == t
  {
  }

  /** A file goes on under its other path when one of its paths is deleted. */
  lemma DeleteOnePath(t: Tree, p: Path, q: Path)
    requires Aliases(t, p, q) && p != q
    ensures var after := Next(t, Delete(p));
              p !in after.files && q in after.files && after.files[q] == t.files[q] && MetaOf(after.meta, q) == MetaOf(t.meta, q)
  {
  }

  /** Writing a path anew leaves its alias with the contents it had: the paths stay aliases exactly if nothing changes. */
  lemma WriteParts(t: Tree, p: Path, q: Path, content: int)
    requires Aliases(t, p, q) && p != q
    ensures Aliases(Next(t, Write(p, content)), p, q) <==> content == t.files[q].content
    ensures Next(t, Write(p, content)).files[q] == t.files[q]
  {
  }
}
