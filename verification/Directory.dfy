/** A directory tree in memory: files, directories, a children index kept up to date, and hard links. */
module Directory {
  import opened Bytes
  import opened DirectoryPaths
  import opened HardLinks

  datatype File = File(content: int, order: nat)

  type Index = map<Path, seq<Path>>

  function Lookup(children: Index, p: Path): seq<Path> { if p in children then children[p] else [] }

  /** For every directory the sorted list of what lies directly in it. */
  ghost predicate IndexOk(children: Index, entries: set<Path>) { forall p :: Listing(Lookup(children, p), entries, p) }

  /** A rebuild cannot give other lists. */
  lemma IndexUnique(a: Index, b: Index, entries: set<Path>, p: Path)
    requires IndexOk(a, entries) && IndexOk(b, entries)
    ensures Lookup(a, p) == Lookup(b, p)
  {
    assert Listing(Lookup(a, p), entries, p) && Listing(Lookup(b, p), entries, p);
    ListingUnique(Lookup(a, p), Lookup(b, p));
  }

  /** The directory of every entry is there. */
  ghost predicate Rooted(dirs: set<Path>, entries: set<Path>) { [] in dirs && forall q :: q in entries ==> Dir(q) in dirs }

  // ----- building the index

  /** Lists not yet sorted. */
  ghost predicate Gathered(children: Index, entries: set<Path>) { forall p, q :: q in Lookup(children, p) <==> Child(q, entries, p) }

  method Gather(given: Index, ghost have: set<Path>, todo: set<Path>) returns (children: Index)
    requires Gathered(given, have)
    ensures Gathered(children, have + todo)
  {
    hide Gathered;
    children := given;
    var left := todo;
    assert have + (todo - left) == have;
    while left != {}
      invariant left <= todo && Gathered(children, have + (todo - left))
    {
      var q :| q in left;
      GatherOne(children, have + (todo - left), q);
      if q != [] { children := children[Dir(q) := Lookup(children, Dir(q)) + [q]]; }
      assert have + (todo - (left - {q})) == have + (todo - left) + {q};
      left := left - {q};
    }
    assert todo - left == todo;
  }

  lemma GatherOne(children: Index, have: set<Path>, q: Path)
    requires Gathered(children, have)
    ensures Gathered(if q == [] then children else children[Dir(q) := Lookup(children, Dir(q)) + [q]], have + {q})
  {
    var now := if q == [] then children else children[Dir(q) := Lookup(children, Dir(q)) + [q]];
    forall p, r ensures r in Lookup(now, p) <==> Child(r, have + {q}, p) { assert r in Lookup(children, p) <==> Child(r, have, p); }
  }

  lemma GatheredSiblings(children: Index, entries: set<Path>, p: Path)
    requires Gathered(children, entries)
    ensures Siblings(Lookup(children, p), p)
  {
    forall i | 0 <= i < |Lookup(children, p)| ensures Lookup(children, p)[i] != [] && Dir(Lookup(children, p)[i]) == p {
      assert Child(Lookup(children, p)[i], entries, p);
    }
  }

  ghost predicate SortedBut(children: Index, left: set<Path>) { forall p :: p !in left ==> Sorted(Lookup(children, p)) }

  lemma SortOne(children: Index, entries: set<Path>, left: set<Path>, p: Path, names: seq<Path>)
    requires Gathered(children, entries) && SortedBut(children, left) && p in left && Sorted(names)
             && forall q :: q in names <==> q in Lookup(children, p)
    ensures Gathered(children[p := names], entries) && SortedBut(children[p := names], left - {p})
  {
    var now := children[p := names];
    forall r, q ensures q in Lookup(now, r) <==> Child(q, entries, r) { assert q in Lookup(children, r) <==> Child(q, entries, r); }
  }

  /** Builds the index anew: gathers what lies in each directory and sorts each list. */
  method Rebuild(dirs: set<Path>, files: set<Path>) returns (children: Index)
    ensures IndexOk(children, dirs + files)
  {
    hide Gathered, SortedBut;
    Empty();
    children := Gather(map[], {}, dirs);
    children := Gather(children, {} + dirs, files - dirs);
    assert {} + dirs + (files - dirs) == dirs + files;
    var left := children.Keys;
    Unlisted(children);
    while left != {}
      invariant Gathered(children, dirs + files) && SortedBut(children, left) && left <= children.Keys
    {
      var p :| p in left;
      GatheredSiblings(children, dirs + files, p);
      var names := SortNames(children[p], p);
      SortOne(children, dirs + files, left, p, names);
      children := children[p := names];
      left := left - {p};
    }
    AllSorted(children, dirs + files);
  }

  lemma Empty()
    ensures Gathered(map[], {})
  {
  }

  lemma Unlisted(children: Index)
    ensures SortedBut(children, children.Keys)
  {
  }

  lemma AllSorted(children: Index, entries: set<Path>)
    requires Gathered(children, entries) && SortedBut(children, {})
    ensures IndexOk(children, entries)
  {
    forall p ensures Listing(Lookup(children, p), entries, p) {
      forall q ensures q in Lookup(children, p) <==> Child(q, entries, p) {}
    }
  }

  // ----- one change of the index

  ghost function Toggle(entries: set<Path>, name: Path, present: bool): set<Path> { if present then entries + {name} else entries - {name} }

  lemma ListedSiblings(children: Index, entries: set<Path>, p: Path)
    requires IndexOk(children, entries)
    ensures Sorted(Lookup(children, p)) && Siblings(Lookup(children, p), p)
  {
    var names := Lookup(children, p);
    assert Listing(names, entries, p);
    forall i | 0 <= i < |names| ensures names[i] != [] && Dir(names[i]) == p { assert names[i] in names; }
  }

  lemma IndexStep(children: Index, entries: set<Path>, name: Path, present: bool, r: seq<Path>)
    requires IndexOk(children, entries) && name != [] && Changed(r, Lookup(children, Dir(name)), name, present)
    ensures IndexOk(children[Dir(name) := r], Toggle(entries, name, present))
  {
    hide Sorted;
    var now, after := children[Dir(name) := r], Toggle(entries, name, present);
    forall p ensures Listing(Lookup(now, p), after, p) {
      assert Listing(Lookup(children, p), entries, p);
      forall q ensures q in Lookup(now, p) <==> Child(q, after, p) { assert q in Lookup(children, p) <==> Child(q, entries, p); }
    }
  }

  /** The root is in no list. */
  lemma IndexRoot(children: Index, entries: set<Path>, present: bool)
    requires IndexOk(children, entries)
    ensures IndexOk(children, Toggle(entries, [], present))
  {
    hide Sorted;
    var after := Toggle(entries, [], present);
    forall p ensures Listing(Lookup(children, p), after, p) {
      assert Listing(Lookup(children, p), entries, p);
      forall q ensures q in Lookup(children, p) <==> Child(q, after, p) { assert Child(q, after, p) <==> Child(q, entries, p); }
    }
  }

  /** An empty list may as well be missing. */
  lemma IndexDelete(children: Index, entries: set<Path>, p: Path)
    requires IndexOk(children, entries) && Lookup(children, p) == []
    ensures IndexOk(children - {p}, entries)
  {
    forall q ensures Lookup(children - {p}, q) == Lookup(children, q) {}
  }

  lemma EntriesLess(dirs: set<Path>, files: map<Path, File>, name: Path)
    requires name in files
    ensures dirs + (files - {name}).Keys == Toggle(dirs + files.Keys, name, name in dirs)
            && dirs + (files - {name}).Keys <= dirs + files.Keys
  {
  }

  lemma {:induction false} RootPrefix(p: Path)
    ensures [] in Prefixes(p) && p in Prefixes(p)
  {
    if p != [] { RootPrefix(Dir(p)); }
  }

  class Directory {
    var dirs: set<Path>
    var files: map<Path, File>
    var attributes: map<Path, int>
    var metadata: Meta
    var refs: Refs
    var names: Names
    var nextHardLink: nat
    var nextWriteOrder: nat
    var revision: nat
    var children: Option<Index>
    var childrenRevision: nat

    ghost function Entries(): set<Path>
      reads this`dirs, this`files
    {
      dirs + files.Keys
    }

    /** The index, once built, is current and right for a set of entries. */
    ghost predicate Lists(entries: set<Path>)
      reads this`children, this`childrenRevision, this`revision
    {
      children.Some? ==> childrenRevision == revision && IndexOk(children.value, entries)
    }

    ghost predicate Links()
      reads this`metadata, this`refs, this`names, this`nextHardLink
    {
      LinkOk(metadata, refs, names) && Hint(refs, nextHardLink)
    }

    ghost predicate Valid()
      reads this
    {
      Rooted(dirs, Entries()) && Lists(Entries()) && Links()
    }

    constructor ()
      ensures Valid() && Agree(metadata) && dirs == {[]} && files == map[] && metadata == map[]
    {
      dirs, files, attributes, metadata, refs, names := {[]}, map[], map[], map[], map[], map[];
      nextHardLink, nextWriteOrder, revision, children, childrenRevision := 0, 0, 0, None, 0;
    }

    method EnsureChildren()
      requires Valid()
      modifies this`children, this`childrenRevision
      ensures Valid() && children.Some?
    {
      hide Rooted, LinkOk, Hint, IndexOk;
      if children.None? || childrenRevision != revision {
        var built := Rebuild(dirs, files.Keys);
        children, childrenRevision := Some(built), revision;
      }
    }

    /** Whatever happened before, the answer is the sorted list of what lies directly in a directory. */
    method ListDir(p: Path) returns (r: seq<Path>)
      requires Valid()
      modifies this`children, this`childrenRevision
      ensures Valid() && Listing(r, Entries(), p)
    {
      hide Rooted, LinkOk, Hint, Listing;
      EnsureChildren();
      r := Lookup(children.value, p);
    }

    method InvalidateNamespace()
      modifies this`revision
      ensures revision == (old(revision) + 1) % Top
    {
      revision := (revision + 1) % Top;
    }

    method NamespaceEntryChanged(name: Path, present: bool, ghost entries: set<Path>)
      requires Lists(entries)
      modifies this`children, this`childrenRevision, this`revision
      ensures Lists(Toggle(entries, name, present))
    {
      hide IndexOk, Sorted, Changed;
      var current := children.Some? && childrenRevision == revision;
      if current {
        if name != [] {
          var parent := Dir(name);
          ListedSiblings(children.value, entries, parent);
          var list := UpdateNames(Lookup(children.value, parent), name, present);
          IndexStep(children.value, entries, name, present, list);
          children := Some(children.value[parent := list]);
        } else {
          IndexRoot(children.value, entries, present);
        }
      }
      InvalidateNamespace();
      if current { childrenRevision := revision; }
    }

    /** Adds one directory, if it is missing. */
    method MakeOne(p: Path)
      requires Lists(Entries())
      modifies this`dirs, this`children, this`childrenRevision, this`revision
      ensures Lists(Entries()) && dirs == old(dirs) + {p}
    {
      hide IndexOk;
      if p !in dirs {
        ghost var was := Entries();
        dirs := dirs + {p};
        assert Entries() == Toggle(was, p, true);
        NamespaceEntryChanged(p, true, was);
      }
    }

    /** Creates a directory and any missing parents. */
    method Mkdir(name: Path)
      requires Valid()
      modifies this`dirs, this`children, this`childrenRevision, this`revision
      ensures Valid() && dirs == old(dirs) + Prefixes(name)
    {
      hide IndexOk, LinkOk, Hint, Prefixes, Rooted, RootedBut;
      var cleaned := name;
      RootedFrom(dirs, Entries(), cleaned);
      while true
        invariant Lists(Entries()) && Links() && RootedBut(dirs, Entries(), cleaned)
        invariant dirs + Prefixes(cleaned) == old(dirs) + Prefixes(name)
        decreases |cleaned|
      {
        RootedStep(dirs, Entries(), cleaned);
        PrefixStep(dirs, cleaned);
        ghost var was := Entries();
        MakeOne(cleaned);
        assert Entries() == was + {cleaned};
        if cleaned == [] {
          break;
        }
        cleaned := Dir(cleaned);
      }
    }

    /** Stores a file under a path and tells the index of a new one. */
    method StoreFile(name: Path, content: int)
      requires Lists(Entries())
      modifies this`files, this`nextWriteOrder, this`children, this`childrenRevision, this`revision
      ensures Lists(Entries()) && Entries() == old(Entries()) + {name}
      ensures nextWriteOrder == old(nextWriteOrder) + 1 && files == old(files)[name := File(content, nextWriteOrder)]
    {
      hide IndexOk;
      nextWriteOrder := nextWriteOrder + 1;
      ghost var was := Entries();
      if name !in files { NamespaceEntryChanged(name, true, was); }
      files := files[name := File(content, nextWriteOrder)];
      assert Entries() == was + {name};
      assert name in old(files) ==> was == was + {name};
    }

    /** Adds or replaces a file and creates its parent directories. */
    method PutFile(name: Path, content: int)
      requires Valid()
      modifies this`files, this`nextWriteOrder, this`dirs, this`children, this`childrenRevision, this`revision
      ensures Valid() && dirs == old(dirs) + Prefixes(Dir(name)) && nextWriteOrder == old(nextWriteOrder) + 1
      ensures files == old(files)[name := File(content, nextWriteOrder)]
    {
      hide Lists, LinkOk, Hint, Prefixes, Rooted, Entries;
      Mkdir(Dir(name));
      RootPrefix(Dir(name));
      RootedWith(dirs, Entries(), name);
      StoreFile(name, content);
    }

    // ----- metadata

    static method DropAlias(names: Names, id: nat, p: Path) returns (left: Names)
      requires id in names
      ensures left == Without(names, id, p)
    {
      var aliases, i := names[id], 0;
      while i < |aliases| && aliases[i] != p
        invariant 0 <= i <= |aliases| && FindAlias(aliases, p) == i + FindAlias(aliases[i..], p)
      {
        i := i + 1;
      }
      if i < |aliases| { aliases := aliases[..i] + aliases[i + 1..]; }
      left := if aliases == [] then names - {id} else names[id := aliases];
    }

    method SetMetadata(name: Path, m: Metadata)
      requires Links() && m.id < Top
      modifies this`metadata, this`refs, this`names, this`nextHardLink
      ensures Links() && metadata == old(metadata)[name := m]
      ensures refs == RefsAfter(old(refs), IdOf(old(metadata), name), m.id)
      ensures m.id == IdOf(old(metadata), name) ==> names == old(names) && nextHardLink == old(nextHardLink)
    {
      hide LinkOk, Hint, Without, With, Fewer, More;
      var was := IdOf(metadata, name);
      KnownId(metadata, refs, names, name);
      Rebind(metadata, refs, names, name, m);
      HintAfter(refs, nextHardLink, was, m.id);
      if was != m.id {
        if was != 0 { names := DropAlias(names, was, name); }
        if m.id != 0 { names := With(names, m.id, name); }
        if was != 0 {
          refs := Fewer(refs, was);
          if was !in refs && was < nextHardLink { nextHardLink := was; }
        }
        if m.id != 0 { refs := More(refs, m.id); }
      }
      metadata := metadata[name := m];
    }

    method ShareAliases(aliases: seq<Path>, id: nat, name: Path, a: Aspect, ghost was: Meta)
      requires (forall p :: p in aliases ==> p in was && was[p].id == id) && Partly(was, metadata, name, a, [])
      modifies this`metadata
      ensures Partly(was, metadata, name, a, aliases)
    {
      hide Partly;
      var i := 0;
      while i < |aliases|
        invariant 0 <= i <= |aliases| && Partly(was, metadata, name, a, aliases[..i])
      {
        var alias := aliases[i];
        assert alias in aliases;
        PartlyStep(was, metadata, name, a, aliases, i);
        var other := MetaOf(metadata, alias);
        if other.id == id { metadata := metadata[alias := Put(other, a)]; }
        i := i + 1;
      }
      assert aliases[..i] == aliases;
    }

    /** Gives one aspect to a path, and to every alias of the same file. */
    method Share(name: Path, a: Aspect)
      requires Links()
      modifies this`metadata, this`refs, this`names, this`nextHardLink
      ensures Links() && Shared(old(metadata), metadata, name, a)
      ensures refs == old(refs) && names == old(names) && nextHardLink == old(nextHardLink)
    {
      hide LinkOk, Hint;
      ghost var was := metadata;
      KnownId(metadata, refs, names, name);
      var m := Put(MetaOf(metadata, name), a);
      SetMetadata(name, m);
      if m.id != 0 && refs[m.id] > 1 {
        AliasesKnown(was, refs, names, m.id);
        ShareAliases(names[m.id], m.id, name, a, was);
        PartlyAll(was, metadata, refs, names, name, a);
      } else {
        OnlyAlias(was, refs, names, name);
      }
      SharedIds(was, metadata, name, a);
      SameIds(was, metadata, refs, names);
    }

    function Exists(name: Path): bool
      reads this
    {
      name in dirs || name in files
    }

    static predicate Descriptor(d: bytes) { 20 <= |d| && d[0] == 1 && U16(d, 2) / 0x8000 % 2 == 1 }

    method SetSecurity(name: Path, descriptor: bytes) returns (ok: bool)
      requires Valid()
      modifies this`metadata, this`refs, this`names, this`nextHardLink
      ensures Valid() && (ok <==> Exists(name) && Descriptor(descriptor)) && refs == old(refs)
      ensures if ok then Shared(old(metadata), metadata, name, Security(descriptor)) else metadata == old(metadata)
      ensures old(Agree(metadata)) ==> Agree(metadata)
    {
      hide LinkOk, Hint, IndexOk, Rooted, Agree;
      ok := Exists(name) && Descriptor(descriptor);
      if ok {
        Share(name, Security(descriptor));
        if old(Agree(metadata)) { SharedAgrees(old(metadata), metadata, name, Security(descriptor)); }
      }
    }

    method SetTimes(name: Path, times: Times) returns (ok: bool)
      requires Valid()
      modifies this`metadata, this`refs, this`names, this`nextHardLink
      ensures Valid() && (ok <==> Exists(name)) && refs == old(refs)
      ensures if ok then Shared(old(metadata), metadata, name, Stamps(times)) else metadata == old(metadata)
      ensures old(Agree(metadata)) ==> Agree(metadata)
    {
      hide LinkOk, Hint, IndexOk, Rooted, Agree;
      ok := Exists(name);
      if ok {
        Share(name, Stamps(times));
        if old(Agree(metadata)) { SharedAgrees(old(metadata), metadata, name, Stamps(times)); }
      }
    }

    /** What a path has to say of the file it names, with the identity it has or is given. */
    method Identify(source: Path) returns (m: Option<Metadata>)
      requires Links()
      modifies this`metadata, this`refs, this`names, this`nextHardLink
      ensures Links()
      ensures m.Some? ==> m.value == MetaOf(old(metadata), source).(id := m.value.id) && 0 < m.value.id < Top
      ensures m.Some? ==> metadata == old(metadata)[source := m.value]
      ensures m.Some? ==> if IdOf(old(metadata), source) != 0 then m.value.id == IdOf(old(metadata), source) else Smallest(old(refs),
              m.value.id)
      ensures m.None? ==>
                metadata == old(metadata) && refs == old(refs) && names == old(names) && IdOf(metadata, source) == 0
                && forall k :: 1 <= k < Top ==> k in refs
      ensures m.Some? && old(Agree(metadata)) ==> Agree(metadata)
    {
      hide LinkOk, Agree;
      var found := MetaOf(metadata, source);
      if found.id == 0 {
        if nextHardLink == 0 { nextHardLink := 1; }
        found := found.(id := 0);
        var id := FreshIdentity(refs, nextHardLink);
        if id == 0 {
          return None;
        }
        found := found.(id := id);
        nextHardLink := id;
        FreshAgrees(metadata, refs, names, source, found);
        SetMetadata(source, found);
      } else {
        KnownId(metadata, refs, names, source);
        assert metadata == metadata[source := found];
      }
      m := Some(found);
    }

    method HardLink(source: Path, destination: Path) returns (ok: bool)
      requires Valid()
      modifies this
      ensures Valid() && (old(Agree(metadata)) ==> Agree(metadata))
      ensures ok <==> source in old(files) && (IdOf(old(metadata), source) != 0 || exists k :: Smallest(old(refs), k))
      ensures !ok ==>
                dirs == old(dirs) && files == old(files) && metadata == old(metadata) && refs == old(refs) && attributes == old(attributes)
                && nextWriteOrder == old(nextWriteOrder)
      ensures ok ==> dirs == old(dirs) + Prefixes(Dir(destination)) && source in files && destination in files
      ensures ok ==>
                files == old(files)[destination := File(old(files)[source].content, nextWriteOrder)]
                && nextWriteOrder == old(nextWriteOrder) + 1
      ensures ok ==> Linked(old(metadata), old(refs), metadata, source, destination)
      ensures ok ==>
                attributes == if source in old(attributes) then old(attributes)[destination := old(attributes)[source]]
                              else old(attributes) - {destination}
    {
      hide LinkOk, Agree, Hint, Rooted, IndexOk, Smallest, Linked, Prefixes;
      if source !in files {
        return false;
      }
      var content := files[source].content;
      var found := Identify(source);
      if found.None? {
        NoneSmallest(refs);
        return false;
      }
      ghost var mid := metadata;
      PutFile(destination, content);
      var m := found.value.(shortName := MetaOf(metadata, destination).shortName);
      if Agree(mid) { CopyAgrees(mid, source, destination, m); }
      SetMetadata(destination, m);
      LinkedIs(old(metadata), old(refs), found.value, source, destination);
      attributes := if source in attributes then attributes[destination := attributes[source]] else attributes - {destination};
      ok := true;
    }

    /** Takes the metadata of a path away. */
    method ForgetMetadata(name: Path)
      requires Links()
      modifies this`metadata, this`refs, this`names, this`nextHardLink
      ensures Links() && metadata == old(metadata) - {name}
      ensures old(Agree(metadata)) ==> Agree(metadata)
    {
      hide LinkOk, Agree, Hint;
      ghost var was := metadata;
      SetMetadata(name, Blank);
      DropLinks(metadata, refs, names, name);
      if Agree(was) { DropAgrees(was, name); }
      assert metadata - {name} == was - {name};
      metadata := metadata - {name};
    }

    method Remove(name: Path) returns (ok: bool)
      requires Valid()
      modifies this
      ensures Valid() && (ok <==> name in old(files)) && dirs == old(dirs) && nextWriteOrder == old(nextWriteOrder)
      ensures ok ==> files == old(files) - {name} && metadata == old(metadata) - {name} && attributes == old(attributes) - {name}
      ensures !ok ==> files == old(files) && metadata == old(metadata) && attributes == old(attributes)
      ensures old(Agree(metadata)) ==> Agree(metadata)
    {
      hide Links, Lists, Agree, Rooted, Entries;
      if name !in files {
        return false;
      }
      DropFile(name);
      ForgetMetadata(name);
      attributes := attributes - {name};
      ok := true;
    }

    /** Takes a file out of the tree and its index. */
    method DropFile(name: Path)
      requires Valid() && name in files
      modifies this`files, this`children, this`childrenRevision, this`revision
      ensures Valid() && files == old(files) - {name}
    {
      hide Links, Lists, Rooted, Toggle;
      ghost var was := Entries();
      EntriesLess(dirs, files, name);
      RootedLess(dirs, was, dirs + (files - {name}).Keys);
      files := files - {name};
      NamespaceEntryChanged(name, name in dirs, was);
    }

    /** Takes a directory out of the tree and its index. */
    method DropDirectory(name: Path)
      requires Valid() && children.Some? && name != [] && name in dirs && name !in files && Barren(Entries(), name)
               && Lookup(children.value, name) == []
      modifies this`dirs, this`children, this`childrenRevision, this`revision
      ensures Valid() && dirs == old(dirs) - {name}
    {
      hide LinkOk, Hint, Rooted, IndexOk, Barren;
      ghost var was := Entries();
      RemoveListed(name, was);
      dirs := dirs - {name};
      assert Entries() == was - {name} && dirs + {name} == old(dirs);
      RootedWithout(dirs, was, name);
      InvalidateNamespace();
      childrenRevision := revision;
    }

    /** Removes one directory if nothing lies in it. */
    method RemoveEmptyDirectory(name: Path) returns (ok: bool)
      requires Valid()
      modifies this
      ensures Valid() && files == old(files) && nextWriteOrder == old(nextWriteOrder)
      ensures ok <==> name != [] && name in old(dirs) && name !in files && Barren(old(Entries()), name)
      ensures ok ==> dirs == old(dirs) - {name} && metadata == old(metadata) - {name} && attributes == old(attributes) - {name}
      ensures !ok ==> dirs == old(dirs) && metadata == old(metadata) && attributes == old(attributes)
      ensures old(Agree(metadata)) ==> Agree(metadata)
    {
      hide LinkOk, Agree, Hint, Rooted, IndexOk, Barren;
      if name == [] || name !in dirs {
        return false;
      }
      EnsureChildren();
      NothingIn(children.value, Entries(), name);
      if name in files || |Lookup(children.value, name)| != 0 {
        return false;
      }
      DropDirectory(name);
      ForgetMetadata(name);
      attributes := attributes - {name};
      ok := true;
    }

    /** Takes a directory out of its parent's list and drops its own empty list. */
    method RemoveListed(name: Path, ghost entries: set<Path>)
      requires children.Some? && IndexOk(children.value, entries) && name != [] && name in entries && Lookup(children.value, name) == []
      modifies this`children
      ensures children.Some? && IndexOk(children.value, entries - {name})
    {
      hide IndexOk, Sorted, Changed;
      var parent := Dir(name);
      var list := Lookup(children.value, parent);
      var i := FindAlias(list, name);
      ListedSiblings(children.value, entries, parent);
      IsListed(children.value, entries, name);
      TakeOut(list, i);
      IndexStep(children.value, entries, name, false, Cut(list, i));
      assert entries - {name} == Toggle(entries, name, false);
      var now := children.value[parent := Cut(list, i)];
      IndexDelete(now, entries - {name}, name);
      children := Some(now - {name});
    }
  }

  /** The metadata after a link: one identity, the source's if it had one, else the smallest unused. */
  ghost predicate Linked(was: Meta, refs: Refs, now: Meta, source: Path, destination: Path) {
    exists m: Metadata {:trigger Renamed(was, m, source, destination)} ::
      && m == MetaOf(was, source).(id := m.id)
      && (if IdOf(was, source) != 0 then m.id == IdOf(was, source) else Smallest(refs, m.id))
      && now == Renamed(was, m, source, destination)
  }

  function Renamed(was: Meta, m: Metadata, source: Path, destination: Path): Meta {
    was[source := m][destination := m.(shortName := MetaOf(was[source := m], destination).shortName)]
  }

  lemma LinkedIs(was: Meta, refs: Refs, m: Metadata, source: Path, destination: Path)
    requires m == MetaOf(was, source).(id := m.id) && if IdOf(was, source) != 0 then m.id == IdOf(was, source) else Smallest(refs, m.id)
    ensures Linked(was, refs, Renamed(was, m, source, destination), source, destination)
  {
  }

  /** Afterwards both paths carry one identity, and no third path changed. */
  lemma LinkedMeans(was: Meta, refs: Refs, now: Meta, source: Path, destination: Path)
    requires Linked(was, refs, now, source, destination)
    ensures IdOf(now, source) == IdOf(now, destination) != 0
    ensures MetaOf(now, destination) == MetaOf(now, source).(shortName := MetaOf(was, destination).shortName)
    ensures forall q :: q != source && q != destination ==> MetaOf(now, q) == MetaOf(was, q)
  {
  }

  lemma NoneSmallest(refs: Refs)
    requires forall k :: 1 <= k < Top ==> k in refs
    ensures !exists k :: Smallest(refs, k)
  {
  }

  lemma KnownId(meta: Meta, refs: Refs, names: Names, p: Path)
    requires LinkOk(meta, refs, names)
    ensures 0 !in refs && IdOf(meta, p) < Top
    ensures IdOf(meta, p) != 0 ==> p in meta && IdOf(meta, p) in refs && IdOf(meta, p) in names && 0 < refs[IdOf(meta, p)]
  {
    if IdOf(meta, p) != 0 { assert Named(names, IdOf(meta, p), p); }
  }

  /** An identity nobody carries makes no new agreement necessary. */
  lemma FreshAgrees(meta: Meta, refs: Refs, names: Names, p: Path, m: Metadata)
    requires LinkOk(meta, refs, names) && Smallest(refs, m.id)
    ensures Agree(meta) ==> Agree(meta[p := m])
  {
    forall q | q in meta ensures meta[q].id != m.id { KnownId(meta, refs, names, q); assert IdOf(meta, q) == meta[q].id; }
    if Agree(meta) { AloneAgrees(meta, p, m); }
  }

  lemma AliasesKnown(meta: Meta, refs: Refs, names: Names, id: nat)
    requires LinkOk(meta, refs, names) && id in names
    ensures id != 0 && forall p :: p in names[id] ==> p in meta && meta[p].id == id
  {
    forall p | p in names[id] ensures p in meta && meta[p].id == id { assert Named(names, id, p); }
  }

  /** Metadata in which some aliases have been given an aspect. */
  ghost predicate Partly(was: Meta, now: Meta, p: Path, a: Aspect, done: seq<Path>) {
    && now.Keys == was.Keys + {p}
    && forall q :: q in now ==> now[q] == if q == p || q in done then Put(MetaOf(was, q), a) else MetaOf(was, q)
  }

  lemma PartlyStep(was: Meta, now: Meta, p: Path, a: Aspect, aliases: seq<Path>, i: nat)
    requires i < |aliases| && aliases[i] in was && Partly(was, now, p, a, aliases[..i])
    ensures MetaOf(now, aliases[i]).id == was[aliases[i]].id
    ensures Partly(was, now[aliases[i] := Put(MetaOf(now, aliases[i]), a)], p, a, aliases[..i + 1])
  {
    assert aliases[..i + 1] == aliases[..i] + [aliases[i]];
  }

  lemma PartlyAll(was: Meta, now: Meta, refs: Refs, names: Names, p: Path, a: Aspect)
    requires LinkOk(was, refs, names) && IdOf(was, p) in names && Partly(was, now, p, a, names[IdOf(was, p)])
    ensures Shared(was, now, p, a)
  {
    var id := IdOf(was, p);
    AliasesKnown(was, refs, names, id);
    forall q | q in was && q != p ensures now[q] == if was[q].id == id != 0 then Put(was[q], a) else was[q] {
      assert IdOf(was, q) == was[q].id;
      if was[q].id == id { assert Named(names, id, q); }
    }
  }

  /** A file with one name shares nothing. */
  lemma OnlyAlias(was: Meta, refs: Refs, names: Names, p: Path)
    requires LinkOk(was, refs, names) && (IdOf(was, p) == 0 || (IdOf(was, p) in refs && refs[IdOf(was, p)] <= 1))
    ensures forall q :: q in was && q != p ==> was[q].id != IdOf(was, p) || was[q].id == 0
  {
    var id := IdOf(was, p);
    if id != 0 {
      assert Named(names, id, p);
      assert names[id] == [p];
      forall q | q in was ensures was[q].id == id ==> q == p { assert IdOf(was, q) == id ==> Named(names, id, q); }
    }
  }

  lemma RootedWith(dirs: set<Path>, entries: set<Path>, name: Path)
    requires Rooted(dirs, entries) && Dir(name) in dirs
    ensures Rooted(dirs, entries + {name})
  {
  }

  lemma RootedLess(dirs: set<Path>, entries: set<Path>, fewer: set<Path>)
    requires Rooted(dirs, entries) && fewer <= entries
    ensures Rooted(dirs, fewer)
  {
  }

  lemma RootedWithout(dirs: set<Path>, entries: set<Path>, name: Path)
    requires Rooted(dirs + {name}, entries) && name != [] && name !in dirs && Barren(entries, name)
    ensures Rooted(dirs, entries - {name})
  {
  }

  /** Nothing lies in a directory. */
  ghost predicate Barren(entries: set<Path>, p: Path) { forall q :: q in entries && q != [] ==> Dir(q) != p }

  lemma NothingIn(children: Index, entries: set<Path>, p: Path)
    requires IndexOk(children, entries)
    ensures Lookup(children, p) == [] <==> Barren(entries, p)
  {
    var names := Lookup(children, p);
    assert Listing(names, entries, p);
    if names != [] { assert names[0] in names; assert Child(names[0], entries, p); }
    forall q | q in entries && q != [] && Dir(q) == p ensures names != [] { assert Child(q, entries, p); }
  }

  lemma IsListed(children: Index, entries: set<Path>, name: Path)
    requires IndexOk(children, entries) && name in entries && name != []
    ensures name in Lookup(children, Dir(name))
  {
    assert Listing(Lookup(children, Dir(name)), entries, Dir(name));
    assert Child(name, entries, Dir(name));
  }

  /** Every entry has its directory, but for one directory that may be missing. */
  ghost predicate RootedBut(dirs: set<Path>, entries: set<Path>, missing: Path) {
    [] in dirs && forall q :: q in entries ==> Dir(q) in dirs || Dir(q) == missing
  }

  lemma RootedFrom(dirs: set<Path>, entries: set<Path>, missing: Path)
    requires Rooted(dirs, entries)
    ensures RootedBut(dirs, entries, missing)
  {
  }

  lemma RootedStep(dirs: set<Path>, entries: set<Path>, missing: Path)
    requires RootedBut(dirs, entries, missing)
    ensures RootedBut(dirs + {missing}, entries + {missing}, Dir(missing))
    ensures missing == [] ==> Rooted(dirs + {missing}, entries + {missing})
  {
  }

  lemma PrefixStep(dirs: set<Path>, p: Path)
    ensures dirs + {p} + Prefixes(Dir(p)) == dirs + Prefixes(p)
    ensures p == [] ==> dirs + {p} == dirs + Prefixes(p)
  {
  }
}
