/** Clean paths, their order as strings, and sorted lists of the children of one directory. */
module DirectoryPaths {
  import opened StringOrder

  /** A clean absolute path, as its components; the root has none. */
  type Path = seq<string>

  function Dir(p: Path): Path { if p == [] then [] else p[..|p| - 1] }

  function Prefixes(p: Path): set<Path> { if p == [] then {[]} else Prefixes(Dir(p)) + {p} }

  // ----- cleaning

  function Slashed(s: string): string { if s == "" then "" else [if s[0] == '\\' then '/' else s[0]] + Slashed(s[1..]) }

  function SplitStep(c: char, rest: seq<string>): seq<string>
    requires rest != []
  {
    if c == '/' then [""] + rest else [[c] + rest[0]] + rest[1..]
  }

  function Split(s: string): (r: seq<string>)
    ensures r != []
  {
    if s == "" then [""] else SplitStep(s[0], Split(s[1..]))
  }

  /** Drops empty parts and dots, and lets two dots take back the part before. */
  function Reduce(parts: seq<string>): Path {
    if parts == [] then []
    else
      var before, last := Reduce(parts[..|parts| - 1]), parts[|parts| - 1];
      if last == "" || last == "." then before else if last == ".." then Dir(before) else before + [last]
  }

  function CleanPath(name: string): Path { Reduce(Split(Slashed(name))) }

  /** The path as it is written. */
  function Render(p: Path): string { if p == [] then "" else Render(Dir(p)) + "/" + p[|p| - 1] }

  predicate Part(s: string) { s != "" && s != "." && s != ".." && '/' !in s && '\\' !in s }

  predicate Proper(p: Path) { forall i :: 0 <= i < |p| ==> Part(p[i]) }

  lemma {:induction false} ReduceProper(parts: seq<string>)
    requires forall i :: 0 <= i < |parts| ==> '/' !in parts[i] && '\\' !in parts[i]
    ensures Proper(Reduce(parts))
  {
    if parts != [] { ReduceProper(parts[..|parts| - 1]); }
  }

  lemma {:induction false} SlashedNone(s: string)
    ensures '\\' !in Slashed(s)
  {
    if s != "" { SlashedNone(s[1..]); }
  }

  lemma {:induction false} SplitParts(s: string)
    requires '\\' !in s
    ensures forall i :: 0 <= i < |Split(s)| ==> '/' !in Split(s)[i] && '\\' !in Split(s)[i]
  {
    if s != "" { SplitParts(s[1..]); }
  }

  /** Whatever is given, the clean path has only proper parts. */
  lemma CleanProper(name: string)
    ensures Proper(CleanPath(name))
  {
    SlashedNone(name);
    SplitParts(Slashed(name));
    ReduceProper(Split(Slashed(name)));
  }

  lemma {:induction false} SplitPlain(s: string)
    requires '/' !in s
    ensures Split(s) == [s]
  {
    if s != "" {
      SplitPlain(s[1..]);
      assert s == [s[0]] + s[1..];
    }
  }

  lemma SplitFirst(s: string)
    requires s != ""
    ensures Split(s) == SplitStep(s[0], Split(s[1..]))
  {
  }

  lemma {:induction false} SplitJoin(s: string, t: string)
    requires '/' !in t
    ensures Split(s + "/" + t) == Split(s) + [t]
  {
    hide Split;
    var u := s + "/" + t;
    SplitFirst(u);
    if s == "" {
      assert u[1..] == t;
      SplitPlain(t);
      SplitPlain(s);
    } else {
      assert u[1..] == s[1..] + "/" + t;
      SplitJoin(s[1..], t);
      SplitFirst(s);
      SplitGrows(s[0], Split(s[1..]), t);
    }
  }

  lemma SplitGrows(c: char, rest: seq<string>, t: string)
    requires rest != []
    ensures SplitStep(c, rest + [t]) == SplitStep(c, rest) + [t]
  {
  }

  lemma {:induction false} SplitRender(p: Path)
    requires Proper(p)
    ensures Split(Render(p)) == [""] + p
  {
    if p != [] {
      SplitRender(Dir(p));
      SplitJoin(Render(Dir(p)), p[|p| - 1]);
      assert p == Dir(p) + [p[|p| - 1]];
    }
  }

  lemma {:induction false} ReduceSame(p: Path)
    requires Proper(p)
    ensures Reduce([""] + p) == p
  {
    var parts := [""] + p;
    if p == [] {
      assert Reduce(parts[..0]) == [];
    } else {
      ReduceSame(Dir(p));
      assert parts[..|parts| - 1] == [""] + Dir(p);
      assert p == Dir(p) + [p[|p| - 1]] && Part(p[|p| - 1]);
    }
  }

  lemma {:induction false} SlashedSame(s: string)
    requires '\\' !in s
    ensures Slashed(s) == s
  {
    if s != "" { SlashedSame(s[1..]); }
  }

  lemma {:induction false} RenderPlain(p: Path)
    requires Proper(p)
    ensures '\\' !in Render(p)
  {
    if p != [] {
      RenderPlain(Dir(p));
      assert Part(p[|p| - 1]);
    }
  }

  /** Cleaning a written clean path gives it back, so cleaning twice is cleaning once. */
  lemma CleanAgain(p: Path)
    requires Proper(p)
    ensures CleanPath(Render(p)) == p
  {
    RenderPlain(p);
    SlashedSame(Render(p));
    SplitRender(p);
    ReduceSame(p);
  }

  // ----- the order of strings

  predicate Below(a: Path, b: Path) { Less(Render(a), Render(b)) }

  lemma {:induction false} Cancel(r: string, a: string, b: string)
    requires r + a == r + b
    ensures a == b
  {
    assert (r + a)[|r|..] == a && (r + b)[|r|..] == b;
  }

  /** Two different children of one directory differ as strings. */
  lemma SiblingsCompare(a: Path, b: Path)
    requires a != [] && b != [] && Dir(a) == Dir(b) && a != b
    ensures Below(a, b) || Below(b, a)
  {
    var r := Render(Dir(a)) + "/";
    assert a == Dir(a) + [a[|a| - 1]] && b == Dir(b) + [b[|b| - 1]];
    if Render(a) == Render(b) { Cancel(r, a[|a| - 1], b[|b| - 1]); }
    LessTotal(Render(a), Render(b));
  }

  lemma BelowNot(a: Path)
    ensures !Below(a, a)
  {
    LessTotal(Render(a), Render(a));
  }

  lemma BelowTrans(a: Path, b: Path, c: Path)
    requires Below(a, b) && Below(b, c)
    ensures Below(a, c)
  {
    LessTrans(Render(a), Render(b), Render(c));
  }

  // ----- listings

  predicate Sorted(names: seq<Path>) { forall i, j :: 0 <= i < j < |names| ==> Below(names[i], names[j]) }

  predicate Siblings(names: seq<Path>, p: Path) { forall i :: 0 <= i < |names| ==> names[i] != [] && Dir(names[i]) == p }

  ghost predicate Child(q: Path, entries: set<Path>, p: Path) { q in entries && q != [] && Dir(q) == p }

  /** The sorted list of what lies directly in a directory. */
  ghost predicate Listing(names: seq<Path>, entries: set<Path>, p: Path) { Sorted(names)
                          && forall q :: q in names <==> Child(q, entries, p) }

  /** There is only one such list. */
  lemma {:induction false} ListingUnique(a: seq<Path>, b: seq<Path>)
    requires Sorted(a) && Sorted(b) && forall q :: q in a <==> q in b
    ensures a == b
  {
    hide Sorted, Below;
    if b != [] { assert b[0] in b; }
    if a != [] {
      assert a[0] in a;
      var n, m := |a| - 1, |b| - 1;
      LastIn(a, b);
      forall q ensures q in a[..n] <==> q in b[..m] { WithoutLast(a, q); WithoutLast(b, q); }
      SortedFront(a);
      SortedFront(b);
      ListingUnique(a[..n], b[..m]);
      assert a == a[..n] + [a[n]] && b == b[..m] + [b[m]];
    }
  }

  lemma SortedFront(a: seq<Path>)
    requires Sorted(a) && a != []
    ensures Sorted(a[..|a| - 1])
  {
  }

  lemma LastIn(a: seq<Path>, b: seq<Path>)
    requires Sorted(a) && Sorted(b) && a != [] && b != [] && forall q :: q in a <==> q in b
    ensures a[|a| - 1] == b[|b| - 1]
  {
    hide Sorted, Below;
    assert a[|a| - 1] in b && b[|b| - 1] in a;
    var k :| 0 <= k < |b| && b[k] == a[|a| - 1];
    var l :| 0 <= l < |a| && a[l] == b[|b| - 1];
    LastSame(a, b, k, l);
  }

  lemma LastSame(a: seq<Path>, b: seq<Path>, k: nat, l: nat)
    requires Sorted(a) && Sorted(b) && k < |b| && l < |a| && b[k] == a[|a| - 1] && a[l] == b[|b| - 1]
    ensures a[|a| - 1] == b[|b| - 1]
  {
    var n, m := |a| - 1, |b| - 1;
    if k < m && l < n {
      BelowTrans(a[l], a[n], b[m]);
      BelowNot(b[m]);
    }
  }

  lemma WithoutLast(a: seq<Path>, q: Path)
    requires Sorted(a) && a != []
    ensures q in a[..|a| - 1] <==> q in a && q != a[|a| - 1]
  {
    var n := |a| - 1;
    assert a == a[..n] + [a[n]];
    if q in a[..n] { BelowNot(q); }
  }

  /** The place of a name: everything before it is smaller, nothing behind it is. */
  method SearchNames(names: seq<Path>, name: Path) returns (i: nat)
    requires Sorted(names)
    ensures i <= |names| && (forall k :: 0 <= k < i ==> Below(names[k], name)) && forall k :: i <= k < |names| ==> !Below(names[k], name)
  {
    var low, high := 0, |names|;
    while low < high
      invariant 0 <= low <= high <= |names| && (forall k :: 0 <= k < low ==> Below(names[k], name))
                && forall k :: high <= k < |names| ==> !Below(names[k], name)
    {
      hide Below;
      var middle := (low + high) / 2;
      if Below(names[middle], name) {
        forall k | low <= k < middle ensures Below(names[k], name) { BelowTrans(names[k], names[middle], name); }
        low := middle + 1;
      } else {
        forall k | middle < k < high ensures !Below(names[k],
            name) { if Below(names[k], name) { BelowTrans(names[middle], names[k], name); } }
        high := middle;
      }
    }
    i := low;
  }

  ghost predicate Changed(r: seq<Path>, names: seq<Path>, name: Path, present: bool) {
    Sorted(r) && forall q :: q in r <==> if q == name then present else q in names
  }

  /** Puts a name into a sorted list, or takes it out. */
  method UpdateNames(names: seq<Path>, name: Path, present: bool) returns (r: seq<Path>)
    requires Sorted(names) && name != [] && Siblings(names, Dir(name))
    ensures Changed(r, names, name, present) && Siblings(r, Dir(name))
  {
    hide Below, Changed;
    var i := SearchNames(names, name);
    var exists' := i < |names| && names[i] == name;
    if present && !exists' {
      r := names[..i] + [name] + names[i..];
      PutIn(names, name, i);
    } else if !present && exists' {
      r := names[..i] + names[i + 1..];
      TakeOut(names, i);
    } else {
      r := names;
      LeftAlone(names, name, i, present);
    }
  }

  /** A name not at its place is greater than all before and smaller than all behind it. */
  lemma Beyond(names: seq<Path>, name: Path, i: nat)
    requires Sorted(names) && name != [] && Siblings(names, Dir(name)) && i <= |names| && !(i < |names| && names[i] == name)
    requires forall k :: i <= k < |names| ==> !Below(names[k], name)
    ensures forall k :: i <= k < |names| ==> Below(name, names[k])
  {
    hide Below;
    if i < |names| {
      SiblingsCompare(names[i], name);
      forall k | i < k < |names| ensures Below(name, names[k]) { BelowTrans(name, names[i], names[k]); }
    }
  }

  lemma PutIn(names: seq<Path>, name: Path, i: nat)
    requires Sorted(names) && name != [] && Siblings(names, Dir(name)) && i <= |names| && !(i < |names| && names[i] == name)
    requires (forall k :: 0 <= k < i ==> Below(names[k], name)) && forall k :: i <= k < |names| ==> !Below(names[k], name)
    ensures var r := names[..i] + [name] + names[i..]; Changed(r, names, name, true) && Siblings(r, Dir(name))
  {
    hide Below, Sorted;
    var r := names[..i] + [name] + names[i..];
    PutSorted(names, name, i);
    assert names == names[..i] + names[i..];
    assert forall q :: q in names <==> q in names[..i] || q in names[i..];
    forall k | 0 <= k < |r| ensures r[k] != [] && Dir(r[k]) == Dir(name) {
      assert r[k] == if k < i then names[k] else if k == i then name else names[k - 1];
    }
  }

  lemma PutSorted(names: seq<Path>, name: Path, i: nat)
    requires Sorted(names) && name != [] && Siblings(names, Dir(name)) && i <= |names| && !(i < |names| && names[i] == name)
    requires (forall k :: 0 <= k < i ==> Below(names[k], name)) && forall k :: i <= k < |names| ==> !Below(names[k], name)
    ensures Sorted(names[..i] + [name] + names[i..])
  {
    hide Below, Siblings;
    var r := names[..i] + [name] + names[i..];
    Beyond(names, name, i);
    forall a, b | 0 <= a < b < |r| ensures Below(r[a], r[b]) {
      assert r[a] == if a < i then names[a] else if a == i then name else names[a - 1];
      assert r[b] == if b < i then names[b] else if b == i then name else names[b - 1];
    }
  }

  lemma TakeOut(names: seq<Path>, i: nat)
    requires Sorted(names) && i < |names| && names[i] != [] && Siblings(names, Dir(names[i]))
    ensures var r := names[..i] + names[i + 1..]; Changed(r, names, names[i], false) && Siblings(r, Dir(names[i]))
  {
    hide Below;
    var r := names[..i] + names[i + 1..];
    assert forall k :: 0 <= k < |r| ==> r[k] == if k < i then names[k] else names[k + 1];
    forall q ensures q in r <==> if q == names[i] then false else q in names {
      if q in names && q != names[i] {
        var k :| 0 <= k < |names| && names[k] == q;
        assert if k < i then r[k] == q else r[k - 1] == q;
      }
      if q in r { BelowNot(names[i]); }
    }
  }

  lemma LeftAlone(names: seq<Path>, name: Path, i: nat, present: bool)
    requires Sorted(names) && name != [] && Siblings(names, Dir(name)) && i <= |names| && present == (i < |names| && names[i] == name)
    requires (forall k :: 0 <= k < i ==> Below(names[k], name)) && forall k :: i <= k < |names| ==> !Below(names[k], name)
    ensures Changed(names, names, name, present)
  {
    hide Below;
    if !present && name in names {
      var k :| 0 <= k < |names| && names[k] == name;
      BelowNot(name);
      Beyond(names, name, i);
      assert false;
    }
  }

  /** Sorts the children of one directory. */
  method SortNames(names: seq<Path>, p: Path) returns (r: seq<Path>)
    requires Siblings(names, p)
    ensures Sorted(r) && Siblings(r, p) && forall q :: q in r <==> q in names
  {
    hide Below, Sorted;
    r := [];
    SortedNone();
    var i := 0;
    while i < |names|
      invariant 0 <= i <= |names| && Sorted(r) && Siblings(r, p) && forall q :: q in r <==> q in names[..i]
    {
      assert names[..i + 1] == names[..i] + [names[i]];
      r := UpdateNames(r, names[i], true);
      i := i + 1;
    }
    assert names[..i] == names;
  }

  lemma SortedNone()
    ensures Sorted([])
  {
  }
}
