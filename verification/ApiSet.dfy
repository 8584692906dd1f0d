/** The API set namespace (schema version 6): contracts, their hosts and the hash index. */
module ApiSet {
  import opened Bytes

  datatype Value = Value(flags: nat, importer: bytes, host: bytes)
  datatype Entry = Entry(flags: nat, hashedLength: nat, name: bytes, values: seq<Value>)
  datatype Namespace = Namespace(flags: nat, factor: nat, entries: seq<Entry>)
  datatype Parsed<T> = Good(value: T) | Bad

  const DOT: byte := 46
  const DASH: byte := 45
  const DLL: bytes := [46, 100, 108, 108]
  const API: bytes := [97, 112, 105, 45]
  const EXT: bytes := [101, 120, 116, 45]

  // ----- names

  function Lower(b: byte): byte { if 65 <= b <= 90 then b + 32 else b }

  function LowerName(n: bytes): (r: bytes)
    ensures |r| == |n|
  {
    seq(|n|, i requires 0 <= i < |n| => Lower(n[i]))
  }

  predicate NameChar(c: nat) { 97 <= c <= 122 || 65 <= c <= 90 || 48 <= c <= 57 || c == 45 || c == 95 || c == 46 }

  function Canonical(name: bytes): bytes {
    var n := LowerName(name);
    if DOT in n then n else n + DLL
  }

  /** The 16-bit text of a range, in lower case; anything but plain name characters is refused. */
  function Decode(data: bytes, offset: nat, n: nat): Parsed<bytes>
    requires offset + 2 * n <= |data|
  {
    if n == 0 then Good([])
    else match Decode(data, offset, n - 1)
      case Bad => Bad
      case Good(front) =>
        var c := U16(data, offset + 2 * n - 2);
        if NameChar(c) then Good(front + [Lower(c as byte)]) else Bad
  }

  lemma {:induction false} DecodeStops(data: bytes, offset: nat, i: nat, n: nat)
    requires offset + 2 * n <= |data| && i <= n && Decode(data, offset, i).Bad?
    ensures Decode(data, offset, n).Bad?
    decreases n
  {
    hide LE;
    if i < n { DecodeStops(data, offset, i, n - 1); }
  }

  method ReadText(data: bytes, offset: nat, length: nat) returns (r: Parsed<bytes>)
    requires offset + length <= |data| && length % 2 == 0
    ensures r == Decode(data, offset, length / 2)
  {
    hide LE, U16;
    var out: bytes, i, ok := [], 0, true;
    while i < length / 2 && ok
      invariant 0 <= i <= length / 2 && Decode(data, offset, i) == (if ok then Good(out) else Bad)
    {
      var c := U16(data, offset + 2 * i);
      if NameChar(c) { out := out + [Lower(c as byte)]; } else { ok := false; }
      i := i + 1;
    }
    r := if ok then Good(out) else Bad;
    if !ok { DecodeStops(data, offset, i, length / 2); }
  }

  // ----- the hash index

  /** The hash of a name, in 32-bit arithmetic. */
  function Hash(factor: nat, name: bytes): nat {
    if name == [] then 0 else (Hash(factor, name[..|name| - 1]) * factor + name[|name| - 1] as nat) % 0x1_0000_0000
  }

  function Prefix(e: Entry): bytes { if e.hashedLength / 2 <= |e.name| then e.name[..e.hashedLength / 2] else e.name }

  /** A table of hashes and entry numbers, as it is stored. */
  type Table = seq<(nat, nat)>

  /** Hashes rise strictly, every number is there once, and each hash is that of its entry. */
  ghost predicate Indexed(ns: Namespace, table: Table) {
    && |table| == |ns.entries|
    && (forall i :: 0 <= i < |table| ==> table[i].1 < |ns.entries| && table[i].0 == Hash(ns.factor, Prefix(ns.entries[table[i].1])))
    && (forall i, j :: 0 <= i < j < |table| ==> table[i].0 < table[j].0 && table[i].1 != table[j].1)
  }

  /** A list of distinct numbers below its length lists them all. */
  lemma {:induction false} ListsAll(s: seq<nat>, k: nat)
    requires (forall i :: 0 <= i < |s| ==> s[i] < |s|) && (forall i, j :: 0 <= i < j < |s| ==> s[i] != s[j]) && k < |s|
    ensures k in s
  {
    Injective(s, |s|);
    SameSize(All(s, |s|), Numbers(|s|));
    assert k in Numbers(|s|);
  }

  ghost function All(s: seq<nat>, n: nat): set<nat>
    requires n <= |s|
  {
    set i | 0 <= i < n :: s[i]
  }

  ghost function Numbers(n: nat): (s: set<nat>)
    ensures (forall i: nat :: i in s <==> i < n) && |s| == n
  {
    if n == 0 then {} else Numbers(n - 1) + {n - 1}
  }

  lemma {:induction false} Injective(s: seq<nat>, n: nat)
    requires n <= |s| && forall i, j :: 0 <= i < j < |s| ==> s[i] != s[j]
    ensures |All(s, n)| == n
  {
    if n > 0 {
      Injective(s, n - 1);
      assert All(s, n) == All(s, n - 1) + {s[n - 1]};
    }
  }

  lemma {:induction false} SameSize(a: set<nat>, b: set<nat>)
    requires a <= b && |a| == |b|
    ensures a == b
  {
    if a != {} {
      var x :| x in a;
      SameSize(a - {x}, b - {x});
      assert a == (a - {x}) + {x} && b == (b - {x}) + {x};
    } else {
      assert b == {};
    }
  }

  /** Every entry has its place in the index: the index is one-to-one onto the entries. */
  lemma EveryEntryIndexed(ns: Namespace, table: Table, k: nat) returns (i: nat)
    requires Indexed(ns, table) && k < |ns.entries|
    ensures i < |table| && table[i].1 == k && forall j :: 0 <= j < |table| && table[j].1 == k ==> j == i
  {
    hide Hash, Prefix;
    var s := seq(|table|, i requires 0 <= i < |table| => table[i].1);
    ListsAll(s, k);
    i :| 0 <= i < |s| && s[i] == k;
  }

  /** No two entries have one hashed prefix. */
  lemma PrefixesDiffer(ns: Namespace, table: Table, a: nat, b: nat)
    requires Indexed(ns, table) && a < |ns.entries| && b < |ns.entries| && Prefix(ns.entries[a]) == Prefix(ns.entries[b])
    ensures a == b
  {
    hide Hash, Prefix;
    var i := EveryEntryIndexed(ns, table, a);
    var j := EveryEntryIndexed(ns, table, b);
    assert table[i].0 == table[j].0;
  }

  // ----- resolving a contract

  /** Everything before the first dot. */
  function Stem(n: bytes): (s: bytes)
    ensures s <= n
  {
    if n == [] || n[0] == DOT then [] else [n[0]] + Stem(n[1..])
  }

  function LastDash(s: bytes): int {
    if s == [] then -1 else if s[|s| - 1] == DASH then |s| - 1 else LastDash(s[..|s| - 1])
  }

  lemma LastDashBound(s: bytes)
    ensures -1 <= LastDash(s) < |s|
  {
  }

  predicate Matches(e: Entry, stem: bytes, length: nat)
    requires length <= |stem|
  {
    e.hashedLength == 2 * length && length <= |e.name| && e.name[..length] == stem[..length]
  }

  /** The host of an entry for an importer; an empty host is none. */
  function HostOf(e: Entry, importer: bytes): Parsed<bytes> {
    if e.values == [] then Bad
    else
      var host := HostFrom(e.values[1..], importer, e.values[0].host);
      if host == [] then Bad else Good(host)
  }

  function HostFrom(vs: seq<Value>, importer: bytes, fallback: bytes): bytes {
    if vs == [] || importer == [] then fallback
    else if vs[0].importer == importer then vs[0].host
    else HostFrom(vs[1..], importer, fallback)
  }

  function FirstMatch(es: seq<Entry>, stem: bytes, length: nat, importer: bytes): Parsed<bytes>
    requires length <= |stem|
  {
    if es == [] then Bad
    else if Matches(es[0], stem, length) then HostOf(es[0], importer)
    else FirstMatch(es[1..], stem, length, importer)
  }

  function Importer(importer: bytes): bytes { if importer == [] then [] else Canonical(importer) }

  function Resolution(es: seq<Entry>, contract: bytes, importer: bytes): Parsed<bytes> {
    var stem := Stem(Canonical(contract));
    var length := LastDash(stem);
    if length < 4 then Bad else LastDashBound(stem); FirstMatch(es, stem, length, Importer(importer))
  }

  method Resolve(ns: Namespace, contract: bytes, importer: bytes) returns (r: Parsed<bytes>)
    ensures r == Resolution(ns.entries, contract, importer)
  {
    hide Matches, HostOf;
    var stem := Stem(Canonical(contract));
    var length := LastDash(stem);
    LastDashBound(stem);
    if length < 4 {
      return Bad;
    }
    var who := Importer(importer);
    var i := 0;
    assert ns.entries[0..] == ns.entries;
    while i < |ns.entries|
      invariant 0 <= i <= |ns.entries| && FirstMatch(ns.entries, stem, length, who) == FirstMatch(ns.entries[i..], stem, length, who)
    {
      assert ns.entries[i..][1..] == ns.entries[i + 1..];
      if Matches(ns.entries[i], stem, length) {
        r := FindHost(ns.entries[i], who);
        return;
      }
      i := i + 1;
    }
    r := Bad;
  }

  method FindHost(e: Entry, importer: bytes) returns (r: Parsed<bytes>)
    ensures r == HostOf(e, importer)
  {
    if e.values == [] {
      return Bad;
    }
    var i := 1;
    ghost var rest := e.values[1..];
    while i < |e.values|
      invariant 1 <= i <= |e.values| && HostFrom(rest, importer, e.values[0].host) == HostFrom(e.values[i..], importer, e.values[0].host)
    {
      assert e.values[i..][1..] == e.values[i + 1..];
      if importer != [] && e.values[i].importer == importer {
        return if e.values[i].host == [] then Bad else Good(e.values[i].host);
      }
      i := i + 1;
    }
    r := if e.values[0].host == [] then Bad else Good(e.values[0].host);
  }

  /** At most one entry matches a contract. */
  lemma OneMatch(ns: Namespace, table: Table, stem: bytes, length: nat, a: nat, b: nat)
    requires Indexed(ns, table) && length <= |stem| && a < |ns.entries| && b < |ns.entries|
    requires Matches(ns.entries[a], stem, length) && Matches(ns.entries[b], stem, length)
    ensures a == b
  {
    hide Hash;
    PrefixesDiffer(ns, table, a, b);
  }

  lemma {:induction false} MatchIs(es: seq<Entry>, stem: bytes, length: nat, importer: bytes, e: Entry)
    requires length <= |stem| && e in es && Matches(e, stem, length) && forall d :: d in es && Matches(d, stem, length) ==> d == e
    ensures FirstMatch(es, stem, length, importer) == HostOf(e, importer)
  {
    hide Matches, HostOf;
    if !Matches(es[0], stem, length) {
      assert es == [es[0]] + es[1..];
      MatchIs(es[1..], stem, length, importer, e);
    }
  }

  lemma {:induction false} NoMatch(es: seq<Entry>, stem: bytes, length: nat, importer: bytes)
    requires length <= |stem| && forall d :: d in es ==> !Matches(d, stem, length)
    ensures FirstMatch(es, stem, length, importer) == Bad
  {
    hide Matches, HostOf;
    if es != [] {
      assert es[0] in es;
      NoMatch(es[1..], stem, length, importer);
    }
  }

  /** In a namespace with a sound index the answer does not depend on the order of the entries. */
  lemma AnyOrder(ns: Namespace, table: Table, other: seq<Entry>, contract: bytes, importer: bytes)
    requires Indexed(ns, table) && multiset(other) == multiset(ns.entries)
    ensures Resolution(other, contract, importer) == Resolution(ns.entries, contract, importer)
  {
    hide Matches, HostOf, Indexed, FirstMatch;
    var es, stem, who := ns.entries, Stem(Canonical(contract)), Importer(importer);
    var length := LastDash(stem);
    if length >= 4 {
      LastDashBound(stem);
      forall e ensures e in other <==> e in es { assert e in other <==> e in multiset(other); assert e in es <==> e in multiset(es); }
      if e :| e in es && Matches(e, stem, length) {
        forall d | d in es && Matches(d, stem, length) ensures d == e {
          var a :| 0 <= a < |es| && es[a] == d;
          var b :| 0 <= b < |es| && es[b] == e;
          OneMatch(ns, table, stem, length, a, b);
        }
        MatchIs(es, stem, length, who, e);
        MatchIs(other, stem, length, who, e);
      } else {
        NoMatch(es, stem, length, who);
        NoMatch(other, stem, length, who);
      }
    }
  }

  // ----- parsing

  type Cache = map<(nat, nat), bytes>

  predicate Bounded(data: bytes, offset: nat, length: nat) { offset + length <= |data| && length % 2 == 0 }

  ghost predicate CacheOk(data: bytes, cache: Cache) {
    forall k :: k in cache ==> Bounded(data, k.0, k.1) && Decode(data, k.0, k.1 / 2) == Good(cache[k])
  }

  ghost predicate Reads(data: bytes, offset: nat, length: nat, text: bytes) {
    Bounded(data, offset, length) && Decode(data, offset, length / 2) == Good(text)
  }

  /** A range of the data: its offset and its length. */
  type Range = (nat, nat)

  /** The text that reading some ranges decodes: each range is decoded once. */
  function Charge(asked: seq<Range>): nat {
    if asked == [] then 0
    else
      var n := |asked| - 1;
      Charge(asked[..n]) + if asked[n] in asked[..n] then 0 else asked[n].1
  }

  lemma ChargeOne(asked: seq<Range>, r: Range)
    ensures Charge(asked + [r]) == Charge(asked) + if r in asked then 0 else r.1
  {
    assert (asked + [r])[..|asked|] == asked;
  }

  /** Reading more decodes no less. */
  lemma {:induction false} ChargeMore(asked: seq<Range>, more: seq<Range>)
    ensures Charge(asked) <= Charge(asked + more)
    decreases |more|
  {
    hide Charge;
    if more == [] {
      assert asked + more == asked;
    } else {
      var n := |more| - 1;
      ChargeMore(asked, more[..n]);
      ChargeOne(asked + more[..n], more[n]);
      assert asked + more == asked + more[..n] + [more[n]];
    }
  }

  /** The ranges read so far are cached, and what they cost is taken from the budget. */
  ghost predicate Ledger(data: bytes, cache: Cache, left: nat, asked: seq<Range>) {
    CacheOk(data, cache) && (forall r :: r in cache <==> r in asked) && left + Charge(asked) == 8 * |data|
  }

  /** Reads a name, decoding each range once and no more text in all than the budget allows. */
  method Text(data: bytes, offset: nat, length: nat, given: Cache, budget: nat, ghost asked: seq<Range>)
    returns (r: Parsed<bytes>, cache: Cache, left: nat)
    requires Ledger(data, given, budget, asked)
    ensures r.Good? ==> Reads(data, offset, length, r.value) && Ledger(data, cache, left, asked + [(offset, length)])
    ensures r.Good? <==>
              Bounded(data, offset, length) && Decode(data, offset, length / 2).Good? && Charge(asked + [(offset, length)]) <= 8 * |data|
  {
    hide Decode;
    r, cache, left := Bad, given, budget;
    ChargeOne(asked, (offset, length));
    if Bounded(data, offset, length) {
      if (offset, length) in cache {
        r := Good(cache[(offset, length)]);
      } else if length <= budget {
        left := budget - length;
        r := ReadText(data, offset, length);
        if r.Good? { cache := cache[(offset, length) := r.value]; }
      }
    }
  }

  /** A value record: flags, importer and host. */
  ghost predicate ValueRead(data: bytes, at: nat, v: Value) {
    && at + 20 <= |data| && v.flags == U32(data, at) && Reads(data, U32(data, at + 4), U32(data, at + 8), v.importer)
    && exists host :: Reads(data, U32(data, at + 12), U32(data, at + 16), host) && v.host == HostName(host)
  }

  /** A host is a module name; none stays none. */
  function HostName(host: bytes): bytes { if host == [] then [] else Canonical(host) }

  predicate ImportersDiffer(vs: seq<Value>) { forall i, j :: 0 <= i < j < |vs| ==> vs[i].importer != vs[j].importer }

  ghost predicate EntryRead(data: bytes, at: nat, e: Entry) {
    && at + 24 <= |data| && e.flags == U32(data, at) && e.hashedLength == U32(data, at + 12) && e.hashedLength % 2 == 0
        && e.hashedLength / 2 <= |e.name|
    && 0 < U32(data, at + 8) && e.hashedLength <= U32(data, at + 8)
    && (exists name :: Reads(data, U32(data, at + 4), U32(data, at + 8), name) && e.name == Canonical(name) && (API <= name || EXT <= name))
    && U32(data, at + 16) + 20 * U32(data, at + 20) <= |data| && ValuesRead(data, U32(data, at + 16), U32(data, at + 20), e.values)
  }

  /** The ranges an entry asks for. */
  function EntryAsks(data: bytes, at: nat): seq<Range>
    requires at + 24 <= |data|
  {
    [(U32(data, at + 4), U32(data, at + 8))] +
    if U32(data, at + 16) + 20 * U32(data, at + 20) <= |data| then ValuesAsk(data, U32(data, at + 16), U32(data, at + 20)) else []
  }

  /** The ranges a value asks for. */
  function ValueAsks(data: bytes, at: nat): seq<Range>
    requires at + 20 <= |data|
  {
    [(U32(data, at + 4), U32(data, at + 8)), (U32(data, at + 12), U32(data, at + 16))]
  }

  /** Parses a value: it is read exactly if it is there and the budget has room for its text. */
  method ParseValue(data: bytes, at: nat, given: Cache, budget: nat, ghost asked: seq<Range>, ghost hope: Value)
    returns (r: Parsed<Value>, cache: Cache, left: nat)
    requires Ledger(data, given, budget, asked) && at + 20 <= |data|
    ensures r.Good? ==> ValueRead(data, at, r.value) && Ledger(data, cache, left, asked + ValueAsks(data, at))
    ensures ValueRead(data, at, hope) && Charge(asked + ValueAsks(data, at)) <= 8 * |data| ==> r == Good(hope)
  {
    hide LE, U32, Reads, Canonical, Ledger, Charge;
    var importer, host;
    r := Bad;
    ghost var first, second := (U32(data, at + 4), U32(data, at + 8)), (U32(data, at + 12), U32(data, at + 16));
    assert asked + ValueAsks(data, at) == asked + [first] + [second];
    ChargeMore(asked + [first], [second]);
    if ValueRead(data, at, hope) { ValueParts(data, at, hope); }
    importer, cache, left := Text(data, U32(data, at + 4), U32(data, at + 8), given, budget, asked);
    if importer.Good? {
      host, cache, left := Text(data, U32(data, at + 12), U32(data, at + 16), cache, left, asked + [first]);
      if host.Good? {
        ValueIs(data, at, importer.value, host.value);
        if ValueRead(data, at, hope) { OneValue(data, at, importer.value, host.value, hope); }
        r := Good(Value(U32(data, at), importer.value, HostName(host.value)));
      }
    }
  }

  lemma ValueParts(data: bytes, at: nat, v: Value)
    requires ValueRead(data, at, v)
    ensures Bounded(data, U32(data, at + 4), U32(data, at + 8)) && Decode(data, U32(data, at + 4), U32(data, at + 8) / 2).Good?
    ensures Bounded(data, U32(data, at + 12), U32(data, at + 16)) && Decode(data, U32(data, at + 12), U32(data, at + 16) / 2).Good?
  {
    hide LE, U32, Decode, HostName;
  }

  /** What a value says is determined by its bytes. */
  lemma OneValue(data: bytes, at: nat, importer: bytes, host: bytes, v: Value)
    requires ValueRead(data, at, v) && Reads(data, U32(data, at + 4), U32(data, at + 8), importer)
             && Reads(data, U32(data, at + 12), U32(data, at + 16), host)
    ensures v == Value(U32(data, at), importer, HostName(host))
  {
    hide LE, U32, Decode, HostName;
  }

  lemma ValueIs(data: bytes, at: nat, importer: bytes, host: bytes)
    requires at + 20 <= |data| && Reads(data, U32(data, at + 4), U32(data, at + 8), importer)
             && Reads(data, U32(data, at + 12), U32(data, at + 16), host)
    ensures ValueRead(data, at, Value(U32(data, at), importer, HostName(host)))
  {
    hide LE, U32, Reads, HostName;
    var v := Value(U32(data, at), importer, HostName(host));
    assert Reads(data, U32(data, at + 12), U32(data, at + 16), host) && v.host == HostName(host);
  }

  /** The ranges some values ask for. */
  function ValuesAsk(data: bytes, offset: nat, count: nat): seq<Range>
    requires offset + 20 * count <= |data|
  {
    if count == 0 then [] else ValuesAsk(data, offset, count - 1) + ValueAsks(data, offset + 20 * (count - 1))
  }

  ghost predicate ValuesRead(data: bytes, offset: nat, count: nat, vs: seq<Value>) {
    |vs| == count && ImportersDiffer(vs) && forall i :: 0 <= i < count ==> ValueRead(data, offset + 20 * i, vs[i])
  }

  function Importers(vs: seq<Value>): set<bytes> { set v | v in vs :: v.importer }

  lemma NoImporters()
    ensures Importers([]) == {} && ImportersDiffer([])
  {
  }

  lemma ImportersMore(vs: seq<Value>, x: Value)
    ensures Importers(vs + [x]) == Importers(vs) + {x.importer}
    ensures ImportersDiffer(vs) && x.importer !in Importers(vs) ==> ImportersDiffer(vs + [x])
  {
    assert forall i :: 0 <= i < |vs| ==> vs[i] in vs && vs[i].importer in Importers(vs);
    forall y | y in Importers(vs) + {x.importer} ensures y in Importers(vs + [x]) {
      if y in Importers(vs) {
        var v :| v in vs && v.importer == y;
        assert v in vs + [x];
      } else {
        assert x in vs + [x];
      }
    }
  }

  lemma ImporterNew(vs: seq<Value>, i: nat)
    requires ImportersDiffer(vs) && i < |vs|
    ensures vs[i].importer !in Importers(vs[..i])
  {
    forall v | v in vs[..i] ensures v.importer != vs[i].importer { var k :| 0 <= k < i && vs[..i][k] == v; }
  }

  lemma {:induction false} ValuesFront(data: bytes, offset: nat, i: nat, count: nat, asked: seq<Range>)
    requires i <= count && offset + 20 * count <= |data|
    ensures Charge(asked + ValuesAsk(data, offset, i)) <= Charge(asked + ValuesAsk(data, offset, count))
    decreases count - i
  {
    hide ValueAsks, Charge;
    if i < count {
      ValuesStep(data, offset, i, asked);
      ChargeMore(asked + ValuesAsk(data, offset, i), ValueAsks(data, offset + 20 * i));
      ValuesFront(data, offset, i + 1, count, asked);
    }
  }

  lemma ValuesStep(data: bytes, offset: nat, i: nat, asked: seq<Range>)
    requires offset + 20 * (i + 1) <= |data|
    ensures asked + ValuesAsk(data, offset, i + 1) == asked + ValuesAsk(data, offset, i) + ValueAsks(data, offset + 20 * i)
  {
    hide ValueAsks;
  }

  /** Parses the values of an entry: they are read exactly if they are there and the budget has room for their text. */
  method ParseValues(data: bytes, offset: nat, count: nat, given: Cache, budget: nat, ghost asked: seq<Range>, ghost hope: seq<Value>)
    returns (r: Parsed<seq<Value>>, cache: Cache, left: nat)
    requires Ledger(data, given, budget, asked) && offset + 20 * count <= |data|
    ensures r.Good? ==> ValuesRead(data, offset, count, r.value) && Ledger(data, cache, left, asked + ValuesAsk(data, offset, count))
    ensures ValuesRead(data, offset, count, hope) && Charge(asked + ValuesAsk(data, offset, count)) <= 8 * |data| ==> r == Good(hope)
  {
    hide Ledger, ValueRead, ValueAsks, ValuesAsk, Charge, Importers, ImportersDiffer;
    NoImporters();
    ghost var fine := ValuesRead(data, offset, count, hope) && Charge(asked + ValuesAsk(data, offset, count)) <= 8 * |data|;
    var vs: seq<Value>, importers: set<bytes>, i, ok := [], {}, 0, true;
    cache, left := given, budget;
    assert asked + ValuesAsk(data, offset, 0) == asked by { NoValues(data, offset); }
    while i < count && ok
      invariant 0 <= i <= count
      invariant ok ==>
                  |vs| == i && ImportersDiffer(vs) && (forall k :: 0 <= k < i ==> ValueRead(data, offset + 20 * k, vs[k]))
                  && importers == Importers(vs) && Ledger(data, cache, left, asked + ValuesAsk(data, offset, i))
      invariant fine ==> ok && vs == hope[..i]
    {
      var v;
      ghost var want := if fine then hope[i] else Value(0, [], []);
      ValuesFront(data, offset, i + 1, count, asked);
      ValuesStep(data, offset, i, asked);
      if fine { ImporterNew(hope, i); }
      v, cache, left := ParseValue(data, offset + 20 * i, cache, left, asked + ValuesAsk(data, offset, i), want);
      match v {
        case Bad => ok := false;
        case Good(x) =>
          if x.importer in importers {
            ok := false;
          } else {
            ImportersMore(vs, x);
            importers, vs := importers + {x.importer}, vs + [x];
          }
      }
      i := i + 1;
    }
    if fine { assert hope[..count] == hope; }
    r := if ok then Good(vs) else Bad;
  }

  lemma NoValues(data: bytes, offset: nat)
    requires offset <= |data|
    ensures ValuesAsk(data, offset, 0) == []
  {
  }

  /** Parses an entry: it is read exactly if it is there and there is room for its text and its values. */
  method ParseEntry(data: bytes, at: nat, room: nat, given: Cache, budget: nat, ghost asked: seq<Range>, ghost hope: Entry)
    returns (r: Parsed<Entry>, cache: Cache, left: nat)
    requires Ledger(data, given, budget, asked) && at + 24 <= |data|
    ensures r.Good? ==>
              EntryRead(data, at, r.value) && |r.value.values| <= room && Ledger(data, cache, left, asked + EntryAsks(data, at))
    ensures EntryRead(data, at, hope) && Charge(asked + EntryAsks(data, at)) <= 8 * |data| && |hope.values| <= room ==> r == Good(hope)
  {
    hide LE, U32, Reads, Canonical, Ledger, ValuesRead, ValuesAsk, Decode, Charge;
    r, cache, left := Bad, given, budget;
    if EntryRead(data, at, hope) { EntryParts(data, at, hope); }
    var nameLength, hashedLength := U32(data, at + 8), U32(data, at + 12);
    if nameLength == 0 || hashedLength > nameLength || hashedLength % 2 != 0 {
      return;
    }
    var name;
    ghost var first := (U32(data, at + 4), nameLength);
    AsksFirst(data, at, asked);
    name, cache, left := Text(data, U32(data, at + 4), nameLength, cache, left, asked);
    if name.Good? && EntryRead(data, at, hope) { OneName(data, at, name.value, hope); }
    if name.Bad? || !(API <= name.value || EXT <= name.value) {
      return;
    }
    var offset, count := U32(data, at + 16), U32(data, at + 20);
    if offset > |data| || count > (|data| - offset) / 20 || count > room {
      return;
    }
    NameLength(data, U32(data, at + 4), nameLength, name.value);
    assert asked + EntryAsks(data, at) == asked + [first] + ValuesAsk(data, offset, count);
    var values;
    values, cache, left := ParseValues(data, offset, count, cache, left, asked + [first], hope.values);
    if values.Good? {
      EntryIs(data, at, name.value, values.value);
      r := Good(Entry(U32(data, at), hashedLength, Canonical(name.value), values.value));
    }
  }

  lemma AsksFirst(data: bytes, at: nat, asked: seq<Range>)
    requires at + 24 <= |data|
    ensures Charge(asked + [(U32(data, at + 4), U32(data, at + 8))]) <= Charge(asked + EntryAsks(data, at))
  {
    hide U32, Charge, ValuesAsk;
    var first, all := [(U32(data, at + 4), U32(data, at + 8))], EntryAsks(data, at);
    assert all == first + all[1..];
    assert asked + all == asked + first + all[1..];
    ChargeMore(asked + first, all[1..]);
  }

  lemma EntryIs(data: bytes, at: nat, name: bytes, vs: seq<Value>)
    requires at + 24 <= |data| && 0 < U32(data, at + 8) && U32(data, at + 12) <= U32(data, at + 8) && U32(data, at + 12) % 2 == 0
             && U32(data, at + 12) / 2 <= |Canonical(name)|
    requires Reads(data, U32(data, at + 4), U32(data, at + 8), name) && (API <= name || EXT <= name)
    requires U32(data, at + 16) + 20 * U32(data, at + 20) <= |data| && ValuesRead(data, U32(data, at + 16), U32(data, at + 20), vs)
    ensures var e := Entry(U32(data, at), U32(data, at + 12), Canonical(name), vs);
              EntryRead(data, at, e) && |e.values| == U32(data, at + 20)
  {
    hide LE, U32, Reads, Canonical, ValueRead, ImportersDiffer;
    var e := Entry(U32(data, at), U32(data, at + 12), Canonical(name), vs);
    assert Reads(data, U32(data, at + 4), U32(data, at + 8), name) && e.name == Canonical(name) && (API <= name || EXT <= name);
  }

  lemma EntryParts(data: bytes, at: nat, e: Entry)
    requires EntryRead(data, at, e)
    ensures Bounded(data, U32(data, at + 4), U32(data, at + 8)) && Decode(data, U32(data, at + 4), U32(data, at + 8) / 2).Good?
    ensures ValuesRead(data, U32(data, at + 16), U32(data, at + 20), e.values) && |e.values| == U32(data, at + 20)
  {
    hide LE, U32, Decode, ValueRead, ImportersDiffer, Canonical;
  }

  lemma OneName(data: bytes, at: nat, name: bytes, e: Entry)
    requires EntryRead(data, at, e) && Reads(data, U32(data, at + 4), U32(data, at + 8), name)
    ensures e.name == Canonical(name) && (API <= name || EXT <= name)
  {
    hide LE, U32, Decode, ValuesRead, Canonical;
  }

  lemma NameLength(data: bytes, offset: nat, length: nat, name: bytes)
    requires Reads(data, offset, length, name)
    ensures |name| == length / 2 && |Canonical(name)| >= |name|
  {
    DecodeLength(data, offset, length / 2);
  }

  lemma {:induction false} DecodeLength(data: bytes, offset: nat, n: nat)
    requires offset + 2 * n <= |data| && Decode(data, offset, n).Good?
    ensures |Decode(data, offset, n).value| == n
  {
    hide LE;
    if n > 0 { DecodeLength(data, offset, n - 1); }
  }

  predicate NamesDiffer(es: seq<Entry>) { forall i, j :: 0 <= i < j < |es| ==> es[i].name != es[j].name }

  function NamesOf(es: seq<Entry>): set<bytes> { set e | e in es :: e.name }

  lemma NoNames()
    ensures NamesOf([]) == {} && NamesDiffer([])
  {
  }

  lemma NamesMore(es: seq<Entry>, x: Entry)
    ensures NamesOf(es + [x]) == NamesOf(es) + {x.name}
    ensures NamesDiffer(es) && x.name !in NamesOf(es) ==> NamesDiffer(es + [x])
  {
    assert forall i :: 0 <= i < |es| ==> es[i] in es && es[i].name in NamesOf(es);
    forall y | y in NamesOf(es) + {x.name} ensures y in NamesOf(es + [x]) {
      if y in NamesOf(es) {
        var e :| e in es && e.name == y;
        assert e in es + [x];
      } else {
        assert x in es + [x];
      }
    }
  }

  lemma NameNew(es: seq<Entry>, i: nat)
    requires NamesDiffer(es) && i < |es|
    ensures es[i].name !in NamesOf(es[..i])
  {
    forall e | e in es[..i] ensures e.name != es[i].name { var k :| 0 <= k < i && es[..i][k] == e; }
  }

  /** The ranges a table of entries asks for. */
  function EntriesAsk(data: bytes, offset: nat, count: nat): seq<Range>
    requires offset + 24 * count <= |data|
  {
    if count == 0 then [] else EntriesAsk(data, offset, count - 1) + EntryAsks(data, offset + 24 * (count - 1))
  }

  function ValueCount(es: seq<Entry>): nat { if es == [] then 0 else ValueCount(es[..|es| - 1]) + |es[|es| - 1].values| }

  ghost predicate EntriesRead(data: bytes, offset: nat, count: nat, es: seq<Entry>) {
    |es| == count && NamesDiffer(es) && forall i :: 0 <= i < count ==> EntryRead(data, offset + 24 * i, es[i])
  }

  lemma {:induction false} EntriesFront(data: bytes, offset: nat, i: nat, count: nat)
    requires i <= count && offset + 24 * count <= |data|
    ensures Charge(EntriesAsk(data, offset, i)) <= Charge(EntriesAsk(data, offset, count))
    decreases count - i
  {
    hide EntryAsks, Charge;
    if i < count {
      ChargeMore(EntriesAsk(data, offset, i), EntryAsks(data, offset + 24 * i));
      EntriesFront(data, offset, i + 1, count);
    }
  }

  lemma {:induction false} CountFront(es: seq<Entry>, i: nat)
    requires i <= |es|
    ensures ValueCount(es[..i]) <= ValueCount(es)
    decreases |es| - i
  {
    if i < |es| {
      CountFront(es, i + 1);
      CountStep(es, i);
    } else {
      assert es[..i] == es;
    }
  }

  lemma CountStep(es: seq<Entry>, i: nat)
    requires i < |es|
    ensures ValueCount(es[..i + 1]) == ValueCount(es[..i]) + |es[i].values|
  {
    assert es[..i + 1][..i] == es[..i];
  }

  /** Parses the entries: they are read exactly if they are there and ask for no more text and no more values than the limits. */
  method ParseEntries(data: bytes, offset: nat, count: nat, ghost hope: seq<Entry>) returns (r: Parsed<seq<Entry>>)
    requires offset + 24 * count <= |data|
    ensures r.Good? ==> EntriesRead(data, offset, count, r.value) && Within(data, offset, count, r.value)
    ensures r == Good(hope) <==> EntriesRead(data, offset, count, hope) && Within(data, offset, count, hope)
  {
    hide Ledger, EntryRead, EntryAsks, EntriesAsk, ValueCount, NamesOf, NamesDiffer, Charge;
    NoNames();
    ghost var fine := EntriesRead(data, offset, count, hope) && Within(data, offset, count, hope);
    var es: seq<Entry>, seen: set<bytes>, i, ok := [], {}, 0, true;
    var cache: Cache, budget: nat, room: nat := map[], 8 * |data|, |data| / 20;
    NothingAsked(data, offset, hope, cache);
    while i < count && ok
      invariant 0 <= i <= count
      invariant ok ==>
                  |es| == i && NamesDiffer(es) && (forall k :: 0 <= k < i ==> EntryRead(data, offset + 24 * k, es[k]))
                  && seen == NamesOf(es) && Ledger(data, cache, budget, EntriesAsk(data, offset, i))
                  && room + ValueCount(es) == |data| / 20
      invariant fine ==> ok && es == hope[..i]
    {
      var e;
      ghost var want := if fine then hope[i] else Entry(0, 0, [], []);
      AskStep(data, offset, i);
      EntriesFront(data, offset, i + 1, count);
      if fine {
        CountFront(hope, i + 1);
        CountStep(hope, i);
        NameNew(hope, i);
      }
      e, cache, budget := ParseEntry(data, offset + 24 * i, room, cache, budget, EntriesAsk(data, offset, i), want);
      match e {
        case Bad => ok := false;
        case Good(x) =>
          if x.name in seen {
            ok := false;
          } else {
            NamesMore(es, x);
            CountMore(es, x);
            room := room - |x.values|;
            seen, es := seen + {x.name}, es + [x];
          }
      }
      i := i + 1;
    }
    if fine { assert hope[..count] == hope; }
    if ok { LedgerFits(data, cache, budget, EntriesAsk(data, offset, count)); }
    r := if ok then Good(es) else Bad;
  }

  /** The entries ask for no more text and no more values than the limits. */
  predicate Within(data: bytes, offset: nat, count: nat, es: seq<Entry>)
    requires offset + 24 * count <= |data|
  {
    Charge(EntriesAsk(data, offset, count)) <= 8 * |data| && ValueCount(es) <= |data| / 20
  }

  lemma LedgerFits(data: bytes, cache: Cache, left: nat, asked: seq<Range>)
    requires Ledger(data, cache, left, asked)
    ensures Charge(asked) <= 8 * |data|
  {
  }

  lemma NothingAsked(data: bytes, offset: nat, es: seq<Entry>, cache: Cache)
    requires offset <= |data| && cache == map[]
    ensures EntriesAsk(data, offset, 0) == [] && Ledger(data, cache, 8 * |data|, []) && ValueCount([]) == 0
  {
  }

  lemma CountMore(es: seq<Entry>, x: Entry)
    ensures ValueCount(es + [x]) == ValueCount(es) + |x.values|
  {
    assert (es + [x])[..|es|] == es;
  }

  lemma AskStep(data: bytes, offset: nat, i: nat)
    requires offset + 24 * (i + 1) <= |data|
    ensures EntriesAsk(data, offset, i + 1) == EntriesAsk(data, offset, i) + EntryAsks(data, offset + 24 * i)
  {
  }

  method HashName(factor: nat, name: bytes) returns (h: nat)
    ensures h == Hash(factor, name)
  {
    h := 0;
    var i := 0;
    while i < |name|
      invariant 0 <= i <= |name| && h == Hash(factor, name[..i])
    {
      assert name[..i + 1][..i] == name[..i];
      h := (h * factor + name[i] as nat) % 0x1_0000_0000;
      i := i + 1;
    }
    assert name[..|name|] == name;
  }

  /** The hash table as it is stored. */
  function Stored(data: bytes, offset: nat, n: nat): (t: Table)
    requires offset + 8 * n <= |data|
    ensures |t| == n && forall i :: 0 <= i < n ==> t[i] == (U32(data, offset + 8 * i), U32(data, offset + 8 * i + 4))
  {
    seq(n, i requires 0 <= i < n => (U32(data, offset + 8 * i), U32(data, offset + 8 * i + 4)))
  }

  /** Checks the hash table against the entries: it passes exactly if it is an index of them. */
  method CheckIndex(data: bytes, offset: nat, ns: Namespace) returns (ok: bool)
    requires offset + 8 * |ns.entries| <= |data| && forall i ::
               0 <= i < |ns.entries| ==> ns.entries[i].hashedLength / 2 <= |ns.entries[i].name|
    ensures ok <==> Indexed(ns, Stored(data, offset, |ns.entries|))
  {
    hide LE, U32, Hash, Partial, Prefix, Indexed, Stored;
    ok := true;
    ghost var table := Stored(data, offset, |ns.entries|);
    var indices: set<nat>, prior: nat, i := {}, 0, 0;
    PartialStart(ns);
    assert table[..0] == [];
    while i < |ns.entries| && ok
      invariant 0 <= i <= |ns.entries| && (ok ==> Partial(ns, table[..i], indices, prior)) && (!ok ==> !Indexed(ns, table))
    {
      var hash, index := U32(data, offset + 8 * i), U32(data, offset + 8 * i + 4);
      assert table[i] == (hash, index) && table[..i + 1] == table[..i] + [table[i]];
      var fits := index < |ns.entries| && index !in indices && (i == 0 || prior < hash);
      if fits {
        var e := ns.entries[index];
        var computed := HashName(ns.factor, e.name[..e.hashedLength / 2]);
        PrefixIs(e);
        fits := hash == computed;
      }
      PartialMore(ns, table, i, indices, prior);
      if fits { indices, prior := indices + {index}, hash; }
      ok := fits;
      i := i + 1;
    }
    if ok {
      assert table[..i] == table;
      PartialEnd(ns, table, indices, prior);
    }
  }

  lemma PrefixIs(e: Entry)
    requires e.hashedLength / 2 <= |e.name|
    ensures Prefix(e) == e.name[..e.hashedLength / 2]
  {
  }

  /** The part of the table checked so far. */
  ghost predicate Partial(ns: Namespace, table: Table, indices: set<nat>, prior: nat) {
    && (table != [] ==> prior == table[|table| - 1].0)
    && (forall k :: 0 <= k < |table| ==> table[k].1 < |ns.entries| && table[k].1 in indices && table[k].0 == Hash(ns.factor, Prefix(ns.entries[table[k].1])))
    && (forall k, j :: 0 <= k < j < |table| ==> table[k].0 < table[j].0 && table[k].1 != table[j].1)
    && (forall x :: x in indices ==> exists k :: 0 <= k < |table| && table[k].1 == x)
  }

  lemma PartialStart(ns: Namespace)
    ensures Partial(ns, [], {}, 0)
  {
  }

  /** One more row of a table fits what was checked, or the table is no index. */
  ghost predicate RowFits(ns: Namespace, row: (nat, nat), indices: set<nat>, prior: nat, first: bool) {
    row.1 < |ns.entries| && row.1 !in indices && (first || prior < row.0) && row.0 == Hash(ns.factor, Prefix(ns.entries[row.1]))
  }

  lemma PartialMore(ns: Namespace, table: Table, i: nat, indices: set<nat>, prior: nat)
    requires |table| == |ns.entries| && i < |table| && Partial(ns, table[..i], indices, prior)
    ensures if RowFits(ns, table[i], indices, prior, i == 0) then Partial(ns, table[..i] + [table[i]], indices + {table[i].1},
            table[i].0) else !Indexed(ns, table)
  {
    hide Hash, Prefix;
    if RowFits(ns, table[i], indices, prior, i == 0) { RowAdded(ns, table[..i], table[i], indices, prior); }
    if Indexed(ns, table) { IndexedRow(ns, table, i, indices, prior); }
  }

  lemma IndexedRow(ns: Namespace, table: Table, i: nat, indices: set<nat>, prior: nat)
    requires Indexed(ns, table) && i < |table| && Partial(ns, table[..i], indices, prior)
    ensures RowFits(ns, table[i], indices, prior, i == 0)
  {
    hide Hash, Prefix;
    forall x | x in indices ensures x != table[i].1 {
      var k :| 0 <= k < i && table[..i][k].1 == x;
      assert table[k].1 != table[i].1;
    }
    if i > 0 { assert table[i - 1].0 < table[i].0 && table[..i][i - 1] == table[i - 1]; }
  }

  lemma RowAdded(ns: Namespace, table: Table, row: (nat, nat), indices: set<nat>, prior: nat)
    requires Partial(ns, table, indices, prior) && RowFits(ns, row, indices, prior, table == [])
    ensures Partial(ns, table + [row], indices + {row.1}, row.0)
  {
    hide Hash, Prefix;
    var more := table + [row];
    forall k, j | 0 <= k < j < |more| ensures more[k].0 < more[j].0 && more[k].1 != more[j].1 {
      if j == |table| { assert more[k] == table[k]; assert k < |table| - 1 ==> table[k].0 < table[|table| - 1].0; }
    }
    forall x | x in indices + {row.1} ensures exists k :: 0 <= k < |more| && more[k].1 == x {
      if x in indices {
        var k :| 0 <= k < |table| && table[k].1 == x;
        assert more[k].1 == x;
      } else {
        assert more[|table|].1 == x;
      }
    }
  }

  lemma PartialEnd(ns: Namespace, table: Table, indices: set<nat>, prior: nat)
    requires Partial(ns, table, indices, prior) && |table| == |ns.entries|
    ensures Indexed(ns, table)
  {
    hide Hash, Prefix;
  }

  /** A header whose tables lie in the data. */
  predicate HeaderOk(given: bytes) {
    && 28 <= |given| && U32(given, 0) == 6 && 28 <= U32(given, 4) <= |given|
    && var data := given[..U32(given, 4)];
       && U32(data, 16) + 24 * U32(data, 12) <= |data|
       && (U32(data, 12) != 0 ==> 28 <= U32(data, 16) && 28 <= U32(data, 20) && U32(data, 20) + 8 * U32(data, 12) <= |data|)
  }

  /** What a namespace says: its entries are read from their table, and the hash table is an index of them. */
  ghost predicate Says(given: bytes, ns: Namespace) {
    && HeaderOk(given)
    && var data := given[..U32(given, 4)];
       && ns.flags == U32(data, 8) && ns.factor == U32(data, 24) && EntriesRead(data, U32(data, 16), U32(data, 12), ns.entries)
       && Indexed(ns, if U32(data, 12) == 0 then [] else Stored(data, U32(data, 20), U32(data, 12)))
  }

  /** It asks for no more text and no more values than the limits. */
  predicate Modest(given: bytes, ns: Namespace)
    requires HeaderOk(given)
  {
    var data := given[..U32(given, 4)];
    Within(data, U32(data, 16), U32(data, 12), ns.entries)
  }

  /** Parses a namespace: what parses is what the bytes say, if it is modest, and nothing else. */
  method ParseNamespace(given: bytes, ghost hope: Namespace) returns (r: Parsed<Namespace>)
    ensures r.Good? ==> Says(given, r.value) && Modest(given, r.value)
    ensures r == Good(hope) <==> Says(given, hope) && Modest(given, hope)
  {
    hide LE, U32, EntriesRead, Within, Indexed, Stored;
    r := Bad;
    if |given| < 28 || U32(given, 0) != 6 || U32(given, 4) < 28 || U32(given, 4) > |given| {
      return;
    }
    var data := given[..U32(given, 4)];
    var count, entryOffset, hashOffset := U32(data, 12), U32(data, 16), U32(data, 20);
    if !(entryOffset <= |data| && count <= (|data| - entryOffset) / 24)
        || (count != 0 && (entryOffset < 28 || hashOffset < 28 || !(hashOffset <= |data| && count <= (|data| - hashOffset) / 8))) {
      return;
    }
    var entries := ParseEntries(data, entryOffset, count, hope.entries);
    if entries.Good? {
      var ns := Namespace(U32(data, 8), U32(data, 24), entries.value);
      assert |ns.entries| == count by { EntriesLength(data, entryOffset, count, entries.value); }
      if count == 0 {
        EmptyIndex(ns);
        r := Good(ns);
      } else {
        HashedIn(data, entryOffset, count, entries.value);
        var ok := CheckIndex(data, hashOffset, ns);
        if ok { r := Good(ns); }
      }
    }
  }

  lemma EntriesLength(data: bytes, offset: nat, count: nat, es: seq<Entry>)
    requires EntriesRead(data, offset, count, es)
    ensures |es| == count
  {
  }

  lemma EmptyIndex(ns: Namespace)
    requires ns.entries == []
    ensures Indexed(ns, [])
  {
  }

  lemma HashedIn(data: bytes, offset: nat, count: nat, es: seq<Entry>)
    requires EntriesRead(data, offset, count, es)
    ensures forall i :: 0 <= i < |es| ==> es[i].hashedLength / 2 <= |es[i].name|
  {
    hide LE, U32, Reads, ValuesRead;
  }
}
