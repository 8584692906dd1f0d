/** Security cells of a hive: a doubly linked ring of reference-counted cells.
 *
 * `ring` lists the cells of the ring in order, from an arbitrary one on; `keys` is
 * the set of key cells of the hive.
 */
module SecurityRing {
  import opened Bytes
  import opened HiveLayout
  import opened HiveImage

  const SK: bytes := [115, 107]
  const NK: bytes := [110, 107]

  // ----- fields

  predicate IsSecurity(b: bytes) { 20 <= |b| && b[..2] == SK && U32(b, 16) <= |b| - 20 }
  function Next(b: bytes): nat requires 20 <= |b| { U32(b, 4) }
  function Previous(b: bytes): nat requires 20 <= |b| { U32(b, 8) }
  function References(b: bytes): nat requires 20 <= |b| { U32(b, 12) }
  function Descriptor(b: bytes): bytes requires IsSecurity(b) { b[20..20 + U32(b, 16)] }

  predicate IsKey(b: bytes) { 0x4c <= |b| && b[..2] == NK }
  function SecurityOf(b: bytes): nat requires 0x30 <= |b| { U32(b, 0x2c) }

  /** A word written at one field leaves the others alone. */
  lemma PutField(b: bytes, o: nat, v: nat, p: nat)
    requires o + 4 <= |b| && p + 4 <= |b| && (p + 4 <= o || o + 4 <= p || p == o) && v < 0x1_0000_0000
    ensures U32(Put32(b, o, v), p) == if p == o then v else U32(b, p)
  {
    hide LE;
    if p == o {
      SpliceAt(b, o, Enc32(v));
      U32Enc(v);
    } else if p + 4 <= o {
      SpliceBefore(b, o, Enc32(v), p, p + 4);
    } else {
      SpliceAfter(b, o, Enc32(v), p, p + 4);
    }
  }

  lemma PutSecurity(b: bytes, o: nat, v: nat)
    requires IsSecurity(b) && (o == 4 || o == 8 || o == 12) && v < 0x1_0000_0000
    ensures var c := Put32(b, o, v);
            && IsSecurity(c) && Descriptor(c) == Descriptor(b)
            && Next(c) == (if o == 4 then v else Next(b))
            && Previous(c) == (if o == 8 then v else Previous(b))
            && References(c) == (if o == 12 then v else References(b))
  {
    hide LE, Put32, U32;
    PutField(b, o, v, 4); PutField(b, o, v, 8); PutField(b, o, v, 12); PutField(b, o, v, 16);
    PutText(b, o, v);
  }

  lemma PutText(b: bytes, o: nat, v: nat)
    requires 20 <= |b| && 4 <= o <= 16
    ensures Put32(b, o, v)[..2] == b[..2] && Put32(b, o, v)[20..] == b[20..]
    ensures forall n :: 20 <= n <= |b| ==> Put32(b, o, v)[20..n] == b[20..n]
  {
    hide LE;
    SpliceBefore(b, o, Enc32(v), 0, 2);
    SpliceAfter(b, o, Enc32(v), 20, |b|);
    forall n | 20 <= n <= |b| ensures Put32(b, o, v)[20..n] == b[20..n] {
      SpliceAfter(b, o, Enc32(v), 20, n);
    }
  }

  lemma PutKey(b: bytes, v: nat)
    requires IsKey(b) && v < 0x1_0000_0000
    ensures IsKey(Put32(b, 0x2c, v)) && SecurityOf(Put32(b, 0x2c, v)) == v
  {
    hide LE;
    PutField(b, 0x2c, v, 0x2c);
    SpliceBefore(b, 0x2c, Enc32(v), 0, 2);
  }

  // ----- the ring

  ghost predicate Joined(live: Live, a: nat, b: nat) {
    a in live && b in live && IsSecurity(live[a]) && IsSecurity(live[b]) && Next(live[a]) == b && Previous(live[b]) == a
  }

  /** Neighbours name each other, and so do the last and the first. */
  ghost predicate Ring(live: Live, ring: seq<nat>) {
    && Distinct(ring)
    && (forall i :: 0 <= i < |ring| - 1 ==> Joined(live, ring[i], ring[i + 1]))
    && (ring != [] ==> Joined(live, ring[|ring| - 1], ring[0]))
  }

  lemma Rotate(live: Live, a: seq<nat>, b: seq<nat>)
    requires Ring(live, a + b)
    ensures Ring(live, b + a)
  {
    var s, t := a + b, b + a;
    if a != [] && b != [] {
      forall i | 0 <= i < |t| - 1 ensures Joined(live, t[i], t[i + 1]) {
        if i < |b| - 1 {
          assert t[i] == s[|a| + i] && t[i + 1] == s[|a| + i + 1];
        } else if i == |b| - 1 {
          assert t[i] == s[|s| - 1] && t[i + 1] == s[0];
        } else {
          assert t[i] == s[i - |b|] && t[i + 1] == s[i - |b| + 1];
        }
      }
      assert t[|t| - 1] == s[|a| - 1] && t[0] == s[|a|];
      forall i, j | 0 <= i < j < |t| ensures t[i] != t[j] {
        assert t[i] == s[if i < |b| then |a| + i else i - |b|];
        assert t[j] == s[if j < |b| then |a| + j else j - |b|];
      }
    } else {
      assert s == t;
    }
  }

  /** The ring, turned so that it starts just after a given cell. */
  lemma TurnTo(live: Live, ring: seq<nat>, c: nat) returns (rest: seq<nat>)
    requires Ring(live, ring) && c in ring
    ensures Ring(live, rest + [c]) && (forall x :: x in rest + [c] <==> x in ring) && |rest| + 1 == |ring|
  {
    var i :| 0 <= i < |ring| && ring[i] == c;
    var a, b := ring[..i + 1], ring[i + 1..];
    assert ring == a + b;
    Rotate(live, a, b);
    rest := b + ring[..i];
    assert rest + [c] == b + a;
  }

  /** Same references and descriptor; the links may differ. */
  predicate SameRecord(a: bytes, b: bytes) {
    IsSecurity(a) && IsSecurity(b) && References(a) == References(b) && Descriptor(a) == Descriptor(b)
  }

  /** Cells of the ring keep their records, all others are untouched. */
  ghost predicate RingOnly(live: Live, m: Live, ring: seq<nat>) {
    && (forall x :: x in ring ==> x in live && x in m && SameRecord(live[x], m[x]))
    && (forall x :: x in m && x !in ring ==> x in live && m[x] == live[x])
  }

  /** Taking a cell out: its neighbours are joined and it is freed. */
  ghost function Unlinked(live: Live, c: nat): Live
    requires c in live && 20 <= |live[c]|
    requires Next(live[c]) in live && 20 <= |live[Next(live[c])]| && Previous(live[c]) in live && 20 <= |live[Previous(live[c])]|
  {
    var n, p := Next(live[c]), Previous(live[c]);
    var one := live[n := Put32(live[n], 8, p)];
    var two := one[p := Put32(one[p], 4, n)];
    two - {c}
  }

  lemma LastNeighbours(live: Live, rest: seq<nat>, c: nat)
    requires Ring(live, rest + [c]) && rest != []
    ensures Joined(live, rest[|rest| - 1], c) && Joined(live, c, rest[0])
    ensures c !in rest && Distinct(rest)
    ensures forall i :: 0 <= i < |rest| - 1 ==> Joined(live, rest[i], rest[i + 1])
  {
    var s := rest + [c];
    assert s[|s| - 2] == rest[|rest| - 1] && s[|s| - 1] == c && s[0] == rest[0];
    forall i | 0 <= i < |rest| - 1 ensures Joined(live, rest[i], rest[i + 1]) {
      assert s[i] == rest[i] && s[i + 1] == rest[i + 1];
    }
    assert forall i :: 0 <= i < |rest| ==> s[i] == rest[i];
  }

  lemma RingMembers(live: Live, ring: seq<nat>)
    requires Ring(live, ring)
    ensures forall x :: x in ring ==> x in live && IsSecurity(live[x])
  {
    forall x | x in ring ensures x in live && IsSecurity(live[x]) {
      var i :| 0 <= i < |ring| && ring[i] == x;
      if i + 1 < |ring| { assert Joined(live, ring[i], ring[i + 1]); }
    }
  }

  lemma Unlink(live: Live, rest: seq<nat>, c: nat)
    requires Ring(live, rest + [c]) && rest != [] && (forall x :: x in rest ==> x < 0x1_0000_0000)
    ensures Joined(live, rest[|rest| - 1], c) && Joined(live, c, rest[0])
    ensures var m := Unlinked(live, c); Ring(m, rest) && m.Keys == live.Keys - {c} && RingOnly(live, m, rest)
  {
    hide LE, Put32, U32;
    LastNeighbours(live, rest, c);
    RingMembers(live, rest + [c]);
    var n, p := rest[0], rest[|rest| - 1];
    var m := Unlinked(live, c);
    PutSecurity(live[n], 8, p);
    var one := live[n := Put32(live[n], 8, p)];
    PutSecurity(one[p], 4, n);
    forall i | 0 <= i < |rest| - 1 ensures Joined(m, rest[i], rest[i + 1]) {
      assert Joined(live, rest[i], rest[i + 1]);
    }
    forall x | x in rest ensures x in live && x in m && SameRecord(live[x], m[x]) {
      assert x in rest + [c];
    }
  }

  /** Putting a cell in behind an anchor. */
  ghost function LinkedIn(live: Live, a: nat, c: nat): Live
    requires c in live && 20 <= |live[c]| && a in live && 20 <= |live[a]| && Next(live[a]) in live && 20 <= |live[Next(live[a])]|
  {
    var n := Next(live[a]);
    var one := live[c := Put32(Put32(live[c], 4, n), 8, a)];
    var two := one[a := Put32(one[a], 4, c)];
    two[n := Put32(two[n], 8, c)]
  }

  lemma Link(live: Live, rest: seq<nat>, a: nat, c: nat)
    requires Ring(live, rest + [a]) && c in live && IsSecurity(live[c]) && c !in rest && c != a
    requires c < 0x1_0000_0000 && a < 0x1_0000_0000 && (forall x :: x in rest ==> x < 0x1_0000_0000)
    ensures a in live && IsSecurity(live[a]) && Next(live[a]) in live && IsSecurity(live[Next(live[a])])
            && Previous(live[Next(live[a])]) == a
    ensures Next(live[a]) != c
    ensures var m := LinkedIn(live, a, c); Ring(m, rest + [a, c]) && m.Keys == live.Keys && RingOnly(live, m, rest + [a, c])
  {
    hide LE, Put32, U32;
    var s := rest + [a];
    RingMembers(live, s);
    assert s[|s| - 1] == a;
    var n := s[0];
    assert Joined(live, a, n);
    assert n in s;
    var m := LinkedIn(live, a, c);
    PutSecurity(live[c], 4, n);
    PutSecurity(Put32(live[c], 4, n), 8, a);
    PutSecurity(live[a], 4, c);
    var one := live[c := Put32(Put32(live[c], 4, n), 8, a)];
    var two := one[a := Put32(one[a], 4, c)];
    PutSecurity(two[n], 8, c);
    var t := rest + [a, c];
    forall i | 0 <= i < |t| - 1 ensures Joined(m, t[i], t[i + 1]) {
      if i < |s| - 1 {
        assert t[i] == s[i] && t[i + 1] == s[i + 1];
        assert Joined(live, s[i], s[i + 1]);
        assert s[i + 1] != s[0] && s[i] != s[|s| - 1];
      } else {
        assert t[i] == a && t[i + 1] == c;
      }
    }
    assert t[|t| - 1] == c && t[0] == n;
    assert forall i :: 0 <= i < |s| ==> t[i] == s[i] && s[i] != c;
    assert Distinct(t);
    forall x | x in t ensures x in live && x in m && SameRecord(live[x], m[x]) {
      assert x in s || x == c;
    }
  }

  // ----- reference counts

  /** The keys that point at a security cell. */
  ghost function Users(live: Live, keys: set<nat>, c: nat): set<nat> {
    set k | k in keys && k in live && IsKey(live[k]) && SecurityOf(live[k]) == c
  }

  ghost predicate KeysPoint(live: Live, ring: seq<nat>, keys: set<nat>) {
    forall k :: k in keys ==> k in live && IsKey(live[k]) && k !in ring && (SecurityOf(live[k]) == NONE || SecurityOf(live[k]) in ring)
  }

  ghost predicate Exact(live: Live, ring: seq<nat>, keys: set<nat>, debt: nat) {
    forall c :: c in ring ==> c in live && 20 <= |live[c]| && 0 < References(live[c]) == |Users(live, keys, c)| + (if c == debt then 1 else 0)
  }

  /** One ring; every key points into it or nowhere; every count is the number of keys
    * pointing at the cell, plus one for a reference `debt` that is about to be released. */
  ghost predicate Sound(live: Live, ring: seq<nat>, keys: set<nat>, debt: nat) {
    && Ring(live, ring) && (forall c :: c in ring ==> c < NONE) && (debt == NONE || debt in ring)
    && KeysPoint(live, ring, keys) && Exact(live, ring, keys, debt)
  }

  /** The cache of descriptors names cells of the ring that hold them. */
  ghost predicate Cached(cache: map<bytes, nat>, live: Live, ring: seq<nat>) {
    forall d :: d in cache ==> cache[d] in ring && cache[d] in live && IsSecurity(live[cache[d]]) && Descriptor(live[cache[d]]) == d
  }

  lemma SameUsers(live: Live, m: Live, keys: set<nat>, c: nat)
    requires forall k :: k in keys ==> k in live && k in m && live[k] == m[k]
    ensures Users(live, keys, c) == Users(m, keys, c)
  {
  }

  /** A new reference counted on an existing cell. */
  lemma Counted(live: Live, ring: seq<nat>, keys: set<nat>, debt: nat, c: nat, n: nat) returns (m: Live)
    requires Ring(live, ring) && c in ring && n < 0x1_0000_0000
    ensures c in live && IsSecurity(live[c]) && m == live[c := Put32(live[c], 12, n)] && IsSecurity(m[c])
    ensures Ring(m, ring) && References(m[c]) == n && Descriptor(m[c]) == Descriptor(live[c])
  {
    hide LE, Put32, U32;
    RingMembers(live, ring);
    PutSecurity(live[c], 12, n);
    m := live[c := Put32(live[c], 12, n)];
    forall i | 0 <= i < |ring| - 1 ensures Joined(m, ring[i], ring[i + 1]) {
      assert Joined(live, ring[i], ring[i + 1]);
    }
  }

  /** Giving back the reference that is owed: the count goes down, or the cell leaves the ring. */
  lemma ReleaseCount(live: Live, ring: seq<nat>, keys: set<nat>, c: nat)
    requires Sound(live, ring, keys, c) && c != NONE && References(live[c]) > 1
    ensures Sound(live[c := Put32(live[c], 12, References(live[c]) - 1)], ring, keys, NONE)
  {
    hide LE, Put32, U32;
    var m := Counted(live, ring, keys, c, c, References(live[c]) - 1);
    forall x | x in ring ensures x in m && 20 <= |m[x]| && 0 < References(m[x]) == |Users(m, keys, x)| {
      SameUsers(live, m, keys, x);
    }
  }

  /** Which cell the list of the ring starts with does not matter. */
  lemma Turned(live: Live, ring: seq<nat>, keys: set<nat>, debt: nat, c: nat) returns (rest: seq<nat>)
    requires Sound(live, ring, keys, debt) && c in ring
    ensures Sound(live, rest + [c], keys, debt) && c !in rest && Distinct(rest)
    ensures (forall x :: x in rest <==> x in ring && x != c) && |rest| + 1 == |ring|
  {
    hide LE, Put32, U32, IsSecurity, IsKey, Joined, Users;
    rest := TurnTo(live, ring, c);
    var s := rest + [c];
    assert s[|s| - 1] == c;
    assert forall i :: 0 <= i < |rest| ==> s[i] == rest[i];
    forall x ensures x in rest <==> x in ring && x != c {
      if x in rest { assert x in s; }
      if x in ring { assert x in s; }
    }
  }

  lemma NoUsers(live: Live, ring: seq<nat>, keys: set<nat>, c: nat)
    requires Sound(live, ring, keys, c) && c in ring && References(live[c]) == 1
    ensures forall k :: k in keys ==> SecurityOf(live[k]) != c
  {
    hide LE, Put32, U32;
    assert Users(live, keys, c) == {};
    forall k | k in keys ensures SecurityOf(live[k]) != c {
      assert k in Users(live, keys, c) <==> SecurityOf(live[k]) == c;
    }
  }

  lemma ReleaseTail(live: Live, rest: seq<nat>, keys: set<nat>, c: nat)
    requires Sound(live, rest + [c], keys, c) && c !in rest && References(live[c]) == 1 && rest != []
    ensures Joined(live, rest[|rest| - 1], c) && Joined(live, c, rest[0])
    ensures Sound(Unlinked(live, c), rest, keys, NONE)
    ensures RingOnly(live, Unlinked(live, c), rest) && Unlinked(live, c).Keys == live.Keys - {c}
  {
    hide LE, Put32, U32;
    var s := rest + [c];
    assert s[|s| - 1] == c;
    assert forall x :: x in rest ==> x in s;
    NoUsers(live, s, keys, c);
    Unlink(live, rest, c);
    var m := Unlinked(live, c);
    forall k | k in keys ensures k in m && live[k] == m[k] && k !in rest {
      assert k !in s;
    }
    forall k | k in keys ensures SecurityOf(m[k]) == NONE || SecurityOf(m[k]) in rest {
      assert SecurityOf(m[k]) == NONE || SecurityOf(m[k]) in s;
    }
    forall x | x in rest ensures x in m && 20 <= |m[x]| && 0 < References(m[x]) == |Users(m, keys, x)| {
      SameUsers(live, m, keys, x);
      assert SameRecord(live[x], m[x]);
    }
  }

  /** The last cell of all leaves an empty ring behind. */
  lemma ReleaseOnly(live: Live, keys: set<nat>, c: nat)
    requires Sound(live, [c], keys, c) && References(live[c]) == 1
    ensures Joined(live, c, c) && Sound(Unlinked(live, c), [], keys, NONE)
    ensures Unlinked(live, c) == live - {c}
  {
    hide LE, Put32, U32;
    NoUsers(live, [c], keys, c);
    assert [c][0] == c;
  }

  // ----- taking a reference, and handing it to a key

  lemma Acquire(live: Live, ring: seq<nat>, keys: set<nat>, c: nat)
    requires Sound(live, ring, keys, NONE) && c in ring && References(live[c]) < NONE
    ensures Sound(live[c := Put32(live[c], 12, References(live[c]) + 1)], ring, keys, c)
  {
    hide LE, Put32, U32;
    var m := Counted(live, ring, keys, NONE, c, References(live[c]) + 1);
    forall x | x in ring ensures x in m && 20 <= |m[x]| && 0 < References(m[x]) == |Users(m, keys, x)| + (if x == c then 1 else 0) {
      SameUsers(live, m, keys, x);
    }
  }

  lemma RingFrame(live: Live, m: Live, ring: seq<nat>)
    requires Ring(live, ring) && forall x :: x in ring ==> x in m && x in live && m[x] == live[x]
    ensures Ring(m, ring)
  {
    hide IsSecurity, Next, Previous;
    forall i | 0 <= i < |ring| - 1 ensures Joined(m, ring[i], ring[i + 1]) { assert Joined(live, ring[i], ring[i + 1]); }
  }

  /** A new cell put into the ring behind an anchor, with one reference that no key has yet. */
  lemma AcquireNew(live: Live, rest: seq<nat>, a: nat, keys: set<nat>, c: nat, b: bytes)
    requires Sound(live, rest + [a], keys, NONE) && c !in live && IsSecurity(b) && References(b) == 1 && c < NONE
    ensures var n := live[c := b];
            && a in n && IsSecurity(n[a]) && Next(n[a]) in n && IsSecurity(n[Next(n[a])]) && Previous(n[Next(n[a])]) == a && Next(n[a]) != c
                && a != c
            && Sound(LinkedIn(n, a, c), rest + [a, c], keys, c)
            && LinkedIn(n, a, c).Keys == live.Keys + {c} && RingOnly(n, LinkedIn(n, a, c), rest + [a, c])
  {
    hide LE, Put32, U32, Ring, Exact, Distinct, IsKey;
    var s, t := rest + [a], rest + [a, c];
    RingMembers(live, s);
    assert forall x :: x in t <==> x in s || x == c;
    assert s[|s| - 1] == a && a in s;
    assert forall x :: x in rest ==> x in s;
    var n := live[c := b];
    RingFrame(live, n, s);
    Link(n, rest, a, c);
    var m := LinkedIn(n, a, c);
    KeysFrame(live, m, s, t, keys);
    NewExact(live, n, m, s, t, keys, c);
  }

  lemma KeysFrame(live: Live, m: Live, s: seq<nat>, t: seq<nat>, keys: set<nat>)
    requires KeysPoint(live, s, keys) && (forall x :: x in s ==> x in t) && (forall x :: x in t && x !in s ==> x !in live)
    requires forall k :: k in keys ==> k in m && k in live && m[k] == live[k]
    ensures KeysPoint(m, t, keys)
  {
    hide IsKey, U32;
  }

  lemma NewExact(live: Live, n: Live, m: Live, s: seq<nat>, t: seq<nat>, keys: set<nat>, c: nat)
    requires Exact(live, s, keys, NONE) && KeysPoint(live, s, keys) && c !in s && c < NONE && c in n && n == live[c := n[c]] && c !in live
    requires IsSecurity(n[c]) && References(n[c]) == 1 && RingOnly(n, m, t) && (forall x :: x in t <==> x in s || x == c) && NONE !in s
    requires forall k :: k in keys ==> k in m && k in live && m[k] == live[k]
    ensures Exact(m, t, keys, c)
  {
    hide LE, U32, IsKey;
    forall x | x in t ensures x in m && 20 <= |m[x]| && 0 < References(m[x]) == |Users(m, keys, x)| + (if x == c then 1 else 0) {
      SameUsers(live, m, keys, x);
      assert SameRecord(n[x], m[x]);
      if x == c { assert Users(live, keys, c) == {}; }
    }
  }

  lemma UsersWith(live: Live, m: Live, keys: set<nat>, k: nat, x: nat)
    requires k in m && IsKey(m[k]) && (forall j :: j in keys && j != k ==> j in live && j in m && live[j] == m[j])
    ensures Users(m, keys + {k}, x) == (Users(live, keys, x) - {k}) + (if SecurityOf(m[k]) == x then {k} else {})
  {
    hide LE, U32, IsKey;
  }

  /** The reference goes to a key that is new. */
  lemma AddKey(live: Live, ring: seq<nat>, keys: set<nat>, debt: nat, k: nat, b: bytes)
    requires Sound(live, ring, keys, debt) && k !in live && IsKey(b) && SecurityOf(b) == debt
    ensures Sound(live[k := b], ring, keys + {k}, NONE)
  {
    hide LE, Put32, U32, IsKey, Ring, Users;
    RingMembers(live, ring);
    var m := live[k := b];
    RingFrame(live, m, ring);
    AddExact(live, m, ring, keys, debt, k);
  }

  lemma AddExact(live: Live, m: Live, ring: seq<nat>, keys: set<nat>, debt: nat, k: nat)
    requires Exact(live, ring, keys, debt) && k !in keys && k in m && IsKey(m[k]) && SecurityOf(m[k]) == debt
    requires NONE !in ring && forall x :: x in ring || x in keys ==> x in live && x in m && m[x] == live[x]
    ensures Exact(m, ring, keys + {k}, NONE)
  {
    hide LE, U32, IsKey, Users;
    forall x | x in ring ensures 0 < References(m[x]) == |Users(m, keys + {k}, x)| {
      UsersWith(live, m, keys, k, x);
      UserIsKey(live, keys, x);
    }
  }

  lemma UserIsKey(live: Live, keys: set<nat>, x: nat)
    ensures Users(live, keys, x) <= keys
    ensures forall k :: k in Users(live, keys, x) <==> k in keys && k in live && IsKey(live[k]) && SecurityOf(live[k]) == x
  {
  }

  /** The reference goes to an existing key, which gives up the one it had. */
  lemma AssignKey(live: Live, ring: seq<nat>, keys: set<nat>, debt: nat, k: nat)
    requires Sound(live, ring, keys, debt) && k in keys && debt <= NONE
    ensures Sound(live[k := Put32(live[k], 0x2c, debt)], ring, keys, SecurityOf(live[k]))
    ensures IsKey(Put32(live[k], 0x2c, debt)) && SecurityOf(Put32(live[k], 0x2c, debt)) == debt
  {
    hide LE, Put32, U32, Users, Ring;
    RingMembers(live, ring);
    PutKey(live[k], debt);
    var m := live[k := Put32(live[k], 0x2c, debt)];
    RingFrame(live, m, ring);
    var old_ := SecurityOf(live[k]);
    forall x | x in ring ensures 0 < References(m[x]) == |Users(m, keys, x)| + (if x == old_ then 1 else 0) {
      UsersWith(live, m, keys, k, x);
      UserIsKey(live, keys, x);
      assert keys + {k} == keys;
    }
  }

  /** A key that goes away leaves its reference to be released. */
  lemma DropKey(live: Live, ring: seq<nat>, keys: set<nat>, k: nat)
    requires Sound(live, ring, keys, NONE) && k in keys
    ensures Sound(live, ring, keys - {k}, SecurityOf(live[k]))
  {
    hide LE, U32, Joined;
    forall x | x in ring ensures 0 < References(live[x]) == |Users(live, keys - {k}, x)| + (if x == SecurityOf(live[k]) then 1 else 0) {
      assert Users(live, keys - {k}, x) == Users(live, keys, x) - {k};
    }
  }

  /** Freeing or changing a cell that is neither a key nor in the ring. */
  lemma Elsewhere(live: Live, m: Live, ring: seq<nat>, keys: set<nat>, debt: nat)
    requires Sound(live, ring, keys, debt)
    requires forall x :: x in ring || x in keys ==> x in m && x in live && m[x] == live[x]
    ensures Sound(m, ring, keys, debt)
  {
    hide LE, U32;
    RingMembers(live, ring);
    RingFrame(live, m, ring);
    forall x | x in ring ensures 0 < References(m[x]) == |Users(m, keys, x)| + (if x == debt then 1 else 0) {
      SameUsers(live, m, keys, x);
    }
  }

  /** A key whose body changes apart from its reference. */
  lemma Rekey(live: Live, ring: seq<nat>, keys: set<nat>, k: nat, b: bytes)
    requires Sound(live, ring, keys, NONE) && k in keys && IsKey(b) && SecurityOf(b) == SecurityOf(live[k])
    ensures Sound(live[k := b], ring, keys, NONE)
  {
    hide LE, U32, Users, Ring;
    RingMembers(live, ring);
    var m := live[k := b];
    RingFrame(live, m, ring);
    forall x | x in ring ensures 0 < References(m[x]) == |Users(m, keys, x)| {
      UsersWith(live, m, keys, k, x);
      UserIsKey(live, keys, x);
      assert keys + {k} == keys;
      assert (Users(live, keys, x) - {k}) + (if SecurityOf(m[k]) == x then {k} else {}) == Users(live, keys, x);
    }
  }

  lemma {:induction false} Smaller(a: set<nat>, b: set<nat>)
    requires a <= b
    ensures |a| <= |b|
  {
    if a != {} {
      var x :| x in a;
      Smaller(a - {x}, b - {x});
    }
  }
}
