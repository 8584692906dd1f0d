/** Key records of a Windows 9x registry file (CREG): values, names and their text. */
module CregRecord {
  import opened Bytes

  const SZ: nat := 1
  const EXPAND_SZ: nat := 2
  const MULTI_SZ: nat := 7

  /** The text that stands for the name of the unnamed value. */
  const DEFAULT: bytes := [40, 100, 101, 102, 97, 117, 108, 116, 41]

  predicate AsciiText(b: bytes) { forall i :: 0 <= i < |b| ==> b[i] < 0x80 }

  // ----- 16-bit text

  /** Each byte as one 16-bit unit. */
  function Wide(b: bytes): (w: bytes)
    ensures |w| == 2 * |b|
  {
    if b == [] then [] else [b[0], 0] + Wide(b[1..])
  }

  /** The low bytes of the 16-bit units; an odd last byte is dropped. */
  function Narrow(d: bytes): (b: bytes)
    ensures |b| == |d| / 2
  {
    if |d| < 2 then [] else [d[0]] + Narrow(d[2..])
  }

  /** All units are ASCII. */
  predicate AsciiUnits(d: bytes) { |d| < 2 || (d[0] < 0x80 && d[1] == 0 && AsciiUnits(d[2..])) }

  lemma {:induction false} NarrowWide(b: bytes)
    ensures Narrow(Wide(b)) == b && (AsciiText(b) ==> AsciiUnits(Wide(b)))
  {
    if b != [] {
      NarrowWide(b[1..]);
      assert Wide(b)[2..] == Wide(b[1..]);
      assert AsciiText(b) ==> AsciiText(b[1..]);
    }
  }

  lemma {:induction false} WideNarrow(d: bytes)
    requires AsciiUnits(d)
    ensures AsciiText(Narrow(d)) && (Wide(Narrow(d)) == d <==> |d| % 2 == 0)
  {
    if |d| >= 2 {
      WideNarrow(d[2..]);
      assert Narrow(d)[1..] == Narrow(d[2..]);
      assert d == [d[0], d[1]] + d[2..];
      if Wide(Narrow(d[2..])) != d[2..] {
        assert Wide(Narrow(d))[2..] == Wide(Narrow(d[2..]));
        assert d[2..] != Wide(Narrow(d))[2..];
      }
    }
  }

  lemma {:induction false} WideCat(a: bytes, b: bytes)
    ensures Wide(a + b) == Wide(a) + Wide(b)
  {
    if a == [] {
      assert a + b == b;
    } else {
      assert (a + b)[1..] == a[1..] + b;
      WideCat(a[1..], b);
    }
  }

  // ----- lists of strings

  /** Without the zeros at the end. */
  function TrimRight(b: bytes): (t: bytes)
    ensures t <= b && (t == [] || t[|t| - 1] != 0)
  {
    if b == [] || b[|b| - 1] != 0 then b else TrimRight(b[..|b| - 1])
  }

  /** The parts between zeros. */
  function Split(b: bytes): (p: seq<bytes>)
    ensures p != []
  {
    if b == [] then [[]]
    else
      var p := Split(b[..|b| - 1]);
      if b[|b| - 1] == 0 then p + [[]] else p[..|p| - 1] + [p[|p| - 1] + [b[|b| - 1]]]
  }

  /** The parts, each ended by a zero. */
  function Ended(p: seq<bytes>): bytes {
    if p == [] then [] else Ended(p[..|p| - 1]) + p[|p| - 1] + [0]
  }

  lemma {:induction false} SplitJoin(b: bytes)
    ensures Ended(Split(b)) == b + [0]
  {
    if b == [] {
      var one: seq<bytes> := [[]];
      assert one[..0] == [] && Split(b) == one;
      assert Ended(one) == Ended([]) + one[0] + [0];
      assert b + [0] == [0];
    } else {
      var n := |b| - 1;
      var p := Split(b[..n]);
      SplitJoin(b[..n]);
      assert b == b[..n] + [b[n]];
      if b[n] == 0 {
        var q := p + [[]];
        assert q[..|q| - 1] == p;
      } else {
        var q := p[..|p| - 1] + [p[|p| - 1] + [b[n]]];
        assert q[..|q| - 1] == p[..|p| - 1];
        assert Ended(p) == Ended(p[..|p| - 1]) + p[|p| - 1] + [0];
        assert Ended(p[..|p| - 1]) + p[|p| - 1] == b[..n] by {
          assert (Ended(p[..|p| - 1]) + p[|p| - 1]) + [0] == b[..n] + [0];
          Unsuffix(Ended(p[..|p| - 1]) + p[|p| - 1], b[..n]);
        }
      }
    }
  }

  lemma Unsuffix(a: bytes, b: bytes)
    requires a + [0] == b + [0]
    ensures a == b
  {
    assert a == (a + [0])[..|a|];
    assert |a + [0]| == |b + [0]|;
    assert b == (b + [0])[..|b|];
  }

  // ----- value data

  /** The parts of a list as 16-bit text, each ended by a zero unit. */
  function WideEnded(p: seq<bytes>): bytes {
    if p == [] then [] else WideEnded(p[..|p| - 1]) + Wide(p[|p| - 1] + [0])
  }

  lemma {:induction false} WideEndedIs(p: seq<bytes>)
    ensures WideEnded(p) == Wide(Ended(p))
  {
    if p != [] {
      var n := |p| - 1;
      WideEndedIs(p[..n]);
      WideCat(Ended(p[..n]), p[n] + [0]);
      assert Ended(p) == Ended(p[..n]) + (p[n] + [0]);
    }
  }

  /** One zero less at the end, if there is one. */
  function TrimOne(b: bytes): bytes { if b != [] && b[|b| - 1] == 0 then b[..|b| - 1] else b }

  /** What is stored for the data of a value. */
  function EncodeData(typ: nat, d: bytes): bytes {
    if typ == SZ || typ == EXPAND_SZ then TrimOne(Narrow(d)) else if typ == MULTI_SZ then Narrow(d) else d
  }

  /** The data a reader makes of what is stored. */
  function CookData(typ: nat, raw: bytes): bytes {
    if typ == SZ || typ == EXPAND_SZ then Wide(raw + [0])
    else if typ == MULTI_SZ then
      var text := TrimRight(raw);
      if text == [] then [0, 0] + [0, 0] else WideEnded(Split(text)) + [0, 0]
    else raw
  }

  predicate AsciiData(typ: nat, d: bytes) { typ == SZ || typ == EXPAND_SZ || typ == MULTI_SZ ==> AsciiUnits(d) }

  /** Data in the form the registry keeps it: whole units, a string ended by a zero, a list by two. */
  predicate Canonical(typ: nat, d: bytes) {
    var n := Narrow(d);
    if typ == SZ || typ == EXPAND_SZ then |d| % 2 == 0 && n != [] && n[|n| - 1] == 0
    else if typ == MULTI_SZ then |d| % 2 == 0 && TwoEnded(n)
    else true
  }

  lemma MultiIs(raw: bytes)
    ensures CookData(MULTI_SZ, raw) == Wide(TrimRight(raw) + [0, 0])
  {
    var text := TrimRight(raw);
    if text == [] {
      assert text + [0, 0] == [0, 0];
      assert [0, 0][1..] == [0];
      assert [0][1..] == [];
      assert Wide([0]) == [0, 0];
    } else {
      SplitJoin(text);
      WideEndedIs(Split(text));
      WideCat(text + [0], [0]);
      assert [0][1..] == [];
      assert Wide([0]) == [0, 0];
      assert (text + [0]) + [0] == text + [0, 0];
    }
  }

  lemma TrimStep(b: bytes, t: bytes)
    ensures b == t + [0] ==> TrimRight(b) == TrimRight(t)
    ensures t == [] || t[|t| - 1] != 0 ==> TrimRight(t) == t
  {
    if b == t + [0] { assert b[..|b| - 1] == t; }
  }

  /** Exactly the last two zeros are trimmed. */
  predicate TwoEnded(n: bytes) { 2 <= |n| && n[|n| - 1] == 0 && n[|n| - 2] == 0 && (|n| == 2 || n[|n| - 3] != 0) }

  lemma TrimTwo(n: bytes)
    ensures TrimRight(n) + [0, 0] == n <==> TwoEnded(n)
  {
    hide TrimRight;
    var t := TrimRight(n);
    if t + [0, 0] == n {
      assert |t| == |n| - 2 && n[|t|] == 0 && n[|t| + 1] == 0;
      assert t != [] ==> n[|t| - 1] == t[|t| - 1];
    }
    if TwoEnded(n) {
      var two := n[..|n| - 2];
      TrimStep(n, two + [0]);
      TrimStep(two + [0], two);
      assert n == two + [0] + [0] == two + [0, 0];
    }
  }

  /** ASCII data survives storing exactly when it is in the registry's own form. */
  lemma DataRoundTrip(typ: nat, d: bytes)
    requires AsciiData(typ, d)
    ensures CookData(typ, EncodeData(typ, d)) == d <==> Canonical(typ, d)
  {
    if typ == SZ || typ == EXPAND_SZ {
      WideNarrow(d);
      var n := Narrow(d);
      if n != [] && n[|n| - 1] == 0 {
        assert TrimOne(n) + [0] == n;
      } else {
        assert |Wide(TrimOne(n) + [0])| == 2 * |n| + 2 > |d|;
      }
    } else if typ == MULTI_SZ {
      WideNarrow(d);
      MultiIs(Narrow(d));
      TrimTwo(Narrow(d));
      if Wide(TrimRight(Narrow(d)) + [0, 0]) == d {
        NarrowWide(TrimRight(Narrow(d)) + [0, 0]);
      }
    }
  }

  // ----- names

  /** What is stored for the name of a value: nothing for the unnamed one. */
  function EncodeName(n: bytes): bytes { if n == DEFAULT then [] else n }

  function CookName(raw: bytes): bytes { if raw == [] then DEFAULT else raw }

  /** A name survives storing exactly when it is not empty. */
  lemma NameRoundTrip(n: bytes)
    ensures CookName(EncodeName(n)) == n <==> n != []
  {
  }

  function Upper(b: byte): byte { if 97 <= b <= 122 then b - 32 else b }

  /** Upper case, for ASCII text. */
  function UpperName(n: bytes): (u: bytes)
    ensures |u| == |n|
  {
    seq(|n|, i requires 0 <= i < |n| => Upper(n[i]))
  }

  // ----- a key record

  datatype Value = Value(name: bytes, typ: nat, data: bytes)

  /** A stored value: its type, a cache word, the lengths, the name and the data. */
  function EncodeValue(v: Value, cleared: bool): bytes {
    var name, data := EncodeName(v.name), EncodeData(v.typ, v.data);
    ValueHead(v.typ, cleared, |name|, |data|) + name + data
  }

  function ValueHead(typ: nat, cleared: bool, name: nat, data: nat): (h: bytes)
    ensures |h| == 12
  {
    Enc32(typ) + (if cleared then Zeros(4) else Enc32(0xffff_ffff)) + Enc16(name) + Enc16(data)
  }

  lemma HeadBack(typ: nat, cleared: bool, name: nat, data: nat, b: bytes)
    requires 12 <= |b| && b[..12] == ValueHead(typ, cleared, name, data) && typ < 0x1_0000_0000 && name <= 0xffff && data <= 0xffff
    ensures U32(b, 0) == typ && U16(b, 8) == name && U16(b, 10) == data
  {
    hide LE;
    var h := b[..12];
    assert b[0..4] == h[..4] == Enc32(typ);
    assert b[8..10] == h[8..10] == Enc16(name);
    assert b[10..12] == h[10..12] == Enc16(data);
    U32Enc(typ); U16Enc(name); U16Enc(data);
  }

  lemma Cut(a: bytes, b: bytes, c: bytes, rest: bytes)
    ensures var s := a + b + c + rest;
            && s[..|a|] == a && s[|a|..|a| + |b|] == b && s[|a| + |b|..|a| + |b| + |c|] == c && s[|a| + |b| + |c|..] == rest
  {
  }

  function EncodeValues(vs: seq<Value>, cleared: bool): bytes {
    if vs == [] then [] else EncodeValue(vs[0], cleared) + EncodeValues(vs[1..], cleared)
  }

  /** The 16-bit lengths can be written. */
  predicate Fits(v: Value) { |EncodeName(v.name)| <= 0xffff && |EncodeData(v.typ, v.data)| <= 0xffff }

  function Cook(v: Value): Value { Value(CookName(EncodeName(v.name)), v.typ, CookData(v.typ, EncodeData(v.typ, v.data))) }

  datatype Parsed<T> = Good(value: T) | Bad

  /** Reads one value from the front: its extent and what it says. */
  function ReadValue(b: bytes): Parsed<(nat, Value)> {
    if |b| < 12 then Bad
    else
      var nameLength, dataLength := U16(b, 8), U16(b, 10);
      var end := 12 + nameLength + dataLength;
      if end > |b| then Bad
      else Good((end, Value(CookName(b[12..12 + nameLength]), U32(b, 0), CookData(U32(b, 0), b[12 + nameLength..end]))))
  }

  lemma ReadBack(v: Value, cleared: bool, rest: bytes)
    requires Fits(v) && v.typ < 0x1_0000_0000
    ensures ReadValue(EncodeValue(v, cleared) + rest) == Good((|EncodeValue(v, cleared)|, Cook(v)))
    ensures |EncodeValue(v, cleared)| >= 12
  {
    hide LE, CookData, CookName, EncodeName, EncodeData, ValueHead, U32, U16;
    var name, data := EncodeName(v.name), EncodeData(v.typ, v.data);
    var head := ValueHead(v.typ, cleared, |name|, |data|);
    Cut(head, name, data, rest);
    HeadBack(v.typ, cleared, |name|, |data|, EncodeValue(v, cleared) + rest);
  }

  /** Reads the values that follow the name of a key, to the last byte; names may differ only beyond case. */
  function ReadValues(b: bytes, count: nat, seen: set<bytes>): Parsed<seq<Value>> {
    if count == 0 then if b == [] then Good([]) else Bad
    else match ReadValue(b)
      case Bad => Bad
      case Good(r) =>
        if UpperName(r.1.name) in seen then Bad
        else match ReadValues(b[r.0..], count - 1, seen + {UpperName(r.1.name)})
          case Bad => Bad
          case Good(more) => Good([r.1] + more)
  }

  function Cooked(vs: seq<Value>): (r: seq<Value>)
    ensures |r| == |vs|
  {
    if vs == [] then [] else [Cook(vs[0])] + Cooked(vs[1..])
  }

  /** No two names are equal up to case, nor equal to one seen before. */
  predicate NamesDiffer(vs: seq<Value>, seen: set<bytes>) {
    vs == [] || (UpperName(vs[0].name) !in seen && NamesDiffer(vs[1..], seen + {UpperName(vs[0].name)}))
  }

  predicate AllFit(vs: seq<Value>) { forall i :: 0 <= i < |vs| ==> Fits(vs[i]) && vs[i].typ < 0x1_0000_0000 }

  lemma {:induction false} ValuesBack(vs: seq<Value>, cleared: bool, seen: set<bytes>)
    requires AllFit(vs)
    ensures ReadValues(EncodeValues(vs, cleared), |vs|, seen) == (if NamesDiffer(Cooked(vs), seen) then Good(Cooked(vs)) else Bad)
  {
    hide LE, ReadValue, EncodeValue, Cook, Fits, UpperName;
    if vs != [] {
      var e, rest := EncodeValue(vs[0], cleared), EncodeValues(vs[1..], cleared);
      ReadBack(vs[0], cleared, rest);
      assert (e + rest)[|e|..] == rest;
      ValuesBack(vs[1..], cleared, seen + {UpperName(Cook(vs[0]).name)});
      assert Cooked(vs)[1..] == Cooked(vs[1..]);
    }
  }

  function HeadRest(used: nat, name: nat, count: nat): (h: bytes)
    ensures |h| == 12
  {
    Enc32(used) + Enc16(name) + Enc16(count) + Zeros(4)
  }

  function RecordHead(room: nat, identity: nat, used: nat, name: nat, count: nat): (h: bytes)
    ensures |h| == 20
  {
    Enc32(room) + Enc32(identity) + HeadRest(used, name, count)
  }

  /** The bytes a key needs. */
  function UsedSize(name: bytes, vs: seq<Value>, cleared: bool): nat { 20 + |name| + |EncodeValues(vs, cleared)| }

  /** A key record in a given amount of space, with an identity. */
  function Slot(name: bytes, vs: seq<Value>, cleared: bool, room: nat, identity: nat): (b: bytes)
    requires UsedSize(name, vs, cleared) <= room
    ensures |b| == room
  {
    var values := EncodeValues(vs, cleared);
    RecordHead(room, identity, UsedSize(name, vs, cleared), |name|, |vs|) + name + values + Zeros(room - UsedSize(name, vs, cleared))
  }

  /** Reads a key record: its name and its values. */
  function ReadRecord(b: bytes): Parsed<(bytes, seq<Value>)>
    requires 20 <= |b|
  {
    if 20 + U16(b, 12) > |b| then Bad
    else match ReadValues(b[20 + U16(b, 12)..], U16(b, 14), {})
      case Bad => Bad
      case Good(vs) => Good((b[20..20 + U16(b, 12)], vs))
  }

  lemma RecordBack(room: nat, identity: nat, used: nat, name: nat, count: nat, b: bytes)
    requires 20 <= |b| && b[..20] == RecordHead(room, identity, used, name, count)
    requires room < 0x1_0000_0000 && identity < 0x1_0000_0000 && used < 0x1_0000_0000 && name <= 0xffff && count <= 0xffff
    ensures U32(b, 0) == room && U32(b, 4) == identity && U32(b, 8) == used && U16(b, 12) == name && U16(b, 14) == count
  {
    hide LE, U32, U16;
    var h := b[..20];
    assert b[0..4] == h[..4] == Enc32(room);
    assert b[4..8] == h[4..8] == Enc32(identity);
    assert b[8..12] == h[8..12] == Enc32(used);
    assert b[12..14] == h[12..14] == Enc16(name);
    assert b[14..16] == h[14..16] == Enc16(count);
    WordAt(b, 0, room); WordAt(b, 4, identity); WordAt(b, 8, used); HalfAt(b, 12, name); HalfAt(b, 14, count);
  }

  lemma WordAt(b: bytes, o: nat, v: nat)
    requires o + 4 <= |b| && b[o..o + 4] == Enc32(v) && v < 0x1_0000_0000
    ensures U32(b, o) == v
  {
    U32Enc(v);
  }

  lemma HalfAt(b: bytes, o: nat, v: nat)
    requires o + 2 <= |b| && b[o..o + 2] == Enc16(v) && v <= 0xffff
    ensures U16(b, o) == v
  {
    U16Enc(v);
  }

  /** A stored record reads back as its key, however much space it was given. */
  lemma SlotBack(name: bytes, vs: seq<Value>, cleared: bool, room: nat, identity: nat)
    requires UsedSize(name, vs, cleared) <= room < 0x1_0000_0000 && identity < 0x1_0000_0000 && |name| <= 0xffff && |vs| <= 0xffff
             && AllFit(vs)
    ensures var b, used := Slot(name, vs, cleared, room, identity), UsedSize(name, vs, cleared);
            && U32(b, 0) == room && U32(b, 4) == identity && U32(b, 8) == used && 20 <= used <= |b|
            && ReadRecord(b[..used]) == if NamesDiffer(Cooked(vs), {}) then Good((name, Cooked(vs))) else Bad
  {
    hide LE, U32, U16, RecordHead, ReadValues, EncodeValues, NamesDiffer, Cooked;
    var b, used := Slot(name, vs, cleared, room, identity), UsedSize(name, vs, cleared);
    var head, values := RecordHead(room, identity, used, |name|, |vs|), EncodeValues(vs, cleared);
    Cut(head, name, values, Zeros(room - used));
    RecordBack(room, identity, used, |name|, |vs|, b);
    var r := b[..used];
    assert r == head + name + values;
    Cut(head, name, values, []);
    assert head + name + values + [] == r;
    RecordBack(room, identity, used, |name|, |vs|, r);
    assert r[20 + |name|..] == values;
    ValuesBack(vs, cleared, {});
  }

  lemma PutFront(a: bytes, b: bytes, rest: bytes, v: nat)
    requires |a| == 4 && |b| == 4
    ensures Put32(a + b + rest, 0, v) == Enc32(v) + b + rest && Put32(a + b + rest, 4, v) == a + Enc32(v) + rest
  {
  }

  function SlotRest(name: bytes, vs: seq<Value>, cleared: bool, room: nat): bytes
    requires UsedSize(name, vs, cleared) <= room
  {
    HeadRest(UsedSize(name, vs, cleared), |name|, |vs|) + name + EncodeValues(vs, cleared) + Zeros(room - UsedSize(name, vs, cleared))
  }

  lemma SlotIs(name: bytes, vs: seq<Value>, cleared: bool, room: nat, identity: nat)
    requires UsedSize(name, vs, cleared) <= room
    ensures Slot(name, vs, cleared, room, identity) == Enc32(room) + Enc32(identity) + SlotRest(name, vs, cleared, room)
  {
    hide EncodeValues, LE, Enc32, HeadRest;
    var h, v, z := HeadRest(UsedSize(name, vs, cleared), |name|, |vs|), EncodeValues(vs, cleared),
        Zeros(room - UsedSize(name, vs, cleared));
    assert Enc32(room) + Enc32(identity) + h + name + v + z == Enc32(room) + Enc32(identity) + (h + name + v + z);
  }

  /** More space behind a record: only its leading length changes. */
  lemma SlotGrown(name: bytes, vs: seq<Value>, cleared: bool, room: nat, identity: nat, more: nat)
    requires UsedSize(name, vs, cleared) <= room
    ensures var b := Slot(name, vs, cleared, room, identity) + Zeros(more);
            |b| >= 20 && Put32(b, 0, room + more) == Slot(name, vs, cleared, room + more, identity)
  {
    hide EncodeValues, LE, Enc32, HeadRest, Slot, Put32;
    SlotIs(name, vs, cleared, room, identity);
    SlotIs(name, vs, cleared, room + more, identity);
    var used := UsedSize(name, vs, cleared);
    var base := HeadRest(used, |name|, |vs|) + name + EncodeValues(vs, cleared);
    assert Zeros(room - used) + Zeros(more) == Zeros(room + more - used);
    assert SlotRest(name, vs, cleared, room) + Zeros(more) == base + (Zeros(room - used) + Zeros(more)) == SlotRest(name, vs, cleared,
        room + more);
    assert Slot(name, vs, cleared, room, identity) + Zeros(more) == Enc32(room) + Enc32(identity) + SlotRest(name, vs, cleared,
        room + more);
    PutFront(Enc32(room), Enc32(identity), SlotRest(name, vs, cleared, room + more), room + more);
  }

  lemma SlotNamed(name: bytes, vs: seq<Value>, cleared: bool, room: nat, identity: nat, other: nat)
    requires UsedSize(name, vs, cleared) <= room
    ensures Put32(Slot(name, vs, cleared, room, identity), 4, other) == Slot(name, vs, cleared, room, other)
  {
    hide EncodeValues, LE, Enc32, HeadRest, Slot, Put32, SlotRest;
    SlotIs(name, vs, cleared, room, identity);
    SlotIs(name, vs, cleared, room, other);
    PutFront(Enc32(room), Enc32(identity), SlotRest(name, vs, cleared, room), other);
  }

  // ----- as the program does it

  /** Encodes a key, or fails when something does not fit its 16-bit length. */
  method EncodeKey(name: bytes, vs: seq<Value>, cleared: bool, minimum: nat) returns (r: Parsed<bytes>)
    ensures r.Good? <==> |name| <= 0xffff && |vs| <= 0xffff && forall i :: 0 <= i < |vs| ==> Fits(vs[i])
    ensures r.Good? ==> UsedSize(name, vs, cleared) <= |r.value| && r.value == Slot(name, vs, cleared, |r.value|, 0)
    ensures r.Good? ==> |r.value| == 20 + |name| + (if |EncodeValues(vs, cleared)| < minimum then minimum else |EncodeValues(vs, cleared)|)
  {
    hide LE, Slot, EncodeValue, Fits, EncodeName, EncodeData;
    r := Bad;
    var values, i, fits := [], 0, true;
    ValuesNone(vs, cleared);
    while i < |vs| && fits
      invariant 0 <= i <= |vs| && fits == (forall j :: 0 <= j < i ==> Fits(vs[j]))
      invariant fits ==> values == EncodeValues(vs[..i], cleared)
    {
      fits := |EncodeName(vs[i].name)| <= 0xffff && |EncodeData(vs[i].typ, vs[i].data)| <= 0xffff;
      FitsIs(vs[i]);
      ValuesMore(vs, i, cleared);
      if fits { values := values + EncodeValue(vs[i], cleared); }
      i := i + 1;
    }
    assert vs[..|vs|] == vs;
    if fits && |name| <= 0xffff && |vs| <= 0xffff {
      var capacity := if |values| < minimum then minimum else |values|;
      var room := 20 + |name| + capacity;
      var record := Zeros(room);
      record := Splice(record, 0, Enc32(room));
      record := Splice(record, 8, Enc32(20 + |name| + |values|));
      record := Splice(record, 12, Enc16(|name|));
      record := Splice(record, 14, Enc16(|vs|));
      record := Splice(record, 20, name);
      record := Splice(record, 20 + |name|, values);
      RecordBuilt(name, vs, cleared, room, record);
      r := Good(record);
    }
  }

  lemma FitsIs(v: Value)
    ensures Fits(v) <==> |EncodeName(v.name)| <= 0xffff && |EncodeData(v.typ, v.data)| <= 0xffff
  {
  }

  lemma ValuesNone(vs: seq<Value>, cleared: bool)
    ensures EncodeValues(vs[..0], cleared) == []
  {
  }

  lemma {:induction false} ValuesMore(vs: seq<Value>, i: nat, cleared: bool)
    requires i < |vs|
    ensures EncodeValues(vs[..i + 1], cleared) == EncodeValues(vs[..i], cleared) + EncodeValue(vs[i], cleared)
    decreases i
  {
    hide EncodeValue;
    if i == 0 {
      assert vs[..1][1..] == [];
    } else {
      assert vs[..i + 1][1..] == vs[1..][..i] && vs[..i][1..] == vs[1..][..i - 1];
      ValuesMore(vs[1..], i - 1, cleared);
    }
  }

  lemma RecordBuilt(name: bytes, vs: seq<Value>, cleared: bool, room: nat, record: bytes)
    requires UsedSize(name, vs, cleared) <= room
    requires var values := EncodeValues(vs, cleared);
             record == Splice(Splice(Splice(Splice(Splice(Splice(Zeros(room), 0, Enc32(room)), 8, Enc32(20 + |name| + |values|)), 12,
                 Enc16(|name|)), 14, Enc16(|vs|)), 20, name), 20 + |name|, values)
    ensures record == Slot(name, vs, cleared, room, 0)
  {
    hide EncodeValues, LE;
    var values := EncodeValues(vs, cleared);
    var used := 20 + |name| + |values|;
    var zero := Zeros(room);
    var a := Splice(zero, 0, Enc32(room));
    assert a == Enc32(room) + Zeros(room - 4);
    var b := Splice(a, 8, Enc32(used));
    assert b == Enc32(room) + Zeros(4) + Enc32(used) + Zeros(room - 12);
    var c := Splice(b, 12, Enc16(|name|));
    assert c == Enc32(room) + Zeros(4) + Enc32(used) + Enc16(|name|) + Zeros(room - 14);
    var d := Splice(c, 14, Enc16(|vs|));
    assert d == Enc32(room) + Zeros(4) + Enc32(used) + Enc16(|name|) + Enc16(|vs|) + Zeros(room - 16);
    assert Enc32(0) == Zeros(4);
    assert d == RecordHead(room, 0, used, |name|, |vs|) + Zeros(room - 20);
  }

  /** Reads a key record. */
  method ParseRecord(record: bytes) returns (r: Parsed<(bytes, seq<Value>)>)
    requires 20 <= |record|
    ensures r == ReadRecord(record)
  {
    hide LE, U32, U16, ReadValue, UpperName;
    var nameLength, count := U16(record, 12), U16(record, 14);
    r := Bad;
    if 20 + nameLength <= |record| {
      var cursor, i, vs, seen, ok := 20 + nameLength, 0, [], {}, true;
      ghost var all := ReadValues(record[cursor..], count, {});
      PrependNone(all);
      while i < count && ok
        invariant 0 <= i <= count && 20 + nameLength <= cursor <= |record|
        invariant ok ==> all == Prepend(vs, ReadValues(record[cursor..], count - i, seen))
        invariant !ok ==> all == Bad
      {
        var v := ReadValue(record[cursor..]);
        ValueEnds(record[cursor..]);
        if v.Bad? || UpperName(v.value.1.name) in seen {
          ok := false;
        } else {
          assert record[cursor..][v.value.0..] == record[cursor + v.value.0..];
          PrependMore(vs, v.value.1, ReadValues(record[cursor + v.value.0..], count - i - 1, seen + {UpperName(v.value.1.name)}));
          vs, seen, cursor := vs + [v.value.1], seen + {UpperName(v.value.1.name)}, cursor + v.value.0;
        }
        i := i + 1;
      }
      assert vs + [] == vs;
      if ok && cursor == |record| {
        r := Good((record[20..20 + nameLength], vs));
      }
    }
  }

  function Prepend(vs: seq<Value>, r: Parsed<seq<Value>>): Parsed<seq<Value>> {
    match r
    case Bad => Bad
    case Good(more) => Good(vs + more)
  }

  lemma PrependNone(r: Parsed<seq<Value>>)
    ensures Prepend([], r) == r
  {
    match r {
      case Bad =>
      case Good(more) => assert [] + more == more;
    }
  }

  lemma PrependMore(vs: seq<Value>, v: Value, r: Parsed<seq<Value>>)
    ensures Prepend(vs, match r case Bad => Bad case Good(more) => Good([v] + more)) == Prepend(vs + [v], r)
  {
    match r {
      case Bad =>
      case Good(more) => assert vs + ([v] + more) == vs + [v] + more;
    }
  }

  lemma ValueEnds(b: bytes)
    ensures ReadValue(b).Good? ==> ReadValue(b).value.0 <= |b|
  {
  }
}
