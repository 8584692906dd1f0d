/** Byte strings, little-endian words, and in-place writes seen as splices. */
module Bytes {

  type byte = x: int | 0 <= x < 256
  type bytes = seq<byte>

  datatype Option<T> = None | Some(value: T)

  /** No element comes twice. */
  ghost predicate Distinct<T>(s: seq<T>) { forall i, j :: 0 <= i < j < |s| ==> s[i] != s[j] }

  function Elements<T(==)>(s: seq<T>): set<T> { set x | x in s }

  function Min(a: nat, b: nat): nat { if a < b then a else b }

  function Max(a: nat, b: nat): nat { if a < b then b else a }

  function Enc16(v: int): (r: bytes)
    ensures |r| == 2
  {
    [v % 256, v / 256 % 256]
  }

  /** The four bytes of v modulo 2^32; a negative v gives its two's complement. */
  function Enc32(v: int): (r: bytes)
    ensures |r| == 4
  {
    [v % 256, v / 256 % 256, v / 256 / 256 % 256, v / 256 / 256 / 256 % 256]
  }

  /** The number whose little-endian digits in base 256 are b. */
  function LE(b: bytes): (v: nat)
    ensures |b| == 1 ==> v < 0x100
    ensures |b| == 2 ==> v < 0x1_0000
    ensures |b| == 3 ==> v < 0x100_0000
    ensures |b| == 4 ==> v < 0x1_0000_0000
  {
    if b == [] then 0 else b[0] as int + 256 * LE(b[1..])
  }

  function U16(b: bytes, o: nat): (v: nat)
    requires o + 2 <= |b|
    ensures v < 0x1_0000
  {
    LE(b[o..o + 2])
  }

  function U32(b: bytes, o: nat): (v: nat)
    requires o + 4 <= |b|
    ensures v < 0x1_0000_0000
  {
    LE(b[o..o + 4])
  }

  /** The same word read as a signed 32-bit integer. */
  function S32(b: bytes, o: nat): (v: int)
    requires o + 4 <= |b|
    ensures -0x8000_0000 <= v < 0x8000_0000
  {
    var u := U32(b, o);
    if u < 0x8000_0000 then u else u - 0x1_0000_0000
  }

  lemma LE2(b: bytes)
    requires |b| == 2
    ensures LE(b) == b[0] as int + 256 * (b[1] as int)
  {
    assert LE(b[1..]) == b[1] as int + 256 * LE(b[1..][1..]);
  }

  lemma LE4(b: bytes)
    requires |b| == 4
    ensures LE(b) == b[0] as int + 256 * (b[1] as int) + 65536 * (b[2] as int) + 16777216 * (b[3] as int)
  {
    LE2(b[2..]);
    assert b[1..][1..] == b[2..];
    assert LE(b[1..]) == b[1] as int + 256 * LE(b[2..]);
  }

  lemma Mod32(v: int, k: int, u: nat)
    requires v == 0x1_0000_0000 * k + u && u < 0x1_0000_0000
    ensures v % 0x1_0000_0000 == u
  {
  }

  lemma U32Enc(v: int)
    ensures LE(Enc32(v)) == v % 0x1_0000_0000
  {
    hide LE;
    var q := v / 256;
    var p := q / 256;
    var m := p / 256;
    LE4(Enc32(v));
    Mod32(v, m / 256, v % 256 + 256 * (q % 256) + 65536 * (p % 256) + 16777216 * (m % 256));
  }

  lemma S32Enc(v: int)
    requires -0x8000_0000 <= v < 0x8000_0000
    ensures S32(Enc32(v), 0) == v
  {
    U32Enc(v);
    assert Enc32(v)[0..4] == Enc32(v);
  }

  lemma U16Enc(v: int)
    ensures LE(Enc16(v)) == v % 0x1_0000
  {
    LE2(Enc16(v));
  }

  /** Overwrites |w| bytes at o. */
  function Splice(b: bytes, o: nat, w: bytes): (r: bytes)
    requires o + |w| <= |b|
    ensures |r| == |b|
  {
    b[..o] + w + b[o + |w|..]
  }

  function Put32(b: bytes, o: nat, v: int): (r: bytes)
    requires o + 4 <= |b|
    ensures |r| == |b|
  {
    Splice(b, o, Enc32(v))
  }

  function Fill(n: nat, v: byte): (r: bytes)
    ensures |r| == n && forall i :: 0 <= i < n ==> r[i] == v
  {
    seq(n, _ => v)
  }

  function Zeros(n: nat): (r: bytes)
    ensures |r| == n && forall i :: 0 <= i < n ==> r[i] == 0
  {
    Fill(n, 0)
  }

  /** A word read from a concatenation lies in one of its halves. */
  lemma U32Concat(a: bytes, b: bytes, o: nat)
    requires o + 4 <= |a| + |b|
    ensures o + 4 <= |a| ==> U32(a + b, o) == U32(a, o)
    ensures |a| <= o ==> U32(a + b, o) == U32(b, o - |a|)
  {
    if o + 4 <= |a| {
      assert (a + b)[o..o + 4] == a[o..o + 4];
    } else if |a| <= o {
      assert (a + b)[o..o + 4] == b[o - |a|..o - |a| + 4];
    }
  }

  lemma SpliceBefore(b: bytes, o: nat, w: bytes, i: nat, j: nat)
    requires o + |w| <= |b| && i <= j <= o
    ensures Splice(b, o, w)[i..j] == b[i..j]
  {
  }

  lemma SpliceAfter(b: bytes, o: nat, w: bytes, i: nat, j: nat)
    requires o + |w| <= |b| && o + |w| <= i <= j <= |b|
    ensures Splice(b, o, w)[i..j] == b[i..j]
  {
  }

  lemma SpliceAt(b: bytes, o: nat, w: bytes)
    requires o + |w| <= |b|
    ensures Splice(b, o, w)[o..o + |w|] == w
  {
  }

  /** Rounds up to one of the alignments in use. */
  function Align(v: nat, a: nat): (r: nat)
    requires a == 8 || a == 16 || a == 0x1000
    ensures v <= r < v + a && r % a == 0
  {
    if a == 8 then (v + 7) / 8 * 8
    else if a == 16 then (v + 15) / 16 * 16
    else (v + 0xfff) / 0x1000 * 0x1000
  }
}
