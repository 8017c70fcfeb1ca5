/**
 Byte strings, little-endian words and the self-delimiting string code of the Geneva
 metrics wire format, each with the reader that takes it apart again.
 */
module Bytes {
  import opened Wrappers

  type byte = x: int | 0 <= x < 256
  type bytes = seq<byte>

  const WORD16 := 0x1_0000
  const WORD32 := 0x1_0000_0000
  const WORD64 := 0x1_0000_0000_0000_0000

  function Pow256(n: nat): (r: nat)
    ensures r > 0
  {
    if n == 0 then 1 else 256 * Pow256(n - 1)
  }

  /** The low `width` bytes of v, least significant first: what memcpy of a width-byte integer stores. */
  function LE(width: nat, v: nat): (r: bytes)
    ensures |r| == width
    decreases width, v
  {
    if width == 0 then [] else [v % 256] + LE(width - 1, v / 256)
  }

  function FromLE(b: bytes): nat {
    if b == [] then 0 else b[0] + 256 * FromLE(b[1..])
  }

  lemma MulSign(m: int, d: int)
    requires m > 0
    ensures d > 0 ==> m * d >= m
    ensures d < 0 ==> m * d <= -m
  {
  }

  lemma ModUnique(x: int, m: int, k: int, r: int)
    requires m > 0 && 0 <= r < m && x == m * k + r
    ensures x % m == r
  {
    assert x == m * (x / m) + x % m;
    assert m * (x / m - k) == r - x % m;
    MulSign(m, x / m - k);
  }

  lemma {:induction false} ModStep(v: int, p: nat)
    requires p > 0
    ensures v % (256 * p) == v % 256 + 256 * (v / 256 % p)
  {
    var q, b := v / 256 / p, v / 256 % p;
    assert v / 256 == p * q + b;
    assert v == 256 * (p * q + b) + v % 256;
    assert 256 * (p * q) == (256 * p) * q;
    ModUnique(v, 256 * p, q, v % 256 + 256 * b);
  }

  lemma {:induction false} LEKeepsLowBytes(width: nat, v: nat)
    ensures FromLE(LE(width, v)) == v % Pow256(width)
  {
    if width == 0 {
    } else {
      LEKeepsLowBytes(width - 1, v / 256);
      assert LE(width, v)[1..] == LE(width - 1, v / 256);
      ModStep(v, Pow256(width - 1));
    }
  }

  lemma {:induction false} LEOfFromLE(b: bytes)
    ensures LE(|b|, FromLE(b)) == b
  {
    if b == [] {
    } else {
      LEOfFromLE(b[1..]);
      var t := FromLE(b[1..]);
      assert (b[0] + 256 * t) % 256 == b[0] && (b[0] + 256 * t) / 256 == t;
      assert b == [b[0]] + b[1..];
    }
  }

  lemma WordSizes()
    ensures Pow256(1) == 256 && Pow256(2) == WORD16 && Pow256(4) == WORD32 && Pow256(8) == WORD64
  {
    assert Pow256(2) == 256 * Pow256(1);
    assert Pow256(4) == 256 * (256 * Pow256(2));
    assert Pow256(8) == 256 * (256 * (256 * (256 * Pow256(4))));
  }

  /** A string as SerializeString stores it: two bytes of length, then its bytes. */
  function Str(s: bytes): (r: bytes)
    ensures |r| == 2 + |s|
  {
    LE(2, |s|) + s
  }

  function Strs(ss: seq<bytes>): bytes {
    if ss == [] then [] else Str(ss[0]) + Strs(ss[1..])
  }

  lemma Assoc<T>(a: seq<T>, b: seq<T>, c: seq<T>)
    ensures a + (b + c) == (a + b) + c
  {
  }

  // ----- Readers: each returns what it read and the bytes that are left.

  function ReadInt(width: nat, b: bytes): Option<(nat, bytes)> {
    if |b| < width then None else Some((FromLE(b[..width]), b[width..]))
  }

  function ReadStr(b: bytes): Option<(bytes, bytes)> {
    match ReadInt(2, b)
    case None => None
    case Some((n, rest)) => if |rest| < n then None else Some((rest[..n], rest[n..]))
  }

  function ReadStrs(n: nat, b: bytes): Option<(seq<bytes>, bytes)> {
    if n == 0 then Some(([], b)) else
    match ReadStr(b)
    case None => None
    case Some((s, rest)) =>
      match ReadStrs(n - 1, rest)
      case None => None
      case Some((ss, left)) => Some(([s] + ss, left))
  }

  lemma ReadIntOfLE(width: nat, v: nat, rest: bytes)
    ensures ReadInt(width, LE(width, v) + rest) == Some((v % Pow256(width), rest))
  {
    var b := LE(width, v) + rest;
    assert b[..width] == LE(width, v) && b[width..] == rest;
    LEKeepsLowBytes(width, v);
  }

  lemma LEOfReadInt(width: nat, b: bytes)
    requires ReadInt(width, b).Some?
    ensures b == LE(width, ReadInt(width, b).value.0) + ReadInt(width, b).value.1
  {
    LEOfFromLE(b[..width]);
  }

  lemma ReadStrOfStr(s: bytes, rest: bytes)
    requires |s| < WORD16
    ensures ReadStr(Str(s) + rest) == Some((s, rest))
  {
    WordSizes();
    assert Str(s) + rest == LE(2, |s|) + (s + rest);
    ReadIntOfLE(2, |s|, s + rest);
    assert (s + rest)[..|s|] == s && (s + rest)[|s|..] == rest;
  }

  ghost predicate AllShort(ss: seq<bytes>) {
    forall i :: 0 <= i < |ss| ==> |ss[i]| < WORD16
  }

  lemma {:induction false} ReadStrsOfStrs(ss: seq<bytes>, rest: bytes)
    requires AllShort(ss)
    ensures ReadStrs(|ss|, Strs(ss) + rest) == Some((ss, rest))
  {
    if ss == [] {
      assert Strs(ss) + rest == rest;
    } else {
      var tail := Strs(ss[1..]) + rest;
      assert Strs(ss) + rest == Str(ss[0]) + tail;
      ReadStrOfStr(ss[0], tail);
      ReadStrsOfStrs(ss[1..], rest);
      assert ss == [ss[0]] + ss[1..];
    }
  }

  lemma StrOfReadStr(b: bytes)
    requires ReadStr(b).Some?
    ensures b == Str(ReadStr(b).value.0) + ReadStr(b).value.1
  {
    LEOfReadInt(2, b);
    var (n, rest) := ReadInt(2, b).value;
    assert rest == rest[..n] + rest[n..];
    assert b == LE(2, n) + (rest[..n] + rest[n..]);
  }

  lemma {:induction false} StrsOfReadStrs(n: nat, b: bytes)
    requires ReadStrs(n, b).Some?
    ensures |ReadStrs(n, b).value.0| == n
    ensures b == Strs(ReadStrs(n, b).value.0) + ReadStrs(n, b).value.1
  {
    if n == 0 {
    } else {
      StrOfReadStr(b);
      var (s, rest) := ReadStr(b).value;
      StrsOfReadStrs(n - 1, rest);
      var (ss, left) := ReadStrs(n - 1, rest).value;
      assert ([s] + ss)[1..] == ss;
      assert Str(s) + (Strs(ss) + left) == (Str(s) + Strs(ss)) + left;
    }
  }

  /** The string code is uniquely decodable. */
  lemma {:induction false} StrsInjective(a: seq<bytes>, b: seq<bytes>)
    requires AllShort(a) && AllShort(b) && Strs(a) == Strs(b)
    ensures a == b
  {
    if a == [] || b == [] {
    } else {
      ReadStrOfStr(a[0], Strs(a[1..]));
      ReadStrOfStr(b[0], Strs(b[1..]));
      StrsInjective(a[1..], b[1..]);
      assert a == [a[0]] + a[1..] && b == [b[0]] + b[1..];
    }
  }

  lemma {:induction false} StrsLength(ss: seq<bytes>, i: nat)
    requires i < |ss|
    ensures |Strs(ss)| >= 2 * |ss| && |Strs(ss)| >= |ss[i]| + 2
  {
    if |ss| == 1 {
    } else {
      StrsLength(ss[1..], if i == 0 then 0 else i - 1);
    }
  }
}
