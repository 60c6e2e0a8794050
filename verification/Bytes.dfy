/** Octets, big-endian fields and 4-byte padding: the `Byte` helpers every codec here is built on. */
module Bytes {

  type byte = bv8

  datatype Option<+T> = None | Some(value: T)

  /** The octet of a number below sixteen, spelled out so that no integer-to-bits reasoning is needed. */
  ghost function Nibble(h: int): (b: byte)
    requires 0 <= h < 16
    ensures b < 16 && b as int == h
  {
    if h < 8 then if h < 4 then if h < 2 then if h == 0 then 0 else 1 else if h == 2 then 2 else 3
    else if h < 6 then if h == 4 then 4 else 5 else if h == 6 then 6 else 7
    else if h < 12 then if h < 10 then if h == 8 then 8 else 9 else if h == 10 then 10 else 11
    else if h < 14 then if h == 12 then 12 else 13 else if h == 14 then 14 else 15
  }

  lemma JoinNibbles(h: byte, l: byte)
    requires h < 16 && l < 16
    ensures ((h << 4) | l) as int == 16 * (h as int) + l as int
  {
  }

  lemma BackToByte(b: byte)
    ensures (b as int) as bv8 == b
  {
  }

  lemma IntByte(n: int)
    requires 0 <= n < 256
    ensures (n as bv8) as int == n
  {
    hide Nibble;
    JoinNibbles(Nibble(n / 16), Nibble(n % 16));
    BackToByte((Nibble(n / 16) << 4) | Nibble(n % 16));
  }

  function ToByte(n: int): (b: byte)
    requires 0 <= n < 256
    ensures b as int == n
  {
    IntByte(n);
    n as bv8
  }

  lemma SameByte(a: byte, b: byte)
    requires a as int == b as int
    ensures a == b
  {
    assert (a as int) as bv8 == a;
  }

  function Get2(s: seq<byte>, i: nat): (v: int)
    requires i + 1 < |s|
    ensures 0 <= v < 0x10000
  {
    s[i] as int * 256 + s[i + 1] as int
  }

  lemma Get2Local(s: seq<byte>, i: nat)
    requires i + 2 <= |s|
    ensures Get2(s, i) == Get2(s[i..i + 2], 0)
  {
  }

  function Put2(v: int): (s: seq<byte>)
    requires 0 <= v < 0x10000
    ensures |s| == 2 && Get2(s, 0) == v
  {
    [ToByte(v / 256), ToByte(v % 256)]
  }

  /** Two octets are determined by the 16-bit value they spell. */
  lemma Get2Determines(s: seq<byte>, v: int)
    requires |s| == 2 && Get2(s, 0) == v
    ensures s == Put2(v)
  {
    hide ToByte;
    QuotientAndRest(s[0] as int, s[1] as int, v);
    SameByte(s[0], ToByte(v / 256));
    SameByte(s[1], ToByte(v % 256));
    assert s == [s[0], s[1]];
  }

  lemma QuotientAndRest(hi: int, lo: int, v: int)
    requires 0 <= lo < 256 && v == hi * 256 + lo
    ensures v / 256 == hi && v % 256 == lo
  {
  }

  function Get4(s: seq<byte>, i: nat): (v: bv32)
    requires i + 3 < |s|
  {
    (s[i] as bv32 << 24) | (s[i + 1] as bv32 << 16) | (s[i + 2] as bv32 << 8) | s[i + 3] as bv32
  }

  function Put4(v: bv32): (s: seq<byte>)
    ensures |s| == 4
  {
    [((v >> 24) & 0xFF) as byte, ((v >> 16) & 0xFF) as byte, ((v >> 8) & 0xFF) as byte, (v & 0xFF) as byte]
  }

  lemma GetPut4(v: bv32)
    ensures Get4(Put4(v), 0) == v
  {
  }

  lemma Get4Determines(s: seq<byte>)
    requires |s| == 4
    ensures Put4(Get4(s, 0)) == s
  {
    Pack4(s[0], s[1], s[2], s[3]);
  }

  lemma Pack4(a: byte, b: byte, c: byte, d: byte)
    ensures var v := (a as bv32 << 24) | (b as bv32 << 16) | (c as bv32 << 8) | d as bv32;
            && ((v >> 24) & 0xFF) as byte == a && ((v >> 16) & 0xFF) as byte == b
            && ((v >> 8) & 0xFF) as byte == c && (v & 0xFF) as byte == d
  {
  }

  function Get8(s: seq<byte>, i: nat): (v: bv64)
    requires i + 7 < |s|
  {
    (Get4(s, i) as bv64 << 32) | Get4(s, i + 4) as bv64
  }

  function Put8(v: bv64): (s: seq<byte>)
    ensures |s| == 8
  {
    Put4(((v >> 32) & 0xFFFF_FFFF) as bv32) + Put4((v & 0xFFFF_FFFF) as bv32)
  }

  lemma Halves(v: bv64)
    ensures (((v >> 32) & 0xFFFF_FFFF) as bv32 as bv64 << 32) | (v & 0xFFFF_FFFF) as bv32 as bv64 == v
  {
  }

  lemma GetPut8(v: bv64)
    ensures Get8(Put8(v), 0) == v
  {
    hide Put4, Get4;
    Get4Local(Put8(v), 0);
    Get4Local(Put8(v), 4);
    assert Put8(v)[0..4] == Put4(((v >> 32) & 0xFFFF_FFFF) as bv32);
    assert Put8(v)[4..8] == Put4((v & 0xFFFF_FFFF) as bv32);
    GetPut4(((v >> 32) & 0xFFFF_FFFF) as bv32);
    GetPut4((v & 0xFFFF_FFFF) as bv32);
    Halves(v);
  }

  lemma Get4Local(s: seq<byte>, i: nat)
    requires i + 4 <= |s|
    ensures Get4(s, i) == Get4(s[i..i + 4], 0)
  {
  }

  /** Rounding up to a multiple of four, without any width limit. */
  function Pad4(n: nat): (p: nat)
    ensures p % 4 == 0 && n <= p < n + 4
  {
    (n + 3) / 4 * 4
  }

  /** `PadTo4Bytes` as coded: the sum is truncated to sixteen bits. */
  function PadTo4Bytes(size: int): (p: int)
    requires 0 <= size < 0x10000
    ensures 0 <= p < 0x10000 && p % 4 == 0
    ensures size <= 0xFFFC ==> p == Pad4(size)
    ensures size > 0xFFFC ==> p == 0
  {
    if size % 4 != 0 then (size - size % 4 + 4) % 0x10000 else size
  }

  /** A byte string with some octets overwritten from `at` on. */
  function Patch(b: seq<byte>, at: nat, src: seq<byte>): (r: seq<byte>)
    requires at + |src| <= |b|
    ensures |r| == |b|
  {
    b[..at] + src + b[at + |src|..]
  }

  lemma PatchNext(b: seq<byte>, at: nat, x: seq<byte>, y: seq<byte>)
    requires at + |x| + |y| <= |b|
    ensures Patch(Patch(b, at, x), at + |x|, y) == Patch(b, at, x + y)
  {
    assert Patch(b, at, x)[..at + |x|] == b[..at] + x;
    assert Patch(b, at, x)[at + |x| + |y|..] == b[at + |x| + |y|..];
  }

  lemma PatchAgain(b: seq<byte>, at: nat, x: seq<byte>, y: seq<byte>)
    requires at + |x| <= |b| && |x| == |y|
    ensures Patch(Patch(b, at, x), at, y) == Patch(b, at, y)
  {
    assert Patch(b, at, x)[..at] == b[..at];
    assert Patch(b, at, x)[at + |x|..] == b[at + |x|..];
  }

  lemma PatchParts(b: seq<byte>, at: nat, x: seq<byte>)
    requires at + |x| <= |b|
    ensures Patch(b, at, x)[..at] == b[..at] && Patch(b, at, x)[at..at + |x|] == x
    ensures Patch(b, at, x)[at + |x|..] == b[at + |x|..]
  {
  }

  lemma TailKept(b: seq<byte>, c: seq<byte>, p: nat, q: nat)
    requires p <= q <= |b| == |c| && c[p..] == b[p..]
    ensures c[q..] == b[q..]
  {
    SliceShift(b, p, q - p, |b| - p);
    SliceShift(c, p, q - p, |b| - p);
  }

  lemma SliceShift(b: seq<byte>, k: nat, i: nat, j: nat)
    requires i <= j && k + j <= |b|
    ensures b[k + i..k + j] == b[k..][i..j]
  {
  }

  lemma HeadKept(b: seq<byte>, c: seq<byte>, k: nat, p: nat)
    requires k <= p <= |b| && p <= |c| && c[..p] == b[..p]
    ensures c[..k] == b[..k] && c[k..p] == b[k..p]
  {
    assert forall u: seq<byte> | |u| >= p :: u[..p][..k] == u[..k] && u[..p][k..] == u[k..p];
  }

  method Set2Bytes(data: array<byte>, i: nat, value: int)
    requires i + 2 <= data.Length && 0 <= value < 0x10000
    modifies data
    ensures data[..] == Patch(old(data[..]), i, Put2(value))
  {
    data[i + 1] := ToByte(value % 256);
    data[i] := ToByte(value / 256);
  }

  /** `memcpy(data + i, src, |src|)`. */
  method Copy(data: array<byte>, i: nat, src: seq<byte>)
    requires i + |src| <= data.Length
    modifies data
    ensures data[..] == Patch(old(data[..]), i, src)
  {
    forall k | 0 <= k < |src| {
      data[i + k] := src[k];
    }
  }
}
