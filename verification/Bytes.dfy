/**
  Bytes, little-endian integers, bitmaps and the CRC-32 that every on-disk
  structure of the storage crates is built from.
 */
module Bytes {
  datatype Option<+T> = None | Some(value: T)

  type byte = x: int | 0 <= x < 256
  type u16 = x: int | 0 <= x < 0x1_0000
  type u32 = x: int | 0 <= x < 0x1_0000_0000
  type u64 = x: int | 0 <= x < 0x1_0000_0000_0000_0000

  function Zeros(n: nat): (s: seq<byte>)
    ensures |s| == n
  {
    seq(n, _ => 0)
  }

  function Min(a: int, b: int): int {
    if a < b then a else b
  }

  function Max(a: int, b: int): int {
    if a < b then b else a
  }

  // ---------- little-endian integers ----------

  function Pow256(n: nat): (p: nat)
    ensures p > 0
  {
    if n == 0 then 1 else 256 * Pow256(n - 1)
  }

  /** The `n` low bytes of `v`, least significant first (`to_le_bytes`). */
  function LittleEndian(v: nat, n: nat): (s: seq<byte>)
    ensures |s| == n
  {
    if n == 0 then [] else [v % 256] + LittleEndian(v / 256, n - 1)
  }

  /** `from_le_bytes`. */
  function FromLittleEndian(s: seq<byte>): (v: nat)
    ensures v < Pow256(|s|)
  {
    if s == [] then 0 else s[0] + 256 * FromLittleEndian(s[1..])
  }

  lemma {:induction false} LittleEndianRoundTrip(v: nat, n: nat)
    requires v < Pow256(n)
    ensures FromLittleEndian(LittleEndian(v, n)) == v
  {
    if n > 0 {
      LittleEndianRoundTrip(v / 256, n - 1);
      assert LittleEndian(v, n)[1..] == LittleEndian(v / 256, n - 1);
    }
  }

  lemma Pow256Values()
    ensures Pow256(2) == 0x1_0000 && Pow256(4) == 0x1_0000_0000
    ensures Pow256(8) == 0x1_0000_0000_0000_0000
  {
    assert Pow256(4) == 256 * Pow256(3) == 65536 * Pow256(2);
    assert Pow256(8) == 256 * Pow256(7) == 65536 * Pow256(6);
    assert Pow256(6) == 256 * Pow256(5) == 65536 * Pow256(4);
  }

  function GetU16(s: seq<byte>, at: nat): u16
    requires at + 2 <= |s|
  {
    Pow256Values();
    FromLittleEndian(s[at..at + 2])
  }

  function GetU32(s: seq<byte>, at: nat): u32
    requires at + 4 <= |s|
  {
    Pow256Values();
    FromLittleEndian(s[at..at + 4])
  }

  function GetU64(s: seq<byte>, at: nat): u64
    requires at + 8 <= |s|
  {
    Pow256Values();
    FromLittleEndian(s[at..at + 8])
  }

  /** A run of 64-bit words, as inodes and indirect blocks hold them. */
  function WordBytes(ws: seq<u64>): (s: seq<byte>)
    ensures |s| == 8 * |ws|
  {
    if ws == [] then [] else LittleEndian(ws[0], 8) + WordBytes(ws[1..])
  }

  lemma {:induction false} WordBytesAt(ws: seq<u64>, k: nat)
    requires k < |ws|
    ensures WordBytes(ws)[8 * k..8 * k + 8] == LittleEndian(ws[k], 8)
  {
    if k > 0 {
      WordBytesAt(ws[1..], k - 1);
      assert WordBytes(ws)[8 * k..8 * k + 8] == WordBytes(ws[1..])[8 * (k - 1)..8 * (k - 1) + 8];
    }
  }

  lemma SliceOfMiddle(pre: seq<byte>, mid: seq<byte>, post: seq<byte>, lo: nat, hi: nat)
    requires lo <= hi <= |mid|
    ensures (pre + mid + post)[|pre| + lo..|pre| + hi] == mid[lo..hi]
  {
  }

  /** Word `k` of a run of words stored after `pre` reads back as written. */
  lemma {:induction false} GetStoredWord(pre: seq<byte>, ws: seq<u64>, post: seq<byte>, k: nat)
    requires k < |ws|
    ensures GetU64(pre + WordBytes(ws) + post, |pre| + 8 * k) == ws[k]
  {
    SliceOfMiddle(pre, WordBytes(ws), post, 8 * k, 8 * k + 8);
    WordBytesAt(ws, k);
    assert ws[k] < Pow256(8) by { Pow256Values(); }
    LittleEndianRoundTrip(ws[k], 8);
  }

  /** An `n`-byte integer stored between `pre` and `post` reads back. */
  lemma {:induction false} StoredInteger(pre: seq<byte>, v: nat, n: nat, post: seq<byte>)
    requires v < Pow256(n)
    ensures var s := pre + LittleEndian(v, n) + post;
      FromLittleEndian(s[|pre|..|pre| + n]) == v
  {
    var s := pre + LittleEndian(v, n) + post;
    assert s[|pre|..|pre| + n] == LittleEndian(v, n);
    LittleEndianRoundTrip(v, n);
  }

  /** `t[at..at + |input|]` becomes `input`. */
  function Patched(t: seq<byte>, at: nat, input: seq<byte>): (r: seq<byte>)
    requires at + |input| <= |t|
    ensures |r| == |t|
  {
    t[..at] + input + t[at + |input|..]
  }

  lemma PatchedLeft(a: seq<byte>, b: seq<byte>, at: nat, input: seq<byte>)
    requires at + |input| <= |a|
    ensures Patched(a + b, at, input) == Patched(a, at, input) + b
  {
    assert (a + b)[at + |input|..] == a[at + |input|..] + b;
  }

  lemma PatchedRight(a: seq<byte>, b: seq<byte>, at: nat, input: seq<byte>)
    requires at + |input| <= |b|
    ensures Patched(a + b, |a| + at, input) == a + Patched(b, at, input)
  {
    assert (a + b)[..|a| + at] == a + b[..at];
    assert (a + b)[|a| + at + |input|..] == b[at + |input|..];
  }

  // ---------- bitmaps ----------

  function Pow2(n: nat): (p: nat)
    ensures p > 0
  {
    if n == 0 then 1 else 2 * Pow2(n - 1)
  }

  /** `x & (1 << k) != 0`. */
  predicate NatBit(x: nat, k: nat) {
    if k == 0 then x % 2 == 1 else NatBit(x / 2, k - 1)
  }

  /** `x | 1 << k`, or `x & !(1 << k)`. */
  function WithNatBit(x: nat, k: nat, on: bool): (y: nat) {
    if k == 0 then x - x % 2 + (if on then 1 else 0) else x % 2 + 2 * WithNatBit(x / 2, k - 1, on)
  }

  lemma {:induction false} WithNatBitReads(x: nat, k: nat, on: bool, j: nat)
    ensures NatBit(WithNatBit(x, k, on), j) == if j == k then on else NatBit(x, j)
  {
    if k > 0 && j > 0 {
      WithNatBitReads(x / 2, k - 1, on, j - 1);
    }
  }

  lemma {:induction false} WithNatBitBound(x: nat, k: nat, on: bool, n: nat)
    requires x < Pow2(n) && k < n
    ensures WithNatBit(x, k, on) < Pow2(n)
  {
    var h := Pow2(n - 1);
    assert Pow2(n) == 2 * h && x / 2 < h;
    if k > 0 {
      WithNatBitBound(x / 2, k - 1, on, n - 1);
    }
  }

  lemma PowersOfTwo()
    ensures Pow2(8) == 256
  {
    assert Pow2(8) == 2 * Pow2(7) == 4 * Pow2(6);
    assert Pow2(6) == 2 * Pow2(5) == 4 * Pow2(4);
  }

  lemma BigPowersOfTwo()
    ensures Pow2(12) == 4096 && Pow2(40) == 0x100_0000_0000 && Pow2(64) == 0x1_0000_0000_0000_0000
  {
    assert Pow2(10) == 1024;
    assert Pow2(20) == 1024 * Pow2(10);
    assert Pow2(30) == 1024 * Pow2(20);
    assert Pow2(40) == 1024 * Pow2(30);
    assert Pow2(50) == 1024 * Pow2(40);
    assert Pow2(60) == 1024 * Pow2(50);
    assert Pow2(64) == 16 * Pow2(60);
  }

  /** Bit `i` of a bitmap; `false` past its end. */
  predicate Bit(s: seq<byte>, i: nat)
  {
    i / 8 < |s| && NatBit(s[i / 8], i % 8)
  }

  /** `set_bit`: bit `i` becomes `on` and no other bit moves. */
  function WithBit(s: seq<byte>, i: nat, on: bool): (t: seq<byte>)
    requires i / 8 < |s|
    ensures |t| == |s| && Bit(t, i) == on
    ensures forall j: nat :: j != i ==> Bit(t, j) == Bit(s, j)
  {
    PowersOfTwo();
    WithNatBitBound(s[i / 8], i % 8, on, 8);
    var t := s[i / 8 := WithNatBit(s[i / 8], i % 8, on)];
    assert forall j: nat :: Bit(t, j) == if j == i then on else Bit(s, j) by {
      forall j: nat ensures Bit(t, j) == if j == i then on else Bit(s, j) {
        WithNatBitReads(s[i / 8], i % 8, on, j % 8);
      }
    }
    t
  }

  // ---------- CRC-32 ----------

  function CrcShift(crc: bv32): bv32 {
    (crc >> 1) ^ (0xedb8_8320 & (0 - (crc & 1)))
  }

  function CrcShifts(crc: bv32, n: nat): bv32
    decreases n
  {
    if n == 0 then crc else CrcShifts(CrcShift(crc), n - 1)
  }

  function CrcByte(crc: bv32, b: byte): bv32 {
    CrcShifts(crc ^ (b as bv32), 8)
  }

  function CrcFold(crc: bv32, bytes: seq<byte>): bv32 {
    if bytes == [] then crc else CrcByte(CrcFold(crc, bytes[..|bytes| - 1]), bytes[|bytes| - 1])
  }

  function CrcValue(crc: bv32): u32 {
    (!crc) as int
  }

  /** The reflected CRC-32 of the 0x04c11db7 polynomial (`crc32`). */
  function Crc32(bytes: seq<byte>): u32 {
    CrcValue(CrcFold(0xffff_ffff, bytes))
  }
}
