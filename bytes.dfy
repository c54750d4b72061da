/** Fixed-width integers and their little-endian byte encodings, as BitConverter and
    BinaryReader/BinaryWriter produce and consume them on a little-endian machine. */
module Bytes {

  type byte = bv8

  /** The 16-bit little-endian value stored in two bytes. */
  function LeU16(s: seq<byte>): bv16
    requires |s| == 2
  {
    (s[0] as bv16) | ((s[1] as bv16) << 8)
  }

  /** The 32-bit little-endian value stored in four bytes. */
  function LeU32(s: seq<byte>): bv32
    requires |s| == 4
  {
    (s[0] as bv32) | ((s[1] as bv32) << 8) | ((s[2] as bv32) << 16) | ((s[3] as bv32) << 24)
  }

  /** The low byte of a 32-bit value (a C# `(byte)` cast). */
  function Low8(x: bv32): byte
  {
    (x & 0xFF) as byte
  }

  /** BinaryWriter.Write(ushort): two bytes, least significant first. */
  function U16Le(x: bv16): (r: seq<byte>)
    ensures |r| == 2
  {
    [(x & 0xFF) as byte, (x >> 8) as byte]
  }

  lemma LeU16OfU16Le(x: bv16)
    ensures LeU16(U16Le(x)) == x
  {
  }

  /** BitConverter.GetBytes(uint) / BinaryWriter.Write(uint): four bytes, least significant first. */
  function U32Le(x: bv32): (r: seq<byte>)
    ensures |r| == 4
  {
    [Low8(x), Low8(x >> 8), Low8(x >> 16), Low8(x >> 24)]
  }

  /** Splitting a 32-bit value assembled from four bytes gives the four bytes back. */
  lemma SplitJoin32(a: byte, b: byte, c: byte, d: byte)
    ensures var x := (a as bv32) | ((b as bv32) << 8) | ((c as bv32) << 16) | ((d as bv32) << 24);
      Low8(x) == a && Low8(x >> 8) == b && Low8(x >> 16) == c && Low8(x >> 24) == d
  {
  }

  lemma LeU32OfU32Le(x: bv32)
    ensures LeU32(U32Le(x)) == x
  {
  }

  lemma U32LeOfLeU32(s: seq<byte>)
    requires |s| == 4
    ensures U32Le(LeU32(s)) == s
  {
    SplitJoin32(s[0], s[1], s[2], s[3]);
  }

  // Counts and sizes that the code reads and writes as C# `int`s are modelled as integers, with
  // their four bytes converted arithmetically.

  const INT32_MIN: int := -0x8000_0000
  const INT32_MAX: int := 0x7FFF_FFFF

  /** The unsigned value of four little-endian bytes. */
  function LeUInt32(s: seq<byte>): (r: int)
    requires |s| == 4
    ensures 0 <= r < 0x1_0000_0000
  {
    s[0] as int + 0x100 * (s[1] as int) + 0x1_0000 * (s[2] as int) + 0x100_0000 * (s[3] as int)
  }

  /** The four little-endian bytes of an unsigned 32-bit value. */
  function UInt32Le(u: int): (r: seq<byte>)
    requires 0 <= u < 0x1_0000_0000
    ensures |r| == 4
  {
    [(u % 0x100) as byte, (u / 0x100 % 0x100) as byte, (u / 0x1_0000 % 0x100) as byte, (u / 0x100_0000) as byte]
  }

  /** BinaryReader.ReadInt32: the two's-complement value of four little-endian bytes. */
  function LeInt32(s: seq<byte>): (r: int)
    requires |s| == 4
    ensures INT32_MIN <= r <= INT32_MAX
  {
    var u := LeUInt32(s);
    if u < 0x8000_0000 then u else u - 0x1_0000_0000
  }

  /** BinaryWriter.Write(int): the four little-endian bytes of the value's 32-bit pattern. */
  function Int32Le(n: int): (r: seq<byte>)
    ensures |r| == 4
  {
    UInt32Le(n % 0x1_0000_0000)
  }

  lemma ByteValue(n: int)
    requires 0 <= n < 0x100
    ensures (n as byte) as int == n
  {
    if n < 0x80 {
      if n < 0x40 {} else {}
    } else {
      if n < 0xC0 {} else {}
    }
  }

  lemma Digits(u: int)
    requires 0 <= u < 0x1_0000_0000
    ensures u % 0x100 + 0x100 * (u / 0x100 % 0x100) + 0x1_0000 * (u / 0x1_0000 % 0x100) + 0x100_0000 * (u / 0x100_0000) == u
  {
    var a := u / 0x100;
    var b := a / 0x100;
    assert u / 0x1_0000 == b;
    assert u / 0x100_0000 == b / 0x100;
    assert b == 0x100 * (b / 0x100) + b % 0x100;
    assert a == 0x100 * b + a % 0x100;
  }

  lemma LeUInt32OfUInt32Le(u: int)
    requires 0 <= u < 0x1_0000_0000
    ensures LeUInt32(UInt32Le(u)) == u
  {
    ByteValue(u % 0x100);
    ByteValue(u / 0x100 % 0x100);
    ByteValue(u / 0x1_0000 % 0x100);
    ByteValue(u / 0x100_0000);
    Digits(u);
  }

  /** A non-negative int written as an int32 reads back as the same unsigned value. */
  lemma LeUInt32OfInt32Le(n: int)
    requires 0 <= n <= INT32_MAX
    ensures LeUInt32(Int32Le(n)) == n
  {
    assert n % 0x1_0000_0000 == n;
    LeUInt32OfUInt32Le(n);
  }

  /** Every C# `int` written with Write(int) reads back with ReadInt32. */
  lemma LeInt32OfInt32Le(n: int)
    requires INT32_MIN <= n <= INT32_MAX
    ensures LeInt32(Int32Le(n)) == n
  {
    var u := if n >= 0 then n else n + 0x1_0000_0000;
    assert n % 0x1_0000_0000 == u;
    LeUInt32OfUInt32Le(u);
  }

  /** Four bytes read as a C# `int` and written back are the same four bytes. */
  lemma Int32LeOfLeInt32(s: seq<byte>)
    requires |s| == 4
    ensures Int32Le(LeInt32(s)) == s
  {
    assert LeInt32(s) % 0x1_0000_0000 == LeUInt32(s);
    UInt32LeOfLeUInt32(s);
  }

  lemma UInt32LeOfLeUInt32(s: seq<byte>)
    requires |s| == 4
    ensures UInt32Le(LeUInt32(s)) == s
  {
    UInt32LeOfDigits(s[0] as int, s[1] as int, s[2] as int, s[3] as int, s);
  }

  lemma UInt32LeOfDigits(b0: int, b1: int, b2: int, b3: int, s: seq<byte>)
    requires |s| == 4 && b0 == s[0] as int && b1 == s[1] as int && b2 == s[2] as int && b3 == s[3] as int
    ensures UInt32Le(b0 + 0x100 * b1 + 0x1_0000 * b2 + 0x100_0000 * b3) == s
  {
    DigitsOf(b0, b1, b2, b3);
    ByteBack(b0, s[0]);
    ByteBack(b1, s[1]);
    ByteBack(b2, s[2]);
    ByteBack(b3, s[3]);
  }

  lemma ByteBack(x: int, b: byte)
    requires x == b as int
    ensures x as byte == b
  {
  }

  /** The base-256 digits of a number are the digits it was built from. */
  lemma DigitsOf(b0: int, b1: int, b2: int, b3: int)
    requires 0 <= b0 < 0x100 && 0 <= b1 < 0x100 && 0 <= b2 < 0x100 && 0 <= b3 < 0x100
    ensures var u := b0 + 0x100 * b1 + 0x1_0000 * b2 + 0x100_0000 * b3;
      u % 0x100 == b0 && u / 0x100 % 0x100 == b1 && u / 0x1_0000 % 0x100 == b2 && u / 0x100_0000 == b3
  {
    var u := b0 + 0x100 * b1 + 0x1_0000 * b2 + 0x100_0000 * b3;
    var a := b1 + 0x100 * b2 + 0x1_0000 * b3;
    var c := b2 + 0x100 * b3;
    assert u == b0 + 0x100 * a;
    assert u / 0x100 == a && u % 0x100 == b0;
    assert a == b1 + 0x100 * c;
    assert a / 0x100 == c && a % 0x100 == b1;
    assert u / 0x1_0000 == c;
    assert c / 0x100 == b3 && c % 0x100 == b2;
    assert u / 0x100_0000 == b3;
  }

  /** The eight little-endian bytes of a C# `long`'s 64-bit pattern. */
  function Int64Le(n: int): (r: seq<byte>)
    ensures |r| == 8
  {
    var u := n % 0x1_0000_0000_0000_0000;
    seq(8, k requires 0 <= k < 8 => (u / Pow256(k) % 0x100) as byte)
  }

  function Pow256(k: nat): (r: nat)
    ensures r > 0
  {
    if k == 0 then 1 else 0x100 * Pow256(k - 1)
  }

  /** The value of a 32-bit pattern read as a two's-complement C# `int`. */
  function Signed32(x: bv32): int
  {
    if x < 0x8000_0000 then x as int else x as int - 0x1_0000_0000
  }

  function Min(a: int, b: int): int { if a <= b then a else b }
}
