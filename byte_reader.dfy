/** The reading side of dnlib's in-memory image stream and of .NET's BinaryReader: a byte
    sequence and a position. Multi-byte reads fail when fewer bytes remain; `ReadBytes`
    fails on a negative count and otherwise returns at most the bytes that remain. */
module ByteReader {
  import opened Wrappers
  import opened Bytes

  function ByteAt(data: seq<byte>, pos: int): Result<byte>
  {
    if 0 <= pos < |data| then Ok(data[pos]) else Fail(IOError)
  }

  function U16At(data: seq<byte>, pos: int): Result<bv16>
  {
    if 0 <= pos && pos + 2 <= |data| then Ok(LeU16(data[pos..pos + 2])) else Fail(IOError)
  }

  function U32At(data: seq<byte>, pos: int): Result<bv32>
  {
    if 0 <= pos && pos + 4 <= |data| then Ok(LeU32(data[pos..pos + 4])) else Fail(IOError)
  }

  /** ReadInt32 at `pos`, as a C# `int`. */
  function Int32At(data: seq<byte>, pos: int): Result<int>
  {
    if 0 <= pos && pos + 4 <= |data| then Ok(LeInt32(data[pos..pos + 4])) else Fail(IOError)
  }

  /** ReadUInt32 at `pos`, as the unsigned number rather than the bit pattern. */
  function UInt32ValueAt(data: seq<byte>, pos: int): Result<int>
  {
    if 0 <= pos && pos + 4 <= |data| then Ok(LeUInt32(data[pos..pos + 4])) else Fail(IOError)
  }

  /** The bytes a `ReadBytes(n)` at `pos` returns: `n` of them, or fewer at the end of the data. */
  function Slice(data: seq<byte>, pos: int, n: int): (r: seq<byte>)
    requires 0 <= pos && 0 <= n
    ensures |r| == Min(n, |data| - Min(pos, |data|))
    ensures pos + |r| <= |data| ==> r == data[pos..pos + |r|]
  {
    var lo := Min(pos, |data|);
    data[lo..Min(lo + n, |data|)]
  }

  function BytesAt(data: seq<byte>, pos: int, n: int): Result<seq<byte>>
  {
    if n < 0 || pos < 0 then Fail(IOError) else Ok(Slice(data, pos, n))
  }

  /** Reading `n` bytes that are all there gives exactly those bytes. */
  lemma WholeSlice(data: seq<byte>, p: int, n: int)
    requires 0 <= p && 0 <= n && p + n <= |data|
    ensures BytesAt(data, p, n) == Ok(data[p..p + n])
  {
    assert Min(p, |data|) == p && Min(p + n, |data|) == p + n;
  }

  class Reader {
    const data: seq<byte>
    var pos: int

    constructor (d: seq<byte>)
      ensures data == d && pos == 0
    {
      data := d;
      pos := 0;
    }

    method ReadByte() returns (r: Result<byte>)
      modifies this
      ensures r == ByteAt(data, old(pos))
      ensures pos == if r.Ok? then old(pos) + 1 else old(pos)
    {
      r := ByteAt(data, pos);
      if r.Ok? {
        pos := pos + 1;
      }
    }

    method ReadUInt16() returns (r: Result<bv16>)
      modifies this
      ensures r == U16At(data, old(pos))
      ensures pos == if r.Ok? then old(pos) + 2 else old(pos)
    {
      r := U16At(data, pos);
      if r.Ok? {
        pos := pos + 2;
      }
    }

    method ReadUInt32() returns (r: Result<bv32>)
      modifies this
      ensures r == U32At(data, old(pos))
      ensures pos == if r.Ok? then old(pos) + 4 else old(pos)
    {
      r := U32At(data, pos);
      if r.Ok? {
        pos := pos + 4;
      }
    }

    method ReadInt32() returns (r: Result<int>)
      modifies this
      ensures r == Int32At(data, old(pos))
      ensures pos == if r.Ok? then old(pos) + 4 else old(pos)
    {
      r := Int32At(data, pos);
      if r.Ok? {
        pos := pos + 4;
      }
    }

    method ReadUInt32Value() returns (r: Result<int>)
      modifies this
      ensures r == UInt32ValueAt(data, old(pos))
      ensures pos == if r.Ok? then old(pos) + 4 else old(pos)
    {
      r := UInt32ValueAt(data, pos);
      if r.Ok? {
        pos := pos + 4;
      }
    }

    method ReadBytes(n: int) returns (r: Result<seq<byte>>)
      modifies this
      ensures r == BytesAt(data, old(pos), n)
      ensures pos == if r.Ok? then old(pos) + |r.value| else old(pos)
    {
      r := BytesAt(data, pos, n);
      if r.Ok? {
        pos := pos + |r.value|;
      }
    }
  }
}
