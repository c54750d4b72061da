/** dnlib's `#Blob` heap reader (ECMA-335 Partition II section 24.2.4): a blob is a compressed
    unsigned length (section 23.2) followed by that many bytes, and offset 0 always names the
    empty blob. */
module BlobStreams {
  import opened Wrappers
  import opened Bytes
  import opened DeobUtils

  /** DotNetStream.IsValidOffset: offset 0, or an offset inside the stream. */
  predicate IsValidOffset(data: seq<byte>, offset: nat)
  {
    offset == 0 || offset < |data|
  }

  /** What `GetSize` computes at `offset`: the blob's size and the byte count of its length
      prefix, or None where it returns -1. The prefix is read with the compressed-integer
      reader `VarInt` (dnlib's ReadCompressedUInt32 has the same bounds checks). */
  function Size(data: seq<byte>, offset: nat): (r: Option<(int, int)>)
    ensures r.Some? ==> r.value.1 in {1, 2, 4} && 0 <= r.value.0 < 0x2000_0000
    ensures r.Some? ==> offset + r.value.1 + r.value.0 <= |data|
  {
    if !IsValidOffset(data, offset) then None
    else match VarInt(data, offset)
      case Fail(_) => None
      case Ok((length, pos)) =>
        VarIntShape(data, offset);
        if pos + length < length || pos + length > |data| then None
        else Some((length, pos - offset))
  }

  /** The data `Read` returns at `offset`; None is its null. */
  function BlobAt(data: seq<byte>, offset: nat): Option<seq<byte>>
  {
    if offset == 0 then Some([])
    else match Size(data, offset)
      case None => None
      case Some((size, prefix)) => Some(data[offset + prefix..offset + prefix + size])
  }

  /** The bytes of the sub-stream `CreateStream` returns at `offset`: empty on failure. */
  function StreamAt(data: seq<byte>, offset: nat): seq<byte>
  {
    match Size(data, offset)
    case None => []
    case Some((size, prefix)) => data[offset + prefix..offset + prefix + size]
  }

  /** The #Blob stream: its bytes and the position of its image stream. */
  class BlobStream {
    const data: seq<byte>
    var position: int

    constructor(data: seq<byte>)
      ensures this.data == data && position == 0
    {
      this.data := data;
      position := 0;
    }

    /** GetSize: -1 (and compressedLen -1) on failure; otherwise the size and the prefix length.
        Once the prefix decodes the position is left just past it, whether or not the blob fits. */
    method GetSize(offset: nat) returns (size: int, compressedLen: int)
      modifies this
      ensures Size(data, offset).None? ==> size == -1 && compressedLen == -1
      ensures Size(data, offset).Some? ==> (size, compressedLen) == Size(data, offset).value
      ensures Size(data, offset).Some? ==> position == offset + compressedLen
      ensures Size(data, offset).None? ==>
        position == if !IsValidOffset(data, offset) then old(position)
                    else if VarInt(data, offset).Ok? then VarInt(data, offset).value.1
                    else offset
    {
      compressedLen := -1;
      if !IsValidOffset(data, offset) {
        return -1, compressedLen;
      }
      position := offset;
      var length := VarInt(data, position);
      if length.Fail? {
        return -1, compressedLen;
      }
      var (value, next) := length.value;
      position := next;
      if position + value < value || position + value > |data| {
        return -1, compressedLen;
      }
      compressedLen := position - offset;
      size := value;
    }

    /** Read: the blob at `offset`, the empty blob for offset 0, None (null) on failure. */
    method Read(offset: nat) returns (r: Option<seq<byte>>)
      modifies this
      ensures r == BlobAt(data, offset)
      ensures r.Some? && offset != 0 ==> position == offset + Size(data, offset).value.1 + |r.value|
    {
      if offset == 0 {
        return Some([]);
      }
      var size, compressedLen := GetSize(offset);
      if size < 0 {
        return None;
      }
      r := Some(data[position..position + size]);
      position := position + size;
    }

    /** ReadNoNull: Read, with the empty blob in place of null. */
    method ReadNoNull(offset: nat) returns (r: seq<byte>)
      modifies this
      ensures BlobAt(data, offset).Some? ==> r == BlobAt(data, offset).value
      ensures BlobAt(data, offset).None? ==> r == []
    {
      var b := Read(offset);
      r := if b.Some? then b.value else [];
    }

    /** CreateStream: a window of `size` bytes starting after the prefix, or an empty stream. */
    method CreateStream(offset: nat) returns (r: seq<byte>)
      modifies this
      ensures r == StreamAt(data, offset)
    {
      var size, compressedLen := GetSize(offset);
      if size < 0 {
        return [];
      }
      r := data[offset + compressedLen..offset + compressedLen + size];
    }
  }

  /** The compressed-integer reader at `offset` sees the bytes from `offset` on. */
  lemma VarIntShift(data: seq<byte>, offset: nat)
    requires offset <= |data|
    ensures VarInt(data[offset..], 0).Ok? ==> VarInt(data, offset) == Ok((VarInt(data[offset..], 0).value.0, offset + VarInt(data[offset..], 0).value.1))
  {
    var d := data[offset..];
    if |d| > 0 {
      assert d[0] == data[offset];
      if |d| > 1 { assert d[1] == data[offset + 1]; }
      if |d| > 3 { assert d[2] == data[offset + 2] && d[3] == data[offset + 3]; }
    }
  }

  /** Round trip: a blob written as its compressed length followed by its bytes, at any offset
      other than 0, reads back as exactly that blob, through Read and through CreateStream. */
  lemma BlobRoundTrip(data: seq<byte>, offset: nat, blob: seq<byte>, rest: seq<byte>)
    requires 0 < offset <= |data| && |blob| < 0x2000_0000
    requires data[offset..] == CompressUInt(|blob|) + blob + rest
    ensures BlobAt(data, offset) == Some(blob)
    ensures StreamAt(data, offset) == blob
  {
    PrefixAt(data, offset, blob, rest);
    assert Size(data, offset) == Some((|blob|, |CompressUInt(|blob|)|));
  }

  /** The prefix of an encoded blob decodes to its length, and its bytes follow the prefix. */
  lemma PrefixAt(data: seq<byte>, offset: nat, blob: seq<byte>, rest: seq<byte>)
    requires 0 < offset <= |data| && |blob| < 0x2000_0000
    requires data[offset..] == CompressUInt(|blob|) + blob + rest
    ensures VarInt(data, offset) == Ok((|blob|, offset + |CompressUInt(|blob|)|))
    ensures offset + |CompressUInt(|blob|)| + |blob| <= |data|
    ensures data[offset + |CompressUInt(|blob|)|..offset + |CompressUInt(|blob|)| + |blob|] == blob
  {
    var e := CompressUInt(|blob|);
    assert data[offset..] == e + (blob + rest);
    VarIntRoundTrip(|blob|, blob + rest);
    VarIntShift(data, offset);
    BytesAfter(data, offset, e, blob, rest);
  }

  lemma BytesAfter(data: seq<byte>, offset: nat, e: seq<byte>, blob: seq<byte>, rest: seq<byte>)
    requires offset <= |data| && data[offset..] == e + blob + rest
    ensures offset + |e| + |blob| <= |data| && data[offset + |e|..offset + |e| + |blob|] == blob
  {
    assert data[offset + |e|..offset + |e| + |blob|] == data[offset..][|e|..|e| + |blob|];
  }

  /** Read and CreateStream agree everywhere except offset 0, where Read answers the empty blob
      whatever the heap holds there and CreateStream decodes the bytes at 0. */
  lemma ReadAgreesWithCreateStream(data: seq<byte>, offset: nat)
    ensures offset != 0 && BlobAt(data, offset).Some? ==> BlobAt(data, offset).value == StreamAt(data, offset)
    ensures offset != 0 && BlobAt(data, offset).None? ==> StreamAt(data, offset) == []
    ensures BlobAt(data, 0) == Some([])
  {
  }

  /** At offset 0 a heap that starts with a one-byte blob still reads as the empty blob. */
  lemma ZeroOffsetIsEmpty(data: seq<byte>)
    requires |data| >= 2 && data[0] == 1
    ensures BlobAt(data, 0) == Some([]) && StreamAt(data, 0) == [data[1]]
  {
    assert VarInt(data, 0) == Ok((1, 1));
  }

  /** GetSize fails when the prefix claims more bytes than the heap holds. */
  lemma SizeOverrun(data: seq<byte>, offset: nat)
    requires IsValidOffset(data, offset) && VarInt(data, offset).Ok?
    requires VarInt(data, offset).value.1 + VarInt(data, offset).value.0 > |data|
    ensures Size(data, offset).None?
  {
  }
}
