/** .NET BinaryReader.ReadString and BinaryWriter.Write(string): a length in 7-bit groups
    (Read7BitEncodedInt) followed by that many bytes of UTF-8, whose decoding does not matter to
    the model. */
module BinaryStrings {
  import opened Wrappers
  import opened Bytes
  import opened ByteReader


  /** `a` shifted left by k seven-bit groups, `a * 128^k`, written as a recursion so that every
      step is linear. */
  function Weighted(a: int, k: nat): int
  {
    if k == 0 then a else 128 * Weighted(a, k - 1)
  }

  /** The C# `int` with the low 32 bits of `u`. */
  function Wrap32(u: int): (r: int)
    ensures INT32_MIN <= r <= INT32_MAX
    ensures INT32_MIN <= u <= INT32_MAX ==> r == u
  {
    var v := u % 0x1_0000_0000;
    if v <= INT32_MAX then v else v - 0x1_0000_0000
  }

  /** The bytes from `pos` to the end; none when `pos` is outside the data. */
  function Rest(data: seq<byte>, pos: int): (r: seq<byte>)
    ensures |r| == if 0 <= pos <= |data| then |data| - pos else 0
  {
    if 0 <= pos <= |data| then data[pos..] else []
  }

  /** A result of SevenBitOf with `m` more bytes counted as consumed. */
  function Consumed(r: Result<(int, int)>, m: int): Result<(int, int)>
  {
    match r
    case Fail(e) => Fail(e)
    case Ok((u, used)) => Ok((u, used + m))
  }

  lemma ConsumedTwice(r: Result<(int, int)>, m: int, n: int)
    ensures Consumed(Consumed(r, m), n) == Consumed(r, m + n)
  {
  }

  /** The values of the bytes, on which the seven-bit arithmetic is done. */
  function Octets(s: seq<byte>): (r: seq<int>)
    ensures |r| == |s|
  {
    seq(|s|, i requires 0 <= i < |s| => s[i] as int)
  }

  /** Read7BitEncodedInt from its k-th byte on, over the byte values that remain, with `acc` the low
      groups read so far: seven bits per byte, least significant group first, while the top bit is
      set; a fifth continued byte is a FormatException. Returns the unwrapped sum and the number of
      bytes consumed. */
  function SevenBitOf(s: seq<int>, k: nat, acc: int): (r: Result<(int, int)>)
    requires k <= 5
    ensures r.Ok? ==> 1 <= r.value.1 <= |s| && r.value.1 <= 5 - k
    decreases 5 - k
  {
    if k == 5 then Fail(FormatError)
    else if |s| == 0 then Fail(IOError)
    else
      var acc' := acc + Weighted(s[0] % 128, k);
      if s[0] >= 128 then Consumed(SevenBitOf(s[1..], k + 1, acc'), 1) else Ok((acc', 1))
  }

  /** Read7BitEncodedInt at `pos`: the value, keeping the low 32 bits of the sum, and the position
      after it. */
  function SevenBitAt(data: seq<byte>, pos: int): (r: Result<(int, int)>)
    ensures r.Ok? ==> INT32_MIN <= r.value.0 <= INT32_MAX && 0 <= pos < r.value.1 <= |data|
  {
    var (u, used) :- SevenBitOf(Octets(Rest(data, pos)), 0, 0);
    Ok((Wrap32(u), pos + used))
  }

  /** ReadString at `pos`: the string's bytes and the position after them. A negative length is an
      IOException, a string running past the end an EndOfStreamException. */
  function StringAt(data: seq<byte>, pos: int): (r: Result<(seq<byte>, int)>)
    ensures r.Ok? ==> 0 <= pos < r.value.1 - |r.value.0| && r.value.1 <= |data|
  {
    var (len, p) :- SevenBitAt(data, pos);
    if len < 0 then Fail(IOError)
    else if p + len > |data| then Fail(IOError)
    else Ok((data[p..p + len], p + len))
  }

  /** The byte holding a value 0..255. */
  function ToByte(i: int): (r: byte)
    requires 0 <= i < 256
    ensures r as int == i
  {
    ByteValue(i);
    i as byte
  }

  /** The byte values BinaryWriter.Write7BitEncodedInt writes for a non-negative number. */
  function Groups(n: nat): (r: seq<int>)
    ensures |r| >= 1
  {
    if n < 128 then [n] else [n % 128 + 128] + Groups(n / 128)
  }

  /** Every group fits a byte. */
  lemma {:induction false} GroupsAreBytes(n: nat)
    ensures forall i :: 0 <= i < |Groups(n)| ==> 0 <= Groups(n)[i] < 256
    decreases n
  {
    if n >= 128 {
      GroupsAreBytes(n / 128);
    }
  }

  /** BinaryWriter.Write7BitEncodedInt for a non-negative length: seven bits per byte, least
      significant group first, the top bit set on every byte but the last. */
  function SevenBitLe(n: nat): (r: seq<byte>)
  {
    if n < 128 then [ToByte(n)] else [ToByte(n % 128 + 128)] + SevenBitLe(n / 128)
  }

  /** The bytes written are the groups. */
  lemma {:induction false} OctetsOfSevenBitLe(n: nat)
    ensures Octets(SevenBitLe(n)) == Groups(n)
    decreases n
  {
    if n >= 128 {
      OctetsOfSevenBitLe(n / 128);
      OctetsAppend([ToByte(n % 128 + 128)], SevenBitLe(n / 128));
    }
  }

  /** BinaryWriter.Write(string) on the string's bytes. */
  function StringLe(s: seq<byte>): seq<byte>
  {
    SevenBitLe(|s|) + s
  }

  lemma OctetsAppend(a: seq<byte>, b: seq<byte>)
    ensures Octets(a + b) == Octets(a) + Octets(b)
  {
  }

  lemma {:induction false} WeightedAdd(a: int, b: int, k: nat)
    ensures Weighted(a + b, k) == Weighted(a, k) + Weighted(b, k)
  {
    if k != 0 {
      WeightedAdd(a, b, k - 1);
    }
  }

  lemma {:induction false} WeightedMono(a: int, b: int, k: nat)
    requires a <= b
    ensures Weighted(a, k) <= Weighted(b, k)
  {
    if k != 0 {
      WeightedMono(a, b, k - 1);
    }
  }

  lemma {:induction false} WeightedShift(a: int, k: nat)
    ensures Weighted(a, k + 1) == Weighted(128 * a, k)
  {
    if k != 0 {
      WeightedShift(a, k - 1);
    }
  }

  /** Splitting off the low group keeps the partial sum below the weight of the next group. */
  lemma GroupStep(n: int, k: nat, acc: int)
    requires 0 <= acc < Weighted(1, k) && 0 <= n
    ensures 0 <= acc + Weighted(n % 128, k) < Weighted(1, k + 1)
    ensures (acc + Weighted(n % 128, k)) + Weighted(n / 128, k + 1) == acc + Weighted(n, k)
  {
    WeightedShift(n / 128, k);
    WeightedAdd(n % 128, 128 * (n / 128), k);
    WeightedMono(0, n % 128, k);
    WeightedMono(n % 128, 127, k);
    WeightedShift(1, k);
    WeightedAdd(1, 127, k);
    assert Weighted(0, k) == 0 by { WeightedAdd(0, 0, k); }
  }

  /** An int32 never needs a fifth continued group. */
  lemma FifthGroupTooBig(n: int, acc: int)
    requires n >= 128 && 0 <= acc
    ensures acc + Weighted(n, 4) > INT32_MAX
  {
    assert Weighted(n, 1) == 128 * n;
    assert Weighted(n, 2) == 0x4000 * n;
    assert Weighted(n, 3) == 0x20_0000 * n;
    assert Weighted(n, 4) == 0x1000_0000 * n;
  }

  lemma OneGroup(n: nat, rest: seq<int>, k: nat, acc: int)
    requires n < 128 && k <= 4
    ensures SevenBitOf(Groups(n) + rest, k, acc) == Ok((acc + Weighted(n, k), |Groups(n)|))
  {
    assert (Groups(n) + rest)[0] == n;
  }

  /** A byte with the top bit set leaves the value to the bytes after it. */
  lemma Continued(s: seq<int>, k: nat, acc: int)
    requires |s| > 0 && s[0] >= 128 && k < 5
    ensures SevenBitOf(s, k, acc) == Consumed(SevenBitOf(s[1..], k + 1, acc + Weighted(s[0] % 128, k)), 1)
  {
  }

  lemma MoreGroups(n: nat, rest: seq<int>, k: nat, acc: int, u: int)
    requires n >= 128 && k <= 3
    requires SevenBitOf(Groups(n / 128) + rest, k + 1, acc + Weighted(n % 128, k)) == Ok((u, |Groups(n / 128)|))
    ensures SevenBitOf(Groups(n) + rest, k, acc) == Ok((u, |Groups(n)|))
  {
    var s := Groups(n) + rest;
    assert s[0] == n % 128 + 128;
    assert s[1..] == Groups(n / 128) + rest;
    assert (n % 128 + 128) % 128 == n % 128;
    Continued(s, k, acc);
  }

  /** A length written with Write7BitEncodedInt reads back with SevenBitOf, whatever follows it. */
  lemma {:induction false} SevenBitRoundTrip(n: nat, rest: seq<int>, k: nat, acc: int)
    requires k <= 4 && 0 <= acc < Weighted(1, k) && acc + Weighted(n, k) <= INT32_MAX
    ensures SevenBitOf(Groups(n) + rest, k, acc) == Ok((acc + Weighted(n, k), |Groups(n)|))
    decreases n
  {
    if n < 128 {
      OneGroup(n, rest, k, acc);
    } else {
      if k == 4 {
        FifthGroupTooBig(n, acc);
        assert false;
      }
      GroupStep(n, k, acc);
      SevenBitRoundTrip(n / 128, rest, k + 1, acc + Weighted(n % 128, k));
      MoreGroups(n, rest, k, acc, acc + Weighted(n, k));
    }
  }

  /** A length written with SevenBitLe at `pos` reads back with Read7BitEncodedInt, and what
      follows it starts where the read stops. */
  lemma SevenBitAtLe(data: seq<byte>, pos: int, n: nat, rest: seq<byte>)
    requires n <= INT32_MAX && 0 <= pos <= |data| && data[pos..] == SevenBitLe(n) + rest
    ensures SevenBitAt(data, pos) == Ok((n, pos + |SevenBitLe(n)|))
    ensures pos + |SevenBitLe(n)| <= |data| && data[pos + |SevenBitLe(n)|..] == rest
  {
    var e := SevenBitLe(n);
    assert Rest(data, pos) == e + rest;
    OctetsOfSevenBitLe(n);
    OctetsAppend(e, rest);
    assert Octets(Rest(data, pos)) == Groups(n) + Octets(rest);
    SevenBitRoundTrip(n, Octets(rest), 0, 0);
    SevenBitAtOf(data, pos, n, |e|);
    DropPrefix(data, pos, e, rest);
  }

  lemma SevenBitAtOf(data: seq<byte>, pos: int, n: int, used: int)
    requires INT32_MIN <= n <= INT32_MAX && SevenBitOf(Octets(Rest(data, pos)), 0, 0) == Ok((n, used))
    ensures SevenBitAt(data, pos) == Ok((n, pos + used))
  {
  }

  /** A string written with BinaryWriter at `pos` reads back with ReadString, whatever follows it. */
  lemma StringRoundTrip(data: seq<byte>, pos: int, s: seq<byte>, rest: seq<byte>)
    requires |s| <= INT32_MAX && 0 <= pos <= |data| && data[pos..] == StringLe(s) + rest
    ensures StringAt(data, pos) == Ok((s, pos + |StringLe(s)|))
  {
    StringLeSplit(s, rest);
    StringAfterLength(data, pos, s, rest);
  }

  /** A length prefix followed by that many bytes reads back as those bytes. */
  lemma StringAfterLength(data: seq<byte>, pos: int, s: seq<byte>, rest: seq<byte>)
    requires |s| <= INT32_MAX && 0 <= pos <= |data| && data[pos..] == SevenBitLe(|s|) + (s + rest)
    ensures StringAt(data, pos) == Ok((s, pos + |SevenBitLe(|s|)| + |s|))
  {
    SevenBitAtLe(data, pos, |s|, s + rest);
    StringAtOk(data, pos, s, pos + |SevenBitLe(|s|)|, rest);
  }

  lemma StringLeSplit(s: seq<byte>, rest: seq<byte>)
    ensures StringLe(s) + rest == SevenBitLe(|s|) + (s + rest)
    ensures |StringLe(s)| == |SevenBitLe(|s|)| + |s|
  {
  }

  lemma DropPrefix(data: seq<byte>, pos: int, a: seq<byte>, b: seq<byte>)
    requires 0 <= pos <= |data| && data[pos..] == a + b
    ensures pos + |a| <= |data| && data[pos + |a|..] == b
  {
    assert data[pos + |a|..] == data[pos..][|a|..];
  }

  lemma StringAtOk(data: seq<byte>, pos: int, s: seq<byte>, p: int, rest: seq<byte>)
    requires SevenBitAt(data, pos) == Ok((|s|, p)) && 0 <= p <= |data| && data[p..] == s + rest
    ensures StringAt(data, pos) == Ok((s, p + |s|))
  {
    assert data[p..p + |s|] == data[p..][..|s|] == (s + rest)[..|s|] == s;
  }

  /** Reading one byte in place moves one value along the remaining values. */
  lemma OctetsStep(data: seq<byte>, pos: int)
    requires 0 <= pos < |data|
    ensures Octets(Rest(data, pos))[0] == data[pos] as int
    ensures Octets(Rest(data, pos))[1..] == Octets(Rest(data, pos + 1))
  {
  }

  /** Read7BitEncodedInt's loop reads a continued byte: the remaining groups decide the result. */
  lemma ReadContinued(data: seq<byte>, start: int, pos: int, k: nat, acc: int, next: int, acc': int)
    requires 0 <= pos < |data| && k < 5 && data[pos] as int >= 128
    requires next == pos + 1 && acc' == acc + Weighted(data[pos] as int % 128, k)
    requires SevenBitOf(Octets(Rest(data, start)), 0, 0) == Consumed(SevenBitOf(Octets(Rest(data, pos)), k, acc), k)
    ensures SevenBitOf(Octets(Rest(data, start)), 0, 0) == Consumed(SevenBitOf(Octets(Rest(data, next)), k + 1, acc'), k + 1)
  {
    OctetsStep(data, pos);
    ChainStep(SevenBitOf(Octets(Rest(data, start)), 0, 0), Octets(Rest(data, pos)), Octets(Rest(data, next)), k, acc, acc');
  }

  lemma ChainStep(whole: Result<(int, int)>, s: seq<int>, tail: seq<int>, k: nat, acc: int, acc': int)
    requires |s| > 0 && s[0] >= 128 && k < 5 && tail == s[1..] && acc' == acc + Weighted(s[0] % 128, k)
    requires whole == Consumed(SevenBitOf(s, k, acc), k)
    ensures whole == Consumed(SevenBitOf(tail, k + 1, acc'), k + 1)
  {
    Continued(s, k, acc);
    ConsumedTwice(SevenBitOf(tail, k + 1, acc'), 1, k);
  }

  /** Read7BitEncodedInt's loop reads the last byte. */
  lemma ReadLast(data: seq<byte>, start: int, pos: int, k: nat, acc: int)
    requires 0 <= pos < |data| && k < 5 && data[pos] as int < 128
    requires SevenBitOf(Octets(Rest(data, start)), 0, 0) == Consumed(SevenBitOf(Octets(Rest(data, pos)), k, acc), k)
    ensures SevenBitOf(Octets(Rest(data, start)), 0, 0) == Ok((acc + Weighted(data[pos] as int % 128, k), k + 1))
  {
    OctetsStep(data, pos);
  }

  /** Read7BitEncodedInt's loop finds no byte to read. */
  lemma ReadPastEnd(data: seq<byte>, start: int, pos: int, k: nat, acc: int)
    requires !(0 <= pos < |data|) && k < 5
    requires SevenBitOf(Octets(Rest(data, start)), 0, 0) == Consumed(SevenBitOf(Octets(Rest(data, pos)), k, acc), k)
    ensures SevenBitOf(Octets(Rest(data, start)), 0, 0) == Fail(IOError)
  {
  }

  /** One pass of Read7BitEncodedInt's loop: reads the k-th byte and adds its low seven bits to
      `count`. Returns whether the top bit asks for another byte, and the new count. */
  method ReadGroup(rd: Reader, ghost start: int, k: nat, count: int) returns (r: Result<(bool, int)>)
    requires k < 5 && rd.pos == start + k
    requires SevenBitOf(Octets(Rest(rd.data, start)), 0, 0) == Consumed(SevenBitOf(Octets(Rest(rd.data, rd.pos)), k, count), k)
    modifies rd
    ensures r.Fail? ==> SevenBitOf(Octets(Rest(rd.data, start)), 0, 0) == Fail(r.error)
    ensures r.Ok? ==> rd.pos == start + k + 1
    ensures r.Ok? && !r.value.0 ==> SevenBitOf(Octets(Rest(rd.data, start)), 0, 0) == Ok((r.value.1, k + 1))
    ensures r.Ok? && r.value.0 ==>
      SevenBitOf(Octets(Rest(rd.data, start)), 0, 0) == Consumed(SevenBitOf(Octets(Rest(rd.data, rd.pos)), k + 1, r.value.1), k + 1)
  {
    if !(0 <= rd.pos < |rd.data|) {
      ReadPastEnd(rd.data, start, rd.pos, k, count);
    }
    ghost var p := rd.pos;
    var b :- rd.ReadByte();
    var count' := count + Weighted(b as int % 128, k);
    if b as int < 128 {
      ReadLast(rd.data, start, p, k, count);
      return Ok((false, count'));
    }
    ReadContinued(rd.data, start, p, k, count, rd.pos, count');
    r := Ok((true, count'));
  }

  /** BinaryReader.Read7BitEncodedInt on `rd`. */
  method Read7BitEncodedInt(rd: Reader) returns (r: Result<int>)
    modifies rd
    ensures SevenBitAt(rd.data, old(rd.pos)).Ok? ==>
      r == Ok(SevenBitAt(rd.data, old(rd.pos)).value.0) && rd.pos == SevenBitAt(rd.data, old(rd.pos)).value.1
    ensures SevenBitAt(rd.data, old(rd.pos)).Fail? ==> r == Fail(SevenBitAt(rd.data, old(rd.pos)).error)
  {
    var count := 0;
    var k := 0;
    ghost var start := rd.pos;
    while true
      invariant 0 <= k <= 5 && rd.pos == start + k
      invariant SevenBitOf(Octets(Rest(rd.data, start)), 0, 0) == Consumed(SevenBitOf(Octets(Rest(rd.data, rd.pos)), k, count), k)
      decreases 5 - k
    {
      if k == 5 {
        return Fail(FormatError);
      }
      var g :- ReadGroup(rd, start, k, count);
      count := g.1;
      k := k + 1;
      if !g.0 {
        return Ok(Wrap32(count));
      }
    }
  }

  /** BinaryReader.ReadString on `rd`, keeping the string's UTF-8 bytes. */
  method ReadString(rd: Reader) returns (r: Result<seq<byte>>)
    modifies rd
    ensures StringAt(rd.data, old(rd.pos)).Ok? ==>
      r == Ok(StringAt(rd.data, old(rd.pos)).value.0) && rd.pos == StringAt(rd.data, old(rd.pos)).value.1
    ensures StringAt(rd.data, old(rd.pos)).Fail? ==> r == Fail(StringAt(rd.data, old(rd.pos)).error)
  {
    var len :- Read7BitEncodedInt(rd);
    if len < 0 {
      return Fail(IOError);
    }
    if rd.pos + len > |rd.data| {
      return Fail(IOError);
    }
    r := Ok(rd.data[rd.pos..rd.pos + len]);
    rd.pos := rd.pos + len;
  }
}
