/** Babel.NET's encrypted resource assembly: the resolver type that holds it, the two XOR keys
    its decrypt method applies to the frame's counts, and the frame itself once decrypted: a
    masked count, that many names written with BinaryWriter, an optionally masked payload
    length and the payload (an assembly whose resources are merged into the module).

    `FramePayload` specifies what `decryptResourceAssembly` returns; `ResourceFrame` is the frame
    Babel writes, and `FrameRoundTrip` proves the reader recovers its payload. */
module BabelResources {
  import opened Wrappers
  import opened Bytes
  import opened ByteReader
  import opened BinaryStrings
  import opened Cil

  // ---------------------------------------------------------------------------------------
  // C# `int ^ int`

  /** Bytewise XOR of two equally long byte strings. */
  function XorBytes(a: seq<byte>, b: seq<byte>): (r: seq<byte>)
    requires |a| == |b|
    ensures |r| == |a|
  {
    seq(|a|, i requires 0 <= i < |a| => a[i] ^ b[i])
  }

  lemma XorTwice(x: seq<byte>, k: seq<byte>)
    requires |x| == |k|
    ensures XorBytes(XorBytes(x, k), k) == x
  {
    var y := XorBytes(XorBytes(x, k), k);
    forall i | 0 <= i < |x| ensures y[i] == x[i] {
      assert y[i] == (x[i] ^ k[i]) ^ k[i];
    }
  }

  /** The C# `int` XOR of `a` and `b`: their 32-bit patterns XORed, which is the bytes of their
      little-endian encodings XORed one by one. */
  function Xor32(a: int, b: int): (r: int)
    ensures INT32_MIN <= r <= INT32_MAX
  {
    LeInt32(XorBytes(Int32Le(a), Int32Le(b)))
  }

  /** XOR with the same key twice gives back any C# `int`. */
  lemma Xor32Involution(a: int, key: int)
    requires INT32_MIN <= a <= INT32_MAX
    ensures Xor32(Xor32(a, key), key) == a
  {
    XorAgain(Int32Le(a), Int32Le(key), Xor32(a, key));
    LeInt32OfInt32Le(a);
  }

  lemma XorAgain(x: seq<byte>, k: seq<byte>, mid: int)
    requires |x| == 4 && |k| == 4 && mid == LeInt32(XorBytes(x, k))
    ensures LeInt32(XorBytes(Int32Le(mid), k)) == LeInt32(x)
  {
    Int32LeOfLeInt32(XorBytes(x, k));
    XorTwice(x, k);
  }

  lemma Int32LeZero()
    ensures Int32Le(0) == [0, 0, 0, 0]
  {
    assert 0 % 0x1_0000_0000 == 0;
    assert 0 / 0x100 == 0 && 0 / 0x1_0000 == 0 && 0 / 0x100_0000 == 0;
  }

  lemma XorZeros(x: seq<byte>)
    requires |x| == 4
    ensures XorBytes(x, [0, 0, 0, 0]) == x
  {
  }

  /** XOR with the key 0 is the identity on C# `int`s. */
  lemma Xor32Zero(a: int)
    requires INT32_MIN <= a <= INT32_MAX
    ensures Xor32(a, 0) == a
  {
    Int32LeZero();
    XorZeros(Int32Le(a));
    LeInt32OfInt32Le(a);
  }

  // ---------------------------------------------------------------------------------------
  // decryptResourceAssembly

  /** The position after `n` strings read with ReadString from `pos` (none when `n <= 0`, as the
      `for` loop runs no iteration then). */
  function SkipStrings(data: seq<byte>, pos: int, n: int): (r: Result<int>)
    ensures r.Ok? && n > 0 ==> pos < r.value <= |data|
    decreases n
  {
    if n <= 0 then Ok(pos)
    else
      var (_, p) :- StringAt(data, pos);
      SkipStrings(data, p, n - 1)
  }

  /** The payload length and the position of the payload: the next int XOR `key2` when the keys
      are present, otherwise everything from `pos` to the end. */
  function PayloadSpan(data: seq<byte>, pos: int, hasXorKeys: bool, key2: int): Result<(int, int)>
  {
    if hasXorKeys then
      var w :- Int32At(data, pos);
      Ok((Xor32(w, key2), pos + 4))
    else
      Ok((|data| - pos, pos))
  }

  /** What `decryptResourceAssembly` returns for the decrypted bytes: the count is the first int
      XOR `key1`, that many strings are skipped, and `ReadBytes(len)` returns the payload (fewer
      bytes at the end of the data; a negative length is an ArgumentOutOfRangeException). */
  function FramePayload(data: seq<byte>, hasXorKeys: bool, key1: int, key2: int): Result<seq<byte>>
  {
    var masked :- Int32At(data, 0);
    var p :- SkipStrings(data, 4, Xor32(masked, key1));
    PayloadFrom(data, p, hasXorKeys, key2)
  }

  /** The payload read once the names end at `p`. */
  function PayloadFrom(data: seq<byte>, p: int, hasXorKeys: bool, key2: int): Result<seq<byte>>
  {
    var (len, q) :- PayloadSpan(data, p, hasXorKeys, key2);
    if len < 0 then Fail(IndexOutOfRange) else BytesAt(data, q, len)
  }

  /** The names as BinaryWriter writes them one after another. */
  function StringsLe(names: seq<seq<byte>>): seq<byte>
  {
    if |names| == 0 then [] else StringLe(names[0]) + StringsLe(names[1..])
  }

  /** The frame Babel builds: the name count XOR `key1`, the names, the payload length XOR `key2`
      when the keys are used, and the payload. */
  function ResourceFrame(names: seq<seq<byte>>, payload: seq<byte>, hasXorKeys: bool, key1: int, key2: int): seq<byte>
  {
    Int32Le(Xor32(|names|, key1)) + StringsLe(names) + MaskedLength(|payload|, hasXorKeys, key2) + payload
  }

  /** The payload length field: the length XOR `key2` when the keys are used, otherwise absent. */
  function MaskedLength(n: int, hasXorKeys: bool, key2: int): (r: seq<byte>)
    ensures |r| == if hasXorKeys then 4 else 0
  {
    if hasXorKeys then Int32Le(Xor32(n, key2)) else []
  }

  /** Every name is short enough for BinaryWriter to write its length. */
  predicate NamesFit(names: seq<seq<byte>>)
  {
    |names| == 0 || (|names[0]| <= INT32_MAX && NamesFit(names[1..]))
  }

  /** Names written one after another are skipped exactly, whatever follows them. */
  lemma SkipStringsLe(data: seq<byte>, pos: int, names: seq<seq<byte>>, rest: seq<byte>)
    requires NamesFit(names) && 0 <= pos <= |data| && data[pos..] == StringsLe(names) + rest
    ensures SkipStrings(data, pos, |names|) == Ok(pos + |StringsLe(names)|)
  {
    EndsOfLayout(data, pos, names, rest);
    SkipEnds(data, pos, EndsOf(pos, names), |names|, pos + |StringsLe(names)|);
  }

  /** The positions after each of the names, written one after another from `pos`. */
  function EndsOf(pos: int, names: seq<seq<byte>>): (r: seq<int>)
    ensures |r| == |names|
    ensures |names| > 0 ==> r[|r| - 1] == pos + |StringsLe(names)|
    decreases |names|
  {
    if |names| == 0 then []
    else
      var p := pos + |StringLe(names[0])|;
      assert StringsLe(names) == StringLe(names[0]) + StringsLe(names[1..]);
      [p] + EndsOf(p, names[1..])
  }

  /** ReadString from `pos` stops at each of `ends` in turn. */
  predicate Ends(data: seq<byte>, pos: int, ends: seq<int>)
    decreases |ends|
  {
    |ends| == 0
    || (StringAt(data, pos).Ok? && StringAt(data, pos).value.1 == ends[0] && Ends(data, ends[0], ends[1..]))
  }

  lemma {:induction false} SkipEnds(data: seq<byte>, pos: int, ends: seq<int>, n: int, end: int)
    requires Ends(data, pos, ends) && n == |ends| && end == if |ends| == 0 then pos else ends[|ends| - 1]
    ensures SkipStrings(data, pos, n) == Ok(end)
    decreases |ends|
  {
    if |ends| != 0 {
      SkipEnds(data, ends[0], ends[1..], n - 1, end);
      SkipStringsStep(data, pos, n - 1, ends[0], end);
    }
  }

  lemma {:induction false} EndsOfLayout(data: seq<byte>, pos: int, names: seq<seq<byte>>, rest: seq<byte>)
    requires NamesFit(names) && 0 <= pos <= |data| && data[pos..] == StringsLe(names) + rest
    ensures Ends(data, pos, EndsOf(pos, names))
    decreases |names|
  {
    if |names| != 0 {
      var p := pos + |StringLe(names[0])|;
      LayoutTail(data, pos, names, rest);
      EndsOfLayout(data, p, names[1..], rest);
      NamesFitTail(names);
      LayoutStep(data, pos, names[0], StringsLe(names[1..]), rest, p, EndsOf(p, names[1..]));
      assert EndsOf(pos, names) == [p] + EndsOf(p, names[1..]);
    }
  }

  /** After the first name come the others. */
  lemma LayoutTail(data: seq<byte>, pos: int, names: seq<seq<byte>>, rest: seq<byte>)
    requires NamesFit(names) && |names| > 0 && 0 <= pos <= |data| && data[pos..] == StringsLe(names) + rest
    ensures var p := pos + |StringLe(names[0])|;
      NamesFit(names[1..]) && p <= |data| && data[p..] == StringsLe(names[1..]) + rest
  {
    NamesFitTail(names);
    SkipOne(data, pos, names[0], StringsLe(names[1..]), rest);
  }

  /** A name read at `pos`, then the remaining stops, are the stops from `pos`. */
  lemma LayoutStep(data: seq<byte>, pos: int, name: seq<byte>, tail: seq<byte>, rest: seq<byte>, p: int, ends: seq<int>)
    requires |name| <= INT32_MAX && 0 <= pos <= |data| && data[pos..] == StringLe(name) + tail + rest
    requires p == pos + |StringLe(name)| && Ends(data, p, ends)
    ensures Ends(data, pos, [p] + ends)
  {
    SkipOne(data, pos, name, tail, rest);
    EndsCons(data, pos, p, ends);
  }

  lemma EndsCons(data: seq<byte>, pos: int, p: int, ends: seq<int>)
    requires StringAt(data, pos).Ok? && StringAt(data, pos).value.1 == p && Ends(data, p, ends)
    ensures Ends(data, pos, [p] + ends)
  {
    assert ([p] + ends)[1..] == ends;
  }

  lemma NamesFitTail(names: seq<seq<byte>>)
    requires NamesFit(names) && |names| > 0
    ensures |names[0]| <= INT32_MAX && NamesFit(names[1..])
    ensures StringsLe(names) == StringLe(names[0]) + StringsLe(names[1..])
  {
  }

  /** Skipping `m + 1` strings is skipping the first, then `m` more. */
  lemma SkipStringsStep(data: seq<byte>, pos: int, m: nat, p: int, end: int)
    requires StringAt(data, pos).Ok? && StringAt(data, pos).value.1 == p
    requires SkipStrings(data, p, m) == Ok(end)
    ensures SkipStrings(data, pos, m + 1) == Ok(end)
  {
  }

  /** One name is read and the remaining ones follow it. */
  lemma SkipOne(data: seq<byte>, pos: int, name: seq<byte>, tail: seq<byte>, rest: seq<byte>)
    requires |name| <= INT32_MAX && 0 <= pos <= |data| && data[pos..] == StringLe(name) + tail + rest
    ensures StringAt(data, pos) == Ok((name, pos + |StringLe(name)|))
    ensures pos + |StringLe(name)| <= |data| && data[pos + |StringLe(name)|..] == tail + rest
  {
    var e := StringLe(name);
    assert data[pos..] == e + (tail + rest);
    StringRoundTrip(data, pos, name, tail + rest);
    DropPrefix(data, pos, e, tail + rest);
  }

  /** A masked int reads back, unmasked, as the value written. */
  lemma MaskedBack(n: int, key: int)
    requires INT32_MIN <= n <= INT32_MAX
    ensures |Int32Le(Xor32(n, key))| == 4 && Xor32(LeInt32(Int32Le(Xor32(n, key))), key) == n
  {
    LeInt32OfInt32Le(Xor32(n, key));
    Xor32Involution(n, key);
  }

  lemma MaskedLengthBack(n: int, hasXorKeys: bool, key2: int)
    requires INT32_MIN <= n <= INT32_MAX
    ensures var b := MaskedLength(n, hasXorKeys, key2);
      if hasXorKeys then |b| == 4 && Xor32(LeInt32(b), key2) == n else b == []
  {
    if hasXorKeys {
      MaskedBack(n, key2);
    }
  }

  /** Round trip: the reader returns exactly the payload of a frame Babel wrote. */
  lemma FrameRoundTrip(names: seq<seq<byte>>, payload: seq<byte>, hasXorKeys: bool, key1: int, key2: int)
    requires |names| <= INT32_MAX && NamesFit(names) && |payload| <= INT32_MAX
    ensures FramePayload(ResourceFrame(names, payload, hasXorKeys, key1, key2), hasXorKeys, key1, key2) == Ok(payload)
  {
    MaskedBack(|names|, key1);
    MaskedLengthBack(|payload|, hasXorKeys, key2);
    FrameOf(names, payload, hasXorKeys, key1, key2, Int32Le(Xor32(|names|, key1)), MaskedLength(|payload|, hasXorKeys, key2));
  }

  /** The same, for any header bytes that decode to the count and length. */
  lemma FrameOf(names: seq<seq<byte>>, payload: seq<byte>, hasXorKeys: bool, key1: int, key2: int,
                head: seq<byte>, lenBytes: seq<byte>)
    requires NamesFit(names)
    requires |head| == 4 && Xor32(LeInt32(head), key1) == |names|
    requires if hasXorKeys then |lenBytes| == 4 && Xor32(LeInt32(lenBytes), key2) == |payload| else lenBytes == []
    ensures FramePayload(head + StringsLe(names) + lenBytes + payload, hasXorKeys, key1, key2) == Ok(payload)
  {
    var data := head + StringsLe(names) + lenBytes + payload;
    FrameLayout(data, head, StringsLe(names), lenBytes, payload);
    SkipStringsLe(data, 4, names, lenBytes + payload);
    FrameAt(data, |names|, payload, hasXorKeys, key1, key2, head, 4 + |StringsLe(names)|, lenBytes);
  }

  /** The reader on a frame whose masked count decodes to `count`, whose strings end at `p`, and
      whose masked length, if any, decodes to the payload's length. */
  lemma FrameAt(data: seq<byte>, count: int, payload: seq<byte>, hasXorKeys: bool, key1: int, key2: int,
                head: seq<byte>, p: int, lenBytes: seq<byte>)
    requires |head| == 4 && |head| <= |data| && data[0..4] == head && Xor32(LeInt32(head), key1) == count
    requires SkipStrings(data, 4, count) == Ok(p)
    requires if hasXorKeys then |lenBytes| == 4 && Xor32(LeInt32(lenBytes), key2) == |payload| else lenBytes == []
    requires 0 <= p <= |data| && data[p..] == lenBytes + payload
    ensures FramePayload(data, hasXorKeys, key1, key2) == Ok(payload)
  {
    PayloadAt(data, p, lenBytes, payload, hasXorKeys, key2);
    FramePayloadOf(data, hasXorKeys, key1, key2, count, p, p + |lenBytes|, payload);
  }

  lemma FrameLayout(data: seq<byte>, head: seq<byte>, body: seq<byte>, lenBytes: seq<byte>, payload: seq<byte>)
    requires |head| == 4 && data == head + body + lenBytes + payload
    ensures |head| <= |data| && data[0..4] == head && data[4..] == body + (lenBytes + payload)
    ensures data[4 + |body|..] == lenBytes + payload
  {
  }

  /** The reader's three steps, each with its outcome, give the payload. */
  lemma FramePayloadOf(data: seq<byte>, hasXorKeys: bool, key1: int, key2: int, count: int, p: int, q: int, payload: seq<byte>)
    requires Int32At(data, 0).Ok? && Xor32(Int32At(data, 0).value, key1) == count
    requires SkipStrings(data, 4, count) == Ok(p)
    requires PayloadSpan(data, p, hasXorKeys, key2) == Ok((|payload|, q))
    requires BytesAt(data, q, |payload|) == Ok(payload)
    ensures FramePayload(data, hasXorKeys, key1, key2) == Ok(payload)
  {
  }

  lemma PayloadAt(data: seq<byte>, p: int, lenBytes: seq<byte>, payload: seq<byte>, hasXorKeys: bool, key2: int)
    requires 0 <= p <= |data| && data[p..] == lenBytes + payload
    requires if hasXorKeys then |lenBytes| == 4 && Xor32(LeInt32(lenBytes), key2) == |payload| else lenBytes == []
    ensures PayloadSpan(data, p, hasXorKeys, key2) == Ok((|payload|, p + |lenBytes|))
    ensures BytesAt(data, p + |lenBytes|, |payload|) == Ok(payload)
  {
    if hasXorKeys {
      assert data[p..p + 4] == data[p..][..4] == lenBytes;
    }
    var q := p + |lenBytes|;
    DropPrefix(data, p, lenBytes, payload);
    assert q + |payload| == |data| && data[q..q + |payload|] == payload;
    WholeSlice(data, q, |payload|);
  }

  /** Without the keys the count is read as written: the default key 0 masks nothing. */
  lemma CountUnmaskedByDefault(data: seq<byte>)
    requires Int32At(data, 0).Ok?
    ensures Xor32(Int32At(data, 0).value, 0) == Int32At(data, 0).value
  {
    Xor32Zero(Int32At(data, 0).value);
  }

  // ---------------------------------------------------------------------------------------
  // initXorKeys

  const READ_INT32: string := "System.Int32 System.IO.BinaryReader::ReadInt32()"

  /** A `callvirt BinaryReader::ReadInt32(); ldc.i4 k; xor` triple at `i`. */
  predicate TripleAt(instrs: seq<Instr>, i: int)
  {
    0 <= i && i + 2 < |instrs| && IsCallTo(instrs[i], Callvirt, READ_INT32)
    && IsLdcI4(instrs[i + 1]) && instrs[i + 2].opcode == Xor
  }

  /** The constants of the triples from `from` on, in order. A ReadInt32 call too close to the end
      makes the scan index past the list: ArgumentOutOfRangeException. */
  function XorKeyInts(instrs: seq<Instr>, from: nat): (r: Result<seq<int>>)
    decreases |instrs| - from
  {
    if from >= |instrs| then Ok([])
    else if !IsCallTo(instrs[from], Callvirt, READ_INT32) then XorKeyInts(instrs, from + 1)
    else if from + 1 >= |instrs| then Fail(IndexOutOfRange)
    else if !IsLdcI4(instrs[from + 1]) then XorKeyInts(instrs, from + 1)
    else if from + 2 >= |instrs| then Fail(IndexOutOfRange)
    else if instrs[from + 2].opcode != Xor then XorKeyInts(instrs, from + 1)
    else
      var rest :- XorKeyInts(instrs, from + 1);
      Ok([LdcI4Value(instrs[from + 1])] + rest)
  }

  /** Every key found is the constant of a triple. */
  lemma {:induction false} XorKeyIntsFromTriples(instrs: seq<Instr>, from: nat, x: int)
    requires XorKeyInts(instrs, from).Ok? && x in XorKeyInts(instrs, from).value
    ensures exists i :: from <= i && TripleAt(instrs, i) && x == LdcI4Value(instrs[i + 1])
    decreases |instrs| - from
  {
    var r := XorKeyInts(instrs, from).value;
    if TripleAt(instrs, from) && x == LdcI4Value(instrs[from + 1]) {
    } else {
      XorKeyIntsFromTriples(instrs, from + 1, x);
    }
  }

  /** Every triple contributes its constant: there are at least as many keys as triples. */
  lemma {:induction false} XorKeyIntsHasTriple(instrs: seq<Instr>, from: nat, i: int)
    requires XorKeyInts(instrs, from).Ok? && from <= i && TripleAt(instrs, i)
    ensures LdcI4Value(instrs[i + 1]) in XorKeyInts(instrs, from).value
    decreases |instrs| - from
  {
    if from != i {
      XorKeyIntsHasTriple(instrs, from + 1, i);
    }
  }

  /** A ReadInt32 call as the last instruction makes the scan throw. */
  lemma {:induction false} TrailingReadThrows(instrs: seq<Instr>, from: nat)
    requires from < |instrs| && IsCallTo(instrs[|instrs| - 1], Callvirt, READ_INT32)
    ensures XorKeyInts(instrs, from).Fail?
    decreases |instrs| - from
  {
    if from < |instrs| - 1 {
      TrailingReadThrows(instrs, from + 1);
    }
  }

  /** A triple at `i` moves its constant from the keys still to find to the keys found. */
  lemma KeyFound(instrs: seq<Instr>, i: nat, found: seq<int>, whole: Result<seq<int>>)
    requires TripleAt(instrs, i) && whole == PrependInts(found, XorKeyInts(instrs, i))
    ensures whole == PrependInts(found + [LdcI4Value(instrs[i + 1])], XorKeyInts(instrs, i + 1))
  {
    var rest := XorKeyInts(instrs, i + 1);
    if rest.Ok? {
      assert found + ([LdcI4Value(instrs[i + 1])] + rest.value) == (found + [LdcI4Value(instrs[i + 1])]) + rest.value;
    }
  }

  function PrependInts(xs: seq<int>, r: Result<seq<int>>): Result<seq<int>>
  {
    if r.Fail? then r else Ok(xs + r.value)
  }

  // ---------------------------------------------------------------------------------------
  // The resolver

  /** An embedded resource: its name and its (encrypted) data. */
  datatype EmbeddedResource = EmbeddedResource(name: string, data: seq<byte>)

  /** What `find` learns about a type of the module from dnlib's type graph (the signature tests
      are not part of this model): whether it has events, whether its fields have the four
      required types, the register method BabelUtils finds, the embedded resource it names, and
      the instructions of its `Assembly (Stream)` method, if it has one. */
  datatype TypeInfo = TypeInfo(
    hasEvents: bool,
    hasRequiredFieldTypes: bool,
    registerMethod: Option<MethodRef>,
    resource: Option<EmbeddedResource>,
    decryptMethod: Option<seq<Instr>>)

  /** Does the type pass `find`'s filters, before its decrypt method is looked up? */
  predicate IsResolverCandidate(t: TypeInfo)
  {
    !t.hasEvents && t.hasRequiredFieldTypes && t.registerMethod.Some? && t.resource.Some?
  }

  /** The first candidate at or after `from`, if any. */
  function FirstCandidate(types: seq<TypeInfo>, from: nat): (r: Option<nat>)
    ensures r.Some? ==> from <= r.value < |types| && IsResolverCandidate(types[r.value])
    ensures r.Some? ==> forall j :: from <= j < r.value ==> !IsResolverCandidate(types[j])
    ensures r.None? ==> forall j :: from <= j < |types| ==> !IsResolverCandidate(types[j])
    decreases |types| - from
  {
    if from >= |types| then None
    else if IsResolverCandidate(types[from]) then Some(from)
    else FirstCandidate(types, from + 1)
  }

  /** One ReadString of the loop that skips the names, with `left` names still to skip. */
  method SkipString(rd: Reader, ghost left: int) returns (r: Result<()>)
    requires left > 0
    modifies rd
    ensures r.Fail? ==> SkipStrings(rd.data, old(rd.pos), left) == Fail(r.error)
    ensures r.Ok? ==> SkipStrings(rd.data, old(rd.pos), left) == SkipStrings(rd.data, rd.pos, left - 1)
  {
    var s :- ReadString(rd);
    r := Ok(());
  }

  /** The loop of decryptResourceAssembly that reads and drops `n` resource names. */
  method SkipNames(rd: Reader, n: int) returns (r: Result<()>)
    modifies rd
    ensures r.Fail? ==> SkipStrings(rd.data, old(rd.pos), n) == Fail(r.error)
    ensures r.Ok? ==> SkipStrings(rd.data, old(rd.pos), n) == Ok(rd.pos)
  {
    ghost var left := n;
    var i := 0;
    while i < n
      invariant left == n - i
      invariant SkipStrings(rd.data, old(rd.pos), n) == SkipStrings(rd.data, rd.pos, left)
      decreases n - i
    {
      var x :- SkipString(rd, left);
      left := left - 1;
      i := i + 1;
    }
    r := Ok(());
  }

  /** The end of decryptResourceAssembly: the payload length and the payload. */
  method ReadPayload(rd: Reader, hasXorKeys: bool, key2: int) returns (r: Result<seq<byte>>)
    modifies rd
    ensures r == PayloadFrom(rd.data, old(rd.pos), hasXorKeys, key2)
  {
    var len: int;
    if hasXorKeys {
      var w :- rd.ReadInt32();
      len := Xor32(w, key2);
    } else {
      len := |rd.data| - rd.pos;
    }
    if len < 0 {
      return Fail(IndexOutOfRange);
    }
    r := rd.ReadBytes(len);
  }

  class ResourceResolver {
    /** The index of the resolver type among the module's types, once found. */
    var resolverType: Option<nat>
    var registerMethod: Option<MethodRef>
    var encryptedResource: Option<EmbeddedResource>
    var hasXorKeys: bool
    var xorKey1: int
    var xorKey2: int

    constructor ()
      ensures resolverType == None && registerMethod == None && encryptedResource == None
      ensures !hasXorKeys && xorKey1 == 0 && xorKey2 == 0
    {
      resolverType := None;
      registerMethod := None;
      encryptedResource := None;
      hasXorKeys := false;
      xorKey1 := 0;
      xorKey2 := 0;
    }

    predicate Detected()
      reads this
    {
      resolverType.Some?
    }

    /** initXorKeys: the keys are taken, in order, only when exactly two triples are found. */
    method InitXorKeys(instrs: seq<Instr>) returns (r: Result<()>)
      modifies this
      ensures r.Ok? <==> XorKeyInts(instrs, 0).Ok?
      ensures r.Ok? && |XorKeyInts(instrs, 0).value| == 2 ==>
        hasXorKeys && xorKey1 == XorKeyInts(instrs, 0).value[0] && xorKey2 == XorKeyInts(instrs, 0).value[1]
      ensures !(r.Ok? && |XorKeyInts(instrs, 0).value| == 2) ==>
        hasXorKeys == old(hasXorKeys) && xorKey1 == old(xorKey1) && xorKey2 == old(xorKey2)
      ensures resolverType == old(resolverType) && registerMethod == old(registerMethod)
      ensures encryptedResource == old(encryptedResource)
    {
      var ints: seq<int> := [];
      var i := 0;
      assert XorKeyInts(instrs, 0).Ok? ==> [] + XorKeyInts(instrs, 0).value == XorKeyInts(instrs, 0).value;
      while i < |instrs|
        invariant 0 <= i <= |instrs|
        invariant XorKeyInts(instrs, 0) == PrependInts(ints, XorKeyInts(instrs, i))
        invariant unchanged(this)
      {
        if IsCallTo(instrs[i], Callvirt, READ_INT32) {
          if i + 1 >= |instrs| {
            return Fail(IndexOutOfRange);
          }
          if IsLdcI4(instrs[i + 1]) {
            if i + 2 >= |instrs| {
              return Fail(IndexOutOfRange);
            }
            if instrs[i + 2].opcode == Xor {
              KeyFound(instrs, i, ints, XorKeyInts(instrs, 0));
              ints := ints + [LdcI4Value(instrs[i + 1])];
            }
          }
        }
        i := i + 1;
      }
      assert ints + [] == ints;
      if |ints| == 2 {
        hasXorKeys := true;
        xorKey1 := ints[0];
        xorKey2 := ints[1];
      }
      r := Ok(());
    }

    /** find: the first candidate type becomes the resolver; one without an `Assembly (Stream)`
        method is an ApplicationException. */
    method Find(types: seq<TypeInfo>) returns (r: Result<()>)
      modifies this
      ensures FirstCandidate(types, 0).None? ==>
        r.Ok? && resolverType == old(resolverType) && encryptedResource == old(encryptedResource)
      ensures FirstCandidate(types, 0).Some? && types[FirstCandidate(types, 0).value].decryptMethod.None? ==>
        r == Fail(ApplicationError) && resolverType == old(resolverType)
      ensures FirstCandidate(types, 0).Some? && types[FirstCandidate(types, 0).value].decryptMethod.Some? ==>
        var k := FirstCandidate(types, 0).value;
        (r.Ok? <==> XorKeyInts(types[k].decryptMethod.value, 0).Ok?)
        && (r.Ok? ==> resolverType == Some(k) && registerMethod == types[k].registerMethod
                      && encryptedResource == types[k].resource)
    {
      var i := 0;
      while i < |types|
        invariant 0 <= i <= |types|
        invariant FirstCandidate(types, 0) == FirstCandidate(types, i)
        invariant unchanged(this)
      {
        var t := types[i];
        if IsResolverCandidate(t) {
          if t.decryptMethod.None? {
            return Fail(ApplicationError);
          }
          var x :- InitXorKeys(t.decryptMethod.value);
          resolverType := Some(i);
          registerMethod := t.registerMethod;
          encryptedResource := t.resource;
          return Ok(());
        }
        i := i + 1;
      }
      r := Ok(());
    }

    /** decryptResourceAssembly, on the bytes the resource decrypter returned. */
    method DecryptResourceAssembly(decrypted: seq<byte>) returns (r: Result<seq<byte>>)
      ensures r == FramePayload(decrypted, hasXorKeys, xorKey1, xorKey2)
    {
      var reader := new Reader(decrypted);
      var masked :- reader.ReadInt32();
      var numResources := Xor32(masked, xorKey1);
      var skipped :- SkipNames(reader, numResources);
      r := ReadPayload(reader, hasXorKeys, xorKey2);
    }

    /** mergeResources: the encrypted resource, if any, is decrypted (by `decrypter`, the
        resource decrypter), its frame's payload becomes `assembly`, and the field is cleared so
        a second call finds nothing. */
    method MergeResources(decrypter: seq<byte> -> seq<byte>) returns (r: Result<Option<EmbeddedResource>>, assembly: seq<byte>)
      modifies this
      ensures old(encryptedResource).None? ==> r == Ok(None) && encryptedResource == None
      ensures old(encryptedResource).Some? ==>
        var payload := FramePayload(decrypter(old(encryptedResource).value.data), hasXorKeys, xorKey1, xorKey2);
        (r.Ok? <==> payload.Ok?)
        && (r.Ok? ==> r.value == old(encryptedResource) && assembly == payload.value && encryptedResource == None)
        && (r.Fail? ==> r.error == payload.error && encryptedResource == old(encryptedResource))
      ensures hasXorKeys == old(hasXorKeys) && xorKey1 == old(xorKey1) && xorKey2 == old(xorKey2)
      ensures resolverType == old(resolverType)
    {
      assembly := [];
      if encryptedResource.None? {
        return Ok(None), assembly;
      }
      var resource := encryptedResource.value;
      var a := DecryptResourceAssembly(decrypter(resource.data));
      if a.Fail? {
        return Fail(a.error), assembly;
      }
      assembly := a.value;
      encryptedResource := None;
      r := Ok(Some(resource));
    }
  }
}
