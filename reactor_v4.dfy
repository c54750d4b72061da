/** The dotNET Reactor 4.x method stream: the 8-byte XOR mask, the three historical record layouts,
    the code-RVA index built from the method table, the rewriting of native stubs, and the writer
    that re-encrypts the opaque native methods on output.

    The functions in the first half specify the decrypted stream: what each layout reads from it,
    which image writes it asks for and which methods it dumps, and what the writer emits. The
    `MethodsDecrypter` class at the end runs the same steps on arrays, a reader and its own fields,
    and is proved to agree with them. */
module ReactorV4 {
  import opened Wrappers
  import opened Bytes
  import opened ByteReader
  import opened Cil
  import DeobUtils
  import opened Dictionary

  // ---------------------------------------------------------------------------------------
  // xorEncrypt

  /** The data after `xorEncrypt` with the C# `long` key: every complete 8-byte little-endian word
      is XORed with the key, so each of its bytes with the key's byte at the same place; the
      trailing `|s| % 8` bytes are left alone. */
  function XorMasked(s: seq<byte>, key: int): (r: seq<byte>)
    ensures |r| == |s|
  {
    seq(|s|, i requires 0 <= i < |s| => if i < |s| / 8 * 8 then s[i] ^ Int64Le(key)[i % 8] else s[i])
  }

  /** The mask is its own inverse: the same call unmasks the stream on reading and masks it on
      writing. */
  lemma XorMaskedInvolution(s: seq<byte>, key: int)
    ensures XorMasked(XorMasked(s, key), key) == s
  {
    var m := XorMasked(s, key);
    assert forall i :: 0 <= i < |s| ==> XorMasked(m, key)[i] == s[i];
  }

  /** A zero key leaves the data as it is. */
  lemma XorMaskedZero(s: seq<byte>)
    ensures XorMasked(s, 0) == s
  {
    Int64LeZero();
    forall i | 0 <= i < |s|
      ensures XorMasked(s, 0)[i] == s[i]
    {
      if i < |s| / 8 * 8 {
        assert 0 <= i % 8 < 8;
      }
    }
  }

  lemma Int64LeZero()
    ensures forall k :: 0 <= k < 8 ==> Int64Le(0)[k] == 0
  {
    forall k | 0 <= k < 8
      ensures Int64Le(0)[k] == 0
    {
      assert 0 / Pow256(k) == 0;
    }
  }

  // ---------------------------------------------------------------------------------------
  // getXorKey

  /** `instrs[i]` is an `ldind.i8` followed by an `ldc.i4`: the constant is the XOR key. */
  predicate XorKeyAt(instrs: seq<Instr>, i: int)
  {
    0 <= i < |instrs| - 1 && instrs[i].opcode == Ldind_I8 && IsLdcI4(instrs[i + 1])
  }

  /** The key found from index `from` on: the constant of the first `ldind.i8; ldc.i4` pair, or 0. */
  function XorKeyFrom(instrs: seq<Instr>, from: nat): int
    decreases |instrs| - from
  {
    if from >= |instrs| - 1 then 0
    else if XorKeyAt(instrs, from) then LdcI4Value(instrs[from + 1])
    else XorKeyFrom(instrs, from + 1)
  }

  function XorKey(instrs: seq<Instr>): int
  {
    XorKeyFrom(instrs, 0)
  }

  /** From `from` on, the first matching pair decides the key. */
  lemma {:induction false} XorKeyFromFirst(instrs: seq<Instr>, from: nat, i: int)
    requires from <= i && XorKeyAt(instrs, i)
    requires forall j :: from <= j < i ==> !XorKeyAt(instrs, j)
    ensures XorKeyFrom(instrs, from) == LdcI4Value(instrs[i + 1])
    decreases i - from
  {
    if from < i {
      assert !XorKeyAt(instrs, from);
      XorKeyFromFirst(instrs, from + 1, i);
    }
  }

  /** Without a matching pair from `from` on, the key is 0. */
  lemma {:induction false} XorKeyFromNone(instrs: seq<Instr>, from: nat)
    requires forall i :: from <= i ==> !XorKeyAt(instrs, i)
    ensures XorKeyFrom(instrs, from) == 0
    decreases |instrs| - from
  {
    if from < |instrs| - 1 {
      assert !XorKeyAt(instrs, from);
      XorKeyFromNone(instrs, from + 1);
    }
  }

  /** The key is the constant after the FIRST `ldind.i8`, or 0 when there is no such pair. */
  lemma XorKeySpec(instrs: seq<Instr>)
    ensures (forall i :: !XorKeyAt(instrs, i)) ==> XorKey(instrs) == 0
    ensures forall i :: XorKeyAt(instrs, i) && (forall j :: 0 <= j < i ==> !XorKeyAt(instrs, j)) ==>
      XorKey(instrs) == LdcI4Value(instrs[i + 1])
  {
    if forall i :: !XorKeyAt(instrs, i) {
      XorKeyFromNone(instrs, 0);
    }
    forall i | XorKeyAt(instrs, i) && (forall j :: 0 <= j < i ==> !XorKeyAt(instrs, j))
      ensures XorKey(instrs) == LdcI4Value(instrs[i + 1])
    {
      XorKeyFromFirst(instrs, 0, i);
    }
  }

  // ---------------------------------------------------------------------------------------
  // The layout of the decrypted stream

  /** The three record layouts: token+RVA dword patches (DNR 3.7 - 3.9.0.1), RVA writes
      (DNR 3.9.8 - 4.4) and the jitter-hooked records (DNR 4.0 - 4.5). */
  datatype Layout = TokenRvaLayout | RvaWriteLayout | JitterLayout

  /** `(tmp & 0xFF000000) == 0x06000000` for a C# `int` `tmp`: its top byte is 0x06, which for a
      value in the int range means it lies in [0x06000000, 0x07000000). */
  predicate MethodTokenMarker(tmp: int)
  {
    0x0600_0000 <= tmp < 0x0700_0000
  }

  /** The layout chosen from the third int32 of the stream, whether the decrypter hooks the
      jitter, and the mode word. */
  function SelectLayout(tmp: int, hooksJitter: bool, mode: int): (r: Layout)
    ensures r == TokenRvaLayout <==> MethodTokenMarker(tmp)
    ensures r == RvaWriteLayout <==> !MethodTokenMarker(tmp) && (!hooksJitter || mode == 1)
    ensures r == JitterLayout <==> !MethodTokenMarker(tmp) && hooksJitter && mode != 1
  {
    if MethodTokenMarker(tmp) then TokenRvaLayout
    else if !hooksJitter || mode == 1 then RvaWriteLayout
    else JitterLayout
  }

  /** A write the decrypter asks the PE image for: bytes at an RVA (`dotNetSafeWrite`) or at a
      file offset (`dotNetSafeWriteOffset`). */
  datatype ImageWrite = ImageWrite(atFileOffset: bool, address: bv32, bytes: seq<byte>)

  /** C# `n / 2` on an int: the quotient truncated toward zero. */
  function Half(n: int): int
  {
    if n >= 0 then n / 2 else -((-n) / 2)
  }

  /** `patchDwords(reader, count)` at `pos`: `count` (rva, dword) pairs, each written as the four
      little-endian bytes of the dword at the RVA, and the position after them. A count of zero
      or less reads nothing. */
  function DwordPatches(data: seq<byte>, pos: int, count: int): (r: Result<(seq<ImageWrite>, int)>)
    ensures r.Ok? ==> r.value.1 == pos + 8 * (if count < 0 then 0 else count)
    ensures r.Ok? ==> |r.value.0| == (if count < 0 then 0 else count)
    ensures r.Ok? ==> forall w :: w in r.value.0 ==> !w.atFileOffset && |w.bytes| == 4
    decreases count
  {
    if count <= 0 then Ok(([], pos))
    else
      var rva :- U32At(data, pos);
      var dword :- U32At(data, pos + 4);
      var (rest, q) :- DwordPatches(data, pos + 8, count - 1);
      Ok(([ImageWrite(false, rva, U32Le(dword))] + rest, q))
  }

  /** The tail of the token+RVA layout: while at least two bytes remain, a token, a dword count
      and half that many dword patches. */
  function TokenRvaTail(data: seq<byte>, pos: int): Result<seq<ImageWrite>>
    decreases |data| - pos
  {
    if pos >= |data| - 1 then Ok([])
    else
      var token :- U32At(data, pos);
      var numDwords :- Int32At(data, pos + 4);
      var (w, q) :- DwordPatches(data, pos + 8, Half(numDwords));
      var rest :- TokenRvaTail(data, q);
      Ok(w + rest)
  }

  /** The tail of the RVA-write layout: while at least two bytes remain, an RVA, a token and a
      size; a positive size is followed by that many bytes written at the RVA (or file offset). */
  function RvaWriteTail(data: seq<byte>, pos: int, useOffsets: bool): Result<seq<ImageWrite>>
    decreases |data| - pos
  {
    if pos >= |data| - 1 then Ok([])
    else
      var (w, next) :- NextRvaWrite(data, pos, useOffsets);
      var rest :- RvaWriteTail(data, next, useOffsets);
      Ok(w + rest)
  }

  /** One record of the RVA-write layout: the write it asks for (none when the size is not
      positive) and the position after it. */
  function NextRvaWrite(data: seq<byte>, pos: int, useOffsets: bool): (r: Result<(seq<ImageWrite>, int)>)
    ensures r.Ok? ==> r.value.1 >= pos + 12 && |r.value.0| <= 1
  {
    var rva :- U32At(data, pos);
    var token :- U32At(data, pos + 4);
    var size :- Int32At(data, pos + 8);
    if size > 0 then
      var newData :- BytesAt(data, pos + 12, size);
      Ok(([ImageWrite(useOffsets, rva, newData)], pos + 12 + |newData|))
    else
      Ok(([], pos + 12))
  }

  /** One record of the jitter-hooked layout: the code RVA, the index word (as an unsigned
      number) and the body bytes. */
  datatype Record = Record(rva: bv32, index: int, code: seq<byte>)

  /** One record read at `pos`: code RVA, index word, size and that many body bytes (fewer at
      the end of the data), with the position after it. */
  function NextRecord(data: seq<byte>, pos: int): (r: Result<(Record, int)>)
    ensures r.Ok? ==> r.value.1 == pos + 12 + |r.value.0.code| && 0 <= pos && r.value.1 <= |data|
  {
    var rva :- U32At(data, pos);
    var index :- UInt32ValueAt(data, pos + 4);
    var size :- Int32At(data, pos + 8);
    var code :- BytesAt(data, pos + 12, size);
    Ok((Record(rva, index, code), pos + 12 + |code|))
  }

  /** The records of the jitter-hooked layout from `pos` on, read while at least two bytes remain. */
  function Records(data: seq<byte>, pos: int): Result<seq<Record>>
    decreases |data| - pos
  {
    if pos >= |data| - 1 then Ok([])
    else
      var (rec, next) :- NextRecord(data, pos);
      var rest :- Records(data, next);
      Ok([rec] + rest)
  }

  // ---------------------------------------------------------------------------------------
  // The code-RVA index

  /** A row of the method table: its RVA, and the first two bytes the image holds at that RVA
      (the method header's first bytes). */
  datatype MethodRow = MethodRow(rva: bv32, header0: byte, header1: byte)

  /** The RVA of the code of a method: one past a tiny header, or past the `4 * (size nibble)`
      bytes of a fat header. */
  function CodeRva(row: MethodRow): bv32
  {
    if row.header0 & 3 == 2 then row.rva + 1
    else row.rva + 4 * ((row.header1 >> 4) as bv32)
  }

  /** `rvaToIndex` built from the rows: rows with RVA 0 are skipped, later rows overwrite earlier
      ones with the same code RVA. */
  function RvaIndex(rows: seq<MethodRow>): Dict<bv32, int>
  {
    if rows == [] then []
    else
      var i := |rows| - 1;
      var d := RvaIndex(rows[..i]);
      if rows[i].rva == 0 then d else Put(d, CodeRva(rows[i]), i)
  }

  /** The row `i` is entered in the index under the key `k`. */
  predicate Indexes(rows: seq<MethodRow>, i: int, k: bv32)
  {
    0 <= i < |rows| && rows[i].rva != 0 && CodeRva(rows[i]) == k
  }

  /** A key is in the index exactly when some row with a nonzero RVA has that code RVA, and it
      maps to the LAST such row. */
  lemma {:induction false} RvaIndexSpec(rows: seq<MethodRow>, k: bv32)
    ensures Lookup(RvaIndex(rows), k).Some? <==> exists i :: Indexes(rows, i, k)
    ensures Lookup(RvaIndex(rows), k).Some? ==>
      var i := Lookup(RvaIndex(rows), k).value;
      Indexes(rows, i, k) && forall j :: i < j < |rows| ==> !Indexes(rows, j, k)
  {
    if rows != [] {
      var n := |rows| - 1;
      var front := rows[..n];
      RvaIndexSpec(front, k);
      assert forall i :: Indexes(front, i, k) ==> Indexes(rows, i, k);
      assert forall i :: 0 <= i < n && Indexes(rows, i, k) ==> Indexes(front, i, k);
      if rows[n].rva == 0 {
        assert forall i :: Indexes(rows, i, k) ==> Indexes(front, i, k);
      } else {
        PutLookup(RvaIndex(front), CodeRva(rows[n]), n, k);
        if !Indexes(rows, n, k) {
          assert forall i :: Indexes(rows, i, k) ==> Indexes(front, i, k);
        }
      }
    }
  }

  /** With distinct code RVAs every row with a nonzero RVA resolves to itself. */
  lemma RvaIndexDistinct(rows: seq<MethodRow>, i: int)
    requires 0 <= i < |rows| && rows[i].rva != 0
    requires forall j :: 0 <= j < |rows| && j != i && rows[j].rva != 0 ==> CodeRva(rows[j]) != CodeRva(rows[i])
    ensures Lookup(RvaIndex(rows), CodeRva(rows[i])) == Some(i)
  {
    RvaIndexSpec(rows, CodeRva(rows[i]));
    assert Indexes(rows, i, CodeRva(rows[i]));
  }

  // ---------------------------------------------------------------------------------------
  // Native stubs

  /** `push ebp; mov ebp, esp; mov eax, imm32; pop ebp; ret`: a native method returning a constant. */
  const NATIVE_LDCI4: seq<bv16> := [0x55, 0x8B, 0xEC, 0xB8, 0xFFFF, 0xFFFF, 0xFFFF, 0xFFFF, 0x5D, 0xC3]
  /** `push ebp; mov ebp, esp; xor eax, eax; pop ebp; ret`: a native method returning 0. */
  const NATIVE_LDCI4_0: seq<bv16> := [0x55, 0x8B, 0xEC, 0x33, 0xC0, 0x5D, 0xC3]
  /** `ldc.i4 0xDEADC0DE; conv.u4; throw`: the placeholder body of an opaque native method. */
  const THROW_DEADCODE: seq<byte> := [0x20, 0xDE, 0xC0, 0xAD, 0xDE, 0x6D, 0x7A]
  /** Index words at or above this mark a native method. */
  const NATIVE_INDEX: int := 0x7000_0000

  /** The CIL body that replaces a native body, and whether the native body is kept as opaque. */
  function RewriteNative(code: seq<byte>): (seq<byte>, bool)
  {
    if DeobUtils.Matches(NATIVE_LDCI4, code) then
      ([0x20] + U32Le(LeU32(code[4..8])) + [0x2A], false)
    else if DeobUtils.Matches(NATIVE_LDCI4_0, code) then ([0x16, 0x2A], false)
    else (THROW_DEADCODE, true)
  }

  /** The three outcomes of the stub rewrite: the constant stub becomes `ldc.i4 <the same four
      bytes>; ret`, the zero stub `ldc.i4.0; ret`, and every other body the 0xDEADC0DE throw,
      kept as opaque. */
  lemma RewriteNativeCases(code: seq<byte>)
    ensures DeobUtils.Matches(NATIVE_LDCI4, code) ==>
      |code| == 10 && RewriteNative(code) == ([0x20] + code[4..8] + [0x2A], false)
    ensures !DeobUtils.Matches(NATIVE_LDCI4, code) && DeobUtils.Matches(NATIVE_LDCI4_0, code) ==>
      RewriteNative(code) == ([0x16, 0x2A], false)
    ensures !DeobUtils.Matches(NATIVE_LDCI4, code) && !DeobUtils.Matches(NATIVE_LDCI4_0, code) ==>
      RewriteNative(code) == (THROW_DEADCODE, true)
  {
    if DeobUtils.Matches(NATIVE_LDCI4, code) {
      assert |code| == 10;
      U32LeOfLeU32(code[4..8]);
    }
  }

  /** The two patterns never both match (their lengths differ), so the order of the tests does
      not matter. */
  lemma StubPatternsDisjoint(code: seq<byte>)
    ensures !(DeobUtils.Matches(NATIVE_LDCI4, code) && DeobUtils.Matches(NATIVE_LDCI4_0, code))
  {
  }

  // ---------------------------------------------------------------------------------------
  // The jitter-hooked records applied

  /** A method dumped by the decrypter: its token and its new code. The header fields it also
      gets from the PE image are not part of this model. */
  datatype DumpedMethod = DumpedMethod(token: bv32, code: seq<byte>)

  /** What the jitter branch accumulates: the dumped methods in order, the opaque native bodies by
      token, the caller's token-to-native-code table (when it passed one) and the native count. */
  datatype JitterState = JitterState(
    dumped: seq<DumpedMethod>,
    nativeMethods: seq<(bv32, seq<byte>)>,
    nativeCode: Option<Dict<bv32, seq<byte>>>,
    totalNative: int)

  /** The token of the method table row with zero-based index `i`. */
  function MethodToken(i: int): bv32
  {
    ((0x0600_0001 + i) % 0x1_0000_0000) as bv32
  }

  /** One record of the jitter branch: an unresolved code RVA is skipped; a resolved one is dumped
      under its row's token, native bodies rewritten first. */
  function JitterStep(st: JitterState, rec: Record, rvaToIndex: Dict<bv32, int>): JitterState
  {
    match Lookup(rvaToIndex, rec.rva)
    case None => st
    case Some(methodIndex) =>
      var token := MethodToken(methodIndex);
      if rec.index >= NATIVE_INDEX then
        var (code, keep) := RewriteNative(rec.code);
        JitterState(
          st.dumped + [DumpedMethod(token, code)],
          if keep then Put(st.nativeMethods, token, rec.code) else st.nativeMethods,
          if st.nativeCode.Some? then Some(Put(st.nativeCode.value, token, rec.code)) else None,
          st.totalNative + 1)
      else
        st.(dumped := st.dumped + [DumpedMethod(token, rec.code)])
  }

  /** The records applied in order. */
  function JitterFold(st: JitterState, recs: seq<Record>, rvaToIndex: Dict<bv32, int>): JitterState
  {
    if recs == [] then st
    else JitterStep(JitterFold(st, recs[..|recs| - 1], rvaToIndex), recs[|recs| - 1], rvaToIndex)
  }

  /** A record whose code RVA is unknown adds nothing; a known one adds exactly one dumped method,
      under the token `0x06000001 + row index`, and counts as native iff its index word is at
      least 0x70000000. */
  lemma JitterStepSpec(st: JitterState, rec: Record, rvaToIndex: Dict<bv32, int>)
    ensures Lookup(rvaToIndex, rec.rva).None? ==> JitterStep(st, rec, rvaToIndex) == st
    ensures Lookup(rvaToIndex, rec.rva).Some? ==>
      var st' := JitterStep(st, rec, rvaToIndex);
      |st'.dumped| == |st.dumped| + 1 && st'.dumped[..|st.dumped|] == st.dumped
      && st'.dumped[|st.dumped|].token == MethodToken(Lookup(rvaToIndex, rec.rva).value)
      && st'.totalNative == st.totalNative + (if rec.index >= NATIVE_INDEX then 1 else 0)
      && (rec.index < NATIVE_INDEX ==> st'.dumped[|st.dumped|].code == rec.code && st'.nativeMethods == st.nativeMethods)
      && (rec.index >= NATIVE_INDEX ==>
            st'.dumped[|st.dumped|].code == RewriteNative(rec.code).0
            && Lookup(st'.nativeMethods, st'.dumped[|st.dumped|].token)
               == if RewriteNative(rec.code).1 then Some(rec.code)
                  else Lookup(st.nativeMethods, st'.dumped[|st.dumped|].token))
  {
    if Lookup(rvaToIndex, rec.rva).Some? && rec.index >= NATIVE_INDEX {
      var token := MethodToken(Lookup(rvaToIndex, rec.rva).value);
      if RewriteNative(rec.code).1 {
        PutLookup(st.nativeMethods, token, rec.code, token);
      }
    }
  }

  // ---------------------------------------------------------------------------------------
  // The whole decrypted stream

  /** What `decrypt` does with the decrypted, unmasked stream: the image writes it asks for and,
      in the jitter-hooked layout, the new jitter state (`None` in the other layouts, which leave
      the dumped methods alone). */
  datatype StreamOutcome = StreamOutcome(layout: Layout, writes: seq<ImageWrite>, jitter: Option<JitterState>)

  /** The stream read from its start: patch count, mode and the peeked third int32 choose the
      layout. The token+RVA layout skips `patchCount` 8-byte pairs and reads a second count and
      mode; the jitter layout starts from an empty list of dumped methods. */
  function DecryptStream(data: seq<byte>, hooksJitter: bool, useOffsets: bool, rows: seq<MethodRow>,
                         st: JitterState): Result<StreamOutcome>
  {
    var patchCount :- Int32At(data, 0);
    var mode :- Int32At(data, 4);
    var tmp :- Int32At(data, 8);
    match SelectLayout(tmp, hooksJitter, mode)
    case TokenRvaLayout =>
      var w :- TokenRvaStream(data, patchCount);
      Ok(StreamOutcome(TokenRvaLayout, w, None))
    case RvaWriteLayout =>
      var w :- RvaWriteStream(data, patchCount, useOffsets);
      Ok(StreamOutcome(RvaWriteLayout, w, None))
    case JitterLayout =>
      var (w, st') :- JitterStream(data, patchCount, rows, st);
      Ok(StreamOutcome(JitterLayout, w, Some(st')))
  }

  /** The token+RVA layout after the first two words: `patchCount` pairs skipped, a second count
      and mode, that many dword patches, then the token+RVA tail. */
  function TokenRvaStream(data: seq<byte>, patchCount: int): Result<seq<ImageWrite>>
  {
    var p := 8 + 8 * patchCount;
    var patchCount2 :- Int32At(data, p);
    var mode2 :- Int32At(data, p + 4);
    var (w, q) :- DwordPatches(data, p + 8, patchCount2);
    var rest :- TokenRvaTail(data, q);
    Ok(w + rest)
  }

  /** The RVA-write layout after the first two words. */
  function RvaWriteStream(data: seq<byte>, patchCount: int, useOffsets: bool): Result<seq<ImageWrite>>
  {
    var (w, q) :- DwordPatches(data, 8, patchCount);
    var rest :- RvaWriteTail(data, q, useOffsets);
    Ok(w + rest)
  }

  /** The jitter-hooked layout after the first two words: the dword patches, the record count
      (read and ignored), and the records replayed from an empty list of dumped methods. */
  function JitterStream(data: seq<byte>, patchCount: int, rows: seq<MethodRow>, st: JitterState)
    : Result<(seq<ImageWrite>, JitterState)>
  {
    var (w, q) :- DwordPatches(data, 8, patchCount);
    var st' :- JitterTail(data, q, rows, st);
    Ok((w, st'))
  }

  /** The jitter-hooked layout after the dword patches: the record count (read and ignored),
      then the records replayed from an empty list of dumped methods. */
  function JitterTail(data: seq<byte>, q: int, rows: seq<MethodRow>, st: JitterState): Result<JitterState>
  {
    var count :- Int32At(data, q);
    var recs :- Records(data, q + 4);
    Ok(JitterFold(st.(dumped := []), recs, RvaIndex(rows)))
  }

  // ---------------------------------------------------------------------------------------
  // Re-encrypting the native methods

  /** A method of the module being written: its token, and the module its declaring type belongs
      to (`None` once the type has been removed). */
  datatype MethodDef = MethodDef(token: bv32, declaringModule: Option<int>)

  /** What the module writer reports for a method body: its RVA, whether its header is tiny, and
      the second byte of the body (a fat header's size nibble). */
  datatype MethodBodyInfo = MethodBodyInfo(rva: bv32, isTiny: bool, code1: byte)

  /** The code RVA of a written body, computed as `CodeRva` computes it from the method table. */
  function BodyCodeRva(mb: MethodBodyInfo): (r: bv32)
    ensures forall h0: byte :: (h0 & 3 == 2 <==> mb.isTiny) ==> r == CodeRva(MethodRow(mb.rva, h0, mb.code1))
  {
    if mb.isTiny then mb.rva + 1 else mb.rva + 4 * ((mb.code1 >> 4) as bv32)
  }

  /** The method's declaring type is still part of the module. */
  predicate InModule(m: MethodDef, moduleId: int)
  {
    m.declaringModule == Some(moduleId)
  }

  /** `validNativeMethods`: the keys of `methodToNativeMethod`, in enumeration order, whose
      declaring type is still in the module. */
  function ValidMethods(d: Dict<MethodDef, seq<byte>>, moduleId: int): (r: seq<MethodDef>)
    ensures |r| <= |d|
  {
    if |d| == 0 then []
    else (if InModule(d[0].0, moduleId) then [d[0].0] else []) + ValidMethods(d[1..], moduleId)
  }

  lemma {:induction false} ValidMethodsSpec(d: Dict<MethodDef, seq<byte>>, moduleId: int, m: MethodDef)
    ensures m in ValidMethods(d, moduleId) <==> m in Keys(d) && InModule(m, moduleId)
  {
    if |d| != 0 {
      ValidMethodsSpec(d[1..], moduleId, m);
    }
  }

  /** The bytes the records of the valid methods take: 12 header bytes plus the code each. */
  function PayloadSize(d: Dict<MethodDef, seq<byte>>, moduleId: int): nat
  {
    if |d| == 0 then 0
    else (if InModule(d[0].0, moduleId) then 12 + |d[0].1| else 0) + PayloadSize(d[1..], moduleId)
  }

  /** `(len & ~15) + 16`: `len` rounded down to a multiple of 16, plus 16. */
  function Round16(len: int): (r: int)
    ensures r % 16 == 0 && len < r <= len + 16
  {
    len - len % 16 + 16
  }

  function Zeros(n: nat): (r: seq<byte>)
    ensures |r| == n && forall i :: 0 <= i < n ==> r[i] == 0
  {
    seq(n, _ => 0)
  }

  /** The records `encryptNativeMethods` writes for the valid methods from `index` on: a method
      whose body the writer cannot find is skipped without using up an index; a valid method
      missing from the table throws. */
  function NativeRecords(valid: seq<MethodDef>, natives: Dict<MethodDef, seq<byte>>,
                         bodies: MethodDef -> Option<MethodBodyInfo>, index: int): Result<seq<Record>>
  {
    if |valid| == 0 then Ok([])
    else
      match Lookup(natives, valid[0])
      case None => Fail(KeyNotFound)
      case Some(code) =>
        match bodies(valid[0])
        case None => NativeRecords(valid[1..], natives, bodies, index)
        case Some(mb) =>
          var rest :- NativeRecords(valid[1..], natives, bodies, index + 1);
          Ok([Record(BodyCodeRva(mb), NATIVE_INDEX + index, code)] + rest)
  }

  /** The records carry consecutive native indices from `0x70000000 + index`, code RVAs of found
      bodies, and the stored native code. */
  lemma {:induction false} NativeRecordsShape(valid: seq<MethodDef>, natives: Dict<MethodDef, seq<byte>>,
                                              bodies: MethodDef -> Option<MethodBodyInfo>, index: int)
    requires NativeRecords(valid, natives, bodies, index).Ok?
    ensures var recs := NativeRecords(valid, natives, bodies, index).value;
      |recs| <= |valid|
      && (forall k :: 0 <= k < |recs| ==> recs[k].index == NATIVE_INDEX + index + k)
      && (forall k :: 0 <= k < |recs| ==> exists m :: m in valid && Lookup(natives, m) == Some(recs[k].code))
  {
    if |valid| != 0 {
      var code := Lookup(natives, valid[0]).value;
      var next := if bodies(valid[0]).Some? then index + 1 else index;
      NativeRecordsShape(valid[1..], natives, bodies, next);
      var rest := NativeRecords(valid[1..], natives, bodies, next).value;
      assert forall m :: m in valid[1..] ==> m in valid;
      if bodies(valid[0]).Some? {
        var recs := NativeRecords(valid, natives, bodies, index).value;
        assert recs == [Record(BodyCodeRva(bodies(valid[0]).value), NATIVE_INDEX + index, code)] + rest;
        assert forall k :: 1 <= k < |recs| ==> recs[k] == rest[k - 1];
        assert recs[0].code == code && valid[0] in valid;
      }
    }
  }

  /** The bytes of the records: code RVA, index and length, then the code. */
  function Serialize(recs: seq<Record>): seq<byte>
  {
    if |recs| == 0 then []
    else RecordBytes(recs[0]) + Serialize(recs[1..])
  }

  lemma {:induction false} SerializeAppend(a: seq<Record>, b: seq<Record>)
    ensures Serialize(a + b) == Serialize(a) + Serialize(b)
  {
    if |a| != 0 {
      assert (a + b)[0] == a[0] && (a + b)[1..] == a[1..] + b;
      SerializeAppend(a[1..], b);
    } else {
      assert a + b == b;
    }
  }

  lemma SerializeSnoc(header: seq<byte>, recs: seq<Record>, rec: Record)
    ensures header + Serialize(recs) + RecordBytes(rec) == header + Serialize(recs + [rec])
  {
    SerializeAppend(recs, [rec]);
    assert Serialize([rec]) == RecordBytes(rec) + Serialize([]);
    AppendAssoc(header, Serialize(recs), RecordBytes(rec));
  }

  lemma AppendAssoc(a: seq<byte>, b: seq<byte>, c: seq<byte>)
    ensures a + b + c == a + (b + c)
  {
  }

  /** The plaintext `encryptNativeMethods` builds: patch count 0, mode 0, the number of valid
      methods, then the records. */
  function NativeStream(count: int, recs: seq<Record>): seq<byte>
  {
    U32Le(0) + U32Le(0) + Int32Le(count) + Serialize(recs)
  }

  predicate WellFormedRecords(recs: seq<Record>)
  {
    forall k :: 0 <= k < |recs| ==> 0 <= recs[k].index <= INT32_MAX && |recs[k].code| <= INT32_MAX
  }

  /** The bytes of one record: code RVA, index and length, then the code. */
  function RecordBytes(r: Record): (b: seq<byte>)
    ensures |b| == 12 + |r.code|
  {
    U32Le(r.rva) + Int32Le(r.index) + Int32Le(|r.code|) + r.code
  }

  /** A serialized record reads back as the same record. */
  lemma RecordFields(data: seq<byte>, p: int, r: Record)
    requires 0 <= r.index <= INT32_MAX && |r.code| <= INT32_MAX
    requires 0 <= p && p + 12 + |r.code| <= |data| && data[p..p + 12 + |r.code|] == RecordBytes(r)
    ensures NextRecord(data, p) == Ok((r, p + 12 + |r.code|))
  {
    RecordSlices(data, p, r);
    LeU32OfU32Le(r.rva);
    LeUInt32OfInt32Le(r.index);
    LeInt32OfInt32Le(|r.code|);
    assert U32At(data, p) == Ok(r.rva) && UInt32ValueAt(data, p + 4) == Ok(r.index);
    assert Int32At(data, p + 8) == Ok(|r.code|) && BytesAt(data, p + 12, |r.code|) == Ok(r.code);
  }

  /** Where the bytes of each field of a serialized record sit. */
  lemma RecordSlices(data: seq<byte>, p: int, r: Record)
    requires 0 <= p && p + 12 + |r.code| <= |data| && data[p..p + 12 + |r.code|] == RecordBytes(r)
    ensures data[p..p + 4] == U32Le(r.rva) && data[p + 4..p + 8] == Int32Le(r.index)
    ensures data[p + 8..p + 12] == Int32Le(|r.code|) && data[p + 12..p + 12 + |r.code|] == r.code
  {
    var b := RecordBytes(r);
    assert b[0..4] == U32Le(r.rva);
    assert b[4..8] == Int32Le(r.index);
    assert b[8..12] == Int32Le(|r.code|);
    assert b[12..] == r.code;
    SubSlice(data, p, p + 12 + |r.code|, 0, 4);
    SubSlice(data, p, p + 12 + |r.code|, 4, 8);
    SubSlice(data, p, p + 12 + |r.code|, 8, 12);
    SubSlice(data, p, p + 12 + |r.code|, 12, 12 + |r.code|);
  }

  lemma SubSlice(data: seq<byte>, lo: int, hi: int, i: int, j: int)
    requires 0 <= lo <= hi <= |data| && 0 <= i <= j <= hi - lo
    ensures data[lo..hi][i..j] == data[lo + i..lo + j]
  {
    assert forall k :: 0 <= k < j - i ==> data[lo..hi][i..j][k] == data[lo + i..lo + j][k];
  }

  /** Serialized records start with the bytes of the first one. */
  lemma SerializeSplit(data: seq<byte>, p: int, recs: seq<Record>)
    requires |recs| != 0 && 0 <= p <= |data| && data[p..] == Serialize(recs)
    ensures p + 12 + |recs[0].code| <= |data|
    ensures data[p..p + 12 + |recs[0].code|] == RecordBytes(recs[0])
    ensures data[p + 12 + |recs[0].code|..] == Serialize(recs[1..])
  {
    SplitSuffix(data, p, RecordBytes(recs[0]), Serialize(recs[1..]));
  }

  lemma SplitSuffix(data: seq<byte>, p: int, a: seq<byte>, b: seq<byte>)
    requires 0 <= p <= |data| && data[p..] == a + b
    ensures p + |a| <= |data| && data[p..p + |a|] == a && data[p + |a|..] == b
  {
    assert data[p..p + |a|] == data[p..][..|a|];
    assert data[p + |a|..] == data[p..][|a|..];
  }

  lemma WellFormedTail(recs: seq<Record>)
    requires |recs| != 0 && WellFormedRecords(recs)
    ensures WellFormedRecords(recs[1..])
    ensures 0 <= recs[0].index <= INT32_MAX && |recs[0].code| <= INT32_MAX
  {
    assert forall k :: 0 <= k < |recs| - 1 ==> recs[1..][k] == recs[k + 1];
  }

  /** The bytes of each record lie one after the other from `p` to the end of the data. */
  predicate SerializedAt(data: seq<byte>, p: int, recs: seq<Record>)
    decreases |recs|
  {
    if |recs| == 0 then p == |data|
    else
      0 <= p && p + 12 + |recs[0].code| <= |data| && data[p..p + 12 + |recs[0].code|] == RecordBytes(recs[0])
      && SerializedAt(data, p + 12 + |recs[0].code|, recs[1..])
  }

  lemma {:induction false} SerializeAt(data: seq<byte>, p: int, recs: seq<Record>)
    requires 0 <= p <= |data| && data[p..] == Serialize(recs)
    ensures SerializedAt(data, p, recs)
    decreases |recs|
  {
    if |recs| != 0 {
      SerializeSplit(data, p, recs);
      SerializeAt(data, p + 12 + |recs[0].code|, recs[1..]);
    }
  }

  /** The records lie one after the other from `p` to the end of the data, each where
      `NextRecord` reads it. */
  predicate LaidOut(data: seq<byte>, p: int, recs: seq<Record>)
    decreases |recs|
  {
    if |recs| == 0 then p == |data|
    else NextRecord(data, p) == Ok((recs[0], p + 12 + |recs[0].code|))
         && LaidOut(data, p + 12 + |recs[0].code|, recs[1..])
  }

  lemma {:induction false} SerializeLaidOut(data: seq<byte>, p: int, recs: seq<Record>)
    requires WellFormedRecords(recs) && SerializedAt(data, p, recs)
    ensures LaidOut(data, p, recs)
    decreases |recs|
  {
    if |recs| != 0 {
      WellFormedTail(recs);
      SerializeLaidOut(data, p + 12 + |recs[0].code|, recs[1..]);
      LaidOutCons(data, p, recs);
    }
  }

  lemma LaidOutCons(data: seq<byte>, p: int, recs: seq<Record>)
    requires |recs| != 0 && WellFormedRecords(recs) && SerializedAt(data, p, recs)
    requires LaidOut(data, p + 12 + |recs[0].code|, recs[1..])
    ensures LaidOut(data, p, recs)
  {
    RecordFields(data, p, recs[0]);
  }

  lemma {:induction false} LaidOutRecords(data: seq<byte>, p: int, recs: seq<Record>)
    requires LaidOut(data, p, recs)
    ensures Records(data, p) == Ok(recs)
    decreases |recs|
  {
    if |recs| != 0 {
      var q := p + 12 + |recs[0].code|;
      LaidOutRecords(data, q, recs[1..]);
      RecordsCons(data, p, recs[0], q, recs[1..]);
      assert recs == [recs[0]] + recs[1..];
    }
  }

  /** A record read at `p` followed by the records from where it ends are the records from `p`. */
  lemma RecordsCons(data: seq<byte>, p: int, rec: Record, next: int, rest: seq<Record>)
    requires NextRecord(data, p) == Ok((rec, next)) && Records(data, next) == Ok(rest)
    ensures Records(data, p) == Ok([rec] + rest)
  {
  }

  /** Serialized records read back as the same records, wherever they start. */
  lemma SerializeRoundTrip(data: seq<byte>, p: int, recs: seq<Record>)
    requires WellFormedRecords(recs)
    requires 0 <= p <= |data| && data[p..] == Serialize(recs)
    ensures Records(data, p) == Ok(recs)
  {
    SerializeAt(data, p, recs);
    SerializeLaidOut(data, p, recs);
    LaidOutRecords(data, p, recs);
  }

  /** What the writer emits is what the jitter-hooked branch reads: with the jitter hooked and
      fewer than 0x06000000 methods, the stream selects that layout, patches nothing and replays
      exactly the written records. */
  lemma WriterRoundTrip(count: int, recs: seq<Record>, useOffsets: bool, rows: seq<MethodRow>, st: JitterState)
    requires 0 <= count < 0x0600_0000
    requires WellFormedRecords(recs)
    ensures DecryptStream(NativeStream(count, recs), true, useOffsets, rows, st)
         == Ok(StreamOutcome(JitterLayout, [], Some(JitterFold(st.(dumped := []), recs, RvaIndex(rows)))))
  {
    var data := NativeStream(count, recs);
    var header := U32Le(0) + U32Le(0) + Int32Le(count);
    assert data == header + Serialize(recs);
    assert data[0..4] == U32Le(0) && data[4..8] == U32Le(0) && data[8..12] == Int32Le(count);
    assert LeInt32(U32Le(0)) == 0;
    LeInt32OfInt32Le(count);
    assert Int32At(data, 0) == Ok(0) && Int32At(data, 4) == Ok(0) && Int32At(data, 8) == Ok(count);
    assert SelectLayout(count, true, 0) == JitterLayout;
    SerializeRoundTrip(data, |header|, recs);
  }

  /** Records built by the writer are well formed when the stored bodies are .NET arrays (at most
      int.MaxValue bytes) and there are fewer than 0x06000000 valid methods. */
  lemma NativeRecordsWellFormed(valid: seq<MethodDef>, natives: Dict<MethodDef, seq<byte>>,
                                bodies: MethodDef -> Option<MethodBodyInfo>)
    requires NativeRecords(valid, natives, bodies, 0).Ok?
    requires |valid| < 0x0600_0000
    requires forall e :: e in natives ==> |e.1| <= INT32_MAX
    ensures WellFormedRecords(NativeRecords(valid, natives, bodies, 0).value)
  {
    var recs := NativeRecords(valid, natives, bodies, 0).value;
    NativeRecordsShape(valid, natives, bodies, 0);
    forall r | r in recs
      ensures 0 <= r.index <= INT32_MAX && |r.code| <= INT32_MAX
    {
      var k :| 0 <= k < |recs| && recs[k] == r;
      var m :| m in valid && Lookup(natives, m) == Some(recs[k].code);
      LookupIn(natives, m);
    }
  }

  // ---------------------------------------------------------------------------------------
  // reloaded

  /** `reloaded`: each (token, body) entry, in enumeration order, rebound to the method the token
      resolves to in the reloaded moduleId; a token that does not resolve to a method throws. */
  function Rebind(m: Dict<MethodDef, seq<byte>>, entries: Dict<bv32, seq<byte>>,
                  resolve: bv32 -> Option<MethodDef>): Result<Dict<MethodDef, seq<byte>>>
    decreases |entries|
  {
    if |entries| == 0 then Ok(m)
    else
      match resolve(entries[0].0)
      case None => Fail(ApplicationError)
      case Some(md) => Rebind(Put(m, md, entries[0].1), entries[1..], resolve)
  }

  /** Rebinding fails exactly when some token does not resolve. */
  lemma {:induction false} RebindFails(m: Dict<MethodDef, seq<byte>>, entries: Dict<bv32, seq<byte>>,
                                       resolve: bv32 -> Option<MethodDef>)
    ensures Rebind(m, entries, resolve).Fail? <==> exists i :: 0 <= i < |entries| && resolve(entries[i].0).None?
    ensures Rebind(m, entries, resolve).Fail? ==> Rebind(m, entries, resolve).error == ApplicationError
    decreases |entries|
  {
    if |entries| != 0 {
      if resolve(entries[0].0).Some? {
        RebindFails(Put(m, resolve(entries[0].0).value, entries[0].1), entries[1..], resolve);
        assert forall i :: 1 <= i < |entries| ==> entries[i] == entries[1..][i - 1];
      }
    }
  }

  /** A method no entry resolves to keeps its body. */
  lemma {:induction false} RebindKeeps(m: Dict<MethodDef, seq<byte>>, entries: Dict<bv32, seq<byte>>,
                                       resolve: bv32 -> Option<MethodDef>, md: MethodDef)
    requires Rebind(m, entries, resolve).Ok?
    requires forall i :: 0 <= i < |entries| ==> resolve(entries[i].0) != Some(md)
    ensures Lookup(Rebind(m, entries, resolve).value, md) == Lookup(m, md)
    decreases |entries|
  {
    if |entries| != 0 {
      var first := resolve(entries[0].0).value;
      assert forall i :: 0 <= i < |entries| - 1 ==> entries[1..][i] == entries[i + 1];
      RebindKeeps(Put(m, first, entries[0].1), entries[1..], resolve, md);
      PutLookup(m, first, entries[0].1, md);
    }
  }

  /** After rebinding, the method an entry resolves to holds that entry's body, unless a later
      entry resolves to the same method. */
  lemma {:induction false} RebindLookup(m: Dict<MethodDef, seq<byte>>, entries: Dict<bv32, seq<byte>>,
                                        resolve: bv32 -> Option<MethodDef>, i: int)
    requires Rebind(m, entries, resolve).Ok?
    requires 0 <= i < |entries|
    requires forall j :: i < j < |entries| ==> resolve(entries[j].0) != resolve(entries[i].0)
    ensures resolve(entries[i].0).Some?
    ensures Lookup(Rebind(m, entries, resolve).value, resolve(entries[i].0).value) == Some(entries[i].1)
    decreases |entries|
  {
    RebindFails(m, entries, resolve);
    var first := resolve(entries[0].0).value;
    var m' := Put(m, first, entries[0].1);
    assert forall j :: 0 <= j < |entries| - 1 ==> entries[1..][j] == entries[j + 1];
    if i == 0 {
      RebindKeeps(m', entries[1..], resolve, first);
      PutLookup(m, first, entries[0].1, first);
    } else {
      RebindLookup(m', entries[1..], resolve, i - 1);
    }
  }

  // ---------------------------------------------------------------------------------------
  // The decrypter

  /** The writes `ws` followed by those of `r`, or `r`'s failure. */
  function PrependWrites(ws: seq<ImageWrite>, r: Result<seq<ImageWrite>>): Result<seq<ImageWrite>>
  {
    if r.Fail? then r else Ok(ws + r.value)
  }

  lemma PrependWritesAssoc(a: seq<ImageWrite>, b: seq<ImageWrite>, r: Result<seq<ImageWrite>>)
    ensures PrependWrites(a, PrependWrites(b, r)) == PrependWrites(a + b, r)
    ensures PrependWrites([], r) == r
  {
    if r.Ok? {
      assert a + (b + r.value) == (a + b) + r.value;
      assert [] + r.value == r.value;
    }
  }

  function PrependPatches(ws: seq<ImageWrite>, r: Result<(seq<ImageWrite>, int)>): Result<(seq<ImageWrite>, int)>
  {
    if r.Fail? then r else Ok((ws + r.value.0, r.value.1))
  }

  lemma PrependPatchesAssoc(a: seq<ImageWrite>, b: seq<ImageWrite>, r: Result<(seq<ImageWrite>, int)>)
    ensures PrependPatches(a, PrependPatches(b, r)) == PrependPatches(a + b, r)
    ensures PrependPatches([], r) == r
  {
    if r.Ok? {
      assert a + (b + r.value.0) == (a + b) + r.value.0;
      assert [] + r.value.0 == r.value.0;
    }
  }

  function PrependRecords(rs: seq<Record>, r: Result<seq<Record>>): Result<seq<Record>>
  {
    if r.Fail? then r else Ok(rs + r.value)
  }

  lemma PrependRecordsAssoc(a: seq<Record>, b: seq<Record>, r: Result<seq<Record>>)
    ensures PrependRecords(a, PrependRecords(b, r)) == PrependRecords(a + b, r)
    ensures PrependRecords([], r) == r
  {
    if r.Ok? {
      assert a + (b + r.value) == (a + b) + r.value;
      assert [] + r.value == r.value;
    }
  }

  /** `getXorKey` over the decrypter method's instructions. */
  method GetXorKey(instrs: seq<Instr>) returns (key: int)
    ensures key == XorKey(instrs)
  {
    var i := 0;
    while i < |instrs| - 1
      invariant 0 <= i
      invariant XorKey(instrs) == XorKeyFrom(instrs, i)
    {
      if instrs[i].opcode == Ldind_I8 && IsLdcI4(instrs[i + 1]) {
        return LdcI4Value(instrs[i + 1]);
      }
      i := i + 1;
    }
    return 0;
  }

  /** `patchDwords`: reads `count` (rva, dword) pairs and returns the writes they ask for. */
  method PatchDwords(rd: Reader, count: int) returns (r: Result<seq<ImageWrite>>)
    modifies rd
    ensures var spec := DwordPatches(rd.data, old(rd.pos), count);
      (spec.Fail? ==> r == Fail(spec.error)) && (spec.Ok? ==> r == Ok(spec.value.0) && rd.pos == spec.value.1)
  {
    ghost var p0 := rd.pos;
    var writes := [];
    var i := 0;
    PrependPatchesAssoc([], [], DwordPatches(rd.data, p0, count));
    while i < count
      invariant 0 <= i && (count >= 0 ==> i <= count)
      invariant DwordPatches(rd.data, p0, count) == PrependPatches(writes, DwordPatches(rd.data, rd.pos, count - i))
    {
      var rva :- rd.ReadUInt32();
      var dword :- rd.ReadUInt32();
      var w := ImageWrite(false, rva, U32Le(dword));
      PrependPatchesAssoc(writes, [w], DwordPatches(rd.data, rd.pos, count - i - 1));
      writes := writes + [w];
      i := i + 1;
    }
    assert writes + [] == writes;
    r := Ok(writes);
  }

  /** The token+RVA tail read from the reader. */
  method TokenRvaPatches(rd: Reader) returns (r: Result<seq<ImageWrite>>)
    modifies rd
    ensures r == TokenRvaTail(rd.data, old(rd.pos))
  {
    ghost var p0 := rd.pos;
    var writes := [];
    PrependWritesAssoc([], [], TokenRvaTail(rd.data, p0));
    while rd.pos < |rd.data| - 1
      invariant TokenRvaTail(rd.data, p0) == PrependWrites(writes, TokenRvaTail(rd.data, rd.pos))
      decreases |rd.data| - rd.pos
    {
      var token :- rd.ReadUInt32();
      var numDwords :- rd.ReadInt32();
      var w :- PatchDwords(rd, Half(numDwords));
      PrependWritesAssoc(writes, w, TokenRvaTail(rd.data, rd.pos));
      writes := writes + w;
    }
    assert writes + [] == writes;
    r := Ok(writes);
  }

  /** The RVA-write tail read from the reader. */
  method RvaWrites(rd: Reader, useOffsets: bool) returns (r: Result<seq<ImageWrite>>)
    modifies rd
    ensures r == RvaWriteTail(rd.data, old(rd.pos), useOffsets)
  {
    ghost var p0 := rd.pos;
    var writes := [];
    PrependWritesAssoc([], [], RvaWriteTail(rd.data, p0, useOffsets));
    while rd.pos < |rd.data| - 1
      invariant RvaWriteTail(rd.data, p0, useOffsets) == PrependWrites(writes, RvaWriteTail(rd.data, rd.pos, useOffsets))
      decreases |rd.data| - rd.pos
    {
      var w :- ReadRvaWrite(rd, useOffsets);
      PrependWritesAssoc(writes, w, RvaWriteTail(rd.data, rd.pos, useOffsets));
      writes := writes + w;
    }
    assert writes + [] == writes;
    r := Ok(writes);
  }

  /** One record of the RVA-write tail: RVA, token and size, then the bytes when the size is
      positive (none otherwise). */
  method ReadRvaWrite(rd: Reader, useOffsets: bool) returns (r: Result<seq<ImageWrite>>)
    modifies rd
    ensures r.Fail? ==> NextRvaWrite(rd.data, old(rd.pos), useOffsets) == Fail(r.error)
    ensures r.Ok? ==> NextRvaWrite(rd.data, old(rd.pos), useOffsets) == Ok((r.value, rd.pos))
  {
    var rva :- rd.ReadUInt32();
    var token :- rd.ReadUInt32();
    var size :- rd.ReadInt32();
    if size > 0 {
      var newData := rd.ReadBytes(size);
      r := Ok([ImageWrite(useOffsets, rva, newData.value)]);
    } else {
      r := Ok([]);
    }
  }

  /** One record of the jitter-hooked layout: code RVA, index word, size and the body bytes. */
  method ReadRecord(rd: Reader) returns (r: Result<Record>)
    requires rd.pos < |rd.data| - 1
    modifies rd
    ensures r.Fail? ==> Records(rd.data, old(rd.pos)) == Fail(r.error)
    ensures r.Ok? ==> Records(rd.data, old(rd.pos)) == PrependRecords([r.value], Records(rd.data, rd.pos))
    ensures r.Ok? ==> rd.pos > old(rd.pos)
  {
    ghost var p := rd.pos;
    var rva :- rd.ReadUInt32();
    var index :- rd.ReadUInt32Value();
    var size :- rd.ReadInt32();
    var methodData :- rd.ReadBytes(size);
    r := Ok(Record(rva, index, methodData));
    assert NextRecord(rd.data, p) == Ok((r.value, rd.pos));
  }

  /** The token+RVA branch of `decrypt`, from the reader at offset 8. */
  method TokenRvaStreamWrites(rd: Reader, patchCount: int) returns (r: Result<seq<ImageWrite>>)
    requires rd.pos == 8
    modifies rd
    ensures r == TokenRvaStream(rd.data, patchCount)
  {
    rd.pos := rd.pos + 8 * patchCount;
    var patchCount2 :- rd.ReadInt32();
    var mode2 :- rd.ReadInt32();
    var w :- PatchDwords(rd, patchCount2);
    var rest :- TokenRvaPatches(rd);
    r := Ok(w + rest);
  }

  /** The RVA-write branch of `decrypt`, from the reader at offset 8. */
  method RvaWriteStreamWrites(rd: Reader, patchCount: int, useOffsets: bool) returns (r: Result<seq<ImageWrite>>)
    requires rd.pos == 8
    modifies rd
    ensures r == RvaWriteStream(rd.data, patchCount, useOffsets)
  {
    var w :- PatchDwords(rd, patchCount);
    var rest :- RvaWrites(rd, useOffsets);
    r := Ok(w + rest);
  }

  /** `rvaToIndex` built by a pass over the method table. */
  method BuildRvaToIndex(rows: seq<MethodRow>) returns (rvaToIndex: Dict<bv32, int>)
    ensures rvaToIndex == RvaIndex(rows)
  {
    rvaToIndex := [];
    var i := 0;
    while i < |rows|
      invariant 0 <= i <= |rows|
      invariant rvaToIndex == RvaIndex(rows[..i])
    {
      assert rows[..i + 1][..i] == rows[..i];
      if rows[i].rva != 0 {
        rvaToIndex := Put(rvaToIndex, CodeRva(rows[i]), i);
      }
      i := i + 1;
    }
    assert rows[..|rows|] == rows;
  }

  /** The plaintext of `encryptNativeMethods`: the header, then a record per valid method whose
      body the writer placed. */
  method WriteNativeStream(valid: seq<MethodDef>, natives: Dict<MethodDef, seq<byte>>,
                           bodies: MethodDef -> Option<MethodBodyInfo>) returns (r: Result<seq<byte>>)
    ensures var recs := NativeRecords(valid, natives, bodies, 0);
      (recs.Fail? ==> r == Fail(recs.error)) && (recs.Ok? ==> r == Ok(NativeStream(|valid|, recs.value)))
  {
    var stream := U32Le(0) + U32Le(0) + Int32Le(|valid|);
    ghost var header := stream;
    ghost var written: seq<Record> := [];
    var index := 0;
    var i := 0;
    PrependRecordsAssoc([], [], NativeRecords(valid, natives, bodies, 0));
    while i < |valid|
      invariant 0 <= i <= |valid|
      invariant stream == header + Serialize(written)
      invariant NativeRecords(valid, natives, bodies, 0)
        == PrependRecords(written, NativeRecords(valid[i..], natives, bodies, index))
    {
      assert valid[i..] == [valid[i]] + valid[i + 1..];
      var code := Lookup(natives, valid[i]);
      if code.None? {
        assert NativeRecords(valid[i..], natives, bodies, index) == Fail(KeyNotFound);
        return Fail(KeyNotFound);
      }
      stream, index, written := WriteNativeRecord(valid[i], valid[i + 1..], natives, bodies, index, stream, header, written);
      i := i + 1;
    }
    assert written + [] == written;
    r := Ok(stream);
  }

  /** One method of the writer loop: a record is appended when the writer placed its body. */
  method WriteNativeRecord(m: MethodDef, rest: seq<MethodDef>, natives: Dict<MethodDef, seq<byte>>,
                           bodies: MethodDef -> Option<MethodBodyInfo>, index: int, stream: seq<byte>,
                           ghost header: seq<byte>, ghost written: seq<Record>)
    returns (stream': seq<byte>, index': int, ghost written': seq<Record>)
    requires Lookup(natives, m).Some? && stream == header + Serialize(written)
    ensures stream' == header + Serialize(written')
    ensures PrependRecords(written, NativeRecords([m] + rest, natives, bodies, index))
      == PrependRecords(written', NativeRecords(rest, natives, bodies, index'))
  {
    NativeRecordsHead(m, rest, natives, bodies, index);
    stream', index', written' := stream, index, written;
    var mb := bodies(m);
    if mb.Some? {
      var rec := Record(BodyCodeRva(mb.value), NATIVE_INDEX + index, Lookup(natives, m).value);
      stream' := stream + RecordBytes(rec);
      SerializeSnoc(header, written, rec);
      PrependRecordsAssoc(written, [rec], NativeRecords(rest, natives, bodies, index + 1));
      written' := written + [rec];
      index' := index + 1;
    }
  }

  lemma NativeRecordsHead(m: MethodDef, rest: seq<MethodDef>, natives: Dict<MethodDef, seq<byte>>,
                          bodies: MethodDef -> Option<MethodBodyInfo>, index: int)
    requires Lookup(natives, m).Some?
    ensures bodies(m).None? ==>
      NativeRecords([m] + rest, natives, bodies, index) == NativeRecords(rest, natives, bodies, index)
    ensures bodies(m).Some? ==>
      NativeRecords([m] + rest, natives, bodies, index)
      == PrependRecords([Record(BodyCodeRva(bodies(m).value), NATIVE_INDEX + index, Lookup(natives, m).value)],
                        NativeRecords(rest, natives, bodies, index + 1))
  {
    assert ([m] + rest)[0] == m && ([m] + rest)[1..] == rest;
  }

  /** The state of dotNET Reactor 4.x method decryption that outlives one call: the XOR key, the
      opaque native bodies (by token until the module is reloaded, then by method), the methods
      still valid for re-encryption, and the resource that receives them. */
  class MethodsDecrypter {
    /** The moduleId being deobfuscated; only its identity matters here. */
    const moduleId: int
    var xorKey: int
    var tokenToNativeMethod: Option<Dict<bv32, seq<byte>>>
    var methodToNativeMethod: Dict<MethodDef, seq<byte>>
    var validNativeMethods: Option<seq<MethodDef>>
    var totalEncryptedNativeMethods: int
    /** The data of the encrypted methods resource. */
    var resourceData: seq<byte>

    constructor (moduleId: int, resourceData: seq<byte>)
      ensures this.moduleId == moduleId && this.resourceData == resourceData
      ensures xorKey == 0 && tokenToNativeMethod == Some([]) && methodToNativeMethod == []
      ensures validNativeMethods == None && totalEncryptedNativeMethods == 0
    {
      this.moduleId := moduleId;
      this.resourceData := resourceData;
      xorKey := 0;
      tokenToNativeMethod := Some([]);
      methodToNativeMethod := [];
      validNativeMethods := None;
      totalEncryptedNativeMethods := 0;
    }

    /** The decrypter for the reloaded moduleId: it carries over the native bodies found so far,
        their count and the XOR key. */
    constructor FromOld(moduleId: int, resourceData: seq<byte>, oldOne: MethodsDecrypter)
      ensures this.moduleId == moduleId && this.resourceData == resourceData
      ensures tokenToNativeMethod == oldOne.tokenToNativeMethod
      ensures totalEncryptedNativeMethods == oldOne.totalEncryptedNativeMethods && xorKey == oldOne.xorKey
      ensures methodToNativeMethod == [] && validNativeMethods == None
    {
      this.moduleId := moduleId;
      this.resourceData := resourceData;
      tokenToNativeMethod := oldOne.tokenToNativeMethod;
      totalEncryptedNativeMethods := oldOne.totalEncryptedNativeMethods;
      xorKey := oldOne.xorKey;
      methodToNativeMethod := [];
      validNativeMethods := None;
    }

    predicate HasNativeMethods()
      reads this
    {
      |methodToNativeMethod| > 0
    }

    /** `xorEncrypt`: masks (or unmasks) the data in place, one 8-byte word at a time. */
    method XorEncrypt(data: array<byte>)
      modifies data
      ensures data[..] == XorMasked(old(data[..]), xorKey)
    {
      if xorKey == 0 {
        XorMaskedZero(data[..]);
        return;
      }
      ghost var orig := data[..];
      var kb := Int64Le(xorKey);
      var count := data.Length / 8;
      var i := 0;
      while i < count
        invariant 0 <= i <= count
        invariant forall j :: 0 <= j < 8 * i ==> data[j] == orig[j] ^ kb[j % 8]
        invariant forall j :: 8 * i <= j < data.Length ==> data[j] == orig[j]
      {
        XorWord(data, 8 * i, kb);
        i := i + 1;
      }
      assert forall j :: 0 <= j < data.Length ==> data[j] == XorMasked(orig, xorKey)[j];
    }

    /** One 8-byte word XORed with the key's bytes. */
    static method XorWord(data: array<byte>, p: int, kb: seq<byte>)
      requires |kb| == 8 && 0 <= p && p % 8 == 0 && p + 8 <= data.Length
      modifies data
      ensures forall j :: 0 <= j < data.Length ==>
        data[j] == if p <= j < p + 8 then old(data[j]) ^ kb[j % 8] else old(data[j])
    {
      var k := 0;
      while k < 8
        invariant 0 <= k <= 8
        invariant forall j :: 0 <= j < data.Length ==>
          data[j] == if p <= j < p + k then old(data[j]) ^ kb[j % 8] else old(data[j])
      {
        assert (p + k) % 8 == k;
        data[p + k] := data[p + k] ^ kb[k];
        k := k + 1;
      }
    }

    /** One record of the jitter-hooked layout: the method is dumped, native bodies are
        rewritten, and opaque ones are kept by token. */
    method AddRecord(rec: Record, rvaToIndex: Dict<bv32, int>, dumped: seq<DumpedMethod>,
                     nativeCode: Option<Dict<bv32, seq<byte>>>)
      returns (dumped': seq<DumpedMethod>, nativeCode': Option<Dict<bv32, seq<byte>>>)
      requires tokenToNativeMethod.Some?
      modifies this
      ensures tokenToNativeMethod.Some?
      ensures JitterState(dumped', tokenToNativeMethod.value, nativeCode', totalEncryptedNativeMethods)
        == JitterStep(JitterState(dumped, old(tokenToNativeMethod.value), nativeCode, old(totalEncryptedNativeMethods)),
                      rec, rvaToIndex)
      ensures xorKey == old(xorKey) && methodToNativeMethod == old(methodToNativeMethod)
      ensures validNativeMethods == old(validNativeMethods) && resourceData == old(resourceData)
    {
      dumped', nativeCode' := dumped, nativeCode;
      var methodIndex := Lookup(rvaToIndex, rec.rva);
      if methodIndex.None? {
        return;
      }
      var methodToken := MethodToken(methodIndex.value);
      var methodData := rec.code;
      if rec.index >= NATIVE_INDEX {
        totalEncryptedNativeMethods := totalEncryptedNativeMethods + 1;
        if nativeCode'.Some? {
          nativeCode' := Some(Put(nativeCode'.value, methodToken, methodData));
        }
        var isLdci4 := DeobUtils.IsCode(NATIVE_LDCI4, methodData);
        if isLdci4 {
          methodData := [0x20] + U32Le(LeU32(rec.code[4..8])) + [0x2A];
        } else {
          var isLdci4_0 := DeobUtils.IsCode(NATIVE_LDCI4_0, methodData);
          if isLdci4_0 {
            methodData := [0x16, 0x2A];
          } else {
            tokenToNativeMethod := Some(Put(tokenToNativeMethod.value, methodToken, methodData));
            methodData := THROW_DEADCODE;
          }
        }
      }
      dumped' := dumped' + [DumpedMethod(methodToken, methodData)];
    }

    /** The records of the jitter-hooked layout, read and applied one by one. */
    method ApplyRecords(rd: Reader, rvaToIndex: Dict<bv32, int>, nativeCode: Option<Dict<bv32, seq<byte>>>)
      returns (r: Result<(seq<DumpedMethod>, Option<Dict<bv32, seq<byte>>>)>)
      requires tokenToNativeMethod.Some?
      modifies this, rd
      ensures tokenToNativeMethod.Some?
      ensures var spec := Records(rd.data, old(rd.pos));
        var st0 := JitterState([], old(tokenToNativeMethod.value), nativeCode, old(totalEncryptedNativeMethods));
        (spec.Fail? ==> r == Fail(spec.error))
        && (spec.Ok? ==>
              r.Ok? && JitterFold(st0, spec.value, rvaToIndex)
                       == JitterState(r.value.0, tokenToNativeMethod.value, r.value.1, totalEncryptedNativeMethods))
      ensures xorKey == old(xorKey) && methodToNativeMethod == old(methodToNativeMethod)
      ensures validNativeMethods == old(validNativeMethods) && resourceData == old(resourceData)
    {
      ghost var p0 := rd.pos;
      ghost var st0 := JitterState([], tokenToNativeMethod.value, nativeCode, totalEncryptedNativeMethods);
      ghost var done: seq<Record> := [];
      var dumped: seq<DumpedMethod> := [];
      var code := nativeCode;
      PrependRecordsAssoc([], [], Records(rd.data, p0));
      while rd.pos < |rd.data| - 1
        invariant tokenToNativeMethod.Some?
        invariant Records(rd.data, p0) == PrependRecords(done, Records(rd.data, rd.pos))
        invariant JitterFold(st0, done, rvaToIndex) == JitterState(dumped, tokenToNativeMethod.value, code, totalEncryptedNativeMethods)
        invariant xorKey == old(xorKey) && methodToNativeMethod == old(methodToNativeMethod)
        invariant validNativeMethods == old(validNativeMethods) && resourceData == old(resourceData)
        decreases |rd.data| - rd.pos
      {
        var rec :- ReadRecord(rd);
        PrependRecordsAssoc(done, [rec], Records(rd.data, rd.pos));
        dumped, code := AddRecord(rec, rvaToIndex, dumped, code);
        assert (done + [rec])[..|done|] == done;
        done := done + [rec];
      }
      assert done + [] == done;
      r := Ok((dumped, code));
    }

    /** `decrypt` once the resource has been decrypted: finds the XOR key, unmasks the data in
        place and runs the layout the stream selects. */
    method Decrypt(methodsData: array<byte>, decrypterBody: seq<Instr>, hooksJitter: bool, useOffsets: bool,
                   rows: seq<MethodRow>, tokenToNativeCode: Option<Dict<bv32, seq<byte>>>)
      returns (r: Result<StreamOutcome>)
      requires tokenToNativeMethod.Some?
      modifies this, methodsData
      ensures xorKey == XorKey(decrypterBody)
      ensures methodsData[..] == XorMasked(old(methodsData[..]), xorKey)
      ensures r == DecryptStream(methodsData[..], hooksJitter, useOffsets, rows,
                                 JitterState([], old(tokenToNativeMethod.value), tokenToNativeCode, old(totalEncryptedNativeMethods)))
      ensures r.Ok? && r.value.jitter.Some? ==>
        tokenToNativeMethod == Some(r.value.jitter.value.nativeMethods)
        && totalEncryptedNativeMethods == r.value.jitter.value.totalNative
      ensures r.Ok? && r.value.jitter.None? ==>
        tokenToNativeMethod == old(tokenToNativeMethod) && totalEncryptedNativeMethods == old(totalEncryptedNativeMethods)
      ensures methodToNativeMethod == old(methodToNativeMethod)
      ensures validNativeMethods == old(validNativeMethods) && resourceData == old(resourceData)
    {
      var key := GetXorKey(decrypterBody);
      xorKey := key;
      XorEncrypt(methodsData);
      r := RunStream(methodsData[..], hooksJitter, useOffsets, rows, tokenToNativeCode);
    }

    /** The unmasked stream read from its start, in the layout it selects. */
    method RunStream(data: seq<byte>, hooksJitter: bool, useOffsets: bool, rows: seq<MethodRow>,
                     tokenToNativeCode: Option<Dict<bv32, seq<byte>>>)
      returns (r: Result<StreamOutcome>)
      requires tokenToNativeMethod.Some?
      modifies this
      ensures r == DecryptStream(data, hooksJitter, useOffsets, rows,
                                 JitterState([], old(tokenToNativeMethod.value), tokenToNativeCode, old(totalEncryptedNativeMethods)))
      ensures r.Ok? && r.value.jitter.Some? ==>
        tokenToNativeMethod == Some(r.value.jitter.value.nativeMethods)
        && totalEncryptedNativeMethods == r.value.jitter.value.totalNative
      ensures r.Ok? && r.value.jitter.None? ==>
        tokenToNativeMethod == old(tokenToNativeMethod) && totalEncryptedNativeMethods == old(totalEncryptedNativeMethods)
      ensures xorKey == old(xorKey) && methodToNativeMethod == old(methodToNativeMethod)
      ensures validNativeMethods == old(validNativeMethods) && resourceData == old(resourceData)
    {
      var rd := new Reader(data);
      var patchCount :- rd.ReadInt32();
      var mode :- rd.ReadInt32();
      var tmp :- rd.ReadInt32();
      rd.pos := rd.pos - 4;
      match SelectLayout(tmp, hooksJitter, mode)
      case TokenRvaLayout =>
        var w :- TokenRvaStreamWrites(rd, patchCount);
        r := Ok(StreamOutcome(TokenRvaLayout, w, None));
      case RvaWriteLayout =>
        var w :- RvaWriteStreamWrites(rd, patchCount, useOffsets);
        r := Ok(StreamOutcome(RvaWriteLayout, w, None));
      case JitterLayout =>
        var res :- ApplyJitterStream(rd, patchCount, rows, tokenToNativeCode);
        r := Ok(StreamOutcome(JitterLayout, res.0, Some(res.1)));
    }

    /** The jitter-hooked branch of `decrypt`, from the reader at offset 8. */
    method ApplyJitterStream(rd: Reader, patchCount: int, rows: seq<MethodRow>,
                             tokenToNativeCode: Option<Dict<bv32, seq<byte>>>)
      returns (r: Result<(seq<ImageWrite>, JitterState)>)
      requires rd.pos == 8 && tokenToNativeMethod.Some?
      modifies this, rd
      ensures tokenToNativeMethod.Some?
      ensures r == JitterStream(rd.data, patchCount, rows,
                                JitterState([], old(tokenToNativeMethod.value), tokenToNativeCode, old(totalEncryptedNativeMethods)))
      ensures r.Ok? ==> tokenToNativeMethod == Some(r.value.1.nativeMethods)
                        && totalEncryptedNativeMethods == r.value.1.totalNative
      ensures xorKey == old(xorKey) && methodToNativeMethod == old(methodToNativeMethod)
      ensures validNativeMethods == old(validNativeMethods) && resourceData == old(resourceData)
    {
      var w :- PatchDwords(rd, patchCount);
      var st :- ApplyJitterTail(rd, rows, tokenToNativeCode);
      r := Ok((w, st));
    }

    /** The record count and the records of the jitter-hooked layout. */
    method ApplyJitterTail(rd: Reader, rows: seq<MethodRow>, tokenToNativeCode: Option<Dict<bv32, seq<byte>>>)
      returns (r: Result<JitterState>)
      requires tokenToNativeMethod.Some?
      modifies this, rd
      ensures tokenToNativeMethod.Some?
      ensures r == JitterTail(rd.data, old(rd.pos), rows,
                              JitterState([], old(tokenToNativeMethod.value), tokenToNativeCode, old(totalEncryptedNativeMethods)))
      ensures r.Ok? ==> tokenToNativeMethod == Some(r.value.nativeMethods)
                        && totalEncryptedNativeMethods == r.value.totalNative
      ensures xorKey == old(xorKey) && methodToNativeMethod == old(methodToNativeMethod)
      ensures validNativeMethods == old(validNativeMethods) && resourceData == old(resourceData)
    {
      var rvaToIndex := BuildRvaToIndex(rows);
      var count :- rd.ReadInt32();
      var res :- ApplyRecords(rd, rvaToIndex, tokenToNativeCode);
      r := Ok(JitterState(res.0, tokenToNativeMethod.value, res.1, totalEncryptedNativeMethods));
    }

    /** `reloaded`: the opaque native bodies move from tokens to the methods of the reloaded
        moduleId, and the token table is dropped. A second call finds the table null and throws. */
    method Reloaded(resolve: bv32 -> Option<MethodDef>) returns (r: Result<()>)
      modifies this
      ensures old(tokenToNativeMethod).None? ==>
        r == Fail(NullReference) && methodToNativeMethod == old(methodToNativeMethod) && tokenToNativeMethod == None
      ensures old(tokenToNativeMethod).Some? ==>
        var spec := Rebind(old(methodToNativeMethod), old(tokenToNativeMethod).value, resolve);
        (spec.Fail? ==> r == Fail(spec.error) && tokenToNativeMethod == old(tokenToNativeMethod))
        && (spec.Ok? ==> r == Ok(()) && methodToNativeMethod == spec.value && tokenToNativeMethod == None)
      ensures xorKey == old(xorKey) && totalEncryptedNativeMethods == old(totalEncryptedNativeMethods)
      ensures validNativeMethods == old(validNativeMethods) && resourceData == old(resourceData)
    {
      if tokenToNativeMethod.None? {
        return Fail(NullReference);
      }
      var entries := tokenToNativeMethod.value;
      var i := 0;
      while i < |entries|
        invariant 0 <= i <= |entries|
        invariant Rebind(old(methodToNativeMethod), entries, resolve) == Rebind(methodToNativeMethod, entries[i..], resolve)
        invariant tokenToNativeMethod == old(tokenToNativeMethod)
        invariant xorKey == old(xorKey) && totalEncryptedNativeMethods == old(totalEncryptedNativeMethods)
        invariant validNativeMethods == old(validNativeMethods) && resourceData == old(resourceData)
      {
        assert entries[i..][0] == entries[i] && entries[i..][1..] == entries[i + 1..];
        var m := resolve(entries[i].0);
        if m.None? {
          return Fail(ApplicationError);
        }
        methodToNativeMethod := Put(methodToNativeMethod, m.value, entries[i].1);
        i := i + 1;
      }
      tokenToNativeMethod := None;
      r := Ok(());
    }

    /** `prepareEncryptNativeMethods`: picks the native methods still in the module and gives the
        resource a zeroed buffer of the rounded-up size their records need. */
    method PrepareEncryptNativeMethods()
      modifies this
      ensures |methodToNativeMethod| == 0 ==>
        validNativeMethods == old(validNativeMethods) && resourceData == old(resourceData)
      ensures |methodToNativeMethod| != 0 ==> validNativeMethods == Some(ValidMethods(methodToNativeMethod, moduleId))
      ensures |methodToNativeMethod| != 0 && |ValidMethods(methodToNativeMethod, moduleId)| != 0 ==>
        resourceData == Zeros(Round16(12 + PayloadSize(methodToNativeMethod, moduleId)))
      ensures |ValidMethods(methodToNativeMethod, moduleId)| == 0 ==> resourceData == old(resourceData)
      ensures methodToNativeMethod == old(methodToNativeMethod) && tokenToNativeMethod == old(tokenToNativeMethod)
      ensures xorKey == old(xorKey) && totalEncryptedNativeMethods == old(totalEncryptedNativeMethods)
    {
      if |methodToNativeMethod| == 0 {
        return;
      }
      var d := methodToNativeMethod;
      var valid := [];
      var len := 12;
      var i := 0;
      while i < |d|
        invariant 0 <= i <= |d|
        invariant ValidMethods(d, moduleId) == valid + ValidMethods(d[i..], moduleId)
        invariant 12 + PayloadSize(d, moduleId) == len + PayloadSize(d[i..], moduleId)
      {
        assert d[i..][0] == d[i] && d[i..][1..] == d[i + 1..];
        var kv := d[i];
        if kv.0.declaringModule.Some? {
          if kv.0.declaringModule.value == moduleId {
            valid := valid + [kv.0];
            len := len + 3 * 4 + |kv.1|;
          }
        }
        i := i + 1;
      }
      assert d[i..] == [] && valid + [] == valid;
      validNativeMethods := Some(valid);
      if |valid| == 0 {
        return;
      }
      len := Round16(len);
      resourceData := Zeros(len);
    }

    /** `encryptNativeMethods`: writes the records of the valid methods, masks and encrypts them,
        and copies the result over the resource chunk's bytes. `Array.Copy` throws when the
        encrypted data is shorter than the chunk; a longer result is cut to the chunk's length. */
    method EncryptNativeMethods(bodies: MethodDef -> Option<MethodBodyInfo>, encrypt: seq<byte> -> seq<byte>,
                                resourceChunk: array<byte>) returns (r: Result<()>)
      modifies resourceChunk
      ensures validNativeMethods.None? || |validNativeMethods.value| == 0 ==>
        r == Ok(()) && resourceChunk[..] == old(resourceChunk[..])
      ensures validNativeMethods.Some? && |validNativeMethods.value| != 0 ==>
        var valid := validNativeMethods.value;
        var recs := NativeRecords(valid, methodToNativeMethod, bodies, 0);
        (recs.Fail? ==> r == Fail(recs.error) && resourceChunk[..] == old(resourceChunk[..]))
        && (recs.Ok? ==>
              var enc := encrypt(XorMasked(NativeStream(|valid|, recs.value), xorKey));
              (|enc| < resourceChunk.Length ==> r == Fail(ArgumentError) && resourceChunk[..] == old(resourceChunk[..]))
              && (|enc| >= resourceChunk.Length ==> r == Ok(()) && resourceChunk[..] == enc[..resourceChunk.Length]))
    {
      if validNativeMethods.None? || |validNativeMethods.value| == 0 {
        return Ok(());
      }
      var valid := validNativeMethods.value;
      var stream :- WriteNativeStream(valid, methodToNativeMethod, bodies);
      var encrypted := new byte[|stream|](k requires 0 <= k < |stream| => stream[k]);
      assert encrypted[..] == stream;
      XorEncrypt(encrypted);
      var enc := encrypt(encrypted[..]);
      if |enc| < resourceChunk.Length {
        return Fail(ArgumentError);
      }
      forall k | 0 <= k < resourceChunk.Length {
        resourceChunk[k] := enc[k];
      }
      r := Ok(());
    }
  }
}
