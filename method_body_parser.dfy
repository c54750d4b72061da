/** de4dot's reader of CIL method bodies: the tiny and fat method headers and the chain of
    exception-handling data sections that may follow the code (ECMA-335 Partition II,
    sections 25.4.2, 25.4.3 and 25.4.5).

    `ParseBody` and `SectionsEnd` are the specification: the header, code and extra-section
    bytes a reader at a given position yields, and the position it is left at. The methods
    run the same steps on a `Reader` and are proved to agree with them. */
module MethodBodyParser {
  import opened Wrappers
  import opened Bytes
  import opened ByteReader

  /** The four header fields de4dot keeps: flags, max stack, code size, local-variable signature token. */
  datatype MethodBodyHeader = MethodBodyHeader(flags: bv16, maxStack: bv16, codeSize: bv32, localVarSigTok: bv32)

  /** A parsed body: its header, its code bytes and, when present, the raw extra-section bytes. */
  datatype MethodBody = MethodBody(header: MethodBodyHeader, code: seq<byte>, extraSections: Option<seq<byte>>)

  /** CorILMethod_MoreSects: extra data sections follow the code. */
  const MORE_SECTS: bv16 := 0x8

  /** Section flags (ECMA-335 II.25.4.5). */
  const SECT_EH_TABLE: byte := 0x01
  const SECT_RESERVED_BITS: byte := 0x3E
  const SECT_FAT_FORMAT: byte := 0x40
  const SECT_MORE_SECTS: byte := 0x80

  /** The header a tiny first byte `b` denotes. */
  function TinyHeader(b: byte): MethodBodyHeader
  {
    MethodBodyHeader(2, 8, (b >> 2) as bv32, 0)
  }

  /** The position `align(reader, 4)` moves to: the next multiple of 4 at or after `p`. */
  function Align4(p: int): (q: int)
    requires p >= 0
    ensures q % 4 == 0 && p <= q < p + 4
  {
    (p + 3) / 4 * 4
  }

  /** Is `flags` an acceptable section flag byte: an exception table, no reserved bits? */
  predicate ValidSectionFlags(f: byte)
  {
    f & SECT_EH_TABLE != 0 && f & SECT_RESERVED_BITS == 0
  }

  /** The number of clauses a fat section's 24-bit size field announces (24 bytes each). */
  function FatClauses(w: bv32): nat
  {
    ((w >> 8) as int) / 24
  }

  /** The number of clauses a small section's size byte announces (12 bytes each). */
  function SmallClauses(c: byte): nat
  {
    (c as int) / 12
  }

  /** The position one section starting at (aligned) `q` with flag byte `f` ends at, reading its
      size field; `parseSection`'s body. */
  function SectionEnd(data: seq<byte>, q: int, f: byte): Result<int>
    requires q >= 0
  {
    if f & SECT_FAT_FORMAT != 0 then
      var w :- U32At(data, q);
      Ok(q + 4 + FatClauses(w) * 24)
    else
      var c :- ByteAt(data, q + 1);
      Ok(q + 2 + 2 + SmallClauses(c) * 12)
  }

  /** The position `parseSection` leaves the reader at when started at `p`, or the error it raises.
      The exact end of a last small or fat section and the step to a chained one are proved in
      `LastSmallSection`, `LastFatSection` and `ChainedSection`. */
  function SectionsEnd(data: seq<byte>, p: int): (r: Result<int>)
    requires p >= 0
    ensures r.Ok? ==> Align4(p) + 4 <= r.value
    decreases |data| - p
  {
    var q := Align4(p);
    var f :- ByteAt(data, q);
    if f & SECT_EH_TABLE == 0 || f & SECT_RESERVED_BITS != 0 then Fail(InvalidMethodBody)
    else
      var e :- SectionEnd(data, q, f);
      if f & SECT_MORE_SECTS != 0 then SectionsEnd(data, e) else Ok(e)
  }

  /** `readExtraSections2` at `p`: the section bytes from the aligned start to the end of the last
      section, and the position after them. */
  function ExtraSections(data: seq<byte>, p: int): Result<(seq<byte>, int)>
    requires p >= 0
  {
    var start := Align4(p);
    var e :- SectionsEnd(data, start);
    SpanBytes(data, start, e)
  }

  /** The bytes from `start` up to `e` as `readBytes` returns them, and the position after them. */
  function SpanBytes(data: seq<byte>, start: int, e: int): Result<(seq<byte>, int)>
  {
    var bytes :- BytesAt(data, start, e - start);
    Ok((bytes, start + |bytes|))
  }

  /** The fat header at `pos` (its first byte has low bits 011), or the error that rejects it. */
  function FatHeader(data: seq<byte>, pos: int): Result<MethodBodyHeader>
  {
    var flags :- U16At(data, pos);
    // the header size 4 * (flags >> 12) must be 12
    if flags >> 12 != 3 then Fail(InvalidMethodBody)
    else
      var maxStack :- U16At(data, pos + 2);
      var codeSize :- U32At(data, pos + 4);
      if codeSize > 0x7FFF_FFFF then Fail(InvalidMethodBody)
      else
        var tok :- U32At(data, pos + 8);
        if tok != 0 && tok >> 24 != 0x11 then Fail(InvalidMethodBody)
        else Ok(MethodBodyHeader(flags, maxStack, codeSize, tok))
  }

  /** The header at `pos` and the offset of the code from `pos`. What each header form reads back
      as is proved in `TinyBody`, `FatHeaderAcceptance` and `OtherFirstByteRejected`. */
  function Header(data: seq<byte>, pos: int): (r: Result<(MethodBodyHeader, int)>)
    ensures r.Ok? ==> r.value.1 == 1 || r.value.1 == 12
  {
    var b :- ByteAt(data, pos);
    if b & 3 == 2 then Ok((TinyHeader(b), 1))
    else if b & 7 == 3 then
      var h :- FatHeader(data, pos);
      Ok((h, 12))
    else Fail(InvalidMethodBody)
  }

  /** `parseMethodBody2` on a reader at `pos`: the body and the position after it, or the
      exception raised. */
  function ParseBody2(data: seq<byte>, pos: int): Result<(MethodBody, int)>
    requires pos >= 0
  {
    var (h, off) :- Header(data, pos);
    BodyAfter(data, pos, h, off)
  }

  /** The rest of `parseMethodBody2` once the header `h` has been read and the code starts at
      `pos + off`. The size check compares against the whole data length. */
  function BodyAfter(data: seq<byte>, pos: int, h: MethodBodyHeader, off: int): Result<(MethodBody, int)>
    requires pos >= 0 && off >= 0
  {
    if h.codeSize as int + off > |data| then Fail(InvalidMethodBody)
    else
      var code :- BytesAt(data, pos + off, h.codeSize as int);
      WithSections(data, h, code, pos + off + |code|)
  }

  /** The body once its code has been read up to `p`: the extra sections follow when the header
      has the MoreSects flag. */
  function WithSections(data: seq<byte>, h: MethodBodyHeader, code: seq<byte>, p: int): (r: Result<(MethodBody, int)>)
    requires p >= 0
    ensures r.Ok? ==> r.value.0.header == h && r.value.0.code == code
  {
    if h.flags & MORE_SECTS != 0 then
      var (extra, q) :- ExtraSections(data, p);
      Ok((MethodBody(h, code, Some(extra)), q))
    else
      Ok((MethodBody(h, code, None), p))
  }

  /** `parseMethodBody`: as `ParseBody2`, with every IOException turned into InvalidMethodBody. */
  function ParseBody(data: seq<byte>, pos: int): Result<(MethodBody, int)>
    requires pos >= 0
  {
    match ParseBody2(data, pos)
    case Ok(r) => Ok(r)
    case Fail(e) => Fail(if e == IOError then InvalidMethodBody else e)
  }

  // ---------------------------------------------------------------------------------------
  // The parser on a reader

  method Peek(r: Reader) returns (b: Result<byte>)
    modifies r
    ensures b == ByteAt(r.data, old(r.pos)) && r.pos == old(r.pos)
  {
    b := r.ReadByte();
    if b.Ok? {
      r.pos := r.pos - 1;
    }
  }

  method Align(r: Reader)
    requires r.pos >= 0
    modifies r
    ensures r.pos == Align4(old(r.pos))
  {
    r.pos := (r.pos + 3) / 4 * 4;
  }

  /** Skips the body of one section whose flag byte (just read, at `pos - 1`) is `flags`. */
  method SkipSection(r: Reader, flags: byte) returns (res: Result<()>)
    requires r.pos >= 1
    modifies r
    ensures res.Ok? <==> SectionEnd(r.data, old(r.pos) - 1, flags).Ok?
    ensures res.Ok? ==> r.pos == SectionEnd(r.data, old(r.pos) - 1, flags).value
    ensures res.Fail? ==> res.error == SectionEnd(r.data, old(r.pos) - 1, flags).error
  {
    if flags & SECT_FAT_FORMAT != 0 {
      r.pos := r.pos - 1;
      var w := r.ReadUInt32();
      if w.Fail? {
        return Fail(w.error);
      }
      var num := FatClauses(w.value);
      r.pos := r.pos + num * 24;
    } else {
      var c := r.ReadByte();
      if c.Fail? {
        return Fail(c.error);
      }
      var num := SmallClauses(c.value);
      r.pos := r.pos + 2 + num * 12;
    }
    res := Ok(());
  }

  method ParseSection(r: Reader) returns (res: Result<()>)
    requires r.pos >= 0
    modifies r
    ensures res.Ok? <==> SectionsEnd(r.data, old(r.pos)).Ok?
    ensures res.Ok? ==> r.pos == SectionsEnd(r.data, old(r.pos)).value
    ensures res.Fail? ==> res.error == SectionsEnd(r.data, old(r.pos)).error
  {
    ghost var p0 := r.pos;
    while true
      invariant r.pos >= 0
      invariant SectionsEnd(r.data, r.pos) == SectionsEnd(r.data, p0)
      decreases |r.data| - r.pos
    {
      Align(r);
      var q := r.pos;
      var fr := r.ReadByte();
      if fr.Fail? {
        return Fail(fr.error);
      }
      var flags := fr.value;
      if flags & SECT_EH_TABLE == 0 {
        return Fail(InvalidMethodBody);
      }
      if flags & SECT_RESERVED_BITS != 0 {
        return Fail(InvalidMethodBody);
      }
      var e := SkipSection(r, flags);
      if e.Fail? {
        return Fail(e.error);
      }
      if flags & SECT_MORE_SECTS == 0 {
        return Ok(());
      }
    }
  }

  method ReadExtraSections2(r: Reader) returns (res: Result<seq<byte>>)
    requires r.pos >= 0
    modifies r
    ensures ExtraSections(r.data, old(r.pos)).Ok? <==> res.Ok?
    ensures res.Ok? ==> (res.value, r.pos) == ExtraSections(r.data, old(r.pos)).value
    ensures res.Fail? ==> res.error == ExtraSections(r.data, old(r.pos)).error
  {
    Align(r);
    var startPos := r.pos;
    var s := ParseSection(r);
    if s.Fail? {
      return Fail(s.error);
    }
    var size := r.pos - startPos;
    r.pos := startPos;
    res := r.ReadBytes(size);
  }

  /** The header-reading half of `parseMethodBody2`: leaves the reader at the code. */
  method ReadHeader(r: Reader) returns (res: Result<(MethodBodyHeader, int)>)
    requires r.pos >= 0
    modifies r
    ensures res == Header(r.data, old(r.pos))
    ensures res.Ok? ==> r.pos == old(r.pos) + res.value.1
  {
    var header: MethodBodyHeader;
    var codeOffset: int;
    var b := Peek(r);
    if b.Fail? {
      return Fail(b.error);
    }
    if b.value & 3 == 2 {
      var b1 := r.ReadByte();
      header := MethodBodyHeader(2, 8, (b1.value >> 2) as bv32, 0);
      codeOffset := 1;
    } else if b.value & 7 == 3 {
      var flags := r.ReadUInt16();
      if flags.Fail? {
        return Fail(flags.error);
      }
      if flags.value >> 12 != 3 {
        return Fail(InvalidMethodBody);
      }
      codeOffset := 12;
      var maxStack := r.ReadUInt16();
      if maxStack.Fail? {
        return Fail(maxStack.error);
      }
      var codeSize := r.ReadUInt32();
      if codeSize.Fail? {
        return Fail(codeSize.error);
      }
      if codeSize.value > 0x7FFF_FFFF {
        return Fail(InvalidMethodBody);
      }
      var tok := r.ReadUInt32();
      if tok.Fail? {
        return Fail(tok.error);
      }
      if tok.value != 0 && tok.value >> 24 != 0x11 {
        return Fail(InvalidMethodBody);
      }
      header := MethodBodyHeader(flags.value, maxStack.value, codeSize.value, tok.value);
    } else {
      return Fail(InvalidMethodBody);
    }

    res := Ok((header, codeOffset));
  }

  /** The code and extra-section half of `parseMethodBody2`, with the reader at the code. */
  method ReadBody(r: Reader, ghost pos: int, header: MethodBodyHeader, codeOffset: int) returns (res: Result<MethodBody>)
    requires pos >= 0 && codeOffset >= 0 && r.pos == pos + codeOffset
    modifies r
    ensures BodyAfter(r.data, pos, header, codeOffset).Ok? <==> res.Ok?
    ensures res.Ok? ==> (res.value, r.pos) == BodyAfter(r.data, pos, header, codeOffset).value
    ensures res.Fail? ==> res.error == BodyAfter(r.data, pos, header, codeOffset).error
  {
    if header.codeSize as int + codeOffset > |r.data| {
      return Fail(InvalidMethodBody);
    }
    var code := r.ReadBytes(header.codeSize as int);
    assert code == BytesAt(r.data, pos + codeOffset, header.codeSize as int);
    assert r.pos == pos + codeOffset + |code.value|;
    var extraSections: Option<seq<byte>>;
    if header.flags & MORE_SECTS != 0 {
      var x := ReadExtraSections2(r);
      if x.Fail? {
        return Fail(x.error);
      }
      extraSections := Some(x.value);
    } else {
      extraSections := None;
    }
    res := Ok(MethodBody(header, code.value, extraSections));
  }

  method ParseMethodBody2(r: Reader) returns (res: Result<MethodBody>)
    requires r.pos >= 0
    modifies r
    ensures ParseBody2(r.data, old(r.pos)).Ok? <==> res.Ok?
    ensures res.Ok? ==> (res.value, r.pos) == ParseBody2(r.data, old(r.pos)).value
    ensures res.Fail? ==> res.error == ParseBody2(r.data, old(r.pos)).error
  {
    ghost var pos := r.pos;
    var h := ReadHeader(r);
    if h.Fail? {
      return Fail(h.error);
    }
    var (header, codeOffset) := h.value;
    res := ReadBody(r, pos, header, codeOffset);
  }

  method ParseMethodBody(r: Reader) returns (res: Result<MethodBody>)
    requires r.pos >= 0
    modifies r
    ensures ParseBody(r.data, old(r.pos)).Ok? <==> res.Ok?
    ensures res.Ok? ==> (res.value, r.pos) == ParseBody(r.data, old(r.pos)).value
    ensures res.Fail? ==> res.error == ParseBody(r.data, old(r.pos)).error
  {
    res := ParseMethodBody2(r);
    if res.Fail? && res.error == IOError {
      res := Fail(InvalidMethodBody);
    }
  }

  /** `verify(byte[])`: true exactly when the bytes parse as a method body from offset 0. */
  method Verify(data: seq<byte>) returns (ok: bool)
    ensures ok <==> ParseBody(data, 0).Ok?
  {
    var r := new Reader(data);
    var res := ParseMethodBody(r);
    ok := res.Ok?;
  }
}

/** Properties of the method-body parser. */
module MethodBodyProperties {
  import opened Wrappers
  import opened Bytes
  import opened ByteReader
  import opened MethodBodyParser

  /** A tiny header byte `b` (low bits 10) gives flags 2, maxStack 8, codeSize `b >> 2`, no local
      signature and no extra sections; the code follows the single header byte. */
  lemma TinyBody(data: seq<byte>, pos: nat)
    requires pos < |data| && data[pos] & 3 == 2
    ensures var n := (data[pos] >> 2) as int;
      ParseBody(data, pos) ==
        if n + 1 > |data| then Fail(InvalidMethodBody)
        else Ok((MethodBody(MethodBodyHeader(2, 8, (data[pos] >> 2) as bv32, 0), Slice(data, pos + 1, n), None),
                 pos + 1 + |Slice(data, pos + 1, n)|))
  {
  }

  /** A fat header (low bits 011) with all twelve bytes present is accepted exactly when its size
      nibble is 3, its code size fits an int and its local signature token is 0 or a
      StandAloneSig (0x11) token. */
  lemma FatHeaderAcceptance(data: seq<byte>, pos: nat)
    requires pos + 12 <= |data| && data[pos] & 7 == 3
    ensures var flags := LeU16(data[pos..pos + 2]);
      var maxStack := LeU16(data[pos + 2..pos + 4]);
      var codeSize := LeU32(data[pos + 4..pos + 8]);
      var tok := LeU32(data[pos + 8..pos + 12]);
      (Header(data, pos).Ok? <==> flags >> 12 == 3 && codeSize <= 0x7FFF_FFFF && (tok == 0 || tok >> 24 == 0x11))
      && (Header(data, pos).Ok? ==> Header(data, pos).value == (MethodBodyHeader(flags, maxStack, codeSize, tok), 12))
  {
  }

  /** A first byte that is neither a tiny nor a fat header, or no first byte at all, is rejected. */
  lemma OtherFirstByteRejected(data: seq<byte>, pos: nat)
    requires pos < |data| ==> data[pos] & 3 != 2 && data[pos] & 7 != 3
    ensures ParseBody(data, pos) == Fail(InvalidMethodBody)
  {
  }

  /** From offset 0, an accepted body keeps the header and its code is exactly the `codeSize`
      bytes after the header. */
  lemma CodeBytes(data: seq<byte>, h: MethodBodyHeader, off: int, n: int)
    requires Header(data, 0) == Ok((h, off)) && n == h.codeSize as int
    ensures ParseBody(data, 0).Ok? ==>
      ParseBody(data, 0).value.0.header == h && ParseBody(data, 0).value.0.code == data[off..off + n]
  {
    ParseBodyAfterHeader(data, 0, h, off);
    if n + off <= |data| {
      BodyAfterCode(data, 0, h, off, n);
    }
  }

  /** The size check: a code size that with the header overruns the data is rejected. */
  lemma CodeSizeChecked(data: seq<byte>, pos: nat, h: MethodBodyHeader, off: int)
    requires Header(data, pos) == Ok((h, off))
    ensures h.codeSize as int + off > |data| ==> ParseBody(data, pos) == Fail(InvalidMethodBody)
  {
    ParseBodyAfterHeader(data, pos, h, off);
  }

  /** Once the header has been read, the rest of the body is parsed from after it. */
  lemma ParseBodyAfterHeader(data: seq<byte>, pos: nat, h: MethodBodyHeader, off: int)
    requires Header(data, pos) == Ok((h, off))
    ensures off >= 0 && ParseBody2(data, pos) == BodyAfter(data, pos, h, off)
  {
  }

  lemma BodyAfterCode(data: seq<byte>, pos: int, h: MethodBodyHeader, off: int, n: int)
    requires pos >= 0 && off >= 0 && n == h.codeSize as int && pos + off + n <= |data|
    ensures BodyAfter(data, pos, h, off).Ok? ==>
      BodyAfter(data, pos, h, off).value.0.header == h
      && BodyAfter(data, pos, h, off).value.0.code == data[pos + off..pos + off + n]
  {
    WholeSlice(data, pos + off, n);
  }

  /** Extra sections are present exactly when the header has the MoreSects flag; tiny headers
      (flags 2) therefore never have them. */
  lemma ExtraSectionsIffMoreSects(data: seq<byte>, pos: nat)
    requires ParseBody(data, pos).Ok?
    ensures var b := ParseBody(data, pos).value.0;
      (b.extraSections.Some? <==> b.header.flags & MORE_SECTS != 0)
      && (data[pos] & 3 == 2 ==> b.extraSections.None?)
  {
  }

  /** A section whose flag byte lacks the exception-table bit or has a reserved bit is rejected. */
  lemma SectionFlagsChecked(data: seq<byte>, p: nat)
    requires Align4(p) < |data| && !ValidSectionFlags(data[Align4(p)])
    ensures SectionsEnd(data, p) == Fail(InvalidMethodBody)
  {
  }

  /** A last (no MoreSects bit) small section with a valid flag byte and size byte `c` spans its
      4-byte header and `c / 12` clauses of 12 bytes. */
  lemma LastSmallSection(data: seq<byte>, p: nat)
    requires Align4(p) + 2 <= |data|
    requires var f := data[Align4(p)]; ValidSectionFlags(f) && f & SECT_FAT_FORMAT == 0 && f & SECT_MORE_SECTS == 0
    ensures SectionsEnd(data, p) == Ok(Align4(p) + 4 + (data[Align4(p) + 1] as int) / 12 * 12)
  {
  }

  /** A last fat section spans its 4-byte header and `(u32 >> 8) / 24` clauses of 24 bytes. */
  lemma LastFatSection(data: seq<byte>, p: nat)
    requires Align4(p) + 4 <= |data|
    requires var f := data[Align4(p)]; ValidSectionFlags(f) && f & SECT_FAT_FORMAT != 0 && f & SECT_MORE_SECTS == 0
    ensures var q := Align4(p);
      SectionsEnd(data, p) == Ok(q + 4 + ((LeU32(data[q..q + 4]) >> 8) as int) / 24 * 24)
  {
  }

  /** A section with the MoreSects bit is followed by the rest of the chain, read from its end. */
  lemma ChainedSection(data: seq<byte>, p: nat)
    requires Align4(p) < |data|
    requires var f := data[Align4(p)]; ValidSectionFlags(f) && f & SECT_MORE_SECTS != 0
    requires SectionEnd(data, Align4(p), data[Align4(p)]).Ok?
    ensures SectionsEnd(data, p) == SectionsEnd(data, SectionEnd(data, Align4(p), data[Align4(p)]).value)
  {
  }

  /** The section walk only ever raises an IOException or InvalidMethodBody. */
  lemma {:induction false} SectionsEndErrors(data: seq<byte>, p: nat)
    requires SectionsEnd(data, p).Fail?
    ensures SectionsEnd(data, p).error in {IOError, InvalidMethodBody}
    decreases |data| - p
  {
    var q := Align4(p);
    if q < |data| && ValidSectionFlags(data[q]) && SectionEnd(data, q, data[q]).Ok?
       && data[q] & SECT_MORE_SECTS != 0 {
      SectionsEndErrors(data, SectionEnd(data, q, data[q]).value);
    }
  }

  /** The extra-section bytes run exactly from the aligned start to the end of the last section
      whenever that end lies within the data, and the reader is left at that end. */
  lemma ExtraSectionsSpan(data: seq<byte>, p: nat, e: int)
    requires SectionsEnd(data, Align4(p)) == Ok(e) && e <= |data|
    ensures ExtraSections(data, p) == Ok((data[Align4(p)..e], e))
  {
    var s := Align4(p);
    assert s <= e;
    SpanBytesWhole(data, s, e);
  }

  lemma SpanBytesWhole(data: seq<byte>, s: int, e: int)
    requires 0 <= s <= e <= |data|
    ensures SpanBytes(data, s, e) == Ok((data[s..e], e))
  {
    WholeSlice(data, s, e - s);
  }

  /** Reading a header only ever raises an IOException or InvalidMethodBody. */
  lemma HeaderErrors(data: seq<byte>, pos: nat)
    requires Header(data, pos).Fail?
    ensures Header(data, pos).error in {IOError, InvalidMethodBody}
  {
  }

  /** Reading the code and the extra sections only ever raises an IOException or InvalidMethodBody. */
  lemma BodyAfterErrors(data: seq<byte>, pos: nat, h: MethodBodyHeader, off: nat)
    requires BodyAfter(data, pos, h, off).Fail?
    ensures BodyAfter(data, pos, h, off).error in {IOError, InvalidMethodBody}
  {
    if h.codeSize as int + off <= |data| {
      var code := Slice(data, pos + off, h.codeSize as int);
      BodyAfterRead(data, pos, h, off, code);
      WithSectionsErrors(data, h, code, pos + off + |code|);
    }
  }

  /** Once the code size fits, reading the code cannot fail and the body is decided by what follows it. */
  lemma BodyAfterRead(data: seq<byte>, pos: nat, h: MethodBodyHeader, off: nat, code: seq<byte>)
    requires h.codeSize as int + off <= |data| && code == Slice(data, pos + off, h.codeSize as int)
    ensures BodyAfter(data, pos, h, off) == WithSections(data, h, code, pos + off + |code|)
  {
  }

  lemma WithSectionsErrors(data: seq<byte>, h: MethodBodyHeader, code: seq<byte>, p: nat)
    requires WithSections(data, h, code, p).Fail?
    ensures WithSections(data, h, code, p).error in {IOError, InvalidMethodBody}
  {
    var start := Align4(p);
    if SectionsEnd(data, start).Fail? {
      SectionsEndErrors(data, start);
    }
  }

  /** `parseMethodBody` never lets an IOException out: every failure is InvalidMethodBody, which
      is why `verify` can answer false instead of throwing. */
  lemma ParseBodyFailsOnlyInvalid(data: seq<byte>, pos: nat)
    requires ParseBody(data, pos).Fail?
    ensures ParseBody(data, pos).error == InvalidMethodBody
  {
    var hd := Header(data, pos);
    if hd.Fail? {
      HeaderErrors(data, pos);
    } else {
      BodyAfterErrors(data, pos, hd.value.0, hd.value.1);
    }
  }

  // ---------------------------------------------------------------------------------------
  // Encoding a body and reading it back

  /** A fat header as a method body writer lays it out: flags, maxStack, codeSize, token. */
  function EncodeFat(h: MethodBodyHeader): (r: seq<byte>)
    ensures |r| == 12
  {
    U16Le(h.flags) + U16Le(h.maxStack) + U32Le(h.codeSize) + U32Le(h.localVarSigTok)
  }

  /** A fat header the parser accepts: fat format bits, size nibble 3, an int-sized code size and
      a null or StandAloneSig local signature token. */
  predicate AcceptableFat(h: MethodBodyHeader)
  {
    h.flags & 7 == 3 && h.flags >> 12 == 3 && h.codeSize <= 0x7FFF_FFFF
    && (h.localVarSigTok == 0 || h.localVarSigTok >> 24 == 0x11)
  }

  lemma EncodeFatFields(h: MethodBodyHeader, rest: seq<byte>)
    ensures var d := EncodeFat(h) + rest;
      d[0..2] == U16Le(h.flags) && d[2..4] == U16Le(h.maxStack)
      && d[4..8] == U32Le(h.codeSize) && d[8..12] == U32Le(h.localVarSigTok)
  {
    var d := EncodeFat(h) + rest;
    assert d[0..12] == EncodeFat(h);
  }

  lemma EncodeFatHeader(h: MethodBodyHeader, rest: seq<byte>)
    requires AcceptableFat(h)
    ensures Header(EncodeFat(h) + rest, 0) == Ok((h, 12))
  {
    var d := EncodeFat(h) + rest;
    EncodeFatFields(h, rest);
    LeU16OfU16Le(h.flags);
    LeU16OfU16Le(h.maxStack);
    LeU32OfU32Le(h.codeSize);
    LeU32OfU32Le(h.localVarSigTok);
    assert d[0] == (h.flags & 0xFF) as byte;
  }

  /** A header without MoreSects whose code fits is followed by exactly its code. */
  lemma BodyWithoutSections(data: seq<byte>, pos: nat)
    requires Header(data, pos).Ok?
    requires var (h, off) := Header(data, pos).value; h.flags & MORE_SECTS == 0 && h.codeSize as int + off <= |data|
    ensures var (h, off) := Header(data, pos).value;
      var code := Slice(data, pos + off, h.codeSize as int);
      ParseBody(data, pos) == Ok((MethodBody(h, code, None), pos + off + |code|))
  {
  }

  /** Round trip: an acceptable fat header without MoreSects followed by its code parses back to
      the same header and code, leaving the reader at the end. */
  lemma FatRoundTrip(h: MethodBodyHeader, code: seq<byte>)
    requires AcceptableFat(h) && h.flags & MORE_SECTS == 0 && |code| == h.codeSize as int
    ensures ParseBody(EncodeFat(h) + code, 0) == Ok((MethodBody(h, code, None), 12 + |code|))
  {
    EncodeFatHeader(h, code);
    var d := EncodeFat(h) + code;
    assert d[12..12 + |code|] == code;
    assert Slice(d, 12, |code|) == code;
    BodyWithoutSections(d, 0);
  }

  /** Round trip: a tiny header byte followed by exactly `b >> 2` code bytes parses back. */
  lemma TinyRoundTrip(b: byte, code: seq<byte>)
    requires b & 3 == 2 && |code| == (b >> 2) as int
    ensures ParseBody([b] + code, 0) == Ok((MethodBody(TinyHeader(b), code, None), 1 + |code|))
  {
    var d := [b] + code;
    assert d[1..1 + |code|] == code;
  }

  /** Every strict prefix of an encoded fat body is rejected: a truncated body never verifies. */
  lemma FatPrefixRejected(h: MethodBodyHeader, code: seq<byte>, k: nat)
    requires AcceptableFat(h) && |code| == h.codeSize as int && k < 12 + |code|
    ensures ParseBody((EncodeFat(h) + code)[..k], 0) == Fail(InvalidMethodBody)
  {
    var d := (EncodeFat(h) + code)[..k];
    if k >= 12 {
      assert d == EncodeFat(h) + code[..k - 12];
      EncodeFatHeader(h, code[..k - 12]);
    } else if k > 0 {
      assert d[0] == U16Le(h.flags)[0];
      ParseBodyFailsOnlyInvalid(d, 0);
    }
  }

  /** The size check compares against the whole data length, not what remains after `pos`: a
      tiny body announcing 3 code bytes at offset 4 of a 6-byte buffer is accepted with 1 byte. */
  lemma SizeCheckUsesWholeLength()
    ensures ParseBody([0, 0, 0, 0, 0x0E, 0xAA], 4) == Ok((MethodBody(TinyHeader(0x0E), [0xAA], None), 6))
  {
    var d: seq<byte> := [0, 0, 0, 0, 0x0E, 0xAA];
    assert Slice(d, 5, 3) == [0xAA];
  }
}
