# de4dot core, modelled in Dafny

de4dot is a .NET deobfuscator. It reads an obfuscated assembly with dnlib, its metadata
library, then undoes what the obfuscator did: it decrypts method bodies and resources, restores
proxied calls, and removes the obfuscator's own types and resources. This project models the
byte-level recovery code at its core, together with the dnlib metadata helpers that code relies on.

- **Method bodies** (`MethodBodyParser`). This is the reader for tiny and fat CIL method headers
  and for the chain of exception-handling sections after the code (ECMA-335 Partition II,
  sections 25.4.2, 25.4.3 and 25.4.5). It is proved equal to a functional specification and to
  reject every malformed or truncated body with InvalidMethodBody.
- **Cipher and codec primitives** (`DeobUtils`).
  - XXTEA and XTEA decryption in place on 32-bit words, each proved to invert the corresponding
    encryption (XXTEA for blocks of two or more words; an empty block fails with DivideByZero).
  - The ECMA-335 II.23.2 compressed-integer reader, with an encode/decode round trip.
  - The wildcard native-code matcher, the module-kind extension and the ldc.i4 search.
- **dotNET Reactor** (`ReactorV4`, `ReactorV3`).
  - v4: the method stream's 8-byte XOR mask, the code-RVA index, the three record layouts, the
    native-stub rewrites and the re-encryption writer.
  - v3: the memory patcher's patch table and its 4-byte little-endian writes into the image.
- **Resource framing and string ciphers.**
  - Babel's encrypted resource assembly (`BabelResources`): the XOR-masked count, the skipped
    names and the payload length. BinaryReader's 7-bit length-prefixed strings are in `BinaryStrings`.
  - Dotfuscator's byte-swapping string cipher and its decrypter-method rule (`DotfuscatorStrings`).
- **dnlib metadata.**
  - `#Blob` heap reads (`BlobStream`).
  - Range and owner lookups over the metadata tables (`MetaData`).
  - The module writer's `ChunkList` (`ChunkLists`).
  - `ParamDef`'s token, full name and attribute flags (`ParamDefs`).
- **Rewrite and selection rules.**
  - The proxy-call restorer (`CallRestorer`).
  - SmartAssembly's version guess and "big type" choice (`SmartAssembly`).
  - MaxtoCode's pruning of duplicate and invalid resources (`MaxtoCode`).

`Wrappers` (Option, Result and the exception kinds), `Bytes` (little-endian byte helpers),
`ByteReader` (the positioned reader dnlib's `IBinaryReader` and .NET's `BinaryReader` provide),
`Cil` (instructions and method references) and `Dictionary` (a .NET `Dictionary` as an
insertion-ordered association list) are shared helpers.

Where the source changes state step by step, the model does too: readers are a `Reader` object
whose position methods advance, ciphers work in place on `array<bv32>`, and classes keep their
fields. Each such method is proved against a specification function, and the properties are
proved as lemmas about that function. C# `uint` and `ushort` arithmetic is written on `bv32`
and `bv16`, so wrap-around is explicit. Counts and sizes are `int`.

## Model

| member | source | states |
|---|---|---|
| MethodBodyParser.Align4 | ConfuserDeobfuscator/de4dot/de4dot.code/deobfuscators/MethodBodyParser.cs:107-109 | `align(reader, 4)` moves to a multiple of 4 that is at or after the position and less than 4 bytes past it |
| MethodBodyParser.SectionsEnd | ConfuserDeobfuscator/de4dot/de4dot.code/deobfuscators/MethodBodyParser.cs:129-150 | a section walk that succeeds ends at least one 4-byte section header past the aligned start |
| MethodBodyParser.Header | ConfuserDeobfuscator/de4dot/de4dot.code/deobfuscators/MethodBodyParser.cs:70-93 | an accepted header puts the code 1 byte (tiny) or 12 bytes (fat) after the header start |
| MethodBodyParser.WithSections | ConfuserDeobfuscator/de4dot/de4dot.code/deobfuscators/MethodBodyParser.cs:99-104 | reading the extra sections keeps the header and the code already read |
| MethodBodyParser.Peek | ConfuserDeobfuscator/de4dot/de4dot.code/deobfuscators/MethodBodyParser.cs:152-156 | `peek` yields the byte at the position, or the read error, and leaves the position where it was |
| MethodBodyParser.Align | ConfuserDeobfuscator/de4dot/de4dot.code/deobfuscators/MethodBodyParser.cs:107-109 | the reader's position becomes the next multiple of 4 at or after it |
| MethodBodyParser.SkipSection | ConfuserDeobfuscator/de4dot/de4dot.code/deobfuscators/MethodBodyParser.cs:140-148 | skipping one section's clauses succeeds, fails and ends exactly as `SectionEnd` says: fat sections skip `(u32 >> 8) / 24` clauses of 24 bytes, small ones `2 + (size / 12) * 12` bytes |
| MethodBodyParser.ParseSection | ConfuserDeobfuscator/de4dot/de4dot.code/deobfuscators/MethodBodyParser.cs:129-150 | the do-while section loop succeeds exactly when `SectionsEnd` does, stops at the position it gives and raises the error it gives |
| MethodBodyParser.ReadExtraSections2 | ConfuserDeobfuscator/de4dot/de4dot.code/deobfuscators/MethodBodyParser.cs:120-127 | the extra-section bytes and the final position are those of `ExtraSections`: rewind to the aligned start and read up to the end of the last section |
| MethodBodyParser.ReadHeader | ConfuserDeobfuscator/de4dot/de4dot.code/deobfuscators/MethodBodyParser.cs:67-93 | the header read equals `Header`, and the reader is left at the code |
| MethodBodyParser.ReadBody | ConfuserDeobfuscator/de4dot/de4dot.code/deobfuscators/MethodBodyParser.cs:95-104 | the code, the extra sections and the final position equal `BodyAfter`, including its errors |
| MethodBodyParser.ParseMethodBody2 | ConfuserDeobfuscator/de4dot/de4dot.code/deobfuscators/MethodBodyParser.cs:67-105 | the parsed body, final position and error equal `ParseBody2` at the starting position |
| MethodBodyParser.ParseMethodBody | ConfuserDeobfuscator/de4dot/de4dot.code/deobfuscators/MethodBodyParser.cs:43-50 | as `ParseMethodBody2`, with an IOException turned into InvalidMethodBody (equals `ParseBody`) |
| MethodBodyParser.Verify | ConfuserDeobfuscator/de4dot/de4dot.code/deobfuscators/MethodBodyParser.cs:52-65 | `verify(byte[])` is true exactly when the bytes parse as a method body from offset 0 |
| MethodBodyProperties.TinyBody | ConfuserDeobfuscator/de4dot/de4dot.code/deobfuscators/MethodBodyParser.cs:72-77 | a first byte with low bits 10 gives flags 2, maxStack 8, codeSize `b >> 2`, token 0, code right after the byte and no extra sections; it is rejected when the code overruns the data |
| MethodBodyProperties.FatHeaderAcceptance | ConfuserDeobfuscator/de4dot/de4dot.code/deobfuscators/MethodBodyParser.cs:79-91 | a fat header is accepted if and only if its size nibble gives 12 bytes, codeSize is at most int.MaxValue and the local token is 0 or has top byte 0x11; the fields are read little-endian |
| MethodBodyProperties.OtherFirstByteRejected | ConfuserDeobfuscator/de4dot/de4dot.code/deobfuscators/MethodBodyParser.cs:92-93 | a first byte that is neither tiny nor fat, or a missing first byte, gives InvalidMethodBody |
| MethodBodyProperties.CodeBytes | ConfuserDeobfuscator/de4dot/de4dot.code/deobfuscators/MethodBodyParser.cs:95-97 | an accepted body keeps its header, and its code is exactly the codeSize bytes after the header |
| MethodBodyProperties.CodeSizeChecked | ConfuserDeobfuscator/de4dot/de4dot.code/deobfuscators/MethodBodyParser.cs:95-96 | a codeSize that overruns the reader length together with the header is rejected |
| MethodBodyProperties.ParseBodyAfterHeader | ConfuserDeobfuscator/de4dot/de4dot.code/deobfuscators/MethodBodyParser.cs:67-105 | once the header is read, the rest of the body is parsed from the code offset it gives |
| MethodBodyProperties.BodyAfterCode | ConfuserDeobfuscator/de4dot/de4dot.code/deobfuscators/MethodBodyParser.cs:95-97 | when the code fits, the body's code is the slice of codeSize bytes at the code offset |
| MethodBodyProperties.ExtraSectionsIffMoreSects | ConfuserDeobfuscator/de4dot/de4dot.code/deobfuscators/MethodBodyParser.cs:99-102 | extra sections are present if and only if flag 0x8 is set, so a tiny header never has them |
| MethodBodyProperties.SectionFlagsChecked | ConfuserDeobfuscator/de4dot/de4dot.code/deobfuscators/MethodBodyParser.cs:134-138 | a section flag byte without bit 0 or with any of bits 0x3E gives InvalidMethodBody |
| MethodBodyProperties.LastSmallSection | ConfuserDeobfuscator/de4dot/de4dot.code/deobfuscators/MethodBodyParser.cs:145-149 | a last small section spans 4 bytes plus `(size / 12) * 12` |
| MethodBodyProperties.LastFatSection | ConfuserDeobfuscator/de4dot/de4dot.code/deobfuscators/MethodBodyParser.cs:140-144 | a last fat section spans 4 bytes plus `((u32 >> 8) / 24) * 24` |
| MethodBodyProperties.ChainedSection | ConfuserDeobfuscator/de4dot/de4dot.code/deobfuscators/MethodBodyParser.cs:149 | with bit 0x80 set the walk continues from the end of the current section |
| MethodBodyProperties.SectionsEndErrors | ConfuserDeobfuscator/de4dot/de4dot.code/deobfuscators/MethodBodyParser.cs:129-150 | the section walk only raises IOException or InvalidMethodBody |
| MethodBodyProperties.ExtraSectionsSpan | ConfuserDeobfuscator/de4dot/de4dot.code/deobfuscators/MethodBodyParser.cs:120-127 | the extra-section bytes run exactly from the aligned start to the end of the last section, and the reader ends there |
| MethodBodyProperties.HeaderErrors | ConfuserDeobfuscator/de4dot/de4dot.code/deobfuscators/MethodBodyParser.cs:70-93 | reading a header only raises IOException or InvalidMethodBody |
| MethodBodyProperties.BodyAfterErrors | ConfuserDeobfuscator/de4dot/de4dot.code/deobfuscators/MethodBodyParser.cs:95-102 | reading the code and sections only raises IOException or InvalidMethodBody |
| MethodBodyProperties.BodyAfterRead | ConfuserDeobfuscator/de4dot/de4dot.code/deobfuscators/MethodBodyParser.cs:95-102 | once the size check passes, reading the code cannot fail and the outcome is decided by the sections |
| MethodBodyProperties.WithSectionsErrors | ConfuserDeobfuscator/de4dot/de4dot.code/deobfuscators/MethodBodyParser.cs:99-102 | reading the extra sections only raises IOException or InvalidMethodBody |
| MethodBodyProperties.ParseBodyFailsOnlyInvalid | ConfuserDeobfuscator/de4dot/de4dot.code/deobfuscators/MethodBodyParser.cs:43-65 | every failure of `parseMethodBody` is InvalidMethodBody, so `verify` answers false on malformed or truncated input instead of throwing |
| MethodBodyProperties.EncodeFat | ConfuserDeobfuscator/de4dot/de4dot.code/deobfuscators/MethodBodyParser.cs:79-88 | the fat header layout the parser reads is 12 bytes long |
| MethodBodyProperties.EncodeFatHeader | ConfuserDeobfuscator/de4dot/de4dot.code/deobfuscators/MethodBodyParser.cs:79-91 | an acceptable fat header, laid out little-endian, reads back as itself with the code at offset 12 |
| MethodBodyProperties.BodyWithoutSections | ConfuserDeobfuscator/de4dot/de4dot.code/deobfuscators/MethodBodyParser.cs:95-104 | without flag 0x8 and with the code in range, the body is the header and the codeSize bytes, with no extra sections |
| MethodBodyProperties.FatRoundTrip | ConfuserDeobfuscator/de4dot/de4dot.code/deobfuscators/MethodBodyParser.cs:67-105 | an acceptable fat header without MoreSects followed by its code parses back to the same header and code, ending after the code |
| MethodBodyProperties.TinyRoundTrip | ConfuserDeobfuscator/de4dot/de4dot.code/deobfuscators/MethodBodyParser.cs:72-77 | a tiny header byte followed by `b >> 2` code bytes parses back to the same header and code |
| MethodBodyProperties.FatPrefixRejected | ConfuserDeobfuscator/de4dot/de4dot.code/deobfuscators/MethodBodyParser.cs:43-65 | every strict prefix of an encoded fat body is rejected with InvalidMethodBody |
| MethodBodyProperties.SizeCheckUsesWholeLength | ConfuserDeobfuscator/de4dot/de4dot.code/deobfuscators/MethodBodyParser.cs:95-97 | the size check compares with the whole reader length, not with what is left after the position: a 6-byte buffer with a tiny header at offset 4 announcing 3 code bytes is accepted with 1 code byte |
| DeobUtils.IsCode | ConfuserDeobfuscator/de4dot/de4dot.code/deobfuscators/DeobUtils.cs:60-70 | `isCode` is true if and only if the lengths are equal and every pattern entry other than -1 has a low byte equal to the code byte at the same index |
| DeobUtils.SumOfPred | ConfuserDeobfuscator/de4dot/de4dot.code/deobfuscators/DeobUtils.cs:126 | `sum -= DELTA` (mod 2^32) moves the running sum from cycle k to cycle k - 1 |
| DeobUtils.SumOfNonZero | ConfuserDeobfuscator/de4dot/de4dot.code/deobfuscators/DeobUtils.cs:112-126 | the sums `k * DELTA` of cycles 1 to 58 are never 0 mod 2^32, so the do-while stops only after the last cycle |
| DeobUtils.XxteaRounds | ConfuserDeobfuscator/de4dot/de4dot.code/deobfuscators/DeobUtils.cs:112 | the cycle count `6 + 52 / n` lies between 6 and 58 |
| DeobUtils.DecStep | ConfuserDeobfuscator/de4dot/de4dot.code/deobfuscators/DeobUtils.cs:122 | one `v[p] -= MX` step changes one word and keeps the length |
| DeobUtils.EncStep | ConfuserDeobfuscator/de4dot/de4dot.code/deobfuscators/DeobUtils.cs:122 | the matching encryption step (`v[p] += MX`), the partner of `DecStep`, keeps the length |
| DeobUtils.DecFrom | ConfuserDeobfuscator/de4dot/de4dot.code/deobfuscators/DeobUtils.cs:120-125 | the steps for words n-1 down to 0 of one cycle keep the length |
| DeobUtils.EncUpTo | ConfuserDeobfuscator/de4dot/de4dot.code/deobfuscators/DeobUtils.cs:120-125 | the encryption steps for words 0 up to m-1 keep the length |
| DeobUtils.DecRounds | ConfuserDeobfuscator/de4dot/de4dot.code/deobfuscators/DeobUtils.cs:117-126 | decryption cycles k down to 1, cycle j using the sum `j * DELTA`, keep the length |
| DeobUtils.EncRounds | ConfuserDeobfuscator/de4dot/de4dot.code/deobfuscators/DeobUtils.cs:117-126 | encryption cycles 1 up to k keep the length |
| DeobUtils.XxteaDecrypted | ConfuserDeobfuscator/de4dot/de4dot.code/deobfuscators/DeobUtils.cs:109-127 | the words `xxteaDecrypt` leaves after `6 + 52 / n` cycles; same length as the input |
| DeobUtils.XxteaEncrypted | ConfuserDeobfuscator/de4dot/de4dot.code/deobfuscators/DeobUtils.cs:109-127 | XXTEA encryption, the inverse the decryption is checked against, keeps the length |
| DeobUtils.XxteaCycle | ConfuserDeobfuscator/de4dot/de4dot.code/deobfuscators/DeobUtils.cs:117-125 | one pass of the do-while body (the inner `for` and the word-0 step) turns `v` in place into `DecFrom` of its old words |
| DeobUtils.XxteaDecrypt | ConfuserDeobfuscator/de4dot/de4dot.code/deobfuscators/DeobUtils.cs:109-127 | an empty block fails with DivideByZero before any word is written; otherwise `xxteaDecrypt` leaves in `v` exactly `XxteaDecrypted(old v, key)`: `6 + 52 / n` cycles with the sum counting down from `rounds * DELTA` to 0; only `v` is written, never the key |
| DeobUtils.DecStepEncStep | ConfuserDeobfuscator/de4dot/de4dot.code/deobfuscators/DeobUtils.cs:122 | with two or more words, a decryption step undoes the encryption step of the same word and sum |
| DeobUtils.DecFromEncUpTo | ConfuserDeobfuscator/de4dot/de4dot.code/deobfuscators/DeobUtils.cs:120-125 | the descending decryption steps of one cycle undo its ascending encryption steps |
| DeobUtils.DecRoundsEncRounds | ConfuserDeobfuscator/de4dot/de4dot.code/deobfuscators/DeobUtils.cs:117-126 | k decryption cycles undo k encryption cycles |
| DeobUtils.XxteaRoundTrip | ConfuserDeobfuscator/de4dot/de4dot.code/deobfuscators/DeobUtils.cs:109-127 | XXTEA decryption of an encrypted block of two or more words gives the block back |
| DeobUtils.XteaCycle | ConfuserDeobfuscator/de4dot/de4dot.code/deobfuscators/DeobUtils.cs:134-136 | one loop iteration updates v1, steps the sum down by delta and updates v0, as `XteaDecRound` |
| DeobUtils.XteaDecrypt | ConfuserDeobfuscator/de4dot/de4dot.code/deobfuscators/DeobUtils.cs:130-138 | `xteaDecrypt` runs exactly `rounds` cycles and returns `XteaDecrypted`; for a positive count the sum ends at 0 mod 2^32; only v0 and v1 change |
| DeobUtils.XteaDecRoundEncRound | ConfuserDeobfuscator/de4dot/de4dot.code/deobfuscators/DeobUtils.cs:134-136 | an XTEA decryption cycle undoes the encryption cycle with the same sum |
| DeobUtils.XteaDecRoundsEncRounds | ConfuserDeobfuscator/de4dot/de4dot.code/deobfuscators/DeobUtils.cs:130-138 | k XTEA decryption cycles undo k encryption cycles |
| DeobUtils.XteaRoundTrip | ConfuserDeobfuscator/de4dot/de4dot.code/deobfuscators/DeobUtils.cs:130-138 | XTEA decryption with the same key and count undoes encryption |
| DeobUtils.ReadVariableLengthInt32 | ConfuserDeobfuscator/de4dot/de4dot.code/deobfuscators/DeobUtils.cs:196-206 | the value and the advanced index equal `VarInt`; a read past the array raises IndexOutOfRange |
| DeobUtils.VarIntShape | ConfuserDeobfuscator/de4dot/de4dot.code/deobfuscators/DeobUtils.cs:196-206 | a decoded value lies in [0, 2^29) and the index advances by 1, 2 or 4 according to the lead byte's top bits |
| DeobUtils.CompressUInt | ConfuserDeobfuscator/de4dot/de4dot.code/deobfuscators/DeobUtils.cs:196-206 | the ECMA-335 II.23.2 encoding the reader inverts takes 1, 2 or 4 bytes |
| DeobUtils.VarIntRoundTrip | ConfuserDeobfuscator/de4dot/de4dot.code/deobfuscators/DeobUtils.cs:196-206 | reading the encoding of any value below 2^29 gives the value back and moves past the whole encoding |
| DeobUtils.VarIntRoundTrip2 | ConfuserDeobfuscator/de4dot/de4dot.code/deobfuscators/DeobUtils.cs:200-201 | two-byte case of the round trip |
| DeobUtils.VarIntRoundTrip4 | ConfuserDeobfuscator/de4dot/de4dot.code/deobfuscators/DeobUtils.cs:202-205 | four-byte case of the round trip |
| DeobUtils.VarInt4 | ConfuserDeobfuscator/de4dot/de4dot.code/deobfuscators/DeobUtils.cs:202-205 | a four-byte encoding reads as its 29-bit big-endian value and advances by 4 |
| DeobUtils.GetExtension | ConfuserDeobfuscator/de4dot/de4dot.code/deobfuscators/DeobUtils.cs:140-151 | Dll gives ".dll", NetModule ".netmodule", Console and Windows ".exe", each if and only if |
| DeobUtils.IndexOfLdci4Instruction | ConfuserDeobfuscator/de4dot/de4dot.code/deobfuscators/DeobUtils.cs:216-228 | the result is -1 for a missing method or body; otherwise it is the index of an ldc.i4 with the value and no earlier instruction is one, or -1 when none is |
| ReactorV4.XorMasked | ConfuserDeobfuscator/de4dot/de4dot.code/deobfuscators/dotNET_Reactor/v4/MethodsDecrypter.cs:108-122 | masking keeps the length; each byte of a complete 8-byte word is XORed with the key's byte at the same place, the trailing `len % 8` bytes are untouched |
| ReactorV4.XorMaskedInvolution | ConfuserDeobfuscator/de4dot/de4dot.code/deobfuscators/dotNET_Reactor/v4/MethodsDecrypter.cs:108-122 | the mask is its own inverse, so the same `xorEncrypt` unmasks on reading and masks on writing |
| ReactorV4.XorMaskedZero | ConfuserDeobfuscator/de4dot/de4dot.code/deobfuscators/dotNET_Reactor/v4/MethodsDecrypter.cs:109-110 | a zero key leaves the data unchanged |
| ReactorV4.XorKeySpec | ConfuserDeobfuscator/de4dot/de4dot.code/deobfuscators/dotNET_Reactor/v4/MethodsDecrypter.cs:269-281 | `getXorKey` gives the constant of the ldc.i4 right after the first `ldind.i8` that has one, or 0 when no such pair exists |
| ReactorV4.SelectLayout | ConfuserDeobfuscator/de4dot/de4dot.code/deobfuscators/dotNET_Reactor/v4/MethodsDecrypter.cs:144-180 | a third int32 whose top byte is 0x06 selects the token+RVA layout; otherwise `!hooksJitter \|\| mode == 1` selects the RVA-write layout; otherwise the jitter-hooked layout; each if and only if |
| ReactorV4.DwordPatches | ConfuserDeobfuscator/de4dot/de4dot.code/deobfuscators/dotNET_Reactor/v4/MethodsDecrypter.cs:261-267 | `patchDwords` reads `count` pairs (none for a count of 0 or less), 8 bytes each, and asks for one 4-byte write at an RVA per pair |
| ReactorV4.NextRvaWrite | ConfuserDeobfuscator/de4dot/de4dot.code/deobfuscators/dotNET_Reactor/v4/MethodsDecrypter.cs:167-176 | one RVA-write record takes at least its 12 header bytes and asks for at most one write |
| ReactorV4.NextRecord | ConfuserDeobfuscator/de4dot/de4dot.code/deobfuscators/dotNET_Reactor/v4/MethodsDecrypter.cs:202-206 | one jitter record ends 12 bytes plus its code after its start, within the data |
| ReactorV4.RvaIndexSpec | ConfuserDeobfuscator/de4dot/de4dot.code/deobfuscators/dotNET_Reactor/v4/MethodsDecrypter.cs:183-196 | a code RVA is in `rvaToIndex` if and only if some row with a nonzero RVA has it, and it maps to the last such row |
| ReactorV4.RvaIndexDistinct | ConfuserDeobfuscator/de4dot/de4dot.code/deobfuscators/dotNET_Reactor/v4/MethodsDecrypter.cs:183-196 | with distinct code RVAs, every row with a nonzero RVA is found under its own code RVA |
| ReactorV4.RewriteNativeCases | ConfuserDeobfuscator/de4dot/de4dot.code/deobfuscators/dotNET_Reactor/v4/MethodsDecrypter.cs:223-241 | the `ldc.i4` stub becomes `[0x20, its bytes 4..7, 0x2A]`, the `ldc.i4.0` stub `[0x16, 0x2A]`, and any other native body the 0xDEADC0DE throw, kept as opaque |
| ReactorV4.StubPatternsDisjoint | ConfuserDeobfuscator/de4dot/de4dot.code/deobfuscators/dotNET_Reactor/v4/MethodsDecrypter.cs:124-125 | the two native stub patterns never both match |
| ReactorV4.JitterStepSpec | ConfuserDeobfuscator/de4dot/de4dot.code/deobfuscators/dotNET_Reactor/v4/MethodsDecrypter.cs:201-255 | an unresolved code RVA adds nothing; a resolved one appends exactly one dumped method with token `0x06000001 + row index`; it counts as native if and only if its index is at least 0x70000000, and only an opaque native body is stored by token |
| ReactorV4.BodyCodeRva | ConfuserDeobfuscator/de4dot/de4dot.code/deobfuscators/dotNET_Reactor/v4/MethodsDecrypter.cs:337-341 | the writer computes a body's code RVA the same way the reader's index computes it from the method table |
| ReactorV4.ValidMethods | ConfuserDeobfuscator/de4dot/de4dot.code/deobfuscators/dotNET_Reactor/v4/MethodsDecrypter.cs:298-307 | the valid methods are at most as many as the stored native bodies |
| ReactorV4.ValidMethodsSpec | ConfuserDeobfuscator/de4dot/de4dot.code/deobfuscators/dotNET_Reactor/v4/MethodsDecrypter.cs:300-305 | a method is valid if and only if it has a stored native body and its declaring type is still in the module |
| ReactorV4.Round16 | ConfuserDeobfuscator/de4dot/de4dot.code/deobfuscators/dotNET_Reactor/v4/MethodsDecrypter.cs:311 | `(len & ~15) + 16` is a multiple of 16, strictly larger than `len` and at most 16 more |
| ReactorV4.NativeRecordsShape | ConfuserDeobfuscator/de4dot/de4dot.code/deobfuscators/dotNET_Reactor/v4/MethodsDecrypter.cs:327-349 | the writer's records carry consecutive indices from 0x70000000, one per method whose body was placed, each with that method's stored native code |
| ReactorV4.RecordBytes | ConfuserDeobfuscator/de4dot/de4dot.code/deobfuscators/dotNET_Reactor/v4/MethodsDecrypter.cs:345-348 | a written record takes 12 bytes plus its code |
| ReactorV4.RecordFields | ConfuserDeobfuscator/de4dot/de4dot.code/deobfuscators/dotNET_Reactor/v4/MethodsDecrypter.cs:202-206 | a written record reads back as the same record and ends after its code |
| ReactorV4.SerializeRoundTrip | ConfuserDeobfuscator/de4dot/de4dot.code/deobfuscators/dotNET_Reactor/v4/MethodsDecrypter.cs:201-206 | written records read back as the same records, wherever they start |
| ReactorV4.WriterRoundTrip | ConfuserDeobfuscator/de4dot/de4dot.code/deobfuscators/dotNET_Reactor/v4/MethodsDecrypter.cs:323-349 | the writer's plaintext `(0, 0, count)` plus records, read with the jitter hooked, selects the jitter layout, patches nothing and replays exactly the written records |
| ReactorV4.NativeRecordsWellFormed | ConfuserDeobfuscator/de4dot/de4dot.code/deobfuscators/dotNET_Reactor/v4/MethodsDecrypter.cs:327-349 | the writer's records fit the reader's int32 fields when the stored bodies are .NET arrays and there are fewer than 0x06000000 methods |
| ReactorV4.RebindFails | ConfuserDeobfuscator/de4dot/de4dot.code/deobfuscators/dotNET_Reactor/v4/MethodsDecrypter.cs:284-288 | `reloaded` throws ApplicationException exactly when some stored token does not resolve to a method |
| ReactorV4.RebindKeeps | ConfuserDeobfuscator/de4dot/de4dot.code/deobfuscators/dotNET_Reactor/v4/MethodsDecrypter.cs:284-290 | a method no stored token resolves to keeps its native body |
| ReactorV4.RebindLookup | ConfuserDeobfuscator/de4dot/de4dot.code/deobfuscators/dotNET_Reactor/v4/MethodsDecrypter.cs:284-290 | the method an entry resolves to holds that entry's body, unless a later entry resolves to the same method |
| ReactorV4.GetXorKey | ConfuserDeobfuscator/de4dot/de4dot.code/deobfuscators/dotNET_Reactor/v4/MethodsDecrypter.cs:269-281 | the loop's result equals `XorKey` |
| ReactorV4.PatchDwords | ConfuserDeobfuscator/de4dot/de4dot.code/deobfuscators/dotNET_Reactor/v4/MethodsDecrypter.cs:261-267 | the writes, final position and error of the loop equal `DwordPatches` |
| ReactorV4.TokenRvaPatches | ConfuserDeobfuscator/de4dot/de4dot.code/deobfuscators/dotNET_Reactor/v4/MethodsDecrypter.cs:153-157 | the token+RVA tail loop equals `TokenRvaTail`: while two bytes remain, a token, a dword count and `count / 2` dword patches |
| ReactorV4.RvaWrites | ConfuserDeobfuscator/de4dot/de4dot.code/deobfuscators/dotNET_Reactor/v4/MethodsDecrypter.cs:166-177 | the RVA-write tail loop equals `RvaWriteTail` |
| ReactorV4.ReadRvaWrite | ConfuserDeobfuscator/de4dot/de4dot.code/deobfuscators/dotNET_Reactor/v4/MethodsDecrypter.cs:167-176 | one record read from the reader equals `NextRvaWrite`, including its end position |
| ReactorV4.ReadRecord | ConfuserDeobfuscator/de4dot/de4dot.code/deobfuscators/dotNET_Reactor/v4/MethodsDecrypter.cs:202-206 | one jitter record read from the reader is the first of `Records` at the old position and the rest follow from the new one |
| ReactorV4.TokenRvaStreamWrites | ConfuserDeobfuscator/de4dot/de4dot.code/deobfuscators/dotNET_Reactor/v4/MethodsDecrypter.cs:146-158 | the token+RVA branch, from offset 8, equals `TokenRvaStream` |
| ReactorV4.RvaWriteStreamWrites | ConfuserDeobfuscator/de4dot/de4dot.code/deobfuscators/dotNET_Reactor/v4/MethodsDecrypter.cs:159-178 | the RVA-write branch, from offset 8, equals `RvaWriteStream` |
| ReactorV4.BuildRvaToIndex | ConfuserDeobfuscator/de4dot/de4dot.code/deobfuscators/dotNET_Reactor/v4/MethodsDecrypter.cs:182-196 | the dictionary built by the loop over the method table equals `RvaIndex` |
| ReactorV4.WriteNativeStream | ConfuserDeobfuscator/de4dot/de4dot.code/deobfuscators/dotNET_Reactor/v4/MethodsDecrypter.cs:321-349 | the bytes the writer emits are the header `(0, 0, count)` and the records of `NativeRecords`, or its failure |
| ReactorV4.WriteNativeRecord | ConfuserDeobfuscator/de4dot/de4dot.code/deobfuscators/dotNET_Reactor/v4/MethodsDecrypter.cs:328-348 | one method of the writer loop appends its serialized record when the writer placed its body, and nothing otherwise |
| ReactorV4.MethodsDecrypter.constructor | ConfuserDeobfuscator/de4dot/de4dot.code/deobfuscators/dotNET_Reactor/v4/MethodsDecrypter.cs:60-63 | a new decrypter has key 0, no native bodies, no valid methods and a zero count |
| ReactorV4.MethodsDecrypter.FromOld | ConfuserDeobfuscator/de4dot/de4dot.code/deobfuscators/dotNET_Reactor/v4/MethodsDecrypter.cs:65-71 | the decrypter for the reloaded module takes over the token table, the native count and the XOR key of the old one |
| ReactorV4.MethodsDecrypter.XorEncrypt | ConfuserDeobfuscator/de4dot/de4dot.code/deobfuscators/dotNET_Reactor/v4/MethodsDecrypter.cs:108-122 | the array afterwards is `XorMasked` of its old contents under the decrypter's key |
| ReactorV4.MethodsDecrypter.AddRecord | ConfuserDeobfuscator/de4dot/de4dot.code/deobfuscators/dotNET_Reactor/v4/MethodsDecrypter.cs:208-254 | one iteration of the jitter loop updates the dumped methods, token table, native-code table and native count as `JitterStep`; no other field changes |
| ReactorV4.MethodsDecrypter.ApplyRecords | ConfuserDeobfuscator/de4dot/de4dot.code/deobfuscators/dotNET_Reactor/v4/MethodsDecrypter.cs:201-255 | the jitter loop equals `JitterFold` over `Records`, or fails as `Records` does |
| ReactorV4.MethodsDecrypter.Decrypt | ConfuserDeobfuscator/de4dot/de4dot.code/deobfuscators/dotNET_Reactor/v4/MethodsDecrypter.cs:137-258 | the key becomes `XorKey` of the decrypter body, the data is unmasked in place, and the outcome (layout, image writes, dumped methods, native tables) equals `DecryptStream`; the token table and count change only in the jitter layout |
| ReactorV4.MethodsDecrypter.RunStream | ConfuserDeobfuscator/de4dot/de4dot.code/deobfuscators/dotNET_Reactor/v4/MethodsDecrypter.cs:140-256 | reading the unmasked stream from its start equals `DecryptStream` |
| ReactorV4.MethodsDecrypter.ApplyJitterStream | ConfuserDeobfuscator/de4dot/de4dot.code/deobfuscators/dotNET_Reactor/v4/MethodsDecrypter.cs:179-256 | the jitter branch from offset 8 equals `JitterStream`, and the token table ends as its native methods |
| ReactorV4.MethodsDecrypter.ApplyJitterTail | ConfuserDeobfuscator/de4dot/de4dot.code/deobfuscators/dotNET_Reactor/v4/MethodsDecrypter.cs:199-255 | the record count and the records equal `JitterTail` |
| ReactorV4.MethodsDecrypter.Reloaded | ConfuserDeobfuscator/de4dot/de4dot.code/deobfuscators/dotNET_Reactor/v4/MethodsDecrypter.cs:283-292 | a second call, with the token table already null, throws NullReferenceException; otherwise on success the method table becomes `Rebind` of the token entries and the token table becomes null, and on failure the ApplicationException is returned |
| ReactorV4.MethodsDecrypter.PrepareEncryptNativeMethods | ConfuserDeobfuscator/de4dot/de4dot.code/deobfuscators/dotNET_Reactor/v4/MethodsDecrypter.cs:294-313 | nothing happens without native methods; otherwise the valid methods are recorded and, when there are any, the resource gets a zeroed buffer of `Round16(12 + sum of (12 + code length))` bytes |
| ReactorV4.MethodsDecrypter.EncryptNativeMethods | ConfuserDeobfuscator/de4dot/de4dot.code/deobfuscators/dotNET_Reactor/v4/MethodsDecrypter.cs:315-364 | nothing happens without valid methods; otherwise the chunk receives the first chunk-length bytes of the encrypted, masked plaintext, and `Array.Copy` fails, leaving the chunk alone, when the encrypted data is shorter |
| ReactorV3.Negate32 | ConfuserDeobfuscator/de4dot/de4dot.code/deobfuscators/dotNET_Reactor/v3/MemoryPatcher.cs:110-111 | unchecked negation keeps a C# `int` within 32 bits (int.MinValue is its own negation) |
| ReactorV3.Negated | ConfuserDeobfuscator/de4dot/de4dot.code/deobfuscators/dotNET_Reactor/v3/MemoryPatcher.cs:110-111 | the offsets negated element-wise keep their count |
| ReactorV3.NegatedInvolution | ConfuserDeobfuscator/de4dot/de4dot.code/deobfuscators/dotNET_Reactor/v3/MemoryPatcher.cs:110-111 | negating twice gives back every C# `int` array, so the stored offsets determine the found ones |
| ReactorV3.Pack | ConfuserDeobfuscator/de4dot/de4dot.code/deobfuscators/dotNET_Reactor/v3/MemoryPatcher.cs:117-120 | BinaryWriter writes 4 bytes per int |
| ReactorV3.Unpack | ConfuserDeobfuscator/de4dot/de4dot.code/deobfuscators/dotNET_Reactor/v3/MemoryPatcher.cs:128-133 | the plaintext unpacks if and only if its length is a multiple of 4, into length / 4 C# ints |
| ReactorV3.PackSlice | ConfuserDeobfuscator/de4dot/de4dot.code/deobfuscators/dotNET_Reactor/v3/MemoryPatcher.cs:119-120 | dword i of the written bytes is the little-endian encoding of int i |
| ReactorV3.UnpackPack | ConfuserDeobfuscator/de4dot/de4dot.code/deobfuscators/dotNET_Reactor/v3/MemoryPatcher.cs:116-133 | reading back what BinaryWriter wrote gives the same ints |
| ReactorV3.UnpackAt | ConfuserDeobfuscator/de4dot/de4dot.code/deobfuscators/dotNET_Reactor/v3/MemoryPatcher.cs:131-132 | int i of the unpacked array is the little-endian int32 at byte 4i |
| ReactorV3.DecryptValuesPacked | ConfuserDeobfuscator/de4dot/de4dot.code/deobfuscators/dotNET_Reactor/v3/MemoryPatcher.cs:116-133 | when the cipher's plaintext is a run of packed ints, `decrypt` yields exactly those ints |
| ReactorV3.Decrypt | ConfuserDeobfuscator/de4dot/de4dot.code/deobfuscators/dotNET_Reactor/v3/MemoryPatcher.cs:116-134 | the writer loop, the cipher and the reader loop give `DecryptValues`: null when the cipher throws or the plaintext length is not a multiple of 4 |
| ReactorV3.PatchInfoOfSpec | ConfuserDeobfuscator/de4dot/de4dot.code/deobfuscators/dotNET_Reactor/v3/MemoryPatcher.cs:88-114 | a patch info is found if and only if there are exactly two `newarr`s, the first of 1 to 35 elements, both initialised, and the second decrypts to as many ints as the first holds; then offsets and values are parallel, the offsets are negated and the values decrypted |
| ReactorV3.ThirdArrayRejected | ConfuserDeobfuscator/de4dot/de4dot.code/deobfuscators/dotNET_Reactor/v3/MemoryPatcher.cs:95-97 | a third array allocation rejects the method, whatever the arrays hold |
| ReactorV3.GetPatchInfo | ConfuserDeobfuscator/de4dot/de4dot.code/deobfuscators/dotNET_Reactor/v3/MemoryPatcher.cs:88-114 | the method equals `PatchInfoOf` (negating in place) and its result always has parallel arrays |
| ReactorV3.InfoWrites | ConfuserDeobfuscator/de4dot/de4dot.code/deobfuscators/dotNET_Reactor/v3/MemoryPatcher.cs:139-140 | one patch info gives one 4-byte write per offset |
| ReactorV3.WriteAt | ConfuserDeobfuscator/de4dot/de4dot.code/deobfuscators/dotNET_Reactor/v3/MemoryPatcher.cs:140 | a write keeps the image length |
| ReactorV3.ApplyWrites | ConfuserDeobfuscator/de4dot/de4dot.code/deobfuscators/dotNET_Reactor/v3/MemoryPatcher.cs:136-143 | patching keeps the image length |
| ReactorV3.LastWriteWins | ConfuserDeobfuscator/de4dot/de4dot.code/deobfuscators/dotNET_Reactor/v3/MemoryPatcher.cs:136-143 | after a complete patch every byte holds what the last write covering it wrote, and a byte no write covers keeps its value |
| ReactorV3.UncoveredUntouched | ConfuserDeobfuscator/de4dot/de4dot.code/deobfuscators/dotNET_Reactor/v3/MemoryPatcher.cs:136-143 | a byte no write covers is unchanged |
| ReactorV3.NoCover | ConfuserDeobfuscator/de4dot/de4dot.code/deobfuscators/dotNET_Reactor/v3/MemoryPatcher.cs:136-143 | with no covering write there is no last covering write |
| ReactorV3.CompletesOnSameLength | ConfuserDeobfuscator/de4dot/de4dot.code/deobfuscators/dotNET_Reactor/v3/MemoryPatcher.cs:136-143 | whether every write fits depends only on the image length |
| ReactorV3.PatchIdempotent | ConfuserDeobfuscator/de4dot/de4dot.code/deobfuscators/dotNET_Reactor/v3/MemoryPatcher.cs:136-143 | patching an already patched image changes nothing more |
| ReactorV3.WriteOffset | ConfuserDeobfuscator/de4dot/de4dot.code/deobfuscators/dotNET_Reactor/v3/MemoryPatcher.cs:140 | `dotNetSafeWriteOffset` on the image bytes is `WriteAt` |
| ReactorV3.MemoryPatcher.constructor | ConfuserDeobfuscator/de4dot/de4dot.code/deobfuscators/dotNET_Reactor/v3/MemoryPatcher.cs:29-30 | a new patcher has no patch infos |
| ReactorV3.MemoryPatcher.FindPatchData | ConfuserDeobfuscator/de4dot/de4dot.code/deobfuscators/dotNET_Reactor/v3/MemoryPatcher.cs:67-86 | the patch infos become the old ones followed by those the candidate methods yield, in method order |
| ReactorV3.MemoryPatcher.AddPatchInfo | ConfuserDeobfuscator/de4dot/de4dot.code/deobfuscators/dotNET_Reactor/v3/MemoryPatcher.cs:80-84 | one candidate's patch info, if any, is appended |
| ReactorV3.MemoryPatcher.Patch | ConfuserDeobfuscator/de4dot/de4dot.code/deobfuscators/dotNET_Reactor/v3/MemoryPatcher.cs:136-143 | the image afterwards is `ApplyWrites` of every patch info's writes in list order, and the call succeeds if and only if every write fits |
| ReactorV3.MemoryPatcher.WriteInfo | ConfuserDeobfuscator/de4dot/de4dot.code/deobfuscators/dotNET_Reactor/v3/MemoryPatcher.cs:139-140 | the writes of one patch info are made in order, stopping at the first that does not fit |
| ReactorV3.Found | ConfuserDeobfuscator/de4dot/de4dot.code/deobfuscators/dotNET_Reactor/v3/MemoryPatcher.cs:72-85 | every found patch info has parallel arrays |
| ReactorV3.FoundAppend | ConfuserDeobfuscator/de4dot/de4dot.code/deobfuscators/dotNET_Reactor/v3/MemoryPatcher.cs:72-85 | the infos of one more candidate follow those already found |
| BabelResources.Xor32 | ConfuserDeobfuscator/de4dot/de4dot.code/deobfuscators/Babel_NET/ResourceResolver.cs:144-150 | the C# `int` XOR of two ints is again a C# `int` |
| BabelResources.Xor32Involution | ConfuserDeobfuscator/de4dot/de4dot.code/deobfuscators/Babel_NET/ResourceResolver.cs:144-150 | XOR with the same key twice gives back any C# `int`, so a count or length masked by the writer is unmasked by the reader |
| BabelResources.Xor32Zero | ConfuserDeobfuscator/de4dot/de4dot.code/deobfuscators/Babel_NET/ResourceResolver.cs:144 | XOR with the default key 0 is the identity |
| BabelResources.SkipStrings | ConfuserDeobfuscator/de4dot/de4dot.code/deobfuscators/Babel_NET/ResourceResolver.cs:145-146 | skipping one or more strings moves strictly forward and stays within the data; a count of 0 or less skips nothing |
| BabelResources.MaskedLength | ConfuserDeobfuscator/de4dot/de4dot.code/deobfuscators/Babel_NET/ResourceResolver.cs:149-152 | the length field is 4 bytes with the keys and absent without them |
| BabelResources.SkipStringsLe | ConfuserDeobfuscator/de4dot/de4dot.code/deobfuscators/Babel_NET/ResourceResolver.cs:145-146 | names written one after another with BinaryWriter are skipped exactly, whatever follows |
| BabelResources.EndsOf | ConfuserDeobfuscator/de4dot/de4dot.code/deobfuscators/Babel_NET/ResourceResolver.cs:145-146 | the positions after each written name; the last is the end of all the names |
| BabelResources.MaskedBack | ConfuserDeobfuscator/de4dot/de4dot.code/deobfuscators/Babel_NET/ResourceResolver.cs:144 | a masked int, read back and unmasked, is the value written |
| BabelResources.MaskedLengthBack | ConfuserDeobfuscator/de4dot/de4dot.code/deobfuscators/Babel_NET/ResourceResolver.cs:148-152 | the masked length field reads back as the length with the keys, and is empty without them |
| BabelResources.FrameRoundTrip | ConfuserDeobfuscator/de4dot/de4dot.code/deobfuscators/Babel_NET/ResourceResolver.cs:140-154 | for a frame laid out as the count XOR key1, the names, the length XOR key2 (only with keys) and the payload, `decryptResourceAssembly` returns exactly the payload |
| BabelResources.FrameOf | ConfuserDeobfuscator/de4dot/de4dot.code/deobfuscators/Babel_NET/ResourceResolver.cs:140-154 | the same, for any header bytes that decode to the count and the length |
| BabelResources.FrameAt | ConfuserDeobfuscator/de4dot/de4dot.code/deobfuscators/Babel_NET/ResourceResolver.cs:144-153 | a frame whose count decodes to the number of names and whose length decodes to the payload's size yields that payload |
| BabelResources.PayloadAt | ConfuserDeobfuscator/de4dot/de4dot.code/deobfuscators/Babel_NET/ResourceResolver.cs:148-153 | the length is the next int XOR key2 with the keys, otherwise the rest of the stream, and `ReadBytes(len)` returns the payload |
| BabelResources.CountUnmaskedByDefault | ConfuserDeobfuscator/de4dot/de4dot.code/deobfuscators/Babel_NET/ResourceResolver.cs:144 | without keys, xorKey1 keeps its default 0, so the count is read as written |
| BabelResources.XorKeyIntsFromTriples | ConfuserDeobfuscator/de4dot/de4dot.code/deobfuscators/Babel_NET/ResourceResolver.cs:104-122 | every key collected is the constant of a `callvirt ReadInt32; ldc.i4; xor` triple |
| BabelResources.XorKeyIntsHasTriple | ConfuserDeobfuscator/de4dot/de4dot.code/deobfuscators/Babel_NET/ResourceResolver.cs:104-122 | every such triple contributes its constant |
| BabelResources.TrailingReadThrows | ConfuserDeobfuscator/de4dot/de4dot.code/deobfuscators/Babel_NET/ResourceResolver.cs:114-118 | a ReadInt32 call as the last instruction makes the scan index past the list and throw |
| BabelResources.KeyFound | ConfuserDeobfuscator/de4dot/de4dot.code/deobfuscators/Babel_NET/ResourceResolver.cs:121 | a triple moves its constant to the end of the keys found so far |
| BabelResources.FirstCandidate | ConfuserDeobfuscator/de4dot/de4dot.code/deobfuscators/Babel_NET/ResourceResolver.cs:64-77 | the first type with no events, the four field types, a register method and an embedded resource, with no candidate before it, or none when no type qualifies |
| BabelResources.SkipString | ConfuserDeobfuscator/de4dot/de4dot.code/deobfuscators/Babel_NET/ResourceResolver.cs:146 | one `ReadString` of the loop advances as `SkipStrings` does for one name, or fails as it does |
| BabelResources.SkipNames | ConfuserDeobfuscator/de4dot/de4dot.code/deobfuscators/Babel_NET/ResourceResolver.cs:145-146 | the `for` loop leaves the reader where `SkipStrings` ends, or fails as it does |
| BabelResources.ReadPayload | ConfuserDeobfuscator/de4dot/de4dot.code/deobfuscators/Babel_NET/ResourceResolver.cs:148-153 | the payload read equals `PayloadFrom` |
| BabelResources.ResourceResolver.constructor | ConfuserDeobfuscator/de4dot/de4dot.code/deobfuscators/Babel_NET/ResourceResolver.cs:29-55 | a new resolver has no type, no register method, no resource, no keys and both keys 0 |
| BabelResources.ResourceResolver.InitXorKeys | ConfuserDeobfuscator/de4dot/de4dot.code/deobfuscators/Babel_NET/ResourceResolver.cs:100-129 | the scan fails only where `XorKeyInts` does; with exactly two constants, hasXorKeys is set and xorKey1 and xorKey2 take them in order; otherwise the key fields are unchanged |
| BabelResources.ResourceResolver.Find | ConfuserDeobfuscator/de4dot/de4dot.code/deobfuscators/Babel_NET/ResourceResolver.cs:57-89 | without a candidate nothing changes; a first candidate without an `Assembly (Stream)` method throws ApplicationException; otherwise its keys are read and it becomes the resolver with its register method and resource |
| BabelResources.ResourceResolver.DecryptResourceAssembly | ConfuserDeobfuscator/de4dot/de4dot.code/deobfuscators/Babel_NET/ResourceResolver.cs:140-154 | the bytes returned equal `FramePayload` of the decrypted data under the resolver's keys |
| BabelResources.ResourceResolver.MergeResources | ConfuserDeobfuscator/de4dot/de4dot.code/deobfuscators/Babel_NET/ResourceResolver.cs:131-138 | without an encrypted resource the result is null; otherwise the resource is returned, its frame's payload is the assembly and the field is cleared, so a second call returns null |
| BinaryStrings.Wrap32 | ConfuserDeobfuscator/de4dot/de4dot.code/deobfuscators/Babel_NET/ResourceResolver.cs:145-146 | BinaryReader's 7-bit length keeps the low 32 bits; an int32 value is unchanged |
| BinaryStrings.SevenBitAt | ConfuserDeobfuscator/de4dot/de4dot.code/deobfuscators/Babel_NET/ResourceResolver.cs:145-146 | a decoded length is a C# `int` and takes at least one byte within the data |
| BinaryStrings.StringAt | ConfuserDeobfuscator/de4dot/de4dot.code/deobfuscators/Babel_NET/ResourceResolver.cs:145-146 | `ReadString` consumes the length prefix and the string's bytes, within the data |
| BinaryStrings.Groups | ConfuserDeobfuscator/de4dot/de4dot.code/deobfuscators/Babel_NET/ResourceResolver.cs:145-146 | BinaryWriter writes at least one 7-bit group for a length |
| BinaryStrings.GroupsAreBytes | ConfuserDeobfuscator/de4dot/de4dot.code/deobfuscators/Babel_NET/ResourceResolver.cs:145-146 | every group fits a byte |
| BinaryStrings.OctetsOfSevenBitLe | ConfuserDeobfuscator/de4dot/de4dot.code/deobfuscators/Babel_NET/ResourceResolver.cs:145-146 | the bytes BinaryWriter writes are the 7-bit groups with continuation bits |
| BinaryStrings.SevenBitRoundTrip | ConfuserDeobfuscator/de4dot/de4dot.code/deobfuscators/Babel_NET/ResourceResolver.cs:145-146 | a length written in 7-bit groups reads back as that length, whatever follows |
| BinaryStrings.SevenBitAtLe | ConfuserDeobfuscator/de4dot/de4dot.code/deobfuscators/Babel_NET/ResourceResolver.cs:145-146 | a length written at a position reads back there, and the reader stops right after it |
| BinaryStrings.StringRoundTrip | ConfuserDeobfuscator/de4dot/de4dot.code/deobfuscators/Babel_NET/ResourceResolver.cs:145-146 | a string written with BinaryWriter reads back with `ReadString`, whatever follows |
| BinaryStrings.StringAfterLength | ConfuserDeobfuscator/de4dot/de4dot.code/deobfuscators/Babel_NET/ResourceResolver.cs:145-146 | a length prefix followed by that many bytes reads back as those bytes |
| BinaryStrings.Read7BitEncodedInt | ConfuserDeobfuscator/de4dot/de4dot.code/deobfuscators/Babel_NET/ResourceResolver.cs:145-146 | the loop's result equals `SevenBitAt`, including the position it leaves and its failure |
| BinaryStrings.ReadString | ConfuserDeobfuscator/de4dot/de4dot.code/deobfuscators/Babel_NET/ResourceResolver.cs:145-146 | the string read equals `StringAt`, including the position it leaves and its failure |
| BinaryStrings.ReadGroup | ConfuserDeobfuscator/de4dot/de4dot.code/deobfuscators/Babel_NET/ResourceResolver.cs:145-146 | one pass of the 7-bit loop reads one byte and keeps the result decided by the bytes that remain |
| BinaryStrings.FifthGroupTooBig | ConfuserDeobfuscator/de4dot/de4dot.code/deobfuscators/Babel_NET/ResourceResolver.cs:145-146 | a fifth continued 7-bit group always takes the length past int32, so BinaryReader's five-byte limit is reached only by malformed data |
| DotfuscatorStrings.BytesOfUnit | ConfuserDeobfuscator/de4dot/de4dot.code/deobfuscators/Dotfuscator/StringDecrypter.cs:100-102 | a code unit built from two bytes gives back those bytes as its high and low byte |
| DotfuscatorStrings.UnitOfBytes | ConfuserDeobfuscator/de4dot/de4dot.code/deobfuscators/Dotfuscator/StringDecrypter.cs:100-102 | every code unit is rebuilt from its high and low byte |
| DotfuscatorStrings.DecryptUnit | ConfuserDeobfuscator/de4dot/de4dot.code/deobfuscators/Dotfuscator/StringDecrypter.cs:100-102 | one decrypted code unit swaps the bytes: its high byte is the low byte XOR the first key byte, its low byte the high byte XOR the second |
| DotfuscatorStrings.DecryptEncryptUnit | ConfuserDeobfuscator/de4dot/de4dot.code/deobfuscators/Dotfuscator/StringDecrypter.cs:99-102 | decrypting one encrypted code unit with the same two key bytes gives the plain unit back |
| DotfuscatorStrings.EncryptDecryptUnit | ConfuserDeobfuscator/de4dot/de4dot.code/deobfuscators/Dotfuscator/StringDecrypter.cs:99-102 | every code unit is the encryption of its decryption, so per-unit decryption is a bijection |
| DotfuscatorStrings.KeyInt | ConfuserDeobfuscator/de4dot/de4dot.code/deobfuscators/Dotfuscator/StringDecrypter.cs:97-101 | the `byte` key stays in 0..255 after any number of post-increments |
| DotfuscatorStrings.KeyIntValue | ConfuserDeobfuscator/de4dot/de4dot.code/deobfuscators/Dotfuscator/StringDecrypter.cs:97-103 | after n post-increments the byte key is the start key plus n, modulo 256 |
| DotfuscatorStrings.Decrypted | ConfuserDeobfuscator/de4dot/de4dot.code/deobfuscators/Dotfuscator/StringDecrypter.cs:94-105 | decryption keeps the string's length |
| DotfuscatorStrings.Encrypted | ConfuserDeobfuscator/de4dot/de4dot.code/deobfuscators/Dotfuscator/StringDecrypter.cs:94-105 | the stored string has the plain string's length |
| DotfuscatorStrings.DecryptEncrypt | ConfuserDeobfuscator/de4dot/de4dot.code/deobfuscators/Dotfuscator/StringDecrypter.cs:94-105 | `decrypt` recovers every string Dotfuscator encrypted under the same first key byte |
| DotfuscatorStrings.EncryptDecrypt | ConfuserDeobfuscator/de4dot/de4dot.code/deobfuscators/Dotfuscator/StringDecrypter.cs:94-105 | every stored string is the encryption of its decryption, so `decrypt` is injective |
| DotfuscatorStrings.FirstKey | ConfuserDeobfuscator/de4dot/de4dot.code/deobfuscators/Dotfuscator/StringDecrypter.cs:97 | `(byte)(magic + value)` is in 0..255 and agrees with the sum modulo 256, whatever the int overflow |
| DotfuscatorStrings.DecryptedAt | ConfuserDeobfuscator/de4dot/de4dot.code/deobfuscators/Dotfuscator/StringDecrypter.cs:98-102 | code unit i is decrypted with key bytes 2i and 2i+1 after the first |
| DotfuscatorStrings.DecryptStep | ConfuserDeobfuscator/de4dot/de4dot.code/deobfuscators/Dotfuscator/StringDecrypter.cs:99-102 | one loop body decrypts the unit with the next two key bytes and leaves the key two further on |
| DotfuscatorStrings.DecryptAt | ConfuserDeobfuscator/de4dot/de4dot.code/deobfuscators/Dotfuscator/StringDecrypter.cs:98-103 | one pass of the loop extends the decrypted prefix of the array by one unit |
| DotfuscatorStrings.DecryptChars | ConfuserDeobfuscator/de4dot/de4dot.code/deobfuscators/Dotfuscator/StringDecrypter.cs:96-103 | the in-place loop leaves the array holding `Decrypted` of its old contents |
| DotfuscatorStrings.CallCount | ConfuserDeobfuscator/de4dot/de4dot.code/deobfuscators/Dotfuscator/StringDecrypter.cs:70-72 | the number of calls to a method is at most the number of instructions |
| DotfuscatorStrings.CallCountsDisjoint | ConfuserDeobfuscator/de4dot/de4dot.code/deobfuscators/Dotfuscator/StringDecrypter.cs:70-73 | the ToCharArray and Intern counts (any two different methods) together never exceed the number of instructions |
| DotfuscatorStrings.PassesFilters | ConfuserDeobfuscator/de4dot/de4dot.code/deobfuscators/Dotfuscator/StringDecrypter.cs:66-73 | a method that passes the filters has the `string(string, int)` signature, no exception handlers, and at least two instructions in its body as first seen |
| DotfuscatorStrings.FirstMagic | ConfuserDeobfuscator/de4dot/de4dot.code/deobfuscators/Dotfuscator/StringDecrypter.cs:77-89 | the constant and index of the first `ldc.i4; ldarg.1; add`, with none before it, or none at all |
| DotfuscatorStrings.ScanOne | ConfuserDeobfuscator/de4dot/de4dot.code/deobfuscators/Dotfuscator/StringDecrypter.cs:66-91 | one method adds at most one entry to the registry |
| DotfuscatorStrings.ScanAppend | ConfuserDeobfuscator/de4dot/de4dot.code/deobfuscators/Dotfuscator/StringDecrypter.cs:60-63 | scanning the types one after another is scanning all their methods in order |
| DotfuscatorStrings.FindMagic | ConfuserDeobfuscator/de4dot/de4dot.code/deobfuscators/Dotfuscator/StringDecrypter.cs:77-90 | the for loop finds a magic exactly when `FirstMagic` does, and the same constant |
| DotfuscatorStrings.ScanSound | ConfuserDeobfuscator/de4dot/de4dot.code/deobfuscators/Dotfuscator/StringDecrypter.cs:65-92 | every entry the scan adds belongs to a `string(string, int)` method with no handlers and one ToCharArray and one Intern call in its body as first seen, and a magic triple in its deobfuscated body; the entry holds that first triple's constant; any other key is unchanged |
| DotfuscatorStrings.ScanComplete | ConfuserDeobfuscator/de4dot/de4dot.code/deobfuscators/Dotfuscator/StringDecrypter.cs:65-92 | every method that passes the rule is registered |
| DotfuscatorStrings.ScanKeepsEntries | ConfuserDeobfuscator/de4dot/de4dot.code/deobfuscators/Dotfuscator/StringDecrypter.cs:87 | the scan never removes an entry: every key registered before is still registered after, and keeps its old value unless a method with that key registers again |
| DotfuscatorStrings.ScanDetects | ConfuserDeobfuscator/de4dot/de4dot.code/deobfuscators/Dotfuscator/StringDecrypter.cs:39-92 | after `find` from an empty registry, Detected holds exactly when some method passes the rule |
| DotfuscatorStrings.HandlersSkipped | ConfuserDeobfuscator/de4dot/de4dot.code/deobfuscators/Dotfuscator/StringDecrypter.cs:67-68 | a method with exception handlers is never registered |
| DotfuscatorStrings.StringDecrypter.constructor | ConfuserDeobfuscator/de4dot/de4dot.code/deobfuscators/Dotfuscator/StringDecrypter.cs:56-58 | a new decrypter has an empty registry |
| DotfuscatorStrings.StringDecrypter.FindStringDecrypterMethods | ConfuserDeobfuscator/de4dot/de4dot.code/deobfuscators/Dotfuscator/StringDecrypter.cs:65-92 | the registry becomes the scan of one type's methods from the old registry: the two call counts are taken on each body as first seen, and the triple is looked for only in the body the simple deobfuscator leaves |
| DotfuscatorStrings.StringDecrypter.Find | ConfuserDeobfuscator/de4dot/de4dot.code/deobfuscators/Dotfuscator/StringDecrypter.cs:60-63 | the registry becomes the scan of every type's methods, in `GetTypes` order |
| DotfuscatorStrings.StringDecrypter.Decrypt | ConfuserDeobfuscator/de4dot/de4dot.code/deobfuscators/Dotfuscator/StringDecrypter.cs:94-105 | an unregistered method throws NullReferenceException; otherwise the result is `Decrypted` under `(byte)(magic + value)` |
| BlobStreams.Size | ConfuserDeobfuscator/dnlib/src/DotNet/MD/BlobStream.cs:82-95 | a size found has a 1-, 2- or 4-byte prefix, is below 0x20000000, and prefix plus data fit in the heap |
| BlobStreams.BlobStream.constructor | ConfuserDeobfuscator/dnlib/src/DotNet/MD/BlobStream.cs:47-95 | a new reader holds the heap's bytes at position 0 |
| BlobStreams.BlobStream.GetSize | ConfuserDeobfuscator/dnlib/src/DotNet/MD/BlobStream.cs:82-95 | -1 and -1 on failure, otherwise the size and the prefix length of `Size`; once the prefix decodes the position is left after it, even when the blob then overruns the heap; it is left at the offset if the prefix fails, and unchanged for an invalid offset |
| BlobStreams.BlobStream.Read | ConfuserDeobfuscator/dnlib/src/DotNet/MD/BlobStream.cs:47-57 | the blob `BlobAt` gives: the empty blob at offset 0, null where GetSize fails, else the size bytes after the prefix, leaving the position after them |
| BlobStreams.BlobStream.ReadNoNull | ConfuserDeobfuscator/dnlib/src/DotNet/MD/BlobStream.cs:65-67 | the blob at the offset, or the empty blob where Read gives null |
| BlobStreams.BlobStream.CreateStream | ConfuserDeobfuscator/dnlib/src/DotNet/MD/BlobStream.cs:74-80 | the window `StreamAt` gives: the blob's bytes after the prefix, or an empty stream where GetSize fails |
| BlobStreams.BlobRoundTrip | ConfuserDeobfuscator/dnlib/src/DotNet/MD/BlobStream.cs:47-80 | a blob written as its compressed length then its bytes, at a non-zero offset, is read back by both Read and CreateStream, whatever follows |
| BlobStreams.ReadAgreesWithCreateStream | ConfuserDeobfuscator/dnlib/src/DotNet/MD/BlobStream.cs:47-80 | Read and CreateStream give the same bytes at every offset but 0, where Read always gives the empty blob; where Read gives null, CreateStream gives an empty stream |
| BlobStreams.ZeroOffsetIsEmpty | ConfuserDeobfuscator/dnlib/src/DotNet/MD/BlobStream.cs:48-51 | at offset 0 Read gives the empty blob even when the heap's first blob is not empty, while CreateStream reads that blob |
| BlobStreams.SizeOverrun | ConfuserDeobfuscator/dnlib/src/DotNet/MD/BlobStream.cs:90-91 | GetSize fails when the prefix claims more bytes than the heap holds after it |
| Metadata.FindAllRows | ConfuserDeobfuscator/dnlib/src/DotNet/MD/MetaData.cs:234-254 | an absent table or an invalid hit gives the empty list; otherwise the list is the maximal run of rows around the hit whose key equals the key |
| Metadata.RunIsLargestBlock | ConfuserDeobfuscator/dnlib/src/DotNet/MD/MetaData.cs:238-253 | when the hit row has the key, the list covers only rows with the key and every block of such rows around the hit lies inside it |
| Metadata.GetSingleRowRid | ConfuserDeobfuscator/dnlib/src/DotNet/MD/MetaData.cs:339-426 | 0 for an absent owner table or invalid owner row id, 0 for an empty range, otherwise the first row id of the run around the hit: the row before it does not have the key |
| Metadata.Rids | ConfuserDeobfuscator/dnlib/src/DotNet/MD/MetaData.cs:442 | the owner list 1..n in order |
| Metadata.Claim | ConfuserDeobfuscator/dnlib/src/DotNet/MD/MetaData.cs:446-451 | claiming keeps the table's length |
| Metadata.Inverse | ConfuserDeobfuscator/dnlib/src/DotNet/MD/MetaData.cs:438-453 | the inverse table has one entry per child row |
| Metadata.ClaimAt | ConfuserDeobfuscator/dnlib/src/DotNet/MD/MetaData.cs:446-451 | an entry already set is kept; a zero entry becomes the owner exactly when the owner lists the row |
| Metadata.InverseAt | ConfuserDeobfuscator/dnlib/src/DotNet/MD/MetaData.cs:438-453 | the filled table holds, for each child row, the first owner in visiting order that lists it, or 0 |
| Metadata.FirstOwnerKept | ConfuserDeobfuscator/dnlib/src/DotNet/MD/MetaData.cs:448-449 | once an earlier owner has claimed a row, later owners do not change it |
| Metadata.FirstOwnerListed | ConfuserDeobfuscator/dnlib/src/DotNet/MD/MetaData.cs:443-451 | a nonzero owner in the table is one of the owners and lists the row |
| Metadata.FirstOwnerNone | ConfuserDeobfuscator/dnlib/src/DotNet/MD/MetaData.cs:443-451 | a row is left at 0 exactly when no nonzero owner lists it |
| Metadata.SmallestOwnerWins | ConfuserDeobfuscator/dnlib/src/DotNet/MD/MetaData.cs:570-583 | with owners visited in ascending order, the recorded owner is the smallest nonzero owner that lists the row |
| Metadata.OwnerAt | ConfuserDeobfuscator/dnlib/src/DotNet/MD/MetaData.cs:432-435 | the uint `rid - 1` makes row id 0 and row ids past the table give 0; otherwise the entry of the row |
| Metadata.ClaimRows | ConfuserDeobfuscator/dnlib/src/DotNet/MD/MetaData.cs:446-451 | the inner loop leaves the array equal to `Claim` of its old contents |
| Metadata.InverseOwnerList.constructor | ConfuserDeobfuscator/dnlib/src/DotNet/MD/MetaData.cs:429-441 | a new owner table is not built yet and remembers its rows, owners and lists |
| Metadata.InverseOwnerList.Initialize | ConfuserDeobfuscator/dnlib/src/DotNet/MD/MetaData.cs:438-453 | a table already built is kept; otherwise a fresh array is built that equals `Inverse` |
| Metadata.InverseOwnerList.GetOwner | ConfuserDeobfuscator/dnlib/src/DotNet/MD/MetaData.cs:429-436 | builds the table on first use, then returns `OwnerAt` of the inverse table |
| Metadata.OwnerIsFirstOwner | ConfuserDeobfuscator/dnlib/src/DotNet/MD/MetaData.cs:429-453 | GetOwnerTypeOfField and its siblings return the first owner that lists the row, and 0 for row 0 and rows past the table |
| Metadata.Insert | ConfuserDeobfuscator/dnlib/src/DotNet/MD/MetaData.cs:560-571 | adding an owner keeps the list strictly increasing and its elements the old ones plus the new |
| Metadata.SortedOwners | ConfuserDeobfuscator/dnlib/src/DotNet/MD/MetaData.cs:558-571 | the owner list is strictly increasing and holds exactly the values of the owner column |
| Metadata.NestedRidsShape | ConfuserDeobfuscator/dnlib/src/DotNet/MD/MetaData.cs:677-691 | each nested row id is recorded once, and exactly the nested ids of rows that are considered are recorded |
| Metadata.CollectNestedRids | ConfuserDeobfuscator/dnlib/src/DotNet/MD/MetaData.cs:677-691 | the first loop gives `NestedRids` |
| Metadata.NestedIn | ConfuserDeobfuscator/dnlib/src/DotNet/MD/MetaData.cs:694-702 | an enclosing type's list holds only recorded nested ids |
| Metadata.GroupByEnclosing | ConfuserDeobfuscator/dnlib/src/DotNet/MD/MetaData.cs:693-702 | every enclosing row id maps to the nested ids whose row names it, in nestedRids order, and is absent when there are none |
| Metadata.NonNestedTypes | ConfuserDeobfuscator/dnlib/src/DotNet/MD/MetaData.cs:704-711 | the non-nested list is increasing and holds exactly the valid TypeDef row ids not recorded as nested |
| Metadata.InitializeNestedClassesDictionary | ConfuserDeobfuscator/dnlib/src/DotNet/MD/MetaData.cs:665-712 | the enclosing-class index and the non-nested types are as the two preceding members state, with validTypeDefRids built only when GetTypeDefRidList misses rows |
| CallRestorer.Restored | ConfuserDeobfuscator/de4dot/de4dot.code/deobfuscators/MethodCallRestorerBase.cs:105-120 | the rewrite keeps the block's instruction count |
| CallRestorer.RestoredSpec | ConfuserDeobfuscator/de4dot/de4dot.code/deobfuscators/MethodCallRestorerBase.cs:107-120 | exactly the `call`s of a MethodDef with an entry are replaced by an instruction with the stored opcode and method; every other instruction stays |
| CallRestorer.RestoredEmpty | ConfuserDeobfuscator/de4dot/de4dot.code/deobfuscators/MethodCallRestorerBase.cs:103-104 | with no recorded proxies, every block is left as it was |
| CallRestorer.AddThenRestore | ConfuserDeobfuscator/de4dot/de4dot.code/deobfuscators/MethodCallRestorerBase.cs:96-119 | after `add`, a call of that proxy becomes the added opcode and method, and every other instruction is rewritten as before |
| CallRestorer.RestoreBlock | ConfuserDeobfuscator/de4dot/de4dot.code/deobfuscators/MethodCallRestorerBase.cs:106-120 | the loop leaves the block equal to `Restored` of its old instructions |
| CallRestorer.MethodCallRestorerBase.constructor | ConfuserDeobfuscator/de4dot/de4dot.code/deobfuscators/MethodCallRestorerBase.cs:41-44 | a new restorer has no entries |
| CallRestorer.MethodCallRestorerBase.Add | ConfuserDeobfuscator/de4dot/de4dot.code/deobfuscators/MethodCallRestorerBase.cs:96-100 | a null proxy changes nothing; otherwise the proxy's entry is set to the opcode and method, replacing an earlier one |
| CallRestorer.MethodCallRestorerBase.AddCallvirt | ConfuserDeobfuscator/de4dot/de4dot.code/deobfuscators/MethodCallRestorerBase.cs:92-94 | the same, with `callvirt` |
| CallRestorer.MethodCallRestorerBase.CreateGetManifestResourceStream1 | ConfuserDeobfuscator/de4dot/de4dot.code/deobfuscators/MethodCallRestorerBase.cs:46-53 | records the proxy as `callvirt Assembly::GetManifestResourceStream(String)`; a null proxy changes nothing |
| CallRestorer.MethodCallRestorerBase.CreateGetManifestResourceStream2 | ConfuserDeobfuscator/de4dot/de4dot.code/deobfuscators/MethodCallRestorerBase.cs:55-63 | records the proxy as `callvirt Assembly::GetManifestResourceStream(Type, String)`; a null proxy changes nothing |
| CallRestorer.MethodCallRestorerBase.CreateGetManifestResourceNames | ConfuserDeobfuscator/de4dot/de4dot.code/deobfuscators/MethodCallRestorerBase.cs:65-72 | records the proxy as `callvirt Assembly::GetManifestResourceNames()`; a null proxy changes nothing |
| CallRestorer.MethodCallRestorerBase.CreateBitmapCtor | ConfuserDeobfuscator/de4dot/de4dot.code/deobfuscators/MethodCallRestorerBase.cs:74-81 | records the proxy as `newobj Bitmap::.ctor(Type, String)`; a null proxy changes nothing |
| CallRestorer.MethodCallRestorerBase.CreateIconCtor | ConfuserDeobfuscator/de4dot/de4dot.code/deobfuscators/MethodCallRestorerBase.cs:83-90 | records the proxy as `newobj Icon::.ctor(Type, String)`; a null proxy changes nothing |
| CallRestorer.MethodCallRestorerBase.Deobfuscate | ConfuserDeobfuscator/de4dot/de4dot.code/deobfuscators/MethodCallRestorerBase.cs:102-122 | every block of the method ends up equal to `Restored` of its old instructions under the recorded entries |
| ChunkLists.Appended | ConfuserDeobfuscator/dnlib/src/DotNet/Writer/ChunkList.cs:44-49 | a run of adds appends at most one element per call |
| ChunkLists.AfterAddsAppends | ConfuserDeobfuscator/dnlib/src/DotNet/Writer/ChunkList.cs:44-49 | a run of adds keeps the old chunks and appends exactly the non-null chunks, in call order, with their alignments |
| ChunkLists.NullAddsKeep | ConfuserDeobfuscator/dnlib/src/DotNet/Writer/ChunkList.cs:47 | adding only null chunks leaves the list unchanged |
| ChunkLists.ChunkList.constructor | ConfuserDeobfuscator/dnlib/src/DotNet/Writer/ChunkList.cs:35-37 | a new list is empty and its offsets are not set |
| ChunkLists.ChunkList.Add | ConfuserDeobfuscator/dnlib/src/DotNet/Writer/ChunkList.cs:44-49 | once the offsets are set, Add throws InvalidOperationException and changes nothing; a null chunk is ignored; otherwise the chunk and its alignment go at the end and the rest stays |
| ParamDefs.ParamFlagsAreSingleBits | ConfuserDeobfuscator/dnlib/src/DotNet/ParamDef.cs:136-196 | In, Out, Optional, HasDefault and HasFieldMarshal are each a single bit |
| ParamDefs.TableNumber | ConfuserDeobfuscator/dnlib/src/DotNet/ParamDef.cs:41-43 | a table number fits the token's top byte |
| ParamDefs.Raw | ConfuserDeobfuscator/dnlib/src/DotNet/ParamDef.cs:41-43 | a token whose rid fits 24 bits is a 32-bit value |
| ParamDefs.WithFlagSpec | ConfuserDeobfuscator/dnlib/src/DotNet/ParamDef.cs:136-196 | after a setter the flag reads back as the value set, and every other attribute bit is unchanged |
| ParamDefs.WithFlagKeepsOthers | ConfuserDeobfuscator/dnlib/src/DotNet/ParamDef.cs:136-196 | a setter leaves every other single-bit flag reading as before |
| ParamDefs.WithFlagIdempotent | ConfuserDeobfuscator/dnlib/src/DotNet/ParamDef.cs:136-196 | setting a flag to the value it reads changes nothing |
| ParamDefs.Decimal | ConfuserDeobfuscator/dnlib/src/DotNet/ParamDef.cs:128 | the decimal text of a number is non-empty and made of digits |
| ParamDefs.DecimalRoundTrip | ConfuserDeobfuscator/dnlib/src/DotNet/ParamDef.cs:128 | the decimal text reads back as the number |
| ParamDefs.FullName | ConfuserDeobfuscator/dnlib/src/DotNet/ParamDef.cs:124-131 | a non-empty name is the full name; a null or empty name gives `A_` followed by the sequence number in decimal |
| ParamDefs.UnnamedDistinct | ConfuserDeobfuscator/dnlib/src/DotNet/ParamDef.cs:124-131 | unnamed parameters with different sequence numbers get different full names |
| ParamDefs.ElementTypeOf | ConfuserDeobfuscator/dnlib/src/DotNet/ParamDef.cs:105-114 | End when there is no constant, otherwise the constant's element type |
| ParamDefs.HasConstant | ConfuserDeobfuscator/dnlib/src/DotNet/ParamDef.cs:105-107 | for a constant of a real element type (never End), the parameter has a constant exactly when its element type is not End |
| ParamDefs.ParamDefUser.constructor | ConfuserDeobfuscator/dnlib/src/DotNet/ParamDef.cs:255-256 | no name, no constant, sequence 0, flags 0, rid 0 |
| ParamDefs.ParamDefUser.Named | ConfuserDeobfuscator/dnlib/src/DotNet/ParamDef.cs:262-264 | the given name, sequence 0, flags 0 |
| ParamDefs.ParamDefUser.WithSequence | ConfuserDeobfuscator/dnlib/src/DotNet/ParamDef.cs:271-273 | the given name and sequence, flags 0 |
| ParamDefs.ParamDefUser.WithFlags | ConfuserDeobfuscator/dnlib/src/DotNet/ParamDef.cs:281-285 | the given name, sequence and flags |
| ParamDefs.ParamDefUser.Token | ConfuserDeobfuscator/dnlib/src/DotNet/ParamDef.cs:41-43 | the token names the Param table (number 8 in the top byte) and this row's rid in the low 24 bits |
| ParamDefs.ParamDefUser.IsIn | ConfuserDeobfuscator/dnlib/src/DotNet/ParamDef.cs:137 | true exactly when bit 0 of the attributes is set |
| ParamDefs.ParamDefUser.IsOut | ConfuserDeobfuscator/dnlib/src/DotNet/ParamDef.cs:150 | true exactly when bit 1 of the attributes is set |
| ParamDefs.ParamDefUser.IsOptional | ConfuserDeobfuscator/dnlib/src/DotNet/ParamDef.cs:163 | true exactly when bit 4 of the attributes is set |
| ParamDefs.ParamDefUser.HasDefault | ConfuserDeobfuscator/dnlib/src/DotNet/ParamDef.cs:176 | true exactly when bit 12 of the attributes is set |
| ParamDefs.ParamDefUser.HasFieldMarshal | ConfuserDeobfuscator/dnlib/src/DotNet/ParamDef.cs:189 | true exactly when bit 13 of the attributes is set |
| ParamDefs.ParamDefUser.SetFlag | ConfuserDeobfuscator/dnlib/src/DotNet/ParamDef.cs:136-196 | `value` ORs the flag in, false ANDs it out; no other field changes |
| ParamDefs.ParamDefUser.SetIsIn | ConfuserDeobfuscator/dnlib/src/DotNet/ParamDef.cs:136-144 | IsIn reads back as the value set; the other four flags, name, sequence, constant and rid are unchanged |
| ParamDefs.ParamDefUser.SetIsOut | ConfuserDeobfuscator/dnlib/src/DotNet/ParamDef.cs:149-157 | IsOut reads back as the value set; the other four flags and fields are unchanged |
| ParamDefs.ParamDefUser.SetIsOptional | ConfuserDeobfuscator/dnlib/src/DotNet/ParamDef.cs:162-170 | IsOptional reads back as the value set; the other four flags and fields are unchanged |
| ParamDefs.ParamDefUser.SetHasDefault | ConfuserDeobfuscator/dnlib/src/DotNet/ParamDef.cs:175-183 | HasDefault reads back as the value set; the other four flags and fields are unchanged |
| ParamDefs.ParamDefUser.SetHasFieldMarshal | ConfuserDeobfuscator/dnlib/src/DotNet/ParamDef.cs:188-196 | HasFieldMarshal reads back as the value set; the other four flags and fields are unchanged |
| SmartAssembly.VersionLeTotalOrder | ConfuserDeobfuscator/de4dot/de4dot.code/deobfuscators/SmartAssembly/Deobfuscator.cs:450 | System.Version's component-wise comparison is reflexive, total, antisymmetric and transitive |
| SmartAssembly.DetectScore | ConfuserDeobfuscator/de4dot/de4dot.code/deobfuscators/SmartAssembly/Deobfuscator.cs:127-136 | the score is at least 100 exactly when the memory manager was found, and ends in 10 exactly when the PoweredBy attribute was found |
| SmartAssembly.CheckTypeIdAttribute | ConfuserDeobfuscator/de4dot/de4dot.code/deobfuscators/SmartAssembly/Deobfuscator.cs:217-228 | 1 exactly for a type-id attribute with one field, 2 exactly for one with two, -1 otherwise |
| SmartAssembly.Guess | ConfuserDeobfuscator/de4dot/de4dot.code/deobfuscators/SmartAssembly/Deobfuscator.cs:177-215 | a version is guessed exactly for the two PoweredBy strings; the name is "SmartAssembly " followed by the version's major digit; "{smartassembly}" gives a major version 1 to 4 |
| SmartAssembly.FirstTestDecides | ConfuserDeobfuscator/de4dot/de4dot.code/deobfuscators/SmartAssembly/Deobfuscator.cs:187-213 | for "{smartassembly}" the proxy-fixer or empty-classes test gives 4.x whatever follows, a type-id version 1 or 2 decides regardless of the module .cctor, and otherwise the .cctor decides between 3.x and 1.x-4.x |
| SmartAssembly.PoweredBy5Decides | ConfuserDeobfuscator/de4dot/de4dot.code/deobfuscators/SmartAssembly/Deobfuscator.cs:178-182 | "Powered by SmartAssembly" always gives 5.0/5.1 with version 5.0.0.0 |
| SmartAssembly.EmptyCountPositive | ConfuserDeobfuscator/de4dot/de4dot.code/deobfuscators/SmartAssembly/Deobfuscator.cs:276-280 | a namespace's count is positive exactly when one of its non-module types is an empty class |
| SmartAssembly.TallyStep | ConfuserDeobfuscator/de4dot/de4dot.code/deobfuscators/SmartAssembly/Deobfuscator.cs:272-281 | one more type marks its namespace as seen unless it is the module type |
| SmartAssembly.TalliedValues | ConfuserDeobfuscator/de4dot/de4dot.code/deobfuscators/SmartAssembly/Deobfuscator.cs:283-287 | all counts of the finished dictionary are positive exactly when every namespace holds an empty class |
| SmartAssembly.PositiveValuesEveryNamespace | ConfuserDeobfuscator/de4dot/de4dot.code/deobfuscators/SmartAssembly/Deobfuscator.cs:283-287 | positive counts everywhere mean every namespace holds an empty class |
| SmartAssembly.EveryNamespacePositiveValues | ConfuserDeobfuscator/de4dot/de4dot.code/deobfuscators/SmartAssembly/Deobfuscator.cs:283-287 | every namespace holding an empty class means every count is positive |
| SmartAssembly.EntryPositive | ConfuserDeobfuscator/de4dot/de4dot.code/deobfuscators/SmartAssembly/Deobfuscator.cs:276-280 | where every namespace holds an empty class, every dictionary entry is positive |
| SmartAssembly.CountType | ConfuserDeobfuscator/de4dot/de4dot.code/deobfuscators/SmartAssembly/Deobfuscator.cs:273-280 | one pass of the counting loop keeps the dictionary equal to the namespaces seen so far, each with its empty-class count |
| SmartAssembly.HasEmptyClassesInEveryNamespace | ConfuserDeobfuscator/de4dot/de4dot.code/deobfuscators/SmartAssembly/Deobfuscator.cs:269-288 | true exactly when every namespace of the module's non-module types holds an unnamed, non-public type with no fields, methods, properties or events |
| SmartAssembly.AllStatic | ConfuserDeobfuscator/de4dot/de4dot.code/deobfuscators/SmartAssembly/Deobfuscator.cs:470-473 | true exactly when every method is static |
| SmartAssembly.IsBigType | ConfuserDeobfuscator/de4dot/de4dot.code/deobfuscators/SmartAssembly/Deobfuscator.cs:463-475 | true exactly for 50 or more methods, all static, no properties or events, and at most three fields |
| SmartAssembly.BiggestUnique | ConfuserDeobfuscator/de4dot/de4dot.code/deobfuscators/SmartAssembly/Deobfuscator.cs:453-459 | the type findBigType picks is unique |
| SmartAssembly.FindBigType | ConfuserDeobfuscator/de4dot/de4dot.code/deobfuscators/SmartAssembly/Deobfuscator.cs:449-461 | nothing for versions up to 6.5.3.53; otherwise the first big type with the most methods, or nothing only when no type is big |
| SmartAssembly.SmartAssemblyDeobfuscator.constructor | ConfuserDeobfuscator/de4dot/de4dot.code/deobfuscators/SmartAssembly/Deobfuscator.cs:117-121 | no version found, version 0.0.0.0, the default name, and the scan results it is given |
| SmartAssembly.SmartAssemblyDeobfuscator.DetectInternal | ConfuserDeobfuscator/de4dot/de4dot.code/deobfuscators/SmartAssembly/Deobfuscator.cs:127-136 | the detection score of the memory manager and attribute found |
| SmartAssembly.SmartAssemblyDeobfuscator.SetObfuscatorName | ConfuserDeobfuscator/de4dot/de4dot.code/deobfuscators/SmartAssembly/Deobfuscator.cs:110-115 | setting the name marks the version as found and leaves the version number alone |
| SmartAssembly.SmartAssemblyDeobfuscator.GuessVersion | ConfuserDeobfuscator/de4dot/de4dot.code/deobfuscators/SmartAssembly/Deobfuscator.cs:177-215 | an unrecognised PoweredBy string changes nothing; otherwise the name and version become `Guess`'s and the version is marked found |
| SmartAssembly.SmartAssemblyDeobfuscator.FinishScan | ConfuserDeobfuscator/de4dot/de4dot.code/deobfuscators/SmartAssembly/Deobfuscator.cs:145-146 | a version already found is kept; otherwise the version is guessed |
| SmartAssembly.SmartAssemblyDeobfuscator.FindBigTypeOfModule | ConfuserDeobfuscator/de4dot/de4dot.code/deobfuscators/SmartAssembly/Deobfuscator.cs:449-461 | findBigType on the module's types with the deobfuscator's version |
| MaxtoCode.DetectScore | ConfuserDeobfuscator/de4dot/de4dot.code/deobfuscators/MaxtoCode/Deobfuscator.cs:89-96 | 150 exactly when the main type was found, 0 exactly when it was not |
| MaxtoCode.KeyEquals | ConfuserDeobfuscator/de4dot/de4dot.code/deobfuscators/MaxtoCode/Deobfuscator.cs:186-192 | false against null; otherwise true exactly when both resources' data have the same file offset and length |
| MaxtoCode.KeyEqualsEquivalence | ConfuserDeobfuscator/de4dot/de4dot.code/deobfuscators/MaxtoCode/Deobfuscator.cs:186-192 | key equality is reflexive, symmetric and transitive, so the dictionary groups resources consistently |
| MaxtoCode.Members | ConfuserDeobfuscator/de4dot/de4dot.code/deobfuscators/MaxtoCode/Deobfuscator.cs:200-212 | a group lists only indexes below the resources visited, at most one per resource |
| MaxtoCode.MembersSpec | ConfuserDeobfuscator/de4dot/de4dot.code/deobfuscators/MaxtoCode/Deobfuscator.cs:200-212 | a group holds exactly the embedded resources with an Offset and that key, in module order |
| MaxtoCode.KeepOf | ConfuserDeobfuscator/de4dot/de4dot.code/deobfuscators/MaxtoCode/Deobfuscator.cs:218-225 | the kept resource is a member of the group with a non-empty name; there is none exactly when every member is unnamed |
| MaxtoCode.DroppedHasKeeper | ConfuserDeobfuscator/de4dot/de4dot.code/deobfuscators/MaxtoCode/Deobfuscator.cs:214-233 | a removed duplicate has the same data key as a different, named resource that is kept |
| MaxtoCode.LoneOrUnnamedKept | ConfuserDeobfuscator/de4dot/de4dot.code/deobfuscators/MaxtoCode/Deobfuscator.cs:215-227 | a resource alone with its key, or in a group without a named member, is not removed |
| MaxtoCode.GroupResource | ConfuserDeobfuscator/de4dot/de4dot.code/deobfuscators/MaxtoCode/Deobfuscator.cs:201-212 | one pass of the grouping loop keeps every key's entry equal to its group among the resources seen, skipping non-embedded resources and those without an Offset |
| MaxtoCode.Others | ConfuserDeobfuscator/de4dot/de4dot.code/deobfuscators/MaxtoCode/Deobfuscator.cs:229-233 | the members marked are exactly the group's members other than the kept one |
| MaxtoCode.FindResourceToKeep | ConfuserDeobfuscator/de4dot/de4dot.code/deobfuscators/MaxtoCode/Deobfuscator.cs:218-225 | the loop finds `KeepOf` the group |
| MaxtoCode.MarkOthers | ConfuserDeobfuscator/de4dot/de4dot.code/deobfuscators/MaxtoCode/Deobfuscator.cs:229-233 | the loop appends every other member of the group to the list to remove, in group order |
| MaxtoCode.RemoveDuplicateEmbeddedResources | ConfuserDeobfuscator/de4dot/de4dot.code/deobfuscators/MaxtoCode/Deobfuscator.cs:199-235 | exactly the duplicates the rule drops are marked: grouped resources whose group has two or more members and a named first keeper other than themselves |
| MaxtoCode.GroupedKeyPresent | ConfuserDeobfuscator/de4dot/de4dot.code/deobfuscators/MaxtoCode/Deobfuscator.cs:209-210 | every grouped resource's key has an entry in the dictionary |
| MaxtoCode.MarkStep | ConfuserDeobfuscator/de4dot/de4dot.code/deobfuscators/MaxtoCode/Deobfuscator.cs:214-234 | handling one more dictionary entry marks exactly the dropped resources of that entry's key |
| MaxtoCode.KeyBeforeStep | ConfuserDeobfuscator/de4dot/de4dot.code/deobfuscators/MaxtoCode/Deobfuscator.cs:214 | reaching one more dictionary entry adds exactly that entry's key |
| MaxtoCode.MarkedInGroup | ConfuserDeobfuscator/de4dot/de4dot.code/deobfuscators/MaxtoCode/Deobfuscator.cs:215-233 | within a group, a member is marked exactly when the duplicate rule drops it |
| MaxtoCode.RemoveInvalidResources | ConfuserDeobfuscator/de4dot/de4dot.code/deobfuscators/MaxtoCode/Deobfuscator.cs:237-245 | exactly the embedded resources with a null Offset or with file offset 0 and length 0 are marked, in module order |
| MaxtoCode.NullOffsetOnlyInvalid | ConfuserDeobfuscator/de4dot/de4dot.code/deobfuscators/MaxtoCode/Deobfuscator.cs:199-245 | an embedded resource with a null Offset is invalid but never removed as a duplicate |
| MaxtoCode.MainType.constructor | ConfuserDeobfuscator/de4dot/de4dot.code/deobfuscators/MaxtoCode/Deobfuscator.cs:121 | the main type belongs to the module and records whether it was detected |
| MaxtoCode.DecrypterInfo.constructor | ConfuserDeobfuscator/de4dot/de4dot.code/deobfuscators/MaxtoCode/Deobfuscator.cs:108 | the decrypter info holds the main type and the module's file data |
| MaxtoCode.MaxtoCodeDeobfuscator.constructor | ConfuserDeobfuscator/de4dot/de4dot.code/deobfuscators/MaxtoCode/Deobfuscator.cs:117-121 | a deobfuscator for a module, with its main type and no decrypter info |
| MaxtoCode.MaxtoCodeDeobfuscator.DetectInternal | ConfuserDeobfuscator/de4dot/de4dot.code/deobfuscators/MaxtoCode/Deobfuscator.cs:89-96 | the detection score of its main type |
| MaxtoCode.MaxtoCodeDeobfuscator.GetDecryptedModule | ConfuserDeobfuscator/de4dot/de4dot.code/deobfuscators/MaxtoCode/Deobfuscator.cs:103-116 | true exactly on pass 0 of a detected module whose methods decrypt; decrypterInfo is kept when the guard refuses and replaced by one for the file data otherwise; newFileData becomes the file data only on success |
| MaxtoCode.MaxtoCodeDeobfuscator.ModuleReloaded | ConfuserDeobfuscator/de4dot/de4dot.code/deobfuscators/MaxtoCode/Deobfuscator.cs:118-127 | the new deobfuscator belongs to the reloaded module, copies the main type's detection, takes over the decrypter info (re-pointed at its new main type), and this one's decrypter info becomes null |

## Left out

- The AES, TripleDES, DES, MD5, SHA1, SHA256, inflate and gunzip wrappers in DeobUtils.cs are thin calls into .NET and SharpZipLib. Where the core uses one, it becomes a parameter: v3's `aesDecrypt` is the `Cipher` function, and Babel's resource decrypter is the `decrypter` function of `MergeResources`.
- The signature scans over dnlib's instruction and type graphs are not modelled. Their results are inputs instead:
  - v4 `find` and `findDnrCompileMethod`: the decrypter body's instructions and the `hooksJitter` flag;
  - v3 `find`: the candidate methods, with ArrayFinder's results given as `NewArr` records;
  - Babel `find`: a `TypeInfo` per type, covering the field types and BabelUtils' register method;
  - Dotfuscator `DotNetUtils.findMethods`: a signature flag per method;
  - SmartAssembly `findSmartAssemblyAttributes`, `getTypeIdAttribute`, the memory manager and the proxy call fixer: constructor inputs;
  - MaxtoCode `MainType.find` and `deobfuscateBegin`: the `detected` flag.
- Dotfuscator's `simpleDeobfuscator.deobfuscate` is not modelled. Each method carries two instruction lists: its body as the scan first sees it, where the ToCharArray and Intern calls are counted, and the body the pass leaves, where the triple is looked for. That the pass rewrites the method in place, and runs only on methods that pass the filters, is not captured.
- The `StringDecrypters` and `StringDecrypterInfos` enumerations are not modelled. They only list the registry's values.
- PE image services are not modelled, because their code is not part of this model:
  - v4 `dotNetSafeWrite`/`dotNetSafeWriteOffset` become a log of `ImageWrite`s;
  - v3 `dotNetSafeWriteOffset` becomes a bounds-checked 4-byte write into the image array that reports failure;
  - `rvaToOffset`, `readMethodTableRowTo` and `updateMethodHeaderInfo` are left out. A `DumpedMethod` therefore holds only the token and the code;
  - the module writer's `GetMethodBody` and `GetChunk` become the `bodies` function and the `resourceChunk` array.
- DeobUtils.XxteaDecrypt: requires a key of at least four words, so the IndexOutOfRangeException a shorter key raises part-way through, after some words are written, is not modelled. It also requires the block and the key to be different arrays; with one array passed as both, the writes to the block would change the key, and that case is not modelled.
- DeobUtils.XxteaRoundTrip: decryption is proved to invert encryption for blocks of two or more words only. With one word each step's neighbours are the word itself, so a step need not undo the encryption step.
- v4's `encryptedResource` is reduced to its bytes. `Decrypt` takes the already decrypted method stream, the writer's re-encryption is the `encrypt` parameter, and the reloaded module's token resolution is the `resolve` parameter of `Reloaded`.
- `DeobUtils.readModule` is MaxtoCode's `fileData` parameter. `MethodsDecrypter.decrypt` is its `decrypts` flag.
- The .NET `BinaryReader` and dnlib's `MemoryImageStream` are not part of the source. `ByteReader.Reader` follows their documented behaviour: a short read fails, and `ReadBytes(n)` fails for negative n and returns fewer bytes at the end of the data.
- BlobStreams does not model `IsValidOffset` or `ReadCompressedUInt32` from the tables stream. The compressed integer follows section II.23.2 of ECMA-335, and `IsValidOffset` is offset 0 or an offset inside the heap.
- BlobStreams: the `Position + length < length` wrap check in `GetSize` can never fire with unbounded integers, and a 29-bit length on a heap below 4 GiB cannot wrap.
- BlobStreams.BlobStream.GetSize: the stream position after a prefix that fails to decode is stated as the offset. The bytes the failed read consumed are not modelled. A prefix that decodes leaves the position after it, as in the source.
- Metadata has no `MetaData` class aggregating the tables:
  - `BinarySearch` is abstract; its result is the `hit` parameter;
  - `ReadColumn` always succeeds on a valid row;
  - coded-token encoding (`CodedToken.*.Encode`/`Decode`) is not modelled; the key is given directly;
  - `Get*RidList` becomes the `listOf` function, and every row it lists is required to lie in the child table;
  - `GetNestedClassRid` becomes the `lookup` function.
- Metadata: `Dispose` and the finalizer are left out, since they are lifetime handling only.
- CallRestorer:
  - `MethodDefAndDeclaringTypeDict` becomes a dictionary keyed by method reference;
  - `MemberRefBuilder` references are represented by their full names;
  - the blocks of a method are distinct arrays.
- ChunkLists: `SetOffset` and `ChunkListBase` are not part of this model. `setOffsetCalled` is a plain field.
- ParamDefs:
  - `MDToken.cs` is not part of this model; the token is a table and a row id, and its raw value is computed here;
  - the flag values follow section II.23.1.13 of ECMA-335;
  - `DeclaringMethod`, `FieldMarshal`, `CustomAttributes`, `HasMarshalInfo`, `ParamDefMD` and the value of a `Constant` are left out; only the constant's element type is kept.
- SmartAssembly:
  - `initializeVersion` and its regular expression are not modelled; the PoweredBy string is an input;
  - the module type is an index into the module's types.
- MaxtoCode:
  - `ResourceKey.GetHashCode` is not modelled; grouping follows `Equals` alone;
  - `addResourceToBeRemoved` becomes a list of resource indexes;
  - the copy of `MainType` for a reloaded module keeps only the `detected` flag.
- MaxtoCode.RemoveDuplicateEmbeddedResources: states the set of resources marked, not the order in which the dictionary enumerates the groups.
- Logger calls are left out everywhere.
