/** Dotfuscator's string decrypter as de4dot recognises and undoes it: a `string (string, int)`
    method with no exception handlers, one ToCharArray call and one String.Intern call, whose
    key is `magic + value` for a constant `magic` loaded just before `ldarg.1 ; add`. Each UTF-16
    code unit is XORed, low byte then high byte, with two consecutive key bytes, and the two bytes
    swap places. */
module DotfuscatorStrings {
  import opened Wrappers
  import opened Cil
  import opened Dictionary

  /** A C# `char`: one UTF-16 code unit. */
  type Utf16 = bv16

  const TO_CHAR_ARRAY: string := "System.Char[] System.String::ToCharArray()"
  const STRING_INTERN: string := "System.String System.String::Intern(System.String)"

  // ---------------------------------------------------------------------------------------------
  // The cipher

  /** `(byte)c`, the low byte of a code unit. */
  function LowByte(c: Utf16): bv8
  {
    (c & 0xFF) as bv8
  }

  /** `(byte)(c >> 8)`, the high byte of a code unit. */
  function HighByte(c: Utf16): bv8
  {
    (c >> 8) as bv8
  }

  /** The code unit whose high byte is `hi` and whose low byte is `lo`. */
  function Unit(hi: bv8, lo: bv8): Utf16
  {
    ((hi as bv16) << 8) | (lo as bv16)
  }

  lemma BytesOfUnit(hi: bv8, lo: bv8)
    ensures HighByte(Unit(hi, lo)) == hi && LowByte(Unit(hi, lo)) == lo
  {
  }

  lemma UnitOfBytes(c: Utf16)
    ensures Unit(HighByte(c), LowByte(c)) == c
  {
  }

  /** One code unit of `decrypt` with key bytes `a` then `b`: the low byte XOR `a` becomes the
      high byte, the high byte XOR `b` the low byte. */
  function DecryptUnit(c: Utf16, a: bv8, b: bv8): (r: Utf16)
    ensures HighByte(r) == LowByte(c) ^ a && LowByte(r) == HighByte(c) ^ b
  {
    BytesOfUnit(LowByte(c) ^ a, HighByte(c) ^ b);
    Unit(LowByte(c) ^ a, HighByte(c) ^ b)
  }

  /** What Dotfuscator stores for a plain code unit `d` under key bytes `a` then `b`. */
  function EncryptUnit(d: Utf16, a: bv8, b: bv8): Utf16
  {
    Unit(LowByte(d) ^ b, HighByte(d) ^ a)
  }

  lemma DecryptEncryptUnit(d: Utf16, a: bv8, b: bv8)
    ensures DecryptUnit(EncryptUnit(d, a, b), a, b) == d
  {
    BytesOfUnit(LowByte(d) ^ b, HighByte(d) ^ a);
    UnitOfBytes(d);
  }

  lemma EncryptDecryptUnit(c: Utf16, a: bv8, b: bv8)
    ensures EncryptUnit(DecryptUnit(c, a, b), a, b) == c
  {
    BytesOfUnit(LowByte(c) ^ a, HighByte(c) ^ b);
    UnitOfBytes(c);
  }

  /** The byte key, as a number 0..255, after `n` post-increments of a key that started at `k0`. */
  function KeyInt(k0: int, n: nat): (r: int)
    ensures 0 <= r < 256
  {
    if n == 0 then k0 % 256 else (KeyInt(k0, n - 1) + 1) % 256
  }

  function KeyByte(k0: int, n: nat): bv8
  {
    KeyInt(k0, n) as bv8
  }

  /** The byte key after `n` post-increments is `k0 + n` modulo 256. */
  lemma {:induction false} KeyIntValue(k0: int, n: nat)
    ensures KeyInt(k0, n) == (k0 + n) % 256
  {
    if n != 0 {
      KeyIntValue(k0, n - 1);
      ModAdd(k0 + n - 1, 1);
    }
  }

  lemma ModAdd(x: int, n: nat)
    ensures (x % 256 + n) % 256 == (x + n) % 256
  {
  }

  /** `decrypt` on a whole string whose first key byte is `k0`: code unit `i` uses the key bytes
      after `2i` and `2i + 1` post-increments. */
  function Decrypted(s: seq<Utf16>, k0: int): (r: seq<Utf16>)
    ensures |r| == |s|
  {
    seq(|s|, i requires 0 <= i < |s| => DecryptUnit(s[i], KeyByte(k0, 2 * i), KeyByte(k0, 2 * i + 1)))
  }

  /** The string Dotfuscator stores for `plain` when the first key byte is `k0`. */
  function Encrypted(plain: seq<Utf16>, k0: int): (r: seq<Utf16>)
    ensures |r| == |plain|
  {
    seq(|plain|, i requires 0 <= i < |plain| => EncryptUnit(plain[i], KeyByte(k0, 2 * i), KeyByte(k0, 2 * i + 1)))
  }

  /** Decryption undoes encryption, for every string and key. */
  lemma DecryptEncrypt(plain: seq<Utf16>, k0: int)
    ensures Decrypted(Encrypted(plain, k0), k0) == plain
  {
    forall i | 0 <= i < |plain|
      ensures Decrypted(Encrypted(plain, k0), k0)[i] == plain[i]
    {
      DecryptEncryptUnit(plain[i], KeyByte(k0, 2 * i), KeyByte(k0, 2 * i + 1));
    }
  }

  /** Every string is the encryption of its decryption, so `decrypt` loses nothing. */
  lemma EncryptDecrypt(s: seq<Utf16>, k0: int)
    ensures Encrypted(Decrypted(s, k0), k0) == s
  {
    forall i | 0 <= i < |s|
      ensures Encrypted(Decrypted(s, k0), k0)[i] == s[i]
    {
      EncryptDecryptUnit(s[i], KeyByte(k0, 2 * i), KeyByte(k0, 2 * i + 1));
    }
  }

  /** `(byte)(magic + value)` as a number 0..255: the C# sum wraps at 32 bits, which leaves its low
      byte alone. */
  function FirstKey(magic: int, value: int): (r: int)
    ensures 0 <= r < 256 && (r - (magic + value)) % 256 == 0
  {
    (magic + value) % 256
  }

  lemma DecryptedAt(s: seq<Utf16>, k0: int, i: int)
    requires 0 <= i < |s|
    ensures Decrypted(s, k0)[i] == DecryptUnit(s[i], KeyByte(k0, 2 * i), KeyByte(k0, 2 * i + 1))
  {
  }

  /** The body of `decrypt`'s loop on code unit `c`, with the byte key at `key`, the value after
      `n` post-increments; the two post-increments leave it at `next`. */
  method DecryptStep(c: Utf16, key: int, ghost k0: int, ghost n: nat) returns (d: Utf16, next: int)
    requires key == KeyInt(k0, n)
    ensures d == DecryptUnit(c, KeyByte(k0, n), KeyByte(k0, n + 1)) && next == KeyInt(k0, n + 2)
  {
    var k := key;
    var b1 := LowByte(c) ^ (k as bv8);
    k := (k + 1) % 256;
    assert k == KeyInt(k0, n + 1);
    var b2 := HighByte(c) ^ (k as bv8);
    k := (k + 1) % 256;
    assert k == KeyInt(k0, n + 2);
    d, next := Unit(b1, b2), k;
  }

  /** Replacing the next unit of a half-done decryption with its decryption. */
  lemma SpliceStep(dec: seq<Utf16>, s: seq<Utf16>, i: int)
    requires |dec| == |s| && 0 <= i < |s|
    ensures (dec[..i] + s[i..])[i := dec[i]] == dec[..i + 1] + s[i + 1..]
  {
  }

  /** One pass of `decrypt`'s loop over `chars`, which holds the decryption of `s` up to `i`. */
  method DecryptAt(chars: array<Utf16>, i: int, key: int, ghost s: seq<Utf16>, ghost k0: int) returns (next: int)
    requires 0 <= i < chars.Length && |s| == chars.Length && key == KeyInt(k0, 2 * i)
    requires chars[..] == Decrypted(s, k0)[..i] + s[i..]
    modifies chars
    ensures next == KeyInt(k0, 2 * (i + 1)) && chars[..] == Decrypted(s, k0)[..i + 1] + s[i + 1..]
  {
    DecryptedAt(s, k0, i);
    SpliceStep(Decrypted(s, k0), s, i);
    assert chars[i] == s[i];
    var d;
    d, next := DecryptStep(chars[i], key, k0, 2 * i);
    assert 2 * i + 2 == 2 * (i + 1);
    chars[i] := d;
  }

  /** The loop of `decrypt` over the `chars` array, the byte key starting at `k0`. */
  method DecryptChars(chars: array<Utf16>, k0: int)
    requires 0 <= k0 < 256
    modifies chars
    ensures chars[..] == Decrypted(old(chars[..]), k0)
  {
    ghost var s := chars[..];
    var key := k0;
    var i := 0;
    while i < chars.Length
      invariant 0 <= i <= chars.Length && key == KeyInt(k0, 2 * i)
      invariant chars[..] == Decrypted(s, k0)[..i] + s[i..]
    {
      key := DecryptAt(chars, i, key, s, k0);
      i := i + 1;
    }
    assert s[i..] == [];
  }

  // ---------------------------------------------------------------------------------------------
  // Recognising the decrypter methods

  /** A method of the module, as far as the rule looks at it: its identity, whether it has the
      `string (string, int)` signature, whether its body has exception handlers, its instructions
      as the scan first sees them (`instrs`, where the two calls are counted) and the instructions
      the simple deobfuscator leaves in the body (`deobfuscated`, where the triple is looked for). */
  datatype MethodInfo = MethodInfo(target: MethodRef, hasDecrypterSignature: bool, hasExceptionHandlers: bool,
                                   instrs: seq<Instr>, deobfuscated: seq<Instr>)

  datatype StringDecrypterInfo = StringDecrypterInfo(target: MethodRef, magic: int)

  /** DotNetUtils.getMethodCalls: the call, callvirt and newobj instructions whose target has the
      given full name. */
  function CallCount(instrs: seq<Instr>, fullName: string): (r: nat)
    ensures r <= |instrs|
  {
    if |instrs| == 0 then 0
    else
      var here := if IsCallTo(instrs[0], Call, fullName) || IsCallTo(instrs[0], Callvirt, fullName)
                     || IsCallTo(instrs[0], Newobj, fullName) then 1 else 0;
      here + CallCount(instrs[1..], fullName)
  }

  /** One instruction calls at most one of two different methods, so the two counts together never
      exceed the number of instructions. */
  lemma {:induction false} CallCountsDisjoint(instrs: seq<Instr>, a: string, b: string)
    requires a != b
    ensures CallCount(instrs, a) + CallCount(instrs, b) <= |instrs|
  {
    if |instrs| != 0 {
      CallCountsDisjoint(instrs[1..], a, b);
    }
  }

  /** `ldc.i4 ; ldarg.1 ; add` at `i`. */
  predicate MagicTriple(instrs: seq<Instr>, i: int)
  {
    0 <= i && i + 2 < |instrs| && IsLdcI4(instrs[i]) && instrs[i + 1].opcode == Ldarg_1 && instrs[i + 2].opcode == Add
  }

  /** The constant of the first `ldc.i4 ; ldarg.1 ; add` at or after `from`, and where it is. */
  function FirstMagic(instrs: seq<Instr>, from: nat): (r: Option<(int, nat)>)
    ensures r.Some? ==> from <= r.value.1 && MagicTriple(instrs, r.value.1) && r.value.0 == LdcI4Value(instrs[r.value.1])
    ensures r.Some? ==> forall j :: from <= j < r.value.1 ==> !MagicTriple(instrs, j)
    ensures r.None? ==> forall j :: from <= j ==> !MagicTriple(instrs, j)
    decreases |instrs| - from
  {
    if from + 2 >= |instrs| then None
    else if MagicTriple(instrs, from) then Some((LdcI4Value(instrs[from]), from))
    else FirstMagic(instrs, from + 1)
  }

  /** The tests before the simple deobfuscator runs: the signature, no exception handlers, exactly
      one ToCharArray call and exactly one String.Intern call in the body as first seen. */
  function PassesFilters(m: MethodInfo): (r: bool)
    ensures r ==> m.hasDecrypterSignature && !m.hasExceptionHandlers && 2 <= |m.instrs|
  {
    CallCountsDisjoint(m.instrs, TO_CHAR_ARRAY, STRING_INTERN);
    m.hasDecrypterSignature && !m.hasExceptionHandlers
    && CallCount(m.instrs, TO_CHAR_ARRAY) == 1 && CallCount(m.instrs, STRING_INTERN) == 1
  }

  /** A method the scan registers: it passes the filters and its deobfuscated body has the triple. */
  predicate Registers(m: MethodInfo)
  {
    PassesFilters(m) && FirstMagic(m.deobfuscated, 0).Some?
  }

  /** The registry after the scan has looked at one more method. */
  function ScanOne(d: Dict<MethodRef, StringDecrypterInfo>, m: MethodInfo): (r: Dict<MethodRef, StringDecrypterInfo>)
    ensures |r| <= |d| + 1
  {
    if Registers(m) then Put(d, m.target, StringDecrypterInfo(m.target, FirstMagic(m.deobfuscated, 0).value.0)) else d
  }

  /** The registry after the scan has looked at `ms` in order. */
  function Scan(d: Dict<MethodRef, StringDecrypterInfo>, ms: seq<MethodInfo>): Dict<MethodRef, StringDecrypterInfo>
  {
    if |ms| == 0 then d else ScanOne(Scan(d, ms[..|ms| - 1]), ms[|ms| - 1])
  }

  /** The methods of every type, types in `module.GetTypes()` order. */
  function Flatten(types: seq<seq<MethodInfo>>): seq<MethodInfo>
  {
    if |types| == 0 then [] else Flatten(types[..|types| - 1]) + types[|types| - 1]
  }

  /** Scanning two lists of methods one after the other is scanning them joined. */
  lemma {:induction false} ScanAppend(d: Dict<MethodRef, StringDecrypterInfo>, a: seq<MethodInfo>, b: seq<MethodInfo>)
    ensures Scan(d, a + b) == Scan(Scan(d, a), b)
    decreases |b|
  {
    if |b| == 0 {
      assert a + b == a;
    } else {
      ScanAppend(d, a, b[..|b| - 1]);
      assert (a + b)[..|a + b| - 1] == a + b[..|b| - 1];
    }
  }

  /** The for loop of `findStringDecrypterMethods` over one method's instructions. */
  method FindMagic(instrs: seq<Instr>) returns (r: Option<int>)
    ensures r.Some? <==> FirstMagic(instrs, 0).Some?
    ensures r.Some? ==> r.value == FirstMagic(instrs, 0).value.0
  {
    var i := 0;
    while i <= |instrs| - 3
      invariant 0 <= i && FirstMagic(instrs, 0) == FirstMagic(instrs, i)
    {
      if IsLdcI4(instrs[i]) && instrs[i + 1].opcode == Ldarg_1 && instrs[i + 2].opcode == Add {
        return Some(LdcI4Value(instrs[i]));
      }
      i := i + 1;
    }
    return None;
  }

  /** Every registered entry comes from a method that passes the rule, with the magic of its
      first triple; an entry not added by the scan was there before. */
  lemma {:induction false} ScanSound(d: Dict<MethodRef, StringDecrypterInfo>, ms: seq<MethodInfo>, k: MethodRef)
    ensures Lookup(Scan(d, ms), k) == Lookup(d, k)
      || exists j :: 0 <= j < |ms| && ms[j].target == k && Registers(ms[j])
           && Lookup(Scan(d, ms), k) == Some(StringDecrypterInfo(k, FirstMagic(ms[j].deobfuscated, 0).value.0))
    decreases |ms|
  {
    if |ms| != 0 {
      var init := ms[..|ms| - 1];
      var m := ms[|ms| - 1];
      ScanSound(d, init, k);
      if Registers(m) {
        PutLookup(Scan(d, init), m.target, StringDecrypterInfo(m.target, FirstMagic(m.deobfuscated, 0).value.0), k);
      }
      if Lookup(Scan(d, ms), k) != Lookup(d, k) && !(Registers(m) && m.target == k) {
        var j :| 0 <= j < |init| && init[j].target == k && Registers(init[j])
          && Lookup(Scan(d, init), k) == Some(StringDecrypterInfo(k, FirstMagic(init[j].deobfuscated, 0).value.0));
        assert ms[j] == init[j];
      }
    }
  }

  /** Every method that passes the rule ends up registered. */
  lemma {:induction false} ScanComplete(d: Dict<MethodRef, StringDecrypterInfo>, ms: seq<MethodInfo>, j: nat)
    requires j < |ms| && Registers(ms[j])
    ensures Lookup(Scan(d, ms), ms[j].target).Some?
    decreases |ms|
  {
    var init := ms[..|ms| - 1];
    var m := ms[|ms| - 1];
    var k := ms[j].target;
    if j < |ms| - 1 {
      assert init[j] == ms[j];
      ScanComplete(d, init, j);
    }
    if Registers(m) {
      PutLookup(Scan(d, init), m.target, StringDecrypterInfo(m.target, FirstMagic(m.deobfuscated, 0).value.0), k);
    }
  }

  /** The scan never removes an entry: a key registered before is still registered after, with
      its old value unless a method with that key registers again. */
  lemma ScanKeepsEntries(d: Dict<MethodRef, StringDecrypterInfo>, ms: seq<MethodInfo>, k: MethodRef)
    requires Lookup(d, k).Some?
    ensures Lookup(Scan(d, ms), k).Some?
    ensures (forall j :: 0 <= j < |ms| && ms[j].target == k ==> !Registers(ms[j]))
              ==> Lookup(Scan(d, ms), k) == Lookup(d, k)
  {
    ScanSound(d, ms, k);
  }

  /** Starting from nothing, the scan registers something exactly when some method passes the rule. */
  lemma ScanDetects(ms: seq<MethodInfo>)
    ensures |Scan([], ms)| > 0 <==> exists j :: 0 <= j < |ms| && Registers(ms[j])
  {
    if exists j :: 0 <= j < |ms| && Registers(ms[j]) {
      var j :| 0 <= j < |ms| && Registers(ms[j]);
      ScanComplete([], ms, j);
    } else if |Scan([], ms)| > 0 {
      var k := Scan([], ms)[0].0;
      assert Lookup(Scan([], ms), k).Some?;
      ScanSound([], ms, k);
    }
  }

  /** A method with exception handlers is never registered by the scan. */
  lemma HandlersSkipped(d: Dict<MethodRef, StringDecrypterInfo>, ms: seq<MethodInfo>, k: MethodRef)
    requires forall j :: 0 <= j < |ms| && ms[j].target == k ==> ms[j].hasExceptionHandlers
    ensures Lookup(Scan(d, ms), k) == Lookup(d, k)
  {
    ScanSound(d, ms, k);
  }

  class StringDecrypter {
    /** stringDecrypterMethods, keyed by method. */
    var stringDecrypterMethods: Dict<MethodRef, StringDecrypterInfo>

    constructor()
      ensures stringDecrypterMethods == []
    {
      stringDecrypterMethods := [];
    }

    /** Detected: at least one decrypter method is registered. */
    predicate Detected()
      reads this
    {
      |stringDecrypterMethods| > 0
    }

    /** findStringDecrypterMethods for one type's methods. */
    method FindStringDecrypterMethods(methods: seq<MethodInfo>)
      modifies this
      ensures stringDecrypterMethods == Scan(old(stringDecrypterMethods), methods)
    {
      var i := 0;
      while i < |methods|
        invariant 0 <= i <= |methods|
        invariant stringDecrypterMethods == Scan(old(stringDecrypterMethods), methods[..i])
      {
        var m := methods[i];
        assert methods[..i + 1][..i] == methods[..i];
        if m.hasDecrypterSignature && !m.hasExceptionHandlers
          && CallCount(m.instrs, TO_CHAR_ARRAY) == 1 && CallCount(m.instrs, STRING_INTERN) == 1
        {
          var magic := FindMagic(m.deobfuscated);
          if magic.Some? {
            stringDecrypterMethods := Put(stringDecrypterMethods, m.target, StringDecrypterInfo(m.target, magic.value));
          }
        }
        i := i + 1;
      }
      assert methods[..i] == methods;
    }

    /** find: every type of the module, in order. */
    method Find(types: seq<seq<MethodInfo>>)
      modifies this
      ensures stringDecrypterMethods == Scan(old(stringDecrypterMethods), Flatten(types))
    {
      var t := 0;
      while t < |types|
        invariant 0 <= t <= |types|
        invariant stringDecrypterMethods == Scan(old(stringDecrypterMethods), Flatten(types[..t]))
      {
        assert types[..t + 1][..t] == types[..t];
        ScanAppend(old(stringDecrypterMethods), Flatten(types[..t]), types[t]);
        FindStringDecrypterMethods(types[t]);
        t := t + 1;
      }
      assert types[..t] == types;
    }

    /** decrypt: the registered method's magic and `value` give the first key byte; a method
        that is not registered leaves `info` null, so reading its magic throws. */
    method Decrypt(target: MethodRef, encrypted: seq<Utf16>, value: int) returns (r: Result<seq<Utf16>>)
      ensures Lookup(stringDecrypterMethods, target).None? ==> r == Fail(NullReference)
      ensures Lookup(stringDecrypterMethods, target).Some? ==>
        r == Ok(Decrypted(encrypted, FirstKey(Lookup(stringDecrypterMethods, target).value.magic, value)))
    {
      var info := Lookup(stringDecrypterMethods, target);
      if info.None? {
        return Fail(NullReference);
      }
      var chars := new Utf16[|encrypted|](i requires 0 <= i < |encrypted| => encrypted[i]);
      assert chars[..] == encrypted;
      DecryptChars(chars, FirstKey(info.value.magic, value));
      r := Ok(chars[..]);
    }
  }
}
