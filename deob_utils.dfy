/** de4dot's DeobUtils helpers: the wildcard native-code matcher, XXTEA and XTEA decryption on
    32-bit words, the ECMA-335 II.23.2 compressed integer reader, the module-kind file
    extension and the ldc.i4 search. */
module DeobUtils {
  import opened Wrappers
  import opened Bytes
  import opened Cil

  // ---------------------------------------------------------------------------------------
  // isCode

  /** The pattern entry -1 (as a 16-bit pattern) matches any byte. */
  const WILDCARD: bv16 := 0xFFFF

  /** `(byte)s` for a C# short. */
  function LowByte(s: bv16): byte
  {
    (s & 0xFF) as byte
  }

  /** The bytes match the pattern: same length, and every non-wildcard entry equals the byte. */
  predicate Matches(nativeCode: seq<bv16>, code: seq<byte>)
  {
    |nativeCode| == |code|
    && forall i :: 0 <= i < |nativeCode| ==> nativeCode[i] == WILDCARD || LowByte(nativeCode[i]) == code[i]
  }

  method IsCode(nativeCode: seq<bv16>, code: seq<byte>) returns (r: bool)
    ensures r <==> Matches(nativeCode, code)
  {
    if |nativeCode| != |code| {
      return false;
    }
    var i := 0;
    while i < |nativeCode|
      invariant 0 <= i <= |nativeCode|
      invariant forall j :: 0 <= j < i ==> nativeCode[j] == WILDCARD || LowByte(nativeCode[j]) == code[j]
    {
      if nativeCode[i] != WILDCARD && LowByte(nativeCode[i]) != code[i] {
        return false;
      }
      i := i + 1;
    }
    return true;
  }

  // ---------------------------------------------------------------------------------------
  // XXTEA (the btea routine) and XTEA, on C# `uint` words

  /** `a + b` on `uint`, wrapping modulo 2^32. */
  function Add(a: bv32, b: bv32): bv32
  {
    a + b
  }

  /** `a - b` on `uint`, wrapping modulo 2^32. */
  function Sub(a: bv32, b: bv32): bv32
  {
    a - b
  }

  /** Wrapping subtraction undoes wrapping addition. */
  lemma SubAdd(a: bv32, b: bv32)
    ensures Sub(Add(a, b), b) == a
  {
    assert Add(a, b) == a + b;
    assert Sub(a + b, b) == (a + b) - b;
  }

  const DELTA: bv32 := 0x9E3779B9

  /** The running sum `(uint)(k * DELTA)` of cycle `k`. */
  function SumOf(k: bv32): bv32
  {
    k * DELTA
  }

  /** Stepping the sum down by DELTA moves from cycle `k` to cycle `k - 1`. */
  lemma SumOfPred(k: bv32)
    ensures Sub(SumOf(k), DELTA) == SumOf(k - 1)
  {
    assert Sub(k * DELTA, DELTA) == k * DELTA - DELTA;
    assert SumOf(k - 1) == (k - 1) * DELTA;
  }

  /** None of the sums of cycles 1..58 is zero, so counting the sum down to zero runs every
      cycle. */
  lemma SumOfNonZero(k: bv32)
    requires 1 <= k <= 58
    ensures SumOf(k) != 0
  {
  }

  /** The number of XXTEA cycles for `n` words: `6 + 52 / n`. */
  function XxteaRounds(n: int): (r: bv32)
    requires n >= 1
    ensures 6 <= r <= 58
  {
    Div52Bounds(n);
    (6 + 52 / n) as bv32
  }

  lemma Div52Bounds(n: int)
    requires n >= 1
    ensures 0 <= 52 / n <= 52
  {
  }

  /** The key-schedule selector `e = (sum >> 2) & 3`. */
  function E(sum: bv32): bv32
  {
    (sum >> 2) & 3
  }

  /** The key word `key[(p & 3) ^ e]`. */
  function KeyWord(key: seq<bv32>, p: nat, e: bv32): bv32
    requires |key| >= 4
  {
    key[(((p % 4) as bv32) ^ (e & 3)) as int]
  }

  /** The btea mixing function MX. */
  function Mx(sum: bv32, y: bv32, z: bv32, p: nat, e: bv32, key: seq<bv32>): bv32
    requires |key| >= 4
  {
    (((z >> 5) ^ (y << 2)) + ((y >> 3) ^ (z << 4))) ^ ((sum ^ y) + (KeyWord(key, p, e) ^ z))
  }

  /** The cyclic right neighbour of word `p` among `n`. */
  function Next(p: nat, n: nat): nat
    requires p < n
  {
    if p + 1 < n then p + 1 else 0
  }

  /** The cyclic left neighbour of word `p` among `n`. */
  function Prev(p: nat, n: nat): nat
    requires p < n
  {
    if p == 0 then n - 1 else p - 1
  }

  /** The mixing value for word `p` of `v`: its right neighbour is `y`, its left neighbour `z`. */
  function MxAt(v: seq<bv32>, p: nat, sum: bv32, key: seq<bv32>): bv32
    requires p < |v| && |key| >= 4
  {
    Mx(sum, v[Next(p, |v|)], v[Prev(p, |v|)], p, E(sum), key)
  }

  /** One decryption step: word `p` loses its mixing value. */
  function DecStep(v: seq<bv32>, p: nat, sum: bv32, key: seq<bv32>): (r: seq<bv32>)
    requires p < |v| && |key| >= 4
    ensures |r| == |v|
  {
    v[p := Sub(v[p], MxAt(v, p, sum, key))]
  }

  /** One encryption step: word `p` gains its mixing value. */
  function EncStep(v: seq<bv32>, p: nat, sum: bv32, key: seq<bv32>): (r: seq<bv32>)
    requires p < |v| && |key| >= 4
    ensures |r| == |v|
  {
    v[p := Add(v[p], MxAt(v, p, sum, key))]
  }

  /** The decryption steps for words p, p-1, ..., 0. */
  function DecFrom(v: seq<bv32>, p: int, sum: bv32, key: seq<bv32>): (r: seq<bv32>)
    requires -1 <= p < |v| && |key| >= 4
    ensures |r| == |v|
    decreases p + 1
  {
    if p < 0 then v else DecFrom(DecStep(v, p, sum, key), p - 1, sum, key)
  }

  /** The encryption steps for words 0, 1, ..., m-1. */
  function EncUpTo(v: seq<bv32>, m: nat, sum: bv32, key: seq<bv32>): (r: seq<bv32>)
    requires m <= |v| && |key| >= 4
    ensures |r| == |v|
  {
    if m == 0 then v else EncStep(EncUpTo(v, m - 1, sum, key), m - 1, sum, key)
  }

  /** Decryption cycles k, k-1, ..., 1; cycle j uses the sum `j * DELTA`. */
  function DecRounds(v: seq<bv32>, k: bv32, key: seq<bv32>): (r: seq<bv32>)
    requires |v| >= 1 && |key| >= 4
    ensures |r| == |v|
    decreases k
  {
    if k == 0 then v else DecRounds(DecFrom(v, |v| - 1, SumOf(k), key), k - 1, key)
  }

  /** Encryption cycles 1, 2, ..., k; cycle j uses the sum `j * DELTA`. */
  function EncRounds(v: seq<bv32>, k: bv32, key: seq<bv32>): (r: seq<bv32>)
    requires |v| >= 1 && |key| >= 4
    ensures |r| == |v|
    decreases k
  {
    if k == 0 then v else EncUpTo(EncRounds(v, k - 1, key), |v|, SumOf(k), key)
  }

  /** What `xxteaDecrypt` leaves in `v`: `6 + 52 / n` decryption cycles. */
  function XxteaDecrypted(v: seq<bv32>, key: seq<bv32>): (r: seq<bv32>)
    requires |v| >= 1 && |key| >= 4
    ensures |r| == |v|
  {
    DecRounds(v, XxteaRounds(|v|), key)
  }

  /** XXTEA encryption of `v` under `key`. */
  function XxteaEncrypted(v: seq<bv32>, key: seq<bv32>): (r: seq<bv32>)
    requires |v| >= 1 && |key| >= 4
    ensures |r| == |v|
  {
    EncRounds(v, XxteaRounds(|v|), key)
  }

  /** One cycle of the inner `for` loop and the step for word 0 after it, in place. */
  method XxteaCycle(v: array<bv32>, key: array<bv32>, sum: bv32)
    requires v.Length >= 1 && key.Length >= 4 && v != key
    modifies v
    ensures v[..] == DecFrom(old(v[..]), v.Length - 1, sum, key[..])
  {
    var n := v.Length;
    var e := E(sum);
    var y := v[0];
    var z: bv32;
    var p := n - 1;
    while p > 0
      invariant 0 <= p <= n - 1
      invariant y == v[Next(p, n)]
      invariant DecFrom(v[..], p, sum, key[..]) == DecFrom(old(v[..]), n - 1, sum, key[..])
    {
      z := v[p - 1];
      v[p] := Sub(v[p], Mx(sum, y, z, p, e, key[..]));
      y := v[p];
      p := p - 1;
    }
    z := v[n - 1];
    v[0] := Sub(v[0], Mx(sum, y, z, 0, e, key[..]));
  }

  /** xxteaDecrypt: an empty block fails at `52 / n` before anything is written; any other block
      is decrypted in place. */
  method XxteaDecrypt(v: array<bv32>, key: array<bv32>) returns (r: Result<()>)
    requires key.Length >= 4 && v != key
    modifies v
    ensures v.Length == 0 ==> r == Fail(DivideByZero)
    ensures v.Length >= 1 ==> r == Ok(()) && v[..] == XxteaDecrypted(old(v[..]), key[..])
  {
    var n := v.Length;
    if n == 0 {
      return Fail(DivideByZero);
    }
    r := Ok(());
    var rounds := XxteaRounds(n);
    var sum := SumOf(rounds);
    ghost var k := rounds;
    while true
      invariant 1 <= k <= 58 && sum == SumOf(k)
      invariant DecRounds(v[..], k, key[..]) == XxteaDecrypted(old(v[..]), key[..])
      decreases k
    {
      XxteaCycle(v, key, sum);
      SumOfPred(k);
      sum := Sub(sum, DELTA);
      k := k - 1;
      if sum == 0 {
        if k > 0 {
          SumOfNonZero(k);
        }
        break;
      }
    }
  }

  /** A decryption step undoes the encryption step for the same word once there are two or more
      words: the step reads only the word's neighbours, which it does not change. */
  lemma DecStepEncStep(v: seq<bv32>, p: nat, sum: bv32, key: seq<bv32>)
    requires |v| >= 2 && p < |v| && |key| >= 4
    ensures DecStep(EncStep(v, p, sum, key), p, sum, key) == v
  {
    var n := |v|;
    var m := MxAt(v, p, sum, key);
    var w := EncStep(v, p, sum, key);
    assert Next(p, n) != p && Prev(p, n) != p;
    assert MxAt(w, p, sum, key) == m;
    SubAdd(v[p], m);
  }

  lemma {:induction false} DecFromEncUpTo(v: seq<bv32>, m: nat, sum: bv32, key: seq<bv32>)
    requires |v| >= 2 && m <= |v| && |key| >= 4
    ensures DecFrom(EncUpTo(v, m, sum, key), m - 1, sum, key) == v
  {
    if m > 0 {
      var x := EncUpTo(v, m - 1, sum, key);
      DecStepEncStep(x, m - 1, sum, key);
      DecFromEncUpTo(v, m - 1, sum, key);
    }
  }

  lemma {:induction false} DecRoundsEncRounds(v: seq<bv32>, k: bv32, key: seq<bv32>)
    requires |v| >= 2 && |key| >= 4
    ensures DecRounds(EncRounds(v, k, key), k, key) == v
    decreases k
  {
    if k != 0 {
      var x := EncRounds(v, k - 1, key);
      DecFromEncUpTo(x, |v|, SumOf(k), key);
      DecRoundsEncRounds(v, k - 1, key);
    }
  }

  /** XXTEA round trip: decrypting an encrypted block of two or more words gives it back. */
  lemma XxteaRoundTrip(v: seq<bv32>, key: seq<bv32>)
    requires |v| >= 2 && |key| >= 4
    ensures XxteaDecrypted(XxteaEncrypted(v, key), key) == v
  {
    DecRoundsEncRounds(v, XxteaRounds(|v|), key);
  }

  /** The XTEA mixing term `(((x << 4) ^ (x >> 5)) + x) ^ (sum + key[i])`. */
  function XteaMix(x: bv32, sum: bv32, keyWord: bv32): bv32
  {
    (((x << 4) ^ (x >> 5)) + x) ^ (sum + keyWord)
  }

  /** `key[(sum >> 11) & 3]`. */
  function HighKey(key: seq<bv32>, sum: bv32): bv32
    requires |key| >= 4
  {
    key[((sum >> 11) & 3) as int]
  }

  /** `key[sum & 3]`. */
  function LowKey(key: seq<bv32>, sum: bv32): bv32
    requires |key| >= 4
  {
    key[(sum & 3) as int]
  }

  /** One XTEA decryption cycle whose running sum is `t` on entry. */
  function XteaDecRound(v: (bv32, bv32), t: bv32, key: seq<bv32>): (bv32, bv32)
    requires |key| >= 4
  {
    var v1 := Sub(v.1, XteaMix(v.0, t, HighKey(key, t)));
    var t' := Sub(t, DELTA);
    (Sub(v.0, XteaMix(v1, t', LowKey(key, t'))), v1)
  }

  /** One XTEA encryption cycle whose running sum is `t` on exit. */
  function XteaEncRound(v: (bv32, bv32), t: bv32, key: seq<bv32>): (bv32, bv32)
    requires |key| >= 4
  {
    var t' := Sub(t, DELTA);
    var v0 := Add(v.0, XteaMix(v.1, t', LowKey(key, t')));
    (v0, Add(v.1, XteaMix(v0, t, HighKey(key, t))))
  }

  /** XTEA decryption cycles k, k-1, ..., 1; cycle j starts from the sum `j * delta`. */
  function XteaDecRounds(v: (bv32, bv32), k: bv32, key: seq<bv32>): (bv32, bv32)
    requires |key| >= 4
    decreases k
  {
    if k == 0 then v else XteaDecRounds(XteaDecRound(v, SumOf(k), key), k - 1, key)
  }

  /** XTEA encryption cycles 1, 2, ..., k; cycle j ends at the sum `j * delta`. */
  function XteaEncRounds(v: (bv32, bv32), k: bv32, key: seq<bv32>): (bv32, bv32)
    requires |key| >= 4
    decreases k
  {
    if k == 0 then v else XteaEncRound(XteaEncRounds(v, k - 1, key), SumOf(k), key)
  }

  /** Is the C# `int` with this bit pattern positive? */
  predicate Positive(rounds: bv32)
  {
    0 < rounds < 0x8000_0000
  }

  /** What `xteaDecrypt` leaves in (v0, v1). `rounds` is the bit pattern of the C# `int` count:
      `rounds` cycles from sum `(uint)(delta * rounds)`, none when the count is not positive. */
  function XteaDecrypted(v: (bv32, bv32), key: seq<bv32>, rounds: bv32): (bv32, bv32)
    requires |key| >= 4
  {
    if Positive(rounds) then XteaDecRounds(v, rounds, key) else v
  }

  /** XTEA encryption with `rounds` cycles, the sum climbing to `delta * rounds`. */
  function XteaEncrypted(v: (bv32, bv32), key: seq<bv32>, rounds: bv32): (bv32, bv32)
    requires |key| >= 4
  {
    if Positive(rounds) then XteaEncRounds(v, rounds, key) else v
  }

  /** The body of `xteaDecrypt`'s loop: one cycle on (v0, v1), and the sum stepped down. */
  method XteaCycle(v0: bv32, v1: bv32, key: seq<bv32>, sum: bv32) returns (r0: bv32, r1: bv32, sum': bv32)
    requires |key| >= 4
    ensures (r0, r1) == XteaDecRound((v0, v1), sum, key) && sum' == Sub(sum, DELTA)
  {
    r1 := Sub(v1, XteaMix(v0, sum, HighKey(key, sum)));
    sum' := Sub(sum, DELTA);
    r0 := Sub(v0, XteaMix(r1, sum', LowKey(key, sum')));
  }

  /** `xteaDecrypt` on the `ref` words v0 and v1, which come back as r0 and r1; `sum` is the
      running sum as the loop leaves it. */
  method XteaDecrypt(v0: bv32, v1: bv32, key: seq<bv32>, rounds: bv32) returns (r0: bv32, r1: bv32, sum: bv32)
    requires |key| >= 4
    ensures (r0, r1) == XteaDecrypted((v0, v1), key, rounds)
    ensures Positive(rounds) ==> sum == 0
  {
    r0, r1 := v0, v1;
    sum := SumOf(rounds);
    if !Positive(rounds) {
      return;
    }
    // The C# loop counts i from 0 up to rounds; `remaining` is rounds - i.
    var remaining := rounds;
    while remaining != 0
      invariant sum == SumOf(remaining)
      invariant XteaDecRounds((r0, r1), remaining, key) == XteaDecrypted((v0, v1), key, rounds)
      decreases remaining
    {
      SumOfPred(remaining);
      r0, r1, sum := XteaCycle(r0, r1, key, sum);
      remaining := remaining - 1;
    }
  }

  /** A decryption cycle undoes the encryption cycle with the same sum. */
  lemma XteaDecRoundEncRound(v: (bv32, bv32), t: bv32, key: seq<bv32>)
    requires |key| >= 4
    ensures XteaDecRound(XteaEncRound(v, t, key), t, key) == v
  {
    var t' := Sub(t, DELTA);
    var v0 := Add(v.0, XteaMix(v.1, t', LowKey(key, t')));
    SubAdd(v.1, XteaMix(v0, t, HighKey(key, t)));
    SubAdd(v.0, XteaMix(v.1, t', LowKey(key, t')));
  }

  lemma {:induction false} XteaDecRoundsEncRounds(v: (bv32, bv32), k: bv32, key: seq<bv32>)
    requires |key| >= 4
    ensures XteaDecRounds(XteaEncRounds(v, k, key), k, key) == v
    decreases k
  {
    if k != 0 {
      var x := XteaEncRounds(v, k - 1, key);
      XteaDecRoundEncRound(x, SumOf(k), key);
      XteaDecRoundsEncRounds(v, k - 1, key);
    }
  }

  /** XTEA round trip: decrypting with the same key and cycle count undoes encryption. */
  lemma XteaRoundTrip(v: (bv32, bv32), key: seq<bv32>, rounds: bv32)
    requires |key| >= 4
    ensures XteaDecrypted(XteaEncrypted(v, key, rounds), key, rounds) == v
  {
    if Positive(rounds) {
      XteaDecRoundsEncRounds(v, rounds, key);
    }
  }

  // ---------------------------------------------------------------------------------------
  // readVariableLengthInt32 (ECMA-335 II.23.2 compressed unsigned integers)

  /** The value and the new index `readVariableLengthInt32` produces at `index`, or the
      IndexOutOfRangeException it raises when the bytes run out. */
  function VarInt(data: seq<byte>, index: int): Result<(int, int)>
  {
    if !(0 <= index < |data|) then Fail(IndexOutOfRange)
    else
      var b := data[index];
      if b & 0x80 == 0 then Ok((b as int, index + 1))
      else if b & 0x40 == 0 then
        if index + 1 >= |data| then Fail(IndexOutOfRange)
        else Ok((((b & 0x3F) as int) * 0x100 + data[index + 1] as int, index + 2))
      else if index + 3 >= |data| then Fail(IndexOutOfRange)
      else Ok((((b & 0x1F) as int) * 0x100_0000 + (data[index + 1] as int) * 0x1_0000
               + (data[index + 2] as int) * 0x100 + data[index + 3] as int, index + 4))
  }

  method ReadVariableLengthInt32(data: seq<byte>, index: int) returns (r: Result<int>, newIndex: int)
    ensures VarInt(data, index).Ok? <==> r.Ok?
    ensures r.Ok? ==> (r.value, newIndex) == VarInt(data, index).value
    ensures r.Fail? ==> r.error == IndexOutOfRange
  {
    newIndex := index;
    if !(0 <= newIndex < |data|) {
      return Fail(IndexOutOfRange), newIndex;
    }
    var b := data[newIndex];
    newIndex := newIndex + 1;
    if b & 0x80 == 0 {
      return Ok(b as int), newIndex;
    }
    if b & 0x40 == 0 {
      if newIndex >= |data| {
        return Fail(IndexOutOfRange), newIndex;
      }
      var b1 := data[newIndex];
      newIndex := newIndex + 1;
      return Ok(((b & 0x3F) as int) * 0x100 + b1 as int), newIndex;
    }
    if newIndex + 2 >= |data| {
      return Fail(IndexOutOfRange), newIndex;
    }
    var b1 := data[newIndex];
    var b2 := data[newIndex + 1];
    var b3 := data[newIndex + 2];
    newIndex := newIndex + 3;
    r := Ok(((b & 0x1F) as int) * 0x100_0000 + (b1 as int) * 0x1_0000 + (b2 as int) * 0x100 + b3 as int);
  }

  /** Decoded values lie in [0, 2^29) and consume 1, 2 or 4 bytes according to the lead byte. */
  lemma VarIntShape(data: seq<byte>, index: int)
    requires VarInt(data, index).Ok?
    ensures var (v, next) := VarInt(data, index).value;
      0 <= v < 0x2000_0000
      && next == index + (if data[index] & 0x80 == 0 then 1 else if data[index] & 0x40 == 0 then 2 else 4)
  {
  }

  /** The ECMA-335 II.23.2 encoding of an unsigned value below 2^29. */
  function CompressUInt(v: int): (r: seq<byte>)
    requires 0 <= v < 0x2000_0000
    ensures |r| in {1, 2, 4}
  {
    if v < 0x80 then [v as byte]
    else if v < 0x4000 then [0x80 | (v / 0x100) as byte, (v % 0x100) as byte]
    else [0xC0 | (v / 0x100_0000) as byte, (v / 0x1_0000 % 0x100) as byte, (v / 0x100 % 0x100) as byte,
          (v % 0x100) as byte]
  }

  /** Round trip: reading back the encoding of `v` gives `v` and moves past the whole encoding. */
  lemma VarIntRoundTrip(v: int, rest: seq<byte>)
    requires 0 <= v < 0x2000_0000
    ensures VarInt(CompressUInt(v) + rest, 0) == Ok((v, |CompressUInt(v)|))
  {
    if v < 0x80 {
      ByteValue(v);
    } else if v < 0x4000 {
      VarIntRoundTrip2(v, rest);
    } else {
      VarIntRoundTrip4(v, rest);
    }
  }

  lemma VarIntRoundTrip2(v: int, rest: seq<byte>)
    requires 0x80 <= v < 0x4000
    ensures VarInt(CompressUInt(v) + rest, 0) == Ok((v, 2))
  {
    var (h, l) := (v / 0x100, v % 0x100);
    ByteValue(h);
    LeadByte2(h as byte);
    ByteValue(l);
    var d := CompressUInt(v) + rest;
    assert d[0] == 0x80 | h as byte && d[1] == l as byte;
    assert h * 0x100 + l == v;
  }

  lemma VarIntRoundTrip4(v: int, rest: seq<byte>)
    requires 0x4000 <= v < 0x2000_0000
    ensures VarInt(CompressUInt(v) + rest, 0) == Ok((v, 4))
  {
    var (h, b1, b2, b3) := (v / 0x100_0000, v / 0x1_0000 % 0x100, v / 0x100 % 0x100, v % 0x100);
    ByteValue(h);
    LeadByte4(h as byte);
    ByteValue(b1);
    ByteValue(b2);
    ByteValue(b3);
    var d := CompressUInt(v) + rest;
    assert d[0] == 0xC0 | h as byte && d[1] == b1 as byte && d[2] == b2 as byte && d[3] == b3 as byte;
    VarInt4(d, h, b1, b2, b3);
    Digits(v);
  }

  /** A four-byte encoding reads as its 29-bit big-endian value. */
  lemma VarInt4(d: seq<byte>, h: int, b1: int, b2: int, b3: int)
    requires |d| >= 4 && d[0] & 0x80 != 0 && d[0] & 0x40 != 0 && (d[0] & 0x1F) as int == h
    requires d[1] as int == b1 && d[2] as int == b2 && d[3] as int == b3
    ensures VarInt(d, 0) == Ok((h * 0x100_0000 + b1 * 0x1_0000 + b2 * 0x100 + b3, 4))
  {
  }

  /** A two-byte lead `10xxxxxx` keeps its tag and its six payload bits. */
  lemma LeadByte2(h: byte)
    requires h < 0x40
    ensures (0x80 | h) & 0x80 != 0 && (0x80 | h) & 0x40 == 0 && (0x80 | h) & 0x3F == h
  {
  }

  /** A four-byte lead `110xxxxx` keeps its tag and its five payload bits. */
  lemma LeadByte4(h: byte)
    requires h < 0x20
    ensures (0xC0 | h) & 0x80 != 0 && (0xC0 | h) & 0x40 != 0 && (0xC0 | h) & 0x1F == h
  {
  }

  // ---------------------------------------------------------------------------------------
  // getExtension

  datatype ModuleKind = Console | Windows | Dll | NetModule

  function GetExtension(kind: ModuleKind): (r: string)
    ensures r == ".dll" <==> kind == Dll
    ensures r == ".netmodule" <==> kind == NetModule
    ensures r == ".exe" <==> kind in {Console, Windows}
  {
    match kind
    case Dll => ".dll"
    case NetModule => ".netmodule"
    case _ => ".exe"
  }

  // ---------------------------------------------------------------------------------------
  // indexOfLdci4Instruction

  /** The index of the first ldc.i4 pushing `value` in a method body, or -1; a missing method or
      body (`None`) gives -1. */
  method IndexOfLdci4Instruction(body: Option<seq<Instr>>, value: int) returns (r: int)
    ensures body.None? ==> r == -1
    ensures body.Some? ==> -1 <= r < |body.value|
    ensures body.Some? && r >= 0 ==> IsLdcI4(body.value[r]) && LdcI4Value(body.value[r]) == value
    ensures body.Some? ==> forall j :: 0 <= j < (if r < 0 then |body.value| else r) ==>
              !(IsLdcI4(body.value[j]) && LdcI4Value(body.value[j]) == value)
  {
    if body.None? {
      return -1;
    }
    var instrs := body.value;
    var i := 0;
    while i < |instrs|
      invariant 0 <= i <= |instrs|
      invariant forall j :: 0 <= j < i ==> !(IsLdcI4(instrs[j]) && LdcI4Value(instrs[j]) == value)
    {
      var instr := instrs[i];
      if IsLdcI4(instr) && LdcI4Value(instr) == value {
        return i;
      }
      i := i + 1;
    }
    return -1;
  }
}
