/** dotNET Reactor 3.x memory patcher: a private method of the protection's loader type allocates two
    `int[]` arrays, one of (negated) file offsets and one of AES-encrypted dword values. de4dot
    recovers them as `PatchInfo`s and replays the writes on the image bytes. */
module ReactorV3 {
  import opened Wrappers
  import opened Bytes

  /** Parallel arrays: `values[i]` is written at file offset `offsets[i]`. */
  datatype PatchInfo = PatchInfo(offsets: seq<int>, values: seq<int>)

  predicate Parallel(info: PatchInfo)
  {
    |info.offsets| == |info.values|
  }

  /** One `newarr` found in the patch method, in instruction order, with the constant contents
      the array initialiser gives it (None when no initialiser is recognised). */
  datatype NewArr = NewArr(size: int, init: Option<seq<int>>)

  /** The AES decryption with the loader's key and IV: None when the cipher throws. */
  type Cipher = seq<byte> -> Option<seq<byte>>

  predicate IsInt32(x: int)
  {
    INT32_MIN <= x <= INT32_MAX
  }

  /** Unchecked C# negation of an `int`: the most negative value is its own negation. */
  function Negate32(x: int): (r: int)
    ensures IsInt32(x) ==> IsInt32(r)
  {
    if x == INT32_MIN then x else -x
  }

  function Negated(s: seq<int>): (r: seq<int>)
    ensures |r| == |s|
  {
    seq(|s|, i requires 0 <= i < |s| => Negate32(s[i]))
  }

  /** Negation undoes itself on every C# `int`. */
  lemma NegatedInvolution(s: seq<int>)
    requires forall i :: 0 <= i < |s| ==> IsInt32(s[i])
    ensures Negated(Negated(s)) == s
  {
  }

  // ---------------------------------------------------------------------------------------------
  // decrypt: the ints are written with BinaryWriter, decrypted, and read back with BitConverter.

  /** The bytes BinaryWriter produces for the ints, in order. */
  function Pack(s: seq<int>): (r: seq<byte>)
    ensures |r| == 4 * |s|
  {
    if |s| == 0 then [] else Pack(s[..|s| - 1]) + Int32Le(s[|s| - 1])
  }

  /** The ints BitConverter.ToInt32 reads at offsets 0, 4, 8, ...; None unless the length is a
      multiple of 4. */
  function Unpack(d: seq<byte>): (r: Option<seq<int>>)
    ensures r.Some? <==> |d| % 4 == 0
    ensures r.Some? ==> |r.value| == |d| / 4
    ensures r.Some? ==> forall i :: 0 <= i < |r.value| ==> IsInt32(r.value[i])
  {
    if |d| % 4 != 0 then None
    else Some(seq(|d| / 4, i requires 0 <= i < |d| / 4 => LeInt32(d[4 * i .. 4 * i + 4])))
  }

  function DecryptValues(data: seq<int>, aes: Cipher): Option<seq<int>>
  {
    match aes(Pack(data))
    case None => None
    case Some(d) => Unpack(d)
  }

  /** Dword i of the packed bytes is the encoding of int i. */
  lemma {:induction false} PackSlice(s: seq<int>, i: int)
    requires 0 <= i < |s|
    ensures Pack(s)[4 * i .. 4 * i + 4] == Int32Le(s[i])
  {
    var n := |s| - 1;
    if i < n {
      PackSlice(s[..n], i);
      assert Pack(s)[4 * i .. 4 * i + 4] == Pack(s[..n])[4 * i .. 4 * i + 4];
      assert s[..n][i] == s[i];
    }
  }

  /** Unpacking what BinaryWriter wrote gives the same ints back. */
  lemma UnpackPack(s: seq<int>)
    requires forall i :: 0 <= i < |s| ==> IsInt32(s[i])
    ensures Unpack(Pack(s)) == Some(s)
  {
    Quarter(|s|);
    var r := Unpack(Pack(s)).value;
    assert |r| == |s|;
    forall i | 0 <= i < |s|
      ensures r[i] == s[i]
    {
      UnpackPackAt(s, i);
    }
    assert r == s;
  }

  lemma UnpackPackAt(s: seq<int>, i: int)
    requires 0 <= i < |s| && IsInt32(s[i])
    ensures Unpack(Pack(s)).Some? && |Unpack(Pack(s)).value| == |s|
    ensures Unpack(Pack(s)).value[i] == s[i]
  {
    Quarter(|s|);
    UnpackAt(Pack(s), i);
    PackSlice(s, i);
    LeInt32OfInt32Le(s[i]);
  }

  lemma Quarter(n: int)
    ensures (4 * n) % 4 == 0 && (4 * n) / 4 == n
  {
  }

  lemma UnpackAt(d: seq<byte>, i: int)
    requires |d| % 4 == 0 && 0 <= i < |d| / 4
    ensures Unpack(d).value[i] == LeInt32(d[4 * i .. 4 * i + 4])
  {
  }

  /** When the cipher's plaintext is a run of packed ints, decrypt yields exactly those ints. */
  lemma DecryptValuesPacked(data: seq<int>, aes: Cipher, plain: seq<int>)
    requires aes(Pack(data)) == Some(Pack(plain))
    requires forall i :: 0 <= i < |plain| ==> IsInt32(plain[i])
    ensures DecryptValues(data, aes) == Some(plain)
  {
    UnpackPack(plain);
  }

  /** decrypt (MemoryPatcher.cs), with the writer and the reader loops. */
  method Decrypt(data: seq<int>, aes: Cipher) returns (r: Option<seq<int>>)
    ensures r == DecryptValues(data, aes)
  {
    var packed: seq<byte> := [];
    var i := 0;
    while i < |data|
      invariant 0 <= i <= |data|
      invariant packed == Pack(data[..i])
    {
      assert data[..i + 1][..i] == data[..i];
      packed := packed + Int32Le(data[i]);
      i := i + 1;
    }
    assert data[..i] == data;
    var decrypted := aes(packed);
    if decrypted.None? {
      return None;
    }
    var d := decrypted.value;
    if |d| / 4 * 4 != |d| {
      return None;
    }
    var newData := new int[|d| / 4];
    var j := 0;
    while j < newData.Length
      invariant 0 <= j <= newData.Length
      invariant forall k :: 0 <= k < j ==> newData[k] == LeInt32(d[4 * k .. 4 * k + 4])
    {
      newData[j] := LeInt32(d[4 * j .. 4 * j + 4]);
      j := j + 1;
    }
    assert |d| % 4 == 0;
    assert newData[..] == Unpack(d).value;
    r := Some(newData[..]);
  }

  // ---------------------------------------------------------------------------------------------
  // getPatchInfo

  /** The patch info a method yields: exactly two `newarr`s, the first of 1..35 elements, both
      initialised, the second decrypting to as many ints as the first holds. */
  function PatchInfoOf(allocs: seq<NewArr>, aes: Cipher): Option<PatchInfo>
  {
    if |allocs| != 2 then None
    else if allocs[0].size <= 0 || allocs[0].size > 35 then None
    else if allocs[0].init.None? || allocs[1].init.None? then None
    else
      var ary1 := allocs[0].init.value;
      match DecryptValues(allocs[1].init.value, aes)
      case None => None
      case Some(ary2) => if |ary1| != |ary2| then None else Some(PatchInfo(Negated(ary1), ary2))
  }

  /** What a found patch info is made of: both directions of the acceptance rule. */
  lemma PatchInfoOfSpec(allocs: seq<NewArr>, aes: Cipher)
    ensures PatchInfoOf(allocs, aes).Some? <==>
      |allocs| == 2 && 1 <= allocs[0].size <= 35 && allocs[0].init.Some? && allocs[1].init.Some? &&
      DecryptValues(allocs[1].init.value, aes).Some? &&
      |DecryptValues(allocs[1].init.value, aes).value| == |allocs[0].init.value|
    ensures PatchInfoOf(allocs, aes).Some? ==>
      var info := PatchInfoOf(allocs, aes).value;
      Parallel(info) && info.offsets == Negated(allocs[0].init.value) &&
      Some(info.values) == DecryptValues(allocs[1].init.value, aes)
  {
  }

  /** A third array allocation makes the method unusable, whatever the arrays hold. */
  lemma ThirdArrayRejected(allocs: seq<NewArr>, aes: Cipher)
    requires |allocs| >= 3
    ensures PatchInfoOf(allocs, aes) == None
  {
  }

  /** getPatchInfo: decrypts the value array and negates the offsets in place. */
  method GetPatchInfo(allocs: seq<NewArr>, aes: Cipher) returns (r: Option<PatchInfo>)
    ensures r == PatchInfoOf(allocs, aes)
    ensures r.Some? ==> Parallel(r.value)
  {
    if |allocs| != 2 {
      return None;
    }
    var size1 := allocs[0].size;
    if size1 <= 0 || size1 > 35 {
      return None;
    }
    if allocs[0].init.None? || allocs[1].init.None? {
      return None;
    }
    var ary2 := Decrypt(allocs[1].init.value, aes);
    if ary2.None? || |allocs[0].init.value| != |ary2.value| {
      return None;
    }
    var init1 := allocs[0].init.value;
    var ary1 := new int[|init1|](i requires 0 <= i < |init1| => init1[i]);
    var i := 0;
    while i < ary1.Length
      invariant 0 <= i <= ary1.Length
      invariant forall k :: 0 <= k < i ==> ary1[k] == Negate32(init1[k])
      invariant forall k :: i <= k < ary1.Length ==> ary1[k] == init1[k]
    {
      ary1[i] := Negate32(ary1[i]);
      i := i + 1;
    }
    assert ary1[..] == Negated(init1);
    r := Some(PatchInfo(ary1[..], ary2.value));
  }

  // ---------------------------------------------------------------------------------------------
  // patch: dword writes into the image bytes.

  /** A write of `bytes` at a file offset. */
  datatype Write = Write(offset: int, bytes: seq<byte>)

  function InfoWrites(info: PatchInfo): (r: seq<Write>)
    requires Parallel(info)
    ensures |r| == |info.offsets|
  {
    seq(|info.offsets|, i requires 0 <= i < |info.offsets| =>
      Write(info.offsets[i] % 0x1_0000_0000, Int32Le(info.values[i])))
  }

  predicate AllParallel(infos: seq<PatchInfo>)
  {
    forall j :: 0 <= j < |infos| ==> Parallel(infos[j])
  }

  /** Every write of every patch info, in list order. */
  function AllWrites(infos: seq<PatchInfo>): seq<Write>
    requires AllParallel(infos)
  {
    if |infos| == 0 then [] else InfoWrites(infos[0]) + AllWrites(infos[1..])
  }

  predicate Fits(img: seq<byte>, w: Write)
  {
    0 <= w.offset && w.offset + |w.bytes| <= |img|
  }

  predicate Covers(w: Write, k: int)
  {
    w.offset <= k < w.offset + |w.bytes|
  }

  function WriteAt(img: seq<byte>, w: Write): (r: seq<byte>)
    requires Fits(img, w)
    ensures |r| == |img|
  {
    seq(|img|, k requires 0 <= k < |img| => if Covers(w, k) then w.bytes[k - w.offset] else img[k])
  }

  /** The image after the writes, and whether all of them were made: a write that does not fit
      the image aborts the patch, leaving the earlier writes in place. */
  function ApplyWrites(img: seq<byte>, ws: seq<Write>): (r: (seq<byte>, bool))
    ensures |r.0| == |img|
    decreases |ws|
  {
    if |ws| == 0 then (img, true)
    else if !Fits(img, ws[0]) then (img, false)
    else ApplyWrites(WriteAt(img, ws[0]), ws[1..])
  }

  /** The byte the last write covering position k puts there, if any write covers it. */
  function LastCover(ws: seq<Write>, k: int): Option<byte>
  {
    if |ws| == 0 then None
    else
      var later := LastCover(ws[1..], k);
      if later.Some? then later
      else if Covers(ws[0], k) then Some(ws[0].bytes[k - ws[0].offset])
      else None
  }

  /** After a complete patch every byte holds what the last write covering it wrote, and a byte
      that no write covers keeps its old value. */
  lemma {:induction false} LastWriteWins(img: seq<byte>, ws: seq<Write>, k: int)
    requires ApplyWrites(img, ws).1
    requires 0 <= k < |img|
    ensures ApplyWrites(img, ws).0[k] == if LastCover(ws, k).Some? then LastCover(ws, k).value else img[k]
    decreases |ws|
  {
    if |ws| != 0 {
      LastWriteWins(WriteAt(img, ws[0]), ws[1..], k);
    }
  }

  lemma {:induction false} UncoveredUntouched(img: seq<byte>, ws: seq<Write>, k: int)
    requires ApplyWrites(img, ws).1
    requires 0 <= k < |img|
    requires forall j :: 0 <= j < |ws| ==> !Covers(ws[j], k)
    ensures ApplyWrites(img, ws).0[k] == img[k]
  {
    NoCover(ws, k);
    LastWriteWins(img, ws, k);
  }

  lemma {:induction false} NoCover(ws: seq<Write>, k: int)
    requires forall j :: 0 <= j < |ws| ==> !Covers(ws[j], k)
    ensures LastCover(ws, k) == None
  {
    if |ws| != 0 {
      assert forall j :: 0 <= j < |ws| - 1 ==> ws[1..][j] == ws[j + 1];
      NoCover(ws[1..], k);
    }
  }

  /** Whether a write fits depends only on the image length, which patching keeps. */
  lemma {:induction false} CompletesOnSameLength(a: seq<byte>, b: seq<byte>, ws: seq<Write>)
    requires |a| == |b|
    ensures ApplyWrites(a, ws).1 == ApplyWrites(b, ws).1
    decreases |ws|
  {
    if |ws| != 0 && Fits(a, ws[0]) {
      CompletesOnSameLength(WriteAt(a, ws[0]), WriteAt(b, ws[0]), ws[1..]);
    }
  }

  /** Patching an already patched image changes nothing more. */
  lemma PatchIdempotent(img: seq<byte>, ws: seq<Write>)
    requires ApplyWrites(img, ws).1
    ensures ApplyWrites(ApplyWrites(img, ws).0, ws) == ApplyWrites(img, ws)
  {
    var once := ApplyWrites(img, ws).0;
    CompletesOnSameLength(img, once, ws);
    var twice := ApplyWrites(once, ws).0;
    forall k | 0 <= k < |img|
      ensures twice[k] == once[k]
    {
      LastWriteWins(img, ws, k);
      LastWriteWins(once, ws, k);
    }
    assert twice == once;
  }

  /** dotNetSafeWriteOffset on the image bytes. */
  method WriteOffset(image: array<byte>, w: Write)
    requires Fits(image[..], w)
    modifies image
    ensures image[..] == WriteAt(old(image[..]), w)
  {
    forall k | w.offset <= k < w.offset + |w.bytes| {
      image[k] := w.bytes[k - w.offset];
    }
  }

  lemma ApplyStep(img: seq<byte>, w: Write, rest: seq<Write>)
    ensures ApplyWrites(img, [w] + rest) ==
      if !Fits(img, w) then (img, false) else ApplyWrites(WriteAt(img, w), rest)
  {
    assert ([w] + rest)[1..] == rest;
  }

  class MemoryPatcher {
    var patchInfos: seq<PatchInfo>

    predicate Valid()
      reads this
    {
      AllParallel(patchInfos)
    }

    constructor ()
      ensures patchInfos == [] && Valid()
    {
      patchInfos := [];
    }

    /** findPatchData: each candidate method's arrays, in method order; the patch infos they
        yield are appended. */
    method FindPatchData(candidates: seq<seq<NewArr>>, aes: Cipher)
      requires Valid()
      modifies this
      ensures Valid()
      ensures patchInfos == old(patchInfos) + Found(candidates, aes)
    {
      var i := 0;
      while i < |candidates|
        invariant 0 <= i <= |candidates|
        invariant Valid()
        invariant patchInfos == old(patchInfos) + Found(candidates[..i], aes)
      {
        FoundAppend(candidates[..i], candidates[i], aes);
        assert candidates[..i + 1] == candidates[..i] + [candidates[i]];
        AddPatchInfo(candidates[i], aes);
        i := i + 1;
      }
      assert candidates[..i] == candidates;
    }

    /** One candidate method: its patch info, if it yields one, is appended. */
    method AddPatchInfo(allocs: seq<NewArr>, aes: Cipher)
      requires Valid()
      modifies this
      ensures Valid()
      ensures patchInfos == old(patchInfos) + OptionList(PatchInfoOf(allocs, aes))
    {
      var info := GetPatchInfo(allocs, aes);
      if info.Some? {
        patchInfos := patchInfos + [info.value];
      }
    }

    /** patch: every write of every patch info in order; the first one outside the image aborts
        with an error. */
    method Patch(image: array<byte>) returns (r: Result<()>)
      requires Valid()
      modifies image
      ensures r.Ok? == ApplyWrites(old(image[..]), AllWrites(patchInfos)).1
      ensures image[..] == ApplyWrites(old(image[..]), AllWrites(patchInfos)).0
    {
      ghost var goal := ApplyWrites(image[..], AllWrites(patchInfos));
      var j := 0;
      while j < |patchInfos|
        invariant 0 <= j <= |patchInfos|
        invariant goal == ApplyWrites(image[..], AllWrites(patchInfos[j..]))
      {
        assert patchInfos[j..][1..] == patchInfos[j + 1..];
        var ok := WriteInfo(image, patchInfos[j], AllWrites(patchInfos[j + 1..]));
        if !ok {
          return Fail(IndexOutOfRange);
        }
        j := j + 1;
      }
      assert patchInfos[j..] == [];
      r := Ok(());
    }

    /** The writes of one patch info, in order, stopping at the first that does not fit; `rest`
        stands for the writes that would follow. */
    static method WriteInfo(image: array<byte>, info: PatchInfo, ghost rest: seq<Write>) returns (ok: bool)
      requires Parallel(info)
      modifies image
      ensures ok ==> ApplyWrites(old(image[..]), InfoWrites(info) + rest) == ApplyWrites(image[..], rest)
      ensures !ok ==> ApplyWrites(old(image[..]), InfoWrites(info) + rest) == (image[..], false)
    {
      ghost var goal := ApplyWrites(image[..], InfoWrites(info) + rest);
      ghost var ws := InfoWrites(info);
      assert ws[0..] == ws;
      var i := 0;
      while i < |info.offsets|
        invariant 0 <= i <= |info.offsets|
        invariant goal == ApplyWrites(image[..], ws[i..] + rest)
      {
        var w := Write(info.offsets[i] % 0x1_0000_0000, Int32Le(info.values[i]));
        assert ws[i] == w;
        assert ws[i..] + rest == [w] + (ws[i + 1..] + rest);
        ApplyStep(image[..], w, ws[i + 1..] + rest);
        if !(0 <= w.offset && w.offset + |w.bytes| <= image.Length) {
          return false;
        }
        WriteOffset(image, w);
        i := i + 1;
      }
      assert ws[i..] + rest == rest;
      ok := true;
    }
  }

  /** The patch infos found in the candidate methods, skipping those that yield none. */
  function Found(candidates: seq<seq<NewArr>>, aes: Cipher): (r: seq<PatchInfo>)
    ensures AllParallel(r)
  {
    if |candidates| == 0 then []
    else
      var rest := Found(candidates[..|candidates| - 1], aes);
      match PatchInfoOf(candidates[|candidates| - 1], aes)
      case None => rest
      case Some(info) => PatchInfoOfSpec(candidates[|candidates| - 1], aes); rest + [info]
  }

  lemma FoundAppend(done: seq<seq<NewArr>>, c: seq<NewArr>, aes: Cipher)
    ensures Found(done + [c], aes) == Found(done, aes) + OptionList(PatchInfoOf(c, aes))
  {
    assert (done + [c])[..|done|] == done;
    assert Found(done, aes) + [] == Found(done, aes);
  }

  /** The value of an option as a list of at most one element. */
  function OptionList<T>(o: Option<T>): (r: seq<T>)
    ensures |r| <= 1
  {
    if o.Some? then [o.value] else []
  }
}
