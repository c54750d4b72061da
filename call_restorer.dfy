/** de4dot's MethodCallRestorerBase: obfuscators route framework calls through proxy methods of
    their own; the restorer records which proxy (a MethodDef of the module) stands for which
    framework method, and rewrites every `call` of a proxy into a direct call of the original. */
module CallRestorer {
  import opened Wrappers
  import opened Dictionary
  import opened Cil

  /** The replacement of a proxy: the opcode and the method the new instruction uses. */
  datatype NewMethodInfo = NewMethodInfo(opCode: OpCode, target: MethodRef)

  type MethodMap = Dict<MethodRef, NewMethodInfo>

  /** The member references the `create*` helpers build, named by their full names. */
  const GET_MANIFEST_RESOURCE_STREAM_1: MethodRef :=
    MethodRef("System.IO.Stream System.Reflection.Assembly::GetManifestResourceStream(System.String)", false, 0)
  const GET_MANIFEST_RESOURCE_STREAM_2: MethodRef :=
    MethodRef("System.IO.Stream System.Reflection.Assembly::GetManifestResourceStream(System.Type,System.String)", false, 0)
  const GET_MANIFEST_RESOURCE_NAMES: MethodRef :=
    MethodRef("System.String[] System.Reflection.Assembly::GetManifestResourceNames()", false, 0)
  const BITMAP_CTOR: MethodRef :=
    MethodRef("System.Void System.Drawing.Bitmap::.ctor(System.Type,System.String)", false, 0)
  const ICON_CTOR: MethodRef :=
    MethodRef("System.Void System.Drawing.Icon::.ctor(System.Type,System.String)", false, 0)

  /** Whether `deobfuscate` replaces the instruction: a `call` whose operand is a MethodDef
      with an entry in the map. */
  predicate IsRestorable(ins: Instr, d: MethodMap)
  {
    ins.opcode == Call && ins.operand.MethodOperand? && ins.operand.target.isMethodDef
    && Lookup(d, ins.operand.target).Some?
  }

  /** One instruction after the rewrite. */
  function RestoreOne(ins: Instr, d: MethodMap): Instr
  {
    if IsRestorable(ins, d) then
      var info := Lookup(d, ins.operand.target).value;
      Instr(info.opCode, MethodOperand(info.target))
    else ins
  }

  /** A block's instructions after the rewrite. */
  function Restored(instrs: seq<Instr>, d: MethodMap): (r: seq<Instr>)
    ensures |r| == |instrs|
  {
    seq(|instrs|, i requires 0 <= i < |instrs| => RestoreOne(instrs[i], d))
  }

  /** The rewrite keeps the instruction count, replaces exactly the restorable calls by the
      stored opcode and method, and leaves every other instruction as it was. */
  lemma RestoredSpec(instrs: seq<Instr>, d: MethodMap)
    ensures |Restored(instrs, d)| == |instrs|
    ensures forall i :: 0 <= i < |instrs| && IsRestorable(instrs[i], d) ==>
      Restored(instrs, d)[i] == Instr(Lookup(d, instrs[i].operand.target).value.opCode,
                                      MethodOperand(Lookup(d, instrs[i].operand.target).value.target))
    ensures forall i :: 0 <= i < |instrs| && !IsRestorable(instrs[i], d) ==> Restored(instrs, d)[i] == instrs[i]
  {
  }

  /** With no recorded proxies the rewrite changes nothing. */
  lemma RestoredEmpty(instrs: seq<Instr>)
    ensures Restored(instrs, []) == instrs
  {
    assert forall i :: 0 <= i < |instrs| ==> !IsRestorable(instrs[i], []);
  }

  /** A proxy recorded with `add` is rewritten to the method and opcode it was added with, and
      every other call keeps the replacement it had before. */
  lemma AddThenRestore(d: MethodMap, proxy: MethodRef, info: NewMethodInfo, ins: Instr)
    requires proxy.isMethodDef
    ensures ins == Instr(Call, MethodOperand(proxy)) ==> RestoreOne(ins, Put(d, proxy, info)) == Instr(info.opCode, MethodOperand(info.target))
    ensures !(ins.operand.MethodOperand? && ins.operand.target == proxy) ==> RestoreOne(ins, Put(d, proxy, info)) == RestoreOne(ins, d)
  {
    if ins.operand.MethodOperand? {
      PutLookup(d, proxy, info, ins.operand.target);
    }
  }

  /** The inner loop of `deobfuscate` over one block's instruction list. */
  method RestoreBlock(instrs: array<Instr>, d: MethodMap)
    modifies instrs
    ensures instrs[..] == Restored(old(instrs[..]), d)
  {
    var i := 0;
    while i < instrs.Length
      invariant 0 <= i <= instrs.Length
      invariant forall k :: 0 <= k < i ==> instrs[k] == RestoreOne(old(instrs[k]), d)
      invariant forall k :: i <= k < instrs.Length ==> instrs[k] == old(instrs[k])
    {
      var call := instrs[i];
      if call.opcode == Call && call.operand.MethodOperand? && call.operand.target.isMethodDef {
        var newMethodInfo := Lookup(d, call.operand.target);
        if newMethodInfo.Some? {
          instrs[i] := Instr(newMethodInfo.value.opCode, MethodOperand(newMethodInfo.value.target));
        }
      }
      i := i + 1;
    }
  }

  predicate DistinctBlocks(blocks: seq<array<Instr>>)
  {
    forall i, j :: 0 <= i < j < |blocks| ==> blocks[i] != blocks[j]
  }

  class MethodCallRestorerBase {
    var oldToNewMethod: MethodMap

    constructor()
      ensures oldToNewMethod == []
    {
      oldToNewMethod := [];
    }

    /** add(oldMethod, newMethod, opCode): a null proxy is ignored; otherwise the entry is
        stored (replacing an earlier one for the same proxy). */
    method Add(oldMethod: Option<MethodRef>, newMethod: MethodRef, opCode: OpCode)
      requires oldMethod.Some? ==> oldMethod.value.isMethodDef
      modifies this
      ensures oldMethod.None? ==> oldToNewMethod == old(oldToNewMethod)
      ensures oldMethod.Some? ==> oldToNewMethod == Put(old(oldToNewMethod), oldMethod.value, NewMethodInfo(opCode, newMethod))
    {
      if oldMethod.None? {
        return;
      }
      oldToNewMethod := Put(oldToNewMethod, oldMethod.value, NewMethodInfo(opCode, newMethod));
    }

    /** add(oldMethod, newMethod): the replacement is a `callvirt`. */
    method AddCallvirt(oldMethod: Option<MethodRef>, newMethod: MethodRef)
      requires oldMethod.Some? ==> oldMethod.value.isMethodDef
      modifies this
      ensures oldMethod.None? ==> oldToNewMethod == old(oldToNewMethod)
      ensures oldMethod.Some? ==> oldToNewMethod == Put(old(oldToNewMethod), oldMethod.value, NewMethodInfo(Callvirt, newMethod))
    {
      Add(oldMethod, newMethod, Callvirt);
    }

    method CreateGetManifestResourceStream1(oldMethod: Option<MethodRef>)
      requires oldMethod.Some? ==> oldMethod.value.isMethodDef
      modifies this
      ensures oldMethod.None? ==> oldToNewMethod == old(oldToNewMethod)
      ensures oldMethod.Some? ==> oldToNewMethod == Put(old(oldToNewMethod), oldMethod.value, NewMethodInfo(Callvirt, GET_MANIFEST_RESOURCE_STREAM_1))
    {
      if oldMethod.None? {
        return;
      }
      Add(oldMethod, GET_MANIFEST_RESOURCE_STREAM_1, Callvirt);
    }

    method CreateGetManifestResourceStream2(oldMethod: Option<MethodRef>)
      requires oldMethod.Some? ==> oldMethod.value.isMethodDef
      modifies this
      ensures oldMethod.None? ==> oldToNewMethod == old(oldToNewMethod)
      ensures oldMethod.Some? ==> oldToNewMethod == Put(old(oldToNewMethod), oldMethod.value, NewMethodInfo(Callvirt, GET_MANIFEST_RESOURCE_STREAM_2))
    {
      if oldMethod.None? {
        return;
      }
      Add(oldMethod, GET_MANIFEST_RESOURCE_STREAM_2, Callvirt);
    }

    method CreateGetManifestResourceNames(oldMethod: Option<MethodRef>)
      requires oldMethod.Some? ==> oldMethod.value.isMethodDef
      modifies this
      ensures oldMethod.None? ==> oldToNewMethod == old(oldToNewMethod)
      ensures oldMethod.Some? ==> oldToNewMethod == Put(old(oldToNewMethod), oldMethod.value, NewMethodInfo(Callvirt, GET_MANIFEST_RESOURCE_NAMES))
    {
      if oldMethod.None? {
        return;
      }
      Add(oldMethod, GET_MANIFEST_RESOURCE_NAMES, Callvirt);
    }

    method CreateBitmapCtor(oldMethod: Option<MethodRef>)
      requires oldMethod.Some? ==> oldMethod.value.isMethodDef
      modifies this
      ensures oldMethod.None? ==> oldToNewMethod == old(oldToNewMethod)
      ensures oldMethod.Some? ==> oldToNewMethod == Put(old(oldToNewMethod), oldMethod.value, NewMethodInfo(Newobj, BITMAP_CTOR))
    {
      if oldMethod.None? {
        return;
      }
      Add(oldMethod, BITMAP_CTOR, Newobj);
    }

    method CreateIconCtor(oldMethod: Option<MethodRef>)
      requires oldMethod.Some? ==> oldMethod.value.isMethodDef
      modifies this
      ensures oldMethod.None? ==> oldToNewMethod == old(oldToNewMethod)
      ensures oldMethod.Some? ==> oldToNewMethod == Put(old(oldToNewMethod), oldMethod.value, NewMethodInfo(Newobj, ICON_CTOR))
    {
      if oldMethod.None? {
        return;
      }
      Add(oldMethod, ICON_CTOR, Newobj);
    }

    /** deobfuscate: nothing to do with an empty map; otherwise every block of the method is
        rewritten in place. */
    method Deobfuscate(blocks: seq<array<Instr>>)
      requires DistinctBlocks(blocks)
      modifies set b | b in blocks
      ensures forall k :: 0 <= k < |blocks| ==> blocks[k][..] == Restored(old(blocks[k][..]), oldToNewMethod)
    {
      if |oldToNewMethod| == 0 {
        forall k | 0 <= k < |blocks| ensures blocks[k][..] == Restored(blocks[k][..], oldToNewMethod) {
          RestoredEmpty(blocks[k][..]);
        }
        return;
      }
      var b := 0;
      while b < |blocks|
        invariant 0 <= b <= |blocks|
        invariant forall k :: 0 <= k < b ==> blocks[k][..] == Restored(old(blocks[k][..]), oldToNewMethod)
        invariant forall k :: b <= k < |blocks| ==> blocks[k][..] == old(blocks[k][..])
      {
        RestoreBlock(blocks[b], oldToNewMethod);
        b := b + 1;
      }
    }
  }
}
