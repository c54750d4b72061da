/** The slice of dnlib's CIL instruction model the deobfuscators inspect: an opcode, an operand,
    and the `IsLdcI4` / `GetLdcI4Value` helpers of dnlib's Instruction class. */
module Cil {

  /** The opcodes the modelled rules test for; every other opcode is `OtherOp`. */
  datatype OpCode =
    | Ldc_I4 | Ldc_I4_S | Ldc_I4_M1
    | Ldc_I4_0 | Ldc_I4_1 | Ldc_I4_2 | Ldc_I4_3 | Ldc_I4_4 | Ldc_I4_5 | Ldc_I4_6 | Ldc_I4_7 | Ldc_I4_8
    | Ldind_I8 | Ldarg_1 | Add | Xor | Call | Callvirt | Newobj | Newarr
    | OtherOp(code: nat)

  /** A method operand: its full name (as dnlib's FullName prints it) and whether it is a
      definition in the module being deobfuscated (a MethodDef) rather than a reference. */
  datatype MethodRef = MethodRef(fullName: string, isMethodDef: bool, rid: nat)

  /** An instruction operand. `IntOperand` holds the operand of ldc.i4 / ldc.i4.s
      (already sign-extended from sbyte for ldc.i4.s). */
  datatype Operand = NoOperand | IntOperand(value: int) | MethodOperand(target: MethodRef) | OtherOperand

  datatype Instr = Instr(opcode: OpCode, operand: Operand)

  /** Instruction.IsLdcI4(): one of the ldc.i4 family. */
  predicate IsLdcI4(i: Instr)
  {
    i.opcode in {Ldc_I4, Ldc_I4_S, Ldc_I4_M1, Ldc_I4_0, Ldc_I4_1, Ldc_I4_2, Ldc_I4_3, Ldc_I4_4,
                 Ldc_I4_5, Ldc_I4_6, Ldc_I4_7, Ldc_I4_8}
  }

  /** Instruction.GetLdcI4Value(): the constant an ldc.i4 pushes. dnlib throws for other opcodes,
      which is why callers test `IsLdcI4` first. A malformed operand is read as 0. */
  function LdcI4Value(i: Instr): int
    requires IsLdcI4(i)
  {
    match i.opcode
    case Ldc_I4_M1 => -1
    case Ldc_I4_0 => 0
    case Ldc_I4_1 => 1
    case Ldc_I4_2 => 2
    case Ldc_I4_3 => 3
    case Ldc_I4_4 => 4
    case Ldc_I4_5 => 5
    case Ldc_I4_6 => 6
    case Ldc_I4_7 => 7
    case Ldc_I4_8 => 8
    case Ldc_I4 => IntOf(i.operand)
    case Ldc_I4_S => IntOf(i.operand)
    case _ => 0
  }

  function IntOf(o: Operand): int
  {
    match o
    case IntOperand(v) => v
    case _ => 0
  }

  /** Is `i` a call of the given opcode to a method with the given full name? */
  predicate IsCallTo(i: Instr, op: OpCode, fullName: string)
  {
    i.opcode == op && i.operand.MethodOperand? && i.operand.target.fullName == fullName
  }
}
