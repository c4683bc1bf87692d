/**
 * Near calls as the Intel 64 and IA-32 Architectures Software Developer's Manual, Volume 2A, defines them: section
 * 2.1.5 (ModR/M and SIB), section 2.2.1.2 (REX fields), section 2.2.1.6 (RIP-relative addressing) and the CALL page
 * (E8 cd, FF /2). Everything is read off the instruction's bytes in memory order.
 */
module Sdm {
  import opened Words

  /** The general registers in the order of their 4-bit numbers. */
  function RegisterFile(regs: Regs): seq<Word> {
    [regs.rax, regs.rcx, regs.rdx, regs.rbx, regs.rsp, regs.rbp, regs.rsi, regs.rdi,
     regs.r8, regs.r9, regs.r10, regs.r11, regs.r12, regs.r13, regs.r14, regs.r15]
  }

  function Register(regs: Regs, n: nat): Word
    requires n < 16
  {
    RegisterFile(regs)[n]
  }

  /** Addresses are computed modulo 2^64. */
  function Address(x: int): Word { x % 0x1_0000_0000_0000_0000 }

  /** Two's complement: the top bit counts for -2^7 in a byte, and for -2^31 in four bytes. */
  function Signed8(b: Byte): int { b % 0x80 - 0x80 * (b / 0x80) }

  function Signed32(d: nat): int { d % 0x8000_0000 - 0x8000_0000 * (d / 0x8000_0000) }

  /** Where a call goes: to a value at hand, or to what memory holds at an address. */
  datatype Operand = Value(v: Word) | At(addr: Word)

  function Resolve(op: Operand, memory: Memory): Word {
    match op
    case Value(v) => v
    case At(addr) => memory(addr)
  }

  function Mod(m: Byte): nat { m / 0x40 }
  function RegField(m: Byte): nat { m / 8 % 8 }
  function Rm(m: Byte): nat { m % 8 }

  /** REX.B, for the one prefix considered: 41, that is REX with only B set. */
  function RexB(w: Word): nat {
    if ByteAt(w, 0) == 0x41 then 1 else 0
  }

  function ModRM(w: Word): Byte { ByteAt(w, 1 + RexB(w)) }

  predicate IsRelativeCall(w: Word) { ByteAt(w, 0) == 0xE8 }

  predicate IsIndirectCall(w: Word) { ByteAt(w, RexB(w)) == 0xFF && RegField(ModRM(w)) == 2 }

  predicate HasSib(m: Byte) { Mod(m) != 3 && Rm(m) == 4 }

  function SibByte(w: Word): Byte { ByteAt(w, 2 + RexB(w)) }

  /** No base register: mod 00 with base 5 stands for a bare 32-bit displacement. */
  predicate NoBase(w: Word) { HasSib(ModRM(w)) && Mod(ModRM(w)) == 0 && SibByte(w) % 8 == 5 }

  predicate RipRelative(m: Byte) { Mod(m) == 0 && Rm(m) == 5 }

  function DispSize(w: Word): nat {
    var m := ModRM(w);
    if Mod(m) == 1 then 1
    else if Mod(m) == 2 || RipRelative(m) || NoBase(w) then 4
    else 0
  }

  function DispStart(w: Word): nat { 2 + RexB(w) + (if HasSib(ModRM(w)) then 1 else 0) }

  /** The length of an indirect call: prefix, opcode, ModR/M, SIB and displacement. */
  function Length(w: Word): nat { DispStart(w) + DispSize(w) }

  function Displacement(w: Word): int {
    if DispSize(w) == 1 then Signed8(ByteAt(w, DispStart(w)))
    else if DispSize(w) == 4 then Signed32(Dword(w, DispStart(w)))
    else 0
  }

  function IndexValue(s: Byte, regs: Regs): Word {
    if s / 8 % 8 == 4 then 0 else Register(regs, s / 8 % 8)
  }

  /** The index shifted left by the scale bits. */
  function Scaled(v: Word, bits: nat): nat {
    if bits == 0 then v else 2 * Scaled(v, bits - 1)
  }

  function BaseValue(w: Word, regs: Regs): Word {
    if NoBase(w) then 0 else Register(regs, 8 * RexB(w) + SibByte(w) % 8)
  }

  function EffectiveAddress(w: Word, regs: Regs): Word {
    var m := ModRM(w);
    if HasSib(m) then
      var s := SibByte(w);
      Address(BaseValue(w, regs) + Scaled(IndexValue(s, regs), s / 0x40) + Displacement(w))
    else if RipRelative(m) then
      Address(regs.rip + Length(w) + Displacement(w))
    else
      Address(Register(regs, 8 * RexB(w) + Rm(m)) + Displacement(w))
  }

  function IndirectOperand(w: Word, regs: Regs): Operand {
    var m := ModRM(w);
    if Mod(m) == 3 then Value(Register(regs, 8 * RexB(w) + Rm(m)))
    else At(EffectiveAddress(w, regs))
  }

  function RelativeTarget(w: Word, regs: Regs): Word {
    Address(regs.rip + 5 + Signed32(Dword(w, 1)))
  }
}
