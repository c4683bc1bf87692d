/**
 * Where every form of call goes, said of the word and the fields of the register file alone: no table, no getter and
 * no field function stands between the statement and the machine.
 */
module CallTargets {
  import opened Wrappers
  import opened Words
  import opened CallTables
  import opened Sdm
  import opened CallDecoder
  import opened DecoderProofs

  /** The word starts with FF and the ModR/M byte m, behind a prefix 41 if rex is 1. */
  predicate Encodes(w: Word, rex: nat, m: Byte) {
    (rex == 0 && w % 0x1_0000 == 0xFF + 0x100 * m) || (rex == 1 && w % 0x100_0000 == 0xFF41 + 0x1_0000 * m)
  }

  /** What follows the ModR/M byte. */
  function Behind(w: Word, rex: nat): nat {
    if rex == 0 then w / 0x1_0000 else w / 0x100_0000
  }

  /** disp is the signed number that the lowest eight bits of rest stand for. */
  predicate IsDisp8(disp: int, rest: nat) {
    -0x80 <= disp < 0x80 && (rest - disp) % 0x100 == 0
  }

  /** disp is the signed number that the lowest 32 bits of rest stand for. */
  predicate IsDisp32(disp: int, rest: nat) {
    -0x8000_0000 <= disp < 0x8000_0000 && (rest - disp) % 0x1_0000_0000 == 0
  }

  /** The displacement a mod of 0, 1 or 2 calls for. */
  predicate IsDisp(mod: nat, disp: int, rest: nat) {
    match mod
    case 0 => disp == 0
    case 1 => IsDisp8(disp, rest)
    case _ => IsDisp32(disp, rest)
  }

  lemma Disp8(rest: nat)
    ensures IsDisp8(SignExtend8(rest % TWO8), rest)
  {
    var q := rest / TWO8;
    assert rest == TWO8 * q + rest % TWO8;
    assert (rest - SignExtend8(rest % TWO8)) / TWO8 * TWO8 == rest - SignExtend8(rest % TWO8) by {
      assert rest - SignExtend8(rest % TWO8) == TWO8 * if rest % TWO8 < 0x80 then q else q + 1;
    }
  }

  lemma Disp32(rest: nat)
    ensures IsDisp32(SignExtend32(rest % TWO32), rest)
  {
    var q := rest / TWO32;
    assert rest == TWO32 * q + rest % TWO32;
    assert rest - SignExtend32(rest % TWO32) == TWO32 * if rest % TWO32 < 0x8000_0000 then q else q + 1;
  }

  // ----- relative calls

  /** E8: four signed bytes counted from the next instruction. */
  lemma RelativeCall(w: Word, regs: Regs) returns (disp: int)
    requires w % 0x100 == 0xE8
    ensures IsRelativeCall(w) && IsDisp32(disp, w / 0x100)
    ensures RelativeTarget(w, regs) == (regs.rip + 5 + disp) % 0x1_0000_0000_0000_0000
  {
    disp := SignExtend32(w / TWO8 % TWO32);
    Disp32(w / TWO8);
    LowDword(w / TWO8);
    DwordShift(w, 0);
    SignedDword(Dword(w, 1));
  }

  // ----- indirect calls

  /** An encoded word is an indirect call, with these fields. */
  lemma EncodedFields(w: Word, rex: nat, mod: nat, rm: nat)
    requires rex < 2 && mod < 4 && rm < 8 && Encodes(w, rex, 0x40 * mod + 0x10 + rm)
    ensures IsIndirectCall(w) && RexB(w) == rex && ModRM(w) == 0x40 * mod + 0x10 + rm
    ensures AfterOpcode(w) % TWO8 == 0x40 * mod + 0x10 + rm && AfterOpcode(w) / TWO8 == Behind(w, rex)
  {
    var m := 0x40 * mod + 0x10 + rm;
    RowByte(mod, rm);
    EncodedBytes(w, rex, m);
    Opcodes(w);
  }

  /** FF D0+n, or 41 FF D0+n: the register with that number, in the processor's order. */
  lemma RegisterCall(w: Word, rex: nat, rm: nat, regs: Regs)
    requires rex < 2 && rm < 8 && Encodes(w, rex, 0xD0 + rm)
    ensures IsIndirectCall(w)
    ensures var file := [regs.rax, regs.rcx, regs.rdx, regs.rbx, regs.rsp, regs.rbp, regs.rsi, regs.rdi,
                         regs.r8, regs.r9, regs.r10, regs.r11, regs.r12, regs.r13, regs.r14, regs.r15];
            Decoded(w, regs) == Value(file[8 * rex + rm])
  {
    EncodedFields(w, rex, 3, rm);
    RowByte(3, rm);
    GetterReads(regs, 8 * rex + rm);
  }

  /** Through memory without a SIB byte: register plus displacement. `[r15]` alone reads r14. */
  lemma MemoryCall(w: Word, rex: nat, mod: nat, rm: nat, regs: Regs) returns (disp: int)
    requires rex < 2 && mod < 3 && rm < 8 && rm != 4 && !(mod == 0 && rm == 5)
    requires Encodes(w, rex, 0x40 * mod + 0x10 + rm)
    ensures IsIndirectCall(w) && IsDisp(mod, disp, Behind(w, rex))
    ensures var base := if rex == 1 && mod == 0 && rm == 7 then regs.r14 else Register(regs, 8 * rex + rm);
            Decoded(w, regs) == At((base + disp) % 0x1_0000_0000_0000_0000)
  {
    EncodedFields(w, rex, mod, rm);
    PlainOperand(AfterOpcode(w), rex, mod, rm, regs);
    disp := PlainDispIn(AfterOpcode(w), mod, rm);
  }

  lemma PlainOperand(instr: Word, rex: nat, mod: nat, rm: nat, regs: Regs)
    requires rex < 2 && mod < 3 && rm < 8 && rm != 4 && !(mod == 0 && rm == 5)
    requires instr % TWO8 == 0x40 * mod + 0x10 + rm
    ensures var base := if rex == 1 && mod == 0 && rm == 7 then regs.r14 else Register(regs, 8 * rex + rm);
            CodeOperand(instr, rex, regs) == At(Wrap(base + PlainDisp(instr)))
  {
    RowByte(mod, rm);
    PlainReg(rex, mod, rm, regs);
    PlainRow(instr, rex, mod, rm, regs);
    NotFromRip(instr, rex, regs.Get(CallReg(rex, mod, rm).value));
  }

  lemma PlainReg(rex: nat, mod: nat, rm: nat, regs: Regs)
    requires rex < 2 && mod < 3 && rm < 8 && rm != 4 && !(mod == 0 && rm == 5)
    ensures var reg := CallReg(rex, mod, rm);
            && reg.Some?
            && regs.Get(reg.value) == if rex == 1 && mod == 0 && rm == 7 then regs.r14 else Register(regs, 8 * rex + rm)
  {
    GetterReads(regs, 8 * rex + rm);
  }

  lemma PlainRow(instr: Word, rex: nat, mod: nat, rm: nat, regs: Regs)
    requires rex < 2 && mod < 3 && rm < 8 && rm != 4 && !(mod == 0 && rm == 5)
    requires instr % TWO8 == 0x40 * mod + 0x10 + rm && Mod(instr % TWO8) == mod && Rm(instr % TWO8) == rm
    requires CallReg(rex, mod, rm).Some?
    ensures CodeOperand(instr, rex, regs) == At(PlainAddress(instr, rex, regs.Get(CallReg(rex, mod, rm).value)))
  {
  }

  lemma NotFromRip(instr: Word, rex: nat, base: Word)
    requires rex < 2 && instr % TWO8 != 0x15
    ensures PlainAddress(instr, rex, base) == Wrap(base + PlainDisp(instr))
  {
  }

  /** Relative to the next instruction, which starts after the displacement. */
  lemma RipCall(w: Word, rex: nat, regs: Regs) returns (disp: int)
    requires rex < 2 && Encodes(w, rex, 0x15)
    ensures IsIndirectCall(w) && IsDisp32(disp, Behind(w, rex))
    ensures Decoded(w, regs) == At((regs.rip + 6 + rex + disp) % 0x1_0000_0000_0000_0000)
  {
    EncodedFields(w, rex, 0, 5);
    disp := PlainDispIn(AfterOpcode(w), 0, 5);
    RipOperand(AfterOpcode(w), rex, disp, regs);
  }

  lemma RipOperand(instr: Word, rex: nat, disp: int, regs: Regs)
    requires rex < 2 && instr % TWO8 == 0x15 && disp == PlainDisp(instr)
    ensures CodeOperand(instr, rex, regs) == At((regs.rip + 6 + rex + disp) % 0x1_0000_0000_0000_0000)
  {
    RowByte(0, 5);
    PlainAt(instr, rex, regs.rip, disp);
  }

  lemma PlainDispIn(instr: Word, mod: nat, rm: nat) returns (disp: int)
    requires mod < 3 && rm < 8 && rm != 4 && instr % TWO8 == 0x40 * mod + 0x10 + rm
    ensures disp == PlainDisp(instr)
    ensures if mod == 0 && rm == 5 then IsDisp32(disp, instr / TWO8) else IsDisp(mod, disp, instr / TWO8)
  {
    disp := PlainDisp(instr);
    Disp8(instr / TWO8);
    Disp32(instr / TWO8);
  }

  /** The registers of a SIB byte: the base, with its departures, and the index times 1, 2, 4 or 8; 4 is no index. */
  function BasePlusIndex(rex: nat, scale: nat, index: nat, base: nat, regs: Regs): nat
    requires rex < 2 && scale < 4 && index < 8 && base < 8
  {
    var b := if base == 5 then 0 else if rex == 0 && base == 3 then regs.rcx else Register(regs, 8 * rex + base);
    var i := if index == 4 then 0 else Register(regs, index);
    b + if scale == 0 then i else if scale == 1 then 2 * i else if scale == 2 then 4 * i else 8 * i
  }

  /**
   * Through memory with a SIB byte: base, index shifted by the scale bits, and displacement. Number 4 is no index.
   * What departs from the manual: base 3 without prefix reads rcx, and base 5 reads nothing, in mode 0 not even the
   * displacement.
   */
  lemma SibCall(w: Word, rex: nat, mod: nat, scale: nat, index: nat, base: nat, regs: Regs) returns (disp: int)
    requires rex < 2 && mod < 3 && scale < 4 && index < 8 && base < 8
    requires Encodes(w, rex, 0x40 * mod + 0x14) && Behind(w, rex) % 0x100 == 0x40 * scale + 8 * index + base
    ensures IsIndirectCall(w) && IsDisp(mod, disp, Behind(w, rex) / 0x100)
    ensures Decoded(w, regs) == At((BasePlusIndex(rex, scale, index, base, regs) + disp) % 0x1_0000_0000_0000_0000)
  {
    SibShape(w, rex, mod);
    disp := SibDispIn(AfterOpcode(w), mod);
    SibTargetAt(AfterOpcode(w), rex, mod, scale, index, base, disp, regs);
  }

  lemma SibTargetAt(instr: Word, rex: nat, mod: nat, scale: nat, index: nat, base: nat, disp: int, regs: Regs)
    requires rex < 2 && mod < 3 && scale < 4 && index < 8 && base < 8
    requires instr % TWO8 == 0x40 * mod + 0x14 && instr / TWO8 % TWO8 == 0x40 * scale + 8 * index + base
    requires if HasSibDisp(instr) then disp == SibDisp(instr) else disp == 0
    ensures CodeOperand(instr, rex, regs)
            == At((BasePlusIndex(rex, scale, index, base, regs) + disp) % 0x1_0000_0000_0000_0000)
  {
    SibFields(scale, index, base);
    SibTarget(instr, rex, mod, disp, regs);
  }

  lemma SibShape(w: Word, rex: nat, mod: nat)
    requires rex < 2 && mod < 3 && Encodes(w, rex, 0x40 * mod + 0x14)
    ensures IsIndirectCall(w) && RexB(w) == rex
    ensures var instr := AfterOpcode(w);
            && instr % TWO8 == 0x40 * mod + 0x14
            && instr / TWO8 % TWO8 == Behind(w, rex) % 0x100
            && instr / TWO16 == Behind(w, rex) / 0x100
  {
    EncodedFields(w, rex, mod, 4);
    LowWord(AfterOpcode(w));
  }

  lemma SibTarget(instr: Word, rex: nat, mod: nat, disp: int, regs: Regs)
    requires rex < 2 && mod < 3 && instr % TWO8 == 0x40 * mod + 0x14
    requires if HasSibDisp(instr) then disp == SibDisp(instr) else disp == 0
    ensures var sib := instr / TWO8 % TWO8;
            CodeOperand(instr, rex, regs) ==
            At((BasePlusIndex(rex, sib / 0x40, sib / 8 % 8, sib % 8, regs) + disp) % 0x1_0000_0000_0000_0000)
  {
    var sib := instr / TWO8 % TWO8;
    SibOperand(instr, rex, mod, regs);
    SibSummed(instr, sib, rex, disp, regs);
    SibParts(sib, rex, regs);
  }

  lemma SibOperand(instr: Word, rex: nat, mod: nat, regs: Regs)
    requires rex < 2 && mod < 3 && instr % TWO8 == 0x40 * mod + 0x14
    ensures CodeOperand(instr, rex, regs) == At(SibDisplaced(instr, SibTotal(instr / TWO8 % TWO8, rex, regs)))
  {
    RowByte(mod, 4);
  }

  /** The two registers of a SIB byte, by field. */
  lemma SibParts(sib: Byte, rex: nat, regs: Regs)
    requires rex < 2
    ensures ValueOf(BaseRow(rex, sib % 8).reg, regs) + Scaled(IndexValue(sib, regs), sib / 0x40)
            == BasePlusIndex(rex, sib / 0x40, sib / 8 % 8, sib % 8, regs)
  {
    BaseColumn(rex, sib % 8, regs);
    ScaledBy(IndexValue(sib, regs), sib / 0x40);
  }

  lemma SibFields(scale: nat, index: nat, base: nat)
    requires scale < 4 && index < 8 && base < 8
    ensures var s := 0x40 * scale + 8 * index + base;
            s / 0x40 == scale && s / 8 % 8 == index && s % 8 == base
  {
  }

  lemma ScaledBy(v: Word, scale: nat)
    requires scale < 4
    ensures Scaled(v, scale)
            == if scale == 0 then v else if scale == 1 then 2 * v else if scale == 2 then 4 * v else 8 * v
  {
    assert Scaled(v, 0) == v && Scaled(v, 1) == 2 * v;
    assert Scaled(v, 2) == 2 * Scaled(v, 1) && Scaled(v, 3) == 2 * Scaled(v, 2);
  }

  lemma SibDispIn(instr: Word, mod: nat) returns (disp: int)
    requires mod < 3 && instr % TWO8 == 0x40 * mod + 0x14
    ensures IsDisp(mod, disp, instr / TWO16)
    ensures mod == 0 ==> !HasSibDisp(instr)
    ensures mod != 0 ==> HasSibDisp(instr) && disp == SibDisp(instr)
  {
    disp := if mod == 0 then 0 else SibDisp(instr);
    Disp8(instr / TWO16);
    Disp32(instr / TWO16);
  }

  lemma EncodedBytes(w: Word, rex: nat, m: Byte)
    requires rex < 2 && Encodes(w, rex, m)
    ensures RexB(w) == rex && ByteAt(w, rex) == 0xFF && ModRM(w) == m
    ensures AfterOpcode(w) % TWO8 == m && AfterOpcode(w) / TWO8 == Behind(w, rex)
  {
    LowBytes(w);
    ThreeLow(w);
    EncodedLow(w, rex, m);
  }

  lemma EncodedLow(w: Word, rex: nat, m: Byte)
    requires rex < 2 && Encodes(w, rex, m)
    ensures rex == 0 ==> w % 0x100 == 0xFF && w / 0x100 % 0x100 == m
    ensures rex == 1 ==> w % 0x100 == 0x41 && w / 0x100 % 0x100 == 0xFF && w / 0x100 / 0x100 % 0x100 == m
  {
    ThreeLow(w);
    if rex == 0 {
      SameThree(w % 0x100, w / 0x100 % 0x100, 0, 0xFF, m, 0);
    } else {
      SameThree(w % 0x100, w / 0x100 % 0x100, w / 0x100 / 0x100 % 0x100, 0x41, 0xFF, m);
    }
  }

  lemma SameThree(a0: Byte, a1: Byte, a2: Byte, b0: Byte, b1: Byte, b2: Byte)
    requires a0 + 0x100 * a1 + 0x1_0000 * a2 == b0 + 0x100 * b1 + 0x1_0000 * b2
    ensures a0 == b0 && a1 == b1 && a2 == b2
  {
  }

  lemma ThreeLow(w: Word)
    ensures w % 0x1_0000 == w % 0x100 + 0x100 * (w / 0x100 % 0x100)
    ensures w % 0x100_0000 == w % 0x100 + 0x100 * (w / 0x100 % 0x100) + 0x1_0000 * (w / 0x100 / 0x100 % 0x100)
    ensures w / 0x1_0000 == w / 0x100 / 0x100 && w / 0x100_0000 == w / 0x100 / 0x100 / 0x100
  {
    LowWord(w);
    LowWord(w / TWO8);
    ThreeSplit(w, w / TWO8);
  }

  lemma ThreeSplit(w: Word, a: Word)
    requires a == w / 0x100
    ensures w % 0x100_0000 == w % 0x100 + 0x100 * (a % 0x1_0000) && w / 0x100_0000 == a / 0x1_0000
  {
    var q, low := a / 0x1_0000, w % 0x100 + 0x100 * (a % 0x1_0000);
    assert w == 0x100_0000 * q + low && 0 <= low < 0x100_0000;
  }
}
