/** The decoder against the manual: where the two agree, where they cannot, and what the answer depends on. */
module DecoderProofs {
  import opened Wrappers
  import opened Words
  import opened CallTables
  import opened Sdm
  import opened CallDecoder

  /** The decoder's operand of an indirect call. */
  function Decoded(w: Word, regs: Regs): Operand {
    CodeOperand(AfterOpcode(w), RexB(w), regs)
  }

  /**
   * The exact condition for the decoder to be right, readable off the word and the registers: one form of operand
   * reads r14 for r15, base 3 without REX.B reads rcx for rbx, and base 5 is always taken as 0, its bare
   * displacement included.
   */
  predicate Agrees(w: Word, regs: Regs) {
    var m, base := ModRM(w), SibByte(w) % 8;
    && (RexB(w) == 1 && m == 0x17 ==> regs.r14 == regs.r15)
    && (HasSib(m) && RexB(w) == 0 && base == 3 ==> regs.rcx == regs.rbx)
    && (HasSib(m) && base == 5 && Mod(m) == 0 ==> Displacement(w) == 0)
    && (HasSib(m) && base == 5 && Mod(m) != 0 ==> (if RexB(w) == 0 then regs.rbp else regs.r13) == 0)
  }

  // ----- modular arithmetic

  lemma WrapCancel(a: int, b: int, c: int)
    requires -TWO64 < b - c < TWO64
    ensures Wrap(a + b) == Wrap(a + c) <==> b == c
  {
    if Wrap(a + b) == Wrap(a + c) {
      var q, r := (a + b) / TWO64, (a + c) / TWO64;
      assert b - c == TWO64 * (q - r);
    }
  }

  // ----- fields

  /** The decoder's fields are the manual's: ModR/M, SIB and the displacement after either. */
  lemma Fields(w: Word)
    ensures var instr, k := AfterOpcode(w), 1 + RexB(w);
            && instr % TWO8 == ModRM(w)
            && instr / TWO8 % TWO8 == ByteAt(w, k + 1)
            && instr / TWO8 % TWO32 == Dword(w, k + 1)
            && instr / TWO16 % TWO8 == ByteAt(w, k + 2)
            && instr / TWO16 % TWO32 == Dword(w, k + 2)
  {
    var instr := AfterOpcode(w);
    var x, y := instr / TWO8, instr / TWO8 / TWO8;
    assert y == instr / TWO16;
    LowDword(x);
    LowDword(y);
    DwordShift(instr, 0);
    DwordShift(x, 0);
    DwordShift(instr, 1);
    if RexB(w) == 1 {
      DwordShift(w / TWO8, 0);
      DwordShift(w / TWO8, 1);
      DwordShift(w / TWO8, 2);
    }
    DwordShift(w, 0);
    DwordShift(w, 1);
    DwordShift(w, 2);
    DwordShift(w, 3);
  }

  // ----- operands without a SIB byte

  lemma ModRMIs(m: Byte)
    requires RegField(m) == 2
    ensures m == 0x40 * Mod(m) + 0x10 + Rm(m) && Mod(m) < 4
  {
  }

  lemma SizeIs(w: Word)
    requires IsIndirectCall(w) && !HasSib(ModRM(w)) && Mod(ModRM(w)) != 3
    ensures GetSizeSib(ModRM(w)) == DispSize(w) && DispStart(w) == 2 + RexB(w)
    ensures ModRM(w) == 0x15 <==> RipRelative(ModRM(w))
    ensures RipRelative(ModRM(w)) ==> Length(w) == 6 + RexB(w)
  {
    ModRMIs(ModRM(w));
  }

  lemma GetSibIs(w: Word, size: nat)
    requires size == 1 || size == 4
    ensures GetSib(AfterOpcode(w), size) == if size == 1 then ByteAt(w, 2 + RexB(w)) else Dword(w, 2 + RexB(w))
  {
    Fields(w);
  }

  lemma PlainDispOf(instr: Word, size: nat, sib: nat)
    requires size == GetSizeSib(instr % TWO8) && sib == GetSib(instr, size) && (size == 1 ==> sib < TWO8)
    ensures size == 4 ==> PlainDisp(instr) == Signed32(sib)
    ensures size == 1 ==> PlainDisp(instr) == Signed8(sib)
    ensures size == 0 ==> PlainDisp(instr) == 0
  {
    if size == 1 {
      SignedByte(sib);
    } else if size == 4 {
      SignedDword(sib);
    }
  }

  lemma PlainDispIs(w: Word)
    requires IsIndirectCall(w) && !HasSib(ModRM(w)) && Mod(ModRM(w)) != 3
    ensures PlainDisp(AfterOpcode(w)) == Displacement(w)
  {
    SizeIs(w);
    assert AfterOpcode(w) % TWO8 == ModRM(w) by { Fields(w); }
    var size := DispSize(w);
    if size == 1 {
      GetSibIs(w, 1);
      PlainDispOf(AfterOpcode(w), 1, ByteAt(w, DispStart(w)));
    } else if size == 4 {
      GetSibIs(w, 4);
      PlainDispOf(AfterOpcode(w), 4, Dword(w, DispStart(w)));
    } else {
      PlainDispOf(AfterOpcode(w), 0, GetSib(AfterOpcode(w), 0));
    }
  }

  /** Without a SIB byte, the decoder adds the manual's displacement, and the length when it counts from rip. */
  lemma PlainIs(w: Word, base: Word)
    requires IsIndirectCall(w) && !HasSib(ModRM(w)) && Mod(ModRM(w)) != 3
    ensures PlainAddress(AfterOpcode(w), RexB(w), base) ==
            Wrap(base + (if RipRelative(ModRM(w)) then Length(w) else 0) + Displacement(w))
  {
    PlainDispIs(w);
    SizeIs(w);
    assert AfterOpcode(w) % TWO8 == ModRM(w) by { Fields(w); }
    PlainAt(AfterOpcode(w), RexB(w), base, Displacement(w));
  }

  lemma PlainAt(instr: Word, rex: nat, base: Word, disp: int)
    requires rex < 2 && disp == PlainDisp(instr)
    ensures PlainAddress(instr, rex, base) == Wrap(base + (if instr % TWO8 == 0x15 then 6 + rex else 0) + disp)
  {
    CountedFromNext(base, disp, 6 + rex);
  }

  lemma CountedFromNext(base: Word, disp: int, length: nat)
    ensures Wrap(Wrap(base + disp) as int + length) == Wrap(base + length + disp)
  {
    WrapSum(base + disp, length);
  }

  lemma PlainMeets(w: Word, regs: Regs)
    requires IsIndirectCall(w) && !HasSib(ModRM(w))
    ensures Decoded(w, regs) == IndirectOperand(w, regs) <==> Agrees(w, regs)
  {
    assert AfterOpcode(w) % TWO8 == ModRM(w) by { Fields(w); }
    if Mod(ModRM(w)) == 3 {
      RegisterMeets(w, regs);
    } else {
      PlainRegister(w, regs);
    }
  }

  lemma RegisterMeets(w: Word, regs: Regs)
    requires IsIndirectCall(w) && Mod(ModRM(w)) == 3 && AfterOpcode(w) % TWO8 == ModRM(w)
    ensures Decoded(w, regs) == IndirectOperand(w, regs) && Agrees(w, regs)
  {
    GetterReads(regs, 8 * RexB(w) + Rm(ModRM(w)));
    RegisterRow(w, regs);
    AgreesPlain(w, regs);
  }

  lemma RegisterRow(w: Word, regs: Regs)
    requires Mod(ModRM(w)) == 3 && AfterOpcode(w) % TWO8 == ModRM(w)
    ensures Decoded(w, regs) == Value(regs.Get(ByNumber(8 * RexB(w) + Rm(ModRM(w)))))
  {
  }

  /** The manual's address without a SIB byte: from the register, or from the next instruction. */
  lemma PlainManual(w: Word, regs: Regs)
    requires IsIndirectCall(w) && !HasSib(ModRM(w)) && Mod(ModRM(w)) != 3
    ensures EffectiveAddress(w, regs) ==
            if RipRelative(ModRM(w)) then Wrap(regs.rip + Length(w) + Displacement(w))
            else Wrap(Register(regs, 8 * RexB(w) + Rm(ModRM(w))) + 0 + Displacement(w))
  {
  }

  /** The register the decoder's table names is the manual's, but for one. */
  lemma PlainBase(w: Word, regs: Regs)
    requires IsIndirectCall(w) && !HasSib(ModRM(w)) && Mod(ModRM(w)) != 3
    ensures var m := ModRM(w);
            var reg := CallReg(RexB(w), Mod(m), Rm(m));
            && reg.Some?
            && (RipRelative(m) ==> regs.Get(reg.value) == regs.rip)
            && (!RipRelative(m) ==>
                  regs.Get(reg.value) == if RexB(w) == 1 && m == 0x17 then regs.r14
                                         else Register(regs, 8 * RexB(w) + Rm(m)))
  {
    ModRMIs(ModRM(w));
    GetterReads(regs, 8 * RexB(w) + Rm(ModRM(w)));
  }

  lemma PlainRegister(w: Word, regs: Regs)
    requires IsIndirectCall(w) && !HasSib(ModRM(w)) && Mod(ModRM(w)) != 3
    ensures var reg := CallReg(RexB(w), Mod(ModRM(w)), Rm(ModRM(w)));
            && reg.Some?
            && (PlainAddress(AfterOpcode(w), RexB(w), regs.Get(reg.value)) == EffectiveAddress(w, regs)
                <==> Agrees(w, regs))
  {
    var m, rex := ModRM(w), RexB(w);
    PlainBase(w, regs);
    var base := regs.Get(CallReg(rex, Mod(m), Rm(m)).value);
    PlainIs(w, base);
    PlainManual(w, regs);
    if rex == 1 && m == 0x17 {
      assert Register(regs, 15) == regs.r15;
      WrapCancel(Displacement(w), regs.r14, regs.r15);
    }
    AgreesPlain(w, regs);
  }

  lemma AgreesPlain(w: Word, regs: Regs)
    requires !HasSib(ModRM(w))
    ensures Agrees(w, regs) <==> (RexB(w) == 1 && ModRM(w) == 0x17 ==> regs.r14 == regs.r15)
  {
  }

  // ----- operands with a SIB byte

  /** Adding a wrapped index, a base and a displacement one after the other wraps only once. */
  lemma SibSums(scaled: int, base: Word, disp: int)
    ensures Wrap(Wrap(Wrap(scaled) as int + base as int) as int + disp) == Wrap(base as int + scaled + disp)
    ensures Wrap(Wrap(scaled) as int + base as int) == Wrap(base as int + scaled)
  {
    WrapSum(scaled, base);
    WrapSum(scaled + base, disp);
  }

  /** A displacement byte or dword follows the SIB byte, by the ModR/M byte. */
  lemma AfterSibIs(w: Word)
    requires IsIndirectCall(w) && HasSib(ModRM(w))
    ensures var m, k := ModRM(w), 3 + RexB(w);
            && (Mod(m) == 1 <==> m == 0x54) && (Mod(m) == 2 <==> m == 0x94)
            && (Mod(m) == 1 ==> Displacement(w) == Signed8(ByteAt(w, k)))
            && (Mod(m) == 2 ==> Displacement(w) == Signed32(Dword(w, k)))
  {
    ModRMIs(ModRM(w));
  }

  /** The displacement after a SIB byte is the manual's, but in mode 0 there is none. */
  lemma SibDispMeets(w: Word)
    requires IsIndirectCall(w) && HasSib(ModRM(w))
    ensures HasSibDisp(AfterOpcode(w)) <==> Mod(ModRM(w)) != 0
    ensures Mod(ModRM(w)) != 0 ==> SibDisp(AfterOpcode(w)) == Displacement(w)
  {
    AfterSibIs(w);
    assert AfterOpcode(w) % TWO8 == ModRM(w) && ModRM(w) < 0xC0 by {
      Fields(w);
      ModRMIs(ModRM(w));
    }
    SibDispIs(AfterOpcode(w));
    assert ByteAt(AfterOpcode(w), 2) == ByteAt(w, 3 + RexB(w)) && Dword(AfterOpcode(w), 2) == Dword(w, 3 + RexB(w)) by {
      Fields(w);
      AfterSib(AfterOpcode(w));
    }
  }

  lemma SibSummed(instr: Word, sib: Byte, rex: nat, disp: int, regs: Regs)
    requires rex < 2 && if HasSibDisp(instr) then disp == SibDisp(instr) else disp == 0
    ensures SibDisplaced(instr, SibTotal(sib, rex, regs)) ==
            Wrap(ValueOf(BaseRow(rex, sib % 8).reg, regs) + Scaled(IndexValue(sib, regs), sib / 0x40) + disp)
  {
    SibSums(Scaled(IndexValue(sib, regs), sib / 0x40), ValueOf(BaseRow(rex, sib % 8).reg, regs), disp);
  }

  lemma SibIs(w: Word, regs: Regs)
    requires IsIndirectCall(w) && HasSib(ModRM(w))
    ensures var s := SibByte(w);
            var base := ValueOf(BaseRow(RexB(w), s % 8).reg, regs);
            var disp := if Mod(ModRM(w)) == 0 then 0 else Displacement(w);
            SibAddress(AfterOpcode(w), RexB(w), regs) == Wrap(base + Scaled(IndexValue(s, regs), s / 0x40) + disp)
  {
    SibDispMeets(w);
    SibByteMeets(w, regs);
    SibSummed(AfterOpcode(w), SibByte(w), RexB(w), if Mod(ModRM(w)) == 0 then 0 else Displacement(w), regs);
  }

  lemma SibByteMeets(w: Word, regs: Regs)
    requires IsIndirectCall(w)
    ensures SibAddress(AfterOpcode(w), RexB(w), regs)
            == SibDisplaced(AfterOpcode(w), SibTotal(SibByte(w), RexB(w), regs))
  {
    Fields(w);
  }

  lemma SibMeets(w: Word, regs: Regs)
    requires IsIndirectCall(w) && HasSib(ModRM(w))
    ensures Decoded(w, regs) == IndirectOperand(w, regs) <==> Agrees(w, regs)
  {
    var s, rex := SibByte(w), RexB(w);
    assert AfterOpcode(w) % TWO8 == ModRM(w) by { Fields(w); }
    SibIs(w, regs);
    var codeBase := ValueOf(BaseRow(rex, s % 8).reg, regs);
    var codeDisp := if Mod(ModRM(w)) == 0 then 0 else Displacement(w);
    SameSum(Scaled(IndexValue(s, regs), s / 0x40), codeBase, codeDisp, BaseValue(w, regs), Displacement(w));
    SameBase(w, regs);
  }

  lemma SameSum(scaled: int, base1: Word, disp1: int, base2: Word, disp2: int)
    requires -TWO32 < disp1 < TWO32 && -TWO32 < disp2 < TWO32
    requires base1 == base2 || disp1 == disp2
    ensures Wrap(base1 as int + scaled + disp1) == Wrap(base2 as int + scaled + disp2)
            <==> base1 as int + disp1 == base2 as int + disp2
  {
    WrapCancel(scaled, base1 as int + disp1, base2 as int + disp2);
  }

  lemma CodeBase(w: Word, regs: Regs)
    requires HasSib(ModRM(w))
    ensures var base := SibByte(w) % 8;
            ValueOf(BaseRow(RexB(w), base).reg, regs) ==
            if base == 5 then 0 else if RexB(w) == 0 && base == 3 then regs.rcx else Register(regs, 8 * RexB(w) + base)
  {
    BaseColumn(RexB(w), SibByte(w) % 8, regs);
  }

  /** Base and displacement together come out right exactly under the condition. */
  lemma SameBase(w: Word, regs: Regs)
    requires IsIndirectCall(w) && HasSib(ModRM(w))
    ensures var code := ValueOf(BaseRow(RexB(w), SibByte(w) % 8).reg, regs);
            var disp := if Mod(ModRM(w)) == 0 then 0 else Displacement(w);
            && (code == BaseValue(w, regs) || disp == Displacement(w))
            && (code as int + disp == BaseValue(w, regs) as int + Displacement(w) <==> Agrees(w, regs))
  {
    CodeBase(w, regs);
    SibBaseCases(w, regs, Displacement(w));
  }

  lemma SibBaseCases(w: Word, regs: Regs, disp: int)
    requires IsIndirectCall(w) && HasSib(ModRM(w)) && disp == Displacement(w)
    ensures Mod(ModRM(w)) == 0 && SibByte(w) % 8 != 5 ==> disp == 0
    ensures var base := SibByte(w) % 8;
            if base == 5 then
              BaseValue(w, regs) == if Mod(ModRM(w)) == 0 then 0 else if RexB(w) == 0 then regs.rbp else regs.r13
            else if RexB(w) == 0 && base == 3 then BaseValue(w, regs) == regs.rbx
            else BaseValue(w, regs) == Register(regs, 8 * RexB(w) + base)
  {
    ModRMIs(ModRM(w));
  }

  // ----- main results

  /** The decoder finds the operand the manual defines if and only if the condition holds. */
  lemma DecoderMeetsManualIff(w: Word, regs: Regs)
    requires IsIndirectCall(w)
    ensures Decoded(w, regs) == IndirectOperand(w, regs) <==> Agrees(w, regs)
  {
    if HasSib(ModRM(w)) {
      SibMeets(w, regs);
    } else {
      PlainMeets(w, regs);
    }
  }

  /** Whatever memory holds: the target is the manual's for every memory if and only if the condition holds. */
  lemma TargetMeetsManualIff(w: Word, regs: Regs)
    requires IsIndirectCall(w)
    ensures (forall memory: Memory :: Resolve(Decoded(w, regs), memory) == Resolve(IndirectOperand(w, regs), memory))
            <==> Agrees(w, regs)
  {
    DecoderMeetsManualIff(w, regs);
    var d, i := Decoded(w, regs), IndirectOperand(w, regs);
    var id: Memory := (a: Word) => a;
    if forall memory: Memory :: Resolve(d, memory) == Resolve(i, memory) {
      assert Resolve(d, id) == Resolve(i, id);
      SameKind(w, regs);
    }
  }

  lemma SameKind(w: Word, regs: Regs)
    requires IsIndirectCall(w)
    ensures Decoded(w, regs).Value? <==> IndirectOperand(w, regs).Value?
  {
    Fields(w);
  }

  // ----- what the answer depends on

  ghost predicate SameBytes(v: Word, w: Word, n: nat) {
    forall k :: 0 <= k < n ==> ByteAt(v, k) == ByteAt(w, k)
  }

  lemma SameHead(v: Word, w: Word)
    requires IsIndirectCall(v) && SameBytes(v, w, Length(v))
    ensures IsIndirectCall(w) && RexB(v) == RexB(w) && ModRM(v) == ModRM(w)
    ensures HasSib(ModRM(v)) ==> SibByte(v) == SibByte(w)
    ensures Length(v) == Length(w) <= 8 && Displacement(v) == Displacement(w)
  {
    assert ByteAt(v, 0) == ByteAt(w, 0) && ByteAt(v, 1) == ByteAt(w, 1);
    assert ByteAt(v, RexB(v)) == ByteAt(w, RexB(v)) && ByteAt(v, 1 + RexB(v)) == ByteAt(w, 1 + RexB(v));
    assert HasSib(ModRM(v)) ==> ByteAt(v, 2 + RexB(v)) == ByteAt(w, 2 + RexB(v));
    var d, n := DispStart(v), DispSize(v);
    assert DispStart(w) == d && DispSize(w) == n;
    assert n >= 1 ==> ByteAt(v, d) == ByteAt(w, d);
    assert n == 4 ==> ByteAt(v, d + 1) == ByteAt(w, d + 1) && ByteAt(v, d + 2) == ByteAt(w, d + 2)
                      && ByteAt(v, d + 3) == ByteAt(w, d + 3);
  }

  /** Bytes past the end of the instruction, which is never longer than the word, do not matter. */
  lemma TrailingBytesIgnored(v: Word, w: Word, regs: Regs)
    requires IsIndirectCall(v) && SameBytes(v, w, Length(v))
    ensures Length(v) <= 8 && IsIndirectCall(w) && Decoded(v, regs) == Decoded(w, regs)
  {
    SameHead(v, w);
    assert AfterOpcode(v) % TWO8 == ModRM(v) == AfterOpcode(w) % TWO8 by {
      Fields(v);
      Fields(w);
    }
    if HasSib(ModRM(v)) {
      SibIs(v, regs);
      SibIs(w, regs);
    } else if Mod(ModRM(v)) != 3 {
      PlainRegister(v, regs);
      var base := regs.Get(CallReg(RexB(v), Mod(ModRM(v)), Rm(ModRM(v))).value);
      PlainIs(v, base);
      PlainIs(w, base);
    }
  }

  lemma RelativeTrailingBytesIgnored(v: Word, w: Word, regs: Regs)
    requires IsRelativeCall(v) && SameBytes(v, w, 5)
    ensures IsRelativeCall(w) && RelativeTarget(v, regs) == RelativeTarget(w, regs)
  {
    assert ByteAt(v, 0) == ByteAt(w, 0) && ByteAt(v, 1) == ByteAt(w, 1) && ByteAt(v, 2) == ByteAt(w, 2);
    assert ByteAt(v, 3) == ByteAt(w, 3) && ByteAt(v, 4) == ByteAt(w, 4);
  }

  // ----- one input for each way to be wrong: these bytes, in this register file

  const SAMPLE := Regs(0, 1, 2, 3, 4, 5, 6, 7, 8, 9, 10, 11, 12, 13, 14, 15, 0)

  predicate Starts(w: Word, b0: Byte, b1: Byte, b2: Byte) {
    ByteAt(w, 0) == b0 && ByteAt(w, 1) == b1 && ByteAt(w, 2) == b2
  }

  lemma StartFields(w: Word, b1: Byte, b2: Byte)
    requires Starts(w, 0xFF, b1, b2)
    ensures RexB(w) == 0 && ModRM(w) == b1 && SibByte(w) == b2
  {
  }

  /** call [r15] */
  lemma WrongR15(w: Word)
    requires Starts(w, 0x41, 0xFF, 0x17)
    ensures IsIndirectCall(w) && Decoded(w, SAMPLE) != IndirectOperand(w, SAMPLE)
  {
    DecoderMeetsManualIff(w, SAMPLE);
  }

  /** call [rbx + rax] */
  lemma WrongRbx(w: Word)
    requires Starts(w, 0xFF, 0x14, 0x03)
    ensures IsIndirectCall(w) && Decoded(w, SAMPLE) != IndirectOperand(w, SAMPLE)
  {
    StartFields(w, 0x14, 0x03);
    DecoderMeetsManualIff(w, SAMPLE);
  }

  /** call [rbp + rax + displacement] */
  lemma WrongRbp(w: Word)
    requires Starts(w, 0xFF, 0x54, 0x05)
    ensures IsIndirectCall(w) && Decoded(w, SAMPLE) != IndirectOperand(w, SAMPLE)
  {
    StartFields(w, 0x54, 0x05);
    DecoderMeetsManualIff(w, SAMPLE);
  }

  /** call [0x12345678] */
  lemma WrongAbsolute(w: Word)
    requires Starts(w, 0xFF, 0x14, 0x25) && Dword(w, 3) == 0x1234_5678
    ensures IsIndirectCall(w) && Decoded(w, SAMPLE) != IndirectOperand(w, SAMPLE)
  {
    StartFields(w, 0x14, 0x25);
    assert Displacement(w) == 0x1234_5678;
    DecoderMeetsManualIff(w, SAMPLE);
  }
}
