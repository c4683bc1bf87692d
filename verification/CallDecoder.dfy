/** The decoder of call instructions, from the word at the instruction pointer to the address the call goes to. */
module CallDecoder {
  import opened Wrappers
  import opened Words
  import opened CallTables
  import opened Sdm

  // ----- pure helpers

  /** The word whose bytes are these, least significant first. */
  function FromBytes(b0: Byte, b1: Byte, b2: Byte, b3: Byte, b4: Byte, b5: Byte, b6: Byte, b7: Byte): Word {
    b0 + 0x100 * (b1 + 0x100 * (b2 + 0x100 * (b3 + 0x100 * (b4 + 0x100 * (b5 + 0x100 * (b6 + 0x100 * b7))))))
  }

  /** `bswap` on 64 bits: the bytes in reverse order. */
  function Bswap(n: Word): Word {
    FromBytes(ByteAt(n, 7), ByteAt(n, 6), ByteAt(n, 5), ByteAt(n, 4),
              ByteAt(n, 3), ByteAt(n, 2), ByteAt(n, 1), ByteAt(n, 0))
  }

  /** How many displacement bytes follow the ModR/M byte, or the SIB byte in tables 54 and 94. */
  function GetSizeSib(rmByte: Byte): nat {
    if 0x50 <= rmByte <= 0x57 then 1
    else if 0x90 <= rmByte <= 0x97 || rmByte == 0x15 then 4
    else 0
  }

  function GetSib(instr: Word, sizeSib: nat): nat {
    if sizeSib == 1 then instr / TWO8 % TWO8 else instr / TWO8 % TWO32
  }

  function GetBase(sib: Byte): Byte { sib % 8 }

  // ----- what the decoder computes, over the closed forms of its tables

  /** The instruction from its ModR/M byte on. */
  function AfterOpcode(w: Word): Word {
    if RexB(w) == 1 then w / TWO8 / TWO8 else w / TWO8
  }

  function ValueOf(reg: Option<Reg>, regs: Regs): Word {
    if reg.Some? then regs.Get(reg.value) else 0
  }

  function SibAddress(instr: Word, rex: nat, regs: Regs): Word
    requires rex < 2
  {
    SibDisplaced(instr, SibTotal(instr / TWO8 % TWO8, rex, regs))
  }

  /** The scaled index, wrapped, plus the base. */
  function SibTotal(sib: Byte, rex: nat, regs: Regs): Word
    requires rex < 2
  {
    Wrap(Wrap(Scaled(IndexValue(sib, regs), sib / 0x40)) + ValueOf(BaseRow(rex, sib % 8).reg, regs))
  }

  predicate HasSibDisp(instr: Word) { instr % TWO8 == 0x54 || instr % TWO8 == 0x94 }

  /** The signed displacement after a SIB byte. */
  function SibDisp(instr: Word): int {
    if instr % TWO8 == 0x54 then SignExtend8(instr / TWO16 % TWO8) else SignExtend32(instr / TWO16 % TWO32)
  }

  function SibDisplaced(instr: Word, addr: Word): Word {
    if HasSibDisp(instr) then Wrap(addr + SibDisp(instr)) else addr
  }

  /** The signed displacement after a ModR/M byte without SIB byte. */
  function PlainDisp(instr: Word): int {
    var size := GetSizeSib(instr % TWO8);
    var sib := GetSib(instr, size);
    if size == 4 then SignExtend32(sib) else if size == 1 then SignExtend8(sib % TWO8) else 0
  }

  function PlainAddress(instr: Word, rex: nat, base: Word): Word
    requires rex < 2
  {
    var addr := Wrap(base + PlainDisp(instr));
    if instr % TWO8 == 0x15 then Wrap(addr + 6 + rex) else addr
  }

  function CodeOperand(instr: Word, rex: nat, regs: Regs): Operand
    requires rex < 2
  {
    var m := instr % TWO8;
    var row := CallRow(rex, Mod(m), Rm(m));
    if row.reg.None? then At(SibAddress(instr, rex, regs))
    else if row.indirect == 0 then Value(regs.Get(row.reg.value))
    else At(PlainAddress(instr, rex, regs.Get(row.reg.value)))
  }

  // ----- the decoder itself

  class Decoder {
    const calls: seq<RegsCall>
    const sibs: seq<Sib>
    const bases: seq<SibBase>
    var prefix: Byte

    ghost predicate Valid() {
      CallShape(calls) && SibShape(sibs) && BaseShape(bases)
    }

    /** The REX flag and the global prefix say the same thing in every state the decoder reaches. */
    ghost predicate InStep(rex: nat)
      reads this
    {
      rex < 2 && prefix == if rex == 1 then 0x41 else 0
    }

    constructor ()
      ensures Valid()
    {
      calls := REGS_CALL;
      sibs := SIB;
      bases := SIB_BASE;
      prefix := 0;
      RegsCallShape();
      SibTableShape();
      BaseTableShape();
    }

    method IsACall(rmByte: Byte) returns (b: bool)
      requires Valid()
      ensures b <==> RegField(rmByte) == 2
    {
      b := false;
      var i := 0;
      while i < |calls|
        invariant i <= |calls|
        invariant forall k :: 0 <= k < i ==> calls[k].rmByte != rmByte
      {
        if rmByte == calls[i].rmByte {
          Entry(i);
          return true;
        }
        i := i + 1;
      }
      if RegField(rmByte) == 2 {
        Hit(0, rmByte);
        assert false;
      }
    }

    /** Where the entry for a ModR/M byte with /2 stands. */
    lemma Hit(rex: nat, m: Byte)
      requires Valid() && rex < 2 && RegField(m) == 2
      ensures var i := 32 * rex + 8 * Mod(m) + Rm(m);
              i < |calls| && calls[i] == CallRow(rex, Mod(m), Rm(m)) && calls[i].rmByte == m && calls[i].rex == rex
    {
      assert calls[32 * rex + 8 * Mod(m) + Rm(m)] == CallRow(rex, Mod(m), Rm(m));
    }

    /** An entry is what its own ModR/M byte and REX flag say. */
    lemma Entry(i: nat)
      requires Valid() && i < |calls|
      ensures var e := calls[i];
              e.rex < 2 && RegField(e.rmByte) == 2 && e == CallRow(e.rex, Mod(e.rmByte), Rm(e.rmByte))
    {
      var rex, mod, rm := i / 32, i / 8 % 4, i % 8;
      assert i == 32 * rex + 8 * mod + rm;
      assert calls[i] == CallRow(rex, mod, rm);
      RowByte(mod, rm);
    }

    /** The first entry whose range holds the SIB byte, or 0. */
    method GetIndexSib(sib: Byte) returns (i: nat)
      ensures forall k :: 0 <= k < i && k < |sibs| ==> !(sibs[k].min <= sib <= sibs[k].max)
      ensures i == 0 || (i < |sibs| && sibs[i].min <= sib <= sibs[i].max)
      ensures i == 0 && |sibs| > 0 && !(sibs[0].min <= sib <= sibs[0].max) ==>
                forall k :: 0 <= k < |sibs| ==> !(sibs[k].min <= sib <= sibs[k].max)
    {
      i := 0;
      while i < |sibs|
        invariant i <= |sibs|
        invariant forall k :: 0 <= k < i ==> !(sibs[k].min <= sib <= sibs[k].max)
      {
        if sibs[i].min <= sib <= sibs[i].max {
          return;
        }
        i := i + 1;
      }
      i := 0;
    }

    predicate BaseMatches(k: nat, base: Byte, rex: nat)
      requires k < |bases|
      reads this
    {
      base == bases[k].base && (rex == bases[k].rex || prefix == 0x42)
    }

    /** The first entry for the base field and the REX flag, or 0. */
    method GetIndexBase(base: Byte, rex: nat) returns (i: nat)
      ensures forall k :: 0 <= k < i && k < |bases| ==> !BaseMatches(k, base, rex)
      ensures i == 0 || (i < |bases| && BaseMatches(i, base, rex))
      ensures i == 0 && |bases| > 0 && !BaseMatches(0, base, rex) ==>
                forall k :: 0 <= k < |bases| ==> !BaseMatches(k, base, rex)
    {
      i := 0;
      while i < |bases|
        invariant i <= |bases|
        invariant forall k :: 0 <= k < i ==> !BaseMatches(k, base, rex)
      {
        if base == bases[i].base && (rex == bases[i].rex || prefix == 0x42) {
          return;
        }
        i := i + 1;
      }
      i := 0;
    }

    /** Both searches find their entry, at the place the fields of the SIB byte give. */
    lemma SibHit(sib: Byte, k: nat)
      requires Valid() && k < |sibs|
      ensures sibs[k].min <= sib <= sibs[k].max <==> k == sib / 8
      ensures k == sib / 8 ==> sibs[k] == SibRow(sib / 0x40, sib / 8 % 8)
    {
      assert k == 8 * (k / 8) + k % 8 && sibs[k] == SibRow(k / 8, k % 8);
    }

    lemma BaseHit(base: Byte, rex: nat, k: nat)
      requires Valid() && InStep(rex) && base < 8 && k < |bases|
      ensures BaseMatches(k, base, rex) <==> k == 8 * rex + base
      ensures k == 8 * rex + base ==> bases[k] == BaseRow(rex, base)
    {
      assert k == 8 * (k / 8) + k % 8 && bases[k] == BaseRow(k / 8, k % 8);
    }

    /** The register an entry of the index table stands for: the extended one only when REX is out of step with 41. */
    function IndexNumber(index: nat, rex: nat): nat
      reads this
    {
      index % 8 + if rex == 0 || prefix == 0x41 then 0 else 8
    }

    /** Register number 4 is no index, but number 12 is; the scale is a shift by the entry's place in the table. */
    method GetValueIndexScale(index: nat, rex: nat, regs: Regs) returns (value: Word)
      requires Valid() && index < |sibs|
      ensures var n := IndexNumber(index, rex);
              value == Wrap(Scaled(if n == 4 then 0 else Register(regs, n), index / 8))
      ensures InStep(rex) ==> value == Wrap(Scaled(IndexValue(8 * index, regs), index / 8))
    {
      assert index == 8 * (index / 8) + index % 8 && sibs[index] == SibRow(index / 8, index % 8);
      value := 0;
      if rex == 0 || prefix == 0x41 {
        if sibs[index].reg.Some? {
          value := regs.Get(sibs[index].reg.value);
        }
      } else {
        if sibs[index].regExt.Some? {
          value := regs.Get(sibs[index].regExt.value);
        }
      }
      ScaledIs(value, index / 8);
      value := Wrap(value * sibs[index].scale);
    }

    /** The register numbered by REX bit and base field, but for two departures: number 3 is rcx, and 5 and 13 are 0. */
    method GetValueBase(index: nat, regs: Regs) returns (value: Word)
      requires Valid() && index < |bases|
      ensures value == if index % 8 == 5 then 0 else if index == 3 then regs.rcx else Register(regs, index)
    {
      assert index == 8 * (index / 8) + index % 8 && bases[index] == BaseRow(index / 8, index % 8);
      if bases[index].reg.Some? {
        return regs.Get(bases[index].reg.value);
      }
      value := 0;
    }

    /** The displacement byte is the one after the SIB byte. */
    method ManageByte(instr: Word, addr0: Word) returns (addr: Word)
      ensures addr == Address(addr0 + Signed8(ByteAt(instr, 2)))
    {
      SignedByte(ByteAt(instr, 2));
      AfterSib(instr);
      var dec: Byte := instr / TWO16 % TWO8;
      addr := Wrap(addr0 + SignExtend8(dec));
    }

    /** The displacement is the four bytes after the SIB byte, least significant first. */
    method ManageDword(instr: Word, addr0: Word) returns (addr: Word)
      ensures addr == Address(addr0 + Signed32(Dword(instr, 2)))
    {
      SignedDword(Dword(instr, 2));
      AfterSib(instr);
      var dec := instr / TWO16 % TWO32;
      addr := Wrap(addr0 + SignExtend32(dec));
    }

    method ResolveSib(instr: Word, rex: nat, regs: Regs, memory: Memory) returns (value: Word)
      requires Valid() && InStep(rex)
      ensures value == memory(SibAddress(instr, rex, regs))
    {
      var sib: Byte := instr / TWO8 % TWO8;
      var addr := SibSum(sib, rex, regs);
      addr := AddDisp(instr, addr);
      value := memory(addr);
    }

    /** The displacement of tables 54 and 94. */
    method AddDisp(instr: Word, addr0: Word) returns (addr: Word)
      ensures addr == SibDisplaced(instr, addr0)
    {
      SibDispIs(instr);
      addr := addr0;
      if instr % TWO8 == 0x54 {
        addr := ManageByte(instr, addr);
      } else if instr % TWO8 == 0x94 {
        addr := ManageDword(instr, addr);
      }
    }

    /** The scaled index plus the base, looked up for a SIB byte. */
    method SibSum(sib: Byte, rex: nat, regs: Regs) returns (addr: Word)
      requires Valid() && InStep(rex)
      ensures addr == SibTotal(sib, rex, regs)
    {
      var scaled := LookUpIndex(sib, rex, regs);
      var base := LookUpBase(sib, rex, regs);
      addr := Wrap(scaled as int + base as int);
    }

    method LookUpIndex(sib: Byte, rex: nat, regs: Regs) returns (scaled: Word)
      requires Valid() && InStep(rex)
      ensures scaled == Wrap(Scaled(IndexValue(sib, regs), sib / 0x40))
    {
      var indexSib := GetIndexSib(sib);
      assert indexSib == sib / 8 && indexSib < |sibs| by {
        SibHit(sib, sib / 8);
        SibHit(sib, indexSib);
      }
      scaled := GetValueIndexScale(indexSib, rex, regs);
      IndexOfEntry(sib, regs);
    }

    method LookUpBase(sib: Byte, rex: nat, regs: Regs) returns (value: Word)
      requires Valid() && InStep(rex)
      ensures value == ValueOf(BaseRow(rex, sib % 8).reg, regs)
    {
      var indexBase := GetIndexBase(GetBase(sib), rex);
      assert indexBase == 8 * rex + sib % 8 && indexBase < |bases| by {
        BaseHit(sib % 8, rex, 8 * rex + sib % 8);
        BaseHit(sib % 8, rex, indexBase);
      }
      value := GetValueBase(indexBase, regs);
      BaseColumn(rex, sib % 8, regs);
    }

    method GetAddrFunc(instr: Word, i: nat, rex: nat, regs: Regs, memory: Memory) returns (target: Word)
      requires Valid() && InStep(rex) && i < |calls|
      requires calls[i] == CallRow(rex, Mod(instr % TWO8), Rm(instr % TWO8))
      ensures target == Resolve(CodeOperand(instr, rex, regs), memory)
    {
      if calls[i].reg.None? {
        target := ResolveSib(instr, rex, regs, memory);
      } else if calls[i].indirect == 0 {
        target := regs.Get(calls[i].reg.value);
      } else {
        var addr := Displaced(instr, rex, regs.Get(calls[i].reg.value));
        target := memory(addr);
      }
    }

    method Displaced(instr: Word, rex: nat, base: Word) returns (addr: Word)
      requires rex < 2
      ensures addr == PlainAddress(instr, rex, base)
    {
      var sizeSib := GetSizeSib(instr % TWO8);
      var sib := GetSib(instr, sizeSib);
      addr := base;
      if sizeSib == 4 {
        addr := Wrap(addr + SignExtend32(sib));
      } else if sizeSib == 1 {
        addr := Wrap(addr + SignExtend8(sib % TWO8));
      }
      if instr % TWO8 == 0x15 {
        addr := Wrap(addr + 6 + rex);
      }
    }

    /** With /2 in the ModR/M byte, the second search of the table finds its entry. */
    method PrintRmByteCall(instr: Word, rex: nat, regs: Regs, memory: Memory) returns (target: Word)
      requires Valid() && InStep(rex)
      ensures RegField(instr % TWO8) == 2 ==> target == Resolve(CodeOperand(instr, rex, regs), memory)
      ensures RegField(instr % TWO8) != 2 ==> target == 0
    {
      target := 0;
      var i := 0;
      while i < |calls|
        invariant i <= |calls| && target == 0
        invariant forall k :: 0 <= k < i ==> calls[k].rmByte != instr % TWO8 || calls[k].rex != rex
      {
        if instr % TWO8 == calls[i].rmByte && rex == calls[i].rex {
          Entry(i);
          target := GetAddrFunc(instr, i, rex, regs, memory);
          return;
        }
        i := i + 1;
      }
      if RegField(instr % TWO8) == 2 {
        Hit(rex, instr % TWO8);
        assert false;
      }
    }

    /** The operand of E8: swap, drop the opcode, drop three trailing bytes, swap back, and shift down. */
    method CallOffset(word: Word) returns (instr: Word)
      ensures instr == Dword(word, 1)
    {
      RelativeField(word);
      instr := Bswap(Wrap(Bswap(word) * TWO8) / TWO8 / 0x100_0000) / TWO32;
    }

    /** The E8 branch: the next instruction's address plus the signed operand. */
    method PrintRelative(word: Word, regs: Regs) returns (addr: Word)
      ensures addr == RelativeTarget(word, regs)
    {
      var instr := CallOffset(word);
      RelativeSum(regs.rip, instr);
      SignedDword(instr);
      addr := Wrap(Wrap(regs.rip + 5) as int + SignExtend32(instr % TWO32));
    }

    /** What `print_call` returns, and whether it counted a call. */
    method PrintCall(word: Word, regs: Regs, memory: Memory, calls0: nat) returns (addr: Word, calls1: nat)
      requires Valid()
      modifies this
      ensures calls1 == calls0 + if IsRelativeCall(word) || IsIndirectCall(word) then 1 else 0
      ensures IsRelativeCall(word) ==> addr == RelativeTarget(word, regs)
      ensures IsIndirectCall(word) ==> addr == Resolve(CodeOperand(AfterOpcode(word), RexB(word), regs), memory)
      ensures !IsRelativeCall(word) && !IsIndirectCall(word) ==> addr == 0
    {
      prefix, addr, calls1 := 0, 0, calls0;
      var instr := word;
      Opcodes(word);
      if word % TWO8 == 0xE8 {
        calls1 := calls1 + 1;
        addr := PrintRelative(instr, regs);
      } else if word % TWO8 == 0xFF || word % TWO16 == 0xFF41 {
        var rex := 0;
        if instr % TWO8 == 0x41 || instr % TWO8 == 0x43 {
          rex := rex + 1;
          prefix := instr % TWO8;
          instr := instr / TWO8;
        }
        instr := instr / TWO8;
        var isCall := IsACall(instr % TWO8);
        if isCall {
          calls1 := calls1 + 1;
          addr := PrintRmByteCall(instr, rex, regs, memory);
        }
      }
    }
  }

  /** The two readings of a signed byte: by its top bit, and by what it is congruent to. */
  lemma SignedByte(b: Byte)
    ensures SignExtend8(b) == Signed8(b)
  {
  }

  lemma SignedDword(d: nat)
    requires d < TWO32
    ensures SignExtend32(d) == Signed32(d)
  {
  }

  /** The displacement after a SIB byte is read from the bytes after it. */
  lemma SibDispIs(instr: Word)
    ensures SibDisp(instr) == if instr % TWO8 == 0x54 then Signed8(ByteAt(instr, 2)) else Signed32(Dword(instr, 2))
  {
    AfterSib(instr);
    SignedByte(ByteAt(instr, 2));
    SignedDword(Dword(instr, 2));
  }

  /** The getter found for a register number reads the field that has that place in the register file. */
  lemma GetterReads(regs: Regs, n: nat)
    requires n < 16
    ensures regs.Get(ByNumber(n)) == Register(regs, n)
  {
  }

  /** The fields of the byte at the start of an entry's range are those of every byte in the range. */
  lemma IndexOfEntry(sib: Byte, regs: Regs)
    ensures sib / 8 / 8 == sib / 0x40 && IndexValue(8 * (sib / 8), regs) == IndexValue(sib, regs)
  {
    assert 8 * (sib / 8) / 8 == sib / 8;
  }

  lemma BaseColumn(rex: nat, base: nat, regs: Regs)
    requires rex < 2 && base < 8
    ensures var i := 8 * rex + base;
            ValueOf(BaseRow(rex, base).reg, regs)
            == if i % 8 == 5 then 0 else if i == 3 then regs.rcx else Register(regs, i)
  {
  }

  /** The fields of the ModR/M byte of an entry. */
  lemma RowByte(mod: nat, rm: nat)
    requires mod < 4 && rm < 8
    ensures var m := 0x40 * mod + 0x10 + rm; Mod(m) == mod && RegField(m) == 2 && Rm(m) == rm
  {
  }

  /** What follows the SIB byte, least significant byte first. */
  lemma AfterSib(instr: Word)
    ensures instr / TWO16 % TWO8 == ByteAt(instr, 2) && instr / TWO16 % TWO32 == Dword(instr, 2)
  {
    LowWord(instr);
    LowDword(instr / TWO16);
    DwordShift(instr, 1);
    DwordShift(instr / TWO8, 0);
  }

  lemma ScaledIs(v: Word, bits: nat)
    requires bits < 4
    ensures v * ScaleFactor(bits) == Scaled(v, bits)
  {
    assert Scaled(v, 1) == 2 * Scaled(v, 0) && Scaled(v, 2) == 2 * Scaled(v, 1) && Scaled(v, 3) == 2 * Scaled(v, 2);
    assert v * 1 == v && v * 2 == v + v && v * 4 == v + v + v + v;
  }

  /** The opcode tests of `print_call`, on bytes. */
  lemma Opcodes(w: Word)
    ensures IsRelativeCall(w) <==> w % TWO8 == 0xE8
    ensures w % TWO16 == 0xFF41 <==> w % TWO8 == 0x41 && w / TWO8 % TWO8 == 0xFF
    ensures ModRM(w) == AfterOpcode(w) % TWO8
    ensures IsIndirectCall(w) <==> (w % TWO8 == 0xFF || w % TWO16 == 0xFF41) && RegField(AfterOpcode(w) % TWO8) == 2
  {
    LowBytes(w);
    LowWord(w);
  }

  // ----- byte order

  lemma ShiftDown(b0: Byte, b1: Byte, b2: Byte, b3: Byte, b4: Byte, b5: Byte, b6: Byte, b7: Byte)
    ensures FromBytes(b0, b1, b2, b3, b4, b5, b6, b7) / TWO8 == FromBytes(b1, b2, b3, b4, b5, b6, b7, 0)
  {
  }

  lemma ShiftUp(b0: Byte, b1: Byte, b2: Byte, b3: Byte, b4: Byte, b5: Byte, b6: Byte, b7: Byte)
    ensures Wrap(FromBytes(b0, b1, b2, b3, b4, b5, b6, b7) * TWO8) == FromBytes(0, b0, b1, b2, b3, b4, b5, b6)
  {
    var f := FromBytes(0, b0, b1, b2, b3, b4, b5, b6);
    assert FromBytes(b0, b1, b2, b3, b4, b5, b6, b7) * TWO8 == f + b7 * TWO64;
  }

  lemma BytesOf(b0: Byte, b1: Byte, b2: Byte, b3: Byte, b4: Byte, b5: Byte, b6: Byte, b7: Byte)
    ensures var w := FromBytes(b0, b1, b2, b3, b4, b5, b6, b7);
            && ByteAt(w, 0) == b0 && ByteAt(w, 1) == b1 && ByteAt(w, 2) == b2 && ByteAt(w, 3) == b3
            && ByteAt(w, 4) == b4 && ByteAt(w, 5) == b5 && ByteAt(w, 6) == b6 && ByteAt(w, 7) == b7
  {
    ShiftDown(b0, b1, b2, b3, b4, b5, b6, b7);
    ShiftDown(b1, b2, b3, b4, b5, b6, b7, 0);
    ShiftDown(b2, b3, b4, b5, b6, b7, 0, 0);
    ShiftDown(b3, b4, b5, b6, b7, 0, 0, 0);
    ShiftDown(b4, b5, b6, b7, 0, 0, 0, 0);
    ShiftDown(b5, b6, b7, 0, 0, 0, 0, 0);
    ShiftDown(b6, b7, 0, 0, 0, 0, 0, 0);
  }

  lemma ThreeDown(b0: Byte, b1: Byte, b2: Byte, b3: Byte, b4: Byte, b5: Byte, b6: Byte, b7: Byte)
    ensures FromBytes(b0, b1, b2, b3, b4, b5, b6, b7) / 0x100_0000 == FromBytes(b3, b4, b5, b6, b7, 0, 0, 0)
  {
    var r := b0 + 0x100 * (b1 + 0x100 * b2);
    assert FromBytes(b0, b1, b2, b3, b4, b5, b6, b7) == r + 0x100_0000 * FromBytes(b3, b4, b5, b6, b7, 0, 0, 0);
  }

  lemma FourDown(b0: Byte, b1: Byte, b2: Byte, b3: Byte, b4: Byte, b5: Byte, b6: Byte, b7: Byte)
    ensures FromBytes(b0, b1, b2, b3, b4, b5, b6, b7) / TWO32 == FromBytes(b4, b5, b6, b7, 0, 0, 0, 0)
  {
    var r := b0 + 0x100 * (b1 + 0x100 * (b2 + 0x100 * b3));
    assert FromBytes(b0, b1, b2, b3, b4, b5, b6, b7) == r + TWO32 * FromBytes(b4, b5, b6, b7, 0, 0, 0, 0);
  }

  /** The swaps and shifts leave the four bytes after the opcode. */
  lemma RelativeField(w: Word)
    ensures Bswap(Wrap(Bswap(w) * TWO8) / TWO8 / 0x100_0000) / TWO32 == Dword(w, 1)
  {
    var b0, b1, b2, b3 := ByteAt(w, 0), ByteAt(w, 1), ByteAt(w, 2), ByteAt(w, 3);
    var b4, b5, b6, b7 := ByteAt(w, 4), ByteAt(w, 5), ByteAt(w, 6), ByteAt(w, 7);
    ShiftUp(b7, b6, b5, b4, b3, b2, b1, b0);
    ShiftDown(0, b7, b6, b5, b4, b3, b2, b1);
    ThreeDown(b7, b6, b5, b4, b3, b2, b1, 0);
    BytesOf(b4, b3, b2, b1, 0, 0, 0, 0);
    FourDown(0, 0, 0, 0, b1, b2, b3, b4);
  }

  lemma RelativeSum(rip: Word, d: nat)
    requires d < TWO32
    ensures Wrap(Wrap(rip + 5) as int + SignExtend32(d % TWO32)) == Wrap(rip + 5 + SignExtend32(d))
  {
    WrapSum(rip + 5, SignExtend32(d));
  }

  lemma WrapSum(a: int, b: int)
    ensures Wrap(Wrap(a) as int + b) == Wrap(a + b)
  {
  }
}
