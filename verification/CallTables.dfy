/**
 * The three tables of the call decoder, entry by entry, and the closed form of each. Entries 39 of the first table and
 * 3, 5 and 13 of the last are not what the processor does; they are kept as they stand.
 */
module CallTables {
  import opened Wrappers
  import opened Words

  // The names of the entries only feed the printed mnemonic and are not kept.
  datatype RegsCall = RegsCall(rex: nat, indirect: nat, rmByte: Byte, reg: Option<Reg>)
  datatype Sib = Sib(scale: nat, min: Byte, max: Byte, reg: Option<Reg>, regExt: Option<Reg>)
  datatype SibBase = SibBase(rex: nat, base: Byte, reg: Option<Reg>)

  // g_regs_call, its first 32 entries without REX.B and its last 32 with it.
  const REGS_CALL: seq<RegsCall> := LEGACY + EXTENDED

  const LEGACY: seq<RegsCall> := [
    RegsCall(0, 1, 0x10, Some(Rax)), RegsCall(0, 1, 0x11, Some(Rcx)), RegsCall(0, 1, 0x12, Some(Rdx)),
    RegsCall(0, 1, 0x13, Some(Rbx)), RegsCall(0, 1, 0x14, None), RegsCall(0, 1, 0x15, Some(Rip)),
    RegsCall(0, 1, 0x16, Some(Rsi)), RegsCall(0, 1, 0x17, Some(Rdi)), RegsCall(0, 1, 0x50, Some(Rax)),
    RegsCall(0, 1, 0x51, Some(Rcx)), RegsCall(0, 1, 0x52, Some(Rdx)), RegsCall(0, 1, 0x53, Some(Rbx)),
    RegsCall(0, 1, 0x54, None), RegsCall(0, 1, 0x55, Some(Rbp)), RegsCall(0, 1, 0x56, Some(Rsi)),
    RegsCall(0, 1, 0x57, Some(Rdi)), RegsCall(0, 1, 0x90, Some(Rax)), RegsCall(0, 1, 0x91, Some(Rcx)),
    RegsCall(0, 1, 0x92, Some(Rdx)), RegsCall(0, 1, 0x93, Some(Rbx)), RegsCall(0, 1, 0x94, None),
    RegsCall(0, 1, 0x95, Some(Rbp)), RegsCall(0, 1, 0x96, Some(Rsi)), RegsCall(0, 1, 0x97, Some(Rdi)),
    RegsCall(0, 0, 0xD0, Some(Rax)), RegsCall(0, 0, 0xD1, Some(Rcx)), RegsCall(0, 0, 0xD2, Some(Rdx)),
    RegsCall(0, 0, 0xD3, Some(Rbx)), RegsCall(0, 0, 0xD4, Some(Rsp)), RegsCall(0, 0, 0xD5, Some(Rbp)),
    RegsCall(0, 0, 0xD6, Some(Rsi)), RegsCall(0, 0, 0xD7, Some(Rdi))
  ]

  const EXTENDED: seq<RegsCall> := [
    RegsCall(1, 1, 0x10, Some(R8)), RegsCall(1, 1, 0x11, Some(R9)), RegsCall(1, 1, 0x12, Some(R10)),
    RegsCall(1, 1, 0x13, Some(R11)), RegsCall(1, 1, 0x14, None), RegsCall(1, 1, 0x15, Some(Rip)),
    RegsCall(1, 1, 0x16, Some(R14)), RegsCall(1, 1, 0x17, Some(R14)), RegsCall(1, 1, 0x50, Some(R8)),
    RegsCall(1, 1, 0x51, Some(R9)), RegsCall(1, 1, 0x52, Some(R10)), RegsCall(1, 1, 0x53, Some(R11)),
    RegsCall(1, 1, 0x54, None), RegsCall(1, 1, 0x55, Some(R13)), RegsCall(1, 1, 0x56, Some(R14)),
    RegsCall(1, 1, 0x57, Some(R15)), RegsCall(1, 1, 0x90, Some(R8)), RegsCall(1, 1, 0x91, Some(R9)),
    RegsCall(1, 1, 0x92, Some(R10)), RegsCall(1, 1, 0x93, Some(R11)), RegsCall(1, 1, 0x94, None),
    RegsCall(1, 1, 0x95, Some(R13)), RegsCall(1, 1, 0x96, Some(R14)), RegsCall(1, 1, 0x97, Some(R15)),
    RegsCall(1, 0, 0xD0, Some(R8)), RegsCall(1, 0, 0xD1, Some(R9)), RegsCall(1, 0, 0xD2, Some(R10)),
    RegsCall(1, 0, 0xD3, Some(R11)), RegsCall(1, 0, 0xD4, Some(R12)), RegsCall(1, 0, 0xD5, Some(R13)),
    RegsCall(1, 0, 0xD6, Some(R14)), RegsCall(1, 0, 0xD7, Some(R15))
  ]

  // g_sib, by scale.
  const SIB: seq<Sib> := SIB_1 + SIB_2 + SIB_4 + SIB_8

  const SIB_1: seq<Sib> := [
    Sib(1, 0x00, 0x07, Some(Rax), Some(R8)), Sib(1, 0x08, 0x0F, Some(Rcx), Some(R9)),
    Sib(1, 0x10, 0x17, Some(Rdx), Some(R10)), Sib(1, 0x18, 0x1F, Some(Rbx), Some(R11)),
    Sib(1, 0x20, 0x27, None, Some(R12)), Sib(1, 0x28, 0x2F, Some(Rbp), Some(R13)),
    Sib(1, 0x30, 0x37, Some(Rsi), Some(R14)), Sib(1, 0x38, 0x3F, Some(Rdi), Some(R15))
  ]

  const SIB_2: seq<Sib> := [
    Sib(2, 0x40, 0x47, Some(Rax), Some(R8)), Sib(2, 0x48, 0x4F, Some(Rcx), Some(R9)),
    Sib(2, 0x50, 0x57, Some(Rdx), Some(R10)), Sib(2, 0x58, 0x5F, Some(Rbx), Some(R11)),
    Sib(2, 0x60, 0x67, None, Some(R12)), Sib(2, 0x68, 0x6F, Some(Rbp), Some(R13)),
    Sib(2, 0x70, 0x77, Some(Rsi), Some(R14)), Sib(2, 0x78, 0x7F, Some(Rdi), Some(R15))
  ]

  const SIB_4: seq<Sib> := [
    Sib(4, 0x80, 0x87, Some(Rax), Some(R8)), Sib(4, 0x88, 0x8F, Some(Rcx), Some(R9)),
    Sib(4, 0x90, 0x97, Some(Rdx), Some(R10)), Sib(4, 0x98, 0x9F, Some(Rbx), Some(R11)),
    Sib(4, 0xA0, 0xA7, None, Some(R12)), Sib(4, 0xA8, 0xAF, Some(Rbp), Some(R13)),
    Sib(4, 0xB0, 0xB7, Some(Rsi), Some(R14)), Sib(4, 0xB8, 0xBF, Some(Rdi), Some(R15))
  ]

  const SIB_8: seq<Sib> := [
    Sib(8, 0xC0, 0xC7, Some(Rax), Some(R8)), Sib(8, 0xC8, 0xCF, Some(Rcx), Some(R9)),
    Sib(8, 0xD0, 0xD7, Some(Rdx), Some(R10)), Sib(8, 0xD8, 0xDF, Some(Rbx), Some(R11)),
    Sib(8, 0xE0, 0xE7, None, Some(R12)), Sib(8, 0xE8, 0xEF, Some(Rbp), Some(R13)),
    Sib(8, 0xF0, 0xF7, Some(Rsi), Some(R14)), Sib(8, 0xF8, 0xFF, Some(Rdi), Some(R15))
  ]

  const SIB_BASE: seq<SibBase> := [
    SibBase(0, 0, Some(Rax)), SibBase(0, 1, Some(Rcx)), SibBase(0, 2, Some(Rdx)), SibBase(0, 3, Some(Rcx)),
    SibBase(0, 4, Some(Rsp)), SibBase(0, 5, None), SibBase(0, 6, Some(Rsi)), SibBase(0, 7, Some(Rdi)),
    SibBase(1, 0, Some(R8)), SibBase(1, 1, Some(R9)), SibBase(1, 2, Some(R10)), SibBase(1, 3, Some(R11)),
    SibBase(1, 4, Some(R12)), SibBase(1, 5, None), SibBase(1, 6, Some(R14)), SibBase(1, 7, Some(R15))
  ]

  // ----- closed forms

  /** The register column of the first table, by REX bit, mod and rm; none where a SIB byte follows. */
  function CallReg(rex: nat, mod: nat, rm: nat): Option<Reg>
    requires rex < 2 && mod < 4 && rm < 8
  {
    if mod < 3 && rm == 4 then None
    else if mod == 0 && rm == 5 then Some(Rip)
    else if rex == 1 && mod == 0 && rm == 7 then Some(R14)
    else Some(ByNumber(8 * rex + rm))
  }

  function CallRow(rex: nat, mod: nat, rm: nat): RegsCall
    requires rex < 2 && mod < 4 && rm < 8
  {
    RegsCall(rex, if mod == 3 then 0 else 1, 0x40 * mod + 0x10 + rm, CallReg(rex, mod, rm))
  }

  /** What the decoder relies on: every entry of the first table, by REX bit, mod and rm. */
  ghost predicate CallShape(t: seq<RegsCall>) {
    && |t| == 64
    && forall rex, mod, rm | 0 <= rex < 2 && 0 <= mod < 4 && 0 <= rm < 8 ::
         t[32 * rex + 8 * mod + rm] == CallRow(rex, mod, rm)
  }

  ghost predicate HalfShape(t: seq<RegsCall>, rex: nat)
    requires rex < 2
  {
    && |t| == 32
    && forall mod, rm | 0 <= mod < 4 && 0 <= rm < 8 :: t[8 * mod + rm] == CallRow(rex, mod, rm)
  }

  lemma LegacyShape()
    ensures HalfShape(LEGACY, 0)
  {
    forall mod, rm | 0 <= mod < 4 && 0 <= rm < 8
      ensures LEGACY[8 * mod + rm] == CallRow(0, mod, rm)
    {
      assert rm in {0, 1, 2, 3, 4, 5, 6, 7};
      if mod == 0 {} else if mod == 1 {} else if mod == 2 {} else {}
    }
  }

  lemma ExtendedShape()
    ensures HalfShape(EXTENDED, 1)
  {
    forall mod, rm | 0 <= mod < 4 && 0 <= rm < 8
      ensures EXTENDED[8 * mod + rm] == CallRow(1, mod, rm)
    {
      assert rm in {0, 1, 2, 3, 4, 5, 6, 7};
      if mod == 0 {} else if mod == 1 {} else if mod == 2 {} else {}
    }
  }

  lemma JoinHalvesAt(legacy: seq<RegsCall>, extended: seq<RegsCall>, rex: nat, mod: nat, rm: nat)
    requires HalfShape(legacy, 0) && HalfShape(extended, 1) && rex < 2 && mod < 4 && rm < 8
    ensures (legacy + extended)[32 * rex + 8 * mod + rm] == CallRow(rex, mod, rm)
  {
    if rex == 0 {
      assert (legacy + extended)[8 * mod + rm] == legacy[8 * mod + rm];
    } else {
      assert (legacy + extended)[32 + 8 * mod + rm] == extended[8 * mod + rm];
    }
  }

  lemma JoinHalves(legacy: seq<RegsCall>, extended: seq<RegsCall>)
    requires HalfShape(legacy, 0) && HalfShape(extended, 1)
    ensures CallShape(legacy + extended)
  {
    forall rex, mod, rm | 0 <= rex < 2 && 0 <= mod < 4 && 0 <= rm < 8
      ensures (legacy + extended)[32 * rex + 8 * mod + rm] == CallRow(rex, mod, rm)
    {
      JoinHalvesAt(legacy, extended, rex, mod, rm);
    }
  }

  lemma RegsCallShape()
    ensures CallShape(REGS_CALL)
  {
    LegacyShape();
    ExtendedShape();
    JoinHalves(LEGACY, EXTENDED);
  }

  function SibRow(scale: nat, index: nat): Sib
    requires scale < 4 && index < 8
  {
    var min := 0x40 * scale + 8 * index;
    Sib(ScaleFactor(scale), min, min + 7, if index == 4 then None else Some(ByNumber(index)), Some(ByNumber(8 + index)))
  }

  ghost predicate SibShape(t: seq<Sib>) {
    && |t| == 32
    && forall scale, index | 0 <= scale < 4 && 0 <= index < 8 :: t[8 * scale + index] == SibRow(scale, index)
  }

  ghost predicate SibRowShape(t: seq<Sib>, scale: nat)
    requires scale < 4
  {
    |t| == 8 && forall index | 0 <= index < 8 :: t[index] == SibRow(scale, index)
  }

  lemma SibRowShapes()
    ensures SibRowShape(SIB_1, 0) && SibRowShape(SIB_2, 1) && SibRowShape(SIB_4, 2) && SibRowShape(SIB_8, 3)
  {
  }

  lemma JoinSibsAt(a: seq<Sib>, b: seq<Sib>, c: seq<Sib>, d: seq<Sib>, scale: nat, index: nat)
    requires SibRowShape(a, 0) && SibRowShape(b, 1) && SibRowShape(c, 2) && SibRowShape(d, 3)
    requires scale < 4 && index < 8
    ensures (a + b + c + d)[8 * scale + index] == SibRow(scale, index)
  {
    var t := a + b + c + d;
    if scale == 0 {
      assert t[index] == a[index];
    } else if scale == 1 {
      assert t[8 + index] == b[index];
    } else if scale == 2 {
      assert t[16 + index] == c[index];
    } else {
      assert t[24 + index] == d[index];
    }
  }

  lemma JoinSibs(a: seq<Sib>, b: seq<Sib>, c: seq<Sib>, d: seq<Sib>)
    requires SibRowShape(a, 0) && SibRowShape(b, 1) && SibRowShape(c, 2) && SibRowShape(d, 3)
    ensures SibShape(a + b + c + d)
  {
    forall scale, index | 0 <= scale < 4 && 0 <= index < 8
      ensures (a + b + c + d)[8 * scale + index] == SibRow(scale, index)
    {
      JoinSibsAt(a, b, c, d, scale, index);
    }
  }

  lemma SibTableShape()
    ensures SibShape(SIB)
  {
    SibRowShapes();
    JoinSibs(SIB_1, SIB_2, SIB_4, SIB_8);
  }

  /** The base column departs from the processor twice: number 3 reads rcx, and number 5 reads nothing. */
  function BaseRow(rex: nat, base: nat): SibBase
    requires rex < 2 && base < 8
  {
    SibBase(rex, base,
            if base == 5 then None else if rex == 0 && base == 3 then Some(Rcx) else Some(ByNumber(8 * rex + base)))
  }

  ghost predicate BaseShape(t: seq<SibBase>) {
    && |t| == 16
    && forall rex, base | 0 <= rex < 2 && 0 <= base < 8 :: t[8 * rex + base] == BaseRow(rex, base)
  }

  lemma BaseTableShape()
    ensures BaseShape(SIB_BASE)
  {
  }
}
