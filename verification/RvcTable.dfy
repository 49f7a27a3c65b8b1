/**
 The compressed instructions as match and mask words, against the expansion by opcode and funct3: tables 16.5 to 16.7 of
 the RISC-V Unprivileged ISA (20191213). Immediates are put together by masks in place.
 */
module RvcTable {
  import opened Decode
  import opened Compressed

  function Ones(c: bv32, mask: bv32): bv32
  {
    if (c >> 12) & 1 == 1 then mask else 0
  }

  // rd', rs1' and rs2' are x8 to x15.
  function Low3(c: bv32): bv32 { 8 + ((c >> 2) & 7) }
  function Mid3(c: bv32): bv32 { 8 + ((c >> 7) & 7) }
  function Mid5(c: bv32): bv32 { (c >> 7) & 31 }
  function Low5(c: bv32): bv32 { (c >> 2) & 31 }

  function Simm6(c: bv32): bv32 { ((c >> 2) & 0x1F) | Ones(c, 0xFFFF_FFE0) }
  function Uimm6(c: bv32): bv32 { ((c >> 2) & 0x1F) | ((c >> 7) & 0x20) }
  function OffsetW(c: bv32): bv32 { ((c >> 7) & 0x38) | ((c >> 4) & 0x4) | ((c << 1) & 0x40) }
  function OffsetD(c: bv32): bv32 { ((c >> 7) & 0x38) | ((c << 1) & 0xC0) }
  function LoadW(c: bv32): bv32 { ((c >> 2) & 0x1C) | ((c >> 7) & 0x20) | ((c << 4) & 0xC0) }
  function LoadD(c: bv32): bv32 { ((c >> 2) & 0x18) | ((c >> 7) & 0x20) | ((c << 4) & 0x1C0) }
  function StoreW(c: bv32): bv32 { ((c >> 7) & 0x3C) | ((c >> 1) & 0xC0) }
  function StoreD(c: bv32): bv32 { ((c >> 7) & 0x38) | ((c >> 1) & 0x1C0) }

  function Frame(c: bv32): bv32
  {
    ((c >> 7) & 0x30) | ((c >> 1) & 0x3C0) | ((c >> 4) & 0x4) | ((c >> 2) & 0x8)
  }

  function Stack(c: bv32): bv32
  {
    Ones(c, 0xFFFF_FE00) | ((c >> 2) & 0x10) | ((c << 1) & 0x40) | ((c << 4) & 0x180) | ((c << 3) & 0x20)
  }

  function Far(c: bv32): bv32
  {
    Ones(c, 0xFFFF_F800) | ((c >> 7) & 0x10) | ((c >> 1) & 0x300) | ((c << 2) & 0x400) | ((c >> 1) & 0x40)
    | ((c << 1) & 0x80) | ((c >> 2) & 0xE) | ((c << 3) & 0x20)
  }

  function Near(c: bv32): bv32
  {
    Ones(c, 0xFFFF_FF00) | ((c >> 7) & 0x18) | ((c << 1) & 0xC0) | ((c >> 2) & 0x6) | ((c << 3) & 0x20)
  }

  // ---------- the instructions ----------

  function RowI(op: Op, funct3: bv32, rd: bv32, rs1: bv32, imm: bv32): Fields
  {
    Fields(op, rd, rs1, 0, funct3, 0, imm, (imm >> 10) & 1 == 1, NoCall)
  }

  function RowR(op: Op, sub: bool, funct3: bv32, rd: bv32, rs1: bv32, rs2: bv32): Fields
  {
    Fields(op, rd, rs1, rs2, funct3, if sub then 0x20 else 0, 0, sub, NoCall)
  }

  function RowS(op: Op, funct3: bv32, rs1: bv32, rs2: bv32, imm: bv32): Fields
  {
    Fields(op, 0, rs1, rs2, funct3, 0, imm, false, NoCall)
  }

  function RowU(op: Op, rd: bv32, imm: bv32): Fields
  {
    Fields(op, rd, 0, 0, 0, 0, imm, false, NoCall)
  }

  /** C.ADDI4SPN, C.LW, C.LD, C.SW, C.SD */
  function Quadrant0(c: bv32): Fields
  {
    if c & 0xE003 == 0x0000 then RowI(OpImm, 0, Low3(c), 2, Frame(c))
    else if c & 0xE003 == 0x4000 then RowI(Load, 2, Low3(c), Mid3(c), OffsetW(c))
    else if c & 0xE003 == 0x6000 then RowI(Load, 3, Low3(c), Mid3(c), OffsetD(c))
    else if c & 0xE003 == 0xC000 then RowS(Store, 2, Mid3(c), Low3(c), OffsetW(c))
    else RowS(Store, 3, Mid3(c), Low3(c), OffsetD(c))
  }

  /** C.ADDI, C.ADDIW, C.LI, C.ADDI16SP, C.LUI, C.J, C.BEQZ, C.BNEZ */
  function Quadrant1(c: bv32): Fields
  {
    if c & 0xE003 == 0x0001 then RowI(OpImm, 0, Mid5(c), Mid5(c), Simm6(c))
    else if c & 0xE003 == 0x2001 then RowI(OpImm32, 0, Mid5(c), Mid5(c), Simm6(c))
    else if c & 0xE003 == 0x4001 then RowI(OpImm, 0, Mid5(c), 0, Simm6(c))
    else if c & 0xEF83 == 0x6101 then RowI(OpImm, 0, 2, 2, Stack(c))
    else if c & 0xE003 == 0x6001 then RowU(Lui, Mid5(c), Simm6(c) << 12)
    else if c & 0xE003 == 0x8001 then Arithmetic(c)
    else if c & 0xE003 == 0xA001 then RowU(Jal, 0, Far(c))
    else if c & 0xE003 == 0xC001 then RowS(Branch, 0, Mid3(c), 0, Near(c))
    else RowS(Branch, 1, Mid3(c), 0, Near(c))
  }

  /** C.SRLI, C.SRAI, C.ANDI, C.SUB, C.XOR, C.OR, C.AND, C.SUBW, C.ADDW */
  function Arithmetic(c: bv32): Fields
  {
    var r, s := Mid3(c), Low3(c);
    if c & 0xEC03 == 0x8001 then RowI(OpImm, 5, r, r, Uimm6(c))
    else if c & 0xEC03 == 0x8401 then RowI(OpImm, 5, r, r, Uimm6(c) + 0x400)
    else if c & 0xEC03 == 0x8801 then RowI(OpImm, 7, r, r, Simm6(c))
    else if c & 0xFC63 == 0x8C01 then RowR(OpReg, true, 0, r, r, s)
    else if c & 0xFC63 == 0x8C21 then RowR(OpReg, false, 4, r, r, s)
    else if c & 0xFC63 == 0x8C41 then RowR(OpReg, false, 6, r, r, s)
    else if c & 0xFC63 == 0x8C61 then RowR(OpReg, false, 7, r, r, s)
    else if c & 0xFC63 == 0x9C01 then RowR(Op32, true, 0, r, r, s)
    else RowR(Op32, false, 0, r, r, s)
  }

  /** C.SLLI, C.LWSP, C.LDSP, C.JR, C.MV, C.JALR, C.ADD, C.SWSP, C.SDSP */
  function Quadrant2(c: bv32): Fields
  {
    if c & 0xE003 == 0x0002 then RowI(OpImm, 1, Mid5(c), Mid5(c), Uimm6(c))
    else if c & 0xE003 == 0x4002 then RowI(Load, 2, Mid5(c), 2, LoadW(c))
    else if c & 0xE003 == 0x6002 then RowI(Load, 3, Mid5(c), 2, LoadD(c))
    else if c & 0xF07F == 0x8002 then RowI(Jalr, 0, 0, Mid5(c), 0)
    else if c & 0xF003 == 0x8002 then RowR(OpReg, false, 0, Mid5(c), 0, Low5(c))
    else if c & 0xF07F == 0x9002 then RowI(Jalr, 0, 1, Mid5(c), 0)
    else if c & 0xF003 == 0x9002 then RowR(OpReg, false, 0, Mid5(c), Mid5(c), Low5(c))
    else if c & 0xE003 == 0xC002 then RowS(Store, 2, 2, Low5(c), StoreW(c))
    else RowS(Store, 3, 2, Low5(c), StoreD(c))
  }

  /** The row of the table. */
  function Row(c: bv32): Fields
  {
    if c & 3 == 0 then Quadrant0(c) else if c & 3 == 1 then Quadrant1(c) else Quadrant2(c)
  }

  /** The encodings with a row; C.SUBW and C.ADDW are the last of their group. */
  predicate Listed(c: bv32)
  {
    && c & 0xFFFF_0000 == 0
    && c & 0xFC43 != 0x9C41
    && c & 0xE003 in {0x0000, 0x4000, 0x6000, 0xC000, 0xE000, 0x0001, 0x2001, 0x4001, 0x6001, 0x8001, 0xA001, 0xC001,
                      0xE001, 0x0002, 0x4002, 0x6002, 0x8002, 0xC002, 0xE002}
  }

  lemma SameRegisters(c: bv32)
    ensures Low3(c) == LowReg(c) && Mid3(c) == HighReg(c) && Mid5(c) == FullReg(c) && Low5(c) == SecondReg(c)
  {
  }

  lemma SameSmall(c: bv32)
    ensures Simm6(c) == Imm6(c) && Uimm6(c) == Shamt(c) && Uimm6(c) + 0x400 == 0x400 | Shamt(c)
  {
    if (c >> 12) & 1 == 1 {} else {}
  }

  lemma SameOffsets(c: bv32)
    ensures OffsetW(c) == WordImm(c) && OffsetD(c) == DoubleImm(c) && LoadW(c) == LwspImm(c) && LoadD(c) == LdspImm(c)
    ensures StoreW(c) == SwspImm(c) && StoreD(c) == SdspImm(c) && Frame(c) == Addi4spnImm(c)
  {
  }

  lemma SameSigned(c: bv32)
    ensures Stack(c) == SpImm(c) && Near(c) == BranchImm(c)
  {
    if (c >> 12) & 1 == 1 {} else {}
  }

  lemma SameUpper(c: bv32)
    ensures Simm6(c) << 12 == LuiImm(c)
  {
    if (c >> 12) & 1 == 1 {} else {}
  }

  lemma SameFar(c: bv32)
    ensures Far(c) == JumpImm(c)
  {
    if (c >> 12) & 1 == 1 {} else {}
  }

  lemma SameBit10(imm: bv32)
    ensures ((imm >> 10) & 1 == 1) == (imm & 0x400 != 0)
  {
  }

  /** Kind is inst_op_16 with its two halves exchanged. */
  lemma KindIsMask(c: bv32)
    ensures c & 0xE003 == ((Kind(c) & 7) << 13) | (Kind(c) >> 3) && c & 3 == Kind(c) >> 3
  {
  }

  lemma SameQ0(c: bv32)
    requires Kind(c) in {0, 2, 3, 6, 7}
    ensures Quadrant0(c) == TargetQ0(c) && c & 3 == 0
  {
    KindIsMask(c);
    SameRegisters(c);
    SameOffsets(c);
    SameBit10(Frame(c));
    SameBit10(OffsetW(c));
    SameBit10(OffsetD(c));
  }

  /** C.SRLI, C.SRAI and C.ANDI */
  lemma SameAluImm(c: bv32)
    requires Kind(c) == 12 && (c >> 10) & 3 != 3
    ensures Arithmetic(c) == TargetAlu(c)
  {
    SameRegisters(c);
    SameSmall(c);
    SameBit10(Uimm6(c));
    SameBit10(0x400 | Shamt(c));
    SameBit10(Simm6(c));
    assert c & 0xEC03 == 0x8001 + (((c >> 10) & 3) << 10);
  }

  lemma SameAluReg(c: bv32)
    requires Recognised(c) && Kind(c) == 12 && (c >> 10) & 3 == 3
    ensures Arithmetic(c) == TargetAlu(c)
  {
    AluRegMasks(c);
    if c & 0x1000 == 0 { SameAluDouble(c, (c >> 5) & 3); } else { SameAluWord(c, (c >> 5) & 3); }
  }

  /** C.SUB, C.XOR, C.OR and C.AND */
  lemma SameAluDouble(c: bv32, t: bv32)
    requires c & 0xEC03 == 0x8C01 && c & 0xFC63 == 0x8C01 + (t << 5)
    requires (c >> 10) & 3 == 3 && c & 0x1000 == 0 && t == (c >> 5) & 3 && t <= 3
    ensures Arithmetic(c) == TargetAlu(c)
  {
    SameRegisters(c);
    if t == 0 {} else if t == 1 {} else if t == 2 {} else { assert t == 3; }
  }

  /** C.SUBW and C.ADDW */
  lemma SameAluWord(c: bv32, t: bv32)
    requires c & 0xEC03 == 0x8C01 && c & 0xFC63 == 0x9C01 + (t << 5)
    requires (c >> 10) & 3 == 3 && c & 0x1000 != 0 && t == (c >> 5) & 3 && t <= 1
    ensures Arithmetic(c) == TargetAlu(c)
  {
    SameRegisters(c);
    if t == 0 {} else { assert t == 1; }
  }

  lemma AluRegMasks(c: bv32)
    requires Recognised(c) && Kind(c) == 12 && (c >> 10) & 3 == 3
    ensures c & 0xEC03 == 0x8C01 && (c >> 5) & 3 <= 3
    ensures c & 0x1000 == 0 ==> c & 0xFC63 == 0x8C01 + (((c >> 5) & 3) << 5)
    ensures c & 0x1000 != 0 ==> c & 0xFC63 == 0x9C01 + (((c >> 5) & 3) << 5) && (c >> 5) & 3 <= 1
  {
  }

  lemma SameQ1(c: bv32)
    requires Recognised(c) && 8 <= Kind(c) < 16
    ensures Quadrant1(c) == TargetQ1(c) && c & 3 == 1
  {
    KindIsMask(c);
    if Kind(c) == 12 {
      if (c >> 10) & 3 == 3 { SameAluReg(c); } else { SameAluImm(c); }
    } else if Kind(c) < 12 {
      SameWide(c);
    } else {
      SameRegisters(c);
      SameSigned(c);
      SameFar(c);
    }
  }

  /** C.ADDI, C.ADDIW, C.LI, C.ADDI16SP and C.LUI */
  lemma SameWide(c: bv32)
    requires 8 <= Kind(c) < 12
    ensures Quadrant1(c) == TargetQ1(c)
  {
    KindIsMask(c);
    SameRegisters(c);
    SameSmall(c);
    SameSigned(c);
    SameUpper(c);
    SameBit10(Simm6(c));
    SameBit10(Stack(c));
    assert Kind(c) == 11 ==> (c & 0xEF83 == 0x6101 <==> FullReg(c) == 2);
  }

  lemma SameCr(c: bv32)
    requires Kind(c) == 20
    ensures Quadrant2(c) == TargetCr(c)
  {
    KindIsMask(c);
    SameRegisters(c);
    assert c & 0xF003 == 0x8002 + (c & 0x1000);
    assert c & 0x7C == SecondReg(c) << 2;
    assert c & 0xF07F == (c & 0xF003) + (c & 0x7C);
  }

  lemma SameQ2(c: bv32)
    requires Kind(c) in {16, 18, 19, 20, 22, 23}
    ensures Quadrant2(c) == TargetQ2(c) && c & 3 == 2
  {
    KindIsMask(c);
    if Kind(c) == 20 {
      SameCr(c);
    } else {
      SameRegisters(c);
      SameSmall(c);
      SameOffsets(c);
      SameBit10(Uimm6(c));
      SameBit10(LoadW(c));
      SameBit10(LoadD(c));
    }
  }

  lemma RowIsTarget(c: bv32)
    requires Recognised(c)
    ensures Row(c) == Target(c)
  {
    if Kind(c) < 8 { SameQ0(c); } else if Kind(c) < 16 { SameQ1(c); } else { SameQ2(c); }
  }

  /** The expansion of C.EBREAK is EBREAK, and that of every other compressed instruction encodes its row. */
  lemma TableExact(c: bv32)
    requires Listed(c)
    ensures Expand(c) == if c == 0x9002 then 0x10_0073 else Encode(FormatOf(Row(c).op), Row(c), OpcodeOf(Row(c).op))
  {
    ListedExact(c);
    RowIsTarget(c);
  }

  lemma ListedExact(c: bv32)
    ensures Listed(c) == Recognised(c)
  {
    KindIsMask(c);
    assert c & 0xFC43 == 0x9C41 <==> Kind(c) == 12 && c & 0x1C40 == 0x1C40;
  }
}
