/**
 RVC: the 16-bit half of the decoder, against the 32-bit instruction that chapter 16 of the RISC-V
 Unprivileged ISA (20191213) gives for each compressed one. c is inst & 0xFFFF.
 */
module Compressed {
  import opened Decode

  /** inst_op_16: bits 1:0 and 15:13. */
  function Kind(c: bv32): bv32
  {
    ((c & 3) << 3) | ((c >> 13) & 7)
  }

  // ---------- operands, as the instruction listings of chapter 16 number their bits ----------

  /** rd' or rs2', bits 4:2 */
  function LowReg(c: bv32): bv32 { ((c >> 2) & 7) | 8 }

  /** rs1' or rd', bits 9:7 */
  function HighReg(c: bv32): bv32 { ((c >> 7) & 7) | 8 }

  /** rd or rs1, bits 11:7 */
  function FullReg(c: bv32): bv32 { (c >> 7) & 31 }

  /** rs2, bits 6:2 */
  function SecondReg(c: bv32): bv32 { (c >> 2) & 31 }

  /** nzuimm[5:4|9:6|2|3] */
  function Addi4spnImm(c: bv32): bv32
  {
    (((c >> 11) & 3) << 4) | (((c >> 7) & 15) << 6) | (((c >> 6) & 1) << 2) | (((c >> 5) & 1) << 3)
  }

  /** offset[5:3] and offset[2|6] */
  function WordImm(c: bv32): bv32
  {
    (((c >> 10) & 7) << 3) | (((c >> 6) & 1) << 2) | (((c >> 5) & 1) << 6)
  }

  /** offset[5:3] and offset[7:6] */
  function DoubleImm(c: bv32): bv32
  {
    (((c >> 10) & 7) << 3) | (((c >> 5) & 3) << 6)
  }

  /** shamt[5] and shamt[4:0] */
  function Shamt(c: bv32): bv32
  {
    (((c >> 12) & 1) << 5) | ((c >> 2) & 31)
  }

  /** Bit 12 is the sign of every signed immediate. */
  function SignBit(c: bv32, mask: bv32): bv32
  {
    if c & 0x1000 != 0 then mask else 0
  }

  /** imm[5] and imm[4:0] */
  function Imm6(c: bv32): bv32
  {
    SignBit(c, 0xFFFF_FFE0) | ((c >> 2) & 31)
  }

  /** nzimm[9] and nzimm[4|6|8:7|5] */
  function SpImm(c: bv32): bv32
  {
    SignBit(c, 0xFFFF_FE00)
    | (((c >> 6) & 1) << 4) | (((c >> 5) & 1) << 6) | (((c >> 3) & 3) << 7) | (((c >> 2) & 1) << 5)
  }

  /** nzimm[17] and nzimm[16:12] */
  function LuiImm(c: bv32): bv32
  {
    SignBit(c, 0xFFFE_0000) | (((c >> 2) & 31) << 12)
  }

  /** offset[11|4|9:8|10|6|7|3:1|5] */
  function JumpImm(c: bv32): bv32
  {
    SignBit(c, 0xFFFF_F800) | (((c >> 11) & 1) << 4) | (((c >> 9) & 3) << 8) | (((c >> 8) & 1) << 10)
    | (((c >> 7) & 1) << 6) | (((c >> 6) & 1) << 7) | (((c >> 3) & 7) << 1) | (((c >> 2) & 1) << 5)
  }

  /** offset[8|4:3] and offset[7:6|2:1|5] */
  function BranchImm(c: bv32): bv32
  {
    SignBit(c, 0xFFFF_FF00)
    | (((c >> 10) & 3) << 3) | (((c >> 5) & 3) << 6) | (((c >> 3) & 3) << 1) | (((c >> 2) & 1) << 5)
  }

  /** offset[5] and offset[4:2|7:6] */
  function LwspImm(c: bv32): bv32
  {
    (((c >> 12) & 1) << 5) | (((c >> 4) & 7) << 2) | (((c >> 2) & 3) << 6)
  }

  /** offset[5] and offset[4:3|8:6] */
  function LdspImm(c: bv32): bv32
  {
    (((c >> 12) & 1) << 5) | (((c >> 5) & 3) << 3) | (((c >> 2) & 7) << 6)
  }

  /** offset[5:2|7:6] */
  function SwspImm(c: bv32): bv32
  {
    (((c >> 9) & 15) << 2) | (((c >> 7) & 3) << 6)
  }

  /** offset[5:3|8:6] */
  function SdspImm(c: bv32): bv32
  {
    (((c >> 10) & 7) << 3) | (((c >> 7) & 7) << 6)
  }

  // ---------- the expansion ----------

  function FieldsI(op: Op, imm: bv32, rs1: bv32, funct3: bv32, rd: bv32): Fields
  {
    Fields(op, rd, rs1, 0, funct3, 0, imm, imm & 0x400 != 0, NoCall)
  }

  function FieldsR(op: Op, funct7: bv32, rs2: bv32, rs1: bv32, funct3: bv32, rd: bv32): Fields
  {
    Fields(op, rd, rs1, rs2, funct3, funct7, 0, funct7 & 0x20 != 0, NoCall)
  }

  /** Formats S and B. */
  function FieldsS(op: Op, imm: bv32, rs2: bv32, rs1: bv32, funct3: bv32): Fields
  {
    Fields(op, 0, rs1, rs2, funct3, 0, imm, false, NoCall)
  }

  /** Formats U and J. */
  function FieldsU(op: Op, imm: bv32, rd: bv32): Fields
  {
    Fields(op, rd, 0, 0, 0, 0, imm, false, NoCall)
  }

  const C_EBREAK: bv32 := 0x9002

  /**
   The encodings with an expansion. Not the floating-point ones, and not those that chapter 16 reserves
   because no base instruction exists for them.
   */
  predicate Recognised(c: bv32)
  {
    && c & 0xFFFF_0000 == 0
    && Kind(c) in {0, 2, 3, 6, 7, 8, 9, 10, 11, 12, 13, 14, 15, 16, 18, 19, 20, 22, 23}
    && (Kind(c) == 12 ==> c & 0x1C40 != 0x1C40)
  }

  function TargetQ0(c: bv32): Fields
  {
    var k := Kind(c);
    if k == 0 then FieldsI(OpImm, Addi4spnImm(c), 2, 0, LowReg(c))
    else if k == 2 then FieldsI(Load, WordImm(c), HighReg(c), 2, LowReg(c))
    else if k == 3 then FieldsI(Load, DoubleImm(c), HighReg(c), 3, LowReg(c))
    else if k == 6 then FieldsS(Store, WordImm(c), LowReg(c), HighReg(c), 2)
    else FieldsS(Store, DoubleImm(c), LowReg(c), HighReg(c), 3)
  }

  function TargetAlu(c: bv32): Fields
  {
    var r, s := HighReg(c), (c >> 10) & 3;
    var t := (c >> 5) & 3;
    if s == 0 then FieldsI(OpImm, Shamt(c), r, 5, r)
    else if s == 1 then FieldsI(OpImm, 0x400 | Shamt(c), r, 5, r)
    else if s == 2 then FieldsI(OpImm, Imm6(c), r, 7, r)
    else if c & 0x1000 != 0 then FieldsR(Op32, if t == 0 then 0x20 else 0, LowReg(c), r, 0, r)
    else FieldsR(OpReg, if t == 0 then 0x20 else 0, LowReg(c), r,
                 if t == 0 then 0 else if t == 1 then 4 else if t == 2 then 6 else 7, r)
  }

  function TargetQ1(c: bv32): Fields
  {
    var k, r := Kind(c), FullReg(c);
    if k == 8 then FieldsI(OpImm, Imm6(c), r, 0, r)
    else if k == 9 then FieldsI(OpImm32, Imm6(c), r, 0, r)
    else if k == 10 then FieldsI(OpImm, Imm6(c), 0, 0, r)
    else if k == 11 then if r == 2 then FieldsI(OpImm, SpImm(c), 2, 0, 2) else FieldsU(Lui, LuiImm(c), r)
    else if k == 12 then TargetAlu(c)
    else if k == 13 then FieldsU(Jal, JumpImm(c), 0)
    else FieldsS(Branch, BranchImm(c), 0, HighReg(c), if k == 14 then 0 else 1)
  }

  function TargetCr(c: bv32): Fields
  {
    var r, s := FullReg(c), SecondReg(c);
    if c & 0x1000 == 0 then if s == 0 then FieldsI(Jalr, 0, r, 0, 0) else FieldsR(OpReg, 0, s, 0, 0, r)
    else if s == 0 then FieldsI(Jalr, 0, r, 0, 1) else FieldsR(OpReg, 0, s, r, 0, r)
  }

  function TargetQ2(c: bv32): Fields
  {
    var k, r := Kind(c), FullReg(c);
    if k == 16 then FieldsI(OpImm, Shamt(c), r, 1, r)
    else if k == 18 then FieldsI(Load, LwspImm(c), 2, 2, r)
    else if k == 19 then FieldsI(Load, LdspImm(c), 2, 3, r)
    else if k == 20 then TargetCr(c)
    else if k == 22 then FieldsS(Store, SwspImm(c), SecondReg(c), 2, 2)
    else FieldsS(Store, SdspImm(c), SecondReg(c), 2, 3)
  }

  /** The operands of the expansion of anything but C.EBREAK. */
  function Target(c: bv32): Fields
  {
    if Kind(c) < 8 then TargetQ0(c) else if Kind(c) < 16 then TargetQ1(c) else TargetQ2(c)
  }

  function OpcodeOf(op: Op): bv32
  {
    match op
    case Load => 0x03 case Store => 0x23 case OpImm => 0x13 case OpImm32 => 0x1B
    case OpReg => 0x33 case Op32 => 0x3B case Lui => 0x37 case Auipc => 0x17
    case Jal => 0x6F case Jalr => 0x67 case Branch => 0x63
    case MiscMem => 0x0F case System => 0x73 case Amo => 0x2F case Other => 0x7F
  }

  function Expand(c: bv32): bv32
  {
    if c == C_EBREAK then EBREAK
    else var g := Target(c); Encode(FormatOf(g.op), g, OpcodeOf(g.op))
  }

  // ---------- what the execution code reads ----------

  /** Do f and g agree in everything that the execution code of their opcode looks at? */
  predicate Agree(f: Fields, g: Fields)
  {
    && f.op == g.op
    && match f.op
       case Load => f.rd == g.rd && f.rs1 == g.rs1 && f.funct3 == g.funct3 && f.imm == g.imm
       case Store => f.rs2 == g.rs2 && f.rs1 == g.rs1 && f.funct3 == g.funct3 && f.imm == g.imm
       case OpImm => f.rd == g.rd && f.rs1 == g.rs1 && f.funct3 == g.funct3 && SameOperand(f, g)
       case OpImm32 => f.rd == g.rd && f.rs1 == g.rs1 && f.funct3 == g.funct3 && SameOperand(f, g)
       case OpReg => f.rd == g.rd && f.rs1 == g.rs1 && f.rs2 == g.rs2 && f.funct3 == g.funct3 && SameBase(f, g)
       case Op32 => f.rd == g.rd && f.rs1 == g.rs1 && f.rs2 == g.rs2 && f.funct3 == g.funct3 && SameBase(f, g)
       case Lui => f.rd == g.rd && f.imm == g.imm
       case Auipc => f.rd == g.rd && f.imm == g.imm
       case Jal => f.rd == g.rd && f.imm == g.imm
       case Jalr => f.rd == g.rd && f.rs1 == g.rs1 && f.imm == g.imm
       case Branch => f.rs1 == g.rs1 && f.rs2 == g.rs2 && f.funct3 == g.funct3 && f.imm == g.imm
       case System => f.call == g.call
       case _ => false
  }

  /** A shift looks at the low six bits of its immediate, a right shift also at bit 30 of inst. */
  predicate SameOperand(f: Fields, g: Fields)
  {
    if f.funct3 == 1 then f.imm & 63 == g.imm & 63
    else if f.funct3 == 5 then f.imm & 63 == g.imm & 63 && f.alt == g.alt
    else f.imm == g.imm
  }

  /** funct7 only selects the base instructions; which of two it is, bit 30 of inst says. */
  predicate SameBase(f: Fields, g: Fields)
  {
    && IsBase(f.funct7) && IsBase(g.funct7)
    && (f.funct3 == 0 || f.funct3 == 5 ==> f.alt == g.alt)
  }

  predicate IsBase(funct7: bv32)
  {
    funct7 == 0 || funct7 == 0x20
  }

  // ---------- the decoder ----------

  /** (int64_t)(imm << k) >> k, for an imm whose highest bit is the sign. */
  function Extend(imm: bv32, sign: bv32, mask: bv32): bv32
  {
    if imm & sign != 0 then imm | mask else imm
  }

  method GatherAddi4spn(c: bv32) returns (imm: bv32)
    ensures imm == Addi4spnImm(c)
  {
    imm := (c >> 1) & 0x3C0;
    imm := imm + ((c >> 7) & 0x30);
    imm := imm + ((c >> 2) & 8);
    imm := imm + ((c >> 4) & 4);
  }

  method GatherWord(c: bv32) returns (imm: bv32)
    ensures imm == WordImm(c)
  {
    imm := (c << 1) & 0x40;
    imm := imm + ((c >> 7) & 0x38);
    imm := imm + ((c >> 4) & 4);
  }

  method GatherDouble(c: bv32) returns (imm: bv32)
    ensures imm == DoubleImm(c)
  {
    imm := (c << 1) & 0xC0;
    imm := imm + ((c >> 7) & 0x38);
  }

  method GatherSp(c: bv32) returns (imm: bv32)
    ensures imm == SpImm(c)
  {
    imm := (c >> 3) & 0x200;
    imm := imm + ((c << 4) & 0x180);
    imm := imm + ((c << 1) & 0x40);
    imm := imm + ((c << 3) & 0x20);
    imm := imm + ((c >> 2) & 0x10);
    imm := Extend(imm, 0x200, 0xFFFF_FC00);
  }

  method GatherLui(c: bv32) returns (imm: bv32)
    ensures imm == LuiImm(c)
  {
    imm := (c << 5) & 0x2_0000;
    imm := imm + ((c << 10) & 0x1_F000);
    imm := Extend(imm, 0x2_0000, 0xFFFC_0000);
  }

  method GatherJump(c: bv32) returns (imm: bv32)
    ensures imm == JumpImm(c)
  {
    imm := (c >> 1) & 0xB40;
    imm := imm + ((c >> 2) & 0xE);
    imm := imm + ((c >> 7) & 0x10);
    imm := imm + ((c << 1) & 0x80);
    imm := imm + ((c << 2) & 0x400);
    imm := imm + ((c << 3) & 0x20);
    imm := Extend(imm, 0x800, 0xFFFF_F000);
  }

  method GatherBranch(c: bv32) returns (imm: bv32)
    ensures imm == BranchImm(c)
  {
    imm := (c >> 4) & 0x100;
    imm := imm + ((c << 1) & 0xC0);
    imm := imm + ((c << 3) & 0x20);
    imm := imm + ((c >> 7) & 0x18);
    imm := imm + ((c >> 2) & 6);
    imm := Extend(imm, 0x100, 0xFFFF_FE00);
  }

  method GatherLwsp(c: bv32) returns (imm: bv32)
    ensures imm == LwspImm(c)
  {
    imm := (c << 4) & 0xC0;
    imm := imm + ((c >> 7) & 0x20);
    imm := imm + ((c >> 2) & 0x1C);
  }

  method GatherLdsp(c: bv32) returns (imm: bv32)
    ensures imm == LdspImm(c)
  {
    imm := (c << 4) & 0x1C0;
    imm := imm + ((c >> 7) & 0x20);
    imm := imm + ((c >> 2) & 0x18);
  }

  method GatherSwsp(c: bv32) returns (imm: bv32)
    ensures imm == SwspImm(c)
  {
    imm := (c >> 1) & 0xC0;
    imm := imm + ((c >> 7) & 0x3C);
  }

  method GatherSdsp(c: bv32) returns (imm: bv32)
    ensures imm == SdspImm(c)
  {
    imm := (c >> 1) & 0x1C0;
    imm := imm + ((c >> 7) & 0x38);
  }

  /** The shift amount and, sign-extended, the six-bit immediate are gathered alike. */
  method GatherShamt(c: bv32) returns (imm: bv32)
    ensures imm == Shamt(c) && Extend(imm, 0x20, 0xFFFF_FFC0) == Imm6(c)
  {
    imm := (c >> 7) & 32;
    imm := imm + ((c >> 2) & 31);
  }

  lemma PrimedRegs(c: bv32)
    ensures ((c >> 2) & 7) + 8 == LowReg(c) && ((c >> 7) & 7) + 8 == HighReg(c)
  {
  }

  /** The loads and stores with primed registers, and C.ADDI4SPN. */
  method DecodeQ0(c: bv32) returns (f: Fields)
    requires Kind(c) in {0, 2, 3, 6, 7}
    ensures Agree(f, TargetQ0(c))
  {
    PrimedRegs(c);
    var k, rd, rs1 := Kind(c), ((c >> 2) & 7) + 8, ((c >> 7) & 7) + 8;
    if k == 0 {
      var imm := GatherAddi4spn(c);
      f := Fields(OpImm, rd, 2, 0, 0, 0, imm, false, NoCall);
    } else if k == 2 {
      var imm := GatherWord(c);
      f := Fields(Load, rd, rs1, 0, 2, 0, imm, false, NoCall);
    } else if k == 3 {
      var imm := GatherDouble(c);
      f := Fields(Load, rd, rs1, 0, 3, 0, imm, false, NoCall);
    } else if k == 6 {
      var imm := GatherWord(c);
      f := Fields(Store, rd, rs1, rd, 2, 0, imm, false, NoCall);
    } else {
      var imm := GatherDouble(c);
      f := Fields(Store, rd, rs1, rd, 3, 0, imm, false, NoCall);
    }
  }

  /** MISC_ALU with an immediate: bit 30 of inst is where the execution code looks for it. */
  method DecodeAluImm(c: bv32) returns (f: Fields)
    requires Kind(c) == 12 && (c >> 10) & 3 != 3
    ensures Agree(f, TargetAlu(c))
  {
    PrimedRegs(c);
    var s, rs1 := (c >> 10) & 3, ((c >> 7) & 7) + 8;
    var imm := GatherShamt(c);
    if s == 0 {
      f := Fields(OpImm, rs1, rs1, 0, 5, 0, imm, (c & !0x4000_0000) & 0x4000_0000 != 0, NoCall);
    } else if s == 1 {
      f := Fields(OpImm, rs1, rs1, 0, 5, 0, imm, (c | 0x4000_0000) & 0x4000_0000 != 0, NoCall);
    } else {
      f := Fields(OpImm, rs1, rs1, 0, 7, 0, Extend(imm, 0x20, 0xFFFF_FFC0), false, NoCall);
    }
  }

  /** MISC_ALU between two registers. */
  method DecodeAluReg(c: bv32) returns (f: Fields)
    requires Recognised(c) && Kind(c) == 12 && (c >> 10) & 3 == 3
    ensures Agree(f, TargetAlu(c))
  {
    PrimedRegs(c);
    var inst := c;
    var rs1, rs2, t := ((c >> 7) & 7) + 8, ((c >> 2) & 7) + 8, (c >> 5) & 3;
    if inst & 0x1000 != 0 {
      if inst & 0x20 == 0 { inst := inst | 0x4000_0000; }
      f := Fields(Op32, rs1, rs1, rs2, 0, 0, 0, inst & 0x4000_0000 != 0, NoCall);
    } else {
      var funct3: bv32;
      if t == 0 {
        inst := inst | 0x4000_0000;
        funct3 := 0;
      } else if t == 1 {
        funct3 := 4;
      } else if t == 2 {
        funct3 := 6;
      } else {
        funct3 := 7;
      }
      f := Fields(OpReg, rs1, rs1, rs2, funct3, 0, 0, inst & 0x4000_0000 != 0, NoCall);
    }
  }

  method DecodeQ1(c: bv32) returns (f: Fields)
    requires Recognised(c) && 8 <= Kind(c) < 16
    ensures Agree(f, TargetQ1(c))
  {
    var k, rd := Kind(c), (c >> 7) & 31;
    if k == 8 || k == 9 || k == 10 {
      var imm := GatherShamt(c);
      imm := Extend(imm, 0x20, 0xFFFF_FFC0);
      f := Fields(if k == 9 then OpImm32 else OpImm, rd, if k == 10 then 0 else rd, 0, 0, 0, imm, false, NoCall);
    } else if k == 11 {
      f := DecodeLui(c);
    } else if k == 12 {
      if (c >> 10) & 3 == 3 { f := DecodeAluReg(c); } else { f := DecodeAluImm(c); }
    } else {
      f := DecodeJump(c);
    }
  }

  /** C.LUI, or C.ADDI16SP when rd is the stack pointer. */
  method DecodeLui(c: bv32) returns (f: Fields)
    requires Kind(c) == 11
    ensures Agree(f, TargetQ1(c))
  {
    var rd := (c >> 7) & 31;
    if rd == 2 {
      var imm := GatherSp(c);
      f := Fields(OpImm, 2, 2, 0, 0, 0, imm, false, NoCall);
    } else {
      var imm := GatherLui(c);
      f := Fields(Lui, rd, ((c >> 7) & 7) + 8, 0, 0, 0, imm, false, NoCall);
    }
  }

  /** C.J, C.BEQZ and C.BNEZ. */
  method DecodeJump(c: bv32) returns (f: Fields)
    requires Kind(c) in {13, 14, 15}
    ensures Agree(f, TargetQ1(c))
  {
    if Kind(c) == 13 {
      var imm := GatherJump(c);
      f := Fields(Jal, 0, (c >> 7) & 31, 0, 0, 0, imm, false, NoCall);
    } else {
      PrimedRegs(c);
      var imm := GatherBranch(c);
      f := Fields(Branch, ((c >> 2) & 7) + 8, ((c >> 7) & 7) + 8, 0, (c >> 13) & 1, 0, imm, false, NoCall);
    }
  }

  /** C.JR, C.MV, C.JALR and C.ADD. */
  method DecodeCr(c: bv32) returns (f: Fields)
    requires Kind(c) == 20
    ensures Agree(f, TargetCr(c))
  {
    var rs1, rs2 := (c >> 7) & 31, (c >> 2) & 31;
    if c & 0x1000 != 0 {
      f := if rs2 != 0 then Fields(OpReg, rs1, rs1, rs2, 0, 0, 0, false, NoCall)
           else Fields(Jalr, 1, rs1, rs2, 0, 0, 0, false, NoCall);
    } else {
      f := if rs2 != 0 then Fields(OpReg, rs1, 0, rs2, 0, 0, 0, false, NoCall)
           else Fields(Jalr, 0, rs1, rs2, 0, 0, 0, false, NoCall);
    }
  }

  method DecodeQ2(c: bv32) returns (f: Fields)
    requires Kind(c) in {16, 18, 19, 20, 22, 23}
    ensures Agree(f, TargetQ2(c))
  {
    var k, rd, rs2 := Kind(c), (c >> 7) & 31, (c >> 2) & 31;
    if k == 16 {
      var imm := GatherShamt(c);
      f := Fields(OpImm, rd, rd, 0, 1, 0, imm, false, NoCall);
    } else if k == 18 {
      var imm := GatherLwsp(c);
      f := Fields(Load, rd, 2, 0, 2, 0, imm, false, NoCall);
    } else if k == 19 {
      var imm := GatherLdsp(c);
      f := Fields(Load, rd, 2, 0, 3, 0, imm, false, NoCall);
    } else if k == 20 {
      f := DecodeCr(c);
    } else if k == 22 {
      var imm := GatherSwsp(c);
      f := Fields(Store, 0, 2, rs2, 2, 0, imm, false, NoCall);
    } else {
      var imm := GatherSdsp(c);
      f := Fields(Store, 0, 2, rs2, 3, 0, imm, false, NoCall);
    }
  }

  // ---------- the two halves of the decoder agree ----------

  /** Not one of the opcodes with further cases of their own. */
  predicate Basic(op: Op)
  {
    op != System && op != Amo && op != MiscMem && op != Other
  }

  lemma LegalQ0(c: bv32)
    ensures Legal(FormatOf(TargetQ0(c).op), TargetQ0(c)) && Basic(TargetQ0(c).op)
  {
  }

  lemma LegalAlu(c: bv32)
    ensures Legal(FormatOf(TargetAlu(c).op), TargetAlu(c)) && Basic(TargetAlu(c).op)
  {
  }

  lemma LegalJump(c: bv32)
    requires Kind(c) in {13, 14, 15}
    ensures Legal(FormatOf(TargetQ1(c).op), TargetQ1(c)) && Basic(TargetQ1(c).op)
  {
  }

  lemma LegalImm(c: bv32)
    requires Kind(c) == 8 || Kind(c) == 9 || Kind(c) == 10
    ensures Legal(FormatOf(TargetQ1(c).op), TargetQ1(c)) && Basic(TargetQ1(c).op)
  {
  }

  lemma LegalLui(c: bv32)
    requires Kind(c) == 11
    ensures Legal(FormatOf(TargetQ1(c).op), TargetQ1(c)) && Basic(TargetQ1(c).op)
  {
  }

  lemma LegalQ1(c: bv32)
    requires 8 <= Kind(c) < 16
    ensures Legal(FormatOf(TargetQ1(c).op), TargetQ1(c)) && Basic(TargetQ1(c).op)
  {
    if Kind(c) == 12 {
      LegalAlu(c);
    } else if Kind(c) < 11 {
      LegalImm(c);
    } else if Kind(c) == 11 {
      LegalLui(c);
    } else {
      LegalJump(c);
    }
  }

  lemma LegalCr(c: bv32)
    ensures Legal(FormatOf(TargetCr(c).op), TargetCr(c)) && Basic(TargetCr(c).op)
  {
  }

  lemma LegalQ2(c: bv32)
    ensures Legal(FormatOf(TargetQ2(c).op), TargetQ2(c)) && Basic(TargetQ2(c).op)
  {
    if Kind(c) == 20 { LegalCr(c); }
  }

  lemma TargetLegal(c: bv32)
    requires Recognised(c)
    ensures Legal(FormatOf(Target(c).op), Target(c)) && Basic(Target(c).op)
  {
    if Kind(c) < 8 { LegalQ0(c); } else if Kind(c) < 16 { LegalQ1(c); } else { LegalQ2(c); }
  }

  lemma OpcodeOfOp(op: Op)
    ensures Opcode(OpcodeOf(op)) && OpOf(OpcodeOf(op)) == op
  {
  }

  /** The expansion is a 32-bit instruction that decodes to the target operands. */
  lemma ExpansionFields(c: bv32)
    requires Recognised(c) && c != C_EBREAK
    ensures var g := Target(c); SameIn(FormatOf(g.op), FieldsOf(Expand(c)), g) && Expand(c) & 127 == OpcodeOf(g.op)
  {
    var g := Target(c);
    TargetLegal(c);
    OpcodeOfOp(g.op);
    EncodedHolds(FormatOf(g.op), g, OpcodeOf(g.op));
    FieldsHeld(Expand(c), g, OpcodeOf(g.op));
  }

  lemma OperandThrough(f: Fields, g: Fields, h: Fields)
    requires SameOperand(f, g) && f.funct3 == g.funct3 && g.imm == h.imm && g.alt == h.alt
    ensures SameOperand(f, h)
  {
  }

  lemma BaseThrough(f: Fields, g: Fields, h: Fields)
    requires SameBase(f, g) && g.funct7 == h.funct7 && g.alt == h.alt
    ensures SameBase(f, h)
  {
  }

  lemma AgreeThrough(f: Fields, g: Fields, h: Fields)
    requires Agree(f, g) && SameIn(FormatOf(g.op), h, g) && Basic(g.op)
    ensures Agree(f, h)
  {
    if g.op == OpImm || g.op == OpImm32 {
      OperandThrough(f, g, h);
    } else if g.op == OpReg || g.op == Op32 {
      BaseThrough(f, g, h);
    }
  }

  /** fetch takes the expansion for a 32-bit instruction. */
  lemma ExpansionIsLong(c: bv32)
    requires Recognised(c)
    ensures Expand(c) & 3 == 3 && Expand(c) & 0x1C != 0x1C
  {
    if c != C_EBREAK {
      ExpansionFields(c);
      TargetLegal(c);
      LongOpcode(Expand(c), Target(c).op);
    }
  }

  lemma LongOpcode(w: bv32, op: Op)
    requires Basic(op) && w & 127 == OpcodeOf(op)
    ensures w & 3 == 3 && w & 0x1C != 0x1C
  {
    assert w & 3 == (w & 127) & 3;
    assert w & 0x1C == (w & 127) & 0x1C;
  }

  /** The 16-bit half of decode_exc finds what the 32-bit half finds in the expansion. */
  method DecodeHalf(c: bv32) returns (f: Fields)
    requires Recognised(c)
    ensures Agree(f, FieldsOf(Expand(c)))
  {
    if c == C_EBREAK { return Fields(System, 0, 0, 0, 0, 0, 0, false, Ebreak); }
    var k := Kind(c);
    if k < 8 {
      f := DecodeQ0(c);
    } else if k < 16 {
      f := DecodeQ1(c);
    } else {
      f := DecodeQ2(c);
    }
    ExpansionFields(c);
    TargetLegal(c);
    AgreeThrough(f, Target(c), FieldsOf(Expand(c)));
  }
}
