/**
 The 32-bit instruction formats: where decode_exc finds the fields of a word, and encoders that put them
 there, as section 2.3 of the RISC-V Unprivileged ISA lays them out. The int64_t imm is always the sign
 extension of its low 32 bits, and is held by them.
 */
module Decode {
  /** inst_op_32, without the opcodes this model does not execute. */
  datatype Op =
    | Load | Store | OpImm | OpImm32 | OpReg | Op32 | Lui | Auipc
    | Jal | Jalr | Branch | MiscMem | System | Amo | Other

  datatype Call = NoCall | Ecall | Ebreak

  /** The locals of decode_exc once an instruction is decoded; alt is bit 30 of inst. */
  datatype Fields = Fields(
    op: Op, rd: bv32, rs1: bv32, rs2: bv32, funct3: bv32, funct7: bv32, imm: bv32, alt: bool, call: Call)

  datatype Format = R | I | S | B | U | J | Diff

  /** The inst_op_32 enumeration. */
  function OpOf(w: bv32): Op
  {
    var k := (w >> 2) & 31;
    if k == 0 then Load else if k == 8 then Store
    else if k == 4 then OpImm else if k == 6 then OpImm32
    else if k == 12 then OpReg else if k == 14 then Op32
    else if k == 13 then Lui else if k == 5 then Auipc
    else if k == 27 then Jal else if k == 25 then Jalr else if k == 24 then Branch
    else if k == 3 then MiscMem else if k == 28 then System else if k == 11 then Amo
    else Other
  }

  /** inst_type_lookup_32. */
  function FormatOf(op: Op): Format
  {
    match op
    case Load => I case OpImm => I case OpImm32 => I case Jalr => I case MiscMem => I case System => I
    case Store => S case Branch => B case Lui => U case Auipc => U case Jal => J
    case OpReg => R case Op32 => R case Amo => R
    case Other => Diff
  }

  // ---------- fields ----------

  function Rd(w: bv32): bv32 { (w >> 7) & 31 }

  function Rs1(w: bv32): bv32 { (w >> 15) & 31 }

  function Rs2(w: bv32): bv32 { (w >> 20) & 31 }

  function Funct3(w: bv32): bv32 { (w >> 12) & 7 }

  function Funct7(w: bv32): bv32 { (w >> 25) & 127 }

  function Bit30(w: bv32): bool { w & 0x4000_0000 != 0 }

  function Negative(w: bv32): bool { w & 0x8000_0000 != 0 }

  /** Ones in the positions of mask if the word is negative: bit 31 is the sign of every immediate. */
  function Sign(w: bv32, mask: bv32): bv32
  {
    if Negative(w) then mask else 0
  }

  function ImmI(w: bv32): bv32
  {
    Sign(w, 0xFFFF_F000) | (w >> 20)
  }

  function ImmS(w: bv32): bv32
  {
    Sign(w, 0xFFFF_F000) | ((w >> 25) << 5) | ((w >> 7) & 31)
  }

  function ImmB(w: bv32): bv32
  {
    Sign(w, 0xFFFF_F000) | (((w >> 7) & 1) << 11) | (((w >> 25) & 63) << 5) | (((w >> 8) & 15) << 1)
  }

  function ImmU(w: bv32): bv32
  {
    (w >> 12) << 12
  }

  function ImmJ(w: bv32): bv32
  {
    Sign(w, 0xFFF0_0000) | (((w >> 12) & 0xFF) << 12) | (((w >> 20) & 1) << 11) | (((w >> 21) & 0x3FF) << 1)
  }

  function ImmOf(w: bv32, t: Format): bv32
  {
    match t
    case I => ImmI(w) case S => ImmS(w) case B => ImmB(w) case U => ImmU(w) case J => ImmJ(w)
    case R => 0 case Diff => 0
  }

  const ECALL: bv32 := 0x73
  const EBREAK: bv32 := 0x10_0073

  function FieldsOf(w: bv32): Fields
  {
    var op := OpOf(w);
    var t := FormatOf(op);
    Fields(op, Rd(w), Rs1(w), if t == R || t == S || t == B then Rs2(w) else 0, Funct3(w),
           if t == R then Funct7(w) else 0, ImmOf(w, t), Bit30(w),
           if op != System then NoCall else if w == ECALL then Ecall else if w == EBREAK then Ebreak else NoCall)
  }

  // ---------- the decoder ----------

  /** x >> 20 of an int32_t. */
  function Asr20(w: bv32): bv32
  {
    if Negative(w) then (w >> 20) | 0xFFFF_F000 else w >> 20
  }

  /** if (imm & 1) imm |= 1 << 11, else imm &= ~(1 << 11); then imm &= ~1. */
  function MoveBit(imm: bv32): bv32
  {
    (if imm & 1 != 0 then imm | 0x800 else imm & !0x800) & !1
  }

  lemma GatherI(w: bv32)
    ensures Asr20(w) == ImmI(w)
  {
    if Negative(w) {} else {}
  }

  lemma GatherU(w: bv32)
    ensures w & !0xFFF == ImmU(w)
  {
  }

  lemma GatherS(w: bv32)
    ensures Asr20(w & 0xFE00_0000) | Rd(w) == ImmS(w)
  {
    if Negative(w) {} else {}
  }

  lemma GatherB(w: bv32)
    ensures MoveBit(Asr20(w & 0xFE00_0000) | Rd(w)) == ImmB(w)
  {
    if Negative(w) {} else {}
  }

  /** Mask out bits 19:12 and copy in those of the word. */
  function CopyMiddle(imm: bv32, w: bv32): bv32
  {
    (imm & !0xF_F000) | (w & 0xF_F000)
  }

  /** The immediate of a jump before bit 0 has been moved to bit 11. */
  function Unmoved(w: bv32): bv32
  {
    Sign(w, 0xFFF0_0000) | (w & 0xF_F000) | (w >> 20)
  }

  lemma GatherUnmoved(w: bv32)
    ensures CopyMiddle(Asr20(w & !0xFFF), w) == Unmoved(w)
  {
    if Negative(w) {} else {}
  }

  lemma MoveUnmoved(w: bv32)
    ensures MoveBit(Unmoved(w)) == ImmJ(w)
  {
    if Negative(w) {} else {}
  }

  method GatherStore(inst: bv32) returns (imm: bv32)
    ensures imm == ImmS(inst)
  {
    GatherS(inst);
    imm := Asr20(inst & 0xFE00_0000);
    imm := imm | Rd(inst);
  }

  method GatherBranch(inst: bv32) returns (imm: bv32)
    ensures imm == ImmB(inst)
  {
    GatherB(inst);
    imm := Asr20(inst & 0xFE00_0000);
    imm := MoveBit(imm | Rd(inst));
  }

  method GatherJump(inst: bv32) returns (imm: bv32)
    ensures imm == ImmJ(inst)
  {
    imm := CopyMiddle(Asr20(inst & !0xFFF), inst);
    GatherUnmoved(inst);
    imm := MoveBit(imm);
    MoveUnmoved(inst);
  }

  /** The immediate of a word, gathered as decode_exc does it. */
  method Gather(inst: bv32, t: Format) returns (imm: bv32)
    ensures imm == ImmOf(inst, t)
  {
    match t
    case I =>
      GatherI(inst);
      imm := Asr20(inst);
    case S => imm := GatherStore(inst);
    case B => imm := GatherBranch(inst);
    case U =>
      GatherU(inst);
      imm := inst & !0xFFF;
    case J => imm := GatherJump(inst);
    case R => imm := 0;
    case Diff => imm := 0;
  }

  method DecodeWord(inst: bv32) returns (f: Fields)
    ensures f == FieldsOf(inst)
  {
    var op := OpOf(inst);
    var t := FormatOf(op);
    var imm := Gather(inst, t);
    var rs2: bv32, funct7: bv32 := 0, 0;
    match t {
      case R =>
        rs2 := (inst >> 20) & 31;
        funct7 := (inst >> 25) & 127;
      case S => rs2 := (inst >> 20) & 31;
      case B => rs2 := (inst >> 20) & 31;
      case _ =>
    }
    var call := NoCall;
    if op == System {
      if inst == ECALL { call := Ecall; } else if inst == EBREAK { call := Ebreak; }
    }
    f := Fields(op, (inst >> 7) & 31, (inst >> 15) & 31, rs2, (inst >> 12) & 7, funct7, imm, Bit30(inst), call);
  }

  // ---------- encoders ----------

  predicate Reg(x: bv32) { x & 0xFFFF_FFE0 == 0 }

  predicate Opcode(x: bv32) { x & 0xFFFF_FF80 == 0 }

  /** Are all bits from the sign bit of the immediate upwards the same? */
  predicate Fits(imm: bv32, top: bv32)
  {
    imm & top == 0 || imm & top == top
  }

  predicate Fits12(imm: bv32) { Fits(imm, 0xFFFF_F800) }

  predicate FitsB(imm: bv32) { Fits(imm, 0xFFFF_F000) && imm & 1 == 0 }

  predicate FitsU(imm: bv32) { imm & 0xFFF == 0 }

  predicate FitsJ(imm: bv32) { Fits(imm, 0xFFF0_0000) && imm & 1 == 0 }

  /** The fields that are where they are in every format. */
  function Common(rs1: bv32, funct3: bv32, rd: bv32, opcode: bv32): bv32
  {
    (rs1 << 15) | (funct3 << 12) | (rd << 7) | opcode
  }

  function EncodeR(funct7: bv32, rs2: bv32, rs1: bv32, funct3: bv32, rd: bv32, opcode: bv32): bv32
  {
    (funct7 << 25) | (rs2 << 20) | Common(rs1, funct3, rd, opcode)
  }

  function EncodeI(imm: bv32, rs1: bv32, funct3: bv32, rd: bv32, opcode: bv32): bv32
  {
    (imm << 20) | Common(rs1, funct3, rd, opcode)
  }

  function EncodeS(imm: bv32, rs2: bv32, rs1: bv32, funct3: bv32, opcode: bv32): bv32
  {
    ((imm >> 5) << 25) | (rs2 << 20) | Common(rs1, funct3, imm & 31, opcode)
  }

  function EncodeB(imm: bv32, rs2: bv32, rs1: bv32, funct3: bv32, opcode: bv32): bv32
  {
    ((imm >> 12) << 31) | (((imm >> 5) & 63) << 25) | (rs2 << 20)
    | Common(rs1, funct3, (imm & 30) | ((imm >> 11) & 1), opcode)
  }

  function EncodeU(imm: bv32, rd: bv32, opcode: bv32): bv32
  {
    imm | (rd << 7) | opcode
  }

  function EncodeJ(imm: bv32, rd: bv32, opcode: bv32): bv32
  {
    ((imm >> 20) << 31) | (((imm >> 1) & 0x3FF) << 21) | (((imm >> 11) & 1) << 20) | (((imm >> 12) & 0xFF) << 12)
    | (rd << 7) | opcode
  }

  // ---------- gathering undoes scattering ----------

  lemma ReadR(funct7: bv32, rs2: bv32, rs1: bv32, funct3: bv32, rd: bv32, opcode: bv32)
    requires Opcode(funct7) && Reg(rs2) && Reg(rs1) && funct3 <= 7 && Reg(rd) && Opcode(opcode)
    ensures var w := EncodeR(funct7, rs2, rs1, funct3, rd, opcode);
            && Funct7(w) == funct7 && Rs2(w) == rs2 && Rs1(w) == rs1 && Funct3(w) == funct3 && Rd(w) == rd
            && w & 127 == opcode && Bit30(w) == (funct7 & 0x20 != 0)
  {
  }

  lemma ReadI(imm: bv32, rs1: bv32, funct3: bv32, rd: bv32, opcode: bv32)
    requires Fits12(imm) && Reg(rs1) && funct3 <= 7 && Reg(rd) && Opcode(opcode)
    ensures var w := EncodeI(imm, rs1, funct3, rd, opcode);
            ImmI(w) == imm && Rs1(w) == rs1 && Funct3(w) == funct3 && Rd(w) == rd && w & 127 == opcode
  {
    if Negative(imm) {} else {}
  }

  lemma ReadBit30(imm: bv32, rs1: bv32, funct3: bv32, rd: bv32, opcode: bv32)
    requires Reg(rs1) && funct3 <= 7 && Reg(rd) && Opcode(opcode)
    ensures Bit30(EncodeI(imm, rs1, funct3, rd, opcode)) == (imm & 0x400 != 0)
  {
  }

  lemma ReadS(imm: bv32, rs2: bv32, rs1: bv32, funct3: bv32, opcode: bv32)
    requires Fits12(imm) && Reg(rs2) && Reg(rs1) && funct3 <= 7 && Opcode(opcode)
    ensures var w := EncodeS(imm, rs2, rs1, funct3, opcode);
            ImmS(w) == imm && Rs2(w) == rs2 && Rs1(w) == rs1 && Funct3(w) == funct3 && w & 127 == opcode
  {
    if Negative(imm) {} else {}
  }

  lemma ReadB(imm: bv32, rs2: bv32, rs1: bv32, funct3: bv32, opcode: bv32)
    requires FitsB(imm) && Reg(rs2) && Reg(rs1) && funct3 <= 7 && Opcode(opcode)
    ensures var w := EncodeB(imm, rs2, rs1, funct3, opcode);
            ImmB(w) == imm && Rs2(w) == rs2 && Rs1(w) == rs1 && Funct3(w) == funct3 && w & 127 == opcode
  {
    if Negative(imm) {} else {}
  }

  lemma ReadU(imm: bv32, rd: bv32, opcode: bv32)
    requires FitsU(imm) && Reg(rd) && Opcode(opcode)
    ensures var w := EncodeU(imm, rd, opcode);
            ImmU(w) == imm && Rd(w) == rd && w & 127 == opcode
  {
  }

  lemma ReadJ(imm: bv32, rd: bv32, opcode: bv32)
    requires FitsJ(imm) && Reg(rd) && Opcode(opcode)
    ensures var w := EncodeJ(imm, rd, opcode);
            ImmJ(w) == imm && Rd(w) == rd && w & 127 == opcode
  {
    ReadJImm(imm, rd, opcode);
  }

  lemma ReadJImm(imm: bv32, rd: bv32, opcode: bv32)
    requires FitsJ(imm) && Reg(rd) && Opcode(opcode)
    ensures ImmJ(EncodeJ(imm, rd, opcode)) == imm
  {
    var w := EncodeJ(imm, rd, opcode);
    ReadJParts(imm, rd, opcode, w);
    JoinJ(imm, w);
  }

  lemma ReadJParts(imm: bv32, rd: bv32, opcode: bv32, w: bv32)
    requires FitsJ(imm) && Reg(rd) && Opcode(opcode) && w == EncodeJ(imm, rd, opcode)
    ensures Sign(w, 0xFFF0_0000) == imm & 0xFFF0_0000 && ((w >> 12) & 0xFF) << 12 == imm & 0xF_F000
    ensures ((w >> 20) & 1) << 11 == imm & 0x800 && ((w >> 21) & 0x3FF) << 1 == imm & 0x7FE
  {
    if Negative(imm) {} else {}
  }

  lemma JoinJ(imm: bv32, w: bv32)
    requires imm & 1 == 0
    requires Sign(w, 0xFFF0_0000) == imm & 0xFFF0_0000 && ((w >> 12) & 0xFF) << 12 == imm & 0xF_F000
    requires ((w >> 20) & 1) << 11 == imm & 0x800 && ((w >> 21) & 0x3FF) << 1 == imm & 0x7FE
    ensures ImmJ(w) == imm
  {
  }

  // ---------- scattering undoes gathering ----------

  lemma WriteR(w: bv32)
    ensures EncodeR(Funct7(w), Rs2(w), Rs1(w), Funct3(w), Rd(w), w & 127) == w
  {
  }

  lemma WriteI(w: bv32)
    ensures Fits12(ImmI(w)) && EncodeI(ImmI(w), Rs1(w), Funct3(w), Rd(w), w & 127) == w
  {
    if Negative(w) {} else {}
  }

  lemma WriteS(w: bv32)
    ensures Fits12(ImmS(w)) && EncodeS(ImmS(w), Rs2(w), Rs1(w), Funct3(w), w & 127) == w
  {
    if Negative(w) {} else {}
  }

  lemma WriteB(w: bv32)
    ensures FitsB(ImmB(w)) && EncodeB(ImmB(w), Rs2(w), Rs1(w), Funct3(w), w & 127) == w
  {
    if Negative(w) {} else {}
  }

  lemma WriteU(w: bv32)
    ensures FitsU(ImmU(w)) && EncodeU(ImmU(w), Rd(w), w & 127) == w
  {
  }

  lemma WriteJ(w: bv32)
    ensures FitsJ(ImmJ(w)) && EncodeJ(ImmJ(w), Rd(w), w & 127) == w
  {
    if Negative(w) {} else {}
  }

  // ---------- any word ----------

  function Encode(t: Format, f: Fields, opcode: bv32): bv32
  {
    match t
    case R => EncodeR(f.funct7, f.rs2, f.rs1, f.funct3, f.rd, opcode)
    case I => EncodeI(f.imm, f.rs1, f.funct3, f.rd, opcode)
    case S => EncodeS(f.imm, f.rs2, f.rs1, f.funct3, opcode)
    case B => EncodeB(f.imm, f.rs2, f.rs1, f.funct3, opcode)
    case U => EncodeU(f.imm, f.rd, opcode)
    case J => EncodeJ(f.imm, f.rd, opcode)
    case Diff => opcode
  }

  /** Can the format hold these fields? Bit 30 is in funct7 or in the immediate. */
  predicate Legal(t: Format, f: Fields)
  {
    && Reg(f.rd) && Reg(f.rs1) && Reg(f.rs2) && f.funct3 <= 7 && Opcode(f.funct7)
    && match t
       case I => Fits12(f.imm) && f.alt == (f.imm & 0x400 != 0)
       case S => Fits12(f.imm)
       case B => FitsB(f.imm)
       case U => FitsU(f.imm)
       case J => FitsJ(f.imm)
       case R => f.alt == (f.funct7 & 0x20 != 0)
       case Diff => false
  }

  predicate HasRd(t: Format) { t == R || t == I || t == U || t == J }

  predicate HasRs1(t: Format) { t == R || t == I || t == S || t == B }

  predicate HasRs2(t: Format) { t == R || t == S || t == B }

  predicate HasImm(t: Format) { t != R && t != Diff }

  predicate HasBit30(t: Format) { t == R || t == I }

  /** Do f and g agree in every field this format has? */
  predicate SameIn(t: Format, f: Fields, g: Fields)
  {
    && f.op == g.op
    && (HasRd(t) ==> f.rd == g.rd)
    && (HasRs1(t) ==> f.rs1 == g.rs1 && f.funct3 == g.funct3)
    && (HasRs2(t) ==> f.rs2 == g.rs2)
    && (t == R ==> f.funct7 == g.funct7)
    && (HasBit30(t) ==> f.alt == g.alt)
    && (HasImm(t) ==> f.imm == g.imm)
  }

  lemma OpcodeDecides(w: bv32, opcode: bv32)
    requires w & 127 == opcode
    ensures OpOf(w) == OpOf(opcode)
  {
    assert (w >> 2) & 31 == (opcode >> 2) & 31;
  }

  /** Does the word hold the fields this format has, each in its place? */
  predicate Holds(t: Format, w: bv32, f: Fields)
  {
    && (HasRd(t) ==> Rd(w) == f.rd)
    && (HasRs1(t) ==> Rs1(w) == f.rs1 && Funct3(w) == f.funct3)
    && (HasRs2(t) ==> Rs2(w) == f.rs2)
    && (t == R ==> Funct7(w) == f.funct7)
    && (HasBit30(t) ==> Bit30(w) == f.alt)
    && (HasImm(t) ==> ImmOf(w, t) == f.imm)
  }

  lemma EncodedHoldsI(f: Fields, opcode: bv32)
    requires Legal(I, f) && Opcode(opcode)
    ensures Holds(I, Encode(I, f, opcode), f) && Encode(I, f, opcode) & 127 == opcode
  {
    ReadI(f.imm, f.rs1, f.funct3, f.rd, opcode);
    ReadBit30(f.imm, f.rs1, f.funct3, f.rd, opcode);
  }

  lemma EncodedHoldsStore(t: Format, f: Fields, opcode: bv32)
    requires Legal(t, f) && Opcode(opcode) && (t == S || t == B)
    ensures Holds(t, Encode(t, f, opcode), f) && Encode(t, f, opcode) & 127 == opcode
  {
    if t == S {
      ReadS(f.imm, f.rs2, f.rs1, f.funct3, opcode);
    } else {
      ReadB(f.imm, f.rs2, f.rs1, f.funct3, opcode);
    }
  }

  lemma EncodedHolds(t: Format, f: Fields, opcode: bv32)
    requires Legal(t, f) && Opcode(opcode)
    ensures Holds(t, Encode(t, f, opcode), f) && Encode(t, f, opcode) & 127 == opcode
  {
    match t {
      case R => ReadR(f.funct7, f.rs2, f.rs1, f.funct3, f.rd, opcode);
      case I => EncodedHoldsI(f, opcode);
      case U => ReadU(f.imm, f.rd, opcode);
      case J => ReadJ(f.imm, f.rd, opcode);
      case _ => EncodedHoldsStore(t, f, opcode);
    }
  }

  lemma FieldsHeld(w: bv32, f: Fields, opcode: bv32)
    requires w & 127 == opcode && f.op == OpOf(opcode) && Holds(FormatOf(f.op), w, f)
    ensures SameIn(FormatOf(f.op), FieldsOf(w), f)
  {
    OpcodeDecides(w, opcode);
  }

  /** Decoding what was encoded gives every field back. */
  lemma DecodeEncoded(t: Format, f: Fields, opcode: bv32)
    requires Legal(t, f) && Opcode(opcode) && f.op == OpOf(opcode) && t == FormatOf(f.op)
    ensures SameIn(t, FieldsOf(Encode(t, f, opcode)), f)
  {
    EncodedHolds(t, f, opcode);
    FieldsHeld(Encode(t, f, opcode), f, opcode);
  }

  /** Encoding what was decoded gives the word back, and what was decoded is legal. */
  lemma EncodeDecoded(w: bv32)
    requires FormatOf(OpOf(w)) != Diff
    ensures var t := FormatOf(OpOf(w)); Legal(t, FieldsOf(w)) && Encode(t, FieldsOf(w), w & 127) == w
  {
    match FormatOf(OpOf(w)) {
      case R => WriteR(w);
      case I => WriteI(w);
      case S => WriteS(w);
      case B => WriteB(w);
      case U => WriteU(w);
      case J => WriteJ(w);
    }
  }
}
