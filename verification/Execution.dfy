/**
 The execution half of decode_exc, for RV64I: what an instruction does to the registers, to pc and, through
 virt_mem_fetch and virt_mem_store, to memory. Registers are held as the unsigned values of their bits.
 */
module Execution {
  import opened Base
  import opened BitOps
  import opened Tlb
  import opened Mmu
  import opened Decode
  import opened Compressed

  datatype Cpu = Cpu(regs: seq<U64>, pc: U64, s: Cached)

  predicate WellFormed(c: Cpu)
  {
    |c.regs| == 32 && Shape(c.s.tlb)
  }

  /**
   How the execution ends: going on, with or without emptying the instruction buffer; with an exception, whose
   create_exception call gets this cause, this tval and this state; or in code outside this model.
   */
  datatype Result = Next(cpu: Cpu, drops: bool) | Raised(code: int, tval: U64, cpu: Cpu) | Elsewhere

  // ---------- arithmetic ----------

  type RegNo = x: int | 0 <= x < 32

  function Number(r: bv32): RegNo
  {
    (r & 31) as int
  }

  function Pow2(k: nat): (r: int)
    ensures r > 0
  {
    if k == 0 then 1 else 2 * Pow2(k - 1)
  }

  /** An int64_t by its bits. */
  function Signed(x: U64): int
  {
    if x < 0x8000_0000_0000_0000 then x else x - 0x1_0000_0000_0000_0000
  }

  /** The number that the low n bits stand for. */
  function Value(w: bv32, n: nat): nat
    decreases w, n
  {
    if n == 0 then 0 else (if w & 1 != 0 then 1 else 0) + 2 * Value(w >> 1, n - 1)
  }

  /** The int64_t imm. */
  function ImmValue(imm: bv32): int
  {
    if Negative(imm) then Value(imm, 32) - 0x1_0000_0000 else Value(imm, 32)
  }

  /** The operations selected by funct3 on 64 bits; alt subtracts or shifts arithmetically. */
  function Alu(funct3: bv32, alt: bool, a: U64, b: U64): U64
  {
    if funct3 == 0 then if alt then Wrap(a - b) else Wrap(a + b)
    else if funct3 == 1 then Wrap(a * Pow2(b % 64))
    else if funct3 == 2 then if Signed(a) < Signed(b) then 1 else 0
    else if funct3 == 3 then if a < b then 1 else 0
    else if funct3 == 4 then Wrap(Bits(Xor, a, b, 64))
    else if funct3 == 5 then Wrap((if alt then Signed(a) else a) / Pow2(b % 64))
    else if funct3 == 6 then Wrap(Bits(Or, a, b, 64))
    else Wrap(Bits(And, a, b, 64))
  }

  /** The same on 32 bits, for the three funct3 that have a base instruction. */
  function Alu32(funct3: bv32, alt: bool, a: U64, b: U64): U64
  {
    var low := a % 0x1_0000_0000;
    if funct3 == 0 then if alt then Sext32(a - b) else Sext32(a + b)
    else if funct3 == 1 then Sext32(low * Pow2(b % 32))
    else Sext32((if alt && low >= 0x8000_0000 then low - 0x1_0000_0000 else low) / Pow2(b % 32))
  }

  predicate HasAlu32(funct3: bv32)
  {
    funct3 == 0 || funct3 == 1 || funct3 == 5
  }

  predicate Taken(funct3: bv32, a: U64, b: U64)
  {
    if funct3 == 0 then a == b
    else if funct3 == 1 then a != b
    else if funct3 == 4 then Signed(a) < Signed(b)
    else if funct3 == 5 then Signed(a) >= Signed(b)
    else if funct3 == 6 then a < b
    else if funct3 == 7 then a >= b
    else false
  }

  /** The second operand of an instruction with an immediate. */
  function Operand(f: Fields): U64
  {
    if f.funct3 == 1 || f.funct3 == 5 then Wrap(Value(f.imm, 6)) else Wrap(ImmValue(f.imm))
  }

  function Width(funct3: bv32): nat
  {
    var k := funct3 & 3;
    if k == 0 then 1 else if k == 1 then 2 else if k == 2 then 4 else 8
  }

  /** The register value after a load of v: funct3 without bit 2 sign-extends. */
  function Loaded(v: nat, funct3: bv32): U64
  {
    if funct3 & 4 != 0 then Wrap(v)
    else if Width(funct3) == 1 then Wrap(if v < 0x80 then v else v - 0x100)
    else if Width(funct3) == 2 then Wrap(if v < 0x8000 then v else v - 0x1_0000)
    else if Width(funct3) == 4 then Sext32(v)
    else Wrap(v)
  }

  // ---------- instructions ----------

  function Write(c: Cpu, r: bv32, v: U64): (c': Cpu)
    requires WellFormed(c)
    ensures WellFormed(c')
  {
    c.(regs := c.regs[Number(r) := v])
  }

  function Read(c: Cpu, r: bv32): U64
    requires WellFormed(c)
  {
    c.regs[Number(r)]
  }

  /** pc += inst_len / 8 */
  function Advance(c: Cpu, len: nat): Result
  {
    Next(c.(pc := Wrap(c.pc + len)), false)
  }

  const BPOINT := 3

  /** A jump to a target, which raises an exception if it is odd. */
  function Jump(c: Cpu, target: U64): Result
  {
    var c' := c.(pc := target);
    if target % 2 == 1 then Raised(IMISALIGN, target, c') else Next(c', true)
  }

  /** HANDLE_MEM_ERROR for a load or a store: the access fault's number, the page fault's number. */
  function Fault(c: Cpu, out: Outcome, addr: U64, access: nat, page: nat): Result
    requires !out.Done?
  {
    Raised(if out.AccessFault? then access else page, addr, c)
  }

  /** What is left to do once memory has answered. */
  function FinishLoad(rd: bv32, funct3: bv32, len: nat, c: Cpu, addr: U64, out: Outcome): Result
    requires WellFormed(c)
  {
    if out.Done? then Advance(Write(c, rd, Loaded(out.value, funct3)), len) else Fault(c, out, addr, 5, 13)
  }

  function ExecuteLoad(f: Fields, len: nat, c: Cpu): Result
    requires WellFormed(c)
  {
    LoadFrom(f.rd, f.funct3, len, c, Wrap(Read(c, f.rs1) + ImmValue(f.imm)))
  }

  function LoadFrom(rd: bv32, funct3: bv32, len: nat, c: Cpu, addr: U64): Result
    requires WellFormed(c)
  {
    var (s, out) := TlbAccess(c.s, Access(false, true), Width(funct3), addr, 0);
    FinishLoad(rd, funct3, len, c.(s := s), addr, out)
  }

  function FinishStore(len: nat, c: Cpu, addr: U64, out: Outcome): Result
    requires WellFormed(c)
  {
    if out.Done? then Advance(c, len) else Fault(c, out, addr, 7, 15)
  }

  function ExecuteStore(f: Fields, len: nat, c: Cpu): Result
    requires WellFormed(c)
  {
    if f.funct3 & 4 != 0 then Advance(c, len) else StoreFrom(f, len, c)
  }

  function StoreFrom(f: Fields, len: nat, c: Cpu): Result
    requires WellFormed(c)
  {
    StoreTo(Width(f.funct3), len, c, Wrap(Read(c, f.rs1) + ImmValue(f.imm)), Read(c, f.rs2))
  }

  function StoreTo(n: nat, len: nat, c: Cpu, addr: U64, data: U64): Result
    requires WellFormed(c)
  {
    var (s, out) := TlbAccess(c.s, Access(true, false), n, addr, data);
    FinishStore(len, c.(s := s), addr, out)
  }

  function ExecuteBranch(f: Fields, len: nat, c: Cpu): Result
    requires WellFormed(c)
  {
    if Taken(f.funct3, Read(c, f.rs1), Read(c, f.rs2)) then Jump(c, Wrap(c.pc + ImmValue(f.imm)))
    else Advance(c, len)
  }

  function ExecuteJal(f: Fields, len: nat, c: Cpu): Result
    requires WellFormed(c)
  {
    Jump(Write(c, f.rd, Wrap(c.pc + len)), Wrap(c.pc + ImmValue(f.imm)))
  }

  function ExecuteJalr(f: Fields, len: nat, c: Cpu): Result
    requires WellFormed(c)
  {
    var target := Wrap(Read(c, f.rs1) + ImmValue(f.imm));
    Jump(Write(c, f.rd, Wrap(c.pc + len)), Even(target))
  }

  /** OP_IMM and OP_IMM_32: bit 30 of inst matters to right shifts only. */
  function ExecuteImm(f: Fields, len: nat, c: Cpu): Result
    requires WellFormed(c)
  {
    var a, b, alt := Read(c, f.rs1), Operand(f), f.funct3 == 5 && f.alt;
    if f.op == OpImm then Advance(Write(c, f.rd, Alu(f.funct3, alt, a, b)), len)
    else if HasAlu32(f.funct3) then Advance(Write(c, f.rd, Alu32(f.funct3, alt, a, b)), len)
    else Elsewhere
  }

  /** OP and OP_32 without the M extension. */
  function ExecuteReg(f: Fields, len: nat, c: Cpu): Result
    requires WellFormed(c)
  {
    var a, b, alt := Read(c, f.rs1), Read(c, f.rs2), (f.funct3 == 0 || f.funct3 == 5) && f.alt;
    if !IsBase(f.funct7) then Elsewhere
    else if f.op == OpReg then Advance(Write(c, f.rd, Alu(f.funct3, alt, a, b)), len)
    else if HasAlu32(f.funct3) then Advance(Write(c, f.rd, Alu32(f.funct3, alt, a, b)), len)
    else Elsewhere
  }

  function ExecuteSystem(f: Fields, c: Cpu): Result
  {
    match f.call
    case Ecall => Raised(c.s.core.priv + 8, c.pc, c)
    case Ebreak => Raised(BPOINT, c.pc, c)
    case NoCall => Elsewhere
  }

  /** len is inst_len / 8. */
  function Execute(f: Fields, len: nat, c: Cpu): Result
    requires WellFormed(c)
  {
    match f.op
    case Load => ExecuteLoad(f, len, c)
    case Store => ExecuteStore(f, len, c)
    case OpImm => ExecuteImm(f, len, c)
    case OpImm32 => ExecuteImm(f, len, c)
    case OpReg => ExecuteReg(f, len, c)
    case Op32 => ExecuteReg(f, len, c)
    case Lui => Advance(Write(c, f.rd, Wrap(ImmValue(f.imm))), len)
    case Auipc => Advance(Write(c, f.rd, Wrap(ImmValue(f.imm) + c.pc)), len)
    case Jal => ExecuteJal(f, len, c)
    case Jalr => ExecuteJalr(f, len, c)
    case Branch => ExecuteBranch(f, len, c)
    case System => ExecuteSystem(f, c)
    case MiscMem => if f.funct3 == 1 then Next(c.(pc := Wrap(c.pc + len)), true) else Advance(c, len)
    case _ => Elsewhere
  }

  // ---------- compressed instructions ----------

  lemma SixBits(x: bv32, y: bv32)
    requires x & 63 == y & 63
    ensures Value(x, 6) == Value(y, 6)
  {
    SameLow(x, y, 63, 6);
  }

  /** The low n bits are all that Value looks at; mask has ones there. */
  lemma {:induction false} SameLow(x: bv32, y: bv32, mask: bv32, n: nat)
    requires x & mask == y & mask && Ones(mask, n)
    ensures Value(x, n) == Value(y, n)
    decreases n
  {
    if n > 0 {
      SameLow(x >> 1, y >> 1, mask >> 1, n - 1);
    }
  }

  /** Are the low n bits of the mask ones? */
  predicate Ones(mask: bv32, n: nat)
    decreases n
  {
    n == 0 || (mask & 1 == 1 && Ones(mask >> 1, n - 1))
  }

  lemma AgreeOperand(f: Fields, g: Fields)
    requires f.funct3 == g.funct3 && SameOperand(f, g)
    ensures Operand(f) == Operand(g) && (f.funct3 == 5 ==> f.alt == g.alt)
  {
    if f.funct3 == 1 || f.funct3 == 5 {
      SixBits(f.imm, g.imm);
    }
  }

  lemma AgreeImm(f: Fields, g: Fields, len: nat, c: Cpu)
    requires WellFormed(c) && Agree(f, g) && (f.op == OpImm || f.op == OpImm32)
    ensures ExecuteImm(f, len, c) == ExecuteImm(g, len, c)
  {
    AgreeOperand(f, g);
  }

  lemma AgreeReg(f: Fields, g: Fields, len: nat, c: Cpu)
    requires WellFormed(c) && Agree(f, g) && (f.op == OpReg || f.op == Op32)
    ensures ExecuteReg(f, len, c) == ExecuteReg(g, len, c)
  {
  }

  lemma AgreeLoad(f: Fields, g: Fields, len: nat, c: Cpu)
    requires WellFormed(c) && f.rd == g.rd && f.rs1 == g.rs1 && f.funct3 == g.funct3 && f.imm == g.imm
    ensures ExecuteLoad(f, len, c) == ExecuteLoad(g, len, c)
  {
  }

  lemma AgreeStore(f: Fields, g: Fields, len: nat, c: Cpu)
    requires WellFormed(c) && f.rs2 == g.rs2 && f.rs1 == g.rs1 && f.funct3 == g.funct3 && f.imm == g.imm
    ensures ExecuteStore(f, len, c) == ExecuteStore(g, len, c)
  {
  }

  lemma AgreeBranch(f: Fields, g: Fields, len: nat, c: Cpu)
    requires WellFormed(c) && f.rs2 == g.rs2 && f.rs1 == g.rs1 && f.funct3 == g.funct3 && f.imm == g.imm
    ensures ExecuteBranch(f, len, c) == ExecuteBranch(g, len, c)
  {
  }

  /** The execution code cannot tell apart what agrees. */
  lemma AgreeExecutes(f: Fields, g: Fields, len: nat, c: Cpu)
    requires WellFormed(c) && Agree(f, g)
    ensures Execute(f, len, c) == Execute(g, len, c)
  {
    match f.op {
      case OpImm => AgreeImm(f, g, len, c);
      case OpImm32 => AgreeImm(f, g, len, c);
      case OpReg => AgreeReg(f, g, len, c);
      case Op32 => AgreeReg(f, g, len, c);
      case Load => AgreeLoad(f, g, len, c);
      case Store => AgreeStore(f, g, len, c);
      case Branch => AgreeBranch(f, g, len, c);
      case _ =>
    }
  }

  predicate Links(f: Fields)
  {
    f.op == Jal || f.op == Jalr
  }

  function Relink(c: Cpu, f: Fields, pc: U64): Cpu
    requires WellFormed(c)
  {
    if Links(f) then Write(c, f.rd, Wrap(pc + 4)) else c
  }

  /** The result of a 2-byte instruction at pc, with 4 for 2 where the next instruction's address comes in. */
  function Lengthened(r: Result, f: Fields, pc: U64): Result
    requires !r.Elsewhere? ==> WellFormed(r.cpu)
  {
    match r
    case Elsewhere => Elsewhere
    case Raised(n, tval, c) => Raised(n, tval, Relink(c, f, pc))
    case Next(c, drops) =>
      Next(if drops && f.op != MiscMem then Relink(c, f, pc) else c.(pc := Wrap(pc + 4)), drops)
  }

  lemma LengthFinish(f: Fields, c: Cpu, addr: U64, out: Outcome)
    requires WellFormed(c) && f.op == Load
    ensures var r := FinishLoad(f.rd, f.funct3, 2, c, addr, out);
            !r.Elsewhere? && WellFormed(r.cpu) && FinishLoad(f.rd, f.funct3, 4, c, addr, out) == Lengthened(r, f, c.pc)
  {
  }

  lemma LengthFrom(f: Fields, c: Cpu, addr: U64)
    requires WellFormed(c) && f.op == Load
    ensures var r := LoadFrom(f.rd, f.funct3, 2, c, addr);
            !r.Elsewhere? && WellFormed(r.cpu) && LoadFrom(f.rd, f.funct3, 4, c, addr) == Lengthened(r, f, c.pc)
  {
    var (s, out) := TlbAccess(c.s, Access(false, true), Width(f.funct3), addr, 0);
    LengthFinish(f, c.(s := s), addr, out);
  }

  lemma LengthLoad(f: Fields, c: Cpu)
    requires WellFormed(c) && f.op == Load
    ensures var r := ExecuteLoad(f, 2, c);
            !r.Elsewhere? && WellFormed(r.cpu) && ExecuteLoad(f, 4, c) == Lengthened(r, f, c.pc)
  {
    LengthFrom(f, c, Wrap(Read(c, f.rs1) + ImmValue(f.imm)));
  }

  lemma LengthStored(f: Fields, c: Cpu, addr: U64, out: Outcome)
    requires WellFormed(c) && f.op == Store
    ensures var r := FinishStore(2, c, addr, out);
            !r.Elsewhere? && WellFormed(r.cpu) && FinishStore(4, c, addr, out) == Lengthened(r, f, c.pc)
  {
  }

  lemma LengthTo(f: Fields, n: nat, c: Cpu, addr: U64, data: U64)
    requires WellFormed(c) && f.op == Store
    ensures var r := StoreTo(n, 2, c, addr, data);
            !r.Elsewhere? && WellFormed(r.cpu) && StoreTo(n, 4, c, addr, data) == Lengthened(r, f, c.pc)
  {
    var (s, out) := TlbAccess(c.s, Access(true, false), n, addr, data);
    LengthStored(f, c.(s := s), addr, out);
  }

  lemma LengthStore(f: Fields, c: Cpu)
    requires WellFormed(c) && f.op == Store
    ensures var r := ExecuteStore(f, 2, c);
            !r.Elsewhere? && WellFormed(r.cpu) && ExecuteStore(f, 4, c) == Lengthened(r, f, c.pc)
  {
    LengthTo(f, Width(f.funct3), c, Wrap(Read(c, f.rs1) + ImmValue(f.imm)), Read(c, f.rs2));
  }

  lemma LengthLink(f: Fields, c: Cpu, target: U64)
    requires WellFormed(c) && Links(f)
    ensures var r := Jump(Write(c, f.rd, Wrap(c.pc + 2)), target);
            !r.Elsewhere? && WellFormed(r.cpu) && Jump(Write(c, f.rd, Wrap(c.pc + 4)), target) == Lengthened(r, f, c.pc)
  {
    var i := Number(f.rd);
    assert c.regs[i := Wrap(c.pc + 2)][i := Wrap(c.pc + 4)] == c.regs[i := Wrap(c.pc + 4)];
  }

  lemma LengthImm(f: Fields, c: Cpu)
    requires WellFormed(c) && (f.op == OpImm || f.op == OpImm32)
    ensures var r := ExecuteImm(f, 2, c);
            (r.Elsewhere? || WellFormed(r.cpu)) && ExecuteImm(f, 4, c) == Lengthened(r, f, c.pc)
  {
  }

  lemma LengthReg(f: Fields, c: Cpu)
    requires WellFormed(c) && (f.op == OpReg || f.op == Op32)
    ensures var r := ExecuteReg(f, 2, c);
            (r.Elsewhere? || WellFormed(r.cpu)) && ExecuteReg(f, 4, c) == Lengthened(r, f, c.pc)
  {
  }

  lemma LengthBranch(f: Fields, c: Cpu)
    requires WellFormed(c) && f.op == Branch
    ensures var r := ExecuteBranch(f, 2, c);
            !r.Elsewhere? && WellFormed(r.cpu) && ExecuteBranch(f, 4, c) == Lengthened(r, f, c.pc)
  {
  }

  lemma LengthSmall(f: Fields, c: Cpu)
    requires WellFormed(c) && f.op !in {Load, Store, OpImm, OpImm32, OpReg, Op32, Jal, Jalr, Branch}
    ensures var r := Execute(f, 2, c);
            (r.Elsewhere? || WellFormed(r.cpu)) && Execute(f, 4, c) == Lengthened(r, f, c.pc)
  {
  }

  /** Length changes nothing but the address of the next instruction, where pc goes on to it or it is linked. */
  lemma LengthExact(f: Fields, c: Cpu)
    requires WellFormed(c)
    ensures var r := Execute(f, 2, c);
            (r.Elsewhere? || WellFormed(r.cpu)) && Execute(f, 4, c) == Lengthened(r, f, c.pc)
  {
    match f.op {
      case Load => LengthLoad(f, c);
      case Store => LengthStore(f, c);
      case OpImm => LengthImm(f, c);
      case OpImm32 => LengthImm(f, c);
      case OpReg => LengthReg(f, c);
      case Op32 => LengthReg(f, c);
      case Branch => LengthBranch(f, c);
      case Jal => LengthLink(f, c, Wrap(c.pc + ImmValue(f.imm)));
      case Jalr =>
        var target := Wrap(Read(c, f.rs1) + ImmValue(f.imm));
        LengthLink(f, c, Even(target));
      case _ => LengthSmall(f, c);
    }
  }

  /** Does this model execute the instruction? */
  predicate Modelled(f: Fields)
  {
    match f.op
    case OpImm32 => HasAlu32(f.funct3)
    case OpReg => IsBase(f.funct7)
    case Op32 => IsBase(f.funct7) && HasAlu32(f.funct3)
    case System => f.call != NoCall
    case Amo => false
    case Other => false
    case _ => true
  }

  lemma ModelledExecutes(f: Fields, len: nat, c: Cpu)
    requires WellFormed(c)
    ensures Modelled(f) <==> !Execute(f, len, c).Elsewhere?
  {
  }

  lemma ModelledAlu(h: bv32)
    ensures Modelled(TargetAlu(h))
  {
  }

  lemma ModelledQ1(h: bv32)
    ensures Modelled(TargetQ1(h))
  {
    if Kind(h) == 12 { ModelledAlu(h); }
  }

  lemma ModelledQ2(h: bv32)
    ensures Modelled(TargetQ2(h))
  {
  }

  lemma TargetModelled(h: bv32)
    ensures Modelled(Target(h))
  {
    if Kind(h) < 8 {
    } else if Kind(h) < 16 {
      ModelledQ1(h);
    } else {
      ModelledQ2(h);
    }
  }

  lemma ExpansionModelled(h: bv32)
    requires Recognised(h)
    ensures Modelled(FieldsOf(Expand(h)))
  {
    if h != C_EBREAK {
      TargetModelled(h);
      TargetLegal(h);
      ExpansionFields(h);
    }
  }

  lemma LengthenedAgrees(r: Result, f: Fields, g: Fields, pc: U64)
    requires Agree(f, g) && (!r.Elsewhere? ==> WellFormed(r.cpu))
    ensures Lengthened(r, f, pc) == Lengthened(r, g, pc)
  {
  }

  /**
   Whatever the 16-bit half of the decoder finds in h, executing it does what executing the expansion of h
   does, except that pc and the link register get pc + 2 instead of pc + 4.
   */
  lemma CompressedMeansExpansion(h: bv32, f: Fields, c: Cpu)
    requires WellFormed(c) && Recognised(h) && Agree(f, FieldsOf(Expand(h)))
    ensures var r := Execute(f, 2, c);
            && !r.Elsewhere? && WellFormed(r.cpu)
            && Execute(FieldsOf(Expand(h)), 4, c) == Lengthened(r, f, c.pc)
  {
    var g := FieldsOf(Expand(h));
    AgreeExecutes(f, g, 2, c);
    LengthExact(g, c);
    ExpansionModelled(h);
    ModelledExecutes(g, 2, c);
    LengthenedAgrees(Execute(f, 2, c), f, g, c.pc);
  }
}
