/** decode_exc on one hart's state: decoding, and the RV64I part of execution, in place. */
module Core {
  import opened Base
  import opened Tlb
  import opened Mmu
  type Op = Decode.Op
  import opened Decode
  import opened Compressed
  import opened Execution
  import Hart

  datatype Ending = NoExc | Exc(code: int, tval: U64) | Outside

  /** The result that an ending and the state after it amount to. */
  function Amounts(e: Ending, drops: bool, c: Cpu): Result
  {
    match e
    case NoExc => Next(c, drops)
    case Exc(n, tval) => Raised(n, tval, c)
    case Outside => Elsewhere
  }

  lemma LoadIs(rd: bv32, funct3: bv32, len: nat, c: Cpu, addr: U64, s: Cached, out: Outcome)
    requires WellFormed(c) && (s, out) == TlbAccess(c.s, Access(false, true), Width(funct3), addr, 0)
    ensures Shape(s.tlb) && LoadFrom(rd, funct3, len, c, addr) == FinishLoad(rd, funct3, len, c.(s := s), addr, out)
  {
  }

  lemma LoadIsFrom(f: Fields, len: nat, c: Cpu, addr: U64)
    requires WellFormed(c) && addr == Wrap(Read(c, f.rs1) + ImmValue(f.imm))
    ensures ExecuteLoad(f, len, c) == LoadFrom(f.rd, f.funct3, len, c, addr)
  {
  }

  lemma JalrIsJump(f: Fields, len: nat, c: Cpu, target: U64)
    requires WellFormed(c) && target == Wrap(Read(c, f.rs1) + ImmValue(f.imm))
    ensures ExecuteJalr(f, len, c) == Jump(Write(c, f.rd, Wrap(c.pc + len)), Even(target))
  {
  }

  lemma OperandsAre(f: Fields, len: nat, c: Cpu, addr: U64, data: U64)
    requires WellFormed(c) && addr == Wrap(Read(c, f.rs1) + ImmValue(f.imm)) && data == Read(c, f.rs2)
    ensures StoreFrom(f, len, c) == StoreTo(Width(f.funct3), len, c, addr, data)
  {
  }

  lemma StoreIs(n: nat, len: nat, c: Cpu, addr: U64, data: U64, s: Cached, fault: Outcome)
    requires WellFormed(c)
    requires var (s', out) := TlbAccess(c.s, Access(true, false), n, addr, data);
             s == s' && fault == if out.Done? then Done(0) else out
    ensures Shape(s.tlb) && StoreTo(n, len, c, addr, data) == FinishStore(len, c.(s := s), addr, fault)
  {
  }

  lemma JumpIs(f: Fields, len: nat, c: Cpu)
    requires WellFormed(c) && (f.op == Jal || f.op == Jalr || f.op.Branch?)
    ensures Execute(f, len, c) ==
            if f.op == Jal then ExecuteJal(f, len, c)
            else if f.op == Jalr then ExecuteJalr(f, len, c) else ExecuteBranch(f, len, c)
  {
  }

  predicate IsOther(op: Op)
  {
    op == Lui || op == Auipc || op == MiscMem || op == System || op == Amo || op == Other
  }

  /** The 32-bit instruction that an instruction of len bytes stands for. */
  function Meant(inst: bv32, len: nat): bv32
  {
    if len == 2 then Expand(inst) else inst
  }

  predicate Decoded(inst: bv32, len: nat, f: Fields)
  {
    if len == 2 then Agree(f, FieldsOf(Expand(inst))) else f == FieldsOf(inst)
  }

  lemma MeantExecutes(inst: bv32, len: nat, f: Fields, c: Cpu)
    requires WellFormed(c) && Decoded(inst, len, f)
    ensures Execute(f, len, c) == Execute(FieldsOf(Meant(inst, len)), len, c)
  {
    if len == 2 {
      AgreeExecutes(f, FieldsOf(Expand(inst)), len, c);
    }
  }

  class Core {
    const hs: Hart.HartState
    const regs: array<U64>
    var pc: U64
    var instbuf: nat

    ghost predicate Valid()
      reads this, hs, hs.pmp, hs.tlb, hs.tlb.sizeCount, hs.tlb.tlbEntries
    {
      && hs.Valid() && !hs.pageFault && regs.Length == 32
      && regs as object != hs.ram && regs as object != hs.pmp.expanded
      && regs as object != hs.tlb.sizeCount && regs as object != hs.tlb.tlbEntries
    }

    ghost function View(): Cpu
      reads this, regs, hs, hs.pmp, hs.ram, hs.pmp.expanded, hs.tlb, hs.tlb.sizeCount, hs.tlb.tlbEntries
      ensures Valid() ==> WellFormed(View())
    {
      Cpu(regs[..], pc, hs.View())
    }

    /** hart_init, after reset_state */
    constructor (hs: Hart.HartState, hartid: U64)
      requires hs.Valid() && !hs.pageFault
      ensures Valid() && this.hs == hs && fresh(regs) && pc == 0x1000 && instbuf == 0
      ensures regs[..]
              == seq(32, _ => 0)[2 := 0x8000_0000 + hs.ram.Length - 1][1 := 0x8100_0000][10 := hartid][11 := 0x1100]
    {
      this.hs := hs;
      regs := new U64[32](_ => 0);
      pc, instbuf := 0x1000, 0;
      new;
      regs[2] := 0x8000_0000 + hs.ram.Length - 1;
      regs[1] := 0x8100_0000;
      regs[10] := hartid;
      regs[11] := 0x1100;
    }

    /** virt_mem_fetch for a load, and HANDLE_MEM_ERROR. */
    method ReadMemory(addr: U64, n: nat) returns (out: Outcome)
      requires Valid() && (n == 1 || n == 2 || n == 4 || n == 8)
      modifies hs`memStatus, hs`pageFault, hs`privmode, hs.tlb, hs.tlb.sizeCount, hs.tlb.tlbEntries, hs.ram
      ensures Valid() && (hs.View(), out) == TlbAccess(old(hs.View()), Access(false, true), n, addr, 0)
    {
      hs.memStatus := true;
      var v := hs.VirtMemFetch(addr, n);
      if hs.memStatus {
        hs.memStatus := false;
        return AccessFault;
      }
      if hs.pageFault {
        hs.pageFault := false;
        return PageFault;
      }
      out := Done(v);
    }

    /** virt_mem_store for a store, and HANDLE_MEM_ERROR. */
    method WriteMemory(addr: U64, n: nat, data: U64) returns (fault: Outcome)
      requires Valid() && (n == 1 || n == 2 || n == 4 || n == 8)
      modifies hs`memStatus, hs`pageFault, hs`privmode, hs.tlb, hs.tlb.sizeCount, hs.tlb.tlbEntries, hs.ram
      ensures Valid()
      ensures var (s, out) := TlbAccess(old(hs.View()), Access(true, false), n, addr, data);
              hs.View() == s && fault == if out.Done? then Done(0) else out
    {
      hs.memStatus := false;
      hs.VirtMemStore(addr, n, data);
      if hs.memStatus {
        hs.memStatus := false;
        return AccessFault;
      }
      if hs.pageFault {
        hs.pageFault := false;
        return PageFault;
      }
      fault := Done(0);
    }

    /** Write a register and go on. */
    method SetReg(rd: bv32, v: U64, len: nat)
      requires Valid()
      modifies this`pc, regs
      ensures Valid() && Next(View(), false) == Advance(Write(old(View()), rd, v), len)
    {
      regs[Number(rd)] := v;
      pc := Wrap(pc + len);
    }

    method Go(len: nat)
      requires Valid()
      modifies this`pc
      ensures Valid() && Next(View(), false) == Advance(old(View()), len)
    {
      pc := Wrap(pc + len);
    }

    /** Write the link register and jump. */
    method Link(rd: bv32, link: U64, target: U64) returns (e: Ending)
      requires Valid()
      modifies this`pc, regs
      ensures Valid() && Amounts(e, true, View()) == Jump(Write(old(View()), rd, link), target)
    {
      pc := target;
      regs[Number(rd)] := link;
      e := if pc % 2 == 1 then Exc(IMISALIGN, pc) else NoExc;
    }

    method GetReg(r: bv32) returns (v: U64)
      requires Valid()
      ensures v == Read(View(), r)
    {
      v := regs[Number(r)];
    }

    method DoLoad(f: Fields, len: nat) returns (e: Ending)
      requires Valid()
      modifies this`pc, regs, hs`memStatus, hs`pageFault, hs`privmode
      modifies hs.tlb, hs.tlb.sizeCount, hs.tlb.tlbEntries, hs.ram
      ensures Valid() && Amounts(e, false, View()) == ExecuteLoad(f, len, old(View()))
    {
      var base := GetReg(f.rs1);
      var addr := Wrap(base + ImmValue(f.imm));
      LoadIsFrom(f, len, View(), addr);
      e := LoadAt(f.rd, f.funct3, len, addr);
    }

    method LoadAt(rd: bv32, funct3: bv32, len: nat, addr: U64) returns (e: Ending)
      requires Valid()
      modifies this`pc, regs, hs`memStatus, hs`pageFault, hs`privmode
      modifies hs.tlb, hs.tlb.sizeCount, hs.tlb.tlbEntries, hs.ram
      ensures Valid() && Amounts(e, false, View()) == LoadFrom(rd, funct3, len, old(View()), addr)
    {
      var out := ReadMemory(addr, Width(funct3));
      LoadIs(rd, funct3, len, old(View()), addr, hs.View(), out);
      e := Complete(rd, funct3, len, addr, out);
    }

    /** The end of a load, once memory has answered. */
    method Complete(rd: bv32, funct3: bv32, len: nat, addr: U64, out: Outcome) returns (e: Ending)
      requires Valid()
      modifies this`pc, regs
      ensures Valid() && Amounts(e, false, View()) == FinishLoad(rd, funct3, len, old(View()), addr, out)
    {
      match out
      case AccessFault => e := Exc(5, addr);
      case PageFault => e := Exc(13, addr);
      case Done(v) =>
        SetReg(rd, Loaded(v, funct3), len);
        e := NoExc;
    }

    method DoStore(f: Fields, len: nat) returns (e: Ending)
      requires Valid()
      modifies this`pc, hs`memStatus, hs`pageFault, hs`privmode, hs.tlb, hs.tlb.sizeCount, hs.tlb.tlbEntries, hs.ram
      ensures Valid() && Amounts(e, false, View()) == ExecuteStore(f, len, old(View()))
    {
      if f.funct3 & 4 != 0 {
        Go(len);
        e := NoExc;
      } else {
        e := StoreReg(f, len);
      }
    }

    method StoreReg(f: Fields, len: nat) returns (e: Ending)
      requires Valid()
      modifies this`pc, hs`memStatus, hs`pageFault, hs`privmode, hs.tlb, hs.tlb.sizeCount, hs.tlb.tlbEntries, hs.ram
      ensures Valid() && Amounts(e, false, View()) == StoreFrom(f, len, old(View()))
    {
      var base := GetReg(f.rs1);
      var data := GetReg(f.rs2);
      var addr := Wrap(base + ImmValue(f.imm));
      OperandsAre(f, len, old(View()), addr, data);
      e := StoreAt(Width(f.funct3), len, addr, data);
    }

    method StoreAt(n: nat, len: nat, addr: U64, data: U64) returns (e: Ending)
      requires Valid() && (n == 1 || n == 2 || n == 4 || n == 8)
      modifies this`pc, hs`memStatus, hs`pageFault, hs`privmode, hs.tlb, hs.tlb.sizeCount, hs.tlb.tlbEntries, hs.ram
      ensures Valid() && Amounts(e, false, View()) == StoreTo(n, len, old(View()), addr, data)
    {
      var fault := WriteMemory(addr, n, data);
      StoreIs(n, len, old(View()), addr, data, hs.View(), fault);
      e := Stored(len, addr, fault);
    }

    /** The end of a store, once memory has answered. */
    method Stored(len: nat, addr: U64, fault: Outcome) returns (e: Ending)
      requires Valid()
      modifies this`pc
      ensures Valid() && Amounts(e, false, View()) == FinishStore(len, old(View()), addr, fault)
    {
      if fault.AccessFault? { return Exc(7, addr); }
      if fault.PageFault? { return Exc(15, addr); }
      Go(len);
      e := NoExc;
    }

    /** Change pc without linking. */
    method Branch(target: U64) returns (e: Ending)
      requires Valid()
      modifies this`pc
      ensures Valid() && Amounts(e, true, View()) == Jump(old(View()), target)
    {
      pc := target;
      e := if pc % 2 == 1 then Exc(IMISALIGN, pc) else NoExc;
    }

    method DoBranch(f: Fields, len: nat) returns (e: Ending, drops: bool)
      requires Valid()
      modifies this`pc
      ensures Valid() && Amounts(e, drops, View()) == ExecuteBranch(f, len, old(View()))
    {
      var a := GetReg(f.rs1);
      var b := GetReg(f.rs2);
      drops := Taken(f.funct3, a, b);
      if drops {
        e := Branch(Wrap(pc + ImmValue(f.imm)));
      } else {
        Go(len);
        e := NoExc;
      }
    }

    method DoJal(f: Fields, len: nat) returns (e: Ending)
      requires Valid()
      modifies this`pc, regs
      ensures Valid() && Amounts(e, true, View()) == ExecuteJal(f, len, old(View()))
    {
      e := Link(f.rd, Wrap(pc + len), Wrap(pc + ImmValue(f.imm)));
    }

    /** The target is read before rd is written: they may be the same register. */
    method DoJalr(f: Fields, len: nat) returns (e: Ending)
      requires Valid()
      modifies this`pc, regs
      ensures Valid() && Amounts(e, true, View()) == ExecuteJalr(f, len, old(View()))
    {
      var base := GetReg(f.rs1);
      var target := Wrap(base + ImmValue(f.imm));
      JalrIsJump(f, len, View(), target);
      e := Link(f.rd, Wrap(pc + len), Even(target));
    }

    method DoImm(f: Fields, len: nat) returns (e: Ending)
      requires Valid()
      modifies this`pc, regs
      ensures Valid() && Amounts(e, false, View()) == ExecuteImm(f, len, old(View()))
    {
      var a := GetReg(f.rs1);
      var b, alt := Operand(f), f.funct3 == 5 && f.alt;
      if f.op == OpImm {
        SetReg(f.rd, Alu(f.funct3, alt, a, b), len);
      } else if HasAlu32(f.funct3) {
        SetReg(f.rd, Alu32(f.funct3, alt, a, b), len);
      } else {
        return Outside;
      }
      e := NoExc;
    }

    method DoReg(f: Fields, len: nat) returns (e: Ending)
      requires Valid()
      modifies this`pc, regs
      ensures Valid() && Amounts(e, false, View()) == ExecuteReg(f, len, old(View()))
    {
      if !IsBase(f.funct7) { return Outside; }
      var a := GetReg(f.rs1);
      var b := GetReg(f.rs2);
      var alt := (f.funct3 == 0 || f.funct3 == 5) && f.alt;
      if f.op == OpReg {
        SetReg(f.rd, Alu(f.funct3, alt, a, b), len);
      } else if HasAlu32(f.funct3) {
        SetReg(f.rd, Alu32(f.funct3, alt, a, b), len);
      } else {
        return Outside;
      }
      e := NoExc;
    }

    /** LUI, AUIPC, FENCE, FENCE.I, ECALL and EBREAK. */
    method DoOther(f: Fields, len: nat) returns (e: Ending, drops: bool)
      requires Valid() && IsOther(f.op)
      modifies this`pc, regs
      ensures Valid() && Amounts(e, drops, View()) == Execute(f, len, old(View()))
    {
      e, drops := NoExc, false;
      match f.op {
        case Lui => SetReg(f.rd, Wrap(ImmValue(f.imm)), len);
        case Auipc => SetReg(f.rd, Wrap(ImmValue(f.imm) + pc), len);
        case MiscMem =>
          Go(len);
          drops := f.funct3 == 1;
        case System =>
          e := match f.call
               case Ecall => Exc(hs.privmode + 8, pc)
               case Ebreak => Exc(BPOINT, pc)
               case NoCall => Outside;
        case _ => e := Outside;
      }
    }

    method DoMemory(f: Fields, len: nat) returns (e: Ending)
      requires Valid() && (f.op == Load || f.op == Store)
      modifies this`pc, regs, hs`memStatus, hs`pageFault, hs`privmode
      modifies hs.tlb, hs.tlb.sizeCount, hs.tlb.tlbEntries, hs.ram
      ensures Valid() && Amounts(e, false, View()) == Execute(f, len, old(View()))
    {
      if f.op == Load {
        e := DoLoad(f, len);
      } else {
        e := DoStore(f, len);
      }
    }

    method DoAlu(f: Fields, len: nat) returns (e: Ending)
      requires Valid() && f.op in {OpImm, OpImm32, OpReg, Op32}
      modifies this`pc, regs
      ensures Valid() && Amounts(e, false, View()) == Execute(f, len, old(View()))
    {
      if f.op == OpImm || f.op == OpImm32 {
        e := DoImm(f, len);
      } else {
        e := DoReg(f, len);
      }
    }

    method DoJump(f: Fields, len: nat) returns (e: Ending, drops: bool)
      requires Valid() && (f.op == Jal || f.op == Jalr || f.op.Branch?)
      modifies this`pc, regs
      ensures Valid() && Amounts(e, drops, View()) == Execute(f, len, old(View()))
    {
      JumpIs(f, len, View());
      drops := true;
      if f.op == Jal {
        e := DoJal(f, len);
      } else if f.op == Jalr {
        e := DoJalr(f, len);
      } else {
        e, drops := DoBranch(f, len);
      }
    }

    /** The switch over op_fun. */
    method Switch(f: Fields, len: nat) returns (e: Ending, drops: bool)
      requires Valid()
      modifies this`pc, regs
      modifies hs`memStatus, hs`pageFault, hs`privmode, hs.tlb, hs.tlb.sizeCount, hs.tlb.tlbEntries, hs.ram
      ensures Valid() && Amounts(e, drops, View()) == Execute(f, len, old(View()))
    {
      drops := false;
      if f.op == Load || f.op == Store {
        e := DoMemory(f, len);
      } else if f.op == OpImm || f.op == OpImm32 || f.op == OpReg || f.op == Op32 {
        e := DoAlu(f, len);
      } else if f.op == Jal || f.op == Jalr || f.op.Branch? {
        e, drops := DoJump(f, len);
      } else {
        e, drops := DoOther(f, len);
      }
    }

    method DecodeAny(inst: bv32, len: nat) returns (f: Fields)
      requires len == 4 || (len == 2 && Recognised(inst))
      ensures Decoded(inst, len, f)
    {
      if len == 2 {
        f := DecodeHalf(inst);
      } else {
        f := DecodeWord(inst);
      }
    }

    /** Execute what was decoded. */
    method Perform(f: Fields, len: nat) returns (e: Ending, drops: bool)
      requires Valid()
      modifies this`pc, this`instbuf, regs
      modifies hs`memStatus, hs`pageFault, hs`privmode, hs.tlb, hs.tlb.sizeCount, hs.tlb.tlbEntries, hs.ram
      ensures Valid() && Amounts(e, drops, View()) == Execute(f, len, old(View()))
      ensures instbuf == if e == NoExc && drops then 0 else old(instbuf)
    {
      e, drops := Switch(f, len);
      if e == NoExc && drops { instbuf := 0; }
    }

    /** decode_exc: a 16-bit instruction does what its expansion does, with 2 for the length. */
    method DecodeExc(inst: bv32, len: nat) returns (e: Ending, drops: bool)
      requires Valid() && (len == 4 || (len == 2 && Recognised(inst)))
      modifies this`pc, this`instbuf, regs
      modifies hs`memStatus, hs`pageFault, hs`privmode, hs.tlb, hs.tlb.sizeCount, hs.tlb.tlbEntries, hs.ram
      ensures Valid()
      ensures Amounts(e, drops, View()) == Execute(FieldsOf(Meant(inst, len)), len, old(View()))
      ensures instbuf == if e == NoExc && drops then 0 else old(instbuf)
    {
      var f := DecodeAny(inst, len);
      e, drops := Perform(f, len);
      MeantExecutes(inst, len, f, old(View()));
    }
  }
}
