/** pc stays even: no jump of this emulator can raise the misaligned-instruction exception. */
module PcParity {
  import opened Base
  import opened Decode
  import opened Execution
  import Traps

  lemma ValueStep(imm: bv32, n: nat, v: nat)
    requires n > 0 && imm & 1 == 0 && v == Value(imm >> 1, n - 1)
    ensures Value(imm, n) == 2 * v
  {
  }

  lemma EvenValue(imm: bv32, n: nat)
    requires imm & 1 == 0
    ensures Value(imm, n) % 2 == 0
  {
    if n > 0 {
      ValueStep(imm, n, Value(imm >> 1, n - 1));
      DivModIs(Value(imm, n), 2, Value(imm >> 1, n - 1), 0);
    }
  }

  lemma EvenImm(imm: bv32)
    requires imm & 1 == 0
    ensures ImmValue(imm) % 2 == 0
  {
    EvenValue(imm, 32);
  }

  lemma EvenSum(a: U64, b: int)
    requires a % 2 == 0 && b % 2 == 0
    ensures Wrap(a + b) % 2 == 0
  {
    var q := (a + b) / 0x1_0000_0000_0000_0000;
    assert Wrap(a + b) == a + b - 2 * (0x8000_0000_0000_0000 * q);
  }

  /** Jumps by an immediate go an even distance. */
  lemma DecodedEven(w: bv32)
    requires FieldsOf(w).op == Jal || FieldsOf(w).op == Branch
    ensures ImmValue(FieldsOf(w).imm) % 2 == 0
  {
    EncodeDecoded(w);
    EvenImm(FieldsOf(w).imm);
  }

  predicate EvenAfter(r: Result)
  {
    match r
    case Next(c, _) => c.pc % 2 == 0
    case Raised(n, _, c) => n != IMISALIGN && c.pc % 2 == 0
    case Elsewhere => true
  }

  lemma LoadEven(f: Fields, len: nat, c: Cpu)
    requires WellFormed(c) && c.pc % 2 == 0 && Wrap(c.pc + len) % 2 == 0
    ensures EvenAfter(ExecuteLoad(f, len, c))
  {
  }

  lemma StoreEven(f: Fields, len: nat, c: Cpu)
    requires WellFormed(c) && c.pc % 2 == 0 && Wrap(c.pc + len) % 2 == 0
    ensures EvenAfter(ExecuteStore(f, len, c))
  {
  }

  lemma JumpEven(f: Fields, len: nat, c: Cpu)
    requires WellFormed(c) && c.pc % 2 == 0 && ImmValue(f.imm) % 2 == 0 && Wrap(c.pc + len) % 2 == 0
    ensures EvenAfter(ExecuteJal(f, len, c)) && EvenAfter(ExecuteBranch(f, len, c))
  {
    EvenSum(c.pc, ImmValue(f.imm));
  }

  lemma AluEven(f: Fields, len: nat, c: Cpu)
    requires WellFormed(c) && Wrap(c.pc + len) % 2 == 0
    ensures EvenAfter(ExecuteImm(f, len, c)) && EvenAfter(ExecuteReg(f, len, c))
  {
  }

  lemma OtherEven(f: Fields, len: nat, c: Cpu)
    requires WellFormed(c) && c.pc % 2 == 0 && Wrap(c.pc + len) % 2 == 0
    requires f.op !in {Load, Store, OpImm, OpImm32, OpReg, Op32, Jal, Branch}
    ensures EvenAfter(Execute(f, len, c))
  {
  }

  /** Every instruction word, of either length. */
  lemma ExecuteEven(w: bv32, len: nat, c: Cpu)
    requires WellFormed(c) && c.pc % 2 == 0 && (len == 2 || len == 4)
    ensures EvenAfter(Execute(FieldsOf(w), len, c))
  {
    var f := FieldsOf(w);
    EvenSum(c.pc, len);
    match f.op {
      case Load => LoadEven(f, len, c);
      case Store => StoreEven(f, len, c);
      case OpImm => AluEven(f, len, c);
      case OpImm32 => AluEven(f, len, c);
      case OpReg => AluEven(f, len, c);
      case Op32 => AluEven(f, len, c);
      case Jal =>
        DecodedEven(w);
        JumpEven(f, len, c);
      case Branch =>
        DecodedEven(w);
        JumpEven(f, len, c);
      case _ => OtherEven(f, len, c);
    }
  }

  // ---------- runs ----------

  /** What can change pc. Each carries the rest of the state it finds; its own pc is disregarded. */
  datatype PcStep =
    | Instruction(w: bv32, len: nat, c: Cpu)
    | TrapStep(h: Traps.Hart, he: Traps.Cause, tval: U64)
    | InterruptStep(h: Traps.Hart)
    | MretStep(h: Traps.Hart)
    | SretStep(h: Traps.Hart)

  predicate Proper(step: PcStep)
  {
    step.Instruction? ==> WellFormed(step.c) && (step.len == 2 || step.len == 4)
  }

  /** pc after the step; an instruction outside Execution goes on by its length. */
  function PcAfter(pc: U64, step: PcStep): U64
    requires Proper(step)
  {
    match step
    case Instruction(w, len, c) =>
      var r := Execute(FieldsOf(w), len, c.(pc := pc));
      if r.Elsewhere? then Wrap(pc + len) else r.cpu.pc
    case TrapStep(h, he, tval) => Traps.Raise(h.(pc := pc), he, tval).pc
    case InterruptStep(h) => Traps.SetUp(h.(pc := pc)).0.pc
    case MretStep(h) => Traps.Mret(h).pc
    case SretStep(h) => Traps.SretInst(h.(pc := pc), Traps.SRET).pc
  }

  function PcRun(pc: U64, steps: seq<PcStep>): U64
    requires forall i :: 0 <= i < |steps| ==> Proper(steps[i])
    decreases |steps|
  {
    if steps == [] then pc else PcRun(PcAfter(pc, steps[0]), steps[1..])
  }

  lemma VectorEven(tvec: U64, code: nat)
    ensures Traps.Vector(tvec, code) % 2 == 0
  {
    EvenSum(Even(tvec), 4 * code);
  }

  lemma RaiseEven(h: Traps.Hart, he: Traps.Cause, tval: U64)
    requires h.pc % 2 == 0
    ensures Traps.Raise(h, he, tval).pc % 2 == 0
  {
    VectorEven(h.s.tvec, he.code);
    VectorEven(h.m.tvec, he.code);
  }

  lemma {:induction false} PassEven(h: Traps.Hart, codes: seq<nat>)
    requires h.pc % 2 == 0
    ensures Traps.Pass(h, codes).0.pc % 2 == 0
    decreases |codes|
  {
    if codes != [] {
      RaiseEven(h, Traps.Cause(true, codes[0]), 0);
      if !Traps.Ready(h, codes[0]) {
        PassEven(Traps.Try(h, codes[0]), codes[1..]);
      }
    }
  }

  lemma SetUpEven(h: Traps.Hart)
    requires h.pc % 2 == 0
    ensures Traps.SetUp(h).0.pc % 2 == 0
  {
    PassEven(h, Traps.PRIORITY);
    var (h1, _) := Traps.Pass(h, Traps.PRIORITY);
    PassEven(h1, Traps.PRIORITY[3..]);
    PassEven(h, Traps.PRIORITY[3..]);
  }

  lemma StepEven(pc: U64, step: PcStep)
    requires Proper(step) && pc % 2 == 0
    ensures PcAfter(pc, step) % 2 == 0
  {
    match step {
      case Instruction(w, len, c) =>
        ExecuteEven(w, len, c.(pc := pc));
        EvenSum(pc, len);
      case TrapStep(h, he, tval) => RaiseEven(h.(pc := pc), he, tval);
      case InterruptStep(h) => SetUpEven(h.(pc := pc));
      case MretStep(h) =>
      case SretStep(h) => RaiseEven(h.(pc := pc), Traps.ILLINST, Traps.SRET);
    }
  }

  /** pc is even after every run that starts even, so ExecuteEven holds of every instruction in it. */
  lemma {:induction false} PcStaysEven(pc: U64, steps: seq<PcStep>)
    requires pc % 2 == 0 && forall i :: 0 <= i < |steps| ==> Proper(steps[i])
    ensures PcRun(pc, steps) % 2 == 0
    decreases |steps|
  {
    if steps != [] {
      StepEven(pc, steps[0]);
      PcStaysEven(PcAfter(pc, steps[0]), steps[1..]);
    }
  }
}
