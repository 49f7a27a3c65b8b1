/**
 A hart's cycle: fetch, decode_exc and create_exception on the same state, then setup_pending_int, with the
 one instbuf that all four touch. CSR instructions, atomics and the M extension stay a parameter.
 */
module Cycles {
  import opened Base
  import opened Tlb
  import Decode
  import Compressed
  import Execution
  import Core
  import StatusBits
  import Traps
  import TrapTheorems
  import opened Prefetch

  type Regs = r: seq<U64> | |r| == 32 witness seq(32, _ => 0)

  /** The hart apart from pc and what memory accesses read; mstatus and the privilege are among those. */
  datatype Rest = Rest(
    regs: Regs, m: Traps.Csrs, s: Traps.Csrs, mip: set<nat>, medeleg: set<nat>, mideleg: set<nat>, chkInt: bool)

  type Hart = Machine<Rest>

  /** The hart as create_exception and setup_pending_int see it. */
  function View(m: Hart, buf: nat): Traps.Hart
  {
    Traps.Hart(m.s.core.priv, m.pc, buf, StatusBits.Bits(m.s.core.mstatus), m.rest.m, m.rest.s,
               m.rest.mip, m.rest.medeleg, m.rest.mideleg, m.rest.chkInt)
  }

  /** The hart and instbuf after them. */
  ghost function Put(m: Hart, h: Traps.Hart): (Hart, nat)
  {
    var core := m.s.core.(priv := h.priv, mstatus := StatusBits.Word(h.mstatus));
    (Machine(m.s.(core := core), h.pc, m.rest.(m := h.m, s := h.s, chkInt := h.chkInt)), h.instbuf)
  }

  ghost function Raise(m: Hart, code: nat, tval: U64): (Hart, nat)
  {
    Put(m, Traps.Raise(View(m, 0), Traps.Cause(false, code), tval))
  }

  // ---------- decode_exc ----------

  function CpuOf(m: Hart): (c: Execution.Cpu)
    ensures Shape(m.s.tlb) ==> Execution.WellFormed(c)
  {
    Execution.Cpu(m.rest.regs, m.pc, m.s)
  }

  function WithCpu(m: Hart, c: Execution.Cpu): Hart
    requires Execution.WellFormed(c)
  {
    Machine(c.s, c.pc, m.rest.(regs := c.regs))
  }

  function WordOf(f: Fetched): bv32
    requires f.Inst?
  {
    (f.word % 0x1_0000_0000) as bv32
  }

  predicate Decodable(f: Fetched)
    requires f.Inst?
  {
    f.len == 32 || (f.len == 16 && Compressed.Recognised(WordOf(f)))
  }

  const MRET := 0x3020_0073
  const SRET := Traps.SRET
  const WFI := 0x1050_0073

  predicate IsFence(inst: bv32)
  {
    Decode.OpOf(inst) == Decode.System && Decode.Funct7(inst) == 9
  }

  function Flag(ms: bv64, mask: bv64): bool
  {
    ms & mask != 0
  }

  const TW: bv64 := 0x20_0000
  const TVM: bv64 := 0x10_0000

  /** WFI, whose wait ends with a look at the interrupts. */
  ghost function Wait(m: Hart, len: nat, buf: nat): (Hart, nat)
  {
    if Flag(m.s.core.mstatus, TW) then Raise(m, ILLINST, WFI)
    else (m.(pc := Wrap(m.pc + len), rest := m.rest.(chkInt := true)), buf)
  }

  /** SFENCE.VMA: the whole TLB goes, and the buffer. */
  ghost function Fence(m: Hart, len: nat, word: U64): (Hart, nat)
  {
    if Flag(m.s.core.mstatus, TVM) then Raise(m, ILLINST, word)
    else (m.(pc := Wrap(m.pc + len), s := m.s.(tlb := Empty())), 0)
  }

  /** The SYSTEM instructions that return from traps, wait and fence; any other instruction is left to outside. */
  ghost function SystemCall(outside: Step<Rest>, m: Hart, f: Fetched, buf: nat): (Hart, nat)
    requires f.Inst?
  {
    if f.word == MRET then Put(m, Traps.Mret(View(m, buf)))
    else if f.word == SRET then Put(m, Traps.SretInst(View(m, buf), SRET))
    else if f.word == WFI then Wait(m, f.len / 8, buf)
    else if f.len == 32 && IsFence(WordOf(f)) then Fence(m, f.len / 8, Wrap(f.word))
    else Left(outside, m, f, buf)
  }

  /** An instruction that only outside says anything about. */
  ghost function Left(outside: Step<Rest>, m: Hart, f: Fetched, buf: nat): (Hart, nat)
  {
    var (m', drops) := outside(m, f);
    (m', if drops then 0 else buf)
  }

  /** What Execution makes of the instruction. */
  function Executed(m: Hart, f: Fetched): (r: Execution.Result)
    requires Shape(m.s.tlb) && f.Inst?
    ensures GoesOn(r, m.pc, f.len / 8)
  {
    if !Decodable(f) then Execution.Elsewhere
    else
      var fields := Decode.FieldsOf(Core.Meant(WordOf(f), f.len / 8));
      ExecuteKeeps(fields, f.len / 8, CpuOf(m));
      Execution.Execute(fields, f.len / 8, CpuOf(m))
  }

  /** The end of decode_exc; what Execution does not cover goes to SystemCall. */
  ghost function Finish(outside: Step<Rest>, m: Hart, f: Fetched, r: Execution.Result, buf: nat): (Hart, nat)
    requires f.Inst? && GoesOn(r, m.pc, f.len / 8)
  {
    match r
    case Next(c, drops) => (WithCpu(m, c), if drops then 0 else buf)
    case Raised(n, tval, c) => Raise(WithCpu(m, c), n, tval)
    case Elsewhere => SystemCall(outside, m, f, buf)
  }

  /** What an instruction that raises nothing and does not jump leaves: pc behind it. */
  predicate GoesOn(r: Execution.Result, pc: U64, len: nat)
  {
    match r
    case Elsewhere => true
    case Raised(n, _, c) => n >= 0 && Execution.WellFormed(c)
    case Next(c, drops) => Execution.WellFormed(c) && (!drops ==> c.pc == Wrap(pc + len))
  }

  lemma LoadKeeps(f: Decode.Fields, len: nat, c: Execution.Cpu)
    requires Execution.WellFormed(c)
    ensures GoesOn(Execution.ExecuteLoad(f, len, c), c.pc, len)
  {
  }

  lemma StoreKeeps(f: Decode.Fields, len: nat, c: Execution.Cpu)
    requires Execution.WellFormed(c)
    ensures GoesOn(Execution.ExecuteStore(f, len, c), c.pc, len)
  {
  }

  lemma ImmKeeps(f: Decode.Fields, len: nat, c: Execution.Cpu)
    requires Execution.WellFormed(c)
    ensures GoesOn(Execution.ExecuteImm(f, len, c), c.pc, len)
  {
  }

  lemma RegKeeps(f: Decode.Fields, len: nat, c: Execution.Cpu)
    requires Execution.WellFormed(c)
    ensures GoesOn(Execution.ExecuteReg(f, len, c), c.pc, len)
  {
  }

  lemma JumpKeeps(f: Decode.Fields, len: nat, c: Execution.Cpu)
    requires Execution.WellFormed(c)
    ensures GoesOn(Execution.ExecuteJal(f, len, c), c.pc, len) && GoesOn(Execution.ExecuteJalr(f, len, c), c.pc, len)
    ensures GoesOn(Execution.ExecuteBranch(f, len, c), c.pc, len)
  {
  }

  lemma OtherKeeps(f: Decode.Fields, len: nat, c: Execution.Cpu)
    requires Execution.WellFormed(c)
    requires f.op in {Decode.Lui, Decode.Auipc, Decode.System, Decode.MiscMem, Decode.Amo, Decode.Other}
    ensures GoesOn(Execution.Execute(f, len, c), c.pc, len)
  {
  }

  /** Keeping the buffer means going on to the instruction behind, whatever is executed. */
  lemma ExecuteKeeps(f: Decode.Fields, len: nat, c: Execution.Cpu)
    requires Execution.WellFormed(c)
    ensures GoesOn(Execution.Execute(f, len, c), c.pc, len)
  {
    match f.op {
      case Load => LoadKeeps(f, len, c);
      case Store => StoreKeeps(f, len, c);
      case OpImm => ImmKeeps(f, len, c);
      case OpImm32 => ImmKeeps(f, len, c);
      case OpReg => RegKeeps(f, len, c);
      case Op32 => RegKeeps(f, len, c);
      case Jal => JumpKeeps(f, len, c);
      case Jalr => JumpKeeps(f, len, c);
      case Branch => JumpKeeps(f, len, c);
      case _ => OtherKeeps(f, len, c);
    }
  }

  // ---------- the cycle ----------

  ghost function Interrupts(m: Hart, buf: nat): (Hart, nat)
  {
    if m.rest.chkInt then
      Put(m, Traps.SetUp(View(m.(rest := m.rest.(chkInt := false)), buf)).0)
    else (m, buf)
  }

  /** decode_exc and the traps of this cycle, from what fetch left. */
  ghost function Perform(outside: Step<Rest>, m: Hart, f: Fetched, buf: nat): (Hart, nat)
    requires Shape(m.s.tlb)
  {
    if f.Trap? then Raise(m, f.code, f.tval) else Finish(outside, m, f, Executed(m, f), buf)
  }

  function Zeroed(m: Hart): Hart
  {
    m.(rest := m.rest.(regs := m.rest.regs[0 := 0]))
  }

  /** Everything after fetch; regs[0] is zeroed before fetch, which does not look at it. */
  ghost function AfterFetch(outside: Step<Rest>, m: Hart, f: Fetched, buf: nat): (Hart, nat)
    requires Shape(m.s.tlb)
  {
    var (m', buf') := Perform(outside, Zeroed(m), f, buf);
    Interrupts(m', buf')
  }

  /** cycle */
  ghost function HartCycle(outside: Step<Rest>, m: Hart, buf: nat): (Hart, nat)
    requires Shape(m.s.tlb)
  {
    var (s, f, buf') := Fetch(m.s, m.pc, buf);
    AfterFetch(outside, m.(s := s), f, buf')
  }

  // ---------- mstatus ----------

  lemma PutWord(m: Hart, h: Traps.Hart, w: bv64)
    requires StatusBits.Bits(w) == h.mstatus
    ensures Put(m, h).0.s.core.mstatus == w
  {
    StatusBits.WordOfBits(w);
  }

  /** An exception leaves in mstatus what the masks and shifts of create_exception make of the word. */
  lemma TrapOnWord(m: Hart, code: nat, tval: U64)
    requires m.s.core.priv <= 3
    ensures var ms, p := m.s.core.mstatus, StatusBits.PrivBits(m.s.core.priv);
            Raise(m, code, tval).0.s.core.mstatus ==
              if Traps.Delegated(View(m, 0), Traps.Cause(false, code)) then StatusBits.SEntryWord(ms, p)
              else StatusBits.MEntryWord(ms, p)
  {
    var ms, p, he := m.s.core.mstatus, StatusBits.PrivBits(m.s.core.priv), Traps.Cause(false, code);
    if Traps.Delegated(View(m, 0), he) {
      StatusBits.SEntryBits(ms, p);
      PutWord(m, Traps.EnterS(View(m, 0), he, tval), StatusBits.SEntryWord(ms, p));
    } else {
      StatusBits.MEntryBits(ms, p);
      PutWord(m, Traps.EnterM(View(m, 0), he, tval), StatusBits.MEntryWord(ms, p));
    }
  }

  lemma MretOnWord(m: Hart, buf: nat)
    ensures Put(m, Traps.Mret(View(m, buf))).0.s.core.mstatus
         == StatusBits.MReturned(StatusBits.MExitWord(m.s.core.mstatus))
  {
    StatusBits.MReturnedBits(m.s.core.mstatus);
    PutWord(m, Traps.Mret(View(m, buf)), StatusBits.MReturned(StatusBits.MExitWord(m.s.core.mstatus)));
  }

  // ---------- a cycle as a step over the buffer ----------

  /** What becomes of a buffer, given what becomes of one that holds 1. */
  function Kept(one: nat, buf: nat): nat
  {
    if one == 0 then 0 else buf
  }

  lemma BlockedIgnores(h: Traps.Hart, b: nat, he: Traps.Cause)
    ensures Traps.Blocked(h.(instbuf := b), he) == Traps.Blocked(h, he)
    ensures Traps.Raise(h.(instbuf := b), he, 0) == Traps.Raise(h, he, 0) && Traps.Raise(h, he, 0).instbuf == 0
  {
  }

  lemma {:induction false} PassKeeps(h: Traps.Hart, codes: seq<nat>, b: nat)
    requires h.instbuf == 1
    ensures var (r, taken) := Traps.Pass(h, codes);
            && Traps.Pass(h.(instbuf := b), codes) == (r.(instbuf := Kept(r.instbuf, b)), taken)
            && (r.instbuf == 0 || r == h) && (taken ==> r.instbuf == 0) && (!taken ==> r.(instbuf := 1) == h)
    decreases |codes|
  {
    if codes != [] {
      BlockedIgnores(h, b, Traps.Cause(true, codes[0]));
      if !Traps.Ready(h, codes[0]) {
        if Traps.Pending(h, codes[0]) {
          TrapTheorems.PassExact(h.(instbuf := 0), codes[1..]);
          EmptyStays(h.(instbuf := 0), codes[1..]);
        } else {
          PassKeeps(h, codes[1..], b);
        }
      }
    }
  }

  lemma EmptyStays(h: Traps.Hart, codes: seq<nat>)
    requires h.instbuf == 0
    ensures Traps.Pass(h, codes).0.instbuf == 0
  {
    TrapTheorems.PassExact(h, codes);
    if Traps.FirstReady(h, codes).Some? {
      BlockedIgnores(h, 0, Traps.Cause(true, Traps.FirstReady(h, codes).value));
    }
  }

  /** setup_pending_int leaves instbuf alone or empties it, and then only moves pc if it takes an interrupt. */
  lemma SetUpKeeps(h: Traps.Hart, b: nat)
    requires h.instbuf == 1
    ensures var r := Traps.SetUp(h).0;
            && Traps.SetUp(h.(instbuf := b)).0 == r.(instbuf := Kept(r.instbuf, b))
            && (r.instbuf == 0 || r == h)
  {
    PassKeeps(h, Traps.PRIORITY, b);
    PassKeeps(h, Traps.PRIORITY[3..], b);
    EmptyStays(h.(instbuf := 0), Traps.PRIORITY[3..]);
  }

  /** A cycle after fetch as Prefetch sees it. */
  ghost function StepOf(outside: Step<Rest>): Step<Rest>
  {
    (m: Hart, f: Fetched) =>
      if Shape(m.s.tlb) then var (m', one) := AfterFetch(outside, m, f, 1); (m', one == 0) else (m, true)
  }

  lemma InterruptsKeep(m: Hart, buf: nat)
    ensures var (m1, one) := Interrupts(m, 1);
            && Interrupts(m, buf) == (m1, Kept(one, buf)) && Interrupts(m, 0) == (m1, 0)
            && m1.s.tlb == m.s.tlb && one <= 1 && (one != 0 ==> m1.pc == m.pc)
  {
    if m.rest.chkInt {
      var h := View(m.(rest := m.rest.(chkInt := false)), 1);
      SetUpKeeps(h, buf);
      SetUpKeeps(h, 0);
    }
  }

  /** What the parts of a cycle keep: the TLB's shape, and the buffer only if pc goes on to the next instruction. */
  ghost predicate StepsOn(m: Hart, f: Fetched, r: (Hart, nat), one: (Hart, nat), buf: nat)
  {
    && one.1 <= 1 && r == (one.0, Kept(one.1, buf)) && Shape(one.0.s.tlb)
    && (one.1 != 0 ==> f.Inst? && one.0.pc == Wrap(m.pc + f.len / 8))
  }

  lemma RaiseDrops(m: Hart, code: nat, tval: U64)
    ensures Raise(m, code, tval).1 == 0 && Raise(m, code, tval).0.s.tlb == m.s.tlb
  {
  }

  lemma ReturnDrops(h: Traps.Hart, b: nat)
    ensures Traps.Mret(h.(instbuf := b)) == Traps.Mret(h) && Traps.Mret(h).instbuf == 0
    ensures Traps.SretInst(h.(instbuf := b), SRET) == Traps.SretInst(h, SRET) && Traps.SretInst(h, SRET).instbuf == 0
  {
  }

  lemma PutKeepsTlb(m: Hart, h: Traps.Hart)
    ensures Put(m, h).0.s.tlb == m.s.tlb && Put(m, h).1 == h.instbuf
  {
  }

  lemma ReturnKeeps(m: Hart, f: Fetched, buf: nat)
    requires Shape(m.s.tlb)
    ensures StepsOn(m, f, Put(m, Traps.Mret(View(m, buf))), Put(m, Traps.Mret(View(m, 1))), buf)
    ensures StepsOn(m, f, Put(m, Traps.SretInst(View(m, buf), SRET)), Put(m, Traps.SretInst(View(m, 1), SRET)), buf)
  {
    var h := View(m, 1);
    assert View(m, buf) == h.(instbuf := buf);
    ReturnDrops(h, buf);
    PutKeepsTlb(m, Traps.Mret(h));
    PutKeepsTlb(m, Traps.SretInst(h, SRET));
  }

  lemma WaitKeeps(m: Hart, f: Fetched, buf: nat)
    requires Shape(m.s.tlb) && f.Inst?
    ensures StepsOn(m, f, Wait(m, f.len / 8, buf), Wait(m, f.len / 8, 1), buf)
    ensures StepsOn(m, f, Fence(m, f.len / 8, Wrap(f.word)), Fence(m, f.len / 8, Wrap(f.word)), buf)
  {
    RaiseDrops(m, ILLINST, WFI);
    RaiseDrops(m, ILLINST, Wrap(f.word));
  }

  lemma LeftKeeps(outside: Step<Rest>, m: Hart, f: Fetched, buf: nat)
    requires Shaped(outside) && Sequential(outside) && Shape(m.s.tlb)
    ensures StepsOn(m, f, Left(outside, m, f, buf), Left(outside, m, f, 1), buf)
  {
  }

  lemma SystemKeeps(outside: Step<Rest>, m: Hart, f: Fetched, buf: nat)
    requires Shaped(outside) && Sequential(outside) && Shape(m.s.tlb) && f.Inst?
    ensures StepsOn(m, f, SystemCall(outside, m, f, buf), SystemCall(outside, m, f, 1), buf)
  {
    if f.word == MRET || f.word == SRET {
      ReturnKeeps(m, f, buf);
    } else {
      WaitKeeps(m, f, buf);
      LeftKeeps(outside, m, f, buf);
    }
  }

  lemma ResultKeeps(outside: Step<Rest>, m: Hart, f: Fetched, r: Execution.Result, buf: nat)
    requires Shaped(outside) && Sequential(outside) && Shape(m.s.tlb) && f.Inst? && GoesOn(r, m.pc, f.len / 8)
    ensures StepsOn(m, f, Finish(outside, m, f, r, buf), Finish(outside, m, f, r, 1), buf)
  {
    match r
    case Elsewhere => SystemKeeps(outside, m, f, buf);
    case Raised(n, tval, c) => RaiseDrops(WithCpu(m, c), n, tval);
    case Next(_, _) =>
  }

  lemma PerformKeeps(outside: Step<Rest>, m: Hart, f: Fetched, buf: nat)
    requires Shaped(outside) && Sequential(outside) && Shape(m.s.tlb)
    ensures StepsOn(m, f, Perform(outside, m, f, buf), Perform(outside, m, f, 1), buf)
  {
    if f.Trap? {
      RaiseDrops(m, f.code, f.tval);
    } else {
      ResultKeeps(outside, m, f, Executed(m, f), buf);
    }
  }

  lemma EmptyThen(m: Hart, f: Fetched, m1: Hart, i0: (Hart, nat), i1: (Hart, nat), buf: nat)
    requires Shape(m1.s.tlb) && i0 == (i1.0, 0) && i1.0.s.tlb == m1.s.tlb
    ensures StepsOn(m, f, i0, i0, buf)
  {
  }

  lemma FullThen(m: Hart, f: Fetched, m1: Hart, ib: (Hart, nat), i1: (Hart, nat), buf: nat)
    requires Shape(m1.s.tlb) && f.Inst? && m1.pc == Wrap(m.pc + f.len / 8)
    requires ib == (i1.0, Kept(i1.1, buf)) && i1.1 <= 1 && i1.0.s.tlb == m1.s.tlb && (i1.1 != 0 ==> i1.0.pc == m1.pc)
    ensures StepsOn(m, f, ib, i1, buf)
  {
  }

  lemma ThenEmpty(m: Hart, f: Fetched, m1: Hart, buf: nat)
    requires Shape(m1.s.tlb)
    ensures StepsOn(m, f, Interrupts(m1, 0), Interrupts(m1, 0), buf)
  {
    InterruptsKeep(m1, buf);
    EmptyThen(m, f, m1, Interrupts(m1, 0), Interrupts(m1, 1), buf);
  }

  lemma ThenFull(m: Hart, f: Fetched, m1: Hart, buf: nat)
    requires Shape(m1.s.tlb) && f.Inst? && m1.pc == Wrap(m.pc + f.len / 8)
    ensures StepsOn(m, f, Interrupts(m1, buf), Interrupts(m1, 1), buf)
  {
    InterruptsKeep(m1, buf);
    FullThen(m, f, m1, Interrupts(m1, buf), Interrupts(m1, 1), buf);
  }

  lemma ThenInterrupts(m: Hart, f: Fetched, m1: Hart, one: nat, buf: nat)
    requires StepsOn(m, f, (m1, Kept(one, buf)), (m1, one), buf)
    ensures StepsOn(m, f, Interrupts(m1, Kept(one, buf)), Interrupts(m1, one), buf)
  {
    if one == 0 {
      ThenEmpty(m, f, m1, buf);
    } else {
      assert one == 1 && Kept(one, buf) == buf;
      ThenFull(m, f, m1, buf);
    }
  }

  lemma AfterFetchKeeps(outside: Step<Rest>, m: Hart, f: Fetched, buf: nat)
    requires Shaped(outside) && Sequential(outside) && Shape(m.s.tlb)
    ensures StepsOn(m, f, AfterFetch(outside, m, f, buf), AfterFetch(outside, m, f, 1), buf)
  {
    var m0 := Zeroed(m);
    PerformKeeps(outside, m0, f, buf);
    var (m1, one) := Perform(outside, m0, f, 1);
    ThenInterrupts(m0, f, m1, one, buf);
  }

  /** The hart's cycle meets what the front end's theorems ask of the rest of a cycle. */
  lemma StepIsSequential(outside: Step<Rest>)
    requires Shaped(outside) && Sequential(outside)
    ensures Shaped(StepOf(outside)) && Sequential(StepOf(outside))
  {
    forall m: Hart, f: Fetched | Shape(m.s.tlb)
      ensures Shape(StepOf(outside)(m, f).0.s.tlb)
      ensures !StepOf(outside)(m, f).1 ==> f.Inst? && StepOf(outside)(m, f).0.pc == Wrap(m.pc + f.len / 8)
    {
      AfterFetchKeeps(outside, m, f, 0);
    }
  }

  /** The one instbuf of the hart is the buffer of the front end. */
  lemma HartCycleIsCycle(outside: Step<Rest>, m: Hart, buf: nat)
    requires Shaped(outside) && Sequential(outside) && Shape(m.s.tlb)
    ensures HartCycle(outside, m, buf) == Cycle(StepOf(outside), m, buf)
  {
    var (s, f, buf') := Fetch(m.s, m.pc, buf);
    AfterFetchKeeps(outside, m.(s := s), f, buf');
  }
}
