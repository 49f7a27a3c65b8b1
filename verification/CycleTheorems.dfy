/**
 When a hart runs as if it read memory for every instruction: untranslated code that does not store into the halfword
 it has fetched too many, and translated code within a page.
 */
module CycleTheorems {
  import opened Base
  import PhysMem
  import opened Tlb
  import PageWalk
  import opened Mmu
  import Decode
  import Compressed
  import Execution
  import Core
  import StatusBits
  import opened Prefetch
  import opened Cycles
  import Refetch

  type Hart = Cycles.Hart

  // ---------- when the hart is quiet ----------

  /** Neither fetches nor data accesses go through a page table. */
  predicate Direct(c: Mmu.Core)
  {
    c.satp == 0 || (c.priv == 3 && c.mstatus & MPRV_BIT == 0)
  }

  /** A store misses the halfword at a. */
  predicate Spares(c: Execution.Cpu, f: Decode.Fields, a: int)
    requires Execution.WellFormed(c)
  {
    f.op == Decode.Store ==>
      var t := Wrap(Execution.Read(c, f.rs1) + Execution.ImmValue(f.imm));
      a + 2 <= t || t + Execution.Width(f.funct3) <= a
  }

  /** Same translation, same protection, same halfword at a. */
  predicate SameCode(c: Mmu.Core, c': Mmu.Core, a: int)
  {
    && c'.priv == c.priv && c'.satp == c.satp && c'.bus.pmp == c.bus.pmp && |c'.bus.mem.ram| == |c.bus.mem.ram|
    && PhysMem.Get(c'.bus.mem, a, 2) == PhysMem.Get(c.bus.mem, a, 2)
  }

  lemma DirectAccess(s: Cached, acc: Access, n: nat, va: U64, data: nat, a: int)
    requires Shape(s.tlb) && Direct(s.core) && (acc.write ==> a + 2 <= va || va + n <= a)
    ensures SameCode(s.core, TlbAccess(s, acc, n, va, data).0.core, a)
  {
    assert PageWalk.Levels(0) == 0;
    if acc.write {
      PhysMem.GetPutDisjoint(s.core.bus.mem, va, n, data, a, 2);
    }
  }

  lemma FinishLoadSame(rd: bv32, funct3: bv32, len: nat, c: Execution.Cpu, addr: U64, out: Outcome)
    requires Execution.WellFormed(c)
    ensures var r := Execution.FinishLoad(rd, funct3, len, c, addr, out); r.Next? ==> r.cpu.s == c.s
  {
  }

  lemma LoadFromSpares(rd: bv32, funct3: bv32, len: nat, c: Execution.Cpu, addr: U64, a: int)
    requires Execution.WellFormed(c) && Direct(c.s.core)
    ensures var r := Execution.LoadFrom(rd, funct3, len, c, addr); r.Next? ==> SameCode(c.s.core, r.cpu.s.core, a)
  {
    DirectAccess(c.s, Access(false, true), Execution.Width(funct3), addr, 0, a);
    var (s, out) := TlbAccess(c.s, Access(false, true), Execution.Width(funct3), addr, 0);
    Core.LoadIs(rd, funct3, len, c, addr, s, out);
    FinishLoadSame(rd, funct3, len, c.(s := s), addr, out);
  }

  lemma LoadSpares(f: Decode.Fields, len: nat, c: Execution.Cpu, a: int)
    requires Execution.WellFormed(c) && Direct(c.s.core)
    ensures var r := Execution.ExecuteLoad(f, len, c); r.Next? ==> SameCode(c.s.core, r.cpu.s.core, a)
  {
    var addr := Wrap(Execution.Read(c, f.rs1) + Execution.ImmValue(f.imm));
    Core.LoadIsFrom(f, len, c, addr);
    LoadFromSpares(f.rd, f.funct3, len, c, addr, a);
  }

  lemma StoreSpares(f: Decode.Fields, len: nat, c: Execution.Cpu, a: int)
    requires Execution.WellFormed(c) && Direct(c.s.core) && f.op == Decode.Store && Spares(c, f, a)
    ensures var r := Execution.ExecuteStore(f, len, c); r.Next? ==> SameCode(c.s.core, r.cpu.s.core, a)
  {
    var addr, data := Wrap(Execution.Read(c, f.rs1) + Execution.ImmValue(f.imm)), Execution.Read(c, f.rs2);
    Core.OperandsAre(f, len, c, addr, data);
    StoreToSpares(Execution.Width(f.funct3), len, c, addr, data, a);
  }

  lemma StoreToSpares(n: nat, len: nat, c: Execution.Cpu, addr: U64, data: U64, a: int)
    requires Execution.WellFormed(c) && Direct(c.s.core) && (a + 2 <= addr || addr + n <= a)
    ensures var r := Execution.StoreTo(n, len, c, addr, data); r.Next? ==> SameCode(c.s.core, r.cpu.s.core, a)
  {
    DirectAccess(c.s, Access(true, false), n, addr, data, a);
  }

  /** Only stores touch memory that is not a page table. */
  lemma ExecuteSpares(f: Decode.Fields, len: nat, c: Execution.Cpu, a: int)
    requires Execution.WellFormed(c) && Direct(c.s.core) && Spares(c, f, a)
    ensures var r := Execution.Execute(f, len, c); r.Next? ==> SameCode(c.s.core, r.cpu.s.core, a)
  {
    match f.op {
      case Load => LoadSpares(f, len, c, a);
      case Store => StoreSpares(f, len, c, a);
      case _ => RegistersOnly(f, len, c, a);
    }
  }

  lemma RegistersOnly(f: Decode.Fields, len: nat, c: Execution.Cpu, a: int)
    requires Execution.WellFormed(c) && f.op != Decode.Load && f.op != Decode.Store
    ensures var r := Execution.Execute(f, len, c); r.Next? ==> SameCode(c.s.core, r.cpu.s.core, a)
  {
  }

  /** With the buffer kept, setup_pending_int has taken nothing. */
  lemma InterruptsSpare(m: Hart, a: int)
    ensures var (m1, one) := Interrupts(m, 1); one != 0 ==> SameCode(m.s.core, m1.s.core, a)
  {
    if m.rest.chkInt {
      SetUpKeeps(View(m.(rest := m.rest.(chkInt := false)), 1), 1);
    }
  }

  /** The 32-bit meaning of a 16-bit word that was fetched. */
  function Meaning(f: Fetched): Decode.Fields
    requires f.Inst? && Compressed.Recognised(WordOf(f))
  {
    Decode.FieldsOf(Compressed.Expand(WordOf(f)))
  }

  lemma FinishSpares(outside: Step<Rest>, m: Hart, f: Fetched, r: Execution.Result, a: int)
    requires f.Inst? && GoesOn(r, m.pc, f.len / 8) && !r.Elsewhere?
    requires r.Next? ==> SameCode(m.s.core, r.cpu.s.core, a)
    ensures var (m1, one) := Cycles.Finish(outside, m, f, r, 1); one != 0 ==> SameCode(m.s.core, m1.s.core, a)
  {
    if r.Raised? {
      RaiseDrops(WithCpu(m, r.cpu), r.code, r.tval);
    }
  }

  lemma CompressedRuns(w: bv32, c: Execution.Cpu)
    requires Execution.WellFormed(c) && Compressed.Recognised(w)
    ensures !Execution.Execute(Decode.FieldsOf(Compressed.Expand(w)), 2, c).Elsewhere?
  {
    Execution.ExpansionModelled(w);
    Execution.ModelledExecutes(Decode.FieldsOf(Compressed.Expand(w)), 2, c);
  }

  lemma ExecutedSpares(m: Hart, f: Fetched, a: int)
    requires Shape(m.s.tlb) && f.Inst? && f.len == 16 && Compressed.Recognised(WordOf(f))
    requires Direct(m.s.core) && Spares(CpuOf(m), Meaning(f), a)
    ensures var r := Executed(m, f); !r.Elsewhere? && (r.Next? ==> SameCode(m.s.core, r.cpu.s.core, a))
  {
    var r := Executed(m, f);
    ExecutedIs(m, f, r);
    ExecuteSpares(Meaning(f), 2, CpuOf(m), a);
    CompressedRuns(WordOf(f), CpuOf(m));
  }

  lemma ExecutedIs(m: Hart, f: Fetched, r: Execution.Result)
    requires Shape(m.s.tlb) && f.Inst? && f.len == 16 && Compressed.Recognised(WordOf(f)) && r == Executed(m, f)
    ensures r == Execution.Execute(Meaning(f), 2, CpuOf(m))
  {
  }

  lemma PerformSpares(outside: Step<Rest>, m: Hart, f: Fetched, a: int)
    requires Shape(m.s.tlb) && f.Inst? && f.len == 16 && Compressed.Recognised(WordOf(f))
    requires Direct(m.s.core) && Spares(CpuOf(m), Meaning(f), a)
    ensures var (m1, one) := Perform(outside, m, f, 1); one != 0 ==> SameCode(m.s.core, m1.s.core, a)
  {
    ExecutedSpares(m, f, a);
    FinishSpares(outside, m, f, Executed(m, f), a);
  }

  lemma AfterFetchSpares(outside: Step<Rest>, m: Hart, f: Fetched, a: int)
    requires Shaped(outside) && Sequential(outside)
    requires Shape(m.s.tlb) && f.Inst? && f.len == 16 && Compressed.Recognised(WordOf(f))
    requires Direct(m.s.core) && Spares(CpuOf(Zeroed(m)), Meaning(f), a)
    ensures var (m1, one) := AfterFetch(outside, m, f, 1); one != 0 ==> SameCode(m.s.core, m1.s.core, a)
  {
    PerformSpares(outside, Zeroed(m), f, a);
    PerformKeeps(outside, Zeroed(m), f, 1);
    BothSpare(m, Perform(outside, Zeroed(m), f, 1), a);
  }

  lemma BothSpare(m: Hart, r: (Hart, nat), a: int)
    requires r.1 <= 1 && (r.1 != 0 ==> SameCode(m.s.core, r.0.s.core, a))
    ensures var (m1, one) := Interrupts(r.0, r.1); one != 0 ==> SameCode(m.s.core, m1.s.core, a)
  {
    InterruptsSpare(r.0, a);
    InterruptsKeep(r.0, r.1);
  }

  /** Untranslated, and the fetch behind a 16-bit instruction is permitted and does not enter main_mem midway. */
  predicate Ahead(m: Hart)
  {
    && Untranslated(m.s.core) && m.pc + 2 < 0x1_0000_0000_0000_0000
    && (m.pc + 2 < PhysMem.RAM_BASE || PhysMem.RAM_BASE <= m.pc)
    && PageWalk.ReadOk(m.s.core.bus, m.s.core.priv, false, m.pc + 2, 4)
  }

  /**
   What a cycle finds before it whose buffer survives it: nothing is translated, the next fetch is permitted, and
   its compressed instruction does not store into the halfword fetched too many.
   */
  ghost predicate Undisturbed(outside: Step<Rest>, m: Hart)
    requires Shape(m.s.tlb)
  {
    HartCycle(outside, m, 0).1 != 0 ==>
      var (_, f, _) := Fetch(m.s, m.pc, 0);
      && Ahead(m) && Direct(m.s.core)
      && f.Inst? && Compressed.Recognised(WordOf(f)) && Spares(CpuOf(Zeroed(m)), Meaning(f), m.pc + 2)
  }

  lemma SameCodeIsQuiet(step: Step<Rest>, m: Hart, m': Hart, buf': nat)
    requires Shape(m.s.tlb) && Ahead(m)
    requires Cycle(step, m, 0) == (m', buf') && SameCode(m.s.core, m'.s.core, m.pc + 2)
    ensures Quiet(step, m)
  {
    WordHalves(m.s.core.bus.mem, m.pc);
  }

  /** A fetch that changes nothing, and what follows it. */
  lemma CycleIsAfterFetch(outside: Step<Rest>, m: Hart, f: Fetched, buf: nat)
    requires Shape(m.s.tlb) && Shaped(outside) && Sequential(outside) && Fetch(m.s, m.pc, 0) == (m.s, f, buf)
    ensures var (m1, one) := AfterFetch(outside, m, f, 1); Cycle(StepOf(outside), m, 0) == (m1, Kept(one, buf))
  {
    HartCycleIsCycle(outside, m, 0);
    AfterFetchKeeps(outside, m, f, buf);
  }

  lemma CycleSpares(outside: Step<Rest>, m: Hart, f: Fetched, buf: nat)
    requires Shape(m.s.tlb) && Shaped(outside) && Sequential(outside) && Fetch(m.s, m.pc, 0) == (m.s, f, buf)
    requires f.Inst? && f.len == 16 && Compressed.Recognised(WordOf(f))
    requires Direct(m.s.core) && Spares(CpuOf(Zeroed(m)), Meaning(f), m.pc + 2)
    ensures var (m', buf') := Cycle(StepOf(outside), m, 0); buf' != 0 ==> SameCode(m.s.core, m'.s.core, m.pc + 2)
  {
    CycleIsAfterFetch(outside, m, f, buf);
    AfterFetchSpares(outside, m, f, m.pc + 2);
  }

  lemma UndisturbedIsQuiet(outside: Step<Rest>, m: Hart)
    requires Shape(m.s.tlb) && Shaped(outside) && Sequential(outside) && Undisturbed(outside, m)
    ensures Quiet(StepOf(outside), m)
  {
    HartCycleIsCycle(outside, m, 0);
    var (m', buf') := Cycle(StepOf(outside), m, 0);
    if buf' != 0 {
      var (s, f, buf) := Fetch(m.s, m.pc, 0);
      StillBuffered(outside, m, s, f, buf);
      BufferedHalf(m.s, m.pc);
      CycleSpares(outside, m, f, buf);
      SameCodeIsQuiet(StepOf(outside), m, m', buf');
    }
  }

  /** What survives the cycle was fetched in it. */
  lemma StillBuffered(outside: Step<Rest>, m: Hart, s: Cached, f: Fetched, buf: nat)
    requires Shape(m.s.tlb) && Shaped(outside) && Sequential(outside) && Fetch(m.s, m.pc, 0) == (s, f, buf)
    requires HartCycle(outside, m, 0).1 != 0
    ensures buf != 0
  {
    AfterFetchKeeps(outside, m.(s := s), f, buf);
  }

  // ---------- translated code ----------

  /** The instruction and the interrupts leave the memory side of the hart as fetch has left it. */
  lemma RegistersKeep(f: Decode.Fields, len: nat, c: Execution.Cpu)
    requires Execution.WellFormed(c) && f.op != Decode.Load && f.op != Decode.Store
    ensures var r := Execution.Execute(f, len, c); r.Next? ==> r.cpu.s == c.s
  {
  }

  lemma InterruptsKeepMemory(m: Hart)
    ensures var (m1, one) := Interrupts(m, 1); one != 0 ==> m1.s == m.s
  {
    if m.rest.chkInt {
      var h := View(m.(rest := m.rest.(chkInt := false)), 1);
      SetUpKeeps(h, 1);
      StatusBits.WordOfBits(m.s.core.mstatus);
    }
  }

  lemma FinishKeepsMemory(outside: Step<Rest>, m: Hart, f: Fetched, r: Execution.Result)
    requires f.Inst? && GoesOn(r, m.pc, f.len / 8) && !r.Elsewhere? && (r.Next? ==> r.cpu.s == m.s)
    ensures var (m1, one) := Cycles.Finish(outside, m, f, r, 1); one != 0 ==> m1.s == m.s
  {
    if r.Raised? {
      RaiseDrops(WithCpu(m, r.cpu), r.code, r.tval);
    }
  }

  lemma ExecutedKeepsMemory(m: Hart, f: Fetched)
    requires Shape(m.s.tlb) && f.Inst? && f.len == 16 && Compressed.Recognised(WordOf(f))
    requires Meaning(f).op != Decode.Load && Meaning(f).op != Decode.Store
    ensures var r := Executed(m, f); !r.Elsewhere? && (r.Next? ==> r.cpu.s == m.s)
  {
    var r := Executed(m, f);
    ExecutedIs(m, f, r);
    CompressedRuns(WordOf(f), CpuOf(m));
    RegistersKeep(Meaning(f), 2, CpuOf(m));
  }

  lemma PerformKeepsMemory(outside: Step<Rest>, m: Hart, f: Fetched)
    requires Shape(m.s.tlb) && f.Inst? && f.len == 16 && Compressed.Recognised(WordOf(f))
    requires Meaning(f).op != Decode.Load && Meaning(f).op != Decode.Store
    ensures var (m1, one) := Perform(outside, m, f, 1); one != 0 ==> m1.s == m.s
  {
    ExecutedKeepsMemory(m, f);
    FinishKeepsMemory(outside, m, f, Executed(m, f));
  }

  lemma BothKeepMemory(s: Cached, r: (Hart, nat))
    requires r.1 <= 1 && (r.1 != 0 ==> r.0.s == s)
    ensures var (m1, one) := Interrupts(r.0, r.1); one != 0 ==> m1.s == s
  {
    InterruptsKeepMemory(r.0);
    InterruptsKeep(r.0, r.1);
  }

  lemma RegisterCycleKeeps(outside: Step<Rest>, m: Hart, f: Fetched)
    requires Shaped(outside) && Sequential(outside)
    requires Shape(m.s.tlb) && f.Inst? && f.len == 16 && Compressed.Recognised(WordOf(f))
    requires Meaning(f).op != Decode.Load && Meaning(f).op != Decode.Store
    ensures var (m1, one) := AfterFetch(outside, m, f, 1); one != 0 ==> m1.s == m.s
  {
    PerformKeepsMemory(outside, Zeroed(m), f);
    PerformKeeps(outside, Zeroed(m), f, 1);
    BothKeepMemory(m.s, Perform(outside, Zeroed(m), f, 1));
  }

  /** The leaf page of pc lets the next fetch go two bytes on. */
  ghost predicate OnPage(m: Hart, priv: nat, l: PageWalk.Leaf)
    requires Shape(m.s.tlb)
  {
    && Refetch.Translating(m.s, priv) && Refetch.Leads(m.s.core, priv, m.pc, l)
    && Refetch.SameSmallPage(m.pc) && m.pc + 2 < 0x1_0000_0000_0000_0000
    && Refetch.NextAllowed(m.s.core.bus, priv, PageWalk.Target(l, m.pc))
  }

  /**
   The translated counterpart of Undisturbed: a cycle whose buffer survives it executes a compressed instruction that
   is no load or store, from an executable page, in which the next halfword lies and may be fetched.
   */
  ghost predicate Paged(outside: Step<Rest>, m: Hart)
    requires Shape(m.s.tlb)
  {
    HartCycle(outside, m, 0).1 != 0 ==>
      var f := Fetch(m.s, m.pc, 0).1;
      && f.Inst? && Compressed.Recognised(WordOf(f))
      && Meaning(f).op != Decode.Load && Meaning(f).op != Decode.Store
      && exists priv, l :: OnPage(m, priv, l)
  }

  lemma SortBuffers(w: nat, pc: U64)
    ensures var (f, buf) := Sort(w, pc);
            buf != 0 ==> f.Inst? && f.len == 16 && Short(buf) && buf == w / 0x1_0000 % 0x1_0000
  {
    LowHalf(w / 0x1_0000);
  }

  lemma FetchSorts(s: Cached, pc: U64, first: (Cached, Outcome))
    requires Shape(s.tlb) && first == TlbAccess(s, Access(false, false), 4, pc, 0)
    ensures var (s', f, buf) := Fetch(s, pc, 0);
            s' == first.0 && if first.1.Done? then (f, buf) == Sort(first.1.value, pc) else buf == 0
  {
  }

  /** What fetch buffers is the upper half of a word it has read. */
  lemma BufferedWord(s: Cached, pc: U64, first: (Cached, Outcome))
    requires Shape(s.tlb) && first == TlbAccess(s, Access(false, false), 4, pc, 0)
    ensures var (s', f, buf) := Fetch(s, pc, 0);
            buf != 0 ==> && s' == first.0 && first.1.Done? && f.Inst? && f.len == 16 && Short(buf)
                         && buf == first.1.value / 0x1_0000 % 0x1_0000
  {
    FetchSorts(s, pc, first);
    if first.1.Done? {
      SortBuffers(first.1.value, pc);
    }
  }

  lemma AgreeRefetchable(s: Cached, pc: U64, buf: nat, first: (Cached, Outcome), second: (Cached, Outcome))
    requires Shape(s.tlb) && second == TlbAccess(s, Access(false, false), 4, pc, 0)
    requires first.0 == s && first.1.Done? && buf == first.1.value / 0x1_0000 % 0x1_0000 && Refetch.Agree(first, second)
    ensures Refetchable(s, pc, buf)
  {
  }

  lemma PagedAgree(m: Hart, priv: nat, l: PageWalk.Leaf, first: (Cached, Outcome), second: (Cached, Outcome), next: U64)
    requires Shape(m.s.tlb) && OnPage(m, priv, l) && first == TlbAccess(m.s, Access(false, false), 4, m.pc, 0)
    requires first.1.Done?
    requires next == m.pc + 2 && second == TlbAccess(first.0, Access(false, false), 4, next, 0)
    ensures Refetch.Agree(first, second)
  {
    Refetch.FetchNextWord(m.s, priv, m.pc, l);
    Refetch.HalfwordAgain(m.s.core.bus, first, second, priv, m.pc, l);
  }

  lemma PagedRefetch(m: Hart, priv: nat, l: PageWalk.Leaf, first: (Cached, Outcome), buf: nat, next: U64)
    requires Shape(m.s.tlb) && OnPage(m, priv, l) && first == TlbAccess(m.s, Access(false, false), 4, m.pc, 0)
    requires first.1.Done? && buf == first.1.value / 0x1_0000 % 0x1_0000 && next == m.pc + 2
    ensures Refetchable(first.0, next, buf)
  {
    var second := TlbAccess(first.0, Access(false, false), 4, next, 0);
    PagedAgree(m, priv, l, first, second, next);
    AgreeRefetchable(first.0, next, buf, first, second);
  }

  ghost predicate GoodAfter(r: (Hart, nat))
  {
    Shape(r.0.s.tlb) && Good(r.0.s, r.0.pc, r.1)
  }

  lemma PagedGood(outside: Step<Rest>, m: Hart, f: Fetched, buf: nat, s: Cached, next: U64)
    requires Shape(m.s.tlb) && m.s == s && next == Wrap(m.pc + 2) && Shaped(outside) && Sequential(outside)
    requires f.Inst? && f.len == 16 && Compressed.Recognised(WordOf(f)) && Short(buf)
    requires Meaning(f).op != Decode.Load && Meaning(f).op != Decode.Store && Refetchable(s, next, buf)
    ensures GoodAfter(AfterFetch(outside, m, f, buf))
  {
    AfterFetchKeeps(outside, m, f, buf);
    RegisterCycleKeeps(outside, m, f);
    KeptGood(m, f, AfterFetch(outside, m, f, buf), AfterFetch(outside, m, f, 1), buf, s, next);
  }

  lemma CycleFetches(outside: Step<Rest>, m: Hart, s: Cached, f: Fetched, buf: nat)
    requires Shape(m.s.tlb) && Fetch(m.s, m.pc, 0) == (s, f, buf)
    ensures HartCycle(outside, m, 0) == AfterFetch(outside, m.(s := s), f, buf)
  {
  }

  lemma KeptGood(m: Hart, f: Fetched, r: (Hart, nat), one: (Hart, nat), buf: nat, s: Cached, next: U64)
    requires Shape(m.s.tlb) && m.s == s && next == Wrap(m.pc + 2) && f.Inst? && f.len == 16
    requires StepsOn(m, f, r, one, buf) && (one.1 != 0 ==> one.0.s == m.s)
    requires Short(buf) && Refetchable(s, next, buf)
    ensures GoodAfter(r)
  {
    assert f.len / 8 == 2;
    if one.1 != 0 {
      assert r == (one.0, buf);
      SameIsGood(r.0.s, s, r.0.pc, next, buf);
    }
  }

  lemma SameIsGood(s: Cached, s0: Cached, pc: U64, pc0: U64, buf: nat)
    requires Shape(s.tlb) && s == s0 && pc == pc0 && Short(buf) && Refetchable(s0, pc0, buf)
    ensures Good(s, pc, buf)
  {
  }

  lemma PagedFrom(outside: Step<Rest>, m: Hart, ms: Hart, f: Fetched, buf: nat, first: (Cached, Outcome), priv: nat,
        l: PageWalk.Leaf)
    requires Shape(m.s.tlb) && Shaped(outside) && Sequential(outside) && OnPage(m, priv, l)
    requires first == TlbAccess(m.s, Access(false, false), 4, m.pc, 0) && first.1.Done? && ms == m.(s := first.0)
    requires Short(buf) && buf == first.1.value / 0x1_0000 % 0x1_0000 && f.Inst? && f.len == 16
    requires Compressed.Recognised(WordOf(f)) && Meaning(f).op != Decode.Load && Meaning(f).op != Decode.Store
    ensures GoodAfter(AfterFetch(outside, ms, f, buf))
  {
    PagedRefetch(m, priv, l, first, buf, Wrap(m.pc + 2));
    PagedGood(outside, ms, f, buf, first.0, Wrap(m.pc + 2));
  }

  lemma DroppedGood(outside: Step<Rest>, m: Hart)
    requires Shape(m.s.tlb) && Shaped(outside) && Sequential(outside) && HartCycle(outside, m, 0).1 == 0
    ensures GoodAfter(HartCycle(outside, m, 0))
  {
    var (s, f, buf) := Fetch(m.s, m.pc, 0);
    AfterFetchKeeps(outside, m.(s := s), f, buf);
    CycleFetches(outside, m, s, f, buf);
  }

  lemma PagedIsGood(outside: Step<Rest>, m: Hart)
    requires Shape(m.s.tlb) && Shaped(outside) && Sequential(outside) && Paged(outside, m)
    ensures GoodAfter(HartCycle(outside, m, 0))
  {
    if HartCycle(outside, m, 0).1 == 0 {
      DroppedGood(outside, m);
    } else {
      var (s, f, buf) := Fetch(m.s, m.pc, 0);
      StillBuffered(outside, m, s, f, buf);
      var priv, l :| OnPage(m, priv, l);
      var first := TlbAccess(m.s, Access(false, false), 4, m.pc, 0);
      BufferedWord(m.s, m.pc, first);
      PagedFrom(outside, m, m.(s := s), f, buf, first, priv, l);
      CycleFetches(outside, m, s, f, buf);
    }
  }

  // ---------- runs ----------

  ghost predicate CalmRun(outside: Step<Rest>, m: Hart, n: nat)
    requires Shape(m.s.tlb) && Shaped(StepOf(outside))
    decreases n
  {
    n > 0 ==> (Undisturbed(outside, m) || Paged(outside, m)) && CalmRun(outside, Cycle(StepOf(outside), m, 0).0, n - 1)
  }

  /** What a cycle buffers may be read again behind it. */
  lemma CalmIsGood(outside: Step<Rest>, m: Hart)
    requires Shape(m.s.tlb) && Shaped(outside) && Sequential(outside) && (Undisturbed(outside, m) || Paged(outside, m))
    ensures GoodAfter(Cycle(StepOf(outside), m, 0))
  {
    HartCycleIsCycle(outside, m, 0);
    StepIsSequential(outside);
    if Undisturbed(outside, m) {
      UndisturbedIsQuiet(outside, m);
      QuietIsAtPc(StepOf(outside), m);
      var (m', buf') := Cycle(StepOf(outside), m, 0);
      AtPcIsGood(m'.s, m'.pc, buf');
    } else {
      PagedIsGood(outside, m);
    }
  }

  lemma {:induction false} CalmRunIsSteady(outside: Step<Rest>, m: Hart, n: nat)
    requires Shape(m.s.tlb) && Shaped(outside) && Sequential(outside) && Shaped(StepOf(outside))
    requires CalmRun(outside, m, n)
    ensures Steady(StepOf(outside), m, n)
    decreases n
  {
    if n > 0 {
      CalmIsGood(outside, m);
      CalmRunIsSteady(outside, Cycle(StepOf(outside), m, 0).0, n - 1);
    }
  }

  /**
   Registers, memory, CSRs, traps and interrupts after any number of cycles, translated or not, are those of a hart
   that empties instbuf before every fetch, and a nonzero instbuf is what reading memory at pc again would give.
   */
  lemma BufferInvisible(outside: Step<Rest>, m: Hart, n: nat)
    requires Shape(m.s.tlb) && Shaped(outside) && Sequential(outside) && Shaped(StepOf(outside))
    requires CalmRun(outside, m, n)
    ensures var (m', buf) := Run(StepOf(outside), m, 0, n);
            && m' == PlainRun(StepOf(outside), m, n) && Good(m'.s, m'.pc, buf)
            && (buf != 0 && Untranslated(m'.s.core) ==> PhysMem.Get(m'.s.core.bus.mem, m'.pc, 2) == buf)
  {
    CalmRunIsSteady(outside, m, n);
    RunBuffered(StepOf(outside), m, 0, n);
    var (m', buf) := Run(StepOf(outside), m, 0, n);
    if buf != 0 && Untranslated(m'.s.core) {
      UntranslatedRead(m'.s, m'.pc);
      WordHalves(m'.s.core.bus.mem, m'.pc);
    }
  }
}
