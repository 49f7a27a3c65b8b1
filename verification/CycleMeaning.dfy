/** What a cycle does with x0, with the SYSTEM words outside RV64I, with fetch faults and with chk_int. */
module CycleMeaning {
  import opened Base
  import opened Tlb
  import opened Mmu
  import opened Prefetch
  import opened Cycles
  import Decode
  import Compressed
  import Core
  import Execution
  import RvcTable
  import StatusBits
  import Traps
  import TrapMeaning

  type Hart = Cycles.Hart

  // ---------- fetch ----------

  /**
   What fetch makes of memory at pc: an access fault is exception 1, a page fault 12, both with pc as tval. Words of
   zeros or ones are illegal (2); the low bits tell 16-bit from 32-bit instructions, and longer ones are misaligned (0).
   */
  lemma FetchMeans(s: Cached, pc: U64)
    requires Shape(s.tlb)
    ensures var (s', out) := TlbAccess(s, Access(false, false), 4, pc, 0);
            var (r, f, buf) := Fetch(s, pc, 0);
            && r == s' && (buf != 0 ==> out.Done? && f == Inst(out.value % 0x1_0000, 16))
            && match out
               case AccessFault => f == Fetched.Trap(1, pc)
               case PageFault => f == Fetched.Trap(12, pc)
               case Done(w) =>
                 if w == 0 then f == Fetched.Trap(2, 0)
                 else if w == 0xFFFF_FFFF then f == Fetched.Trap(2, 0xFFFF_FFFF_FFFF_FFFF)
                 else if w % 4 != 3 then f == Inst(w % 0x1_0000, 16)
                 else if w % 32 != 31 then f == Inst(w, 32)
                 else f == Fetched.Trap(0, pc)
    ensures var (s', out) := TlbAccess(s, Access(false, false), 4, pc, 0);
            var buf := Fetch(s, pc, 0).2;
            out.Done? && out.value % 4 != 3 && out.value != 0 ==>
              buf == if out.value / 0x1_0000 % 4 == 3 then 0 else out.value / 0x1_0000 % 0x1_0000
  {
    var out := TlbAccess(s, Access(false, false), 4, pc, 0).1;
    if out.Done? {
      var w := out.value;
      DivModIs(w, 32, w / 32, w % 32);
      assert w == 4 * (w / 4) + w % 4 && w / 4 == 8 * (w / 4 / 8) + w / 4 % 8;
      DivModIs(w, 32, w / 4 / 8, 4 * (w / 4 % 8) + w % 4);
    }
  }

  // ---------- x0 ----------

  function WithZero(m: Hart, v: U64): Hart
  {
    m.(rest := m.rest.(regs := m.rest.regs[0 := v]))
  }

  /** What regs[0] holds between two cycles, an instruction with rd = 0 may have left it, makes no difference. */
  lemma ZeroIgnored(outside: Step<Rest>, m: Hart, v: U64, buf: nat)
    requires Shape(m.s.tlb)
    ensures HartCycle(outside, WithZero(m, v), buf) == HartCycle(outside, m, buf)
  {
    var (s, f, buf') := Fetch(m.s, m.pc, buf);
    assert m.rest.regs[0 := v][0 := 0] == m.rest.regs[0 := 0];
    assert Zeroed(WithZero(m, v).(s := s)) == Zeroed(m.(s := s));
  }

  /** And what instructions find in it is 0. */
  lemma ZeroStays(outside: Step<Rest>, m: Hart, f: Fetched, buf: nat)
    requires Shape(m.s.tlb) && m.rest.regs[0] == 0
    ensures var (m', buf') := Perform(outside, m, f, buf);
            AfterFetch(outside, m, f, buf) == Interrupts(m', buf')
  {
    assert m.rest.regs[0 := 0] == m.rest.regs;
    assert Zeroed(m) == m;
  }

  // ---------- interrupts at the end of the cycle ----------

  /** Interrupts are looked at exactly if chk_int is set, once. */
  lemma CheckMeans(m: Hart, buf: nat)
    requires m.s.core.priv <= 3
    ensures !m.rest.chkInt ==> Interrupts(m, buf) == (m, buf)
    ensures m.rest.chkInt ==>
              var h := View(m, buf).(chkInt := false);
              var r := Traps.SetUp(h).0;
              && Interrupts(m, buf) == Put(m.(rest := m.rest.(chkInt := false)), r)
              && !Interrupts(m, buf).0.rest.chkInt
  {
    if m.rest.chkInt {
      var h := View(m, buf).(chkInt := false);
      assert h == View(m.(rest := m.rest.(chkInt := false)), buf);
      ChkStays(h);
    }
  }

  lemma ChkStays(h: Traps.Hart)
    requires h.priv <= 3 && !h.chkInt
    ensures !Traps.SetUp(h).0.chkInt
  {
    TrapMeaning.SetUpMeans(h);
  }

  predicate ToS(m: Hart, c: nat)
  {
    m.s.core.priv <= 1 && c in m.rest.mideleg
  }

  /** Pending, enabled at the level it goes to, and not held back by mstatus.MIE in M mode or SIE in S mode. */
  predicate FiresOn(m: Hart, c: nat)
  {
    var ms := m.s.core.mstatus;
    && c in m.rest.mip && c in (if ToS(m, c) then m.rest.s.ie else m.rest.m.ie)
    && (m.s.core.priv == 3 ==> (ms >> 3) & 1 == 1)
    && (m.s.core.priv == 1 ==> (ms >> 1) & 1 == 1 || c == 3 || c == 7 || c == 11)
  }

  function FirstOn(m: Hart): Option<nat>
  {
    if FiresOn(m, 11) then Some(11)
    else if FiresOn(m, 3) then Some(3)
    else if FiresOn(m, 7) then Some(7)
    else if FiresOn(m, 9) then Some(9)
    else if FiresOn(m, 1) then Some(1)
    else if FiresOn(m, 5) then Some(5)
    else None
  }

  lemma FiresIs(m: Hart, buf: nat, c: nat)
    ensures TrapMeaning.Fires(View(m, buf).(chkInt := false), c) == FiresOn(m, c)
  {
    TrapMeaning.FieldsAre(m.s.core.mstatus);
  }

  lemma FirstIs(m: Hart, buf: nat)
    ensures TrapMeaning.Chosen(View(m, buf).(chkInt := false)) == FirstOn(m)
  {
    FiresIs(m, buf, 11);
    FiresIs(m, buf, 3);
    FiresIs(m, buf, 7);
    FiresIs(m, buf, 9);
    FiresIs(m, buf, 1);
    FiresIs(m, buf, 5);
  }

  lemma PutBack(m: Hart, h: Traps.Hart, buf: nat, buf': nat)
    requires h == View(m, buf).(chkInt := false, instbuf := buf')
    ensures Put(m, h) == (m.(rest := m.rest.(chkInt := false)), buf')
  {
    StatusBits.WordOfBits(m.s.core.mstatus);
  }

  /** The interrupts of a cycle, on the registers of the hart. */
  lemma InterruptsMean(m: Hart, buf: nat)
    requires m.s.core.priv <= 3 && m.rest.chkInt
    ensures var (r, buf') := Interrupts(m, buf);
            match FirstOn(m)
            case None => r == m.(rest := m.rest.(chkInt := false)) && (buf' == buf || buf' == 0)
            case Some(c) =>
              && buf' == 0 && r.s.tlb == m.s.tlb && r.s.core.bus == m.s.core.bus && r.s.core.satp == m.s.core.satp
              && r.s.core.priv == (if ToS(m, c) then 1 else 3)
              && TrapMeaning.Vectored(if ToS(m, c) then m.rest.s.tvec else m.rest.m.tvec, c, r.pc)
              && (var he, rest := Traps.Cause(true, c), m.rest.(chkInt := false);
                  r.rest == if ToS(m, c) then rest.(s := rest.s.(epc := m.pc, cause := he, tval := 0))
                            else rest.(m := rest.m.(epc := m.pc, cause := he, tval := 0)))
  {
    var h := View(m, buf).(chkInt := false);
    assert h == View(m.(rest := m.rest.(chkInt := false)), buf);
    FirstIs(m, buf);
    TrapMeaning.SetUpMeans(h);
    var r := Traps.SetUp(h).0;
    match FirstOn(m)
    case None =>
      PutBack(m, r, buf, r.instbuf);
    case Some(c) =>
      FiresIs(m, buf, c);
  }

  // ---------- SYSTEM words ----------

  /** The word belongs to none of the instructions that Execution knows. */
  lemma SystemElsewhere(m: Hart, f: Fetched)
    requires Shape(m.s.tlb) && f.Inst? && f.len == 32
    requires Decode.FieldsOf(WordOf(f)).op == Decode.System && Decode.FieldsOf(WordOf(f)).call == Decode.NoCall
    ensures Executed(m, f).Elsewhere?
  {
  }

  lemma SystemReached(outside: Step<Rest>, m: Hart, f: Fetched, buf: nat)
    requires Shape(m.s.tlb) && f.Inst? && Executed(m, f).Elsewhere?
    ensures Perform(outside, m, f, buf) == SystemCall(outside, m, f, buf)
  {
  }

  lemma SfenceCall(outside: Step<Rest>, m: Hart, f: Fetched, buf: nat)
    requires f.Inst? && f.len == 32 && f.word < 0x1_0000_0000 && IsFence(WordOf(f))
    requires f.word !in {0x3020_0073, 0x1020_0073, 0x1050_0073}
    ensures SystemCall(outside, m, f, buf)
            == if (m.s.core.mstatus >> 20) & 1 == 1 then Raise(m, 2, f.word)
               else (Machine(Cached(m.s.core, Empty()), Wrap(m.pc + 4), m.rest), 0)
  {
    FlagIs(m.s.core.mstatus);
  }

  /**
   SFENCE.VMA, told by funct7 and opcode: TVM makes it illegal; otherwise the whole TLB and the buffered halfword go.
   */
  lemma SfenceMeans(outside: Step<Rest>, m: Hart, f: Fetched, buf: nat)
    requires Shape(m.s.tlb) && f.Inst? && f.len == 32 && f.word < 0x1_0000_0000
    requires WordOf(f) & 0xFE00_007F == 0x1200_0073 && f.word !in {0x3020_0073, 0x1020_0073, 0x1050_0073}
    ensures Perform(outside, m, f, buf)
            == if (m.s.core.mstatus >> 20) & 1 == 1 then Raise(m, 2, f.word)
               else (Machine(Cached(m.s.core, Empty()), Wrap(m.pc + 4), m.rest), 0)
  {
    SfenceFields(WordOf(f));
    SystemElsewhere(m, f);
    SystemReached(outside, m, f, buf);
    SfenceCall(outside, m, f, buf);
  }

  lemma SfenceFields(w: bv32)
    requires w & 0xFE00_007F == 0x1200_0073
    ensures IsFence(w) && Decode.FieldsOf(w).op == Decode.System && Decode.FieldsOf(w).call == Decode.NoCall
  {
    assert (w >> 2) & 31 == 28;
  }

  lemma FlagIs(ms: bv64)
    ensures Flag(ms, TVM) == ((ms >> 20) & 1 == 1) && Flag(ms, TW) == ((ms >> 21) & 1 == 1)
  {
  }

  /** MRET, SRET and WFI by their words; TW makes WFI illegal. */
  lemma ReturnWordsMean(outside: Step<Rest>, m: Hart, f: Fetched, buf: nat)
    requires f.Inst? && f.len == 32
    ensures f.word == 0x3020_0073 ==> SystemCall(outside, m, f, buf) == Put(m, Traps.Mret(View(m, buf)))
    ensures f.word == 0x1020_0073 ==>
              SystemCall(outside, m, f, buf) == Put(m, Traps.SretInst(View(m, buf), 0x1020_0073))
    ensures f.word == 0x1050_0073 ==>
              SystemCall(outside, m, f, buf)
              == if (m.s.core.mstatus >> 21) & 1 == 1 then Raise(m, 2, 0x1050_0073)
                 else (Machine(m.s, Wrap(m.pc + 4), m.rest.(chkInt := true)), buf)
  {
    FlagIs(m.s.core.mstatus);
  }

  // ---------- instructions of a cycle ----------

  lemma ExecutedIs(m: Hart, f: Fetched, w: bv32, n: nat)
    requires Shape(m.s.tlb) && f.Inst? && Decodable(f) && w == Core.Meant(WordOf(f), n) && n == f.len / 8
    ensures Executed(m, f) == Execution.Execute(Decode.FieldsOf(w), n, Execution.Cpu(m.rest.regs, m.pc, m.s))
  {
  }

  /** A 32-bit word is executed for itself, on the hart's registers, pc, memory and TLB. */
  lemma WordExecuted(m: Hart, f: Fetched, w: bv32)
    requires Shape(m.s.tlb) && f.Inst? && f.len == 32 && f.word < 0x1_0000_0000 && w == f.word as bv32
    ensures Executed(m, f) == Execution.Execute(Decode.FieldsOf(w), 4, Execution.Cpu(m.rest.regs, m.pc, m.s))
  {
    ExecutedIs(m, f, w, 4);
  }

  /** A compressed one as its expansion, but two bytes long. */
  lemma HalfExecuted(m: Hart, f: Fetched, c: bv32)
    requires Shape(m.s.tlb) && f.Inst? && f.len == 16 && f.word < 0x1_0000_0000 && c == f.word as bv32
    requires RvcTable.Listed(c)
    ensures Executed(m, f)
            == Execution.Execute(Decode.FieldsOf(Compressed.Expand(c)), 2, Execution.Cpu(m.rest.regs, m.pc, m.s))
  {
    RvcTable.ListedExact(c);
    ExecutedIs(m, f, Compressed.Expand(c), 2);
  }

  // ---------- traps of a cycle ----------

  /** An exception in a cycle, on the registers of the hart. */
  lemma RaiseMeans(m: Hart, code: nat, tval: U64)
    ensures var (r, buf) := Raise(m, code, tval);
            var toS := m.s.core.priv <= 1 && code in m.rest.medeleg;
            && buf == 0 && r.s.tlb == m.s.tlb && r.s.core.bus == m.s.core.bus && r.s.core.satp == m.s.core.satp
            && r.s.core.priv == (if toS then 1 else 3)
            && TrapMeaning.Vectored(if toS then m.rest.s.tvec else m.rest.m.tvec, code, r.pc)
            && (var he := Traps.Cause(false, code);
                r.rest == if toS then m.rest.(s := m.rest.s.(epc := m.pc, cause := he, tval := tval))
                          else m.rest.(m := m.rest.m.(epc := m.pc, cause := he, tval := tval)))
  {
    TrapMeaning.ExceptionMeans(View(m, 0), code, tval);
  }

  /** What a cycle does with a fetch fault, and with what Execution makes of an instruction. */
  lemma PerformMeans(outside: Step<Rest>, m: Hart, f: Fetched, buf: nat)
    requires Shape(m.s.tlb)
    ensures f.Trap? ==> Perform(outside, m, f, buf) == Raise(m, f.code, f.tval)
    ensures f.Inst? && Executed(m, f).Next? ==>
              var c := Executed(m, f).cpu;
              Perform(outside, m, f, buf)
              == (Machine(c.s, c.pc, m.rest.(regs := c.regs)), if Executed(m, f).drops then 0 else buf)
    ensures f.Inst? && Executed(m, f).Raised? ==>
              var x := Executed(m, f);
              Perform(outside, m, f, buf)
              == Raise(Machine(x.cpu.s, x.cpu.pc, m.rest.(regs := x.cpu.regs)), x.code, x.tval)
  {
  }
}
