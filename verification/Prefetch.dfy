/**
 Instruction fetch with its one-halfword buffer, against a machine that reads memory for every instruction.
 Words are the bit patterns of the int32_t inst and the int16_t instbuf.
 */
module Prefetch {
  import opened Base
  import opened PhysMem
  import opened Tlb
  import opened PageWalk
  import opened Mmu
  import Hart

  /** What fetch leaves for decode_exc: an instruction with its length in bits, or an exception. */
  datatype Fetched = Inst(word: nat, len: nat) | Trap(code: nat, tval: U64)

  const IAFAULT := 1
  const ILLINST := 2
  const IPFAULT := 12

  /** The bits an int32_t has after an int16_t is assigned to it. */
  function Sext16(h: nat): nat
  {
    if h >= 0x8000 then 0xFFFF_0000 + h else h
  }

  /** The tests fetch makes on a word: their outcome and the new instbuf. */
  function Sort(w: nat, pc: U64): (Fetched, nat)
  {
    if w == 0 || w == 0xFFFF_FFFF then (Trap(ILLINST, if w == 0 then 0 else ALL_ONES), 0)
    else if w % 4 != 3 then
      (Inst(w % 0x1_0000, 16), if (w / 0x1_0000) % 4 != 3 then (w / 0x1_0000) % 0x1_0000 else 0)
    else if (w / 4) % 8 != 7 then (Inst(w, 32), 0)
    else (Trap(IMISALIGN, pc), 0)
  }

  /** fetch with an empty buffer. */
  function Read(s: Cached, pc: U64): (r: (Cached, Fetched, nat))
    requires Shape(s.tlb)
    ensures Shape(r.0.tlb)
  {
    var (s', out) := TlbAccess(s, Access(false, false), 4, pc, 0);
    match out
    case AccessFault => (s', Trap(IAFAULT, pc), 0)
    case PageFault => (s', Trap(IPFAULT, pc), 0)
    case Done(w) => var (f, buf) := Sort(w, pc); (s', f, buf)
  }

  function Fetch(s: Cached, pc: U64, buf: nat): (r: (Cached, Fetched, nat))
    requires Shape(s.tlb)
    ensures Shape(r.0.tlb)
  {
    if buf == 0 then Read(s, pc) else var (f, buf') := Sort(Sext16(buf), pc); (s, f, buf')
  }

  class FrontEnd {
    const hs: Hart.HartState
    var pc: U64
    var instbuf: nat
    var inst: nat
    var instLen: nat

    constructor (hs: Hart.HartState)
      ensures this.hs == hs && pc == 0 && instbuf == 0
    {
      this.hs := hs;
      pc, instbuf, inst, instLen := 0, 0, 0, 0;
    }

    /** The second half of fetch, once hs.inst holds a word. */
    method Classify() returns (f: Fetched)
      requires instbuf == 0
      modifies this`instbuf, this`inst, this`instLen
      ensures (f, instbuf) == Sort(old(inst), pc)
      ensures f.Inst? ==> f == Inst(inst, instLen)
    {
      if inst == 0 || inst == 0xFFFF_FFFF {
        instLen := 0;
        return Trap(ILLINST, if inst == 0 then 0 else ALL_ONES);
      }
      if inst % 4 != 3 {
        instLen := 16;
      } else if (inst / 4) % 8 != 7 {
        instLen := 32;
      } else {
        instLen := 0;
        return Trap(IMISALIGN, pc);
      }
      if instLen == 16 {
        if (inst / 0x1_0000) % 4 != 3 {
          instbuf := (inst / 0x1_0000) % 0x1_0000;
        }
        inst := inst % 0x1_0000;
      }
      f := Inst(inst, instLen);
    }

    method FetchNext() returns (f: Fetched)
      requires hs.Valid() && !hs.pageFault
      modifies this`instbuf, this`inst, this`instLen
      modifies hs`memStatus, hs`pageFault, hs`privmode, hs.tlb, hs.tlb.sizeCount, hs.tlb.tlbEntries, hs.ram
      ensures hs.Valid() && !hs.pageFault && !hs.memStatus
      ensures (hs.View(), f, instbuf) == Fetch(old(hs.View()), pc, old(instbuf))
      ensures f.Inst? ==> f == Inst(inst, instLen)
    {
      hs.memStatus := false;
      if instbuf == 0 {
        inst := hs.VirtMemFetch(pc, 4);
      } else {
        inst := Sext16(instbuf);
        instbuf := 0;
      }
      if hs.memStatus {
        hs.memStatus := false;
        return Trap(IAFAULT, pc);
      }
      if hs.pageFault {
        hs.pageFault := false;
        return Trap(IPFAULT, pc);
      }
      f := Classify();
    }
  }

  // ---------- when the buffer may be used ----------

  /** Can this halfword start an instruction that fetch keeps in the buffer? */
  predicate Short(h: nat)
  {
    0 < h < 0x1_0000 && h % 4 != 3
  }

  lemma LowHalf(w: nat)
    ensures (w % 0x1_0000) % 4 == w % 4
  {
    var q := w / 0x1_0000;
    var r := w % 0x1_0000;
    assert w == 4 * (0x4000 * q + r / 4) + r % 4;
    DivModIs(w, 4, 0x4000 * q + r / 4, r % 4);
  }

  /** The buffered halfword is taken as the 16-bit instruction it is, and leaves the buffer empty. */
  lemma SortBuffered(h: nat, pc: U64)
    requires Short(h)
    ensures Sort(Sext16(h), pc) == (Inst(h, 16), 0)
  {
    var q := if h >= 0x8000 then 0xFFFF else 0;
    DivModIs(Sext16(h), 0x1_0000, q, h);
    LowHalf(Sext16(h));
  }

  lemma SortFresh(w: nat, h: nat, pc: U64)
    requires Short(h)
    ensures Sort(w, pc).0 == Inst(h, 16) <==> w % 0x1_0000 == h
  {
    LowHalf(w);
    if w == 0xFFFF_FFFF {
      assert w % 0x1_0000 == 0xFFFF;
    }
  }

  /** Exactly when does taking the buffered halfword do what reading memory again would do? */
  lemma FetchExact(s: Cached, pc: U64, buf: nat)
    requires Shape(s.tlb) && Short(buf)
    ensures (Fetch(s, pc, buf).0, Fetch(s, pc, buf).1) == (Fetch(s, pc, 0).0, Fetch(s, pc, 0).1)
            <==> var (s', out) := TlbAccess(s, Access(false, false), 4, pc, 0);
                 s' == s && out.Done? && out.value % 0x1_0000 == buf
  {
    SortBuffered(buf, pc);
    var out := TlbAccess(s, Access(false, false), 4, pc, 0).1;
    if out.Done? {
      SortFresh(out.value, buf, pc);
    }
  }

  // ---------- whole runs ----------

  /** The hart: memory side, pc and everything else. */
  datatype Machine<X> = Machine(s: Cached, pc: U64, rest: X)

  /**
   The rest of a cycle, from decode_exc to setup_pending_int, is any function of the hart and of what was
   fetched; it also says whether the cycle emptied the buffer.
   */
  type Step<!X(!new)> = (Machine<X>, Fetched) -> (Machine<X>, bool)

  ghost predicate Shaped<X(!new)>(step: Step<X>)
  {
    forall m: Machine<X>, f: Fetched :: Shape(m.s.tlb) ==> Shape(step(m, f).0.s.tlb)
  }

  /** A cycle that keeps the buffer executed an instruction and went on to the one behind it. */
  ghost predicate Sequential<X(!new)>(step: Step<X>)
  {
    forall m, f :: !step(m, f).1 ==> f.Inst? && step(m, f).0.pc == Wrap(m.pc + f.len / 8)
  }

  /** One cycle: the hart and the buffer after it. */
  function Cycle<X(!new)>(step: Step<X>, m: Machine<X>, buf: nat): (Machine<X>, nat)
    requires Shape(m.s.tlb)
  {
    var (s, f, buf') := Fetch(m.s, m.pc, buf);
    var (m', drops) := step(m.(s := s), f);
    (m', if drops then 0 else buf')
  }

  ghost function Run<X(!new)>(step: Step<X>, m: Machine<X>, buf: nat, n: nat): (r: (Machine<X>, nat))
    requires Shape(m.s.tlb) && Shaped(step)
    ensures Shape(r.0.s.tlb)
    decreases n
  {
    if n == 0 then (m, buf) else var (m', buf') := Cycle(step, m, buf); Run(step, m', buf', n - 1)
  }

  /** The machine without a buffer. */
  ghost function PlainRun<X(!new)>(step: Step<X>, m: Machine<X>, n: nat): Machine<X>
    requires Shape(m.s.tlb) && Shaped(step)
    decreases n
  {
    if n == 0 then m else PlainRun(step, Cycle(step, m, 0).0, n - 1)
  }

  /** Would reading memory again give this halfword, without a fault and without changing anything? */
  ghost predicate Refetchable(s: Cached, pc: U64, h: nat)
    requires Shape(s.tlb)
  {
    var (s', out) := TlbAccess(s, Access(false, false), 4, pc, 0);
    s' == s && out.Done? && out.value % 0x1_0000 == h
  }

  ghost predicate Good(s: Cached, pc: U64, buf: nat)
    requires Shape(s.tlb)
  {
    buf != 0 ==> Short(buf) && Refetchable(s, pc, buf)
  }

  /** Along the run without a buffer, what each cycle would have buffered is still good behind it. */
  ghost predicate Steady<X(!new)>(step: Step<X>, m: Machine<X>, n: nat)
    requires Shape(m.s.tlb) && Shaped(step)
    decreases n
  {
    n > 0 ==>
      var (m', buf') := Cycle(step, m, 0);
      Good(m'.s, m'.pc, buf') && Steady(step, m', n - 1)
  }

  /** The two machines do the same in one cycle; a taken halfword leaves the buffer empty. */
  lemma CycleBuffered<X(!new)>(step: Step<X>, m: Machine<X>, buf: nat)
    requires Shape(m.s.tlb) && Good(m.s, m.pc, buf)
    ensures Cycle(step, m, buf).0 == Cycle(step, m, 0).0
    ensures Cycle(step, m, buf).1 == if buf == 0 then Cycle(step, m, 0).1 else 0
  {
    if buf != 0 {
      FetchExact(m.s, m.pc, buf);
      SortBuffered(buf, m.pc);
    }
  }

  lemma {:induction false} RunBuffered<X(!new)>(step: Step<X>, m: Machine<X>, buf: nat, n: nat)
    requires Shape(m.s.tlb) && Shaped(step) && Steady(step, m, n) && Good(m.s, m.pc, buf)
    ensures var (m', buf') := Run(step, m, buf, n);
            m' == PlainRun(step, m, n) && Good(m'.s, m'.pc, buf')
    decreases n
  {
    if n > 0 {
      CycleBuffered(step, m, buf);
      var (m', buf') := Cycle(step, m, buf);
      RunBuffered(step, m', buf', n - 1);
    }
  }

  // ---------- untranslated code ----------

  predicate Untranslated(c: Core)
  {
    c.priv == 3 || c.satp == 0
  }

  lemma UntranslatedRead(s: Cached, pc: U64)
    requires Shape(s.tlb) && Untranslated(s.core)
    ensures TlbAccess(s, Access(false, false), 4, pc, 0)
         == (s, if ReadOk(s.core.bus, s.core.priv, false, pc, 4) then Done(Get(s.core.bus.mem, pc, 4)) else AccessFault)
  {
    assert Levels(0) == 0;
  }

  /** The two halves of a fetched word; the upper one is the halfword at a + 2 unless main_mem starts between them. */
  lemma WordHalves(m: Phys, a: int)
    ensures var w := Get(m, a, 4);
            && w % 0x1_0000 == Get(m, a, 2) && w / 0x1_0000 < 0x1_0000
            && ((a < RAM_BASE) == (a + 2 < RAM_BASE) ==> w / 0x1_0000 == Get(m, a + 2, 2))
  {
    var s := Seen(m, a);
    BytesBound(s, a, 2);
    BytesBound(s, a + 2, 2);
    assert Pow256(2) == 0x1_0000;
    FourBytes(s, a);
    DivModIs(Get(m, a, 4), 0x1_0000, Bytes(s, a + 2, 2), Bytes(s, a, 2));
  }

  lemma TwoBytes(m: Phys, a: int)
    ensures Bytes(m, a, 2) == ByteAt(m, a) + 256 * ByteAt(m, a + 1)
  {
    assert Bytes(m, a + 1, 1) == ByteAt(m, a + 1) + 256 * Bytes(m, a + 2, 0);
  }

  lemma FourBytes(m: Phys, a: int)
    ensures Bytes(m, a, 4) == Bytes(m, a, 2) + 0x1_0000 * Bytes(m, a + 2, 2)
  {
    TwoBytes(m, a);
    TwoBytes(m, a + 2);
    assert Bytes(m, a, 4) == ByteAt(m, a) + 256 * Bytes(m, a + 1, 3);
    assert Bytes(m, a + 1, 3) == ByteAt(m, a + 1) + 256 * Bytes(m, a + 2, 2);
  }

  /**
   If the cycle buffers the next halfword: neither it nor the fetch behind it is translated, that fetch is
   permitted, and memory there still holds the halfword that came with the instruction.
   */
  ghost predicate Quiet<X(!new)>(step: Step<X>, m: Machine<X>)
    requires Shape(m.s.tlb)
  {
    var (m', buf') := Cycle(step, m, 0);
    buf' != 0 ==>
      && Untranslated(m.s.core) && Untranslated(m'.s.core) && m.pc + 2 < 0x1_0000_0000_0000_0000
      && ReadOk(m'.s.core.bus, m'.s.core.priv, false, m.pc + 2, 4)
      && Get(m'.s.core.bus.mem, m.pc + 2, 2) == Get(m.s.core.bus.mem, m.pc, 4) / 0x1_0000
  }

  ghost predicate QuietRun<X(!new)>(step: Step<X>, m: Machine<X>, n: nat)
    requires Shape(m.s.tlb) && Shaped(step)
    decreases n
  {
    n > 0 ==> Quiet(step, m) && QuietRun(step, Cycle(step, m, 0).0, n - 1)
  }

  /** Untranslated, the buffer may be used exactly when a fetch is permitted and memory still holds the halfword. */
  lemma FetchExactUntranslated(s: Cached, pc: U64, buf: nat)
    requires Shape(s.tlb) && Short(buf) && Untranslated(s.core)
    ensures (Fetch(s, pc, buf).0, Fetch(s, pc, buf).1) == (Fetch(s, pc, 0).0, Fetch(s, pc, 0).1)
            <==> ReadOk(s.core.bus, s.core.priv, false, pc, 4) && Get(s.core.bus.mem, pc, 2) == buf
  {
    FetchExact(s, pc, buf);
    UntranslatedRead(s, pc);
    WordHalves(s.core.bus.mem, pc);
  }

  /** What an untranslated fetch buffers is the halfword behind a 16-bit instruction. */
  lemma BufferedHalf(s: Cached, pc: U64)
    requires Shape(s.tlb) && Untranslated(s.core)
    ensures var (s', f, buf) := Fetch(s, pc, 0);
            buf != 0 ==> s' == s && f.Inst? && f.len == 16 && Short(buf) && buf == Get(s.core.bus.mem, pc, 4) / 0x1_0000
  {
    UntranslatedRead(s, pc);
    WordHalves(s.core.bus.mem, pc);
  }

  lemma UntranslatedRefetch(s: Cached, pc: U64)
    requires Shape(s.tlb) && Untranslated(s.core) && ReadOk(s.core.bus, s.core.priv, false, pc, 4)
    ensures Refetchable(s, pc, Get(s.core.bus.mem, pc, 2))
  {
    UntranslatedRead(s, pc);
    WordHalves(s.core.bus.mem, pc);
  }

  /** A nonzero buffer is the halfword at pc, which starts no longer instruction and may be fetched untranslated. */
  predicate AtPc(s: Cached, pc: U64, buf: nat)
  {
    buf != 0 ==> && Short(buf) && Untranslated(s.core)
                 && ReadOk(s.core.bus, s.core.priv, false, pc, 4) && Get(s.core.bus.mem, pc, 2) == buf
  }

  lemma AtPcIsGood(s: Cached, pc: U64, buf: nat)
    requires Shape(s.tlb) && AtPc(s, pc, buf)
    ensures Good(s, pc, buf)
  {
    if buf != 0 {
      UntranslatedRefetch(s, pc);
    }
  }

  lemma QuietIsAtPc<X(!new)>(step: Step<X>, m: Machine<X>)
    requires Shape(m.s.tlb) && Shaped(step) && Sequential(step) && Quiet(step, m)
    ensures var (m', buf') := Cycle(step, m, 0); AtPc(m'.s, m'.pc, buf')
  {
    if Cycle(step, m, 0).1 != 0 {
      BufferedHalf(m.s, m.pc);
    }
  }

  lemma QuietCycle<X(!new)>(step: Step<X>, m: Machine<X>, buf: nat)
    requires Shape(m.s.tlb) && Shaped(step) && Sequential(step) && Quiet(step, m) && AtPc(m.s, m.pc, buf)
    ensures var (m', buf') := Cycle(step, m, buf); m' == Cycle(step, m, 0).0 && AtPc(m'.s, m'.pc, buf')
  {
    AtPcIsGood(m.s, m.pc, buf);
    CycleBuffered(step, m, buf);
    QuietIsAtPc(step, m);
  }

  lemma {:induction false} QuietIsSteady<X(!new)>(step: Step<X>, m: Machine<X>, n: nat)
    requires Shape(m.s.tlb) && Shaped(step) && Sequential(step) && QuietRun(step, m, n)
    ensures Steady(step, m, n)
    decreases n
  {
    if n > 0 {
      var (m', buf') := Cycle(step, m, 0);
      QuietIsAtPc(step, m);
      AtPcIsGood(m'.s, m'.pc, buf');
      QuietIsSteady(step, m', n - 1);
    }
  }

  /** A hart with the buffer runs like one that reads memory for every instruction. */
  lemma PrefetchTransparent<X(!new)>(step: Step<X>, m: Machine<X>, n: nat)
    requires Shape(m.s.tlb) && Shaped(step) && Sequential(step) && QuietRun(step, m, n)
    ensures Run(step, m, 0, n).0 == PlainRun(step, m, n)
  {
    QuietIsSteady(step, m, n);
    RunBuffered(step, m, 0, n);
  }

  lemma {:induction false} RunAtPc<X(!new)>(step: Step<X>, m: Machine<X>, buf: nat, n: nat)
    requires Shape(m.s.tlb) && Shaped(step) && Sequential(step) && QuietRun(step, m, n) && AtPc(m.s, m.pc, buf)
    ensures var (m', buf') := Run(step, m, buf, n); AtPc(m'.s, m'.pc, buf')
    decreases n
  {
    if n > 0 {
      QuietCycle(step, m, buf);
      var (m', buf') := Cycle(step, m, buf);
      RunAtPc(step, m', buf', n - 1);
    }
  }

  /** At every cycle boundary a nonzero buffer holds the halfword at pc, which is no longer instruction. */
  lemma BufferIsAtPc<X(!new)>(step: Step<X>, m: Machine<X>, n: nat)
    requires Shape(m.s.tlb) && Shaped(step) && Sequential(step) && QuietRun(step, m, n)
    ensures var (m', buf') := Run(step, m, 0, n);
            buf' != 0 ==> Short(buf') && Get(m'.s.core.bus.mem, m'.pc, 2) == buf'
  {
    RunAtPc(step, m, 0, n);
  }
}
