/** Nested traps unwind, and setup_pending_int takes the right interrupt. */
module TrapTheorems {
  import opened Base
  import StatusBits
  import opened Traps

  // ---------- which fields each level touches ----------

  /** The S level of the interrupt stack and its CSRs. */
  predicate SameSLevel(a: Hart, b: Hart)
  {
    && a.mstatus.sie == b.mstatus.sie && a.mstatus.spie == b.mstatus.spie && a.mstatus.spp == b.mstatus.spp
    && a.s == b.s
  }

  predicate SameMLevel(a: Hart, b: Hart)
  {
    && a.mstatus.mie == b.mstatus.mie && a.mstatus.mpie == b.mstatus.mpie && a.mstatus.mpp == b.mstatus.mpp
    && a.m == b.m
  }

  // ---------- handlers ----------

  /**
   What a handler does: move its pc and set its own interrupt enable as it likes, suffer further traps,
   and finally return. Only traps that create_exception takes run a handler of their own.
   */
  datatype Handler =
    | Return
    | Work(pc: U64, enable: bool, rest: Handler)
    | Trapped(he: Cause, tval: U64, inner: Handler, rest: Handler)

  /** What a handler puts back before it returns: its xepc, xPIE and xPP, nothing else. */
  datatype Saved = Saved(epc: U64, pie: bool, pp: nat)

  /** Taken on entry to a handler running at privilege p. */
  function SavedAt(h: Hart, p: nat): Saved
  {
    if p == 3 then Saved(h.m.epc, h.mstatus.mpie, h.mstatus.mpp) else Saved(h.s.epc, h.mstatus.spie, h.mstatus.spp)
  }

  function PutBack(h: Hart, p: nat, v: Saved): Hart
  {
    if p == 3 then h.(m := h.m.(epc := v.epc), mstatus := h.mstatus.(mpie := v.pie, mpp := v.pp))
    else h.(s := h.s.(epc := v.epc), mstatus := h.mstatus.(spie := v.pie, spp := v.pp))
  }

  function SetOwnEnable(h: Hart, p: nat, on: bool): Hart
  {
    if p == 3 then h.(mstatus := h.mstatus.(mie := on)) else h.(mstatus := h.mstatus.(sie := on))
  }

  /** Runs a handler at privilege p (3: M, 1: S) to its xRET. */
  function RunHandler(h: Hart, p: nat, v: Saved, prog: Handler): Hart
    decreases prog, 0
  {
    match prog
    case Return => if p == 3 then Mret(PutBack(h, p, v)) else SretInst(PutBack(h, p, v), SRET)
    case Work(pc, on, rest) => RunHandler(SetOwnEnable(h, p, on).(pc := pc), p, v, rest)
    case Trapped(he, tval, inner, rest) => RunHandler(TrapAndReturn(h, he, tval, inner), p, v, rest)
  }

  /** A trap, the handler it starts, and the return; a blocked interrupt only clears instbuf. */
  function TrapAndReturn(h: Hart, he: Cause, tval: U64, inner: Handler): Hart
    decreases inner, 1
  {
    var h1 := Raise(h, he, tval);
    if Blocked(h, he) then h1 else RunHandler(h1, h1.priv, SavedAt(h1, h1.priv), inner)
  }

  /** Both interrupt enables and everything a trap at the other level must leave alone; TSR stays clear. */
  lemma {:induction false} HandlerEnds(h: Hart, p: nat, v: Saved, prog: Handler)
    requires p == 1 || p == 3
    requires h.priv == p && !Tsr(h.mstatus)
    ensures var r := RunHandler(h, p, v, prog);
            && r.pc == Even(v.epc) && r.priv == v.pp && r.mstatus.rest == h.mstatus.rest
            && (if p == 3 then r.mstatus.mie == v.pie && SameSLevel(r, h)
                else r.mstatus.sie == v.pie && r.mstatus.mie == h.mstatus.mie)
    decreases prog, 0
  {
    match prog
    case Return =>
    case Work(pc, on, rest) => HandlerEnds(SetOwnEnable(h, p, on).(pc := pc), p, v, rest);
    case Trapped(he, tval, inner, rest) =>
      TrapResumes(h, he, tval, inner);
      HandlerEnds(TrapAndReturn(h, he, tval, inner), p, v, rest);
  }

  /** One trap with all it contains, seen from the interrupted context. */
  lemma {:induction false} TrapResumes(h: Hart, he: Cause, tval: U64, inner: Handler)
    requires h.priv <= 3 && !Tsr(h.mstatus)
    ensures var r := TrapAndReturn(h, he, tval, inner);
            && r.priv == h.priv && r.mstatus.mie == h.mstatus.mie && r.mstatus.sie == h.mstatus.sie
            && r.mstatus.rest == h.mstatus.rest
            && (if Blocked(h, he) then r.pc == h.pc else r.pc == Even(h.pc))
            && (h.priv == 3 || !Delegated(h, he) ==> SameSLevel(r, h))
    decreases inner, 1
  {
    if !Blocked(h, he) {
      var h1 := Raise(h, he, tval);
      HandlerEnds(h1, h1.priv, SavedAt(h1, h1.priv), inner);
    }
  }

  /**
   With TSR clear any well-nested tree of traps unwinds: every interrupted context, at every depth, resumes at
   its own pc, privilege and interrupt enables, although each handler puts back only its own level's fields. A
   trap taken to M mode leaves the whole S level as it was, so an S handler needs no protection from it.
   */
  lemma NestedTrapsUnwind(h: Hart, he: Cause, tval: U64, inner: Handler)
    requires h.priv <= 3 && h.pc % 2 == 0 && !Blocked(h, he) && !Tsr(h.mstatus)
    ensures var r := TrapAndReturn(h, he, tval, inner);
            && r.pc == h.pc && r.priv == h.priv
            && r.mstatus.mie == h.mstatus.mie && r.mstatus.sie == h.mstatus.sie
            && (!Delegated(h, he) ==> SameSLevel(r, h))
  {
    TrapResumes(h, he, tval, inner);
  }

  // ---------- the return of an S handler with TSR set ----------

  /** SRET executed in S mode returns exactly when TSR is clear; otherwise the hart is in another trap. */
  lemma SretExact(h: Hart)
    requires h.priv == 1
    ensures SretInst(h, SRET) == Sret(h) <==> !Tsr(h.mstatus)
  {
    assert Sret(h).mstatus.spp == 0;
    assert !Blocked(h, ILLINST);
  }

  /** A user program that traps to an S handler is resumed by its return if and only if TSR is clear. */
  lemma UserResumesExact(h: Hart, he: Cause, tval: U64)
    requires h.priv == 0 && Delegated(h, he) && !Blocked(h, he)
    ensures var r := TrapAndReturn(h, he, tval, Return);
            && (r.priv == 0 <==> !Tsr(h.mstatus))
            && (!Tsr(h.mstatus) ==> r.pc == Even(h.pc))
            && (Tsr(h.mstatus) ==> r.priv == if ILLINST.code in h.medeleg then 1 else 3)
  {
  }

  /** U mode, TSR set, environment calls delegated, illegal instructions not. */
  function Stranded(): Hart
  {
    var none := Csrs(0, ILLINST, 0, 0, {});
    Hart(0, 0x8000_0000, 0, StatusBits.Status(false, false, false, false, 0, false, 0, false, 0x40_0000),
         none, none, {}, {8}, {}, false)
  }

  /** The failing input: the handler of its environment call returns to M mode, at the address in mtvec. */
  lemma StrandedInMachineMode(tval: U64)
    ensures var r := TrapAndReturn(Stranded(), Cause(false, 8), tval, Return);
            r.priv == 3 && r.pc == Stranded().m.tvec && r.pc != Stranded().pc
  {
    UserResumesExact(Stranded(), Cause(false, 8), tval);
  }

  /** One step at a time: M traps and MRET never touch the S level, S traps and SRET never the M level. */
  lemma LevelsAreSeparate(h: Hart, he: Cause, tval: U64)
    ensures SameSLevel(EnterM(h, he, tval), h) && SameSLevel(Mret(h), h)
    ensures SameMLevel(EnterS(h, he, tval), h) && SameMLevel(Sret(h), h)
  {
  }

  // ---------- interrupt choice ----------

  lemma BlockedIgnoresBuffer(h: Hart, he: Cause)
    ensures Blocked(h.(instbuf := 0), he) == Blocked(h, he)
    ensures Raise(h.(instbuf := 0), he, 0) == Raise(h, he, 0)
  {
  }

  lemma {:induction false} FirstReadyIgnoresBuffer(h: Hart, codes: seq<nat>)
    ensures FirstReady(h.(instbuf := 0), codes) == FirstReady(h, codes)
  {
    if codes != [] {
      BlockedIgnoresBuffer(h, Cause(true, codes[0]));
      FirstReadyIgnoresBuffer(h, codes[1..]);
    }
  }

  /** A pass takes the first ready interrupt of its list and otherwise changes at most instbuf. */
  lemma {:induction false} PassExact(h: Hart, codes: seq<nat>)
    ensures var (r, taken) := Pass(h, codes);
            match FirstReady(h, codes)
            case Some(c) => taken && r == Raise(h, Cause(true, c), 0)
            case None => !taken && (r == h || r == h.(instbuf := 0))
    decreases |codes|
  {
    if codes != [] && !Ready(h, codes[0]) {
      var h1 := Try(h, codes[0]);
      PassExact(h1, codes[1..]);
      FirstReadyIgnoresBuffer(h, codes[1..]);
      if FirstReady(h, codes[1..]).Some? {
        BlockedIgnoresBuffer(h, Cause(true, FirstReady(h, codes[1..]).value));
      }
    }
  }

  lemma {:induction false} NoneReadySuffix(h: Hart, codes: seq<nat>, k: nat)
    requires k <= |codes| && FirstReady(h, codes).None?
    ensures FirstReady(h, codes[k..]).None?
    decreases k
  {
    if k > 0 {
      NoneReadySuffix(h, codes[1..], k - 1);
      assert codes[1..][k - 1..] == codes[k..];
    } else {
      assert codes[0..] == codes;
    }
  }

  /** With the guard of the first pass false nothing is ready: no interrupt is pending or M mode masks them all. */
  lemma {:induction false} GuardedOff(h: Hart, codes: seq<nat>)
    requires h.priv <= 3 && !((h.mstatus.mie || h.priv < 3) && h.mip != {})
    ensures FirstReady(h, codes).None?
  {
    if codes != [] {
      GuardedOff(h, codes[1..]);
    }
  }

  /**
   For every state setup_pending_int takes exactly the first of MEI, MSI, MTI, SEI, SSI, STI that is
   pending and passes the enable, mask and delegation tests; if there is none it changes at most instbuf.
   The second pass, over the S interrupts alone, never takes anything.
   */
  lemma InterruptChoice(h: Hart)
    requires h.priv <= 3
    ensures var (r, taken) := SetUp(h);
            match FirstReady(h, PRIORITY)
            case Some(c) => taken && r == Raise(h, Cause(true, c), 0)
            case None => !taken && (r == h || r == h.(instbuf := 0))
    ensures FirstReady(h, PRIORITY).None? ==> FirstReady(h, PRIORITY[3..]).None?
  {
    PassExact(h, PRIORITY);
    if FirstReady(h, PRIORITY).None? {
      NoneReadySuffix(h, PRIORITY, 3);
    }
    if !((h.mstatus.mie || h.priv < 3) && h.mip != {}) {
      GuardedOff(h, PRIORITY);
      PassExact(h, PRIORITY[3..]);
    } else {
      FirstReadyIgnoresBuffer(h, PRIORITY[3..]);
      PassExact(h, PRIORITY[3..]);
      PassExact(h.(instbuf := 0), PRIORITY[3..]);
    }
  }
}
