/**
 Traps and interrupts as functions on the trap-related part of HartState: create_exception, MRET and SRET.
 mstatus is held by its fields, which StatusBits ties to the 64-bit word; the interrupt and delegation
 registers, which the code only tests bit by bit, are the sets of their one bits.
 */
module Traps {
  import opened Base
  import opened StatusBits

  /** he: the interrupt bit and the cause number of a HartException. */
  datatype Cause = Cause(interrupt: bool, code: nat)

  /** The CSRs that exist once per level: mepc and sepc, mcause and scause, and so on. */
  datatype Csrs = Csrs(epc: U64, cause: Cause, tval: U64, tvec: U64, ie: set<nat>)

  datatype Hart = Hart(
    priv: nat, pc: U64, instbuf: nat, mstatus: Status, m: Csrs, s: Csrs,
    mip: set<nat>, medeleg: set<nat>, mideleg: set<nat>, chkInt: bool)

  // ---------- create_exception ----------

  function Vector(tvec: U64, code: nat): U64
  {
    if tvec % 4 == 1 then Wrap(Even(tvec) + 4 * code) else Even(tvec)
  }

  function EnterS(s: Hart, he: Cause, tval: U64): Hart
  {
    s.(instbuf := 0, mstatus := SEntry(s.mstatus, s.priv), priv := 1,
       s := s.s.(cause := he, epc := s.pc, tval := tval), pc := Vector(s.s.tvec, he.code))
  }

  function EnterM(s: Hart, he: Cause, tval: U64): Hart
  {
    s.(instbuf := 0, mstatus := MEntry(s.mstatus, s.priv), priv := 3,
       m := s.m.(cause := he, epc := s.pc, tval := tval), pc := Vector(s.m.tvec, he.code))
  }

  predicate MachineInterrupt(code: nat)
  {
    code == 3 || code == 7 || code == 11
  }

  predicate Delegated(s: Hart, he: Cause)
  {
    he.code in (if he.interrupt then s.mideleg else s.medeleg) && s.priv <= 1
  }

  /** Is an interrupt held back, by the global enable of the current mode or by its own enable bit? */
  predicate Blocked(s: Hart, he: Cause)
  {
    he.interrupt &&
    ( || (s.priv == 3 && !s.mstatus.mie)
      || (s.priv == 1 && !s.mstatus.sie && !MachineInterrupt(he.code))
      || (he.code !in (if Delegated(s, he) then s.s.ie else s.m.ie)))
  }

  /** create_exception: the state after it, whether or not the trap is taken. */
  function Raise(s: Hart, he: Cause, tval: U64): Hart
  {
    if Blocked(s, he) then s.(instbuf := 0)
    else if Delegated(s, he) then EnterS(s, he, tval)
    else EnterM(s, he, tval)
  }

  // ---------- MRET and SRET ----------

  /** The MRET case of decode_exc. */
  function Mret(s: Hart): Hart
  {
    var st := MExit(s.mstatus);
    s.(mstatus := st.(mpp := 0, mprv := st.mprv && st.mpp == 3), priv := st.mpp, pc := Even(s.m.epc),
       chkInt := true, instbuf := 0)
  }

  /** The SRET case of decode_exc, with TSR clear. */
  function Sret(s: Hart): Hart
  {
    var st := SExit(s.mstatus);
    s.(mstatus := st.(spp := 0, mprv := st.mprv && st.spp == 3), priv := st.spp, pc := Even(s.s.epc),
       chkInt := true, instbuf := 0)
  }

  const ILLINST := Cause(false, 2)

  /** mstatus.TSR */
  predicate Tsr(st: Status)
  {
    st.rest & 0x40_0000 != 0
  }

  /** The instruction word of SRET. */
  const SRET := 0x1020_0073

  /** The SRET instruction; its word is the tval of the exception it raises with TSR set. */
  function SretInst(s: Hart, inst: U64): Hart
  {
    if Tsr(s.mstatus) then Raise(s, ILLINST, inst) else Sret(s)
  }

  // ---------- interrupts ----------

  predicate Pending(s: Hart, code: nat)
  {
    code in s.mip
  }

  /** Pending and let through by every mask. */
  predicate Ready(s: Hart, code: nat)
  {
    Pending(s, code) && !Blocked(s, Cause(true, code))
  }

  /** MEI, MSI, MTI, SEI, SSI, STI */
  const PRIORITY: seq<nat> := [11, 3, 7, 9, 1, 5]

  /** The state after trying one interrupt; a pending one that is blocked still costs the fetch buffer. */
  function Try(s: Hart, code: nat): Hart
  {
    if Ready(s, code) then Raise(s, Cause(true, code), 0)
    else if Pending(s, code) then s.(instbuf := 0)
    else s
  }

  /** One pass of setup_pending_int over a list of interrupts, with its early return. */
  function Pass(s: Hart, codes: seq<nat>): (Hart, bool)
    decreases |codes|
  {
    if codes == [] then (s, false)
    else if Ready(s, codes[0]) then (Try(s, codes[0]), true)
    else Pass(Try(s, codes[0]), codes[1..])
  }

  /** setup_pending_int: the mip pass, then the sip pass. */
  function SetUp(s: Hart): (Hart, bool)
  {
    var (s1, taken) := if (s.mstatus.mie || s.priv < 3) && s.mip != {} then Pass(s, PRIORITY) else (s, false);
    if taken then (s1, true)
    else if s1.mstatus.sie && s1.mip != {} then Pass(s1, PRIORITY[3..])
    else (s1, false)
  }

  /** The first ready interrupt in the list. */
  function FirstReady(s: Hart, codes: seq<nat>): Option<nat>
  {
    if codes == [] then None
    else if Ready(s, codes[0]) then Some(codes[0])
    else FirstReady(s, codes[1..])
  }
}
