/** The routines of hartexc.cpp, MRET and SRET, updating the hart in place. */
module Interrupts {
  import opened Base
  import opened StatusBits
  import opened Traps

  class HartState {
    var priv: nat
    var pc: U64
    var instbuf: nat
    var mstatus: bv64
    var m: Csrs
    var s: Csrs
    var mip: set<nat>
    var medeleg: set<nat>
    var mideleg: set<nat>
    var chkInt: bool

    ghost function View(): Hart
      reads this
    {
      Hart(priv, pc, instbuf, Bits(mstatus), m, s, mip, medeleg, mideleg, chkInt)
    }

    /** The S-mode half of create_exception. */
    method EnterSupervisor(he: Cause, tval: U64)
      requires priv <= 1
      modifies this
      ensures View() == EnterS(old(View()), he, tval)
    {
      instbuf := 0;
      SEntryBits(mstatus, PrivBits(priv));
      mstatus := SEntryWord(mstatus, PrivBits(priv));
      priv := 1;
      s := s.(cause := he, epc := pc, tval := tval);
      pc := Vector(s.tvec, he.code);
    }

    /** The M-mode half of create_exception. */
    method EnterMachine(he: Cause, tval: U64)
      requires priv <= 3
      modifies this
      ensures View() == EnterM(old(View()), he, tval)
    {
      instbuf := 0;
      MEntryBits(mstatus, PrivBits(priv));
      mstatus := MEntryWord(mstatus, PrivBits(priv));
      priv := 3;
      m := m.(cause := he, epc := pc, tval := tval);
      pc := Vector(m.tvec, he.code);
    }

    /** Returns false for HartException::NOEXC. */
    method CreateException(he: Cause, tval: U64) returns (taken: bool)
      requires priv <= 3
      modifies this
      ensures View() == Raise(old(View()), he, tval)
      ensures taken == !Blocked(old(View()), he)
    {
      var st := Bits(mstatus);
      instbuf := 0;
      if he.interrupt && priv == 3 && !st.mie { return false; }
      if he.interrupt && priv == 1 && !st.sie && !MachineInterrupt(he.code) { return false; }
      if he.code in (if he.interrupt then mideleg else medeleg) && priv <= 1 {
        if he.interrupt && he.code !in s.ie { return false; }
        EnterSupervisor(he, tval);
      } else {
        if he.interrupt && he.code !in m.ie { return false; }
        EnterMachine(he, tval);
      }
      taken := true;
    }

    /** One TRY_SETINT of setup_pending_int, under the test of its mip bit. */
    method TryInterrupt(code: nat) returns (taken: bool)
      requires priv <= 3
      modifies this
      ensures taken == Ready(old(View()), code)
      ensures View() == if taken then Raise(old(View()), Cause(true, code), 0)
                        else if Pending(old(View()), code) then old(View()).(instbuf := 0) else old(View())
    {
      if code !in mip { return false; }
      taken := CreateException(Cause(true, code), 0);
    }

    method SetupPendingInt() returns (taken: bool)
      requires priv <= 3
      modifies this
      ensures (View(), taken) == SetUp(old(View()))
    {
      if (Bits(mstatus).mie || priv < 3) && mip != {} {
        taken := TryInterrupts(PRIORITY);
        if taken { return; }
      }
      if Bits(mstatus).sie && mip != {} {
        taken := TryInterrupts(PRIORITY[3..]);
        if taken { return; }
      }
      taken := false;
    }

    /** A run of TRY_SETINT tests, each with its early return. */
    method TryInterrupts(codes: seq<nat>) returns (taken: bool)
      requires priv <= 3
      modifies this
      ensures (View(), taken) == Pass(old(View()), codes) && priv <= 3
      decreases codes
    {
      if codes == [] { return false; }
      taken := TryInterrupt(codes[0]);
      if taken { return; }
      taken := TryInterrupts(codes[1..]);
    }

    method MachineReturn()
      modifies this
      ensures View() == Mret(old(View()))
    {
      var w, p := MretWord(mstatus);
      mstatus, priv := w, p;
      pc := Even(m.epc);
      chkInt := true;
      instbuf := 0;
    }

    /** SRET once TSR has been found clear. */
    method LeaveSupervisor()
      modifies this
      ensures View() == Sret(old(View()))
    {
      var w, p := SretWord(mstatus);
      mstatus, priv := w, p;
      pc := Even(s.epc);
      chkInt := true;
      instbuf := 0;
    }

    method SupervisorReturn(inst: U64)
      requires priv <= 3
      modifies this
      ensures View() == SretInst(old(View()), inst)
    {
      TsrBit(mstatus);
      if mstatus & 0x40_0000 != 0 {
        var _ := CreateException(ILLINST, inst);
      } else {
        LeaveSupervisor();
      }
    }
  }

  lemma TsrBit(ms: bv64)
    ensures Tsr(Bits(ms)) <==> ms & 0x40_0000 != 0
  {
  }
}
