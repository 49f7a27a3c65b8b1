/**
 Traps and interrupts by the CSR bits: sections 3.1.6.1, 3.1.7 to 3.1.9 and 3.1.14 to 3.1.16 of the RISC-V Privileged
 Architecture and their S-mode counterparts, with the deviations of the code.
 */
module TrapMeaning {
  import opened Base
  import opened Traps
  import StatusBits
  import TrapTheorems

  // ---------- the state a trap leaves ----------

  /** xtvec: direct mode, or 4 bytes per cause above the base. */
  predicate Vectored(tvec: U64, code: nat, pc: U64)
  {
    if tvec % 4 == 1 then (pc - (tvec - 1 + 4 * code)) % 0x1_0000_0000_0000_0000 == 0
    else pc <= tvec <= pc + 1 && pc % 2 == 0
  }

  predicate SameMachine(h: Hart, r: Hart)
  {
    && r.mip == h.mip && r.medeleg == h.medeleg && r.mideleg == h.mideleg && r.chkInt == h.chkInt
    && r.mstatus.mprv == h.mstatus.mprv && r.mstatus.rest == h.mstatus.rest
  }

  /** A trap to S mode: scause, sepc and stval, SPP, SPIE and SIE; nothing of the M level. */
  predicate TrapsToS(h: Hart, he: Cause, tval: U64, r: Hart)
  {
    && r.priv == 1 && r.instbuf == 0 && Vectored(h.s.tvec, he.code, r.pc)
    && r.s == Csrs(h.pc, he, tval, h.s.tvec, h.s.ie) && r.m == h.m
    && !r.mstatus.sie && r.mstatus.spie == h.mstatus.sie && r.mstatus.spp == h.priv && !r.mstatus.bit9
    && r.mstatus.mie == h.mstatus.mie && r.mstatus.mpie == h.mstatus.mpie && r.mstatus.mpp == h.mstatus.mpp
    && SameMachine(h, r)
  }

  /** A trap to M mode: mcause, mepc and mtval, MPP, MPIE and MIE; nothing of the S level. */
  predicate TrapsToM(h: Hart, he: Cause, tval: U64, r: Hart)
  {
    && r.priv == 3 && r.instbuf == 0 && Vectored(h.m.tvec, he.code, r.pc)
    && r.m == Csrs(h.pc, he, tval, h.m.tvec, h.m.ie) && r.s == h.s
    && !r.mstatus.mie && r.mstatus.mpie == h.mstatus.mie && r.mstatus.mpp == h.priv
    && r.mstatus.sie == h.mstatus.sie && r.mstatus.spie == h.mstatus.spie && r.mstatus.spp == h.mstatus.spp
    && r.mstatus.bit9 == h.mstatus.bit9 && SameMachine(h, r)
  }

  lemma VectorIs(tvec: U64, code: nat)
    ensures Vectored(tvec, code, Vector(tvec, code))
  {
    if tvec % 4 == 1 {
      var x := tvec - 1 + 4 * code;
      DivModIs(Wrap(x) - x, 0x1_0000_0000_0000_0000, -(x / 0x1_0000_0000_0000_0000), 0);
    }
  }

  /** An exception goes to S mode exactly if it comes from S or U mode and its bit in medeleg is set. */
  lemma ExceptionMeans(h: Hart, code: nat, tval: U64)
    ensures var he := Cause(false, code);
            if h.priv <= 1 && code in h.medeleg then TrapsToS(h, he, tval, Raise(h, he, tval))
            else TrapsToM(h, he, tval, Raise(h, he, tval))
  {
    VectorIs(h.s.tvec, code);
    VectorIs(h.m.tvec, code);
  }

  // ---------- when an interrupt is taken ----------

  /** The enables of the current mode let the cause through: those of S mode do not hold back MEI, MSI and MTI. */
  predicate Unmasked(h: Hart, c: nat)
  {
    && (h.priv == 3 ==> h.mstatus.mie)
    && (h.priv == 1 ==> h.mstatus.sie || c == 3 || c == 7 || c == 11)
  }

  predicate TakenToS(h: Hart, c: nat)
  {
    h.priv <= 1 && c in h.mideleg && c in h.s.ie && Unmasked(h, c)
  }

  predicate TakenToM(h: Hart, c: nat)
  {
    !(h.priv <= 1 && c in h.mideleg) && c in h.m.ie && Unmasked(h, c)
  }

  /** The trap that interrupt c makes, or the loss of the fetch buffer. */
  predicate Interrupted(h: Hart, c: nat, r: Hart)
  {
    if TakenToS(h, c) then TrapsToS(h, Cause(true, c), 0, r)
    else if TakenToM(h, c) then TrapsToM(h, Cause(true, c), 0, r)
    else r == h.(instbuf := 0)
  }

  lemma InterruptMeans(h: Hart, c: nat)
    ensures Interrupted(h, c, Raise(h, Cause(true, c), 0))
    ensures Ready(h, c) <==> c in h.mip && (TakenToS(h, c) || TakenToM(h, c))
  {
    VectorIs(h.s.tvec, c);
    VectorIs(h.m.tvec, c);
  }

  // ---------- setup_pending_int ----------

  /** Pending and taken. */
  predicate Fires(h: Hart, c: nat)
  {
    c in h.mip && (TakenToS(h, c) || TakenToM(h, c))
  }

  /** MEI, MSI, MTI, SEI, SSI, STI, in this order. */
  function Chosen(h: Hart): Option<nat>
  {
    if Fires(h, 11) then Some(11)
    else if Fires(h, 3) then Some(3)
    else if Fires(h, 7) then Some(7)
    else if Fires(h, 9) then Some(9)
    else if Fires(h, 1) then Some(1)
    else if Fires(h, 5) then Some(5)
    else None
  }

  /** A pending interrupt is tried, in the first pass or in the second. */
  predicate Tried(h: Hart)
  {
    || ((h.mstatus.mie || h.priv < 3)
        && (11 in h.mip || 3 in h.mip || 7 in h.mip || 9 in h.mip || 1 in h.mip || 5 in h.mip))
    || (h.mstatus.sie && (9 in h.mip || 1 in h.mip || 5 in h.mip))
  }

  lemma ReadyStep(h: Hart, c: nat, rest: seq<nat>, codes: seq<nat>)
    requires codes == [c] + rest
    ensures FirstReady(h, codes) == if Fires(h, c) then Some(c) else FirstReady(h, rest)
  {
    assert codes[1..] == rest;
    InterruptMeans(h, c);
  }

  lemma LastReadyIs(h: Hart)
    ensures FirstReady(h, [9, 1, 5])
            == if Fires(h, 9) then Some(9) else if Fires(h, 1) then Some(1) else if Fires(h, 5) then Some(5) else None
  {
    ReadyStep(h, 9, [1, 5], [9, 1, 5]);
    ReadyStep(h, 1, [5], [1, 5]);
    ReadyStep(h, 5, [], [5]);
  }

  lemma FirstReadyIs(h: Hart)
    ensures FirstReady(h, PRIORITY) == Chosen(h)
  {
    ReadyStep(h, 11, [3, 7, 9, 1, 5], PRIORITY);
    ReadyStep(h, 3, [7, 9, 1, 5], [3, 7, 9, 1, 5]);
    ReadyStep(h, 7, [9, 1, 5], [7, 9, 1, 5]);
    LastReadyIs(h);
  }

  predicate AnyPending(h: Hart, codes: seq<nat>)
  {
    exists i :: 0 <= i < |codes| && codes[i] in h.mip
  }

  /** A pass that takes nothing empties the buffer exactly if it tries something. */
  lemma {:induction false} PassBuffer(h: Hart, codes: seq<nat>)
    requires FirstReady(h, codes).None?
    ensures Pass(h, codes) == (if AnyPending(h, codes) then h.(instbuf := 0) else h, false)
    decreases |codes|
  {
    if codes != [] {
      var h1 := Try(h, codes[0]);
      TrapTheorems.FirstReadyIgnoresBuffer(h, codes[1..]);
      PassBuffer(h1, codes[1..]);
      PendingSplits(h, codes);
    }
  }

  lemma PendingSplits(h: Hart, codes: seq<nat>)
    requires codes != []
    ensures AnyPending(h, codes) <==> codes[0] in h.mip || AnyPending(h, codes[1..])
  {
    if i :| 0 <= i < |codes| && codes[i] in h.mip && i > 0 {
      assert codes[1..][i - 1] in h.mip;
    }
    if i :| 0 <= i < |codes[1..]| && codes[1..][i] in h.mip {
      assert codes[i + 1] in h.mip;
    }
  }

  lemma PendingIs(h: Hart)
    ensures AnyPending(h, PRIORITY)
            <==> 11 in h.mip || 3 in h.mip || 7 in h.mip || 9 in h.mip || 1 in h.mip || 5 in h.mip
    ensures AnyPending(h, PRIORITY[3..]) <==> 9 in h.mip || 1 in h.mip || 5 in h.mip
  {
    var p, q := PRIORITY, PRIORITY[3..];
    assert p[0] == 11 && p[1] == 3 && p[2] == 7 && p[3] == 9 && p[4] == 1 && p[5] == 5;
    assert q[0] == 9 && q[1] == 1 && q[2] == 5;
  }

  /** If nothing fires, setup_pending_int empties the buffer exactly if it tries something. */
  lemma NothingTaken(h: Hart)
    requires h.priv <= 3 && Chosen(h).None?
    ensures SetUp(h) == (if Tried(h) then h.(instbuf := 0) else h, false)
  {
    FirstReadyIs(h);
    LastReadyIs(h);
    PassBuffer(h, PRIORITY);
    assert PRIORITY[3..] == [9, 1, 5];
    PassBuffer(h, PRIORITY[3..]);
    TrapTheorems.FirstReadyIgnoresBuffer(h, PRIORITY[3..]);
    PassBuffer(h.(instbuf := 0), PRIORITY[3..]);
    PendingIs(h);
    PendingIs(h.(instbuf := 0));
  }

  /**
   setup_pending_int takes the first of MEI, MSI, MTI, SEI, SSI, STI that is pending, enabled at the level it goes to
   and not masked there; if there is none, it empties the fetch buffer exactly if it has tried one.
   */
  lemma SetUpMeans(h: Hart)
    requires h.priv <= 3
    ensures var (r, taken) := SetUp(h);
            match Chosen(h)
            case Some(c) => taken && Interrupted(h, c, r)
            case None => !taken && r == if Tried(h) then h.(instbuf := 0) else h
  {
    match Chosen(h)
    case Some(c) =>
      FirstReadyIs(h);
      TrapTheorems.InterruptChoice(h);
      InterruptMeans(h, c);
    case None => NothingTaken(h);
  }

  // ---------- returns ----------

  /** MRET: back to mepc and MPP, with MIE from MPIE; MPRV only survives a return to M mode. */
  lemma MretMeans(h: Hart)
    ensures var r, st := Mret(h), h.mstatus;
            && r.priv == st.mpp && r.pc <= h.m.epc <= r.pc + 1 && r.pc % 2 == 0 && r.instbuf == 0 && r.chkInt
            && r.mstatus.mie == st.mpie && r.mstatus.mpie && r.mstatus.mpp == 0
            && (r.mstatus.mprv <==> st.mprv && st.mpp == 3)
            && r == h.(priv := r.priv, pc := r.pc, instbuf := 0, chkInt := true, mstatus := r.mstatus)
            && r.mstatus == st.(mie := r.mstatus.mie, mpie := true, mpp := 0, mprv := r.mstatus.mprv)
  {
  }

  /** SRET: back to sepc and SPP, with SIE from SPIE, unless TSR makes it an illegal instruction. */
  lemma SretMeans(h: Hart)
    requires h.mstatus.spp <= 1
    ensures var r, st := SretInst(h, 0x1020_0073), h.mstatus;
            if st.rest & 0x40_0000 != 0 then
              if h.priv <= 1 && 2 in h.medeleg then TrapsToS(h, Cause(false, 2), 0x1020_0073, r)
              else TrapsToM(h, Cause(false, 2), 0x1020_0073, r)
            else
              && r.priv == st.spp && r.pc <= h.s.epc <= r.pc + 1 && r.pc % 2 == 0 && r.instbuf == 0 && r.chkInt
              && r.mstatus.sie == st.spie && r.mstatus.spie && r.mstatus.spp == 0 && !r.mstatus.mprv
              && r == h.(priv := r.priv, pc := r.pc, instbuf := 0, chkInt := true, mstatus := r.mstatus)
              && r.mstatus == st.(sie := r.mstatus.sie, spie := true, spp := 0, mprv := false)
  {
    ExceptionMeans(h, 2, 0x1020_0073);
  }

  // ---------- the word of mstatus ----------

  /** Which bits of mstatus the fields are. */
  lemma FieldsAre(ms: bv64)
    ensures var st := StatusBits.Bits(ms);
            && st.sie == ((ms >> 1) & 1 == 1) && st.mie == ((ms >> 3) & 1 == 1)
            && st.spie == ((ms >> 5) & 1 == 1) && st.mpie == ((ms >> 7) & 1 == 1)
            && st.spp == (if (ms >> 8) & 1 == 1 then 1 else 0) && st.bit9 == ((ms >> 9) & 1 == 1)
            && st.mpp == (if (ms >> 12) & 1 == 1 then 2 else 0) + (if (ms >> 11) & 1 == 1 then 1 else 0)
            && st.mprv == ((ms >> 17) & 1 == 1) && st.rest == ms & !0x2_1BAA
  {
  }
}
