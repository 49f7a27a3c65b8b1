/** The AMO case of decode_exc: LR and SC in place on one hart's state. */
module Atomics {
  import opened Base
  import opened Tlb
  import opened Mmu
  import opened Reservations
  import Hart

  /** The arrays of integer registers and reservations, apart from everything else a hart owns. */
  ghost predicate Apart(hs: Hart.HartState, regs: array<U64>, resv: array<U64>)
    reads hs, hs.pmp, hs.tlb
  {
    && regs != resv && regs.Length == 32
    && regs as object != hs.ram && resv as object != hs.ram
    && regs as object != hs.pmp.expanded && resv as object != hs.pmp.expanded
    && regs as object != hs.tlb.sizeCount && resv as object != hs.tlb.sizeCount
    && regs as object != hs.tlb.tlbEntries && resv as object != hs.tlb.tlbEntries
  }

  /** The loop over reservations in LR, and the reservation itself. */
  method TakeReservation(resv: array<U64>, hartid: nat, phys: U64)
    requires hartid < resv.Length
    modifies resv
    ensures resv[..] == Reserve(old(resv[..]), hartid, phys)
  {
    var i := 0;
    while i < resv.Length
      invariant 0 <= i <= resv.Length
      invariant forall k :: 0 <= k < i ==> resv[k] == if k != hartid && old(resv[k]) == phys then 0 else old(resv[k])
      invariant forall k :: i <= k < resv.Length ==> resv[k] == old(resv[k])
    {
      if hartid != i && resv[i] == phys { resv[i] := 0; }
      i := i + 1;
    }
    resv[hartid] := phys;
  }

  /** HANDLE_MEM_ERROR: was there a fault? Either way the flags are clear afterwards. */
  method MemError(hs: Hart.HartState) returns (failed: bool)
    modifies hs`memStatus, hs`pageFault
    ensures failed == (old(hs.memStatus) || old(hs.pageFault))
    ensures !hs.memStatus && (old(!hs.memStatus || !hs.pageFault) ==> !hs.pageFault)
  {
    if hs.memStatus { hs.memStatus := false; return true; }
    if hs.pageFault { hs.pageFault := false; return true; }
    failed := false;
  }

  method SetReg(regs: array<U64>, rd: nat, v: U64)
    requires rd < regs.Length
    modifies regs
    ensures regs[..] == old(regs[..])[rd := v]
  {
    regs[rd] := v;
  }

  /** The load that LR and AMO begin with: rd is written even if the load faults. */
  method LoadInto(hs: Hart.HartState, regs: array<U64>, resv: array<U64>, rd: nat, addr: U64, n: nat,
        ghost load: (Cached, Outcome)) returns (failed: bool)
    requires hs.Valid() && Apart(hs, regs, resv) && !hs.pageFault
    requires rd < 32 && (n == 4 || n == 8) && load == TlbAccess(hs.View(), Access(false, true), n, addr, 0)
    modifies hs`memStatus, hs`pageFault, hs`privmode, hs.tlb, hs.tlb.sizeCount, hs.tlb.tlbEntries, hs.ram, regs
    ensures hs.Valid() && !hs.pageFault && !hs.memStatus
    ensures failed == !load.1.Done? && hs.View() == load.0
    ensures regs[..] == old(regs[..])[rd := if failed then 0 else Extend(load.1.value, n)]
  {
    hs.memStatus := true;
    var v := hs.VirtMemFetch(addr, n);
    failed := KeepLoaded(hs, regs, rd, v, n, load.1);
  }

  /** The value goes to rd before the fault flags are looked at. */
  method KeepLoaded(hs: Hart.HartState, regs: array<U64>, rd: nat, v: nat, n: nat, ghost out: Outcome)
    returns (failed: bool)
    requires hs.Valid() && rd < regs.Length && regs as object != hs.ram && regs as object != hs.pmp.expanded
    requires regs as object != hs.tlb.sizeCount && regs as object != hs.tlb.tlbEntries
    requires hs.memStatus == out.AccessFault? && hs.pageFault == out.PageFault?
    requires v == if out.Done? then out.value else 0
    modifies hs`memStatus, hs`pageFault, regs
    ensures hs.Valid() && !hs.pageFault && !hs.memStatus && hs.View() == old(hs.View()) && failed == !out.Done?
    ensures regs[..] == old(regs[..])[rd := if failed then 0 else Extend(out.value, n)]
  {
    SetReg(regs, rd, Wrap(v));
    failed := MemError(hs);
    if !failed {
      SetReg(regs, rd, Extend(v, n));
    }
  }

  /** The store of a matching SC. */
  method StoreFrom(hs: Hart.HartState, addr: U64, n: nat, data: U64) returns (failed: bool)
    requires hs.Valid() && !hs.pageFault && (n == 4 || n == 8)
    modifies hs`memStatus, hs`pageFault, hs`privmode, hs.tlb, hs.tlb.sizeCount, hs.tlb.tlbEntries, hs.ram
    ensures hs.Valid() && !hs.pageFault && !hs.memStatus
    ensures var (c, out) := TlbAccess(old(hs.View()), Access(true, true), n, addr, data);
            failed == !out.Done? && hs.View() == c
  {
    hs.memStatus := true;
    hs.VirtMemStore(addr, n, data);
    failed := MemError(hs);
  }

  /** page_table_walk and its error check; load is mem_status on entry. */
  method Locate(hs: Hart.HartState, addr: U64, acc: Access) returns (phys: Option<U64>)
    requires hs.Valid() && !hs.pageFault && hs.memStatus == acc.load
    modifies hs`memStatus, hs`pageFault, hs.tlb, hs.tlb.sizeCount, hs.tlb.tlbEntries, hs.ram
    ensures hs.Valid() && !hs.memStatus && !hs.pageFault
    ensures var (c, out) := WalkFor(old(hs.View()), acc, addr);
            hs.View() == c && phys == if out.Done? then Some(out.value) else None
  {
    var p := hs.PageTableWalk(addr, acc.write);
    var failed := MemError(hs);
    phys := if failed then None else Some(p);
  }

  /** What LR does once its load has succeeded. */
  method ReserveAt(hs: Hart.HartState, regs: array<U64>, resv: array<U64>, hartid: nat, addr: U64,
        value: U64) returns (r: Report)
    requires hs.Valid() && Apart(hs, regs, resv) && !hs.pageFault && hartid < resv.Length
    modifies hs`memStatus, hs`pageFault, hs.tlb, hs.tlb.sizeCount, hs.tlb.tlbEntries, hs.ram, resv
    ensures hs.Valid() && !hs.pageFault && !hs.memStatus
    ensures var (c, phys) := WalkFor(old(hs.View()), Access(false, true), addr);
            && hs.View() == c
            && resv[..] == (if !phys.Done? then old(resv[..]) else Reserve(old(resv[..]), hartid, phys.value))
            && r == if !phys.Done? then LateTrap(value) else Loaded(value, phys.value)
  {
    hs.memStatus := true;
    var phys := Locate(hs, addr, Access(false, true));
    match phys
    case None => r := LateTrap(value);
    case Some(p) =>
      TakeReservation(resv, hartid, p);
      r := Loaded(value, p);
  }

  /** LR after its load. */
  ghost function LrAfter(load: (Cached, Outcome), resv: seq<U64>, h: nat, a: U64, n: nat, sameReg: bool)
    : (Cached, seq<U64>, Report)
    requires h < |resv| && Shape(load.0.tlb)
  {
    if !load.1.Done? then (load.0, resv, Trap)
    else
      var v := Extend(load.1.value, n);
      var (c, phys) := WalkFor(load.0, Access(false, true), if sameReg then v else a);
      if !phys.Done? then (c, resv, LateTrap(v)) else (c, Reserve(resv, h, phys.value), Loaded(v, phys.value))
  }

  lemma LrIs(c: Cached, resv: seq<U64>, h: nat, a: U64, n: nat, sameReg: bool, load: (Cached, Outcome))
    requires h < |resv| && Shape(c.tlb) && load == TlbAccess(c, Access(false, true), n, a, 0)
    ensures LrAfter(load, resv, h, a, n, sameReg) == LrOn(c, resv, h, a, n, sameReg)
  {
  }

  method AfterLoad(hs: Hart.HartState, regs: array<U64>, resv: array<U64>, hartid: nat, rd: nat, rs1: nat, failed: bool,
        ghost load: (Cached, Outcome), ghost a: U64, ghost n: nat) returns (r: Report)
    requires hs.Valid() && Apart(hs, regs, resv) && !hs.pageFault && !hs.memStatus
    requires hartid < resv.Length && rd < 32 && rs1 < 32 && Shape(load.0.tlb)
    requires hs.View() == load.0 && failed == !load.1.Done?
    requires !failed ==> regs[rd] == Extend(load.1.value, n) && (rd != rs1 ==> regs[rs1] == a)
    modifies hs`memStatus, hs`pageFault, hs.tlb, hs.tlb.sizeCount, hs.tlb.tlbEntries, hs.ram, resv
    ensures hs.Valid() && !hs.pageFault && !hs.memStatus && regs[..] == old(regs[..])
    ensures (hs.View(), resv[..], r) == LrAfter(load, old(resv[..]), hartid, a, n, rd == rs1)
    ensures r.Loaded? || r.LateTrap? <==> !failed
    ensures !failed ==> r.value == old(regs[rd])
  {
    if failed { return Trap; }
    r := ReserveAt(hs, regs, resv, hartid, regs[rs1], regs[rd]);
  }

  method LoadReserved(hs: Hart.HartState, regs: array<U64>, resv: array<U64>, hartid: nat, rd: nat, rs1: nat, n: nat)
    returns (r: Report)
    requires hs.Valid() && Apart(hs, regs, resv) && !hs.pageFault
    requires hartid < resv.Length && rd < 32 && rs1 < 32 && (n == 4 || n == 8)
    modifies hs`memStatus, hs`pageFault, hs`privmode, hs.tlb, hs.tlb.sizeCount, hs.tlb.tlbEntries, hs.ram, regs, resv
    ensures hs.Valid() && !hs.pageFault && !hs.memStatus
    ensures var (c, resv', report) := LrOn(old(hs.View()), old(resv[..]), hartid, old(regs[rs1]), n, rd == rs1);
            r == report && hs.View() == c && resv[..] == resv'
    ensures regs[..] == old(regs[..])[rd := if r.Loaded? || r.LateTrap? then r.value else 0]
  {
    ghost var c, was, a := hs.View(), resv[..], regs[rs1];
    ghost var load := TlbAccess(c, Access(false, true), n, a, 0);
    var failed := LoadInto(hs, regs, resv, rd, regs[rs1], n, load);
    r := AfterLoad(hs, regs, resv, hartid, rd, rs1, failed, load, a, n);
    LrIs(c, was, hartid, a, n, rd == rs1, load);
  }

  method StoreConditional(hs: Hart.HartState, regs: array<U64>, resv: array<U64>, hartid: nat, rd: nat, rs1: nat,
        rs2: nat, n: nat)
    returns (r: Report)
    requires hs.Valid() && Apart(hs, regs, resv) && !hs.pageFault && !hs.memStatus
    requires hartid < resv.Length && rd < 32 && rs1 < 32 && rs2 < 32 && (n == 4 || n == 8)
    modifies hs`memStatus, hs`pageFault, hs`privmode, hs.tlb, hs.tlb.sizeCount, hs.tlb.tlbEntries, hs.ram, regs, resv
    ensures hs.Valid() && !hs.pageFault && !hs.memStatus
    ensures var (c, resv', report) := ScOn(old(hs.View()), old(resv[..]), hartid, old(regs[rs1]), n, old(regs[rs2]));
            r == report && hs.View() == c && resv[..] == resv'
    ensures regs[..] == if r.ScDone? then old(regs[..])[rd := if r.success then 0 else 1] else old(regs[..])
  {
    var addr := regs[rs1];
    var phys := Locate(hs, addr, Access(true, false));
    match phys
    case None => r := Trap;
    case Some(p) =>
      if resv[hartid] == p {
        var failed := StoreFrom(hs, addr, n, regs[rs2]);
        if failed { return Trap; }
        regs[rd] := 0;
        r := ScDone(true, p);
      } else {
        regs[rd] := 1;
        r := ScDone(false, p);
      }
      resv[hartid] := 0;
  }
}
