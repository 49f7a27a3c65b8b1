/** A locked PMP entry stays as it is for the rest of the run. */
module PmpLocks {
  import opened Base
  import opened Pmp

  /** The CSR writes that reach PMP state. */
  datatype Op =
    | Cfg(high: bool, funct: int, w: bv64) // pmpcfg2 if high, else pmpcfg0
    | Addr(index: nat, funct: int, value: U64)

  datatype State = State(regs: Regs, table: Table)

  predicate Valid(s: State)
  {
    ValidRegs(s.regs) && ValidTable(s.table)
  }

  ghost function Step(s: State, op: Op): (s': State)
    requires Valid(s)
    ensures Valid(s')
  {
    match op
    case Cfg(high, funct, w) =>
      var r := WriteCfgs(s.regs, if high then 8 else 0, funct, w, 8);
      State(r, Sync(s.table, r))
    case Addr(i, funct, v) =>
      if i < PMP_COUNT then s.(regs := WriteAddr(s.regs, i, funct, v)) else s
  }

  ghost function Run(s: State, ops: seq<Op>): (s': State)
    requires Valid(s)
    ensures Valid(s')
    decreases |ops|
  {
    if ops == [] then s else Run(Step(s, ops[0]), ops[1..])
  }

  /** reset_state */
  function Reset(): (s: State)
    ensures Valid(s)
  {
    State(Regs(seq(16, _ => 0)[0 := 0x1F], seq(16, _ => 0)[0 := 0x003f_ffff_ffff_ffff], seq(16, _ => false)),
          Table(seq(16, _ => Region(false, false, 0, 0, 0)), false, 0, 0))
  }

  /** Why pmpaddr i may not be written: its own entry is locked, or it bounds a locked TOR entry. */
  predicate AddrPinned(r: Regs, i: nat)
    requires ValidRegs(r) && i < PMP_COUNT
  {
    Locked(r.cfg[i]) || (i + 1 < PMP_COUNT && Locked(r.cfg[i + 1]) && Mode(r.cfg[i + 1]) == 1)
  }

  /** The address locks are exactly the pinned registers. */
  ghost predicate LocksExact(r: Regs)
    requires ValidRegs(r)
  {
    forall i :: 0 <= i < PMP_COUNT ==> r.lockedAddr[i] == AddrPinned(r, i)
  }

  /** The expanded copies of the locked entries are up to date. */
  ghost predicate LockedSynced(s: State)
    requires Valid(s)
  {
    forall i :: 0 <= i < PMP_COUNT && Locked(s.regs.cfg[i]) ==>
      s.table.regions[i] == Expand(s.regs, s.table.regions[i], i)
  }

  ghost predicate Inv(s: State)
  {
    Valid(s) && LocksExact(s.regs) && LockedSynced(s)
  }

  /** Everything entry i is made of is the same in both states. */
  ghost predicate SameEntry(s: State, s': State, i: nat)
    requires Valid(s) && Valid(s') && i < PMP_COUNT
  {
    && SameRegs(s.regs, s'.regs, i)
    && s'.table.regions[i] == s.table.regions[i]
  }

  predicate SameRegs(r: Regs, r': Regs, i: nat)
    requires ValidRegs(r) && ValidRegs(r') && i < PMP_COUNT
  {
    && r'.cfg[i] == r.cfg[i]
    && r'.addr[i] == r.addr[i]
    && (Mode(r.cfg[i]) == 1 && i > 0 ==> r'.addr[i - 1] == r.addr[i - 1])
  }

  lemma WriteCfgKeeps(r: Regs, k: nat, funct: int, b: bv8)
    requires ValidRegs(r) && k < PMP_COUNT && LocksExact(r)
    ensures LocksExact(WriteCfg(r, k, funct, b))
    ensures forall i :: 0 <= i < PMP_COUNT && Locked(r.cfg[i]) ==> SameRegs(r, WriteCfg(r, k, funct, b), i)
  {
    var r' := WriteCfg(r, k, funct, b);
    forall i | 0 <= i < PMP_COUNT
      ensures r'.lockedAddr[i] == AddrPinned(r', i)
    {
      assert r.lockedAddr[i] == AddrPinned(r, i);
    }
  }

  lemma {:induction false} WriteCfgsKeeps(r: Regs, start: nat, funct: int, w: bv64, n: nat)
    requires ValidRegs(r) && n <= 8 && start <= 8 && LocksExact(r)
    ensures LocksExact(WriteCfgs(r, start, funct, w, n))
    ensures forall i :: 0 <= i < PMP_COUNT && Locked(r.cfg[i]) ==> SameRegs(r, WriteCfgs(r, start, funct, w, n), i)
  {
    if n > 0 {
      WriteCfgsKeeps(r, start, funct, w, n - 1);
      WriteCfgKeeps(WriteCfgs(r, start, funct, w, n - 1), start + n - 1, funct, CfgByte(w, n - 1));
    }
  }

  lemma WriteAddrKeeps(r: Regs, k: nat, funct: int, v: U64)
    requires ValidRegs(r) && k < PMP_COUNT && LocksExact(r)
    ensures LocksExact(WriteAddr(r, k, funct, v))
    ensures forall i :: 0 <= i < PMP_COUNT && Locked(r.cfg[i]) ==> SameRegs(r, WriteAddr(r, k, funct, v), i)
  {
    var r' := WriteAddr(r, k, funct, v);
    forall i | 0 <= i < PMP_COUNT
      ensures r'.lockedAddr[i] == AddrPinned(r', i)
    {
      assert r.lockedAddr[i] == AddrPinned(r, i);
    }
    forall i | 0 <= i < PMP_COUNT && Locked(r.cfg[i])
      ensures SameRegs(r, r', i)
    {
      assert r.lockedAddr[i] == AddrPinned(r, i);
      assert i > 0 ==> r.lockedAddr[i - 1] == AddrPinned(r, i - 1);
    }
  }

  lemma SameRegsSameRegion(r: Regs, r': Regs, i: nat)
    requires ValidRegs(r) && ValidRegs(r') && i < PMP_COUNT && SameRegs(r, r', i)
    ensures RawRegion(r', i) == RawRegion(r, i)
  {
  }

  /** What the registers keep, the expanded entries keep, provided a sync expands them all again. */
  lemma EntriesKept(s: State, s': State)
    requires Inv(s) && Valid(s') && (s'.table == s.table || s'.table == Sync(s.table, s'.regs))
    requires forall i :: 0 <= i < PMP_COUNT && Locked(s.regs.cfg[i]) ==> SameRegs(s.regs, s'.regs, i)
    ensures forall i :: 0 <= i < PMP_COUNT && Locked(s.regs.cfg[i]) ==> SameEntry(s, s', i)
  {
    forall i | 0 <= i < PMP_COUNT && Locked(s.regs.cfg[i])
      ensures SameEntry(s, s', i)
    {
      SameRegsSameRegion(s.regs, s'.regs, i);
    }
  }

  lemma StepCfg(s: State, high: bool, funct: int, w: bv64)
    requires Inv(s)
    ensures Inv(Step(s, Cfg(high, funct, w)))
    ensures forall i :: 0 <= i < PMP_COUNT && Locked(s.regs.cfg[i]) ==> SameEntry(s, Step(s, Cfg(high, funct, w)), i)
  {
    WriteCfgsKeeps(s.regs, if high then 8 else 0, funct, w, 8);
    EntriesKept(s, Step(s, Cfg(high, funct, w)));
  }

  lemma StepAddr(s: State, k: nat, funct: int, v: U64)
    requires Inv(s)
    ensures Inv(Step(s, Addr(k, funct, v)))
    ensures forall i :: 0 <= i < PMP_COUNT && Locked(s.regs.cfg[i]) ==> SameEntry(s, Step(s, Addr(k, funct, v)), i)
  {
    var s' := Step(s, Addr(k, funct, v));
    if k < PMP_COUNT { WriteAddrKeeps(s.regs, k, funct, v); }
    EntriesKept(s, s');
    forall i | 0 <= i < PMP_COUNT && Locked(s'.regs.cfg[i])
      ensures s'.table.regions[i] == Expand(s'.regs, s'.table.regions[i], i)
    {
      SameRegsSameRegion(s.regs, s'.regs, i);
    }
  }

  lemma StepKeeps(s: State, op: Op)
    requires Inv(s)
    ensures Inv(Step(s, op))
    ensures forall i :: 0 <= i < PMP_COUNT && Locked(s.regs.cfg[i]) ==> SameEntry(s, Step(s, op), i)
  {
    match op
    case Cfg(high, funct, w) => StepCfg(s, high, funct, w);
    case Addr(i, funct, v) => StepAddr(s, i, funct, v);
  }

  lemma {:induction false} RunKeeps(s: State, ops: seq<Op>)
    requires Inv(s)
    ensures Inv(Run(s, ops))
    ensures forall i :: 0 <= i < PMP_COUNT && Locked(s.regs.cfg[i]) ==> SameEntry(s, Run(s, ops), i)
    decreases |ops|
  {
    if ops != [] {
      StepKeeps(s, ops[0]);
      RunKeeps(Step(s, ops[0]), ops[1..]);
    }
  }

  lemma ResetInv()
    ensures Inv(Reset())
  {
    assert !Locked(0x1F) && !Locked(0);
    var r := Reset().regs;
    assert forall i :: 0 <= i < PMP_COUNT ==> r.cfg[i] == 0 || r.cfg[i] == 0x1F;
  }

  /**
   In every run from reset: an address register is write-protected exactly when it is pinned, and once
   entry i is locked nothing that follows changes its configuration, its address registers or its
   expanded bounds and permissions.
   */
  lemma LocksLast(before: seq<Op>, after: seq<Op>, i: nat)
    requires i < PMP_COUNT
    ensures var s := Run(Reset(), before);
            && s.regs.lockedAddr[i] == AddrPinned(s.regs, i)
            && (Locked(s.regs.cfg[i]) ==> SameEntry(s, Run(s, after), i))
  {
    ResetInv();
    RunKeeps(Reset(), before);
    RunKeeps(Run(Reset(), before), after);
  }

  // ---------- when the expanded table is in step ----------

  /** The registers as the latest pmpcfg write left them. */
  ghost function LastSync(s: State, ops: seq<Op>, before: Option<Regs>): Option<Regs>
    requires Valid(s)
    decreases |ops|
  {
    if ops == [] then before
    else
      var s' := Step(s, ops[0]);
      LastSync(s', ops[1..], if ops[0].Cfg? then Some(s'.regs) else before)
  }

  /** The enabled entries have the same bounds and permissions under both register files. */
  ghost predicate SameRegions(r: Regs, r': Regs)
    requires ValidRegs(r) && ValidRegs(r')
  {
    forall i :: 0 <= i < PMP_COUNT && Mode(r'.cfg[i]) != 0 ==> RawRegion(r', i) == RawRegion(r, i)
  }

  /** What a run keeps: the table is that of the latest sync; before the first one entry 0 is off in the table alone. */
  ghost predicate Behind(s: State, at: Option<Regs>)
  {
    && Valid(s)
    && match at
       case None => !s.table.regions[0].enable && Mode(s.regs.cfg[0]) != 0
       case Some(r) => ValidRegs(r) && Synced(s.table, r) && s.regs.cfg == r.cfg
  }

  lemma BehindExact(s: State, at: Option<Regs>)
    requires Behind(s, at)
    ensures Synced(s.table, s.regs) <==> at.Some? && SameRegions(at.value, s.regs)
  {
    if at.Some? {
      var r, t := at.value, s.table;
      assert forall i :: 0 <= i < PMP_COUNT && t.regions[i].enable ==> t.regions[i] == RawRegion(r, i);
    }
  }

  lemma StepBehind(s: State, op: Op, at: Option<Regs>)
    requires Behind(s, at)
    ensures var s' := Step(s, op); Behind(s', if op.Cfg? then Some(s'.regs) else at)
  {
    match op
    case Cfg(_, _, _) => SyncIsSynced(s.table, Step(s, op).regs);
    case Addr(_, _, _) =>
  }

  lemma {:induction false} RunBehind(s: State, ops: seq<Op>, at: Option<Regs>)
    requires Behind(s, at)
    ensures Behind(Run(s, ops), LastSync(s, ops, at))
    decreases |ops|
  {
    if ops != [] {
      StepBehind(s, ops[0], at);
      var s' := Step(s, ops[0]);
      RunBehind(s', ops[1..], if ops[0].Cfg? then Some(s'.regs) else at);
    }
  }

  lemma ResetBehind()
    ensures Behind(Reset(), None)
  {
    assert Mode(0x1F) != 0;
  }

  /**
   In every run from reset the expanded table is in step with the registers exactly when pmpcfg has been written
   and the address writes since then have left every enabled entry the bounds it had.
   */
  lemma SyncedExact(ops: seq<Op>)
    ensures var s, at := Run(Reset(), ops), LastSync(Reset(), ops, None);
            && (at.Some? ==> ValidRegs(at.value))
            && (Synced(s.table, s.regs) <==> at.Some? && SameRegions(at.value, s.regs))
  {
    ResetBehind();
    RunBehind(Reset(), ops, None);
    BehindExact(Run(Reset(), ops), LastSync(Reset(), ops, None));
  }

  /** Straight after reset it is not. */
  lemma ResetOutOfStep()
    ensures !Synced(Reset().table, Reset().regs)
  {
    ResetBehind();
    BehindExact(Reset(), None);
  }

  /** A pmpaddr write that moves the end of an unlocked TOR region at entry 0 puts it out of step again. */
  lemma AddrOutOfStep(s: State, v: U64)
    requires Valid(s) && Synced(s.table, s.regs) && Mode(s.regs.cfg[0]) == 1 && !s.regs.lockedAddr[0]
    requires ByteAddr(v) != ByteAddr(s.regs.addr[0])
    ensures var s' := Step(s, Addr(0, 1, v)); !Synced(s'.table, s'.regs)
  {
    var s' := Step(s, Addr(0, 1, v));
    assert s'.table.regions[0].enable && RawRegion(s'.regs, 0).hi != RawRegion(s.regs, 0).hi;
  }
}
