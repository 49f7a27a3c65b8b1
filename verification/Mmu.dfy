/**
 Virtual memory accesses as functions on values: the machine with the TLB, and the reference machine
 that has none and walks on every access.
 */
module Mmu {
  import opened Base
  import opened PhysMem
  import opened Tlb
  import opened PageWalk
  import Pmp

  /** The state both machines share. */
  datatype Core = Core(bus: Bus, satp: U64, priv: nat, mstatus: bv64)

  datatype Cached = Cached(core: Core, tlb: Cache)

  /** What the instruction sees: HANDLE_MEM_ERROR raises one of the two faults, or the access is done. */
  datatype Outcome = AccessFault | PageFault | Done(value: nat)

  const MPRV_BIT: bv64 := 0x2_0000

  function Mpp(mstatus: bv64): (p: nat)
    ensures p <= 3
  {
    var f := (mstatus >> 11) & 3;
    if f == 0 then 0 else if f == 1 then 1 else if f == 2 then 2 else 3
  }

  /** The privilege an access is translated with; None if it bypasses translation. */
  function Effective(c: Core, acc: Access): Option<int>
  {
    if c.priv != 3 then Some(c.priv)
    else if (acc.load || acc.write) && c.mstatus & MPRV_BIT != 0 && Mpp(c.mstatus) != 3 then Some(Mpp(c.mstatus))
    else None
  }

  /** mem_fetch or mem_store of n bytes at the physical address a. */
  function Physical(b: Bus, priv: int, acc: Access, n: nat, a: int, data: nat): (r: (Bus, Outcome))
    ensures r.0.pmp == b.pmp
  {
    if acc.write then
      if WriteOk(b, priv, a, n) then (Store(b, a, n, data), Done(0)) else (b, AccessFault)
    else
      if ReadOk(b, priv, acc.load, a, n) then (b, Done(Get(b.mem, a, n))) else (b, AccessFault)
  }

  // ---------- the reference machine ----------

  /** Translate, then access, with the bus as it stands after the walk's A/D write. */
  function Finish(b: Bus, priv: int, acc: Access, n: nat, va: nat, data: nat, t: Translation): (r: (Bus, Outcome))
    requires t.To? ==> t.bus.pmp == b.pmp
    ensures r.0.pmp == b.pmp
  {
    match t
    case Denied => (b, AccessFault)
    case Fault => (b, PageFault)
    case Bare => Physical(b, priv, acc, n, va, data)
    case To(phys, b', _) => Physical(b', priv, acc, n, phys, data)
  }

  function RefAccess(c: Core, acc: Access, n: nat, va: nat, data: nat): (Core, Outcome)
  {
    var (b, out) :=
      match Effective(c, acc)
      case None => Physical(c.bus, c.priv, acc, n, va, data)
      case Some(p) => Finish(c.bus, p, acc, n, va, data, Translate(c.bus, p, acc, c.satp, c.mstatus, va));
    (c.(bus := b), out)
  }

  // ---------- the machine with the TLB ----------

  /** tlb_find: the bus after its A/D write, the physical address (0 for a miss) and mem_status. */
  datatype Looked = Looked(bus: Bus, phys: U64, load: bool)

  function Lookup(b: Bus, t: Cache, satp: U64, mstatus: bv64, priv: int, acc: Access, va: U64): Looked
    requires Shape(t)
  {
    if satp == 0 then Looked(b, va, acc.load)
    else
      match Find(t, va, acc, priv, Sum(mstatus), t.maxSize)
      case None => Looked(b, 0, acc.load)
      case Some(e) => Hit(b, priv, acc, va, e)
  }

  /** The hit path; an unreadable PTE reads as 0. */
  function Hit(b: Bus, priv: int, acc: Access, va: U64, e: Entry): Looked
  {
    var pte := if ReadOk(b, priv, acc.load, e.pteAddr, 8) then PteAt(b, e.pteAddr) else 0;
    var phys := Wrap(e.phyPage + va % PageSize(e.size));
    if AllOnesButAD(pte) then Looked(b, phys, false)
    else if WriteOk(b, priv, e.pteAddr, 8) then Looked(Store(b, e.pteAddr, 8, SetAD(pte, acc.write)), phys, false)
    else Looked(b, 0, false)
  }

  /** The TLB after page_table_walk: successful walks insert their translation. */
  function Fill(t: Cache, tr: Translation, va: U64): (t': Cache)
    requires Shape(t) && (tr.To? ==> tr.leaf.level < 6)
    ensures Shape(t')
  {
    if tr.To? then Add(t, EntryOf(tr.leaf, va)) else t
  }

  /** page_table_walk called by itself, as LR and SC do, with the privilege of the hart, M included. */
  function RefWalk(c: Core, acc: Access, va: U64): (r: (Core, Outcome))
    ensures r.1.Done? ==> r.1.value < 0x1_0000_0000_0000_0000
  {
    match Translate(c.bus, c.priv, acc, c.satp, c.mstatus, va)
    case Denied => (c, AccessFault)
    case Fault => (c, PageFault)
    case Bare => (c, Done(va))
    case To(phys, b, _) => (c.(bus := b), Done(phys))
  }

  /** The same with a TLB, which the walk fills without having looked at it. */
  function WalkFor(s: Cached, acc: Access, va: U64): (r: (Cached, Outcome))
    requires Shape(s.tlb)
    ensures Shape(r.0.tlb) && (r.1.Done? ==> r.1.value < 0x1_0000_0000_0000_0000)
  {
    var c := s.core;
    var (c', out) := RefWalk(c, acc, va);
    (Cached(c', Fill(s.tlb, Translate(c.bus, c.priv, acc, c.satp, c.mstatus, va), va)), out)
  }

  /** The bus, the TLB and the outcome after an access. */
  datatype After = After(bus: Bus, tlb: Cache, out: Outcome)

  /** The miss path, from the bus that tlb_find left. */
  function WalkAccess(b: Bus, t: Cache, satp: U64, mstatus: bv64, priv: int, acc: Access, n: nat, va: U64,
        data: nat): (r: After)
    requires Shape(t)
    ensures Shape(r.tlb)
  {
    var tr := Translate(b, priv, acc, satp, mstatus, va);
    var (b', out) := Finish(b, priv, acc, n, va, data, tr);
    After(b', Fill(t, tr, va), out)
  }

  /** An access translated with privilege priv. */
  function TranslatedAccess(b: Bus, t: Cache, satp: U64, mstatus: bv64, priv: int, acc: Access, n: nat, va: U64,
        data: nat): (r: After)
    requires Shape(t)
    ensures Shape(r.tlb)
  {
    var k := Lookup(b, t, satp, mstatus, priv, acc, va);
    if k.phys != 0 then
      var (b', out) := Physical(k.bus, priv, acc.(load := k.load), n, k.phys, data);
      After(b', t, out)
    else
      WalkAccess(k.bus, t, satp, mstatus, priv, acc.(load := k.load), n, va, data)
  }

  function TlbAccess(s: Cached, acc: Access, n: nat, va: U64, data: nat): (r: (Cached, Outcome))
    requires Shape(s.tlb)
    ensures Shape(r.0.tlb)
  {
    var c := s.core;
    match Effective(c, acc)
    case None =>
      var (b, out) := Physical(c.bus, c.priv, acc, n, va, data);
      (s.(core := c.(bus := b)), out)
    case Some(p) =>
      var r := TranslatedAccess(c.bus, s.tlb, c.satp, c.mstatus, p, acc, n, va, data);
      (Cached(c.(bus := r.bus), r.tlb), r.out)
  }

  // ---------- operations ----------

  /** What a hart does to this state; WalkOp is the walk that LR and SC make, Fence is SFENCE.VMA. */
  datatype Op =
    | MemOp(acc: Access, n: nat, va: U64, data: nat)
    | WalkOp(acc: Access, va: U64)
    | SetSatp(satp: U64)
    | SetPriv(priv: nat)
    | SetMstatus(mstatus: bv64)
    | SetPmp(pmp: Pmp.Table)
    | Fence

  function CoreStep(c: Core, op: Op): Core
    requires !op.MemOp? && !op.WalkOp?
  {
    match op
    case SetSatp(v) => c.(satp := v)
    case SetPriv(p) => c.(priv := p)
    case SetMstatus(v) => c.(mstatus := v)
    case SetPmp(t) => c.(bus := c.bus.(pmp := t))
    case Fence => c
  }

  function RefStep(c: Core, op: Op): (Core, Outcome)
  {
    match op
    case MemOp(acc, n, va, data) => RefAccess(c, acc, n, va, data)
    case WalkOp(acc, va) => RefWalk(c, acc, va)
    case _ => (CoreStep(c, op), Done(0))
  }

  function TlbStep(s: Cached, op: Op): (r: (Cached, Outcome))
    requires Shape(s.tlb)
    ensures Shape(r.0.tlb)
  {
    match op
    case MemOp(acc, n, va, data) => TlbAccess(s, acc, n, va, data)
    case WalkOp(acc, va) => WalkFor(s, acc, va)
    case Fence => (s.(tlb := Empty()), Done(0))
    case _ => (s.(core := CoreStep(s.core, op)), Done(0))
  }

  function RefRun(c: Core, ops: seq<Op>): (Core, seq<Outcome>)
    decreases |ops|
  {
    if ops == [] then (c, [])
    else
      var (c1, out) := RefStep(c, ops[0]);
      var (c2, outs) := RefRun(c1, ops[1..]);
      (c2, [out] + outs)
  }

  function TlbRun(s: Cached, ops: seq<Op>): (r: (Cached, seq<Outcome>))
    requires Shape(s.tlb)
    ensures Shape(r.0.tlb)
    decreases |ops|
  {
    if ops == [] then (s, [])
    else
      var (s1, out) := TlbStep(s, ops[0]);
      var (s2, outs) := TlbRun(s1, ops[1..]);
      (s2, [out] + outs)
  }
}
