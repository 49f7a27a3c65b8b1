/** Exactly when a TLB hit differs from the walk it replaces. TlbWitness has runs that show each difference. */
module TlbExact {
  import opened Base
  import opened PhysMem
  import opened Tlb
  import opened PageWalk
  import opened WalkTheorems
  import opened Mmu
  import opened Transparency

  const FETCH := Access(false, false)

  // ---------- the PTE word after a hit ----------

  /** What the hit path reads as the PTE: 0 if PMP refuses the read, which the code does not notice. */
  function PteSeen(b: Bus, priv: int, acc: Access, e: Entry): int
  {
    if ReadOk(b, priv, acc.load, e.pteAddr, 8) then PteAt(b, e.pteAddr) else 0
  }

  /** An empty word with A set, and D for a write. */
  function Blank(write: bool): (v: Byte)
    ensures v == SetAD(0, write) && v % 2 == 0
  {
    if write then 0xC0 else 0x40
  }

  /** The hit path leaves the PTE as it was. */
  predicate PteKept(b: Bus, priv: int, acc: Access, e: Entry)
  {
    var pte := PteSeen(b, priv, acc, e);
    || AllOnesButAD(pte)
    || !WriteOk(b, priv, e.pteAddr, 8)
    || !InRam(b.mem, e.pteAddr)
    || SetAD(pte, acc.write) == PteAt(b, e.pteAddr)
  }

  lemma LowByteMoves(m: Phys, a: int, v: nat)
    requires InRam(m, a) && v % 256 != ByteAt(m, a)
    ensures Put(m, a, 8, v) != m
  {
    PutBytesFrame(SetByte(m, a, v % 256), a + 1, 7, v / 256);
    assert ByteAt(Put(m, a, 8, v), a) == v % 256;
  }

  lemma LowByteOf(m: Phys, a: int)
    requires InRam(m, a)
    ensures Get(m, a, 8) % 256 == ByteAt(m, a)
  {
    LowByte(ByteAt(m, a), Bytes(m, a + 1, 7));
  }

  /** A store of A/D bits changes nothing exactly if the word is not in RAM or has them already. */
  lemma ADStoreKeeps(b: Bus, pa: int, v: nat)
    requires SameButAD(v, PteAt(b, pa))
    ensures Store(b, pa, 8, v) == b <==> !InRam(b.mem, pa) || v == PteAt(b, pa)
  {
    ADStoreSelf(b, pa, v);
    if v == PteAt(b, pa) {
      PutGetSame(b.mem, pa, 8);
    }
  }

  /** The store that follows a PTE read as 0 loses the PTE if it is in RAM. */
  lemma BlankStore(b: Bus, pa: int, write: bool)
    requires InRange(b, pa) && PteV(PteAt(b, pa))
    ensures Store(b, pa, 8, Blank(write)) == b <==> !InRam(b.mem, pa)
    ensures Blank(write) != PteAt(b, pa)
  {
    if InRam(b.mem, pa) {
      LowByteOf(b.mem, pa);
      LowBits(PteAt(b, pa));
      LowByteMoves(b.mem, pa, Blank(write));
    }
  }

  // ---------- the outcomes of a hit ----------

  /** The leaf PTE is valid, and its A/D update is possible. */
  lemma LeafWord(b: Bus, satp: U64, priv: int, va: U64, e: Entry)
    requires EntryOk(b, satp, e) && SamePage(va, e.virtPage, e.size) && priv < 3
    ensures PteV(PteAt(b, e.pteAddr)) && CanUpdate(b, priv, e.pteAddr)
  {
    EveryAddress(b, satp, e, va, priv, true);
    FoundReadable(b, priv, true, satp, va);
    FoundReadable(b, priv, false, satp, va);
  }

  lemma LookupSeeing(s: Cached, priv: int, acc: Access, va: U64, e: Entry)
    requires Shape(s.tlb) && EntryOk(s.core.bus, s.core.satp, e) && HitOn(s, priv, acc, va, e)
    requires ReadOk(s.core.bus, priv, acc.load, e.pteAddr, 8)
    ensures var b := s.core.bus;
            && Lookup(b, s.tlb, s.core.satp, s.core.mstatus, priv, acc, va)
               == Looked(UpdateAD(b, e.pteAddr, acc.write), Target(LeafOf(e), va), false)
            && (UpdateAD(b, e.pteAddr, acc.write) == b <==> PteKept(b, priv, acc, e))
  {
    var b := s.core.bus;
    var pte := PteAt(b, e.pteAddr);
    LeafWord(b, s.core.satp, priv, va, e);
    SetADSame(pte, acc.write);
    ADStoreKeeps(b, e.pteAddr, SetAD(pte, acc.write));
  }

  lemma BlindPteKept(b: Bus, priv: int, acc: Access, e: Entry)
    requires !ReadOk(b, priv, acc.load, e.pteAddr, 8) && PteV(PteAt(b, e.pteAddr))
    ensures PteKept(b, priv, acc, e) <==> !WriteOk(b, priv, e.pteAddr, 8) || !InRam(b.mem, e.pteAddr)
  {
    if WriteOk(b, priv, e.pteAddr, 8) {
      BlankStore(b, e.pteAddr, acc.write);
    }
  }

  /** The PTE reads as 0: A, and D for a store, are written into an otherwise empty word. */
  lemma LookupBlind(s: Cached, priv: int, acc: Access, va: U64, e: Entry)
    requires Shape(s.tlb) && EntryOk(s.core.bus, s.core.satp, e) && HitOn(s, priv, acc, va, e)
    requires !ReadOk(s.core.bus, priv, acc.load, e.pteAddr, 8)
    ensures var b := s.core.bus;
            var k := Lookup(b, s.tlb, s.core.satp, s.core.mstatus, priv, acc, va);
            && k == (if WriteOk(b, priv, e.pteAddr, 8)
                     then Looked(Store(b, e.pteAddr, 8, Blank(acc.write)), Target(LeafOf(e), va), false)
                     else Looked(b, 0, false))
            && (k.bus == b <==> PteKept(b, priv, acc, e))
  {
    var b := s.core.bus;
    LeafWord(b, s.core.satp, priv, va, e);
    BlindPteKept(b, priv, acc, e);
    if WriteOk(b, priv, e.pteAddr, 8) {
      BlankStore(b, e.pteAddr, acc.write);
    }
    BlindHit(b, priv, acc, va, e);
  }

  lemma BlindHit(b: Bus, priv: int, acc: Access, va: U64, e: Entry)
    requires !ReadOk(b, priv, acc.load, e.pteAddr, 8)
    ensures Hit(b, priv, acc, va, e)
            == if WriteOk(b, priv, e.pteAddr, 8)
               then Looked(Store(b, e.pteAddr, 8, Blank(acc.write)), Target(LeafOf(e), va), false)
               else Looked(b, 0, false)
  {
  }

  /** Bus and physical address as the hit path leaves them; 0 for a hit it takes back. */
  lemma LookupIs(s: Cached, priv: int, acc: Access, va: U64, e: Entry)
    requires Shape(s.tlb) && EntryOk(s.core.bus, s.core.satp, e) && HitOn(s, priv, acc, va, e)
    ensures var b := s.core.bus;
            var k := Lookup(b, s.tlb, s.core.satp, s.core.mstatus, priv, acc, va);
            && !k.load && k.bus.pmp == b.pmp && |k.bus.mem.ram| == |b.mem.ram|
            && (k.bus == b <==> PteKept(b, priv, acc, e))
            && k.phys == (if AllOnesButAD(PteSeen(b, priv, acc, e)) || WriteOk(b, priv, e.pteAddr, 8)
                          then Target(LeafOf(e), va) else 0)
            && (ReadOk(b, priv, acc.load, e.pteAddr, 8) ==>
                  k == Looked(UpdateAD(b, e.pteAddr, acc.write), Target(LeafOf(e), va), false))
  {
    LeafWord(s.core.bus, s.core.satp, priv, va, e);
    if ReadOk(s.core.bus, priv, acc.load, e.pteAddr, 8) {
      LookupSeeing(s, priv, acc, va, e);
    } else {
      LookupBlind(s, priv, acc, va, e);
    }
  }

  /** What the data access of a hit asks PMP: write, or execute even for a load. */
  predicate DataRefused(b: Bus, priv: int, acc: Access, n: nat, a: int)
  {
    if acc.write then !WriteOk(b, priv, a, n) else !ReadOk(b, priv, false, a, n)
  }

  /** A hit with a physical address goes on to the data access, as a fetch unless it is a store. */
  lemma TlbGoesOn(s: Cached, priv: int, acc: Access, n: nat, va: U64, data: nat, e: Entry)
    requires Shape(s.tlb) && EntryOk(s.core.bus, s.core.satp, e) && HitOn(s, priv, acc, va, e)
    requires Lookup(s.core.bus, s.tlb, s.core.satp, s.core.mstatus, priv, acc, va).phys != 0
    ensures var k := Lookup(s.core.bus, s.tlb, s.core.satp, s.core.mstatus, priv, acc, va);
            var (s', out) := TlbAccess(s, acc, n, va, data);
            && (s'.core.bus, out) == Physical(k.bus, priv, acc.(load := false), n, k.phys, data)
            && s'.core == s.core.(bus := s'.core.bus)
            && (out.Done? <==> !DataRefused(s.core.bus, priv, acc, n, k.phys))
            && (DataRefused(s.core.bus, priv, acc, n, k.phys) ==> s'.core.bus == k.bus && out == AccessFault)
  {
    LookupIs(s, priv, acc, va, e);
  }

  /** A hit without one is walked again, as a fetch or store. */
  lemma TlbWalks(s: Cached, priv: int, acc: Access, n: nat, va: U64, data: nat, e: Entry)
    requires Shape(s.tlb) && EntryOk(s.core.bus, s.core.satp, e) && HitOn(s, priv, acc, va, e)
    requires Lookup(s.core.bus, s.tlb, s.core.satp, s.core.mstatus, priv, acc, va).phys == 0
    ensures var k := Lookup(s.core.bus, s.tlb, s.core.satp, s.core.mstatus, priv, acc, va);
            var (s', out) := TlbAccess(s, acc, n, va, data);
            var acc' := acc.(load := false);
            && s'.core == s.core.(bus := s'.core.bus)
            && (s'.core.bus, out)
               == Finish(k.bus, priv, acc', n, va, data, Translate(k.bus, priv, acc', s.core.satp, s.core.mstatus, va))
  {
    LookupIs(s, priv, acc, va, e);
  }

  /** The reference machine where PMP refuses the walk of this kind of access a PTE. */
  lemma RefRefused(c: Core, priv: int, acc: Access, n: nat, va: U64, data: nat)
    requires Effective(c, acc) == Some(priv) && Walk(c.bus, priv, acc.load, c.satp, va) == NoAccess
    ensures RefAccess(c, acc, n, va, data) == (c, AccessFault)
  {
  }

  /** ... and where it does not. */
  lemma RefFinds(c: Core, priv: int, acc: Access, n: nat, va: U64, data: nat, e: Entry)
    requires Effective(c, acc) == Some(priv) && EntryOk(c.bus, c.satp, e) && priv < 3
    requires Usable(e, va, acc, priv, Sum(c.mstatus)) && Walk(c.bus, priv, acc.load, c.satp, va) != NoAccess
    ensures var b := UpdateAD(c.bus, e.pteAddr, acc.write);
            var (b', out) := if UserFetch(priv, acc, e.user) then (c.bus, PageFault)
                             else Physical(b, priv, acc, n, Target(LeafOf(e), va), data);
            RefAccess(c, acc, n, va, data) == (c.(bus := b'), out)
    ensures ReadOk(c.bus, priv, acc.load, e.pteAddr, 8)
  {
    EveryAddress(c.bus, c.satp, e, va, priv, acc.load);
    FoundReadable(c.bus, priv, acc.load, c.satp, va);
    UsableAdmits(c.satp, c.mstatus, priv, acc, va, e);
    RefIs(c, priv, acc, n, va, data, Translate(c.bus, priv, acc, c.satp, c.mstatus, va));
  }

  lemma RefIs(c: Core, priv: int, acc: Access, n: nat, va: U64, data: nat, tr: Translation)
    requires Effective(c, acc) == Some(priv) && tr == Translate(c.bus, priv, acc, c.satp, c.mstatus, va)
    ensures var (b, out) := Finish(c.bus, priv, acc, n, va, data, tr);
            RefAccess(c, acc, n, va, data) == (c.(bus := b), out)
  {
  }

  // ---------- hits at a nonzero physical address ----------

  /** How a hit ends whose PTE can be read or else written. */
  lemma HitOutcome(s: Cached, priv: int, acc: Access, n: nat, va: U64, data: nat, e: Entry)
    requires Shape(s.tlb) && EntryOk(s.core.bus, s.core.satp, e)
    requires HitOn(s, priv, acc, va, e) && Target(LeafOf(e), va) != 0
    requires ReadOk(s.core.bus, priv, acc.load, e.pteAddr, 8) || WriteOk(s.core.bus, priv, e.pteAddr, 8)
    ensures var out := TlbAccess(s, acc, n, va, data).1;
            if DataRefused(s.core.bus, priv, acc, n, Target(LeafOf(e), va)) then out == AccessFault else out.Done?
  {
    LeafWord(s.core.bus, s.core.satp, priv, va, e);
    LookupIs(s, priv, acc, va, e);
    TlbGoesOn(s, priv, acc, n, va, data, e);
  }

  /**
   PMP refuses the walk, but the TLB machine also ends in an access fault with memory unchanged: it leaves
   the PTE alone and its data access is refused. A hit it takes back is walked as a fetch or store first.
   */
  predicate Unnoticed(c: Core, priv: int, acc: Access, n: nat, va: U64, e: Entry)
  {
    var b, phys := c.bus, Target(LeafOf(e), va);
    if AllOnesButAD(PteSeen(b, priv, acc, e)) || WriteOk(b, priv, e.pteAddr, 8) then
      PteKept(b, priv, acc, e) && DataRefused(b, priv, acc, n, phys)
    else
      acc.load ==> Admits(LeafOf(e), acc.(load := false), priv, c.mstatus) && DataRefused(b, priv, acc, n, phys)
  }

  /**
   With a coherent TLB and any PMP, a hit at a nonzero physical address behaves as a walk would except in
   exactly three families: a fetch above U mode from a user page, which the walk refuses; a load from
   memory where PMP grants read and execute differently, which the hit checks as a fetch; and an access
   to a page whose PTEs PMP opens only to the other kind of walk, which the hit lets through.
   */
  lemma HitExact(s: Cached, priv: int, acc: Access, n: nat, va: U64, data: nat, e: Entry)
    requires Shape(s.tlb) && Coherent(s.core.bus, s.core.satp, s.tlb)
    requires HitOn(s, priv, acc, va, e) && Target(LeafOf(e), va) != 0
    ensures SameAccess(s, acc, n, va, data) <==>
            if Walk(s.core.bus, priv, acc.load, s.core.satp, va) == NoAccess then Unnoticed(s.core, priv, acc, n, va, e)
            else !UserFetch(priv, acc, e.user)
                 && !(acc.load && !acc.write && PmpSplits(s.core.bus, priv, Target(LeafOf(e), va), n))
  {
    if Walk(s.core.bus, priv, acc.load, s.core.satp, va) == NoAccess {
      HitRefused(s, priv, acc, n, va, data, e);
    } else {
      HitFound(s, priv, acc, n, va, data, e);
    }
  }

  lemma HitFound(s: Cached, priv: int, acc: Access, n: nat, va: U64, data: nat, e: Entry)
    requires Shape(s.tlb) && EntryOk(s.core.bus, s.core.satp, e)
    requires HitOn(s, priv, acc, va, e) && Target(LeafOf(e), va) != 0
    requires Walk(s.core.bus, priv, acc.load, s.core.satp, va) != NoAccess
    ensures SameAccess(s, acc, n, va, data) <==>
            !UserFetch(priv, acc, e.user)
            && !(acc.load && !acc.write && PmpSplits(s.core.bus, priv, Target(LeafOf(e), va), n))
  {
    RefFinds(s.core, priv, acc, n, va, data, e);
    LookupIs(s, priv, acc, va, e);
    TlbGoesOn(s, priv, acc, n, va, data, e);
  }

  lemma HitRefused(s: Cached, priv: int, acc: Access, n: nat, va: U64, data: nat, e: Entry)
    requires Shape(s.tlb) && EntryOk(s.core.bus, s.core.satp, e)
    requires HitOn(s, priv, acc, va, e) && Target(LeafOf(e), va) != 0
    requires Walk(s.core.bus, priv, acc.load, s.core.satp, va) == NoAccess
    ensures SameAccess(s, acc, n, va, data) <==> Unnoticed(s.core, priv, acc, n, va, e)
  {
    RefRefused(s.core, priv, acc, n, va, data);
    LookupIs(s, priv, acc, va, e);
    if Lookup(s.core.bus, s.tlb, s.core.satp, s.core.mstatus, priv, acc, va).phys != 0 {
      TlbGoesOn(s, priv, acc, n, va, data, e);
    } else {
      TlbWalks(s, priv, acc, n, va, data, e);
      TakenBack(s.core, priv, acc, n, va, data, e);
    }
  }

  /** The walk after a hit whose PTE can be neither read nor written: the PTE needs no A/D update. */
  lemma TakenBack(c: Core, priv: int, acc: Access, n: nat, va: U64, data: nat, e: Entry)
    requires EntryOk(c.bus, c.satp, e) && priv < 3 && Usable(e, va, acc, priv, Sum(c.mstatus))
    requires Walk(c.bus, priv, acc.load, c.satp, va) == NoAccess && !WriteOk(c.bus, priv, e.pteAddr, 8)
    ensures var acc' := acc.(load := false);
            var tr := Translate(c.bus, priv, acc', c.satp, c.mstatus, va);
            Finish(c.bus, priv, acc', n, va, data, tr) == (c.bus, AccessFault)
            <==> (acc.load ==>
                    && Admits(LeafOf(e), acc', priv, c.mstatus)
                    && DataRefused(c.bus, priv, acc, n, Target(LeafOf(e), va)))
  {
    EveryAddress(c.bus, c.satp, e, va, priv, acc.load);
    if acc.load {
      assert UpdateAD(c.bus, e.pteAddr, acc.write) == c.bus;
      FinishOnLeaf(c, c.bus, priv, acc.(load := false), n, va, data, e);
    } else {
      assert acc.(load := false) == acc;
    }
  }

  /** A walk that finds the entry's leaf on a bus that needs no A/D update. */
  lemma FinishOnLeaf(c: Core, b: Bus, priv: int, acc: Access, n: nat, va: U64, data: nat, e: Entry)
    requires Walk(b, priv, acc.load, c.satp, va) == Found(LeafOf(e)) && e.size < 6
    requires CanUpdate(b, priv, e.pteAddr) && UpdateAD(b, e.pteAddr, acc.write) == b
    ensures Finish(b, priv, acc, n, va, data, Translate(b, priv, acc, c.satp, c.mstatus, va))
            == if Admits(LeafOf(e), acc, priv, c.mstatus) then Physical(b, priv, acc, n, Target(LeafOf(e), va), data)
               else (b, PageFault)
  {
  }

  /** What the third family can do to memory: a PTE in RAM that the hit may write but not read becomes invalid. */
  lemma BlindHitLosesPte(s: Cached, priv: int, acc: Access, va: U64, e: Entry)
    requires Shape(s.tlb) && EntryOk(s.core.bus, s.core.satp, e) && HitOn(s, priv, acc, va, e)
    requires !ReadOk(s.core.bus, priv, acc.load, e.pteAddr, 8) && WriteOk(s.core.bus, priv, e.pteAddr, 8)
    requires InRam(s.core.bus.mem, e.pteAddr) && InRam(s.core.bus.mem, e.pteAddr + 7)
    ensures var b := Lookup(s.core.bus, s.tlb, s.core.satp, s.core.mstatus, priv, acc, va).bus;
            PteAt(b, e.pteAddr) == (if acc.write then 0xC0 else 0x40) && Decode(PteAt(b, e.pteAddr)) == Bad
  {
    BlankWord(s.core.bus.mem, e.pteAddr, Blank(acc.write));
  }

  lemma BlankWord(m: Phys, a: int, v: Byte)
    requires InRam(m, a) && InRam(m, a + 7)
    ensures Get(Put(m, a, 8, v), a, 8) == v
  {
    GetPutSame(m, a, 8, v);
    PowMonotone(1, 8);
    assert Pow256(1) == 256;
  }

  // ---------- hits at physical address 0 ----------

  /** How the walk after a hit at address 0 ends: in an access fault, unless the leaf does not admit it. */
  function ZeroOutcome(c: Core, priv: int, acc: Access, va: U64, e: Entry): Outcome
  {
    if Walk(c.bus, priv, false, c.satp, va) == NoAccess || Admits(LeafOf(e), acc.(load := false), priv, c.mstatus)
    then AccessFault
    else PageFault
  }

  /** The walk on a bus on which all walks are as before and the A/D update has nothing to do. */
  lemma ZeroWalk(c: Core, b: Bus, priv: int, acc: Access, n: nat, va: U64, data: nat, e: Entry)
    requires EntryOk(c.bus, c.satp, e) && priv < 3 && SamePage(va, e.virtPage, e.size) && Target(LeafOf(e), va) == 0
    requires b.pmp == c.bus.pmp && |b.mem.ram| == |c.bus.mem.ram|
    requires Walk(b, priv, false, c.satp, va) == Walk(c.bus, priv, false, c.satp, va)
    requires CanUpdate(b, priv, e.pteAddr) && UpdateAD(b, e.pteAddr, acc.write) == b
    ensures var acc' := acc.(load := false);
            Finish(b, priv, acc', n, va, data, Translate(b, priv, acc', c.satp, c.mstatus, va))
            == (b, ZeroOutcome(c, priv, acc, va, e))
  {
    EveryAddress(c.bus, c.satp, e, va, priv, false);
    if Walk(b, priv, false, c.satp, va) != NoAccess {
      FinishOnLeaf(c, b, priv, acc.(load := false), n, va, data, e);
    }
  }

  /** A leaf PTE that has become invalid ends the walk. */
  lemma {:induction false} LostLeaf(rd: int -> PteRead, rd': int -> PteRead, va: nat, a: TableAddr, n: nat, pa: int)
    requires forall q :: q % 8 == 0 && q != pa ==> rd'(q) == rd(q)
    requires rd'(pa) == Pte(Bad)
    requires var w := WalkFrom(rd, va, a, n); w.Found? && w.leaf.pteAddr == pa
    ensures WalkFrom(rd', va, a, n) == NoPage
    decreases n
  {
    var q := PteAddr(a, va, n - 1);
    PteAddrAligned(a, va, n - 1);
    if q != pa {
      assert rd'(q) == rd(q);
      LostLeaf(rd, rd', va, rd(q).step.table, n - 1, pa);
    }
  }

  /** A walk that finds nothing leaves the bus as it is. */
  lemma FinishNothing(c: Core, b: Bus, priv: int, acc: Access, n: nat, va: U64, data: nat)
    requires Levels(c.satp) > 0 && !Walk(b, priv, acc.load, c.satp, va).Found?
    ensures Finish(b, priv, acc, n, va, data, Translate(b, priv, acc, c.satp, c.mstatus, va)).0 == b
  {
  }

  /** After a hit has made the PTE in RAM invalid, the walk that follows raises a fault and leaves it at that. */
  lemma ZeroAfterLoss(c: Core, priv: int, acc: Access, n: nat, va: U64, data: nat, e: Entry, v: Byte)
    requires EntryOk(c.bus, c.satp, e) && priv < 3 && SamePage(va, e.virtPage, e.size)
    requires Walk(c.bus, priv, acc.load, c.satp, va) == NoAccess && !ReadOk(c.bus, priv, acc.load, e.pteAddr, 8)
    requires InRam(c.bus.mem, e.pteAddr) && v % 2 == 0
    ensures var b := Store(c.bus, e.pteAddr, 8, v);
            var acc' := acc.(load := false);
            Finish(b, priv, acc', n, va, data, Translate(b, priv, acc', c.satp, c.mstatus, va)).0 == b
  {
    EveryAddress(c.bus, c.satp, e, va, priv, acc.load);
    if acc.load {
      WalkAfterLoss(c.bus, c.satp, priv, v, va, e);
    } else {
      WalkStillRefused(c.bus, c.satp, priv, v, va, e);
    }
    FinishNothing(c, Store(c.bus, e.pteAddr, 8, v), priv, acc.(load := false), n, va, data);
  }

  /** A store to the word at pa is seen by reads of that word only. */
  lemma OtherWords(b: Bus, priv: int, pa: int, v: nat, q: int)
    requires pa % 8 == 0 && q % 8 == 0 && q != pa
    ensures ReadPte(Store(b, pa, 8, v), priv, false, q) == ReadPte(b, priv, false, q)
  {
    GetPutDisjoint(b.mem, pa, 8, v, q, 8);
  }

  lemma WalkAfterLoss(b: Bus, satp: U64, priv: int, v: Byte, va: U64, e: Entry)
    requires Walk(b, priv, false, satp, va) == Found(LeafOf(e)) && InRam(b.mem, e.pteAddr) && v % 2 == 0
    ensures Walk(Store(b, e.pteAddr, 8, v), priv, false, satp, va) == NoPage
  {
    var rd, rd' := Reader(b, priv, false), Reader(Store(b, e.pteAddr, 8, v), priv, false);
    forall q | q % 8 == 0 && q != e.pteAddr
      ensures rd'(q) == rd(q)
    {
      OtherWords(b, priv, e.pteAddr, v, q);
    }
    BadWord(b, satp, priv, v, va, e);
    LostLeaf(rd, rd', va, Root(satp), Levels(satp), e.pteAddr);
  }

  lemma BadWord(b: Bus, satp: U64, priv: int, v: Byte, va: U64, e: Entry)
    requires Walk(b, priv, false, satp, va) == Found(LeafOf(e)) && InRam(b.mem, e.pteAddr) && v % 2 == 0
    ensures ReadPte(Store(b, e.pteAddr, 8, v), priv, false, e.pteAddr) == Pte(Bad)
  {
    FoundReadable(b, priv, false, satp, va);
    BlankIsBad(b, e.pteAddr, v);
  }

  lemma WalkStillRefused(b: Bus, satp: U64, priv: int, v: nat, va: U64, e: Entry)
    requires e.pteAddr % 8 == 0 && !ReadOk(b, priv, false, e.pteAddr, 8)
    ensures Walk(Store(b, e.pteAddr, 8, v), priv, false, satp, va) == Walk(b, priv, false, satp, va)
  {
    var b' := Store(b, e.pteAddr, 8, v);
    forall q | q % 8 == 0
      ensures Reader(b', priv, false)(q) == Reader(b, priv, false)(q)
    {
      if q != e.pteAddr {
        OtherWords(b, priv, e.pteAddr, v, q);
      }
    }
    SameReadsSameWalk(Reader(b, priv, false), Reader(b', priv, false), va, Root(satp), Levels(satp));
  }

  lemma BlankIsBad(b: Bus, pa: int, v: Byte)
    requires InRam(b.mem, pa) && v % 2 == 0
    ensures Decode(PteAt(Store(b, pa, 8, v), pa)) == Bad
  {
    var m := Put(b.mem, pa, 8, v);
    PutLow(b.mem, pa, v);
    LowByteOf(m, pa);
    Parity(Get(m, pa, 8));
  }

  lemma Parity(p: nat)
    ensures p % 2 == p % 256 % 2
  {
    DivModIs(p, 2, 128 * (p / 256) + p % 256 / 2, p % 256 % 2);
  }

  lemma PutLow(m: Phys, a: int, v: Byte)
    requires InRam(m, a)
    ensures InRam(Put(m, a, 8, v), a) && ByteAt(Put(m, a, 8, v), a) == v
  {
    PutBytesFrame(SetByte(m, a, v), a + 1, 7, 0);
  }

  /** What the machine with the TLB ends with after a hit at address 0. */
  function ZeroEnd(s: Cached, priv: int, acc: Access, n: nat, va: U64, data: nat): (Bus, Outcome)
    requires Shape(s.tlb)
  {
    var c := s.core;
    var k := Lookup(c.bus, s.tlb, c.satp, c.mstatus, priv, acc, va);
    var acc' := acc.(load := false);
    Finish(k.bus, priv, acc', n, va, data, Translate(k.bus, priv, acc', c.satp, c.mstatus, va))
  }

  lemma ZeroSeeing(s: Cached, priv: int, acc: Access, n: nat, va: U64, data: nat, e: Entry)
    requires Shape(s.tlb) && EntryOk(s.core.bus, s.core.satp, e)
    requires HitOn(s, priv, acc, va, e) && Target(LeafOf(e), va) == 0
    requires ReadOk(s.core.bus, priv, acc.load, e.pteAddr, 8)
    ensures ZeroEnd(s, priv, acc, n, va, data)
            == (UpdateAD(s.core.bus, e.pteAddr, acc.write), ZeroOutcome(s.core, priv, acc, va, e))
    ensures UpdateAD(s.core.bus, e.pteAddr, acc.write) == s.core.bus <==> PteKept(s.core.bus, priv, acc, e)
  {
    LookupSeeing(s, priv, acc, va, e);
    WalkAfterHit(s.core.bus, s.core.satp, priv, va, e, acc.write, false);
    ZeroWalk(s.core, UpdateAD(s.core.bus, e.pteAddr, acc.write), priv, acc, n, va, data, e);
  }

  /** A blind hit that changes nothing leaves no A/D update to make either. */
  lemma BlindKept(b: Bus, satp: U64, priv: int, acc: Access, va: U64, e: Entry)
    requires EntryOk(b, satp, e) && priv < 3 && SamePage(va, e.virtPage, e.size)
    requires !ReadOk(b, priv, acc.load, e.pteAddr, 8) && PteKept(b, priv, acc, e)
    ensures UpdateAD(b, e.pteAddr, acc.write) == b && CanUpdate(b, priv, e.pteAddr)
  {
    LeafWord(b, satp, priv, va, e);
    SetADSame(PteAt(b, e.pteAddr), acc.write);
    ADStoreKeeps(b, e.pteAddr, SetAD(PteAt(b, e.pteAddr), acc.write));
    if WriteOk(b, priv, e.pteAddr, 8) {
      BlankStore(b, e.pteAddr, acc.write);
    }
  }

  lemma ZeroBlindKept(s: Cached, priv: int, acc: Access, n: nat, va: U64, data: nat, e: Entry)
    requires Shape(s.tlb) && EntryOk(s.core.bus, s.core.satp, e)
    requires HitOn(s, priv, acc, va, e) && Target(LeafOf(e), va) == 0
    requires !ReadOk(s.core.bus, priv, acc.load, e.pteAddr, 8) && PteKept(s.core.bus, priv, acc, e)
    ensures ZeroEnd(s, priv, acc, n, va, data) == (s.core.bus, ZeroOutcome(s.core, priv, acc, va, e))
  {
    LookupBlind(s, priv, acc, va, e);
    BlindKept(s.core.bus, s.core.satp, priv, acc, va, e);
    ZeroWalk(s.core, s.core.bus, priv, acc, n, va, data, e);
  }

  lemma ZeroBlindLost(s: Cached, priv: int, acc: Access, n: nat, va: U64, data: nat, e: Entry)
    requires Shape(s.tlb) && EntryOk(s.core.bus, s.core.satp, e) && HitOn(s, priv, acc, va, e)
    requires !ReadOk(s.core.bus, priv, acc.load, e.pteAddr, 8)
    requires Walk(s.core.bus, priv, acc.load, s.core.satp, va) == NoAccess
    requires !PteKept(s.core.bus, priv, acc, e)
    ensures ZeroEnd(s, priv, acc, n, va, data).0 != s.core.bus
  {
    LookupBlind(s, priv, acc, va, e);
    LeafWord(s.core.bus, s.core.satp, priv, va, e);
    BlindPteKept(s.core.bus, priv, acc, e);
    ZeroLost(s, priv, acc, n, va, data, e, Blank(acc.write));
  }

  lemma ZeroLost(s: Cached, priv: int, acc: Access, n: nat, va: U64, data: nat, e: Entry, v: Byte)
    requires Shape(s.tlb) && EntryOk(s.core.bus, s.core.satp, e) && HitOn(s, priv, acc, va, e)
    requires !ReadOk(s.core.bus, priv, acc.load, e.pteAddr, 8)
    requires Walk(s.core.bus, priv, acc.load, s.core.satp, va) == NoAccess
    requires InRam(s.core.bus.mem, e.pteAddr) && v % 2 == 0
    requires Lookup(s.core.bus, s.tlb, s.core.satp, s.core.mstatus, priv, acc, va).bus
             == Store(s.core.bus, e.pteAddr, 8, v)
    ensures ZeroEnd(s, priv, acc, n, va, data).0 == Store(s.core.bus, e.pteAddr, 8, v)
  {
    ZeroAfterLoss(s.core, priv, acc, n, va, data, e, v);
  }

  lemma ZeroRefused(s: Cached, priv: int, acc: Access, n: nat, va: U64, data: nat, e: Entry)
    requires Shape(s.tlb) && EntryOk(s.core.bus, s.core.satp, e)
    requires HitOn(s, priv, acc, va, e) && Target(LeafOf(e), va) == 0
    requires Walk(s.core.bus, priv, acc.load, s.core.satp, va) == NoAccess
    ensures RefAccess(s.core, acc, n, va, data)
            == (s.core.(bus := ZeroEnd(s, priv, acc, n, va, data).0), ZeroEnd(s, priv, acc, n, va, data).1)
            <==> && PteKept(s.core.bus, priv, acc, e)
                 && (acc.load ==> ZeroOutcome(s.core, priv, acc, va, e) == AccessFault)
  {
    RefRefused(s.core, priv, acc, n, va, data);
    if ReadOk(s.core.bus, priv, acc.load, e.pteAddr, 8) {
      ZeroSeeing(s, priv, acc, n, va, data, e);
    } else if PteKept(s.core.bus, priv, acc, e) {
      ZeroBlindKept(s, priv, acc, n, va, data, e);
    } else {
      ZeroBlindLost(s, priv, acc, n, va, data, e);
    }
  }

  lemma ZeroFound(s: Cached, priv: int, acc: Access, n: nat, va: U64, data: nat, e: Entry)
    requires Shape(s.tlb) && EntryOk(s.core.bus, s.core.satp, e)
    requires HitOn(s, priv, acc, va, e) && Target(LeafOf(e), va) == 0
    requires Walk(s.core.bus, priv, acc.load, s.core.satp, va) != NoAccess
    ensures RefAccess(s.core, acc, n, va, data)
            == (s.core.(bus := ZeroEnd(s, priv, acc, n, va, data).0), ZeroEnd(s, priv, acc, n, va, data).1)
            <==> && (UserFetch(priv, acc, e.user) ==> PteKept(s.core.bus, priv, acc, e))
                 && (acc.load ==> ZeroOutcome(s.core, priv, acc, va, e) == AccessFault)
  {
    RefFinds(s.core, priv, acc, n, va, data, e);
    ZeroSeeing(s, priv, acc, n, va, data, e);
    UsableAdmits(s.core.satp, s.core.mstatus, priv, acc, va, e);
    assert acc.load || acc.(load := false) == acc;
  }

  /**
   A hit at physical address 0 is walked again, a load as a fetch. It behaves as the walk alone would
   except in exactly these cases: it has changed the PTE although the walk faults before that, or the load's
   leaf does not admit a fetch and PMP lets the second walk get there.
   */
  lemma HitAtZeroExact(s: Cached, priv: int, acc: Access, n: nat, va: U64, data: nat, e: Entry)
    requires Shape(s.tlb) && Coherent(s.core.bus, s.core.satp, s.tlb)
    requires HitOn(s, priv, acc, va, e) && Target(LeafOf(e), va) == 0
    ensures SameAccess(s, acc, n, va, data) <==>
            && (Walk(s.core.bus, priv, acc.load, s.core.satp, va) == NoAccess || UserFetch(priv, acc, e.user)
                ==> PteKept(s.core.bus, priv, acc, e))
            && (acc.load ==> ZeroOutcome(s.core, priv, acc, va, e) == AccessFault)
  {
    LookupIs(s, priv, acc, va, e);
    TlbWalks(s, priv, acc, n, va, data, e);
    if Walk(s.core.bus, priv, acc.load, s.core.satp, va) == NoAccess {
      ZeroRefused(s, priv, acc, n, va, data, e);
    } else {
      ZeroFound(s, priv, acc, n, va, data, e);
    }
  }

  // ---------- coherence of reachable states ----------

  ghost predicate StaleRun(c: Core, ops: seq<Op>, stale: bool)
    decreases |ops|
  {
    if ops == [] then stale else StaleRun(RefStep(c, ops[0]).0, ops[1..], StaleAfter(c, ops[0], stale))
  }

  lemma {:induction false} RunKeepsInv(s: Cached, ops: seq<Op>, stale: bool)
    requires Inv(s, stale) && LawfulRun(s.core, ops, stale)
    ensures Inv(TlbRun(s, ops).0, StaleRun(s.core, ops, stale))
    decreases |ops|
  {
    if ops != [] {
      StepTransparent(s, ops[0], stale);
      RunKeepsInv(TlbStep(s, ops[0]).0, ops[1..], StaleAfter(s.core, ops[0], stale));
    }
  }

  lemma ReachableCoherent(c: Core, ops: seq<Op>)
    requires Ready(c) && LawfulRun(c, ops, false) && !StaleRun(c, ops, false)
    ensures var s := TlbRun(Cached(c, Empty()), ops).0; Coherent(s.core.bus, s.core.satp, s.tlb)
  {
    RunKeepsInv(Cached(c, Empty()), ops, false);
  }

  /** A live entry of a coherent TLB, at any address of its page. */
  lemma LiveEntry(s: Cached, e: Entry, va: U64, priv: int, load: bool)
    requires Shape(s.tlb) && Coherent(s.core.bus, s.core.satp, s.tlb)
    requires e in s.tlb.slots && Live(e) && SamePage(va, e.virtPage, e.size) && priv < 3
    ensures var w, w' := Walk(s.core.bus, priv, load, s.core.satp, va), Walk(s.core.bus, priv, !load, s.core.satp, va);
            && (w == Found(LeafOf(e)) || (w == NoAccess && w' == Found(LeafOf(e))))
            && (Balanced(s.core.bus.pmp) ==> w == Found(LeafOf(e)))
  {
    EveryAddress(s.core.bus, s.core.satp, e, va, priv, load);
    if Balanced(s.core.bus.pmp) {
      LoadUniform(s.core.bus, priv, load, !load, s.core.satp, va);
    }
  }

  /**
   In every state a lawful run from reset reaches with the TLB current, each live entry gives, for every
   address of its page, the PTE address, level, frame, permissions and user bit that a walk of the
   memory of that moment gives; under a PMP that tells the two kinds of walk apart, one of them at least.
   */
  lemma ReachableCoherence(c: Core, ops: seq<Op>, e: Entry, va: U64, priv: int, load: bool)
    requires Ready(c) && LawfulRun(c, ops, false) && !StaleRun(c, ops, false)
    requires var s := TlbRun(Cached(c, Empty()), ops).0; e in s.tlb.slots && Live(e)
    requires SamePage(va, e.virtPage, e.size) && priv < 3
    ensures var s := TlbRun(Cached(c, Empty()), ops).0;
            var w, w' := Walk(s.core.bus, priv, load, s.core.satp, va), Walk(s.core.bus, priv, !load, s.core.satp, va);
            && (w == Found(LeafOf(e)) || (w == NoAccess && w' == Found(LeafOf(e))))
            && (Balanced(s.core.bus.pmp) ==> w == Found(LeafOf(e)))
  {
    ReachableCoherent(c, ops);
    LiveEntry(TlbRun(Cached(c, Empty()), ops).0, e, va, priv, load);
  }
}
