/** Runs on which the machine with the TLB and the one without differ, one for each family of TlbExact. */
module TlbWitness {
  import opened Base
  import opened PhysMem
  import opened Tlb
  import opened PageWalk
  import opened WalkTheorems
  import opened Mmu
  import opened Transparency
  import opened TlbExact
  import TlbTheorems
  import Pmp
  import PmpTheorems

  const LOAD := Access(false, true)
  const STORE := Access(true, false)

  // ---------- a TLB with one entry ----------

  lemma EmptyMisses(va: U64, acc: Access, priv: int, sum: bool)
    ensures Find(Empty(), va, acc, priv, sum, Empty().maxSize) == None
  {
    TlbTheorems.EmptyInv();
    TlbTheorems.SearchComplete(Empty(), va, acc, priv, sum);
  }

  lemma OnlyEntry(va: U64, l: Leaf, acc: Access, priv: int, sum: bool)
    requires l.level < 6 && Usable(EntryOf(l, va), va, acc, priv, sum)
    ensures var t := Add(Empty(), EntryOf(l, va)); Find(t, va, acc, priv, sum, t.maxSize) == Some(EntryOf(l, va))
  {
    var e := EntryOf(l, va);
    TlbTheorems.EmptyInv();
    BaseIsAligned(va, l.level);
    TlbTheorems.AddInv(Empty(), e);
    var t := Add(Empty(), e);
    TlbTheorems.SearchComplete(t, va, acc, priv, sum);
    assert t.slots[Hash(e.virtPage)] == e && Usable(e, va, acc, priv, sum);
    assert forall x :: x in t.slots ==> x == e || x == EMPTY_ENTRY;
  }

  /** The walk of a load or fetch succeeds and has no A/D bits to set. */
  predicate Settled(c: Core, acc: Access, va: U64, l: Leaf)
  {
    && 0 <= c.priv < 3 && Levels(c.satp) > 0 && !acc.write
    && Walk(c.bus, c.priv, acc.load, c.satp, va) == Found(l) && Admits(l, acc, c.priv, c.mstatus)
    && CanUpdate(c.bus, c.priv, l.pteAddr) && SetAD(PteAt(c.bus, l.pteAddr), false) == PteAt(c.bus, l.pteAddr)
  }

  lemma SettledKeeps(b: Bus, pa: int)
    requires SetAD(PteAt(b, pa), false) == PteAt(b, pa)
    ensures UpdateAD(b, pa, false) == b
  {
    PutGetSame(b.mem, pa, 8);
  }

  /** With an empty TLB both machines translate; one of them remembers. */
  lemma FirstAccess(c: Core, acc: Access, n: nat, va: U64, l: Leaf)
    requires Settled(c, acc, va, l)
    ensures RefAccess(c, acc, n, va, 0) == (c, Physical(c.bus, c.priv, acc, n, Target(l, va), 0).1)
    ensures TlbAccess(Cached(c, Empty()), acc, n, va, 0)
            == (Cached(c, Add(Empty(), EntryOf(l, va))), Physical(c.bus, c.priv, acc, n, Target(l, va), 0).1)
  {
    EmptyMisses(va, acc, c.priv, Sum(c.mstatus));
    SettledKeeps(c.bus, l.pteAddr);
    assert Translate(c.bus, c.priv, acc, c.satp, c.mstatus, va) == To(Target(l, va), c.bus, l);
    assert Lookup(c.bus, Empty(), c.satp, c.mstatus, c.priv, acc, va) == Looked(c.bus, 0, acc.load);
    assert acc.(load := acc.load) == acc;
  }

  /** The second access, of any kind, hits that entry, which is coherent. */
  lemma SecondHits(c: Core, acc: Access, va: U64, l: Leaf, acc': Access, priv: int)
    requires Settled(c, acc, va, l) && 0 <= priv < 3
    requires Permits(EntryOf(l, va), acc') && UserOk(EntryOf(l, va), priv, Sum(c.mstatus))
    ensures var s := Cached(c.(priv := priv), Add(Empty(), EntryOf(l, va)));
            EntryOk(s.core.bus, s.core.satp, EntryOf(l, va)) && HitOn(s, priv, acc', va, EntryOf(l, va))
  {
    BaseIsAligned(va, l.level);
    OnlyEntry(va, l, acc', priv, Sum(c.mstatus));
    SettledKeeps(c.bus, l.pteAddr);
    FilledEntryOk(c.bus, c.priv, acc, c.satp, c.mstatus, va);
  }

  // ---------- a fetch above U mode from a user page ----------

  /** In U mode, SUM set, va lies in an executable user page. */
  predicate InUserPage(c: Core, va: U64, l: Leaf)
  {
    && Settled(c, FETCH, va, l) && c.priv == 0 && Sum(c.mstatus) && l.user && l.perms.x
    && Target(l, va) != 0 && ReadOk(c.bus, 1, false, Target(l, va), 4)
  }

  lemma RefSupervisor(c: Core, va: U64, l: Leaf)
    requires InUserPage(c, va, l)
    ensures RefAccess(c.(priv := 1), FETCH, 4, va, 0).1 == PageFault
  {
    PrivUniform(c.bus, 0, 1, false, c.satp, va);
    assert Translate(c.bus, 1, FETCH, c.satp, c.mstatus, va) == Fault;
  }

  lemma TlbSupervisor(c: Core, va: U64, l: Leaf)
    requires InUserPage(c, va, l)
    ensures TlbAccess(Cached(c.(priv := 1), Add(Empty(), EntryOf(l, va))), FETCH, 4, va, 0).1.Done?
  {
    SecondHits(c, FETCH, va, l, FETCH, 1);
    FoundReadable(c.bus, 0, false, c.satp, va);
    HitOutcome(Cached(c.(priv := 1), Add(Empty(), EntryOf(l, va))), 1, FETCH, 4, va, 0, EntryOf(l, va));
  }

  /**
   A user-mode fetch, then the same fetch in S mode, which the machine with the TLB executes from the user
   page while the reference machine raises a page fault.
   */
  lemma SupervisorFetchDiffers(c: Core, va: U64, l: Leaf)
    requires InUserPage(c, va, l)
    ensures var f := MemOp(FETCH, 4, va, 0);
            var c2 := RefStep(RefStep(c, f).0, SetPriv(1)).0;
            var s2 := TlbStep(TlbStep(Cached(c, Empty()), f).0, SetPriv(1)).0;
            RefStep(c2, f).1 == PageFault && TlbStep(s2, f).1.Done?
  {
    FirstAccess(c, FETCH, 4, va, l);
    RefSupervisor(c, va, l);
    TlbSupervisor(c, va, l);
  }

  // ---------- page tables that PMP opens to loads only ----------

  /** In S mode, PMP grants R and W but not X on the leaf PTE and on the byte at va. */
  predicate InLoadOnlyTables(c: Core, va: U64, l: Leaf)
  {
    var pa, phys := l.pteAddr, Target(l, va);
    && Settled(c, LOAD, va, l) && c.priv == 1 && !l.user && l.perms.r && l.perms.w
    && Walk(c.bus, 1, false, c.satp, va) == NoAccess
    && !ReadOk(c.bus, 1, false, pa, 8) && WriteOk(c.bus, 1, pa, 8) && InRam(c.bus.mem, pa) && InRam(c.bus.mem, pa + 7)
    && phys != 0 && Apart(phys, 1, pa, 8)
    && ReadOk(c.bus, 1, true, phys, 1) && !ReadOk(c.bus, 1, false, phys, 1) && WriteOk(c.bus, 1, phys, 1)
  }

  /** Both kinds of second access hit the entry that the first load leaves. */
  lemma LoadOnlyHits(c: Core, va: U64, l: Leaf, acc: Access)
    requires InLoadOnlyTables(c, va, l) && (acc == LOAD || acc == STORE)
    ensures var s := Cached(c, Add(Empty(), EntryOf(l, va)));
            EntryOk(c.bus, c.satp, EntryOf(l, va)) && HitOn(s, 1, acc, va, EntryOf(l, va))
  {
    assert c.(priv := 1) == c;
    SecondHits(c, LOAD, va, l, acc, 1);
  }

  lemma StoreHit(c: Core, va: U64, l: Leaf, data: nat)
    requires InLoadOnlyTables(c, va, l)
    ensures RefAccess(c, STORE, 1, va, data) == (c, AccessFault)
    ensures TlbAccess(Cached(c, Add(Empty(), EntryOf(l, va))), STORE, 1, va, data).1.Done?
  {
    LoadOnlyHits(c, va, l, STORE);
    RefRefused(c, 1, STORE, 1, va, data);
    HitOutcome(Cached(c, Add(Empty(), EntryOf(l, va))), 1, STORE, 1, va, data, EntryOf(l, va));
  }

  lemma StoreLosesPte(s: Cached, c: Core, va: U64, l: Leaf, data: nat)
    requires InLoadOnlyTables(c, va, l) && s == Cached(c, Add(Empty(), EntryOf(l, va)))
    ensures PteAt(TlbAccess(s, STORE, 1, va, data).0.core.bus, l.pteAddr) == 0xC0
  {
    var e := EntryOf(l, va);
    LoadOnlyHits(c, va, l, STORE);
    LookupBlind(s, 1, STORE, va, e);
    BlindHitLosesPte(s, 1, STORE, va, e);
    TlbGoesOn(s, 1, STORE, 1, va, data, e);
    DataElsewhere(Lookup(c.bus, s.tlb, c.satp, c.mstatus, 1, STORE, va).bus, 1, STORE, 1, Target(l, va), data,
                  l.pteAddr);
  }

  lemma DataElsewhere(b: Bus, priv: int, acc: Access, n: nat, a: int, data: nat, pa: int)
    requires Apart(a, n, pa, 8)
    ensures PteAt(Physical(b, priv, acc, n, a, data).0, pa) == PteAt(b, pa)
  {
    GetPutDisjoint(b.mem, a, n, data, pa, 8);
  }

  /**
   A load, then a store of one byte to the same page. The reference machine ends in an access fault; the
   machine with the TLB stores, and on the way overwrites the PTE.
   */
  lemma LoadThenStore(c: Core, va: U64, l: Leaf, data: nat)
    requires InLoadOnlyTables(c, va, l)
    ensures var ld, st := MemOp(LOAD, 1, va, 0), MemOp(STORE, 1, va, data);
            var (s', out) := TlbStep(TlbStep(Cached(c, Empty()), ld).0, st);
            && RefStep(RefStep(c, ld).0, st) == (c, AccessFault)
            && out.Done? && PteAt(s'.core.bus, l.pteAddr) == 0xC0
  {
    FirstAccess(c, LOAD, 1, va, l);
    StoreHit(c, va, l, data);
    StoreLosesPte(Cached(c, Add(Empty(), EntryOf(l, va))), c, va, l, data);
  }

  lemma LoadHit(c: Core, va: U64, l: Leaf)
    requires InLoadOnlyTables(c, va, l)
    ensures TlbAccess(Cached(c, Add(Empty(), EntryOf(l, va))), LOAD, 1, va, 0).1 == AccessFault
  {
    LoadOnlyHits(c, va, l, LOAD);
    HitOutcome(Cached(c, Add(Empty(), EntryOf(l, va))), 1, LOAD, 1, va, 0, EntryOf(l, va));
  }

  /** The same load twice: the machine with the TLB checks the second as a fetch and refuses it. */
  lemma LoadTwice(c: Core, va: U64, l: Leaf)
    requires InLoadOnlyTables(c, va, l)
    ensures var ld := MemOp(LOAD, 1, va, 0);
            && RefStep(RefStep(c, ld).0, ld).1.Done?
            && TlbStep(TlbStep(Cached(c, Empty()), ld).0, ld).1 == AccessFault
  {
    FirstAccess(c, LOAD, 1, va, l);
    LoadHit(c, va, l);
  }

  // ---------- a load at physical address 0 ----------

  /** In S mode, va translates to address 0, by a leaf that both kinds of walk find and that admits no fetch. */
  predicate InZeroPage(c: Core, va: U64, l: Leaf)
  {
    && Settled(c, LOAD, va, l) && c.priv == 1 && Target(l, va) == 0
    && !l.user && l.perms.r && !l.perms.x && !Mxr(c.mstatus)
    && Walk(c.bus, 1, false, c.satp, va) == Found(l)
  }

  lemma ZeroHit(s: Cached, c: Core, va: U64, l: Leaf)
    requires InZeroPage(c, va, l) && s == Cached(c, Add(Empty(), EntryOf(l, va)))
    ensures TlbAccess(s, LOAD, 1, va, 0).1 == PageFault
  {
    var e := EntryOf(l, va);
    assert c.(priv := 1) == c;
    SecondHits(c, LOAD, va, l, LOAD, 1);
    FoundReadable(c.bus, 1, true, c.satp, va);
    LookupSeeing(s, 1, LOAD, va, e);
    TlbWalks(s, 1, LOAD, 1, va, 0, e);
    ZeroSeeing(s, 1, LOAD, 1, va, 0, e);
  }

  /** The same load twice: an access fault both times, but for the machine with the TLB a page fault the second. */
  lemma ZeroTwice(c: Core, va: U64, l: Leaf)
    requires InZeroPage(c, va, l)
    ensures var ld := MemOp(LOAD, 1, va, 0);
            && RefStep(RefStep(c, ld).0, ld).1 == AccessFault
            && TlbStep(TlbStep(Cached(c, Empty()), ld).0, ld).1 == PageFault
  {
    FirstAccess(c, LOAD, 1, va, l);
    ZeroHit(Cached(c, Add(Empty(), EntryOf(l, va))), c, va, l);
  }

  // ---------- the walk of an LR in M mode ----------

  /** M mode reads a leaf PTE that PMP lets S mode write but not read; S mode may also write the byte at va. */
  predicate InMachineTables(c: Core, va: U64, l: Leaf)
  {
    var pa, phys := l.pteAddr, Target(l, va);
    && c.priv == 3 && Levels(c.satp) > 0
    && Walk(c.bus, 3, true, c.satp, va) == Found(l) && Admits(l, LOAD, 3, c.mstatus) && CanUpdate(c.bus, 3, pa)
    && SetAD(PteAt(c.bus, pa), false) == PteAt(c.bus, pa) && !l.user && l.perms.w
    && Walk(c.bus, 1, true, c.satp, va) == Walk(c.bus, 1, false, c.satp, va) == NoAccess
    && !ReadOk(c.bus, 1, false, pa, 8) && WriteOk(c.bus, 1, pa, 8) && phys != 0 && WriteOk(c.bus, 1, phys, 1)
  }

  lemma MachineWalk(c: Core, va: U64, l: Leaf)
    requires InMachineTables(c, va, l)
    ensures RefWalk(c, LOAD, va) == (c, Done(Target(l, va)))
    ensures WalkFor(Cached(c, Empty()), LOAD, va) == (Cached(c, Add(Empty(), EntryOf(l, va))), Done(Target(l, va)))
  {
    SettledKeeps(c.bus, l.pteAddr);
  }

  lemma MachineEntryHit(c: Core, va: U64, l: Leaf, data: nat)
    requires InMachineTables(c, va, l)
    ensures TlbAccess(Cached(c.(priv := 1), Add(Empty(), EntryOf(l, va))), STORE, 1, va, data).1.Done?
  {
    var e, s := EntryOf(l, va), Cached(c.(priv := 1), Add(Empty(), EntryOf(l, va)));
    BaseIsAligned(va, l.level);
    OnlyEntry(va, l, STORE, 1, Sum(c.mstatus));
    BlindHit(c.bus, 1, STORE, va, e);
    assert Lookup(c.bus, s.tlb, c.satp, c.mstatus, 1, STORE, va) == Hit(c.bus, 1, STORE, va, e);
  }

  lemma LowerRefused(c: Core, va: U64, l: Leaf, data: nat)
    requires InMachineTables(c, va, l)
    ensures RefStep(RefStep(c, SetPriv(1)).0, MemOp(STORE, 1, va, data)).1 == AccessFault
  {
    RefRefused(c.(priv := 1), 1, STORE, 1, va, data);
    assert RefStep(c, SetPriv(1)).0 == c.(priv := 1);
  }

  lemma Lowered(s: Cached)
    requires Shape(s.tlb)
    ensures TlbStep(s, SetPriv(1)).0 == Cached(s.core.(priv := 1), s.tlb)
  {
  }

  lemma LowerStores(c: Core, va: U64, l: Leaf, data: nat, s: Cached)
    requires InMachineTables(c, va, l) && s == Cached(c, Add(Empty(), EntryOf(l, va)))
    ensures TlbStep(TlbStep(s, SetPriv(1)).0, MemOp(STORE, 1, va, data)).1.Done?
  {
    MachineEntryHit(c, va, l, data);
    Lowered(s);
  }

  lemma NotFoundBelow(c: Core, va: U64, l: Leaf)
    requires InMachineTables(c, va, l)
    ensures !FoundBelow(c.bus, c.satp, va, l)
  {
    PrivUniform(c.bus, 1, 0, true, c.satp, va);
    PrivUniform(c.bus, 1, 0, false, c.satp, va);
  }

  lemma MachineOverReaches(c: Core, va: U64, l: Leaf)
    requires InMachineTables(c, va, l)
    ensures OverReaches(c, LOAD, va)
  {
    NotFoundBelow(c, va, l);
  }

  /**
   An LR's walk in M mode, then a store in S mode. PMP refuses S mode the page table, so the reference machine
   ends in an access fault; the machine with the TLB stores by the entry that M mode left.
   */
  lemma MachineWalkDiffers(c: Core, va: U64, l: Leaf, data: nat)
    requires InMachineTables(c, va, l)
    ensures var lr, st := WalkOp(LOAD, va), MemOp(STORE, 1, va, data);
            var c2 := RefStep(RefStep(c, lr).0, SetPriv(1)).0;
            var s2 := TlbStep(TlbStep(Cached(c, Empty()), lr).0, SetPriv(1)).0;
            RefStep(c2, st).1 == AccessFault && TlbStep(s2, st).1.Done?
    ensures OverReaches(c, LOAD, va)
  {
    MachineWalk(c, va, l);
    LowerRefused(c, va, l, data);
    LowerStores(c, va, l, data, TlbStep(Cached(c, Empty()), WalkOp(LOAD, va)).0);
    MachineOverReaches(c, va, l);
  }

  // ---------- such states exist ----------

  /**
   8 bytes of RAM: the Sv39 root PTE for the gigapage at 0, with frame 0 and the given low byte. One PMP
   verdict for all of memory below M mode.
   */
  function OnePage(pte: Byte, lxwr: bv8, priv: nat, mstatus: bv64): Core
  {
    Core(Bus(Phys([pte, 0, 0, 0, 0, 0, 0, 0], _ => 0),
             Pmp.Table(seq(16, _ => Pmp.Region(true, false, 0, ALL_ONES, lxwr)), false, 0, 0)),
         0x8000_0000_0008_0000, priv, mstatus)
  }

  lemma {:induction false} ZeroTail(m: Phys, a: int, n: nat)
    requires forall b :: a <= b < a + n ==> ByteAt(m, b) == 0
    ensures Bytes(m, a, n) == 0
    decreases n
  {
    if n > 0 {
      ZeroTail(m, a + 1, n - 1);
    }
  }

  lemma OnePagePte(m: Phys, pte: Byte)
    requires m.ram == [pte, 0, 0, 0, 0, 0, 0, 0]
    ensures Get(m, 0x8000_0000, 8) == pte
  {
    ZeroTail(m, 0x8000_0001, 7);
  }

  lemma OneVerdict(t: Pmp.Table, lxwr: bv8, l: int, h: int)
    requires t.regions == seq(16, _ => Pmp.Region(true, false, 0, ALL_ONES, lxwr)) && !t.allEnabled
    requires 0 <= l <= h < ALL_ONES
    ensures Pmp.Verdict(t, false, l, h) == lxwr
  {
    assert t.regions[0] == Pmp.Region(true, false, 0, ALL_ONES, lxwr);
  }

  lemma OneRight(b: Bus, lxwr: bv8, priv: int, a: int, n: nat)
    requires b.pmp.regions == seq(16, _ => Pmp.Region(true, false, 0, ALL_ONES, lxwr)) && !b.pmp.allEnabled
    requires InRange(b, a) && a + n < ALL_ONES && n > 0 && 0 <= priv < 3 && lxwr <= 7
    ensures ReadOk(b, priv, true, a, n) <==> lxwr & Pmp.R != 0
    ensures ReadOk(b, priv, false, a, n) <==> lxwr & Pmp.X != 0
    ensures WriteOk(b, priv, a, n) <==> lxwr & Pmp.W != 0
  {
    OneVerdict(b.pmp, lxwr, a, if n == 1 then a else a + n - 1);
  }

  /** The root PTE at address 0x8000'0000 is the leaf of every address in the first gigabyte. */
  lemma RootLeaf(b: Bus, priv: int, load: bool, satp: U64, va: U64, l: Leaf)
    requires satp == 0x8000_0000_0008_0000 && (va == 0 || va == 0x1000)
    requires l.pteAddr == 0x8000_0000 && l.level == 2
    requires Decode(PteAt(b, 0x8000_0000)) == Final(l.frame, l.perms, l.user)
    ensures Levels(satp) == 3
    ensures Walk(b, priv, load, satp, va) == if ReadOk(b, priv, load, 0x8000_0000, 8) then Found(l) else NoAccess
  {
    RootSlot(satp, va);
  }

  lemma RootSlot(satp: U64, va: U64)
    requires satp == 0x8000_0000_0008_0000 && (va == 0 || va == 0x1000)
    ensures Levels(satp) == 3 && PteAddr(Root(satp), va, 2) == 0x8000_0000
  {
  }

  /** V, R, W, A and D are set in all three PTEs. */
  lemma PteByte(pte: int, perms: Perms, user: bool)
    requires (pte == 0xDF && perms == Perms(true, true, true) && user)
          || (pte == 0xCF && perms == Perms(true, true, true) && !user)
          || (pte == 0xC7 && perms == Perms(true, true, false) && !user)
    ensures Decode(pte) == Final(0, perms, user) && SetAD(pte, false) == pte
  {
  }

  lemma OnePageSettled(c: Core, acc: Access, va: U64, l: Leaf, pte: Byte, lxwr: bv8)
    requires c == OnePage(pte, lxwr, c.priv, c.mstatus) && 0 <= c.priv < 3 && (va == 0 || va == 0x1000) && !acc.write
    requires l == Leaf(0x8000_0000, 2, 0, l.perms, l.user) && Admits(l, acc, c.priv, c.mstatus)
    requires Decode(pte) == Final(0, l.perms, l.user) && SetAD(pte, false) == pte
    requires lxwr <= 7 && lxwr & Pmp.W != 0 && lxwr & (if acc.load then Pmp.R else Pmp.X) != 0
    ensures Settled(c, acc, va, l)
    ensures Walk(c.bus, c.priv, !acc.load, c.satp, va)
            == if lxwr & (if acc.load then Pmp.X else Pmp.R) != 0 then Found(l) else NoAccess
  {
    OnePagePte(c.bus.mem, pte);
    OneRight(c.bus, lxwr, c.priv, 0x8000_0000, 8);
    RootLeaf(c.bus, c.priv, acc.load, c.satp, va, l);
    RootLeaf(c.bus, c.priv, !acc.load, c.satp, va, l);
  }

  lemma FirstTarget(l: Leaf, va: U64)
    requires l.level == 2 && l.frame == 0 && (va == 0 || va == 0x1000)
    ensures Target(l, va) == va && l.frame % PageSize(l.level) == 0
  {
    assert PageSize(2) == 0x4000_0000;
  }

  lemma UserPagesExist()
    ensures exists c, va, l :: InUserPage(c, va, l)
  {
    var c, va, l := OnePage(0xDF, 7, 0, SUM_BIT), 0x1000, Leaf(0x8000_0000, 2, 0, Perms(true, true, true), true);
    PteByte(0xDF, l.perms, l.user);
    FirstTarget(l, va);
    SumSet(c.mstatus);
    OnePageSettled(c, FETCH, va, l, 0xDF, 7);
    OneRight(c.bus, 7, 1, 0x1000, 4);
    assert InUserPage(c, va, l);
  }

  lemma SumSet(mstatus: bv64)
    requires mstatus == SUM_BIT
    ensures Sum(mstatus)
  {
  }

  lemma LoadOnlyTablesExist()
    ensures exists c, va, l :: InLoadOnlyTables(c, va, l)
  {
    var c, va, l := OnePage(0xCF, 3, 1, 0), 0x1000, Leaf(0x8000_0000, 2, 0, Perms(true, true, true), false);
    PteByte(0xCF, l.perms, l.user);
    FirstTarget(l, va);
    OnePageSettled(c, LOAD, va, l, 0xCF, 3);
    OneRight(c.bus, 3, 1, 0x1000, 1);
    OneRight(c.bus, 3, 1, 0x8000_0000, 8);
    assert InLoadOnlyTables(c, va, l);
  }

  /** PMP lets M mode read the root PTE, and S mode write it but not read it. */
  lemma MachineOnlyWalks(c: Core, l: Leaf)
    requires c == OnePage(0xCF, 2, 3, 0) && l == Leaf(0x8000_0000, 2, 0, Perms(true, true, true), false)
    requires Decode(PteAt(c.bus, 0x8000_0000)) == Final(l.frame, l.perms, l.user)
    ensures Walk(c.bus, 3, true, c.satp, 0x1000) == Found(l) && Levels(c.satp) > 0
    ensures Walk(c.bus, 1, true, c.satp, 0x1000) == Walk(c.bus, 1, false, c.satp, 0x1000) == NoAccess
    ensures WriteOk(c.bus, 3, 0x8000_0000, 8) && ReadOk(c.bus, 3, true, 0x8000_0000, 8)
    ensures !ReadOk(c.bus, 1, false, 0x8000_0000, 8) && WriteOk(c.bus, 1, 0x8000_0000, 8)
  {
    MachineMayAll(c.bus, 0x8000_0000);
    OneRight(c.bus, 2, 1, 0x8000_0000, 8);
    RootLeaf(c.bus, 3, true, c.satp, 0x1000, l);
    RootLeaf(c.bus, 1, true, c.satp, 0x1000, l);
    RootLeaf(c.bus, 1, false, c.satp, 0x1000, l);
  }

  lemma MachineTablesExist()
    ensures exists c, va, l :: InMachineTables(c, va, l)
  {
    var c, va, l := OnePage(0xCF, 2, 3, 0), 0x1000, Leaf(0x8000_0000, 2, 0, Perms(true, true, true), false);
    PteByte(0xCF, l.perms, l.user);
    FirstTarget(l, va);
    OnePagePte(c.bus.mem, 0xCF);
    MachineOnlyWalks(c, l);
    OneRight(c.bus, 2, 1, 0x1000, 1);
    assert InMachineTables(c, va, l);
  }

  /** Unlocked entries do not bind M mode. */
  lemma MachineMayAll(b: Bus, a: int)
    requires b.pmp.regions == seq(16, _ => Pmp.Region(true, false, 0, ALL_ONES, 2)) && InRange(b, a)
    requires !b.pmp.allEnabled
    ensures ReadOk(b, 3, true, a, 8) && WriteOk(b, 3, a, 8)
  {
    PmpTheorems.OffScan(b.pmp.regions, true, a, a + 7, 0);
    assert Pmp.NO_MATCH & Pmp.R != 0 && Pmp.NO_MATCH & Pmp.W != 0;
  }

  lemma ZeroPagesExist()
    ensures exists c, va, l :: InZeroPage(c, va, l)
  {
    var c, va, l := OnePage(0xC7, 7, 1, 0), 0, Leaf(0x8000_0000, 2, 0, Perms(true, true, false), false);
    PteByte(0xC7, l.perms, l.user);
    FirstTarget(l, va);
    OnePageSettled(c, LOAD, va, l, 0xC7, 7);
    assert InZeroPage(c, va, l);
  }
}
