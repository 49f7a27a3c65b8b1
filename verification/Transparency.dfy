/** The TLB is invisible: coherence is kept by every step, and both machines observe the same run. */
module Transparency {
  import opened Base
  import opened Tlb
  import opened PageWalk
  import opened WalkTheorems
  import opened Mmu

  // ---------- coherence ----------

  function LeafOf(e: Entry): Leaf
  {
    Leaf(e.pteAddr, e.size, e.phyPage, e.perms, e.user)
  }

  /**
   The entry repeats what a walk of current memory finds for its page, be it the walk of a load or that of a
   store or fetch: the two read PTEs under different PMP rights.
   */
  ghost predicate EntryOk(b: Bus, satp: U64, e: Entry)
  {
    && e.virtPage % PageSize(e.size) == 0
    && e.pteAddr % 8 == 0 && e.size < 6
    && e.phyPage % PageSize(e.size) == 0
    && (|| Walk(b, 0, true, satp, e.virtPage) == Found(LeafOf(e))
        || Walk(b, 0, false, satp, e.virtPage) == Found(LeafOf(e)))
    && CanUpdate(b, 0, e.pteAddr)
  }

  ghost predicate Coherent(b: Bus, satp: U64, t: Cache)
    requires Shape(t)
  {
    forall e :: e in t.slots && Live(e) ==> EntryOk(b, satp, e)
  }

  /**
   Coherence at the representative address of an entry is coherence at every address of its page: a walk
   finds the entry's leaf, unless PMP refuses it a PTE that it grants to the other kind of walk.
   */
  lemma EveryAddress(b: Bus, satp: U64, e: Entry, va: nat, priv: int, load: bool)
    requires EntryOk(b, satp, e) && SamePage(va, e.virtPage, e.size) && priv < 3
    ensures || Walk(b, priv, load, satp, va) == Found(LeafOf(e))
            || (Walk(b, priv, load, satp, va) == NoAccess && Walk(b, priv, !load, satp, va) == Found(LeafOf(e)))
    ensures CanUpdate(b, priv, e.pteAddr)
  {
    var k := Walk(b, 0, true, satp, e.virtPage) == Found(LeafOf(e));
    SamePageSameLeaf(b, 0, k, satp, e.virtPage, va);
    PrivUniform(b, 0, priv, k, satp, va);
    OtherKind(b, priv, k, !k, satp, va);
  }

  // ---------- what keeps an entry coherent ----------

  lemma EntryOkAD(b: Bus, satp: U64, e: Entry, pa: int, write: bool)
    requires EntryOk(b, satp, e) && pa % 8 == 0
    ensures EntryOk(UpdateAD(b, pa, write), satp, e)
  {
    ADFrame(b, pa, write, 0, true, satp, e.virtPage);
    ADFrame(b, pa, write, 0, false, satp, e.virtPage);
    UpdateADWord(b, pa, write, e.pteAddr);
  }

  /** No walk of any address reads a word that overlaps [c, c + k). */
  ghost predicate OffTables(b: Bus, satp: U64, c: int, k: nat)
  {
    forall va: U64 :: Avoids(b, satp, va, c, k)
  }

  lemma EntryOkStore(b: Bus, satp: U64, e: Entry, c: int, k: nat, v: nat)
    requires EntryOk(b, satp, e) && OffTables(b, satp, c, k)
    ensures EntryOk(Store(b, c, k, v), satp, e)
  {
    assert Avoids(b, satp, e.virtPage, c, k);
    StoreFrame(b, 0, true, satp, e.virtPage, c, k, v);
    StoreFrame(b, 0, false, satp, e.virtPage, c, k, v);
  }

  /** The entry a successful walk inserts is coherent with memory as the walk leaves it. */
  lemma FilledEntryOk(b: Bus, priv: int, acc: Access, satp: U64, mstatus: bv64, va: U64)
    requires priv < 3 && Translate(b, priv, acc, satp, mstatus, va).To?
    ensures var t := Translate(b, priv, acc, satp, mstatus, va); EntryOk(t.bus, satp, EntryOf(t.leaf, va))
  {
    var l := Walk(b, priv, acc.load, satp, va).leaf;
    var e := EntryOf(l, va);
    BaseIsAligned(va, l.level);
    SamePageSameLeaf(b, priv, acc.load, satp, va, e.virtPage);
    PrivUniform(b, priv, 0, acc.load, satp, e.virtPage);
    assert EntryOk(b, satp, e);
    EntryOkAD(b, satp, e, l.pteAddr, acc.write);
  }

  lemma CoherentAD(b: Bus, satp: U64, t: Cache, pa: int, write: bool)
    requires Shape(t) && Coherent(b, satp, t) && pa % 8 == 0
    ensures Coherent(UpdateAD(b, pa, write), satp, t)
  {
    forall e | e in t.slots && Live(e)
      ensures EntryOk(UpdateAD(b, pa, write), satp, e)
    {
      EntryOkAD(b, satp, e, pa, write);
    }
  }

  lemma CoherentStore(b: Bus, satp: U64, t: Cache, c: int, k: nat, v: nat)
    requires Shape(t) && Coherent(b, satp, t) && OffTables(b, satp, c, k)
    ensures Coherent(Store(b, c, k, v), satp, t)
  {
    forall e | e in t.slots && Live(e)
      ensures EntryOk(Store(b, c, k, v), satp, e)
    {
      EntryOkStore(b, satp, e, c, k, v);
    }
  }

  /** Insertion, whatever it evicts. */
  lemma CoherentAdd(b: Bus, satp: U64, t: Cache, e: Entry)
    requires Shape(t) && Coherent(b, satp, t) && e.size < 6 && EntryOk(b, satp, e)
    ensures Coherent(b, satp, Add(t, e))
  {
    forall x | x in Add(t, e).slots && Live(x)
      ensures EntryOk(b, satp, x)
    {
      assert x == e || x in t.slots;
    }
  }

  // ---------- a hit is right ----------

  /** A hit whose walk PMP lets through finds its translation and makes its A/D update. */
  lemma HitIsWalk(b: Bus, satp: U64, priv: int, acc: Access, va: U64, e: Entry)
    requires EntryOk(b, satp, e) && SamePage(va, e.virtPage, e.size) && priv < 3
    requires Walk(b, priv, acc.load, satp, va) != NoAccess
    ensures Walk(b, priv, acc.load, satp, va) == Found(LeafOf(e))
    ensures CanUpdate(b, priv, e.pteAddr)
    ensures Hit(b, priv, acc, va, e) == Looked(UpdateAD(b, e.pteAddr, acc.write), Target(LeafOf(e), va), false)
  {
    EveryAddress(b, satp, e, va, priv, acc.load);
    FoundReadable(b, priv, acc.load, satp, va);
  }

  /** The one access a hit allows and a walk refuses: a fetch above U mode from a user page. */
  predicate UserFetch(priv: int, acc: Access, user: bool)
  {
    !acc.load && !acc.write && priv >= 1 && user
  }

  lemma UsableAdmits(satp: U64, mstatus: bv64, priv: int, acc: Access, va: U64, e: Entry)
    requires Usable(e, va, acc, priv, Sum(mstatus)) && e.phyPage % PageSize(e.size) == 0
    ensures Admits(LeafOf(e), acc, priv, mstatus) <==> !UserFetch(priv, acc, e.user)
  {
  }

  // ---------- one access ----------

  /** PMP tells a read of the n bytes at a from a fetch of them. */
  predicate PmpSplits(b: Bus, priv: int, a: int, n: nat)
  {
    ReadOk(b, priv, true, a, n) != ReadOk(b, priv, false, a, n)
  }

  /**
   What an access below M mode must not be, in terms of the reference machine: a fetch above U mode from a
   user page, a load at physical address 0, a load from memory that PMP opens to only one of reads and
   fetches, or an access to a page whose PTEs PMP opens only to the other kind of walk.
   */
  predicate Benign(c: Core, priv: int, acc: Access, n: nat, va: nat)
  {
    && (var w := Walk(c.bus, priv, acc.load, c.satp, va);
        && (w.Found? && Sum(c.mstatus) ==> !UserFetch(priv, acc, w.leaf.user))
        && (w == NoAccess ==> !Walk(c.bus, priv, !acc.load, c.satp, va).Found?))
    && (var t := Translate(c.bus, priv, acc, c.satp, c.mstatus, va);
        t.To? && acc.load && !acc.write ==> t.phys != 0 && !PmpSplits(c.bus, priv, t.phys, n))
  }

  /** Where the data access happens and on which bus, if translation gets that far. */
  function DataAt(c: Core, acc: Access, va: nat): Option<(Bus, nat)>
  {
    match Effective(c, acc)
    case None => Some((c.bus, va))
    case Some(p) =>
      match Translate(c.bus, p, acc, c.satp, c.mstatus, va)
      case Denied => None
      case Fault => None
      case Bare => Some((c.bus, va))
      case To(phys, b, _) => Some((b, phys))
  }

  /** A store that overlaps no page-table word, or no store at all. */
  ghost predicate SparesTables(c: Core, acc: Access, n: nat, va: nat)
  {
    var d := DataAt(c, acc, va);
    acc.write && d.Some? ==> OffTables(d.value.0, c.satp, d.value.1, n)
  }

  predicate Ready(c: Core)
  {
    0 <= c.priv <= 3
  }

  ghost predicate Good(s: Cached)
  {
    Ready(s.core) && Shape(s.tlb) && Coherent(s.core.bus, s.core.satp, s.tlb)
  }

  /** Both machines end an access alike. */
  ghost predicate SameAccess(s: Cached, acc: Access, n: nat, va: U64, data: nat)
    requires Shape(s.tlb)
  {
    var (s', out) := TlbAccess(s, acc, n, va, data);
    RefAccess(s.core, acc, n, va, data) == (s'.core, out)
  }

  /** Coherence survives unless the access overwrites page tables. */
  ghost predicate StaysGood(s: Cached, acc: Access, n: nat, va: U64, data: nat)
    requires Shape(s.tlb)
  {
    SparesTables(s.core, acc, n, va) ==> Good(TlbAccess(s, acc, n, va, data).0)
  }

  lemma PhysicalCoherent(b: Bus, satp: U64, t: Cache, priv: int, acc: Access, n: nat, a: int, data: nat)
    requires Shape(t) && Coherent(b, satp, t) && (acc.write ==> OffTables(b, satp, a, n))
    ensures Coherent(Physical(b, priv, acc, n, a, data).0, satp, t)
  {
    if acc.write {
      CoherentStore(b, satp, t, a, n, data);
    }
  }

  /** Translation off: both machines access the virtual address as it is. */
  lemma BareAccess(s: Cached, acc: Access, n: nat, va: U64, data: nat)
    requires Good(s) && (Effective(s.core, acc).None? || s.core.satp == 0)
    ensures SameAccess(s, acc, n, va, data) && StaysGood(s, acc, n, va, data)
  {
    if SparesTables(s.core, acc, n, va) {
      var p := match Effective(s.core, acc) case None => s.core.priv case Some(p) => p;
      PhysicalCoherent(s.core.bus, s.core.satp, s.tlb, p, acc, n, va, data);
    }
  }

  /** A walk below M mode, of whatever kind, finds this leaf and may update its PTE. */
  predicate FoundBelow(b: Bus, satp: U64, va: nat, l: Leaf)
  {
    && (Walk(b, 0, true, satp, va) == Found(l) || Walk(b, 0, false, satp, va) == Found(l))
    && CanUpdate(b, 0, l.pteAddr)
  }

  /**
   The entry that a walk with the rights of M mode inserts is coherent exactly when some walk below M mode
   would have led there too.
   */
  lemma FilledExact(b: Bus, priv: int, acc: Access, satp: U64, mstatus: bv64, va: U64)
    requires Translate(b, priv, acc, satp, mstatus, va).To?
    ensures var t := Translate(b, priv, acc, satp, mstatus, va);
            EntryOk(t.bus, satp, EntryOf(t.leaf, va)) <==> FoundBelow(b, satp, va, t.leaf)
  {
    var t := Translate(b, priv, acc, satp, mstatus, va);
    var l := t.leaf;
    var e := EntryOf(l, va);
    BaseIsAligned(va, l.level);
    UpdateADWord(b, l.pteAddr, acc.write, l.pteAddr);
    FoundAtBase(b, satp, va, l, true);
    FoundAtBase(b, satp, va, l, false);
    ADFrame(b, l.pteAddr, acc.write, 0, true, satp, e.virtPage);
    ADFrame(b, l.pteAddr, acc.write, 0, false, satp, e.virtPage);
  }

  lemma FoundAtBase(b: Bus, satp: U64, va: U64, l: Leaf, load: bool)
    ensures Walk(b, 0, load, satp, PageBase(va, l.level)) == Found(l) <==> Walk(b, 0, load, satp, va) == Found(l)
  {
    BaseIsAligned(va, l.level);
    if Walk(b, 0, load, satp, va) == Found(l) {
      SamePageSameLeaf(b, 0, load, satp, va, PageBase(va, l.level));
    }
    if Walk(b, 0, load, satp, PageBase(va, l.level)) == Found(l) {
      SamePageSameLeaf(b, 0, load, satp, PageBase(va, l.level), va);
    }
  }

  /** The TLB after a walk is coherent with the bus the walk leaves. */
  lemma FillCoherent(b: Bus, satp: U64, t: Cache, priv: int, acc: Access, mstatus: bv64, va: U64)
    requires Shape(t) && Coherent(b, satp, t) && priv < 3
    ensures var tr := Translate(b, priv, acc, satp, mstatus, va);
            tr.To? ==> Coherent(tr.bus, satp, Fill(t, tr, va))
  {
    var tr := Translate(b, priv, acc, satp, mstatus, va);
    if tr.To? {
      CoherentAD(b, satp, t, tr.leaf.pteAddr, acc.write);
      FilledEntryOk(b, priv, acc, satp, mstatus, va);
      CoherentAdd(tr.bus, satp, t, EntryOf(tr.leaf, va));
    }
  }

  /** ... and, if the data access spares the page tables, with the bus after it. */
  lemma FinishCoherent(c: Core, t: Cache, priv: int, acc: Access, n: nat, va: U64, data: nat)
    requires Shape(t) && Coherent(c.bus, c.satp, t)
    requires Effective(c, acc) == Some(priv) && priv < 3 && SparesTables(c, acc, n, va)
    ensures var tr := Translate(c.bus, priv, acc, c.satp, c.mstatus, va);
            Coherent(Finish(c.bus, priv, acc, n, va, data, tr).0, c.satp, Fill(t, tr, va))
  {
    var tr := Translate(c.bus, priv, acc, c.satp, c.mstatus, va);
    FillCoherent(c.bus, c.satp, t, priv, acc, c.mstatus, va);
    match tr
    case Denied =>
    case Fault =>
    case Bare => PhysicalCoherent(c.bus, c.satp, t, priv, acc, n, va, data);
    case To(phys, b, l) => PhysicalCoherent(b, c.satp, Fill(t, tr, va), priv, acc, n, phys, data);
  }

  /** A miss: both machines walk; the TLB then holds one more translation. */
  lemma MissAccess(s: Cached, priv: int, acc: Access, n: nat, va: U64, data: nat)
    requires Good(s) && Effective(s.core, acc) == Some(priv) && priv < 3
    requires Lookup(s.core.bus, s.tlb, s.core.satp, s.core.mstatus, priv, acc, va) == Looked(s.core.bus, 0, acc.load)
    ensures SameAccess(s, acc, n, va, data) && StaysGood(s, acc, n, va, data)
  {
    assert acc.(load := acc.load) == acc;
    var c := s.core;
    assert TranslatedAccess(c.bus, s.tlb, c.satp, c.mstatus, priv, acc, n, va, data)
        == WalkAccess(c.bus, s.tlb, c.satp, c.mstatus, priv, acc, n, va, data);
    if SparesTables(s.core, acc, n, va) {
      FinishCoherent(s.core, s.tlb, priv, acc, n, va, data);
    }
  }

  /** The reference machine's translation when the TLB machine hits. */
  lemma HitTranslate(c: Core, priv: int, acc: Access, n: nat, va: U64, e: Entry)
    requires EntryOk(c.bus, c.satp, e) && priv < 3 && Usable(e, va, acc, priv, Sum(c.mstatus))
    requires Benign(c, priv, acc, n, va)
    ensures Translate(c.bus, priv, acc, c.satp, c.mstatus, va)
            == To(Target(LeafOf(e), va), UpdateAD(c.bus, e.pteAddr, acc.write), LeafOf(e))
    ensures Hit(c.bus, priv, acc, va, e) == Looked(UpdateAD(c.bus, e.pteAddr, acc.write), Target(LeafOf(e), va), false)
  {
    EveryAddress(c.bus, c.satp, e, va, priv, acc.load);
    HitIsWalk(c.bus, c.satp, priv, acc, va, e);
    UsableAdmits(c.satp, c.mstatus, priv, acc, va, e);
  }

  /** The TLB machine has found this entry. */
  predicate HitOn(s: Cached, priv: int, acc: Access, va: U64, e: Entry)
    requires Shape(s.tlb)
  {
    && Effective(s.core, acc) == Some(priv) && priv < 3 && s.core.satp != 0
    && Find(s.tlb, va, acc, priv, Sum(s.core.mstatus), s.tlb.maxSize) == Some(e)
  }

  /** A hit and the walk it replaces end alike, and PMP does not tell a load there from a fetch. */
  ghost predicate Agrees(c: Core, priv: int, acc: Access, n: nat, va: U64, e: Entry)
  {
    var phys, b := Target(LeafOf(e), va), UpdateAD(c.bus, e.pteAddr, acc.write);
    && Translate(c.bus, priv, acc, c.satp, c.mstatus, va) == To(phys, b, LeafOf(e))
    && Hit(c.bus, priv, acc, va, e) == Looked(b, phys, false)
    && (acc.load && !acc.write ==> !PmpSplits(b, priv, phys, n))
  }

  lemma HitAgrees(c: Core, priv: int, acc: Access, n: nat, va: U64, e: Entry)
    requires EntryOk(c.bus, c.satp, e) && priv < 3 && Usable(e, va, acc, priv, Sum(c.mstatus))
    requires Benign(c, priv, acc, n, va)
    ensures Agrees(c, priv, acc, n, va, e)
  {
    HitTranslate(c, priv, acc, n, va, e);
  }

  /** A hit: the walk would give the same address and make the same A/D update. */
  lemma HitAccess(s: Cached, priv: int, acc: Access, n: nat, va: U64, data: nat, e: Entry)
    requires Good(s) && HitOn(s, priv, acc, va, e)
    requires Agrees(s.core, priv, acc, n, va, e) && Target(LeafOf(e), va) != 0
    ensures SameAccess(s, acc, n, va, data)
  {
    var b, phys := UpdateAD(s.core.bus, e.pteAddr, acc.write), Target(LeafOf(e), va);
    assert acc.load || acc.(load := false) == acc;
    assert Physical(b, priv, acc, n, phys, data) == Physical(b, priv, acc.(load := false), n, phys, data);
  }

  lemma HitGood(s: Cached, priv: int, acc: Access, n: nat, va: U64, data: nat, e: Entry)
    requires Good(s) && HitOn(s, priv, acc, va, e)
    requires Agrees(s.core, priv, acc, n, va, e) && Target(LeafOf(e), va) != 0
    ensures StaysGood(s, acc, n, va, data)
  {
    var c := s.core;
    var b := UpdateAD(c.bus, e.pteAddr, acc.write);
    var phys := Target(LeafOf(e), va);
    assert TranslatedAccess(c.bus, s.tlb, c.satp, c.mstatus, priv, acc, n, va, data).bus
        == Physical(b, priv, acc.(load := false), n, phys, data).0;
    if SparesTables(c, acc, n, va) {
      HitCoherent(b, c.bus, c.satp, s.tlb, e.pteAddr, priv, acc, n, phys, data);
    }
  }

  lemma HitCoherent(b': Bus, b: Bus, satp: U64, t: Cache, pa: int, priv: int, acc: Access, n: nat, phys: U64, data: nat)
    requires Shape(t) && Coherent(b, satp, t) && pa % 8 == 0 && b' == UpdateAD(b, pa, acc.write)
    requires acc.write ==> OffTables(b', satp, phys, n)
    ensures Coherent(Physical(b', priv, acc.(load := false), n, phys, data).0, satp, t)
  {
    CoherentAD(b, satp, t, pa, acc.write);
    PhysicalCoherent(b', satp, t, priv, acc.(load := false), n, phys, data);
  }

  /** A hit's A/D update leaves every walk of its page as it was, and a second one has nothing to do. */
  lemma WalkAfterHit(b: Bus, satp: U64, priv: int, va: U64, e: Entry, write: bool, load: bool)
    requires EntryOk(b, satp, e) && priv < 3 && SamePage(va, e.virtPage, e.size)
    ensures var b' := UpdateAD(b, e.pteAddr, write);
            && Walk(b', priv, load, satp, va) == Walk(b, priv, load, satp, va)
            && CanUpdate(b', priv, e.pteAddr)
            && UpdateAD(b', e.pteAddr, write) == b'
  {
    EveryAddress(b, satp, e, va, priv, load);
    ADFrame(b, e.pteAddr, write, priv, load, satp, va);
    UpdateADWord(b, e.pteAddr, write, e.pteAddr);
    UpdateADTwice(b, e.pteAddr, write);
  }

  /** A hit whose physical address is 0 counts as a miss; the walk that follows repeats the update or is refused. */
  lemma HitAtZeroAgain(c: Core, priv: int, acc: Access, n: nat, va: U64, e: Entry)
    requires EntryOk(c.bus, c.satp, e) && priv < 3 && Usable(e, va, acc, priv, Sum(c.mstatus))
    requires Benign(c, priv, acc, n, va) && Target(LeafOf(e), va) == 0
    ensures var b := UpdateAD(c.bus, e.pteAddr, acc.write);
            var t := Translate(b, priv, acc.(load := false), c.satp, c.mstatus, va);
            t == To(0, b, LeafOf(e)) || t == Denied
  {
    HitTranslate(c, priv, acc, n, va, e);
    WalkAfterHit(c.bus, c.satp, priv, va, e, acc.write, false);
    EveryAddress(c.bus, c.satp, e, va, priv, false);
    assert acc.write || acc.(load := false) == acc;
    assert Admits(LeafOf(e), acc.(load := false), priv, c.mstatus);
  }

  lemma RefAtZero(c: Core, priv: int, acc: Access, n: nat, va: U64, data: nat, e: Entry)
    requires Effective(c, acc) == Some(priv) && Agrees(c, priv, acc, n, va, e) && Target(LeafOf(e), va) == 0
    ensures RefAccess(c, acc, n, va, data) == (c.(bus := UpdateAD(c.bus, e.pteAddr, acc.write)), AccessFault)
  {
  }

  /** What follows such a hit: an access fault, with the A/D update made. */
  lemma TlbAtZero(s: Cached, priv: int, acc: Access, n: nat, va: U64, data: nat, e: Entry, tr: Translation)
    requires Shape(s.tlb) && HitOn(s, priv, acc, va, e) && Target(LeafOf(e), va) == 0
    requires var b := UpdateAD(s.core.bus, e.pteAddr, acc.write);
             && Hit(s.core.bus, priv, acc, va, e) == Looked(b, 0, false)
             && tr == Translate(b, priv, acc.(load := false), s.core.satp, s.core.mstatus, va)
             && (tr == To(0, b, LeafOf(e)) || tr == Denied)
    ensures TlbAccess(s, acc, n, va, data) ==
            (Cached(s.core.(bus := UpdateAD(s.core.bus, e.pteAddr, acc.write)), Fill(s.tlb, tr, va)), AccessFault)
  {
    var c := s.core;
    var b := UpdateAD(c.bus, e.pteAddr, acc.write);
    assert TranslatedAccess(c.bus, s.tlb, c.satp, c.mstatus, priv, acc, n, va, data)
        == WalkAccess(b, s.tlb, c.satp, c.mstatus, priv, acc.(load := false), n, va, data);
  }

  lemma HitAccessAtZero(s: Cached, priv: int, acc: Access, n: nat, va: U64, data: nat, e: Entry)
    requires Good(s) && HitOn(s, priv, acc, va, e)
    requires Benign(s.core, priv, acc, n, va) && Target(LeafOf(e), va) == 0
    ensures SameAccess(s, acc, n, va, data) && StaysGood(s, acc, n, va, data)
  {
    HitAgrees(s.core, priv, acc, n, va, e);
    HitAtZeroAgain(s.core, priv, acc, n, va, e);
    var b := UpdateAD(s.core.bus, e.pteAddr, acc.write);
    var tr := Translate(b, priv, acc.(load := false), s.core.satp, s.core.mstatus, va);
    TlbAtZero(s, priv, acc, n, va, data, e, tr);
    RefAtZero(s.core, priv, acc, n, va, data, e);
    HitAtZeroGood(s, priv, acc, n, va, e);
  }

  lemma HitAtZeroGood(s: Cached, priv: int, acc: Access, n: nat, va: U64, e: Entry)
    requires Good(s) && HitOn(s, priv, acc, va, e)
    requires Benign(s.core, priv, acc, n, va) && Target(LeafOf(e), va) == 0
    ensures var b := UpdateAD(s.core.bus, e.pteAddr, acc.write);
            var t := Translate(b, priv, acc.(load := false), s.core.satp, s.core.mstatus, va);
            Coherent(b, s.core.satp, Fill(s.tlb, t, va))
  {
    var c := s.core;
    HitAtZeroAgain(c, priv, acc, n, va, e);
    var b := UpdateAD(c.bus, e.pteAddr, acc.write);
    CoherentAD(c.bus, c.satp, s.tlb, e.pteAddr, acc.write);
    FillCoherent(b, c.satp, s.tlb, priv, acc.(load := false), c.mstatus, va);
  }

  lemma AccessTransparent(s: Cached, acc: Access, n: nat, va: U64, data: nat)
    requires Good(s)
    requires s.core.satp != 0 && Effective(s.core, acc).Some? ==>
               Benign(s.core, Effective(s.core, acc).value, acc, n, va)
    ensures SameAccess(s, acc, n, va, data) && StaysGood(s, acc, n, va, data)
  {
    match Effective(s.core, acc)
    case None => BareAccess(s, acc, n, va, data);
    case Some(p) =>
      if s.core.satp == 0 {
        BareAccess(s, acc, n, va, data);
      } else {
        match Find(s.tlb, va, acc, p, Sum(s.core.mstatus), s.tlb.maxSize)
        case None => MissAccess(s, p, acc, n, va, data);
        case Some(e) =>
          if Target(LeafOf(e), va) != 0 {
            HitAgrees(s.core, p, acc, n, va, e);
            HitAccess(s, p, acc, n, va, data, e);
            HitGood(s, p, acc, n, va, data, e);
          } else {
            HitAccessAtZero(s, p, acc, n, va, data, e);
          }
      }
  }

  /** With translation off the TLB is not consulted, whatever it holds. */
  lemma BareIgnoresTlb(s: Cached, acc: Access, n: nat, va: U64, data: nat)
    requires Shape(s.tlb) && (Effective(s.core, acc).None? || s.core.satp == 0)
    ensures var (c, out) := RefAccess(s.core, acc, n, va, data);
            TlbAccess(s, acc, n, va, data) == (s.(core := c), out) && c.priv == s.core.priv
  {
    assert Levels(0) == 0;
  }

  // ---------- whole runs ----------

  /** The walk of an LR or SC in M mode inserts a translation that no walk below M mode makes. */
  predicate OverReaches(c: Core, acc: Access, va: U64)
  {
    var t := Translate(c.bus, c.priv, acc, c.satp, c.mstatus, va);
    c.priv == 3 && t.To? && !FoundBelow(c.bus, c.satp, va, t.leaf)
  }

  /** Is the TLB possibly out of date after op? Only SFENCE.VMA makes it current again. */
  ghost predicate StaleAfter(c: Core, op: Op, stale: bool)
  {
    match op
    case MemOp(acc, n, va, _) => stale || !SparesTables(c, acc, n, va)
    case WalkOp(acc, va) => stale || OverReaches(c, acc, va)
    case SetSatp(v) => stale || v != c.satp
    case SetPmp(_) => true
    case Fence => false
    case _ => stale
  }

  /** What software owes the TLB at one step, in terms of the reference machine alone. */
  ghost predicate Lawful(c: Core, op: Op, stale: bool)
  {
    match op
    case MemOp(acc, n, va, _) =>
      var p := Effective(c, acc);
      p.Some? && c.satp != 0 ==> !stale && Benign(c, p.value, acc, n, va)
    case SetPriv(p) => 0 <= p <= 3
    case _ => true
  }

  ghost predicate LawfulRun(c: Core, ops: seq<Op>, stale: bool)
    decreases |ops|
  {
    ops == [] || (Lawful(c, ops[0], stale) && LawfulRun(RefStep(c, ops[0]).0, ops[1..], StaleAfter(c, ops[0], stale)))
  }

  ghost predicate Inv(s: Cached, stale: bool)
  {
    && Ready(s.core) && Shape(s.tlb)
    && (!stale ==> Coherent(s.core.bus, s.core.satp, s.tlb))
  }

  /** The walk of an LR or SC: no lookup, but an A/D update and a new entry. */
  lemma WalkCoherent(s: Cached, acc: Access, va: U64)
    requires Good(s) && !OverReaches(s.core, acc, va)
    ensures Good(WalkFor(s, acc, va).0)
  {
    var c := s.core;
    var tr := Translate(c.bus, c.priv, acc, c.satp, c.mstatus, va);
    if tr.To? {
      if c.priv < 3 {
        FilledEntryOk(c.bus, c.priv, acc, c.satp, c.mstatus, va);
      } else {
        FilledExact(c.bus, c.priv, acc, c.satp, c.mstatus, va);
      }
      CoherentAD(c.bus, c.satp, s.tlb, tr.leaf.pteAddr, acc.write);
      CoherentAdd(tr.bus, c.satp, s.tlb, EntryOf(tr.leaf, va));
    }
  }

  lemma StepTransparent(s: Cached, op: Op, stale: bool)
    requires Inv(s, stale) && Lawful(s.core, op, stale)
    ensures var (s', out) := TlbStep(s, op);
            RefStep(s.core, op) == (s'.core, out) && Inv(s', StaleAfter(s.core, op, stale))
  {
    match op
    case MemOp(acc, n, va, data) =>
      if stale {
        BareIgnoresTlb(s, acc, n, va, data);
      } else {
        AccessTransparent(s, acc, n, va, data);
      }
    case WalkOp(acc, va) =>
      if !stale && !OverReaches(s.core, acc, va) {
        WalkCoherent(s, acc, va);
      }
    case _ =>
  }

  /**
   For every run in which software fences after changing satp, PMP or page tables, every value loaded,
   every fault and the final memory, A/D bits included, are those of the machine without a TLB.
   */
  lemma {:induction false} RunTransparent(s: Cached, ops: seq<Op>, stale: bool)
    requires Inv(s, stale) && LawfulRun(s.core, ops, stale)
    ensures TlbRun(s, ops).0.core == RefRun(s.core, ops).0
    ensures TlbRun(s, ops).1 == RefRun(s.core, ops).1
    decreases |ops|
  {
    if ops != [] {
      StepTransparent(s, ops[0], stale);
      RunTransparent(TlbStep(s, ops[0]).0, ops[1..], StaleAfter(s.core, ops[0], stale));
    }
  }
}
