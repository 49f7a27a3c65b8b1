/**
 Translated code: after a fetch, fetching again two bytes further on in the same page changes neither memory nor
 TLB, so that the halfword that fetch keeps could as well be read again.
 */
module Refetch {
  import opened Base
  import opened PhysMem
  import opened Tlb
  import opened PageWalk
  import opened WalkTheorems
  import opened Mmu
  import opened Transparency
  import opened TlbExact
  import TlbTheorems
  import SvReference
  import Prefetch

  const FETCH := Access(false, false)

  /** va and va + 2 lie in one page of the smallest size. */
  predicate SameSmallPage(va: U64)
  {
    va % 0x1000 < 0xFFE
  }

  lemma {:induction false} NextHalf(va: U64, i: nat)
    requires SameSmallPage(va) && va + 2 < 0x1_0000_0000_0000_0000
    ensures SamePage(va + 2, va, i) && (va + 2) % PageSize(i) == va % PageSize(i) + 2
    ensures PageBase(va + 2, i) == PageBase(va, i)
    decreases i
  {
    if i == 0 {
      DivModIs(va + 2, 0x1000, va / 0x1000, va % 0x1000 + 2);
    } else {
      NextHalf(va, i - 1);
      OneUp(va, PageSize(i - 1));
    }
  }

  lemma OneUp(va: nat, p: int)
    requires p > 0 && (va + 2) / p == va / p && (va + 2) % p == va % p + 2
    ensures (va + 2) / (512 * p) == va / (512 * p) && (va + 2) % (512 * p) == va % (512 * p) + 2
  {
    SvReference.SplitField(va, p);
    SvReference.SplitField(va + 2, p);
    var q := 512 * p;
    var r := va % q;
    assert va == q * (va / q) + r;
    assert (va + 2) % q == r + 2;
    RemainderLess(va + 2, q);
    DivModIs(va + 2, q, va / q, r + 2);
  }

  lemma RemainderLess(x: nat, q: int)
    requires q > 0
    ensures 0 <= x % q < q
  {
  }

  lemma {:induction false} FindSame(t: Cache, va: U64, acc: Access, priv: int, sum: bool, i: int)
    requires Shape(t) && i < 6 && SameSmallPage(va) && va + 2 < 0x1_0000_0000_0000_0000
    ensures Find(t, va + 2, acc, priv, sum, i) == Find(t, va, acc, priv, sum, i)
    decreases i + 1
  {
    if i >= 0 {
      NextHalf(va, i);
      FindSame(t, va, acc, priv, sum, i - 1);
    }
  }

  /** The entry a walk leaves is the one that the next access to its page finds. */
  lemma FindFilled(t: Cache, l: Leaf, va: U64, acc: Access, priv: int, sum: bool)
    requires TlbTheorems.Inv(t) && l.level < 6 && Find(t, va, acc, priv, sum, t.maxSize) == None
    requires Usable(EntryOf(l, va), va, acc, priv, sum)
    ensures var t' := Add(t, EntryOf(l, va)); Find(t', va, acc, priv, sum, t'.maxSize) == Some(EntryOf(l, va))
  {
    var e := EntryOf(l, va);
    var t' := Add(t, e);
    TlbTheorems.SearchComplete(t, va, acc, priv, sum);
    BaseIsAligned(va, l.level);
    TlbTheorems.AddInv(t, e);
    TlbTheorems.SearchComplete(t', va, acc, priv, sum);
    assert t'.slots[Hash(e.virtPage)] == e;
    var r := Find(t', va, acc, priv, sum, t'.maxSize).value;
    assert r in t'.slots && Usable(r, va, acc, priv, sum);
  }

  /** Translated, with a TLB as a run leaves it. */
  ghost predicate Translating(s: Cached, priv: int)
  {
    Good(s) && TlbTheorems.Inv(s.tlb) && Effective(s.core, FETCH) == Some(priv) && priv < 3 && Levels(s.core.satp) > 0
  }

  /** The leaf of a fetch that a walk admits. */
  ghost predicate Leads(c: Core, priv: int, va: U64, l: Leaf)
  {
    && Walk(c.bus, priv, false, c.satp, va) == Found(l) && Admits(l, FETCH, priv, c.mstatus) && l.perms.x
    && CanUpdate(c.bus, priv, l.pteAddr)
  }

  lemma LeadsTo(c: Core, priv: int, va: U64, l: Leaf)
    requires Leads(c, priv, va, l) && Levels(c.satp) > 0
    ensures Translate(c.bus, priv, FETCH, c.satp, c.mstatus, va)
            == To(Target(l, va), UpdateAD(c.bus, l.pteAddr, false), l)
  {
  }

  lemma LeadsBenign(c: Core, priv: int, va: U64, n: nat, l: Leaf)
    requires Leads(c, priv, va, l)
    ensures Benign(c, priv, FETCH, n, va)
  {
  }

  /** The value of such a fetch, or its access fault. */
  function Fetched(b: Bus, priv: int, phys: U64, n: nat): Outcome
  {
    if ReadOk(b, priv, false, phys, n) then Done(Get(b.mem, phys, n)) else AccessFault
  }

  /** Such a fetch without a TLB: A/D update and data access. */
  lemma RefFetchIs(c: Core, priv: int, va: U64, n: nat, l: Leaf)
    requires Leads(c, priv, va, l) && Effective(c, FETCH) == Some(priv) && Levels(c.satp) > 0
    ensures var b := UpdateAD(c.bus, l.pteAddr, false);
            RefAccess(c, FETCH, n, va, 0) == (c.(bus := b), Fetched(b, priv, Target(l, va), n))
  {
    LeadsTo(c, priv, va, l);
    RefIs(c, priv, FETCH, n, va, 0, Translate(c.bus, priv, FETCH, c.satp, c.mstatus, va));
  }

  /** With the TLB it does the same. */
  lemma FetchIs(s: Cached, priv: int, va: U64, n: nat, l: Leaf)
    requires Translating(s, priv) && Leads(s.core, priv, va, l)
    ensures var b := UpdateAD(s.core.bus, l.pteAddr, false);
            var (s', out) := TlbAccess(s, FETCH, n, va, 0);
            s'.core == s.core.(bus := b) && out == Fetched(b, priv, Target(l, va), n) && Good(s')
  {
    RefFetchIs(s.core, priv, va, n, l);
    LeadsBenign(s.core, priv, va, n, l);
    AccessTransparent(s, FETCH, n, va, 0);
  }

  lemma MissFills(s: Cached, priv: int, va: U64, n: nat, l: Leaf)
    requires Translating(s, priv) && Leads(s.core, priv, va, l)
    requires Find(s.tlb, va, FETCH, priv, Sum(s.core.mstatus), s.tlb.maxSize) == None
    ensures TlbAccess(s, FETCH, n, va, 0).0.tlb == Add(s.tlb, EntryOf(l, va))
  {
    var c := s.core;
    LeadsTo(c, priv, va, l);
    assert FETCH.(load := false) == FETCH;
    assert TranslatedAccess(c.bus, s.tlb, c.satp, c.mstatus, priv, FETCH, n, va, 0)
        == WalkAccess(c.bus, s.tlb, c.satp, c.mstatus, priv, FETCH, n, va, 0);
  }

  lemma HitKeeps(s: Cached, priv: int, va: U64, n: nat, l: Leaf, e: Entry)
    requires Translating(s, priv) && Leads(s.core, priv, va, l) && Target(l, va) != 0
    requires Find(s.tlb, va, FETCH, priv, Sum(s.core.mstatus), s.tlb.maxSize) == Some(e)
    ensures LeafOf(e) == l && TlbAccess(s, FETCH, n, va, 0).0.tlb == s.tlb
  {
    assert Levels(0) == 0;
    HitIsWalk(s.core.bus, s.core.satp, priv, FETCH, va, e);
  }

  /** After it the TLB has an entry of that leaf for the whole page, and finds it. */
  lemma EntryAfter(s: Cached, priv: int, va: U64, n: nat, l: Leaf)
    requires Translating(s, priv) && Leads(s.core, priv, va, l) && TlbAccess(s, FETCH, n, va, 0).1.Done?
    ensures var t := TlbAccess(s, FETCH, n, va, 0).0.tlb;
            var r := Find(t, va, FETCH, priv, Sum(s.core.mstatus), t.maxSize);
            r.Some? && LeafOf(r.value) == l
  {
    FetchIs(s, priv, va, n, l);
    match Find(s.tlb, va, FETCH, priv, Sum(s.core.mstatus), s.tlb.maxSize)
    case None =>
      MissFills(s, priv, va, n, l);
      FilledUsable(s.core, priv, va, l);
      FindFilled(s.tlb, l, va, FETCH, priv, Sum(s.core.mstatus));
    case Some(e) => HitKeeps(s, priv, va, n, l, e);
  }

  lemma FilledUsable(c: Core, priv: int, va: U64, l: Leaf)
    requires Leads(c, priv, va, l)
    ensures Usable(EntryOf(l, va), va, FETCH, priv, Sum(c.mstatus))
  {
    BaseIsAligned(va, l.level);
  }

  lemma NextLeaf(b: Bus, priv: int, satp: U64, va: U64, next: U64, l: Leaf)
    requires Walk(b, priv, false, satp, va) == Found(l) && SameSmallPage(va) && next == va + 2
    ensures Walk(b, priv, false, satp, next) == Found(l)
  {
    NextHalf(va, l.level);
    SamePageSameLeaf(b, priv, false, satp, va, next);
  }

  /** Setting A in the leaf PTE once more changes nothing. */
  lemma Settles(b: Bus, b': Bus, priv: int, pa: int)
    requires CanUpdate(b, priv, pa) && pa % 8 == 0 && b' == UpdateAD(b, pa, false)
    ensures CanUpdate(b', priv, pa) && UpdateAD(b', pa, false) == b'
  {
    UpdateADTwice(b, pa, false);
    UpdateADWord(b, pa, false, pa);
  }

  /** The walk of the next halfword, on the memory that the first fetch has left. */
  lemma WalkNext(b: Bus, b': Bus, priv: int, satp: U64, va: U64, l: Leaf)
    requires Walk(b, priv, false, satp, va) == Found(l) && CanUpdate(b, priv, l.pteAddr) && l.pteAddr % 8 == 0
    requires SameSmallPage(va) && va + 2 < 0x1_0000_0000_0000_0000 && b' == UpdateAD(b, l.pteAddr, false)
    ensures Walk(b', priv, false, satp, va + 2) == Found(l) && CanUpdate(b', priv, l.pteAddr)
    ensures UpdateAD(b', l.pteAddr, false) == b'
  {
    NextLeaf(b, priv, satp, va, va + 2, l);
    ADFrame(b, l.pteAddr, false, priv, false, satp, va + 2);
    Settles(b, b', priv, l.pteAddr);
  }

  lemma LeadsNext(s: Cached, priv: int, va: U64, n: nat, l: Leaf)
    requires Translating(s, priv) && Leads(s.core, priv, va, l) && SameSmallPage(va) && va + 2 < 0x1_0000_0000_0000_0000
    ensures var s' := TlbAccess(s, FETCH, n, va, 0).0;
            && Leads(s'.core, priv, va + 2, l) && UpdateAD(s'.core.bus, l.pteAddr, false) == s'.core.bus
            && s'.core == s.core.(bus := s'.core.bus)
  {
    FetchIs(s, priv, va, n, l);
    WalkNext(s.core.bus, TlbAccess(s, FETCH, n, va, 0).0.core.bus, priv, s.core.satp, va, l);
  }

  lemma TargetNext(b: Bus, priv: int, satp: U64, va: U64, l: Leaf)
    requires Walk(b, priv, false, satp, va) == Found(l) && SameSmallPage(va) && va + 2 < 0x1_0000_0000_0000_0000
    ensures Target(l, va + 2) == Target(l, va) + 2
  {
    FoundReadable(b, priv, false, satp, va);
    SvReference.FrameBound(PteAt(b, l.pteAddr));
    NextHalf(va, l.level);
    SvReference.SameDisplacement(l, va, va + 2);
  }

  /** A hit that has nothing left to do: the state stays as it is. */
  lemma HitAgain(s: Cached, priv: int, va: U64, n: nat, l: Leaf, e: Entry)
    requires Good(s) && Effective(s.core, FETCH) == Some(priv) && priv < 3 && Levels(s.core.satp) > 0
    requires Leads(s.core, priv, va, l) && UpdateAD(s.core.bus, l.pteAddr, false) == s.core.bus && Target(l, va) != 0
    requires Find(s.tlb, va, FETCH, priv, Sum(s.core.mstatus), s.tlb.maxSize) == Some(e) && LeafOf(e) == l
    ensures TlbAccess(s, FETCH, n, va, 0) == (s, Fetched(s.core.bus, priv, Target(l, va), n))
  {
    assert Levels(0) == 0;
    HitIsWalk(s.core.bus, s.core.satp, priv, FETCH, va, e);
  }

  /** The first fetch, and the second, two bytes further on in the page. */
  ghost predicate Consecutive(b: Bus, first: (Cached, Outcome), second: (Cached, Outcome), priv: int, va: U64, l: Leaf)
    requires va + 2 < 0x1_0000_0000_0000_0000
  {
    && first.0.core.bus == UpdateAD(b, l.pteAddr, false) && first.1 == Fetched(first.0.core.bus, priv, Target(l, va), 4)
    && Target(l, va + 2) == Target(l, va) + 2
    && second == (first.0, Fetched(first.0.core.bus, priv, Target(l, va + 2), 4))
  }

  /**
   The fetch of the word at va and, straight after it, that of the word at va + 2: the second changes nothing and
   reads the same physical page, two bytes on.
   */
  lemma FetchNextWord(s: Cached, priv: int, va: U64, l: Leaf)
    requires Translating(s, priv) && Leads(s.core, priv, va, l) && SameSmallPage(va) && va + 2 < 0x1_0000_0000_0000_0000
    requires TlbAccess(s, FETCH, 4, va, 0).1.Done?
    ensures var first := TlbAccess(s, FETCH, 4, va, 0);
            Consecutive(s.core.bus, first, TlbAccess(first.0, FETCH, 4, va + 2, 0), priv, va, l)
  {
    FetchIs(s, priv, va, 4, l);
    EntryAfter(s, priv, va, 4, l);
    LeadsNext(s, priv, va, 4, l);
    TargetNext(s.core.bus, priv, s.core.satp, va, l);
    var s' := TlbAccess(s, FETCH, 4, va, 0).0;
    FindSame(s'.tlb, va, FETCH, priv, Sum(s.core.mstatus), s'.tlb.maxSize);
    HitAgain(s', priv, va + 2, 4, l, Find(s'.tlb, va, FETCH, priv, Sum(s.core.mstatus), s'.tlb.maxSize).value);
  }

  /** The upper half of one word is the lower half of the next. */
  lemma HalfAgain(mem: Phys, phys: U64, buf: nat)
    requires phys + 2 < RAM_BASE || RAM_BASE <= phys
    requires buf == Get(mem, phys, 4) / 0x1_0000 % 0x1_0000
    ensures Get(mem, phys + 2, 4) % 0x1_0000 == buf
  {
    Prefetch.WordHalves(mem, phys);
    Prefetch.WordHalves(mem, phys + 2);
  }

  /** Two fetches, the second two bytes on: it changes nothing and reads the second half of the first again. */
  ghost predicate Agree(first: (Cached, Outcome), second: (Cached, Outcome))
  {
    && second.0 == first.0 && first.1.Done? && second.1.Done?
    && second.1.value % 0x1_0000 == first.1.value / 0x1_0000 % 0x1_0000
  }

  /** Where the page allows the second fetch. */
  predicate NextAllowed(b: Bus, priv: int, phys: U64)
  {
    (phys + 2 < RAM_BASE || RAM_BASE <= phys) && ReadOk(b, priv, false, phys + 2, 4)
  }

  /** The halfword that came with the first fetch comes again with the second. */
  lemma HalfwordAgain(b: Bus, first: (Cached, Outcome), second: (Cached, Outcome), priv: int, va: U64, l: Leaf)
    requires va + 2 < 0x1_0000_0000_0000_0000 && Consecutive(b, first, second, priv, va, l)
    requires NextAllowed(b, priv, Target(l, va)) && first.1.Done?
    ensures Agree(first, second)
  {
    HalfAgain(first.0.core.bus.mem, Target(l, va), first.1.value / 0x1_0000 % 0x1_0000);
  }
}
