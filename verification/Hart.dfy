/** The memory side of HartState, with the routines of mem.cpp and mem.ipp updating it in place. */
module Hart {
  import opened Base
  import opened PhysMem
  import opened Tlb
  import opened PageWalk
  import opened WalkTheorems
  import opened Mmu
  import Pmp
  import PmpUnit
  import TlbUnit

  lemma TranslatedIs(s: Cached, acc: Access, n: nat, va: U64, data: nat, priv: int)
    requires Shape(s.tlb) && Effective(s.core, acc) == Some(priv)
    ensures var r := TranslatedAccess(s.core.bus, s.tlb, s.core.satp, s.core.mstatus, priv, acc, n, va, data);
            TlbAccess(s, acc, n, va, data) == (Cached(s.core.(bus := r.bus), r.tlb), r.out)
  {
  }

  /** An access, given what tlb_find made of it. */
  lemma LookedUp(b: Bus, t: Cache, satp: U64, mstatus: bv64, priv: int, acc: Access, n: nat, va: U64, data: nat,
        k: Looked)
    requires Shape(t) && k == Lookup(b, t, satp, mstatus, priv, acc, va)
    ensures TranslatedAccess(b, t, satp, mstatus, priv, acc, n, va, data) ==
            if k.phys != 0 then
              var (b', out) := Physical(k.bus, priv, acc.(load := k.load), n, k.phys, data); After(b', t, out)
            else WalkAccess(k.bus, t, satp, mstatus, priv, acc.(load := k.load), n, va, data)
  {
  }

  /** An access that misses, from the result of its walk. */
  lemma WalkedIs(b: Bus, t: Cache, satp: U64, mstatus: bv64, priv: int, acc: Access, n: nat, va: U64, data: nat,
        tr: Translation, r: After)
    requires Shape(t) && tr == Translate(b, priv, acc, satp, mstatus, va)
    requires r == WalkAccess(b, t, satp, mstatus, priv, acc, n, va, data)
    ensures tr.To? ==> tr.bus.pmp == b.pmp
    ensures r.tlb == Fill(t, tr, va) && (r.bus, r.out) == Finish(b, priv, acc, n, va, data, tr)
  {
  }

  class HartState {
    const ram: array<Byte>
    const outside: int -> Byte
    const tlb: TlbUnit.Unit
    const pmp: PmpUnit.Unit
    var satp: U64
    var privmode: nat
    var mstatus: bv64
    var memStatus: bool
    var pageFault: bool

    ghost predicate Valid()
      reads this, pmp, tlb, tlb.sizeCount, tlb.tlbEntries
    {
      && pmp.Valid() && tlb.Valid()
      && ram.Length < 0x4000_0000_0000_0000
      && ram != tlb.sizeCount && ram as object != tlb.tlbEntries
      && pmp.expanded as object != ram
      && pmp.expanded as object != tlb.sizeCount && pmp.expanded as object != tlb.tlbEntries
    }

    ghost function Bus(): Bus
      reads this, pmp, ram, pmp.expanded
    {
      PageWalk.Bus(Phys(ram[..], outside), pmp.Tab())
    }

    ghost function View(): Cached
      reads this, pmp, ram, pmp.expanded, tlb, tlb.sizeCount, tlb.tlbEntries
      ensures Valid() ==> Shape(View().tlb)
    {
      Cached(Core(Bus(), satp, privmode, mstatus), tlb.Contents())
    }

    /** mem_init and reset_state. */
    constructor (size: nat, outside: int -> Byte)
      requires size < 0x4000_0000_0000_0000
      ensures Valid() && !memStatus && !pageFault
      ensures tlb.Contents() == Empty() && satp == 0 && privmode == 3 && mstatus == 0xA_002C_08AA
      ensures ram.Length == size && forall i :: 0 <= i < size ==> ram[i] == 0
    {
      ram := new Byte[size](_ => 0);
      this.outside := outside;
      tlb := new TlbUnit.Unit();
      pmp := new PmpUnit.Unit();
      satp, privmode, mstatus := 0, 3, 0xA_002C_08AA;
      memStatus, pageFault := false, false;
    }

    // ---------- physical accesses ----------

    /** One byte after the other, lowest first; what lies past the end of main_mem is not modelled. */
    method StoreBytes(addr: int, n: nat, data: nat)
      requires Valid() && addr >= RAM_BASE
      modifies ram
      ensures Bus() == old(Bus()).(mem := PutBytes(old(Bus()).mem, addr, n, data))
      decreases n
    {
      if n > 0 {
        if addr < RAM_BASE + ram.Length {
          ram[addr - RAM_BASE] := data % 256;
        }
        assert Bus().mem == SetByte(old(Bus()).mem, addr, data % 256);
        StoreBytes(addr + 1, n - 1, data / 256);
      }
    }

    method PhyMemStore(addr: int, n: nat, data: nat)
      requires Valid()
      modifies ram
      ensures Bus() == Store(old(Bus()), addr, n, data)
    {
      if addr >= RAM_BASE {
        StoreBytes(addr, n, data);
      }
    }

    /** The byte specialisation of mem_fetch. */
    method MemFetchByte(addr: U64) returns (v: nat)
      requires Valid()
      modifies this`memStatus
      ensures var ok := ReadOk(Bus(), privmode, old(memStatus), addr, 1);
              memStatus == !ok && v == if ok then Get(Bus().mem, addr, 1) else 0
    {
      if addr < 0x1000 || addr >= RAM_BASE + ram.Length { memStatus := true; return 0; }
      var st := pmp.ChkPmpExp(privmode, addr);
      if st == Pmp.NO_MATCH && privmode <= 1 { memStatus := true; return 0; }
      if memStatus && st & 1 == 0 { memStatus := true; return 0; }
      if !(memStatus || st & 4 != 0) { memStatus := true; return 0; }
      memStatus := false;
      v := Get(Phys(ram[..], outside), addr, 1);
    }

    /** The PMP tests of the mem_fetch template: n is sizeof(T). */
    method FetchRefused(addr: U64, n: nat) returns (refused: bool)
      requires Valid() && (n == 2 || n == 4 || n == 8) && addr < RAM_BASE + ram.Length
      ensures refused == !Pmp.Granted(Bus().pmp, privmode, addr, n, if memStatus then Pmp.R else Pmp.X)
    {
      var st := pmp.ChkPmpRangeExp(privmode, addr, addr + n - 1);
      if st == 0xF7 { return true; }
      if st == 0xFF && privmode < 3 { return true; }
      if memStatus && st & 1 == 0 { return true; }
      refused := !(memStatus || st & 4 != 0);
    }

    /** The mem_fetch template. */
    method MemFetchWide(addr: U64, n: nat) returns (v: nat)
      requires Valid() && (n == 2 || n == 4 || n == 8)
      modifies this`memStatus
      ensures var ok := ReadOk(Bus(), privmode, old(memStatus), addr, n);
              memStatus == !ok && v == if ok then Get(Bus().mem, addr, n) else 0
    {
      if addr < 0x1000 || addr >= RAM_BASE + ram.Length { memStatus := true; return 0; }
      var refused := FetchRefused(addr, n);
      if refused { memStatus := true; return 0; }
      memStatus := false;
      v := Get(Phys(ram[..], outside), addr, n);
    }

    method MemFetch(addr: U64, n: nat) returns (v: nat)
      requires Valid() && (n == 1 || n == 2 || n == 4 || n == 8)
      modifies this`memStatus
      ensures var ok := ReadOk(Bus(), privmode, old(memStatus), addr, n);
              memStatus == !ok && v == if ok then Get(Bus().mem, addr, n) else 0
    {
      if n == 1 {
        v := MemFetchByte(addr);
      } else {
        v := MemFetchWide(addr, n);
      }
    }

    /** The byte specialisation of mem_store. */
    method MemStoreByte(addr: U64, data: nat)
      requires Valid()
      modifies this`memStatus, ram
      ensures var ok := WriteOk(old(Bus()), privmode, addr, 1);
              memStatus == !ok && Bus() == if ok then Store(old(Bus()), addr, 1, data) else old(Bus())
    {
      if addr < 0x1000 || addr >= RAM_BASE + ram.Length { memStatus := true; return; }
      var st := pmp.ChkPmpExp(privmode, addr);
      if st == Pmp.NO_MATCH && privmode <= 1 { memStatus := true; return; }
      if st & 2 == 0 { memStatus := true; return; }
      memStatus := false;
      PhyMemStore(addr, 1, data);
    }

    /** mem_store: n is sizeof(T). */
    method MemStore(addr: U64, n: nat, data: nat)
      requires Valid() && (n == 1 || n == 2 || n == 4 || n == 8)
      modifies this`memStatus, ram
      ensures var ok := WriteOk(old(Bus()), privmode, addr, n);
              memStatus == !ok && Bus() == if ok then Store(old(Bus()), addr, n, data) else old(Bus())
    {
      if n == 1 {
        MemStoreByte(addr, data);
        return;
      }
      if addr < 0x1000 || addr >= RAM_BASE + ram.Length { memStatus := true; return; }
      var st := pmp.ChkPmpRangeExp(privmode, addr, addr + n - 1);
      if st == 0xF7 { memStatus := true; return; }
      if st == 0xFF && privmode < 3 { memStatus := true; return; }
      if st & 2 == 0 { memStatus := true; return; }
      memStatus := false;
      PhyMemStore(addr, n, data);
    }

    // ---------- translation ----------

    /** The permission and alignment checks on a leaf PTE. */
    method LeafFaults(iswrite: bool, load: bool, pte: nat, l: Leaf) returns (fault: bool)
      requires Describes(l, pte)
      ensures fault == !Admits(l, Access(iswrite, load), privmode, mstatus)
    {
      if iswrite {
        if !PteW(pte) { return true; }
      } else if (load && !PteR(pte)) || (!load && !(PteX(pte) || (Mxr(mstatus) && PteR(pte)))) {
        return true;
      }
      if PteU(pte) {
        if privmode >= 1 {
          if !Sum(mstatus) || (!load && !iswrite) { return true; }
        }
      } else if privmode == 0 {
        return true;
      }
      if l.level > 0 && Frame(pte) % PageSize(l.level) != 0 { return true; }
      fault := false;
    }

    /** The leaf fields that page_table_walk reads out of a PTE. */
    ghost predicate Describes(l: Leaf, pte: nat)
    {
      Decode(pte) == Final(l.frame, l.perms, l.user)
    }

    /** The A/D write-back of page_table_walk; l2 is the leaf as read from the PTE with its new bits. */
    method WriteBack(iswrite: bool, pte: nat, l: Leaf) returns (l2: Leaf)
      requires Valid() && !memStatus && pte == PteAt(Bus(), l.pteAddr) && Describes(l, pte)
      modifies this`memStatus, ram
      ensures memStatus == !CanUpdate(old(Bus()), privmode, l.pteAddr)
      ensures Bus() == if memStatus then old(Bus()) else UpdateAD(old(Bus()), l.pteAddr, iswrite)
      ensures l2 == l
    {
      var newPte := pte;
      if !AllOnesButAD(pte) {
        newPte := SetAD(pte, iswrite);
        SetADSame(pte, iswrite);
        SameMeaning(newPte, pte);
        MemStore(l.pteAddr, 8, newPte);
      }
      l2 := Leaf(l.pteAddr, l.level, l.frame, PtePerms(newPte), PteU(newPte));
    }

    /** The leaf part of page_table_walk. */
    method UseLeaf(va: U64, iswrite: bool, load: bool, pte: nat, l: Leaf) returns (phys: U64)
      requires Valid() && l.level < 5 && !memStatus && pte == PteAt(Bus(), l.pteAddr) && Describes(l, pte)
      modifies this`memStatus, this`pageFault, tlb, tlb.sizeCount, tlb.tlbEntries, ram
      ensures Valid()
      ensures var tr := OnLeaf(old(Bus()), privmode, Access(iswrite, load), mstatus, va, l);
              && memStatus == tr.Denied? && pageFault == (old(pageFault) || tr.Fault?)
              && Bus() == (if tr.To? then tr.bus else old(Bus()))
              && tlb.Contents() == Fill(old(tlb.Contents()), tr, va)
              && phys == if tr.To? then tr.phys else 0
    {
      var fault := LeafFaults(iswrite, load, pte, l);
      if fault {
        pageFault := true;
        return 0;
      }
      var l2 := WriteBack(iswrite, pte, l);
      if memStatus { return 0; }
      phys := Conclude(l2, va);
    }

    /** Success: the translation goes into the TLB. */
    method Conclude(l: Leaf, va: U64) returns (phys: U64)
      requires Valid() && l.level < 5
      modifies tlb, tlb.sizeCount, tlb.tlbEntries
      ensures Valid() && Bus() == old(Bus()) && tlb.Contents() == Add(old(tlb.Contents()), EntryOf(l, va))
      ensures phys == Target(l, va)
    {
      tlb.Insert(EntryOf(l, va));
      phys := Target(l, va);
    }

    method PageTableWalk(va: U64, iswrite: bool) returns (phys: U64)
      requires Valid()
      modifies this`memStatus, this`pageFault, tlb, tlb.sizeCount, tlb.tlbEntries, ram
      ensures Valid()
      ensures var tr := Translate(old(Bus()), privmode, Access(iswrite, old(memStatus)), satp, mstatus, va);
              && memStatus == tr.Denied? && pageFault == (old(pageFault) || tr.Fault?)
              && Bus() == (if tr.To? then tr.bus else old(Bus()))
              && tlb.Contents() == Fill(old(tlb.Contents()), tr, va)
              && phys == if tr.To? then tr.phys else if tr.Bare? then va else 0
    {
      var mode := satp / 0x1000_0000_0000_0000;
      var level := if mode == 8 then 3 else if mode == 9 then 4 else if mode == 10 then 5 else 0;
      if level == 0 {
        memStatus := false;
        return va;
      }
      var load := memStatus;
      var w, pte := DescendTables(va, level);
      FoundReadable(Bus(), privmode, load, satp, va);
      match w {
        case NoAccess => phys := 0;
        case NoPage => pageFault := true; phys := 0;
        case Found(l) => phys := UseLeaf(va, iswrite, load, pte, l);
      }
    }

    /** The PTE read at the head of the loop over levels. */
    method FetchPte(va: U64, a: TableAddr, i: nat, load: bool) returns (pteAddr: U64, pte: nat)
      requires Valid()
      modifies this`memStatus
      ensures pteAddr == PteAddr(a, va, i)
      ensures PageWalk.ReadPte(Bus(), privmode, load, pteAddr) == if memStatus then Refused else Pte(Decode(pte))
      ensures !memStatus ==> pte == PteAt(Bus(), pteAddr)
    {
      memStatus := load;
      PteAddrAligned(a, va, i);
      pteAddr := PteAddr(a, va, i);
      pte := MemFetch(pteAddr, 8);
    }

    /** The loop over levels; pte is the leaf PTE it stops at. */
    method DescendTables(va: U64, level: nat) returns (w: Walked, pte: nat)
      requires Valid() && level == Levels(satp)
      modifies this`memStatus
      ensures w == Walk(Bus(), privmode, old(memStatus), satp, va)
      ensures level > 0 ==> memStatus == w.NoAccess?
      ensures w.Found? ==> pte == PteAt(Bus(), w.leaf.pteAddr)
    {
      ghost var b := Bus();
      var a: TableAddr := Root(satp);
      var load := memStatus;
      var i: int := level - 1;
      pte := 0;
      while i >= 0
        invariant -1 <= i < level
        invariant Walk(b, privmode, load, satp, va) == Rest(b, privmode, load, va, a, i + 1)
        invariant i < level - 1 ==> !memStatus
      {
        var pteAddr;
        pteAddr, pte := FetchPte(va, a, i, load);
        RestStep(b, privmode, load, va, a, i + 1, pteAddr);
        if memStatus { return NoAccess, pte; }
        match Decode(pte) {
          case Bad => return NoPage, pte;
          case Next(table) => a := table;
          case Final(frame, perms, user) => return Found(Leaf(pteAddr, i, frame, perms, user)), pte;
        }
        i := i - 1;
      }
      return NoPage, pte;
    }

    // ---------- TLB lookups ----------

    /** The hit path of tlb_find. */
    method UseEntry(va: U64, write: bool, e: Entry) returns (phys: U64)
      requires Valid()
      modifies this`memStatus, ram
      ensures var k := Hit(old(Bus()), privmode, Access(write, old(memStatus)), va, e);
              Bus() == k.bus && phys == k.phys && memStatus == k.load
    {
      var pte := MemFetch(e.pteAddr, 8);
      if !AllOnesButAD(pte) {
        MemStore(e.pteAddr, 8, SetAD(pte, write));
        if memStatus {
          memStatus := false;
          return 0;
        }
      }
      phys := Wrap(e.phyPage + va % PageSize(e.size));
    }

    /** tlb_find; the permission asked for is W for a write, else R or X as mem_status says. */
    method TlbFind(va: U64, write: bool) returns (phys: U64)
      requires Valid()
      modifies this`memStatus, ram
      ensures var k := Lookup(old(Bus()), tlb.Contents(), satp, mstatus, privmode, Access(write, old(memStatus)), va);
              Bus() == k.bus && phys == k.phys && memStatus == k.load
    {
      if satp == 0 { return va; }
      ghost var t := tlb.Contents();
      var acc := Access(write, memStatus);
      var i: int := tlb.maxEntrySize;
      while i >= 0
        modifies {}
        invariant -1 <= i < 6
        invariant Find(t, va, acc, privmode, Sum(mstatus), t.maxSize) == Find(t, va, acc, privmode, Sum(mstatus), i)
      {
        var e := tlb.tlbEntries[Hash(PageBase(va, i))];
        if i == e.size && Live(e) && SamePage(va, e.virtPage, i) && Permits(e, acc) {
          if !(privmode == 0 && !e.user) && !(privmode >= 1 && e.user && !Sum(mstatus)) {
            assert Find(t, va, acc, privmode, Sum(mstatus), t.maxSize) == Some(e);
            break;
          }
        }
        i := i - 1;
      }
      if i < 0 { return 0; }
      phys := UseEntry(va, write, tlb.tlbEntries[Hash(PageBase(va, i))]);
    }

    // ---------- virtual accesses ----------

    /** How an access shows in memory, TLB and the two fault flags. */
    static ghost function Shown(r: After): (PageWalk.Bus, Cache, bool, bool)
    {
      (r.bus, r.tlb, r.out.AccessFault?, r.out.PageFault?)
    }

    /** The state page_table_walk leaves behind, from the bus b and with the result tr. */
    ghost predicate Walked(b: PageWalk.Bus, tr: Translation, va: U64, phys: U64)
      reads this, pmp, ram, pmp.expanded
    {
      && memStatus == tr.Denied? && pageFault == tr.Fault?
      && Bus() == (if tr.To? then tr.bus else b) && (tr.To? ==> tr.bus.pmp == b.pmp)
      && phys == if tr.To? then tr.phys else if tr.Bare? then va else 0
    }

    /** The miss path of virt_mem_fetch. */
    method WalkedFetch(va: U64, n: nat) returns (v: nat)
      requires Valid() && !pageFault && (n == 1 || n == 2 || n == 4 || n == 8)
      modifies this`memStatus, this`pageFault, tlb, tlb.sizeCount, tlb.tlbEntries, ram
      ensures Valid()
      ensures var r := WalkAccess(old(Bus()), old(tlb.Contents()), satp, mstatus, privmode,
                                  Access(false, old(memStatus)), n, va, 0);
              && (Bus(), tlb.Contents(), memStatus, pageFault) == Shown(r)
              && v == if r.out.Done? then r.out.value else 0
    {
      ghost var b, tr := Bus(), Translate(Bus(), privmode, Access(false, memStatus), satp, mstatus, va);
      ghost var acc := Access(false, memStatus);
      WalkedIs(b, tlb.Contents(), satp, mstatus, privmode, acc, n, va, 0, tr,
               WalkAccess(b, tlb.Contents(), satp, mstatus, privmode, acc, n, va, 0));
      var status := memStatus;
      var phys := PageTableWalk(va, false);
      v := FinishFetch(phys, n, status, va, b, tr);
    }

    /** What follows page_table_walk there; b and tr are the bus before it and its result. */
    method FinishFetch(phys: U64, n: nat, load: bool, va: U64, ghost b: PageWalk.Bus, ghost tr: Translation)
      returns (v: nat)
      requires Valid() && (n == 1 || n == 2 || n == 4 || n == 8) && Walked(b, tr, va, phys)
      modifies this`memStatus
      ensures var (b', out) := Finish(b, privmode, Access(false, load), n, va, 0, tr);
              && Bus() == b' && memStatus == out.AccessFault? && pageFault == out.PageFault?
              && v == if out.Done? then out.value else 0
    {
      if pageFault || memStatus { return 0; }
      memStatus := load;
      v := MemFetch(phys, n);
    }

    /** virt_mem_fetch once privmode is the privilege to translate with. */
    method TranslatedFetch(va: U64, n: nat) returns (v: nat)
      requires Valid() && !pageFault && (n == 1 || n == 2 || n == 4 || n == 8)
      modifies this`memStatus, this`pageFault, tlb, tlb.sizeCount, tlb.tlbEntries, ram
      ensures Valid()
      ensures var r := TranslatedAccess(old(Bus()), old(tlb.Contents()), satp, mstatus, privmode,
                                        Access(false, old(memStatus)), n, va, 0);
              && (Bus(), tlb.Contents(), memStatus, pageFault) == Shown(r)
              && v == if r.out.Done? then r.out.value else 0
    {
      ghost var acc := Access(false, memStatus);
      LookedUp(Bus(), tlb.Contents(), satp, mstatus, privmode, acc, n, va, 0,
               Lookup(Bus(), tlb.Contents(), satp, mstatus, privmode, acc, va));
      var phys := TlbFind(va, false);
      if phys == 0 {
        v := WalkedFetch(va, n);
      } else {
        v := MemFetch(phys, n);
      }
    }

    /** The miss path of virt_mem_store. */
    method WalkedStore(va: U64, n: nat, data: nat)
      requires Valid() && !pageFault && (n == 1 || n == 2 || n == 4 || n == 8)
      modifies this`memStatus, this`pageFault, tlb, tlb.sizeCount, tlb.tlbEntries, ram
      ensures Valid()
      ensures var r := WalkAccess(old(Bus()), old(tlb.Contents()), satp, mstatus, privmode,
                                  Access(true, old(memStatus)), n, va, data);
              (Bus(), tlb.Contents(), memStatus, pageFault) == Shown(r)
    {
      ghost var b, tr := Bus(), Translate(Bus(), privmode, Access(true, memStatus), satp, mstatus, va);
      ghost var acc := Access(true, memStatus);
      WalkedIs(b, tlb.Contents(), satp, mstatus, privmode, acc, n, va, data, tr,
               WalkAccess(b, tlb.Contents(), satp, mstatus, privmode, acc, n, va, data));
      var status := memStatus;
      var phys := PageTableWalk(va, true);
      FinishStore(phys, n, data, status, va, b, tr);
    }

    /** What follows page_table_walk there. */
    method FinishStore(phys: U64, n: nat, data: nat, load: bool, va: U64, ghost b: PageWalk.Bus, ghost tr: Translation)
      requires Valid() && (n == 1 || n == 2 || n == 4 || n == 8) && Walked(b, tr, va, phys)
      modifies this`memStatus, ram
      ensures var (b', out) := Finish(b, privmode, Access(true, load), n, va, data, tr);
              Bus() == b' && memStatus == out.AccessFault? && pageFault == out.PageFault?
    {
      if pageFault || memStatus { return; }
      memStatus := load;
      MemStore(phys, n, data);
    }

    /** virt_mem_store once privmode is the privilege to translate with. */
    method TranslatedStore(va: U64, n: nat, data: nat)
      requires Valid() && !pageFault && (n == 1 || n == 2 || n == 4 || n == 8)
      modifies this`memStatus, this`pageFault, tlb, tlb.sizeCount, tlb.tlbEntries, ram
      ensures Valid()
      ensures var r := TranslatedAccess(old(Bus()), old(tlb.Contents()), satp, mstatus, privmode,
                                        Access(true, old(memStatus)), n, va, data);
              (Bus(), tlb.Contents(), memStatus, pageFault) == Shown(r)
    {
      ghost var acc := Access(true, memStatus);
      LookedUp(Bus(), tlb.Contents(), satp, mstatus, privmode, acc, n, va, data,
               Lookup(Bus(), tlb.Contents(), satp, mstatus, privmode, acc, va));
      var phys := TlbFind(va, true);
      if phys == 0 {
        WalkedStore(va, n, data);
      } else {
        MemStore(phys, n, data);
      }
    }

    method VirtMemFetch(va: U64, n: nat) returns (v: nat)
      requires Valid() && !pageFault && (n == 1 || n == 2 || n == 4 || n == 8)
      modifies this`memStatus, this`pageFault, this`privmode, tlb, tlb.sizeCount, tlb.tlbEntries, ram
      ensures Valid()
      ensures var (s, out) := TlbAccess(old(View()), Access(false, old(memStatus)), n, va, 0);
              && View() == s && memStatus == out.AccessFault? && pageFault == out.PageFault?
              && v == if out.Done? then out.value else 0
    {
      var inMprv := false;
      if privmode == 3 {
        if !(memStatus && mstatus & MPRV_BIT != 0 && Mpp(mstatus) != 3) {
          v := MemFetch(va, n);
          return;
        }
        inMprv := true;
        privmode := Mpp(mstatus);
      }
      TranslatedIs(old(View()), Access(false, memStatus), n, va, 0, privmode);
      v := TranslatedFetch(va, n);
      if inMprv { privmode := 3; }
    }

    method VirtMemStore(va: U64, n: nat, data: nat)
      requires Valid() && !pageFault && (n == 1 || n == 2 || n == 4 || n == 8)
      modifies this`memStatus, this`pageFault, this`privmode, tlb, tlb.sizeCount, tlb.tlbEntries, ram
      ensures Valid()
      ensures var (s, out) := TlbAccess(old(View()), Access(true, old(memStatus)), n, va, data);
              View() == s && memStatus == out.AccessFault? && pageFault == out.PageFault?
    {
      var inMprv := false;
      if privmode == 3 {
        if !(mstatus & MPRV_BIT != 0 && Mpp(mstatus) != 3) {
          MemStore(va, n, data);
          return;
        }
        inMprv := true;
        privmode := Mpp(mstatus);
      }
      TranslatedIs(old(View()), Access(true, memStatus), n, va, data, privmode);
      TranslatedStore(va, n, data);
      if inMprv { privmode := 3; }
    }
  }
}
