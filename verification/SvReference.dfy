/**
 Translation against the algorithm of sections 4.3.2, 4.4.1, 4.5.1 and 4.6.1 of the RISC-V Privileged Architecture.
 The algorithm is written out on its own: levels, field positions, PTE bits, privilege and mstatus bits.
 */
module SvReference {
  import opened Base
  import opened PhysMem
  import opened Tlb
  import opened PageWalk
  import opened WalkTheorems
  import opened Mmu
  import Pmp

  // ---------- fields ----------

  /** LEVELS, by satp.MODE: Sv39, Sv48, Sv57, or no translation. */
  function SvLevels(satp: U64): (n: nat)
    ensures n <= 5
  {
    var mode := satp / 0x1000_0000_0000_0000;
    if mode == 8 then 3 else if mode == 9 then 4 else if mode == 10 then 5 else 0
  }

  /** The bytes that a leaf at level i maps: 4 KiB, 2 MiB, 1 GiB, 512 GiB, 256 TiB. */
  function SvSize(i: nat): (p: int)
    ensures p > 0
  {
    if i == 0 then 0x1000
    else if i == 1 then 0x20_0000
    else if i == 2 then 0x4000_0000
    else if i == 3 then 0x80_0000_0000
    else 0x1_0000_0000_0000
  }

  /** va.vpn[i] */
  function Vpn(va: nat, i: nat): (v: nat)
  {
    va / SvSize(i) % 512
  }

  /** pte.ppn: bits 10 to 53 */
  function PtePpn(p: nat): nat
  {
    p / 0x400 % 0x1000_0000_0000
  }

  predicate SvV(p: nat) { p % 2 == 1 }
  predicate SvR(p: nat) { p / 2 % 2 == 1 }
  predicate SvW(p: nat) { p / 4 % 2 == 1 }
  predicate SvX(p: nat) { p / 8 % 2 == 1 }
  predicate SvU(p: nat) { p / 0x10 % 2 == 1 }
  predicate SvA(p: nat) { p / 0x40 % 2 == 1 }
  predicate SvD(p: nat) { p / 0x80 % 2 == 1 }

  /** mstatus.SUM and mstatus.MXR */
  predicate SvSum(mstatus: bv64) { (mstatus >> 18) & 1 == 1 }
  predicate SvMxr(mstatus: bv64) { (mstatus >> 19) & 1 == 1 }

  /** One bit, as a remainder and as a quotient. */
  lemma FlagIs(p: nat, k: int)
    requires k > 0
    ensures p % (2 * k) >= k <==> p / k % 2 == 1
  {
    var q, r := p / k, p % k;
    Regroup(k, q);
    DivModIs(p, 2 * k, q / 2, k * (q % 2) + r);
  }

  lemma Regroup(k: int, q: int)
    requires k > 0
    ensures k * q == (2 * k) * (q / 2) + k * (q % 2)
    ensures k * (q % 2) == if q % 2 == 1 then k else 0
  {
    assert q == 2 * (q / 2) + q % 2;
    assert k * (2 * (q / 2)) == (2 * k) * (q / 2);
  }

  lemma FlagsAre(p: nat)
    ensures PteV(p) == SvV(p) && PteR(p) == SvR(p) && PteW(p) == SvW(p) && PteX(p) == SvX(p) && PteU(p) == SvU(p)
  {
    FlagIs(p, 2);
    FlagIs(p, 4);
    FlagIs(p, 8);
    FlagIs(p, 0x10);
  }

  lemma StatusFlagsAre(mstatus: bv64)
    ensures Sum(mstatus) == SvSum(mstatus) && Mxr(mstatus) == SvMxr(mstatus)
  {
  }

  lemma SizeIs(i: nat)
    requires i <= 4
    ensures SvSize(i) == PageSize(i)
  {
    assert PageSize(1) == 512 * PageSize(0) && PageSize(2) == 512 * PageSize(1) && PageSize(3) == 512 * PageSize(2);
    assert PageSize(4) == 512 * PageSize(3);
  }

  /** Step 3: pte.v = 0, or pte.r = 0 and pte.w = 1 */
  predicate SvInvalid(p: nat)
  {
    !SvV(p) || (!SvR(p) && SvW(p))
  }

  /** Step 4: pte.r = 1 or pte.x = 1 */
  predicate SvLeaf(p: nat)
  {
    SvR(p) || SvX(p)
  }

  /** Step 2: a + va.vpn[i] * PTESIZE */
  function SvPteAddr(ppn: nat, va: nat, i: nat): nat
  {
    ppn * 0x1000 + Vpn(va, i) * 8
  }

  datatype SvStep = Fail | Down(ppn: nat) | Stop(ppn: nat, perms: Perms, user: bool)

  /** Steps 3 and 4 on a PTE. */
  function SvDecode(p: nat): SvStep
  {
    if SvInvalid(p) then Fail
    else if SvLeaf(p) then Stop(PtePpn(p), Perms(SvR(p), SvW(p), SvX(p)), SvU(p))
    else Down(PtePpn(p))
  }

  /** Steps 2 to 5 for the table numbered ppn; the leaf keeps pte.ppn as a page address. */
  function SvWalkFrom(b: Bus, priv: int, load: bool, va: nat, ppn: nat, n: nat): Walked
    decreases n
  {
    if n == 0 then NoPage
    else
      var pa := SvPteAddr(ppn, va, n - 1);
      if !ReadOk(b, priv, load, pa, 8) then NoAccess
      else
        match SvDecode(PteAt(b, pa))
        case Fail => NoPage
        case Down(next) => SvWalkFrom(b, priv, load, va, next, n - 1)
        case Stop(frame, perms, user) => Found(Leaf(Wrap(pa), n - 1, Wrap(frame * 0x1000), perms, user))
  }

  function SvWalk(b: Bus, priv: int, load: bool, satp: U64, va: nat): Walked
  {
    SvWalkFrom(b, priv, load, va, satp % 0x1000_0000_0000, SvLevels(satp))
  }

  /** Bits 54 to 60, reserved in a non-leaf PTE. */
  function Reserved(p: nat): nat
  {
    p / 0x40_0000_0000_0000 % 0x80
  }

  /** A pointer PTE leads the code to the manual's next table exactly when its reserved bits are zero. */
  lemma NextTableExact(p: nat)
    ensures NextTable(p) == PtePpn(p) * 0x1000 <==> Reserved(p) == 0
  {
    var x := p / 0x400;
    var hi, lo := x / 0x1000_0000_0000, x % 0x1000_0000_0000;
    assert p / 0x40_0000_0000_0000 == hi;
    DivModIs(x, 0x8_0000_0000_0000, hi / 0x80, 0x1000_0000_0000 * (hi % 0x80) + lo);
  }

  /** Every pointer the manual's walk follows has zero reserved bits. */
  predicate CleanFrom(b: Bus, va: nat, ppn: nat, n: nat)
    decreases n
  {
    n == 0 ||
    var p := PteAt(b, SvPteAddr(ppn, va, n - 1));
    var s := SvDecode(p);
    s.Down? ==> Reserved(p) == 0 && CleanFrom(b, va, s.ppn, n - 1)
  }

  predicate Clean(b: Bus, satp: U64, va: nat)
  {
    CleanFrom(b, va, satp % 0x1000_0000_0000, SvLevels(satp))
  }

  lemma SvPteAddrSame(ppn: nat, va: nat, a: TableAddr, i: nat)
    requires a == ppn * 0x1000 && i <= 4
    ensures SvPteAddr(ppn, va, i) == PteAddr(a, va, i) == Wrap(PteAddr(a, va, i))
  {
    SizeIs(i);
    PteAddrAligned(a, va, i);
  }

  lemma DecodeIsSv(p: nat)
    ensures match SvDecode(p)
            case Fail => Decode(p) == Bad
            case Down(ppn) => Decode(p).Next? && (Reserved(p) == 0 ==> Decode(p).table == ppn * 0x1000)
            case Stop(ppn, perms, user) => Decode(p) == Final(Wrap(ppn * 0x1000), perms, user)
  {
    FlagsAre(p);
    NextTableExact(p);
  }

  /** One level, given that the next tables agree. */
  lemma StepIsSv(b: Bus, priv: int, load: bool, va: nat, ppn: nat, a: TableAddr, n: nat, pa: U64, p: nat)
    requires 0 < n <= 5 && a == ppn * 0x1000 && pa == PteAddr(a, va, n - 1) && p == PteAt(b, pa)
    requires SvDecode(p).Down? ==>
               Decode(p).Next? && Rest(b, priv, load, va, Decode(p).table, n - 1)
                               == SvWalkFrom(b, priv, load, va, SvDecode(p).ppn, n - 1)
    ensures Rest(b, priv, load, va, a, n) == SvWalkFrom(b, priv, load, va, ppn, n)
  {
    SvPteAddrSame(ppn, va, a, n - 1);
    RestStep(b, priv, load, va, a, n, pa);
    DecodeIsSv(p);
  }

  lemma CleanNext(b: Bus, va: nat, ppn: nat, n: nat, p: nat)
    requires n > 0 && CleanFrom(b, va, ppn, n) && p == PteAt(b, SvPteAddr(ppn, va, n - 1)) && SvDecode(p).Down?
    ensures Decode(p).Next? && Decode(p).table == SvDecode(p).ppn * 0x1000 && CleanFrom(b, va, SvDecode(p).ppn, n - 1)
  {
    DecodeIsSv(p);
  }

  lemma {:induction false} WalkFromIsSv(b: Bus, priv: int, load: bool, va: nat, ppn: nat, a: TableAddr, n: nat)
    requires a == ppn * 0x1000 && CleanFrom(b, va, ppn, n) && n <= 5
    ensures Rest(b, priv, load, va, a, n) == SvWalkFrom(b, priv, load, va, ppn, n)
    decreases n
  {
    if n > 0 {
      SvPteAddrSame(ppn, va, a, n - 1);
      var pa := PteAddr(a, va, n - 1);
      var p := PteAt(b, pa);
      if SvDecode(p).Down? {
        CleanNext(b, va, ppn, n, p);
        WalkFromIsSv(b, priv, load, va, SvDecode(p).ppn, Decode(p).table, n - 1);
      }
      StepIsSv(b, priv, load, va, ppn, a, n, pa, p);
    }
  }

  /** In Sv39, Sv48 and Sv57 the walk is the manual's, for page tables with clean pointers. */
  lemma WalkIsSv(b: Bus, priv: int, load: bool, satp: U64, va: nat)
    requires Clean(b, satp, va)
    ensures Walk(b, priv, load, satp, va) == SvWalk(b, priv, load, satp, va)
  {
    WalkFromIsSv(b, priv, load, va, satp % 0x1000_0000_0000, Root(satp), Levels(satp));
  }

  // ---------- the physical address ----------

  /** The page offset and va.vpn[level - 1 : 0]. */
  function LowFields(va: nat, level: nat): nat
  {
    if level == 0 then va % 0x1000 else LowFields(va, level - 1) + Vpn(va, level - 1) * SvSize(level - 1)
  }

  /** The manual's pa: low fields from the virtual address, the others from the PTE. */
  function SvPhys(l: Leaf, va: nat): int
  {
    l.frame / SvSize(l.level) * SvSize(l.level) + LowFields(va, l.level)
  }

  lemma Distribute(p: int, q: int, f: int)
    ensures p * (512 * q + f) == (512 * p) * q + f * p
  {
  }

  lemma ProductBound(f: int, p: int)
    requires 0 <= f <= 511 && p > 0
    ensures 0 <= f * p <= 511 * p
  {
  }

  lemma SplitField(va: nat, p: int)
    requires p > 0
    ensures va % (512 * p) == va % p + va / p % 512 * p
  {
    var x := va / p;
    var q, f := x / 512, x % 512;
    Distribute(p, q, f);
    ProductBound(f, p);
    DivModIs(va, 512 * p, q, f * p + va % p);
  }

  lemma {:induction false} LowFieldsAreOffset(va: nat, level: nat)
    requires level <= 5
    ensures LowFields(va, level) == va % PageSize(level)
  {
    if level > 0 {
      LowFieldsAreOffset(va, level - 1);
      SizeIs(level - 1);
      SplitField(va, PageSize(level - 1));
      assert PageSize(level) == 512 * PageSize(level - 1);
    }
  }

  /** A superpage-aligned frame makes the code's addition carry-free. */
  lemma TargetIsSvPhys(l: Leaf, va: nat)
    requires l.level <= 4 && l.frame % PageSize(l.level) == 0 && l.frame < 0x100_0000_0000_0000
    ensures Target(l, va) == SvPhys(l, va)
  {
    LowFieldsAreOffset(va, l.level);
    OffsetBound(va, l.level);
    SizeIs(l.level);
    assert l.frame == PageSize(l.level) * (l.frame / PageSize(l.level)) + l.frame % PageSize(l.level);
  }

  lemma {:induction false} OffsetBound(va: nat, level: nat)
    requires level <= 4
    ensures 0 <= va % PageSize(level) < PageSize(level) <= 0x1_0000_0000_0000
    decreases 4 - level
  {
    if level < 4 {
      OffsetBound(va, level + 1);
    } else {
      assert PageSize(4) == 512 * 512 * PageSize(2);
    }
  }

  /** All addresses of one leaf page move by the same displacement. */
  lemma SameDisplacement(l: Leaf, va: nat, vb: nat)
    requires l.level <= 4 && l.frame < 0x100_0000_0000_0000 && SamePage(va, vb, l.level)
    ensures Target(l, va) - va == Target(l, vb) - vb
  {
    var p := PageSize(l.level);
    OffsetBound(va, l.level);
    OffsetBound(vb, l.level);
    assert va == p * (va / p) + va % p && vb == p * (vb / p) + vb % p;
  }

  lemma FrameBound(p: nat)
    ensures Frame(p) < 0x100_0000_0000_0000 && Frame(p) % 0x1000 == 0
  {
  }

  // ---------- step 5: the permission check ----------

  /** pte.r, pte.w and pte.x; MXR makes executable pages readable. */
  predicate SvRight(l: Leaf, acc: Access, mstatus: bv64)
  {
    if acc.write then l.perms.w
    else if acc.load then l.perms.r || (SvMxr(mstatus) && l.perms.x)
    else l.perms.x
  }

  /** pte.u; SUM lets S mode load from and store to user pages, nothing lets it execute them. */
  predicate SvOwner(l: Leaf, acc: Access, priv: nat, mstatus: bv64)
  {
    if priv == 0 then l.user else !l.user || (SvSum(mstatus) && (acc.write || acc.load))
  }

  /** pa.ppn[i] of a page address */
  function Ppn(frame: nat, i: nat): nat
  {
    frame / SvSize(i) % 512
  }

  /** Step 6: pte.ppn[level - 1 : 0] = 0 */
  predicate SvAligned(l: Leaf)
  {
    forall j :: 0 <= j < l.level ==> Ppn(l.frame, j) == 0
  }

  predicate SvAllows(l: Leaf, acc: Access, priv: nat, mstatus: bv64)
  {
    SvRight(l, acc, mstatus) && SvOwner(l, acc, priv, mstatus) && SvAligned(l)
  }

  /** MXR is set and decides: the manual applies it to loads from execute-only pages, the code to fetches. */
  predicate MxrDecides(l: Leaf, acc: Access, priv: nat, mstatus: bv64)
  {
    && SvMxr(mstatus) && !acc.write && (if acc.load then l.perms.x && !l.perms.r else l.perms.r && !l.perms.x)
    && SvOwner(l, acc, priv, mstatus) && SvAligned(l)
  }

  lemma {:induction false} AlignedFields(frame: nat, level: nat)
    requires frame % 0x1000 == 0 && level <= 5
    ensures frame % PageSize(level) == 0 <==> forall j :: 0 <= j < level ==> Ppn(frame, j) == 0
    decreases level
  {
    if level > 0 {
      AlignedFields(frame, level - 1);
      SizeIs(level - 1);
      var p := PageSize(level - 1);
      SplitField(frame, p);
      ProductBound(Ppn(frame, level - 1), p);
      SumIsZero(frame % p, Ppn(frame, level - 1), p);
      assert PageSize(level) == 512 * p;
    }
  }

  lemma SumIsZero(low: nat, f: nat, p: int)
    requires p > 0
    ensures low + f * p == 0 <==> low == 0 && f == 0
  {
    if f > 0 {
      assert f * p >= p;
    }
  }

  /** The checks of page_table_walk are the manual's exactly when MXR does not decide. */
  lemma AdmitsExact(l: Leaf, acc: Access, priv: nat, mstatus: bv64)
    requires l.frame % 0x1000 == 0 && l.level <= 4
    ensures Admits(l, acc, priv, mstatus) == SvAllows(l, acc, priv, mstatus) <==> !MxrDecides(l, acc, priv, mstatus)
  {
    AlignedFields(l.frame, l.level);
    StatusFlagsAre(mstatus);
  }

  // ---------- step 7: the A and D bits ----------

  predicate SvDone(p: nat, write: bool)
  {
    SvA(p) && (write ==> SvD(p))
  }

  /** pte.a set, and pte.d for a store */
  function SvMark(p: nat, write: bool): nat
  {
    p + (if SvA(p) then 0 else 0x40) + if write && !SvD(p) then 0x80 else 0
  }

  /** Every bit of the PTE is one, but perhaps A and D. */
  predicate SvFull(p: nat)
  {
    SvMark(p, true) == 0xFFFF_FFFF_FFFF_FFFF
  }

  lemma MarkIs(p: nat, write: bool)
    ensures SvMark(p, write) == SetAD(p, write)
  {
    FlagIs(p, 0x40);
    FlagIs(p, 0x80);
    if !SvA(p) {
      FlagIs(p + 0x40, 0x80);
      DivModIs(p + 0x40, 0x80, p / 0x80, p % 0x80 + 0x40);
    }
  }

  lemma FullIs(p: nat)
    ensures SvFull(p) == AllOnesButAD(p)
  {
    MarkIs(p, true);
    SetADSame(p, true);
    var m := SvMark(p, true);
    assert m / 0x100 == p / 0x100 && m % 0x40 == p % 0x40;
    MarkedBits(p);
  }

  lemma MarkedBits(p: nat)
    ensures var m := SvMark(p, true); m % 0x100 / 0x40 == 3
  {
    var low, high := p % 0x40, p / 0x100;
    var a, d := p / 0x40 % 2, p / 0x80 % 2;
    assert p == 0x100 * high + 0x80 * d + 0x40 * a + low;
    DivModIs(SvMark(p, true), 0x100, high, 0xC0 + low);
    DivModIs(0xC0 + low, 0x40, 3, low);
  }

  /** Nothing to write, or the PTE with its bits set; None is the access fault of a refused write. */
  function SvUpdate(b: Bus, priv: nat, pa: int, write: bool): Option<Bus>
  {
    var p := PteAt(b, pa);
    if SvDone(p, write) then Some(b)
    else if WriteOk(b, priv, pa, 8) then Some(Store(b, pa, 8, SvMark(p, write)))
    else None
  }

  function CodeUpdate(b: Bus, priv: nat, pa: int, write: bool): Option<Bus>
  {
    if CanUpdate(b, priv, pa) then Some(UpdateAD(b, pa, write)) else None
  }

  /**
   The code needs write permission even with the bits set, and skips the update of a PTE of all ones instead;
   words below main_mem take no stores, so there a skipped store is not missed.
   */
  predicate UpdateDeparts(b: Bus, priv: nat, pa: int, write: bool)
  {
    var p := PteAt(b, pa);
    if SvFull(p) then !SvDone(p, write) && !(WriteOk(b, priv, pa, 8) && pa < RAM_BASE)
    else SvDone(p, write) && !WriteOk(b, priv, pa, 8)
  }

  /** A PTE is done when setting its bits changes nothing. */
  lemma DoneIs(p: nat, write: bool)
    ensures SvDone(p, write) ==> SetAD(p, write) == p
  {
    MarkIs(p, write);
  }

  lemma StoreShows(b: Bus, pa: int, write: bool)
    requires InRange(b, pa) && !SvDone(PteAt(b, pa), write)
    ensures Store(b, pa, 8, SetAD(PteAt(b, pa), write)) == b <==> pa < RAM_BASE
  {
    var p := PteAt(b, pa);
    SetADSame(p, write);
    if pa >= RAM_BASE {
      PutLowByte(b.mem, pa, 8, SetAD(p, write));
      LowByte(ByteAt(b.mem, pa), Bytes(b.mem, pa + 1, 7));
      LowByteChanges(p, write);
      assert ByteAt(SetByte(b.mem, pa, SetAD(p, write) % 256), pa) == SetAD(p, write) % 256;
    }
  }

  lemma LowByteChanges(p: nat, write: bool)
    requires !SvDone(p, write)
    ensures SetAD(p, write) % 256 != p % 256
  {
    MarkIs(p, write);
  }

  lemma UpdateExact(b: Bus, priv: nat, pa: int, write: bool)
    requires InRange(b, pa)
    ensures CodeUpdate(b, priv, pa, write) == SvUpdate(b, priv, pa, write) <==> !UpdateDeparts(b, priv, pa, write)
  {
    MarkIs(PteAt(b, pa), write);
    FullIs(PteAt(b, pa));
    DoneIs(PteAt(b, pa), write);
    if SvDone(PteAt(b, pa), write) {
      PutGetSame(b.mem, pa, 8);
    } else {
      StoreShows(b, pa, write);
    }
  }

  // ---------- steps 1 to 8 ----------

  function SvOnLeaf(b: Bus, priv: nat, acc: Access, mstatus: bv64, va: nat, l: Leaf): Translation
  {
    if !SvAllows(l, acc, priv, mstatus) then Fault
    else
      match SvUpdate(b, priv, l.pteAddr, acc.write)
      case None => Denied
      case Some(b') => To(Wrap(SvPhys(l, va)), b', l)
  }

  /** The manual's translation of an address. */
  function SvTranslate(b: Bus, priv: nat, acc: Access, satp: U64, mstatus: bv64, va: nat): Translation
  {
    if SvLevels(satp) == 0 then Bare
    else
      match SvWalk(b, priv, acc.load, satp, va)
      case NoAccess => Denied
      case NoPage => Fault
      case Found(l) => SvOnLeaf(b, priv, acc, mstatus, va, l)
  }

  /** What separates the two on a leaf. */
  predicate LeafDeparts(b: Bus, priv: nat, acc: Access, mstatus: bv64, l: Leaf)
  {
    || MxrDecides(l, acc, priv, mstatus)
    || (SvAllows(l, acc, priv, mstatus) && UpdateDeparts(b, priv, l.pteAddr, acc.write))
  }

  /** The manual's walk finds a leaf that separates them. */
  predicate Departs(b: Bus, priv: nat, acc: Access, satp: U64, mstatus: bv64, va: nat)
  {
    SvLevels(satp) != 0 &&
    var w := SvWalk(b, priv, acc.load, satp, va);
    w.Found? && LeafDeparts(b, priv, acc, mstatus, w.leaf)
  }

  lemma OnLeafIsSv(b: Bus, priv: nat, acc: Access, mstatus: bv64, va: nat, l: Leaf)
    requires l.level <= 4 && l.frame % 0x1000 == 0 && l.frame < 0x100_0000_0000_0000 && InRange(b, l.pteAddr)
    ensures OnLeaf(b, priv, acc, mstatus, va, l) == SvOnLeaf(b, priv, acc, mstatus, va, l)
       <==> !LeafDeparts(b, priv, acc, mstatus, l)
  {
    AdmitsExact(l, acc, priv, mstatus);
    UpdateExact(b, priv, l.pteAddr, acc.write);
    if Admits(l, acc, priv, mstatus) {
      TargetIsSvPhys(l, va);
    }
  }

  /**
   For page tables with clean pointers page_table_walk translates as the manual does, faults, final address and
   memory included, exactly when the leaf is not one on which MXR or the A/D update departs.
   */
  lemma TranslateIsSv(b: Bus, priv: nat, acc: Access, satp: U64, mstatus: bv64, va: nat)
    requires Clean(b, satp, va)
    ensures Translate(b, priv, acc, satp, mstatus, va) == SvTranslate(b, priv, acc, satp, mstatus, va)
       <==> !Departs(b, priv, acc, satp, mstatus, va)
  {
    WalkIsSv(b, priv, acc.load, satp, va);
    var w := Walk(b, priv, acc.load, satp, va);
    if w.Found? {
      FoundReadable(b, priv, acc.load, satp, va);
      FrameBound(PteAt(b, w.leaf.pteAddr));
      OnLeafIsSv(b, priv, acc, mstatus, va, w.leaf);
    }
  }

  // ---------- loads, stores and fetches ----------

  /** mstatus.MPP */
  function SvMpp(mstatus: bv64): nat
  {
    (if (mstatus >> 12) & 1 == 1 then 2 else 0) + if (mstatus >> 11) & 1 == 1 then 1 else 0
  }

  /**
   Section 3.1.6.3: below M mode the privilege of the hart; in M mode none, but for loads and stores with
   mstatus.MPRV set MPP's.
   */
  function SvPrivilege(c: Core, acc: Access): Option<nat>
  {
    if c.priv != 3 then Some(c.priv)
    else if (acc.load || acc.write) && (c.mstatus >> 17) & 1 == 1 && SvMpp(c.mstatus) != 3 then Some(SvMpp(c.mstatus))
    else None
  }

  lemma PrivilegeIs(c: Core, acc: Access)
    ensures Effective(c, acc) == (match SvPrivilege(c, acc) case None => None case Some(p) => Some(p))
  {
    var f := (c.mstatus >> 11) & 3;
    assert (c.mstatus >> 12) & 1 == f >> 1 && (c.mstatus >> 11) & 1 == f & 1;
  }

  /** n bytes at a physical address, if it is one and PMP lets privilege p read (1), write (2) or execute (4) there. */
  function SvPhysical(b: Bus, p: nat, acc: Access, n: nat, a: nat, data: nat): (Bus, Outcome)
  {
    if a < 0x1000 || a >= 0x8000_0000 + |b.mem.ram| then (b, AccessFault)
    else if !Pmp.Granted(b.pmp, p, a, n, if acc.write then 2 else if acc.load then 1 else 4) then (b, AccessFault)
    else if acc.write then (Bus(Put(b.mem, a, n, data), b.pmp), Done(0))
    else (b, Done(Get(b.mem, a, n)))
  }

  /** A load, store or fetch by the manual: privilege, translation, then the access. */
  function SvAccess(c: Core, acc: Access, n: nat, va: nat, data: nat): (Core, Outcome)
  {
    var (b, out) :=
      match SvPrivilege(c, acc)
      case None => SvPhysical(c.bus, c.priv, acc, n, va, data)
      case Some(p) =>
        match SvTranslate(c.bus, p, acc, c.satp, c.mstatus, va)
        case Denied => (c.bus, AccessFault)
        case Fault => (c.bus, PageFault)
        case Bare => SvPhysical(c.bus, p, acc, n, va, data)
        case To(phys, b', _) => SvPhysical(b', p, acc, n, phys, data);
    (c.(bus := b), out)
  }

  lemma PhysicalIs(b: Bus, p: nat, acc: Access, n: nat, a: nat, data: nat)
    ensures Physical(b, p, acc, n, a, data) == SvPhysical(b, p, acc, n, a, data)
  {
  }

  /** Does the code translate this access as the manual does? */
  predicate Standard(c: Core, acc: Access, va: nat)
  {
    match SvPrivilege(c, acc)
    case None => true
    case Some(p) => Clean(c.bus, c.satp, va) && !Departs(c.bus, p, acc, c.satp, c.mstatus, va)
  }

  /**
   The access of the machine that has no TLB is the manual's, value, fault and memory, wherever the translations
   agree.
   */
  lemma AccessIsSv(c: Core, acc: Access, n: nat, va: nat, data: nat)
    requires Standard(c, acc, va)
    ensures RefAccess(c, acc, n, va, data) == SvAccess(c, acc, n, va, data)
  {
    PrivilegeIs(c, acc);
    match SvPrivilege(c, acc)
    case None => PhysicalIs(c.bus, c.priv, acc, n, va, data);
    case Some(p) =>
      TranslateIsSv(c.bus, p, acc, c.satp, c.mstatus, va);
      match SvTranslate(c.bus, p, acc, c.satp, c.mstatus, va)
      case Denied =>
      case Fault =>
      case Bare => PhysicalIs(c.bus, p, acc, n, va, data);
      case To(phys, b', _) => PhysicalIs(b', p, acc, n, phys, data);
  }
}
