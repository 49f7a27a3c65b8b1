/**
 Physical accesses under PMP, and the page table walk as a recursion over levels. Addresses and PTEs
 are integers below 2^64; shifts and masks are divisions and remainders by powers of two.
 */
module PageWalk {
  import opened Base
  import opened PhysMem
  import opened Tlb
  import Pmp

  // ---------- physical accesses ----------

  /** Everything a physical access depends on. */
  datatype Bus = Bus(mem: Phys, pmp: Pmp.Table)

  predicate InRange(b: Bus, a: int)
  {
    0x1000 <= a < RAM_BASE + |b.mem.ram|
  }

  /** mem_fetch succeeds; load is mem_status on entry. */
  predicate ReadOk(b: Bus, priv: int, load: bool, a: int, n: nat)
  {
    InRange(b, a) && Pmp.Granted(b.pmp, priv, a, n, if load then Pmp.R else Pmp.X)
  }

  /** mem_store succeeds. */
  predicate WriteOk(b: Bus, priv: int, a: int, n: nat)
  {
    InRange(b, a) && Pmp.Granted(b.pmp, priv, a, n, Pmp.W)
  }

  function Store(b: Bus, a: int, n: nat, v: nat): (b': Bus)
    ensures b'.pmp == b.pmp && |b'.mem.ram| == |b.mem.ram|
  {
    b.(mem := Put(b.mem, a, n, v))
  }

  // ---------- page table entries ----------

  predicate PteV(p: int) { p % 2 == 1 }
  predicate PteR(p: int) { p % 4 >= 2 }
  predicate PteW(p: int) { p % 8 >= 4 }
  predicate PteX(p: int) { p % 0x10 >= 8 }
  predicate PteU(p: int) { p % 0x20 >= 0x10 }

  function PtePerms(p: int): Perms
  {
    Perms(PteR(p), PteW(p), PteX(p))
  }

  /** (pte & 0x3FFFFFFFFFFC00) << 2 */
  function Frame(p: int): (f: U64)
    ensures f % 0x1000 == 0
  {
    p / 0x400 % 0x1000_0000_0000 * 0x1000
  }

  /** A page-aligned address that can hold a page table. */
  type TableAddr = a: int | 0 <= a < 0x8000_0000_0000_0000 && a % 0x1000 == 0

  /** PAGENUM((pte >> 10) & ~(0b111 << 51)): bits 54 to 60 are kept. */
  function NextTable(p: int): TableAddr
  {
    p / 0x400 % 0x8_0000_0000_0000 * 0x1000
  }

  /** ~(pte | 0b11 << 6) is zero: the only case in which A and D are not written. */
  predicate AllOnesButAD(p: int)
  {
    p / 0x100 == 0xff_ffff_ffff_ffff && p % 0x40 == 0x3f
  }

  /** The PTE with A set, and D as well for a write. */
  function SetAD(p: int, write: bool): int
  {
    var q := if p % 0x80 >= 0x40 then p else p + 0x40;
    if !write || q % 0x100 >= 0x80 then q else q + 0x80
  }

  /** The two PTE values differ at most in their A and D bits. */
  predicate SameButAD(p: int, q: int)
  {
    p % 0x40 == q % 0x40 && p / 0x100 == q / 0x100
  }

  // ---------- the walk ----------

  datatype Leaf = Leaf(pteAddr: U64, level: nat, frame: U64, perms: Perms, user: bool)

  /** NoAccess: PMP refused a PTE read; NoPage: invalid PTE or no leaf. */
  datatype Walked = NoAccess | NoPage | Found(leaf: Leaf)

  function Levels(satp: U64): (n: nat)
    ensures n <= 5
  {
    var mode := satp / 0x1000_0000_0000_0000;
    if mode == 8 then 3 else if mode == 9 then 4 else if mode == 10 then 5 else 0
  }

  function Root(satp: U64): TableAddr
  {
    satp % 0x1000_0000_0000 * 0x1000
  }

  /** Where level i of the walk reads its PTE in the table at a. */
  function PteAddr(a: int, va: int, i: nat): int
  {
    a + 8 * (va / PageSize(i) % 512)
  }

  function PteAt(b: Bus, pa: int): int
  {
    Get(b.mem, pa, 8)
  }

  /** What the walk makes of a PTE: page fault, the table of the next level, or a leaf. */
  datatype Step = Bad | Next(table: TableAddr) | Final(frame: U64, perms: Perms, user: bool)

  function Decode(p: int): (s: Step)
    ensures s.Final? ==> s.perms != NO_PERMS
  {
    if !PteV(p) || (!PteR(p) && PteW(p)) then Bad
    else if !PteR(p) && !PteW(p) && !PteX(p) then Next(NextTable(p))
    else Final(Frame(p), PtePerms(p), PteU(p))
  }

  /** A PTE read: refused by PMP, or what the PTE says. */
  datatype PteRead = Refused | Pte(step: Step)

  function ReadPte(b: Bus, priv: int, load: bool, pa: int): PteRead
  {
    if ReadOk(b, priv, load, pa, 8) then Pte(Decode(PteAt(b, pa))) else Refused
  }

  /** How the walk sees memory. */
  function Reader(b: Bus, priv: int, load: bool): int -> PteRead
  {
    pa => ReadPte(b, priv, load, pa)
  }

  lemma SlotAligned(a: TableAddr, x: int)
    requires 0 <= x < 512
    ensures (a + 8 * x) % 8 == 0 && 0 <= a + 8 * x < 0x1_0000_0000_0000_0000
  {
    assert a + 8 * x == 8 * (512 * (a / 0x1000) + x);
  }

  lemma PteAddrAligned(a: TableAddr, va: nat, i: nat)
    ensures PteAddr(a, va, i) % 8 == 0 && 0 <= PteAddr(a, va, i) < 0x1_0000_0000_0000_0000
  {
    SlotAligned(a, va / PageSize(i) % 512);
  }

  /** The walk from the table at a, levels n - 1 down to 0. */
  function WalkFrom(rd: int -> PteRead, va: nat, a: TableAddr, n: nat): (w: Walked)
    ensures w.Found? ==> w.leaf.level < n && w.leaf.pteAddr % 8 == 0
    decreases n
  {
    if n == 0 then NoPage
    else
      var pa := PteAddr(a, va, n - 1);
      PteAddrAligned(a, va, n - 1);
      match rd(pa)
      case Refused => NoAccess
      case Pte(Bad) => NoPage
      case Pte(Next(table)) => WalkFrom(rd, va, table, n - 1)
      case Pte(Final(frame, perms, user)) => Found(Leaf(pa, n - 1, frame, perms, user))
  }

  /** What is left of a walk at the table a, with n levels to go. */
  function Rest(b: Bus, priv: int, load: bool, va: nat, a: TableAddr, n: nat): (w: Walked)
    ensures w.Found? ==> w.leaf.level < n && w.leaf.pteAddr % 8 == 0
  {
    WalkFrom(Reader(b, priv, load), va, a, n)
  }

  function Walk(b: Bus, priv: int, load: bool, satp: U64, va: nat): (w: Walked)
    ensures w.Found? ==> w.leaf.level < Levels(satp) && w.leaf.pteAddr % 8 == 0
  {
    Rest(b, priv, load, va, Root(satp), Levels(satp))
  }

  /** One iteration of the loop over levels. */
  lemma RestStep(b: Bus, priv: int, load: bool, va: nat, a: TableAddr, n: nat, pa: U64)
    requires n > 0 && pa == PteAddr(a, va, n - 1)
    ensures Rest(b, priv, load, va, a, n) ==
            match ReadPte(b, priv, load, pa)
            case Refused => NoAccess
            case Pte(Bad) => NoPage
            case Pte(Next(table)) => Rest(b, priv, load, va, table, n - 1)
            case Pte(Final(frame, perms, user)) => Found(Leaf(pa, n - 1, frame, perms, user))
  {
  }

  // ---------- permission checks and the A/D update ----------

  const SUM_BIT: bv64 := 0x4_0000
  const MXR_BIT: bv64 := 0x8_0000

  predicate Sum(mstatus: bv64) { mstatus & SUM_BIT != 0 }
  predicate Mxr(mstatus: bv64) { mstatus & MXR_BIT != 0 }

  /** The checks page_table_walk makes on a leaf. */
  predicate Admits(l: Leaf, acc: Access, priv: int, mstatus: bv64)
  {
    && (if acc.write then l.perms.w
        else if acc.load then l.perms.r
        else l.perms.x || (Mxr(mstatus) && l.perms.r))
    && (if l.user then priv >= 1 ==> Sum(mstatus) && (acc.load || acc.write) else priv != 0)
    && l.frame % PageSize(l.level) == 0
  }

  /** May the A/D update of the PTE go through (or is there none to make)? */
  predicate CanUpdate(b: Bus, priv: int, pa: int)
  {
    AllOnesButAD(PteAt(b, pa)) || WriteOk(b, priv, pa, 8)
  }

  function UpdateAD(b: Bus, pa: int, write: bool): (b': Bus)
    ensures b'.pmp == b.pmp && |b'.mem.ram| == |b.mem.ram|
  {
    if AllOnesButAD(PteAt(b, pa)) then b else Store(b, pa, 8, SetAD(PteAt(b, pa), write))
  }

  /** Bare: translation is off. */
  datatype Translation =
    | Denied
    | Fault
    | Bare
    | To(phys: U64, bus: Bus, leaf: Leaf)

  function Target(l: Leaf, va: nat): U64
  {
    Wrap(va % PageSize(l.level) + l.frame)
  }

  /** What page_table_walk does once it has a leaf. */
  function OnLeaf(b: Bus, priv: int, acc: Access, mstatus: bv64, va: nat, l: Leaf): (t: Translation)
    ensures t.To? ==> t.bus.pmp == b.pmp && t.leaf == l
  {
    if !Admits(l, acc, priv, mstatus) then Fault
    else if !CanUpdate(b, priv, l.pteAddr) then Denied
    else To(Target(l, va), UpdateAD(b, l.pteAddr, acc.write), l)
  }

  /** page_table_walk without its TLB insertion. */
  function Translate(b: Bus, priv: int, acc: Access, satp: U64, mstatus: bv64, va: nat): (t: Translation)
    ensures t.To? ==> t.bus.pmp == b.pmp && t.leaf.level < 5
  {
    if Levels(satp) == 0 then Bare
    else
      match Walk(b, priv, acc.load, satp, va)
      case NoAccess => Denied
      case NoPage => Fault
      case Found(l) => OnLeaf(b, priv, acc, mstatus, va, l)
  }

  /** The TLB entry page_table_walk inserts. */
  function EntryOf(l: Leaf, va: U64): Entry
  {
    Entry(PageBase(va, l.level), l.frame, l.pteAddr, l.level, l.perms, l.user)
  }
}
