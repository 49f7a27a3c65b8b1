/** What a page table walk depends on, and what its A/D writes and other stores leave alone. */
module WalkTheorems {
  import opened Base
  import opened PhysMem
  import opened Tlb
  import opened PageWalk
  import Pmp

  // ---------- A and D bits mean nothing to a walk ----------

  lemma SameMeaning(p: nat, q: nat)
    requires SameButAD(p, q)
    ensures Decode(p) == Decode(q) && AllOnesButAD(p) == AllOnesButAD(q)
  {
    LowBits(p);
    LowBits(q);
    assert p / 0x400 == p / 0x100 / 4 && q / 0x400 == q / 0x100 / 4;
  }

  lemma LowBits(p: nat)
    ensures var l := p % 0x40;
            p % 2 == l % 2 && p % 4 == l % 4 && p % 8 == l % 8 && p % 0x10 == l % 0x10 && p % 0x20 == l % 0x20
  {
    var h, l := p / 0x40, p % 0x40;
    DivModIs(p, 2, 0x20 * h + l / 2, l % 2);
    DivModIs(p, 4, 0x10 * h + l / 4, l % 4);
    DivModIs(p, 8, 8 * h + l / 8, l % 8);
    DivModIs(p, 0x10, 4 * h + l / 0x10, l % 0x10);
    DivModIs(p, 0x20, 2 * h + l / 0x20, l % 0x20);
  }

  lemma SetADSame(p: nat, write: bool)
    ensures SetAD(p, write) >= p && SameButAD(SetAD(p, write), p)
    ensures SetAD(SetAD(p, write), write) == SetAD(p, write)
  {
    if p % 0x80 < 0x40 { SetA(p); }
    var q := if p % 0x80 >= 0x40 then p else p + 0x40;
    if q % 0x100 < 0x80 { SetD(q); }
  }

  lemma SetA(p: nat)
    requires p % 0x80 < 0x40
    ensures SameButAD(p + 0x40, p) && (p + 0x40) % 0x80 >= 0x40
  {
    var h, l := p / 0x80, p % 0x80;
    DivModIs(p + 0x40, 0x80, h, l + 0x40);
    DivModIs(p, 0x40, 2 * h, l);
    DivModIs(p + 0x40, 0x40, 2 * h + 1, l);
    DivModIs(p, 0x100, h / 2, 0x80 * (h % 2) + l);
    DivModIs(p + 0x40, 0x100, h / 2, 0x80 * (h % 2) + l + 0x40);
  }

  lemma SetD(p: nat)
    requires p % 0x100 < 0x80
    ensures SameButAD(p + 0x80, p) && (p + 0x80) % 0x80 == p % 0x80 && (p + 0x80) % 0x100 >= 0x80
  {
    var h, l := p / 0x100, p % 0x100;
    DivModIs(p + 0x80, 0x100, h, l + 0x80);
    DivModIs(p, 0x80, 2 * h, l);
    DivModIs(p + 0x80, 0x80, 2 * h + 1, l);
    DivModIs(p, 0x40, 4 * h + l / 0x40, l % 0x40);
    DivModIs(p + 0x80, 0x40, 4 * h + 2 + l / 0x40, l % 0x40);
  }

  lemma ADStoreSelf(b: Bus, pa: int, v: nat)
    requires SameButAD(v, PteAt(b, pa))
    ensures Store(b, pa, 8, v).mem == SetByte(b.mem, pa, v % 256)
    ensures PteAt(Store(b, pa, 8, v), pa) == if InRam(b.mem, pa) then v else PteAt(b, pa)
    ensures !InRam(b.mem, pa) ==> Store(b, pa, 8, v) == b
  {
    var m := b.mem;
    PutLowByte(m, pa, 8, v);
    if InRam(m, pa) {
      var m' := SetByte(m, pa, v % 256);
      BytesSame(m, m', pa + 1, 7);
      LowByte(ByteAt(m, pa), Bytes(m, pa + 1, 7));
    } else {
      assert SetByte(m, pa, v % 256) == m;
    }
  }

  /** After A or D bits of an aligned word are rewritten, every aligned word means what it meant. */
  lemma ADFrameWord(b: Bus, pa: int, v: nat, q: int)
    requires pa % 8 == 0 && q % 8 == 0 && SameButAD(v, PteAt(b, pa))
    ensures SameButAD(PteAt(Store(b, pa, 8, v), q), PteAt(b, q))
  {
    ADStoreSelf(b, pa, v);
    if q != pa {
      GetPutDisjoint(b.mem, pa, 8, v, q, 8);
    }
  }

  /** The walk depends on memory only through what it reads at aligned addresses. */
  lemma {:induction false} SameReadsSameWalk(rd: int -> PteRead, rd': int -> PteRead, va: nat, a: TableAddr, n: nat)
    requires forall q :: q % 8 == 0 ==> rd'(q) == rd(q)
    ensures WalkFrom(rd', va, a, n) == WalkFrom(rd, va, a, n)
    decreases n
  {
    if n > 0 {
      var pa := PteAddr(a, va, n - 1);
      PteAddrAligned(a, va, n - 1);
      assert rd'(pa) == rd(pa);
      if rd(pa).Pte? && rd(pa).step.Next? {
        SameReadsSameWalk(rd, rd', va, rd(pa).step.table, n - 1);
      }
    }
  }

  lemma ADFrameRead(b: Bus, pa: int, v: nat, priv: int, load: bool, q: int)
    requires pa % 8 == 0 && q % 8 == 0 && SameButAD(v, PteAt(b, pa))
    ensures ReadPte(Store(b, pa, 8, v), priv, load, q) == ReadPte(b, priv, load, q)
  {
    ADFrameWord(b, pa, v, q);
    SameMeaning(PteAt(Store(b, pa, 8, v), q), PteAt(b, q));
  }

  /**
   Setting A, or A and D, in any aligned PTE word leaves the outcome of every walk of every address
   unchanged, whatever the level of the word and in all three paging modes.
   */
  lemma ADFrame(b: Bus, pa: int, write: bool, priv: int, load: bool, satp: U64, va: nat)
    requires pa % 8 == 0
    ensures Walk(UpdateAD(b, pa, write), priv, load, satp, va) == Walk(b, priv, load, satp, va)
  {
    SetADSame(PteAt(b, pa), write);
    forall q | q % 8 == 0
      ensures Reader(UpdateAD(b, pa, write), priv, load)(q) == Reader(b, priv, load)(q)
    {
      ADFrameRead(b, pa, SetAD(PteAt(b, pa), write), priv, load, q);
    }
    SameReadsSameWalk(Reader(b, priv, load), Reader(UpdateAD(b, pa, write), priv, load), va, Root(satp), Levels(satp));
  }

  lemma UpdateADWord(b: Bus, pa: int, write: bool, q: int)
    requires pa % 8 == 0 && q % 8 == 0
    ensures SameButAD(PteAt(UpdateAD(b, pa, write), q), PteAt(b, q))
    ensures AllOnesButAD(PteAt(UpdateAD(b, pa, write), q)) == AllOnesButAD(PteAt(b, q))
  {
    SetADSame(PteAt(b, pa), write);
    ADFrameWord(b, pa, SetAD(PteAt(b, pa), write), q);
    SameMeaning(PteAt(UpdateAD(b, pa, write), q), PteAt(b, q));
  }

  /** Doing the A/D update a second time changes nothing. */
  lemma UpdateADTwice(b: Bus, pa: int, write: bool)
    requires pa % 8 == 0
    ensures UpdateAD(UpdateAD(b, pa, write), pa, write) == UpdateAD(b, pa, write)
  {
    var p := PteAt(b, pa);
    var b' := UpdateAD(b, pa, write);
    SetADSame(p, write);
    ADStoreSelf(b, pa, SetAD(p, write));
    UpdateADWord(b, pa, write, pa);
    if InRam(b.mem, pa) && !AllOnesButAD(p) {
      PutGetSame(b'.mem, pa, 8);
    }
  }

  // ---------- what a walk reads of the address ----------

  lemma PageStep(va: nat, i: nat)
    requires 1 <= i <= 5
    ensures va / PageSize(i) == va / PageSize(i - 1) / 512
  {
    var d := PageSize(i - 1);
    DivModIs(va, d * 512, va / d / 512, va / d % 512 * d + va % d);
  }

  lemma {:induction false} SamePageAbove(va: nat, vb: nat, i: nat, j: nat)
    requires SamePage(va, vb, i) && i <= j <= 5
    ensures SamePage(va, vb, j)
    decreases j
  {
    if i < j {
      SamePageAbove(va, vb, i, j - 1);
      PageStep(va, j);
      PageStep(vb, j);
    }
  }

  lemma PteAddrSame(a: int, va: nat, vb: nat, level: nat, i: nat)
    requires SamePage(va, vb, level) && level <= i <= 5
    ensures PteAddr(a, va, i) == PteAddr(a, vb, i)
  {
    SamePageAbove(va, vb, level, i);
  }

  lemma {:induction false} SamePageFrom(rd: int -> PteRead, va: nat, vb: nat, a: TableAddr, n: nat, l: Leaf)
    requires n <= 5 && WalkFrom(rd, va, a, n) == Found(l) && SamePage(va, vb, l.level)
    ensures WalkFrom(rd, vb, a, n) == Found(l)
    decreases n
  {
    var pa := PteAddr(a, va, n - 1);
    PteAddrSame(a, va, vb, l.level, n - 1);
    if rd(pa).Pte? && rd(pa).step.Next? {
      SamePageFrom(rd, va, vb, rd(pa).step.table, n - 1, l);
    }
  }

  /** All addresses of a leaf's page walk to that leaf. */
  lemma SamePageSameLeaf(b: Bus, priv: int, load: bool, satp: U64, va: nat, vb: nat)
    requires var w := Walk(b, priv, load, satp, va); w.Found? && SamePage(va, vb, w.leaf.level)
    ensures Walk(b, priv, load, satp, vb) == Walk(b, priv, load, satp, va)
  {
    SamePageFrom(Reader(b, priv, load), va, vb, Root(satp), Levels(satp), Walk(b, priv, load, satp, va).leaf);
  }

  // ---------- stores elsewhere ----------

  predicate Apart(a: int, n: nat, c: int, k: nat)
  {
    a + n <= c || c + k <= a
  }

  /** Memory as a walk that PMP never stops would see it. */
  function OpenReader(b: Bus): int -> PteRead
  {
    pa => Pte(Decode(PteAt(b, pa)))
  }

  /** No PTE word that the walk of va visits overlaps [c, c + k). */
  predicate AvoidsFrom(rd: int -> PteRead, va: nat, a: TableAddr, n: nat, c: int, k: nat)
    decreases n
  {
    n == 0 ||
    var pa := PteAddr(a, va, n - 1);
    Apart(pa, 8, c, k) && (rd(pa).Pte? && rd(pa).step.Next? ==> AvoidsFrom(rd, va, rd(pa).step.table, n - 1, c, k))
  }

  predicate Avoids(b: Bus, satp: U64, va: nat, c: int, k: nat)
  {
    AvoidsFrom(OpenReader(b), va, Root(satp), Levels(satp), c, k)
  }

  lemma {:induction false} StoreFrameFrom(rd: int -> PteRead, rd': int -> PteRead, all: int -> PteRead, va: nat,
        a: TableAddr, n: nat, c: int, k: nat)
    requires forall q :: rd(q) == Refused || rd(q) == all(q)
    requires forall q :: Apart(q, 8, c, k) ==> rd'(q) == rd(q)
    requires AvoidsFrom(all, va, a, n, c, k)
    ensures WalkFrom(rd', va, a, n) == WalkFrom(rd, va, a, n)
    ensures var w := WalkFrom(rd, va, a, n); w.Found? ==> Apart(w.leaf.pteAddr, 8, c, k)
    decreases n
  {
    if n > 0 {
      var pa := PteAddr(a, va, n - 1);
      assert rd(pa) == Refused || rd(pa) == all(pa);
      assert rd'(pa) == rd(pa);
      if rd(pa).Pte? && rd(pa).step.Next? {
        StoreFrameFrom(rd, rd', all, va, rd(pa).step.table, n - 1, c, k);
      }
    }
  }

  /** The leaf PTE is one of the words a walk visits. */
  lemma LeafApart(b: Bus, priv: int, load: bool, satp: U64, va: nat, c: int, k: nat)
    requires Avoids(b, satp, va, c, k)
    ensures var w := Walk(b, priv, load, satp, va); w.Found? ==> Apart(w.leaf.pteAddr, 8, c, k)
  {
    var rd := Reader(b, priv, load);
    StoreFrameFrom(rd, rd, OpenReader(b), va, Root(satp), Levels(satp), c, k);
  }

  lemma {:induction false} AvoidsSame(rd: int -> PteRead, rd': int -> PteRead, va: nat, a: TableAddr, n: nat,
        c: int, k: nat)
    requires forall q :: q % 8 == 0 ==> rd'(q) == rd(q)
    ensures AvoidsFrom(rd', va, a, n, c, k) == AvoidsFrom(rd, va, a, n, c, k)
    decreases n
  {
    if n > 0 {
      var pa := PteAddr(a, va, n - 1);
      PteAddrAligned(a, va, n - 1);
      assert rd'(pa) == rd(pa);
      if rd(pa).Pte? && rd(pa).step.Next? {
        AvoidsSame(rd, rd', va, rd(pa).step.table, n - 1, c, k);
      }
    }
  }

  /** A/D updates do not change which words a walk visits. */
  lemma AvoidsAD(b: Bus, pa: int, write: bool, satp: U64, va: nat, c: int, k: nat)
    requires pa % 8 == 0
    ensures Avoids(UpdateAD(b, pa, write), satp, va, c, k) == Avoids(b, satp, va, c, k)
  {
    var b' := UpdateAD(b, pa, write);
    forall q | q % 8 == 0
      ensures OpenReader(b')(q) == OpenReader(b)(q)
    {
      UpdateADWord(b, pa, write, q);
      SameMeaning(PteAt(b', q), PteAt(b, q));
    }
    AvoidsSame(OpenReader(b), OpenReader(b'), va, Root(satp), Levels(satp), c, k);
  }

  lemma StoreFrameRead(b: Bus, c: int, k: nat, v: nat, priv: int, load: bool, q: int)
    requires Apart(q, 8, c, k)
    ensures PteAt(Store(b, c, k, v), q) == PteAt(b, q)
    ensures ReadPte(Store(b, c, k, v), priv, load, q) == ReadPte(b, priv, load, q)
  {
    GetPutDisjoint(b.mem, c, k, v, q, 8);
  }

  /** A store that avoids the words a walk visits changes neither the walk nor its leaf PTE. */
  lemma StoreFrame(b: Bus, priv: int, load: bool, satp: U64, va: nat, c: int, k: nat, v: nat)
    requires Avoids(b, satp, va, c, k)
    ensures Walk(Store(b, c, k, v), priv, load, satp, va) == Walk(b, priv, load, satp, va)
    ensures var w := Walk(b, priv, load, satp, va);
            w.Found? ==> PteAt(Store(b, c, k, v), w.leaf.pteAddr) == PteAt(b, w.leaf.pteAddr)
  {
    forall q | Apart(q, 8, c, k)
      ensures Reader(Store(b, c, k, v), priv, load)(q) == Reader(b, priv, load)(q)
    {
      StoreFrameRead(b, c, k, v, priv, load, q);
    }
    StoreFrameFrom(Reader(b, priv, load), Reader(Store(b, c, k, v), priv, load), OpenReader(b), va,
                   Root(satp), Levels(satp), c, k);
    var w := Walk(b, priv, load, satp, va);
    if w.Found? {
      StoreFrameRead(b, c, k, v, priv, load, w.leaf.pteAddr);
    }
  }

  // ---------- privilege and access kind ----------

  /** No enabled PMP entry tells reads from instruction fetches. */
  ghost predicate Balanced(t: Pmp.Table)
  {
    forall g :: g in t.regions && g.enable ==> ((g.lxwr & Pmp.R != 0) == (g.lxwr & Pmp.X != 0))
  }

  lemma {:induction false} ScanBalanced(gs: seq<Pmp.Region>, machine: bool, l: int, h: int, i: nat)
    requires forall g :: g in gs && g.enable ==> ((g.lxwr & Pmp.R != 0) == (g.lxwr & Pmp.X != 0))
    ensures var v := Pmp.Scan(gs, machine, l, h, i); (v & Pmp.R != 0) == (v & Pmp.X != 0)
    decreases |gs| - i
  {
    if i < |gs| {
      ScanBalanced(gs, machine, l, h, i + 1);
    }
    assert Pmp.NO_MATCH & Pmp.R != 0 && Pmp.NO_MATCH & Pmp.X != 0;
    assert Pmp.CROSSES & Pmp.R != 0 && Pmp.CROSSES & Pmp.X != 0;
  }

  lemma BalancedReads(b: Bus, priv: int, a: int, n: nat)
    requires Balanced(b.pmp)
    ensures ReadOk(b, priv, true, a, n) == ReadOk(b, priv, false, a, n)
  {
    ScanBalanced(b.pmp.regions, priv == 3, a, if n == 1 then a else a + n - 1, 0);
    assert Pmp.RWX & Pmp.R != 0 && Pmp.RWX & Pmp.X != 0;
  }

  /** Below M mode the privilege does not matter to the PTE reads. */
  lemma PrivUniform(b: Bus, priv: int, priv': int, load: bool, satp: U64, va: nat)
    requires priv < 3 && priv' < 3
    ensures Walk(b, priv, load, satp, va) == Walk(b, priv', load, satp, va)
  {
    SameReadsSameWalk(Reader(b, priv, load), Reader(b, priv', load), va, Root(satp), Levels(satp));
  }

  /** Under a balanced PMP the PTE reads of a load, a store and a fetch succeed or fail alike. */
  lemma LoadUniform(b: Bus, priv: int, load: bool, load': bool, satp: U64, va: nat)
    requires Balanced(b.pmp)
    ensures Walk(b, priv, load, satp, va) == Walk(b, priv, load', satp, va)
  {
    forall q
      ensures Reader(b, priv, load')(q) == Reader(b, priv, load)(q)
    {
      BalancedReads(b, priv, q, 8);
    }
    SameReadsSameWalk(Reader(b, priv, load), Reader(b, priv, load'), va, Root(satp), Levels(satp));
  }

  /** Readers that agree wherever both may read: one finds a leaf, the other finds it too or is refused. */
  lemma {:induction false} OtherReader(rd: int -> PteRead, rd': int -> PteRead, va: nat, a: TableAddr, n: nat)
    requires forall q :: rd(q) == Refused || rd'(q) == Refused || rd'(q) == rd(q)
    requires WalkFrom(rd, va, a, n).Found?
    ensures WalkFrom(rd', va, a, n) == WalkFrom(rd, va, a, n) || WalkFrom(rd', va, a, n) == NoAccess
    decreases n
  {
    var pa := PteAddr(a, va, n - 1);
    assert rd'(pa) == Refused || rd'(pa) == rd(pa);
    if rd(pa).step.Next? && rd'(pa) == rd(pa) {
      OtherReader(rd, rd', va, rd(pa).step.table, n - 1);
    }
  }

  /** A page found by one kind of PTE read is found by the other, or PMP refuses that one on the way. */
  lemma OtherKind(b: Bus, priv: int, load: bool, load': bool, satp: U64, va: nat)
    requires Walk(b, priv, load, satp, va).Found?
    ensures || Walk(b, priv, load', satp, va) == Walk(b, priv, load, satp, va)
            || Walk(b, priv, load', satp, va) == NoAccess
  {
    OtherReader(Reader(b, priv, load), Reader(b, priv, load'), va, Root(satp), Levels(satp));
  }

  lemma {:induction false} FoundReadFrom(rd: int -> PteRead, va: nat, a: TableAddr, n: nat)
    ensures var w := WalkFrom(rd, va, a, n);
            w.Found? ==> rd(w.leaf.pteAddr) == Pte(Final(w.leaf.frame, w.leaf.perms, w.leaf.user))
    decreases n
  {
    if n > 0 {
      var pa := PteAddr(a, va, n - 1);
      if rd(pa).Pte? && rd(pa).step.Next? {
        FoundReadFrom(rd, va, rd(pa).step.table, n - 1);
      }
    }
  }

  /** A walk that ends in a leaf has read its PTE, and reports what it says. */
  lemma FoundReadable(b: Bus, priv: int, load: bool, satp: U64, va: nat)
    ensures var w := Walk(b, priv, load, satp, va);
            w.Found? ==> && ReadOk(b, priv, load, w.leaf.pteAddr, 8)
                         && Decode(PteAt(b, w.leaf.pteAddr)) == Final(w.leaf.frame, w.leaf.perms, w.leaf.user)
                         && w.leaf.perms != NO_PERMS
  {
    FoundReadFrom(Reader(b, priv, load), va, Root(satp), Levels(satp));
  }

  lemma BaseIsAligned(va: nat, i: nat)
    ensures PageBase(va, i) % PageSize(i) == 0 && SamePage(va, PageBase(va, i), i)
  {
    var p := PageSize(i);
    DivModIs(PageBase(va, i), p, va / p, 0);
  }
}
