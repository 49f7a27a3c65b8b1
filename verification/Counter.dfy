/** Increment loops built from LR and SC lose no update, whatever the interleaving and the page tables. */
module Counter {
  import opened Base
  import opened PhysMem
  import opened Tlb
  import opened PageWalk
  import opened WalkTheorems
  import opened Mmu
  import opened Transparency
  import opened Reservations
  import opened Harts
  import opened LrScTheorems

  /** The shared counter: n bytes at the physical address addr. */
  datatype Cell = Cell(addr: U64, n: nat)

  predicate CellIn(c: Cell, m: Phys)
  {
    (c.n == 4 || c.n == 8) && InRam(m, c.addr) && InRam(m, c.addr + c.n - 1)
  }

  function Value(m: Phys, c: Cell): (v: nat)
  {
    Get(m, c.addr, c.n)
  }

  /** All harts: the shared system, the register each hart loads into, and the successful SCs so far. */
  datatype World = World(sys: System, loaded: seq<U64>, successes: nat)

  predicate Shaped(w: World)
  {
    Valid(w.sys) && |w.loaded| == |w.sys.resv|
  }

  /**
   One instruction of some hart: the LR or the SC of its increment loop, in any order and number, by any virtual
   address of the cell, or anything else that leaves the cell alone.
   */
  datatype Move = LoadCell(hart: nat, va: U64) | StoreCell(hart: nat, va: U64) | Elsewhere(i: Instr)

  function HartIn(m: Move): nat
  {
    match m
    case LoadCell(h, _) => h
    case StoreCell(h, _) => h
    case Elsewhere(i) => i.hart
  }

  /** The increment, in a 64-bit register. */
  function Succ(x: int): U64
  {
    Wrap(x + 1)
  }

  function InstrOf(w: World, c: Cell, m: Move): (i: Instr)
    requires Shaped(w) && HartIn(m) < |w.loaded|
    ensures i.hart == HartIn(m)
  {
    match m
    case LoadCell(h, va) => Lr(h, va, c.n, false)
    case StoreCell(h, va) => Sc(h, va, c.n, Succ(w.loaded[h]))
    case Elsewhere(i) => i
  }

  /** The registers that the loops load into, and the count of their successes, after a report. */
  function LoadedAfter(loaded: seq<U64>, m: Move, r: Report): seq<U64>
    requires HartIn(m) < |loaded|
  {
    if m.LoadCell? && r.Loaded? then loaded[HartIn(m) := r.value] else loaded
  }

  function SuccessesAfter(k: nat, m: Move, r: Report): nat
  {
    k + if m.StoreCell? && r.ScDone? && r.success then 1 else 0
  }

  function PlayMove(w: World, c: Cell, m: Move): (w': World)
    requires Shaped(w) && HartIn(m) < |w.loaded|
    ensures Shaped(w') && |w'.loaded| == |w.loaded|
  {
    var (s, r) := Reservations.Step(w.sys, InstrOf(w, c, m));
    World(s, LoadedAfter(w.loaded, m, r), SuccessesAfter(w.successes, m, r))
  }

  // ---------- what the harts may do ----------

  /** A store by this hart misses the cell. */
  predicate StoreMisses(g: Core, acc: Access, n: nat, va: U64, c: Cell)
  {
    var d := DataAt(g, acc, va);
    acc.write && d.Some? ==> Apart(d.value.1, n, c.addr, c.n)
  }

  /** Stores and SCs miss the cell, and LRs do not reserve it. */
  ghost predicate Misses(g: Core, resv: seq<U64>, i: Instr, c: Cell)
    requires i.hart < |resv|
  {
    match i
    case Lr(_, _, _, _) => var r := RefOn(g, resv, i).2; r.Loaded? ==> r.reserved != c.addr
    case Sc(_, a, n, _) => StoreMisses(RefWalk(g, STORE, a).0, Access(true, true), n, a, c)
    case Plain(_, op) => op.MemOp? ==> StoreMisses(g, op.acc, op.n, op.va, c)
    case Reconfigure(_, _) => true
  }

  /** This virtual address leads to the cell, for accesses and for the walks of LR and SC. */
  predicate Aims(g: Core, acc: Access, va: U64, c: Cell)
  {
    Consistent(g) && (PlaceOf(g, acc, va).Some? ==> PlaceOf(g, acc, va).value == c.addr)
  }

  /**
   The move is lawful towards the TLBs, the hart's page tables do not lie in the cell, and its instruction is one
   of the increment loop or misses the cell. All of this is about the harts without TLBs.
   */
  ghost predicate Legal(w: World, c: Cell, m: Move, stale: seq<bool>)
    requires Shaped(w) && |stale| == |w.loaded|
  {
    var h := HartIn(m);
    h < |w.loaded| &&
    var g := CoreOf(w.sys, h);
    && LawfulOn(g, w.sys.resv, InstrOf(w, c, m), stale[h]) && OffTables(g.bus, g.satp, c.addr, c.n)
    && match m
       case LoadCell(_, va) => Aims(g, LOAD, va, c)
       case StoreCell(_, va) => Aims(g, STORE, va, c)
       case Elsewhere(i) => Misses(g, w.sys.resv, i, c)
  }

  ghost predicate LegalRun(w: World, c: Cell, moves: seq<Move>, stale: seq<bool>)
    requires Shaped(w) && |stale| == |w.loaded|
    decreases |moves|
  {
    moves == [] ||
      (Legal(w, c, moves[0], stale)
       && LegalRun(PlayMove(w, c, moves[0]), c, moves[1..], AllStale(w.sys, InstrOf(w, c, moves[0]), stale)))
  }

  predicate ByHarts(moves: seq<Move>, harts: nat)
  {
    forall k :: 0 <= k < |moves| ==> HartIn(moves[k]) < harts
  }

  function PlayAll(w: World, c: Cell, moves: seq<Move>): (w': World)
    requires Shaped(w) && ByHarts(moves, |w.loaded|)
    decreases |moves|
  {
    if moves == [] then w else PlayAll(PlayMove(w, c, moves[0]), c, moves[1..])
  }

  // ---------- the cell's value ----------

  lemma UpdateMisses(b: Bus, pa: int, write: bool, satp: U64, c: Cell)
    requires pa % 8 == 0 && Apart(pa, 8, c.addr, c.n) && OffTables(b, satp, c.addr, c.n)
    ensures var b' := UpdateAD(b, pa, write);
            && Value(b'.mem, c) == Value(b.mem, c) && |b'.mem.ram| == |b.mem.ram|
            && OffTables(b', satp, c.addr, c.n)
  {
    GetPutDisjoint(b.mem, pa, 8, SetADOf(b, pa, write), c.addr, c.n);
    forall va: U64
      ensures Avoids(UpdateAD(b, pa, write), satp, va, c.addr, c.n)
    {
      AvoidsAD(b, pa, write, satp, va, c.addr, c.n);
    }
  }

  function SetADOf(b: Bus, pa: int, write: bool): nat
  {
    SetADSame(PteAt(b, pa), write);
    SetAD(PteAt(b, pa), write)
  }

  /** Translation writes A and D bits only, and not into the cell. */
  lemma TranslateMisses(b: Bus, priv: int, acc: Access, satp: U64, mstatus: bv64, va: U64, c: Cell)
    requires OffTables(b, satp, c.addr, c.n)
    ensures var t := Translate(b, priv, acc, satp, mstatus, va);
            t.To? ==> && Value(t.bus.mem, c) == Value(b.mem, c) && |t.bus.mem.ram| == |b.mem.ram|
                      && OffTables(t.bus, satp, c.addr, c.n)
  {
    var t := Translate(b, priv, acc, satp, mstatus, va);
    if t.To? {
      assert Avoids(b, satp, va, c.addr, c.n);
      LeafApart(b, priv, acc.load, satp, va, c.addr, c.n);
      UpdateMisses(b, t.leaf.pteAddr, acc.write, satp, c);
    }
  }

  /** Same value in the cell, same size of memory, and the cell still off the hart's page tables. */
  ghost predicate Untouched(g: Core, g': Core, c: Cell)
  {
    && Value(g'.bus.mem, c) == Value(g.bus.mem, c) && |g'.bus.mem.ram| == |g.bus.mem.ram|
    && OffTables(g'.bus, g.satp, c.addr, c.n) && g' == g.(bus := g'.bus)
  }

  lemma WalkUntouched(g: Core, acc: Access, a: U64, c: Cell)
    requires OffTables(g.bus, g.satp, c.addr, c.n)
    ensures Untouched(g, RefWalk(g, acc, a).0, c)
  {
    TranslateMisses(g.bus, g.priv, acc, g.satp, g.mstatus, a, c);
  }

  lemma LoadUntouched(g: Core, n: nat, a: U64, c: Cell)
    requires OffTables(g.bus, g.satp, c.addr, c.n)
    ensures Untouched(g, RefAccess(g, LOAD, n, a, 0).0, c)
  {
    match Effective(g, LOAD)
    case None =>
    case Some(p) => TranslateMisses(g.bus, p, LOAD, g.satp, g.mstatus, a, c);
  }

  lemma PhysicalKeepsValue(b: Bus, priv: int, acc: Access, n: nat, a: int, data: nat, c: Cell)
    requires acc.write ==> Apart(a, n, c.addr, c.n)
    ensures var m := Physical(b, priv, acc, n, a, data).0.mem; Value(m, c) == Value(b.mem, c) && |m.ram| == |b.mem.ram|
  {
    if acc.write {
      GetPutDisjoint(b.mem, a, n, data, c.addr, c.n);
    }
  }

  lemma FinishKeepsValue(b: Bus, priv: int, acc: Access, n: nat, va: U64, data: nat, tr: Translation, c: Cell)
    requires tr.To? ==> tr.bus.pmp == b.pmp && Value(tr.bus.mem, c) == Value(b.mem, c)
    requires tr.To? ==> |tr.bus.mem.ram| == |b.mem.ram|
    requires tr.To? && acc.write ==> Apart(tr.phys, n, c.addr, c.n)
    requires tr.Bare? && acc.write ==> Apart(va, n, c.addr, c.n)
    ensures var m := Finish(b, priv, acc, n, va, data, tr).0.mem;
            Value(m, c) == Value(b.mem, c) && |m.ram| == |b.mem.ram|
  {
    match tr
    case Denied =>
    case Fault =>
    case Bare => PhysicalKeepsValue(b, priv, acc, n, va, data, c);
    case To(phys, b', _) => PhysicalKeepsValue(b', priv, acc, n, phys, data, c);
  }

  lemma AccessKeepsValue(g: Core, acc: Access, n: nat, va: U64, data: nat, c: Cell)
    requires OffTables(g.bus, g.satp, c.addr, c.n) && StoreMisses(g, acc, n, va, c)
    ensures var m := RefAccess(g, acc, n, va, data).0.bus.mem;
            Value(m, c) == Value(g.bus.mem, c) && |m.ram| == |g.bus.mem.ram|
  {
    match Effective(g, acc)
    case None => PhysicalKeepsValue(g.bus, g.priv, acc, n, va, data, c);
    case Some(p) =>
      TranslateMisses(g.bus, p, acc, g.satp, g.mstatus, va, c);
      FinishKeepsValue(g.bus, p, acc, n, va, data, Translate(g.bus, p, acc, g.satp, g.mstatus, va), c);
  }

  lemma MissKeepsValue(g: Core, resv: seq<U64>, i: Instr, c: Cell)
    requires i.hart < |resv| && OffTables(g.bus, g.satp, c.addr, c.n) && Misses(g, resv, i, c)
    ensures var m := RefOn(g, resv, i).0.bus.mem; Value(m, c) == Value(g.bus.mem, c) && |m.ram| == |g.bus.mem.ram|
  {
    match i
    case Lr(h, a, n, same) =>
      LoadUntouched(g, n, a, c);
      var (g1, out) := RefAccess(g, LOAD, n, a, 0);
      if out.Done? {
        WalkUntouched(g1, LOAD, if same then Extend(out.value, n) else a, c);
      }
    case Sc(h, a, n, data) =>
      WalkUntouched(g, STORE, a, c);
      AccessKeepsValue(RefWalk(g, STORE, a).0, Access(true, true), n, a, data, c);
    case Plain(_, op) =>
      match op {
        case MemOp(acc, n, va, data) => AccessKeepsValue(g, acc, n, va, data, c);
        case WalkOp(acc, va) => WalkUntouched(g, acc, va, c);
        case _ =>
      }
    case Reconfigure(_, _) =>
  }

  // ---------- the invariant ----------

  /** A hart holding a reservation on the cell has loaded its current value, and only one hart holds one. */
  ghost predicate Holding(m: Phys, resv: seq<U64>, loaded: seq<U64>, successes: nat, c: Cell, start: nat)
  {
    && |loaded| == |resv| && CellIn(c, m) && Value(m, c) == (start + successes) % Pow256(c.n)
    && (forall h :: 0 <= h < |loaded| && resv[h] == c.addr ==> loaded[h] % Pow256(c.n) == Value(m, c))
    && (forall h, g :: 0 <= h < |loaded| && 0 <= g < |loaded| && resv[h] == c.addr == resv[g] ==> h == g)
  }

  lemma Widths(n: nat)
    requires n == 4 || n == 8
    ensures Pow256(n) == if n == 4 then 0x1_0000_0000 else 0x1_0000_0000_0000_0000
  {
    assert Pow256(4) == 256 * 256 * Pow256(2) && Pow256(2) == 256 * Pow256(1);
    if n == 8 {
      assert Pow256(8) == 256 * 256 * Pow256(6) && Pow256(6) == 256 * 256 * Pow256(4);
    }
  }

  lemma ExtendKeepsValue(v: nat, n: nat)
    requires (n == 4 || n == 8) && v < Pow256(n)
    ensures Extend(v, n) % Pow256(n) == v
  {
    Widths(n);
    if n == 4 && v >= 0x8000_0000 {
      DivModIs(v + 0xFFFF_FFFF_0000_0000, 0x1_0000_0000, 0xFFFF_FFFF, v);
    }
  }

  /** Adding 1 in 64 bits and keeping the low n bytes. */
  lemma IncrementWraps(x: U64, n: nat, start: nat, k: nat)
    requires (n == 4 || n == 8) && x % Pow256(n) == (start + k) % Pow256(n)
    ensures Succ(x) % Pow256(n) == (start + k + 1) % Pow256(n)
  {
    Widths(n);
    if n == 4 {
      SuccLow(x, start + k);
    } else {
      SuccMod(x, start + k, 0x1_0000_0000_0000_0000);
      WrapTwice(x + 1);
    }
  }

  lemma SuccLow(x: U64, y: nat)
    requires x % 0x1_0000_0000 == y % 0x1_0000_0000
    ensures Succ(x) % 0x1_0000_0000 == (y + 1) % 0x1_0000_0000
  {
    LowHalf(x + 1);
    SuccMod(x, y, 0x1_0000_0000);
  }

  lemma WrapTwice(y: nat)
    ensures Wrap(y) % 0x1_0000_0000_0000_0000 == y % 0x1_0000_0000_0000_0000
  {
    DivModIs(Wrap(y), 0x1_0000_0000_0000_0000, 0, Wrap(y));
  }

  lemma LowHalf(y: nat)
    ensures Wrap(y) % 0x1_0000_0000 == y % 0x1_0000_0000
  {
    var q, r := y / 0x1_0000_0000, y % 0x1_0000_0000;
    DivModIs(y, 0x1_0000_0000_0000_0000, q / 0x1_0000_0000, 0x1_0000_0000 * (q % 0x1_0000_0000) + r);
    DivModIs(Wrap(y), 0x1_0000_0000, q % 0x1_0000_0000, r);
  }

  lemma SuccIs(d: int, q: int, r: int, x: int)
    requires 0 <= r < d && x == d * q + r
    ensures (x + 1) % d == if r + 1 < d then r + 1 else 0
  {
    if r + 1 < d {
      DivModIs(x + 1, d, q, r + 1);
    } else {
      assert d * (q + 1) == d * q + d;
      DivModIs(x + 1, d, q + 1, 0);
    }
  }

  lemma SuccMod(x: nat, y: nat, d: int)
    requires d > 0 && x % d == y % d
    ensures (x + 1) % d == (y + 1) % d
  {
    SuccIs(d, x / d, x % d, x);
    SuccIs(d, y / d, y % d, y);
  }

  // ---------- the invariant under each effect ----------

  lemma HoldingLoaded(m: Phys, resv: seq<U64>, loaded: seq<U64>, k: nat, c: Cell, start: nat, h: nat, v: U64)
    requires Holding(m, resv, loaded, k, c, start) && h < |loaded| && v % Pow256(c.n) == Value(m, c)
    ensures Holding(m, Reserve(resv, h, c.addr), loaded[h := v], k, c, start)
  {
  }

  lemma HoldingStored(m: Phys, resv: seq<U64>, loaded: seq<U64>, k: nat, c: Cell, start: nat, h: nat)
    requires Holding(m, resv, loaded, k, c, start) && h < |loaded| && resv[h] == c.addr
    ensures Holding(Put(m, c.addr, c.n, Succ(loaded[h])), resv[h := 0], loaded, k + 1, c, start)
  {
    GetPutSame(m, c.addr, c.n, Succ(loaded[h]));
    IncrementWraps(loaded[h], c.n, start, k);
  }

  /** Reservations on the cell may go away, for any reason, and bytes elsewhere may change. */
  lemma HoldingLess(m: Phys, m': Phys, resv: seq<U64>, resv': seq<U64>, loaded: seq<U64>, k: nat, c: Cell, start: nat)
    requires Holding(m, resv, loaded, k, c, start) && |resv'| == |resv|
    requires Value(m', c) == Value(m, c) && |m'.ram| == |m.ram|
    requires forall g :: 0 <= g < |resv'| && resv'[g] == c.addr ==> resv[g] == c.addr
    ensures Holding(m', resv', loaded, k, c, start)
  {
  }

  /** The value the load leaves, and the reservation. */
  lemma LoadHolds(m: Phys, m': Phys, resv: seq<U64>, loaded: seq<U64>, k: nat, c: Cell, start: nat, h: nat)
    requires Holding(m, resv, loaded, k, c, start) && h < |loaded| && Value(m', c) == Value(m, c) && |m'.ram| == |m.ram|
    ensures Holding(m', Reserve(resv, h, c.addr), loaded[h := Extend(Value(m', c), c.n)], k, c, start)
  {
    GetBounds(m, c.addr, c.n);
    ExtendKeepsValue(Value(m, c), c.n);
    HoldingLess(m, m', resv, resv, loaded, k, c, start);
    HoldingLoaded(m', resv, loaded, k, c, start, h, Extend(Value(m', c), c.n));
  }

  /** What the hart g leaves when it makes the move. */
  ghost predicate HoldsAfterMove(g: Core, resv: seq<U64>, i: Instr, m: Move, loaded: seq<U64>, k: nat, c: Cell,
        start: nat)
    requires i.hart < |resv| && |loaded| == |resv| && HartIn(m) == i.hart
  {
    var (g', resv', r) := RefOn(g, resv, i);
    Holding(g'.bus.mem, resv', LoadedAfter(loaded, m, r), SuccessesAfter(k, m, r), c, start)
  }

  lemma LoadKeeps(g: Core, resv: seq<U64>, h: nat, va: U64, loaded: seq<U64>, k: nat, c: Cell, start: nat)
    requires Holding(g.bus.mem, resv, loaded, k, c, start) && h < |loaded|
    requires OffTables(g.bus, g.satp, c.addr, c.n) && Aims(g, LOAD, va, c)
    ensures HoldsAfterMove(g, resv, Lr(h, va, c.n, false), LoadCell(h, va), loaded, k, c, start)
  {
    LrTied(g, resv, h, va, c.n);
    LoadUntouched(g, c.n, va, c);
    var m' := RefAccess(g, LOAD, c.n, va, 0).0.bus.mem;
    HoldingLess(g.bus.mem, m', resv, resv, loaded, k, c, start);
    LoadHolds(g.bus.mem, m', resv, loaded, k, c, start, h);
  }

  lemma StoreKeeps(g: Core, resv: seq<U64>, h: nat, va: U64, loaded: seq<U64>, k: nat, c: Cell, start: nat)
    requires Holding(g.bus.mem, resv, loaded, k, c, start) && h < |loaded|
    requires OffTables(g.bus, g.satp, c.addr, c.n) && Aims(g, STORE, va, c)
    ensures HoldsAfterMove(g, resv, Sc(h, va, c.n, Succ(loaded[h])), StoreCell(h, va), loaded, k, c, start)
  {
    ScTied(g, resv, h, va, c.n, Succ(loaded[h]));
    WalkUntouched(g, STORE, va, c);
    var m1 := RefWalk(g, STORE, va).0.bus.mem;
    HoldingLess(g.bus.mem, m1, resv, resv, loaded, k, c, start);
    HoldingLess(g.bus.mem, m1, resv, resv[h := 0], loaded, k, c, start);
    if resv[h] == c.addr {
      HoldingStored(m1, resv, loaded, k, c, start, h);
    }
  }

  lemma ElsewhereKeeps(g: Core, resv: seq<U64>, i: Instr, loaded: seq<U64>, k: nat, c: Cell, start: nat)
    requires Holding(g.bus.mem, resv, loaded, k, c, start) && i.hart < |loaded|
    requires OffTables(g.bus, g.satp, c.addr, c.n) && Misses(g, resv, i, c)
    ensures HoldsAfterMove(g, resv, i, Elsewhere(i), loaded, k, c, start)
  {
    MissKeepsValue(g, resv, i, c);
    HoldingLess(g.bus.mem, RefOn(g, resv, i).0.bus.mem, resv, RefOn(g, resv, i).1, loaded, k, c, start);
  }

  // ---------- runs ----------

  ghost predicate Inv(w: World, c: Cell, start: nat, stale: seq<bool>)
  {
    && Shaped(w) && AllInv(w.sys, stale) && c.addr != 0
    && Holding(w.sys.mem, w.sys.resv, w.loaded, w.successes, c, start)
  }

  /** A step of the system with TLBs, in terms of the hart without one. */
  lemma StepIsRef(s: System, i: Instr, stale: seq<bool>)
    requires AllInv(s, stale) && i.hart < |s.resv| && LawfulOn(CoreOf(s, i.hart), s.resv, i, stale[i.hart])
    ensures var (g', resv', r) := RefOn(CoreOf(s, i.hart), s.resv, i);
            var (s', r') := Reservations.Step(s, i);
            s'.mem == g'.bus.mem && s'.resv == resv' && r' == r && AllInv(s', AllStale(s, i, stale))
  {
    StepAlike(s, s, i, stale);
  }

  lemma MoveHolds(w: World, c: Cell, start: nat, m: Move, stale: seq<bool>)
    requires Inv(w, c, start, stale) && Legal(w, c, m, stale)
    ensures HoldsAfterMove(CoreOf(w.sys, HartIn(m)), w.sys.resv, InstrOf(w, c, m), m, w.loaded, w.successes, c, start)
  {
    var g, resv := CoreOf(w.sys, HartIn(m)), w.sys.resv;
    match m
    case LoadCell(h, va) => LoadKeeps(g, resv, h, va, w.loaded, w.successes, c, start);
    case StoreCell(h, va) => StoreKeeps(g, resv, h, va, w.loaded, w.successes, c, start);
    case Elsewhere(i) => ElsewhereKeeps(g, resv, i, w.loaded, w.successes, c, start);
  }

  lemma MoveInv(w: World, c: Cell, start: nat, m: Move, s: System, r: Report, stale: seq<bool>)
    requires HartIn(m) < |w.loaded| && |s.resv| == |w.loaded| && AllInv(s, stale) && c.addr != 0
    requires Holding(s.mem, s.resv, LoadedAfter(w.loaded, m, r), SuccessesAfter(w.successes, m, r), c, start)
    ensures Inv(World(s, LoadedAfter(w.loaded, m, r), SuccessesAfter(w.successes, m, r)), c, start, stale)
  {
  }

  lemma PlayKeeps(w: World, c: Cell, start: nat, m: Move, stale: seq<bool>)
    requires Inv(w, c, start, stale) && Legal(w, c, m, stale)
    ensures Inv(PlayMove(w, c, m), c, start, AllStale(w.sys, InstrOf(w, c, m), stale))
  {
    var i := InstrOf(w, c, m);
    MoveHolds(w, c, start, m, stale);
    StepIsRef(w.sys, i, stale);
    var (s, r) := Reservations.Step(w.sys, i);
    MoveInv(w, c, start, m, s, r, AllStale(w.sys, i, stale));
  }

  lemma {:induction false} PlayAllKeeps(w: World, c: Cell, start: nat, moves: seq<Move>, stale: seq<bool>)
    requires Inv(w, c, start, stale) && ByHarts(moves, |w.loaded|) && LegalRun(w, c, moves, stale)
    ensures var w' := PlayAll(w, c, moves); Holding(w'.sys.mem, w'.sys.resv, w'.loaded, w'.successes, c, start)
    decreases |moves|
  {
    if moves != [] {
      PlayKeeps(w, c, start, moves[0], stale);
      PlayAllKeeps(PlayMove(w, c, moves[0]), c, start, moves[1..], AllStale(w.sys, InstrOf(w, c, moves[0]), stale));
    }
  }

  /** What a counter of n bytes shows after k increments. */
  function Counted(start: nat, k: nat, n: nat): nat
  {
    (start + k) % Pow256(n)
  }

  /** The invariant holds before the first move of a run from reset. */
  lemma StartInv(s: System, c: Cell, loaded: seq<U64>, stale: seq<bool>)
    requires Fresh(s) && AllInv(s, stale) && |loaded| == |s.resv| && CellIn(c, s.mem)
    ensures Inv(World(s, loaded, 0), c, Value(s.mem, c), stale)
  {
    GetBounds(s.mem, c.addr, c.n);
    DivModIs(Value(s.mem, c), Pow256(c.n), 0, Value(s.mem, c));
  }

  /**
   For any number of harts starting without reservations, each with its own page tables and TLB, and any
   interleaving of their instructions, the counter holds its initial value plus the number of successful SCs,
   modulo its width.
   */
  lemma NoLostUpdate(s: System, c: Cell, loaded: seq<U64>, moves: seq<Move>, stale: seq<bool>)
    requires Fresh(s) && AllInv(s, stale) && |loaded| == |s.resv| && CellIn(c, s.mem)
    requires ByHarts(moves, |loaded|) && LegalRun(World(s, loaded, 0), c, moves, stale)
    ensures var w := PlayAll(World(s, loaded, 0), c, moves);
            Value(w.sys.mem, c) == Counted(Value(s.mem, c), w.successes, c.n)
  {
    StartInv(s, c, loaded, stale);
    PlayAllKeeps(World(s, loaded, 0), c, Value(s.mem, c), moves, stale);
  }

  // ---------- untranslated harts ----------

  predicate AllBare(s: System)
  {
    Valid(s) && forall h :: 0 <= h < |s.cfg| ==> s.cfg[h].satp == 0 && s.cfg[h].priv <= 3
  }

  /** The cell is addressed as it is; stores and SCs miss it, LRs do not reserve it; translation stays off. */
  predicate BareMove(m: Move, c: Cell)
  {
    match m
    case LoadCell(_, va) => va == c.addr
    case StoreCell(_, va) => va == c.addr
    case Elsewhere(Lr(_, a, _, same)) => a != c.addr && !same
    case Elsewhere(Sc(_, a, n, _)) => Apart(a, n, c.addr, c.n)
    case Elsewhere(Plain(_, op)) =>
      && (op.MemOp? && op.acc.write ==> Apart(op.va, op.n, c.addr, c.n))
      && (op.SetSatp? ==> op.satp == 0) && (op.SetPriv? ==> op.priv <= 3)
    case Elsewhere(Reconfigure(_, g)) => g.satp == 0 && g.priv <= 3
  }

  lemma BareCore(g: Core, acc: Access, a: U64)
    requires g.satp == 0
    ensures PlaceOf(g, acc, a) == Some(a) && DataAt(g, acc, a) == Some((g.bus, a)) && RefWalk(g, acc, a) == (g, Done(a))
    ensures Consistent(g)
  {
    assert Levels(0) == 0;
  }

  /** No walk, no page-table words. */
  lemma BareOffTables(g: Core, c: Cell)
    requires g.satp == 0
    ensures OffTables(g.bus, g.satp, c.addr, c.n)
  {
    assert Levels(0) == 0;
  }

  lemma BareElsewhere(g: Core, resv: seq<U64>, i: Instr, c: Cell)
    requires g.satp == 0 && i.hart < |resv| && BareMove(Elsewhere(i), c)
    ensures Misses(g, resv, i, c)
  {
    match i
    case Lr(h, a, n, same) =>
      BareCore(g, LOAD, a);
      if RefAccess(g, LOAD, n, a, 0).1.Done? {
        LoadThenWalk(g, n, a);
      }
    case Sc(h, a, n, data) =>
      BareCore(g, STORE, a);
      BareCore(g, Access(true, true), a);
    case Plain(_, op) => if op.MemOp? { BareCore(g, op.acc, op.va); }
    case Reconfigure(_, _) =>
  }

  lemma BareLawful(g: Core, resv: seq<U64>, m: Move, i: Instr, stale: bool, c: Cell)
    requires g.satp == 0 && i.hart < |resv| && BareMove(m, c) && (m.Elsewhere? ==> i == m.i)
    requires (!m.Elsewhere? ==> i.Lr? || i.Sc?)
    ensures LawfulOn(g, resv, i, stale)
  {
    if i.Sc? {
      BareCore(g, STORE, i.addr);
    }
  }

  lemma BareIsLegal(w: World, c: Cell, m: Move, stale: seq<bool>)
    requires Shaped(w) && |stale| == |w.loaded| && AllBare(w.sys) && HartIn(m) < |w.loaded| && BareMove(m, c)
    ensures Legal(w, c, m, stale)
  {
    var g, i := CoreOf(w.sys, HartIn(m)), InstrOf(w, c, m);
    BareLawful(g, w.sys.resv, m, i, stale[HartIn(m)], c);
    BareOffTables(g, c);
    match m
    case LoadCell(_, va) => BareCore(g, LOAD, va);
    case StoreCell(_, va) => BareCore(g, STORE, va);
    case Elsewhere(_) => BareElsewhere(g, w.sys.resv, i, c);
  }

  /** Accesses and walks change neither satp nor privilege. */
  lemma LrKeepsMode(g: Cached, resv: seq<U64>, h: nat, a: U64, n: nat, same: bool)
    requires Shape(g.tlb) && h < |resv|
    ensures var g' := LrOn(g, resv, h, a, n, same).0; g'.core.satp == g.core.satp && g'.core.priv == g.core.priv
  {
  }

  lemma ScKeepsMode(g: Cached, resv: seq<U64>, h: nat, a: U64, n: nat, data: nat)
    requires Shape(g.tlb) && h < |resv|
    ensures var g' := ScOn(g, resv, h, a, n, data).0; g'.core.satp == g.core.satp && g'.core.priv == g.core.priv
  {
  }

  lemma StepKeepsMode(g: Cached, op: MmuOp)
    requires Shape(g.tlb)
    ensures var g' := TlbStep(g, op).0;
            && (!op.SetSatp? ==> g'.core.satp == g.core.satp) && (!op.SetPriv? ==> g'.core.priv == g.core.priv)
            && (op.SetSatp? ==> g'.core.satp == op.satp) && (op.SetPriv? ==> g'.core.priv == op.priv)
  {
  }

  /** Instructions change satp and privilege only by writing them. */
  lemma BareOn(g: Cached, resv: seq<U64>, m: Move, i: Instr, c: Cell)
    requires Shape(g.tlb) && g.core.satp == 0 && g.core.priv <= 3 && i.hart < |resv| && BareMove(m, c)
    requires (m.Elsewhere? ==> i == m.i) && (!m.Elsewhere? ==> i.Lr? || i.Sc?)
    ensures var g' := On(g, resv, i).0; g'.core.satp == 0 && g'.core.priv <= 3
  {
    match i
    case Lr(h, a, n, same) => LrKeepsMode(g, resv, h, a, n, same);
    case Sc(h, a, n, data) => ScKeepsMode(g, resv, h, a, n, data);
    case Plain(_, op) => StepKeepsMode(g, op);
    case Reconfigure(_, _) =>
  }

  lemma BareStays(w: World, c: Cell, m: Move)
    requires Shaped(w) && AllBare(w.sys) && HartIn(m) < |w.loaded| && BareMove(m, c)
    ensures AllBare(PlayMove(w, c, m).sys)
  {
    BareOn(HartOf(w.sys, HartIn(m)), w.sys.resv, m, InstrOf(w, c, m), c);
  }

  lemma {:induction false} BareRunIsLegal(w: World, c: Cell, moves: seq<Move>, stale: seq<bool>)
    requires Shaped(w) && |stale| == |w.loaded| && AllBare(w.sys) && ByHarts(moves, |w.loaded|)
    requires forall k :: 0 <= k < |moves| ==> BareMove(moves[k], c)
    ensures LegalRun(w, c, moves, stale)
    decreases |moves|
  {
    if moves != [] {
      BareIsLegal(w, c, moves[0], stale);
      BareStays(w, c, moves[0]);
      BareRunIsLegal(PlayMove(w, c, moves[0]), c, moves[1..], AllStale(w.sys, InstrOf(w, c, moves[0]), stale));
    }
  }

  /** Without translation addresses are all that matters; the TLBs may hold anything. */
  lemma NoLostUpdateBare(s: System, c: Cell, loaded: seq<U64>, moves: seq<Move>)
    requires Fresh(s) && AllBare(s) && |loaded| == |s.resv| && CellIn(c, s.mem) && ByHarts(moves, |loaded|)
    requires forall k :: 0 <= k < |moves| ==> BareMove(moves[k], c)
    ensures var w := PlayAll(World(s, loaded, 0), c, moves);
            Value(w.sys.mem, c) == Counted(Value(s.mem, c), w.successes, c.n)
  {
    var stale := seq(|s.resv|, _ => true);
    BareRunIsLegal(World(s, loaded, 0), c, moves, stale);
    NoLostUpdate(s, c, loaded, moves, stale);
  }

  // ---------- why the cell must be left to LR and SC ----------

  /**
   A plain store (or an AMO's store) to a reserved cell does not end the reservation, so the SC that follows
   succeeds and the store's value is lost.
   */
  lemma PlainStoreLost(s: System, c: Cell, h: nat, g: nat, other: U64, data: U64)
    requires Valid(s) && h < |s.resv| && g < |s.resv| && Reservations.Bare(s, h) && Reservations.Bare(s, g)
    requires CellIn(c, s.mem) && s.resv[h] == c.addr
    requires Reservations.Step(s, Write(g, c.addr, c.n, other)).1 == Did(Done(0))
    requires Reservations.Step(Reservations.Step(s, Write(g, c.addr, c.n, other)).0, Sc(h, c.addr, c.n, data)).1 != Trap
    ensures var s1 := Reservations.Step(s, Write(g, c.addr, c.n, other)).0;
            var (s', r) := Reservations.Step(s1, Sc(h, c.addr, c.n, data));
            r == ScDone(true, c.addr) && Value(s'.mem, c) == data % Pow256(c.n)
  {
    var s1 := Reservations.Step(s, Write(g, c.addr, c.n, other)).0;
    WriteEffect(s, g, c.addr, c.n, other);
    ScEffect(s1, h, c.addr, c.n, data);
    GetPutSame(s1.mem, c.addr, c.n, data);
  }
}
