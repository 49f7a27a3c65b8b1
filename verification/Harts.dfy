/**
 The TLBs of many harts over one memory are invisible: plain accesses, LR and SC of all of them, in any
 interleaving, against the same harts without TLBs.
 */
module Harts {
  import opened Base
  import opened PhysMem
  import opened Tlb
  import opened PageWalk
  import opened Mmu
  import opened Transparency
  import opened Reservations

  type Instr = Reservations.Op

  const LOAD := Access(false, true)

  // ---------- the harts without TLBs ----------

  function RefLr(c: Core, resv: seq<U64>, h: nat, a: U64, n: nat, sameReg: bool): (r: (Core, seq<U64>, Report))
    requires h < |resv|
    ensures |r.1| == |resv|
  {
    var (c1, out) := RefAccess(c, LOAD, n, a, 0);
    if !out.Done? then (c1, resv, Trap)
    else
      var v := Extend(out.value, n);
      var (c2, phys) := RefWalk(c1, LOAD, if sameReg then v else a);
      if !phys.Done? then (c2, resv, LateTrap(v)) else (c2, Reserve(resv, h, phys.value), Loaded(v, phys.value))
  }

  function RefSc(c: Core, resv: seq<U64>, h: nat, a: U64, n: nat, data: nat): (r: (Core, seq<U64>, Report))
    requires h < |resv|
    ensures |r.1| == |resv|
  {
    var (c1, phys) := RefWalk(c, Access(true, false), a);
    if !phys.Done? then (c1, resv, Trap)
    else if resv[h] != phys.value then (c1, resv[h := 0], ScDone(false, phys.value))
    else
      var (c2, out) := RefAccess(c1, Access(true, true), n, a, data);
      if !out.Done? then (c2, resv, Trap) else (c2, resv[h := 0], ScDone(true, phys.value))
  }

  function RefOn(c: Core, resv: seq<U64>, i: Instr): (r: (Core, seq<U64>, Report))
    requires i.hart < |resv|
    ensures |r.1| == |resv|
  {
    match i
    case Lr(h, a, n, same) => RefLr(c, resv, h, a, n, same)
    case Sc(h, a, n, data) => RefSc(c, resv, h, a, n, data)
    case Plain(_, m) => var (c', out) := RefStep(c, m); (c', resv, Did(out))
    case Reconfigure(_, g) => (Core(Bus(c.bus.mem, g.pmp), g.satp, g.priv, g.mstatus), resv, Did(Done(0)))
  }

  // ---------- one hart ----------

  /** What the instruction asks of software, on the hart without TLB. */
  ghost predicate LawfulOn(c: Core, resv: seq<U64>, i: Instr, stale: bool)
    requires i.hart < |resv|
  {
    match i
    case Lr(_, a, n, _) => Lawful(c, MemOp(LOAD, n, a, 0), stale)
    case Sc(h, a, n, data) =>
      var (c1, phys) := RefWalk(c, Access(true, false), a);
      phys.Done? && resv[h] == phys.value ==>
        Lawful(c1, MemOp(Access(true, true), n, a, data), StaleAfter(c, WalkOp(Access(true, false), a), stale))
    case Plain(_, m) => Lawful(c, m, stale)
    case Reconfigure(_, g) => g.priv <= 3
  }

  /** May the hart's own TLB be out of date after it? */
  ghost predicate StaleOn(c: Core, resv: seq<U64>, i: Instr, stale: bool)
    requires i.hart < |resv|
  {
    match i
    case Lr(_, a, n, same) =>
      var (c1, out) := RefAccess(c, LOAD, n, a, 0);
      if !out.Done? then stale else StaleAfter(c1, WalkOp(LOAD, if same then Extend(out.value, n) else a), stale)
    case Sc(h, a, n, data) =>
      var (c1, phys) := RefWalk(c, Access(true, false), a);
      var stale1 := StaleAfter(c, WalkOp(Access(true, false), a), stale);
      if !(phys.Done? && resv[h] == phys.value) then stale1
      else StaleAfter(c1, MemOp(Access(true, true), n, a, data), stale1)
    case Plain(_, m) => StaleAfter(c, m, stale)
    case Reconfigure(_, _) => true
  }

  lemma LrTransparent(c: Cached, resv: seq<U64>, h: nat, a: U64, n: nat, same: bool, stale: bool)
    requires h < |resv| && Inv(c, stale) && LawfulOn(c.core, resv, Lr(h, a, n, same), stale)
    ensures var (c', resv', r) := LrOn(c, resv, h, a, n, same);
            && RefLr(c.core, resv, h, a, n, same) == (c'.core, resv', r)
            && Inv(c', StaleOn(c.core, resv, Lr(h, a, n, same), stale))
  {
    StepTransparent(c, MemOp(LOAD, n, a, 0), stale);
    var (c1, out) := TlbAccess(c, LOAD, n, a, 0);
    if out.Done? {
      StepTransparent(c1, WalkOp(LOAD, if same then Extend(out.value, n) else a), stale);
    }
  }

  lemma ScTransparent(c: Cached, resv: seq<U64>, h: nat, a: U64, n: nat, data: nat, stale: bool)
    requires h < |resv| && Inv(c, stale) && LawfulOn(c.core, resv, Sc(h, a, n, data), stale)
    ensures var (c', resv', r) := ScOn(c, resv, h, a, n, data);
            && RefSc(c.core, resv, h, a, n, data) == (c'.core, resv', r)
            && Inv(c', StaleOn(c.core, resv, Sc(h, a, n, data), stale))
  {
    var w := WalkOp(Access(true, false), a);
    StepTransparent(c, w, stale);
    var (c1, phys) := WalkFor(c, Access(true, false), a);
    if phys.Done? && resv[h] == phys.value {
      StepTransparent(c1, MemOp(Access(true, true), n, a, data), StaleAfter(c.core, w, stale));
    }
  }

  /** The hart that executes sees no TLB, and its TLB stays as current as software keeps it. */
  lemma OnTransparent(c: Cached, resv: seq<U64>, i: Instr, stale: bool)
    requires i.hart < |resv| && Inv(c, stale) && LawfulOn(c.core, resv, i, stale)
    ensures var (c', resv', r) := On(c, resv, i);
            RefOn(c.core, resv, i) == (c'.core, resv', r) && Inv(c', StaleOn(c.core, resv, i, stale))
  {
    match i
    case Lr(h, a, n, same) => LrTransparent(c, resv, h, a, n, same, stale);
    case Sc(h, a, n, data) => ScTransparent(c, resv, h, a, n, data, stale);
    case Plain(_, m) => StepTransparent(c, m, stale);
    case Reconfigure(_, _) =>
  }

  // ---------- the other harts ----------

  /** A store of the hart c misses every page-table word of the hart g. */
  ghost predicate SparesOf(g: Core, c: Core, op: MmuOp)
  {
    match op
    case MemOp(acc, n, va, _) =>
      var d := DataAt(c, acc, va);
      acc.write && d.Some? ==> OffTables(Bus(d.value.0.mem, g.bus.pmp), g.satp, d.value.1, n)
    case _ => true
  }

  /** g with the memory that another hart has left. */
  function Seeing(g: Core, mem: Phys): Core
  {
    g.(bus := g.bus.(mem := mem))
  }

  lemma PhysicalElsewhere(b: Bus, g: Core, t: Cache, priv: int, acc: Access, n: nat, a: int, data: nat)
    requires Shape(t) && b.mem == g.bus.mem && Coherent(g.bus, g.satp, t)
    requires acc.write ==> OffTables(g.bus, g.satp, a, n)
    ensures Coherent(Seeing(g, Physical(b, priv, acc, n, a, data).0.mem).bus, g.satp, t)
  {
    if acc.write && WriteOk(b, priv, a, n) {
      CoherentStore(g.bus, g.satp, t, a, n, data);
    }
  }

  lemma UpdateElsewhere(b: Bus, g: Core, t: Cache, pa: int, write: bool)
    requires Shape(t) && b.mem == g.bus.mem && Coherent(g.bus, g.satp, t) && pa % 8 == 0
    ensures Coherent(Seeing(g, UpdateAD(b, pa, write).mem).bus, g.satp, t)
  {
    CoherentAD(g.bus, g.satp, t, pa, write);
  }

  lemma AccessElsewhere(c: Core, g: Core, t: Cache, acc: Access, n: nat, va: U64, data: nat)
    requires Shape(t) && c.bus.mem == g.bus.mem && Coherent(g.bus, g.satp, t) && SparesOf(g, c, MemOp(acc, n, va, data))
    ensures Coherent(Seeing(g, RefAccess(c, acc, n, va, data).0.bus.mem).bus, g.satp, t)
  {
    var d := DataAt(c, acc, va);
    match Effective(c, acc)
    case None => PhysicalElsewhere(c.bus, g, t, c.priv, acc, n, va, data);
    case Some(p) =>
      match Translate(c.bus, p, acc, c.satp, c.mstatus, va)
      case Denied =>
      case Fault =>
      case Bare => PhysicalElsewhere(c.bus, g, t, p, acc, n, va, data);
      case To(phys, b, l) =>
        UpdateElsewhere(c.bus, g, t, l.pteAddr, acc.write);
        PhysicalElsewhere(b, Seeing(g, b.mem), t, p, acc, n, phys, data);
  }

  lemma StepElsewhere(c: Core, g: Core, t: Cache, op: MmuOp)
    requires Shape(t) && c.bus.mem == g.bus.mem && Coherent(g.bus, g.satp, t) && SparesOf(g, c, op)
    ensures Coherent(Seeing(g, RefStep(c, op).0.bus.mem).bus, g.satp, t)
  {
    match op
    case MemOp(acc, n, va, data) => AccessElsewhere(c, g, t, acc, n, va, data);
    case WalkOp(acc, va) =>
      var tr := Translate(c.bus, c.priv, acc, c.satp, c.mstatus, va);
      if tr.To? {
        UpdateElsewhere(c.bus, g, t, tr.leaf.pteAddr, acc.write);
      }
    case _ =>
  }

  /** The instruction of one hart spares the page tables of another. */
  ghost predicate SparesOn(g: Core, c: Core, resv: seq<U64>, i: Instr)
    requires i.hart < |resv|
  {
    match i
    case Sc(h, a, n, data) =>
      var (c1, phys) := RefWalk(c, Access(true, false), a);
      phys.Done? && resv[h] == phys.value ==> SparesOf(g, c1, MemOp(Access(true, true), n, a, data))
    case Plain(_, m) => SparesOf(g, c, m)
    case _ => true
  }

  lemma LrElsewhere(c: Core, g: Core, t: Cache, resv: seq<U64>, h: nat, a: U64, n: nat, same: bool)
    requires h < |resv| && Shape(t) && c.bus.mem == g.bus.mem && Coherent(g.bus, g.satp, t)
    ensures Coherent(Seeing(g, RefLr(c, resv, h, a, n, same).0.bus.mem).bus, g.satp, t)
  {
    StepElsewhere(c, g, t, MemOp(LOAD, n, a, 0));
    var (c1, out) := RefAccess(c, LOAD, n, a, 0);
    if out.Done? {
      StepElsewhere(c1, Seeing(g, c1.bus.mem), t, WalkOp(LOAD, if same then Extend(out.value, n) else a));
    }
  }

  lemma ScElsewhere(c: Core, g: Core, t: Cache, resv: seq<U64>, h: nat, a: U64, n: nat, data: nat)
    requires h < |resv| && Shape(t) && c.bus.mem == g.bus.mem && Coherent(g.bus, g.satp, t)
    requires SparesOn(g, c, resv, Sc(h, a, n, data))
    ensures Coherent(Seeing(g, RefSc(c, resv, h, a, n, data).0.bus.mem).bus, g.satp, t)
  {
    StepElsewhere(c, g, t, WalkOp(Access(true, false), a));
    var (c1, phys) := RefWalk(c, Access(true, false), a);
    if phys.Done? && resv[h] == phys.value {
      StepElsewhere(c1, Seeing(g, c1.bus.mem), t, MemOp(Access(true, true), n, a, data));
    }
  }

  lemma OnElsewhere(c: Core, g: Core, t: Cache, resv: seq<U64>, i: Instr)
    requires i.hart < |resv| && Shape(t) && c.bus.mem == g.bus.mem && Coherent(g.bus, g.satp, t)
    requires SparesOn(g, c, resv, i)
    ensures Coherent(Seeing(g, RefOn(c, resv, i).0.bus.mem).bus, g.satp, t)
  {
    match i
    case Lr(h, a, n, same) => LrElsewhere(c, g, t, resv, h, a, n, same);
    case Sc(h, a, n, data) => ScElsewhere(c, g, t, resv, h, a, n, data);
    case Plain(_, m) => StepElsewhere(c, g, t, m);
    case Reconfigure(_, _) =>
  }

  // ---------- the system ----------

  /** The hart as it would be without a TLB. */
  function CoreOf(s: System, h: nat): Core
    requires Valid(s) && h < |s.resv|
  {
    HartOf(s, h).core
  }

  /** The system without TLBs; those in its configurations are never looked at. */
  function RefSystemStep(s: System, i: Instr): (r: (System, Report))
    requires Valid(s) && i.hart < |s.resv|
    ensures Valid(r.0) && |r.0.resv| == |s.resv|
  {
    var (c, resv, r) := RefOn(CoreOf(s, i.hart), s.resv, i);
    (With(s, i.hart, Cached(c, s.cfg[i.hart].tlb)).(resv := resv), r)
  }

  /** Equal but for the TLBs. */
  ghost predicate Alike(s: System, r: System)
  {
    && Valid(s) && Valid(r) && s.mem == r.mem && s.resv == r.resv
    && forall h :: 0 <= h < |s.resv| ==> CoreOf(s, h) == CoreOf(r, h)
  }

  /** Each TLB is coherent with memory unless software owes it a fence. */
  ghost predicate AllInv(s: System, stale: seq<bool>)
  {
    Valid(s) && |stale| == |s.resv| && forall h :: 0 <= h < |s.resv| ==> Inv(HartOf(s, h), stale[h])
  }

  /** Which TLBs may be out of date after the instruction. */
  ghost function AllStale(s: System, i: Instr, stale: seq<bool>): (r: seq<bool>)
    requires Valid(s) && i.hart < |s.resv| && |stale| == |s.resv|
    ensures |r| == |stale|
  {
    seq(|stale|, g requires 0 <= g < |stale| =>
      if g == i.hart then StaleOn(CoreOf(s, g), s.resv, i, stale[g])
      else stale[g] || !SparesOn(CoreOf(s, g), CoreOf(s, i.hart), s.resv, i))
  }

  lemma WithOther(s: System, h: nat, g: nat, c: Cached)
    requires Valid(s) && h < |s.resv| && g < |s.resv| && g != h && Shape(c.tlb)
    ensures HartOf(With(s, h, c), h) == c
    ensures HartOf(With(s, h, c), g) == Cached(Seeing(CoreOf(s, g), c.core.bus.mem), s.cfg[g].tlb)
  {
  }

  lemma OthersInv(s: System, i: Instr, stale: seq<bool>, g: nat)
    requires AllInv(s, stale) && i.hart < |s.resv| && g < |s.resv| && g != i.hart
    requires LawfulOn(CoreOf(s, i.hart), s.resv, i, stale[i.hart])
    ensures Inv(HartOf(Reservations.Step(s, i).0, g), AllStale(s, i, stale)[g])
  {
    var c := HartOf(s, i.hart);
    OnTransparent(c, s.resv, i, stale[i.hart]);
    var c' := On(c, s.resv, i).0;
    WithOther(s, i.hart, g, c');
    assert Inv(HartOf(s, g), stale[g]);
    if !AllStale(s, i, stale)[g] {
      OnElsewhere(c.core, CoreOf(s, g), s.cfg[g].tlb, s.resv, i);
    }
  }

  /** One instruction of one hart, seen by all. */
  lemma StepAlike(s: System, r: System, i: Instr, stale: seq<bool>)
    requires AllInv(s, stale) && Alike(s, r) && i.hart < |s.resv|
    requires LawfulOn(CoreOf(r, i.hart), r.resv, i, stale[i.hart])
    ensures Alike(Reservations.Step(s, i).0, RefSystemStep(r, i).0)
    ensures Reservations.Step(s, i).1 == RefSystemStep(r, i).1
    ensures AllInv(Reservations.Step(s, i).0, AllStale(r, i, stale))
  {
    var h := i.hart;
    assert Inv(HartOf(s, h), stale[h]) && CoreOf(s, h) == CoreOf(r, h);
    OnTransparent(HartOf(s, h), s.resv, i, stale[h]);
    var c, d := On(HartOf(s, h), s.resv, i).0, Cached(RefOn(CoreOf(r, h), r.resv, i).0, r.cfg[h].tlb);
    forall g | 0 <= g < |s.resv|
      ensures CoreOf(Reservations.Step(s, i).0, g) == CoreOf(RefSystemStep(r, i).0, g)
      ensures Inv(HartOf(Reservations.Step(s, i).0, g), AllStale(r, i, stale)[g])
    {
      assert CoreOf(s, g) == CoreOf(r, g);
      if g != h {
        OthersInv(s, i, stale, g);
        WithOther(s, h, g, c);
        WithOther(r, h, g, d);
      }
    }
  }

  // ---------- runs ----------

  function Play(s: System, instrs: seq<Instr>): (r: (System, seq<Report>))
    requires Valid(s) && AllHarts(instrs, |s.resv|)
    decreases |instrs|
  {
    if instrs == [] then (s, [])
    else
      var (s1, report) := Reservations.Step(s, instrs[0]);
      var (s2, reports) := Play(s1, instrs[1..]);
      (s2, [report] + reports)
  }

  function RefPlay(s: System, instrs: seq<Instr>): (r: (System, seq<Report>))
    requires Valid(s) && AllHarts(instrs, |s.resv|)
    decreases |instrs|
  {
    if instrs == [] then (s, [])
    else
      var (s1, report) := RefSystemStep(s, instrs[0]);
      var (s2, reports) := RefPlay(s1, instrs[1..]);
      (s2, [report] + reports)
  }

  /** What software owes the TLBs, in terms of the system without them. */
  ghost predicate LawfulPlay(s: System, instrs: seq<Instr>, stale: seq<bool>)
    requires Valid(s) && AllHarts(instrs, |s.resv|) && |stale| == |s.resv|
    decreases |instrs|
  {
    instrs == [] ||
      var i := instrs[0];
      && LawfulOn(CoreOf(s, i.hart), s.resv, i, stale[i.hart])
      && LawfulPlay(RefSystemStep(s, i).0, instrs[1..], AllStale(s, i, stale))
  }

  /**
   Any number of harts, any interleaving of their accesses, LRs, SCs, fences and CSR changes: what each
   instruction reports, the reservations, memory and A/D bits are those of the harts without TLBs, as long as
   each hart fences after what it or another hart did to its page tables, satp or PMP.
   */
  lemma {:induction false} HartsTransparent(s: System, r: System, instrs: seq<Instr>, stale: seq<bool>)
    requires AllInv(s, stale) && Alike(s, r) && AllHarts(instrs, |s.resv|) && LawfulPlay(r, instrs, stale)
    ensures Alike(Play(s, instrs).0, RefPlay(r, instrs).0) && Play(s, instrs).1 == RefPlay(r, instrs).1
    decreases |instrs|
  {
    if instrs != [] {
      StepAlike(s, r, instrs[0], stale);
      HartsTransparent(Reservations.Step(s, instrs[0]).0, RefSystemStep(r, instrs[0]).0, instrs[1..],
                       AllStale(r, instrs[0], stale));
    }
  }
}
