/**
 LR and SC of many harts over shared memory. The mutex makes each instruction one atomic step. PMP, satp,
 privilege, mstatus and TLB of each hart are arbitrary, and so are the page tables in memory.
 */
module Reservations {
  import opened Base
  import opened PhysMem
  import opened PageWalk
  import opened Tlb
  import opened Mmu
  import Pmp
  import PmpTheorems

  type ShapedCache = t: Cache | Shape(t) witness Empty()

  /** What a hart's accesses depend on besides memory. */
  datatype Config = Config(pmp: Pmp.Table, satp: U64, priv: nat, mstatus: bv64, tlb: ShapedCache)

  datatype System = System(mem: Phys, resv: seq<U64>, cfg: seq<Config>)

  predicate Valid(s: System)
  {
    |s.resv| == |s.cfg|
  }

  /** The memory side of hart h. */
  function HartOf(s: System, h: nat): Cached
    requires Valid(s) && h < |s.resv|
  {
    var g := s.cfg[h];
    Cached(Core(Bus(s.mem, g.pmp), g.satp, g.priv, g.mstatus), g.tlb)
  }

  /** The system after hart h has left its memory side as c. */
  function With(s: System, h: nat, c: Cached): (s': System)
    requires Valid(s) && h < |s.resv| && Shape(c.tlb)
    ensures Valid(s') && |s'.resv| == |s.resv|
  {
    var g := Config(c.core.bus.pmp, c.core.satp, c.core.priv, c.core.mstatus, c.tlb);
    s.(mem := c.core.bus.mem, cfg := s.cfg[h := g])
  }

  /** The value LR.W or LR.D leaves in rd. */
  function Extend(v: nat, n: nat): U64
  {
    if n == 4 then Sext32(v) else Wrap(v)
  }

  /** reservations after hart h's LR has reserved r. */
  function Reserve(resv: seq<U64>, h: nat, r: U64): (resv': seq<U64>)
    requires h < |resv|
    ensures |resv'| == |resv|
  {
    seq(|resv|, i requires 0 <= i < |resv| => if i == h then r else if resv[i] == r then 0 else resv[i])
  }

  /**
   What an instruction reports: a trap; a trap of LR after rd has been loaded; the value loaded and the
   address reserved; the 0 or 1 of an SC and the address it compared; anything else's outcome.
   */
  datatype Report =
    | Trap
    | LateTrap(value: U64)
    | Loaded(value: U64, reserved: U64)
    | ScDone(success: bool, addr: U64)
    | Did(out: Outcome)

  type MmuOp = Mmu.Op

  /**
   What a hart does; sameReg says that LR has rd == rs1. Plain accesses, AMO halves among them, do not look at
   reservations, and Reconfigure is any change of registers and TLB.
   */
  datatype Op =
    | Lr(hart: nat, addr: U64, n: nat, sameReg: bool)
    | Sc(hart: nat, addr: U64, n: nat, data: nat)
    | Plain(hart: nat, op: MmuOp)
    | Reconfigure(hart: nat, cfg: Config)

  /** A plain store. */
  function Write(h: nat, a: U64, n: nat, data: nat): Op
  {
    Plain(h, MemOp(Access(true, false), n, a, data))
  }

  /** LR on the memory side c of hart h: memory side, reservations and report after it. */
  function LrOn(c: Cached, resv: seq<U64>, h: nat, a: U64, n: nat, sameReg: bool): (r: (Cached, seq<U64>, Report))
    requires h < |resv| && Shape(c.tlb)
    ensures |r.1| == |resv| && Shape(r.0.tlb)
  {
    var (c1, out) := TlbAccess(c, Access(false, true), n, a, 0);
    if !out.Done? then (c1, resv, Trap)
    else
      var v := Extend(out.value, n);
      var (c2, phys) := WalkFor(c1, Access(false, true), if sameReg then v else a);
      if !phys.Done? then (c2, resv, LateTrap(v)) else (c2, Reserve(resv, h, phys.value), Loaded(v, phys.value))
  }

  /** SC, with mem_status false as fetch leaves it. */
  function ScOn(c: Cached, resv: seq<U64>, h: nat, a: U64, n: nat, data: nat): (r: (Cached, seq<U64>, Report))
    requires h < |resv| && Shape(c.tlb)
    ensures |r.1| == |resv| && Shape(r.0.tlb)
  {
    var (c1, phys) := WalkFor(c, Access(true, false), a);
    if !phys.Done? then (c1, resv, Trap)
    else if resv[h] != phys.value then (c1, resv[h := 0], ScDone(false, phys.value))
    else
      var (c2, out) := TlbAccess(c1, Access(true, true), n, a, data);
      if !out.Done? then (c2, resv, Trap) else (c2, resv[h := 0], ScDone(true, phys.value))
  }

  /** Memory side of the hart that executes op, reservations and report after it. */
  function On(c: Cached, resv: seq<U64>, op: Op): (r: (Cached, seq<U64>, Report))
    requires op.hart < |resv| && Shape(c.tlb)
    ensures |r.1| == |resv| && Shape(r.0.tlb)
  {
    match op
    case Lr(h, a, n, same) => LrOn(c, resv, h, a, n, same)
    case Sc(h, a, n, data) => ScOn(c, resv, h, a, n, data)
    case Plain(_, m) => var (c', out) := TlbStep(c, m); (c', resv, Did(out))
    case Reconfigure(_, g) =>
      (Cached(Core(Bus(c.core.bus.mem, g.pmp), g.satp, g.priv, g.mstatus), g.tlb), resv, Did(Done(0)))
  }

  function Step(s: System, op: Op): (r: (System, Report))
    requires Valid(s) && op.hart < |s.resv|
    ensures Valid(r.0) && |r.0.resv| == |s.resv|
  {
    var (c, resv, r) := On(HartOf(s, op.hart), s.resv, op);
    (With(s, op.hart, c).(resv := resv), r)
  }

  // ---------- effect of each step on the reservations ----------

  lemma LrResv(s: System, h: nat, a: U64, n: nat, sameReg: bool)
    requires Valid(s) && h < |s.resv|
    ensures var (s', r) := Step(s, Lr(h, a, n, sameReg));
            s'.resv == if r.Loaded? then Reserve(s.resv, h, r.reserved) else s.resv
  {
  }

  lemma ScResv(s: System, h: nat, a: U64, n: nat, data: nat)
    requires Valid(s) && h < |s.resv|
    ensures var (s', r) := Step(s, Sc(h, a, n, data));
            || (r == Trap && s'.resv == s.resv)
            || (r.ScDone? && s'.resv == s.resv[h := 0] && r.success == (s.resv[h] == r.addr))
  {
  }

  lemma PlainResv(s: System, op: Op)
    requires Valid(s) && op.hart < |s.resv| && (op.Plain? || op.Reconfigure?)
    ensures var (s', r) := Step(s, op); s'.resv == s.resv && r.Did?
  {
  }

  // ---------- history ----------

  /** Completed LR and SC instructions, with the physical address reserved or compared. */
  datatype Event = DidLr(hart: nat, addr: U64) | DidSc(hart: nat, addr: U64, success: bool)

  function EventsOf(op: Op, report: Report): seq<Event>
  {
    match (op, report)
    case (Lr(h, _, _, _), Loaded(_, a)) => [DidLr(h, a)]
    case (Sc(h, _, _, _), ScDone(ok, a)) => [DidSc(h, a, ok)]
    case _ => []
  }

  predicate AllHarts(ops: seq<Op>, count: nat)
  {
    forall i :: 0 <= i < |ops| ==> ops[i].hart < count
  }

  /** The state after the instructions ops and the history of completed LR and SC. */
  function Run(s: System, ops: seq<Op>): (r: (System, seq<Event>))
    requires Valid(s) && AllHarts(ops, |s.resv|)
    ensures Valid(r.0) && |r.0.resv| == |s.resv|
    decreases |ops|
  {
    if ops == [] then (s, [])
    else
      var last := ops[|ops| - 1];
      var (s1, events) := Run(s, ops[..|ops| - 1]);
      var (s2, report) := Step(s1, last);
      (s2, events + EventsOf(last, report))
  }

  /** Event e ends the reservation that h took on a: it is h's own next LR or SC, or another LR of a. */
  predicate Ends(e: Event, h: nat, a: U64)
  {
    e.hart == h || (e.DidLr? && e.addr == a)
  }

  /** h's latest completed LR or SC is an LR of a, and no other hart has completed an LR of a since. */
  ghost predicate Holds(events: seq<Event>, h: nat, a: U64)
  {
    exists k :: 0 <= k < |events| && events[k] == DidLr(h, a) && NoneEnds(events, k + 1, h, a)
  }

  ghost predicate NoneEnds(events: seq<Event>, k: nat, h: nat, a: U64)
  {
    forall j :: k <= j < |events| ==> !Ends(events[j], h, a)
  }

  lemma HoldsAfter(events: seq<Event>, e: Event, h: nat, a: U64)
    ensures Holds(events + [e], h, a) <==> e == DidLr(h, a) || (Holds(events, h, a) && !Ends(e, h, a))
  {
    var more := events + [e];
    if Holds(more, h, a) {
      var k :| 0 <= k < |more| && more[k] == DidLr(h, a) && NoneEnds(more, k + 1, h, a);
      if k < |events| {
        assert more[|events|] == e;
        assert events[k] == DidLr(h, a);
        assert forall j :: 0 <= j < |events| ==> more[j] == events[j];
        assert NoneEnds(events, k + 1, h, a);
      }
    }
    if e == DidLr(h, a) {
      assert more[|events|] == DidLr(h, a) && NoneEnds(more, |events| + 1, h, a);
    } else if Holds(events, h, a) && !Ends(e, h, a) {
      var k :| 0 <= k < |events| && events[k] == DidLr(h, a) && NoneEnds(events, k + 1, h, a);
      assert more[k] == DidLr(h, a) && NoneEnds(more, k + 1, h, a);
    }
  }

  /** The reservations array is exactly what the history says, for nonzero addresses. */
  ghost predicate Faithful(resv: seq<U64>, events: seq<Event>)
  {
    forall h: nat, a: U64 :: h < |resv| && a != 0 ==> (resv[h] == a <==> Holds(events, h, a))
  }

  lemma LrFaithful(resv: seq<U64>, events: seq<Event>, h: nat, r: U64)
    requires h < |resv| && Faithful(resv, events)
    ensures Faithful(Reserve(resv, h, r), events + [DidLr(h, r)])
  {
    forall g: nat, a: U64 | g < |resv| && a != 0
      ensures Reserve(resv, h, r)[g] == a <==> Holds(events + [DidLr(h, r)], g, a)
    {
      HoldsAfter(events, DidLr(h, r), g, a);
    }
  }

  lemma ScFaithful(resv: seq<U64>, events: seq<Event>, h: nat, a: U64, ok: bool)
    requires h < |resv| && Faithful(resv, events)
    ensures Faithful(resv[h := 0], events + [DidSc(h, a, ok)])
  {
    forall g: nat, b: U64 | g < |resv| && b != 0
      ensures resv[h := 0][g] == b <==> Holds(events + [DidSc(h, a, ok)], g, b)
    {
      HoldsAfter(events, DidSc(h, a, ok), g, b);
    }
  }

  lemma StepFaithful(s: System, events: seq<Event>, op: Op)
    requires Valid(s) && op.hart < |s.resv| && Faithful(s.resv, events)
    ensures var (s', report) := Step(s, op); Faithful(s'.resv, events + EventsOf(op, report))
  {
    var (s', report) := Step(s, op);
    match op {
      case Lr(h, a, n, same) =>
        LrResv(s, h, a, n, same);
        if report.Loaded? { LrFaithful(s.resv, events, h, report.reserved); }
      case Sc(h, a, n, data) =>
        ScResv(s, h, a, n, data);
        if report.ScDone? { ScFaithful(s.resv, events, h, report.addr, report.success); }
      case _ => PlainResv(s, op);
    }
    if EventsOf(op, report) == [] {
      assert events + EventsOf(op, report) == events;
    }
  }

  /** No reservation at reset. */
  predicate Fresh(s: System)
  {
    Valid(s) && forall h :: 0 <= h < |s.resv| ==> s.resv[h] == 0
  }

  lemma {:induction false} RunFaithful(s: System, ops: seq<Op>)
    requires Fresh(s) && AllHarts(ops, |s.resv|)
    ensures var (s', events) := Run(s, ops); Faithful(s'.resv, events)
    decreases |ops|
  {
    if ops != [] {
      RunFaithful(s, ops[..|ops| - 1]);
      var (s1, events) := Run(s, ops[..|ops| - 1]);
      StepFaithful(s1, events, ops[|ops| - 1]);
    }
  }

  /** Does h hold a reservation on any address? Address 0 stands for none. */
  ghost predicate HoldsAny(events: seq<Event>, h: nat)
  {
    exists a: U64 :: a != 0 && Holds(events, h, a)
  }

  /**
   In every run from reset, under any translation, an SC by h that completes with physical address a succeeds
   exactly when h's latest completed LR or SC is an LR that reserved a and no other hart has completed an
   LR that reserved a since; at address 0, which stands for no reservation, exactly when h holds none.
   */
  lemma ScExactHistory(s: System, ops: seq<Op>, h: nat, va: U64, n: nat, data: nat)
    requires Fresh(s) && AllHarts(ops, |s.resv|) && h < |s.resv|
    requires Step(Run(s, ops).0, Sc(h, va, n, data)).1.ScDone?
    ensures var r := Step(Run(s, ops).0, Sc(h, va, n, data)).1;
            r.success <==> if r.addr != 0 then Holds(Run(s, ops).1, h, r.addr) else !HoldsAny(Run(s, ops).1, h)
  {
    RunFaithful(s, ops);
    ScResv(Run(s, ops).0, h, va, n, data);
    var resv := Run(s, ops).0.resv;
    if resv[h] != 0 {
      assert Holds(Run(s, ops).1, h, resv[h]);
    }
  }

  /** At most one hart holds any nonzero reservation. */
  lemma HoldersUnique(events: seq<Event>, h: nat, g: nat, a: U64)
    requires Holds(events, h, a) && Holds(events, g, a)
    ensures h == g
  {
    var i :| 0 <= i < |events| && events[i] == DidLr(h, a) && NoneEnds(events, i + 1, h, a);
    var j :| 0 <= j < |events| && events[j] == DidLr(g, a) && NoneEnds(events, j + 1, g, a);
  }

  lemma {:induction false} ReservationsUnique(s: System, ops: seq<Op>, h: nat, g: nat)
    requires Fresh(s) && AllHarts(ops, |s.resv|) && h < |s.resv| && g < |s.resv|
    requires var r := Run(s, ops).0.resv; r[h] == r[g] != 0
    ensures h == g
  {
    RunFaithful(s, ops);
    HoldersUnique(Run(s, ops).1, h, g, Run(s, ops).0.resv[h]);
  }

  predicate Wins(e: Event)
  {
    e.DidSc? && e.success && e.addr != 0
  }

  /** Every successful SC in the history was backed by its hart's LR. */
  ghost predicate Backed(events: seq<Event>)
  {
    forall j :: 0 <= j < |events| && Wins(events[j]) ==> Holds(events[..j], events[j].hart, events[j].addr)
  }

  lemma {:induction false} RunBacked(s: System, ops: seq<Op>)
    requires Fresh(s) && AllHarts(ops, |s.resv|)
    ensures Backed(Run(s, ops).1)
    decreases |ops|
  {
    if ops != [] {
      var rest, last := ops[..|ops| - 1], ops[|ops| - 1];
      RunBacked(s, rest);
      var (s1, events) := Run(s, rest);
      var report := Step(s1, last).1;
      if last.Sc? && report.ScDone? {
        ScExactHistory(s, rest, last.hart, last.addr, last.n, last.data);
      }
      BackedAppend(events, EventsOf(last, report));
    }
  }

  lemma BackedAppend(events: seq<Event>, more: seq<Event>)
    requires Backed(events) && |more| <= 1
    requires |more| == 1 && Wins(more[0]) ==> Holds(events, more[0].hart, more[0].addr)
    ensures Backed(events + more)
  {
    var all := events + more;
    forall j | 0 <= j < |all| && Wins(all[j])
      ensures Holds(all[..j], all[j].hart, all[j].addr)
    {
      if j < |events| {
        assert all[..j] == events[..j];
      } else {
        assert all[..j] == events;
      }
    }
  }

  /** Two harts cannot both keep a reservation on a at event j. */
  lemma LrsClash(e: seq<Event>, k: nat, q: nat, j: nat, m: nat, h: nat, g: nat, a: U64)
    requires k < j < m <= |e| && q < j
    requires e[k] == DidLr(h, a) && e[q] == DidLr(g, a)
    requires forall i :: k < i < m ==> !Ends(e[i], h, a)
    requires forall i :: q < i < j ==> !Ends(e[i], g, a)
    ensures h == g
  {
  }

  /** The same on histories: k is the LR that backs the SC at m, so nothing between them succeeds on a. */
  lemma QuietBetween(e: seq<Event>, k: nat, j: nat, m: nat, h: nat, a: U64)
    requires Backed(e) && a != 0
    requires k < j < m < |e| && e[k] == DidLr(h, a) && e[m] == DidSc(h, a, true)
    requires forall i :: k < i < m ==> e[i].hart != h
    ensures !(e[j].DidSc? && e[j].success && e[j].addr == a)
  {
    var p :| 0 <= p < m && e[..m][p] == DidLr(h, a) && NoneEnds(e[..m], p + 1, h, a);
    assert p == k;
    if e[j].DidSc? && e[j].success && e[j].addr == a {
      var g := e[j].hart;
      var q :| 0 <= q < j && e[..j][q] == DidLr(g, a) && NoneEnds(e[..j], q + 1, g, a);
      LrsClash(e, k, q, j, m, h, g, a);
    }
  }

  /**
   In every run from reset, between an LR by h that reserves a and the successful SC it leads to, no SC to a
   by any hart succeeds.
   */
  lemma NoScBetween(s: System, ops: seq<Op>, k: nat, j: nat, m: nat, h: nat, a: U64)
    requires Fresh(s) && AllHarts(ops, |s.resv|) && a != 0
    requires var e := Run(s, ops).1;
             && k < j < m < |e| && e[k] == DidLr(h, a) && e[m] == DidSc(h, a, true)
             && forall i :: k < i < m ==> e[i].hart != h
    ensures var e := Run(s, ops).1; !(e[j].DidSc? && e[j].success && e[j].addr == a)
  {
    RunBacked(s, ops);
    QuietBetween(Run(s, ops).1, k, j, m, h, a);
  }

  // ---------- without translation ----------

  predicate Bare(s: System, h: nat)
    requires Valid(s) && h < |s.resv|
  {
    s.cfg[h].satp == 0
  }

  /** A Bare access: nothing but the bytes of a permitted store changes, and a load gives what is there. */
  lemma BareEffect(c: Cached, acc: Access, n: nat, a: U64, data: nat)
    requires Shape(c.tlb) && c.core.satp == 0
    ensures var (c', out) := TlbAccess(c, acc, n, a, data);
            && c' == c.(core := c.core.(bus := c'.core.bus)) && c'.core.bus.pmp == c.core.bus.pmp
            && c'.core.bus.mem == (if out.Done? && acc.write then Put(c.core.bus.mem, a, n, data) else c.core.bus.mem)
            && (out.Done? && !acc.write ==> out.value == Get(c.core.bus.mem, a, n))
            && (a == 0 ==> out == AccessFault)
  {
    assert Levels(0) == 0;
  }

  lemma BareWalk(c: Cached, acc: Access, va: U64)
    requires Shape(c.tlb) && c.core.satp == 0
    ensures WalkFor(c, acc, va) == (c, Done(va))
  {
    assert Levels(0) == 0;
  }

  lemma WithSame(s: System, h: nat, c: Cached)
    requires Valid(s) && h < |s.resv| && Shape(c.tlb) && c.core.bus.pmp == s.cfg[h].pmp
    requires c == HartOf(s, h).(core := HartOf(s, h).core.(bus := c.core.bus))
    ensures With(s, h, c) == s.(mem := c.core.bus.mem)
  {
    assert s.cfg[h := s.cfg[h]] == s.cfg;
  }

  lemma LrEffect(s: System, h: nat, a: U64, n: nat, sameReg: bool)
    requires Valid(s) && h < |s.resv| && Bare(s, h)
    ensures var (s', r) := Step(s, Lr(h, a, n, sameReg));
            var v := Extend(Get(s.mem, a, n), n);
            var p := if sameReg then v else a;
            (r == Trap && s' == s) || (r == Loaded(v, p) && s' == s.(resv := Reserve(s.resv, h, p)))
  {
    var c := HartOf(s, h);
    BareEffect(c, Access(false, true), n, a, 0);
    var (c1, out) := TlbAccess(c, Access(false, true), n, a, 0);
    assert c1 == c;
    if out.Done? {
      BareWalk(c, Access(false, true), if sameReg then Extend(out.value, n) else a);
    }
    WithSame(s, h, c);
  }

  lemma ScEffect(s: System, h: nat, a: U64, n: nat, data: nat)
    requires Valid(s) && h < |s.resv| && Bare(s, h)
    ensures var (s', r) := Step(s, Sc(h, a, n, data));
            || (r == Trap && s' == s)
            || (r == ScDone(false, a) && s.resv[h] != a && s' == s.(resv := s.resv[h := 0]))
            || (r == ScDone(true, a) && s.resv[h] == a
                && s' == s.(mem := Put(s.mem, a, n, data), resv := s.resv[h := 0]))
  {
    var c := HartOf(s, h);
    BareWalk(c, Access(true, false), a);
    BareEffect(c, Access(true, true), n, a, data);
    WithSame(s, h, c);
    WithSame(s, h, TlbAccess(c, Access(true, true), n, a, data).0);
  }

  lemma WriteEffect(s: System, h: nat, a: U64, n: nat, data: nat)
    requires Valid(s) && h < |s.resv| && Bare(s, h)
    ensures var (s', r) := Step(s, Write(h, a, n, data));
            || (r.Did? && !r.out.Done? && s' == s)
            || (r == Did(Done(0)) && s' == s.(mem := Put(s.mem, a, n, data)))
  {
    var c := HartOf(s, h);
    BareEffect(c, Access(true, false), n, a, data);
    WithSame(s, h, TlbAccess(c, Access(true, false), n, a, data).0);
  }

  // ---------- register reuse ----------

  /** One hart in M mode, no PMP entries, and a cell at 0x8000'0000 that holds the address of the next one. */
  function Pointing(): System
  {
    System(Phys([8, 0, 0, 0x80, 0, 0, 0, 0, 0, 0, 0, 0, 0, 0, 0, 0], _ => 0), [0],
           [Config(Pmp.Table(seq(16, _ => Pmp.Region(false, false, 0, 0, 0)), false, 0, 0), 0, 3, 0, Empty())])
  }

  lemma PointingCell(m: Phys)
    requires m == Pointing().mem
    ensures Get(m, 0x8000_0000, 8) == 0x8000_0008
  {
    assert Bytes(m, 0x8000_0004, 4) == 0 by {
      assert Bytes(m, 0x8000_0006, 2) == 0;
    }
    assert Bytes(m, 0x8000_0002, 6) == 0x8000;
  }

  lemma PointingPmp(b: Bus, acc: Access, a: int, data: nat)
    requires b == HartOf(Pointing(), 0).core.bus && 0x8000_0000 <= a <= 0x8000_0008
    ensures Physical(b, 3, acc, 8, a, data).1.Done?
  {
    PmpTheorems.OffScan(b.pmp.regions, true, a, a + 7, 0);
    assert Pmp.NO_MATCH & Pmp.R != 0 && Pmp.NO_MATCH & Pmp.X != 0 && Pmp.NO_MATCH & Pmp.W != 0;
  }

  /** The failing input: LR with rd = rs1 at 0x8000'0000, then an SC to 0x8000'0008, which no LR has named, succeeds. */
  lemma WrongScSucceeds(data: nat)
    ensures var s1 := Step(Pointing(), Lr(0, 0x8000_0000, 8, true)).0;
            && Step(Pointing(), Lr(0, 0x8000_0000, 8, true)).1 == Loaded(0x8000_0008, 0x8000_0008)
            && Step(s1, Sc(0, 0x8000_0008, 8, data)).1 == ScDone(true, 0x8000_0008)
  {
    var s := Pointing();
    var b := HartOf(s, 0).core.bus;
    PointingCell(s.mem);
    PointingPmp(b, Access(false, true), 0x8000_0000, 0);
    PointingPmp(b, Access(true, true), 0x8000_0008, data);
    LrEffect(s, 0, 0x8000_0000, 8, true);
    var s1 := Step(s, Lr(0, 0x8000_0000, 8, true)).0;
    ScEffect(s1, 0, 0x8000_0008, 8, data);
  }
}
