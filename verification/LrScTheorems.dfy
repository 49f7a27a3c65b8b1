/**
 Which physical address an LR reserves and an SC compares, against the one its load or store goes to. The two
 come from different code: the data access looks into the TLB and leaves M mode alone, the walk does neither.
 */
module LrScTheorems {
  import opened Base
  import opened PhysMem
  import opened Tlb
  import opened PageWalk
  import opened WalkTheorems
  import opened Mmu
  import opened Transparency
  import opened Reservations
  import opened Harts
  import Isa
  import Pmp
  import PmpTheorems

  const STORE := Access(true, false)

  /** Not in M mode with translation on. */
  predicate Consistent(c: Core)
  {
    c.priv < 3 || Levels(c.satp) == 0
  }

  /** A second translation of the same address, after the A/D update of the first. */
  lemma TranslateAgain(b: Bus, priv: int, acc: Access, acc': Access, satp: U64, mstatus: bv64, va: nat)
    requires Translate(b, priv, acc, satp, mstatus, va).To?
    requires acc'.write == acc.write && (acc.write || acc' == acc)
    ensures var t := Translate(b, priv, acc, satp, mstatus, va);
            var t' := Translate(t.bus, priv, acc', satp, mstatus, va);
            (t' == t || t' == Denied) && (acc' == acc ==> t' == t)
  {
    var t := Translate(b, priv, acc, satp, mstatus, va);
    var pa := t.leaf.pteAddr;
    ADFrame(b, pa, acc.write, priv, acc'.load, satp, va);
    OtherKind(b, priv, acc.load, acc'.load, satp, va);
    UpdateADWord(b, pa, acc.write, pa);
    UpdateADTwice(b, pa, acc.write);
  }

  /** Load and walk of an LR go to the same place. */
  lemma LoadThenWalk(c: Core, n: nat, a: U64)
    requires Consistent(c) && RefAccess(c, LOAD, n, a, 0).1.Done?
    ensures var (c1, out) := RefAccess(c, LOAD, n, a, 0);
            var d := DataAt(c, LOAD, a);
            && d.Some? && c1 == c.(bus := d.value.0) && out.value == Get(c1.bus.mem, d.value.1, n)
            && RefWalk(c1, LOAD, a) == (c1, Done(d.value.1))
  {
    if c.priv < 3 && Levels(c.satp) > 0 {
      TranslateAgain(c.bus, c.priv, LOAD, LOAD, c.satp, c.mstatus, a);
    }
  }

  /** An LR that keeps its address register reserves the physical address it loaded from, and only traps before. */
  lemma LrTied(c: Core, resv: seq<U64>, h: nat, a: U64, n: nat)
    requires h < |resv| && Consistent(c)
    ensures var (c', resv', r) := RefLr(c, resv, h, a, n, false);
            var d := DataAt(c, LOAD, a);
            || (r == Trap && resv' == resv && c' == RefAccess(c, LOAD, n, a, 0).0)
            || (d.Some? && r == Loaded(Extend(Get(d.value.0.mem, d.value.1, n), n), d.value.1)
                && c' == c.(bus := d.value.0) == RefAccess(c, LOAD, n, a, 0).0 && resv' == Reserve(resv, h, d.value.1))
  {
    if RefAccess(c, LOAD, n, a, 0).1.Done? {
      LoadThenWalk(c, n, a);
    }
  }

  /** The value of an LR in rd, on the bytes of memory: the sign-extended word, or the doubleword. */
  predicate LeavesValue(m: Phys, p: int, n: nat, v: U64)
  {
    var low := Peek(m, p, 0) + 0x100 * Peek(m, p, 1) + 0x1_0000 * Peek(m, p, 2) + 0x100_0000 * Peek(m, p, 3);
    if n == 4 then Isa.Int64(v) == if Peek(m, p, 3) >= 0x80 then low - 0x1_0000_0000 else low
    else v == low + 0x1_0000_0000 * Upper(m, p)
  }

  lemma WordSigned(rest: nat, top: Byte)
    requires rest < 0x100_0000
    ensures var low := rest + 0x100_0000 * top;
            Isa.Int64(Extend(low, 4)) == if top >= 0x80 then low - 0x1_0000_0000 else low
  {
  }

  lemma ExtendLeaves(m: Phys, p: int, n: nat)
    requires n == 4 || n == 8
    ensures LeavesValue(m, p, n, Extend(Get(m, p, n), n))
  {
    ReadsBytes(m, p);
    if n == 4 {
      WordSigned(Peek(m, p, 0) + 0x100 * Peek(m, p, 1) + 0x1_0000 * Peek(m, p, 2), Peek(m, p, 3));
    } else {
      GetBounds(m, p, 8);
      assert Extend(Get(m, p, 8), 8) == Get(m, p, 8);
    }
  }

  /**
   What LR leaves in rd, whether it completes or traps in its walk: LR.W the signed value of the 32-bit word at the
   address it loads from, LR.D the doubleword.
   */
  lemma LrValue(c: Core, resv: seq<U64>, h: nat, a: U64, n: nat, sameReg: bool)
    requires h < |resv| && (n == 4 || n == 8)
    ensures var r := RefLr(c, resv, h, a, n, sameReg).2;
            r.Loaded? || r.LateTrap? ==>
              var d := DataAt(c, LOAD, a);
              d.Some? && LeavesValue(d.value.0.mem, d.value.1, n, r.value)
  {
    var (c1, out) := RefAccess(c, LOAD, n, a, 0);
    if out.Done? {
      LoadReads(c, n, a, DataAt(c, LOAD, a));
      var d := DataAt(c, LOAD, a).value;
      ExtendLeaves(d.0.mem, d.1, n);
      LrGives(c, resv, h, a, n, sameReg, c1, out.value);
    }
  }

  lemma LoadReads(c: Core, n: nat, a: U64, d: Option<(Bus, nat)>)
    requires RefAccess(c, LOAD, n, a, 0).1.Done? && d == DataAt(c, LOAD, a)
    ensures d.Some? && RefAccess(c, LOAD, n, a, 0).1.value == Get(d.value.0.mem, d.value.1, n)
  {
  }

  lemma LrGives(c: Core, resv: seq<U64>, h: nat, a: U64, n: nat, sameReg: bool, c1: Core, v: nat)
    requires h < |resv| && RefAccess(c, LOAD, n, a, 0) == (c1, Done(v))
    ensures var r := RefLr(c, resv, h, a, n, sameReg).2; (r.Loaded? || r.LateTrap?) && r.value == Extend(v, n)
  {
  }

  /** The same with the TLB. */
  lemma LrOnValue(c: Cached, resv: seq<U64>, h: nat, a: U64, n: nat, sameReg: bool, stale: bool)
    requires h < |resv| && (n == 4 || n == 8)
    requires Inv(c, stale) && LawfulOn(c.core, resv, Lr(h, a, n, sameReg), stale)
    ensures var r := LrOn(c, resv, h, a, n, sameReg).2;
            r.Loaded? || r.LateTrap? ==>
              var d := DataAt(c.core, LOAD, a);
              d.Some? && LeavesValue(d.value.0.mem, d.value.1, n, r.value)
  {
    LrTransparent(c, resv, h, a, n, sameReg, stale);
    LrValue(c.core, resv, h, a, n, sameReg);
  }

  lemma WalkThenStore(c: Core, n: nat, a: U64, data: nat)
    requires Consistent(c) && RefWalk(c, STORE, a).1.Done?
    ensures var (c1, phys) := RefWalk(c, STORE, a);
            var d := DataAt(c, STORE, a);
            var (c2, out) := RefAccess(c1, Access(true, true), n, a, data);
            && d == Some((c1.bus, phys.value)) && c1 == c.(bus := c1.bus)
            && (if out.Done? then c2 == c1.(bus := Store(c1.bus, phys.value, n, data)) else c2 == c1)
  {
    if c.priv < 3 && Levels(c.satp) > 0 {
      TranslateAgain(c.bus, c.priv, STORE, Access(true, true), c.satp, c.mstatus, a);
    }
  }

  /** An SC compares the physical address that it stores to. */
  lemma ScTied(c: Core, resv: seq<U64>, h: nat, a: U64, n: nat, data: nat)
    requires h < |resv| && Consistent(c)
    ensures var (c', resv', r) := RefSc(c, resv, h, a, n, data);
            match DataAt(c, STORE, a)
            case None => r == Trap && c' == c && resv' == resv
            case Some((b, p)) =>
              || (r == Trap && c' == c.(bus := b) && resv' == resv)
              || (r == ScDone(false, p) && resv[h] != p && c' == c.(bus := b) && resv' == resv[h := 0])
              || (r == ScDone(true, p) && resv[h] == p && resv' == resv[h := 0]
                  && c' == c.(bus := Store(b, p, n, data)))
    ensures DataAt(c, STORE, a).Some? ==> RefWalk(c, STORE, a).0 == c.(bus := DataAt(c, STORE, a).value.0)
  {
    if RefWalk(c, STORE, a).1.Done? {
      WalkThenStore(c, n, a, data);
    } else {
      NoWalkNoData(c, a);
    }
  }

  lemma NoWalkNoData(c: Core, a: U64)
    requires Consistent(c) && !RefWalk(c, STORE, a).1.Done?
    ensures DataAt(c, STORE, a) == None && RefWalk(c, STORE, a).0 == c
  {
  }

  // ---------- register reuse ----------

  /** A/D updates change no translation but in what it leaves of memory. */
  lemma TranslateElsewhere(b: Bus, pa: int, write: bool, priv: int, acc: Access, satp: U64, mstatus: bv64, va: nat)
    requires pa % 8 == 0
    ensures var t := Translate(b, priv, acc, satp, mstatus, va);
            var t' := Translate(UpdateAD(b, pa, write), priv, acc, satp, mstatus, va);
            && t.To? == t'.To? && (t.To? ==> t'.phys == t.phys) && (!t.To? ==> t' == t)
  {
    ADFrame(b, pa, write, priv, acc.load, satp, va);
    var w := Walk(b, priv, acc.load, satp, va);
    if w.Found? {
      UpdateADWord(b, pa, write, w.leaf.pteAddr);
    }
  }

  /** Where an access by this hart goes, if it gets that far. */
  function PlaceOf(c: Core, acc: Access, va: nat): Option<nat>
  {
    match DataAt(c, acc, va)
    case None => None
    case Some((_, p)) => Some(p)
  }

  /** The walk of another address after a load. */
  lemma WalkElsewhere(c: Core, n: nat, a: U64, x: U64)
    requires Consistent(c) && RefAccess(c, LOAD, n, a, 0).1.Done?
    ensures var out := RefWalk(RefAccess(c, LOAD, n, a, 0).0, LOAD, x).1;
            PlaceOf(c, LOAD, x) == if out.Done? then Some(out.value) else None
  {
    if c.priv < 3 && Levels(c.satp) > 0 {
      var t := Translate(c.bus, c.priv, LOAD, c.satp, c.mstatus, a);
      TranslateElsewhere(c.bus, t.leaf.pteAddr, false, c.priv, LOAD, c.satp, c.mstatus, x);
    }
  }

  lemma RefReservesExact(c: Core, resv: seq<U64>, h: nat, a: U64, n: nat, sameReg: bool)
    requires h < |resv| && Consistent(c) && RefLr(c, resv, h, a, n, sameReg).2.Loaded?
    ensures var r := RefLr(c, resv, h, a, n, sameReg).2;
            && PlaceOf(c, LOAD, a).Some?
            && (r.reserved == PlaceOf(c, LOAD, a).value
                <==> !sameReg || PlaceOf(c, LOAD, r.value) == PlaceOf(c, LOAD, a))
  {
    LoadThenWalk(c, n, a);
    WalkElsewhere(c, n, a, RefLr(c, resv, h, a, n, sameReg).2.value);
  }

  /**
   An LR that completes reserves the physical address it has loaded from exactly when it keeps its address
   register or the value it loads is an address that goes to the same place. (Below M mode or without translation.)
   */
  lemma LrReservesExact(c: Cached, resv: seq<U64>, h: nat, a: U64, n: nat, sameReg: bool, stale: bool)
    requires h < |resv| && Inv(c, stale) && LawfulOn(c.core, resv, Lr(h, a, n, sameReg), stale) && Consistent(c.core)
    requires LrOn(c, resv, h, a, n, sameReg).2.Loaded?
    ensures var r := LrOn(c, resv, h, a, n, sameReg).2;
            && PlaceOf(c.core, LOAD, a).Some?
            && (r.reserved == PlaceOf(c.core, LOAD, a).value
                <==> !sameReg || PlaceOf(c.core, LOAD, r.value) == PlaceOf(c.core, LOAD, a))
  {
    LrTransparent(c, resv, h, a, n, sameReg, stale);
    RefReservesExact(c.core, resv, h, a, n, sameReg);
  }

  /** Loads and stores of one address go to one place, if they get there. */
  lemma OnePlace(c: Core, a: U64)
    requires Consistent(c)
    ensures PlaceOf(c, LOAD, a).Some? && PlaceOf(c, STORE, a).Some? ==> PlaceOf(c, STORE, a) == PlaceOf(c, LOAD, a)
  {
    if c.priv < 3 {
      var w := Walk(c.bus, c.priv, true, c.satp, a);
      if w.Found? {
        OtherKind(c.bus, c.priv, true, false, c.satp, a);
      }
    }
  }

  lemma PlaceAD(c: Core, pa: int, write: bool, acc: Access, x: U64)
    requires Consistent(c) && pa % 8 == 0
    ensures PlaceOf(c.(bus := UpdateAD(c.bus, pa, write)), acc, x) == PlaceOf(c, acc, x)
  {
    match Effective(c, acc)
    case None =>
    case Some(p) => TranslateElsewhere(c.bus, pa, write, p, acc, c.satp, c.mstatus, x);
  }

  lemma WalkKeepsPlaces(c: Core, acc: Access, a: U64, acc': Access, x: U64)
    requires Consistent(c)
    ensures var c1 := RefWalk(c, acc, a).0; Consistent(c1) && PlaceOf(c1, acc', x) == PlaceOf(c, acc', x)
  {
    var tr := Translate(c.bus, c.priv, acc, c.satp, c.mstatus, a);
    if tr.To? {
      PlaceAD(c, tr.leaf.pteAddr, acc.write, acc', x);
    }
  }

  lemma LoadKeepsPlaces(c: Core, n: nat, a: U64, acc: Access, x: U64)
    requires Consistent(c)
    ensures var c1 := RefAccess(c, LOAD, n, a, 0).0; Consistent(c1) && PlaceOf(c1, acc, x) == PlaceOf(c, acc, x)
  {
    match Effective(c, LOAD)
    case None =>
    case Some(p) =>
      var tr := Translate(c.bus, p, LOAD, c.satp, c.mstatus, a);
      if tr.To? {
        PlaceAD(c, tr.leaf.pteAddr, false, acc, x);
      }
  }

  lemma LrKeepsPlaces(c: Core, resv: seq<U64>, h: nat, a: U64, n: nat, same: bool, acc: Access, x: U64)
    requires h < |resv| && Consistent(c)
    ensures var c1 := RefLr(c, resv, h, a, n, same).0; Consistent(c1) && PlaceOf(c1, acc, x) == PlaceOf(c, acc, x)
  {
    LoadKeepsPlaces(c, n, a, acc, x);
    var (c1, out) := RefAccess(c, LOAD, n, a, 0);
    if out.Done? {
      WalkKeepsPlaces(c1, LOAD, if same then Extend(out.value, n) else a, acc, x);
    }
  }

  /** Otherwise the reservation is lost: an SC to the place that was loaded does not succeed. */
  lemma RefLost(c: Core, resv: seq<U64>, h: nat, a: U64, n: nat, data: nat)
    requires h < |resv| && Consistent(c)
    requires var r := RefLr(c, resv, h, a, n, true).2;
             r.Loaded? && PlaceOf(c, LOAD, r.value) != PlaceOf(c, LOAD, a)
    ensures var (c1, resv1, _) := RefLr(c, resv, h, a, n, true);
            var r := RefSc(c1, resv1, h, a, n, data).2;
            PlaceOf(c, LOAD, a).Some? && (r == Trap || r == ScDone(false, PlaceOf(c, LOAD, a).value))
  {
    var (c1, resv1, _) := RefLr(c, resv, h, a, n, true);
    RefReservesExact(c, resv, h, a, n, true);
    LrKeepsPlaces(c, resv, h, a, n, true, LOAD, a);
    OnePlace(c1, a);
    ScTied(c1, resv1, h, a, n, data);
  }

  lemma LostReservation(c: Cached, resv: seq<U64>, h: nat, a: U64, n: nat, data: nat, stale: bool)
    requires h < |resv| && Inv(c, stale) && LawfulOn(c.core, resv, Lr(h, a, n, true), stale) && Consistent(c.core)
    requires var (c1, resv1, r) := LrOn(c, resv, h, a, n, true);
             && r.Loaded? && PlaceOf(c.core, LOAD, r.value) != PlaceOf(c.core, LOAD, a)
             && LawfulOn(c1.core, resv1, Sc(h, a, n, data), StaleOn(c.core, resv, Lr(h, a, n, true), stale))
    ensures var (c1, resv1, _) := LrOn(c, resv, h, a, n, true);
            var r := ScOn(c1, resv1, h, a, n, data).2;
            PlaceOf(c.core, LOAD, a).Some? && (r == Trap || r == ScDone(false, PlaceOf(c.core, LOAD, a).value))
  {
    var stale1 := StaleOn(c.core, resv, Lr(h, a, n, true), stale);
    LrTransparent(c, resv, h, a, n, true, stale);
    var (c1, resv1, _) := LrOn(c, resv, h, a, n, true);
    ScTransparent(c1, resv1, h, a, n, data, stale1);
    RefLost(c.core, resv, h, a, n, data);
  }

  // ---------- M mode with translation on ----------

  /** The load is not translated, the walk is: the right address is reserved exactly if the page maps it to itself. */
  lemma MachineReservesExact(c: Core, resv: seq<U64>, h: nat, a: U64, n: nat)
    requires h < |resv| && c.priv == 3 && Effective(c, LOAD).None?
    requires RefLr(c, resv, h, a, n, false).2.Loaded?
    ensures var r := RefLr(c, resv, h, a, n, false).2;
            && r.value == Extend(Get(c.bus.mem, a, n), n)
            && (r.reserved == a
                <==> var t := Translate(c.bus, 3, LOAD, c.satp, c.mstatus, a); t.To? ==> t.phys == a)
  {
  }

  /** An LR in M mode, whose walk goes to q and has no A/D bits to set. */
  lemma MachineLr(c: Cached, resv: seq<U64>, h: nat, a: U64, n: nat, q: U64)
    requires h < |resv| && Shape(c.tlb) && c.core.priv == 3 && Effective(c.core, LOAD).None?
    requires ReadOk(c.core.bus, 3, true, a, n) && RefWalk(c.core, LOAD, a) == (c.core, Done(q))
    ensures var (c', resv', r) := LrOn(c, resv, h, a, n, false);
            c'.core == c.core && resv' == Reserve(resv, h, q) && r == Loaded(Extend(Get(c.core.bus.mem, a, n), n), q)
  {
  }

  lemma MachineSc(c: Cached, resv: seq<U64>, h: nat, a: U64, n: nat, data: nat, q: U64)
    requires h < |resv| && Shape(c.tlb) && c.core.priv == 3 && Effective(c.core, Access(true, true)).None?
    requires WriteOk(c.core.bus, 3, a, n) && RefWalk(c.core, STORE, a) == (c.core, Done(q)) && resv[h] == q
    ensures var (c', resv', r) := ScOn(c, resv, h, a, n, data);
            && c'.core == c.core.(bus := Store(c.core.bus, a, n, data)) && resv' == resv[h := 0] && r == ScDone(true, q)
  {
  }

  lemma SystemLr(s: System, h: nat, a: U64, q: U64)
    requires Valid(s) && h < |s.resv| && CoreOf(s, h).priv == 3 && Effective(CoreOf(s, h), LOAD).None?
    requires ReadOk(CoreOf(s, h).bus, 3, true, a, 8) && RefWalk(CoreOf(s, h), LOAD, a) == (CoreOf(s, h), Done(q))
    ensures var (s', r) := Reservations.Step(s, Lr(h, a, 8, false));
            && r == Loaded(Extend(Get(s.mem, a, 8), 8), q) && s'.mem == s.mem && s'.resv == Reserve(s.resv, h, q)
            && forall g :: 0 <= g < |s.resv| ==> CoreOf(s', g) == CoreOf(s, g)
  {
    MachineLr(HartOf(s, h), s.resv, h, a, 8, q);
    var c := LrOn(HartOf(s, h), s.resv, h, a, 8, false).0;
    forall g | 0 <= g < |s.resv| && g != h
      ensures CoreOf(With(s, h, c), g) == CoreOf(s, g)
    {
      WithOther(s, h, g, c);
    }
  }

  lemma SystemSc(s: System, h: nat, a: U64, data: nat, q: U64)
    requires Valid(s) && h < |s.resv| && CoreOf(s, h).priv == 3 && Effective(CoreOf(s, h), Access(true, true)).None?
    requires WriteOk(CoreOf(s, h).bus, 3, a, 8) && RefWalk(CoreOf(s, h), STORE, a) == (CoreOf(s, h), Done(q))
    requires s.resv[h] == q
    ensures var (s', r) := Reservations.Step(s, Sc(h, a, 8, data));
            && r == ScDone(true, q) && s'.mem == Put(s.mem, a, 8, data) && s'.resv == s.resv[h := 0]
            && forall g :: 0 <= g < |s.resv| ==> CoreOf(s', g) == Seeing(CoreOf(s, g), s'.mem)
  {
    MachineSc(HartOf(s, h), s.resv, h, a, 8, data, q);
    var c := ScOn(HartOf(s, h), s.resv, h, a, 8, data).0;
    forall g | 0 <= g < |s.resv| && g != h
      ensures CoreOf(With(s, h, c), g) == Seeing(CoreOf(s, g), c.core.bus.mem)
    {
      WithOther(s, h, g, c);
    }
  }

  const A: U64 := 0x8000_0008
  const SV39: U64 := 0x8000_0000_0008_0000

  /**
   Two harts in M mode without PMP entries, the first with Sv39 on. Its root table at 0x8000'0000 maps the third
   gigabyte to address 0; both see the 8-byte cell at A, which holds 0.
   */
  function Split(): System
  {
    var pmp := Pmp.Table(seq(16, _ => Pmp.Region(false, false, 0, 0, 0)), false, 0, 0);
    System(Phys([0, 0, 0, 0, 0, 0, 0, 0, 0, 0, 0, 0, 0, 0, 0, 0, 0xCF, 0, 0, 0, 0, 0, 0, 0], _ => 0), [0, 0],
           [Config(pmp, SV39, 3, 0, Empty()), Config(pmp, 0, 3, 0, Empty())])
  }

  lemma SplitPmp(b: Bus, a: int)
    requires b.pmp == CoreOf(Split(), 0).bus.pmp && |b.mem.ram| == 24 && 0x8000_0000 <= a <= 0x8000_0010
    ensures ReadOk(b, 3, true, a, 8) && ReadOk(b, 3, false, a, 8) && WriteOk(b, 3, a, 8)
  {
    PmpTheorems.OffScan(b.pmp.regions, true, a, a + 7, 0);
    assert Pmp.NO_MATCH & Pmp.R != 0 && Pmp.NO_MATCH & Pmp.X != 0 && Pmp.NO_MATCH & Pmp.W != 0;
  }

  lemma {:induction false} ZeroBytes(m: Phys, a: int, n: nat)
    requires forall b :: a <= b < a + n ==> ByteAt(m, b) == 0
    ensures Bytes(m, a, n) == 0
    decreases n
  {
    if n > 0 {
      ZeroBytes(m, a + 1, n - 1);
    }
  }

  lemma SplitMemory()
    ensures var m := Split().mem; Get(m, A, 8) == 0 && Get(m, 0x8000_0010, 8) == 0xCF
  {
    ZeroBytes(Split().mem, A, 8);
    ZeroBytes(Split().mem, 0x8000_0011, 7);
  }

  lemma SplitSlot()
    ensures Levels(SV39) == 3 && PteAddr(Root(SV39), A, 2) == 0x8000_0010 && PageSize(2) == 0x4000_0000
  {
  }

  lemma SplitPte(p: int)
    requires p == 0xCF
    ensures Decode(p) == Final(0, Perms(true, true, true), false) && SetAD(p, false) == p && SetAD(p, true) == p
  {
  }

  /** The part of the first hart that its walk of A looks at. */
  predicate SplitTables(c: Core)
  {
    && c.priv == 3 && c.satp == SV39 && PteAt(c.bus, 0x8000_0010) == 0xCF && WriteOk(c.bus, 3, 0x8000_0010, 8)
    && ReadOk(c.bus, 3, true, 0x8000_0010, 8) && ReadOk(c.bus, 3, false, 0x8000_0010, 8)
  }

  lemma SplitLeaf(c: Core, acc: Access, l: Leaf)
    requires SplitTables(c) && (acc == LOAD || acc == STORE)
    requires l == Leaf(0x8000_0010, 2, 0, Perms(true, true, true), false)
    ensures Walk(c.bus, 3, acc.load, SV39, A) == Found(l) && Target(l, A) == 8 && Admits(l, acc, 3, c.mstatus)
  {
    SplitSlot();
    SplitPte(PteAt(c.bus, 0x8000_0010));
  }

  lemma SplitUpdate(b: Bus, write: bool)
    requires PteAt(b, 0x8000_0010) == 0xCF
    ensures UpdateAD(b, 0x8000_0010, write) == b
  {
    SplitPte(PteAt(b, 0x8000_0010));
    PutGetSame(b.mem, 0x8000_0010, 8);
  }

  lemma SplitWalk(c: Core, acc: Access)
    requires SplitTables(c) && (acc == LOAD || acc == STORE)
    ensures RefWalk(c, acc, A) == (c, Done(8))
  {
    SplitSlot();
    SplitLeaf(c, acc, Leaf(0x8000_0010, 2, 0, Perms(true, true, true), false));
    SplitUpdate(c.bus, acc.write);
  }

  /** Two harts in M mode; the walk of the first goes to q, the second does not translate. */
  ghost predicate SplitHarts(s: System, a: U64, q: U64)
  {
    && Valid(s) && |s.resv| == 2 && a != q && Get(s.mem, a, 8) == 0 && InRam(s.mem, a) && InRam(s.mem, a + 7)
    && (var c := CoreOf(s, 0);
        RefWalk(c, LOAD, a) == (c, Done(q)) && RefWalk(c, STORE, a) == (c, Done(q)))
    && CoreOf(s, 1).satp == 0
    && forall h :: 0 <= h < 2 ==>
         var c := CoreOf(s, h);
         && c.priv == 3 && Effective(c, LOAD).None? && Effective(c, Access(true, true)).None?
         && ReadOk(c.bus, 3, true, a, 8) && WriteOk(c.bus, 3, a, 8)
  }

  lemma BareGoesAlong(c: Core, acc: Access, a: U64)
    requires c.satp == 0
    ensures RefWalk(c, acc, a) == (c, Done(a))
  {
    assert Levels(0) == 0;
  }

  lemma BothLoad(s: System, a: U64, q: U64)
    requires SplitHarts(s, a, q)
    ensures var (s1, r1) := Reservations.Step(s, Lr(0, a, 8, false));
            var (s2, r2) := Reservations.Step(s1, Lr(1, a, 8, false));
            && r1 == Loaded(0, q) && r2 == Loaded(0, a) && SplitHarts(s2, a, q)
            && s2.resv[0] == q && s2.resv[1] == a
  {
    SystemLr(s, 0, a, q);
    var s1 := Reservations.Step(s, Lr(0, a, 8, false)).0;
    BareGoesAlong(CoreOf(s1, 1), LOAD, a);
    SystemLr(s1, 1, a, a);
  }

  lemma BothStore(s: System, a: U64, q: U64, data: nat)
    requires SplitHarts(s, a, q) && s.resv[0] == q && s.resv[1] == a
    ensures var (s1, r1) := Reservations.Step(s, Sc(0, a, 8, data));
            var (s2, r2) := Reservations.Step(s1, Sc(1, a, 8, data));
            r1 == ScDone(true, q) && r2 == ScDone(true, a) && Get(s2.mem, a, 8) == data % Pow256(8)
  {
    SystemSc(s, 0, a, data, q);
    var s1 := Reservations.Step(s, Sc(0, a, 8, data)).0;
    BareGoesAlong(CoreOf(s1, 1), STORE, a);
    SystemSc(s1, 1, a, data, a);
    GetPutSame(s1.mem, a, 8, data);
  }

  lemma SplitCores()
    ensures SplitTables(CoreOf(Split(), 0)) && CoreOf(Split(), 1).satp == 0
    ensures forall h :: 0 <= h < 2 ==>
              var c := CoreOf(Split(), h);
              c.priv == 3 && c.mstatus == 0 && c.bus == CoreOf(Split(), 0).bus && |c.bus.mem.ram| == 24
  {
    SplitMemory();
    SplitPmp(CoreOf(Split(), 0).bus, 0x8000_0010);
  }

  lemma NoMprv(c: Core, acc: Access)
    requires c.priv == 3 && c.mstatus == 0
    ensures Effective(c, acc).None?
  {
  }

  lemma SplitIsSplit()
    ensures SplitHarts(Split(), A, 8)
  {
    var s := Split();
    SplitCores();
    SplitMemory();
    SplitWalk(CoreOf(s, 0), LOAD);
    SplitWalk(CoreOf(s, 0), STORE);
    SplitPmp(CoreOf(s, 0).bus, A);
    forall h | 0 <= h < 2
      ensures Effective(CoreOf(s, h), LOAD).None? && Effective(CoreOf(s, h), Access(true, true)).None?
    {
      NoMprv(CoreOf(s, h), LOAD);
      NoMprv(CoreOf(s, h), Access(true, true));
    }
  }

  lemma OneInEight()
    ensures 1 % Pow256(8) == 1
  {
    PowMonotone(1, 8);
    assert Pow256(1) == 256;
  }

  /**
   Both harts load 0, reserve, and store 1, and both SCs succeed: one increment is lost. The first reserves
   physical address 8 for the cell, so neither ends the reservation of the other.
   */
  lemma MachineModeLosesUpdate()
    ensures var (s1, r1) := Reservations.Step(Split(), Lr(0, A, 8, false));
            var (s2, r2) := Reservations.Step(s1, Lr(1, A, 8, false));
            var (s3, r3) := Reservations.Step(s2, Sc(0, A, 8, 1));
            var (s4, r4) := Reservations.Step(s3, Sc(1, A, 8, 1));
            && r1 == Loaded(0, 8) && r2 == Loaded(0, A) && r3 == ScDone(true, 8) && r4 == ScDone(true, A)
            && Get(s4.mem, A, 8) == 1
  {
    SplitIsSplit();
    BothLoad(Split(), A, 8);
    var s2 := Reservations.Step(Reservations.Step(Split(), Lr(0, A, 8, false)).0, Lr(1, A, 8, false)).0;
    BothStore(s2, A, 8, 1);
    OneInEight();
  }
}
