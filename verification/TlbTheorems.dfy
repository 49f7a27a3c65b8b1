/** Bookkeeping of the TLB and completeness of its search. */
module TlbTheorems {
  import opened Base
  import BitOps
  import opened Tlb
  import PageWalk
  import WalkTheorems
  import Mmu

  /** The number of live entries of size s among the first n slots. */
  function LiveCount(slots: seq<Entry>, s: nat, n: nat): (c: nat)
    requires n <= |slots|
    ensures c <= n
  {
    if n == 0 then 0
    else LiveCount(slots, s, n - 1) + if Live(slots[n - 1]) && slots[n - 1].size == s then 1 else 0
  }

  /** Every live entry sits in the slot its own page hashes to. */
  ghost predicate Placed(t: Cache)
    requires Shape(t)
  {
    forall j :: 0 <= j < TLB_SIZE && Live(t.slots[j]) ==>
      t.slots[j].virtPage % PageSize(t.slots[j].size) == 0 && Hash(t.slots[j].virtPage) == j
  }

  /** size_count holds exact numbers of live entries. */
  ghost predicate Counted(t: Cache)
    requires Shape(t)
  {
    forall s :: 0 <= s < 6 ==> t.count[s] == LiveCount(t.slots, s, TLB_SIZE)
  }

  ghost predicate Inv(t: Cache)
  {
    Shape(t) && Placed(t) && Counted(t) && t.maxSize == Highest(t.count, 6)
  }

  lemma {:induction false} LiveCountPrefix(a: seq<Entry>, b: seq<Entry>, s: nat, n: nat)
    requires n <= |a| && n <= |b| && forall j :: 0 <= j < n ==> a[j] == b[j]
    ensures LiveCount(a, s, n) == LiveCount(b, s, n)
  {
    if n > 0 {
      LiveCountPrefix(a, b, s, n - 1);
    }
  }

  function Weight(e: Entry, s: nat): nat
  {
    if Live(e) && e.size == s then 1 else 0
  }

  lemma {:induction false} LiveCountUpdate(slots: seq<Entry>, k: nat, e: Entry, s: nat, n: nat)
    requires k < n <= |slots|
    ensures LiveCount(slots[k := e], s, n) == LiveCount(slots, s, n) - Weight(slots[k], s) + Weight(e, s)
  {
    if k == n - 1 {
      LiveCountPrefix(slots, slots[k := e], s, n - 1);
    } else {
      LiveCountUpdate(slots, k, e, s, n - 1);
    }
  }

  lemma {:induction false} LiveCountEmpty(slots: seq<Entry>, s: nat, n: nat)
    requires n <= |slots| && forall j :: 0 <= j < n ==> !Live(slots[j])
    ensures LiveCount(slots, s, n) == 0
  {
    if n > 0 {
      LiveCountEmpty(slots, s, n - 1);
    }
  }

  lemma {:induction false} LiveCounted(slots: seq<Entry>, j: nat, n: nat)
    requires j < n <= |slots| && Live(slots[j])
    ensures LiveCount(slots, slots[j].size, n) > 0
  {
    if j < n - 1 {
      LiveCounted(slots, j, n - 1);
    }
  }

  lemma {:induction false} CountedLive(slots: seq<Entry>, s: nat, n: nat)
    requires n <= |slots| && LiveCount(slots, s, n) > 0
    ensures exists j :: 0 <= j < n && Live(slots[j]) && slots[j].size == s
  {
    if !(Live(slots[n - 1]) && slots[n - 1].size == s) {
      CountedLive(slots, s, n - 1);
    }
  }

  lemma {:induction false} HighestIsMax(count: seq<Byte>, n: nat)
    requires n <= |count|
    ensures forall s :: Highest(count, n) < s < n ==> count[s] == 0
    ensures Highest(count, n) > 0 ==> Highest(count, n) < n && count[Highest(count, n)] > 0
  {
    if n > 0 {
      HighestIsMax(count, n - 1);
    }
  }

  lemma EmptyInv()
    ensures Inv(Empty())
  {
    forall s | 0 <= s < 6
      ensures Empty().count[s] == LiveCount(Empty().slots, s, TLB_SIZE)
    {
      LiveCountEmpty(Empty().slots, s, TLB_SIZE);
    }
    assert forall n :: 0 <= n <= 6 ==> Highest(Empty().count, n) == 0 by {
      forall n | 0 <= n <= 6 ensures Highest(Empty().count, n) == 0 { HighestIsMax(Empty().count, n); }
    }
  }

  /** Entries the page walk inserts: page-aligned, of a legal size and with some permission. */
  predicate Insertable(e: Entry)
  {
    e.size < 6 && Live(e) && e.virtPage % PageSize(e.size) == 0
  }

  lemma RecountEntry(count: seq<Byte>, old_: Entry, e: Entry, s: nat)
    requires |count| == 6 && e.size < 6 && old_.size < 6 && s < 6 && Live(e)
    requires count[s] as int + Weight(e, s) < 0x100 && (Live(old_) ==> count[old_.size] > 0)
    ensures Recount(count, old_, e)[s] as int == count[s] as int - Weight(old_, s) + Weight(e, s)
  {
  }

  lemma AddCounted(t: Cache, e: Entry, s: nat)
    requires Shape(t) && Counted(t) && e.size < 6 && Live(e) && s < 6
    ensures Add(t, e).count[s] == LiveCount(Add(t, e).slots, s, TLB_SIZE)
  {
    var k := Hash(e.virtPage);
    LiveCountUpdate(t.slots, k, e, s, TLB_SIZE);
    if Live(t.slots[k]) { LiveCounted(t.slots, k, TLB_SIZE); }
    assert t.count[s] == LiveCount(t.slots, s, TLB_SIZE);
    assert t.count[t.slots[k].size] == LiveCount(t.slots, t.slots[k].size, TLB_SIZE);
    RecountEntry(t.count, t.slots[k], e, s);
  }

  lemma AddInv(t: Cache, e: Entry)
    requires Inv(t) && Insertable(e)
    ensures Inv(Add(t, e))
  {
    forall s | 0 <= s < 6
      ensures Add(t, e).count[s] == LiveCount(Add(t, e).slots, s, TLB_SIZE)
    {
      AddCounted(t, e, s);
    }
  }

  /** What happens to a TLB. */
  datatype Op = Insert(entry: Entry) | Clear

  function Step(t: Cache, op: Op): (t': Cache)
    requires Shape(t) && (op.Insert? ==> op.entry.size < 6)
    ensures Shape(t')
  {
    match op
    case Insert(e) => Add(t, e)
    case Clear => Empty()
  }

  predicate AllInsertable(ops: seq<Op>)
  {
    forall i :: 0 <= i < |ops| && ops[i].Insert? ==> Insertable(ops[i].entry)
  }

  function Run(ops: seq<Op>): (t: Cache)
    requires AllInsertable(ops)
    ensures Shape(t)
  {
    if ops == [] then Empty() else Step(Run(ops[..|ops| - 1]), ops[|ops| - 1])
  }

  lemma {:induction false} RunInv(ops: seq<Op>)
    requires AllInsertable(ops)
    ensures Inv(Run(ops))
  {
    EmptyInv();
    if ops != [] {
      RunInv(ops[..|ops| - 1]);
      if ops[|ops| - 1].Insert? {
        AddInv(Run(ops[..|ops| - 1]), ops[|ops| - 1].entry);
      }
    }
  }

  /** After any adds and clears: exact counters, and max_entry_size is the largest live size (0 if none). */
  lemma Bookkeeping(ops: seq<Op>)
    requires AllInsertable(ops)
    ensures var t := Run(ops);
            && Inv(t)
            && (forall j :: 0 <= j < TLB_SIZE && Live(t.slots[j]) ==> t.slots[j].size <= t.maxSize)
            && (t.maxSize > 0 ==> exists j :: 0 <= j < TLB_SIZE && Live(t.slots[j]) && t.slots[j].size == t.maxSize)
  {
    RunInv(ops);
    var t := Run(ops);
    HighestIsMax(t.count, 6);
    forall j | 0 <= j < TLB_SIZE && Live(t.slots[j])
      ensures t.slots[j].size <= t.maxSize
    {
      LiveCounted(t.slots, j, TLB_SIZE);
    }
    if t.maxSize > 0 {
      CountedLive(t.slots, t.maxSize, TLB_SIZE);
    }
  }

  // ---------- probe completeness ----------

  lemma AlignedBase(va: nat, vb: nat, i: nat)
    requires SamePage(va, vb, i) && vb % PageSize(i) == 0
    ensures PageBase(va, i) == vb
  {
    SameQuotient(va, vb, PageSize(i));
  }

  lemma SameQuotient(x: nat, y: nat, d: int)
    requires d > 0 && x / d == y / d && y % d == 0
    ensures x - x % d == y
  {
    assert x == d * (x / d) + x % d;
    assert y == d * (y / d) + y % d;
  }

  /** Two live entries of one size that cover the same address are the same slot. */
  lemma ProbeFinds(t: Cache, va: nat, j: nat)
    requires Inv(t) && j < TLB_SIZE && Live(t.slots[j]) && SamePage(va, t.slots[j].virtPage, t.slots[j].size)
    ensures Probe(t, va, t.slots[j].size) == t.slots[j] && t.slots[j].size <= t.maxSize
  {
    AlignedBase(va, t.slots[j].virtPage, t.slots[j].size);
    HighestIsMax(t.count, 6);
    LiveCounted(t.slots, j, TLB_SIZE);
  }

  lemma {:induction false} FindFromAbove(t: Cache, va: nat, acc: Access, priv: int, sum: bool, i: int, s: nat)
    requires Shape(t) && s <= i < 6
    requires Probe(t, va, s).size == s && Usable(Probe(t, va, s), va, acc, priv, sum)
    ensures var r := Find(t, va, acc, priv, sum, i); r.Some? && r.value.size >= s
    decreases i
  {
    if i > s {
      FindFromAbove(t, va, acc, priv, sum, i - 1, s);
    }
  }

  /**
   tlb_find misses exactly when no live entry anywhere in the table covers the address and passes the
   permission and privilege tests, and when it hits it uses a usable entry of the largest size.
   */
  lemma SearchComplete(t: Cache, va: nat, acc: Access, priv: int, sum: bool)
    requires Inv(t)
    ensures var r := Find(t, va, acc, priv, sum, t.maxSize);
            && (r.None? <==> forall j :: 0 <= j < TLB_SIZE ==> !Usable(t.slots[j], va, acc, priv, sum))
            && (r.Some? ==>
                  forall j :: 0 <= j < TLB_SIZE && Usable(t.slots[j], va, acc, priv, sum) ==>
                    t.slots[j].size <= r.value.size)
  {
    forall j | 0 <= j < TLB_SIZE && Usable(t.slots[j], va, acc, priv, sum)
      ensures var r := Find(t, va, acc, priv, sum, t.maxSize); r.Some? && t.slots[j].size <= r.value.size
    {
      ProbeFinds(t, va, j);
      FindFromAbove(t, va, acc, priv, sum, t.maxSize, t.slots[j].size);
    }
  }

  // ---------- slots and pages ----------

  /** The slot is bits 16 to 21 of the product; that the product is taken modulo 2^64 does not show. */
  lemma HashIs(a: int)
    ensures 0x1_0000 * Hash(a) <= 106039 * a % 0x40_0000 < 0x1_0000 * (Hash(a) + 1)
  {
    var x := 106039 * a;
    var y := Wrap(x);
    var q, k := y / 0x1_0000, x / 0x1_0000_0000_0000_0000;
    assert x == 0x1_0000_0000_0000_0000 * k + y;
    DivModIs(x, 0x40_0000, 0x400_0000_0000 * k + q / 0x40, 0x1_0000 * (q % 0x40) + y % 0x1_0000);
  }

  lemma {:induction false} SizeIsPower(i: nat)
    ensures PageSize(i) == BitOps.Exp2(12 + 9 * i)
    decreases i
  {
    if i == 0 {
      BitOps.ExpSum(4, 8);
      BitOps.BigPowers();
    } else {
      SizeIsPower(i - 1);
      BitOps.ExpSum(9, 3 + 9 * i);
      BitOps.BigPowers();
    }
  }

  /**
   An entry serves an access if it agrees with its address on the bits above the page offset, has the permission, and
   belongs to U mode in U mode, to S mode elsewhere unless SUM is set.
   */
  lemma UsableExact(e: Entry, va: nat, acc: Access, priv: nat, sum: bool)
    ensures Usable(e, va, acc, priv, sum) <==>
              && va / BitOps.Exp2(12 + 9 * e.size) == e.virtPage / BitOps.Exp2(12 + 9 * e.size)
              && (acc.write ==> e.perms.w) && (!acc.write && acc.load ==> e.perms.r)
              && (!acc.write && !acc.load ==> e.perms.x)
              && (if priv == 0 then e.user else e.user ==> sum)
  {
    SizeIsPower(e.size);
  }

  // ---------- the machine's own TLB ----------

  lemma FillInv(b: PageWalk.Bus, priv: int, acc: Access, satp: U64, mstatus: bv64, va: U64, t: Cache)
    requires Inv(t)
    ensures Inv(Mmu.Fill(t, PageWalk.Translate(b, priv, acc, satp, mstatus, va), va))
  {
    var tr := PageWalk.Translate(b, priv, acc, satp, mstatus, va);
    if tr.To? {
      WalkTheorems.FoundReadable(b, priv, acc.load, satp, va);
      WalkTheorems.BaseIsAligned(va, tr.leaf.level);
      AddInv(t, PageWalk.EntryOf(tr.leaf, va));
    }
  }

  lemma AccessInv(s: Mmu.Cached, acc: Access, n: nat, va: U64, data: nat)
    requires Inv(s.tlb)
    ensures Inv(Mmu.TlbAccess(s, acc, n, va, data).0.tlb)
  {
    var c := s.core;
    var p := Mmu.Effective(c, acc);
    if p.Some? {
      var k := Mmu.Lookup(c.bus, s.tlb, c.satp, c.mstatus, p.value, acc, va);
      FillInv(k.bus, p.value, acc.(load := k.load), c.satp, c.mstatus, va, s.tlb);
    }
  }

  lemma StepInv(s: Mmu.Cached, op: Mmu.Op)
    requires Inv(s.tlb)
    ensures Inv(Mmu.TlbStep(s, op).0.tlb)
  {
    match op {
      case MemOp(acc, n, va, data) => AccessInv(s, acc, n, va, data);
      case WalkOp(acc, va) => FillInv(s.core.bus, s.core.priv, acc, s.core.satp, s.core.mstatus, va, s.tlb);
      case Fence => EmptyInv();
      case _ =>
    }
  }

  lemma {:induction false} MachineInv(s: Mmu.Cached, ops: seq<Mmu.Op>)
    requires Inv(s.tlb)
    ensures Inv(Mmu.TlbRun(s, ops).0.tlb)
    decreases |ops|
  {
    if ops != [] {
      StepInv(s, ops[0]);
      MachineInv(Mmu.TlbStep(s, ops[0]).0, ops[1..]);
    }
  }

  /** In every state any run from reset reaches, fences and stale entries included, the search is complete. */
  lemma SearchAlwaysComplete(c: Mmu.Core, ops: seq<Mmu.Op>, va: nat, acc: Access, priv: int, sum: bool)
    ensures var t := Mmu.TlbRun(Mmu.Cached(c, Empty()), ops).0.tlb;
            var r := Find(t, va, acc, priv, sum, t.maxSize);
            && Inv(t)
            && (r.None? <==> forall j :: 0 <= j < TLB_SIZE ==> !Usable(t.slots[j], va, acc, priv, sum))
            && (r.Some? ==>
                  forall j :: 0 <= j < TLB_SIZE && Usable(t.slots[j], va, acc, priv, sum) ==>
                    t.slots[j].size <= r.value.size)
  {
    EmptyInv();
    MachineInv(Mmu.Cached(c, Empty()), ops);
    SearchComplete(Mmu.TlbRun(Mmu.Cached(c, Empty()), ops).0.tlb, va, acc, priv, sum);
  }
}
