/** What the PMP checks mean: the per-byte rule, the short circuit, and NAPOT regions. */
module PmpTheorems {
  import opened Base
  import opened Pmp

  // ---------- the per-byte rule ----------

  predicate Matches(g: Region, machine: bool, b: int)
  {
    Active(g, machine) && Holds(g, b)
  }

  /**
   The rule of section 3.7.1 of the RISC-V Privileged Architecture: the lowest-numbered entry that
   matches any byte of the access decides, and it must match all of them.
   */
  ghost function PerByte(gs: seq<Region>, machine: bool, l: int, h: int, i: nat): bv8
    decreases |gs| - i
  {
    if i >= |gs| then NO_MATCH
    else if forall b :: l <= b <= h ==> Matches(gs[i], machine, b) then gs[i].lxwr
    else if exists b :: l <= b <= h && Matches(gs[i], machine, b) then CROSSES
    else PerByte(gs, machine, l, h, i + 1)
  }

  /** Bounds the expansion can produce: multiples of 4, or the whole address space. */
  predicate Granular(g: Region)
  {
    g.lo % 4 == 0 && (g.hi % 4 == 0 || g.lo == 0)
  }

  lemma {:induction false} ShlDouble(x: nat, k: nat)
    ensures Shl(2 * x, k) == 2 * Shl(x, k) == Shl(x, k + 1)
    decreases k
  {
    if k > 0 {
      ShlDouble(2 * x, k - 1);
    }
  }

  lemma WrapKeepsMultiples(x: int)
    ensures Wrap(4 * x) % 4 == 0
  {
    DivModIs(4 * x, 0x1_0000_0000_0000_0000, x / 0x4000_0000_0000_0000, 4 * (x % 0x4000_0000_0000_0000));
    DivModIs(Wrap(4 * x), 4, x % 0x4000_0000_0000_0000, 0);
  }

  lemma ShlFourfold(x: nat, k: nat)
    ensures Shl(x, k + 2) == 4 * Shl(x, k)
  {
    ShlDouble(x, k);
    ShlDouble(x, k + 1);
  }

  lemma NapotLoGranular(a: U64)
    ensures NapotLo(a) % 4 == 0
  {
    var t := TrailingOnes(a);
    ShlFourfold(Shr(a, t), t);
    WrapKeepsMultiples(Shl(Shr(a, t), t));
  }

  lemma NapotGranular(a: U64)
    ensures NapotLo(a) % 4 == 0 && (NapotHi(a) % 4 == 0 || NapotLo(a) == 0)
  {
    NapotLoGranular(a);
    var lo, t := NapotLo(a), TrailingOnes(a);
    ShlFourfold(1, t);
    assert lo + Shl(1, t + 2) == 4 * (lo / 4 + Shl(1, t));
    WrapKeepsMultiples(lo / 4 + Shl(1, t));
  }

  lemma ByteAddrGranular(a: U64)
    ensures ByteAddr(a) % 4 == 0
  {
    WrapKeepsMultiples(a);
  }

  lemma NextGranule(lo: U64)
    requires lo % 4 == 0
    ensures Wrap(lo + 4) % 4 == 0
  {
    WrapKeepsMultiples(lo / 4 + 1);
  }

  lemma RawRegionGranular(r: Regs, i: nat)
    requires ValidRegs(r) && i < PMP_COUNT
    ensures Granular(RawRegion(r, i))
  {
    if Mode(r.cfg[i]) == 1 {
      ByteAddrGranular(r.addr[i]);
      if i > 0 { ByteAddrGranular(r.addr[i - 1]); }
    } else if Mode(r.cfg[i]) == 2 {
      ByteAddrGranular(r.addr[i]);
      NextGranule(ByteAddr(r.addr[i]));
    } else {
      NapotGranular(r.addr[i]);
    }
  }

  /** An access that cannot contain a whole 4-byte granule strictly between its two end bytes. */
  predicate NoGranuleInside(l: int, h: int)
  {
    h - l <= 3 || (h - l <= 7 && l % 4 == 0)
  }

  lemma EndpointOne(g: Region, machine: bool, l: int, h: int)
    requires 0 <= l <= h && NoGranuleInside(l, h) && Granular(g)
    ensures (forall b :: l <= b <= h ==> Matches(g, machine, b)) <==> Matches(g, machine, l) && Matches(g, machine, h)
    ensures (exists b :: l <= b <= h && Matches(g, machine, b)) <==> Matches(g, machine, l) || Matches(g, machine, h)
  {
    assert Matches(g, machine, l) ==> Matches(g, machine, l);
    if b :| l <= b <= h && Matches(g, machine, b) {
      if g.lo > l && g.hi <= h {
        assert false;
      }
    }
  }

  lemma {:induction false} EndpointIsPerByte(gs: seq<Region>, machine: bool, l: int, h: int, i: nat)
    requires 0 <= l <= h && NoGranuleInside(l, h)
    requires forall k :: 0 <= k < |gs| ==> Granular(gs[k])
    ensures Scan(gs, machine, l, h, i) == PerByte(gs, machine, l, h, i)
    decreases |gs| - i
  {
    if i < |gs| {
      EndpointOne(gs[i], machine, l, h);
      EndpointIsPerByte(gs, machine, l, h, i + 1);
    }
  }

  /** Entry 0 an NA4 region of four bytes at 4 * w, everything else off. */
  function OneGranule(w: U64): (r: Regs)
    ensures ValidRegs(r)
  {
    Regs(seq(16, _ => 0)[0 := 0x17], seq(16, _ => 0)[0 := w], seq(16, _ => false))
  }

  lemma {:induction false} OffScan(gs: seq<Region>, machine: bool, l: int, h: int, i: nat)
    requires forall k :: i <= k < |gs| ==> !Active(gs[k], machine)
    ensures Scan(gs, machine, l, h, i) == NO_MATCH
    decreases |gs| - i
  {
    if i < |gs| {
      OffScan(gs, machine, l, h, i + 1);
    }
  }

  /** A misaligned 8-byte access with a 4-byte region strictly inside slips past the endpoint test. */
  lemma EndpointMissesGranule(l: int)
    requires 0 <= l && l + 7 < 0x1_0000_0000_0000_0000 && l % 4 != 0
    ensures RawVerdict(OneGranule(l / 4 + 1), false, l, l + 7) == NO_MATCH
    ensures PerByte(RawRegions(OneGranule(l / 4 + 1)), false, l, l + 7, 0) == CROSSES
  {
    var r := OneGranule(l / 4 + 1);
    var gs := RawRegions(r);
    assert r.cfg[0] == 0x17 && Mode(0x17) == 2;
    assert gs[0] == RawRegion(r, 0);
    var lo := 4 * (l / 4 + 1);
    assert gs[0].lo == lo && gs[0].hi == lo + 4;
    forall k | 1 <= k < |gs|
      ensures !gs[k].enable
    {
      assert gs[k] == RawRegion(r, k);
      assert r.cfg[k] == 0;
    }
    OffScan(gs, false, l, l + 7, 1);
    assert Scan(gs, false, l, l + 7, 0) == Scan(gs, false, l, l + 7, 1);
    assert Matches(gs[0], false, lo);
    assert !Matches(gs[0], false, l);
  }

  ghost predicate EndpointSound(r: Regs, machine: bool, a: int, n: nat)
    requires ValidRegs(r)
  {
    RawVerdict(r, machine, a, a + n - 1) == PerByte(RawRegions(r), machine, a, a + n - 1, 0)
  }

  /**
   For the access widths of the machine, looking at the two end bytes gives the per-byte verdict
   under every configuration exactly when the access has at most 4 bytes or is 4-aligned.
   */
  lemma EndpointExact(a: int, n: nat)
    requires n == 1 || n == 2 || n == 4 || n == 8
    requires 0 <= a && a + n <= 0x1_0000_0000_0000_0000
    ensures (forall r: Regs, machine: bool | ValidRegs(r) :: EndpointSound(r, machine, a, n))
            <==> (n <= 4 || a % 4 == 0)
  {
    if n <= 4 || a % 4 == 0 {
      forall r: Regs, machine: bool | ValidRegs(r)
        ensures EndpointSound(r, machine, a, n)
      {
        forall k | 0 <= k < PMP_COUNT
          ensures Granular(RawRegions(r)[k])
        {
          RawRegionGranular(r, k);
        }
        EndpointIsPerByte(RawRegions(r), machine, a, a + n - 1, 0);
      }
    } else {
      EndpointMissesGranule(a);
      assert !EndpointSound(OneGranule(a / 4 + 1), false, a, n);
    }
  }

  // ---------- wide accesses and their bytes ----------

  lemma {:induction false} ScanOfByte(gs: seq<Region>, machine: bool, l: int, h: int, b: int, i: nat)
    requires 0 <= l <= b <= h && NoGranuleInside(l, h)
    requires forall k :: 0 <= k < |gs| ==> gs[k].enable ==> Granular(gs[k])
    requires Scan(gs, machine, l, h, i) != CROSSES
    ensures Scan(gs, machine, b, b, i) == Scan(gs, machine, l, h, i)
    decreases |gs| - i
  {
    if i < |gs| {
      if gs[i].enable {
        EndpointOne(gs[i], machine, l, h);
        assert Matches(gs[i], machine, b) ==> Matches(gs[i], machine, l) || Matches(gs[i], machine, h);
      }
      if !(Active(gs[i], machine) && Holds(gs[i], l) && Holds(gs[i], h)) {
        ScanOfByte(gs, machine, l, h, b, i + 1);
      }
    }
  }

  /** A wide access that PMP lets through could have been made byte by byte. */
  lemma WideGrantCoversBytes(t: Table, r: Regs, priv: int, a: int, n: nat, right: bv8, b: int)
    requires ValidRegs(r) && ValidTable(t) && Synced(t, r)
    requires n == 2 || n == 4 || n == 8
    requires 0 <= a && (n <= 4 || a % 4 == 0) && a <= b < a + n
    requires right == R || right == W || right == X
    requires Granted(t, priv, a, n, right)
    ensures Granted(t, priv, b, 1, right)
  {
    if !ShortCut(t, b, b) {
      assert !ShortCut(t, a, a + n - 1);
      forall k | 0 <= k < |t.regions| && t.regions[k].enable
        ensures Granular(t.regions[k])
      {
        RawRegionGranular(r, k);
      }
      ScanOfByte(t.regions, priv == 3, a, a + n - 1, b, 0);
    }
  }

  // ---------- the short circuit ----------

  lemma {:induction false} MinMaxBound(gs: seq<Region>, n: nat, i: nat)
    requires i < n <= |gs|
    requires gs[i].enable && !FullRwx(gs[i])
    ensures MinLo(gs, n) <= gs[i].lo && gs[i].hi <= MaxHi(gs, n)
  {
    if i < n - 1 {
      MinMaxBound(gs, n - 1, i);
    }
  }

  /** Exactly one of the two end bytes lies in the region. */
  predicate Straddled(g: Region, l: int, h: int)
  {
    g.enable && Holds(g, l) != Holds(g, h)
  }

  /** The first enabled entry holding an end byte of the access holds only one of them. */
  ghost predicate FirstTouchStraddles(gs: seq<Region>, l: int, h: int)
  {
    exists i :: 0 <= i < |gs| && Straddled(gs[i], l, h) && Untouched(gs, l, h, i)
  }

  ghost predicate Untouched(gs: seq<Region>, l: int, h: int, n: nat)
    requires n <= |gs|
  {
    forall j :: 0 <= j < n ==> !(gs[j].enable && (Holds(gs[j], l) || Holds(gs[j], h)))
  }

  /** Scan with equal enabled entries. */
  lemma {:induction false} ScanAgree(gs: seq<Region>, gs': seq<Region>, machine: bool, l: int, h: int, i: nat)
    requires |gs| == |gs'|
    requires forall k :: 0 <= k < |gs| ==> gs[k].enable == gs'[k].enable && (gs[k].enable ==> gs[k] == gs'[k])
    ensures Scan(gs, machine, l, h, i) == Scan(gs', machine, l, h, i)
    decreases |gs| - i
  {
    if i < |gs| {
      ScanAgree(gs, gs', machine, l, h, i + 1);
    }
  }

  lemma SyncedScan(t: Table, r: Regs, machine: bool, l: int, h: int)
    requires ValidRegs(r) && ValidTable(t) && Synced(t, r)
    ensures Scan(t.regions, machine, l, h, 0) == RawVerdict(r, machine, l, h)
  {
    ScanAgree(t.regions, RawRegions(r), machine, l, h, 0);
  }

  /** Beyond the window no restricted or locked entry holds an end byte. */
  ghost predicate OnlyFullRwxTouches(gs: seq<Region>, l: int, h: int)
  {
    forall k :: 0 <= k < |gs| && gs[k].enable && (Holds(gs[k], l) || Holds(gs[k], h)) ==> FullRwx(gs[k]) && !gs[k].lock
  }

  lemma OutsideWindow(t: Table, r: Regs, l: int, h: int)
    requires ValidRegs(r) && ValidTable(t) && Synced(t, r) && 0 <= l <= h && ShortCut(t, l, h)
    ensures OnlyFullRwxTouches(t.regions, l, h)
  {
    forall k | 0 <= k < PMP_COUNT && t.regions[k].enable && (Holds(t.regions[k], l) || Holds(t.regions[k], h))
      ensures FullRwx(t.regions[k]) && !t.regions[k].lock
    {
      if !FullRwx(t.regions[k]) {
        MinMaxBound(t.regions, PMP_COUNT, k);
      }
      LockInPerms(r.cfg[k]);
      assert t.regions[k] == RawRegion(r, k);
    }
  }

  lemma LockInPerms(cfg: bv8)
    ensures cfg & 0x87 == RWX ==> !Locked(cfg)
  {
  }

  lemma {:induction false} MachineScanOutside(gs: seq<Region>, l: int, h: int, i: nat)
    requires OnlyFullRwxTouches(gs, l, h)
    ensures Scan(gs, true, l, h, i) == NO_MATCH
    decreases |gs| - i
  {
    if i < |gs| {
      MachineScanOutside(gs, l, h, i + 1);
    }
  }

  lemma {:induction false} UserScanOutside(gs: seq<Region>, l: int, h: int, i: nat)
    requires i <= |gs| && OnlyFullRwxTouches(gs, l, h) && Untouched(gs, l, h, i)
    requires exists k :: i <= k < |gs| && gs[k].enable && (Holds(gs[k], l) || Holds(gs[k], h))
    ensures Scan(gs, false, l, h, i) == if FirstTouchStraddles(gs, l, h) then CROSSES else RWX
    decreases |gs| - i
  {
    if gs[i].enable && (Holds(gs[i], l) || Holds(gs[i], h)) {
      if Holds(gs[i], l) != Holds(gs[i], h) {
        assert Straddled(gs[i], l, h);
      } else {
        assert forall j :: i < j <= |gs| ==> !Untouched(gs, l, h, j);
      }
    } else {
      UserScanOutside(gs, l, h, i + 1);
    }
  }

  /**
   Right after a sync, mem_fetch and mem_store decide as they would with chk_pmp_range on the raw
   registers, in every mode and for every range, except for exactly one family: in S or U mode, when
   the short circuit fires although the first entry that touches the range is straddled by it.
   */
  lemma ExpandedRefinesRaw(t: Table, r: Regs, priv: int, l: U64, h: U64, right: bv8)
    requires ValidRegs(r) && ValidTable(t) && Synced(t, r)
    requires 0 <= priv <= 3 && l <= h && l < ALL_ONES
    requires right == R || right == W || right == X
    ensures Allows(Verdict(t, priv == 3, l, h), priv, right) == Allows(RawVerdict(r, priv == 3, l, h), priv, right)
            <==> !(ShortCut(t, l, h) && priv != 3 && FirstTouchStraddles(t.regions, l, h))
  {
    SyncedScan(t, r, priv == 3, l, h);
    if ShortCut(t, l, h) {
      OutsideWindow(t, r, l, h);
      if priv == 3 {
        MachineScanOutside(t.regions, l, h, 0);
        assert NO_MATCH & right != 0 && RWX & right != 0;
      } else {
        var k :| 0 <= k < PMP_COUNT && WholeSpace(t.regions[k]);
        assert Holds(t.regions[k], l);
        UserScanOutside(t.regions, l, h, 0);
        assert RWX & right != 0;
      }
    }
  }

  /** One byte has no two sides: for the byte specialisations there is no exception. */
  lemma ByteRefinesRaw(t: Table, r: Regs, priv: int, a: U64, right: bv8)
    requires ValidRegs(r) && ValidTable(t) && Synced(t, r)
    requires 0 <= priv <= 3 && a < ALL_ONES
    requires right == R || right == W || right == X
    ensures Granted(t, priv, a, 1, right) == RawGranted(r, priv, a, 1, right)
  {
    SyncedScan(t, r, priv == 3, a, a);
    if ShortCut(t, a, a) {
      OutsideWindow(t, r, a, a);
      if priv == 3 {
        MachineScanOutside(t.regions, a, a, 0);
        assert NO_MATCH & right != 0 && RWX & right != 0;
      } else {
        var k :| 0 <= k < PMP_COUNT && WholeSpace(t.regions[k]);
        assert Holds(t.regions[k], a);
        UserScanOutside(t.regions, a, a, 0);
        assert RWX & right != 0;
      }
    }
  }

  /** Every access of the machine, by its width. */
  lemma GrantedRefinesRaw(t: Table, r: Regs, priv: int, a: U64, n: nat, right: bv8)
    requires ValidRegs(r) && ValidTable(t) && Synced(t, r)
    requires 0 <= priv <= 3 && (n == 1 || n == 2 || n == 4 || n == 8) && a + n <= 0x1_0000_0000_0000_0000
    requires a < ALL_ONES
    requires right == R || right == W || right == X
    ensures Granted(t, priv, a, n, right) == RawGranted(r, priv, a, n, right)
            <==> n == 1 || !(ShortCut(t, a, a + n - 1) && priv != 3 && FirstTouchStraddles(t.regions, a, a + n - 1))
  {
    if n == 1 {
      ByteRefinesRaw(t, r, priv, a, right);
    } else {
      ExpandedRefinesRaw(t, r, priv, a, a + n - 1, right);
    }
  }

  /** Entry 0 a TOR region below 0x8000'0000, entry 1 the whole address space, both RWX. */
  function Straddling(): (r: Regs)
    ensures ValidRegs(r)
  {
    Regs([0x0F, 0x1F] + seq(14, _ => 0), [0x2000_0000, ALL_ONES] + seq(14, _ => 0), seq(16, _ => false))
  }

  /** With them a U-mode read across 0x8000'0000 is granted by the expanded table and refused by the raw registers. */
  lemma StraddlingDiffers(t: Table)
    requires ValidTable(t) && Synced(t, Straddling())
    ensures Granted(t, 0, 0x7fff_fffe, 4, R) && !RawGranted(Straddling(), 0, 0x7fff_fffe, 4, R)
  {
    var r, gs := Straddling(), t.regions;
    StraddlingRegions(r);
    assert forall k :: 0 <= k < PMP_COUNT && gs[k].enable ==> gs[k] == RawRegion(r, k);
    NoneRestricted(gs, PMP_COUNT);
    assert WholeSpace(gs[1]);
    assert RWX & R != 0;
    assert RawRegions(r)[0] == RawRegion(r, 0);
  }

  lemma StraddlingRegions(r: Regs)
    requires r == Straddling()
    ensures RawRegion(r, 0) == Region(true, false, 0, 0x8000_0000, RWX)
    ensures RawRegion(r, 1) == Region(true, false, 0, ALL_ONES, RWX)
    ensures forall k :: 2 <= k < PMP_COUNT ==> Mode(r.cfg[k]) == 0
  {
    assert Mode(0x0F) == 1 && Mode(0x1F) == 3 && Mode(0) == 0;
  }

  lemma {:induction false} NoneRestricted(gs: seq<Region>, n: nat)
    requires n <= |gs| && forall k :: 0 <= k < n && gs[k].enable ==> FullRwx(gs[k])
    ensures MinLo(gs, n) == ALL_ONES
  {
    if n > 0 {
      NoneRestricted(gs, n - 1);
    }
  }

  // ---------- NAPOT ----------

  /** An address with t trailing ones is a multiple of 2^(t+1) plus 2^t - 1. */
  lemma {:induction false} TrailingOnesSplit(a: nat)
    ensures var t := TrailingOnes(a); a == Shl(Shr(a, t), t) + Shl(1, t) - 1 && Shr(a, t) % 2 == 0
  {
    if a % 2 == 1 {
      var t := TrailingOnes(a / 2);
      TrailingOnesSplit(a / 2);
      ShlDouble(Shr(a / 2, t), t);
      ShlDouble(1, t);
    }
  }

  lemma {:induction false} ShrStep(a: nat, k: nat)
    ensures Shr(a, k + 1) == Shr(a, k) / 2
    decreases k
  {
    if k > 0 {
      ShrStep(a / 2, k - 1);
    }
  }

  /**
   With t trailing ones the standard describes 2^(t+3) bytes from 4 * (a with its low t + 1 bits
   cleared). The code gives the lower half of that: the same base and 2^(t+2) bytes.
   */
  lemma NapotIsLowerHalf(a: U64)
    requires a < 0x3fff_ffff_ffff_ffff
    ensures var t := TrailingOnes(a);
            && NapotLo(a) == 4 * Shl(Shr(a, t + 1), t + 1)
            && Shl(1, t + 3) == 2 * (NapotHi(a) - NapotLo(a))
  {
    var t := TrailingOnes(a);
    NapotBase(a, t);
    NapotFits(a, t);
    ShlDouble(1, t + 2);
    NoWrap(Shl(Shr(a, t), t + 2), Shl(1, t + 2));
  }

  lemma NoWrap(x: nat, y: nat)
    requires x + y < 0x1_0000_0000_0000_0000
    ensures Wrap(x) == x && Wrap(Wrap(x) + y) == x + y
  {
  }

  lemma NapotBase(a: nat, t: nat)
    requires Shr(a, t) % 2 == 0 || t == TrailingOnes(a)
    ensures Shl(Shr(a, t), t + 2) == 4 * Shl(Shr(a, t + 1), t + 1)
  {
    TrailingOnesSplit(a);
    ShrStep(a, t);
    ShlDouble(Shr(a, t + 1), t);
    ShlDouble(Shr(a, t), t);
    ShlDouble(Shr(a, t), t + 1);
  }

  lemma NapotFits(a: nat, t: nat)
    requires t == TrailingOnes(a)
    ensures Shl(Shr(a, t), t + 2) + Shl(1, t + 2) == 4 * (a + 1)
  {
    TrailingOnesSplit(a);
    ShlDouble(Shr(a, t), t);
    ShlDouble(Shr(a, t), t + 1);
    ShlDouble(1, t);
    ShlDouble(1, t + 1);
  }
}
