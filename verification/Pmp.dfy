/**
 Physical memory protection as functions on values: region bounds, the endpoint test of
 chk_pmp_range, the expanded table with its short circuit, and the lock rules.
 */
module Pmp {
  import opened Base
  import opened BitOps

  const PMP_COUNT := 16

  const R: bv8 := 1
  const W: bv8 := 2
  const X: bv8 := 4

  const NO_MATCH: bv8 := 0xFF
  const CROSSES: bv8 := 0xF7
  const RWX: bv8 := 7

  /** One ExpPMP record. */
  datatype Region = Region(enable: bool, lock: bool, lo: U64, hi: U64, lxwr: bv8)

  /** The raw pmpcfg and pmpaddr registers and the address locks. */
  datatype Regs = Regs(cfg: seq<bv8>, addr: seq<U64>, lockedAddr: seq<bool>)

  /** The expanded table. */
  datatype Table = Table(regions: seq<Region>, allEnabled: bool, minLo: U64, maxHi: U64)

  predicate ValidRegs(r: Regs)
  {
    |r.cfg| == |r.addr| == |r.lockedAddr| == PMP_COUNT
  }

  predicate ValidTable(t: Table)
  {
    |t.regions| == PMP_COUNT
  }

  // ---------- region bounds ----------

  /** x << k and x >> k before any truncation */
  function Shl(x: nat, k: nat): nat
    decreases k
  {
    if k == 0 then x else Shl(2 * x, k - 1)
  }

  function Shr(x: nat, k: nat): nat
    decreases k
  {
    if k == 0 then x else Shr(x / 2, k - 1)
  }

  /** ffsll(~a) - 1 */
  function TrailingOnes(a: nat): nat
  {
    if a % 2 == 0 then 0 else 1 + TrailingOnes(a / 2)
  }

  function NapotLo(a: U64): U64
  {
    if a == ALL_ONES then 0 else Wrap(Shl(Shr(a, TrailingOnes(a)), TrailingOnes(a) + 2))
  }

  function NapotHi(a: U64): U64
  {
    if a == ALL_ONES then ALL_ONES else Wrap(NapotLo(a) + Shl(1, TrailingOnes(a) + 2))
  }

  /** A pmpaddr register shifted left by 2 in 64 bits. */
  function ByteAddr(a: int): U64
  {
    Wrap(4 * a)
  }

  function Mode(cfg: bv8): bv8
  {
    (cfg >> 3) & 3
  }

  predicate Locked(cfg: bv8)
  {
    cfg & 0x80 != 0
  }

  function Lo(r: Regs, i: nat): U64
    requires ValidRegs(r) && i < PMP_COUNT
  {
    if Mode(r.cfg[i]) == 1 then (if i == 0 then 0 else ByteAddr(r.addr[i - 1]))
    else if Mode(r.cfg[i]) == 2 then ByteAddr(r.addr[i])
    else NapotLo(r.addr[i])
  }

  function Hi(r: Regs, i: nat): U64
    requires ValidRegs(r) && i < PMP_COUNT
  {
    if Mode(r.cfg[i]) == 1 then ByteAddr(r.addr[i])
    else if Mode(r.cfg[i]) == 2 then Wrap(Lo(r, i) + 4)
    else NapotHi(r.addr[i])
  }

  function RawRegion(r: Regs, i: nat): Region
    requires ValidRegs(r) && i < PMP_COUNT
  {
    Region(Mode(r.cfg[i]) != 0, Locked(r.cfg[i]), Lo(r, i), Hi(r, i), r.cfg[i] & 0x87)
  }

  function RawRegions(r: Regs): (s: seq<Region>)
    requires ValidRegs(r)
    ensures |s| == PMP_COUNT
  {
    seq(PMP_COUNT, i requires 0 <= i < PMP_COUNT => RawRegion(r, i))
  }

  // ---------- the endpoint test ----------

  /** Does the region take part in a check made in M mode (machine) or in S or U mode? */
  predicate Active(g: Region, machine: bool)
  {
    g.enable && (machine ==> g.lock)
  }

  predicate Holds(g: Region, b: int)
  {
    g.lo <= b < g.hi
  }

  /** chk_pmp_range from entry i on: only the first and the last byte are looked at. */
  function Scan(gs: seq<Region>, machine: bool, l: int, h: int, i: nat): (v: bv8)
    decreases |gs| - i
  {
    if i >= |gs| then NO_MATCH
    else if Active(gs[i], machine) && Holds(gs[i], l) && Holds(gs[i], h) then gs[i].lxwr
    else if Active(gs[i], machine) && Holds(gs[i], l) != Holds(gs[i], h) then CROSSES
    else Scan(gs, machine, l, h, i + 1)
  }

  /** chk_pmp_range on the raw registers. */
  function RawVerdict(r: Regs, machine: bool, l: int, h: int): bv8
    requires ValidRegs(r)
  {
    Scan(RawRegions(r), machine, l, h, 0)
  }

  predicate ShortCut(t: Table, l: int, h: int)
  {
    t.allEnabled && (l > t.maxHi || h < t.minLo)
  }

  /** chk_pmp_range_exp; with l == h also the permissions chk_pmp_exp packs into its result. */
  function Verdict(t: Table, machine: bool, l: int, h: int): bv8
  {
    if ShortCut(t, l, h) then RWX else Scan(t.regions, machine, l, h, 0)
  }

  /** Does the multi-byte mem_fetch / mem_store let an access with this verdict through? */
  predicate Allows(v: bv8, priv: int, right: bv8)
  {
    v != CROSSES && !(v == NO_MATCH && priv < 3) && v & right != 0
  }

  /** The byte-sized specialisations ask for privmode <= 1 instead, and cannot see a crossing. */
  predicate AllowsByte(v: bv8, priv: int, right: bv8)
  {
    !(v == NO_MATCH && priv <= 1) && v & right != 0
  }

  /** PMP's answer to an n-byte access at a. */
  predicate Granted(t: Table, priv: int, a: int, n: nat, right: bv8)
  {
    if n == 1 then AllowsByte(Verdict(t, priv == 3, a, a), priv, right)
    else Allows(Verdict(t, priv == 3, a, a + n - 1), priv, right)
  }

  /** The answer that the raw registers give, with chk_pmp_range for every width. */
  predicate RawGranted(r: Regs, priv: int, a: int, n: nat, right: bv8)
    requires ValidRegs(r)
  {
    if n == 1 then AllowsByte(RawVerdict(r, priv == 3, a, a), priv, right)
    else Allows(RawVerdict(r, priv == 3, a, a + n - 1), priv, right)
  }

  // ---------- expansion ----------

  predicate FullRwx(g: Region)
  {
    g.lxwr == RWX
  }

  /** min_lbound after the first n entries */
  function MinLo(gs: seq<Region>, n: nat): U64
    requires n <= |gs|
  {
    if n == 0 then ALL_ONES
    else
      var m := MinLo(gs, n - 1);
      if gs[n - 1].enable && gs[n - 1].lo < m && !FullRwx(gs[n - 1]) then gs[n - 1].lo else m
  }

  /** max_ubound after the first n entries */
  function MaxHi(gs: seq<Region>, n: nat): U64
    requires n <= |gs|
  {
    if n == 0 then 0
    else
      var m := MaxHi(gs, n - 1);
      if gs[n - 1].enable && gs[n - 1].hi > m && !FullRwx(gs[n - 1]) then gs[n - 1].hi else m
  }

  predicate WholeSpace(g: Region)
  {
    g.enable && g.lo == 0 && g.hi == ALL_ONES && FullRwx(g)
  }

  /** A disabled entry only loses its enable bit: the other fields keep what they held. */
  function Expand(r: Regs, old_: Region, i: nat): Region
    requires ValidRegs(r) && i < PMP_COUNT
  {
    if Mode(r.cfg[i]) == 0 then old_.(enable := false) else RawRegion(r, i)
  }

  /** The table sync_exp_pmp leaves behind. */
  ghost function Sync(t: Table, r: Regs): (t': Table)
    requires ValidRegs(r) && ValidTable(t)
    ensures ValidTable(t')
  {
    var gs := seq(PMP_COUNT, i requires 0 <= i < PMP_COUNT => Expand(r, t.regions[i], i));
    Table(gs, exists i :: 0 <= i < PMP_COUNT && WholeSpace(gs[i]), MinLo(gs, PMP_COUNT), MaxHi(gs, PMP_COUNT))
  }

  /** The table is in step with the registers, as it is just after a sync. */
  ghost predicate Synced(t: Table, r: Regs)
    requires ValidRegs(r) && ValidTable(t)
  {
    && (forall i :: 0 <= i < PMP_COUNT ==> t.regions[i].enable == (Mode(r.cfg[i]) != 0))
    && (forall i :: 0 <= i < PMP_COUNT && t.regions[i].enable ==> t.regions[i] == RawRegion(r, i))
    && t.minLo == MinLo(t.regions, PMP_COUNT)
    && t.maxHi == MaxHi(t.regions, PMP_COUNT)
    && (t.allEnabled <==> exists i :: 0 <= i < PMP_COUNT && WholeSpace(t.regions[i]))
  }

  lemma SyncIsSynced(t: Table, r: Regs)
    requires ValidRegs(r) && ValidTable(t)
    ensures Synced(Sync(t, r), r)
  {
  }

  // ---------- CSR writes ----------

  /** Byte k of the value written to a pmpcfg register. */
  function CfgByte(w: bv64, k: nat): bv8
    decreases k
  {
    if k == 0 then (w & 0xFF) as bv8 else CfgByte(w >> 8, k - 1)
  }

  function NewCfg(old_: bv8, funct: int, b: bv8): bv8
  {
    if funct == 1 then b else if funct == 2 then old_ | b else if funct == 3 then old_ & !b else old_
  }

  /** One iteration of the loop in pmpcfg_rw. */
  function WriteCfg(r: Regs, i: nat, funct: int, b: bv8): (r': Regs)
    requires ValidRegs(r) && i < PMP_COUNT
    ensures ValidRegs(r')
  {
    if Locked(r.cfg[i]) then r
    else
      var c := NewCfg(r.cfg[i], funct, b);
      var r1 := r.(cfg := r.cfg[i := c]);
      if !Locked(c) then r1
      else
        var r2 := r1.(lockedAddr := r1.lockedAddr[i := true]);
        if Mode(c) == 1 && i != 0 then r2.(lockedAddr := r2.lockedAddr[i - 1 := true]) else r2
  }

  /** The first n iterations, on the entries from start on. */
  function WriteCfgs(r: Regs, start: nat, funct: int, w: bv64, n: nat): (r': Regs)
    requires ValidRegs(r) && n <= 8 && start <= 8
    ensures ValidRegs(r')
  {
    if n == 0 then r else WriteCfg(WriteCfgs(r, start, funct, w, n - 1), start + n - 1, funct, CfgByte(w, n - 1))
  }

  function NewAddr(old_: U64, funct: int, w: U64): U64
  {
    if funct == 1 then w
    else if funct == 2 then Wrap(Bits(Or, old_, w, 64))
    else if funct == 3 then Wrap(Bits(And, old_, Not(w), 64))
    else old_
  }

  /** A write to pmpaddr i; it does not touch the expanded table. */
  function WriteAddr(r: Regs, i: nat, funct: int, w: U64): (r': Regs)
    requires ValidRegs(r) && i < PMP_COUNT
    ensures ValidRegs(r')
  {
    if r.lockedAddr[i] then r else r.(addr := r.addr[i := NewAddr(r.addr[i], funct, w)])
  }
}
