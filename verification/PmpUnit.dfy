/** The PMP part of HartState, with the loops of mem.cpp and pmpcfg_rw running on it in place. */
module PmpUnit {
  import opened Base
  import opened Pmp

  class Unit {
    const pmpcfg: array<bv8>
    const pmpaddr: array<U64>
    const lockedAddr: array<bool>
    const expanded: array<Region>
    var allEnabled: bool
    var minLo: U64
    var maxHi: U64

    ghost predicate Valid()
      reads this
    {
      && pmpcfg.Length == pmpaddr.Length == lockedAddr.Length == expanded.Length == PMP_COUNT
      && expanded as object != pmpcfg && expanded as object != pmpaddr && expanded as object != lockedAddr
      && pmpcfg as object != pmpaddr && pmpcfg as object != lockedAddr && pmpaddr as object != lockedAddr
    }

    ghost function Raw(): (r: Regs)
      reads this, pmpcfg, pmpaddr, lockedAddr
      ensures Valid() ==> ValidRegs(r)
    {
      Regs(pmpcfg[..], pmpaddr[..], lockedAddr[..])
    }

    ghost function Tab(): (t: Table)
      reads this, expanded
      ensures Valid() ==> ValidTable(t)
    {
      Table(expanded[..], allEnabled, minLo, maxHi)
    }

    /** reset_state: everything zero except entry 0, which opens the address space. */
    constructor ()
      ensures Valid() && fresh(pmpcfg) && fresh(pmpaddr) && fresh(lockedAddr) && fresh(expanded)
      ensures Raw() == Regs(seq(16, _ => 0)[0 := 0x1F], seq(16, _ => 0)[0 := 0x003f_ffff_ffff_ffff],
                            seq(16, _ => false))
      ensures Tab() == Table(seq(16, _ => Region(false, false, 0, 0, 0)), false, 0, 0)
    {
      pmpcfg := new bv8[16](_ => 0);
      pmpaddr := new U64[16](_ => 0);
      lockedAddr := new bool[16](_ => false);
      expanded := new Region[16](_ => Region(false, false, 0, 0, 0));
      allEnabled, minLo, maxHi := false, 0, 0;
      new;
      pmpcfg[0] := pmpcfg[0] | 0x1F;
      pmpaddr[0] := 0x003f_ffff_ffff_ffff;
    }

    /** The switch on the address-matching mode, the same in chk_pmp_range and sync_exp_pmp. */
    method Bounds(i: nat, mode: bv8) returns (lower: U64, upper: U64)
      requires Valid() && i < PMP_COUNT && mode == Mode(pmpcfg[i]) && mode != 0
      ensures lower == Lo(Raw(), i) && upper == Hi(Raw(), i)
    {
      if mode == 1 {
        if i == 0 { lower := 0; } else { lower := ByteAddr(pmpaddr[i - 1]); }
        upper := ByteAddr(pmpaddr[i]);
      } else if mode == 2 {
        lower := ByteAddr(pmpaddr[i]);
        upper := Wrap(lower + 4);
      } else {
        var a := pmpaddr[i];
        if a != ALL_ONES {
          var size := TrailingOnes(a);
          lower := Wrap(Shl(Shr(a, size), size + 2));
          upper := Wrap(lower + Shl(1, size + 2));
        } else {
          lower, upper := 0, ALL_ONES;
        }
      }
    }

    /** Which ends of the range the entry holds. */
    method Ends(i: nat, mode: bv8, addrl: U64, addrh: U64) returns (lowchk: bool, hichk: bool)
      requires Valid() && i < PMP_COUNT && mode == Mode(pmpcfg[i]) && mode != 0
      ensures var g := RawRegions(Raw())[i]; lowchk == Holds(g, addrl) && hichk == Holds(g, addrh)
    {
      var lower, upper := Bounds(i, mode);
      lowchk := lower <= addrl && addrl < upper;
      hichk := lower <= addrh && addrh < upper;
    }

    method ChkPmpRange(priv: int, addrl: U64, addrh: U64) returns (v: bv8)
      requires Valid()
      ensures v == RawVerdict(Raw(), priv == 3, addrl, addrh)
    {
      ghost var gs := RawRegions(Raw());
      ghost var verdict := RawVerdict(Raw(), priv == 3, addrl, addrh);
      var ind := 0;
      while ind < PMP_COUNT
        invariant 0 <= ind <= PMP_COUNT
        invariant verdict == Scan(gs, priv == 3, addrl, addrh, ind)
      {
        var entry := pmpcfg[ind];
        if (entry >> 3) & 3 != 0 && !(priv == 3 && entry & 0x80 == 0) {
          var lowchk, hichk := Ends(ind, (entry >> 3) & 3, addrl, addrh);
          assert Active(gs[ind], priv == 3);
          if lowchk && hichk { return entry & 0x87; }
          if lowchk != hichk { return CROSSES; }
        }
        ind := ind + 1;
      }
      v := NO_MATCH;
    }

    method SyncExpPmp()
      requires Valid()
      modifies this`allEnabled, this`minLo, this`maxHi, expanded
      ensures Tab() == Sync(old(Tab()), Raw())
    {
      allEnabled, minLo, maxHi := false, ALL_ONES, 0;
      ghost var r, was := Raw(), expanded[..];
      var i := 0;
      while i < PMP_COUNT
        invariant 0 <= i <= PMP_COUNT && Raw() == r
        invariant forall k :: 0 <= k < i ==> expanded[k] == Expand(r, was[k], k)
        invariant forall k :: i <= k < PMP_COUNT ==> expanded[k] == was[k]
        invariant minLo == MinLo(expanded[..], i) && maxHi == MaxHi(expanded[..], i)
        invariant allEnabled <==> exists k :: 0 <= k < i && WholeSpace(expanded[k])
      {
        SyncEntry(i);
        i := i + 1;
      }
      assert expanded[..] == Sync(old(Tab()), r).regions;
    }

    /** The body of the loop. */
    method SyncEntry(i: nat)
      requires Valid() && i < PMP_COUNT && minLo == MinLo(expanded[..], i) && maxHi == MaxHi(expanded[..], i)
      modifies this`allEnabled, this`minLo, this`maxHi, expanded
      ensures expanded[i] == Expand(Raw(), old(expanded[i]), i)
      ensures forall k :: 0 <= k < PMP_COUNT && k != i ==> expanded[k] == old(expanded[k])
      ensures minLo == MinLo(expanded[..], i + 1) && maxHi == MaxHi(expanded[..], i + 1)
      ensures allEnabled == (old(allEnabled) || WholeSpace(expanded[i]))
    {
      ghost var before := expanded[..];
      ExpandEntry(i);
      assert before[..i] == expanded[..][..i];
      MinMaxPrefix(before, expanded[..], i);
      Widen(expanded[i]);
    }

    /** The bookkeeping at the end of that body. */
    method Widen(g: Region)
      modifies this`allEnabled, this`minLo, this`maxHi
      ensures minLo == if g.enable && g.lo < old(minLo) && !FullRwx(g) then g.lo else old(minLo)
      ensures maxHi == if g.enable && g.hi > old(maxHi) && !FullRwx(g) then g.hi else old(maxHi)
      ensures allEnabled == (old(allEnabled) || WholeSpace(g))
    {
      if g.enable {
        var isRwx := g.lxwr == 7;
        if g.lo < minLo && !isRwx { minLo := g.lo; }
        if g.hi > maxHi && !isRwx { maxHi := g.hi; }
        if g.lo == 0 && g.hi == ALL_ONES && isRwx { allEnabled := true; }
      }
    }

    /** The part of it that fills entry i. */
    method ExpandEntry(i: nat)
      requires Valid() && i < PMP_COUNT
      modifies expanded
      ensures expanded[i] == Expand(Raw(), old(expanded[i]), i)
      ensures forall k :: 0 <= k < PMP_COUNT && k != i ==> expanded[k] == old(expanded[k])
    {
      var cfg := pmpcfg[i];
      var mode := (cfg & 0x18) >> 3;
      ModeBits(cfg);
      if mode == 0 {
        expanded[i] := expanded[i].(enable := false);
      } else {
        var lower, upper := Bounds(i, mode);
        expanded[i] := expanded[i].(enable := true, lock := cfg >> 7 == 1, lo := lower, hi := upper);
        expanded[i] := expanded[i].(lxwr := cfg & 0x87);
      }
    }

    method ChkPmpRangeExp(priv: int, addrl: U64, addrh: U64) returns (v: bv8)
      requires Valid()
      ensures v == Verdict(Tab(), priv == 3, addrl, addrh)
    {
      if allEnabled {
        if addrl > maxHi || addrh < minLo { return 7; }
      }
      var i := 0;
      while i < PMP_COUNT
        invariant 0 <= i <= PMP_COUNT
        invariant Scan(expanded[..], priv == 3, addrl, addrh, 0) == Scan(expanded[..], priv == 3, addrl, addrh, i)
      {
        var g := expanded[i];
        if g.enable && !(priv == 3 && !g.lock) {
          var lowchk := g.lo <= addrl && addrl < g.hi;
          var hichk := g.lo <= addrh && addrh < g.hi;
          if lowchk && hichk { return g.lxwr; }
          if lowchk != hichk { return CROSSES; }
        }
        i := i + 1;
      }
      v := NO_MATCH;
    }

    /** Returns the lxwr field that chk_pmp_exp shifts left by 6; the index bits are never read. */
    method ChkPmpExp(priv: int, addr: U64) returns (v: bv8)
      requires Valid()
      ensures v == Verdict(Tab(), priv == 3, addr, addr)
    {
      if allEnabled {
        if addr > maxHi || addr < minLo { return 7; }
      }
      var i := 0;
      while i < PMP_COUNT
        invariant 0 <= i <= PMP_COUNT
        invariant Scan(expanded[..], priv == 3, addr, addr, 0) == Scan(expanded[..], priv == 3, addr, addr, i)
      {
        var g := expanded[i];
        if g.enable && !(priv == 3 && !g.lock) {
          if g.lo <= addr && addr < g.hi { return g.lxwr; }
        }
        i := i + 1;
      }
      v := NO_MATCH;
    }

    /** pmpcfg_rw for the CSRs 0x3A0 to 0x3A3; false stands for the illegal-instruction exception. */
    method PmpcfgRw(csr: nat, wvalue: bv64, funct: int) returns (legal: bool)
      requires Valid() && 0x3A0 <= csr <= 0x3A3
      modifies this`allEnabled, this`minLo, this`maxHi, pmpcfg, lockedAddr, expanded
      ensures legal == (csr % 2 == 0)
      ensures Raw() == if legal then WriteCfgs(old(Raw()), 4 * (csr - 0x3A0), funct, wvalue, 8) else old(Raw())
      ensures Tab() == if legal then Sync(old(Tab()), Raw()) else old(Tab())
    {
      if csr % 2 == 1 { return false; }
      WriteEntries(4 * (csr - 0x3A0), wvalue, funct);
      SyncExpPmp();
      legal := true;
    }

    /** The loop of pmpcfg_rw. */
    method WriteEntries(start: nat, wvalue: bv64, funct: int)
      requires Valid() && start <= 8
      modifies pmpcfg, lockedAddr
      ensures Raw() == WriteCfgs(old(Raw()), start, funct, wvalue, 8)
    {
      var i := 0;
      while i < 8
        invariant 0 <= i <= 8
        invariant Raw() == WriteCfgs(old(Raw()), start, funct, wvalue, i)
      {
        WriteNext(old(Raw()), start, wvalue, funct, i);
        i := i + 1;
      }
    }

    /** One iteration, from the registers r that the loop started with. */
    method WriteNext(ghost r: Regs, start: nat, wvalue: bv64, funct: int, i: nat)
      requires Valid() && ValidRegs(r) && start <= 8 && i < 8 && Raw() == WriteCfgs(r, start, funct, wvalue, i)
      modifies pmpcfg, lockedAddr
      ensures Raw() == WriteCfgs(r, start, funct, wvalue, i + 1)
    {
      WriteEntry(start + i, CfgByte(wvalue, i), funct);
    }

    /** The body of the loop. */
    method WriteEntry(i: nat, b: bv8, funct: int)
      requires Valid() && i < PMP_COUNT
      modifies pmpcfg, lockedAddr
      ensures Raw() == WriteCfg(old(Raw()), i, funct, b)
    {
      if pmpcfg[i] & 0x80 != 0 { return; }
      var c := NewCfg(pmpcfg[i], funct, b);
      pmpcfg[i] := c;
      assert pmpcfg[..] == old(pmpcfg[..])[i := c];
      if c & 0x80 != 0 {
        lockedAddr[i] := true;
        TorBits(c);
        if c & 0x18 == 0x08 && i != 0 {
          lockedAddr[i - 1] := true;
        }
      }
    }

    /** The pmpaddr part of the CSR instructions. */
    method PmpaddrRw(i: nat, wvalue: U64, funct: int, rs1: int)
      requires Valid() && i < PMP_COUNT
      modifies pmpaddr
      ensures Raw() == if funct == 1 || (wvalue != 0 && rs1 != 0) then WriteAddr(old(Raw()), i, funct, wvalue)
                       else old(Raw())
      ensures Tab() == old(Tab())
    {
      if lockedAddr[i] { return; }
      if funct == 1 || (wvalue != 0 && rs1 != 0) {
        pmpaddr[i] := NewAddr(pmpaddr[i], funct, wvalue);
      }
    }
  }

  lemma TorBits(cfg: bv8)
    ensures cfg & 0x18 == 0x08 <==> Mode(cfg) == 1
  {
  }

  lemma ModeBits(cfg: bv8)
    ensures (cfg & 0x18) >> 3 == Mode(cfg)
    ensures (cfg >> 7 == 1) == Locked(cfg)
    ensures (cfg & 0x18) >> 3 <= 3
  {
  }

  lemma {:induction false} MinMaxPrefix(a: seq<Region>, b: seq<Region>, n: nat)
    requires n <= |a| && n <= |b| && a[..n] == b[..n]
    ensures MinLo(a, n) == MinLo(b, n) && MaxHi(a, n) == MaxHi(b, n)
  {
    if n > 0 {
      assert a[..n - 1] == a[..n][..n - 1] == b[..n - 1];
      assert a[n - 1] == a[..n][n - 1] == b[n - 1];
      MinMaxPrefix(a, b, n - 1);
    }
  }
}
