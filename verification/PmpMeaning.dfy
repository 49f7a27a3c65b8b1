/**
 PMP on the register values: which bytes an entry matches, which entry decides, what it lets through, and what CSR
 writes leave. Sections 3.7.1 and 3.7.1.1 of the RISC-V Privileged Architecture, with the 64-bit sums of the code.
 */
module PmpMeaning {
  import opened Base
  import opened BitOps
  import opened Pmp
  import PmpLocks
  type Op = PmpLocks.Op

  const SPACE := 0x1_0000_0000_0000_0000

  // ---------- the bytes of an entry ----------

  /** a has exactly k trailing ones, and q is what is left above them and their zero. */
  predicate Splits(a: int, k: nat, q: nat)
  {
    a == 2 * Exp2(k) * q + Exp2(k) - 1
  }

  /** Where a TOR entry starts: at the address register below its own. */
  function TorFirst(r: Regs, i: nat): nat
    requires ValidRegs(r) && i < PMP_COUNT
  {
    if i == 0 then 0 else 4 * (r.addr[i - 1] as int)
  }

  /** Does the entry match byte b? All sums are taken modulo 2^64. */
  ghost predicate Matched(r: Regs, i: nat, b: U64)
    requires ValidRegs(r) && i < PMP_COUNT
  {
    var a := r.addr[i];
    if r.cfg[i] & 0x18 == 0x08 then TorFirst(r, i) % SPACE <= b < 4 * a % SPACE
    else if r.cfg[i] & 0x18 == 0x10 then 4 * a % SPACE <= b < (4 * a + 4) % SPACE
    else if a == SPACE - 1 then b < SPACE - 1
    else exists k: nat, q: nat :: Splits(a, k, q) && Covers(k, q, b)
  }

  /** 4 * 2^k bytes from 8 * 2^k * q on. */
  predicate Covers(k: nat, q: nat, b: U64)
  {
    8 * Exp2(k) * q % SPACE <= b < (8 * Exp2(k) * q + 4 * Exp2(k)) % SPACE
  }

  lemma {:induction false} ShlIsProduct(x: nat, k: nat)
    ensures Shl(x, k) == x * Exp2(k)
    decreases k
  {
    if k > 0 {
      ShlIsProduct(2 * x, k - 1);
      assert 2 * x * Exp2(k - 1) == x * Exp2(k);
    }
  }

  lemma {:induction false} OnesOf(a: U64, k: nat, q: nat)
    requires Splits(a, k, q)
    ensures TrailingOnes(a) == k && Shr(a, k) == 2 * q
    decreases k
  {
    if k > 0 {
      assert a == 2 * (2 * Exp2(k - 1) * q + Exp2(k - 1) - 1) + 1;
      OnesOf(a / 2, k - 1, q);
    }
  }

  lemma {:induction false} SplitOf(a: U64)
    ensures Splits(a, TrailingOnes(a), Shr(a, TrailingOnes(a)) / 2)
    decreases a
  {
    if a % 2 == 1 {
      SplitOf(a / 2);
      var t := TrailingOnes(a / 2);
      SplitAbove(a / 2, Exp2(t), Shr(a / 2, t) / 2);
      assert Exp2(t + 1) == 2 * Exp2(t);
    } else {
      assert Exp2(0) == 1;
    }
  }

  /** One more trailing one. */
  lemma SplitAbove(h: nat, p: nat, q: nat)
    requires h == 2 * p * q + p - 1
    ensures 2 * h + 1 == 2 * (2 * p) * q + 2 * p - 1
  {
  }

  lemma WrapSum(x: nat, y: nat)
    ensures Wrap(Wrap(x) + y) == (x + y) % SPACE
  {
    var q := x / SPACE;
    assert x == SPACE * q + Wrap(x);
    var s := Wrap(x) + y;
    DivModIs(x + y, SPACE, q + s / SPACE, s % SPACE);
  }

  lemma NapotBounds(a: U64, k: nat, q: nat)
    requires a != ALL_ONES && Splits(a, k, q)
    ensures NapotLo(a) == 8 * Exp2(k) * q % SPACE && NapotHi(a) == (8 * Exp2(k) * q + 4 * Exp2(k)) % SPACE
  {
    OnesOf(a, k, q);
    ShlIsProduct(2 * q, k + 2);
    ShlIsProduct(1, k + 2);
    FourTimes(k, q);
    WrapSum(8 * Exp2(k) * q, 4 * Exp2(k));
  }

  lemma FourTimes(k: nat, q: nat)
    ensures Exp2(k + 2) == 4 * Exp2(k) && 2 * q * Exp2(k + 2) == 8 * Exp2(k) * q
  {
    assert Exp2(k + 2) == 2 * Exp2(k + 1) == 4 * Exp2(k);
    assert 2 * q * (4 * Exp2(k)) == 8 * Exp2(k) * q;
  }

  lemma ModeIs(cfg: bv8)
    ensures Mode(cfg) == 0 <==> cfg & 0x18 == 0
    ensures Mode(cfg) == 1 <==> cfg & 0x18 == 0x08
    ensures Mode(cfg) == 2 <==> cfg & 0x18 == 0x10
  {
  }

  /** Every entry that is on holds exactly the bytes it matches. */
  lemma BytesExact(r: Regs, i: nat, b: U64)
    requires ValidRegs(r) && i < PMP_COUNT && r.cfg[i] & 0x18 != 0
    ensures Holds(RawRegion(r, i), b) <==> Matched(r, i, b)
  {
    ModeIs(r.cfg[i]);
    var a := r.addr[i];
    if r.cfg[i] & 0x18 == 0x10 {
      WrapSum(4 * (a as int), 4);
    } else if r.cfg[i] & 0x18 == 0x18 && a != ALL_ONES {
      NapotExact(a, b);
    }
  }

  lemma NapotExact(a: U64, b: U64)
    requires a != ALL_ONES
    ensures NapotLo(a) <= b < NapotHi(a) <==> exists k: nat, q: nat :: Splits(a, k, q) && Covers(k, q, b)
  {
    var k, q := TrailingOnes(a), Shr(a, TrailingOnes(a)) / 2;
    SplitOf(a);
    NapotBounds(a, k, q);
    if NapotLo(a) <= b < NapotHi(a) {
      assert Splits(a, k, q) && Covers(k, q, b);
    }
    if k', q' :| Splits(a, k', q') && Covers(k', q', b) {
      NapotBounds(a, k', q');
    }
  }

  // ---------- when the sums wrap ----------

  /** The same bytes with sums that do not wrap. */
  ghost predicate Plain(r: Regs, i: nat, b: U64)
    requires ValidRegs(r) && i < PMP_COUNT
  {
    var a := r.addr[i];
    if r.cfg[i] & 0x18 == 0x08 then TorFirst(r, i) <= b < 4 * a
    else if r.cfg[i] & 0x18 == 0x10 then 4 * a <= b < 4 * a + 4
    else if a == SPACE - 1 then b < SPACE - 1
    else exists k: nat, q: nat :: Splits(a, k, q) && PlainCovers(k, q, b)
  }

  predicate PlainCovers(k: nat, q: nat, b: int)
  {
    8 * Exp2(k) * q <= b < 8 * Exp2(k) * q + 4 * Exp2(k)
  }

  /** The sums fit in 64 bits, or wrap without consequences; one NAPOT address does, with 62 trailing ones. */
  predicate SumsFit(r: Regs, i: nat)
    requires ValidRegs(r) && i < PMP_COUNT
  {
    var a, first := r.addr[i], TorFirst(r, i);
    if r.cfg[i] & 0x18 == 0x08 then if first < SPACE then 4 * a < SPACE else first % SPACE >= 4 * a % SPACE
    else if r.cfg[i] & 0x18 == 0x10 then 4 * a + 4 < SPACE || (4 * a >= SPACE && 4 * a % SPACE == SPACE - 4)
    else a == SPACE - 1 || 4 * a + 4 < SPACE || a == 0xBFFF_FFFF_FFFF_FFFF
  }

  ghost predicate SameBytes(r: Regs, i: nat)
    requires ValidRegs(r) && i < PMP_COUNT
  {
    forall b: U64 :: Matched(r, i, b) <==> Plain(r, i, b)
  }

  lemma TorSums(r: Regs, i: nat)
    requires ValidRegs(r) && i < PMP_COUNT && r.cfg[i] & 0x18 == 0x08
    ensures SameBytes(r, i) <==> SumsFit(r, i)
  {
    var a, first := r.addr[i], TorFirst(r, i);
    if !SumsFit(r, i) {
      var b: U64 := if first < SPACE then SPACE - 1 else first % SPACE;
      assert Matched(r, i, b) != Plain(r, i, b);
    }
  }

  lemma Na4Sums(r: Regs, i: nat)
    requires ValidRegs(r) && i < PMP_COUNT && r.cfg[i] & 0x18 == 0x10
    ensures SameBytes(r, i) <==> SumsFit(r, i)
  {
    var a := r.addr[i];
    if 4 * a < SPACE {
      assert 4 * a % SPACE == 4 * a;
    }
    if !SumsFit(r, i) {
      var b: U64 := if 4 * a < SPACE then SPACE - 1 else 4 * a % SPACE;
      assert Matched(r, i, b) != Plain(r, i, b);
    }
  }

  /** Below 62 trailing ones a wrapped start leaves room for the region. */
  lemma WrappedFits(k: nat, q: nat)
    requires k <= 61
    ensures var l := 8 * Exp2(k) * q % SPACE; (8 * Exp2(k) * q + 4 * Exp2(k)) % SPACE == l + 4 * Exp2(k) > l
  {
    var e, m := Exp2(k), Exp2(61 - k);
    BigPowers();
    ExpSum(k, 61 - k);
    assert e * m == 0x2000_0000_0000_0000;
    Products(e, m, q);
    var r := 8 * e * (q % m);
    DivModIs(8 * e * q, SPACE, q / m, r);
    DivModIs(8 * e * q + 4 * e, SPACE, q / m, r + 4 * e);
  }

  lemma Products(e: int, m: int, q: nat)
    requires e > 0 && m > 0 && 8 * (e * m) == SPACE
    ensures 8 * e * q == SPACE * (q / m) + 8 * e * (q % m)
    ensures 0 <= 8 * e * (q % m) <= SPACE - 8 * e
  {
    var d, s := q / m, q % m;
    assert q == m * d + s;
    assert e * q == e * (m * d) + e * s;
    assert e * (m * d) == (e * m) * d;
    assert e * s <= e * (m - 1);
    assert e * (m - 1) == e * m - e;
    assert e * s >= 0;
  }

  lemma Assoc(e: int, q: nat)
    requires e > 0
    ensures 2 * e * q == 2 * (e * q) && 8 * e * q == 8 * (e * q) && e * q >= 0 && (q >= 1 ==> e * q >= e)
  {
  }

  /** The end of a NAPOT region, on the address. */
  lemma EndOf(a: U64, k: nat, q: nat)
    requires Splits(a, k, q)
    ensures 8 * Exp2(k) * q + 4 * Exp2(k) == 4 * (a as int) + 4
  {
    Assoc(Exp2(k), q);
  }

  /** Addresses with more than 61 trailing ones, but not all. */
  lemma LargeOnes(a: U64, k: nat, q: nat)
    requires Splits(a, k, q) && k > 61 && a != SPACE - 1
    ensures (k <= 63 && q == 0) || (k == 62 && q == 1 && a == 0xBFFF_FFFF_FFFF_FFFF)
  {
    BigPowers();
    Assoc(Exp2(k), q);
    if k >= 65 {
      ExpGrows(65, k);
    } else if k == 62 {
      SixtyTwo(q);
    }
  }

  lemma SixtyTwo(q: nat)
    requires 0x8000_0000_0000_0000 * q + 0x4000_0000_0000_0000 <= SPACE
    ensures q <= 1
  {
  }

  lemma OneMoreOne(k: nat, q: nat)
    requires Splits(0xBFFF_FFFF_FFFF_FFFF, k, q)
    ensures k == 62 && q == 1
  {
    BigPowers();
    assert Splits(0xBFFF_FFFF_FFFF_FFFF, 62, 1);
    OnesOf(0xBFFF_FFFF_FFFF_FFFF, k, q);
    OnesOf(0xBFFF_FFFF_FFFF_FFFF, 62, 1);
  }

  /** Start and length decide, as long as the split is the only one. */
  lemma OnlySplit(a: U64, k: nat, q: nat, b: U64)
    requires a != ALL_ONES && Splits(a, k, q)
    ensures Covers(k, q, b) <==> exists k': nat, q': nat :: Splits(a, k', q') && Covers(k', q', b)
    ensures PlainCovers(k, q, b) <==> exists k': nat, q': nat :: Splits(a, k', q') && PlainCovers(k', q', b)
  {
    OnesOf(a, k, q);
    forall k': nat, q': nat | Splits(a, k', q')
      ensures k' == k && q' == q
    {
      OnesOf(a, k', q');
    }
  }

  ghost predicate SameCover(k: nat, q: nat)
  {
    forall b: U64 :: Covers(k, q, b) <==> PlainCovers(k, q, b)
  }

  /** A region that starts in the address space and ends above it loses at least its last byte. */
  lemma CutOff(k: nat, q: nat)
    requires 8 * Exp2(k) * q < SPACE <= 8 * Exp2(k) * q + 4 * Exp2(k)
    ensures !SameCover(k, q)
  {
    var b: U64 := SPACE - 1;
    Assoc(Exp2(k), q);
    assert PlainCovers(k, q, b) && !Covers(k, q, b);
  }

  /** One that starts above it comes back at the bottom. */
  lemma ComesBack(k: nat, q: nat)
    requires SPACE <= 8 * Exp2(k) * q && k <= 61
    ensures !SameCover(k, q)
  {
    WrappedFits(k, q);
    var b: U64 := 8 * Exp2(k) * q % SPACE;
    assert Covers(k, q, b) && !PlainCovers(k, q, b);
  }

  lemma Fits(k: nat, q: nat)
    requires 8 * Exp2(k) * q + 4 * Exp2(k) < SPACE && 8 * Exp2(k) * q >= 0
    ensures SameCover(k, q)
  {
  }

  lemma Empty(k: nat, q: nat)
    requires k == 62 && q == 1
    ensures SameCover(k, q)
  {
    BigPowers();
  }

  lemma CoverSums(a: U64, k: nat, q: nat)
    requires a != ALL_ONES && Splits(a, k, q)
    ensures SameCover(k, q) <==> 4 * (a as int) + 4 < SPACE || a == 0xBFFF_FFFF_FFFF_FFFF
  {
    EndOf(a, k, q);
    Assoc(Exp2(k), q);
    if 4 * (a as int) + 4 < SPACE {
      Fits(k, q);
    } else if 8 * Exp2(k) * q < SPACE {
      CutOff(k, q);
      NotSpecial(a, k, q);
    } else if k <= 61 {
      ComesBack(k, q);
      NotSpecial(a, k, q);
    } else {
      LargeOnes(a, k, q);
      assert q != 0;
      Empty(k, q);
    }
  }

  lemma NotSpecial(a: U64, k: nat, q: nat)
    requires Splits(a, k, q) && (8 * Exp2(k) * q < SPACE || k <= 61)
    ensures a != 0xBFFF_FFFF_FFFF_FFFF
  {
    if a == 0xBFFF_FFFF_FFFF_FFFF {
      OneMoreOne(k, q);
      BigPowers();
    }
  }

  lemma NapotSums(r: Regs, i: nat)
    requires ValidRegs(r) && i < PMP_COUNT && r.cfg[i] & 0x18 == 0x18
    ensures SameBytes(r, i) <==> SumsFit(r, i)
  {
    var a := r.addr[i];
    if a != ALL_ONES {
      var k, q := TrailingOnes(a), Shr(a, TrailingOnes(a)) / 2;
      SplitOf(a);
      CoverSums(a, k, q);
      forall b: U64
        ensures (Matched(r, i, b) <==> Covers(k, q, b)) && (Plain(r, i, b) <==> PlainCovers(k, q, b))
      {
        OnlySplit(a, k, q, b);
      }
    }
  }

  /** The code matches the bytes that the registers say without wrap-around exactly when the sums fit. */
  lemma WrapExact(r: Regs, i: nat)
    requires ValidRegs(r) && i < PMP_COUNT && r.cfg[i] & 0x18 != 0
    ensures SameBytes(r, i) <==> SumsFit(r, i)
  {
    if r.cfg[i] & 0x18 == 0x08 {
      TorSums(r, i);
    } else if r.cfg[i] & 0x18 == 0x10 {
      Na4Sums(r, i);
    } else {
      assert r.cfg[i] & 0x18 == 0x18;
      NapotSums(r, i);
    }
  }

  // ---------- the deciding entry ----------

  /** On, and locked if the access is made in M mode. */
  predicate Binds(cfg: bv8, machine: bool)
  {
    cfg & 0x18 != 0 && (machine ==> cfg & 0x80 != 0)
  }

  /** The entry binds the access and matches its first or its last byte. */
  ghost predicate Touches(r: Regs, machine: bool, l: U64, h: U64, i: nat)
    requires ValidRegs(r) && i < PMP_COUNT
  {
    Binds(r.cfg[i], machine) && (Matched(r, i, l) || Matched(r, i, h))
  }

  /** It is the lowest-numbered one that does. */
  ghost predicate Decides(r: Regs, machine: bool, l: U64, h: U64, i: nat)
    requires ValidRegs(r) && i < PMP_COUNT
  {
    Touches(r, machine, l, h, i) && forall j :: 0 <= j < i ==> !Touches(r, machine, l, h, j)
  }

  /** The same of a region. */
  lemma TouchesIs(r: Regs, machine: bool, l: U64, h: U64, i: nat)
    requires ValidRegs(r) && i < PMP_COUNT
    ensures var g := RawRegion(r, i);
            && Touches(r, machine, l, h, i) == (Active(g, machine) && (Holds(g, l) || Holds(g, h)))
            && (Touches(r, machine, l, h, i) ==> Matched(r, i, l) == Holds(g, l) && Matched(r, i, h) == Holds(g, h))
  {
    ModeIs(r.cfg[i]);
    if r.cfg[i] & 0x18 != 0 {
      BytesExact(r, i, l);
      BytesExact(r, i, h);
    }
  }

  /** What chk_pmp_range answers, from entry i on. */
  lemma {:induction false} ScanMeans(r: Regs, machine: bool, l: U64, h: U64, i: nat, k: nat)
    requires ValidRegs(r) && i <= PMP_COUNT && k <= PMP_COUNT
    requires forall j :: i <= j < k ==> !Touches(r, machine, l, h, j)
    requires k < PMP_COUNT ==> i <= k && Touches(r, machine, l, h, k)
    ensures Scan(RawRegions(r), machine, l, h, i)
            == if k == PMP_COUNT then 0xFF
               else if Matched(r, k, l) && Matched(r, k, h) then r.cfg[k] & 0x87 else 0xF7
    decreases PMP_COUNT - i
  {
    if i < PMP_COUNT {
      TouchesIs(r, machine, l, h, i);
      assert RawRegions(r)[i] == RawRegion(r, i);
      if i < k {
        ScanMeans(r, machine, l, h, i + 1, k);
      }
    }
  }

  /** The lowest entry that touches the access, 16 if there is none. */
  lemma {:induction false} FirstTouch(r: Regs, machine: bool, l: U64, h: U64, i: nat) returns (k: nat)
    requires ValidRegs(r) && i <= PMP_COUNT
    ensures i <= k <= PMP_COUNT && forall j :: i <= j < k ==> !Touches(r, machine, l, h, j)
    ensures k < PMP_COUNT ==> Touches(r, machine, l, h, k)
    decreases PMP_COUNT - i
  {
    if i == PMP_COUNT || Touches(r, machine, l, h, i) {
      k := i;
    } else {
      k := FirstTouch(r, machine, l, h, i + 1);
    }
  }

  /**
   The verdict of chk_pmp_range: the permission bits of the deciding entry if it matches both end bytes, 0xF7 if it
   matches one, 0xFF if no entry decides.
   */
  lemma VerdictMeans(r: Regs, machine: bool, l: U64, h: U64)
    requires ValidRegs(r)
    ensures forall i :: 0 <= i < PMP_COUNT && Decides(r, machine, l, h, i) ==>
              RawVerdict(r, machine, l, h)
              == if Matched(r, i, l) && Matched(r, i, h) then r.cfg[i] & 0x87 else 0xF7
    ensures (forall i :: 0 <= i < PMP_COUNT ==> !Decides(r, machine, l, h, i)) ==> RawVerdict(r, machine, l, h) == 0xFF
  {
    var k := FirstTouch(r, machine, l, h, 0);
    ScanMeans(r, machine, l, h, 0, k);
    if k < PMP_COUNT {
      assert Decides(r, machine, l, h, k);
    }
  }

  lemma RightBits(cfg: bv8, right: bv8)
    requires right == 1 || right == 2 || right == 4
    ensures (cfg & 0x87) & right != 0 <==> cfg & right != 0
    ensures cfg & 0x87 != 0xF7 && cfg & 0x87 != 0xFF
    ensures (0xFF as bv8) & right != 0
  {
  }

  /**
   An n-byte access is granted exactly if the deciding entry matches both of its ends and has the permission: 1 to
   read, 2 to write, 4 to execute.
   */
  lemma GrantedByEntry(r: Regs, priv: int, machine: bool, a: U64, h: U64, n: nat, right: bv8, k: nat)
    requires ValidRegs(r) && 0 <= priv <= 3 && machine == (priv == 3) && n > 0 && h == a + n - 1
    requires right == 1 || right == 2 || right == 4
    requires k < PMP_COUNT && Decides(r, machine, a, h, k)
    ensures RawGranted(r, priv, a, n, right) <==> Matched(r, k, a) && Matched(r, k, h) && r.cfg[k] & right != 0
  {
    VerdictMeans(r, machine, a, h);
    RightBits(r.cfg[k], right);
  }

  /**
   With no entry to decide, exactly if it is made in M mode; and at privilege 2, which a reserved MPP gives under MPRV,
   the single bytes pass.
   */
  lemma GrantedByNone(r: Regs, priv: int, machine: bool, a: U64, h: U64, n: nat, right: bv8)
    requires ValidRegs(r) && 0 <= priv <= 3 && machine == (priv == 3) && n > 0 && h == a + n - 1
    requires right == 1 || right == 2 || right == 4
    requires forall i :: 0 <= i < PMP_COUNT ==> !Decides(r, machine, a, h, i)
    ensures RawGranted(r, priv, a, n, right) <==> priv == 3 || (priv == 2 && n == 1)
  {
    VerdictMeans(r, machine, a, h);
    RightBits(0, right);
  }

  // ---------- the expanded table's window ----------

  /** On, and not unlocked with all permissions. */
  predicate Restricted(g: Region)
  {
    g.enable && g.lxwr != 7
  }

  lemma {:induction false} LowestExact(gs: seq<Region>, n: nat)
    requires n <= |gs|
    ensures var m := MinLo(gs, n);
            && (forall i :: 0 <= i < n && Restricted(gs[i]) ==> m <= gs[i].lo)
            && (m == SPACE - 1 || exists i :: 0 <= i < n && Restricted(gs[i]) && gs[i].lo == m)
  {
    if n > 0 {
      LowestExact(gs, n - 1);
    }
  }

  lemma {:induction false} HighestExact(gs: seq<Region>, n: nat)
    requires n <= |gs|
    ensures var m := MaxHi(gs, n);
            && (forall i :: 0 <= i < n && Restricted(gs[i]) ==> m >= gs[i].hi)
            && (m == 0 || exists i :: 0 <= i < n && Restricted(gs[i]) && gs[i].hi == m)
  {
    if n > 0 {
      HighestExact(gs, n - 1);
    }
  }

  /**
   After a sync the window is the least that holds every restricted entry, and the short circuit is armed exactly by
   an unlocked RWX entry over the whole address space.
   */
  lemma WindowMeans(t: Table, r: Regs)
    requires ValidRegs(r) && ValidTable(t)
    ensures var s := Sync(t, r);
            && (forall i :: 0 <= i < PMP_COUNT && Restricted(s.regions[i]) ==>
                  s.minLo <= s.regions[i].lo && s.regions[i].hi <= s.maxHi)
            && (s.minLo == SPACE - 1
                || exists i :: 0 <= i < PMP_COUNT && Restricted(s.regions[i]) && s.regions[i].lo == s.minLo)
            && (s.maxHi == 0
                || exists i :: 0 <= i < PMP_COUNT && Restricted(s.regions[i]) && s.regions[i].hi == s.maxHi)
            && (s.allEnabled <==> exists i :: 0 <= i < PMP_COUNT && Opens(s.regions[i]))
  {
    var gs := Sync(t, r).regions;
    LowestExact(gs, PMP_COUNT);
    HighestExact(gs, PMP_COUNT);
    forall i | 0 <= i < PMP_COUNT
      ensures Opens(gs[i]) == WholeSpace(gs[i])
    {
    }
  }

  predicate Opens(g: Region)
  {
    g.enable && g.lo == 0 && g.hi == SPACE - 1 && g.lxwr == 7
  }

  /**
   Given such an entry, the scan is skipped exactly for accesses beyond the upper bounds, or below the lower bounds, of
   all restricted entries; byte 0 and the last byte of the address space are never skipped for want of them.
   */
  lemma SkippedExact(t: Table, r: Regs, l: U64, h: U64)
    requires ValidRegs(r) && ValidTable(t)
    ensures var s := Sync(t, r);
            ShortCut(s, l, h) <==>
              && (exists i :: 0 <= i < PMP_COUNT && Opens(s.regions[i]))
              && ( || (0 < l
                       && forall i :: 0 <= i < PMP_COUNT && Restricted(s.regions[i]) ==> s.regions[i].hi < l)
                   || (h < SPACE - 1
                       && forall i :: 0 <= i < PMP_COUNT && Restricted(s.regions[i]) ==> h < s.regions[i].lo))
  {
    WindowMeans(t, r);
  }

  // ---------- CSR writes ----------

  /** One bit of a CSR: CSRRW leaves that of the operand, CSRRS sets it if that is set, CSRRC clears it then. */
  predicate NewBit(funct: int, was: bool, operand: bool)
  {
    if funct == 1 then operand
    else if funct == 2 then was || operand
    else if funct == 3 then was && !operand
    else was
  }

  /** The bytes of the operand, the lowest for the first entry. */
  lemma CfgBytesMake(w: bv64)
    ensures (CfgByte(w, 0) as bv64) == w & 0xFF && (CfgByte(w, 1) as bv64) == (w >> 8) & 0xFF
    ensures (CfgByte(w, 2) as bv64) == (w >> 16) & 0xFF && (CfgByte(w, 3) as bv64) == (w >> 24) & 0xFF
    ensures (CfgByte(w, 4) as bv64) == (w >> 32) & 0xFF && (CfgByte(w, 5) as bv64) == (w >> 40) & 0xFF
    ensures (CfgByte(w, 6) as bv64) == (w >> 48) & 0xFF && (CfgByte(w, 7) as bv64) == w >> 56
  {
  }

  lemma CfgBit(o: bv8, funct: int, b: bv8, m: bv8)
    requires m != 0 && m & (m - 1) == 0
    ensures (NewCfg(o, funct, b) & m != 0) == NewBit(funct, o & m != 0, b & m != 0)
  {
    if funct == 1 {
    } else if funct == 2 {
      assert (o | b) & m != 0 <==> o & m != 0 || b & m != 0;
    } else if funct == 3 {
      assert (o & !b) & m != 0 <==> o & m != 0 && b & m == 0;
    }
  }

  lemma {:induction false} CfgsMean(r: Regs, start: nat, funct: int, w: bv64, n: nat, i: nat)
    requires ValidRegs(r) && n <= 8 && start <= 8 && i < PMP_COUNT
    ensures var r' := WriteCfgs(r, start, funct, w, n);
            && r'.addr == r.addr
            && r'.cfg[i] == if start <= i < start + n && !Locked(r.cfg[i])
                            then NewCfg(r.cfg[i], funct, CfgByte(w, i - start)) else r.cfg[i]
    decreases n
  {
    if n > 0 {
      CfgsMean(r, start, funct, w, n - 1, i);
    }
  }

  /** pmpcfg0 reaches entries 0 to 7, pmpcfg2 entries 8 to 15; locked ones stay, and so do all addresses. */
  lemma CfgWriteMeans(s: PmpLocks.State, high: bool, funct: int, w: bv64, i: nat, m: bv8)
    requires PmpLocks.Valid(s) && i < PMP_COUNT && m != 0 && m & (m - 1) == 0
    ensures var r := PmpLocks.Step(s, Op.Cfg(high, funct, w)).regs;
            var was, k := s.regs.cfg[i], if high then i - 8 else i;
            && r.addr == s.regs.addr
            && if 0 <= k < 8 && was & 0x80 == 0
               then (r.cfg[i] & m != 0) == NewBit(funct, was & m != 0, CfgByte(w, k) & m != 0)
               else r.cfg[i] == was
  {
    var k := if high then i - 8 else i;
    CfgsMean(s.regs, if high then 8 else 0, funct, w, 8, i);
    if 0 <= k < 8 {
      CfgBit(s.regs.cfg[i], funct, CfgByte(w, k), m);
    }
  }

  /** A write to an unlocked pmpaddr changes that register and nothing else, bit by bit. */
  lemma AddrWriteMeans(r: Regs, i: nat, funct: int, v: U64, k: nat)
    requires ValidRegs(r) && i < PMP_COUNT && k < 64
    ensures var r' := WriteAddr(r, i, funct, v);
            && r' == r.(addr := r.addr[i := r'.addr[i]])
            && if r.lockedAddr[i] then r'.addr[i] == r.addr[i]
               else BitOf(r'.addr[i], k) == NewBit(funct, BitOf(r.addr[i], k), BitOf(v, k))
  {
    if funct == 2 {
      WordOfBits(Or, r.addr[i], v);
    } else if funct == 3 {
      WordOfBits(And, r.addr[i], Not(v));
      NotBits(v, k);
    }
  }
}
