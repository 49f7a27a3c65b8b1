/** Every RV64I instruction word does what the ISA says of it. */
module IsaTheorems {
  import opened Base
  import opened BitOps
  import opened Tlb
  import opened Mmu
  import opened Decode
  import opened Compressed
  import opened Execution
  import opened Isa
  import PageWalk
  import PhysMem

  type RegNo = Isa.RegNo

  // ---------- arithmetic ----------

  lemma {:induction false} ExpIsPow(k: nat)
    ensures Exp2(k) == Pow2(k)
    decreases k
  {
    if k > 0 {
      ExpIsPow(k - 1);
    }
  }

  lemma WrapCongruent(x: int)
    ensures Congruent(Wrap(x), x, MOD64)
  {
    DivModIs(Wrap(x) - x, MOD64, -(x / MOD64), 0);
  }

  lemma MultipleAdd(x: int, y: int, m: int)
    requires m > 0 && x % m == 0 && y % m == 0
    ensures (x + y) % m == 0 && (x - y) % m == 0
  {
    assert x == m * (x / m) && y == m * (y / m);
    DivModIs(x + y, m, x / m + y / m, 0);
    DivModIs(x - y, m, x / m - y / m, 0);
  }

  lemma CongruentShift(x: int, y: int, z: int, m: int)
    requires m > 0 && Congruent(x, y, m)
    ensures Congruent(x + z, y + z, m)
  {
    assert x + z - (y + z) == x - y;
  }

  lemma SignedIsInt64(x: U64)
    ensures Signed(x) == Int64(x)
  {
  }

  lemma FloorIs(x: int, d: int)
    requires d > 0
    ensures Floor(x / d, x, d)
  {
    assert x == d * (x / d) + x % d;
  }

  lemma Scaled(d: int, q: int)
    requires d > 0
    ensures q >= 0 ==> d * q >= q
    ensures q <= 0 ==> d * q <= q
  {
  }

  /** Dividing does not leave the signed range. */
  lemma QuotientRange(x: int, d: int, h: int)
    requires d > 0 && -h <= x < h
    ensures -h <= x / d < h
  {
    FloorIs(x, d);
    Scaled(d, x / d);
    Scaled(d, x / d + 1);
  }

  lemma WrapSigned(q: int)
    requires -0x8000_0000_0000_0000 <= q < 0x8000_0000_0000_0000
    ensures Int64(Wrap(q)) == q
  {
    if q < 0 {
      DivModIs(q, MOD64, -1, q + MOD64);
    }
  }

  // ---------- 64-bit operations ----------

  lemma AddComputes(alt: bool, a: U64, b: U64)
    ensures Computes(0, alt, a, b, Alu(0, alt, a, b))
  {
    if alt {
      WrapCongruent(a - b);
      CongruentShift(Wrap(a - b), a - b, b, MOD64);
    } else {
      WrapCongruent(a + b);
    }
  }

  lemma ShiftComputes(funct3: bv32, alt: bool, a: U64, b: U64)
    requires funct3 == 1 || funct3 == 5
    ensures Computes(funct3, alt, a, b, Alu(funct3, alt, a, b))
  {
    var d := Exp2(b % 64);
    ExpIsPow(b % 64);
    if funct3 == 1 {
      WrapCongruent(a * d);
    } else if alt {
      SignedIsInt64(a);
      QuotientRange(Int64(a), d, 0x8000_0000_0000_0000);
      WrapSigned(Int64(a) / d);
      FloorIs(Int64(a), d);
    } else {
      FloorIs(a, d);
      QuotientRange(a, d, MOD64);
      NotNegative(a, d);
    }
  }

  lemma NotNegative(x: nat, d: int)
    requires d > 0
    ensures x / d >= 0
  {
    FloorIs(x, d);
    Factor(d, x / d + 1);
  }

  lemma Factor(d: int, q: int)
    requires d > 0 && d * q > 0
    ensures q > 0
  {
  }

  lemma AluComputes(funct3: bv32, alt: bool, a: U64, b: U64)
    requires funct3 <= 7
    ensures Computes(funct3, alt, a, b, Alu(funct3, alt, a, b))
  {
    if funct3 == 0 {
      AddComputes(alt, a, b);
    } else if funct3 == 1 || funct3 == 5 {
      ShiftComputes(funct3, alt, a, b);
    } else if funct3 == 4 {
      WordOfBits(Xor, a, b);
    } else if funct3 == 6 {
      WordOfBits(Or, a, b);
    } else if funct3 == 7 {
      WordOfBits(And, a, b);
    }
  }

  // ---------- 32-bit operations ----------

  lemma Sext32Is(x: int)
    ensures WordIn(Sext32(x)) && Congruent(Int64(Sext32(x)), x, MOD32) && Congruent(Sext32(x), x, MOD32)
  {
    var y := x % MOD32;
    DivModIs(y - x, MOD32, -(x / MOD32), 0);
    DivModIs(y - MOD32 - x, MOD32, -(x / MOD32) - 1, 0);
    DivModIs(y + 0xFFFF_FFFF_0000_0000 - x, MOD32, -(x / MOD32) + 0xFFFF_FFFF, 0);
  }

  /** A number in the signed word range is the sign extension of its low word. */
  lemma Sext32Exact(q: int)
    requires -0x8000_0000 <= q < 0x8000_0000
    ensures Int64(Sext32(q)) == q
  {
    if q < 0 {
      DivModIs(q, MOD32, -1, q + MOD32);
    }
  }

  lemma Sext32Low(q: nat)
    requires q < MOD32
    ensures Sext32(q) % MOD32 == q
  {
    if q >= 0x8000_0000 {
      DivModIs(q + 0xFFFF_FFFF_0000_0000, MOD32, 0xFFFF_FFFF, q);
    }
  }

  /** Multiplying low words is multiplying, modulo 2^32. */
  lemma LowProduct(a: U64, d: int)
    ensures Congruent(a % MOD32 * d, a * d, MOD32)
  {
    var h := a / MOD32;
    assert a == MOD32 * h + a % MOD32;
    Products(a, h, a % MOD32, d);
    DivModIs(a % MOD32 * d - a * d, MOD32, -(h * d), 0);
  }

  lemma Products(a: int, h: int, r: int, d: int)
    requires a == MOD32 * h + r
    ensures r * d - a * d == MOD32 * -(h * d)
  {
    assert a * d == (MOD32 * h) * d + r * d;
    assert (MOD32 * h) * d == MOD32 * (h * d);
  }

  lemma CongruentTrans(x: int, y: int, z: int, m: int)
    requires m > 0 && Congruent(x, y, m) && Congruent(y, z, m)
    ensures Congruent(x, z, m)
  {
    MultipleAdd(x - y, y - z, m);
  }

  lemma AddComputesWord(alt: bool, a: U64, b: U64)
    ensures ComputesWord(0, alt, a, b, Alu32(0, alt, a, b))
  {
    if alt {
      Sext32Is(a - b);
      CongruentShift(Sext32(a - b), a - b, b, MOD32);
    } else {
      Sext32Is(a + b);
    }
  }

  lemma LeftComputesWord(alt: bool, a: U64, b: U64)
    ensures ComputesWord(1, alt, a, b, Alu32(1, alt, a, b))
  {
    var d := Exp2(b % 32);
    ExpIsPow(b % 32);
    Sext32Is(a % MOD32 * d);
    LowProduct(a, d);
    CongruentTrans(Sext32(a % MOD32 * d), a % MOD32 * d, a * d, MOD32);
  }

  lemma RightComputesWord(alt: bool, a: U64, b: U64)
    ensures ComputesWord(5, alt, a, b, Alu32(5, alt, a, b))
  {
    var d := Exp2(b % 32);
    ExpIsPow(b % 32);
    if alt {
      QuotientRange(Int32(a), d, 0x8000_0000);
      FloorIs(Int32(a), d);
      Sext32Exact(Int32(a) / d);
    } else {
      var q := a % MOD32 / d;
      QuotientRange(a % MOD32, d, MOD32);
      NotNegative(a % MOD32, d);
      FloorIs(a % MOD32, d);
      Sext32Is(q);
      Sext32Low(q);
    }
  }

  lemma Alu32Computes(funct3: bv32, alt: bool, a: U64, b: U64)
    requires HasAlu32(funct3)
    ensures ComputesWord(funct3, alt, a, b, Alu32(funct3, alt, a, b))
  {
    if funct3 == 0 {
      AddComputesWord(alt, a, b);
    } else if funct3 == 1 {
      LeftComputesWord(alt, a, b);
    } else {
      RightComputesWord(alt, a, b);
    }
  }

  lemma TakenCompares(funct3: bv32, a: U64, b: U64)
    ensures Taken(funct3, a, b) == Compares(funct3, a, b)
  {
  }

  // ---------- immediates ----------

  lemma {:induction false} ValueIsLow(w: bv32, n: nat)
    ensures Value(w, n) == Low(w, n)
    decreases n
  {
    if n > 0 {
      ValueIsLow(w >> 1, n - 1);
    }
  }

  /** Do x and y have no bit in common, and z the bits of both? */
  predicate Apart(x: bv32, y: bv32, z: bv32)
  {
    x & y == 0 && z == x | y
  }

  lemma HalvesApart(x: bv32, y: bv32, z: bv32)
    requires Apart(x, y, z)
    ensures Apart(x >> 1, y >> 1, z >> 1)
    ensures (z & 1 == 1 <==> x & 1 == 1 || y & 1 == 1) && !(x & 1 == 1 && y & 1 == 1)
  {
  }

  lemma LowSum(x: bv32, y: bv32, z: bv32, n: nat)
    requires n > 0 && Low(z >> 1, n - 1) == Low(x >> 1, n - 1) + Low(y >> 1, n - 1)
    requires (z & 1 == 1 <==> x & 1 == 1 || y & 1 == 1) && !(x & 1 == 1 && y & 1 == 1)
    ensures Low(z, n) == Low(x, n) + Low(y, n)
  {
  }

  lemma {:induction false} LowOr(x: bv32, y: bv32, z: bv32, n: nat)
    requires Apart(x, y, z)
    ensures Low(z, n) == Low(x, n) + Low(y, n)
    decreases n
  {
    if n > 0 {
      HalvesApart(x, y, z);
      LowOr(x >> 1, y >> 1, z >> 1, n - 1);
      LowSum(x, y, z, n);
    }
  }

  /** The copies of the sign bit in a 12-bit and in a 21-bit immediate. */
  lemma Copies()
    ensures Low(0xFFFF_F000, 32) == 0xFFFF_F000
  {
    assert Low(0x1, 1) == 0x1 && Low(0x3, 2) == 0x3 && Low(0x7, 3) == 0x7;
    assert Low(0xF, 4) == 0xF && Low(0x1F, 5) == 0x1F && Low(0x3F, 6) == 0x3F;
    assert Low(0x7F, 7) == 0x7F && Low(0xFF, 8) == 0xFF && Low(0x1FF, 9) == 0x1FF;
    assert Low(0x3FF, 10) == 0x3FF && Low(0x7FF, 11) == 0x7FF && Low(0xFFF, 12) == 0xFFF;
    assert Low(0x1FFF, 13) == 0x1FFF && Low(0x3FFF, 14) == 0x3FFF && Low(0x7FFF, 15) == 0x7FFF;
    assert Low(0xFFFF, 16) == 0xFFFF && Low(0x1FFFF, 17) == 0x1FFFF && Low(0x3FFFF, 18) == 0x3FFFF;
    assert Low(0x7FFFF, 19) == 0x7FFFF && Low(0xFFFFF, 20) == 0xFFFFF && Low(0x1FFFFE, 21) == 0x1FFFFE;
    assert Low(0x3FFFFC, 22) == 0x3FFFFC && Low(0x7FFFF8, 23) == 0x7FFFF8 && Low(0xFFFFF0, 24) == 0xFFFFF0;
    assert Low(0x1FFFFE0, 25) == 0x1FFFFE0 && Low(0x3FFFFC0, 26) == 0x3FFFFC0 && Low(0x7FFFF80, 27) == 0x7FFFF80;
    assert Low(0xFFFFF00, 28) == 0xFFFFF00 && Low(0x1FFFFE00, 29) == 0x1FFFFE00 && Low(0x3FFFFC00, 30) == 0x3FFFFC00;
    assert Low(0x7FFFF800, 31) == 0x7FFFF800 && Low(0xFFFFF000, 32) == 0xFFFFF000;
  }

  lemma CopiesFar()
    ensures Low(0xFFF0_0000, 32) == 0xFFF0_0000
  {
    assert Low(0x1, 1) == 0x1 && Low(0x3, 2) == 0x3 && Low(0x7, 3) == 0x7;
    assert Low(0xF, 4) == 0xF && Low(0x1F, 5) == 0x1F && Low(0x3F, 6) == 0x3F;
    assert Low(0x7F, 7) == 0x7F && Low(0xFF, 8) == 0xFF && Low(0x1FF, 9) == 0x1FF;
    assert Low(0x3FF, 10) == 0x3FF && Low(0x7FF, 11) == 0x7FF && Low(0xFFF, 12) == 0xFFF;
    assert Low(0x1FFE, 13) == 0x1FFE && Low(0x3FFC, 14) == 0x3FFC && Low(0x7FF8, 15) == 0x7FF8;
    assert Low(0xFFF0, 16) == 0xFFF0 && Low(0x1FFE0, 17) == 0x1FFE0 && Low(0x3FFC0, 18) == 0x3FFC0;
    assert Low(0x7FF80, 19) == 0x7FF80 && Low(0xFFF00, 20) == 0xFFF00 && Low(0x1FFE00, 21) == 0x1FFE00;
    assert Low(0x3FFC00, 22) == 0x3FFC00 && Low(0x7FF800, 23) == 0x7FF800 && Low(0xFFF000, 24) == 0xFFF000;
    assert Low(0x1FFE000, 25) == 0x1FFE000 && Low(0x3FFC000, 26) == 0x3FFC000 && Low(0x7FF8000, 27) == 0x7FF8000;
    assert Low(0xFFF0000, 28) == 0xFFF0000 && Low(0x1FFE0000, 29) == 0x1FFE0000 && Low(0x3FFC0000, 30) == 0x3FFC0000;
    assert Low(0x7FF80000, 31) == 0x7FF80000 && Low(0xFFF00000, 32) == 0xFFF00000;
  }

  /** Is imm made of low and, if neg holds, the bits of mask? */
  predicate Extended(imm: bv32, low: bv32, mask: bv32, neg: bool)
  {
    && Negative(imm) == neg && (if neg then Apart(mask, low, imm) else imm == low)
  }

  /** An immediate is its low bits and the copies of its sign. */
  lemma SignSum(imm: bv32, low: bv32, mask: bv32, neg: bool, copies: nat)
    requires Extended(imm, low, mask, neg) && Low(mask, 32) == copies
    ensures Low(imm, 32) == Low(low, 32) + if neg then copies else 0
  {
    if neg {
      LowOr(mask, low, imm, 32);
    }
  }

  /** Read as a signed number. */
  lemma ReadSigned(imm: bv32, n: nat)
    requires n == Low(imm, 32)
    ensures ImmValue(imm) == if Negative(imm) then n - MOD32 else n
  {
    ValueIsLow(imm, 32);
  }

  /** What the copies of the sign are worth: mask is one of the two below. */
  function Weight(mask: bv32): nat
  {
    if mask == 0xFFFF_F000 then 0x1000 else 0x10_0000
  }

  lemma CopiesOf(mask: bv32)
    requires mask == 0xFFFF_F000 || mask == 0xFFF0_0000
    ensures Low(mask, 32) == MOD32 - Weight(mask)
  {
    if mask == 0xFFFF_F000 {
      Copies();
    } else {
      CopiesFar();
    }
  }

  lemma JoinOne(imm: bv32, low: bv32, mask: bv32, neg: bool)
    requires Extended(imm, low, mask, neg) && (mask == 0xFFFF_F000 || mask == 0xFFF0_0000)
    ensures ImmValue(imm) == Low(low, 32) - if neg then Weight(mask) else 0
  {
    CopiesOf(mask);
    SignSum(imm, low, mask, neg, MOD32 - Weight(mask));
    ReadSigned(imm, Low(imm, 32));
  }

  lemma SumThree(x: bv32, y: bv32, z: bv32, low: bv32)
    requires low == x | y | z && x & y == 0 && (x | y) & z == 0
    ensures Low(low, 32) == Low(x, 32) + Low(y, 32) + Low(z, 32)
  {
    LowOr(x, y, x | y, 32);
    LowOr(x | y, z, low, 32);
  }

  lemma ShapeI(w: bv32)
    ensures Extended(ImmI(w), w >> 20, 0xFFFF_F000, Negative(w))
  {
    if Negative(w) {} else {}
  }

  lemma ImmIIs(w: bv32)
    ensures ImmValue(ImmI(w)) == IntI(w)
  {
    ShapeI(w);
    JoinOne(ImmI(w), w >> 20, 0xFFFF_F000, Negative(w));
  }

  lemma ShapeS(w: bv32)
    ensures Extended(ImmS(w), ((w >> 20) & 0xFE0) | ((w >> 7) & 0x1F), 0xFFFF_F000, Negative(w))
  {
    if Negative(w) {} else {}
  }

  lemma SumS(w: bv32, low: bv32)
    requires low == ((w >> 20) & 0xFE0) | ((w >> 7) & 0x1F)
    ensures Low(low, 32) == Low((w >> 20) & 0xFE0, 32) + Low((w >> 7) & 0x1F, 32)
  {
    LowOr((w >> 20) & 0xFE0, (w >> 7) & 0x1F, low, 32);
  }

  lemma ImmSIs(w: bv32)
    ensures ImmValue(ImmS(w)) == IntS(w)
  {
    var low := ((w >> 20) & 0xFE0) | ((w >> 7) & 0x1F);
    ShapeS(w);
    SumS(w, low);
    JoinOne(ImmS(w), low, 0xFFFF_F000, Negative(w));
  }

  lemma ShapeB(w: bv32)
    ensures Extended(ImmB(w), ((w << 4) & 0x800) | ((w >> 20) & 0x7E0) | ((w >> 7) & 0x1E), 0xFFFF_F000, Negative(w))
  {
    if Negative(w) {} else {}
  }

  lemma SumB(w: bv32, low: bv32)
    requires low == ((w << 4) & 0x800) | ((w >> 20) & 0x7E0) | ((w >> 7) & 0x1E)
    ensures Low(low, 32) == Low((w << 4) & 0x800, 32) + Low((w >> 20) & 0x7E0, 32) + Low((w >> 7) & 0x1E, 32)
  {
    SumThree((w << 4) & 0x800, (w >> 20) & 0x7E0, (w >> 7) & 0x1E, low);
  }

  lemma ImmBIs(w: bv32)
    ensures ImmValue(ImmB(w)) == IntB(w)
  {
    var low := ((w << 4) & 0x800) | ((w >> 20) & 0x7E0) | ((w >> 7) & 0x1E);
    ShapeB(w);
    SumB(w, low);
    JoinOne(ImmB(w), low, 0xFFFF_F000, Negative(w));
  }

  lemma ImmUIs(w: bv32)
    ensures ImmValue(ImmU(w)) == IntU(w)
  {
    assert ImmU(w) == w & 0xFFFF_F000;
    ReadSigned(ImmU(w), Low(ImmU(w), 32));
  }

  lemma ShapeJ(w: bv32)
    ensures Extended(ImmJ(w), (w & 0xF_F000) | ((w >> 9) & 0x800) | ((w >> 20) & 0x7FE), 0xFFF0_0000, Negative(w))
  {
    if Negative(w) {} else {}
  }

  lemma SumJ(w: bv32, low: bv32)
    requires low == (w & 0xF_F000) | ((w >> 9) & 0x800) | ((w >> 20) & 0x7FE)
    ensures Low(low, 32) == Low(w & 0xF_F000, 32) + Low((w >> 9) & 0x800, 32) + Low((w >> 20) & 0x7FE, 32)
  {
    SumThree(w & 0xF_F000, (w >> 9) & 0x800, (w >> 20) & 0x7FE, low);
  }

  lemma ImmJIs(w: bv32)
    ensures ImmValue(ImmJ(w)) == IntJ(w)
  {
    var low := (w & 0xF_F000) | ((w >> 9) & 0x800) | ((w >> 20) & 0x7FE);
    ShapeJ(w);
    SumJ(w, low);
    JoinOne(ImmJ(w), low, 0xFFF0_0000, Negative(w));
  }

  // ---------- instruction words ----------

  lemma Numbers(w: bv32)
    ensures Number(Rd(w)) == RdOf(w) && Number(Rs1(w)) == Rs1Of(w) && Number(Rs2(w)) == Rs2Of(w)
  {
    assert Rd(w) & 31 == Rd(w) && Rs1(w) & 31 == Rs1(w) && Rs2(w) & 31 == Rs2(w);
  }

  /** What FieldsOf finds in a word with this opcode. */
  predicate Reads(w: bv32, op: Decode.Op, t: Format, imm: bv32)
  {
    var f := FieldsOf(w);
    && f.op == op && f.rd == Rd(w) && f.rs1 == Rs1(w) && (t == R || t == S || t == B ==> f.rs2 == Rs2(w))
    && f.funct3 == Funct3Of(w) && f.imm == imm && f.alt == AltOf(w)
    && (t == R ==> f.funct7 == (w >> 25) & 127)
  }

  lemma ReadsAs(w: bv32, op: Decode.Op, t: Format, imm: bv32)
    requires OpOf(w) == op && FormatOf(op) == t && imm == ImmOf(w, t)
    ensures Reads(w, op, t, imm)
  {
  }

  lemma OpcodeNames(w: bv32, low: bv32, op: Decode.Op)
    requires w & 127 == low && op == OpOf(low)
    ensures OpOf(w) == op
  {
    OpcodeDecides(w, low);
  }

  /** The registers that the fields name are those of the word. */
  predicate Names(f: Fields, rd: RegNo, rs1: RegNo, rs2: RegNo)
  {
    Number(f.rd) == rd && Number(f.rs1) == rs1 && Number(f.rs2) == rs2
  }

  /** The fields of a word with this opcode. */
  lemma FieldsFor(w: bv32, low: bv32, op: Decode.Op, t: Format, f: Fields)
    requires w & 127 == low && op == OpOf(low) && t == FormatOf(op) && f == FieldsOf(w)
    ensures f.op == op && Number(f.rd) == RdOf(w) && Number(f.rs1) == Rs1Of(w)
    ensures t == R || t == S || t == B ==> Number(f.rs2) == Rs2Of(w)
    ensures f.funct3 == Funct3Of(w) && f.imm == ImmOf(w, t) && f.alt == AltOf(w)
    ensures t == R ==> f.funct7 == (w >> 25) & 127
  {
    OpcodeNames(w, low, op);
    ReadsAs(w, op, t, ImmOf(w, t));
    Numbers(w);
  }

  lemma OperandIs(w: bv32, f: Fields)
    requires f.imm == ImmI(w) && f.funct3 == Funct3Of(w)
    ensures Operand(f) == OperandOf(w)
  {
    if f.funct3 == 1 || f.funct3 == 5 {
      ShamtIs(w, f.imm);
    } else {
      ImmIIs(w);
    }
  }

  lemma ShamtIs(w: bv32, imm: bv32)
    requires imm == ImmI(w)
    ensures Value(imm, 6) == Low(w >> 20, 6) < 64
  {
    assert imm & 63 == (w >> 20) & 63;
    SixBits(imm, w >> 20);
    ValueIsLow(w >> 20, 6);
    SixBelow(w >> 20);
  }

  lemma {:induction false} LowBelow(x: bv32, n: nat)
    ensures Low(x, n) < Exp2(n)
    decreases n
  {
    if n > 0 {
      LowBelow(x >> 1, n - 1);
    }
  }

  lemma SixBelow(x: bv32)
    ensures Low(x, 6) < 64
  {
    LowBelow(x, 6);
    assert Exp2(6) == 64;
  }

  lemma FieldsOpReg(w: bv32, f: Fields)
    requires w & 0x7F == 0x33 && f == FieldsOf(w) && (w >> 25 == 0 || w >> 25 == 0x20)
    ensures f.op == OpReg && IsBase(f.funct7) && Names(f, RdOf(w), Rs1Of(w), Rs2Of(w))
    ensures f.funct3 == Funct3Of(w) && f.funct3 <= 7 && f.alt == AltOf(w)
  {
    FieldsFor(w, 0x33, OpReg, R, f);
  }

  lemma FieldsOp32(w: bv32, f: Fields)
    requires w & 0x7F == 0x3B && f == FieldsOf(w) && (w >> 25 == 0 || w >> 25 == 0x20)
    ensures f.op == Op32 && IsBase(f.funct7) && Names(f, RdOf(w), Rs1Of(w), Rs2Of(w))
    ensures f.funct3 == Funct3Of(w) && f.alt == AltOf(w)
  {
    FieldsFor(w, 0x3B, Op32, R, f);
  }

  lemma FieldsOpImm(w: bv32, f: Fields)
    requires w & 0x7F == 0x13 && f == FieldsOf(w)
    ensures f.op == OpImm && Number(f.rd) == RdOf(w) && Number(f.rs1) == Rs1Of(w)
    ensures f.funct3 == Funct3Of(w) && f.funct3 <= 7 && f.alt == AltOf(w) && Operand(f) == OperandOf(w)
  {
    FieldsFor(w, 0x13, OpImm, I, f);
    OperandIs(w, f);
  }

  lemma FieldsOpImm32(w: bv32, f: Fields)
    requires w & 0x7F == 0x1B && f == FieldsOf(w)
    ensures f.op == OpImm32 && Number(f.rd) == RdOf(w) && Number(f.rs1) == Rs1Of(w)
    ensures f.funct3 == Funct3Of(w) && f.alt == AltOf(w) && Operand(f) == OperandOf(w)
  {
    FieldsFor(w, 0x1B, OpImm32, I, f);
    OperandIs(w, f);
  }

  lemma FieldsLui(w: bv32, f: Fields)
    requires w & 0x7F == 0x37 && f == FieldsOf(w)
    ensures f.op == Lui && Number(f.rd) == RdOf(w) && ImmValue(f.imm) == IntU(w)
  {
    FieldsFor(w, 0x37, Lui, U, f);
    ImmUIs(w);
  }

  lemma FieldsAuipc(w: bv32, f: Fields)
    requires w & 0x7F == 0x17 && f == FieldsOf(w)
    ensures f.op == Auipc && Number(f.rd) == RdOf(w) && ImmValue(f.imm) == IntU(w)
  {
    FieldsFor(w, 0x17, Auipc, U, f);
    ImmUIs(w);
  }

  lemma FieldsJal(w: bv32, f: Fields)
    requires w & 0x7F == 0x6F && f == FieldsOf(w)
    ensures f.op == Jal && Number(f.rd) == RdOf(w) && ImmValue(f.imm) == IntJ(w)
  {
    FieldsFor(w, 0x6F, Jal, J, f);
    ImmJIs(w);
  }

  lemma FieldsJalr(w: bv32, f: Fields)
    requires w & 0x7F == 0x67 && f == FieldsOf(w)
    ensures f.op == Jalr && Number(f.rd) == RdOf(w) && Number(f.rs1) == Rs1Of(w) && ImmValue(f.imm) == IntI(w)
  {
    FieldsFor(w, 0x67, Jalr, I, f);
    ImmIIs(w);
  }

  lemma FieldsBranch(w: bv32, f: Fields)
    requires w & 0x7F == 0x63 && f == FieldsOf(w)
    ensures f.op == Branch && Number(f.rs1) == Rs1Of(w) && Number(f.rs2) == Rs2Of(w)
    ensures f.funct3 == Funct3Of(w) && ImmValue(f.imm) == IntB(w)
  {
    FieldsFor(w, 0x63, Branch, B, f);
    ImmBIs(w);
  }

  lemma FieldsLoad(w: bv32, f: Fields)
    requires w & 0x7F == 0x03 && f == FieldsOf(w)
    ensures f.op == Load && Number(f.rd) == RdOf(w) && Number(f.rs1) == Rs1Of(w)
    ensures f.funct3 == Funct3Of(w) && f.funct3 <= 7 && ImmValue(f.imm) == IntI(w)
  {
    FieldsFor(w, 0x03, Load, I, f);
    ImmIIs(w);
  }

  lemma FieldsStore(w: bv32, f: Fields)
    requires w & 0x7F == 0x23 && f == FieldsOf(w)
    ensures f.op == Store && Number(f.rs1) == Rs1Of(w) && Number(f.rs2) == Rs2Of(w)
    ensures f.funct3 == Funct3Of(w) && f.funct3 <= 7 && ImmValue(f.imm) == IntS(w)
  {
    FieldsFor(w, 0x23, Store, S, f);
    ImmSIs(w);
  }

  lemma FieldsFence(w: bv32, f: Fields)
    requires w & 0x7F == 0x0F && f == FieldsOf(w)
    ensures f.op == MiscMem && f.funct3 == Funct3Of(w)
  {
    FieldsFor(w, 0x0F, MiscMem, I, f);
  }

  /** The instruction goes on to the next one and changes no register but rd. */
  ghost predicate Leaves(r: Result, c: Cpu, rd: RegNo, len: nat)
    requires WellFormed(c)
  {
    && r.Next? && !r.drops && |r.cpu.regs| == 32
    && r.cpu == Cpu(c.regs[rd := r.cpu.regs[rd]], Mod64(c.pc + len), c.s)
  }

  lemma WriteLeaves(c: Cpu, r: bv32, rd: RegNo, v: U64, len: nat)
    requires WellFormed(c) && Number(r) == rd
    ensures var x := Advance(Write(c, r, v), len); Leaves(x, c, rd, len) && x.cpu.regs[rd] == v
  {
  }

  lemma RegRuns(f: Fields, len: nat, c: Cpu, rs1: RegNo, rs2: RegNo, v: U64)
    requires WellFormed(c) && IsBase(f.funct7) && Number(f.rs1) == rs1 && Number(f.rs2) == rs2
    requires f.op == OpReg || (f.op == Op32 && HasAlu32(f.funct3))
    requires var alt := (f.funct3 == 0 || f.funct3 == 5) && f.alt;
             v == if f.op == OpReg then Alu(f.funct3, alt, c.regs[rs1], c.regs[rs2])
                  else Alu32(f.funct3, alt, c.regs[rs1], c.regs[rs2])
    ensures Execute(f, len, c) == Advance(Write(c, f.rd, v), len)
  {
  }

  lemma OpOn(f: Fields, len: nat, c: Cpu, rd: RegNo, rs1: RegNo, rs2: RegNo)
    requires WellFormed(c) && f.op == OpReg && IsBase(f.funct7) && Names(f, rd, rs1, rs2) && f.funct3 <= 7
    ensures var r := Execute(f, len, c);
            Leaves(r, c, rd, len) && Computes(f.funct3, f.alt, c.regs[rs1], c.regs[rs2], r.cpu.regs[rd])
  {
    var alt := (f.funct3 == 0 || f.funct3 == 5) && f.alt;
    var v := Alu(f.funct3, alt, c.regs[rs1], c.regs[rs2]);
    AluComputes(f.funct3, alt, c.regs[rs1], c.regs[rs2]);
    RegRuns(f, len, c, rs1, rs2, v);
    WriteLeaves(c, f.rd, rd, v, len);
  }

  lemma Op32On(f: Fields, len: nat, c: Cpu, rd: RegNo, rs1: RegNo, rs2: RegNo)
    requires WellFormed(c) && f.op == Op32 && IsBase(f.funct7) && Names(f, rd, rs1, rs2) && HasAlu32(f.funct3)
    ensures var r := Execute(f, len, c);
            Leaves(r, c, rd, len) && ComputesWord(f.funct3, f.alt, c.regs[rs1], c.regs[rs2], r.cpu.regs[rd])
  {
    var alt := (f.funct3 == 0 || f.funct3 == 5) && f.alt;
    var v := Alu32(f.funct3, alt, c.regs[rs1], c.regs[rs2]);
    Alu32Computes(f.funct3, alt, c.regs[rs1], c.regs[rs2]);
    RegRuns(f, len, c, rs1, rs2, v);
    WriteLeaves(c, f.rd, rd, v, len);
  }

  lemma ImmRuns(f: Fields, len: nat, c: Cpu, rs1: RegNo, b: U64, v: U64)
    requires WellFormed(c) && Number(f.rs1) == rs1 && b == Operand(f)
    requires f.op == OpImm || (f.op == OpImm32 && HasAlu32(f.funct3))
    requires var alt := f.funct3 == 5 && f.alt;
             v == if f.op == OpImm then Alu(f.funct3, alt, c.regs[rs1], b) else Alu32(f.funct3, alt, c.regs[rs1], b)
    ensures Execute(f, len, c) == Advance(Write(c, f.rd, v), len)
  {
  }

  lemma OpImmOn(f: Fields, len: nat, c: Cpu, rd: RegNo, rs1: RegNo, b: U64)
    requires WellFormed(c) && f.op == OpImm && Number(f.rd) == rd && Number(f.rs1) == rs1 && f.funct3 <= 7
    requires b == Operand(f)
    ensures var r := Execute(f, len, c);
            Leaves(r, c, rd, len) && Computes(f.funct3, f.funct3 == 5 && f.alt, c.regs[rs1], b, r.cpu.regs[rd])
  {
    var v := Alu(f.funct3, f.funct3 == 5 && f.alt, c.regs[rs1], b);
    AluComputes(f.funct3, f.funct3 == 5 && f.alt, c.regs[rs1], b);
    ImmRuns(f, len, c, rs1, b, v);
    WriteLeaves(c, f.rd, rd, v, len);
  }

  lemma OpImm32On(f: Fields, len: nat, c: Cpu, rd: RegNo, rs1: RegNo, b: U64)
    requires WellFormed(c) && f.op == OpImm32 && Number(f.rd) == rd && Number(f.rs1) == rs1 && HasAlu32(f.funct3)
    requires b == Operand(f)
    ensures var r := Execute(f, len, c);
            Leaves(r, c, rd, len) && ComputesWord(f.funct3, f.funct3 == 5 && f.alt, c.regs[rs1], b, r.cpu.regs[rd])
  {
    var v := Alu32(f.funct3, f.funct3 == 5 && f.alt, c.regs[rs1], b);
    Alu32Computes(f.funct3, f.funct3 == 5 && f.alt, c.regs[rs1], b);
    ImmRuns(f, len, c, rs1, b, v);
    WriteLeaves(c, f.rd, rd, v, len);
  }

  /** ADD, SUB, SLL, SLT, SLTU, XOR, SRL, SRA, OR, AND */
  lemma OpMeans(w: bv32, len: nat, c: Cpu)
    requires WellFormed(c) && w & 0x7F == 0x33 && (w >> 25 == 0 || w >> 25 == 0x20)
    ensures var r := Execute(FieldsOf(w), len, c);
            && Leaves(r, c, RdOf(w), len)
            && Computes(Funct3Of(w), AltOf(w), c.regs[Rs1Of(w)], c.regs[Rs2Of(w)], r.cpu.regs[RdOf(w)])
  {
    FieldsOpReg(w, FieldsOf(w));
    OpOn(FieldsOf(w), len, c, RdOf(w), Rs1Of(w), Rs2Of(w));
  }

  /** ADDW, SUBW, SLLW, SRLW, SRAW */
  lemma Op32Means(w: bv32, len: nat, c: Cpu)
    requires WellFormed(c) && w & 0x7F == 0x3B && (w >> 25 == 0 || w >> 25 == 0x20)
    requires Funct3Of(w) == 0 || Funct3Of(w) == 1 || Funct3Of(w) == 5
    ensures var r := Execute(FieldsOf(w), len, c);
            && Leaves(r, c, RdOf(w), len)
            && ComputesWord(Funct3Of(w), AltOf(w), c.regs[Rs1Of(w)], c.regs[Rs2Of(w)], r.cpu.regs[RdOf(w)])
  {
    FieldsOp32(w, FieldsOf(w));
    Op32On(FieldsOf(w), len, c, RdOf(w), Rs1Of(w), Rs2Of(w));
  }

  /** ADDI, SLTI, SLTIU, XORI, ORI, ANDI, SLLI, SRLI, SRAI */
  lemma OpImmMeans(w: bv32, len: nat, c: Cpu)
    requires WellFormed(c) && w & 0x7F == 0x13
    ensures var r, f3 := Execute(FieldsOf(w), len, c), Funct3Of(w);
            && Leaves(r, c, RdOf(w), len)
            && Computes(f3, f3 == 5 && AltOf(w), c.regs[Rs1Of(w)], OperandOf(w), r.cpu.regs[RdOf(w)])
  {
    FieldsOpImm(w, FieldsOf(w));
    OpImmOn(FieldsOf(w), len, c, RdOf(w), Rs1Of(w), OperandOf(w));
  }

  /** ADDIW, SLLIW, SRLIW, SRAIW */
  lemma OpImm32Means(w: bv32, len: nat, c: Cpu)
    requires WellFormed(c) && w & 0x7F == 0x1B && (Funct3Of(w) == 0 || Funct3Of(w) == 1 || Funct3Of(w) == 5)
    ensures var r, f3 := Execute(FieldsOf(w), len, c), Funct3Of(w);
            && Leaves(r, c, RdOf(w), len)
            && ComputesWord(f3, f3 == 5 && AltOf(w), c.regs[Rs1Of(w)], OperandOf(w), r.cpu.regs[RdOf(w)])
  {
    FieldsOpImm32(w, FieldsOf(w));
    OpImm32On(FieldsOf(w), len, c, RdOf(w), Rs1Of(w), OperandOf(w));
  }

  /** LUI */
  lemma LuiMeans(w: bv32, len: nat, c: Cpu)
    requires WellFormed(c) && w & 0x7F == 0x37
    ensures var r := Execute(FieldsOf(w), len, c);
            Leaves(r, c, RdOf(w), len) && Congruent(r.cpu.regs[RdOf(w)], IntU(w), MOD64)
  {
    FieldsLui(w, FieldsOf(w));
    UpperOn(FieldsOf(w), len, c, RdOf(w), IntU(w));
  }

  /** AUIPC */
  lemma AuipcMeans(w: bv32, len: nat, c: Cpu)
    requires WellFormed(c) && w & 0x7F == 0x17
    ensures var r := Execute(FieldsOf(w), len, c);
            Leaves(r, c, RdOf(w), len) && Congruent(r.cpu.regs[RdOf(w)], c.pc + IntU(w), MOD64)
  {
    FieldsAuipc(w, FieldsOf(w));
    UpperOn(FieldsOf(w), len, c, RdOf(w), IntU(w));
  }

  lemma UpperOn(f: Fields, len: nat, c: Cpu, rd: RegNo, imm: int)
    requires WellFormed(c) && (f.op == Lui || f.op == Auipc) && Number(f.rd) == rd && ImmValue(f.imm) == imm
    ensures var r := Execute(f, len, c);
            Leaves(r, c, rd, len) && Congruent(r.cpu.regs[rd], if f.op == Lui then imm else c.pc + imm, MOD64)
  {
    WrapCongruent(if f.op == Lui then imm else imm + c.pc);
  }

  // ---------- jumps ----------

  /** pc is the target, and the buffered halfword is dropped; an odd target is a misaligned one. */
  function JumpTo(c: Cpu, target: U64): Result
  {
    if target % 2 == 0 then Next(c.(pc := target), true) else Raised(0, target, c.(pc := target))
  }

  /** JAL */
  lemma JalMeans(w: bv32, len: nat, c: Cpu)
    requires WellFormed(c) && w & 0x7F == 0x6F
    ensures var linked := c.(regs := c.regs[RdOf(w) := Mod64(c.pc + len)]);
            Execute(FieldsOf(w), len, c) == JumpTo(linked, Mod64(c.pc + IntJ(w)))
  {
    FieldsJal(w, FieldsOf(w));
    JalOn(FieldsOf(w), len, c, RdOf(w), IntJ(w));
  }

  lemma JalOn(f: Fields, len: nat, c: Cpu, rd: RegNo, imm: int)
    requires WellFormed(c) && f.op == Jal && Number(f.rd) == rd && ImmValue(f.imm) == imm
    ensures var linked := c.(regs := c.regs[rd := Mod64(c.pc + len)]);
            Execute(f, len, c) == JumpTo(linked, Mod64(c.pc + imm))
  {
  }

  /** JALR, which never jumps to an odd address: the lowest bit of the sum is cleared. */
  lemma JalrMeans(w: bv32, len: nat, c: Cpu)
    requires WellFormed(c) && w & 0x7F == 0x67
    ensures Execute(FieldsOf(w), len, c) == JumpEven(c, RdOf(w), Mod64(c.pc + len), c.regs[Rs1Of(w)], IntI(w))
  {
    FieldsJalr(w, FieldsOf(w));
    JalrOn(FieldsOf(w), len, c, RdOf(w), Rs1Of(w), IntI(w));
  }

  function JumpEven(c: Cpu, rd: RegNo, link: U64, base: U64, imm: int): (r: Result)
    requires WellFormed(c)
    ensures r.Next? && r.drops && r.cpu == Cpu(c.regs[rd := link], r.cpu.pc, c.s)
    ensures r.cpu.pc % 2 == 0 && r.cpu.pc <= Mod64(base + imm) <= r.cpu.pc + 1
  {
    var sum := Mod64(base + imm);
    Next(Cpu(c.regs[rd := link], if sum % 2 == 1 then sum - 1 else sum, c.s), true)
  }

  lemma JalrOn(f: Fields, len: nat, c: Cpu, rd: RegNo, rs1: RegNo, imm: int)
    requires WellFormed(c) && f.op == Jalr && Number(f.rd) == rd && Number(f.rs1) == rs1 && ImmValue(f.imm) == imm
    ensures Execute(f, len, c) == JumpEven(c, rd, Mod64(c.pc + len), c.regs[rs1], imm)
  {
  }

  /** A branch jumps if its comparison holds, or goes on to the next instruction. */
  function BranchTo(c: Cpu, funct3: bv32, a: U64, b: U64, imm: int, len: nat): Result
  {
    if Compares(funct3, a, b) then JumpTo(c, Mod64(c.pc + imm)) else Next(c.(pc := Mod64(c.pc + len)), false)
  }

  /** BEQ, BNE, BLT, BGE, BLTU, BGEU */
  lemma BranchMeans(w: bv32, len: nat, c: Cpu)
    requires WellFormed(c) && w & 0x7F == 0x63
    ensures Execute(FieldsOf(w), len, c)
            == BranchTo(c, Funct3Of(w), c.regs[Rs1Of(w)], c.regs[Rs2Of(w)], IntB(w), len)
  {
    FieldsBranch(w, FieldsOf(w));
    BranchOn(FieldsOf(w), len, c, Rs1Of(w), Rs2Of(w), IntB(w));
  }

  lemma BranchOn(f: Fields, len: nat, c: Cpu, rs1: RegNo, rs2: RegNo, imm: int)
    requires WellFormed(c) && f.op == Branch && Number(f.rs1) == rs1 && Number(f.rs2) == rs2 && ImmValue(f.imm) == imm
    ensures Execute(f, len, c) == BranchTo(c, f.funct3, c.regs[rs1], c.regs[rs2], imm, len)
  {
    TakenCompares(f.funct3, c.regs[rs1], c.regs[rs2]);
  }

  // ---------- loads and stores ----------

  lemma {:induction false} PowIsExp(n: nat)
    ensures PhysMem.Pow256(n) == Exp2(8 * n)
  {
    if n > 0 {
      PowIsExp(n - 1);
      var k := 8 * (n - 1);
      assert Exp2(k + 8) == 2 * Exp2(k + 7) && Exp2(k + 7) == 2 * Exp2(k + 6) && Exp2(k + 6) == 2 * Exp2(k + 5);
      assert Exp2(k + 5) == 2 * Exp2(k + 4) && Exp2(k + 4) == 2 * Exp2(k + 3) && Exp2(k + 3) == 2 * Exp2(k + 2);
      assert Exp2(k + 2) == 2 * Exp2(k + 1) && Exp2(k + 1) == 2 * Exp2(k);
    }
  }

  lemma PhysicalBound(b: PageWalk.Bus, priv: int, acc: Access, n: nat, a: int)
    requires !acc.write
    ensures var out := Physical(b, priv, acc, n, a, 0).1; out.Done? ==> out.value < Exp2(8 * n)
  {
    PhysMem.GetBounds(b.mem, a, n);
    PowIsExp(n);
  }

  lemma TranslatedBound(b: PageWalk.Bus, t: Cache, satp: U64, mstatus: bv64, priv: int, acc: Access, n: nat, va: U64)
    requires Shape(t) && !acc.write
    ensures var out := TranslatedAccess(b, t, satp, mstatus, priv, acc, n, va, 0).out;
            out.Done? ==> out.value < Exp2(8 * n)
  {
    var k := Lookup(b, t, satp, mstatus, priv, acc, va);
    var acc' := acc.(load := k.load);
    if k.phys != 0 {
      PhysicalBound(k.bus, priv, acc', n, k.phys);
    } else {
      WalkedBound(k.bus, t, satp, mstatus, priv, acc', n, va, PageWalk.Translate(k.bus, priv, acc', satp, mstatus, va));
    }
  }

  lemma WalkedBound(b: PageWalk.Bus, t: Cache, satp: U64, mstatus: bv64, priv: int, acc: Access, n: nat, va: U64,
        tr: PageWalk.Translation)
    requires Shape(t) && !acc.write && tr == PageWalk.Translate(b, priv, acc, satp, mstatus, va)
    ensures var out := WalkAccess(b, t, satp, mstatus, priv, acc, n, va, 0).out;
            out.Done? ==> out.value < Exp2(8 * n)
  {
    match tr
    case Denied =>
    case Fault =>
    case Bare => PhysicalBound(b, priv, acc, n, va);
    case To(phys, b', _) => PhysicalBound(b', priv, acc, n, phys);
  }

  /** A load of n bytes gives a number of n bytes. */
  lemma LoadBound(s: Cached, n: nat, va: U64)
    requires Shape(s.tlb)
    ensures var out := TlbAccess(s, Access(false, true), n, va, 0).1; out.Done? ==> out.value < Exp2(8 * n)
  {
    var c, acc := s.core, Access(false, true);
    match Effective(c, acc)
    case None => PhysicalBound(c.bus, c.priv, acc, n, va);
    case Some(p) => TranslatedBound(c.bus, s.tlb, c.satp, c.mstatus, p, acc, n, va);
  }

  lemma WidthCases(funct3: bv32)
    requires funct3 <= 7
    ensures funct3 & 4 != 0 <==> funct3 >= 4
    ensures var n := Width(funct3); n == 1 || n == 2 || n == 4 || n == 8
  {
  }

  /** The halves of the range of n bytes: the upper one is that of the negative numbers. */
  predicate Fills(n: nat, m: int, bytes: nat, signed: bool, v: U64)
  {
    v == if signed && 2 * bytes >= m then bytes + MOD64 - m else bytes
  }

  lemma LoadedFills(funct3: bv32, n: nat, m: int, bytes: nat, v: U64)
    requires funct3 <= 7 && n == Width(funct3) && m == Exp2(8 * n) && bytes < m && v == Loaded(bytes, funct3)
    ensures Fills(n, m, bytes, funct3 < 4, v)
  {
    WidthCases(funct3);
    WidthOf(n, m);
    if funct3 < 4 {
      if n == 1 {} else if n == 2 {} else if n == 4 {} else {}
    }
  }

  lemma WidthOf(n: nat, m: int)
    requires (n == 1 || n == 2 || n == 4 || n == 8) && m == Exp2(8 * n)
    ensures m == if n == 1 then 0x100 else if n == 2 then 0x1_0000 else if n == 4 then MOD32 else MOD64
  {
    BigPowers();
  }

  lemma FillsExtends(funct3: bv32, n: nat, m: int, bytes: nat, v: U64)
    requires (n == 1 || n == 2 || n == 4 || n == 8) && m == Exp2(8 * n) && bytes < m
    requires Fills(n, m, bytes, funct3 < 4, v)
    ensures Extends(funct3, n, bytes, v)
  {
    BigPowers();
    if v == bytes {
      DivModIs(0, m, 0, 0);
    } else {
      OnesAbove(n, v - bytes);
    }
  }

  /** Adding the ones above the width changes nothing below it. */
  lemma OnesAbove(n: nat, x: int)
    requires (n == 1 || n == 2 || n == 4 || n == 8) && x == MOD64 - Exp2(8 * n)
    ensures x % Exp2(8 * n) == 0
  {
    BigPowers();
    if n == 1 {
      DivModIs(x, 0x100, 0xFF_FFFF_FFFF_FFFF, 0);
    } else if n == 2 {
      DivModIs(x, 0x1_0000, 0xFFFF_FFFF_FFFF, 0);
    } else if n == 4 {
      DivModIs(x, MOD32, 0xFFFF_FFFF, 0);
    }
  }

  /** A number of n bytes in a register, sign-extended or not. */
  function Extended64(n: nat, bytes: nat, signed: bool): U64
    requires (n == 1 || n == 2 || n == 4 || n == 8) && bytes < Exp2(8 * n)
  {
    var m := Exp2(8 * n);
    WidthOf(n, m);
    if signed && 2 * bytes >= m then bytes + MOD64 - m else bytes
  }

  lemma ExtendedMeans(funct3: bv32, n: nat, bytes: nat)
    requires (n == 1 || n == 2 || n == 4 || n == 8) && bytes < Exp2(8 * n)
    ensures Extends(funct3, n, bytes, Extended64(n, bytes, funct3 < 4))
  {
    FillsExtends(funct3, n, Exp2(8 * n), bytes, Extended64(n, bytes, funct3 < 4));
  }

  /** What becomes of a load into rd, with the causes of its faults. */
  function EndLoad(c: Cpu, rd: RegNo, addr: U64, out: Outcome, v: U64, len: nat): Result
    requires WellFormed(c)
  {
    match out
    case AccessFault => Raised(5, addr, c)
    case PageFault => Raised(13, addr, c)
    case Done(_) => Next(Cpu(c.regs[rd := v], Mod64(c.pc + len), c.s), false)
  }

  function LoadAt(c: Cpu, rd: RegNo, n: nat, signed: bool, addr: U64, len: nat): Result
    requires WellFormed(c) && (n == 1 || n == 2 || n == 4 || n == 8)
  {
    var (s, out) := TlbAccess(c.s, Access(false, true), n, addr, 0);
    LoadBound(c.s, n, addr);
    EndLoad(c.(s := s), rd, addr, out, if out.Done? then Extended64(n, out.value, signed) else 0, len)
  }

  function LoadTo(c: Cpu, rd: RegNo, funct3: bv32, base: U64, imm: int, len: nat): Result
    requires WellFormed(c)
  {
    LoadAt(c, rd, BytesOf(funct3), funct3 < 4, Mod64(base + imm), len)
  }

  /** LB, LH, LW, LD, LBU, LHU, LWU */
  lemma LoadMeans(w: bv32, len: nat, c: Cpu)
    requires WellFormed(c) && w & 0x7F == 0x03
    ensures Execute(FieldsOf(w), len, c) == LoadTo(c, RdOf(w), Funct3Of(w), c.regs[Rs1Of(w)], IntI(w), len)
  {
    FieldsLoad(w, FieldsOf(w));
    LoadOn(FieldsOf(w), len, c, RdOf(w), Rs1Of(w), IntI(w));
  }

  lemma WidthIs(funct3: bv32)
    requires funct3 <= 7
    ensures Width(funct3) == BytesOf(funct3)
  {
  }

  lemma LoadRuns(f: Fields, len: nat, c: Cpu, addr: U64)
    requires WellFormed(c) && f.op == Load && addr == Wrap(Read(c, f.rs1) + ImmValue(f.imm))
    ensures Execute(f, len, c) == LoadFrom(f.rd, f.funct3, len, c, addr)
  {
  }

  lemma LoadOn(f: Fields, len: nat, c: Cpu, rd: RegNo, rs1: RegNo, imm: int)
    requires WellFormed(c) && f.op == Load && Number(f.rd) == rd && Number(f.rs1) == rs1 && ImmValue(f.imm) == imm
    requires f.funct3 <= 7
    ensures Execute(f, len, c) == LoadTo(c, rd, f.funct3, c.regs[rs1], imm, len)
  {
    var addr := Mod64(c.regs[rs1] + imm);
    LoadRuns(f, len, c, addr);
    WidthIs(f.funct3);
    LoadFromOn(f, len, c, rd, BytesOf(f.funct3), addr);
    LoadToIs(c, rd, f.funct3, c.regs[rs1], imm, len, BytesOf(f.funct3), addr);
  }

  lemma LoadToIs(c: Cpu, rd: RegNo, funct3: bv32, base: U64, imm: int, len: nat, n: nat, addr: U64)
    requires WellFormed(c) && n == BytesOf(funct3) && addr == Mod64(base + imm)
    ensures LoadTo(c, rd, funct3, base, imm, len) == LoadAt(c, rd, n, funct3 < 4, addr, len)
  {
  }

  lemma LoadFromOn(f: Fields, len: nat, c: Cpu, rd: RegNo, n: nat, addr: U64)
    requires WellFormed(c) && Number(f.rd) == rd && f.funct3 <= 7
    requires n == Width(f.funct3) && (n == 1 || n == 2 || n == 4 || n == 8)
    ensures LoadFrom(f.rd, f.funct3, len, c, addr) == LoadAt(c, rd, n, f.funct3 < 4, addr, len)
  {
    var (s, out) := TlbAccess(c.s, Access(false, true), n, addr, 0);
    LoadBound(c.s, n, addr);
    var v: U64 := if out.Done? then Extended64(n, out.value, f.funct3 < 4) else 0;
    if out.Done? {
      LoadedIs(f.funct3, n, out.value);
    }
    LoadEnds(f.rd, f.funct3, len, c.(s := s), rd, addr, out, v);
  }

  lemma LoadEnds(r: bv32, funct3: bv32, len: nat, c: Cpu, rd: RegNo, addr: U64, out: Outcome, v: U64)
    requires WellFormed(c) && Number(r) == rd && (out.Done? ==> v == Loaded(out.value, funct3))
    ensures FinishLoad(r, funct3, len, c, addr, out) == EndLoad(c, rd, addr, out, v, len)
  {
  }

  lemma LoadedIs(funct3: bv32, n: nat, bytes: nat)
    requires funct3 <= 7 && n == Width(funct3) && (n == 1 || n == 2 || n == 4 || n == 8) && bytes < Exp2(8 * n)
    ensures Loaded(bytes, funct3) == Extended64(n, bytes, funct3 < 4)
  {
    LoadedFills(funct3, n, Exp2(8 * n), bytes, Loaded(bytes, funct3));
  }

  /** What becomes of a store, with the causes of its faults. */
  function EndStore(c: Cpu, addr: U64, out: Outcome, len: nat): Result
  {
    match out
    case AccessFault => Raised(7, addr, c)
    case PageFault => Raised(15, addr, c)
    case Done(_) => Next(c.(pc := Mod64(c.pc + len)), false)
  }

  function StoreAt(c: Cpu, n: nat, addr: U64, data: U64, len: nat): Result
    requires WellFormed(c)
  {
    var (s, out) := TlbAccess(c.s, Access(true, false), n, addr, data);
    EndStore(c.(s := s), addr, out, len)
  }

  function StoreOf(c: Cpu, funct3: bv32, base: U64, imm: int, data: U64, len: nat): Result
    requires WellFormed(c)
  {
    StoreAt(c, BytesOf(funct3), Mod64(base + imm), data, len)
  }

  /** SB, SH, SW, SD */
  lemma StoreMeans(w: bv32, len: nat, c: Cpu)
    requires WellFormed(c) && w & 0x7F == 0x23 && Funct3Of(w) <= 3
    ensures Execute(FieldsOf(w), len, c)
            == StoreOf(c, Funct3Of(w), c.regs[Rs1Of(w)], IntS(w), c.regs[Rs2Of(w)], len)
  {
    FieldsStore(w, FieldsOf(w));
    StoreOn(FieldsOf(w), len, c, Rs1Of(w), Rs2Of(w), IntS(w));
  }

  /** A store of a width that RV64I does not have is skipped without a fault. */
  lemma NoStoreMeans(w: bv32, len: nat, c: Cpu)
    requires WellFormed(c) && w & 0x7F == 0x23 && Funct3Of(w) > 3
    ensures Execute(FieldsOf(w), len, c) == Next(c.(pc := Mod64(c.pc + len)), false)
  {
    FieldsStore(w, FieldsOf(w));
    NoStoreRuns(FieldsOf(w), len, c);
  }

  lemma NoStoreRuns(f: Fields, len: nat, c: Cpu)
    requires WellFormed(c) && f.op == Store && 3 < f.funct3 <= 7
    ensures Execute(f, len, c) == Next(c.(pc := Mod64(c.pc + len)), false)
  {
    assert f.funct3 & 4 != 0;
  }

  lemma StoreRuns(f: Fields, len: nat, c: Cpu, n: nat, addr: U64, data: U64)
    requires WellFormed(c) && f.op == Store && f.funct3 & 4 == 0 && n == Width(f.funct3)
    requires addr == Wrap(Read(c, f.rs1) + ImmValue(f.imm)) && data == Read(c, f.rs2)
    ensures Execute(f, len, c) == StoreTo(n, len, c, addr, data)
  {
  }

  lemma StoreOn(f: Fields, len: nat, c: Cpu, rs1: RegNo, rs2: RegNo, imm: int)
    requires WellFormed(c) && f.op == Store && Number(f.rs1) == rs1 && Number(f.rs2) == rs2 && ImmValue(f.imm) == imm
    requires f.funct3 <= 3
    ensures Execute(f, len, c) == StoreOf(c, f.funct3, c.regs[rs1], imm, c.regs[rs2], len)
  {
    var n, addr := BytesOf(f.funct3), Mod64(c.regs[rs1] + imm);
    assert f.funct3 & 4 == 0;
    WidthIs(f.funct3);
    StoreRuns(f, len, c, n, addr, c.regs[rs2]);
    StoreToOn(n, len, c, addr, c.regs[rs2]);
    StoreOfIs(c, f.funct3, c.regs[rs1], imm, c.regs[rs2], len, n, addr);
  }

  lemma StoreOfIs(c: Cpu, funct3: bv32, base: U64, imm: int, data: U64, len: nat, n: nat, addr: U64)
    requires WellFormed(c) && n == BytesOf(funct3) && addr == Mod64(base + imm)
    ensures StoreOf(c, funct3, base, imm, data, len) == StoreAt(c, n, addr, data, len)
  {
  }

  lemma StoreToOn(n: nat, len: nat, c: Cpu, addr: U64, data: U64)
    requires WellFormed(c)
    ensures StoreTo(n, len, c, addr, data) == StoreAt(c, n, addr, data, len)
  {
    var (s, out) := TlbAccess(c.s, Access(true, false), n, addr, data);
    StoreEnds(len, c.(s := s), addr, out);
  }

  lemma StoreEnds(len: nat, c: Cpu, addr: U64, out: Outcome)
    requires WellFormed(c)
    ensures FinishStore(len, c, addr, out) == EndStore(c, addr, out, len)
  {
  }

  // ---------- the rest ----------

  lemma Calls()
    ensures FieldsOf(0x73).op == System && FieldsOf(0x73).call == Ecall
    ensures FieldsOf(0x10_0073).op == System && FieldsOf(0x10_0073).call == Ebreak
  {
  }

  /** No other word is one of them. */
  lemma CallsExact(w: bv32)
    ensures FieldsOf(w).call == Ecall <==> w == 0x73
    ensures FieldsOf(w).call == Ebreak <==> w == 0x10_0073
  {
    Calls();
  }

  /** ECALL and EBREAK */
  lemma CallMeans(len: nat, c: Cpu)
    requires WellFormed(c)
    ensures Execute(FieldsOf(0x73), len, c) == Raised(8 + c.s.core.priv, c.pc, c)
    ensures Execute(FieldsOf(0x10_0073), len, c) == Raised(3, c.pc, c)
  {
    Calls();
  }

  /** FENCE does nothing, FENCE.I drops the buffered halfword. */
  lemma FenceMeans(w: bv32, len: nat, c: Cpu)
    requires WellFormed(c) && w & 0x7F == 0x0F
    ensures Execute(FieldsOf(w), len, c) == Next(c.(pc := Mod64(c.pc + len)), Funct3Of(w) == 1)
  {
    FieldsFence(w, FieldsOf(w));
    FenceOn(FieldsOf(w), len, c);
  }

  lemma FenceOn(f: Fields, len: nat, c: Cpu)
    requires WellFormed(c) && f.op == MiscMem
    ensures Execute(f, len, c) == Next(c.(pc := Mod64(c.pc + len)), f.funct3 == 1)
  {
  }

  // ---------- the relations leave no choice ----------

  lemma SmallMultiple(x: int, m: int)
    requires m > 0 && x % m == 0 && -m < x < m
    ensures x == 0
  {
    var q := x / m;
    assert x == m * q;
    assert q >= 1 ==> m * q >= m;
    assert q <= -1 ==> m * q <= -m;
  }

  /** Two numbers congruent to the same are congruent. */
  lemma BothCongruent(v: int, w: int, x: int, m: int)
    requires m > 0 && Congruent(v, x, m) && Congruent(w, x, m)
    ensures (v - w) % m == 0
  {
    MultipleAdd(v - x, w - x, m);
    assert v - x - (w - x) == v - w;
  }

  lemma OneCongruent(v: U64, w: U64, x: int)
    requires Congruent(v, x, MOD64) && Congruent(w, x, MOD64)
    ensures v == w
  {
    BothCongruent(v, w, x, MOD64);
    SmallMultiple(v - w, MOD64);
  }

  lemma OneFloor(p: int, q: int, x: int, d: int)
    requires d > 0 && Floor(p, x, d) && Floor(q, x, d)
    ensures p == q
  {
    assert p < q ==> d * (p + 1) <= d * q;
    assert q < p ==> d * (q + 1) <= d * p;
  }

  lemma {:induction false} BitsTell(v: U64, w: U64, n: nat)
    requires v < Exp2(n) && w < Exp2(n) && forall k :: 0 <= k < n ==> BitOf(v, k) == BitOf(w, k)
    ensures v == w
    decreases n
  {
    if n > 0 {
      assert Exp2(0) == 1 && BitOf(v, 0) == BitOf(w, 0);
      forall k | 0 <= k < n - 1
        ensures BitOf(v / 2, k) == BitOf(w / 2, k)
      {
        BitAbove(v, k + 1);
        BitAbove(w, k + 1);
        assert BitOf(v, k + 1) == BitOf(w, k + 1);
      }
      BitsTell(v / 2, w / 2, n - 1);
    }
  }

  lemma OneWord(v: U64, w: U64)
    requires WordIn(v) && WordIn(w) && (v - w) % MOD32 == 0
    ensures v == w
  {
    var k := if Int64(v) < 0 && Int64(w) >= 0 then -1 else if Int64(w) < 0 && Int64(v) >= 0 then 1 else 0;
    assert Int64(v) - Int64(w) == v - w + k * MOD64;
    DivModIs(Int64(v) - Int64(w), MOD32, (v - w) / MOD32 + k * MOD32, 0);
    SmallMultiple(Int64(v) - Int64(w), MOD32);
  }

  /** ADD and SUB */
  lemma SumOne(alt: bool, a: U64, b: U64, v: U64, w: U64)
    requires Computes(0, alt, a, b, v) && Computes(0, alt, a, b, w)
    ensures v == w
  {
    if alt {
      BothCongruent(v + b, w + b, a, MOD64);
      assert v + b - (w + b) == v - w;
      SmallMultiple(v - w, MOD64);
    } else {
      OneCongruent(v, w, a + b);
    }
  }

  /** SLL, SRL and SRA */
  lemma ShiftOne(funct3: bv32, alt: bool, a: U64, b: U64, v: U64, w: U64)
    requires (funct3 == 1 || funct3 == 5) && Computes(funct3, alt, a, b, v) && Computes(funct3, alt, a, b, w)
    ensures v == w
  {
    if funct3 == 1 {
      OneCongruent(v, w, a * Exp2(b % 64));
    } else if alt {
      OneFloor(Int64(v), Int64(w), Int64(a), Exp2(b % 64));
    } else {
      OneFloor(v, w, a, Exp2(b % 64));
    }
  }

  /** XOR, OR and AND */
  lemma BitwiseOne(funct3: bv32, alt: bool, a: U64, b: U64, v: U64, w: U64)
    requires (funct3 == 4 || funct3 == 6 || funct3 == 7)
    requires Computes(funct3, alt, a, b, v) && Computes(funct3, alt, a, b, w)
    ensures v == w
  {
    BigPowers();
    forall k | 0 <= k < 64
      ensures BitOf(v, k) == BitOf(w, k)
    {
    }
    BitsTell(v, w, 64);
  }

  /** SLT and SLTU */
  lemma CompareOne(funct3: bv32, alt: bool, a: U64, b: U64, v: U64, w: U64)
    requires (funct3 == 2 || funct3 == 3) && Computes(funct3, alt, a, b, v) && Computes(funct3, alt, a, b, w)
    ensures v == w
  {
  }

  /** The operands determine what Computes allows. */
  lemma ComputesOne(funct3: bv32, alt: bool, a: U64, b: U64, v: U64, w: U64)
    requires funct3 <= 7 && Computes(funct3, alt, a, b, v) && Computes(funct3, alt, a, b, w)
    ensures v == w
  {
    if funct3 == 0 {
      SumOne(alt, a, b, v, w);
    } else if funct3 == 1 || funct3 == 5 {
      ShiftOne(funct3, alt, a, b, v, w);
    } else if funct3 == 2 || funct3 == 3 {
      CompareOne(funct3, alt, a, b, v, w);
    } else {
      BitwiseOne(funct3, alt, a, b, v, w);
    }
  }

  /** And what ComputesWord allows. */
  lemma ComputesWordOne(funct3: bv32, alt: bool, a: U64, b: U64, v: U64, w: U64)
    requires ComputesWord(funct3, alt, a, b, v) && ComputesWord(funct3, alt, a, b, w)
    ensures v == w
  {
    if funct3 == 0 && alt {
      BothCongruent(v + b, w + b, a, MOD32);
      assert v + b - (w + b) == v - w;
      OneWord(v, w);
    } else if funct3 == 0 || funct3 == 1 {
      BothCongruent(v, w, if funct3 == 0 then a + b else a * Exp2(b % 32), MOD32);
      OneWord(v, w);
    } else if alt {
      OneFloor(Int64(v), Int64(w), Int32(a), Exp2(b % 32));
    } else {
      OneFloor(v % MOD32, w % MOD32, a % MOD32, Exp2(b % 32));
      DivModIs(v - w, MOD32, v / MOD32 - w / MOD32, 0);
      OneWord(v, w);
    }
  }
}
