/**
 What RV64I instructions compute, as relations between register values: signed and unsigned readings, congruences,
 single bits. Sections 2.4 to 2.6 and 5.2 to 5.3 of the RISC-V Unprivileged ISA (20191213).
 */
module Isa {
  import opened Base
  import opened BitOps

  const MOD32 := 0x1_0000_0000
  const MOD64 := 0x1_0000_0000_0000_0000

  /** A sum or difference as the 64 bits of a register hold it. */
  function Mod64(x: int): U64
  {
    x % 0x1_0000_0000_0000_0000
  }

  /** A register as a two's complement number. */
  function Int64(x: U64): int
  {
    if x < 0x8000_0000_0000_0000 then x else x - MOD64
  }

  /** Its low word as one. */
  function Int32(x: U64): int
  {
    if x % MOD32 < 0x8000_0000 then x % MOD32 else x % MOD32 - MOD32
  }

  predicate Congruent(x: int, y: int, m: int)
    requires m > 0
  {
    (x - y) % m == 0
  }

  /** q is x / d, rounded down. */
  predicate Floor(q: int, x: int, d: int)
  {
    d * q <= x < d * (q + 1)
  }

  /** The register holds the sign extension of its low word. */
  predicate WordIn(v: U64)
  {
    -0x8000_0000 <= Int64(v) < 0x8000_0000
  }

  // ---------- register operations ----------

  /** What ADD, SUB, SLL, SLT, SLTU, XOR, SRL, SRA, OR and AND leave in rd, from a and b. */
  ghost predicate Computes(funct3: bv32, alt: bool, a: U64, b: U64, v: U64)
  {
    if funct3 == 0 then if alt then Congruent(v + b, a, MOD64) else Congruent(v, a + b, MOD64)
    else if funct3 == 1 then Congruent(v, a * Exp2(b % 64), MOD64)
    else if funct3 == 2 then v <= 1 && (v == 1 <==> Int64(a) < Int64(b))
    else if funct3 == 3 then v <= 1 && (v == 1 <==> a < b)
    else if funct3 == 4 then forall k :: 0 <= k < 64 ==> (BitOf(v, k) <==> BitOf(a, k) != BitOf(b, k))
    else if funct3 == 5 then if alt then Floor(Int64(v), Int64(a), Exp2(b % 64)) else Floor(v, a, Exp2(b % 64))
    else if funct3 == 6 then forall k :: 0 <= k < 64 ==> (BitOf(v, k) <==> BitOf(a, k) || BitOf(b, k))
    else forall k :: 0 <= k < 64 ==> (BitOf(v, k) <==> BitOf(a, k) && BitOf(b, k))
  }

  /** ADDW, SUBW, SLLW, SRLW and SRAW: the same on the low word, sign-extended. */
  predicate ComputesWord(funct3: bv32, alt: bool, a: U64, b: U64, v: U64)
  {
    && WordIn(v)
    && if funct3 == 0 then if alt then Congruent(v + b, a, MOD32) else Congruent(v, a + b, MOD32)
       else if funct3 == 1 then Congruent(v, a * Exp2(b % 32), MOD32)
       else if alt then Floor(Int64(v), Int32(a), Exp2(b % 32))
       else Floor(v % MOD32, a % MOD32, Exp2(b % 32))
  }

  /** BEQ, BNE, BLT, BGE, BLTU and BGEU. */
  predicate Compares(funct3: bv32, a: U64, b: U64)
  {
    || (funct3 == 0 && a == b) || (funct3 == 1 && a != b)
    || (funct3 == 4 && Int64(a) < Int64(b)) || (funct3 == 5 && Int64(a) >= Int64(b))
    || (funct3 == 6 && a < b) || (funct3 == 7 && a >= b)
  }

  /** LB to LD sign-extend the n bytes that memory gives, LBU to LWU do not. */
  predicate Extends(funct3: bv32, n: nat, bytes: nat, v: U64)
  {
    && Congruent(v, bytes, Exp2(8 * n))
    && if funct3 >= 4 then v < Exp2(8 * n) else -Exp2(8 * n) <= 2 * Int64(v) < Exp2(8 * n)
  }

  // ---------- instruction words ----------

  /** The number that the low n bits of a word stand for. */
  function Low(w: bv32, n: nat): nat
    decreases w, n
  {
    if n == 0 then 0 else (if w & 1 == 1 then 1 else 0) + 2 * Low(w >> 1, n - 1)
  }

  type RegNo = x: int | 0 <= x < 32

  function RdOf(w: bv32): RegNo { ((w >> 7) & 31) as int }

  function Rs1Of(w: bv32): RegNo { ((w >> 15) & 31) as int }

  function Rs2Of(w: bv32): RegNo { ((w >> 20) & 31) as int }

  function Funct3Of(w: bv32): bv32 { (w >> 12) & 7 }

  /** Bit 30, which tells SUB from ADD and SRA from SRL. */
  predicate AltOf(w: bv32) { (w >> 30) & 1 == 1 }

  /** inst[31] */
  function SignOf(w: bv32): nat
  {
    if w & 0x8000_0000 != 0 then 1 else 0
  }

  /** imm[11:0] in inst[31:20] */
  function IntI(w: bv32): int
  {
    Low(w >> 20, 32) - 0x1000 * SignOf(w)
  }

  /** imm[11:5] in inst[31:25] and imm[4:0] in inst[11:7] */
  function IntS(w: bv32): int
  {
    Low((w >> 20) & 0xFE0, 32) + Low((w >> 7) & 0x1F, 32) - 0x1000 * SignOf(w)
  }

  /** imm[12], imm[11], imm[10:5] and imm[4:1] in inst[31], inst[7], inst[30:25] and inst[11:8] */
  function IntB(w: bv32): int
  {
    Low((w << 4) & 0x800, 32) + Low((w >> 20) & 0x7E0, 32) + Low((w >> 7) & 0x1E, 32) - 0x1000 * SignOf(w)
  }

  /** imm[31:12] in inst[31:12] */
  function IntU(w: bv32): int
  {
    Low(w & 0xFFFF_F000, 32) - MOD32 * SignOf(w)
  }

  /** imm[20], imm[19:12], imm[11] and imm[10:1] in inst[31], inst[19:12], inst[20] and inst[30:21] */
  function IntJ(w: bv32): int
  {
    Low(w & 0xF_F000, 32) + Low((w >> 9) & 0x800, 32) + Low((w >> 20) & 0x7FE, 32) - 0x10_0000 * SignOf(w)
  }

  /** The second operand of OP-IMM and OP-IMM-32: a shift amount in inst[25:20], or the sign-extended immediate. */
  function OperandOf(w: bv32): U64
  {
    if Funct3Of(w) == 1 || Funct3Of(w) == 5 then Low(w >> 20, 6) % 64 else Mod64(IntI(w))
  }

  /** The bytes that a load or store moves. */
  function BytesOf(funct3: bv32): (n: nat)
    ensures n == 1 || n == 2 || n == 4 || n == 8
  {
    if funct3 == 0 || funct3 == 4 then 1 else if funct3 == 1 || funct3 == 5 then 2
    else if funct3 == 2 || funct3 == 6 then 4 else 8
  }
}
