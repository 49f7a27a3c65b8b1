/** Bits of integers: powers of two, single bits, and the bitwise operations of the machine's registers. */
module BitOps {
  import opened Base

  function Exp2(k: nat): (p: int)
    ensures p > 0
    decreases k
  {
    if k == 0 then 1 else 2 * Exp2(k - 1)
  }

  predicate BitOf(x: U64, k: nat)
  {
    x / Exp2(k) % 2 == 1
  }

  lemma {:induction false} ExpSum(j: nat, k: nat)
    ensures Exp2(j) * Exp2(k) == Exp2(j + k)
    decreases j
  {
    if j > 0 {
      ExpSum(j - 1, k);
      assert 2 * Exp2(j - 1) * Exp2(k) == 2 * (Exp2(j - 1) * Exp2(k));
    }
  }

  lemma {:induction false} ExpGrows(j: nat, k: nat)
    requires j <= k
    ensures Exp2(j) <= Exp2(k)
    decreases k
  {
    if j < k {
      ExpGrows(j, k - 1);
    }
  }

  lemma BigPowers()
    ensures Exp2(8) == 0x100 && Exp2(16) == 0x1_0000 && Exp2(32) == 0x1_0000_0000
    ensures Exp2(61) == 0x2000_0000_0000_0000 && Exp2(62) == 0x4000_0000_0000_0000
    ensures Exp2(63) == 0x8000_0000_0000_0000 && Exp2(64) == 0x1_0000_0000_0000_0000
  {
    assert Exp2(8) == 0x100 && Exp2(16) == 0x1_0000 && Exp2(24) == 0x100_0000 && Exp2(32) == 0x1_0000_0000;
    assert Exp2(40) == 0x100_0000_0000 && Exp2(48) == 0x1_0000_0000_0000 && Exp2(56) == 0x100_0000_0000_0000;
  }

  datatype Bitwise = And | Or | Xor

  function Bit(op: Bitwise, x: bool, y: bool): nat
  {
    if (match op case And => x && y case Or => x || y case Xor => x != y) then 1 else 0
  }

  /** The low n bits of a bitwise operation. */
  function Bits(op: Bitwise, a: nat, b: nat, n: nat): nat
  {
    if n == 0 then 0 else Bit(op, a % 2 == 1, b % 2 == 1) + 2 * Bits(op, a / 2, b / 2, n - 1)
  }

  /** Bit k above the lowest is bit k - 1 of the half. */
  lemma BitAbove(x: U64, k: nat)
    requires k > 0
    ensures BitOf(x, k) == BitOf(x / 2, k - 1)
  {
    var p, h := Exp2(k - 1), x / 2;
    assert x == 2 * h + x % 2;
    assert h == p * (h / p) + h % p;
    Halved(h, p, x % 2);
  }

  lemma Halved(h: nat, p: int, r: int)
    requires p > 0 && 0 <= r < 2
    ensures (2 * h + r) / (2 * p) == h / p
  {
    var q, s := h / p, h % p;
    assert h == p * q + s;
    assert 2 * h + r == (2 * p) * q + (2 * s + r);
    DivModIs(2 * h + r, 2 * p, q, 2 * s + r);
  }

  lemma {:induction false} BitsBound(op: Bitwise, a: nat, b: nat, n: nat)
    ensures Bits(op, a, b, n) < Exp2(n)
    decreases n
  {
    if n > 0 {
      BitsBound(op, a / 2, b / 2, n - 1);
    }
  }

  predicate Joined(op: Bitwise, x: bool, y: bool)
  {
    match op case And => x && y case Or => x || y case Xor => x != y
  }

  lemma {:induction false} BitsAt(op: Bitwise, a: U64, b: U64, n: nat, k: nat)
    requires k < n && Bits(op, a, b, n) < 0x1_0000_0000_0000_0000
    ensures BitOf(Bits(op, a, b, n), k) == Joined(op, BitOf(a, k), BitOf(b, k))
    decreases n
  {
    var rest := Bits(op, a / 2, b / 2, n - 1);
    assert Bits(op, a, b, n) / 2 == rest;
    if k == 0 {
      assert Exp2(0) == 1;
    } else {
      BitsAt(op, a / 2, b / 2, n - 1, k - 1);
      BitAbove(Bits(op, a, b, n), k);
      BitAbove(a, k);
      BitAbove(b, k);
    }
  }

  lemma WordOfBits(op: Bitwise, a: U64, b: U64)
    ensures var v := Wrap(Bits(op, a, b, 64));
            forall k :: 0 <= k < 64 ==> (BitOf(v, k) <==> Joined(op, BitOf(a, k), BitOf(b, k)))
  {
    BitsBound(op, a, b, 64);
    BigPowers();
    var v := Bits(op, a, b, 64);
    forall k | 0 <= k < 64
      ensures BitOf(v, k) <==> Joined(op, BitOf(a, k), BitOf(b, k))
    {
      BitsAt(op, a, b, 64, k);
    }
  }

  /** The complement of a 64-bit number. */
  function Not(x: U64): U64
  {
    0xFFFF_FFFF_FFFF_FFFF - x
  }

  lemma {:induction false} NotAt(x: nat, n: nat, k: nat)
    requires x < Exp2(n) && k < n
    ensures Exp2(n) - 1 - x >= 0 && ((Exp2(n) - 1 - x) / Exp2(k) % 2 == 1) == !(x / Exp2(k) % 2 == 1)
    decreases n
  {
    var y := Exp2(n) - 1 - x;
    assert y / 2 == Exp2(n - 1) - 1 - x / 2 && y % 2 == 1 - x % 2;
    if k > 0 {
      NotAt(x / 2, n - 1, k - 1);
      Halved(x / 2, Exp2(k - 1), x % 2);
      Halved(y / 2, Exp2(k - 1), y % 2);
    }
  }

  lemma NotBits(x: U64, k: nat)
    requires k < 64
    ensures BitOf(Not(x), k) == !BitOf(x, k)
  {
    BigPowers();
    NotAt(x, 64, k);
  }
}
