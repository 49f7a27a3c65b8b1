/**
 Physical memory: main_mem is a byte array that starts at 0x8000'0000. Every other byte
 (boot ROM, devices, past the end) reads as an arbitrary but fixed value and ignores writes.
 A multi-byte access is little-endian, as on the host the emulator is built for, and belongs as a whole to
 the memory its first byte lies in.
 */
module PhysMem {
  import opened Base

  const RAM_BASE := 0x8000_0000

  datatype Phys = Phys(ram: seq<Byte>, outside: int -> Byte)

  function InRam(m: Phys, a: int): bool
  {
    RAM_BASE <= a < RAM_BASE + |m.ram|
  }

  function ByteAt(m: Phys, a: int): Byte
  {
    if InRam(m, a) then m.ram[a - RAM_BASE] else m.outside(a)
  }

  function SetByte(m: Phys, a: int, b: Byte): (r: Phys)
    ensures |r.ram| == |m.ram|
  {
    if InRam(m, a) then m.(ram := m.ram[a - RAM_BASE := b]) else m
  }

  /** The n little-endian bytes from a on. */
  function Bytes(m: Phys, a: int, n: nat): (v: int)
    ensures 0 <= v
    decreases n, a
  {
    if n == 0 then 0 else ByteAt(m, a) + 256 * Bytes(m, a + 1, n - 1)
  }

  function PutBytes(m: Phys, a: int, n: nat, v: nat): (r: Phys)
    ensures |r.ram| == |m.ram|
    decreases n, a
  {
    if n == 0 then m else PutBytes(SetByte(m, a, v % 256), a + 1, n - 1, v / 256)
  }

  /** The first address decides between main_mem and the devices, for all bytes of the access. */
  function Seen(m: Phys, a: int): Phys
  {
    if a < RAM_BASE then m.(ram := []) else m
  }

  /** phy_mem_fetch: the n-byte value at a. */
  function Get(m: Phys, a: int, n: nat): (v: int)
    ensures 0 <= v
  {
    Bytes(Seen(m, a), a, n)
  }

  /** phy_mem_store: memory after the low n bytes of v have been written at a. */
  function Put(m: Phys, a: int, n: nat, v: nat): (r: Phys)
    ensures |r.ram| == |m.ram|
  {
    if a < RAM_BASE then m else PutBytes(m, a, n, v)
  }

  function Pow256(n: nat): (r: int)
    ensures r > 0
  {
    if n == 0 then 1 else 256 * Pow256(n - 1)
  }

  lemma {:induction false} BytesBound(m: Phys, a: int, n: nat)
    ensures Bytes(m, a, n) < Pow256(n)
    decreases n
  {
    if n > 0 {
      BytesBound(m, a + 1, n - 1);
    }
  }

  lemma GetBounds(m: Phys, a: int, n: nat)
    ensures Get(m, a, n) < Pow256(n)
  {
    BytesBound(Seen(m, a), a, n);
  }

  lemma {:induction false} PowMonotone(m: nat, n: nat)
    requires m <= n
    ensures Pow256(m) <= Pow256(n)
  {
    if m < n {
      PowMonotone(m, n - 1);
    }
  }

  /** A write leaves every byte outside [a, a+n) alone, and the devices. */
  lemma {:induction false} PutBytesFrame(m: Phys, a: int, n: nat, v: nat)
    ensures var m' := PutBytes(m, a, n, v);
            m'.outside == m.outside && forall b :: b < a || a + n <= b ==> ByteAt(m', b) == ByteAt(m, b)
    decreases n
  {
    if n > 0 {
      var m1 := SetByte(m, a, v % 256);
      PutBytesFrame(m1, a + 1, n - 1, v / 256);
      assert forall b :: b != a ==> ByteAt(m1, b) == ByteAt(m, b);
    }
  }

  lemma {:induction false} BytesSame(m: Phys, m': Phys, a: int, n: nat)
    requires forall b :: a <= b < a + n ==> ByteAt(m', b) == ByteAt(m, b)
    ensures Bytes(m', a, n) == Bytes(m, a, n)
    decreases n
  {
    if n > 0 {
      BytesSame(m, m', a + 1, n - 1);
    }
  }

  /** Loads that do not overlap a store do not see it. */
  lemma GetPutDisjoint(m: Phys, a: int, n: nat, v: nat, b: int, k: nat)
    requires b + k <= a || a + n <= b
    ensures Get(Put(m, a, n, v), b, k) == Get(m, b, k)
  {
    if a >= RAM_BASE {
      PutBytesFrame(m, a, n, v);
      BytesSame(Seen(m, b), Seen(Put(m, a, n, v), b), b, k);
    }
  }

  lemma {:induction false} BytesPutSame(m: Phys, a: int, n: nat, v: nat)
    requires n > 0 ==> InRam(m, a) && InRam(m, a + n - 1)
    ensures Bytes(PutBytes(m, a, n, v), a, n) == v % Pow256(n)
    decreases n
  {
    if n > 0 {
      var m1 := SetByte(m, a, v % 256);
      BytesPutSame(m1, a + 1, n - 1, v / 256);
      PutBytesFrame(m1, a + 1, n - 1, v / 256);
      ModStep(v, Pow256(n - 1));
    }
  }

  /** A load of what was just stored returns it, truncated to the width of the store. */
  lemma GetPutSame(m: Phys, a: int, n: nat, v: nat)
    requires n > 0 && InRam(m, a) && InRam(m, a + n - 1)
    ensures Get(Put(m, a, n, v), a, n) == v % Pow256(n)
  {
    BytesPutSame(m, a, n, v);
  }

  lemma ModStep(v: nat, p: int)
    requires p > 0
    ensures v % (256 * p) == v % 256 + 256 * ((v / 256) % p)
  {
    var q, r := v / 256 / p, (v / 256) % p;
    assert v / 256 == p * q + r;
    assert v == 256 * (p * q + r) + v % 256;
    assert 256 * (p * q) == (256 * p) * q;
    DivModIs(v, 256 * p, q, 256 * r + v % 256);
  }

  lemma LowByte(b: Byte, rest: nat)
    ensures (b + 256 * rest) % 256 == b && (b + 256 * rest) / 256 == rest
  {
  }

  lemma {:induction false} PutBytesBack(m: Phys, a: int, n: nat)
    ensures PutBytes(m, a, n, Bytes(m, a, n)) == m
    decreases n
  {
    if n > 0 {
      var b := ByteAt(m, a);
      var rest := Bytes(m, a + 1, n - 1);
      LowByte(b, rest);
      assert SetByte(m, a, b) == m;
      PutBytesBack(m, a + 1, n - 1);
      assert PutBytes(m, a, n, b + 256 * rest) == PutBytes(m, a + 1, n - 1, rest);
    }
  }

  /** Writing back what is there changes nothing. */
  lemma PutGetSame(m: Phys, a: int, n: nat)
    ensures Put(m, a, n, Get(m, a, n)) == m
  {
    PutBytesBack(m, a, n);
  }

  /** A store that keeps everything above the low byte is a store of that byte. */
  lemma PutLowByte(m: Phys, a: int, n: nat, v: nat)
    requires n > 0 && v / 256 == Get(m, a, n) / 256
    ensures Put(m, a, n, v) == SetByte(m, a, v % 256)
  {
    if a >= RAM_BASE {
      var m1 := SetByte(m, a, v % 256);
      LowByte(ByteAt(m, a), Bytes(m, a + 1, n - 1));
      BytesSame(m, m1, a + 1, n - 1);
      PutBytesBack(m1, a + 1, n - 1);
    }
  }

  // ---------- single bytes ----------

  /** Byte k of an access at a: main_mem if the access starts there and the byte is in it. */
  function Peek(m: Phys, a: int, k: nat): Byte
  {
    if a >= 0x8000_0000 && a + k < 0x8000_0000 + |m.ram| then m.ram[a + k - 0x8000_0000] else m.outside(a + k)
  }

  /** What an access reads, byte by byte, the lowest first. */
  lemma ReadsBytes(m: Phys, a: int)
    ensures Get(m, a, 1) == Peek(m, a, 0)
    ensures Get(m, a, 2) == Peek(m, a, 0) + 0x100 * Peek(m, a, 1)
    ensures Get(m, a, 4)
            == Peek(m, a, 0) + 0x100 * Peek(m, a, 1) + 0x1_0000 * Peek(m, a, 2) + 0x100_0000 * Peek(m, a, 3)
    ensures Get(m, a, 8) == Get(m, a, 4) + 0x1_0000_0000 * Upper(m, a)
  {
    var s := Seen(m, a);
    forall k: nat
      ensures ByteAt(s, a + k) == Peek(m, a, k)
    {
    }
    BytesFour(s, a);
    BytesFour(s, a + 4);
    BytesEight(s, a);
  }

  function Upper(m: Phys, a: int): nat
  {
    Peek(m, a, 4) + 0x100 * Peek(m, a, 5) + 0x1_0000 * Peek(m, a, 6) + 0x100_0000 * Peek(m, a, 7)
  }

  lemma BytesFour(m: Phys, a: int)
    ensures Bytes(m, a, 1) == ByteAt(m, a) && Bytes(m, a, 2) == ByteAt(m, a) + 0x100 * ByteAt(m, a + 1)
    ensures Bytes(m, a, 4) == ByteAt(m, a) + 0x100 * ByteAt(m, a + 1) + 0x1_0000 * ByteAt(m, a + 2)
                              + 0x100_0000 * ByteAt(m, a + 3)
  {
    assert Bytes(m, a + 4, 0) == 0 && Bytes(m, a + 1, 0) == 0 && Bytes(m, a + 2, 0) == 0;
    assert Bytes(m, a + 3, 1) == ByteAt(m, a + 3) && Bytes(m, a + 1, 1) == ByteAt(m, a + 1);
    assert Bytes(m, a + 2, 2) == ByteAt(m, a + 2) + 256 * Bytes(m, a + 3, 1);
    assert Bytes(m, a + 1, 3) == ByteAt(m, a + 1) + 256 * Bytes(m, a + 2, 2);
  }

  lemma BytesEight(m: Phys, a: int)
    ensures Bytes(m, a, 8) == Bytes(m, a, 4) + 0x1_0000_0000 * Bytes(m, a + 4, 4)
  {
    BytesFour(m, a);
    assert Bytes(m, a, 8) == ByteAt(m, a) + 256 * Bytes(m, a + 1, 7);
    assert Bytes(m, a + 1, 7) == ByteAt(m, a + 1) + 256 * Bytes(m, a + 2, 6);
    assert Bytes(m, a + 2, 6) == ByteAt(m, a + 2) + 256 * Bytes(m, a + 3, 5);
    assert Bytes(m, a + 3, 5) == ByteAt(m, a + 3) + 256 * Bytes(m, a + 4, 4);
  }

  lemma {:induction false} WritesBytes(m: Phys, a: int, n: nat, v: nat, k: nat)
    requires k < n && InRam(m, a) && InRam(m, a + k)
    ensures PutBytes(m, a, n, v).ram[a + k - 0x8000_0000] == v / Pow256(k) % 256
    decreases n
  {
    var m1 := SetByte(m, a, v % 256);
    if k == 0 {
      PutBytesFrame(m1, a + 1, n - 1, v / 256);
      assert ByteAt(PutBytes(m, a, n, v), a) == ByteAt(m1, a) == v % 256;
    } else {
      WritesBytes(m1, a + 1, n - 1, v / 256, k - 1);
      QuotientTwice(v, Pow256(k - 1));
    }
  }

  lemma QuotientTwice(v: nat, p: int)
    requires p > 0
    ensures v / 256 / p == v / (256 * p)
  {
    ModStep(v, p);
    var q, r := v / 256 / p, v / 256 % p;
    assert v / 256 == p * q + r;
    assert 256 * (p * q) == (256 * p) * q;
    DivModIs(v, 256 * p, q, 256 * r + v % 256);
  }

  /** What an access writes: byte k of main_mem gets its part of the value, or stays as it was. */
  lemma StoresBytes(m: Phys, a: int, n: nat, v: nat, k: nat)
    requires k < |m.ram|
    ensures var i := k + 0x8000_0000 - a;
            Put(m, a, n, v).ram[k] == if a >= 0x8000_0000 && 0 <= i < n then v / Pow256(i) % 256 else m.ram[k]
    ensures Put(m, a, n, v).outside == m.outside
  {
    if a >= RAM_BASE {
      var i := k + RAM_BASE - a;
      PutBytesFrame(m, a, n, v);
      if 0 <= i < n {
        WritesBytes(m, a, n, v, i);
      } else {
        assert ByteAt(Put(m, a, n, v), k + RAM_BASE) == ByteAt(m, k + RAM_BASE);
      }
    }
  }
}
