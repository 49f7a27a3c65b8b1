/** Machine integers and small helper types shared by every component. */
module Base {
  type Byte = x: int | 0 <= x < 0x100
  type U64 = x: int | 0 <= x < 0x1_0000_0000_0000_0000

  const ALL_ONES: U64 := 0xffff_ffff_ffff_ffff

  /** The instruction-address-misaligned exception. */
  const IMISALIGN := 0

  datatype Option<+T> = None | Some(value: T)

  /** The value a uint8_t expression leaves behind. */
  function Wrap8(x: int): Byte
  {
    x % 0x100
  }

  /** The value a uint64_t expression leaves behind. */
  function Wrap(x: int): (r: U64)
    ensures 0 <= x < 0x1_0000_0000_0000_0000 ==> r == x
  {
    x % 0x1_0000_0000_0000_0000
  }

  /** (int32_t)x as an int64_t, by its bits */
  function Sext32(x: int): U64
  {
    var y := x % 0x1_0000_0000;
    if y < 0x8000_0000 then y else y + 0xFFFF_FFFF_0000_0000
  }

  /** x & ~1 */
  function Even(x: U64): (r: U64)
    ensures r % 2 == 0
  {
    x - x % 2
  }

  /** Quotient and remainder are the only pair that fits. */
  lemma DivModIs(v: int, d: int, q: int, r: int)
    requires d > 0 && 0 <= r < d && v == d * q + r
    ensures v / d == q && v % d == r
  {
    var q', r' := v / d, v % d;
    assert d * (q - q') == r' - r;
    assert q - q' >= 1 ==> d * (q - q') >= d;
    assert q - q' <= -1 ==> d * (q - q') <= -d;
  }
}
