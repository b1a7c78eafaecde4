/** Fixed-width machine words of the C++ code, written out over Dafny's unbounded integers. */
module Words {

  const TWO_8: int := 0x100
  const TWO_31: int := 0x8000_0000
  const TWO_32: int := 0x1_0000_0000
  const TWO_64: int := 0x1_0000_0000_0000_0000

  type Uint32 = x: int | 0 <= x < TWO_32
  type Uint64 = x: int | 0 <= x < TWO_64
  type Int32 = x: int | -TWO_31 <= x < TWO_31
  type Byte = x: int | 0 <= x < 256

  /** `a + b` on uint32_t, wrapping around. */
  function Add32(a: Uint32, b: Uint32): Uint32 {
    (a + b) % TWO_32
  }

  /** `a - b` on uint32_t, wrapping around. */
  function Sub32(a: Uint32, b: Uint32): Uint32 {
    (a - b) % TWO_32
  }

  /** The conversion of an unsigned value to a 32-bit `int`: keep the low 32 bits, two's complement. */
  function ToInt32(n: nat): Int32 {
    var w := n % TWO_32;
    if w < TWO_31 then w else w - TWO_32
  }

  /** The conversion of a 32-bit `int` to uint32_t. */
  function ToUint32(n: Int32): Uint32 {
    if n < 0 then n + TWO_32 else n
  }

  /** Both conversions and both operations are exact up to a multiple of 2^32, which fixes them within their ranges. */
  lemma {:induction false} ExactUpToWrapping(n: nat, m: Int32, a: Uint32, b: Uint32)
    ensures -0x8000_0000 <= ToInt32(n) < 0x8000_0000 && exists k :: n - ToInt32(n) == k * 0x1_0000_0000
    ensures 0 <= ToUint32(m) < 0x1_0000_0000 && ToUint32(m) - m in {0, 0x1_0000_0000}
    ensures Add32(a, b) - (a + b) in {0, -0x1_0000_0000} && Sub32(a, b) - (a - b) in {0, 0x1_0000_0000}
  {
    var q := n / TWO_32;
    assert n - ToInt32(n) == (if n % TWO_32 < TWO_31 then q else q + 1) * 0x1_0000_0000;
  }
}
