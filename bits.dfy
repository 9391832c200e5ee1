/**
 * Fixed-width unsigned integers and the bit operations the hex codec uses,
 * written out over unbounded integers: `u8` and `u64` as subset types,
 * `a | b` as a bitwise OR on naturals, and Rust's `wrapping_shl` as a
 * multiplication reduced modulo the width.
 */
module Bits {

  const U8_MODULUS: int := 0x100
  const U64_MODULUS: int := 0x1_0000_0000_0000_0000

  /** Rust `u8`. */
  type Byte = x: int | 0 <= x < U8_MODULUS

  /** Rust `u64`. */
  type U64 = x: int | 0 <= x < U64_MODULUS

  function Pow2(n: nat): (r: nat)
    ensures r >= 1
  {
    if n == 0 then 1 else 2 * Pow2(n - 1)
  }

  /**
   * Bitwise OR of two naturals, one bit at a time from the lowest. It has
   * every bit of either operand, and no more than their sum.
   */
  function Or(a: nat, b: nat): (r: nat)
    ensures a <= r && b <= r && r <= a + b
    decreases a + b
  {
    if a == 0 then b
    else if b == 0 then a
    else 2 * Or(a / 2, b / 2) + (if a % 2 == 1 || b % 2 == 1 then 1 else 0)
  }

  /**
   * OR-ing a value below 2^w into a multiple of 2^w sets disjoint bits,
   * so it is the same as adding it.
   */
  lemma {:induction false} OrShifted(hi: nat, lo: nat, w: nat)
    requires lo < Pow2(w)
    ensures Or(hi * Pow2(w), lo) == hi * Pow2(w) + lo
  {
    if w == 0 {
      assert lo == 0;
    } else if hi == 0 || lo == 0 {
    } else {
      var p := Pow2(w - 1);
      assert Pow2(w) == 2 * p;
      assert hi * Pow2(w) == 2 * (hi * p);
      assert (hi * Pow2(w)) % 2 == 0 && (hi * Pow2(w)) / 2 == hi * p;
      assert lo / 2 < p;
      OrShifted(hi, lo / 2, w - 1);
    }
  }

  /** `x.wrapping_shl(4)` on a `u8`: the high nibble is shifted out. */
  function U8Shl4(x: Byte): (r: Byte)
    ensures r == (x % 16) * 16
  {
    DivUnique(x * 16, U8_MODULUS, x / 16, (x % 16) * 16);
    (x * 16) % U8_MODULUS
  }

  /** `x.wrapping_shl(4)` on a `u64`: the top nibble is shifted out. */
  function U64Shl4(x: U64): (r: U64)
    ensures r == (x % 0x1000_0000_0000_0000) * 16
  {
    DivUnique(x * 16, U64_MODULUS, x / 0x1000_0000_0000_0000, (x % 0x1000_0000_0000_0000) * 16);
    (x * 16) % U64_MODULUS
  }

  /** `x.wrapping_shl(8)` on a `u64`: the top byte is shifted out. */
  function U64Shl8(x: U64): (r: U64)
    ensures r == (x % 0x100_0000_0000_0000) * 256
  {
    DivUnique(x * 256, U64_MODULUS, x / 0x100_0000_0000_0000, (x % 0x100_0000_0000_0000) * 256);
    (x * 256) % U64_MODULUS
  }

  lemma Pow2Facts()
    ensures Pow2(4) == 16 && Pow2(8) == 256
  {
    assert Pow2(2) == 4;
    assert Pow2(4) == 16;
    assert Pow2(6) == 64;
  }

  /** Division by `m` has exactly one quotient and remainder. */
  lemma DivUnique(x: int, m: int, q: int, r: int)
    requires m > 0 && 0 <= r < m && x == q * m + r
    ensures x / m == q && x % m == r
  {
    var q', r' := x / m, x % m;
    assert x == q' * m + r';
    assert (q - q') * m == r' - r;
    if q' < q {
      MulAtLeast(q - q', m);
    } else if q' > q {
      MulAtLeast(q' - q, m);
    }
  }

  lemma MulAtLeast(a: int, m: int)
    requires a >= 1 && m > 0
    ensures a * m >= m
  {
  }

  /** `(x << 4) | v` on a `u8` keeps the low nibble of `x` as the high one. */
  lemma ShiftOrNibble(x: Byte, v: nat)
    requires v < 16
    ensures Or(U8Shl4(x), v) == 16 * (x % 16) + v
  {
    Pow2Facts();
    OrShifted(x % 16, v, 4);
  }

  /** `(n << 8) | x` on a `u64` is `256 n + x` reduced to 64 bits. */
  lemma ShiftOrByte(n: U64, x: Byte)
    ensures Or(U64Shl8(n), x) == (256 * n + x) % U64_MODULUS
  {
    var hi, lo := n / 0x100_0000_0000_0000, n % 0x100_0000_0000_0000;
    Pow2Facts();
    OrShifted(lo, x, 8);
    assert 256 * n + x == hi * U64_MODULUS + (256 * lo + x);
    DivUnique(256 * n + x, U64_MODULUS, hi, 256 * lo + x);
  }
}
