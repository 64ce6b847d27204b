/** The fixed-width unsigned integers of the kernel's C structures, held as
    integers in range. Arithmetic that can leave the range is written out
    modulo 2^width, as `uint32_t` arithmetic wraps. */
module Uint {

  /** 2^32. */
  const Modulus32: int := 0x1_0000_0000

  newtype u8 = x: int | 0 <= x < 0x100
  newtype u16 = x: int | 0 <= x < 0x1_0000
  newtype u32 = x: int | 0 <= x < 0x1_0000_0000

  /** `uint32_t` increment: one more, wrapping to zero past the top. */
  function Inc32(a: u32): (r: u32)
    ensures a as int < Modulus32 - 1 ==> r as int == a as int + 1
    ensures a as int == Modulus32 - 1 ==> r == 0
  {
    ((a as int + 1) % Modulus32) as u32
  }

  /** `uint32_t` subtraction `a - b`: the difference modulo 2^32. */
  function Sub32(a: u32, b: u32): (d: u32)
    ensures a >= b ==> d as int == a as int - b as int
    ensures a < b ==> d as int == a as int - b as int + Modulus32
  {
    ((a as int - b as int) % Modulus32) as u32
  }

  // ---------------------------------------------------------------------
  // Integer division facts.

  /** Quotient and remainder are unique: if `x == m * a + c` with
      `0 <= c < m`, then `a` and `c` are the quotient and remainder. */
  lemma DivModUnique(x: int, m: int, a: int, c: int)
    requires m > 0 && 0 <= c < m && x == m * a + c
    ensures x / m == a && x % m == c
  {
    var q := x / m;
    var r := x % m;
    assert x == m * q + r;
    assert m * (a - q) == m * a - m * q;
    assert m * (q - a) == m * q - m * a;
    if a > q {
      MulAtLeast(m, a - q);
    } else if a < q {
      MulAtLeast(m, q - a);
    }
  }

  lemma MulAtLeast(m: int, k: int)
    requires m > 0 && k >= 1
    ensures m * k >= m
  {
  }

  /** Subtracting a multiple of the modulus does not change the residue. */
  lemma ModShift(x: int, k: int)
    ensures (x - Modulus32 * k) % Modulus32 == x % Modulus32
  {
    var q := x / Modulus32;
    var r := x % Modulus32;
    assert x - Modulus32 * k == Modulus32 * (q - k) + r;
    DivModUnique(x - Modulus32 * k, Modulus32, q - k, r);
  }

  /** Adding one after reducing modulo 2^32 is adding one before. */
  lemma AddOneMod(x: int)
    ensures (x % Modulus32 + 1) % Modulus32 == (x + 1) % Modulus32
  {
    var k := x / Modulus32;
    assert x % Modulus32 + 1 == (x + 1) - Modulus32 * k;
    ModShift(x + 1, k);
  }
}
