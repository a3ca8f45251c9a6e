/** Fixed-width unsigned integers of the C++ sources, with their wrap-around written out. */
module Words {
  const U8_MOD := 0x100
  const U16_MOD := 0x1_0000
  const U32_MOD := 0x1_0000_0000

  type U8 = x: int | 0 <= x < U8_MOD
  type U16 = x: int | 0 <= x < U16_MOD
  type U32 = x: int | 0 <= x < U32_MOD

  /** A 32-bit addition: the sum modulo 2^32. */
  function Add32(a: U32, b: U32): U32 {
    (a + b) % U32_MOD
  }

  lemma Add32Exact(a: U32, b: U32)
    requires a + b < U32_MOD
    ensures Add32(a, b) == a + b
  {
  }

  lemma Add32Next(a: U32, i: nat)
    requires i + 1 < U32_MOD
    ensures Add32(Add32(a, i), 1) == Add32(a, i + 1)
  {
  }

  /** A 32-bit subtraction: a negative difference wraps to the top of the range. */
  function Sub32(a: U32, b: U32): U32 {
    (a - b) % U32_MOD
  }

  /** `zpp_lib::min(uint32_t, uint16_t)`: the second argument is narrowed to 16 bits on the way in. */
  function Min16(a: U32, b: U32): (r: U16)
    ensures r <= a && r <= b
    ensures b < U16_MOD ==> r == if a <= b then a else b
  {
    var narrowed := b % U16_MOD;
    if narrowed < a then narrowed else a
  }

  /** The minimum for a second argument of 16 bits; one that is wider loses at least 2^16. */
  lemma Min16Narrows(a: U32, b: U32)
    ensures Min16(a, b) <= 0xFFFF
    ensures b <= 0xFFFF ==> Min16(a, b) == if a <= b then a else b
    ensures b > 0xFFFF ==> Min16(a, b) <= b - 0x1_0000
  {
  }

  lemma MulLess(m: nat, a: nat, b: nat)
    requires a < b
    ensures m * a + m <= m * b
  {
    MulLe(m, a + 1, b);
  }

  lemma MulLe(m: nat, a: nat, b: nat)
    requires a <= b
    ensures a * m <= b * m
  {
    assert b * m == a * m + (b - a) * m;
  }
}
