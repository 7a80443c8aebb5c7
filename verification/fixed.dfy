/** Unsigned 8-, 16- and 32-bit quantities (times, rates, totals, counts) as
    bounded integers,
    with the wrap-around that ENet's C arithmetic has made explicit. Bit
    patterns (tags, masks, sequence numbers) are bit-vectors instead. */
module Fixed {

  const U32_MODULUS: int := 0x1_0000_0000

  const U16_MODULUS: int := 0x1_0000

  newtype u8 = x: int | 0 <= x < 0x100
  newtype u16 = x: int | 0 <= x < 0x1_0000
  newtype u32 = x: int | 0 <= x < 0x1_0000_0000

  /** `a + b` in 16 bits. */
  function WrappingAdd16(a: u16, b: u16): (r: u16)
    ensures a as int + b as int < U16_MODULUS ==> r as int == a as int + b as int
    ensures a as int + b as int >= U16_MODULUS ==> r as int == a as int + b as int - U16_MODULUS
  {
    ((a as int + b as int) % U16_MODULUS) as u16
  }

  /** 16-bit addition is associative, so a running total does not depend
      on how its terms are grouped. */
  lemma WrappingAdd16Assoc(a: u16, b: u16, c: u16)
    ensures WrappingAdd16(WrappingAdd16(a, b), c) == WrappingAdd16(a, WrappingAdd16(b, c))
  {
  }

  /** `a + b` in 32 bits. */
  function WrappingAdd(a: u32, b: u32): (r: u32)
    ensures a as int + b as int < U32_MODULUS ==> r as int == a as int + b as int
    ensures a as int + b as int >= U32_MODULUS ==> r as int == a as int + b as int - U32_MODULUS
  {
    ((a as int + b as int) % U32_MODULUS) as u32
  }

  /** `2 * a` in 32 bits. */
  function WrappingDouble(a: u32): (r: u32)
    ensures 2 * a as int < U32_MODULUS ==> r as int == 2 * a as int
    ensures 2 * a as int >= U32_MODULUS ==> r as int == 2 * a as int - U32_MODULUS
  {
    ((2 * a as int) % U32_MODULUS) as u32
  }

  /** `a * b` in 32 bits. */
  function WrappingMul(a: u32, b: u32): u32
  {
    ((a as int * b as int) % U32_MODULUS) as u32
  }
}
