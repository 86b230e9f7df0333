/** Fixed-width machine integers used by the engine: `unsigned char`,
    `unsigned int` and `int`, with the conversions and the wrap-around
    arithmetic that C++ applies to them. */
module Ints {

  const U8_MODULUS: int := 0x100
  const U32_MODULUS: int := 0x1_0000_0000

  newtype u8 = x: int | 0 <= x < 0x100
  newtype u32 = x: int | 0 <= x < 0x1_0000_0000
  newtype i32 = x: int | -0x8000_0000 <= x < 0x8000_0000

  /** `static_cast<unsigned char>(x)`: keeps the low 8 bits. */
  function TruncateToByte(x: u32): (r: u8)
    ensures (x as int - r as int) % U8_MODULUS == 0
    ensures x < 0x100 ==> r as int == x as int
  {
    (x % 0x100) as u8
  }

  /** Unsigned addition modulo 2^32 (`a += b` on `unsigned int`). */
  function AddWrap(a: u32, b: u32): (r: u32)
    ensures (a as int + b as int - r as int) % U32_MODULUS == 0
    ensures a as int + b as int < U32_MODULUS ==> r as int == a as int + b as int
  {
    ((a as int + b as int) % U32_MODULUS) as u32
  }

  /** Unsigned subtraction modulo 2^32 (`a - b` on `unsigned int`). */
  function SubWrap(a: u32, b: u32): (r: u32)
    ensures (a as int - b as int - r as int) % U32_MODULUS == 0
    ensures b <= a ==> r as int == a as int - b as int
  {
    ((a as int - b as int) % U32_MODULUS) as u32
  }

  /** Unsigned multiplication modulo 2^32 (`a * b` on `unsigned int`). */
  function MulWrap(a: u32, b: u32): (r: u32)
    ensures (a as int * b as int - r as int) % U32_MODULUS == 0
    ensures a as int * b as int < U32_MODULUS ==> r as int == a as int * b as int
  {
    ((a as int * b as int) % U32_MODULUS) as u32
  }

  /** The conversion of an `int` to `unsigned int` (two's complement reinterpretation). */
  function SignedToUnsigned(x: i32): (r: u32)
    ensures (x as int - r as int) % U32_MODULUS == 0
    ensures x >= 0 ==> r as int == x as int
  {
    if x >= 0 then x as int as u32 else (x as int + U32_MODULUS) as u32
  }

  /** The conversion of an `unsigned int` to `int` (two's complement reinterpretation). */
  function UnsignedToSigned(x: u32): (r: i32)
    ensures (x as int - r as int) % U32_MODULUS == 0
    ensures x < 0x8000_0000 ==> r as int == x as int
  {
    if x < 0x8000_0000 then x as int as i32 else (x as int - U32_MODULUS) as i32
  }

  /** Unary minus on an `unsigned int`: `-n` is `2^32 - n` modulo 2^32. */
  function NegateUnsigned(x: u32): (r: u32)
    ensures (x as int + r as int) % U32_MODULUS == 0
  {
    ((U32_MODULUS - x as int) % U32_MODULUS) as u32
  }

  /** The two reinterpretations are inverse to each other. */
  lemma SignedUnsignedRoundTrip(x: i32)
    ensures UnsignedToSigned(SignedToUnsigned(x)) == x
  {
  }

  /** `-n` for `1 <= n <= 2^31`, reinterpreted as `int`, is the negative number `-n`;
      for a larger `n` it is positive. */
  lemma NegatedAsSigned(n: u32)
    ensures n <= 0x8000_0000 ==> UnsignedToSigned(NegateUnsigned(n)) as int == - (n as int)
    ensures n > 0x8000_0000 ==> UnsignedToSigned(NegateUnsigned(n)) as int == U32_MODULUS - n as int
  {
  }
}
