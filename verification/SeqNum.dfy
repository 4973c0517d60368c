/** 32-bit sequence numbers: `uint32_t` addition and subtraction wrap modulo 2^32. */
module SeqNum {
  const MODULUS: int := 0x1_0000_0000

  type U32 = x: int | 0 <= x < 0x1_0000_0000

  function Add32(a: U32, b: U32): U32 {
    if a + b < MODULUS then a + b else a + b - MODULUS
  }

  function Sub32(a: U32, b: U32): U32 {
    if a >= b then a - b else a - b + MODULUS
  }

  /** The two functions above are the machine's arithmetic. */
  lemma WrapIsMod(a: U32, b: U32)
    ensures Add32(a, b) == (a + b) % MODULUS
    ensures Sub32(a, b) == (a - b) % MODULUS
  {
  }

  /** The offset of one number from another depends only on how far apart they are. */
  lemma SubAdd(base: U32, a: U32, b: U32)
    ensures Sub32(Add32(base, a), Add32(base, b)) == Sub32(a, b)
  {
  }

  lemma AddAdd(base: U32, a: U32, b: U32)
    requires a + b < MODULUS
    ensures Add32(Add32(base, a), b) == Add32(base, a + b)
  {
  }

  lemma AddSub(base: U32, a: U32)
    ensures Add32(base, Sub32(a, base)) == a
    ensures Sub32(Add32(base, a), base) == a
  {
  }
}
