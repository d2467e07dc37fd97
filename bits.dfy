/** Unsigned 32-bit words, and the bitwise operations the hash function uses,
    written out on their integer values. */
module Bits {

  const WORD_LIMIT: int := 0x1_0000_0000

  /** A Go `uint32`. */
  newtype u32 = x: int | 0 <= x < WORD_LIMIT

  /** Bitwise AND of two naturals (Go's `&` on unsigned values). Masking never
      yields more than the mask. */
  function BitAnd(x: nat, y: nat): (r: nat)
    ensures r <= x && r <= y
    decreases x
  {
    if x == 0 || y == 0 then 0
    else 2 * BitAnd(x / 2, y / 2) + (if x % 2 == 1 && y % 2 == 1 then 1 else 0)
  }

  /** Bitwise exclusive OR of two naturals (Go's `^` on unsigned values). */
  function BitXor(x: nat, y: nat): nat
    decreases x + y
  {
    if x == 0 then y
    else if y == 0 then x
    else 2 * BitXor(x / 2, y / 2) + (if x % 2 != y % 2 then 1 else 0)
  }

  /** Go's `a + b` on `uint32`: addition modulo 2^32. */
  function WrapAdd(a: u32, b: u32): (r: u32)
    ensures a as int + b as int < WORD_LIMIT ==> r as int == a as int + b as int
    ensures a as int + b as int >= WORD_LIMIT ==> r as int == a as int + b as int - WORD_LIMIT
  {
    ((a as int + b as int) % WORD_LIMIT) as u32
  }
}
