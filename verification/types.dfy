/**
 * Fixed-width integer types shared by the server and the client
 * (server/types.h), plus a small Option type standing in for the
 * nullable pointers the C++ code passes around.
 */
module Types {

  /** 2^32: the modulus of every `unsigned int` / `U32` operation. */
  const U32_LIMIT: int := 0x1_0000_0000

  type U32 = x: int | 0 <= x < 0x1_0000_0000
  type U16 = x: int | 0 <= x < 0x1_0000

  /** A `char` on the compilers the code targets (conio/MSVC) is signed. */
  type SChar = x: int | -128 <= x < 128

  /** `++x` on an unsigned 32-bit counter. */
  function Inc32(x: U32): (r: U32)
    ensures x + 1 < U32_LIMIT ==> r == x + 1
    ensures x + 1 == U32_LIMIT ==> r == 0
  {
    (x + 1) % U32_LIMIT
  }

  /** `--x` on an unsigned 32-bit counter. */
  function Dec32(x: U32): (r: U32)
    ensures 0 < x ==> r == x - 1
    ensures x == 0 ==> r == U32_LIMIT - 1
  {
    (x - 1) % U32_LIMIT
  }

  function Min(a: int, b: int): (m: int)
    ensures m <= a && m <= b
    ensures m == a || m == b
  {
    if a < b then a else b
  }

  /** A pointer that may be NULL. */
  datatype Option<+T> = None | Some(value: T)
}
