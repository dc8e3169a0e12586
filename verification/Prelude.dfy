/** Vocabulary shared by the models: bytes, optional values and the outcome of
    an operation that may fail. */
module Prelude {

  /** A Go byte.  Bit operations on bytes and sizes are written as / and % by
      powers of two. */
  type byte = x: int | 0 <= x < 256

  type bytes = seq<byte>

  datatype Option<+T> = None | Some(value: T)

  datatype Result<+T, +E> = Ok(value: T) | Err(error: E)

  /** The largest value of a Go int on a 64-bit platform; no slice is longer. */
  const MAX_INT := 0x7FFF_FFFF_FFFF_FFFF

  /** The two's complement reading of the low 64 bits of an integer. */
  function ToInt64(x: int): (r: int)
    ensures 0 <= x <= MAX_INT ==> r == x
  {
    var low := x % 0x1_0000_0000_0000_0000;
    if low <= MAX_INT then low else low - 0x1_0000_0000_0000_0000
  }

  function Pow2(n: nat): (p: nat)
    ensures p > 0
  {
    if n == 0 then 1 else 2 * Pow2(n - 1)
  }
}
