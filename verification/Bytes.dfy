/** Machine-level types shared by every module. */
module Bytes {

  /** An unsigned char. */
  type byte = x: int | 0 <= x < 256

  /** An unsigned 16-bit half word. */
  type uint16 = x: int | 0 <= x < 0x1_0000

  /** An unsigned 32-bit word. */
  type uint32 = x: int | 0 <= x < 0x1_0000_0000

  datatype Option<+T> = None | Some(value: T)

  function Pow2(n: nat): (r: nat)
    ensures r >= 1
  {
    if n == 0 then 1 else 2 * Pow2(n - 1)
  }

  lemma Associative<T>(a: seq<T>, b: seq<T>, c: seq<T>)
    ensures a + (b + c) == a + b + c
  {
  }
}
