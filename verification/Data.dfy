/** Value types shared by the models. */
module Data {

  type byte = b: int | 0 <= b < 0x100
  type Bytes = seq<byte>
  type u64 = n: int | 0 <= n < 0x1_0000_0000_0000_0000

  datatype Option<+T> = None | Some(value: T)

  function Max(x: int, y: int): int {
    if x < y then y else x
  }

  function Min(x: int, y: int): int {
    if x < y then x else y
  }

  /** What an index into a list means, with nothing clamped: a negative one counts from the end. */
  function Resolve(index: int, len: nat): int {
    if index < 0 then len + index else index
  }

  /** 2 to the power k. */
  function Pow2(k: nat): (p: nat)
    ensures p > 0
  {
    if k == 0 then 1 else 2 * Pow2(k - 1)
  }
}
