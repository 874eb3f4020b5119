/** Optional values and machine integers. */
module Common {
  datatype Option<+T> = None | Some(value: T)

  type U32 = x: nat | x < TWO_32
  type U64 = x: nat | x < TWO_64
  type I32 = x: int | -TWO_31 <= x < TWO_31
  type I64 = x: int | -TWO_63 <= x < TWO_63

  const TWO_31: int := 0x8000_0000
  const TWO_32: int := 0x1_0000_0000
  const TWO_62: int := 0x4000_0000_0000_0000
  const TWO_63: int := 0x8000_0000_0000_0000
  const TWO_64: int := 0x1_0000_0000_0000_0000

  function Pow2(n: nat): (p: nat)
    ensures p >= 1
  {
    if n == 0 then 1 else 2 * Pow2(n - 1)
  }
}
