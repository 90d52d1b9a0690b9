/** The C# integer types the mod uses, with their ranges written out. */
module Numbers {

  const Int32Min: int := -0x8000_0000
  const Int32Max: int := 0x7FFF_FFFF
  const TwoTo32: int := 0x1_0000_0000

  /** C# `int`. */
  type Int32 = x: int | Int32Min <= x <= Int32Max

  /** C# `ulong`, the type of Netcode client ids. */
  type ClientId = x: int | 0 <= x < 0x1_0000_0000_0000_0000

  /** The value C# gives to an `int` expression evaluated in an unchecked
      context: the mathematical value reduced modulo 2^32 into the Int32 range. */
  function Wrap32(x: int): (r: Int32)
    ensures (r - x) % TwoTo32 == 0
    ensures Int32Min <= x <= Int32Max ==> r == x
  {
    (x - Int32Min) % TwoTo32 + Int32Min
  }
}
