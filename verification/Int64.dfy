/** 64-bit two's-complement integers, kept as unbounded ones that are wrapped where the code's would be. */
module Int64 {
  const TWO_62 := 0x4000_0000_0000_0000
  const TWO_63 := 0x8000_0000_0000_0000
  const TWO_64 := 0x1_0000_0000_0000_0000
  const MAX_INT := TWO_63 - 1
  const MIN_INT := -TWO_63

  /** The value after wrap-around. */
  function Wrap(x: int): (r: int)
    ensures MIN_INT <= r <= MAX_INT
    ensures MIN_INT <= x <= MAX_INT ==> r == x
    ensures MAX_INT < x <= MAX_INT + TWO_64 ==> r == x - TWO_64
  {
    (x + TWO_63) % TWO_64 - TWO_63
  }
}
