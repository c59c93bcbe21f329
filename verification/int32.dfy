/** Kotlin's 32-bit `Int` and its wrapping decrement. */
module Int32 {
  const MIN: int := -0x8000_0000
  const MAX: int := 0x7fff_ffff

  /** A Kotlin `Int`. */
  newtype i32 = x: int | MIN <= x <= MAX

  /** Kotlin `x - 1` on `Int`: wraps `Int.MIN_VALUE` round to `Int.MAX_VALUE`. */
  function Dec(x: i32): (r: i32)
    ensures x as int > MIN ==> r as int == x as int - 1
    ensures x as int == MIN ==> r as int == MAX
  {
    if x == MIN as i32 then MAX as i32 else x - 1
  }
}
