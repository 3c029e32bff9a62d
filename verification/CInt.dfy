/** The arithmetic of a C int. */
module CInt {

  const INT_MAX := 0x7FFF_FFFF

  /** The number of values of a C int. */
  const WORDS := 0x1_0000_0000

  /** A value as it is stored in a C int. Overflow, which C leaves undefined, is taken to
      wrap around. */
  function ToInt(x: int): (r: int)
    ensures -INT_MAX - 1 <= r <= INT_MAX && (r - x) % WORDS == 0
    ensures -INT_MAX - 1 <= x <= INT_MAX <==> r == x
  {
    (x + 0x8000_0000) % WORDS - 0x8000_0000
  }
}
