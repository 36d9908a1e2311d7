/** Machine words as numbers. */
module Words {
  const TWO32 := 0x1_0000_0000
  const TWO64 := 0x1_0000_0000_0000_0000

  /** A sum of 64-bit words as a 64-bit word. */
  function Wrap(x: nat): (w: nat)
    ensures w < TWO64 && (x < TWO64 ==> w == x) && (TWO64 <= x < 2 * TWO64 ==> w == x - TWO64)
  {
    x % TWO64
  }
}
