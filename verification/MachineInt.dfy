/** Go's int64 arithmetic. */
module MachineInt {
  const TWO_63 := 0x8000_0000_0000_0000
  const TWO_64 := 0x1_0000_0000_0000_0000

  predicate InInt64(x: int) {
    -TWO_63 <= x < TWO_63
  }

  type int64 = x: int | -TWO_63 <= x < TWO_63

  /** Two's-complement wrap-around. */
  function Wrap(x: int): (r: int64)
    ensures (x - r) % TWO_64 == 0
  {
    (x + TWO_63) % TWO_64 - TWO_63
  }

  /** The range, and what wrapping leaves: numbers in the range, and every other number modulo 2^64. */
  lemma WrapExact(x: int)
    ensures InInt64(x) <==> -9223372036854775808 <= x <= 9223372036854775807
    ensures -9223372036854775808 <= Wrap(x) <= 9223372036854775807
    ensures (x - Wrap(x)) % 18446744073709551616 == 0
    ensures InInt64(x) ==> Wrap(x) == x
  {
  }
}
