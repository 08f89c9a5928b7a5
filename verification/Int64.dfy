// Go's 64-bit integers: time.Duration arithmetic wraps around, time.Time.Sub saturates.
module Int64 {
  const MAX := 9_223_372_036_854_775_807
  const MIN := -9_223_372_036_854_775_808

  function Wrap(x: int): int {
    (x + 9_223_372_036_854_775_808) % 18_446_744_073_709_551_616 - 9_223_372_036_854_775_808
  }

  function SaturatingSub(a: int, b: int): int {
    if a - b > MAX then MAX else if a - b < MIN then MIN else a - b
  }

  // Wrapping gives the 64-bit number that differs by a multiple of 2^64, and no other.
  lemma WrapExactly(x: int, k: int)
    ensures -9_223_372_036_854_775_808 <= Wrap(x) <= 9_223_372_036_854_775_807
    ensures -9_223_372_036_854_775_808 <= x <= 9_223_372_036_854_775_807 ==> Wrap(x) == x
    ensures Wrap(x + k * 18_446_744_073_709_551_616) == Wrap(x)
  {
  }

  // Saturating gives the 64-bit number nearest to the difference.
  lemma SaturatesExactly(a: int, b: int, m: int)
    requires -9_223_372_036_854_775_808 <= m <= 9_223_372_036_854_775_807
    ensures -9_223_372_036_854_775_808 <= SaturatingSub(a, b) <= 9_223_372_036_854_775_807
    ensures m <= a - b ==> m <= SaturatingSub(a, b) <= a - b
    ensures a - b <= m ==> a - b <= SaturatingSub(a, b) <= m
  {
  }
}
