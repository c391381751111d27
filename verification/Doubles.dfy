/** Binary64 values as reals, and what the verification needs to know about rounded arithmetic. */
module Doubles {
  import opened Bits

  const TWO_53 := 0x20_0000_0000_0000

  /** `x` is `m` times two to the power `e`. */
  predicate Scaled(x: real, m: int, e: int) {
    if e >= 0 then x == (m * Pow2(e)) as real else x * Pow2(-e) as real == m as real
  }

  /** `x` is a finite binary64 value (section 3.4 of IEEE 754-2008). */
  ghost predicate IsDouble(x: real) {
    exists m: int, e: int :: -TWO_53 < m < TWO_53 && -1074 <= e <= 971 && Scaled(x, m, e)
  }

  /**
   A result-rounding rule of the floating-point unit: it keeps every representable result, as section
   4.3 of IEEE 754-2008 demands of all rounding directions, and it is monotone.
   */
  ghost predicate Rounding(round: real -> real) {
    (forall x: real :: IsDouble(x) ==> round(x) == x) &&
    (forall x: real, y: real :: x <= y ==> round(x) <= round(y))
  }

  /** Truncation toward zero. */
  function Trunc(x: real): int {
    if x >= 0.0 then x.Floor else -((-x).Floor)
  }

  lemma SmallIntegerIsDouble(n: int)
    requires -TWO_53 < n < TWO_53
    ensures IsDouble(n as real)
  {
    assert Scaled(n as real, n, 0);
  }

  /** A multiple of 2^e by a 53-bit significand. */
  lemma ScaledIsDouble(m: int, e: nat)
    requires -TWO_53 < m < TWO_53 && e <= 971
    ensures IsDouble((m * Pow2(e)) as real)
  {
    assert Scaled((m * Pow2(e)) as real, m, e);
  }
}
