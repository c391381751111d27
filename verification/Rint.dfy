/** The fallback `rint`: round to nearest, ties to even, on binary64 values. */
module Rint {
  import opened Bits
  import opened Doubles

  const MAX_EXACT_INTEGER := 0x1F_FFFF_FFFF_FFFF

  /** The value section 5.9 of IEEE 754-2008 asks for, defined without looking at the code. */
  function RoundTiesEven(x: real): int {
    var n := (x + 0.5).Floor;
    if n as real == x + 0.5 && n % 2 == 1 then n - 1 else n
  }

  /** The C conversion of a double to a 64-bit integer: defined only when the result fits. */
  function ToLonglong(x: real): int
    requires -0x8000_0000_0000_0000 as real <= x < 0x8000_0000_0000_0000 as real
  {
    Trunc(x)
  }

  /** The C remainder by 2, which takes the sign of the dividend. */
  function Rem2(n: int): int {
    if n >= 0 then n % 2 else -(-n % 2)
  }

  /** C's `modf`: both parts carry the sign of `x`; the fraction is exact. */
  function Modf(x: real): (parts: (real, real))
    ensures parts.0 + parts.1 == x
    ensures x >= 0.0 ==> 0.0 <= parts.0 < 1.0
    ensures x <= 0.0 ==> -1.0 < parts.0 <= 0.0
  {
    (x - Trunc(x) as real, Trunc(x) as real)
  }

  /**
   `rint(x)`, with every floating-point result passed through `round`. The guards on `i` keep each
   conversion to a 64-bit integer in range.
   */
  method Rint(x: real, round: real -> real) returns (i: real)
    requires IsDouble(x) && Rounding(round)
    ensures i == RoundTiesEven(x) as real && IsDouble(i)
  {
    hide IsDouble;
    PartsAreDoubles(x);
    var f := round(Modf(x).0);
    i := Modf(x).1;
    if x > 0.0 {
      var up := f > 0.5 || (f == 0.5 && i <= MAX_EXACT_INTEGER as real && Rem2(ToLonglong(i)) != 0);
      StepAwayFromZero(x, up);
      i := round(i + if up then 1.0 else 0.0);
    } else {
      var down := f < -0.5 || (f == -0.5 && i >= (-MAX_EXACT_INTEGER) as real && Rem2(ToLonglong(i)) != 0);
      StepAwayFromZero(x, down);
      i := round(i - if down then 1.0 else 0.0);
    }
  }

  /** The rounding rule on the parts `modf` returns. */
  lemma StepAwayFromZero(x: real, step: bool)
    requires step <==> var f := Modf(x).0;
                       f > 0.5 || f < -0.5 || ((f == 0.5 || f == -0.5) && Trunc(x) % 2 != 0)
    ensures RoundTiesEven(x) == Trunc(x) + (if !step then 0 else if x > 0.0 then 1 else -1)
  {
    RoundedUnique(x, Trunc(x) + (if !step then 0 else if x > 0.0 then 1 else -1));
  }

  /** A double with a fractional part is below 2^52, so its parts and their neighbours are doubles. */
  lemma PartsAreDoubles(x: real)
    requires IsDouble(x)
    ensures IsDouble(Modf(x).0) && IsDouble(Modf(x).1)
    ensures Modf(x).0 != 0.0 ==>
              -0x10_0000_0000_0000 < Trunc(x) < 0x10_0000_0000_0000 &&
              IsDouble(Modf(x).1 + 1.0) && IsDouble(Modf(x).1 - 1.0)
  {
    var m: int, e: int :| -TWO_53 < m < TWO_53 && -1074 <= e <= 971 && Scaled(x, m, e);
    if e >= 0 {
      assert Trunc(x) == m * Pow2(e);
      SmallIntegerIsDouble(0);
    } else {
      PartsOfFraction(x, m, e);
    }
  }

  lemma PartsOfFraction(x: real, m: int, e: int)
    requires -TWO_53 < m < TWO_53 && -1074 <= e < 0 && Scaled(x, m, e)
    ensures -0x10_0000_0000_0000 < Trunc(x) < 0x10_0000_0000_0000
    ensures IsDouble(Modf(x).0) && IsDouble(Modf(x).1)
    ensures IsDouble(Modf(x).1 + 1.0) && IsDouble(Modf(x).1 - 1.0)
  {
    hide IsDouble;
    var n := Trunc(x);
    FractionScales(x, m, Pow2(-e));
    FractionIsDouble(Modf(x).0, m - n * Pow2(-e), e);
    SmallIntegerIsDouble(n);
    SmallIntegerIsDouble(n + 1);
    SmallIntegerIsDouble(n - 1);
  }

  lemma FractionIsDouble(f: real, k: int, e: int)
    requires -TWO_53 < k < TWO_53 && -1074 <= e < 0 && f * Pow2(-e) as real == k as real
    ensures IsDouble(f)
  {
    assert Scaled(f, k, e);
  }

  lemma FractionScales(x: real, m: int, p: nat)
    requires p >= 2 && x * p as real == m as real && -TWO_53 < m < TWO_53
    ensures -0x10_0000_0000_0000 < Trunc(x) < 0x10_0000_0000_0000
    ensures -TWO_53 < m - Trunc(x) * p < TWO_53
    ensures Modf(x).0 * p as real == (m - Trunc(x) * p) as real
  {
    var n, f := Trunc(x), Modf(x).0;
    assert n as real * p as real == (n * p) as real;
    assert f * p as real == x * p as real - n as real * p as real;
    if x >= 0.0 {
      ScaledBounds(x, f, p as real);
    } else {
      ScaledBounds(-x, -f, p as real);
    }
  }

  lemma ScaledBounds(x: real, f: real, p: real)
    requires p >= 2.0 && 0.0 <= f <= x
    ensures 2.0 * x <= x * p && 0.0 <= f * p <= x * p
    ensures (-x) * p == -(x * p) && (-f) * p == -(f * p)
  {
    RealMulMonotone(2.0, p, x);
    RealMulMonotone(f, x, p);
    RealMulMonotone(0.0, f, p);
  }

  lemma RealMulMonotone(a: real, b: real, c: real)
    requires a <= b && c >= 0.0
    ensures a * c <= b * c && c * a <= c * b
  {
  }

  /** Nearest integer, even on ties: exactly one integer qualifies. */
  predicate IsRounded(x: real, n: int) {
    -0.5 <= x - n as real <= 0.5 && ((x - n as real == 0.5 || x - n as real == -0.5) ==> n % 2 == 0)
  }

  lemma RoundedUnique(x: real, n: int)
    ensures IsRounded(x, n) <==> n == RoundTiesEven(x)
  {
    var k := RoundTiesEven(x);
    assert IsRounded(x, n) ==> -1.0 <= n as real - k as real <= 1.0;
    assert IsRounded(x, n) ==> -1 <= n - k <= 1;
  }

  /** No integer is nearer. */
  lemma RoundedIsNearest(x: real, m: int)
    ensures Distance(x, RoundTiesEven(x)) <= Distance(x, m)
    ensures Distance(x, RoundTiesEven(x)) == Distance(x, m) && m != RoundTiesEven(x) ==>
              RoundTiesEven(x) % 2 == 0
  {
    RoundedUnique(x, RoundTiesEven(x));
    var n := RoundTiesEven(x);
    if m > n {
      assert m as real - n as real >= 1.0;
    } else if m < n {
      assert n as real - m as real >= 1.0;
    }
  }

  function Distance(x: real, n: int): real {
    if x >= n as real then x - n as real else n as real - x
  }

  lemma RoundedIsOdd(x: real)
    ensures RoundTiesEven(-x) == -RoundTiesEven(x)
  {
    RoundedUnique(x, RoundTiesEven(x));
    assert IsRounded(-x, -RoundTiesEven(x));
    RoundedUnique(-x, -RoundTiesEven(x));
  }

  lemma RoundedIsMonotone(x: real, y: real)
    requires x <= y
    ensures RoundTiesEven(x) <= RoundTiesEven(y)
  {
    RoundedUnique(x, RoundTiesEven(x));
    RoundedUnique(y, RoundTiesEven(y));
    assert RoundTiesEven(x) as real - RoundTiesEven(y) as real <= 1.0;
  }

  lemma RoundedIsIdempotent(x: real)
    ensures RoundTiesEven(RoundTiesEven(x) as real) == RoundTiesEven(x)
  {
    RoundedUnique(RoundTiesEven(x) as real, RoundTiesEven(x));
  }
}
