/**
 Conversion between unsigned 64-bit integers and doubles on compilers that only convert signed ones:
 both functions split at 2^63. Doubles that hold integers are modelled as those integers, rounded to
 53 significant bits, ties to even.
 */
module UlonglongDouble {
  import opened Bits
  import opened Doubles

  /** The spacing of doubles around `n`: the least power of two with `n < 2^53 * ulp`. */
  function Ulp(n: nat): (g: nat)
    ensures g > 0 && n < TWO_53 * g
  {
    if n < TWO_53 then 1 else 2 * Ulp(n / 2)
  }

  /** `n` to the nearest multiple of `g`, ties to the even multiple. */
  function RoundTo(n: nat, g: nat): nat
    requires g > 0
  {
    var q, r := n / g, n % g;
    if 2 * r < g || (2 * r == g && q % 2 == 0) then g * q else g * (q + 1)
  }

  /** The correctly rounded conversion of an integer to a double. */
  function ToDouble(n: nat): nat {
    RoundTo(n, Ulp(n))
  }

  /** `n` is exactly a double. */
  predicate Representable(n: nat) {
    n % Ulp(n) == 0
  }

  function Abs(x: int): nat {
    if x < 0 then -x else x
  }

  // The grid

  /** The spacing is a power of two, and no smaller power would do. */
  lemma {:induction false} UlpPower(n: nat) returns (j: nat)
    ensures Ulp(n) == Pow2(j) && n < TWO_53 * Pow2(j)
    ensures j > 0 ==> n >= TWO_53 * Pow2(j - 1)
    decreases n
  {
    if n < TWO_53 {
      j := 0;
    } else {
      var i := UlpPower(n / 2);
      j := i + 1;
    }
  }

  lemma UlpInRange(n: nat)
    ensures n < TWO_53 ==> Ulp(n) == 1
    ensures TWO_53 <= n < TWO_63 ==> exists j: nat :: 1 <= j <= 10 && Ulp(n) == Pow2(j)
    ensures TWO_63 <= n < TWO_64 ==> Ulp(n) == 2048
    ensures n == TWO_64 ==> Ulp(n) == 4096
  {
    var j := UlpPower(n);
    assert Pow2(10) == 1024 by { Pow2Sum(5, 5); }
    assert Pow2(11) == 2048 && Pow2(12) == 4096;
    if j > 0 {
      if j <= 10 { Pow2Monotone(j, 10); } else { Pow2Monotone(10, j - 1); }
      if j <= 11 { Pow2Monotone(j, 11); } else { Pow2Monotone(11, j - 1); }
      if j > 12 { Pow2Monotone(12, j - 1); }
    }
  }

  /** A multiple of the grid is the rounded value exactly when it is within half a step, ties to even. */
  lemma RoundToHits(n: nat, g: nat, t: nat)
    requires g > 0
    ensures RoundTo(n, g) == g * t <==>
              2 * Abs(n - g * t) < g || (2 * Abs(n - g * t) == g && t % 2 == 0)
  {
    var q, r := n / g, n % g;
    assert n == g * q + r;
    assert g * (q + 1) == g * q + g;
    assert g * (t - q) == g * t - g * q;
    MulAtLeast(g, t - q);
    MulAtLeast(g, t - q - 1);
    assert g * (t - q - 1) == g * (t - q) - g;
  }

  lemma RoundToMultiple(n: nat, g: nat)
    requires g > 0
    ensures exists t: nat :: RoundTo(n, g) == g * t
    ensures 2 * Abs(n - RoundTo(n, g)) <= g
  {
    var q := n / g;
    assert n == g * q + n % g;
    assert g * (q + 1) == g * q + g;
    assert RoundTo(n, g) == g * q || RoundTo(n, g) == g * (q + 1);
  }

  /** No multiple of the grid is nearer, and rounding never passes one. */
  lemma RoundToNearest(n: nat, g: nat, t: nat)
    requires g > 0
    ensures Abs(n - RoundTo(n, g)) <= Abs(n - g * t)
    ensures n <= g * t ==> RoundTo(n, g) <= g * t
    ensures n >= g * t ==> RoundTo(n, g) >= g * t
  {
    RoundToMultiple(n, g);
    var u: nat :| RoundTo(n, g) == g * u;
    assert g * (u - t) == g * u - g * t;
    MulAtLeast(g, u - t);
  }

  // What representable means, and that `ToDouble` is correct rounding

  predicate HasSignificand(n: nat, m: nat, k: nat) {
    m < TWO_53 && n == m * Pow2(k)
  }

  /** Representable integers are exactly those with a 53-bit significand. */
  lemma RepresentableMeaning(n: nat)
    ensures Representable(n) <==> exists m: nat, k: nat :: HasSignificand(n, m, k)
  {
    var j := UlpPower(n);
    if Representable(n) {
      var m := n / Pow2(j);
      assert n == Pow2(j) * m;
      SmallQuotient(m, Pow2(j), TWO_53);
      assert HasSignificand(n, m, j);
    }
    if m: nat, k: nat :| HasSignificand(n, m, k) {
      MultipleMod(Pow2(k), m);
      LessTimes(m, TWO_53, Pow2(k));
      if j > k {
        Pow2Monotone(k, j - 1);
      }
      Divides(n, j, k);
    }
  }

  lemma SmallQuotient(m: nat, g: nat, bound: nat)
    requires g * m < bound * g
    ensures m < bound
  {
    assert g * (m - bound) == g * m - g * bound;
    MulAtLeast(g, m - bound);
  }

  lemma LessTimes(m: nat, bound: nat, g: nat)
    requires m < bound && g > 0
    ensures m * g < bound * g
  {
  }

  /** Above the lower end of the binade of `n`, every representable number lies on the grid of `n`. */
  lemma OnGrid(n: nat, d: nat, j: nat)
    requires Ulp(n) == Pow2(j) && Representable(d) && (j > 0 ==> d >= TWO_53 * Pow2(j - 1))
    ensures d % Pow2(j) == 0
  {
    var i := UlpPower(d);
    if i < j {
      Pow2Monotone(i, j - 1);
    }
    Divides(d, j, i);
  }

  /** The last of the 53 digits of a double is zero. */
  predicate EvenSignificand(d: nat) {
    d % (2 * Ulp(d)) == 0
  }

  /** Below the lower end of the binade of `n`, that end is nearer. */
  lemma BelowBinade(n: nat, d: nat, j: nat)
    requires Ulp(n) == Pow2(j) && j > 0 && d < TWO_53 * Pow2(j - 1) <= n
    ensures Abs(n - ToDouble(n)) < Abs(n - d)
  {
    assert Pow2(j) * 0x10_0000_0000_0000 == TWO_53 * Pow2(j - 1);
    RoundToNearest(n, Pow2(j), 0x10_0000_0000_0000);
  }

  /** No double is nearer than `ToDouble`, which is one (`ToDoubleRepresentable`); ties go to even. */
  lemma ToDoubleIsNearest(n: nat, d: nat)
    requires Representable(d)
    ensures Abs(n - ToDouble(n)) <= Abs(n - d)
    ensures Abs(n - ToDouble(n)) == Abs(n - d) && d != ToDouble(n) ==>
              EvenSignificand(ToDouble(n)) && !EvenSignificand(d)
  {
    hide ToDouble, EvenSignificand, Representable;
    var j := UlpPower(n);
    if j > 0 && d < TWO_53 * Pow2(j - 1) {
      BelowBinade(n, d, j);
    } else {
      NearestOnGrid(n, d, j);
    }
  }

  lemma NearestOnGrid(n: nat, d: nat, j: nat)
    requires Ulp(n) == Pow2(j) && n < TWO_53 * Pow2(j) && (j > 0 ==> n >= TWO_53 * Pow2(j - 1))
    requires Representable(d) && (j > 0 ==> d >= TWO_53 * Pow2(j - 1))
    ensures Abs(n - ToDouble(n)) <= Abs(n - d)
    ensures Abs(n - ToDouble(n)) == Abs(n - d) && d != ToDouble(n) ==>
              EvenSignificand(ToDouble(n)) && !EvenSignificand(d)
  {
    hide EvenSignificand, Pow2, Representable, RoundTo, Ulp;
    var g := Pow2(j);
    OnGrid(n, d, j);
    var t := d / g;
    assert d == g * t;
    RoundToNearest(n, g, t);
    if Abs(n - ToDouble(n)) == Abs(n - d) && d != ToDouble(n) {
      TieGoesToEven(n, d, j, t);
    }
  }

  lemma TieGoesToEven(n: nat, d: nat, j: nat, t: nat)
    requires Ulp(n) == Pow2(j) && n < TWO_53 * Pow2(j) && (j > 0 ==> n >= TWO_53 * Pow2(j - 1))
    requires d == Pow2(j) * t && (j > 0 ==> d >= TWO_53 * Pow2(j - 1))
    requires d != ToDouble(n) && Abs(n - ToDouble(n)) == Abs(n - d)
    ensures EvenSignificand(ToDouble(n)) && !EvenSignificand(d)
  {
    hide EvenSignificand, Pow2, RoundTo, Ulp, Abs;
    var q := TiedMultiples(n, Pow2(j), t);
    BinadeOfRounded(n, j);
    EvenMultiple(ToDouble(n), j, q);
    TiedInBinade(n, Pow2(j), q, t);
    EvenMultiple(d, j, t);
  }

  /** A multiple as near as the rounded one does not leave the binade upwards either. */
  lemma TiedInBinade(n: nat, g: nat, q: nat, t: nat)
    requires n < TWO_53 * g && g * q <= TWO_53 * g && Abs(n - g * q) == Abs(n - g * t)
    requires q % 2 == 0 && (t == q + 1 || t == q - 1)
    ensures g * t <= TWO_53 * g
  {
    SmallQuotient(q, g, TWO_53 + 1);
    assert g * (q + 1) == g * q + g;
    assert q == TWO_53 ==> t == q - 1;
    MulMonotone(g, t, TWO_53);
  }

  /** Two multiples as near as each other are neighbours, and rounding took the even one. */
  lemma TiedMultiples(n: nat, g: nat, t: nat) returns (q: nat)
    requires g > 0 && RoundTo(n, g) != g * t && Abs(n - RoundTo(n, g)) == Abs(n - g * t)
    ensures RoundTo(n, g) == g * q && q % 2 == 0 && (t == q + 1 || t == q - 1)
  {
    hide RoundTo;
    RoundToMultiple(n, g);
    q :| RoundTo(n, g) == g * q;
    RoundToHits(n, g, q);
    assert g * (q - t) == g * q - g * t;
    AtMostOneApart(g, q - t);
  }

  lemma AtMostOneApart(g: int, d: int)
    requires g > 0 && -g <= g * d <= g
    ensures d == 0 || (d == 1 && g * d == g) || (d == -1 && g * d == -g)
  {
    MulAtLeast(g, d - 1);
    MulAtLeast(g, d + 1);
    assert g * (d - 1) == g * d - g && g * (d + 1) == g * d + g;
  }

  /** Rounding does not leave the binade downwards. */
  lemma BinadeOfRounded(n: nat, j: nat)
    requires Ulp(n) == Pow2(j) && (j > 0 ==> n >= TWO_53 * Pow2(j - 1))
    ensures j > 0 ==> ToDouble(n) >= TWO_53 * Pow2(j - 1)
    ensures ToDouble(n) <= TWO_53 * Pow2(j)
  {
    RoundToNearest(n, Pow2(j), TWO_53);
    assert TWO_53 * Pow2(j) == Pow2(j) * TWO_53;
    if j > 0 {
      assert Pow2(j) * 0x10_0000_0000_0000 == TWO_53 * Pow2(j - 1);
      RoundToNearest(n, Pow2(j), 0x10_0000_0000_0000);
    }
  }

  /** From the lower end of a binade up to its upper end, even significands are even multiples. */
  lemma EvenMultiple(d: nat, j: nat, t: nat)
    requires d == Pow2(j) * t && d <= TWO_53 * Pow2(j) && (j > 0 ==> d >= TWO_53 * Pow2(j - 1))
    ensures EvenSignificand(d) <==> t % 2 == 0
  {
    var g := Pow2(j);
    var i := UlpPower(d);
    if d < TWO_53 * g {
      SamePower(d, i, j);
      ParityOfMultiple(d, g, t);
    } else {
      SamePower(d, i, j + 1);
      SmallQuotientEquals(t, g);
      MultipleMod(4 * g, 0x8_0000_0000_0000);
    }
  }

  lemma SmallQuotientEquals(t: nat, g: nat)
    requires g > 0 && g * t == TWO_53 * g
    ensures t == TWO_53
  {
    assert g * (t - TWO_53) == g * t - TWO_53 * g;
    MulAtLeast(g, t - TWO_53);
  }

  lemma ParityOfMultiple(d: nat, g: nat, t: nat)
    requires g > 0 && d == g * t
    ensures d % (2 * g) == 0 <==> t % 2 == 0
  {
    var h, b := t / 2, t % 2;
    Double(g, h);
    MulAssoc(2, g, h);
    assert g * (2 * h + b) == g * (2 * h) + g * b;
    ModUnique(d, 2 * g, h, g * b);
  }

  /** Only one power of two is the spacing. */
  lemma SamePower(d: nat, i: nat, j: nat)
    requires d < TWO_53 * Pow2(i) && (i > 0 ==> d >= TWO_53 * Pow2(i - 1))
    requires d < TWO_53 * Pow2(j) && (j > 0 ==> d >= TWO_53 * Pow2(j - 1))
    ensures i == j
  {
    if i < j {
      Pow2Monotone(i, j - 1);
    } else if j < i {
      Pow2Monotone(j, i - 1);
    }
  }

  /** `d` is the double nearest to `n`, with an even significand if another one is as near. */
  ghost predicate NearestTiesEven(n: nat, d: nat) {
    Representable(d) &&
    forall e: nat | Representable(e) && e != d ::
      Abs(n - d) < Abs(n - e) || (Abs(n - d) == Abs(n - e) && EvenSignificand(d))
  }

  /** Exactly one double is nearest with ties to even, and `ToDouble` finds it. */
  lemma ToDoubleUnique(n: nat, d: nat)
    ensures NearestTiesEven(n, d) <==> d == ToDouble(n)
  {
    hide ToDouble, EvenSignificand, Representable;
    ToDoubleRepresentable(n);
    if d == ToDouble(n) {
      forall e: nat | Representable(e) && e != d
        ensures Abs(n - d) < Abs(n - e) || (Abs(n - d) == Abs(n - e) && EvenSignificand(d))
      {
        ToDoubleIsNearest(n, e);
      }
    } else if Representable(d) {
      ToDoubleIsNearest(n, d);
    }
  }

  lemma ToDoubleRepresentable(n: nat)
    ensures Representable(ToDouble(n))
  {
    var j := UlpPower(n);
    var g, r := Pow2(j), ToDouble(n);
    RoundToMultiple(n, g);
    RoundToNearest(n, g, TWO_53);
    var t: nat :| r == g * t;
    assert g * TWO_53 == TWO_53 * g;
    if r < TWO_53 * g {
      SmallQuotient(t, g, TWO_53);
      assert HasSignificand(r, t, j);
    } else {
      assert HasSignificand(r, 0x10_0000_0000_0000, j + 1);
    }
    RepresentableMeaning(r);
  }

  lemma ToDoubleFixes(n: nat)
    ensures ToDouble(n) == n <==> Representable(n)
  {
    ToDoubleRepresentable(n);
    if Representable(n) {
      ToDoubleIsNearest(n, n);
    }
  }

  // The code

  /** `ulonglong2double` where there is no native conversion: the sum of two roundings. */
  function Ulonglong2double(value: nat): (d: nat)
    requires value < TWO_64
    ensures d <= TWO_64 && Representable(d)
    ensures d == value <==> Representable(value)
  {
    var nr := if value < TWO_63 then value else value - TWO_64;
    ToDoubleFixes(value);
    if nr >= 0 then
      ConversionBounded(nr);
      ToDoubleRepresentable(nr);
      ToDouble(nr)
    else
      ConversionBounded(-nr);
      ConversionBounded(TWO_64 - ToDouble(-nr));
      ToDoubleRepresentable(TWO_64 - ToDouble(-nr));
      ComplementIsExact(value);
      ToDouble(TWO_64 - ToDouble(-nr))
  }

  /** The intermediate value of a representable argument from 2^63 on is representable too. */
  lemma ComplementIsExact(v: nat)
    requires TWO_63 <= v < TWO_64
    ensures Representable(v) ==> Representable(TWO_64 - v) && ToDouble(TWO_64 - v) == TWO_64 - v
  {
    if Representable(v) {
      UlpInRange(v);
      var m := 0x20_0000_0000_0000 - v / 2048;
      assert TWO_64 - v == m * 2048;
      assert Pow2(11) == 2048;
      if m < TWO_53 {
        assert HasSignificand(TWO_64 - v, m, 11);
      }
      RepresentableMeaning(TWO_64 - v);
      ToDoubleFixes(TWO_64 - v);
    }
  }

  lemma ConversionBounded(n: nat)
    ensures n <= TWO_63 ==> ToDouble(n) <= TWO_63
    ensures n <= TWO_64 ==> ToDouble(n) <= TWO_64
  {
    PowerIsRepresentable(63);
    PowerIsRepresentable(64);
    if n <= TWO_63 {
      BelowRepresentable(n, TWO_63);
    } else if n <= TWO_64 {
      BelowRepresentable(n, TWO_64);
    }
  }

  lemma PowerIsRepresentable(k: nat)
    ensures Representable(Pow2(k))
    ensures Pow2(63) == TWO_63 && Pow2(64) == TWO_64
  {
    assert HasSignificand(Pow2(k), 1, k);
    RepresentableMeaning(Pow2(k));
    Pow2Values();
    Pow2Sum(24, 24);
    Pow2Sum(48, 8);
    Pow2Sum(56, 7);
  }

  /** Rounding does not pass a representable number. */
  lemma BelowRepresentable(n: nat, d: nat)
    requires n <= d && Representable(d)
    ensures ToDouble(n) <= d
  {
    var j := UlpPower(n);
    var g := Pow2(j);
    OnGrid(n, d, j);
    assert d == g * (d / g);
    RoundToNearest(n, g, d / g);
  }

  /** The C conversion of a double to an unsigned 64-bit integer: defined only when the result fits. */
  function ToUlonglong(x: real): nat
    requires -1.0 < x < TWO_64 as real
  {
    Trunc(x)
  }

  /** The arguments for which the conversions inside `double2ulonglong` are defined. */
  predicate Convertible(d: real) {
    -1.0 < d < (TWO_64 + TWO_63) as real
  }

  /** `double2ulonglong`; `round` is the rounding of the subtraction, which never shows in the result. */
  function Double2ulonglong(d: real, round: real -> real): (r: nat)
    requires Convertible(d) && IsDouble(d) && Rounding(round)
    ensures r == Trunc(d) % TWO_64
  {
    SubtractionDecides(d, round);
    TruncOfDifference(d);
    var t := round(d - TWO_63 as real);
    if t >= 0.0 then (ToUlonglong(t) + TWO_63) % TWO_64 else ToUlonglong(d)
  }

  /** The subtraction is exact from 2^63 on, and below it the rounded difference stays negative. */
  lemma SubtractionDecides(d: real, round: real -> real)
    requires Convertible(d) && IsDouble(d) && Rounding(round)
    ensures d >= TWO_63 as real ==> round(d - TWO_63 as real) == d - TWO_63 as real
    ensures d < TWO_63 as real ==> round(d - TWO_63 as real) < 0.0
  {
    if d >= 0.0 {
      LargeDoubles(d);
    }
    if d >= TWO_63 as real {
      HalfIsDouble(d);
    } else {
      SmallIntegerIsDouble(-1);
      assert d - TWO_63 as real <= -1.0;
    }
  }

  /** Truncating the difference and adding 2^63 back is truncating, modulo 2^64. */
  lemma TruncOfDifference(d: real)
    requires Convertible(d) && IsDouble(d)
    ensures d >= TWO_63 as real ==> (Trunc(d - TWO_63 as real) + TWO_63) % TWO_64 == Trunc(d) % TWO_64
    ensures d < TWO_63 as real ==> 0 <= Trunc(d) == Trunc(d) % TWO_64
  {
    hide IsDouble;
    if d >= TWO_63 as real {
      LargeDoubles(d);
    }
  }

  /** From 2^53 on doubles are integers, and from 2^63 on they are multiples of 2048. */
  lemma LargeDoubles(d: real)
    requires IsDouble(d) && 0.0 <= d
    ensures d >= TWO_53 as real ==> d == d.Floor as real
    ensures d >= TWO_63 as real ==> d.Floor % 2048 == 0
  {
    var m: int, e: int :| -TWO_53 < m < TWO_53 && -1074 <= e <= 971 && Scaled(d, m, e);
    if e < 0 {
      RealTimes(d, Pow2(-e) as real);
    } else if d >= TWO_63 as real {
      LargeScaled(m, e);
    }
  }

  lemma LargeScaled(m: int, e: nat)
    requires m < TWO_53 && m * Pow2(e) >= TWO_63
    ensures m * Pow2(e) % 2048 == 0
  {
    var p := Pow2(e);
    assert Pow2(10) == 1024 && Pow2(11) == 2048 by { Pow2Sum(5, 5); }
    if e <= 10 {
      Pow2Monotone(e, 10);
      SignificandBound(m, p);
    }
    if m < 0 {
      MulMonotone(-m, 0, p);
    }
    MultipleMod(p, m);
    Divides(m * p, 11, e);
  }

  lemma RealTimes(x: real, p: real)
    requires x >= 0.0 && p >= 1.0
    ensures x * p >= x
  {
  }

  lemma SignificandBound(m: int, p: nat)
    requires m < TWO_53 && 1 <= p <= 1024
    ensures m * p < TWO_63
  {
    if m > 0 {
      MulMonotone(m, p, 1024);
    }
  }

  lemma MulMonotone(m: nat, p: nat, q: nat)
    requires p <= q
    ensures m * p <= m * q
  {
  }

  lemma HalfIsDouble(d: real)
    requires TWO_63 as real <= d && Convertible(d) && d == d.Floor as real && d.Floor % 2048 == 0
    ensures IsDouble(d - TWO_63 as real)
  {
    assert Pow2(11) == 2048;
    var c := d.Floor / 2048 - 0x10_0000_0000_0000;
    assert d - TWO_63 as real == (c * 2048) as real;
    ScaledIsDouble(c, 11);
  }

  lemma Significand(n: nat) returns (m: nat, k: nat)
    requires Representable(n) && n <= TWO_64
    ensures HasSignificand(n, m, k) && k <= 64
  {
    k := UlpPower(n);
    UlpAtMost(n, k);
    var g := Pow2(k);
    m := n / g;
    assert n % g == 0 && n == g * m;
    SmallQuotient(m, g, TWO_53);
  }

  lemma UlpAtMost(n: nat, k: nat)
    requires n <= TWO_64 && (k > 0 ==> n >= TWO_53 * Pow2(k - 1))
    ensures k <= 64
  {
    PowerIsRepresentable(64);
    if k > 64 {
      Pow2Monotone(64, k - 1);
    }
  }

  /** Representable integers are exactly those that are binary64 values. */
  lemma RepresentableIsDouble(n: nat)
    requires n <= TWO_64
    ensures IsDouble(n as real) <==> Representable(n)
  {
    if Representable(n) {
      var m, k := Significand(n);
      ScaledIsDouble(m, k);
    }
    if IsDouble(n as real) {
      var m: int, e: int :| -TWO_53 < m < TWO_53 && -1074 <= e <= 971 && Scaled(n as real, m, e);
      DoubleHasSignificand(n, m, e);
      RepresentableMeaning(n);
    }
  }

  lemma DoubleHasSignificand(n: nat, m: int, e: int)
    requires -TWO_53 < m < TWO_53 && Scaled(n as real, m, e)
    ensures exists m: nat, k: nat :: HasSignificand(n, m, k)
  {
    if e < 0 {
      RealTimes(n as real, Pow2(-e) as real);
      assert HasSignificand(n, n, 0);
    } else {
      NonNegativeFactor(m, Pow2(e));
      assert HasSignificand(n, m, e);
    }
  }

  lemma NonNegativeFactor(m: int, p: nat)
    requires p > 0 && m * p >= 0
    ensures m >= 0
  {
  }

  // Main results

  /** Every intermediate value of both conversions of a representable integer is a double. */
  lemma IntermediatesAreExact(v: nat)
    requires v < TWO_64 && Representable(v)
    ensures v < TWO_63 ==> Ulonglong2double(v) == ToDouble(v) == v
    ensures v >= TWO_63 ==> Representable(TWO_64 - v) && ToDouble(TWO_64 - v) == TWO_64 - v
    ensures Ulonglong2double(v) == v
  {
    hide ToDouble, Representable;
    ToDoubleFixes(v);
    if v >= TWO_63 {
      ComplementIsExact(v);
    }
  }

  /** The round trip returns the argument exactly when it is representable. */
  lemma RoundTrip(v: nat, round: real -> real)
    requires v < TWO_64 && Rounding(round)
    ensures IsDouble(Ulonglong2double(v) as real)
    ensures Double2ulonglong(Ulonglong2double(v) as real, round) == v <==> Representable(v)
  {
    hide Trunc, Ulonglong2double, Double2ulonglong, Representable, IsDouble, Rounding;
    var d := Ulonglong2double(v);
    RepresentableIsDouble(d);
    TruncOfInteger(d);
    if d != v && v == 0 {
      ZeroIsRepresentable();
    }
  }

  lemma ZeroIsRepresentable()
    ensures Representable(0)
  {
  }

  lemma TruncOfInteger(d: nat)
    requires d <= TWO_64
    ensures Trunc(d as real) % TWO_64 == if d == TWO_64 then 0 else d
  {
  }

  /** The top 1024 values round up to 2^64, which comes back as 0. */
  lemma CollapsesToZero(v: nat, round: real -> real)
    requires v < TWO_64 && Rounding(round)
    ensures IsDouble(Ulonglong2double(v) as real)
    ensures Double2ulonglong(Ulonglong2double(v) as real, round) == 0 <==> v == 0 || v >= TWO_64 - 1024
  {
    hide Trunc, Ulonglong2double, Double2ulonglong, IsDouble, Rounding;
    RoundTrip(v, round);
    TruncOfInteger(Ulonglong2double(v));
    EndsOfRange(v);
  }

  lemma EndsOfRange(v: nat)
    requires v < TWO_64
    ensures Ulonglong2double(v) == 0 <==> v == 0
    ensures Ulonglong2double(v) == TWO_64 <==> v >= TWO_64 - 1024
  {
    hide ToDouble, Ulp, Representable;
    if v < TWO_63 {
      ConversionBounded(v);
      SmallestRepresentable(v);
    } else {
      ConversionBounded(TWO_64 - v);
      TopOfRange(TWO_64 - ToDouble(TWO_64 - v));
      NearZero(TWO_64 - v);
    }
  }

  /** Small numbers stay as they are and larger ones stay large. */
  lemma NearZero(a: nat)
    ensures ToDouble(a) <= 1024 <==> a <= 1024
  {
    if a < TWO_53 {
      assert Representable(a);
      ToDoubleFixes(a);
    } else {
      ToDoubleAtLeast(a, TWO_53);
    }
  }

  lemma SmallestRepresentable(v: nat)
    ensures ToDouble(v) == 0 <==> v == 0
  {
    if v >= 1 {
      ToDoubleAtLeast(v, 1);
    }
  }

  lemma ToDoubleAtLeast(n: nat, d: nat)
    requires d <= n && (d == 1 || d == TWO_53)
    ensures ToDouble(n) >= d
  {
    var j := UlpPower(n);
    assert Pow2(53) == TWO_53 by { Pow2Values(); Pow2Sum(24, 24); Pow2Sum(48, 5); }
    assert HasSignificand(1, 1, 0);
    PowerIsRepresentable(53);
    PowerIsRepresentable(0);
    if j == 0 {
      OnGrid(n, d, 0);
      RoundToNearest(n, 1, d);
    } else {
      RoundToNearest(n, Pow2(j), 0x10_0000_0000_0000);
      assert Pow2(j) * 0x10_0000_0000_0000 == TWO_53 * Pow2(j - 1);
    }
  }

  lemma TopOfRange(n: nat)
    requires TWO_63 <= n <= TWO_64
    ensures ToDouble(n) == TWO_64 <==> n >= TWO_64 - 1024
    ensures ToDouble(n) > 0
  {
    UlpInRange(n);
    if n < TWO_64 {
      RoundToHits(n, 2048, TWO_53);
      RoundToNearest(n, 2048, 1);
    } else {
      PowerIsRepresentable(64);
      ToDoubleFixes(n);
    }
  }

  /**
   The case in which the two roundings go wrong. The first one, at the spacing of `2^64 - v`, lands on
   the midpoint between two doubles although `v` is not that midpoint; the second then takes the even
   neighbour, which is the one `v` is not nearest to.
   */
  predicate RoundsTwice(v: nat) {
    TWO_63 <= v < TWO_64 &&
    var g, offset := Ulp(TWO_64 - v), Abs(v % 2048 - 1024);
    offset != 0 && (2 * offset < g || (2 * offset == g && g < 1024)) &&
    (v % 2048 < 1024 <==> v / 2048 % 2 == 1)
  }

  /** The first rounding, to spacing at most 1024, never passes a multiple of 1024. */
  lemma NeverPasses(a: nat, k: nat)
    requires a < TWO_63
    ensures a <= 1024 * k ==> ToDouble(a) <= 1024 * k
    ensures a >= 1024 * k ==> ToDouble(a) >= 1024 * k
  {
    var c := GridDividesMidpoint(a);
    MultipleOnGrid(Ulp(a), c, k);
    RoundToNearest(a, Ulp(a), c * k);
  }

  /** It reaches an odd multiple of 1024 only from close by. */
  lemma ReachesMidpoint(a: nat, k: nat)
    requires a < TWO_63 && k % 2 == 1
    ensures ToDouble(a) == 1024 * k <==>
              2 * Abs(a - 1024 * k) < Ulp(a) || (2 * Abs(a - 1024 * k) == Ulp(a) && Ulp(a) < 1024)
  {
    var c := GridDividesMidpoint(a);
    MultipleOnGrid(Ulp(a), c, k);
    RoundToHits(a, Ulp(a), c * k);
  }

  /** Below 2^63 the spacing divides 1024; the quotient is odd only when it is 1. */
  lemma GridDividesMidpoint(a: nat) returns (c: nat)
    requires a < TWO_63
    ensures Ulp(a) * c == 1024 && Ulp(a) <= 1024
    ensures c % 2 == 1 <==> Ulp(a) == 1024
  {
    var j := UlpPower(a);
    assert Pow2(10) == 1024 by { Pow2Sum(5, 5); }
    if j > 10 {
      Pow2Monotone(10, j - 1);
    }
    Pow2Sum(j, 10 - j);
    c := Pow2(10 - j);
    if j < 10 {
      Pow2Monotone(j, 9);
      assert Pow2(9) == 512;
    }
  }

  lemma MultipleOnGrid(g: nat, c: nat, k: nat)
    requires g * c == 1024
    ensures g * (c * k) == 1024 * k
    ensures k % 2 == 1 ==> (c * k) % 2 == c % 2
  {
    MulAssoc(g, c, k);
    if k % 2 == 1 {
      OddTimes(c, k / 2);
    }
  }

  lemma OddTimes(c: nat, h: nat)
    ensures (c * (2 * h + 1)) % 2 == c % 2
  {
    assert c * (2 * h + 1) == 2 * (c * h) + c;
  }

  /** From 2^63 on the second rounding is to multiples of 2048. */
  lemma SecondRounding(q: nat, sum: nat)
    requires TWO_63 <= sum <= TWO_64
    requires 2048 * q <= sum <= 2048 * q + 2048
    ensures var r := sum - 2048 * q;
            ToDouble(sum) == 2048 * (if r < 1024 || (r == 1024 && q % 2 == 0) then q else q + 1)
  {
    if sum == TWO_64 {
      PowerIsRepresentable(64);
      ToDoubleFixes(sum);
    } else {
      UlpInRange(sum);
      HalfWay(q, sum);
    }
  }

  lemma HalfWay(q: nat, sum: nat)
    requires 2048 * q <= sum <= 2048 * q + 2048
    ensures var r := sum - 2048 * q;
            RoundTo(sum, 2048) == 2048 * (if r < 1024 || (r == 1024 && q % 2 == 0) then q else q + 1)
  {
    hide RoundTo;
    RoundToHits(sum, 2048, q);
    RoundToHits(sum, 2048, q + 1);
  }

  /**
   The code is a correctly rounded conversion for exactly the arguments outside that case; in it, the
   result is the other one of the two doubles around the argument.
   */
  lemma CorrectlyRoundedIff(v: nat)
    requires v < TWO_64
    ensures Ulonglong2double(v) == ToDouble(v) <==> !RoundsTwice(v)
    ensures RoundsTwice(v) ==> Ulonglong2double(v) + ToDouble(v) == 4096 * (v / 2048) + 2048
  {
    if v == TWO_63 {
      PowerIsRepresentable(63);
      IntermediatesAreExact(v);
      ToDoubleFixes(v);
      UlpInRange(v);
    } else if v > TWO_63 {
      UpperHalf(v);
    }
  }

  lemma UpperHalf(v: nat)
    requires TWO_63 < v < TWO_64
    ensures Ulonglong2double(v) == ToDouble(v) <==> !RoundsTwice(v)
    ensures RoundsTwice(v) ==> Ulonglong2double(v) + ToDouble(v) == 4096 * (v / 2048) + 2048
  {
    hide ToDouble, Ulp, Representable;
    var a, q, r := TWO_64 - v, v / 2048, v % 2048;
    // 2^64 - v lies between these multiples of 1024; the odd one is the midpoint.
    var k := 0x40_0000_0000_0000 - (2 * q + 1);
    assert 1024 * k == TWO_64 - 2048 * q - 1024 && k % 2 == 1;
    assert a - 1024 * k == 1024 - r;
    ConversionBounded(a);
    ReachesMidpoint(a, k);
    NeverPasses(a, k);
    NeverPasses(a, k - 1);
    NeverPasses(a, k + 1);
    SecondRounding(q, v);
    SecondRounding(q, TWO_64 - ToDouble(a));
  }

  /** The conversion is not correctly rounded: 2^63 + 1025 goes down to 2^63, 2^63 + 2048 is nearer. */
  lemma DoubleRoundingExample()
    ensures Ulonglong2double(TWO_63 + 1025) == TWO_63
    ensures ToDouble(TWO_63 + 1025) == TWO_63 + 2048
  {
    var v, q := TWO_63 + 1025, 0x10_0000_0000_0000;
    var a, k := TWO_64 - v, 0x40_0000_0000_0000 - (2 * q + 1);
    var j := UlpPower(a);
    assert Pow2(9) == 512;
    if j <= 9 {
      Pow2Monotone(j, 9);
    }
    assert Ulp(a) > 2;
    ReachesMidpoint(a, k);
    SecondRounding(q, TWO_64 - ToDouble(a));
    SecondRounding(q, v);
  }
}
