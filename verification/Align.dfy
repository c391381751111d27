/** Rounding a size or an address up by adding and masking, in words of any width. */
module Align {
  import opened Bits

  /** `MY_ALIGN(a, l)` on unsigned words of `width` bits. */
  function MyAlign(a: nat, l: nat, width: nat): nat
    requires 0 < l <= Pow2(width)
  {
    And((a + l - 1) % Pow2(width), Not(l - 1, width))
  }

  /** `m` is the least multiple of `l` that is not below `a`. */
  ghost predicate LeastMultiple(m: nat, a: nat, l: nat)
    requires l > 0
  {
    a <= m && m % l == 0 && forall n: nat :: a <= n && n % l == 0 ==> m <= n
  }

  /**
   For every power of two and every word, the macro yields the least multiple not below `a` exactly
   when the sum does not wrap; when it wraps, the result is 0.
   */
  lemma AlignsUp(a: nat, k: nat, width: nat)
    requires k <= width && a < Pow2(width)
    ensures Pow2(k) <= Pow2(width)
    ensures LeastMultiple(MyAlign(a, Pow2(k), width), a, Pow2(k)) <==> a + Pow2(k) - 1 < Pow2(width)
    ensures a + Pow2(k) - 1 >= Pow2(width) ==> MyAlign(a, Pow2(k), width) == 0
  {
    Pow2Monotone(k, width);
    if a + Pow2(k) - 1 < Pow2(width) {
      AlignsUpInRange(a, k, width);
    } else {
      WrapsToZero(a, k, width);
    }
  }

  lemma AlignsUpInRange(a: nat, k: nat, width: nat)
    requires k <= width && a + Pow2(k) - 1 < Pow2(width)
    ensures Pow2(k) <= Pow2(width) && LeastMultiple(MyAlign(a, Pow2(k), width), a, Pow2(k))
    ensures MyAlign(a, Pow2(k), width) < Pow2(width)
  {
    hide Pow2, LeastMultiple, MyAlign;
    MaskOfSum(a + Pow2(k) - 1, k, width);
    RoundDownOfSum(a, Pow2(k));
    assert MyAlign(a, Pow2(k), width) <= a + Pow2(k) - 1;
  }

  /** Masking a sum that does not wrap rounds it down. */
  lemma MaskOfSum(sum: nat, k: nat, width: nat)
    requires k <= width && Pow2(k) - 1 <= sum < Pow2(width)
    ensures Pow2(k) <= Pow2(width)
    ensures MyAlign(sum + 1 - Pow2(k), Pow2(k), width) == sum - sum % Pow2(k)
  {
    hide Pow2, And;
    LessThanMod(sum, Pow2(width));
    AndHighMask(sum, k, width);
  }

  lemma WrapsToZero(a: nat, k: nat, width: nat)
    requires k <= width && a < Pow2(width) <= a + Pow2(k) - 1
    ensures Pow2(k) <= Pow2(width) && a > 0 && MyAlign(a, Pow2(k), width) == 0
  {
    Pow2Monotone(k, width);
    var sum := a + Pow2(k) - 1 - Pow2(width);
    ModUnique(a + Pow2(k) - 1, Pow2(width), 1, sum);
    hide Pow2, And;
    AndHighMask(sum, k, width);
    LessThanMod(sum, Pow2(k));
  }

  lemma RoundDownOfSum(a: nat, l: nat)
    requires l > 0
    ensures LeastMultiple(a + l - 1 - (a + l - 1) % l, a, l)
  {
    var q, r := (a + l - 1) / l, (a + l - 1) % l;
    assert a + l - 1 - r == l * q;
    MultipleMod(l, q);
    forall n: nat | a <= n && n % l == 0 ensures l * q <= n {
      assert n == l * (n / l);
      NotBelow(l, q, n / l);
    }
  }

  lemma LeastMultipleUnique(m: nat, n: nat, a: nat, l: nat)
    requires l > 0 && LeastMultiple(m, a, l) && LeastMultiple(n, a, l)
    ensures m == n
  {
  }

  /** A multiple of 2^k below 2^width is at least 2^k below it. */
  lemma NoWrapAtMultiple(m: nat, k: nat, width: nat)
    requires k <= width && m % Pow2(k) == 0 && m < Pow2(width)
    ensures m + Pow2(k) - 1 < Pow2(width)
  {
    Pow2Sum(k, width - k);
    BelowMultiple(m, Pow2(k), Pow2(width - k));
  }

  lemma BelowMultiple(m: nat, l: nat, c: nat)
    requires l > 0 && m % l == 0 && m < l * c
    ensures m + l - 1 < l * c
  {
    var q := m / l;
    assert m == l * q;
    NextMultiple(l, q, c);
  }

  lemma NextMultiple(l: nat, q: nat, n: nat)
    requires l * q < l * n
    ensures l * q + l <= l * n
  {
    assert l * (q + 1) == l * q + l;
    NotBelow(l, q + 1, n);
  }

  /** Aligning to one power of two and then to another is aligning once to the larger, wrapping or not. */
  lemma AlignTwice(a: nat, i: nat, j: nat, width: nat)
    requires i <= width && j <= width && a < Pow2(width)
    ensures Pow2(i) <= Pow2(width) && Pow2(j) <= Pow2(width)
    ensures MyAlign(MyAlign(a, Pow2(i), width), Pow2(j), width)
         == MyAlign(a, Pow2(if i < j then j else i), width)
  {
    var k := if i < j then j else i;
    Pow2Monotone(i, k);
    Pow2Monotone(k, width);
    Pow2Monotone(j, width);
    if a + Pow2(k) - 1 >= Pow2(width) {
      WrapsToZero(a, k, width);
      AlignTwiceWraps(a, i, j, width);
    } else {
      AlignTwiceInRange(a, i, j, width);
    }
  }

  lemma AlignTwiceWraps(a: nat, i: nat, j: nat, width: nat)
    requires i <= width && j <= width && a < Pow2(width)
    requires a + Pow2(if i < j then j else i) - 1 >= Pow2(width)
    ensures Pow2(i) <= Pow2(width) && Pow2(j) <= Pow2(width)
    ensures MyAlign(MyAlign(a, Pow2(i), width), Pow2(j), width) == 0
  {
    hide MyAlign;
    Pow2Monotone(i, width);
    Pow2Monotone(j, width);
    if a + Pow2(i) - 1 >= Pow2(width) {
      WrapsToZero(a, i, width);
      AlignsUpInRange(0, j, width);
      assert LeastMultiple(0, 0, Pow2(j));
    } else {
      AlignsUpInRange(a, i, width);
      WrapsToZero(MyAlign(a, Pow2(i), width), j, width);
    }
  }

  lemma AlignTwiceInRange(a: nat, i: nat, j: nat, width: nat)
    requires i <= width && j <= width && a + Pow2(if i < j then j else i) - 1 < Pow2(width)
    ensures Pow2(i) <= Pow2(width) && Pow2(j) <= Pow2(width)
    ensures MyAlign(MyAlign(a, Pow2(i), width), Pow2(j), width)
         == MyAlign(a, Pow2(if i < j then j else i), width)
  {
    hide MyAlign;
    var k := if i < j then j else i;
    Pow2Monotone(i, k);
    Pow2Monotone(j, k);
    Pow2Monotone(k, width);
    AlignsUpInRange(a, i, width);
    AlignsUpInRange(a, k, width);
    var first, once := MyAlign(a, Pow2(i), width), MyAlign(a, Pow2(k), width);
    Divides(once, i, k);
    assert first <= once;
    NoWrapAtMultiple(once, k, width);
    AlignsUpInRange(first, j, width);
    var second := MyAlign(first, Pow2(j), width);
    if i < j {
      MultiplesAbove(second, a, i, j, first);
      LeastMultipleUnique(second, once, a, Pow2(j));
    } else {
      Divides(first, j, i);
      assert LeastMultiple(first, first, Pow2(j));
      LeastMultipleUnique(second, first, first, Pow2(j));
    }
  }

  /** The least coarse multiple above a fine one is the least coarse multiple above the start. */
  lemma MultiplesAbove(m: nat, a: nat, i: nat, j: nat, first: nat)
    requires i <= j && LeastMultiple(first, a, Pow2(i)) && LeastMultiple(m, first, Pow2(j))
    ensures LeastMultiple(m, a, Pow2(j))
  {
    forall n: nat | a <= n && n % Pow2(j) == 0 ensures m <= n {
      Divides(n, i, j);
    }
  }
}
