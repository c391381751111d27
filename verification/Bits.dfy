/** Bitwise operators of C on unsigned words of any width, as recursion over the binary digits. */
module Bits {

  const TWO_63 := 0x8000_0000_0000_0000
  const TWO_64 := 0x1_0000_0000_0000_0000

  function Pow2(k: nat): (p: nat)
    ensures p >= 1
  {
    if k == 0 then 1 else 2 * Pow2(k - 1)
  }

  /** `x & y` */
  function And(x: nat, y: nat): nat {
    if x == 0 || y == 0 then 0
    else (if x % 2 == 1 && y % 2 == 1 then 1 else 0) + 2 * And(x / 2, y / 2)
  }

  /** `x | y` */
  function Or(x: nat, y: nat): nat
    decreases x + y
  {
    if x == 0 then y
    else if y == 0 then x
    else (if x % 2 == 1 || y % 2 == 1 then 1 else 0) + 2 * Or(x / 2, y / 2)
  }

  /** `~x` in a word of `width` bits */
  function Not(x: nat, width: nat): nat
    requires x < Pow2(width)
  {
    Pow2(width) - 1 - x
  }

  /** The remainder modulo 2^k is that of the half, doubled, plus the last digit. */
  lemma HalfMod(x: nat, k: nat)
    requires k > 0
    ensures x % Pow2(k) == 2 * (x / 2 % Pow2(k - 1)) + x % 2
  {
    var p := Pow2(k - 1);
    var q, r := x / 2 / p, x / 2 % p;
    assert x / 2 == p * q + r;
    assert x == 2 * (p * q) + (2 * r + x % 2);
    assert 2 * (p * q) == (2 * p) * q;
    ModUnique(x, 2 * p, q, 2 * r + x % 2);
  }

  /** Division with remainder is unique. */
  lemma ModUnique(v: int, m: int, q: int, r: int)
    requires v == m * q + r && 0 <= r < m
    ensures v % m == r && v / m == q
  {
    var q', r' := v / m, v % m;
    assert v == m * q' + r';
    assert m * (q - q') == m * q - m * q';
    NoMultipleBetween(m, q - q', r' - r);
  }

  lemma NoMultipleBetween(m: int, d: int, r: int)
    requires -m < r < m && m * d == r
    ensures d == 0 && r == 0
  {
    MulAtLeast(m, d);
  }

  lemma MulAtLeast(m: int, d: int)
    requires m >= 0
    ensures d >= 1 ==> m * d >= m
    ensures d <= -1 ==> m * d <= -m
  {
    if d >= 1 {
      assert m * d == m * (d - 1) + m;
    } else if d <= -1 {
      assert m * d == m * (d + 1) - m;
    }
  }

  /** Masking with the low `k` bits set keeps the remainder modulo 2^k. */
  lemma {:induction false} AndLowMask(x: nat, k: nat)
    ensures And(x, Pow2(k) - 1) == x % Pow2(k)
    decreases k
  {
    if k > 0 {
      HalfMod(x, k);
      AndLowMask(x / 2, k - 1);
      assert (Pow2(k) - 1) / 2 == Pow2(k - 1) - 1;
    }
  }

  /** Masking with the complement of the low `k` bits clears the remainder modulo 2^k. */
  lemma AndHighMask(x: nat, k: nat, width: nat)
    requires k <= width && x < Pow2(width)
    ensures Pow2(k) <= Pow2(width) && And(x, Not(Pow2(k) - 1, width)) == x - x % Pow2(k)
  {
    hide Pow2, And;
    ClearLowBits(x, k, width);
  }

  lemma {:induction false} ClearLowBits(x: nat, k: nat, width: nat)
    requires k <= width && x < Pow2(width)
    ensures Pow2(k) <= Pow2(width) && And(x, Pow2(width) - Pow2(k)) == x - x % Pow2(k)
    decreases width
  {
    Pow2Monotone(k, width);
    if k == 0 {
      AndLowMask(x, width);
      LessThanMod(x, Pow2(width));
    } else {
      hide And;
      ClearLowBits(x / 2, k - 1, width - 1);
      ClearStep(x, k, width);
    }
  }

  lemma ClearStep(x: nat, k: nat, width: nat)
    requires 0 < k <= width && Pow2(k - 1) <= Pow2(width - 1)
    requires And(x / 2, Pow2(width - 1) - Pow2(k - 1)) == x / 2 - x / 2 % Pow2(k - 1)
    ensures Pow2(k) <= Pow2(width) && And(x, Pow2(width) - Pow2(k)) == x - x % Pow2(k)
  {
    hide And;
    HighMaskStep(x, Pow2(k - 1), Pow2(width - 1));
    HalfMod(x, k);
  }

  /** One binary digit of the high mask of a word below `2 * w`. */
  lemma HighMaskStep(x: nat, l: nat, w: nat)
    requires 1 <= l <= w && And(x / 2, w - l) == x / 2 - x / 2 % l
    ensures And(x, 2 * w - 2 * l) == x - (2 * (x / 2 % l) + x % 2)
  {
    AndEven(x, w - l);
    assert 2 * w - 2 * l == 2 * (w - l);
  }

  lemma AndEven(x: nat, y: nat)
    ensures And(x, 2 * y) == 2 * And(x / 2, y)
  {
    if x != 0 && y != 0 {
      assert 2 * y % 2 == 0 && 2 * y / 2 == y;
    }
  }

  lemma LessThanMod(x: nat, m: nat)
    requires x < m
    ensures x % m == x
  {
  }

  lemma {:induction false} Pow2Monotone(i: nat, j: nat)
    requires i <= j
    ensures Pow2(i) <= Pow2(j)
    decreases j
  {
    if i < j {
      Pow2Monotone(i, j - 1);
    }
  }

  lemma {:induction false} Pow2Sum(i: nat, j: nat)
    ensures Pow2(i + j) == Pow2(i) * Pow2(j)
    decreases i
  {
    if i > 0 {
      Pow2Sum(i - 1, j);
      assert 2 * (Pow2(i - 1) * Pow2(j)) == (2 * Pow2(i - 1)) * Pow2(j);
    }
  }

  lemma {:induction false} OrCommutes(x: nat, y: nat)
    ensures Or(x, y) == Or(y, x)
    decreases x + y
  {
    if x != 0 && y != 0 {
      OrCommutes(x / 2, y / 2);
    }
  }

  lemma Double(x: nat, y: nat)
    ensures x * (2 * y) == 2 * (x * y)
  {
  }

  /** Or-ing a field into the low bits that a shifted word leaves free is adding it. */
  lemma {:induction false} OrDisjoint(high: nat, low: nat, k: nat)
    requires low < Pow2(k)
    ensures Or(high * Pow2(k), low) == high * Pow2(k) + low
    decreases k
  {
    if k > 0 {
      var shifted := high * Pow2(k - 1);
      Double(high, Pow2(k - 1));
      OrDisjoint(high, low / 2, k - 1);
      if shifted != 0 && low != 0 {
        assert Or(2 * shifted, low) == low % 2 + 2 * Or(shifted, low / 2);
      }
    }
  }

  lemma DivHalf(x: nat, p: nat)
    requires p > 0
    ensures x / (2 * p) == x / 2 / p
  {
    var q, r := x / 2 / p, x / 2 % p;
    assert x / 2 == p * q + r;
    assert x == 2 * (p * q) + (2 * r + x % 2);
    assert 2 * (p * q) == (2 * p) * q;
    ModUnique(x, 2 * p, q, 2 * r + x % 2);
  }

  /** Testing one bit. */
  lemma {:induction false} AndOneBit(x: nat, k: nat)
    ensures And(x, Pow2(k)) == (if x / Pow2(k) % 2 == 1 then Pow2(k) else 0)
    decreases k
  {
    if x == 0 {
    } else if k == 0 {
      assert And(x / 2, 0) == 0;
    } else {
      var p := Pow2(k - 1);
      AndOneBit(x / 2, k - 1);
      DivHalf(x, p);
      assert And(x, 2 * p) == 2 * And(x / 2, p);
    }
  }

  lemma Pow2Values()
    ensures Pow2(7) == 0x80 && Pow2(8) == 0x100 && Pow2(16) == 0x1_0000 && Pow2(24) == 0x100_0000
  {
    assert Pow2(4) == 16;
    Pow2Sum(4, 4);
    Pow2Sum(8, 8);
    Pow2Sum(16, 8);
  }

  lemma TopBitOfByte(b: nat)
    requires b < 0x100
    ensures And(b, 128) != 0 <==> b >= 128
  {
    Pow2Values();
    AndOneBit(b, 7);
  }

  // Or with the shift distances of the byte macros.

  lemma Or8(high: nat, low: nat)
    requires low < 0x100
    ensures Or(high * 0x100, low) == Or(low, high * 0x100) == high * 0x100 + low
  {
    Pow2Values();
    OrDisjoint(high, low, 8);
    OrCommutes(high * 0x100, low);
  }

  lemma Or16(high: nat, low: nat)
    requires low < 0x1_0000
    ensures Or(high * 0x1_0000, low) == Or(low, high * 0x1_0000) == high * 0x1_0000 + low
  {
    Pow2Values();
    OrDisjoint(high, low, 16);
    OrCommutes(high * 0x1_0000, low);
  }

  lemma Or24(high: nat, low: nat)
    requires low < 0x100_0000
    ensures Or(high * 0x100_0000, low) == Or(low, high * 0x100_0000) == high * 0x100_0000 + low
  {
    Pow2Values();
    OrDisjoint(high, low, 24);
    OrCommutes(high * 0x100_0000, low);
  }

  lemma OrThreeBytes(b0: nat, b1: nat, b2: nat)
    requires b0 < 0x100 && b1 < 0x100
    ensures Or(Or(b2 * 0x1_0000, b1 * 0x100), b0) == b2 * 0x1_0000 + b1 * 0x100 + b0
  {
    Or16(b2, b1 * 0x100);
    var h := b2 * 0x100 + b1;
    Or8(h, b0);
    assert h * 0x100 == b2 * 0x1_0000 + b1 * 0x100;
  }

  /** Assembling a 32-bit word from four bytes with shifts and ors adds them up. */
  lemma OrFourBytes(b0: nat, b1: nat, b2: nat, b3: nat)
    requires b0 < 0x100 && b1 < 0x100 && b2 < 0x100
    ensures Or(Or(Or(b3 * 0x100_0000, b2 * 0x1_0000), b1 * 0x100), b0)
         == b3 * 0x100_0000 + b2 * 0x1_0000 + b1 * 0x100 + b0
  {
    Or24(b3, b2 * 0x1_0000);
    var h := b3 * 0x100 + b2;
    OrThreeBytes(b0, b1, h);
    assert h * 0x1_0000 == b3 * 0x100_0000 + b2 * 0x1_0000;
  }

  /** The same word assembled from the low byte up. */
  lemma OrFourBytesUp(b0: nat, b1: nat, b2: nat, b3: nat)
    requires b0 < 0x100 && b1 < 0x100 && b2 < 0x100
    ensures Or(Or(Or(b0, b1 * 0x100), b2 * 0x1_0000), b3 * 0x100_0000)
         == b3 * 0x100_0000 + b2 * 0x1_0000 + b1 * 0x100 + b0
  {
    Or8(b1, b0);
    Or16(b2, b1 * 0x100 + b0);
    Or24(b3, b2 * 0x1_0000 + b1 * 0x100 + b0);
  }

  // Multiples

  lemma MultipleMod(l: nat, q: nat)
    requires l > 0
    ensures (l * q) % l == 0
  {
    ModUnique(l * q, l, q, 0);
  }

  /** Multiples of `l` less than `l` apart in the right direction are ordered. */
  lemma NotBelow(l: nat, q: nat, n: nat)
    requires l * n > l * q - l
    ensures l * n >= l * q
  {
    assert l * (n - q) == l * n - l * q;
    MulAtLeast(l, n - q);
  }

  lemma MulAssoc(x: nat, y: nat, z: nat)
    ensures x * y * z == x * (y * z)
  {
  }

  lemma Divides(n: nat, i: nat, j: nat)
    requires i <= j && n % Pow2(j) == 0
    ensures n % Pow2(i) == 0
  {
    var l, c := Pow2(i), Pow2(j - i);
    Pow2Sum(i, j - i);
    var q := n / (l * c);
    assert n == l * c * q;
    MulAssoc(l, c, q);
    MultipleMod(l, c * q);
  }
}
