/** Byte sequences as numbers, low byte first, and two's complement. */
module LittleEndian {
  import Bits

  type Byte = x: int | 0 <= x < 256

  function Pow256(w: nat): (p: nat)
    ensures p >= 1
    ensures w > 0 ==> p % 256 == 0
  {
    if w == 0 then 1 else 256 * Pow256(w - 1)
  }

  /** The cast `(uchar) b`. */
  function Uchar(b: Byte): int { b }

  /** A byte read through a plain `char` pointer, which is signed on some compilers. */
  function PlainChar(signed: bool, b: Byte): int {
    if signed && b >= 128 then b as int - 0x100 else b
  }

  /** The number written by `bytes`, low byte first. */
  function Value(bytes: seq<Byte>): (v: nat)
    ensures v < Pow256(|bytes|)
  {
    if bytes == [] then 0 else bytes[0] + 256 * Value(bytes[1..])
  }

  /** The low `w` bytes of the two's complement of `v`, low byte first. */
  function Digits(v: int, w: nat): (bytes: seq<Byte>)
    ensures |bytes| == w
    decreases w
  {
    if w == 0 then [] else [v % 256] + Digits(v / 256, w - 1)
  }

  /** The `w`-byte two's complement reading of an unsigned word. */
  function Signed(u: nat, w: nat): int {
    if 2 * u < Pow256(w) then u else u - Pow256(w)
  }

  /** Memory `m` with `bytes` written at `off`. */
  function Splice(m: seq<Byte>, off: nat, bytes: seq<Byte>): (r: seq<Byte>)
    requires off + |bytes| <= |m|
    ensures |r| == |m|
    ensures r[off..off + |bytes|] == bytes
    ensures r[..off] == m[..off] && r[off + |bytes|..] == m[off + |bytes|..]
  {
    m[..off] + bytes + m[off + |bytes|..]
  }

  /** A memory is such a splice if its three parts are. */
  lemma SpliceOfParts(m: seq<Byte>, off: nat, bytes: seq<Byte>, r: seq<Byte>)
    requires off + |bytes| <= |m| == |r| && r[..off] == m[..off]
    requires r[off..off + |bytes|] == bytes && r[off + |bytes|..] == m[off + |bytes|..]
    ensures r == Splice(m, off, bytes)
  {
  }

  /** Dividing by 256 first and by `p` then is dividing by `256 * p`. */
  lemma DivByte(v: int, p: nat)
    requires p > 0
    ensures v / (256 * p) == v / 256 / p
    ensures v % (256 * p) == 256 * (v / 256 % p) + v % 256
  {
    var q, r := v / 256 / p, v / 256 % p;
    assert v / 256 == p * q + r;
    assert v == 256 * (p * q) + (256 * r + v % 256);
    assert 256 * (p * q) == (256 * p) * q;
    Bits.ModUnique(v, 256 * p, q, 256 * r + v % 256);
  }

  lemma {:induction false} ValueOfDigits(v: int, w: nat)
    ensures Value(Digits(v, w)) == v % Pow256(w)
    decreases w
  {
    if w > 0 {
      ValueOfDigits(v / 256, w - 1);
      assert Digits(v, w)[1..] == Digits(v / 256, w - 1);
      DivByte(v, Pow256(w - 1));
    }
  }

  lemma {:induction false} DigitsOfValue(bytes: seq<Byte>)
    ensures Digits(Value(bytes), |bytes|) == bytes
    decreases |bytes|
  {
    if bytes != [] {
      hide Pow256;
      DigitsOfValue(bytes[1..]);
      Bits.ModUnique(Value(bytes), 256, Value(bytes[1..]), bytes[0]);
      assert bytes == [bytes[0]] + bytes[1..];
    }
  }

  /** Bits above the stored width do not matter. */
  lemma DigitsMod(v: int, w: nat)
    ensures Digits(v % Pow256(w), w) == Digits(v, w)
  {
    ValueOfDigits(v, w);
    DigitsOfValue(Digits(v, w));
  }

  lemma {:induction false} DigitsSplit(v: int, i: nat, j: nat)
    ensures Digits(v, i + j) == Digits(v, i) + Digits(v / Pow256(i), j)
    decreases i
  {
    if i > 0 {
      DigitsSplit(v / 256, i - 1, j);
      DivByte(v, Pow256(i - 1));
    }
  }

  /** A value that fits `w` bytes of two's complement survives storing and signed reading. */
  lemma SignedOfDigits(v: int, w: nat)
    requires w > 0 && -(Pow256(w) as int) <= 2 * v < Pow256(w)
    ensures Signed(Value(Digits(v, w)), w) == v
  {
    ValueOfDigits(v, w);
    if v < 0 {
      Bits.ModUnique(v, Pow256(w), -1, v + Pow256(w));
    } else {
      Bits.ModUnique(v, Pow256(w), 0, v);
    }
  }

  lemma UnsignedOfDigits(v: int, w: nat)
    requires 0 <= v < Pow256(w)
    ensures Value(Digits(v, w)) == v
  {
    ValueOfDigits(v, w);
    Bits.ModUnique(v, Pow256(w), 0, v);
  }

  // Explicit forms for the widths the macros spell out byte by byte.

  lemma Powers()
    ensures Pow256(1) == 0x100 && Pow256(2) == 0x1_0000 && Pow256(3) == 0x100_0000
    ensures Pow256(4) == 0x1_0000_0000 && Pow256(5) == 0x100_0000_0000
    ensures Pow256(6) == 0x1_0000_0000_0000 && Pow256(8) == 0x1_0000_0000_0000_0000
  {
    assert Pow256(2) == 0x1_0000;
    assert Pow256(4) == 0x1_0000_0000;
    assert Pow256(6) == 0x1_0000_0000_0000;
  }

  lemma Value2(b: seq<Byte>)
    requires |b| == 2
    ensures Value(b) == Uchar(b[0]) + 0x100 * Uchar(b[1])
  {
    assert Value(b[1..]) == b[1];
  }

  lemma Value3(b: seq<Byte>)
    requires |b| == 3
    ensures Value(b) == Uchar(b[0]) + 0x100 * Uchar(b[1]) + 0x1_0000 * Uchar(b[2])
  {
    Value2(b[1..]);
  }

  lemma Value4(b: seq<Byte>)
    requires |b| == 4
    ensures Value(b) == Uchar(b[0]) + 0x100 * Uchar(b[1]) + 0x1_0000 * Uchar(b[2]) + 0x100_0000 * Uchar(b[3])
  {
    Value3(b[1..]);
  }

  lemma Digits2(v: int)
    ensures Digits(v, 2) == [v % 0x100, v / 0x100 % 0x100]
  {
    assert Digits(v / 0x100, 1) == [v / 0x100 % 0x100];
  }

  lemma Digits3(v: int)
    ensures Digits(v, 3) == [v % 0x100, v / 0x100 % 0x100, v / 0x1_0000 % 0x100]
  {
    assert Digits(v / 0x100 / 0x100, 1) == [v / 0x1_0000 % 0x100];
    assert Digits(v / 0x100, 2) == [v / 0x100 % 0x100] + Digits(v / 0x100 / 0x100, 1);
  }

  lemma Digits4(v: int)
    ensures Digits(v, 4) == [v % 0x100, v / 0x100 % 0x100, v / 0x1_0000 % 0x100, v / 0x100_0000 % 0x100]
  {
    Digits3(v / 0x100);
    assert v / 0x100 / 0x1_0000 == v / 0x100_0000;
  }

  lemma Digits5And6(v: int)
    ensures Digits(v, 5) == Digits(v, 4) + [v / 0x1_0000_0000 % 0x100]
    ensures Digits(v, 6) == Digits(v, 4) + [v / 0x1_0000_0000 % 0x100, v / 0x100_0000_0000 % 0x100]
  {
    Powers();
    DigitsSplit(v, 4, 1);
    DigitsSplit(v, 4, 2);
    Digits2(v / 0x1_0000_0000);
    assert v / 0x1_0000_0000 / 0x100 == v / 0x100_0000_0000;
  }

  lemma Value5Or6Or8(b: seq<Byte>)
    requires |b| in {5, 6, 8}
    ensures Value(b) == Value(b[..4]) + 0x1_0000_0000 * Value(b[4..])
  {
    ValueSplit(b, 4);
    Powers();
  }

  lemma {:induction false} ValueSplit(b: seq<Byte>, i: nat)
    requires i <= |b|
    ensures Value(b) == Value(b[..i]) + Pow256(i) * Value(b[i..])
    decreases i
  {
    if i > 0 {
      ValueSplit(b[1..], i - 1);
      assert b[1..][..i - 1] == b[..i][1..];
      assert b[1..][i - 1..] == b[i..];
      Bits.MulAssoc(256, Pow256(i - 1), Value(b[i..]));
    } else {
      assert b[0..] == b;
    }
  }
}
