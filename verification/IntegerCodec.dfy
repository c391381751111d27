/**
 The macros that read and write integers in machine-independent format, low byte first.

 Every macro exists twice: an x86 form that casts the byte pointer to a word pointer, and a
 portable form that handles one byte at a time. Loads are functions on a memory image `m` and an
 address `a` in it; stores are methods that write into an array. A word access through a cast
 pointer on the little-endian x86 host is `Value` / `Digits` of the bytes it covers.
 */
module IntegerCodec {
  import opened LittleEndian
  import Bits

  /** Which set of macros is compiled, and for the portable one whether plain `char` is signed. */
  datatype Arch = X86 | Portable(plainCharSigned: bool)

  type Memory = seq<Byte>

  // Casts to the C integer types

  function U16(x: int): (r: nat)
    ensures 0 <= x < 0x1_0000 ==> r == x
  {
    x % 0x1_0000
  }

  function U32(x: int): (r: nat)
    ensures 0 <= x < 0x1_0000_0000 ==> r == x
  {
    x % 0x1_0000_0000
  }

  function U64(x: int): (r: nat)
    ensures 0 <= x < 0x1_0000_0000_0000_0000 ==> r == x
  {
    x % 0x1_0000_0000_0000_0000
  }

  function S16(x: int): (r: int)
    ensures -0x8000 <= x < 0x8000 ==> r == x
  {
    if U16(x) < 0x8000 then U16(x) else U16(x) - 0x1_0000
  }

  function S32(x: int): (r: int)
    ensures -0x8000_0000 <= x < 0x8000_0000 ==> r == x
  {
    if U32(x) < 0x8000_0000 then U32(x) else U32(x) - 0x1_0000_0000
  }

  function S64(x: int): (r: int)
    ensures -0x8000_0000_0000_0000 <= x < 0x8000_0000_0000_0000 ==> r == x
  {
    if U64(x) < 0x8000_0000_0000_0000 then U64(x) else U64(x) - 0x1_0000_0000_0000_0000
  }

  // Unsigned loads

  function Uint2korr(arch: Arch, m: Memory, a: nat): (r: nat)
    requires a + 2 <= |m|
    ensures r == Value(m[a..a + 2])
  {
    Value2(m[a..a + 2]);
    match arch
    case X86 => Value(m[a..a + 2])
    case Portable(_) => U16(U16(m[a]) + U16(m[a + 1]) * 0x100)
  }

  /** Masking a four-byte word keeps its low three bytes, whatever the fourth is. */
  lemma Low24(m: Memory, a: nat)
    requires a + 4 <= |m|
    ensures Bits.And(Value(m[a..a + 4]), 0xFF_FFFF) == Value(m[a..a + 3])
  {
    var v, low := Value(m[a..a + 4]), Value(m[a..a + 3]);
    Bits.Pow2Values();
    Bits.AndLowMask(v, 24);
    Value4(m[a..a + 4]);
    Value3(m[a..a + 3]);
    Powers();
    Bits.ModUnique(v, 0x100_0000, Uchar(m[a + 3]), low);
  }

  /** The x86 form reads a fourth byte and masks it off. */
  function Uint3korr(arch: Arch, m: Memory, a: nat): (r: nat)
    requires a + (if arch.X86? then 4 else 3) <= |m|
    ensures r == Value(m[a..a + 3])
  {
    match arch
    case X86 =>
      Low24(m, a);
      Bits.And(Value(m[a..a + 4]), 0xFF_FFFF)
    case Portable(_) =>
      Value3(m[a..a + 3]);
      U32(U32(m[a]) + U32(Uchar(m[a + 1]) * 0x100) + U32(Uchar(m[a + 2]) * 0x1_0000))
  }

  function Uint4korr(arch: Arch, m: Memory, a: nat): (r: nat)
    requires a + 4 <= |m|
    ensures r == Value(m[a..a + 4])
  {
    Value4(m[a..a + 4]);
    match arch
    case X86 => Value(m[a..a + 4])
    case Portable(_) => Sum32(m, a)
  }

  /** The 32-bit sum of four shifted bytes that the wider loads are built from: it never wraps. */
  function Sum32(m: Memory, a: nat): (r: nat)
    requires a + 4 <= |m|
    ensures r == Value(m[a..a + 4]) < 0x1_0000_0000
  {
    Value4(m[a..a + 4]);
    U32(U32(U32(U32(m[a]) + U32(Uchar(m[a + 1]) * 0x100)) + U32(Uchar(m[a + 2]) * 0x1_0000))
        + U32(Uchar(m[a + 3]) * 0x100_0000))
  }

  function Uint5korr(arch: Arch, m: Memory, a: nat): (r: nat)
    requires a + 5 <= |m|
    ensures r == Value(m[a..a + 5])
  {
    SplitAt4(m, a, 5);
    U64(Sum32(m, a) + U64(Uchar(m[a + 4]) * 0x1_0000_0000))
  }

  function Uint6korr(arch: Arch, m: Memory, a: nat): (r: nat)
    requires a + 6 <= |m|
    ensures r == Value(m[a..a + 6])
  {
    SplitAt4(m, a, 6);
    Value2(m[a + 4..a + 6]);
    U64(U64(Sum32(m, a) + U64(Uchar(m[a + 4]) * 0x1_0000_0000)) + U64(Uchar(m[a + 5]) * 0x100_0000_0000))
  }

  function Uint8korr(arch: Arch, m: Memory, a: nat): (r: nat)
    requires a + 8 <= |m|
    ensures r == Value(m[a..a + 8])
  {
    SplitAt4(m, a, 8);
    match arch
    case X86 => Value(m[a..a + 8])
    case Portable(_) => U64(Sum32(m, a) + U64(Sum32(m, a + 4) * 0x1_0000_0000))
  }

  lemma SplitAt4(m: Memory, a: nat, w: nat)
    requires w in {5, 6, 8} && a + w <= |m|
    ensures Value(m[a..a + w]) == Value(m[a..a + 4]) + 0x1_0000_0000 * Value(m[a + 4..a + w])
    ensures w == 5 ==> Value(m[a + 4..a + w]) == m[a + 4]
  {
    Value5Or6Or8(m[a..a + w]);
    assert m[a..a + w][..4] == m[a..a + 4] && m[a..a + w][4..] == m[a + 4..a + w];
    if w == 5 {
      assert m[a + 4..a + 5] == [m[a + 4]];
    }
  }

  // Signed loads

  function Sint2korr(arch: Arch, m: Memory, a: nat): (r: int)
    requires a + 2 <= |m|
    ensures r == Signed(Value(m[a..a + 2]), 2)
  {
    Value2(m[a..a + 2]);
    Powers();
    match arch
    case X86 => S16(Value(m[a..a + 2]))
    case Portable(signed) => S16(S16(m[a]) + S16(PlainChar(signed, m[a + 1])) * 0x100)
  }

  /** Sign extension by hand: the top byte of the word is filled when bit 23 is set. */
  function Sint3korr(arch: Arch, m: Memory, a: nat): (r: int)
    requires a + 3 <= |m|
    ensures r == Signed(Value(m[a..a + 3]), 3)
  {
    Value3(m[a..a + 3]);
    Powers();
    SignExtend(m[a], m[a + 1], m[a + 2]);
    SignExtended(m[a], m[a + 1], m[a + 2])
  }

  function SignExtended(b0: nat, b1: nat, b2: nat): int {
    S32(if Bits.And(b2, 128) != 0
        then Bits.Or(Bits.Or(Bits.Or(255 * 0x100_0000, b2 * 0x1_0000), b1 * 0x100), b0)
        else Bits.Or(Bits.Or(b2 * 0x1_0000, b1 * 0x100), b0))
  }

  lemma SignExtend(b0: nat, b1: nat, b2: nat)
    requires b0 < 0x100 && b1 < 0x100 && b2 < 0x100
    ensures SignExtended(b0, b1, b2) == b2 * 0x1_0000 + b1 * 0x100 + b0 - (if b2 >= 128 then 0x100_0000 else 0)
  {
    Bits.TopBitOfByte(b2);
    Bits.OrThreeBytes(b0, b1, b2);
    Bits.OrFourBytes(b0, b1, b2, 255);
  }

  function Sint4korr(arch: Arch, m: Memory, a: nat): (r: int)
    requires a + 4 <= |m|
    ensures r == Signed(Value(m[a..a + 4]), 4)
  {
    Value4(m[a..a + 4]);
    Powers();
    match arch
    case X86 => S32(Value(m[a..a + 4]))
    case Portable(signed) =>
      S32(S32(S32(Uchar(m[a]) + S32(Uchar(m[a + 1]) * 0x100)) + S32(Uchar(m[a + 2]) * 0x1_0000))
          + S32(S16(PlainChar(signed, m[a + 3])) * 0x100_0000))
  }

  function Sint8korr(arch: Arch, m: Memory, a: nat): (r: int)
    requires a + 8 <= |m|
    ensures r == Signed(Value(m[a..a + 8]), 8)
  {
    Powers();
    S64(Uint8korr(arch, m, a))
  }

  // Stores

  /** A word store through a cast pointer on a little-endian host. */
  method StoreWord(t: array<Byte>, a: nat, v: int, w: nat)
    requires a + w <= t.Length
    modifies t
    ensures t[..] == Splice(old(t[..]), a, Digits(v, w))
  {
    forall i | 0 <= i < w {
      t[a + i] := Digits(v, w)[i];
    }
  }

  lemma MiddleByte(v: int)
    ensures U32(v) % 0x100 == v % 0x100
    ensures U32(v) / 0x100 % 0x100 == v / 0x100 % 0x100
  {
    DivByte(v, 0x100_0000);
    DivByte(v / 0x100, 0x1_0000);
    var middle := v / 0x100 % 0x100_0000;
    Bits.ModUnique(U32(v), 0x100, middle, v % 0x100);
    Bits.ModUnique(middle, 0x100, v / 0x100 / 0x100 % 0x1_0000, v / 0x100 % 0x100);
  }

  method Int2store(arch: Arch, t: array<Byte>, a: nat, v: int)
    requires a + 2 <= t.Length
    modifies t
    ensures t[..] == Splice(old(t[..]), a, Digits(v, 2))
  {
    hide Digits;
    Powers();
    DigitsMod(v, 2);
    if arch.X86? {
      StoreWord(t, a, U16(v), 2);
    } else {
      var temp := U32(v);
      Digits2(v);
      MiddleByte(v);
      t[a] := temp % 0x100;
      t[a + 1] := temp / 0x100 % 0x100;
    }
  }

  /** The x86 form shifts the unsigned value for the middle byte and the plain one for the top byte. */
  method Int3store(arch: Arch, t: array<Byte>, a: nat, v: int)
    requires a + 3 <= t.Length
    modifies t
    ensures t[..] == Splice(old(t[..]), a, Digits(v, 3))
  {
    hide Digits;
    Digits3(v);
    MiddleByte(v);
    t[a] := v % 0x100;
    t[a + 1] := (if arch.X86? then U32(v) else v) / 0x100 % 0x100;
    t[a + 2] := v / 0x1_0000 % 0x100;
  }

  method Int4store(arch: Arch, t: array<Byte>, a: nat, v: int)
    requires a + 4 <= t.Length
    modifies t
    ensures t[..] == Splice(old(t[..]), a, Digits(v, 4))
  {
    hide Digits;
    Powers();
    DigitsMod(v, 4);
    if arch.X86? {
      StoreWord(t, a, U32(v), 4);
    } else {
      Digits4(v);
      t[a] := v % 0x100;
      t[a + 1] := v / 0x100 % 0x100;
      t[a + 2] := v / 0x1_0000 % 0x100;
      t[a + 3] := v / 0x100_0000 % 0x100;
    }
  }

  method Int5store(arch: Arch, t: array<Byte>, a: nat, v: int)
    requires a + 5 <= t.Length
    modifies t
    ensures t[..] == Splice(old(t[..]), a, Digits(v, 5))
  {
    hide Digits;
    Digits4(v);
    Digits5And6(v);
    t[a] := v % 0x100;
    t[a + 1] := v / 0x100 % 0x100;
    t[a + 2] := v / 0x1_0000 % 0x100;
    t[a + 3] := v / 0x100_0000 % 0x100;
    t[a + 4] := v / 0x1_0000_0000 % 0x100;
  }

  method Int6store(arch: Arch, t: array<Byte>, a: nat, v: int)
    requires a + 6 <= t.Length
    modifies t
    ensures t[..] == Splice(old(t[..]), a, Digits(v, 6))
  {
    hide Digits;
    Digits4(v);
    Digits5And6(v);
    t[a] := v % 0x100;
    t[a + 1] := v / 0x100 % 0x100;
    t[a + 2] := v / 0x1_0000 % 0x100;
    t[a + 3] := v / 0x100_0000 % 0x100;
    t[a + 4] := v / 0x1_0000_0000 % 0x100;
    t[a + 5] := v / 0x100_0000_0000 % 0x100;
  }

  lemma Halves(v: int)
    ensures Digits(v, 8) == Digits(U32(v), 4) + Digits(U32(v / 0x1_0000_0000), 4)
  {
    Powers();
    DigitsMod(v, 4);
    DigitsMod(v / 0x1_0000_0000, 4);
    DigitsSplit(v, 4, 4);
  }

  /** The portable form stores two 32-bit halves. */
  method Int8store(arch: Arch, t: array<Byte>, a: nat, v: int)
    requires a + 8 <= t.Length
    modifies t
    ensures t[..] == Splice(old(t[..]), a, Digits(v, 8))
  {
    hide Digits;
    if arch.X86? {
      Powers();
      DigitsMod(v, 8);
      StoreWord(t, a, U64(v), 8);
    } else {
      var temp, temp2 := U32(v), U32(v / 0x1_0000_0000);
      ghost var m := t[..];
      Halves(v);
      Int4store(arch, t, a, temp);
      Int4store(arch, t, a + 4, temp2);
      SpliceAppend(m, a, Digits(temp, 4), Digits(temp2, 4));
    }
  }

  // Records: fields written back to back

  /** How one field is stored and loaded; the macros know these widths and these signed loads. */
  datatype Shape = Shape(width: nat, signed: bool) {
    predicate Supported() {
      if signed then width in {2, 3, 4, 8} else width in {2, 3, 4, 5, 6, 8}
    }

    predicate Holds(v: int)
      requires Supported()
    {
      if signed then -(Pow256(width) as int) <= 2 * v < Pow256(width) else 0 <= v < Pow256(width)
    }
  }

  datatype Field = Field(shape: Shape, value: int) {
    predicate Valid() { shape.Supported() && shape.Holds(value) }
  }

  /** The wire format of a record. */
  function Encode(fields: seq<Field>): seq<Byte> {
    if fields == [] then [] else Digits(fields[0].value, fields[0].shape.width) + Encode(fields[1..])
  }

  /** One past the last address a load of this shape touches. */
  function Extent(arch: Arch, shape: Shape): nat {
    if arch.X86? && shape == Shape(3, false) then 4 else shape.width
  }

  function Load(arch: Arch, m: Memory, a: nat, shape: Shape): (r: int)
    requires shape.Supported() && a + Extent(arch, shape) <= |m|
  {
    if shape.signed then
      if shape.width == 2 then Sint2korr(arch, m, a)
      else if shape.width == 3 then Sint3korr(arch, m, a)
      else if shape.width == 4 then Sint4korr(arch, m, a)
      else Sint8korr(arch, m, a)
    else
      if shape.width == 2 then Uint2korr(arch, m, a)
      else if shape.width == 3 then Uint3korr(arch, m, a)
      else if shape.width == 4 then Uint4korr(arch, m, a)
      else if shape.width == 5 then Uint5korr(arch, m, a)
      else if shape.width == 6 then Uint6korr(arch, m, a)
      else Uint8korr(arch, m, a)
  }

  method Store(arch: Arch, t: array<Byte>, a: nat, field: Field)
    requires field.shape.Supported() && a + field.shape.width <= t.Length
    modifies t
    ensures t[..] == Splice(old(t[..]), a, Digits(field.value, field.shape.width))
  {
    var v := field.value;
    if field.shape.width == 2 {
      Int2store(arch, t, a, v);
    } else if field.shape.width == 3 {
      Int3store(arch, t, a, v);
    } else if field.shape.width == 4 {
      Int4store(arch, t, a, v);
    } else if field.shape.width == 5 {
      Int5store(arch, t, a, v);
    } else if field.shape.width == 6 {
      Int6store(arch, t, a, v);
    } else {
      Int8store(arch, t, a, v);
    }
  }

  /** Any store of `a` read by any load of the same shape gives the value back. */
  lemma LoadOfStore(arch: Arch, m: Memory, a: nat, field: Field)
    requires field.Valid() && a + Extent(arch, field.shape) <= |m|
    requires m[a..a + field.shape.width] == Digits(field.value, field.shape.width)
    ensures Load(arch, m, a, field.shape) == field.value
  {
    hide Digits, Value, Signed, Pow256;
    if field.shape.signed {
      SignedOfDigits(field.value, field.shape.width);
    } else {
      UnsignedOfDigits(field.value, field.shape.width);
    }
  }

  /** Reading fields of the given shapes back to back from address `a`. */
  function ReadRecord(arch: Arch, m: Memory, a: nat, shapes: seq<Shape>): (values: seq<int>)
    requires AllSupported(shapes) && RecordFits(arch, |m|, a, shapes)
    ensures |values| == |shapes|
    decreases |shapes|
  {
    if shapes == [] then []
    else [Load(arch, m, a, shapes[0])] + ReadRecord(arch, m, a + shapes[0].width, shapes[1..])
  }

  /** Every load of the record stays inside a memory of `size` bytes. */
  predicate RecordFits(arch: Arch, size: nat, a: nat, shapes: seq<Shape>)
    decreases |shapes|
  {
    shapes == [] ||
    (a + Extent(arch, shapes[0]) <= size && RecordFits(arch, size, a + shapes[0].width, shapes[1..]))
  }

  function Shapes(fields: seq<Field>): (shapes: seq<Shape>)
    ensures |shapes| == |fields|
    ensures forall i :: 0 <= i < |shapes| ==> shapes[i] == fields[i].shape
    ensures (forall i :: 0 <= i < |fields| ==> fields[i].Valid()) ==> AllSupported(shapes)
  {
    if fields == [] then [] else [fields[0].shape] + Shapes(fields[1..])
  }

  predicate AllSupported(shapes: seq<Shape>) {
    forall i :: 0 <= i < |shapes| ==> shapes[i].Supported()
  }

  function Values(fields: seq<Field>): (values: seq<int>)
    ensures |values| == |fields|
    ensures forall i :: 0 <= i < |values| ==> values[i] == fields[i].value
  {
    if fields == [] then [] else [fields[0].value] + Values(fields[1..])
  }

  /**
   Writes the fields one after another, each where the one before ends; nothing outside their bytes
   changes.
   */
  method WriteRecord(arch: Arch, t: array<Byte>, a: nat, fields: seq<Field>)
    requires forall i :: 0 <= i < |fields| ==> fields[i].shape.Supported()
    requires a + |Encode(fields)| <= t.Length
    modifies t
    ensures t[..] == Splice(old(t[..]), a, Encode(fields))
  {
    hide Digits;
    var at := a;
    ghost var m := t[..];
    for i := 0 to |fields|
      invariant at == a + |Encode(fields[..i])| <= t.Length
      invariant t[..] == Splice(m, a, Encode(fields[..i]))
    {
      EncodeStep(fields, i);
      ghost var done, next := Encode(fields[..i]), Digits(fields[i].value, fields[i].shape.width);
      Store(arch, t, at, fields[i]);
      at := at + fields[i].shape.width;
      SpliceAppend(m, a, done, next);
    }
    assert fields[..|fields|] == fields;
  }

  lemma SpliceAppend(m: Memory, a: nat, x: seq<Byte>, y: seq<Byte>)
    requires a + |x| + |y| <= |m|
    ensures Splice(Splice(m, a, x), a + |x|, y) == Splice(m, a, x + y)
  {
  }

  lemma {:induction false} EncodeAppend(xs: seq<Field>, ys: seq<Field>)
    ensures Encode(xs + ys) == Encode(xs) + Encode(ys)
    decreases |xs|
  {
    hide Digits;
    if xs == [] {
      assert xs + ys == ys;
    } else {
      EncodeAppend(xs[1..], ys);
      assert (xs + ys)[1..] == xs[1..] + ys;
    }
  }

  lemma EncodeStep(fields: seq<Field>, i: nat)
    requires i < |fields|
    ensures Encode(fields[..i + 1]) == Encode(fields[..i]) + Digits(fields[i].value, fields[i].shape.width)
    ensures |Encode(fields[..i + 1])| <= |Encode(fields)|
  {
    assert fields[..i + 1] == fields[..i] + [fields[i]];
    EncodeAppend(fields[..i], [fields[i]]);
    assert Encode([fields[i]]) == Digits(fields[i].value, fields[i].shape.width);
    assert fields == fields[..i + 1] + fields[i + 1..];
    EncodeAppend(fields[..i + 1], fields[i + 1..]);
  }

  /** The fields stand back to back: the next one begins where the one before ends. */
  lemma FieldPlace(fields: seq<Field>, i: nat)
    requires i < |fields|
    ensures var at, w := |Encode(fields[..i])|, fields[i].shape.width;
            at + w == |Encode(fields[..i + 1])| <= |Encode(fields)| &&
            Encode(fields)[at..at + w] == Digits(fields[i].value, w)
    ensures Encode(fields[..0]) == [] && Encode(fields[..|fields|]) == Encode(fields)
  {
    hide Digits;
    EncodeStep(fields, i);
    assert fields == fields[..i + 1] + fields[i + 1..];
    EncodeAppend(fields[..i + 1], fields[i + 1..]);
    assert fields[..|fields|] == fields;
  }

  lemma SliceConcat(m: Memory, a: nat, x: seq<Byte>, y: seq<Byte>)
    requires a + |x + y| <= |m| && m[a..a + |x + y|] == x + y
    ensures m[a..a + |x|] == x
    ensures m[a + |x|..a + |x| + |y|] == y
  {
    assert m[a..a + |x|] == m[a..a + |x + y|][..|x|];
    assert m[a + |x|..a + |x| + |y|] == m[a..a + |x + y|][|x|..];
  }

  lemma ReadCons(arch: Arch, m: Memory, a: nat, first: Shape, rest: seq<Shape>)
    requires first.Supported() && AllSupported(rest)
    requires a + Extent(arch, first) <= |m| && RecordFits(arch, |m|, a + first.width, rest)
    ensures AllSupported([first] + rest) && RecordFits(arch, |m|, a, [first] + rest)
    ensures ReadRecord(arch, m, a, [first] + rest)
         == [Load(arch, m, a, first)] + ReadRecord(arch, m, a + first.width, rest)
  {
    assert ([first] + rest)[1..] == rest;
  }

  /**
   A record written by the macros of one build and read by the macros of any other build, at any
   address and in any surrounding memory, gives every value back in order.
   */
  lemma {:induction false} RecordRoundTrip(arch: Arch, m: Memory, a: nat, fields: seq<Field>)
    requires forall i :: 0 <= i < |fields| ==> fields[i].Valid()
    requires a + |Encode(fields)| <= |m| && m[a..a + |Encode(fields)|] == Encode(fields)
    requires RecordFits(arch, |m|, a, Shapes(fields))
    ensures ReadRecord(arch, m, a, Shapes(fields)) == Values(fields)
    decreases |fields|
  {
    hide Digits, Load, Extent;
    if fields != [] {
      var w := fields[0].shape.width;
      SliceConcat(m, a, Digits(fields[0].value, w), Encode(fields[1..]));
      LoadOfStore(arch, m, a, fields[0]);
      RecordRoundTrip(arch, m, a + w, fields[1..]);
      ReadCons(arch, m, a, fields[0].shape, Shapes(fields[1..]));
    }
  }

  /** A one-byte margin after the record is all the x86 loads can need beyond it. */
  lemma {:induction false} OneByteMargin(arch: Arch, size: nat, a: nat, fields: seq<Field>)
    requires a + |Encode(fields)| + (if arch.X86? then 1 else 0) <= size
    ensures RecordFits(arch, size, a, Shapes(fields))
    decreases |fields|
  {
    if fields != [] {
      OneByteMargin(arch, size, a + fields[0].shape.width, fields[1..]);
    }
  }

  /** Write with one build, read with another: the whole trip in one memory. */
  method TransferRecord(writer: Arch, reader: Arch, t: array<Byte>, a: nat, fields: seq<Field>)
    returns (values: seq<int>)
    requires forall i :: 0 <= i < |fields| ==> fields[i].Valid()
    requires a + |Encode(fields)| < t.Length
    modifies t
    ensures values == Values(fields)
    ensures t[..a] == old(t[..a]) && t[a + |Encode(fields)|..] == old(t[a + |Encode(fields)|..])
  {
    WriteRecord(writer, t, a, fields);
    var m := t[..];
    assert m[a..a + |Encode(fields)|] == Encode(fields);
    OneByteMargin(reader, |m|, a, fields);
    RecordRoundTrip(reader, m, a, fields);
    values := ReadRecord(reader, m, a, Shapes(fields));
  }
}
