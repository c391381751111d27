/**
 Macros whose code depends on how the host lays out its own words: floating-point transfer in the
 machine-independent format, and access to shorts and longs in host order.

 A floating-point value is its bit pattern: 8 (or 4) bytes, least significant first. `DoubleLayout`
 says where a host keeps them in a variable. The stores must put the pattern itself on the wire.
 */
module HostFormats {
  import opened LittleEndian
  import Bits
  import IntegerCodec

  type Memory = IntegerCodec.Memory

  /** The four compiled variants of the float8 macros; plain `char` counts only for integers. */
  datatype Host = IntelHost | LittleHost | BigHost | WordSwappedHost

  function Reversed(s: seq<Byte>): (r: seq<Byte>)
    ensures |r| == |s|
    ensures forall i :: 0 <= i < |s| ==> r[i] == s[|s| - 1 - i]
  {
    if s == [] then [] else Reversed(s[1..]) + [s[0]]
  }

  /** The bytes of a `double` variable in address order. */
  function DoubleLayout(host: Host, pattern: seq<Byte>): (bytes: seq<Byte>)
    requires |pattern| == 8
    ensures |bytes| == 8
  {
    match host
    case IntelHost => pattern
    case LittleHost => pattern
    case BigHost => Reversed(pattern)
    case WordSwappedHost => pattern[4..] + pattern[..4]
  }

  /** The bytes of a `float` variable in address order; one word cannot be swapped. */
  function FloatLayout(host: Host, pattern: seq<Byte>): (bytes: seq<Byte>)
    requires |pattern| == 4
    ensures |bytes| == 4
  {
    if host.BigHost? then Reversed(pattern) else pattern
  }

  /** Where each byte of a pattern, the least significant first, stands in a variable. */
  lemma LayoutBytes(host: Host, double: seq<Byte>, float: seq<Byte>, i: nat)
    requires |double| == 8 && |float| == 4
    ensures i < 8 ==>
              DoubleLayout(host, double)[i] ==
              double[if host.BigHost? then 7 - i else if host.WordSwappedHost? then (i + 4) % 8 else i]
    ensures i < 4 ==> FloatLayout(host, float)[i] == float[if host.BigHost? then 3 - i else i]
  {
  }

  method CopyBytes(t: array<Byte>, a: nat, bytes: seq<Byte>)
    requires a + |bytes| <= t.Length
    modifies t
    ensures t[..] == Splice(old(t[..]), a, bytes)
  {
    forall i | 0 <= i < |bytes| {
      t[a + i] := bytes[i];
    }
  }

  // The x86 macros move a double as two words.

  method DoublestoreWords(t: array<Byte>, a: nat, v: seq<Byte>)
    requires a + 8 <= t.Length && |v| == 8
    modifies t
    ensures t[..] == Splice(old(t[..]), a, v)
  {
    hide Digits, Value;
    DigitsOfValue(v[..4]);
    DigitsOfValue(v[4..]);
    ghost var m := t[..];
    IntegerCodec.StoreWord(t, a, Value(v[..4]), 4);
    IntegerCodec.StoreWord(t, a + 4, Value(v[4..]), 4);
    IntegerCodec.SpliceAppend(m, a, v[..4], v[4..]);
    assert v == v[..4] + v[4..];
  }

  method DoublegetWords(v: array<Byte>, m: Memory, a: nat)
    requires v.Length == 8 && a + 8 <= |m|
    modifies v
    ensures v[..] == m[a..a + 8]
  {
    hide Digits, Value;
    DigitsOfValue(m[a..a + 4]);
    DigitsOfValue(m[a + 4..a + 8]);
    ghost var before := v[..];
    IntegerCodec.StoreWord(v, 0, Value(m[a..a + 4]), 4);
    IntegerCodec.StoreWord(v, 4, Value(m[a + 4..a + 8]), 4);
    IntegerCodec.SpliceAppend(before, 0, m[a..a + 4], m[a + 4..a + 8]);
    assert m[a..a + 8] == m[a..a + 4] + m[a + 4..a + 8];
  }

  // The macros of big-endian and of word-swapped hosts move a double byte by byte.

  method Float8storeReversed(t: array<Byte>, a: nat, v: seq<Byte>)
    requires a + 8 <= t.Length && |v| == 8
    modifies t
    ensures t[..] == Splice(old(t[..]), a, Reversed(v))
  {
    hide Splice, Reversed;
    ghost var m := t[..];
    t[a] := v[7];
    t[a + 1] := v[6];
    t[a + 2] := v[5];
    t[a + 3] := v[4];
    t[a + 4] := v[3];
    t[a + 5] := v[2];
    t[a + 6] := v[1];
    t[a + 7] := v[0];
    SpliceOfParts(m, a, Reversed(v), t[..]);
  }

  method DoublestoreSwapped(t: array<Byte>, a: nat, v: seq<Byte>)
    requires a + 8 <= t.Length && |v| == 8
    modifies t
    ensures t[..] == Splice(old(t[..]), a, v[4..] + v[..4])
  {
    hide Splice;
    ghost var m := t[..];
    t[a] := v[4];
    t[a + 1] := v[5];
    t[a + 2] := v[6];
    t[a + 3] := v[7];
    t[a + 4] := v[0];
    t[a + 5] := v[1];
    t[a + 6] := v[2];
    t[a + 7] := v[3];
    assert t[a..a + 8] == t[a..a + 4] + t[a + 4..a + 8];
    assert t[a..a + 4] == v[4..] && t[a + 4..a + 8] == v[..4];
    SpliceOfParts(m, a, v[4..] + v[..4], t[..]);
  }

  method Float8getReversed(v: array<Byte>, m: Memory, a: nat)
    requires v.Length == 8 && a + 8 <= |m|
    modifies v
    ensures v[..] == Reversed(m[a..a + 8])
    ensures v[..] == [m[a + 7], m[a + 6], m[a + 5], m[a + 4], m[a + 3], m[a + 2], m[a + 1], m[a]]
  {
    v[0] := m[a + 7];
    v[1] := m[a + 6];
    v[2] := m[a + 5];
    v[3] := m[a + 4];
    v[4] := m[a + 3];
    v[5] := m[a + 2];
    v[6] := m[a + 1];
    v[7] := m[a];
  }

  lemma SwappedWord(w: seq<Byte>)
    requires |w| == 8
    ensures w[4..] + w[..4] == [w[4], w[5], w[6], w[7], w[0], w[1], w[2], w[3]]
  {
  }

  method DoublegetSwapped(v: array<Byte>, m: Memory, a: nat)
    requires v.Length == 8 && a + 8 <= |m|
    modifies v
    ensures v[..] == m[a..a + 8][4..] + m[a..a + 8][..4]
    ensures v[..] == [m[a + 4], m[a + 5], m[a + 6], m[a + 7], m[a], m[a + 1], m[a + 2], m[a + 3]]
  {
    SwappedWord(m[a..a + 8]);
    v[0] := m[a + 4];
    v[1] := m[a + 5];
    v[2] := m[a + 6];
    v[3] := m[a + 7];
    v[4] := m[a];
    v[5] := m[a + 1];
    v[6] := m[a + 2];
    v[7] := m[a + 3];
  }

  /** Which byte of the variable each byte of the pattern is. */
  lemma WireBytes(host: Host, v: seq<Byte>, pattern: seq<Byte>)
    requires |pattern| == 8 && v == DoubleLayout(host, pattern)
    ensures pattern ==
            if host.BigHost? then [v[7], v[6], v[5], v[4], v[3], v[2], v[1], v[0]]
            else if host.WordSwappedHost? then [v[4], v[5], v[6], v[7], v[0], v[1], v[2], v[3]]
            else v
  {
  }

  /** Whatever the host, a `double` variable `v` holding `pattern` puts `pattern` on the wire. */
  method Float8store(host: Host, t: array<Byte>, a: nat, v: seq<Byte>, ghost pattern: seq<Byte>)
    requires a + 8 <= t.Length && |pattern| == 8 && v == DoubleLayout(host, pattern)
    modifies t
    ensures t[..] == Splice(old(t[..]), a, pattern)
    ensures t[a..a + 8] ==
            if host.BigHost? then [v[7], v[6], v[5], v[4], v[3], v[2], v[1], v[0]]
            else if host.WordSwappedHost? then [v[4], v[5], v[6], v[7], v[0], v[1], v[2], v[3]]
            else v
  {
    match host {
      case IntelHost =>
        DoublestoreWords(t, a, v);
      case LittleHost =>
        CopyBytes(t, a, v);
      case BigHost =>
        ReversedTwice(pattern);
        Float8storeReversed(t, a, v);
      case WordSwappedHost =>
        assert v[4..] + v[..4] == pattern;
        DoublestoreSwapped(t, a, v);
    }
    WireBytes(host, v, pattern);
    assert t[a..a + 8] == pattern;
  }

  /** Eight wire bytes become the bytes of a `double` variable in the host's own layout. */
  method Float8get(host: Host, v: array<Byte>, m: Memory, a: nat)
    requires v.Length == 8 && a + 8 <= |m|
    modifies v
    ensures v[..] == DoubleLayout(host, m[a..a + 8])
    ensures v[..] ==
            if host.BigHost? then [m[a + 7], m[a + 6], m[a + 5], m[a + 4], m[a + 3], m[a + 2], m[a + 1], m[a]]
            else if host.WordSwappedHost? then
              [m[a + 4], m[a + 5], m[a + 6], m[a + 7], m[a], m[a + 1], m[a + 2], m[a + 3]]
            else m[a..a + 8]
  {
    match host {
      case IntelHost =>
        DoublegetWords(v, m, a);
      case LittleHost =>
        CopyBytes(v, 0, m[a..a + 8]);
      case BigHost =>
        Float8getReversed(v, m, a);
      case WordSwappedHost =>
        DoublegetSwapped(v, m, a);
    }
  }

  method Float4store(host: Host, t: array<Byte>, a: nat, v: seq<Byte>, ghost pattern: seq<Byte>)
    requires a + 4 <= t.Length && |pattern| == 4 && v == FloatLayout(host, pattern)
    modifies t
    ensures t[..] == Splice(old(t[..]), a, pattern)
    ensures t[a..a + 4] == if host.BigHost? then [v[3], v[2], v[1], v[0]] else v
  {
    if host.BigHost? {
      t[a] := v[3];
      t[a + 1] := v[2];
      t[a + 2] := v[1];
      t[a + 3] := v[0];
    } else {
      CopyBytes(t, a, v);
    }
  }

  method Float4get(host: Host, v: array<Byte>, m: Memory, a: nat)
    requires v.Length == 4 && a + 4 <= |m|
    modifies v
    ensures v[..] == FloatLayout(host, m[a..a + 4])
    ensures v[..] == if host.BigHost? then [m[a + 3], m[a + 2], m[a + 1], m[a]] else m[a..a + 4]
  {
    if host.BigHost? {
      v[0] := m[a + 3];
      v[1] := m[a + 2];
      v[2] := m[a + 1];
      v[3] := m[a];
    } else {
      CopyBytes(v, 0, m[a..a + 4]);
    }
  }

  /** Stored on any host and fetched on any other, a double keeps its bit pattern. */
  method TransferDouble(from: Host, to: Host, wire: array<Byte>, a: nat, source: seq<Byte>, target: array<Byte>,
                        ghost pattern: seq<Byte>)
    requires a + 8 <= wire.Length && target.Length == 8 && wire != target
    requires |pattern| == 8 && source == DoubleLayout(from, pattern)
    modifies wire, target
    ensures target[..] == DoubleLayout(to, pattern)
    ensures wire[..] == Splice(old(wire[..]), a, pattern)
  {
    Float8store(from, wire, a, source, pattern);
    Float8get(to, target, wire[..], a);
  }

  method TransferFloat(from: Host, to: Host, wire: array<Byte>, a: nat, source: seq<Byte>, target: array<Byte>,
                       ghost pattern: seq<Byte>)
    requires a + 4 <= wire.Length && target.Length == 4 && wire != target
    requires |pattern| == 4 && source == FloatLayout(from, pattern)
    modifies wire, target
    ensures target[..] == FloatLayout(to, pattern)
    ensures wire[..] == Splice(old(wire[..]), a, pattern)
  {
    Float4store(from, wire, a, source, pattern);
    Float4get(to, target, wire[..], a);
  }

  /** A host layout loses nothing: the pattern is determined by the variable's bytes. */
  lemma LayoutInjective(host: Host, p: seq<Byte>, q: seq<Byte>)
    requires |p| == |q| == 8
    requires DoubleLayout(host, p) == DoubleLayout(host, q)
    ensures p == q
  {
    if host.BigHost? {
      forall i | 0 <= i < 8 ensures p[i] == q[i] {
        assert Reversed(p)[7 - i] == p[i] && Reversed(q)[7 - i] == q[i];
      }
    } else if host.WordSwappedHost? {
      assert p == (p[4..] + p[..4])[4..] + (p[4..] + p[..4])[..4];
      assert q == (q[4..] + q[..4])[4..] + (q[4..] + q[..4])[..4];
    }
  }

  // Shorts and longs in host order

  /** A big-endian host, or a little-endian one, where these macros are the portable-format ones. */
  datatype ByteOrder = BigEndian(plainCharSigned: bool) | LittleEndianAs(arch: IntegerCodec.Arch)

  /** The host's own `w`-byte representation of `v`. */
  function HostBytes(order: ByteOrder, v: int, w: nat): (bytes: seq<Byte>)
    ensures |bytes| == w
  {
    if order.BigEndian? then Reversed(Digits(v, w)) else Digits(v, w)
  }

  /** The number the host reads from the bytes of one of its words. */
  function HostValue(order: ByteOrder, bytes: seq<Byte>): nat {
    if order.BigEndian? then Value(Reversed(bytes)) else Value(bytes)
  }

  method Shortstore(order: ByteOrder, t: array<Byte>, a: nat, v: int)
    requires a + 2 <= t.Length
    modifies t
    ensures t[..] == Splice(old(t[..]), a, HostBytes(order, v, 2))
    ensures var low, high := v % 0x100, v / 0x100 % 0x100;
            t[a] == (if order.BigEndian? then high else low) && t[a + 1] == (if order.BigEndian? then low else high)
  {
    match order {
      case BigEndian(_) =>
        hide Digits;
        var temp := IntegerCodec.U32(v);
        Digits2(v);
        IntegerCodec.MiddleByte(v);
        t[a + 1] := temp % 0x100;
        t[a] := temp / 0x100 % 0x100;
      case LittleEndianAs(arch) =>
        IntegerCodec.Int2store(arch, t, a, v);
    }
  }

  method Longstore(order: ByteOrder, t: array<Byte>, a: nat, v: int)
    requires a + 4 <= t.Length
    modifies t
    ensures t[..] == Splice(old(t[..]), a, HostBytes(order, v, 4))
    ensures var b0, b1, b2, b3 := v % 0x100, v / 0x100 % 0x100, v / 0x1_0000 % 0x100, v / 0x100_0000 % 0x100;
            t[a..a + 4] == if order.BigEndian? then [b3, b2, b1, b0] else [b0, b1, b2, b3]
  {
    match order {
      case BigEndian(_) =>
        hide Digits;
        Digits4(v);
        t[a + 3] := v % 0x100;
        t[a + 2] := v / 0x100 % 0x100;
        t[a + 1] := v / 0x1_0000 % 0x100;
        t[a] := v / 0x100_0000 % 0x100;
      case LittleEndianAs(arch) =>
        IntegerCodec.Int4store(arch, t, a, v);
    }
  }

  lemma ReversedPair(m: Memory, a: nat)
    requires a + 2 <= |m|
    ensures Value(Reversed(m[a..a + 2])) == Uchar(m[a + 1]) + 0x100 * Uchar(m[a])
  {
    Value2(Reversed(m[a..a + 2]));
  }

  function Ushortget(order: ByteOrder, m: Memory, a: nat): (r: nat)
    requires a + 2 <= |m|
    ensures r == HostValue(order, m[a..a + 2])
    ensures r == if order.BigEndian? then 0x100 * Uchar(m[a]) + m[a + 1] else 0x100 * Uchar(m[a + 1]) + m[a]
  {
    Value2(m[a..a + 2]);
    match order
    case BigEndian(signed) =>
      ReversedPair(m, a);
      IntegerCodec.U16(IntegerCodec.U16(m[a + 1]) + IntegerCodec.U16(PlainChar(signed, m[a])) * 0x100)
    case LittleEndianAs(arch) => IntegerCodec.Uint2korr(arch, m, a)
  }

  function Shortget(order: ByteOrder, m: Memory, a: nat): (r: int)
    requires a + 2 <= |m|
    ensures r == Signed(HostValue(order, m[a..a + 2]), 2)
    ensures -0x8000 <= r < 0x8000
    ensures (r - Ushortget(order, m, a)) % 0x1_0000 == 0
  {
    match order
    case BigEndian(signed) =>
      Powers();
      ReversedPair(m, a);
      IntegerCodec.S16(IntegerCodec.S16(m[a + 1]) + IntegerCodec.S16(PlainChar(signed, m[a])) * 0x100)
    case LittleEndianAs(arch) => IntegerCodec.Sint2korr(arch, m, a)
  }

  /** On a big-endian host the four bytes are copied into a word, which the host then reads. */
  function Longget(order: ByteOrder, m: Memory, a: nat): (r: int)
    requires a + 4 <= |m|
    ensures r == Signed(HostValue(order, m[a..a + 4]), 4)
    ensures -0x8000_0000 <= r < 0x8000_0000
    ensures (r - Ulongget(order, m, a)) % 0x1_0000_0000 == 0
  {
    match order
    case BigEndian(_) =>
      Powers();
      assert m[a..a + 4] == [m[a], m[a + 1], m[a + 2], m[a + 3]];
      IntegerCodec.S32(HostValue(order, [m[a], m[a + 1], m[a + 2], m[a + 3]]))
    case LittleEndianAs(arch) => IntegerCodec.Sint4korr(arch, m, a)
  }

  function Ulongget(order: ByteOrder, m: Memory, a: nat): (r: nat)
    requires a + 4 <= |m|
    ensures r == HostValue(order, m[a..a + 4])
    ensures var b0, b1, b2, b3 := Uchar(m[a]), Uchar(m[a + 1]), Uchar(m[a + 2]), Uchar(m[a + 3]);
            r == if order.BigEndian? then 0x100_0000 * b0 + 0x1_0000 * b1 + 0x100 * b2 + b3
                 else 0x100_0000 * b3 + 0x1_0000 * b2 + 0x100 * b1 + b0
  {
    Value4(if order.BigEndian? then Reversed(m[a..a + 4]) else m[a..a + 4]);
    match order
    case BigEndian(_) =>
      assert m[a..a + 4] == [m[a], m[a + 1], m[a + 2], m[a + 3]];
      HostValue(order, [m[a], m[a + 1], m[a + 2], m[a + 3]])
    case LittleEndianAs(arch) => IntegerCodec.Uint4korr(arch, m, a)
  }

  /** Reads a big-endian 32-bit integer on any host. */
  function Int4net(m: Memory, a: nat): (r: int)
    requires a + 4 <= |m|
    ensures r == Signed(Value(Reversed(m[a..a + 4])), 4)
  {
    Powers();
    Value4(Reversed(m[a..a + 4]));
    var b0, b1, b2, b3 := Uchar(m[a + 3]), Uchar(m[a + 2]), Uchar(m[a + 1]), Uchar(m[a]);
    Bits.OrFourBytesUp(b0, b1, b2, b3);
    IntegerCodec.S32(Bits.Or(Bits.Or(Bits.Or(b0, b1 * 0x100), b2 * 0x1_0000), b3 * 0x100_0000))
  }

  lemma ReversedTwice(s: seq<Byte>)
    ensures Reversed(Reversed(s)) == s
  {
  }

  /** What the host writes for `v`, the host reads back modulo the width. */
  lemma HostRoundTrip(order: ByteOrder, v: int, w: nat)
    ensures HostValue(order, HostBytes(order, v, w)) == v % Pow256(w)
  {
    ReversedTwice(Digits(v, w));
    ValueOfDigits(v, w);
  }

  /** The get macros invert the store macros on both kinds of host, over the full range. */
  lemma GetsInvertStores(order: ByteOrder, m: Memory, a: nat, v: int, w: nat)
    requires w in {2, 4} && a + w <= |m| && m[a..a + w] == HostBytes(order, v, w)
    ensures w == 2 && -0x8000 <= v < 0x8000 ==> Shortget(order, m, a) == v
    ensures w == 2 && 0 <= v < 0x1_0000 ==> Ushortget(order, m, a) == v
    ensures w == 4 && -0x8000_0000 <= v < 0x8000_0000 ==> Longget(order, m, a) == v
    ensures w == 4 && 0 <= v < 0x1_0000_0000 ==> Ulongget(order, m, a) == v
  {
    Powers();
    HostRoundTrip(order, v, w);
    ValueOfDigits(v, w);
    if -(Pow256(w) as int) <= 2 * v < Pow256(w) {
      SignedOfDigits(v, w);
    }
    if 0 <= v < Pow256(w) {
      UnsignedOfDigits(v, w);
    }
  }

  /** Network order is the big-endian host order: `int4net` undoes a big-endian `longstore` on any host. */
  lemma Int4netInvertsBigEndianLongstore(order: ByteOrder, m: Memory, a: nat, v: int)
    requires order.BigEndian? && -0x8000_0000 <= v < 0x8000_0000
    requires a + 4 <= |m| && m[a..a + 4] == HostBytes(order, v, 4)
    ensures Int4net(m, a) == v
  {
    Powers();
    ReversedTwice(Digits(v, 4));
    SignedOfDigits(v, 4);
  }

  /** Reading reversed bytes in network order is reading the original ones low byte first. */
  lemma Int4netOfReversed(arch: IntegerCodec.Arch, m: Memory, a: nat)
    requires a + 4 <= |m|
    ensures Int4net(Reversed(m[a..a + 4]), 0) == IntegerCodec.Sint4korr(arch, m, a)
  {
    ReversedTwice(m[a..a + 4]);
    var r := Reversed(m[a..a + 4]);
    assert r[0..0 + 4] == r;
  }
}
