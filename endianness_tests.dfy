/**
 * The worked examples of the endianness module documentation and its unit
 * tests over the 31-byte `DATA` vector, restated over the model.
 */
module EndiannessTests {
  import opened Wrappers
  import opened Widths
  import opened Partition
  import opened Endianness

  const Low8: seq<Byte> := [0x00, 0x11, 0x22, 0x33, 0x44, 0x55, 0x66, 0x77]
  const High8: seq<Byte> := [0x88, 0x99, 0xAA, 0xBB, 0xCC, 0xDD, 0xEE, 0xFF]
  const Tail15: seq<Byte> := [0x00, 0x11, 0x22, 0x33, 0x44, 0x55, 0x66, 0x77, 0x88, 0x99, 0xAA, 0xBB, 0xCC, 0xDD, 0xEE]

  /** `DATA[..16]`: byte `j` is `0x11 * j`. */
  const Low16: seq<Byte> := seq(16, j requires 0 <= j < 16 => 0x11 * j)

  /** The 31-byte test vector `DATA`: `0x00, 0x11, .., 0xFF`, then `0x00, .., 0xEE` again. */
  const Data: seq<Byte> := Low8 + High8 + Tail15

  lemma DataPrefixes()
    ensures |Data| == 31
    ensures Data[..2] == [0x00, 0x11] && Data[..4] == [0x00, 0x11, 0x22, 0x33]
  {
  }

  lemma DataHalves()
    ensures Data[..8] == Low8 && Data[8..16] == High8 && Data[..16] == Low8 + High8
  {
  }

  lemma DataLow16()
    ensures Data[..16] == Low16
  {
    DataHalves();
  }

  /** The windows of a `P3<_, 2, 4, 2>` over `Low8`. */
  lemma Low8Windows()
    ensures Low8[0..2] == [0x00, 0x11] && Low8[2..6] == [0x22, 0x33, 0x44, 0x55] && Low8[6..8] == [0x66, 0x77]
  {
  }

  lemma Low8Halves()
    ensures Low8[0..4] == [0x00, 0x11, 0x22, 0x33] && Low8[4..8] == [0x44, 0x55, 0x66, 0x77]
  {
  }

  // ---------------------------------------------------------------------------
  // Helpers: integers of two, four and eight bytes

  /** `u16` from two bytes, little endian. */
  lemma LeTwo(bytes: seq<Byte>)
    requires |bytes| == 2
    ensures LeValue(bytes) == bytes[0] as int + 256 * bytes[1] as int
  {
    assert bytes[1..][1..] == [];
  }

  /** `u16` from two bytes, big endian. */
  lemma BeTwo(bytes: seq<Byte>)
    requires |bytes| == 2
    ensures BeValue(bytes) == 256 * bytes[0] as int + bytes[1] as int
  {
    assert bytes[..1][..0] == [];
  }

  /** `u32` from four bytes, little endian, as two `u16` halves. */
  lemma LeFour(bytes: seq<Byte>)
    requires |bytes| == 4
    ensures LeValue(bytes)
         == bytes[0] as int + 0x100 * bytes[1] as int + 0x1_0000 * bytes[2] as int + 0x100_0000 * bytes[3] as int
  {
    Pow2Table();
    assert bytes == bytes[..2] + bytes[2..];
    LeValueAppend(bytes[..2], bytes[2..]);
    LeTwo(bytes[..2]);
    LeTwo(bytes[2..]);
  }

  /** `u32` from four bytes, big endian: the little-endian value of the reversed bytes. */
  lemma BeFour(bytes: seq<Byte>)
    requires |bytes| == 4
    ensures BeValue(bytes)
         == 0x100_0000 * bytes[0] as int + 0x1_0000 * bytes[1] as int + 0x100 * bytes[2] as int + bytes[3] as int
  {
    BeIsReversedLe(bytes);
    var rev := Reverse(bytes);
    assert rev[0] == bytes[3] && rev[1] == bytes[2] && rev[2] == bytes[1] && rev[3] == bytes[0];
    LeFour(rev);
  }

  /** `u64` from eight bytes, little endian, as two `u32` halves. */
  lemma LeEight(bytes: seq<Byte>)
    requires |bytes| == 8
    ensures LeValue(bytes) == LeValue(bytes[..4]) + 0x1_0000_0000 * LeValue(bytes[4..])
  {
    Pow2Table();
    assert bytes == bytes[..4] + bytes[4..];
    LeValueAppend(bytes[..4], bytes[4..]);
  }

  /** `u64` from eight bytes, big endian, as two `u32` halves. */
  lemma BeEight(bytes: seq<Byte>)
    requires |bytes| == 8
    ensures BeValue(bytes) == 0x1_0000_0000 * BeValue(bytes[..4]) + BeValue(bytes[4..])
  {
    Pow2Table();
    assert bytes == bytes[..4] + bytes[4..];
    BeValueAppend(bytes[..4], bytes[4..]);
  }

  /** `u16` decoded from two given bytes, little endian. */
  lemma LeU16Of(b0: Byte, b1: Byte)
    ensures FromBytes(Little, Uint(2), [b0, b1]) == Int(b0 + 0x100 * b1)
  {
    LeTwo([b0, b1]);
  }

  /** `u16` decoded from two given bytes, big endian. */
  lemma BeU16Of(b0: Byte, b1: Byte)
    ensures FromBytes(Big, Uint(2), [b0, b1]) == Int(0x100 * b0 + b1)
  {
    BeTwo([b0, b1]);
  }

  /** `u32` decoded from four given bytes, little endian. */
  lemma LeU32Of(b0: Byte, b1: Byte, b2: Byte, b3: Byte)
    ensures FromBytes(Little, Uint(4), [b0, b1, b2, b3]) == Int(b0 + 0x100 * b1 + 0x1_0000 * b2 + 0x100_0000 * b3)
  {
    LeFour([b0, b1, b2, b3]);
  }

  // ---------------------------------------------------------------------------
  // Integers

  /** `u32::from_le_bytes(DATA[..4])`. */
  lemma LeU32()
    ensures FromBytes(Little, Uint(4), Data[..4]) == Int(0x3322_1100)
  {
    DataPrefixes();
    LeFour(Data[..4]);
  }

  /** `u16::from_be_bytes(DATA[..2])` and `u32::from_be_bytes(DATA[..4])`. */
  lemma BeU16U32()
    ensures FromBytes(Big, Uint(2), Data[..2]) == Int(0x0011)
    ensures FromBytes(Big, Uint(4), Data[..4]) == Int(0x0011_2233)
  {
    DataPrefixes();
    BeTwo(Data[..2]);
    BeFour(Data[..4]);
  }

  lemma LeLow8()
    ensures LeValue(Low8) == 0x7766_5544_3322_1100
  {
    Low8Halves();
    LeEight(Low8);
    LeFour(Low8[..4]);
    LeFour(Low8[4..]);
  }

  lemma LeHigh8()
    ensures LeValue(High8) == 0xFFEE_DDCC_BBAA_9988
  {
    assert High8[..4] == [0x88, 0x99, 0xAA, 0xBB] && High8[4..] == [0xCC, 0xDD, 0xEE, 0xFF];
    LeEight(High8);
    LeFour(High8[..4]);
    LeFour(High8[4..]);
  }

  /** `u64::from_le_bytes(DATA[..8])`. */
  lemma LeU64()
    ensures FromBytes(Little, Uint(8), Data[..8]) == Int(0x7766_5544_3322_1100)
  {
    DataHalves();
    LeLow8();
  }

  /** `u64::from_be_bytes(DATA[..8])`. */
  lemma BeU64()
    ensures FromBytes(Big, Uint(8), Data[..8]) == Int(0x0011_2233_4455_6677)
  {
    DataHalves();
    Low8Halves();
    BeEight(Low8);
    BeFour(Low8[..4]);
    BeFour(Low8[4..]);
  }

  /** `u128::from_le_bytes(DATA[..16])`, as its two 8-byte halves. */
  lemma LeU128()
    ensures FromBytes(Little, Uint(16), Data[..16]) == Int(0xFFEE_DDCC_BBAA_9988_7766_5544_3322_1100)
  {
    Pow2Table();
    DataHalves();
    LeValueAppend(Low8, High8);
    LeLow8();
    LeHigh8();
  }

  // ---------------------------------------------------------------------------
  // Integer arrays

  /** Element `k` of a `[u16; M]` decode, in terms of its two bytes. */
  lemma U16Element(e: Endian, count: nat, bytes: seq<Byte>, k: nat, b0: Byte, b1: Byte)
    requires |bytes| == 2 * count && k < count
    requires bytes[2 * k] == b0 && bytes[2 * k + 1] == b1
    ensures DecodeArray(e, 2, count, bytes)[k] == if e == Little then b0 + 256 * b1 else 256 * b0 + b1
  {
    var chunk := bytes[k * 2..(k + 1) * 2];
    assert chunk[0] == b0 && chunk[1] == b1;
    LeTwo(chunk);
    BeTwo(chunk);
  }

  /** Element `k` of `[u16; 8]` decoded from `DATA[..16]`, whose bytes are `0x22 * k` and `0x22 * k + 0x11`. */
  lemma Low16Element(e: Endian, k: nat, x: nat)
    requires k < 8
    requires x == if e == Little then 0x22 * k + 0x100 * (0x22 * k + 0x11) else 0x100 * (0x22 * k) + 0x22 * k + 0x11
    ensures DecodeArray(e, 2, 8, Low16)[k] == x
  {
    U16Element(e, 8, Low16, k, 0x22 * k, 0x22 * k + 0x11);
  }

  /** `[u16; 8]` from `DATA[..16]`, little endian. */
  lemma LeU16Array()
    ensures FromBytes(Little, UintArray(2, 8), Data[..16])
         == Ints([0x1100, 0x3322, 0x5544, 0x7766, 0x9988, 0xBBAA, 0xDDCC, 0xFFEE])
  {
    DataLow16();
    var xs := DecodeArray(Little, 2, 8, Low16);
    Low16Element(Little, 0, 0x1100);
    Low16Element(Little, 1, 0x3322);
    Low16Element(Little, 2, 0x5544);
    Low16Element(Little, 3, 0x7766);
    Low16Element(Little, 4, 0x9988);
    Low16Element(Little, 5, 0xBBAA);
    Low16Element(Little, 6, 0xDDCC);
    Low16Element(Little, 7, 0xFFEE);
    assert xs == [0x1100, 0x3322, 0x5544, 0x7766, 0x9988, 0xBBAA, 0xDDCC, 0xFFEE];
  }

  /** `[u16; 8]` from `DATA[..16]`, big endian. */
  lemma BeU16Array()
    ensures FromBytes(Big, UintArray(2, 8), Data[..16])
         == Ints([0x0011, 0x2233, 0x4455, 0x6677, 0x8899, 0xAABB, 0xCCDD, 0xEEFF])
  {
    DataLow16();
    var xs := DecodeArray(Big, 2, 8, Low16);
    Low16Element(Big, 0, 0x0011);
    Low16Element(Big, 1, 0x2233);
    Low16Element(Big, 2, 0x4455);
    Low16Element(Big, 3, 0x6677);
    Low16Element(Big, 4, 0x8899);
    Low16Element(Big, 5, 0xAABB);
    Low16Element(Big, 6, 0xCCDD);
    Low16Element(Big, 7, 0xEEFF);
    assert xs == [0x0011, 0x2233, 0x4455, 0x6677, 0x8899, 0xAABB, 0xCCDD, 0xEEFF];
  }

  // ---------------------------------------------------------------------------
  // Tuples

  /** Where the three parts of a `P3` start, and how wide the whole is. */
  lemma Offsets3(a: nat, b: nat, c: nat)
    ensures Offset([a, b, c], 0) == 0 && Offset([a, b, c], 1) == a && Offset([a, b, c], 2) == a + b
    ensures Sum([a, b, c]) == a + b + c
  {
    assert [a, b, c][..0] == [] && [a, b, c][..1] == [a] && [a, b, c][..2] == [a, b];
    assert [a, b, c][1..] == [b, c] && [b, c][1..] == [c] && [a, b][1..] == [b];
    assert [a][1..] == [] && [b][1..] == [] && [c][1..] == [];
    assert Sum([c]) == c && Sum([b]) == b && Sum([a]) == a;
    assert Sum([b, c]) == b + c && Sum([a, b]) == a + b;
  }

  /** The declared widths of a `P3` are the widths of its parts. */
  lemma PartWidths3(p: Layout, q: Layout, r: Layout)
    ensures PartWidths([p, q, r]) == [Width(p), Width(q), Width(r)]
  {
  }

  /** A `P3` of well-formed parts is well formed, and where its parts sit. */
  lemma Tuple3Shape(p: Layout, q: Layout, r: Layout)
    requires WellFormed(p) && WellFormed(q) && WellFormed(r)
    ensures WellFormed(Tuple([p, q, r]))
    ensures PartWidths([p, q, r]) == [Width(p), Width(q), Width(r)]
    ensures Width(Tuple([p, q, r])) == Width(p) + Width(q) + Width(r)
    ensures Offset(PartWidths([p, q, r]), 1) == Width(p)
    ensures Offset(PartWidths([p, q, r]), 2) == Width(p) + Width(q)
  {
    var parts := [p, q, r];
    assert forall i :: 0 <= i < 3 ==> WellFormed(parts[i]);
    PartWidths3(p, q, r);
    Offsets3(Width(p), Width(q), Width(r));
  }

  /** `TuplePart` with the window of part `i` given by its two ends. */
  lemma PartAt(e: Endian, parts: seq<Layout>, bytes: seq<Byte>, i: nat, lo: nat, hi: nat)
    requires WellFormed(Tuple(parts)) && |bytes| == Width(Tuple(parts)) && i < |parts|
    requires lo == Offset(PartWidths(parts), i) && hi == lo + Width(parts[i])
    ensures lo <= hi <= |bytes|
    ensures FromBytes(e, Tuple(parts), bytes).Tup? && |FromBytes(e, Tuple(parts), bytes).vs| == |parts|
    ensures FromBytes(e, Tuple(parts), bytes).vs[i] == FromBytes(e, parts[i], bytes[lo..hi])
  {
    var chunks := Split(bytes, PartWidths(parts));
    SplitAt(bytes, PartWidths(parts), i);
    var vs := seq(|parts|, j requires 0 <= j < |parts| => FromBytes(e, parts[j], chunks[j]));
    assert FromBytes(e, Tuple(parts), bytes) == Tup(vs);
  }

  /** Part `i` of a tuple decoded with per-part byte orders, its window given by its two ends. */
  lemma MixedAt(o: seq<Endian>, parts: seq<Layout>, bytes: seq<Byte>, i: nat, lo: nat, hi: nat)
    requires WellFormed(Tuple(parts)) && |o| == |parts| && |bytes| == Width(Tuple(parts)) && i < |parts|
    requires lo == Offset(PartWidths(parts), i) && hi == lo + Width(parts[i])
    ensures lo <= hi <= |bytes|
    ensures MixedFrom(o, parts, bytes)[i] == FromBytes(o[i], parts[i], bytes[lo..hi])
  {
    MixedPart(o, parts, bytes, i);
    PartAt(o[i], parts, bytes, i, lo, hi);
  }

  /** A `P3` whose parts are `a`, `b` and `c` bytes wide decodes each part off its own window. */
  lemma Tuple3(e: Endian, parts: seq<Layout>, bytes: seq<Byte>, a: nat, b: nat, c: nat)
    requires |parts| == 3 && WellFormed(Tuple(parts))
    requires Width(parts[0]) == a && Width(parts[1]) == b && Width(parts[2]) == c && |bytes| == a + b + c
    ensures Width(Tuple(parts)) == |bytes|
    ensures FromBytes(e, Tuple(parts), bytes)
         == Tup([FromBytes(e, parts[0], bytes[0..a]),
                 FromBytes(e, parts[1], bytes[a..a + b]),
                 FromBytes(e, parts[2], bytes[a + b..a + b + c])])
  {
    Part3(e, parts, bytes, a, b, c, 0, 0, a);
    Part3(e, parts, bytes, a, b, c, 1, a, a + b);
    Part3(e, parts, bytes, a, b, c, 2, a + b, a + b + c);
    var t := FromBytes(e, Tuple(parts), bytes);
    var x0, x1, x2 := t.vs[0], t.vs[1], t.vs[2];
    assert t == Tup([x0, x1, x2]);
  }

  /** Part `i` of such a `P3`, its window given by its two ends. */
  lemma Part3(e: Endian, parts: seq<Layout>, bytes: seq<Byte>, a: nat, b: nat, c: nat, i: nat, lo: nat, hi: nat)
    requires |parts| == 3 && WellFormed(Tuple(parts))
    requires Width(parts[0]) == a && Width(parts[1]) == b && Width(parts[2]) == c && |bytes| == a + b + c
    requires i < 3 && lo == [0, a, a + b][i] && hi == [a, a + b, a + b + c][i]
    ensures Width(Tuple(parts)) == |bytes| && lo <= hi <= |bytes|
    ensures FromBytes(e, Tuple(parts), bytes).Tup? && |FromBytes(e, Tuple(parts), bytes).vs| == 3
    ensures FromBytes(e, Tuple(parts), bytes).vs[i] == FromBytes(e, parts[i], bytes[lo..hi])
  {
    assert PartWidths(parts) == [a, b, c];
    Offsets3(a, b, c);
    PartAt(e, parts, bytes, i, lo, hi);
  }

  /** `(u16, u32, [u8; 2])`. */
  const MixedParts: seq<Layout> := [Uint(2), Uint(4), ByteArray(2)]

  /** `let P3((a, b, c)) = data.le_bytes_into()` over the first 8 bytes. */
  lemma LeMixedTuple()
    ensures WellFormed(Tuple(MixedParts)) && Width(Tuple(MixedParts)) == 8
    ensures FromBytes(Little, Tuple(MixedParts), Data[..8])
         == Tup([Int(0x1100), Int(0x5544_3322), Octets([0x66, 0x77])])
  {
    DataHalves();
    Low8Windows();
    Tuple3Shape(Uint(2), Uint(4), ByteArray(2));
    Tuple3(Little, MixedParts, Low8, 2, 4, 2);
    LeU16Of(0x00, 0x11);
    LeU32Of(0x22, 0x33, 0x44, 0x55);
  }

  /** `T3::from(data).into()` into a 3-tuple of per-part byte orders reads each part off its window. */
  lemma Mixed3(o: seq<Endian>, parts: seq<Layout>, bytes: seq<Byte>, a: nat, b: nat, c: nat)
    requires |o| == 3 && |parts| == 3 && WellFormed(Tuple(parts))
    requires Width(parts[0]) == a && Width(parts[1]) == b && Width(parts[2]) == c && |bytes| == a + b + c
    ensures Width(Tuple(parts)) == |bytes|
    ensures MixedFrom(o, parts, bytes)
         == [FromBytes(o[0], parts[0], bytes[0..a]),
             FromBytes(o[1], parts[1], bytes[a..a + b]),
             FromBytes(o[2], parts[2], bytes[a + b..a + b + c])]
  {
    MixedPart3(o, parts, bytes, a, b, c, 0, 0, a);
    MixedPart3(o, parts, bytes, a, b, c, 1, a, a + b);
    MixedPart3(o, parts, bytes, a, b, c, 2, a + b, a + b + c);
    var vs := MixedFrom(o, parts, bytes);
    var x0, x1, x2 := vs[0], vs[1], vs[2];
    assert vs == [x0, x1, x2];
  }

  /** Part `i` of such a per-part-order `P3`, its window given by its two ends. */
  lemma MixedPart3(o: seq<Endian>, parts: seq<Layout>, bytes: seq<Byte>, a: nat, b: nat, c: nat, i: nat, lo: nat, hi: nat)
    requires |o| == 3 && |parts| == 3 && WellFormed(Tuple(parts))
    requires Width(parts[0]) == a && Width(parts[1]) == b && Width(parts[2]) == c && |bytes| == a + b + c
    requires i < 3 && lo == [0, a, a + b][i] && hi == [a, a + b, a + b + c][i]
    ensures Width(Tuple(parts)) == |bytes| && lo <= hi <= |bytes|
    ensures MixedFrom(o, parts, bytes)[i] == FromBytes(o[i], parts[i], bytes[lo..hi])
  {
    assert PartWidths(parts) == [a, b, c];
    Offsets3(a, b, c);
    MixedAt(o, parts, bytes, i, lo, hi);
  }

  /** `let (Be(a), Le(b), c) = T3::from(data).into()` over the first 8 bytes. */
  lemma MixedOrderTuple()
    ensures WellFormed(Tuple(MixedParts)) && Width(Tuple(MixedParts)) == 8
    ensures MixedFrom([Big, Little, Little], MixedParts, Data[..8])
         == [Int(0x0011), Int(0x5544_3322), Octets([0x66, 0x77])]
  {
    DataHalves();
    Low8Windows();
    Tuple3Shape(Uint(2), Uint(4), ByteArray(2));
    Mixed3([Big, Little, Little], MixedParts, Low8, 2, 4, 2);
    BeU16Of(0x00, 0x11);
    LeU32Of(0x22, 0x33, 0x44, 0x55);
  }

  /** `([u16; 2], [u32; 1])`. */
  const ArrayParts: seq<Layout> := [UintArray(2, 2), UintArray(4, 1)]

  /** Where the two parts of a `P2` start, and how wide the whole is. */
  lemma Offsets2(a: nat, b: nat)
    ensures Offset([a, b], 0) == 0 && Offset([a, b], 1) == a
    ensures Sum([a, b]) == a + b
  {
    assert [a, b][..0] == [] && [a, b][..1] == [a];
    assert [a, b][1..] == [b] && [a][1..] == [] && [b][1..] == [];
    assert Sum([b]) == b && Sum([a]) == a;
  }

  /** A `P2` of well-formed parts is well formed, and where its second part starts. */
  lemma Tuple2Shape(p: Layout, q: Layout)
    requires WellFormed(p) && WellFormed(q)
    ensures WellFormed(Tuple([p, q]))
    ensures PartWidths([p, q]) == [Width(p), Width(q)]
    ensures Width(Tuple([p, q])) == Width(p) + Width(q)
    ensures Offset(PartWidths([p, q]), 1) == Width(p)
  {
    var parts := [p, q];
    assert forall i :: 0 <= i < 2 ==> WellFormed(parts[i]);
    assert PartWidths(parts) == [Width(p), Width(q)];
    Offsets2(Width(p), Width(q));
  }

  /** A `P2` whose parts are `a` and `b` bytes wide decodes each part off its own window. */
  lemma Tuple2(e: Endian, parts: seq<Layout>, bytes: seq<Byte>, a: nat, b: nat)
    requires |parts| == 2 && WellFormed(Tuple(parts))
    requires Width(parts[0]) == a && Width(parts[1]) == b && |bytes| == a + b
    ensures Width(Tuple(parts)) == |bytes|
    ensures FromBytes(e, Tuple(parts), bytes)
         == Tup([FromBytes(e, parts[0], bytes[0..a]), FromBytes(e, parts[1], bytes[a..a + b])])
  {
    assert PartWidths(parts) == [a, b];
    Offsets2(a, b);
    var t := FromBytes(e, Tuple(parts), bytes);
    PartAt(e, parts, bytes, 0, 0, a);
    PartAt(e, parts, bytes, 1, a, a + b);
    assert t == Tup([t.vs[0], t.vs[1]]);
  }

  /** `T2::from(data).into()` into a pair of per-part byte orders reads each part off its window. */
  lemma Mixed2(o: seq<Endian>, parts: seq<Layout>, bytes: seq<Byte>, a: nat, b: nat)
    requires |o| == 2 && |parts| == 2 && WellFormed(Tuple(parts))
    requires Width(parts[0]) == a && Width(parts[1]) == b && |bytes| == a + b
    ensures Width(Tuple(parts)) == |bytes|
    ensures MixedFrom(o, parts, bytes)
         == [FromBytes(o[0], parts[0], bytes[0..a]), FromBytes(o[1], parts[1], bytes[a..a + b])]
  {
    assert PartWidths(parts) == [a, b];
    Offsets2(a, b);
    var vs := MixedFrom(o, parts, bytes);
    MixedAt(o, parts, bytes, 0, 0, a);
    MixedAt(o, parts, bytes, 1, a, a + b);
    assert vs == [vs[0], vs[1]];
  }

  /** `[u16; 2]` decoded from four given bytes, big endian. */
  lemma BeU16PairOf(b0: Byte, b1: Byte, b2: Byte, b3: Byte)
    ensures FromBytes(Big, UintArray(2, 2), [b0, b1, b2, b3]) == Ints([0x100 * b0 + b1, 0x100 * b2 + b3])
  {
    var xs := DecodeArray(Big, 2, 2, [b0, b1, b2, b3]);
    U16Element(Big, 2, [b0, b1, b2, b3], 0, b0, b1);
    U16Element(Big, 2, [b0, b1, b2, b3], 1, b2, b3);
    assert xs == [xs[0], xs[1]];
  }

  /** `[u32; 1]` decoded from four given bytes, little endian. */
  lemma LeU32SingleOf(b0: Byte, b1: Byte, b2: Byte, b3: Byte)
    ensures FromBytes(Little, UintArray(4, 1), [b0, b1, b2, b3])
         == Ints([b0 + 0x100 * b1 + 0x1_0000 * b2 + 0x100_0000 * b3])
  {
    var bytes := [b0, b1, b2, b3];
    var xs := DecodeArray(Little, 4, 1, bytes);
    assert bytes[0 * 4..1 * 4] == bytes;
    LeFour(bytes);
    assert xs == [xs[0]];
  }

  /** `let (Be(a), Le(b)) = P2::<_, 4, 4>(data).into()` over the first 8 bytes. */
  lemma MixedOrderArrays()
    ensures WellFormed(Tuple(ArrayParts)) && Width(Tuple(ArrayParts)) == 8
    ensures MixedFrom([Big, Little], ArrayParts, Data[..8]) == [Ints([0x0011, 0x2233]), Ints([0x7766_5544])]
  {
    DataHalves();
    Low8Halves();
    Tuple2Shape(UintArray(2, 2), UintArray(4, 1));
    Mixed2([Big, Little], ArrayParts, Low8, 4, 4);
    BeU16PairOf(0x00, 0x11, 0x22, 0x33);
    LeU32SingleOf(0x44, 0x55, 0x66, 0x77);
  }

  /** `if let Le((0x1100u16, data)) = T2::from(DATA).into()`: the head is `0x1100`, the rest 29 bytes. */
  lemma Destructuring()
    ensures WellFormed(Tuple([Uint(2), ByteArray(29)])) && Width(Tuple([Uint(2), ByteArray(29)])) == |Data|
    ensures FromBytes(Little, Tuple([Uint(2), ByteArray(29)]), Data) == Tup([Int(0x1100), Octets(Data[2..])])
  {
    DataPrefixes();
    Tuple2Shape(Uint(2), ByteArray(29));
    Tuple2(Little, [Uint(2), ByteArray(29)], Data, 2, 29);
    assert Data[0..2] == Data[..2] && Data[2..31] == Data[2..];
    LeU16Of(0x00, 0x11);
  }

  /** `P3<(u8, u16, u32), 1, 2, 4>`: seven bytes wide, but eight bytes in memory. */
  const PaddedTuple: Layout := Tuple([U8, Uint(2), Uint(4)])

  /**
   * The padded tuple through the slice path: as written it accepts only a
   * slice of exactly 7 bytes, since a longer one is cut at 8; cut at `N` it
   * accepts every slice of at least 7 bytes.
   */
  lemma PaddedTupleSlice(e: Endian, slice: seq<Byte>)
    ensures WellFormed(PaddedTuple) && Width(PaddedTuple) == 7
    ensures TryFromBytesAsWritten(e, PaddedTuple, 8, slice).Ok? <==> |slice| == 7
    ensures TryFromBytes(e, PaddedTuple, slice).Ok? <==> 7 <= |slice|
  {
    PartWidths3(U8, Uint(2), Uint(4));
    Offsets3(1, 2, 4);
  }

  const Doc7: seq<Byte> := [0x00, 0x11, 0x22, 0x33, 0x44, 0x55, 0x66]

  lemma Doc7Slices()
    ensures Doc7[0..1] == [0x00] && Doc7[1..3] == [0x11, 0x22] && Doc7[3..7] == [0x33, 0x44, 0x55, 0x66]
  {
  }

  /** `let P3((byte, word, dword)) = [0x00, .., 0x66].le_bytes_into()`. */
  lemma DocTupleExample()
    ensures WellFormed(PaddedTuple) && Width(PaddedTuple) == |Doc7|
    ensures FromBytes(Little, PaddedTuple, Doc7) == Tup([Octet(0x00), Int(0x2211), Int(0x6655_4433)])
  {
    Tuple3Shape(U8, Uint(2), Uint(4));
    Tuple3(Little, PaddedTuple.parts, Doc7, 1, 2, 4);
    Doc7Slices();
    LeU16Of(0x11, 0x22);
    LeU32Of(0x33, 0x44, 0x55, 0x66);
  }

  /** `P3<(u8, u16, u16), 1, 2, 2>`, nested as the last part of the next layout. */
  const Inner: Layout := Tuple([U8, Uint(2), Uint(2)])

  /** `P3<(u8, u32, P3<(u8, u16, u16), 1, 2, 2>), 1, 4, 5>`. */
  const Nested: Layout := Tuple([U8, Uint(4), Inner])

  const Doc10: seq<Byte> := [0x00, 0x11, 0x11, 0x11, 0x11, 0x22, 0x33, 0x33, 0x44, 0x44]

  lemma Doc10Slices()
    ensures Doc10[0..1] == [0x00] && Doc10[1..5] == [0x11, 0x11, 0x11, 0x11] && Doc10[5..10] == Doc10[5..]
    ensures Doc10[5..][0..1] == [0x22] && Doc10[5..][1..3] == [0x33, 0x33] && Doc10[5..][3..5] == [0x44, 0x44]
  {
  }

  lemma InnerExample()
    ensures WellFormed(Inner) && Width(Inner) == 5
    ensures FromBytes(Little, Inner, Doc10[5..]) == Tup([Octet(0x22), Int(0x3333), Int(0x4444)])
  {
    Doc10Slices();
    var bytes := Doc10[5..];
    Tuple3Shape(U8, Uint(2), Uint(2));
    Tuple3(Little, Inner.parts, bytes, 1, 2, 2);
    LeU16Of(0x33, 0x33);
    LeU16Of(0x44, 0x44);
  }

  /** The nested layout decodes the inner tuple from its own five bytes. */
  lemma NestedExample()
    ensures WellFormed(Nested) && Width(Nested) == |Doc10|
    ensures FromBytes(Little, Nested, Doc10)
         == Tup([Octet(0x00), Int(0x1111_1111), Tup([Octet(0x22), Int(0x3333), Int(0x4444)])])
  {
    InnerExample();
    Doc10Slices();
    Tuple3Shape(U8, Uint(4), Inner);
    Tuple3(Little, Nested.parts, Doc10, 1, 4, 5);
    LeU32Of(0x11, 0x11, 0x11, 0x11);
  }

  // ---------------------------------------------------------------------------
  // The slice path

  /** `try_from_le_bytes(&DATA[..2])` for `u16`, as written and cut at `N`: the head and no tail. */
  lemma TryFromU16()
    ensures TryFromBytesAsWritten(Little, Uint(2), 2, Data[..2]) == Ok(Seq(Int(0x1100), []))
    ensures TryFromBytes(Little, Uint(2), Data[..2]) == Ok(Seq(Int(0x1100), []))
  {
    DataPrefixes();
    LeTwo(Data[..2]);
    assert Data[..2][..2] == Data[..2] && Data[..2][2..] == [];
  }

  /** `try_from_le_bytes(&DATA)` for `u32`: the first four bytes and the 27 after them. */
  lemma TryFromU32WithTail()
    ensures TryFromBytes(Little, Uint(4), Data) == Ok(Seq(Int(0x3322_1100), Data[4..]))
  {
    DataPrefixes();
    LeFour(Data[..4]);
  }

  // ---------------------------------------------------------------------------
  // Wider integer arrays over `DATA[..16]`, both byte orders

  /** Element `k` of a `[u32; M]` decode, in terms of its four bytes. */
  lemma U32Element(e: Endian, count: nat, bytes: seq<Byte>, k: nat, b0: Byte, b1: Byte, b2: Byte, b3: Byte)
    requires |bytes| == 4 * count && k < count
    requires bytes[4 * k] == b0 && bytes[4 * k + 1] == b1 && bytes[4 * k + 2] == b2 && bytes[4 * k + 3] == b3
    ensures DecodeArray(e, 4, count, bytes)[k]
         == if e == Little then b0 + 0x100 * b1 + 0x1_0000 * b2 + 0x100_0000 * b3
            else 0x100_0000 * b0 + 0x1_0000 * b1 + 0x100 * b2 + b3
  {
    var chunk := bytes[k * 4..(k + 1) * 4];
    assert chunk[0] == b0 && chunk[1] == b1 && chunk[2] == b2 && chunk[3] == b3;
    LeFour(chunk);
    BeFour(chunk);
  }

  /** Element `k` of `[u32; 4]` decoded from `DATA[..16]`, whose bytes are `0x44 * k + 0x11 * j`. */
  lemma Low16Word(e: Endian, k: nat, x: nat)
    requires k < 4
    requires x == if e == Little then 0x44 * k + 0x100 * (0x44 * k + 0x11) + 0x1_0000 * (0x44 * k + 0x22) + 0x100_0000 * (0x44 * k + 0x33)
                  else 0x100_0000 * (0x44 * k) + 0x1_0000 * (0x44 * k + 0x11) + 0x100 * (0x44 * k + 0x22) + 0x44 * k + 0x33
    ensures DecodeArray(e, 4, 4, Low16)[k] == x
  {
    U32Element(e, 4, Low16, k, 0x44 * k, 0x44 * k + 0x11, 0x44 * k + 0x22, 0x44 * k + 0x33);
  }

  /** `[u32; 4]` from `DATA[..16]`, little endian. */
  lemma LeU32Array()
    ensures FromBytes(Little, UintArray(4, 4), Data[..16]) == Ints([0x3322_1100, 0x7766_5544, 0xBBAA_9988, 0xFFEE_DDCC])
  {
    DataLow16();
    var xs := DecodeArray(Little, 4, 4, Low16);
    Low16Word(Little, 0, 0x3322_1100);
    Low16Word(Little, 1, 0x7766_5544);
    Low16Word(Little, 2, 0xBBAA_9988);
    Low16Word(Little, 3, 0xFFEE_DDCC);
    assert xs == [0x3322_1100, 0x7766_5544, 0xBBAA_9988, 0xFFEE_DDCC];
  }

  /** `[u32; 4]` from `DATA[..16]`, big endian. */
  lemma BeU32Array()
    ensures FromBytes(Big, UintArray(4, 4), Data[..16]) == Ints([0x0011_2233, 0x4455_6677, 0x8899_AABB, 0xCCDD_EEFF])
  {
    DataLow16();
    var xs := DecodeArray(Big, 4, 4, Low16);
    Low16Word(Big, 0, 0x0011_2233);
    Low16Word(Big, 1, 0x4455_6677);
    Low16Word(Big, 2, 0x8899_AABB);
    Low16Word(Big, 3, 0xCCDD_EEFF);
    assert xs == [0x0011_2233, 0x4455_6677, 0x8899_AABB, 0xCCDD_EEFF];
  }

  lemma BeLow8()
    ensures BeValue(Low8) == 0x0011_2233_4455_6677
  {
    Low8Halves();
    BeEight(Low8);
    BeFour(Low8[..4]);
    BeFour(Low8[4..]);
  }

  lemma BeHigh8()
    ensures BeValue(High8) == 0x8899_AABB_CCDD_EEFF
  {
    assert High8[..4] == [0x88, 0x99, 0xAA, 0xBB] && High8[4..] == [0xCC, 0xDD, 0xEE, 0xFF];
    BeEight(High8);
    BeFour(High8[..4]);
    BeFour(High8[4..]);
  }

  /** The two 8-byte chunks of `DATA[..16]` and the single 16-byte one. */
  lemma Low16Chunks()
    ensures Data[..16] == Low8 + High8
    ensures Chunk(Data[..16], 8, 2, 0) == Low8 && Chunk(Data[..16], 8, 2, 1) == High8
    ensures Chunk(Data[..16], 16, 1, 0) == Low8 + High8
  {
    DataHalves();
  }

  /** `[u64; 2]` from `DATA[..16]`, in either byte order. */
  lemma U64Array(e: Endian)
    ensures FromBytes(e, UintArray(8, 2), Data[..16])
         == if e == Little then Ints([0x7766_5544_3322_1100, 0xFFEE_DDCC_BBAA_9988])
            else Ints([0x0011_2233_4455_6677, 0x8899_AABB_CCDD_EEFF])
  {
    Low16Chunks();
    LeLow8();
    LeHigh8();
    BeLow8();
    BeHigh8();
    var xs := DecodeArray(e, 8, 2, Data[..16]);
    assert xs == [xs[0], xs[1]];
  }

  /** `u128::from_be_bytes(DATA[..16])`: `RESULT_BE_U128`. */
  lemma BeU128()
    ensures FromBytes(Big, Uint(16), Data[..16]) == Int(0x0011_2233_4455_6677_8899_AABB_CCDD_EEFF)
  {
    Pow2Table();
    DataHalves();
    BeValueAppend(Low8, High8);
    BeLow8();
    BeHigh8();
  }

  /** `[u128; 1]` from `DATA[..16]`, in either byte order. */
  lemma U128Array(e: Endian)
    ensures FromBytes(e, UintArray(16, 1), Data[..16])
         == if e == Little then Ints([0xFFEE_DDCC_BBAA_9988_7766_5544_3322_1100])
            else Ints([0x0011_2233_4455_6677_8899_AABB_CCDD_EEFF])
  {
    Low16Chunks();
    LeU128();
    BeU128();
    var xs := DecodeArray(e, 16, 1, Data[..16]);
    assert xs == [xs[0]];
  }

  /** `[u8; 16]` from `DATA[..16]` is the bytes themselves, in either byte order. */
  lemma ByteArray16(e: Endian)
    ensures FromBytes(e, ByteArray(16), Data[..16]) == Octets(Data[..16])
  {
    DataPrefixes();
  }

  /** `Le<[u8; 16]>`, `Le<[u16; 8]>`, `Le<[u32; 4]>`, `Le<[u64; 2]>` and `Le<[u128; 1]>` from `DATA[..16]`. */
  lemma LeWrappedArrays()
    ensures WrappedFrom(Little, ByteArray(16), Data[..16]) == Le(Octets(Data[..16]))
    ensures WrappedFrom(Little, UintArray(2, 8), Data[..16])
         == Le(Ints([0x1100, 0x3322, 0x5544, 0x7766, 0x9988, 0xBBAA, 0xDDCC, 0xFFEE]))
    ensures WrappedFrom(Little, UintArray(4, 4), Data[..16])
         == Le(Ints([0x3322_1100, 0x7766_5544, 0xBBAA_9988, 0xFFEE_DDCC]))
    ensures WrappedFrom(Little, UintArray(8, 2), Data[..16])
         == Le(Ints([0x7766_5544_3322_1100, 0xFFEE_DDCC_BBAA_9988]))
    ensures WrappedFrom(Little, UintArray(16, 1), Data[..16])
         == Le(Ints([0xFFEE_DDCC_BBAA_9988_7766_5544_3322_1100]))
  {
    DataPrefixes();
    ByteArray16(Little);
    LeU16Array();
    LeU32Array();
    U64Array(Little);
    U128Array(Little);
  }

  // ---------------------------------------------------------------------------
  // The remaining documentation examples

  /** `let word: u16 = [0x11, 0x22].le_bytes_into()` and `let Le(word) = [0x11, 0x22].into()`. */
  lemma DocWordExample()
    ensures FromBytes(Little, Uint(2), [0x11, 0x22]) == Int(0x2211)
    ensures WrappedFrom(Little, Uint(2), [0x11, 0x22]) == Le(Int(0x2211))
  {
    LeU16Of(0x11, 0x22);
  }

  const Doc6: seq<Byte> := [0x00, 0x11, 0x22, 0x33, 0x44, 0x55]

  /** `let array: [u16; 3] = [0x00, .., 0x55].le_bytes_into()`, and through the `Le` wrapper. */
  lemma DocArrayExample()
    ensures FromBytes(Little, UintArray(2, 3), Doc6) == Ints([0x1100, 0x3322, 0x5544])
    ensures WrappedFrom(Little, UintArray(2, 3), Doc6) == Le(Ints([0x1100, 0x3322, 0x5544]))
  {
    var xs := DecodeArray(Little, 2, 3, Doc6);
    U16Element(Little, 3, Doc6, 0, 0x00, 0x11);
    U16Element(Little, 3, Doc6, 1, 0x22, 0x33);
    U16Element(Little, 3, Doc6, 2, 0x44, 0x55);
    assert xs == [0x1100, 0x3322, 0x5544];
  }

  /** `P2<(u8, u32), 1, 4>`, the head of the split-first workaround. */
  const Head: Layout := Tuple([U8, Uint(4)])

  /** `T2::<[u8; 5], 5, 5>::from(data)`: the two halves of the 10-byte array. */
  lemma DocHalves()
    ensures Split(Doc10, [5, 5]) == [Doc10[..5], Doc10[5..]]
  {
    var rest := Doc10[5..];
    assert rest[..5] == rest && rest[5..] == [];
    assert Split(rest, [5]) == [rest];
    assert Split(Doc10, [5, 5]) == [Doc10[..5]] + Split(rest, [5]);
  }

  /** `P2((v0, v1)) = head.le_bytes_into()` on the first half. */
  lemma DocHeadExample()
    ensures WellFormed(Head) && Width(Head) == 5
    ensures FromBytes(Little, Head, Doc10[..5]) == Tup([Octet(0x00), Int(0x1111_1111)])
  {
    var head: seq<Byte> := [0x00, 0x11, 0x11, 0x11, 0x11];
    assert Doc10[..5] == head;
    assert head[0..1] == [0x00] && head[1..5] == [0x11, 0x11, 0x11, 0x11];
    Tuple2Shape(U8, Uint(4));
    Tuple2(Little, Head.parts, head, 1, 4);
    LeU32Of(0x11, 0x11, 0x11, 0x11);
  }

  /**
   * Pre-splitting a 10-byte array: `T2(head, tail)` cuts it in two halves,
   * `P2((v0, v1)) = head.le_bytes_into()` and `Le((v2, v3, v4)) = P3(tail).into()`.
   */
  lemma DocSplitFirstExample()
    ensures Split(Doc10, [5, 5]) == [Doc10[..5], Doc10[5..]]
    ensures FromBytes(Little, Head, Doc10[..5]) == Tup([Octet(0x00), Int(0x1111_1111)])
    ensures WrappedFrom(Little, Inner, Doc10[5..]) == Le(Tup([Octet(0x22), Int(0x3333), Int(0x4444)]))
  {
    DocHalves();
    DocHeadExample();
    InnerExample();
  }

  /** `(u8, u32, [u8; 5])`, the head of the bytes-to-bytes workaround. */
  const HeadAndTail: Layout := Tuple([U8, Uint(4), ByteArray(5)])

  /**
   * Bytes-to-bytes: `Le((v0, v1, tail)) = T3::from(data).into()` keeps the last
   * five bytes as they are, and `P3::<[u8; 5], 1, 2, 2>(tail).into()` decodes them.
   */
  lemma DocBytesToBytesExample()
    ensures WellFormed(HeadAndTail) && Width(HeadAndTail) == |Doc10|
    ensures WrappedFrom(Little, HeadAndTail, Doc10) == Le(Tup([Octet(0x00), Int(0x1111_1111), Octets(Doc10[5..])]))
    ensures WrappedFrom(Little, Inner, Doc10[5..]) == Le(Tup([Octet(0x22), Int(0x3333), Int(0x4444)]))
  {
    Doc10Slices();
    Tuple3Shape(U8, Uint(4), ByteArray(5));
    Tuple3(Little, HeadAndTail.parts, Doc10, 1, 4, 5);
    LeU32Of(0x11, 0x11, 0x11, 0x11);
    InnerExample();
  }

  // ---------------------------------------------------------------------------
  // `Le<(u8, u16, u32, u64, u128)>` from the whole of `DATA`

  /** `(u8, u16, u32, u64, u128)`: 31 bytes, the length of `DATA`. */
  const Tupled: Layout := Tuple([U8, Uint(2), Uint(4), Uint(8), Uint(16)])

  const Mid8: seq<Byte> := [0x77, 0x88, 0x99, 0xAA, 0xBB, 0xCC, 0xDD, 0xEE]
  const Wrap8: seq<Byte> := [0xFF, 0x00, 0x11, 0x22, 0x33, 0x44, 0x55, 0x66]

  /** The five windows of `Tupled` over `DATA`. */
  lemma DataWindows()
    ensures |Data| == 31
    ensures Data[0..1] == [0x00] && Data[1..3] == [0x11, 0x22] && Data[3..7] == [0x33, 0x44, 0x55, 0x66]
    ensures Data[7..15] == Mid8 && Data[15..31] == Wrap8 + Mid8
  {
  }

  lemma TupledShape()
    ensures WellFormed(Tupled) && PartWidths(Tupled.parts) == [1, 2, 4, 8, 16] && Width(Tupled) == 31
    ensures Offset([1, 2, 4, 8, 16], 0) == 0 && Offset([1, 2, 4, 8, 16], 1) == 1 && Offset([1, 2, 4, 8, 16], 2) == 3
    ensures Offset([1, 2, 4, 8, 16], 3) == 7 && Offset([1, 2, 4, 8, 16], 4) == 15
  {
    var ws := [1, 2, 4, 8, 16];
    assert forall i :: 0 <= i < 5 ==> WellFormed(Tupled.parts[i]);
    assert PartWidths(Tupled.parts) == ws;
    assert ws[..0] == [] && ws[..1] == [1] && ws[..2] == [1, 2] && ws[..3] == [1, 2, 4] && ws[..4] == [1, 2, 4, 8];
    assert Sum([16]) == 16 && Sum([8, 16]) == 24 && Sum([4, 8, 16]) == 28 && Sum([2, 4, 8, 16]) == 30;
    assert Sum([8]) == 8 && Sum([4, 8]) == 12 && Sum([2, 4, 8]) == 14;
    assert Sum([4]) == 4 && Sum([2, 4]) == 6 && Sum([2]) == 2 && Sum([1]) == 1;
  }

  /** Part `i` of `Tupled` over `DATA`, its window given by its two ends. */
  lemma TupledPart(i: nat, lo: nat, hi: nat)
    requires i < 5 && lo == [0, 1, 3, 7, 15][i] && hi == [1, 3, 7, 15, 31][i]
    ensures WellFormed(Tupled) && Width(Tupled) == |Data| && lo <= hi <= |Data|
    ensures FromBytes(Little, Tupled, Data).Tup? && |FromBytes(Little, Tupled, Data).vs| == 5
    ensures FromBytes(Little, Tupled, Data).vs[i] == FromBytes(Little, Tupled.parts[i], Data[lo..hi])
  {
    TupledShape();
    DataWindows();
    PartAt(Little, Tupled.parts, Data, i, lo, hi);
  }

  lemma LeMid8()
    ensures LeValue(Mid8) == 0xEEDD_CCBB_AA99_8877
  {
    assert Mid8[..4] == [0x77, 0x88, 0x99, 0xAA] && Mid8[4..] == [0xBB, 0xCC, 0xDD, 0xEE];
    LeEight(Mid8);
    LeFour(Mid8[..4]);
    LeFour(Mid8[4..]);
  }

  lemma LeWrap8()
    ensures LeValue(Wrap8) == 0x6655_4433_2211_00FF
  {
    assert Wrap8[..4] == [0xFF, 0x00, 0x11, 0x22] && Wrap8[4..] == [0x33, 0x44, 0x55, 0x66];
    LeEight(Wrap8);
    LeFour(Wrap8[..4]);
    LeFour(Wrap8[4..]);
  }

  /** The value of part `i` of `Tupled` over `DATA`. */
  lemma TupledValue(i: nat, v: Value)
    requires i < 5
    requires v == [Octet(0x00), Int(0x2211), Int(0x6655_4433), Int(0xEEDD_CCBB_AA99_8877),
                   Int(0xEEDD_CCBB_AA99_8877_6655_4433_2211_00FF)][i]
    ensures WellFormed(Tupled) && Width(Tupled) == |Data|
    ensures FromBytes(Little, Tupled, Data).Tup? && |FromBytes(Little, Tupled, Data).vs| == 5
    ensures FromBytes(Little, Tupled, Data).vs[i] == v
  {
    DataWindows();
    if i == 0 {
      TupledPart(0, 0, 1);
    } else if i == 1 {
      TupledPart(1, 1, 3);
      LeU16Of(0x11, 0x22);
    } else if i == 2 {
      TupledPart(2, 3, 7);
      LeU32Of(0x33, 0x44, 0x55, 0x66);
    } else if i == 3 {
      TupledPart(3, 7, 15);
      LeMid8();
    } else {
      TupledPart(4, 15, 31);
      LeWrapMid();
    }
  }

  /** The last 16 bytes of `DATA`, `0xFF` followed by `0x00 .. 0xEE`, as a little-endian `u128`. */
  lemma LeWrapMid()
    ensures Data[15..31] == Wrap8 + Mid8
    ensures FromBytes(Little, Uint(16), Wrap8 + Mid8) == Int(0xEEDD_CCBB_AA99_8877_6655_4433_2211_00FF)
  {
    DataWindows();
    LeMid8();
    LeWrap8();
    Pow2Table();
    LeValueAppend(Wrap8, Mid8);
  }

  /** A five-part tuple value is determined by its parts. */
  lemma TupOfFive(t: Value, v0: Value, v1: Value, v2: Value, v3: Value, v4: Value)
    requires t.Tup? && |t.vs| == 5
    requires t.vs[0] == v0 && t.vs[1] == v1 && t.vs[2] == v2 && t.vs[3] == v3 && t.vs[4] == v4
    ensures t == Tup([v0, v1, v2, v3, v4])
  {
    assert t.vs == [v0, v1, v2, v3, v4];
  }

  /** The `u8 .. u128` half of `into_tupled_integers`: `T5::from(DATA).into()` as `Le<(u8, u16, u32, u64, u128)>`. */
  lemma TupledIntegers()
    ensures WellFormed(Tupled) && Width(Tupled) == |Data|
    ensures WrappedFrom(Little, Tupled, Data)
         == Le(Tup([Octet(0x00), Int(0x2211), Int(0x6655_4433), Int(0xEEDD_CCBB_AA99_8877),
                    Int(0xEEDD_CCBB_AA99_8877_6655_4433_2211_00FF)]))
  {
    var v0, v1, v2, v3, v4 := Octet(0x00), Int(0x2211), Int(0x6655_4433), Int(0xEEDD_CCBB_AA99_8877),
                              Int(0xEEDD_CCBB_AA99_8877_6655_4433_2211_00FF);
    TupledValue(0, v0);
    TupledValue(1, v1);
    TupledValue(2, v2);
    TupledValue(3, v3);
    TupledValue(4, v4);
    TupOfFive(FromBytes(Little, Tupled, Data), v0, v1, v2, v3, v4);
  }
}
