/**
 * Byte-order decoding: `FromLeBytes<N>` / `FromBeBytes<N>` for `u8`,
 * `[u8; N]`, the unsigned integers `uK`, arrays `[uK; M]` and `P#` tuples;
 * the fallible slice path `try_from_{le,be}_bytes`; and the `Le` / `Be`
 * wrappers.
 */
module Endianness {
  import opened Wrappers
  import opened Widths
  import opened Partition

  type Byte = x: nat | x < 256

  /** The two byte orders, `Le` and `Be`. */
  datatype Endian = Little | Big

  // ---------------------------------------------------------------------------
  // Unsigned integers

  /** `uK::from_le_bytes`: byte 0 is the least significant. */
  function LeValue(bytes: seq<Byte>): (r: nat)
    ensures r < Pow2(8 * |bytes|)
  {
    if bytes == [] then 0
    else
      var rest := LeValue(bytes[1..]);
      ByteStep(bytes[0], rest, 8 * (|bytes| - 1));
      bytes[0] + 256 * rest
  }

  /** `uK::from_be_bytes`: byte 0 is the most significant. */
  function BeValue(bytes: seq<Byte>): (r: nat)
    ensures r < Pow2(8 * |bytes|)
  {
    if bytes == [] then 0
    else
      var n := |bytes| - 1;
      var high := BeValue(bytes[..n]);
      ByteStep(bytes[n], high, 8 * n);
      high * 256 + bytes[n]
  }

  /** Appending one byte to a `k`-bit value gives a `k + 8`-bit value. */
  lemma ByteStep(b: Byte, rest: nat, k: nat)
    requires rest < Pow2(k)
    ensures b + 256 * rest < Pow2(8 + k)
  {
    Pow2Add(8, k);
    assert Pow2(8) == 256;
    MulLe(rest, Pow2(k) - 1, 256);
  }

  /** `FromXBytes<size_of::<uK>()> for uK`. */
  function Decode(e: Endian, bytes: seq<Byte>): (r: nat)
    ensures r < Pow2(8 * |bytes|)
  {
    match e
    case Little => LeValue(bytes)
    case Big => BeValue(bytes)
  }

  /** The `n` little-endian bytes of `x` (`to_le_bytes`), used as the reference encoder. */
  function LeBytes(x: nat, n: nat): (r: seq<Byte>)
    ensures |r| == n
  {
    if n == 0 then [] else [x % 256] + LeBytes(x / 256, n - 1)
  }

  /** The `n` big-endian bytes of `x` (`to_be_bytes`). */
  function BeBytes(x: nat, n: nat): (r: seq<Byte>)
    ensures |r| == n
  {
    Reverse(LeBytes(x, n))
  }

  function Reverse<T>(s: seq<T>): (r: seq<T>)
    ensures |r| == |s|
    ensures forall i :: 0 <= i < |s| ==> r[i] == s[|s| - 1 - i]
  {
    if s == [] then [] else Reverse(s[1..]) + [s[0]]
  }

  /** Little endian: byte 0 is the lowest byte of the value. */
  lemma LeFirstByte(bytes: seq<Byte>)
    requires bytes != []
    ensures LeValue(bytes) % 256 == bytes[0]
  {
    DivModUnique(LeValue(bytes), 256, LeValue(bytes[1..]), bytes[0]);
  }

  /** Big endian: byte 0 is the highest byte of the value. */
  lemma {:induction false} BeFirstByte(bytes: seq<Byte>)
    requires bytes != []
    ensures BeValue(bytes) / Pow2(8 * (|bytes| - 1)) == bytes[0]
    decreases |bytes|
  {
    var n := |bytes| - 1;
    if n == 0 {
      assert bytes[..0] == [];
    } else {
      var high := BeValue(bytes[..n]);
      BeFirstByte(bytes[..n]);
      assert bytes[..n][0] == bytes[0];
      // high / 2^(8(n-1)) == bytes[0]; shifting one more byte in leaves it on top
      DivAddMul(high, bytes[n], 256);
      SmallDivMod(bytes[n], 8);
      assert (high * 256 + bytes[n]) / 256 == high;
      DivDiv(high * 256 + bytes[n], 8, 8 * (n - 1));
      assert Pow2(8) == 256;
      assert 8 + 8 * (n - 1) == 8 * n;
    }
  }

  /** Big endian is little endian of the reversed bytes. */
  lemma {:induction false} BeIsReversedLe(bytes: seq<Byte>)
    ensures BeValue(bytes) == LeValue(Reverse(bytes))
    decreases |bytes|
  {
    if bytes != [] {
      var n := |bytes| - 1;
      var rev := Reverse(bytes);
      assert rev[0] == bytes[n];
      assert rev[1..] == Reverse(bytes[..n]);
      BeIsReversedLe(bytes[..n]);
    }
  }

  /** Little endian of a concatenation: the later bytes are the higher digits. */
  lemma {:induction false} LeValueAppend(a: seq<Byte>, b: seq<Byte>)
    ensures LeValue(a + b) == LeValue(a) + Pow2(8 * |a|) * LeValue(b)
    decreases |a|
  {
    if a == [] {
      assert a + b == b;
    } else {
      var n := |a| - 1;
      assert (a + b)[0] == a[0] && (a + b)[1..] == a[1..] + b;
      LeValueAppend(a[1..], b);
      var x: int, y: int, p: int := LeValue(a[1..]), LeValue(b), Pow2(8 * n);
      assert Pow2(8 * |a|) == 256 * p by {
        Pow2Add(8, 8 * n);
        Pow2Small();
      }
      assert LeValue(a + b) == a[0] + 256 * (x + p * y);
      ShiftDistributes(x, y, p);
      assert LeValue(a) == a[0] + 256 * x;
    }
  }

  /** Reversing a concatenation reverses the order of the two parts. */
  lemma ReverseAppend<T>(a: seq<T>, b: seq<T>)
    ensures Reverse(a + b) == Reverse(b) + Reverse(a)
  {
    var r, t := Reverse(a + b), Reverse(b) + Reverse(a);
    assert |r| == |t|;
    forall i | 0 <= i < |r|
      ensures r[i] == t[i]
    {
      if i < |b| {
        assert r[i] == (a + b)[|a| + |b| - 1 - i];
      }
    }
  }

  /** Big endian of a concatenation: the earlier bytes are the higher digits. */
  lemma BeValueAppend(a: seq<Byte>, b: seq<Byte>)
    ensures BeValue(a + b) == Pow2(8 * |b|) * BeValue(a) + BeValue(b)
  {
    var ra, rb := Reverse(a), Reverse(b);
    ReverseAppend(a, b);
    BeIsReversedLe(a + b);
    BeIsReversedLe(a);
    BeIsReversedLe(b);
    LeValueAppend(rb, ra);
    var p: int, x: int, y: int := Pow2(8 * |b|), BeValue(a), BeValue(b);
    assert |rb| == |b|;
    assert BeValue(a + b) == y + p * x;
  }

  lemma ShiftDistributes(x: nat, y: nat, p: nat)
    ensures 256 * (x + p * y) == 256 * x + (256 * p) * y
  {
  }

  /** Encoding then decoding gives the value back. */
  lemma {:induction false} LeValueOfLeBytes(x: nat, n: nat)
    requires x < Pow2(8 * n)
    ensures LeValue(LeBytes(x, n)) == x
  {
    if n > 0 {
      Pow2Add(8, 8 * (n - 1));
      assert Pow2(8) == 256;
      DivLe(x, 256);
      DivDivBound(x, 256, Pow2(8 * (n - 1)));
      LeValueOfLeBytes(x / 256, n - 1);
      var bs := LeBytes(x, n);
      assert bs[0] == x % 256 && bs[1..] == LeBytes(x / 256, n - 1);
      assert LeValue(bs) == x % 256 + 256 * (x / 256);
    }
  }

  /** `x < m * p` makes `x / m < p`. */
  lemma DivDivBound(x: nat, m: nat, p: nat)
    requires m > 0 && x < m * p
    ensures x / m < p
  {
    if x / m >= p {
      MulLe(p, x / m, m);
    }
  }

  /** Decoding then encoding gives the bytes back. */
  lemma {:induction false} LeBytesOfLeValue(bytes: seq<Byte>)
    ensures LeBytes(LeValue(bytes), |bytes|) == bytes
  {
    if bytes != [] {
      var x := LeValue(bytes);
      DivModUnique(x, 256, LeValue(bytes[1..]), bytes[0]);
      LeBytesOfLeValue(bytes[1..]);
      assert bytes == [bytes[0]] + bytes[1..];
    }
  }

  /** Big-endian round trip, both directions. */
  lemma BeRoundTrip(x: nat, bytes: seq<Byte>, n: nat)
    requires x < Pow2(8 * n)
    ensures BeValue(BeBytes(x, n)) == x
    ensures BeBytes(BeValue(bytes), |bytes|) == bytes
  {
    var enc := LeBytes(x, n);
    BeIsReversedLe(Reverse(enc));
    ReverseReverse(enc);
    LeValueOfLeBytes(x, n);
    BeIsReversedLe(bytes);
    LeBytesOfLeValue(Reverse(bytes));
    ReverseReverse(bytes);
  }

  lemma ReverseReverse<T>(s: seq<T>)
    ensures Reverse(Reverse(s)) == s
  {
    assert forall i :: 0 <= i < |s| ==> Reverse(Reverse(s))[i] == s[i];
  }

  // ---------------------------------------------------------------------------
  // Arrays of integers

  /**
   * `ASSERT_SELF_SIZE = (SIZE - N, N - SIZE)` with `SIZE = size_of::<Self>()`:
   * it builds exactly when the input array has the size of the target.
   */
  function AssertSelfSize(size: nat, n: nat): (r: Option<(nat, nat)>)
    ensures r.Some? <==> size == n
  {
    match (CheckedSub(size, n), CheckedSub(n, size))
    case (Some(less), Some(greater)) => Some((less, greater))
    case _ => None
  }

  /** `[uK; M]` from `[u8; N]`: element `k` is the decode of the `k`-th chunk of `K` bytes. */
  function DecodeArray(e: Endian, size: nat, count: nat, bytes: seq<Byte>): (r: seq<nat>)
    requires 0 < size && |bytes| == size * count
    ensures |r| == count
    ensures forall k :: 0 <= k < count ==> r[k] < Pow2(8 * size)
  {
    seq(count, k requires 0 <= k < count => Decode(e, Chunk(bytes, size, count, k)))
  }

  /** The `k`-th chunk of `K` bytes: `bytes[k * K..(k + 1) * K]`. */
  function Chunk(bytes: seq<Byte>, size: nat, count: nat, k: nat): (c: seq<Byte>)
    requires |bytes| == size * count && k < count
    ensures |c| == size
  {
    ChunkInBounds(size, count, k);
    bytes[k * size..(k + 1) * size]
  }

  /** The `k`-th chunk of `K` bytes lies inside a buffer of `M` chunks. */
  lemma ChunkInBounds(size: nat, count: nat, k: nat)
    requires k < count
    ensures k * size + size == (k + 1) * size <= size * count
  {
    MulLe(k + 1, count, size);
  }

  /** `N / K` chunks of `K` bytes fit in `N` bytes, and it is `M` when `N == K * M`. */
  lemma ChunkCount(size: nat, count: nat)
    requires 0 < size
    ensures size * count / size == count
  {
    DivModUnique(size * count, size, count, 0);
  }

  /**
   * The `[uK; M]` decoder: a zeroed result array, then one slot per chunk of
   * `chunks_exact(K)`, stopping at the first chunk that does not convert to
   * `[u8; K]`.  With the size guard there are exactly `M` chunks and none
   * fails, so every slot is written.
   */
  method DecodeArrayLoop(e: Endian, size: nat, count: nat, bytes: seq<Byte>) returns (r: seq<nat>)
    requires 0 < size
    requires AssertSelfSize(size * count, |bytes|).Some?
    ensures r == DecodeArray(e, size, count, bytes)
  {
    var result := new nat[count](_ => 0);
    ChunkCount(size, count);
    var chunks := |bytes| / size;
    var n := 0;
    while n < chunks
      invariant n <= chunks == count
      invariant forall k :: 0 <= k < n ==> result[k] == DecodeArray(e, size, count, bytes)[k]
    {
      ChunkInBounds(size, count, n);
      var data := bytes[n * size..(n + 1) * size];
      // Unreachable: every window has exactly `size` bytes, as with `chunks_exact`.
      if |data| != size {
        break;
      }
      result[n] := Decode(e, data);
      n := n + 1;
    }
    r := result[..];
  }

  /** `x.to_le_bytes()` / `x.to_be_bytes()` for a `K`-byte integer. */
  function Encode(e: Endian, x: nat, size: nat): (r: seq<Byte>)
    ensures |r| == size
  {
    match e
    case Little => LeBytes(x, size)
    case Big => BeBytes(x, size)
  }

  /** An integer decode and its encoder are inverse, in both byte orders and both directions. */
  lemma DecodeEncode(e: Endian, x: nat, bytes: seq<Byte>, size: nat)
    requires x < Pow2(8 * size)
    ensures Decode(e, Encode(e, x, size)) == x
    ensures Encode(e, Decode(e, bytes), |bytes|) == bytes
  {
    match e
    case Little =>
      LeValueOfLeBytes(x, size);
      LeBytesOfLeValue(bytes);
    case Big =>
      BeRoundTrip(x, bytes, size);
  }

  /** `M` copies of the width `K`: the chunk layout of `chunks_exact(K)` over `K * M` bytes. */
  function Repeat(size: nat, count: nat): (r: seq<nat>)
    ensures |r| == count
    ensures forall i :: 0 <= i < count ==> r[i] == size
  {
    seq(count, _ => size)
  }

  /** The `k`-th of equal chunks of `K` bytes starts at byte `k * K`. */
  lemma {:induction false} OffsetRepeat(size: nat, count: nat, k: nat)
    requires k <= count
    ensures Offset(Repeat(size, count), k) == k * size
    decreases k
  {
    if k == 0 {
      assert Repeat(size, count)[..0] == [];
    } else {
      OffsetRepeat(size, count, k - 1);
      OffsetStep(Repeat(size, count), k - 1);
    }
  }

  /** `M` chunks of `K` bytes are `K * M` bytes. */
  lemma SumRepeat(size: nat, count: nat)
    ensures Sum(Repeat(size, count)) == size * count
  {
    var ws := Repeat(size, count);
    OffsetRepeat(size, count, count);
    assert ws[..count] == ws;
  }

  /** `[uK; M]` encoded element by element. */
  function EncodeArray(e: Endian, size: nat, xs: seq<nat>): (r: seq<Byte>)
    ensures |r| == size * |xs|
  {
    var parts := seq(|xs|, i requires 0 <= i < |xs| => Encode(e, xs[i], size));
    SplitFlatten(parts, Repeat(size, |xs|));
    SumRepeat(size, |xs|);
    Flatten(parts)
  }

  /** The `k`-th chunk of `K * M` bytes is the `k`-th part of their split into `M` chunks. */
  lemma ChunkIsPart<T>(data: seq<T>, size: nat, count: nat, k: nat)
    requires |data| == size * count && k < count
    ensures Sum(Repeat(size, count)) == |data|
    ensures (k + 1) * size <= |data|
    ensures Split(data, Repeat(size, count))[k] == data[k * size..(k + 1) * size]
  {
    SumRepeat(size, count);
    SplitAt(data, Repeat(size, count), k);
    OffsetRepeat(size, count, k);
  }

  /** Decoding an encoded array gives the elements back. */
  lemma DecodeEncodeArray(e: Endian, size: nat, xs: seq<nat>)
    requires 0 < size
    requires forall i :: 0 <= i < |xs| ==> xs[i] < Pow2(8 * size)
    ensures DecodeArray(e, size, |xs|, EncodeArray(e, size, xs)) == xs
  {
    var parts := seq(|xs|, i requires 0 <= i < |xs| => Encode(e, xs[i], size));
    var bytes := EncodeArray(e, size, xs);
    SplitFlatten(parts, Repeat(size, |xs|));
    forall k | 0 <= k < |xs|
      ensures DecodeArray(e, size, |xs|, bytes)[k] == xs[k]
    {
      ChunkIsPart(bytes, size, |xs|, k);
      DecodeEncode(e, xs[k], [], size);
    }
  }

  /** Encoding a decoded array gives the bytes back. */
  lemma EncodeDecodeArray(e: Endian, size: nat, count: nat, bytes: seq<Byte>)
    requires 0 < size && |bytes| == size * count
    ensures EncodeArray(e, size, DecodeArray(e, size, count, bytes)) == bytes
  {
    var xs := DecodeArray(e, size, count, bytes);
    var parts := seq(count, i requires 0 <= i < count => Encode(e, xs[i], size));
    SumRepeat(size, count);
    var chunks := Split(bytes, Repeat(size, count));
    forall k | 0 <= k < count
      ensures parts[k] == chunks[k]
    {
      ChunkIsPart(bytes, size, count, k);
      DecodeEncode(e, 0, chunks[k], 0);
    }
    assert parts == chunks;
    FlattenSplit(bytes, Repeat(size, count));
  }

  // ---------------------------------------------------------------------------
  // Target types and `P#` tuples

  /** A type that implements `FromLeBytes<N>` and `FromBeBytes<N>`. */
  datatype Layout =
    | U8                               // `u8` from `[u8; 1]`
    | ByteArray(n: nat)                // `[u8; N]` from itself
    | Uint(size: nat)                  // `uK`, `K = size` bytes
    | UintArray(size: nat, count: nat) // `[uK; M]`
    | Tuple(parts: seq<Layout>)        // `P#<(A, ..), AN, ..>`, `AN` the width of `A`

  /** A decoded value. */
  datatype Value =
    | Octet(b: Byte)
    | Octets(bs: seq<Byte>)
    | Int(x: nat)
    | Ints(xs: seq<nat>)
    | Tup(vs: seq<Value>)

  /** The integer widths the crate implements: `u16`, `u32`, `u64`, `u128`. */
  predicate IntSize(size: nat)
  {
    size == 2 || size == 4 || size == 8 || size == 16
  }

  /** A type the generated impls cover: `P1` .. `P26` of covered types. */
  predicate WellFormed(l: Layout)
  {
    match l
    case U8 => true
    case ByteArray(_) => true
    case Uint(size) => IntSize(size)
    case UintArray(size, _) => IntSize(size)
    case Tuple(parts) => 0 < |parts| <= 26 && forall i :: 0 <= i < |parts| ==> WellFormed(parts[i])
  }

  /** The `N` of the `FromXBytes<N>` impl of a type. */
  function Width(l: Layout): nat
    decreases l, 1
  {
    match l
    case U8 => 1
    case ByteArray(n) => n
    case Uint(size) => size
    case UintArray(size, count) => size * count
    case Tuple(parts) => Sum(PartWidths(parts))
  }

  /** The declared widths `AN, ..` of a `P#` whose parts are `A, ..`. */
  function PartWidths(parts: seq<Layout>): (r: seq<nat>)
    ensures |r| == |parts|
    decreases parts, 0
  {
    seq(|parts|, i requires 0 <= i < |parts| => Width(parts[i]))
  }

  /** `v` is a value of type `l`. */
  predicate Conforms(v: Value, l: Layout)
  {
    match (l, v)
    case (U8, Octet(_)) => true
    case (ByteArray(n), Octets(bs)) => |bs| == n
    case (Uint(size), Int(x)) => x < Pow2(8 * size)
    case (UintArray(size, count), Ints(xs)) =>
      |xs| == count && forall i :: 0 <= i < |xs| ==> xs[i] < Pow2(8 * size)
    case (Tuple(parts), Tup(vs)) =>
      |vs| == |parts| && forall i :: 0 <= i < |parts| ==> Conforms(vs[i], parts[i])
    case _ => false
  }

  /**
   * `T::from_le_bytes(bytes)` / `T::from_be_bytes(bytes)`: a single byte and a
   * byte array are taken as they are, an integer or an integer array is
   * decoded in the byte order, and a `P#` tuple first splits its bytes into
   * consecutive parts of the declared widths (`T#::from`) and then decodes each
   * part, in order.
   */
  function FromBytes(e: Endian, l: Layout, bytes: seq<Byte>): (r: Value)
    requires WellFormed(l) && |bytes| == Width(l)
    decreases l
  {
    match l
    case U8 => Octet(bytes[0])
    case ByteArray(_) => Octets(bytes)
    case Uint(size) => Int(Decode(e, bytes))
    case UintArray(size, count) =>
      Ints(DecodeArray(e, size, count, bytes))
    case Tuple(parts) =>
      var chunks := Split(bytes, PartWidths(parts));
      Tup(seq(|parts|, i requires 0 <= i < |parts| => FromBytes(e, parts[i], chunks[i])))
  }

  /** Decoding yields a value of the type decoded. */
  lemma {:induction false} FromBytesConforms(e: Endian, l: Layout, bytes: seq<Byte>)
    requires WellFormed(l) && |bytes| == Width(l)
    ensures Conforms(FromBytes(e, l, bytes), l)
    decreases l
  {
    match l
    case U8 =>
    case ByteArray(_) =>
    case Uint(size) =>
    case UintArray(size, count) =>
    case Tuple(parts) =>
      var chunks := Split(bytes, PartWidths(parts));
      var r := FromBytes(e, l, bytes);
      forall i | 0 <= i < |parts|
        ensures Conforms(r.vs[i], parts[i])
      {
        FromBytesConforms(e, parts[i], chunks[i]);
      }
  }

  /** `P#` decoding: part `i` is the decode of the bytes at its declared offset, in the same order. */
  lemma TuplePart(e: Endian, parts: seq<Layout>, bytes: seq<Byte>, i: nat)
    requires WellFormed(Tuple(parts)) && |bytes| == Width(Tuple(parts)) && i < |parts|
    ensures FromBytes(e, Tuple(parts), bytes).Tup? && |FromBytes(e, Tuple(parts), bytes).vs| == |parts|
    ensures Offset(PartWidths(parts), i) + Width(parts[i]) <= |bytes|
    ensures FromBytes(e, Tuple(parts), bytes).vs[i]
         == FromBytes(e, parts[i], bytes[Offset(PartWidths(parts), i)..Offset(PartWidths(parts), i) + Width(parts[i])])
  {
    var chunks := Split(bytes, PartWidths(parts));
    SplitAt(bytes, PartWidths(parts), i);
    var vs := seq(|parts|, j requires 0 <= j < |parts| => FromBytes(e, parts[j], chunks[j]));
    assert FromBytes(e, Tuple(parts), bytes) == Tup(vs);
  }

  /** The bytes of a value of type `l`, in byte order `e`: the inverse of `FromBytes`. */
  function ToBytes(e: Endian, l: Layout, v: Value): (r: seq<Byte>)
    requires Conforms(v, l)
    ensures |r| == Width(l)
    decreases l
  {
    match l
    case U8 => [v.b]
    case ByteArray(_) => v.bs
    case Uint(size) => Encode(e, v.x, size)
    case UintArray(size, _) => EncodeArray(e, size, v.xs)
    case Tuple(parts) =>
      var chunks := seq(|parts|, i requires 0 <= i < |parts| => ToBytes(e, parts[i], v.vs[i]));
      SplitFlatten(chunks, PartWidths(parts));
      Flatten(chunks)
  }

  /** Decoding the bytes of a value gives the value back. */
  lemma {:induction false} FromToBytes(e: Endian, l: Layout, v: Value)
    requires WellFormed(l) && Conforms(v, l)
    ensures FromBytes(e, l, ToBytes(e, l, v)) == v
    decreases l
  {
    match l
    case U8 =>
    case ByteArray(_) =>
    case Uint(size) => DecodeEncode(e, v.x, [], size);
    case UintArray(size, count) => DecodeEncodeArray(e, size, v.xs);
    case Tuple(parts) =>
      var chunks := seq(|parts|, i requires 0 <= i < |parts| => ToBytes(e, parts[i], v.vs[i]));
      SplitFlatten(chunks, PartWidths(parts));
      var r := FromBytes(e, l, Flatten(chunks));
      forall i | 0 <= i < |parts|
        ensures r.vs[i] == v.vs[i]
      {
        FromToBytes(e, parts[i], v.vs[i]);
      }
  }

  /** Encoding a decoded value gives the bytes back. */
  lemma {:induction false} ToFromBytes(e: Endian, l: Layout, bytes: seq<Byte>)
    requires WellFormed(l) && |bytes| == Width(l)
    ensures Conforms(FromBytes(e, l, bytes), l) && ToBytes(e, l, FromBytes(e, l, bytes)) == bytes
    decreases l
  {
    FromBytesConforms(e, l, bytes);
    match l
    case U8 => assert bytes == [bytes[0]];
    case ByteArray(_) =>
    case Uint(size) => DecodeEncode(e, 0, bytes, 0);
    case UintArray(size, count) => EncodeDecodeArray(e, size, count, bytes);
    case Tuple(parts) =>
      var split := Split(bytes, PartWidths(parts));
      var v := FromBytes(e, l, bytes);
      var chunks := seq(|parts|, i requires 0 <= i < |parts| => ToBytes(e, parts[i], v.vs[i]));
      forall i | 0 <= i < |parts|
        ensures chunks[i] == split[i]
      {
        ToFromBytes(e, parts[i], split[i]);
      }
      assert chunks == split;
      FlattenSplit(bytes, PartWidths(parts));
  }

  /** A type made only of `u8` and `[u8; N]`: no byte order is involved. */
  predicate BytesOnly(l: Layout)
  {
    match l
    case U8 => true
    case ByteArray(_) => true
    case Uint(_) => false
    case UintArray(_, _) => false
    case Tuple(parts) => forall i :: 0 <= i < |parts| ==> BytesOnly(parts[i])
  }

  /** `u8` is `bytes[0]` and `[u8; N]` is the bytes themselves, whatever the byte order. */
  lemma {:induction false} BytesIgnoreOrder(l: Layout, bytes: seq<Byte>)
    requires WellFormed(l) && BytesOnly(l) && |bytes| == Width(l)
    ensures FromBytes(Little, l, bytes) == FromBytes(Big, l, bytes)
    ensures l.U8? ==> FromBytes(Little, l, bytes) == Octet(bytes[0])
    ensures l.ByteArray? ==> FromBytes(Little, l, bytes) == Octets(bytes)
    decreases l
  {
    match l
    case U8 =>
    case ByteArray(_) =>
    case Tuple(parts) =>
      var chunks := Split(bytes, PartWidths(parts));
      forall i | 0 <= i < |parts|
        ensures FromBytes(Little, parts[i], chunks[i]) == FromBytes(Big, parts[i], chunks[i])
      {
        BytesIgnoreOrder(parts[i], chunks[i]);
      }
  }

  // ---------------------------------------------------------------------------
  // The `Le` / `Be` wrappers

  /** `Le<T>` and `Be<T>`: a value tagged with the byte order it was read in. */
  datatype Wrapped<T> = Le(val: T) | Be(val: T)

  function OrderOf<T>(w: Wrapped<T>): Endian
  {
    match w
    case Le(_) => Little
    case Be(_) => Big
  }

  function Wrap<T>(e: Endian, v: T): (r: Wrapped<T>)
    ensures OrderOf(r) == e && r.val == v
  {
    match e
    case Little => Le(v)
    case Big => Be(v)
  }

  /** `Le<T>: From<[u8; N]>` and `Be<T>: From<[u8; N]>`. */
  function WrappedFrom(e: Endian, l: Layout, bytes: seq<Byte>): (r: Wrapped<Value>)
    requires WellFormed(l) && |bytes| == Width(l)
    ensures OrderOf(r) == e && r.val == FromBytes(e, l, bytes)
  {
    Wrap(e, FromBytes(e, l, bytes))
  }

  /** `Le<(A, ..)>: From<(Le<A>, ..)>`: one wrapper around the tuple of the wrapped values. */
  function Merge<T>(e: Endian, ws: seq<Wrapped<T>>): (r: Wrapped<seq<T>>)
    requires forall i :: 0 <= i < |ws| ==> OrderOf(ws[i]) == e
    ensures OrderOf(r) == e && |r.val| == |ws|
    ensures forall i :: 0 <= i < |ws| ==> r.val[i] == ws[i].val
  {
    Wrap(e, seq(|ws|, i requires 0 <= i < |ws| => ws[i].val))
  }

  /** The tuple of wrappers that a merged wrapper stands for. */
  function Unmerge<T>(w: Wrapped<seq<T>>): (r: seq<Wrapped<T>>)
    ensures |r| == |w.val|
    ensures forall i :: 0 <= i < |r| ==> OrderOf(r[i]) == OrderOf(w) && r[i].val == w.val[i]
  {
    seq(|w.val|, i requires 0 <= i < |w.val| => Wrap(OrderOf(w), w.val[i]))
  }

  /** Merging loses nothing: it is undone by `Unmerge`, and undoes it. */
  lemma MergeLossless<T>(e: Endian, ws: seq<Wrapped<T>>, w: Wrapped<seq<T>>)
    requires forall i :: 0 <= i < |ws| ==> OrderOf(ws[i]) == e
    ensures Unmerge(Merge(e, ws)) == ws
    ensures Merge(OrderOf(w), Unmerge(w)) == w
  {
    var back := Unmerge(Merge(e, ws));
    forall i | 0 <= i < |ws|
      ensures back[i] == ws[i]
    {
      match ws[i]
      case Le(_) =>
      case Be(_) =>
    }
    var merged := Merge(OrderOf(w), Unmerge(w));
    assert merged.val == w.val;
    match w
    case Le(_) =>
    case Be(_) =>
  }

  /**
   * `T#::from(bytes).into()` into a tuple whose element `i` is read in byte
   * order `orders[i]`, e.g. `(Be(a), Le(b), c)`: the values bound by the
   * pattern, in declaration order.  A bare `[u8; N]` element takes its bytes
   * as they are, whichever order is listed for it.
   */
  function MixedFrom(orders: seq<Endian>, parts: seq<Layout>, bytes: seq<Byte>): (r: seq<Value>)
    requires WellFormed(Tuple(parts)) && |orders| == |parts| && |bytes| == Width(Tuple(parts))
    ensures |r| == |parts|
  {
    var chunks := Split(bytes, PartWidths(parts));
    seq(|parts|, i requires 0 <= i < |parts| => FromBytes(orders[i], parts[i], chunks[i]))
  }

  /** Part `i` of `MixedFrom` is the decode, in byte order `orders[i]`, of the bytes at its declared offset. */
  lemma MixedPart(orders: seq<Endian>, parts: seq<Layout>, bytes: seq<Byte>, i: nat)
    requires WellFormed(Tuple(parts)) && |orders| == |parts| && |bytes| == Width(Tuple(parts)) && i < |parts|
    ensures Offset(PartWidths(parts), i) + Width(parts[i]) <= |bytes|
    ensures MixedFrom(orders, parts, bytes)[i]
         == FromBytes(orders[i], parts[i], bytes[Offset(PartWidths(parts), i)..Offset(PartWidths(parts), i) + Width(parts[i])])
  {
    TuplePart(orders[i], parts, bytes, i);
    var chunks := Split(bytes, PartWidths(parts));
    var vs := seq(|parts|, j requires 0 <= j < |parts| => FromBytes(orders[i], parts[j], chunks[j]));
    assert FromBytes(orders[i], Tuple(parts), bytes) == Tup(vs);
  }

  /**
   * `Le<(A, ..)>: From<P#<[u8; N], AN, ..>>` goes through `(Le<A>, ..)` and a
   * merge; it agrees with `FromLeBytes<N> for P#<(A, ..), AN, ..>`.
   */
  lemma MergedAgreesWithTuple(e: Endian, parts: seq<Layout>, bytes: seq<Byte>)
    requires WellFormed(Tuple(parts)) && |bytes| == Width(Tuple(parts))
    ensures
      var orders := seq(|parts|, _ => e);
      var vs := MixedFrom(orders, parts, bytes);
      Merge(e, seq(|parts|, i requires 0 <= i < |parts| => Wrap(e, vs[i])))
        == Wrap(e, FromBytes(e, Tuple(parts), bytes).vs)
  {
    var orders := seq(|parts|, _ => e);
    var vs := MixedFrom(orders, parts, bytes);
    var whole := FromBytes(e, Tuple(parts), bytes).vs;
    forall i | 0 <= i < |parts|
      ensures vs[i] == whole[i]
    {
      TuplePart(e, parts, bytes, i);
      MixedPart(orders, parts, bytes, i);
    }
    var merged := Merge(e, seq(|parts|, i requires 0 <= i < |parts| => Wrap(e, vs[i])));
    assert merged.val == whole;
  }

  // ---------------------------------------------------------------------------
  // The fallible slice path

  /** A decoded head and the bytes after it. */
  datatype Seq<H> = Seq(head: H, tail: seq<Byte>)

  /** `core::array::TryFromSliceError`: the head did not have the array's length. */
  datatype TryFromSliceError = TryFromSliceError

  function Min(a: nat, b: nat): nat
  {
    if a <= b then a else b
  }

  /**
   * `T::try_from_le_bytes(slice)` / `T::try_from_be_bytes(slice)` as written:
   * the slice is cut at `min(len, size_of::<T>())` and the head converted into
   * `[u8; N]`. `selfSize` is `size_of::<T>()`, which for a `P#` tuple counts
   * the padding the compiler inserts and so can exceed `N`.
   */
  function TryFromBytesAsWritten(e: Endian, l: Layout, selfSize: nat, slice: seq<Byte>)
    : (r: Result<Seq<Value>, TryFromSliceError>)
    requires WellFormed(l) && Width(l) <= selfSize
    ensures r.Ok? <==> |slice| == Width(l) || (selfSize == Width(l) && Width(l) <= |slice|)
    ensures r.Ok? ==> r.value.head == FromBytes(e, l, slice[..Width(l)])
  {
    var (head, tail) := (slice[..Min(|slice|, selfSize)], slice[Min(|slice|, selfSize)..]);
    if |head| == Width(l) then Ok(Seq(FromBytes(e, l, head), tail)) else Err(TryFromSliceError)
  }

  /**
   * The slice path, cut at the `N` of the conversion: a slice of at least `N`
   * bytes yields the decoded head and the rest, a shorter one an error and no
   * partial head.
   */
  function TryFromBytes(e: Endian, l: Layout, slice: seq<Byte>): (r: Result<Seq<Value>, TryFromSliceError>)
    requires WellFormed(l)
    ensures r.Ok? <==> Width(l) <= |slice|
    ensures r.Ok? ==> r.value.head == FromBytes(e, l, slice[..Width(l)])
    ensures r.Ok? ==> r.value.tail == slice[Width(l)..]
    ensures r.Ok? ==> slice[..Width(l)] + r.value.tail == slice
  {
    var n := Width(l);
    if |slice| < n then Err(TryFromSliceError)
    else
      assert slice[..n] + slice[n..] == slice;
      Ok(Seq(FromBytes(e, l, slice[..n]), slice[n..]))
  }

  /** Where `size_of::<T>()` is the `N` of the conversion (every type but a padded `P#`), the two agree. */
  lemma TryFromBytesAgrees(e: Endian, l: Layout, slice: seq<Byte>)
    requires WellFormed(l)
    ensures TryFromBytesAsWritten(e, l, Width(l), slice) == TryFromBytes(e, l, slice)
  {
  }

  /** The bytes of a value followed by anything decode back to the value and the rest. */
  lemma TryFromBytesOfToBytes(e: Endian, l: Layout, v: Value, rest: seq<Byte>)
    requires WellFormed(l) && Conforms(v, l)
    ensures TryFromBytes(e, l, ToBytes(e, l, v) + rest) == Ok(Seq(v, rest))
  {
    var bytes := ToBytes(e, l, v);
    assert (bytes + rest)[..Width(l)] == bytes;
    assert (bytes + rest)[Width(l)..] == rest;
    FromToBytes(e, l, v);
  }
}
