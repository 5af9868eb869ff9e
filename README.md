# heterob core, modelled in Dafny

`heterob` is a `no_std` Rust toolkit that splits a fixed-width value into an
ordered list of typed fields. It does this in three ways:

- **Bit numbering** splits an unsigned integer of `BITS` bits into fields of
  declared bit widths. Fields are numbered from the least significant bit
  (`lsb_into`, LSB 0) or from the most significant bit (`msb_into`, MSB 0).
  Each field is then coerced into its declared type with `AsPrimitive`: unit,
  `bool` or an unsigned integer.
- **Array partitioning** (`T#::from([T; N])`) cuts an array into consecutive
  sub-arrays of declared lengths. It builds only when the lengths add up to `N`.
- **Endianness** decodes byte arrays into `u8`, `[u8; N]`, `uK`, `[uK; M]` and
  `P#` tuples of those, little or big endian. The tuple path is partition
  first, then decode each part. The rest of this module covers:
  - the `Le`/`Be` wrappers and how they merge across a tuple;
  - the fallible slice path `try_from_{le,be}_bytes`, which returns the
    decoded head and the remaining tail.

How the model represents the Rust:

- A value of a `BITS`-bit integer is a `nat` below `Pow2(bits)`.
- A `P#<TY, AN, ..>` descriptor is a width list.
- Every arity (1..26) of a generated impl is one function over a sequence.
- The compile-time guards become `Option`-valued guard functions whose
  success is the precondition of the operation they protect:
  - `ParamAndAssociatedConst::ASSERT_EQ`
  - `ASSERT_INDEX_IN_BOUNDS`
  - `ASSERT_SELF_SIZE`
- Rust's `<<`, `>>`, `&` and `!` on integers are defined arithmetically.
  Shifts use the release-build behaviour, in which the shift amount is
  reduced modulo `BITS`.

Files, one module each:

- `wrappers.dfy`: `Option`/`Result`.
- `widths.dfy`:
  - powers of two, width sums and offsets;
  - the checked `usize` subtraction behind the guards;
  - arithmetic lemmas.
- `bitwise.dfy`: `MAX`, `!`, `<<`, `>>`, `&` on `BITS`-bit values, and masks.
- `primitive.dfy`: `AsPrimitive`, and the element-wise `From` between `T#` and tuples.
- `bit_numbering.dfy`:
  - `lsb_split`/`msb_split`;
  - the `FromLsb`/`FromMsb` chains, their field formulas and round trips.
- `partition.dfy`: `T#::from([T; N])` as a loop over fresh arrays, and its specification.
- `endianness.dfy`:
  - integer, array and tuple decoding;
  - the `[uK; M]` chunk loop;
  - wrappers and the slice path.
- `bit_numbering_tests.dfy` and `endianness_tests.dfy`: the documentation examples and unit-test vectors of the two modules, proved over the model (for `into_tupled_integers`, the `u8 .. u128` tuple only).

## Model

| member | source | states |
|---|---|---|
| Widths.CheckedSub | src/lib.rs:19-20 | a `usize` subtraction `a - b` is defined exactly when `b <= a`, and then adds back to `a` |
| Widths.AssertEq | src/lib.rs:17-22 | `ASSERT_EQ = (VALUE - N, N - VALUE)` builds if and only if `VALUE == N`, and is then `(0, 0)` |
| Widths.SumAppend | src/macros.rs:8-10 | `VALUE`, the sum of the declared widths, is additive over concatenation of width lists |
| Widths.OffsetStep | src/macros.rs:41-46 | the `end` cursor after field `i` is the cursor before it plus `widths[i]`, never beyond the sum |
| Primitive.AsPrimitive | src/lib.rs:158-170 | unit discards the value; `bool` is true exactly when the field is nonzero; `uN` is below `2^N` and congruent to the field modulo `2^N` (an `as` cast) |
| Primitive.AsPrimitiveLossless | src/lib.rs:170 | a field that already fits `uN` keeps its value, and a 1-bit field read as `bool` is true exactly when the bit is 1 |
| Primitive.AsPrimitiveIdempotent | src/macros.rs:68-73 | casting an already cast value changes nothing |
| Primitive.ElementsInto | src/macros.rs:12-30 | `T#(a, ..).into()` and `(a, ..).into()` convert element by element, keep every value and land every element in its target type |
| Primitive.FromFits | src/macros.rs:12-30 | every lossless `From` of `core` an element conversion may use (widening integers, `u8` into `char`, `char` into `u32` and wider, `bool` into every integer) maps a value of its source type into range of its target type |
| Primitive.TupleElementsInto | src/lib.rs:192-199 | `(97u8, 98u16).into()` gives `T2(97u32, 98i32)`, and `u8` elements `97, 98, 99` convert to the characters `'a', 'b', 'c'` in either direction between `T3` and a tuple |
| Primitive.CharAndBoolInto | src/macros.rs:12-20 | `T2('a', true).into()` as `(u32, i8)` gives `(0x61, 1)`: `char` and `bool` elements convert too |
| BitNumbering.LsbSplitExprInRange | src/bit_numbering.rs:111-114 | for `N < BITS`, `(data & !(MAX << N), data >> N)` is `(data mod 2^N, data / 2^N)` |
| BitNumbering.MsbSplitExprInRange | src/bit_numbering.rs:158-161 | for `0 < N < BITS`, `msb_split` yields the top `N` bits `data / 2^(BITS-N)` and the remaining bits moved to the top, `(data mod 2^(BITS-N)) * 2^N` |
| BitNumbering.ShlMax | src/bit_numbering.rs:112 | `MAX << N` is the mask of the bits from `N` upwards, for `N < BITS` |
| BitNumbering.ShrMax | src/bit_numbering.rs:159 | `MAX >> N` is the mask of the low `BITS - N` bits, for `N < BITS` |
| BitNumbering.LsbSplit | src/bit_numbering.rs:111-114 | the low `N` bits and the rest shifted down, for every `N <= BITS`: the low part is below `2^N` and `hi * 2^N + lo == data` |
| BitNumbering.MsbSplit | src/bit_numbering.rs:158-161 | the top `N` bits, which fit in `N` bits, and the other bits shifted to the top, which stay below `2^BITS`, for every `N <= BITS` |
| BitNumbering.TopBits | src/bit_numbering.rs:160 | the top `N` bits of a `BITS`-bit value fit in `N` bits |
| BitNumbering.IndexInBounds | src/macros.rs:179-183 | `BITS - MAX_BIT_INDEX` builds if and only if the sum of the widths is at most `BITS` |
| BitNumbering.LsbFields | src/macros.rs:185 | one `lsb_split` per declared width on what the previous split left; one field per width, each below `2^width` |
| BitNumbering.MsbFields | src/macros.rs:185 | one `msb_split` per declared width; one field per width, each below `2^width` |
| BitNumbering.LsbFieldAt | src/macros.rs:185 | LSB 0: field `i` is the `widths[i]` bits of the source starting at bit `Offset(widths, i)` |
| BitNumbering.MsbFieldAt | src/macros.rs:185 | MSB 0: field `i` is the `widths[i]` bits starting `Offset(widths, i)` bits below the top, inside the source |
| BitNumbering.LsbRoundTrip | src/macros.rs:185 | packing the LSB 0 fields back gives the low `sum(widths)` bits of the source |
| BitNumbering.MsbRoundTrip | src/macros.rs:185 | packing the MSB 0 fields back gives the top `sum(widths)` bits of the source; the unused low bits are ignored |
| BitNumbering.LsbComposeBound | src/macros.rs:185 | fields that fit their widths pack into `sum(widths)` bits |
| BitNumbering.LsbFieldsOfCompose | src/macros.rs:185 | splitting packed fields gives the same fields back, the inverse of `LsbRoundTrip` |
| BitNumbering.FromLsb | src/macros.rs:175-188 | `lsb_into`: under the bounds guard, output element `i` is the coercion of field `i` (LSB 0 bits at its offset) into its declared type, in declared order |
| BitNumbering.FromMsb | src/macros.rs:175-188 | `msb_into`: output element `i` is the coercion of field `i` taken from the top, in declared order |
| BitNumbering.LsbFullWidthAsWritten | src/bit_numbering.rs:111-114 | for every width `BITS` and every value: a full-width field passes the bounds guard, but `lsb_split::<BITS>` as written returns `(0, data)`; the corrected split returns `(data, 0)` |
| BitNumbering.MsbFullWidthAsWritten | src/bit_numbering.rs:158-161 | for every width `BITS` and every value: `msb_split::<BITS>` as written returns `(0, data)`; the corrected split returns `(data, 0)` |
| BitNumbering.FullWidthByteAsWritten | src/bit_numbering.rs:111-114 | the `P1::<u8, 8>(0xAB)` instance: both splits as written give `(0, 0xAB)`, the corrected ones `(0xAB, 0)` |
| BitNumberingTests.LsbSplitExample | src/bit_numbering.rs:104-108 | `lsb_split::<_, 9>` of the sample word gives `(0b1_1000_0001, 0b1111_1111_0101_1010_1100_001)` |
| BitNumberingTests.MsbSplitExample | src/bit_numbering.rs:151-155 | `msb_split::<_, 9>` of the sample word gives `0b1111_1111_0` and the rest shifted up by 9 |
| BitNumberingTests.LsbIntoTupleExample | src/bit_numbering.rs:226-233 | `P4::<_, 15, 1, 2, 14>(U32).lsb_into()` gives `(0b100_0011_1000_0001, true, 0b10, ())` |
| BitNumberingTests.MsbIntoTupleExample | src/bit_numbering.rs:236-240 | `P3::<_, 15, 1, 2>(U32).msb_into()` gives `(0b1111_1111_0101_101, false, 0b11)` |
| BitNumberingTests.LsbDocExample | src/bit_numbering.rs:11-21 | `P3::<u16, 7, 1, 8>(0b1111_0000_1100_1010).lsb_into()` gives `(0b100_1010, true, 0xF0)` |
| BitNumberingTests.LsbSkipExample | src/bit_numbering.rs:36-45 | a unit field consumes its 11 bits and yields nothing: `(0b1011, (), true)` |
| BitNumberingTests.MsbDocExample | src/bit_numbering.rs:48-59 | `P3::<_, 4, 10, 2>(0b1011_0000_0000_1011).msb_into()` into `(u16, u32, u64)` gives `(11, 2, 3)` |
| Partition.Split | src/macros.rs:33-49 | `T#::from(data)` yields one part per declared length, each of that length |
| Partition.SplitAt | src/macros.rs:41-47 | part `i` is `data[start_i .. start_i + widths[i]]`, with `start_i` the sum of the earlier lengths |
| Partition.FlattenSplit | src/macros.rs:39-47 | under `ASSERT_EQ` the parts concatenate back to the whole array |
| Partition.SplitFlatten | src/macros.rs:33-49 | parts of the declared lengths are recovered from their concatenation |
| Partition.SplitArray | src/macros.rs:37-48 | the generated loop with fresh default-filled arrays and an advancing `end` cursor computes exactly `Split`, under `ASSERT_EQ` |
| Partition.SplitCharsExample | src/lib.rs:182-185 | `T2::from(['a', 'b', 'b'])` is `T2(['a'], ['b', 'b'])` |
| Partition.SplitBytesExample | src/lib.rs:186-187 | `T3::from([1, 2, 2, 3, 3, 3, 3])` is `T3([1], [2, 2], [3, 3, 3, 3])` |
| Endianness.LeValue | src/endianness.rs:294-298 | `uK::from_le_bytes` of `K` bytes is below `2^(8K)` |
| Endianness.BeValue | src/endianness.rs:294-298 | `uK::from_be_bytes` of `K` bytes is below `2^(8K)` |
| Endianness.LeFirstByte | src/endianness.rs:294-298 | little endian: byte 0 is the least significant byte of the value |
| Endianness.BeFirstByte | src/endianness.rs:294-298 | big endian: byte 0 is the most significant byte of the value |
| Endianness.BeIsReversedLe | src/endianness.rs:294-298 | big endian is little endian of the reversed bytes |
| Endianness.LeValueAppend | src/endianness.rs:294-298 | little endian of a concatenation: the later bytes are the higher digits |
| Endianness.LeValueOfLeBytes | src/endianness.rs:294-298 | decoding the `to_le_bytes` encoding gives the value back |
| Endianness.LeBytesOfLeValue | src/endianness.rs:294-298 | encoding a little-endian decode gives the bytes back |
| Endianness.BeRoundTrip | src/endianness.rs:294-298 | the big-endian decode and encode are inverse, in both directions |
| Endianness.DecodeEncode | src/endianness.rs:294-298 | the decode of either byte order and its encoder are inverse, in both directions |
| Endianness.AssertSelfSize | src/endianness.rs:117-118 | `ASSERT_SELF_SIZE = (SIZE - N, N - SIZE)` builds if and only if `N` equals the size of the target |
| Endianness.DecodeArray | src/endianness.rs:317-331 | `[uK; M]` from `[u8; N]` has `M` elements, each below `2^(8K)` |
| Endianness.DecodeArrayLoop | src/endianness.rs:317-331 | the zero-filled result array and the `chunks_exact` loop with its `break`: under the size guard every slot `k` holds the decode of `bytes[k*K .. (k+1)*K]`, so no slot stays zero-filled |
| Endianness.ChunkCount | src/endianness.rs:320-324 | `K * M` bytes make exactly `M` chunks of `K` bytes |
| Endianness.DecodeEncodeArray | src/endianness.rs:317-331 | decoding an encoded array gives the elements back |
| Endianness.EncodeDecodeArray | src/endianness.rs:317-331 | encoding a decoded array gives the bytes back |
| Endianness.ChunkIsPart | src/endianness.rs:324 | the `k`-th chunk of `chunks_exact(K)` is the `k`-th part of a partition into equal lengths |
| Endianness.FromBytesConforms | src/endianness.rs:426-435 | `from_{le,be}_bytes` for every covered type yields a value of that type: an integer below `2^(8*size)`, an array of `count` such integers, a tuple of conforming parts |
| Endianness.TuplePart | src/endianness.rs:431-433 | tuple part `i` is the decode of the bytes at its declared offset, in declared order |
| Endianness.ToBytes | src/endianness.rs:426-435 | the reference encoder yields exactly `N` bytes |
| Endianness.FromToBytes | src/endianness.rs:426-435 | decoding the encoding of a value gives the value back, for every layout |
| Endianness.ToFromBytes | src/endianness.rs:426-435 | a decode is a value of its type and encoding it gives the bytes back, for every layout |
| Endianness.BytesIgnoreOrder | src/endianness.rs:142-153 | `u8` from `[u8; 1]` is `bytes[0]` and `[u8; N]` is the identity, and they, and tuples of them, decode the same in both byte orders (also src/endianness.rs:261-272) |
| Endianness.Wrap | src/endianness.rs:155-157 | `Le(v)` / `Be(v)` records the byte order and keeps the value |
| Endianness.WrappedFrom | src/endianness.rs:160-164 | `Le<T>::from(bytes)` is the little-endian decode wrapped in `Le` (and `Be` likewise, src/endianness.rs:279-283) |
| Endianness.Merge | src/endianness.rs:358-362 | `(Le(a), ..)` into `Le((a, ..))` keeps the order and every value in place |
| Endianness.Unmerge | src/endianness.rs:358-362 | the tuple of wrappers a merged wrapper stands for, one per value |
| Endianness.MergeLossless | src/macros.rs:81-85 | merging the wrappers is lossless repackaging: it is undone by `Unmerge` and undoes it |
| Endianness.MixedPart | src/macros.rs:55-64 | `P#`/`T#` into a tuple of separately wrapped parts decodes part `i` from its own bytes in its own byte order |
| Endianness.MergedAgreesWithTuple | src/endianness.rs:401-410 | `Le<(A, ..)>::from(P#)` through per-part wrappers and a merge equals the wrapped `P#` tuple decode |
| Endianness.TryFromBytesAsWritten | src/endianness.rs:173-179 | as written: succeeds exactly when the slice is `N` bytes long, or when `size_of::<Self>() == N` and the slice is at least `N` bytes; the head is the decode of the first `N` bytes |
| Endianness.TryFromBytes | src/endianness.rs:188-194 | a slice of at least `N` bytes gives `Ok` with head the decode of `s[..N]` and tail `s[N..]`, and `s[..N] + tail == s`; a shorter slice gives `Err` and no short head |
| Endianness.TryFromBytesAgrees | src/endianness.rs:175-176 | where `size_of::<Self>() == N` the written slice path and the corrected one agree on every slice |
| Endianness.TryFromBytesOfToBytes | src/endianness.rs:173-179 | the bytes of a value followed by anything parse back to that value and the rest |
| EndiannessTests.LeU32 | src/endianness.rs:486 | `u32` from `DATA[..4]` little endian is `0x33221100` |
| EndiannessTests.BeU16U32 | src/endianness.rs:490-491 | `u16` and `u32` from `DATA` big endian are `0x0011` and `0x00112233` |
| EndiannessTests.LeU64 | src/endianness.rs:487 | `u64` from `DATA[..8]` little endian is `0x7766554433221100` |
| EndiannessTests.BeU64 | src/endianness.rs:492 | `u64` from `DATA[..8]` big endian is `0x0011223344556677` |
| EndiannessTests.LeU128 | src/endianness.rs:488 | `u128` from `DATA[..16]` little endian is `0xFFEEDDCCBBAA99887766554433221100` |
| EndiannessTests.LeU16Array | src/endianness.rs:502-506 | `[u16; 8]` from `DATA[..16]` little endian is `[0x1100, 0x3322, .., 0xFFEE]` |
| EndiannessTests.BeU16Array | src/endianness.rs:528-532 | `[u16; 8]` from `DATA[..16]` big endian is `[0x0011, 0x2233, .., 0xEEFF]` |
| EndiannessTests.LeU32Array | src/endianness.rs:508-510 | `[u32; 4]` from `DATA[..16]` little endian is `[0x33221100, 0x77665544, 0xBBAA9988, 0xFFEEDDCC]` |
| EndiannessTests.BeU32Array | src/endianness.rs:534-536 | `[u32; 4]` from `DATA[..16]` big endian is `[0x00112233, 0x44556677, 0x8899AABB, 0xCCDDEEFF]` |
| EndiannessTests.U64Array | src/endianness.rs:512-514 | `[u64; 2]` from `DATA[..16]` is `[0x7766554433221100, 0xFFEEDDCCBBAA9988]` little endian and `[0x0011223344556677, 0x8899AABBCCDDEEFF]` big endian (also src/endianness.rs:538-540) |
| EndiannessTests.BeU128 | src/endianness.rs:493 | `u128` from `DATA[..16]` big endian is `RESULT_BE_U128`, `0x00112233445566778899AABBCCDDEEFF` |
| EndiannessTests.U128Array | src/endianness.rs:516-518 | `[u128; 1]` from `DATA[..16]` is `[0xFFEEDDCCBBAA99887766554433221100]` little endian and `[RESULT_BE_U128]` big endian (also src/endianness.rs:542-544) |
| EndiannessTests.ByteArray16 | src/endianness.rs:497-500 | `[u8; 16]` from `DATA[..16]` is the bytes themselves, in either byte order (also src/endianness.rs:523-526) |
| EndiannessTests.LeWrappedArrays | src/endianness.rs:548-571 | `Le<[u8; 16]>`, `Le<[u16; 8]>`, `Le<[u32; 4]>`, `Le<[u64; 2]>`, `Le<[u128; 1]>` from `DATA[..16]` wrap the little-endian arrays |
| EndiannessTests.TupledIntegers | src/endianness.rs:594-603 | `Le<(u8, u16, u32, u64, u128)>` from all 31 bytes of `DATA` is `(0x00, 0x2211, 0x66554433, 0xEEDDCCBBAA998877, 0xEEDDCCBBAA99887766554433221100FF)` |
| EndiannessTests.DocWordExample | src/endianness.rs:9-15 | `[0x11, 0x22]` into `u16` little endian is `0x2211`, directly and through `Le` |
| EndiannessTests.DocArrayExample | src/endianness.rs:36-45 | `[0x00, .., 0x55]` into `[u16; 3]` little endian is `[0x1100, 0x3322, 0x5544]`, directly and through `Le` |
| EndiannessTests.DocHalves | src/endianness.rs:60 | `T2::<[u8; 5], 5, 5>` cuts the 10-byte array into its two halves |
| EndiannessTests.DocHeadExample | src/endianness.rs:62 | the first half into `P2<(u8, u32), 1, 4>` little endian is `(0x00, 0x11111111)` |
| EndiannessTests.DocSplitFirstExample | src/endianness.rs:52-68 | split first, then `P2` on the head gives `(0x00, 0x11111111)` and `Le<(u8, u16, u16)>` on the tail gives `(0x22, 0x3333, 0x4444)` |
| EndiannessTests.DocBytesToBytesExample | src/endianness.rs:88-103 | `Le<(u8, u32, [u8; 5])>` keeps the last five bytes as they are, and decoding them as `P3<[u8; 5], 1, 2, 2>` gives `(0x22, 0x3333, 0x4444)` |
| EndiannessTests.LeMixedTuple | src/endianness.rs:619-626 | `P3((a, b, c)) = DATA[..8].le_bytes_into()` gives `(0x1100, 0x55443322, [0x66, 0x77])` |
| EndiannessTests.MixedOrderTuple | src/endianness.rs:574-581 | `(Be(a), Le(b), c) = T3::from(DATA[..8]).into()` gives `(0x0011, 0x55443322, [0x66, 0x77])` |
| EndiannessTests.MixedOrderArrays | src/endianness.rs:584-591 | `(Be(a), Le(b)) = P2::<_, 4, 4>(DATA[..8]).into()` gives `([0x0011, 0x2233], [0x77665544])` |
| EndiannessTests.Destructuring | src/endianness.rs:610-616 | `Le((0x1100u16, data)) = T2::from(DATA).into()` matches, `data` the remaining 29 bytes |
| EndiannessTests.DocTupleExample | src/endianness.rs:19-24 | `P3((byte, word, dword)) = [0x00, .., 0x66].le_bytes_into()` gives `(0x00, 0x2211, 0x66554433)` |
| EndiannessTests.NestedExample | src/endianness.rs:72-85 | the nested `P3<(u8, _, P3<(u8, _, _), 1, 2, 2>), 1, 4, 5>` decodes to `(0x00, 0x11111111, (0x22, 0x3333, 0x4444))` |
| EndiannessTests.TryFromU16 | src/endianness.rs:631-639 | `try_from_le_bytes(&DATA[..2])` for `u16` gives head `0x1100` and an empty tail |
| EndiannessTests.TryFromU32WithTail | src/endianness.rs:173-179 | a `u32` read off the whole `DATA` slice leaves the other 27 bytes as tail |
| EndiannessTests.PaddedTupleSlice | src/endianness.rs:175-176 | for the padded `P3<(u8, u16, u32), 1, 2, 4>` (7 bytes, size 8) the slice path as written accepts only a 7-byte slice; cut at `N` it accepts every slice of at least 7 bytes |

## Left out

- `AsPrimitive<Option<char>>` (src/lib.rs:161-163) is not modelled. It depends on the Unicode-scalar rules of the `funty` crate, which is not part of this model.
- The `Lsb<U>`/`Msb<U>` wrappers (src/macros.rs:190-198) and the blanket `*Into`/`*TryInto` traits only repackage a call that is modelled (`FromLsb`, `FromMsb`, `FromBytes`, `TryFromBytes`), so they have no member of their own.
- Arity generation is left out. The `macro_rules!`/`paste!` expansion to 1..26 elements is one sequence-generic function. `WellFormed` keeps the 26-element bound for tuples only.
- The `usize` target width is left out, since it depends on the target. Integer layouts are `u16`, `u32`, `u64` and `u128`. For the same reason the `usize` case of `into_tupled_integers` (src/endianness.rs:605-606) has no lemma.
- Signed source types of the bit partitioner are left out. `funty::Integral` also covers `i8 .. i128`, for which `T::MAX` is `2^(BITS-1) - 1` and `>>` is arithmetic. The model covers the unsigned instances, the ones the crate's examples and tests use.
- Floating-point and `usize`/`isize` elements of the element-wise `From` conversions are not modelled, so the `T2(97u8, 98u16)` into `(u128, usize)` case (src/lib.rs:191) has no lemma.
- Debug-build panics on out-of-range shifts are not modelled; shifts follow the release behaviour. The corrected splits are total for every width up to `BITS`.
- `size_of::<Self>()` is a parameter of `TryFromBytesAsWritten`. The compiler's layout and padding rules are not modelled.
- Foreign functions are replaced by arithmetic definitions: `funty`'s `Integral`/`Fundamental`, and `core`'s `uK::from_le_bytes`/`from_be_bytes`/`to_le_bytes`.
- `src/common.rs` is not part of this model. It is not compiled, and it repeats `src/macros.rs`.
- `examples/main.rs` and `benches/bit_numbering.rs` are not part of this model. They are a consumer program and a timing harness.
- Endianness.DecodeArrayLoop: the `[uK; M]` result array is a local `array` copied out as a sequence. The loop's chunk is a slice of the input sequence, not a borrowed sub-slice.
- Partition.SplitArray: `copy_from_slice` is modelled as a parallel assignment into the fresh array. Aliasing cannot arise because every part is freshly allocated.

## Findings

| source | as written | input that shows it | evidently intended | confidence | as-written member | corrected member |
|---|---|---|---|---|---|---|
| src/bit_numbering.rs:111-114 | `lsb_split::<N>` builds its mask as `!(T::MAX << N)`. The bounds guard (src/macros.rs:179-183) admits a field as wide as the source. With `N == BITS`, the shift overflows: it panics in a debug build, and in a release build the mask is 0, so the split returns `(0, data)` | `P1::<u8, 8>(0xAB).lsb_into()` | the field is the whole value: `(0xAB, 0)` | medium (not executed) | BitNumbering.LsbFullWidthAsWritten | BitNumbering.LsbSplit |
| src/bit_numbering.rs:158-161 | `msb_split::<N>` shifts by `N` and by `BITS - N`. With `N == BITS` the shifts overflow and a release build returns `(0, data)` | `P1::<u8, 8>(0xAB).msb_into()` | the field is the whole value: `(0xAB, 0)` | medium (not executed) | BitNumbering.MsbFullWidthAsWritten | BitNumbering.MsbSplit |
| src/endianness.rs:175-176 | the slice is cut at `min(len, size_of::<Self>())`, then converted into `[u8; N]`. For a `P#` tuple whose in-memory size counts padding, `size_of::<Self>()` exceeds `N`, so a slice longer than `N` is cut too long and the conversion fails (src/endianness.rs:190-191 likewise) | `<P3<(u8, u16, u32), 1, 2, 4> as TryFromLeBytes<7>>::try_from_le_bytes(&[0; 8])`: `N` is 7 and `size_of` is 8 | `Ok` with head from the first 7 bytes and a 1-byte tail | high (not executed) | EndiannessTests.PaddedTupleSlice | Endianness.TryFromBytes |
