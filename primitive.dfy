/**
 * Primitive coercion (`AsPrimitive`) of a raw unsigned field value into the
 * type the caller declared for it, and the element-wise `From` conversions
 * between `T#` structs and tuples.
 */
module Primitive {
  import opened Widths

  /** The caller-declared type of one extracted field. */
  datatype Target =
    | UnitTarget            // `()`: reserved bits
    | BoolTarget            // `bool`
    | UintTarget(bits: nat) // `u8` .. `u128`

  /** A coerced field value. */
  datatype Field = Unit | Flag(b: bool) | Uint(value: nat)

  /**
   * `x.as_primitive()`: unit discards the value, `bool` tests it against
   * zero, `uN` is an `as` cast that keeps the low `N` bits.
   */
  function AsPrimitive(x: nat, t: Target): (r: Field)
    ensures t.UnitTarget? ==> r == Unit
    ensures t.BoolTarget? ==> r.Flag? && (r.b <==> x != 0)
    ensures t.UintTarget? ==> r.Uint? && r.value < Pow2(t.bits)
    ensures t.UintTarget? ==> (x - r.value) % Pow2(t.bits) == 0
  {
    match t
    case UnitTarget => Unit
    case BoolTarget => Flag(x != 0)
    case UintTarget(bits) =>
      SubModIsMultiple(x, Pow2(bits));
      Uint(x % Pow2(bits))
  }

  /** A field that already fits the target integer keeps its value; a 1-bit field read as `bool` is its bit. */
  lemma AsPrimitiveLossless(x: nat, t: Target)
    requires t.UintTarget? ==> x < Pow2(t.bits)
    requires t.BoolTarget? ==> x < 2
    ensures t.UintTarget? ==> AsPrimitive(x, t) == Uint(x)
    ensures t.BoolTarget? ==> AsPrimitive(x, t) == Flag(x == 1)
  {
    if t.UintTarget? {
      SmallDivMod(x, t.bits);
    }
  }

  /** The cast is idempotent: coercing an already coerced value changes nothing. */
  lemma AsPrimitiveIdempotent(x: nat, bits: nat)
    ensures AsPrimitive(AsPrimitive(x, UintTarget(bits)).value, UintTarget(bits)) == AsPrimitive(x, UintTarget(bits))
  {
    var r := AsPrimitive(x, UintTarget(bits)).value;
    SmallDivMod(r, bits);
  }

  // ---------------------------------------------------------------------------
  // `From` between `T#` structs and tuples

  /** A primitive type that a `T#` or tuple element may have. */
  datatype PrimTy = Unsigned(bits: nat) | Signed(bits: nat) | Character | Bool

  /** `v` is a value of type `t` (characters by their Unicode scalar value). */
  predicate Fits(t: PrimTy, v: int)
  {
    match t
    case Unsigned(b) => 0 <= v < Pow2(b)
    case Signed(b) => if b == 0 then false else -(Pow2(b - 1) as int) <= v < Pow2(b - 1)
    case Character => (0 <= v < 0xD800) || (0xE000 <= v < 0x11_0000)
    case Bool => v == 0 || v == 1
  }

  /**
   * The lossless `From` impls of `core` between primitive types: widening
   * integers, `u8` into `char`, `char` into `u32` and wider, `bool` into
   * every integer type (all of which are at least 8 bits wide), and each
   * type into itself.
   */
  predicate HasFrom(src: PrimTy, dst: PrimTy)
  {
    match (src, dst)
    case (Unsigned(m), Unsigned(n)) => m <= n
    case (Unsigned(m), Signed(n)) => m < n
    case (Signed(m), Signed(n)) => 0 < m <= n
    case (Unsigned(m), Character) => m == 8
    case (Character, Unsigned(n)) => 32 <= n
    case (Bool, Unsigned(n)) => 8 <= n
    case (Bool, Signed(n)) => 8 <= n
    case _ => src == dst
  }

  /**
   * `T#(a, ..).into()` and `(a, ..).into()`: each element goes through its
   * own `From`, which never changes the value and always lands in range.
   */
  function ElementsInto(vs: seq<int>, srcs: seq<PrimTy>, dsts: seq<PrimTy>): (r: seq<int>)
    requires |srcs| == |vs| && |dsts| == |vs|
    requires forall i :: 0 <= i < |vs| ==> Fits(srcs[i], vs[i]) && HasFrom(srcs[i], dsts[i])
    ensures |r| == |vs|
    ensures forall i :: 0 <= i < |vs| ==> Fits(dsts[i], r[i])
    ensures forall i :: 0 <= i < |vs| ==> r[i] == vs[i]
  {
    forall i | 0 <= i < |vs| ensures Fits(dsts[i], vs[i]) {
      FromFits(srcs[i], dsts[i], vs[i]);
    }
    vs
  }

  /** Every lossless `From` maps a value of its source type to a value of its target type. */
  lemma FromFits(src: PrimTy, dst: PrimTy, v: int)
    requires Fits(src, v) && HasFrom(src, dst)
    ensures Fits(dst, v)
  {
    match (src, dst)
    case (Unsigned(m), Unsigned(n)) => Pow2Monotone(m, n);
    case (Unsigned(m), Signed(n)) => Pow2Monotone(m, n - 1);
    case (Signed(m), Signed(n)) => Pow2Monotone(m - 1, n - 1);
    case (Unsigned(m), Character) =>
      assert Pow2(8) == 256;
    case (Character, Unsigned(n)) =>
      Pow2Table();
      Pow2Monotone(32, n);
    case (Bool, Unsigned(n)) =>
      Pow2Small();
      Pow2Monotone(1, n);
    case (Bool, Signed(n)) =>
      Pow2Small();
      Pow2Monotone(1, n - 1);
    case _ =>
  }

  // ---------------------------------------------------------------------------
  // Element-wise conversions of the crate's tests

  /** `(97u8, 98u16).into()` as `T2<u32, i32>`, and `(97, 98, 99).into()` as `T3<char, char, char>`. */
  lemma TupleElementsInto()
    ensures ElementsInto([97, 98], [Unsigned(8), Unsigned(16)], [Unsigned(32), Signed(32)]) == [97, 98]
    ensures ElementsInto([97, 98, 99], [Unsigned(8), Unsigned(8), Unsigned(8)], [Character, Character, Character])
         == [97, 98, 99]
  {
    Pow2Table();
    Pow2Small();
    assert Pow2(31) == 0x8000_0000 by {
      Pow2Add(16, 15);
    }
  }

  /** `T2('a', true).into()` as `(u32, i8)`: `char` and `bool` elements widen into integers. */
  lemma CharAndBoolInto()
    ensures ElementsInto([0x61, 1], [Character, Bool], [Unsigned(32), Signed(8)]) == [0x61, 1]
  {
    Pow2Table();
    Pow2Small();
  }
}
