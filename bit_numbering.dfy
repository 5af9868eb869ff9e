/**
 * Bit partitioner: splits a `BITS`-bit unsigned integer into an ordered list
 * of fields of declared bit widths, numbered from the least significant bit
 * (`FromLsb`, LSB 0) or from the most significant bit (`FromMsb`, MSB 0), and
 * coerces every field into its declared type.
 *
 * A value of the source type is a natural below `Pow2(bits)`; a `P#<TY, AN, ..>`
 * descriptor is the width list `[AN, ..]`.
 */
module BitNumbering {
  import opened Wrappers
  import opened Widths
  import opened Bitwise
  import opened Primitive

  // ---------------------------------------------------------------------------
  // The two split primitives, as written

  /** `lsb_split::<N>(data)` as written: `(data & !(T::MAX << N), data >> N)`. */
  function LsbSplitExpr(bits: nat, n: nat, d: nat): (nat, nat)
    requires 0 < bits && d < Pow2(bits)
  {
    var mask := Not(bits, Shl(bits, Max(bits), n));
    (And(d, mask), Shr(bits, d, n))
  }

  /**
   * `msb_split::<N>(data)` as written, with `mask = T::MAX >> N`:
   * `((data & !mask) >> (T::BITS - N), (data & mask) << N)`.
   */
  function MsbSplitExpr(bits: nat, n: nat, d: nat): (nat, nat)
    requires 0 < bits && n <= bits && d < Pow2(bits)
  {
    var mask := Shr(bits, Max(bits), n);
    (Shr(bits, And(d, Not(bits, mask)), bits - n), Shl(bits, And(d, mask), n))
  }

  /** `T::MAX << n` is the mask of the bits from `n` upwards while `n < BITS`. */
  lemma ShlMax(bits: nat, n: nat)
    requires n < bits
    ensures Shl(bits, Max(bits), n) == HighMask(bits, n)
  {
    Pow2Monotone(n, bits);
    var p, q := Pow2(bits), Pow2(n);
    DivModUnique(n, bits, 0, n);
    RingShl(p, q);
    DivModUnique((p - 1) * q, p, q - 1, p - q);
  }

  lemma RingShl(p: int, q: int)
    ensures (p - 1) * q == (q - 1) * p + (p - q)
  {
  }

  /** `T::MAX >> n` is the mask of the low `BITS - n` bits while `n < BITS`. */
  lemma ShrMax(bits: nat, n: nat)
    requires n < bits
    ensures Shr(bits, Max(bits), n) == LowMask(bits - n)
  {
    DivModUnique(n, bits, 0, n);
    Pow2Add(bits - n, n);
    var p, q := Pow2(bits - n), Pow2(n);
    RingShr(p, q);
    DivModUnique(p * q - 1, q, p - 1, q - 1);
  }

  lemma RingShr(p: int, q: int)
    ensures p * q - 1 == (p - 1) * q + (q - 1)
  {
  }

  /** For `N < BITS`, `lsb_split` yields the low `N` bits and the value shifted down by `N`. */
  lemma LsbSplitExprInRange(bits: nat, n: nat, d: nat)
    requires n < bits && d < Pow2(bits)
    ensures LsbSplitExpr(bits, n, d) == (d % Pow2(n), d / Pow2(n))
  {
    var mask := Not(bits, Shl(bits, Max(bits), n));
    assert mask == LowMask(n) by {
      ShlMax(bits, n);
    }
    assert And(d, mask) == d % Pow2(n) by {
      AndLowMask(d, n);
    }
    assert Shr(bits, d, n) == d / Pow2(n) by {
      DivModUnique(n, bits, 0, n);
    }
  }

  /**
   * For `0 < N < BITS`, `msb_split` yields the top `N` bits and the remaining
   * bits moved to the top, with the low `N` bits zero.
   */
  lemma MsbSplitExprInRange(bits: nat, n: nat, d: nat)
    requires 0 < n < bits && d < Pow2(bits)
    ensures MsbSplitExpr(bits, n, d) == (d / Pow2(bits - n), d % Pow2(bits - n) * Pow2(n))
  {
    var k := bits - n;
    var mask := Shr(bits, Max(bits), n);
    assert mask == LowMask(k) by {
      ShrMax(bits, n);
    }
    assert Not(bits, mask) == HighMask(bits, k);
    var top := And(d, Not(bits, mask));
    assert top == d / Pow2(k) * Pow2(k) by {
      AndHighMask(d, bits, k);
    }
    assert Shr(bits, top, k) == d / Pow2(k) by {
      DivModUnique(k, bits, 0, k);
      DivLe(d, Pow2(k));
      DivAddMul(d / Pow2(k), 0, Pow2(k));
    }
    var low := And(d, mask);
    assert low == d % Pow2(k) by {
      AndLowMask(d, k);
    }
    assert Shl(bits, low, n) == low * Pow2(n) by {
      DivModUnique(n, bits, 0, n);
      ShiftedBelow(low, k, n);
      SmallDivMod(low * Pow2(n), k + n);
    }
  }

  lemma ShiftedBelow(x: nat, k: nat, n: nat)
    requires x < Pow2(k)
    ensures x * Pow2(n) < Pow2(k + n)
  {
    Pow2Add(k, n);
    MulLe(x, Pow2(k) - 1, Pow2(n));
  }

  // ---------------------------------------------------------------------------
  // The splits the chains use (see Findings in README.md)

  /**
   * `lsb_split::<N>` for every `N <= BITS`: the low `N` bits and the rest
   * shifted down. It agrees with the expression as written for `N < BITS`
   * and returns the whole value for a full-width field.
   */
  function LsbSplit(bits: nat, n: nat, d: nat): (r: (nat, nat))
    requires 0 < bits && n <= bits && d < Pow2(bits)
    ensures r.0 == d % Pow2(n) && r.1 == d / Pow2(n)
    ensures r.0 < Pow2(n) && r.1 <= d
    ensures r.1 * Pow2(n) + r.0 == d
  {
    DivLe(d, Pow2(n));
    EuclidPow2(d, n);
    if n == bits then
      SmallDivMod(d, bits);
      (d, 0)
    else
      LsbSplitExprInRange(bits, n, d);
      LsbSplitExpr(bits, n, d)
  }

  lemma EuclidPow2(d: nat, n: nat)
    ensures d / Pow2(n) * Pow2(n) + d % Pow2(n) == d
  {
  }

  /**
   * `msb_split::<N>` for every `N <= BITS`: the top `N` bits, and the
   * remaining `BITS - N` bits moved up to the top. It agrees with the
   * expression as written for `0 < N < BITS`.
   */
  function MsbSplit(bits: nat, n: nat, d: nat): (r: (nat, nat))
    requires 0 < bits && n <= bits && d < Pow2(bits)
    ensures r.0 == d / Pow2(bits - n) && r.1 == d % Pow2(bits - n) * Pow2(n)
    ensures r.0 < Pow2(n) && r.1 < Pow2(bits)
  {
    Pow2Add(bits - n, n);
    ShiftedBelow(d % Pow2(bits - n), bits - n, n);
    TopBits(d, bits, n);
    if n == 0 then
      SmallDivMod(d, bits);
      (0, d)
    else if n == bits then
      (d, 0)
    else
      MsbSplitExprInRange(bits, n, d);
      MsbSplitExpr(bits, n, d)
  }

  /** The top `n` bits of a `bits`-bit value fit in `n` bits. */
  lemma TopBits(d: nat, bits: nat, n: nat)
    requires n <= bits && d < Pow2(bits)
    ensures d / Pow2(bits - n) < Pow2(n)
  {
    Pow2Add(n, bits - n);
    DivBelow(d, Pow2(bits - n), Pow2(n));
  }

  // ---------------------------------------------------------------------------
  // The generated `FromLsb` / `FromMsb` impls

  /**
   * `ASSERT_INDEX_IN_BOUNDS = BITS - MAX_BIT_INDEX` with `MAX_BIT_INDEX` the
   * sum of the widths: it builds exactly when the fields fit in the source.
   */
  function IndexInBounds(bits: nat, widths: seq<nat>): (r: Option<nat>)
    ensures r.Some? <==> Sum(widths) <= bits
  {
    CheckedSub(bits, Sum(widths))
  }

  /** Every width of a list is at most the sum of the list. */
  lemma WidthBelowSum(widths: seq<nat>)
    requires widths != []
    ensures widths[0] <= Sum(widths) && Sum(widths[1..]) == Sum(widths) - widths[0]
  {
  }

  /**
   * The raw fields of the LSB 0 chain: one `lsb_split` per declared width,
   * each on what the previous split left.
   */
  function LsbFields(bits: nat, widths: seq<nat>, d: nat): (r: seq<nat>)
    requires 0 < bits && d < Pow2(bits) && Sum(widths) <= bits
    ensures |r| == |widths|
    ensures forall i :: 0 <= i < |widths| ==> r[i] < Pow2(widths[i])
    decreases widths
  {
    if widths == [] then []
    else
      WidthBelowSum(widths);
      var (a, rest) := LsbSplit(bits, widths[0], d);
      [a] + LsbFields(bits, widths[1..], rest)
  }

  /** The raw fields of the MSB 0 chain: one `msb_split` per declared width. */
  function MsbFields(bits: nat, widths: seq<nat>, d: nat): (r: seq<nat>)
    requires 0 < bits && d < Pow2(bits) && Sum(widths) <= bits
    ensures |r| == |widths|
    ensures forall i :: 0 <= i < |widths| ==> r[i] < Pow2(widths[i])
    decreases widths
  {
    if widths == [] then []
    else
      WidthBelowSum(widths);
      var (a, rest) := MsbSplit(bits, widths[0], d);
      [a] + MsbFields(bits, widths[1..], rest)
  }

  /** LSB 0: field `i` is the `widths[i]` bits of `d` starting at bit `Offset(widths, i)`. */
  lemma {:induction false} LsbFieldAt(bits: nat, widths: seq<nat>, d: nat, i: nat)
    requires 0 < bits && d < Pow2(bits) && Sum(widths) <= bits && i < |widths|
    ensures LsbFields(bits, widths, d)[i] == d / Pow2(Offset(widths, i)) % Pow2(widths[i])
    decreases i
  {
    WidthBelowSum(widths);
    var rest := d / Pow2(widths[0]);
    if i == 0 {
      assert widths[..0] == [];
      DivModUnique(d, 1, d, 0);
    } else {
      assert LsbFields(bits, widths, d)[i] == LsbFields(bits, widths[1..], rest)[i - 1];
      LsbFieldAt(bits, widths[1..], rest, i - 1);
      OffsetTail(widths, i);
      DivDiv(d, widths[0], Offset(widths[1..], i - 1));
    }
  }

  /** MSB 0 splitting peels the top field off and carries on with the rest shifted up to the top. */
  lemma MsbFieldsStep(bits: nat, widths: seq<nat>, d: nat, i: nat)
    requires 0 < bits && d < Pow2(bits) && Sum(widths) <= bits && i < |widths|
    ensures widths[0] <= bits && Sum(widths[1..]) <= bits
    ensures i == 0 ==> MsbFields(bits, widths, d)[0] == d / Pow2(bits - widths[0]) % Pow2(widths[0])
    ensures 0 < i ==>
              MsbFields(bits, widths, d)[i] == MsbFields(bits, widths[1..], MsbSplit(bits, widths[0], d).1)[i - 1]
  {
    WidthBelowSum(widths);
    var w := widths[0];
    var r := MsbSplit(bits, w, d);
    var tail := MsbFields(bits, widths[1..], r.1);
    assert MsbFields(bits, widths, d) == [r.0] + tail;
    SmallDivMod(d / Pow2(bits - w), w);
  }

  /**
   * MSB 0: field `i` is the `widths[i]` bits of `d` that start `Offset(widths, i)`
   * bits below the top, i.e. at bit `bits - Offset(widths, i) - widths[i]`.
   */
  lemma {:induction false} MsbFieldAt(bits: nat, widths: seq<nat>, d: nat, i: nat)
    requires 0 < bits && d < Pow2(bits) && Sum(widths) <= bits && i < |widths|
    ensures Offset(widths, i) + widths[i] <= bits
    ensures MsbFields(bits, widths, d)[i]
         == d / Pow2(bits - Offset(widths, i) - widths[i]) % Pow2(widths[i])
    decreases i
  {
    OffsetStep(widths, i);
    WidthBelowSum(widths);
    var w := widths[0];
    var rest := MsbSplit(bits, w, d).1;
    var fields := MsbFields(bits, widths, d);
    MsbFieldsStep(bits, widths, d, i);
    if i == 0 {
      assert widths[..0] == [];
    } else {
      var ws := widths[1..];
      assert ws[i - 1] == widths[i];
      MsbFieldAt(bits, ws, rest, i - 1);
      OffsetTail(widths, i);
      assert rest == d % Pow2(bits - w) * Pow2(w);
      var f := MsbFields(bits, ws, rest)[i - 1];
      assert f == rest / Pow2(bits - Offset(ws, i - 1) - widths[i]) % Pow2(widths[i]);
      MsbFieldShift(bits, widths, d, i, rest, f);
    }
  }

  /** The step of `MsbFieldAt`: a window of the shifted remainder, re-addressed in the original integer. */
  lemma MsbFieldShift(bits: nat, widths: seq<nat>, d: nat, i: nat, rest: nat, field: nat)
    requires 0 < i < |widths| && widths[0] <= bits
    requires rest == d % Pow2(bits - widths[0]) * Pow2(widths[0])
    requires Offset(widths[1..], i - 1) + widths[i] + widths[0] <= bits
    requires field == rest / Pow2(bits - Offset(widths[1..], i - 1) - widths[i]) % Pow2(widths[i])
    ensures Offset(widths, i) + widths[i] <= bits
    ensures field == d / Pow2(bits - Offset(widths, i) - widths[i]) % Pow2(widths[i])
  {
    OffsetTail(widths, i);
    var w, wi := widths[0], widths[i];
    var k: nat := bits - Offset(widths, i) - wi;
    assert bits - Offset(widths[1..], i - 1) - wi == w + k;
    MsbWindowShift(d, bits, w, k, wi);
  }

  /** Shifting out the top `w` bits and reading a window `k` bits up reads the same window of the source. */
  lemma MsbWindowShift(d: nat, bits: nat, w: nat, k: nat, wi: nat)
    requires w + k + wi <= bits
    ensures d % Pow2(bits - w) * Pow2(w) / Pow2(w + k) % Pow2(wi) == d / Pow2(k) % Pow2(wi)
  {
    MulDivPow2(d % Pow2(bits - w), w, k);
    ModDivMod(d, bits - w, k, wi);
  }

  /** Packs LSB 0 fields back into an integer, field `i` at bit `Offset(widths, i)`. */
  function LsbCompose(widths: seq<nat>, fields: seq<nat>): nat
    requires |fields| == |widths|
  {
    if widths == [] then 0 else fields[0] + Pow2(widths[0]) * LsbCompose(widths[1..], fields[1..])
  }

  /** Packs MSB 0 fields back into an integer of `Sum(widths)` bits, the first field on top. */
  function MsbCompose(widths: seq<nat>, fields: seq<nat>): nat
    requires |fields| == |widths|
  {
    if widths == [] then 0 else fields[0] * Pow2(Sum(widths[1..])) + MsbCompose(widths[1..], fields[1..])
  }

  /** Round trip: the LSB 0 fields pack back to the low `Sum(widths)` bits of the source. */
  lemma {:induction false} LsbRoundTrip(bits: nat, widths: seq<nat>, d: nat)
    requires 0 < bits && d < Pow2(bits) && Sum(widths) <= bits
    ensures LsbCompose(widths, LsbFields(bits, widths, d)) == d % Pow2(Sum(widths))
    decreases widths
  {
    if widths == [] {
      DivModUnique(d, 1, d, 0);
    } else {
      WidthBelowSum(widths);
      var w := widths[0];
      var rest := d / Pow2(w);
      var fields := LsbFields(bits, widths, d);
      assert fields[1..] == LsbFields(bits, widths[1..], rest);
      LsbRoundTrip(bits, widths[1..], rest);
      ModMul(d, w, Sum(widths[1..]));
    }
  }

  /** Round trip: the MSB 0 fields pack back to the top `Sum(widths)` bits of the source. */
  lemma {:induction false} MsbRoundTrip(bits: nat, widths: seq<nat>, d: nat)
    requires 0 < bits && d < Pow2(bits) && Sum(widths) <= bits
    ensures MsbCompose(widths, MsbFields(bits, widths, d)) == d / Pow2(bits - Sum(widths))
    decreases widths
  {
    if widths == [] {
      SmallDivMod(d, bits);
    } else {
      WidthBelowSum(widths);
      var w, rest_widths := widths[0], widths[1..];
      var s', k := Sum(rest_widths), bits - Sum(widths);
      var lo := d % Pow2(bits - w);
      var rest := lo * Pow2(w);
      var fields := MsbFields(bits, widths, d);
      assert fields[1..] == MsbFields(bits, rest_widths, rest);
      MsbRoundTrip(bits, rest_widths, rest);
      assert bits - s' == w + k;
      MulDivPow2(lo, w, k);
      assert bits - w == k + s';
      var top: int, tail: int := d / Pow2(k + s'), MsbCompose(rest_widths, fields[1..]);
      assert fields[0] == top;
      assert tail == lo / Pow2(k);
      assert MsbCompose(widths, fields) == top * Pow2(s') + tail;
      MsbRoundTripStep(d, k, s');
    }
  }

  /** `d >> k` is the bits above `k + s` shifted up by `s`, plus the `s` bits between. */
  lemma MsbRoundTripStep(d: nat, k: nat, s: nat)
    ensures d / Pow2(k + s) * Pow2(s) + d % Pow2(k + s) / Pow2(k) == d / Pow2(k)
  {
    DivLe(d, Pow2(k));
    var x := d / Pow2(k);
    DivDiv(d, k, s);
    ModDiv(d, k, s);
    EuclidPow2(x, s);
  }

  /** A packed list of fields that fit their widths fits in the sum of the widths. */
  lemma {:induction false} LsbComposeBound(widths: seq<nat>, fields: seq<nat>)
    requires |fields| == |widths|
    requires forall i :: 0 <= i < |widths| ==> fields[i] < Pow2(widths[i])
    ensures LsbCompose(widths, fields) < Pow2(Sum(widths))
    decreases widths
  {
    if widths != [] {
      var w, ws, fs := widths[0], widths[1..], fields[1..];
      assert forall i :: 0 <= i < |ws| ==> fs[i] == fields[i + 1] && ws[i] == widths[i + 1];
      LsbComposeBound(ws, fs);
      var p: int, c: int, s: int := Pow2(w), LsbCompose(ws, fs), Pow2(Sum(ws));
      assert LsbCompose(widths, fields) == fields[0] + p * c;
      PackBound(fields[0], p, c, s);
      Pow2Add(w, Sum(ws));
    }
  }

  /** The other direction: splitting packed fields gives the fields back. */
  lemma {:induction false} LsbFieldsOfCompose(bits: nat, widths: seq<nat>, fields: seq<nat>)
    requires 0 < bits && Sum(widths) <= bits && |fields| == |widths|
    requires forall i :: 0 <= i < |widths| ==> fields[i] < Pow2(widths[i])
    ensures LsbCompose(widths, fields) < Pow2(bits)
    ensures LsbFields(bits, widths, LsbCompose(widths, fields)) == fields
    decreases widths
  {
    LsbComposeBound(widths, fields);
    Pow2Monotone(Sum(widths), bits);
    if widths != [] {
      WidthBelowSum(widths);
      var w, ws, fs := widths[0], widths[1..], fields[1..];
      assert forall i :: 0 <= i < |ws| ==> fs[i] < Pow2(ws[i]) by {
        forall i | 0 <= i < |ws|
          ensures fs[i] < Pow2(ws[i])
        {
          assert fs[i] == fields[i + 1] && ws[i] == widths[i + 1];
        }
      }
      var c := LsbCompose(ws, fs);
      var whole := LsbCompose(widths, fields);
      LsbFieldsOfCompose(bits, ws, fs);
      LsbSplitOfCompose(bits, widths, fields);
      assert LsbFields(bits, widths, whole) == [fields[0]] + LsbFields(bits, ws, c);
      assert fields == [fields[0]] + fs;
    }
  }

  /** One `lsb_split` of packed fields takes off the first field and leaves the others packed. */
  lemma LsbSplitOfCompose(bits: nat, widths: seq<nat>, fields: seq<nat>)
    requires 0 < bits && widths != [] && widths[0] <= bits && |fields| == |widths| && fields[0] < Pow2(widths[0])
    requires LsbCompose(widths, fields) < Pow2(bits)
    ensures LsbSplit(bits, widths[0], LsbCompose(widths, fields)) == (fields[0], LsbCompose(widths[1..], fields[1..]))
  {
    LsbComposeStep(widths, fields);
  }

  /** The first field is the low `widths[0]` bits of the packed value, the rest sit above them. */
  lemma LsbComposeStep(widths: seq<nat>, fields: seq<nat>)
    requires widths != [] && |fields| == |widths| && fields[0] < Pow2(widths[0])
    ensures LsbCompose(widths, fields) % Pow2(widths[0]) == fields[0]
    ensures LsbCompose(widths, fields) / Pow2(widths[0]) == LsbCompose(widths[1..], fields[1..])
  {
    var p: int, q: int := Pow2(widths[0]), LsbCompose(widths[1..], fields[1..]);
    assert LsbCompose(widths, fields) == fields[0] + p * q;
    DivModUnique(LsbCompose(widths, fields), p, q, fields[0]);
  }

  /**
   * `P#::<TY, AN, ..>(data).lsb_into()`: the LSB 0 chain followed by an
   * independent `as_primitive` of every field into its declared type.
   * The width guard is the only demand on the caller.
   */
  function FromLsb(bits: nat, widths: seq<nat>, targets: seq<Target>, d: nat): (r: seq<Field>)
    requires 0 < bits && d < Pow2(bits) && |targets| == |widths|
    requires IndexInBounds(bits, widths).Some?
    ensures |r| == |widths|
    ensures forall i :: 0 <= i < |widths| ==>
              r[i] == AsPrimitive(d / Pow2(Offset(widths, i)) % Pow2(widths[i]), targets[i])
  {
    var fields := LsbFields(bits, widths, d);
    forall i | 0 <= i < |widths|
      ensures fields[i] == d / Pow2(Offset(widths, i)) % Pow2(widths[i])
    {
      LsbFieldAt(bits, widths, d, i);
    }
    seq(|widths|, i requires 0 <= i < |widths| => AsPrimitive(fields[i], targets[i]))
  }

  /** `P#::<TY, AN, ..>(data).msb_into()`: the MSB 0 chain followed by per-field coercion. */
  function FromMsb(bits: nat, widths: seq<nat>, targets: seq<Target>, d: nat): (r: seq<Field>)
    requires 0 < bits && d < Pow2(bits) && |targets| == |widths|
    requires IndexInBounds(bits, widths).Some?
    ensures |r| == |widths|
    ensures forall i :: 0 <= i < |widths| ==> Offset(widths, i) + widths[i] <= bits
    ensures forall i :: 0 <= i < |widths| ==>
              r[i] == AsPrimitive(d / Pow2(bits - Offset(widths, i) - widths[i]) % Pow2(widths[i]), targets[i])
  {
    var fields := MsbFields(bits, widths, d);
    forall i | 0 <= i < |widths|
      ensures Offset(widths, i) + widths[i] <= bits
      ensures fields[i] == d / Pow2(bits - Offset(widths, i) - widths[i]) % Pow2(widths[i])
    {
      MsbFieldAt(bits, widths, d, i);
    }
    seq(|widths|, i requires 0 <= i < |widths| => AsPrimitive(fields[i], targets[i]))
  }

  /** Reads one coerced LSB 0 field off a window whose value is already known. */
  lemma LsbFieldIs(bits: nat, widths: seq<nat>, targets: seq<Target>, d: nat, i: nat, lo: nat, x: nat)
    requires 0 < bits && d < Pow2(bits) && |targets| == |widths| && Sum(widths) <= bits && i < |widths|
    requires Offset(widths, i) == lo && d / Pow2(lo) % Pow2(widths[i]) == x
    ensures IndexInBounds(bits, widths).Some?
    ensures FromLsb(bits, widths, targets, d)[i] == AsPrimitive(x, targets[i])
  {
    var r := FromLsb(bits, widths, targets, d);
    var field := d / Pow2(Offset(widths, i)) % Pow2(widths[i]);
    assert field == x;
    assert r[i] == AsPrimitive(field, targets[i]);
  }

  /** Reads one coerced MSB 0 field off a window whose value is already known. */
  lemma MsbFieldIs(bits: nat, widths: seq<nat>, targets: seq<Target>, d: nat, i: nat, lo: nat, x: nat)
    requires 0 < bits && d < Pow2(bits) && |targets| == |widths| && Sum(widths) <= bits && i < |widths|
    requires Offset(widths, i) + widths[i] <= bits
    requires bits - Offset(widths, i) - widths[i] == lo && d / Pow2(lo) % Pow2(widths[i]) == x
    ensures IndexInBounds(bits, widths).Some?
    ensures FromMsb(bits, widths, targets, d)[i] == AsPrimitive(x, targets[i])
  {
    var w, o := widths[i], Offset(widths, i);
    assert bits - o - w == lo;
    var r := FromMsb(bits, widths, targets, d);
    assert r[i] == AsPrimitive(d / Pow2(lo) % Pow2(w), targets[i]);
  }

  // ---------------------------------------------------------------------------
  // Full-width fields

  /**
   * A field as wide as the source passes the bounds guard, but `lsb_split::<BITS>`
   * masks the shift amount to 0: the field comes out empty and the whole word
   * stays behind.  The corrected split hands the whole word to the field.
   */
  lemma LsbFullWidthAsWritten(bits: nat, d: nat)
    requires 0 < bits && d < Pow2(bits)
    ensures IndexInBounds(bits, [bits]).Some?
    ensures LsbSplitExpr(bits, bits, d) == (0, d)
    ensures LsbSplit(bits, bits, d) == (d, 0)
  {
    assert [bits][1..] == [] && Sum([bits]) == bits;
    FullShift(bits, Max(bits));
    FullShift(bits, d);
    assert Not(bits, Max(bits)) == 0;
    assert And(d, 0) == 0;
  }

  /** `msb_split::<BITS>` likewise returns `(0, data)` instead of `(data, 0)`. */
  lemma MsbFullWidthAsWritten(bits: nat, d: nat)
    requires 0 < bits && d < Pow2(bits)
    ensures MsbSplitExpr(bits, bits, d) == (0, d)
    ensures MsbSplit(bits, bits, d) == (d, 0)
  {
    FullShift(bits, Max(bits));
    FullShift(bits, d);
    assert Not(bits, Max(bits)) == 0;
    assert And(d, 0) == 0;
    assert Shr(bits, 0, 0) == 0;
    AndLowMask(d, bits);
    DivModUnique(d, Pow2(bits), 0, d);
    assert And(d, Max(bits)) == d;
  }

  /** A shift by `BITS` is a shift by 0 once the amount is masked: it changes nothing. */
  lemma FullShift(bits: nat, x: nat)
    requires 0 < bits && x < Pow2(bits)
    ensures Shl(bits, x, bits) == x && Shr(bits, x, bits) == x
  {
    DivModUnique(bits, bits, 1, 0);
    assert Pow2(bits % bits) == 1;
    DivModUnique(x, Pow2(bits), 0, x);
  }

  /** `P1::<u8, 8>(0xAB)`: both chains as written leave the field empty. */
  lemma FullWidthByteAsWritten()
    ensures LsbSplitExpr(8, 8, 0xAB) == (0, 0xAB) && MsbSplitExpr(8, 8, 0xAB) == (0, 0xAB)
    ensures LsbSplit(8, 8, 0xAB) == (0xAB, 0) && MsbSplit(8, 8, 0xAB) == (0xAB, 0)
  {
    assert Pow2(8) == 256;
    LsbFullWidthAsWritten(8, 0xAB);
    MsbFullWidthAsWritten(8, 0xAB);
  }
}
