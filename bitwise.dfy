/**
 * The operations `lsb_split` and `msb_split` use on a `BITS`-bit unsigned
 * integer (the unsigned instances of `funty::Integral`), written out on
 * naturals below `2^BITS`.
 *
 * Shifts follow a release build: the shift amount is taken modulo `BITS`
 * (Rust masks it with `BITS - 1`). A debug build panics instead whenever the
 * amount reaches `BITS`; the members that need it require a smaller amount.
 */
module Bitwise {
  import opened Widths

  /** `T::MAX` */
  function Max(bits: nat): nat
  {
    Pow2(bits) - 1
  }

  /** `!x` */
  function Not(bits: nat, x: nat): (r: nat)
    requires x < Pow2(bits)
    ensures r < Pow2(bits)
  {
    Max(bits) - x
  }

  /** `x << n` */
  function Shl(bits: nat, x: nat, n: nat): (r: nat)
    requires bits > 0
    ensures r < Pow2(bits)
  {
    x * Pow2(n % bits) % Pow2(bits)
  }

  /** `x >> n` */
  function Shr(bits: nat, x: nat, n: nat): (r: nat)
    requires bits > 0
    ensures r <= x
  {
    DivLe(x, Pow2(n % bits));
    x / Pow2(n % bits)
  }

  /** `x & y`, one bit at a time from the least significant end. */
  function And(x: nat, y: nat): nat
    decreases x
  {
    if x == 0 || y == 0 then 0
    else 2 * And(x / 2, y / 2) + (if x % 2 == 1 && y % 2 == 1 then 1 else 0)
  }

  /** The mask whose low `n` bits are set. */
  function LowMask(n: nat): nat
  {
    Pow2(n) - 1
  }

  /** The mask of a `bits`-bit integer whose bits from `k` upwards are set. */
  function HighMask(bits: nat, k: nat): nat
    requires k <= bits
  {
    Pow2Monotone(k, bits);
    Pow2(bits) - Pow2(k)
  }

  /** Masking with the low `n` bits keeps the remainder modulo `2^n`. */
  lemma {:induction false} AndLowMask(d: nat, n: nat)
    ensures And(d, LowMask(n)) == d % Pow2(n)
  {
    if n > 0 && d > 0 {
      var m := LowMask(n);
      assert m / 2 == LowMask(n - 1) && m % 2 == 1;
      AndLowMask(d / 2, n - 1);
      ModMul(d, 1, n - 1);
    }
  }

  /** Masking with the bits from `k` upwards clears the low `k` bits. */
  lemma {:induction false} AndHighMask(d: nat, bits: nat, k: nat)
    requires d < Pow2(bits) && k <= bits
    ensures And(d, HighMask(bits, k)) == d / Pow2(k) * Pow2(k)
  {
    var m := HighMask(bits, k);
    if k == 0 {
      AndLowMask(d, bits);
      SmallDivMod(d, bits);
    } else if m == 0 {
      SmallDivMod(d, k);
    } else if d == 0 {
      DivModUnique(0, Pow2(k), 0, 0);
    } else {
      AndHighMask(d / 2, bits - 1, k - 1);
      AndHighMaskStep(d, bits, k);
    }
  }

  /** One bit of AndHighMask: the low bit of `d` is cleared, the rest is masked one position down. */
  lemma AndHighMaskStep(d: nat, bits: nat, k: nat)
    requires 0 < d && 0 < k <= bits && HighMask(bits, k) != 0
    requires And(d / 2, HighMask(bits - 1, k - 1)) == d / 2 / Pow2(k - 1) * Pow2(k - 1)
    ensures And(d, HighMask(bits, k)) == d / Pow2(k) * Pow2(k)
  {
    var half, q, p := HighMask(bits - 1, k - 1), d / Pow2(k), Pow2(k - 1);
    assert And(d, HighMask(bits, k)) == 2 * And(d / 2, half) by {
      HalveHighMask(bits, k);
    }
    assert d / 2 / p == q by {
      assert Pow2(1) == 2;
      DivDiv(d, 1, k - 1);
    }
    assert Pow2(k) == 2 * p;
    DoubleProduct(And(d, HighMask(bits, k)), And(d / 2, half), q, p);
  }

  lemma DoubleProduct(a: int, b: int, q: int, p: int)
    requires a == 2 * b && b == q * p
    ensures a == q * (2 * p)
  {
  }

  lemma HalveHighMask(bits: nat, k: nat)
    requires 0 < k <= bits
    ensures HighMask(bits, k) / 2 == HighMask(bits - 1, k - 1)
    ensures HighMask(bits, k) % 2 == 0
  {
    assert HighMask(bits, k) == 2 * HighMask(bits - 1, k - 1);
  }
}
