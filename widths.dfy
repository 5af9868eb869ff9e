/**
 * Width arithmetic: powers of two, sums of field-width lists, prefix offsets
 * and the compile-time guards of the crate, whose `usize` subtractions fail to
 * build when they would underflow.
 */
module Widths {
  import opened Wrappers

  function Pow2(n: nat): (r: nat)
    ensures r >= 1
  {
    if n == 0 then 1 else 2 * Pow2(n - 1)
  }

  /** Sum of a width list: `VALUE` / `MAX_BIT_INDEX` of a `T#` or `P#`. */
  function Sum(ws: seq<nat>): nat
  {
    if ws == [] then 0 else ws[0] + Sum(ws[1..])
  }

  /** Where field `i` starts: the sum of the widths declared before it. */
  function Offset(ws: seq<nat>, i: nat): nat
    requires i <= |ws|
  {
    Sum(ws[..i])
  }

  lemma {:induction false} SumAppend(a: seq<nat>, b: seq<nat>)
    ensures Sum(a + b) == Sum(a) + Sum(b)
  {
    if a == [] {
      assert a + b == b;
    } else {
      assert (a + b)[1..] == a[1..] + b;
      SumAppend(a[1..], b);
    }
  }

  /** Offsets grow by one width per field and never pass the total. */
  lemma OffsetStep(ws: seq<nat>, i: nat)
    requires i < |ws|
    ensures Offset(ws, i + 1) == Offset(ws, i) + ws[i]
    ensures Offset(ws, i + 1) <= Sum(ws)
  {
    assert ws[..i + 1] == ws[..i] + [ws[i]];
    SumAppend(ws[..i], [ws[i]]);
    assert ws == ws[..i + 1] + ws[i + 1..];
    SumAppend(ws[..i + 1], ws[i + 1..]);
  }

  /** Offsets of the tail of a width list are the offsets of the list, less its first width. */
  lemma OffsetTail(ws: seq<nat>, i: nat)
    requires 0 < i <= |ws|
    ensures Offset(ws, i) == ws[0] + Offset(ws[1..], i - 1)
  {
    assert ws[..i][1..] == ws[1..][..i - 1];
  }

  // ---------------------------------------------------------------------------
  // Compile-time guards

  /**
   * `a - b` on `usize` inside an associated const: `None` stands for the
   * arithmetic-overflow error that stops the build.
   */
  function CheckedSub(a: nat, b: nat): (r: Option<nat>)
    ensures r.Some? <==> b <= a
    ensures r.Some? ==> r.value + b == a
  {
    if b <= a then Some(a - b) else None
  }

  /**
   * `ParamAndAssociatedConst::ASSERT_EQ = (VALUE - N, N - VALUE)`: both
   * subtractions build only when the declared widths sum to exactly `N`.
   */
  function AssertEq(value: nat, n: nat): (r: Option<(nat, nat)>)
    ensures r.Some? <==> value == n
    ensures r.Some? ==> r.value == (0, 0)
  {
    match (CheckedSub(value, n), CheckedSub(n, value))
    case (Some(less), Some(greater)) => Some((less, greater))
    case _ => None
  }

  // ---------------------------------------------------------------------------
  // Arithmetic on powers of two

  lemma {:induction false} Pow2Add(a: nat, b: nat)
    ensures Pow2(a + b) == Pow2(a) * Pow2(b)
  {
    if a > 0 {
      Pow2Add(a - 1, b);
      assert Pow2(a + b) == 2 * Pow2(a - 1 + b);
    }
  }

  /** The sizes of the unsigned integer types `u8` .. `u64`. */
  lemma Pow2Table()
    ensures Pow2(8) == 0x100 && Pow2(16) == 0x1_0000
    ensures Pow2(32) == 0x1_0000_0000 && Pow2(64) == 0x1_0000_0000_0000_0000
  {
    Pow2Small();
    Pow2Add(16, 16);
    assert Pow2(32) == 0x1_0000 * 0x1_0000;
    Pow2Add(32, 32);
    assert Pow2(64) == 0x1_0000_0000 * 0x1_0000_0000;
  }

  /** The small powers of two used by the worked examples, one doubling at a time. */
  lemma Pow2Small()
    ensures Pow2(0) == 1 && Pow2(1) == 2 && Pow2(2) == 4 && Pow2(4) == 0x10
    ensures Pow2(7) == 0x80 && Pow2(8) == 0x100 && Pow2(9) == 0x200 && Pow2(10) == 0x400
    ensures Pow2(12) == 0x1000 && Pow2(14) == 0x4000 && Pow2(15) == 0x8000
    ensures Pow2(16) == 0x1_0000 && Pow2(17) == 0x2_0000 && Pow2(23) == 0x80_0000
  {
    assert Pow2(1) == 0x2;
    assert Pow2(2) == 0x4;
    assert Pow2(3) == 0x8;
    assert Pow2(4) == 0x10;
    assert Pow2(5) == 0x20;
    assert Pow2(6) == 0x40;
    assert Pow2(7) == 0x80;
    assert Pow2(8) == 0x100;
    assert Pow2(9) == 0x200;
    assert Pow2(10) == 0x400;
    assert Pow2(11) == 0x800;
    assert Pow2(12) == 0x1000;
    assert Pow2(13) == 0x2000;
    assert Pow2(14) == 0x4000;
    assert Pow2(15) == 0x8000;
    assert Pow2(16) == 0x10000;
    assert Pow2(17) == 0x20000;
    assert Pow2(18) == 0x40000;
    assert Pow2(19) == 0x80000;
    assert Pow2(20) == 0x100000;
    assert Pow2(21) == 0x200000;
    assert Pow2(22) == 0x400000;
    assert Pow2(23) == 0x800000;
    assert Pow2(24) == 0x1000000;
  }

  lemma Pow2Monotone(a: nat, b: nat)
    requires a <= b
    ensures Pow2(a) <= Pow2(b)
  {
    Pow2Add(a, b - a);
    assert Pow2(b) == Pow2(a) * Pow2(b - a);
  }

  lemma MulAtLeast(k: int, m: int)
    requires k >= 1 && m > 0
    ensures k * m >= m
  {
    assert k * m == (k - 1) * m + m;
  }

  /** Euclidean division is determined by its quotient and remainder. */
  lemma DivModUnique(d: int, m: int, q: int, r: int)
    requires m > 0 && 0 <= r < m && d == q * m + r
    ensures d / m == q && d % m == r
  {
    var k := q - d / m;
    assert d == (d / m) * m + d % m;
    assert k * m == d % m - r by {
      assert k * m == q * m - (d / m) * m;
    }
    if k >= 1 {
      MulAtLeast(k, m);
    } else if k <= -1 {
      MulAtLeast(-k, m);
    }
  }

  /** The field of `d` at `[lo, lo + w)`, read off `d == (hi * 2^w + x) * 2^lo + r` with `p == 2^lo` and `m == 2^w`. */
  lemma WindowIs(d: nat, p: nat, m: nat, q: nat, r: nat, hi: nat, x: nat)
    requires 0 < p && r < p && d == q * p + r
    requires 0 < m && x < m && q == hi * m + x
    ensures d / p % m == x
  {
    DivModUnique(d, p, q, r);
    DivModUnique(q, m, hi, x);
  }

  /** Quotient and remainder by a product, in terms of the two divisions. */
  lemma DivModProduct(d: nat, m: nat, n: nat)
    requires m > 0 && n > 0
    ensures d / m / n == d / (m * n)
    ensures d % (m * n) == d % m + m * (d / m % n)
  {
    var q1, r1 := d / m, d % m;
    var q2, r2 := q1 / n, q1 % n;
    assert d == q2 * (m * n) + (r2 * m + r1) by {
      assert d == q1 * m + r1;
      assert q1 == q2 * n + r2;
      assert q1 * m == q2 * n * m + r2 * m;
    }
    assert r2 * m + r1 < m * n by {
      assert r2 <= n - 1;
      MulLe(r2, n - 1, m);
      assert (n - 1) * m == n * m - m;
    }
    DivModUnique(d, m * n, q2, r2 * m + r1);
  }

  /** A low digit below `p` plus `p` times a high digit below `q` stays below `p * q`. */
  lemma PackBound(lo: int, p: int, hi: int, q: int)
    requires 0 <= lo < p && 0 <= hi < q
    ensures lo + p * hi < p * q
  {
    assert p * hi <= p * (q - 1) by { MulLe(hi, q - 1, p); }
  }

  lemma MulLe(a: nat, b: nat, m: nat)
    requires a <= b
    ensures a * m <= b * m
  {
    assert b * m == a * m + (b - a) * m;
  }

  lemma DivDiv(d: nat, a: nat, b: nat)
    ensures d / Pow2(a) / Pow2(b) == d / Pow2(a + b)
  {
    Pow2Add(a, b);
    DivModProduct(d, Pow2(a), Pow2(b));
  }

  /** `d % 2^(a+b)` splits into the low `a` bits and the next `b` bits scaled by `2^a`. */
  lemma ModMul(d: nat, a: nat, b: nat)
    ensures d % Pow2(a + b) == d % Pow2(a) + Pow2(a) * (d / Pow2(a) % Pow2(b))
  {
    Pow2Add(a, b);
    DivModProduct(d, Pow2(a), Pow2(b));
  }

  /** Adding a multiple of the divisor shifts only the quotient. */
  lemma DivAddMul(a: nat, b: nat, m: nat)
    requires m > 0
    ensures (a * m + b) / m == a + b / m
    ensures (a * m + b) % m == b % m
  {
    assert b == (b / m) * m + b % m;
    assert a * m + b == (a + b / m) * m + b % m;
    DivModUnique(a * m + b, m, a + b / m, b % m);
  }

  /** Dividing a natural by a positive divisor gives a natural no larger. */
  lemma DivLe(x: nat, m: nat)
    requires m >= 1
    ensures 0 <= x / m <= x
  {
    var q := x / m;
    assert x == q * m + x % m;
    MulLe(1, m, q);
  }

  /** A value below `q * p` has a quotient by `p` below `q`. */
  lemma DivBelow(d: nat, p: nat, q: nat)
    requires 0 < p && d < q * p
    ensures d / p < q
  {
    var k: int, r: int := d / p, d % p;
    assert d == k * p + r && 0 <= r;
    if k >= q {
      MulLe(q, k, p);
    }
  }

  /** A value below `2^n` is its own remainder and has quotient zero. */
  lemma SmallDivMod(d: nat, n: nat)
    requires d < Pow2(n)
    ensures d / Pow2(n) == 0 && d % Pow2(n) == d
  {
    DivModUnique(d, Pow2(n), 0, d);
  }

  lemma MulDivCancel(x: nat, m: nat, n: nat)
    requires m > 0 && n > 0
    ensures x * m / (m * n) == x / n
  {
    var q, r := x / n, x % n;
    assert x * m == q * (m * n) + r * m by {
      assert x == q * n + r;
      assert x * m == q * n * m + r * m;
    }
    assert r * m < m * n by {
      MulLe(r, n - 1, m);
      assert (n - 1) * m == n * m - m;
    }
    DivModUnique(x * m, m * n, q, r * m);
  }

  /** Shifting left by `a` and then right by `a + k` is a right shift by `k`. */
  lemma MulDivPow2(x: nat, a: nat, k: nat)
    ensures x * Pow2(a) / Pow2(a + k) == x / Pow2(k)
  {
    Pow2Add(a, k);
    MulDivCancel(x, Pow2(a), Pow2(k));
  }

  /** The low `j` bits above position `k` are the remainder of the shifted value. */
  lemma ModDiv(d: nat, k: nat, j: nat)
    ensures d % Pow2(k + j) / Pow2(k) == d / Pow2(k) % Pow2(j)
  {
    ModMul(d, k, j);
    var lo: int, mid: int, p: int := d % Pow2(k), d / Pow2(k) % Pow2(j), Pow2(k);
    assert d % Pow2(k + j) == mid * p + lo;
    DivAddMul(mid, lo, p);
    DivModUnique(lo, Pow2(k), 0, lo);
  }

  lemma ModOfModProduct(x: nat, p: nat, q: nat)
    requires p > 0 && q > 0
    ensures x % (p * q) % p == x % p
  {
    DivModProduct(x, p, q);
    var lo, hi := x % p, x / p % q;
    assert x % (p * q) == hi * p + lo;
    DivAddMul(hi, lo, p);
    DivModUnique(lo, p, 0, lo);
  }

  /** Reducing modulo `2^a` and then modulo a smaller `2^w` is reducing modulo `2^w`. */
  lemma ModMod(x: nat, w: nat, a: nat)
    requires w <= a
    ensures x % Pow2(a) % Pow2(w) == x % Pow2(w)
  {
    Pow2Add(w, a - w);
    ModOfModProduct(x, Pow2(w), Pow2(a - w));
  }

  /** A `w`-bit window at position `k` of `d` is unchanged by dropping bits of `d` at `m` and above. */
  lemma ModDivMod(d: nat, m: nat, k: nat, w: nat)
    requires k + w <= m
    ensures d % Pow2(m) / Pow2(k) % Pow2(w) == d / Pow2(k) % Pow2(w)
  {
    ModDiv(d, k, m - k);
    DivLe(d, Pow2(k));
    ModMod(d / Pow2(k), w, m - k);
  }

  /** Subtracting the remainder leaves a multiple of the divisor. */
  lemma SubModIsMultiple(x: nat, m: nat)
    requires m > 0
    ensures (x - x % m) % m == 0
  {
    var q := x / m;
    assert x - x % m == q * m;
    DivModUnique(q * m, m, q, 0);
  }
}
