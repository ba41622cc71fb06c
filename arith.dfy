/** The stock Option datatype, used where the source returns `Option`. */
module Wrappers {
  datatype Option<+T> = None | Some(value: T)
}

/**
 * Integer facts the fixed-point bounds rest on: powers of two, the bit length
 * of a natural number, and division that truncates toward zero (Rust's `/`),
 * as opposed to Dafny's Euclidean `/`.
 */
module Arith {

  function Pow2(n: nat): (r: nat)
    ensures r >= 1
  {
    if n == 0 then 1 else 2 * Pow2(n - 1)
  }

  lemma {:induction false} Pow2Add(a: nat, b: nat)
    ensures Pow2(a + b) == Pow2(a) * Pow2(b)
  {
    if a > 0 {
      Pow2Add(a - 1, b);
      calc {
        Pow2(a + b);
        2 * Pow2(a - 1 + b);
        2 * (Pow2(a - 1) * Pow2(b));
        (2 * Pow2(a - 1)) * Pow2(b);
      }
    }
  }

  /** `Pow2Add` with the sum named. */
  lemma {:induction false} Pow2AddAt(a: nat, b: nat, c: nat)
    requires c == a + b
    ensures Pow2(c) == Pow2(a) * Pow2(b)
  {
    Pow2Add(a, b);
  }

  lemma {:induction false} MulZero(x: int, q: int)
    requires x == 0
    ensures x * q == 0
  {
  }

  lemma {:induction false} DivZero(x: int, q: int)
    requires x == 0 && q > 0
    ensures x / q == 0
  {
  }

  /** `u == p * q` gives `x * u == (x * p) * q`. */
  lemma {:induction false} MulAssoc(x: int, u: int, p: int, q: int)
    requires u == p * q
    ensures x * u == (x * p) * q
  {
  }

  lemma {:induction false} Pow2Mono(a: nat, b: nat)
    requires a <= b
    ensures Pow2(a) <= Pow2(b)
  {
    if a < b {
      Pow2Mono(a, b - 1);
    }
  }

  /** `0 <= x <= X` and `0 <= y <= Y` give `x * y <= X * Y`. */
  lemma {:induction false} MulMono(x: int, xMax: int, y: int, yMax: int)
    requires 0 <= x <= xMax && 0 <= y <= yMax
    ensures x * y <= xMax * yMax
  {
    assert x * y <= xMax * y;
    assert xMax * y <= xMax * yMax;
  }

  /** Multiplying `lo <= x <= hi` by a non-negative `q` keeps the order. */
  lemma {:induction false} MulBetween(x: int, lo: int, hi: int, q: int)
    requires lo <= x <= hi && q >= 0
    ensures lo * q <= x * q <= hi * q
  {
    MulMono(x - lo, hi - lo, q, q);
    MulMono(hi - x, hi - lo, q, q);
    assert (x - lo) * q == x * q - lo * q;
    assert (hi - x) * q == hi * q - x * q;
  }

  /** `lo * q <= x < (hi + 1) * q` for a positive `q` gives `lo <= x / q <= hi`. */
  lemma {:induction false} FloorDivBetween(x: int, lo: int, hi: int, q: int)
    requires q > 0 && lo * q <= x < (hi + 1) * q
    ensures lo <= x / q <= hi
  {
    var d := x / q;
    assert d * q <= x < (d + 1) * q by {
      assert x == d * q + x % q;
    }
    if d < lo {
      MulBetween(d + 1, d + 1, lo, q);
    }
    if d > hi {
      MulBetween(hi + 1, hi + 1, d, q);
    }
  }

  /** Scaling the window `lo <= x < p` by a positive `q`. */
  lemma {:induction false} ScaleWindow(x: int, lo: int, p: int, q: int)
    requires lo <= x <= p - 1 && q >= 1
    ensures lo * q <= x * q <= p * q - 1
  {
    MulBetween(x, lo, p - 1, q);
    assert (p - 1) * q == p * q - q;
  }

  /** Floor division by a positive `q` maps the window `lo * q <= x < p * q` into `lo <= x / q < p`. */
  lemma {:induction false} FloorDivWindow(x: int, lo: int, p: int, q: int)
    requires q > 0 && lo * q <= x <= p * q - 1
    ensures lo <= x / q <= p - 1
  {
    assert (p - 1 + 1) * q == p * q;
    FloorDivBetween(x, lo, p - 1, q);
  }

  /** `ScaleWindow` for the window `-p <= x < p` of a signed type. */
  lemma {:induction false} ScaleSymmetric(x: int, p: int, q: int)
    requires -p <= x <= p - 1 && q >= 1
    ensures -(p * q) <= x * q <= p * q - 1
  {
    ScaleWindow(x, -p, p, q);
    assert (-p) * q == -(p * q);
  }

  /** `FloorDivWindow` for the window `-p <= x < p` of a signed type. */
  lemma {:induction false} FloorDivSymmetric(x: int, p: int, q: int)
    requires q > 0 && -(p * q) <= x <= p * q - 1
    ensures -p <= x / q <= p - 1
  {
    assert (-p) * q == -(p * q);
    FloorDivWindow(x, -p, p, q);
  }

  /** A product of two magnitude-bounded integers is magnitude-bounded by the product of the bounds. */
  lemma {:induction false} MulAbsBound(x: int, xMax: int, y: int, yMax: int)
    requires -xMax <= x <= xMax && -yMax <= y <= yMax
    ensures -(xMax * yMax) <= x * y <= xMax * yMax
  {
    var ax := if x < 0 then -x else x;
    var ay := if y < 0 then -y else y;
    MulMono(ax, xMax, ay, yMax);
    assert x * y == ax * ay || x * y == -(ax * ay);
  }

  /** `q * d < (L + 1) * d` for a positive `d` gives `q <= L`. */
  lemma {:induction false} QuotientBound(q: int, d: int, l: int)
    requires d > 0 && q * d < (l + 1) * d
    ensures q <= l
  {
    if q > l {
      MulMono(l + 1, q, d, d);
    }
  }

  /** Division with remainder has only one answer. */
  lemma {:induction false} DivModUnique(x: int, m: int, q: int, r: int)
    requires m > 0 && 0 <= r < m && x == q * m + r
    ensures x / m == q && x % m == r
  {
    var q', r' := x / m, x % m;
    assert x == q' * m + r';
    assert (q - q') * m == r' - r;
    if q - q' >= 1 {
      MulMono(1, q - q', m, m);
    } else if q - q' <= -1 {
      MulMono(1, q' - q, m, m);
    }
  }

  /** `-(p * q)` divided by `q` gives `-p`. */
  lemma {:induction false} DivideBottom(p: int, q: int, m: int)
    requires q >= 1 && m == p * q
    ensures (-m) / q == -p
  {
    assert -m == (-p) * q + 0;
    DivModUnique(-m, q, -p, 0);
  }

  /** `p * q - 1` divided by `q` gives `p - 1`. */
  lemma {:induction false} DivideTop(p: int, q: int, m: int)
    requires q >= 1 && m == p * q
    ensures (m - 1) / q == p - 1
  {
    assert m - 1 == (p - 1) * q + (q - 1);
    DivModUnique(m - 1, q, p - 1, q - 1);
  }

  /** Euclidean division by a positive divisor is floor division. */
  lemma {:induction false} FloorDivBounds(x: nat, m: nat)
    requires m > 0
    ensures x / m >= 0
    ensures (x / m) * m <= x < (x / m + 1) * m
  {
    assert x == (x / m) * m + x % m;
  }

  /** Euclidean division by a positive divisor rounds toward minus infinity. */
  lemma {:induction false} FloorDivAround(x: int, m: int)
    requires m > 0
    ensures (x / m) * m <= x < (x / m + 1) * m
  {
    assert x == (x / m) * m + x % m;
  }

  function Abs(x: int): nat {
    if x < 0 then -x else x
  }

  /**
   * Integer division truncating toward zero, as Rust's `/` on integers:
   * the quotient's magnitude is the floor of the magnitudes' quotient and its
   * sign is the product of the signs.
   */
  function TruncDiv(a: int, d: int): (q: int)
    requires d != 0
    ensures Abs(q) * Abs(d) <= Abs(a) < (Abs(q) + 1) * Abs(d)
    ensures q > 0 ==> (a > 0) == (d > 0)
    ensures q < 0 ==> (a > 0) != (d > 0)
  {
    var m := Abs(a) / Abs(d);
    FloorDivBounds(Abs(a), Abs(d));
    if (a < 0) == (d < 0) then m else -m
  }

  /** A truncated quotient by a nonzero divisor is never larger in magnitude than the dividend. */
  lemma {:induction false} TruncDivShrinks(a: int, d: int)
    requires d != 0
    ensures Abs(TruncDiv(a, d)) <= Abs(a)
    ensures TruncDiv(a, d) != 0 ==> (a != 0)
  {
    var q := TruncDiv(a, d);
    MulMono(Abs(q), Abs(q), 1, Abs(d));
  }

  /** The magnitude of a product is the product of the magnitudes. */
  lemma {:induction false} AbsMul(a: int, d: int)
    ensures Abs(a * d) == Abs(a) * Abs(d)
  {
    if a < 0 && d >= 0 {
      assert a * d == -((-a) * d);
    } else if a >= 0 && d < 0 {
      assert a * d == -(a * (-d));
    } else if a < 0 && d < 0 {
      assert a * d == (-a) * (-d);
    }
  }

  /** Dividing a multiple of `d` by `d` is exact: `(a * d) / d == a`, truncating or not. */
  lemma {:induction false} TruncDivOfProduct(a: int, d: int)
    requires d != 0
    ensures TruncDiv(a * d, d) == a
  {
    var q := TruncDiv(a * d, d);
    AbsMul(a, d);
    QuotientBound(Abs(a), Abs(d), Abs(q));
    QuotientBound(Abs(q), Abs(d), Abs(a));
    if a > 0 {
      assert (a * d > 0) == (d > 0) by {
        if d > 0 { MulMono(1, a, 1, d); } else { MulMono(1, a, 1, -d); assert a * d == -(a * (-d)); }
      }
    } else if a < 0 {
      assert (a * d > 0) != (d > 0) by {
        if d > 0 { MulMono(1, -a, 1, d); assert a * d == -((-a) * d); } else { MulMono(1, -a, 1, -d); assert a * d == (-a) * (-d); }
      }
    }
  }

  /** A quotient by a divisor larger in magnitude than the dividend truncates to zero. */
  lemma {:induction false} TruncDivVanishes(a: int, v: int, x: int, d: int)
    requires v != 0 && Abs(a) <= x && x < d && d <= Abs(v)
    ensures TruncDiv(a, v) == 0
  {
    var q := TruncDiv(a, v);
    QuotientMagnitude(q, Abs(v), d, x, 0);
  }

  /** Dividing by one or minus one. */
  lemma {:induction false} TruncDivByUnit(a: int, d: int)
    requires d == 1 || d == -1
    ensures TruncDiv(a, d) == a * d
  {
  }

  /**
   * The number of binary digits of `v`: the least `k` with `v < 2^k`.
   * For `v >= 1` this is `floor(log2 v) + 1`, and `BitLength(v - 1)` is `ceil(log2 v)`.
   */
  function BitLength(v: nat): (k: nat)
    ensures v < Pow2(k)
    ensures k >= 1 ==> Pow2(k - 1) <= v
  {
    if v == 0 then 0 else 1 + BitLength(v / 2)
  }

  /** Only one `k` satisfies the two facts that characterise `BitLength(v)`. */
  lemma {:induction false} BitLengthUnique(v: nat, k: nat)
    requires v < Pow2(k)
    requires k >= 1 ==> Pow2(k - 1) <= v
    ensures k == BitLength(v)
  {
    var j := BitLength(v);
    if k < j {
      Pow2Mono(k, j - 1);
    } else if j < k {
      Pow2Mono(j, k - 1);
    }
  }

  /** `2^(n+1)` is twice `2^n`. */
  lemma {:induction false} Pow2Succ(n: nat, m: nat)
    requires m == n + 1
    ensures Pow2(m) == 2 * Pow2(n)
  {
  }

  lemma {:induction false} MulZeroRight(x: int, y: int)
    requires y == 0
    ensures x * y == 0
  {
  }

  /**
   * A product of `lo <= x < p` (with `lo <= 0 < p`) and `0 <= y < q` lies in
   * the window `lo * q <= x * y < p * q`.
   */
  lemma {:induction false} ProductWindow(x: int, lo: int, p: int, y: int, q: int)
    requires lo <= 0 && 1 <= p && lo <= x <= p - 1
    requires 1 <= q && 0 <= y <= q - 1
    ensures lo * q <= x * y <= p * q - 1
  {
    if x >= 0 {
      MulMono(x, p - 1, y, q - 1);
      assert (p - 1) * (q - 1) == p * q - p - q + 1;
    } else {
      MulMono(-x, -lo, y, q);
      assert (-x) * y == -(x * y) && (-lo) * q == -(lo * q);
    }
  }

  /**
   * Scaling `lo <= x < p` (with `lo <= 0 < p`) by `1 <= v <= q` stays in
   * the window `lo * q <= x * v < p * q`.
   */
  lemma {:induction false} ScaleUpTo(x: int, lo: int, p: int, v: int, q: int)
    requires lo <= 0 && 1 <= p && lo <= x <= p - 1
    requires 1 <= v <= q
    ensures lo * q <= x * v <= p * q - 1
  {
    if x >= 0 {
      MulMono(x, p - 1, v, q);
      assert (p - 1) * q == p * q - q;
    } else {
      MulMono(-x, -lo, v, q);
      assert (-x) * v == -(x * v) && (-lo) * q == -(lo * q);
    }
  }

  /**
   * Scaling `-(p - 1) <= y <= p` by `1 <= a < q` stays in the window
   * `-(p * q) <= y * a < p * q`: the negated range of a signed type times the
   * magnitude of a negative factor.
   */
  lemma {:induction false} ScaleNegated(y: int, p: int, a: int, q: int)
    requires 1 <= p && -(p - 1) <= y <= p
    requires 1 <= a <= q - 1
    ensures -(p * q) <= y * a <= p * q - 1
  {
    if y >= 0 {
      MulMono(y, p, a, q - 1);
      assert p * (q - 1) == p * q - p;
    } else {
      MulMono(-y, p - 1, a, q - 1);
      assert (-y) * a == -(y * a);
      MulMono(p - 1, p, q - 1, q);
    }
  }

  /**
   * A magnitude bound on a quotient: `|q| * a <= X` with `d <= a` and
   * `X < (L + 1) * d` gives `|q| <= L`.
   */
  lemma {:induction false} QuotientMagnitude(q: int, a: int, d: int, x: int, l: int)
    requires 1 <= d <= a && Abs(q) * a <= x && x < (l + 1) * d
    ensures Abs(q) <= l
  {
    MulMono(Abs(q), Abs(q), d, a);
    QuotientBound(Abs(q), d, l);
  }

  /** Euclidean division by a positive divisor keeps the sign of the dividend and does not grow it. */
  lemma {:induction false} FloorDivShrinks(x: int, m: int, q: int)
    requires m > 0 && q == x / m
    ensures q * m <= x < (q + 1) * m
    ensures x >= 0 ==> 0 <= q <= x
    ensures x < 0 ==> x <= q < 0
  {
    FloorDivAround(x, m);
    if x >= 0 {
      MulMono(q, q, 1, m);
    } else {
      MulMono(-(q + 1), -(q + 1), 1, m);
    }
  }

  /** Dividing by a positive divisor truncates toward zero: the quotient lies between zero and the dividend. */
  lemma {:induction false} TruncDivBetween(a: int, d: int)
    requires d > 0
    ensures a >= 0 ==> 0 <= TruncDiv(a, d) <= a
    ensures a < 0 ==> a <= TruncDiv(a, d) <= 0
  {
    TruncDivShrinks(a, d);
  }

  /** The exact binary fraction `mant * 2^exp`. */
  datatype Dyadic = Dyadic(mant: int, exp: int)

  function MinInt(a: int, b: int): int {
    if a <= b then a else b
  }

  /** The mantissa that writes `d` at the exponent `e`, at most its own. */
  function Align(d: Dyadic, e: int): int
    requires e <= d.exp
  {
    d.mant * Pow2(d.exp - e)
  }

  /** `a` and `b` are the same number: equal mantissas at the smaller exponent. */
  predicate DyadicEq(a: Dyadic, b: Dyadic) {
    var e := MinInt(a.exp, b.exp);
    Align(a, e) == Align(b, e)
  }

  /** `a <= b` as numbers. */
  predicate DyadicLe(a: Dyadic, b: Dyadic) {
    var e := MinInt(a.exp, b.exp);
    Align(a, e) <= Align(b, e)
  }

  /** `a < b` as numbers. */
  predicate DyadicLt(a: Dyadic, b: Dyadic) {
    var e := MinInt(a.exp, b.exp);
    Align(a, e) < Align(b, e)
  }

  /** The product of two binary fractions. */
  function DyadicMul(a: Dyadic, b: Dyadic): Dyadic {
    Dyadic(a.mant * b.mant, a.exp + b.exp)
  }

  /** `a * 2^n`. */
  function DyadicScale(a: Dyadic, n: int): Dyadic {
    Dyadic(a.mant, a.exp + n)
  }

  /** The sum of two binary fractions, written at the smaller exponent. */
  function DyadicAdd(a: Dyadic, b: Dyadic): Dyadic {
    var e := MinInt(a.exp, b.exp);
    Dyadic(Align(a, e) + Align(b, e), e)
  }

  function DyadicNeg(a: Dyadic): Dyadic {
    Dyadic(-a.mant, a.exp)
  }

  /** Two numbers with the same exponent add by their mantissas. */
  lemma {:induction false} DyadicAddSameExp(a: Dyadic, b: Dyadic)
    requires a.exp == b.exp
    ensures DyadicAdd(a, b) == Dyadic(a.mant + b.mant, a.exp)
  {
    AlignAt(a, a.exp, 0);
    AlignAt(b, a.exp, 0);
  }

  /** Writing `d` at an exponent `k` below its own multiplies the mantissa by `2^k`. */
  lemma {:induction false} AlignAt(d: Dyadic, e: int, k: nat)
    requires d.exp == e + k
    ensures Align(d, e) == d.mant * Pow2(k)
  {
  }

  /** Writing a number at an exponent `k` lower multiplies its mantissa by `2^k`. */
  lemma {:induction false} AlignLower(d: Dyadic, e: int, k: nat)
    requires e <= d.exp
    ensures Align(d, e - k) == Align(d, e) * Pow2(k)
  {
    Pow2AddAt(d.exp - e, k, d.exp - (e - k));
    MulAssoc(d.mant, Pow2(d.exp - (e - k)), Pow2(d.exp - e), Pow2(k));
  }

  /** Cancelling a positive factor. */
  lemma {:induction false} MulCancel(x: int, y: int, p: int)
    requires p > 0
    ensures x * p == y * p <==> x == y
    ensures x * p <= y * p <==> x <= y
  {
    if x < y {
      MulBetween(x + 1, x + 1, y, p);
      assert (x + 1) * p == x * p + p;
    } else if y < x {
      MulBetween(y + 1, y + 1, x, p);
      assert (y + 1) * p == y * p + p;
    }
  }

  /**
   * Comparing at the smaller exponent is the same as comparing at any
   * common lower exponent, so the comparisons above do not depend on the
   * exponent chosen.
   */
  lemma {:induction false} DyadicCompareAt(a: Dyadic, b: Dyadic, e: int)
    requires e <= a.exp && e <= b.exp
    ensures DyadicEq(a, b) <==> Align(a, e) == Align(b, e)
    ensures DyadicLe(a, b) <==> Align(a, e) <= Align(b, e)
    ensures DyadicLt(a, b) <==> Align(a, e) < Align(b, e)
  {
    var m := MinInt(a.exp, b.exp);
    var k: nat := m - e;
    AlignLower(a, m, k);
    AlignLower(b, m, k);
    MulCancel(Align(a, m), Align(b, m), Pow2(k));
    MulCancel(Align(b, m), Align(a, m), Pow2(k));
  }

  /** Equal numbers written differently. */
  lemma {:induction false} DyadicEqIsEquivalence(a: Dyadic, b: Dyadic, c: Dyadic)
    ensures DyadicEq(a, a)
    ensures DyadicEq(a, b) ==> DyadicEq(b, a)
    ensures DyadicEq(a, b) && DyadicEq(b, c) ==> DyadicEq(a, c)
  {
    var e := MinInt(MinInt(a.exp, b.exp), c.exp);
    DyadicCompareAt(a, b, e);
    DyadicCompareAt(b, c, e);
    DyadicCompareAt(a, c, e);
  }
}
