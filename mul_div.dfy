/**
 * The multiplicative operators of src/mul_div.rs: multiplication and
 * division by a constant (`mul_const`, `div_const`, whose result widths
 * `mul_const_bits` and `div_const_bits` are computed from `leading_zeros`
 * and `leading_ones`), and `*` and `/` between two fixed-point values, with
 * the same signedness or mixed.
 */
module MulDiv {
  import opened Wrappers
  import opened Arith
  import opened Ints
  import opened FpImpl

  // ---------------------------------------------------------------------
  // Bit counts of the constant operations
  // ---------------------------------------------------------------------

  /**
   * `mul_const_bits(val)`: zero for zero; otherwise `BITS + W` less the
   * leading ones of `val - 1` (wrapping) for a negative `val`, or less the
   * leading zeros of `val - 1` for a positive one.
   */
  function MulConstBits(t: FpType, v: int): (r: nat)
    requires TypeOk(t) && Contains(t.prim, v)
    ensures v == 0 ==> r == 0
    ensures v != 0 ==> t.bits <= r <= t.bits + t.prim.width
  {
    if v == 0 then 0
    else if v < 0 then t.bits + t.prim.width - LeadingOnes(t.prim, Wrap(t.prim, v - 1))
    else t.bits + t.prim.width - LeadingZeros(t.prim, v - 1)
  }

  /**
   * `mul_const_bits` adds to `BITS` the bit length of `v - 1` for a positive
   * `v` (that is `ceil(log2 v)`) and the bit length of `-v` for a negative one.
   */
  lemma {:induction false} MulConstBitsIsBitLength(t: FpType, v: int)
    requires TypeOk(t) && Contains(t.prim, v)
    ensures v == 0 ==> MulConstBits(t, v) == 0
    ensures v > 0 ==> MulConstBits(t, v) == t.bits + BitLength(v - 1)
    ensures v < 0 ==> MulConstBits(t, v) == t.bits + BitLength(Abs(v))
  {
    if v > 0 {
      PositiveBits(t, v);
    } else if v < 0 && v != Min(t.prim) {
      NegativeConstBits(t, v);
    } else if v < 0 {
      MinConstBits(t, v);
    }
  }

  lemma {:induction false} PositiveBits(t: FpType, v: int)
    requires TypeOk(t) && Contains(t.prim, v) && v > 0
    ensures MulConstBits(t, v) == t.bits + BitLength(v - 1)
  {
    LeadingZerosBitLength(t.prim, v - 1);
  }

  lemma {:induction false} NegativeConstBits(t: FpType, v: int)
    requires TypeOk(t) && Contains(t.prim, v) && v < 0 && v != Min(t.prim)
    ensures MulConstBits(t, v) == t.bits + BitLength(Abs(v))
  {
    NegativeBits(t.prim, v);
  }

  lemma {:induction false} MinConstBits(t: FpType, v: int)
    requires TypeOk(t) && t.prim.signed && v == Min(t.prim)
    ensures MulConstBits(t, v) == t.bits + BitLength(Abs(v))
  {
    NegativeMinBits(t.prim, v);
  }

  /** For a negative `v` above `MIN`, `W - leading_ones(v - 1)` is the bit length of `-v`. */
  lemma {:induction false} NegativeBits(c: IntType, v: int)
    requires WidthOk(c.width) && Contains(c, v) && v < 0 && v != Min(c)
    ensures Wrap(c, v - 1) == v - 1
    ensures c.width - LeadingOnes(c, v - 1) == BitLength(Abs(v))
  {
    LeadingOnesBitLengthAt(c, v - 1, Abs(v));
  }

  /**
   * For `v == MIN`, `v.wrapping_sub(1)` is `MAX`, which has no leading one,
   * and the bit length of `-MIN = 2^(W-1)` is `W`.
   */
  lemma {:induction false} NegativeMinBits(c: IntType, v: int)
    requires WidthOk(c.width) && c.signed && v == Min(c)
    ensures Wrap(c, v - 1) == Max(c)
    ensures LeadingOnes(c, Wrap(c, v - 1)) == 0
    ensures BitLength(Abs(v)) == c.width
  {
    MinWrapsToMax(c);
    MaxHasNoLeadingOne(c);
    HalfBitLength(c.width - 1, c.width, Abs(v));
  }

  /** `MIN.wrapping_sub(1) == MAX` */
  lemma {:induction false} MinWrapsToMax(c: IntType)
    requires WidthOk(c.width) && c.signed
    ensures Wrap(c, Min(c) - 1) == Max(c)
  {
    Pow2Succ(c.width - 1, c.width);
    WrapUnique(c, Min(c) - 1, 1);
  }

  /** `2^n` has `n + 1` significant bits. */
  lemma {:induction false} HalfBitLength(n: nat, m: nat, a: nat)
    requires m == n + 1 && a == Pow2(n)
    ensures BitLength(a) == m
  {
    Pow2Succ(n, m);
    BitLengthUnique(a, m);
  }

  lemma {:induction false} MaxHasNoLeadingOne(c: IntType)
    requires WidthOk(c.width) && c.signed
    ensures LeadingOnes(c, Max(c)) == 0
  {
    assert Bits(c, Max(c)) == Pow2(c.width - 1) - 1;
  }

  /** The type `mul_const::<val>` returns. */
  function MulConstType(t: FpType, v: int): FpType
    requires TypeOk(t) && Contains(t.prim, v)
  {
    FpType(t.prim, MulConstBits(t, v), t.shift)
  }

  /**
   * `div_const_bits` subtracts from `1 + BITS` the number of significant
   * bits of `val`: `W - leading_ones` for a negative value, `W - leading_zeros`
   * otherwise.
   */
  function DivisorBits(c: IntType, v: int): nat
    requires WidthOk(c.width) && Contains(c, v)
  {
    if v < 0 then c.width - LeadingOnes(c, v) else c.width - LeadingZeros(c, v)
  }

  /** The significant bits of a divisor: the bit length of `v`, or of `-v - 1` for a negative `v`. */
  lemma {:induction false} DivisorBitsIsBitLength(c: IntType, v: int)
    requires WidthOk(c.width) && Contains(c, v)
    ensures v >= 0 ==> DivisorBits(c, v) == BitLength(v)
    ensures v < 0 ==> DivisorBits(c, v) == BitLength(Abs(v) - 1)
  {
    if v < 0 {
      LeadingOnesBitLengthAt(c, v, Abs(v) - 1);
    } else {
      LeadingZerosBitLength(c, v);
    }
  }

  /**
   * `div_const_bits(val)` is evaluated at compile time: it panics for zero,
   * and the `u32` subtraction `1 + BITS - (...)` must not go below zero.
   */
  predicate DivConstOk(t: FpType, v: int)
    requires TypeOk(t) && Contains(t.prim, v)
  {
    v != 0 && DivisorBits(t.prim, v) <= 1 + t.bits
  }

  /** `div_const_bits(val)` */
  function DivConstBits(t: FpType, v: int): (r: nat)
    requires TypeOk(t) && Contains(t.prim, v) && DivConstOk(t, v)
    ensures r <= t.bits + 1
    ensures r == t.bits + 1 <==> v == -1
  {
    1 + t.bits - DivisorBits(t.prim, v)
  }

  /** The type `div_const::<val>` returns. */
  function DivConstType(t: FpType, v: int): FpType
    requires TypeOk(t) && Contains(t.prim, v) && DivConstOk(t, v)
  {
    FpType(t.prim, DivConstBits(t, v), t.shift)
  }

  // ---------------------------------------------------------------------
  // Multiplication and division by a constant
  // ---------------------------------------------------------------------

  /**
   * `mul_const::<val>`: the raw integer times `val` in the raw type. The
   * product always fits the result type, so the multiplication never wraps
   * and the logical value is scaled by `val`.
   */
  function MulConst(x: Fp, v: int): (r: Fp)
    requires Valid(x) && Contains(x.ty.prim, v)
    requires TypeOk(MulConstType(x.ty, v))
    ensures Valid(r) && r.ty == MulConstType(x.ty, v)
    ensures r.raw == x.raw * v
    ensures Value(r) == DyadicMul(Value(x), Dyadic(v, 0))
  {
    var t := MulConstType(x.ty, v);
    MulConstInRange(x.ty, x.raw, v);
    RangeWithinContainer(t);
    NewUnchecked(t, Wrap(t.prim, x.raw * v))
  }

  /** Every product of a value of `t` and `v` lies in the range `mul_const_bits(v)` gives. */
  lemma {:induction false} MulConstInRange(t: FpType, x: int, v: int)
    requires TypeOk(t) && InRange(t, x) && Contains(t.prim, v)
    requires TypeOk(MulConstType(t, v))
    ensures InRange(MulConstType(t, v), x * v)
  {
    var u := MulConstType(t, v);
    if v == 0 {
      MulZeroRight(x, v);
    } else {
      MulConstBitsIsBitLength(t, v);
      var k := if v > 0 then BitLength(v - 1) else BitLength(Abs(v));
      ProductWithConstInRange(t, u, x, v, k);
    }
  }

  /**
   * A value of `t` times a nonzero `v` of at most `k` significant bits
   * (`|v| <= 2^k`, and `v - 1 < 2^k` when positive) fits `k` more bits.
   */
  lemma {:induction false} ProductWithConstInRange(t: FpType, u: FpType, x: int, v: int, k: nat)
    requires TypeOk(t) && TypeOk(u) && u.prim == t.prim && u.bits == t.bits + k && InRange(t, x)
    requires v != 0 && (v > 0 ==> v - 1 < Pow2(k)) && (v < 0 ==> Abs(v) < Pow2(k))
    requires v < 0 ==> t.prim.signed
    ensures InRange(u, x * v)
  {
    if t.bits == 0 {
      MulZero(x, v);
      RangeWithinContainer(u);
    } else if v > 0 && t.prim.signed {
      ScaledByPositive(x, v, t.bits - 1, k, u.bits - 1);
    } else if v > 0 {
      ScaledUnsigned(x, v, t.bits, k, u.bits);
    } else {
      ScaledByNegative(x, v, t.bits - 1, k, u.bits - 1);
    }
  }

  /** An unsigned value of `b` bits times `1 <= v <= 2^k` fits `m = b + k` bits. */
  lemma {:induction false} ScaledUnsigned(x: int, v: int, b: nat, k: nat, m: nat)
    requires m == b + k && 0 <= x <= Pow2(b) - 1
    requires 1 <= v && v - 1 < Pow2(k)
    ensures 0 <= x * v <= Pow2(m) - 1
  {
    ScaleUpTo(x, 0, Pow2(b), v, Pow2(k));
    Pow2AddAt(b, k, m);
  }

  /** A signed value of `b + 1` bits times `1 <= v <= 2^k` fits `m + 1 = b + k + 1` bits. */
  lemma {:induction false} ScaledByPositive(x: int, v: int, b: nat, k: nat, m: nat)
    requires m == b + k && -(Pow2(b) as int) <= x <= Pow2(b) - 1
    requires 1 <= v && v - 1 < Pow2(k)
    ensures -(Pow2(m) as int) <= x * v <= Pow2(m) - 1
  {
    ScaleUpTo(x, -(Pow2(b) as int), Pow2(b), v, Pow2(k));
    Pow2AddAt(b, k, m);
    assert (-(Pow2(b) as int)) * Pow2(k) == -(Pow2(b) * Pow2(k));
  }

  /** A signed value of `b + 1` bits times `v < 0` with `-v < 2^k` fits `m + 1 = b + k + 1` bits. */
  lemma {:induction false} ScaledByNegative(x: int, v: int, b: nat, k: nat, m: nat)
    requires m == b + k && -(Pow2(b) as int) <= x <= Pow2(b) - 1
    requires v < 0 && Abs(v) < Pow2(k)
    ensures -(Pow2(m) as int) <= x * v <= Pow2(m) - 1
  {
    ScaleNegated(-x, Pow2(b), -v, Pow2(k));
    Pow2AddAt(b, k, m);
    assert (-x) * (-v) == x * v;
  }

  /**
   * `div_const::<val>`: the raw integer divided by `val` in the raw type,
   * truncating toward zero. The quotient always fits the result type, which
   * also rules out the one overflowing division `MIN / -1` of the raw type.
   */
  function DivConst(x: Fp, v: int): (r: Fp)
    requires Valid(x) && Contains(x.ty.prim, v) && DivConstOk(x.ty, v)
    requires TypeOk(DivConstType(x.ty, v))
    ensures Valid(r) && r.ty == DivConstType(x.ty, v)
    ensures r.raw == TruncDiv(x.raw, v)
  {
    var t := DivConstType(x.ty, v);
    DivConstInRange(x.ty, x.raw, v);
    RangeWithinContainer(t);
    NewUnchecked(t, TruncDiv(x.raw, v))
  }

  /** Every quotient of a value of `t` by `v` lies in the range `div_const_bits(v)` gives. */
  lemma {:induction false} DivConstInRange(t: FpType, x: int, v: int)
    requires TypeOk(t) && InRange(t, x) && Contains(t.prim, v) && DivConstOk(t, v)
    requires TypeOk(DivConstType(t, v))
    ensures InRange(DivConstType(t, v), TruncDiv(x, v))
  {
    var u := DivConstType(t, v);
    DivisorBitsIsBitLength(t.prim, v);
    var k := if v >= 0 then BitLength(v) else BitLength(Abs(v) - 1);
    QuotientByConstInRange(t, u, x, v, k);
  }

  /**
   * A value of `t` divided by `v` of `k` significant bits (`2^(k-1) <= v < 2^k`,
   * or the same for `-v - 1` when negative) fits `k - 1` fewer bits.
   */
  lemma {:induction false} QuotientByConstInRange(t: FpType, u: FpType, x: int, v: int, k: nat)
    requires TypeOk(t) && TypeOk(u) && u.prim == t.prim && u.bits + k == t.bits + 1 && InRange(t, x)
    requires v > 0 ==> k >= 1 && Pow2(k - 1) <= v
    requires v < 0 ==> t.prim.signed && Abs(v) - 1 < Pow2(k) && (k >= 1 ==> Pow2(k - 1) <= Abs(v) - 1)
    requires v != 0
    ensures InRange(u, TruncDiv(x, v))
  {
    if t.bits == 0 {
      TruncDivVanishes(x, v, 0, 1);
      RangeWithinContainer(u);
    } else if !t.prim.signed {
      DivUnsignedByPositive(x, v, t.bits, k, u.bits);
    } else if v > 0 {
      DivConstSignedPositive(t, u, x, v, k);
    } else {
      DivConstSignedNegative(t, u, x, v, k);
    }
  }

  /** A signed quotient by `v >= 2^(k-1)` fits `u`, which has `k - 1` bits fewer than `t`. */
  lemma {:induction false} DivConstSignedPositive(t: FpType, u: FpType, x: int, v: int, k: nat)
    requires TypeOk(t) && TypeOk(u) && t.prim.signed && u.prim == t.prim && t.bits >= 1
    requires InRange(t, x) && k >= 1 && Pow2(k - 1) <= v && u.bits + k == t.bits + 1
    ensures InRange(u, TruncDiv(x, v))
  {
    if u.bits == 0 {
      Pow2Succ(t.bits - 1, t.bits);
      TruncDivVanishes(x, v, Pow2(t.bits - 1), Pow2(t.bits));
    } else {
      DivSignedByPositive(x, v, t.bits - 1, k, u.bits - 1);
    }
  }

  /** A signed quotient by `v < 0` with `-v - 1 < 2^k` fits `u`, which has `k - 1` bits fewer than `t`. */
  lemma {:induction false} DivConstSignedNegative(t: FpType, u: FpType, x: int, v: int, k: nat)
    requires TypeOk(t) && TypeOk(u) && t.prim.signed && u.prim == t.prim && t.bits >= 1
    requires InRange(t, x) && v < 0 && Abs(v) - 1 < Pow2(k) && (k >= 1 ==> Pow2(k - 1) <= Abs(v) - 1)
    requires u.bits + k == t.bits + 1
    ensures InRange(u, TruncDiv(x, v))
  {
    if k == 0 {
      TruncDivByUnit(x, v);
      Pow2Succ(t.bits - 1, t.bits);
    } else if u.bits == 0 {
      TruncDivVanishes(x, v, Pow2(t.bits - 1), Pow2(t.bits - 1) + 1);
    } else {
      DivSignedByNegative(x, v, t.bits - 1, k, u.bits - 1);
    }
  }

  /** An unsigned value of `b` bits divided by `v >= 2^(k-1)` fits `n = b + 1 - k` bits. */
  lemma {:induction false} DivUnsignedByPositive(x: int, v: int, b: nat, k: nat, n: nat)
    requires 0 <= x <= Pow2(b) - 1 && k >= 1 && Pow2(k - 1) <= v && n + (k - 1) == b
    ensures 0 <= TruncDiv(x, v) <= Pow2(n) - 1
  {
    var q := TruncDiv(x, v);
    TruncDivBetween(x, v);
    Pow2AddAt(n, k - 1, b);
    QuotientMagnitude(q, v, Pow2(k - 1), Pow2(b) - 1, Pow2(n) - 1);
  }

  /** A signed value of `m + 1` bits divided by `v >= 2^(k-1)` fits `j + 1` bits, where `j + k - 1 = m`. */
  lemma {:induction false} DivSignedByPositive(x: int, v: int, m: nat, k: nat, j: nat)
    requires -(Pow2(m) as int) <= x <= Pow2(m) - 1
    requires k >= 1 && Pow2(k - 1) <= v && j + (k - 1) == m
    ensures -(Pow2(j) as int) <= TruncDiv(x, v) <= Pow2(j) - 1
  {
    var q := TruncDiv(x, v);
    var d := Pow2(k - 1);
    Pow2AddAt(j, k - 1, m);
    assert (Pow2(j) + 1) * d == Pow2(j) * d + d;
    QuotientMagnitude(q, v, d, Pow2(m), Pow2(j));
    if q > 0 {
      QuotientMagnitude(q, v, d, Pow2(m) - 1, Pow2(j) - 1);
    }
  }

  /**
   * A signed value of `m + 1` bits divided by `v < 0` with `-v - 1 >= 2^(k-1)`
   * fits `j + 1` bits, where `j + k - 1 = m`.
   */
  lemma {:induction false} DivSignedByNegative(x: int, v: int, m: nat, k: nat, j: nat)
    requires -(Pow2(m) as int) <= x <= Pow2(m) - 1
    requires k >= 1 && Pow2(k - 1) <= Abs(v) - 1 && j + (k - 1) == m
    ensures -(Pow2(j) as int) <= TruncDiv(x, v) <= Pow2(j) - 1
  {
    var q := TruncDiv(x, v);
    var d := Pow2(k - 1) + 1;
    Pow2AddAt(j, k - 1, m);
    assert Pow2(j) * d == Pow2(j) * Pow2(k - 1) + Pow2(j);
    QuotientMagnitude(q, Abs(v), d, Pow2(m), Pow2(j) - 1);
  }

  /** Multiplying by `v` and then dividing by `v` gives back the raw integer and the bit count. */
  lemma {:induction false} DivConstUndoesMulConst(x: Fp, v: int)
    requires Valid(x) && Contains(x.ty.prim, v) && v != 0
    requires TypeOk(MulConstType(x.ty, v))
    requires DivConstOk(MulConstType(x.ty, v), v) && TypeOk(DivConstType(MulConstType(x.ty, v), v))
    ensures DivConst(MulConst(x, v), v).raw == x.raw
  {
    var y := MulConst(x, v);
    TruncDivOfProduct(x.raw, v);
    assert DivConst(y, v).raw == TruncDiv(y.raw, v);
  }

  /**
   * `FpI32<4, 0>` holding 4: `mul_const::<4>` gives 16 with 6 bits and
   * `mul_const::<5>` gives 20 with 7 bits; the same holds in any signed raw type.
   */
  lemma {:induction false} MulConstExample(c: IntType)
    requires WidthOk(c.width) && c.signed
    ensures var a := Fp(FpType(c, 4, 0), 4);
      && Valid(a) && Contains(c, 4) && Contains(c, 5)
      && MulConstBits(a.ty, 4) == 6 && MulConstBits(a.ty, 5) == 7
      && TypeOk(MulConstType(a.ty, 4)) && TypeOk(MulConstType(a.ty, 5))
      && MulConst(a, 4).raw == 16 && MulConst(a, 5).raw == 20
  {
    MulConstExampleBits(c);
  }

  lemma {:induction false} MulConstExampleBits(c: IntType)
    requires WidthOk(c.width) && c.signed
    ensures Valid(Fp(FpType(c, 4, 0), 4)) && Contains(c, 4) && Contains(c, 5)
    ensures MulConstBits(FpType(c, 4, 0), 4) == 6 && MulConstBits(FpType(c, 4, 0), 5) == 7
  {
    var t := FpType(c, 4, 0);
    assert Pow2(3) == 8;
    assert Pow2(c.width - 1) >= 8 by {
      Pow2Mono(3, c.width - 1);
    }
    PositiveBits(t, 4);
    PositiveBits(t, 5);
    BitLengthUnique(3, 2);
    BitLengthUnique(4, 3);
  }

  // ---------------------------------------------------------------------
  // `*` and `/` between two values
  // ---------------------------------------------------------------------

  /**
   * The type `*` returns: `B0 + B1` bits and shift `S0 + S1`, over the raw
   * type of the operands' width that is signed when either operand is.
   */
  function MulType(t: FpType, u: FpType): FpType {
    FpType(IntType(t.prim.width, t.prim.signed || u.prim.signed), t.bits + u.bits, t.shift + u.shift)
  }

  /** Every product of a value of `t` and a value of `u` lies in the range of `MulType(t, u)`. */
  lemma {:induction false} ProductInRange(t: FpType, u: FpType, x: int, y: int)
    requires TypeOk(t) && TypeOk(u) && InRange(t, x) && InRange(u, y)
    requires TypeOk(MulType(t, u))
    ensures InRange(MulType(t, u), x * y)
  {
    var w := MulType(t, u);
    if t.bits == 0 {
      MulZero(x, y);
      RangeWithinContainer(w);
    } else if u.bits == 0 {
      MulZeroRight(x, y);
      RangeWithinContainer(w);
    } else if t.prim.signed && u.prim.signed {
      ProductSignedSigned(x, y, t.bits - 1, u.bits - 1, w.bits - 1);
    } else if t.prim.signed {
      ProductSignedUnsigned(x, y, t.bits - 1, u.bits, w.bits - 1);
    } else if u.prim.signed {
      ProductSignedUnsigned(y, x, u.bits - 1, t.bits, w.bits - 1);
      assert y * x == x * y;
    } else {
      ProductWindow(x, 0, Pow2(t.bits), y, Pow2(u.bits));
      Pow2AddAt(t.bits, u.bits, w.bits);
    }
  }

  /** Signed by signed: `|x| <= 2^a` and `|y| <= 2^b` give `|x * y| <= 2^(a+b)`, which fits `a + b + 2` bits. */
  lemma {:induction false} ProductSignedSigned(x: int, y: int, a: nat, b: nat, m: nat)
    requires -(Pow2(a) as int) <= x <= Pow2(a) - 1 && -(Pow2(b) as int) <= y <= Pow2(b) - 1
    requires m == a + b + 1
    ensures -(Pow2(m) as int) <= x * y <= Pow2(m) - 1
  {
    MulAbsBound(x, Pow2(a), y, Pow2(b));
    Pow2AddAt(a, b, a + b);
    Pow2Succ(a + b, m);
  }

  /** Signed by unsigned: `-2^a <= x < 2^a` and `0 <= y < 2^b` give a product that fits `a + b + 1` bits. */
  lemma {:induction false} ProductSignedUnsigned(x: int, y: int, a: nat, b: nat, m: nat)
    requires -(Pow2(a) as int) <= x <= Pow2(a) - 1 && 0 <= y <= Pow2(b) - 1
    requires m == a + b
    ensures -(Pow2(m) as int) <= x * y <= Pow2(m) - 1
  {
    ProductWindow(x, -(Pow2(a) as int), Pow2(a), y, Pow2(b));
    Pow2AddAt(a, b, m);
    assert (-(Pow2(a) as int)) * Pow2(b) == -(Pow2(a) * Pow2(b));
  }

  /**
   * `*` between two values of the same raw type: the raw product in that
   * type. It never wraps, and the logical value is the exact product.
   */
  function Mul(x: Fp, y: Fp): (r: Fp)
    requires Valid(x) && Valid(y) && x.ty.prim == y.ty.prim
    requires TypeOk(MulType(x.ty, y.ty))
    ensures Valid(r) && r.ty == MulType(x.ty, y.ty)
    ensures r.raw == x.raw * y.raw
    ensures Value(r) == DyadicMul(Value(x), Value(y))
  {
    var t := MulType(x.ty, y.ty);
    ProductInRange(x.ty, y.ty, x.raw, y.raw);
    RangeWithinContainer(t);
    NewUnchecked(t, Wrap(t.prim, x.raw * y.raw))
  }

  /**
   * `*` of a signed value by an unsigned one of the same width: the unsigned
   * raw integer is cast with `as` to the signed type first. The cast keeps
   * the value whenever it matters (a full-width unsigned operand forces the
   * signed one to zero bits), so the result is the exact product.
   */
  function MulSignedUnsigned(x: Fp, y: Fp): (r: Fp)
    requires Valid(x) && Valid(y) && x.ty.prim.signed && y.ty.prim == UnsignedOf(x.ty.prim)
    requires TypeOk(MulType(x.ty, y.ty))
    ensures Valid(r) && r.ty == MulType(x.ty, y.ty)
    ensures r.raw == x.raw * y.raw
    ensures Value(r) == DyadicMul(Value(x), Value(y))
  {
    var t := MulType(x.ty, y.ty);
    ProductInRange(x.ty, y.ty, x.raw, y.raw);
    RangeWithinContainer(t);
    var yc := Wrap(t.prim, y.raw);
    CastOperand(x, y);
    NewUnchecked(t, Wrap(t.prim, x.raw * yc))
  }

  /** `*` of an unsigned value by a signed one: the unsigned raw integer is cast to the signed type first. */
  function MulUnsignedSigned(x: Fp, y: Fp): (r: Fp)
    requires Valid(x) && Valid(y) && y.ty.prim.signed && x.ty.prim == UnsignedOf(y.ty.prim)
    requires TypeOk(MulType(x.ty, y.ty))
    ensures Valid(r) && r.ty == MulType(x.ty, y.ty)
    ensures r.raw == x.raw * y.raw
    ensures Value(r) == DyadicMul(Value(x), Value(y))
  {
    var t := MulType(x.ty, y.ty);
    ProductInRange(x.ty, y.ty, x.raw, y.raw);
    RangeWithinContainer(t);
    var xc := Wrap(t.prim, x.raw);
    CastOperand(y, x);
    assert xc * y.raw == y.raw * xc;
    NewUnchecked(t, Wrap(t.prim, xc * y.raw))
  }

  /**
   * In a mixed product, casting the unsigned operand `u` to the signed type
   * of `s` does not change the product: either the cast keeps `u`, or `u`
   * uses every bit and then `s` has none and is zero.
   */
  lemma {:induction false} CastOperand(s: Fp, u: Fp)
    requires Valid(s) && Valid(u) && s.ty.prim.signed && u.ty.prim == UnsignedOf(s.ty.prim)
    requires s.ty.bits + u.ty.bits <= s.ty.prim.width
    ensures s.raw * Wrap(s.ty.prim, u.raw) == s.raw * u.raw
  {
    var c := s.ty.prim;
    if u.ty.bits < c.width {
      Pow2Mono(u.ty.bits, c.width - 1);
      assert Contains(c, u.raw);
    } else {
      MulZero(s.raw, Wrap(c, u.raw));
      MulZero(s.raw, u.raw);
    }
  }

  /** The product does not depend on the order of the operands, whatever their signedness. */
  lemma {:induction false} MulCommutes(x: Fp, y: Fp)
    requires Valid(x) && Valid(y) && x.ty.prim.width == y.ty.prim.width
    requires TypeOk(MulType(x.ty, y.ty))
    ensures TypeOk(MulType(y.ty, x.ty))
    ensures MulType(x.ty, y.ty).prim == MulType(y.ty, x.ty).prim
    ensures MulType(x.ty, y.ty).bits == MulType(y.ty, x.ty).bits
    ensures MulType(x.ty, y.ty).shift == MulType(y.ty, x.ty).shift
    ensures x.ty.prim == y.ty.prim ==> Mul(x, y).raw == Mul(y, x).raw
    ensures x.ty.prim.signed && y.ty.prim == UnsignedOf(x.ty.prim) ==>
      MulSignedUnsigned(x, y).raw == MulUnsignedSigned(y, x).raw
  {
    assert x.raw * y.raw == y.raw * x.raw;
  }

  /**
   * The type `/` returns for operands of the same signedness:
   * `B0 + SIGNED` bits (the extra bit holds `MIN / -1`) and shift `S0 - S1`.
   */
  function DivType(t: FpType, u: FpType): FpType {
    FpType(t.prim, t.bits + (if t.prim.signed then 1 else 0), t.shift - u.shift)
  }

  /**
   * `/` between two values of the same raw type: the raw quotient in that
   * type, truncating toward zero. The divisor must not be zero (Rust panics).
   * The quotient always fits, so `MIN / -1` of the raw type never occurs.
   */
  function Div(x: Fp, y: Fp): (r: Fp)
    requires Valid(x) && Valid(y) && x.ty.prim == y.ty.prim && y.raw != 0
    requires TypeOk(DivType(x.ty, y.ty))
    ensures Valid(r) && r.ty == DivType(x.ty, y.ty)
    ensures r.raw == TruncDiv(x.raw, y.raw)
    ensures Abs(r.raw) <= Abs(x.raw)
  {
    var t := DivType(x.ty, y.ty);
    QuotientInWiderRange(x.ty, t, x.raw, y.raw);
    RangeWithinContainer(t);
    NewUnchecked(t, TruncDiv(x.raw, y.raw))
  }

  /**
   * A quotient of a value of `t` lies in the range of `v`, the type with the
   * same signedness and one more bit when signed. An unsigned divisor is
   * positive.
   */
  lemma {:induction false} QuotientInWiderRange(t: FpType, v: FpType, x: int, d: int)
    requires TypeOk(t) && TypeOk(v) && InRange(t, x) && d != 0 && (!t.prim.signed ==> d > 0)
    requires v.prim.signed == t.prim.signed && v.bits == t.bits + (if t.prim.signed then 1 else 0)
    ensures InRange(v, TruncDiv(x, d))
    ensures Abs(TruncDiv(x, d)) <= Abs(x)
  {
    TruncDivShrinks(x, d);
    if t.prim.signed {
      if t.bits > 0 {
        Pow2Succ(t.bits - 1, t.bits);
      }
    } else {
      TruncDivBetween(x, d);
    }
  }

  /** A quotient of an unsigned value of `t` lies in the range of the signed type `v` with one more bit. */
  lemma {:induction false} QuotientInSignedRange(t: FpType, v: FpType, x: int, d: int)
    requires TypeOk(t) && TypeOk(v) && !t.prim.signed && v.prim.signed && v.bits == t.bits + 1
    requires InRange(t, x) && d != 0
    ensures InRange(v, TruncDiv(x, d))
    ensures Abs(TruncDiv(x, d)) <= x
  {
    TruncDivShrinks(x, d);
  }

  /** Dividing a product by its second factor gives back the first raw integer. */
  lemma {:induction false} DivUndoesMul(x: Fp, y: Fp)
    requires Valid(x) && Valid(y) && x.ty.prim == y.ty.prim && y.raw != 0
    requires TypeOk(MulType(x.ty, y.ty)) && TypeOk(DivType(MulType(x.ty, y.ty), y.ty))
    ensures Div(Mul(x, y), y).raw == x.raw
    ensures Div(Mul(x, y), y).ty.shift == x.ty.shift
  {
    var p := Mul(x, y);
    TruncDivOfProduct(x.raw, y.raw);
    assert Div(p, y).raw == TruncDiv(p.raw, y.raw);
  }

  /** The type `/` returns for a signed dividend and an unsigned divisor: `B0` bits, shift `S0 - S1`. */
  function DivSignedUnsignedType(t: FpType, u: FpType): FpType {
    FpType(t.prim, t.bits, t.shift - u.shift)
  }

  /**
   * `/` of a signed value by an unsigned one as written: the divisor is cast
   * with `as` to the signed type, which turns an unsigned divisor of
   * `2^(W-1)` or more into a negative number, and the raw integers are then
   * divided with Rust's `/`. That `/` panics when the quotient leaves the
   * raw type, which happens exactly for `T::MIN` divided by `2^W - 1` (cast
   * to `-1`); the panic is `None`. When the cast keeps the divisor the
   * result is the one `DivSignedUnsigned` gives.
   */
  function DivSignedUnsignedAsWritten(x: Fp, y: Fp): (r: Option<Fp>)
    requires Valid(x) && Valid(y) && x.ty.prim.signed && y.ty.prim == UnsignedOf(x.ty.prim) && y.raw != 0
    requires TypeOk(DivSignedUnsignedType(x.ty, y.ty))
    ensures r.None? <==> x.raw == Min(x.ty.prim) && y.raw == Pow2(x.ty.prim.width) - 1
    ensures r.Some? ==> r.value.ty == DivSignedUnsignedType(x.ty, y.ty) && Contains(x.ty.prim, r.value.raw)
    ensures Contains(x.ty.prim, y.raw) ==> r == Some(DivSignedUnsigned(x, y))
    ensures r.Some? && !Contains(x.ty.prim, y.raw) ==>
      y.raw - Pow2(x.ty.prim.width) < 0 && r.value.raw == TruncDiv(x.raw, y.raw - Pow2(x.ty.prim.width))
  {
    var c := x.ty.prim;
    var d := Wrap(c, y.raw);
    RangeWithinContainer(x.ty);
    RangeWithinContainer(y.ty);
    CastDivisor(c, y.raw);
    QuotientOverflows(c, x.raw, d);
    var q := TruncDiv(x.raw, d);
    if Contains(c, q) then Some(Fp(DivSignedUnsignedType(x.ty, y.ty), q)) else None
  }

  /** Casting a nonzero unsigned divisor to the signed type keeps it or subtracts `2^W`; it never gives zero. */
  lemma {:induction false} CastDivisor(c: IntType, y: int)
    requires WidthOk(c.width) && c.signed && Contains(UnsignedOf(c), y) && y != 0
    ensures Contains(c, y) ==> Wrap(c, y) == y
    ensures !Contains(c, y) ==> Wrap(c, y) == y - Pow2(c.width)
    ensures Wrap(c, y) != 0
  {
    if !Contains(c, y) {
      WrapUnique(c, y, -1);
    }
  }

  /**
   * Rust's `/` between two integers of a signed type overflows exactly for
   * `T::MIN / -1`; every other quotient is an integer of the type.
   */
  lemma {:induction false} QuotientOverflows(c: IntType, a: int, d: int)
    requires WidthOk(c.width) && c.signed && Contains(c, a) && Contains(c, d) && d != 0
    ensures !Contains(c, TruncDiv(a, d)) <==> a == Min(c) && d == -1
  {
    var q := TruncDiv(a, d);
    TruncDivShrinks(a, d);
    if Abs(d) >= 2 {
      MulMono(Abs(q), Abs(q), 2, Abs(d));
    }
    if a == Min(c) && d == -1 {
      TruncDivByUnit(a, d);
    }
  }

  /**
   * `FpI8<4, 0>` holding -8 divided by `FpU8<8, 0>` holding 255: the cast
   * turns 255 into -1, and the quotient 8 is outside the 4-bit range.
   */
  lemma {:induction false} DivSignedUnsignedCastFlipsSign()
    ensures var x := Fp(FpType(IntType(8, true), 4, 0), -8);
      var y := Fp(FpType(IntType(8, false), 8, 0), 255);
      && Valid(x) && Valid(y) && TypeOk(DivSignedUnsignedType(x.ty, y.ty))
      && DivSignedUnsignedAsWritten(x, y) == Some(Fp(DivSignedUnsignedType(x.ty, y.ty), 8))
      && !Valid(DivSignedUnsignedAsWritten(x, y).value)
  {
    var x := Fp(FpType(IntType(8, true), 4, 0), -8);
    var y := Fp(FpType(IntType(8, false), 8, 0), 255);
    assert Pow2(3) == 8 && Pow2(7) == 128 && Pow2(8) == 256;
    var r := DivSignedUnsignedAsWritten(x, y);
    assert r.value.raw == TruncDiv(-8, -1);
    TruncDivByUnit(-8, -1);
  }

  /**
   * A full-width signed dividend holding `T::MIN` divided by the unsigned
   * `2^W - 1` (for `i8` and `u8`: `-128` by `255`): the cast turns the divisor
   * into `-1` and `T::MIN / -1` panics, while dividing by the divisor's value
   * gives 0.
   */
  lemma {:induction false} DivSignedUnsignedFullWidthPanics(c: IntType)
    requires WidthOk(c.width) && c.signed
    ensures var x := Fp(FpType(c, c.width, 0), Min(c));
      var y := Fp(FpType(UnsignedOf(c), c.width, 0), Max(UnsignedOf(c)));
      && Valid(x) && Valid(y) && y.raw != 0 && TypeOk(DivSignedUnsignedType(x.ty, y.ty))
      && DivSignedUnsignedAsWritten(x, y).None?
      && DivSignedUnsigned(x, y).raw == 0
  {
    var h := Pow2(c.width - 1);
    Pow2Succ(c.width - 1, c.width);
    TruncDivVanishes(Min(c), Max(UnsignedOf(c)), h, Max(UnsignedOf(c)));
  }

  /**
   * `/` of a signed value by an unsigned one, dividing by the divisor's
   * value: the quotient lies between zero and the dividend, so it always
   * fits the dividend's `B0` bits.
   */
  function DivSignedUnsigned(x: Fp, y: Fp): (r: Fp)
    requires Valid(x) && Valid(y) && x.ty.prim.signed && y.ty.prim == UnsignedOf(x.ty.prim) && y.raw != 0
    requires TypeOk(DivSignedUnsignedType(x.ty, y.ty))
    ensures Valid(r) && r.ty == DivSignedUnsignedType(x.ty, y.ty)
    ensures r.raw == TruncDiv(x.raw, y.raw)
    ensures x.raw >= 0 ==> 0 <= r.raw <= x.raw
    ensures x.raw < 0 ==> x.raw <= r.raw <= 0
  {
    var t := DivSignedUnsignedType(x.ty, y.ty);
    TruncDivBetween(x.raw, y.raw);
    RangeWithinContainer(t);
    NewUnchecked(t, TruncDiv(x.raw, y.raw))
  }

  /** The type `/` returns for an unsigned dividend and a signed divisor: signed, `B0 + 1` bits, shift `S0 - S1`. */
  function DivUnsignedSignedType(t: FpType, u: FpType): FpType {
    FpType(u.prim, t.bits + 1, t.shift - u.shift)
  }

  /**
   * `/` of an unsigned value by a signed one: the dividend is cast with `as`
   * to the signed type, which keeps it because the result type leaves room
   * for a sign bit, and the quotient fits `B0 + 1` signed bits.
   */
  function DivUnsignedSigned(x: Fp, y: Fp): (r: Fp)
    requires Valid(x) && Valid(y) && y.ty.prim.signed && x.ty.prim == UnsignedOf(y.ty.prim) && y.raw != 0
    requires TypeOk(DivUnsignedSignedType(x.ty, y.ty))
    ensures Valid(r) && r.ty == DivUnsignedSignedType(x.ty, y.ty)
    ensures r.raw == TruncDiv(x.raw, y.raw)
    ensures Abs(r.raw) <= x.raw
  {
    var t := DivUnsignedSignedType(x.ty, y.ty);
    RangeWithinContainer(x.ty);
    Pow2Mono(x.ty.bits, x.ty.prim.width - 1);
    var xc := Wrap(t.prim, x.raw);
    QuotientInSignedRange(x.ty, t, x.raw, y.raw);
    RangeWithinContainer(t);
    NewUnchecked(t, TruncDiv(xc, y.raw))
  }
}
