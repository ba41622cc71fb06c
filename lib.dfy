/**
 * The default methods of the trait `Fp` in src/lib.rs: the checked
 * constructor `new`, conversions between fixed-point types of the same shift
 * and signedness, and the width and shift transforms. Each returns a value of
 * `Self::Output<B, S>`, the fixed-point type over the same raw integer type
 * with the bit-width and shift the method's signature computes.
 */
module Lib {
  import opened Wrappers
  import opened Arith
  import opened Ints
  import opened FpImpl

  /** `RangeError` */
  datatype RangeError = TooSmall | TooLarge

  datatype Result<T> = Ok(value: T) | Err(error: RangeError)

  /** `Self::Output<N, { Self::SHIFT }>` */
  function WithBits(t: FpType, n: nat): FpType {
    FpType(t.prim, n, t.shift)
  }

  /**
   * `new`: `TooSmall` below `MIN`, else `TooLarge` above `MAX`, else the
   * raw value unchanged.
   */
  function New(t: FpType, v: int): (r: Result<Fp>)
    requires TypeOk(t) && Contains(t.prim, v)
    ensures r == Err(TooSmall) <==> v < MinRaw(t)
    ensures r == Err(TooLarge) <==> MaxRaw(t) < v
    ensures r.Ok? <==> InRange(t, v)
    ensures r.Ok? ==> Valid(r.value) && r.value.ty == t && r.value.raw == v
  {
    if v < MinRaw(t) then Err(TooSmall)
    else if v > MaxRaw(t) then Err(TooLarge)
    else Ok(NewUnchecked(t, v))
  }

  /** Every value is rebuilt by `new` from its own raw integer. */
  lemma {:induction false} NewOfRaw(x: Fp)
    requires Valid(x)
    ensures Contains(x.ty.prim, x.raw)
    ensures New(x.ty, x.raw) == Ok(x)
  {
    RangeWithinContainer(x.ty);
  }

  /**
   * `from_fp`: the shifts and the signedness must agree and the destination
   * must have at least as many bits (each an `assert!`); the raw integer is
   * carried over by `try_into`, which never fails, into a raw type of any width.
   */
  function FromFp(dest: FpType, x: Fp): (r: Fp)
    requires TypeOk(dest) && Valid(x)
    requires dest.shift == x.ty.shift && dest.bits >= x.ty.bits && dest.prim.signed == x.ty.prim.signed
    ensures Valid(r) && r.ty == dest && r.raw == x.raw
    ensures Value(r) == Value(x)
  {
    RangeWidens(x.ty, dest);
    RangeWithinContainer(dest);
    var v := TryFrom(dest.prim, x.raw).value;
    NewUnchecked(dest, v)
  }

  /** `into_fp`: `from_fp` called on the destination type. */
  function IntoFp(x: Fp, dest: FpType): (r: Fp)
    requires TypeOk(dest) && Valid(x)
    requires dest.shift == x.ty.shift && dest.bits >= x.ty.bits && dest.prim.signed == x.ty.prim.signed
    ensures Valid(r) && r.ty == dest && r.raw == x.raw
    ensures Value(r) == Value(x)
  {
    FromFp(dest, x)
  }

  /** Converting into a wider type and checking the raw value back into the original type gives the original. */
  lemma {:induction false} FromFpRoundTrip(dest: FpType, x: Fp)
    requires TypeOk(dest) && Valid(x)
    requires dest.shift == x.ty.shift && dest.bits >= x.ty.bits && dest.prim.signed == x.ty.prim.signed
    ensures Contains(x.ty.prim, FromFp(dest, x).raw)
    ensures New(x.ty, FromFp(dest, x).raw) == Ok(x)
    ensures dest.bits == x.ty.bits ==> FromFp(x.ty, FromFp(dest, x)) == x
  {
    NewOfRaw(x);
  }

  /** `add_bits::<N>`: the raw value and shift are kept, and the result is valid because the range only grows. */
  function AddBits(x: Fp, n: nat): (r: Fp)
    requires Valid(x) && x.ty.bits + n <= x.ty.prim.width
    ensures Valid(r) && r.ty == WithBits(x.ty, x.ty.bits + n) && r.raw == x.raw
    ensures Value(r) == Value(x)
  {
    var t := WithBits(x.ty, x.ty.bits + n);
    RangeWidens(x.ty, t);
    NewUnchecked(t, x.raw)
  }

  /** `set_bits::<N>`: `new` at `N` bits applied to the raw value. */
  function SetBits(x: Fp, n: nat): (r: Result<Fp>)
    requires Valid(x) && TypeOk(WithBits(x.ty, n))
    ensures r.Ok? <==> InRange(WithBits(x.ty, n), x.raw)
    ensures r.Ok? ==> Valid(r.value) && r.value == Fp(WithBits(x.ty, n), x.raw)
    ensures r == Err(TooSmall) <==> x.raw < MinRaw(WithBits(x.ty, n))
    ensures r == Err(TooLarge) <==> MaxRaw(WithBits(x.ty, n)) < x.raw
  {
    RangeWithinContainer(x.ty);
    New(WithBits(x.ty, n), x.raw)
  }

  /** Setting at least as many bits as the value has never fails and is `add_bits`. */
  lemma {:induction false} SetBitsWidening(x: Fp, n: nat)
    requires Valid(x) && x.ty.bits <= n <= x.ty.prim.width
    ensures SetBits(x, n) == Ok(AddBits(x, n - x.ty.bits))
  {
    RangeWidens(x.ty, WithBits(x.ty, n));
  }

  /** Narrowing with `set_bits` and widening back with `add_bits` gives the original. */
  lemma {:induction false} SetBitsAddBitsRoundTrip(x: Fp, n: nat)
    requires Valid(x) && n <= x.ty.bits
    requires SetBits(x, n).Ok?
    ensures AddBits(SetBits(x, n).value, x.ty.bits - n) == x
  {
  }

  /** `set_bits_unchecked::<N>`: under its precondition it agrees with the checked `set_bits`. */
  function SetBitsUnchecked(x: Fp, n: nat): (r: Fp)
    requires Valid(x) && TypeOk(WithBits(x.ty, n)) && InRange(WithBits(x.ty, n), x.raw)
    ensures SetBits(x, n) == Ok(r)
  {
    NewUnchecked(WithBits(x.ty, n), x.raw)
  }

  /**
   * `saturate::<N>`: the result is always valid at `N` bits; it is the raw
   * value when that is in range, and otherwise the bound nearest to it.
   */
  function Saturate(x: Fp, n: nat): (r: Fp)
    requires Valid(x) && TypeOk(WithBits(x.ty, n))
    ensures Valid(r) && r.ty == WithBits(x.ty, n)
    ensures InRange(r.ty, x.raw) ==> r.raw == x.raw
    ensures forall y :: InRange(r.ty, y) ==> Abs(x.raw - r.raw) <= Abs(x.raw - y)
  {
    var t := WithBits(x.ty, n);
    match SetBits(x, n)
    case Err(TooSmall) => MinValue(t)
    case Err(TooLarge) => MaxValue(t)
    case Ok(v) => v
  }

  /** Saturating twice to the same width is saturating once. */
  lemma {:induction false} SaturateIdempotent(x: Fp, n: nat)
    requires Valid(x) && TypeOk(WithBits(x.ty, n))
    ensures Saturate(Saturate(x, n), n) == Saturate(x, n)
  {
    var y := Saturate(x, n);
    assert WithBits(y.ty, n) == y.ty;
  }

  /** The type `logical_shl::<N>` returns: `Self::Output<{ BITS }, { SHIFT - N }>`. */
  function LogicalShlType(t: FpType, n: int): FpType {
    FpType(t.prim, t.bits, t.shift - n)
  }

  /** The type `logical_shr::<N>` returns: `Self::Output<{ BITS }, { SHIFT + N }>`. */
  function LogicalShrType(t: FpType, n: int): FpType {
    FpType(t.prim, t.bits, t.shift + n)
  }

  /** `logical_shl::<N>`: the raw value is kept and the logical value is multiplied by `2^N`. */
  function LogicalShl(x: Fp, n: int): (r: Fp)
    requires Valid(x) && I32(n) && I32(x.ty.shift - n)
    ensures Valid(r) && r.ty == LogicalShlType(x.ty, n) && r.raw == x.raw
    ensures Value(r) == DyadicScale(Value(x), n)
  {
    var t := LogicalShlType(x.ty, n);
    NewUnchecked(t, x.raw)
  }

  /** `logical_shr::<N>`: the raw value is kept and the logical value is divided by `2^N`. */
  function LogicalShr(x: Fp, n: int): (r: Fp)
    requires Valid(x) && I32(n) && I32(x.ty.shift + n)
    ensures Valid(r) && r.ty == LogicalShrType(x.ty, n) && r.raw == x.raw
    ensures Value(r) == DyadicScale(Value(x), -n)
  {
    var t := LogicalShrType(x.ty, n);
    NewUnchecked(t, x.raw)
  }

  /** A logical shift left and a logical shift right by the same amount undo each other. */
  lemma {:induction false} LogicalShiftsInverse(x: Fp, n: int)
    requires Valid(x) && I32(n) && I32(x.ty.shift - n) && I32(x.ty.shift + n)
    ensures LogicalShr(LogicalShl(x, n), n) == x
    ensures LogicalShl(LogicalShr(x, n), n) == x
  {
  }

  /** The type `raw_shl::<N>` returns: `Self::Output<{ BITS + N }, { SHIFT + N }>`. */
  function RawShlType(t: FpType, n: nat): FpType {
    FpType(t.prim, t.bits + n, t.shift + n)
  }

  /** Multiplying a value of `t` by `2^n` lands in the range of `t` with `n` more bits. */
  lemma {:induction false} ScaledInRange(t: FpType, x: int, n: nat)
    requires TypeOk(t) && InRange(t, x) && TypeOk(RawShlType(t, n))
    ensures InRange(RawShlType(t, n), x * Pow2(n))
  {
    var u := RawShlType(t, n);
    if t.bits == 0 {
      RangeWithinContainer(u);
      MulZero(x, Pow2(n));
    } else if t.prim.signed {
      ScaledSigned(x, t.bits - 1, n, u.bits - 1);
    } else {
      ScaledUnsigned(x, t.bits, n, u.bits);
    }
  }

  /** The signed case of `ScaledInRange`, for `b` and `m = b + n` one less than the bit counts. */
  lemma {:induction false} ScaledSigned(x: int, b: nat, n: nat, m: nat)
    requires m == b + n && -(Pow2(b) as int) <= x <= Pow2(b) - 1
    ensures -(Pow2(m) as int) <= x * Pow2(n) <= Pow2(m) - 1
  {
    Pow2AddAt(b, n, m);
    ScaleSymmetric(x, Pow2(b), Pow2(n));
  }

  /** The unsigned case of `ScaledInRange`. */
  lemma {:induction false} ScaledUnsigned(x: int, b: nat, n: nat, m: nat)
    requires m == b + n && 0 <= x <= Pow2(b) - 1
    ensures 0 <= x * Pow2(n) <= Pow2(m) - 1
  {
    Pow2AddAt(b, n, m);
    ScaleWindow(x, 0, Pow2(b), Pow2(n));
  }

  /** Scaling the raw integer by `2^n` while adding `n` to the shift keeps the logical value. */
  lemma {:induction false} ValueRawShl(x: Fp, y: Fp, n: nat)
    requires y.raw == x.raw * Pow2(n) && y.ty.shift == x.ty.shift + n
    ensures DyadicEq(Value(y), Value(x))
  {
    var e := -y.ty.shift;
    AlignAt(Value(y), e, 0);
    AlignAt(Value(x), e, n);
  }

  /**
   * `raw_shl::<N>`: the raw value is multiplied by `2^N` (the `<<` never
   * drops a bit), the bit-width and shift both grow by `N`, and the logical
   * value is unchanged.
   */
  function RawShl(x: Fp, n: nat): (r: Fp)
    requires Valid(x) && x.ty.bits + n <= x.ty.prim.width && I32(x.ty.shift + n)
    ensures Valid(r) && r.ty == RawShlType(x.ty, n)
    ensures r.raw == x.raw * Pow2(n)
    ensures DyadicEq(Value(r), Value(x))
    ensures n >= x.ty.prim.width ==> x.ty.bits == 0 && x.raw == 0 && r.raw == 0
  {
    var t := RawShlType(x.ty, n);
    ScaledInRange(x.ty, x.raw, n);
    RangeWithinContainer(t);
    ShlMaskedSmall(t.prim, x.raw, n);
    var v := ShlMasked(t.prim, x.raw, n);
    ValueRawShl(x, Fp(t, v), n);
    NewUnchecked(t, v)
  }

  /** The type `raw_shr::<N>` returns: `Self::Output<{ BITS - N }, { SHIFT - N }>`. */
  function RawShrType(t: FpType, n: nat): FpType
    requires n <= t.bits
  {
    FpType(t.prim, t.bits - n, t.shift - n)
  }

  /**
   * When the result of `raw_shr::<N>` fits its type: `N <= BITS`, and for a
   * signed type of nonzero width at least one bit (the sign) must remain.
   */
  predicate RawShrFits(t: FpType, n: nat) {
    n <= t.bits && (t.prim.signed && t.bits > 0 ==> n < t.bits)
  }

  /** Floor division by `2^n` maps the range of `t` into the range of `t` with `n` fewer bits. */
  lemma {:induction false} ShiftedInRange(t: FpType, x: int, n: nat)
    requires TypeOk(t) && InRange(t, x) && RawShrFits(t, n) && TypeOk(RawShrType(t, n))
    ensures InRange(RawShrType(t, n), x / Pow2(n))
  {
    var u := RawShrType(t, n);
    if t.bits > 0 {
      if t.prim.signed {
        ShiftedSigned(x, u.bits - 1, n, t.bits - 1);
      } else {
        ShiftedUnsigned(x, u.bits, n, t.bits);
      }
    }
  }

  /** The signed case of `ShiftedInRange`, for `b` and `m = b + n` one less than the bit counts. */
  lemma {:induction false} ShiftedSigned(x: int, b: nat, n: nat, m: nat)
    requires m == b + n && -(Pow2(m) as int) <= x <= Pow2(m) - 1
    ensures -(Pow2(b) as int) <= x / Pow2(n) <= Pow2(b) - 1
  {
    Pow2AddAt(b, n, m);
    FloorDivSymmetric(x, Pow2(b), Pow2(n));
  }

  /** The unsigned case of `ShiftedInRange`. */
  lemma {:induction false} ShiftedUnsigned(x: int, b: nat, n: nat, m: nat)
    requires m == b + n && 0 <= x <= Pow2(m) - 1
    ensures 0 <= x / Pow2(n) <= Pow2(b) - 1
  {
    Pow2AddAt(b, n, m);
    FloorDivWindow(x, 0, Pow2(b), Pow2(n));
  }

  /**
   * `raw_shr::<N>` as intended: the raw value is divided by `2^N` rounding
   * toward minus infinity (an arithmetic shift), the bit-width and shift
   * both shrink by `N`, and the logical value drops by less than one unit of
   * the result's last place.
   */
  function RawShr(x: Fp, n: nat): (r: Fp)
    requires Valid(x) && RawShrFits(x.ty, n) && I32(x.ty.shift - n)
    ensures Valid(r) && r.ty == RawShrType(x.ty, n)
    ensures r.raw * Pow2(n) <= x.raw < (r.raw + 1) * Pow2(n)
    ensures n < x.ty.prim.width ==> r.raw == Shr(x.ty.prim, x.raw, n)
    ensures DyadicLe(Value(r), Value(x)) && DyadicLt(Value(x), Dyadic(r.raw + 1, -r.ty.shift))
  {
    var t := RawShrType(x.ty, n);
    ShiftedInRange(x.ty, x.raw, n);
    var v := x.raw / Pow2(n);
    FloorDivAround(x.raw, Pow2(n));
    ValueRawShr(x, Fp(t, v), n);
    NewUnchecked(t, v)
  }

  /**
   * If `y * 2^n <= x < (y + 1) * 2^n` and `y`'s shift is `n` less, `y` is
   * `x` rounded down to `y`'s resolution: the next value of `y`'s type lies
   * above `x`.
   */
  lemma {:induction false} ValueRawShr(x: Fp, y: Fp, n: nat)
    requires y.raw * Pow2(n) <= x.raw < (y.raw + 1) * Pow2(n) && y.ty.shift == x.ty.shift - n
    ensures DyadicLe(Value(y), Value(x)) && DyadicLt(Value(x), Dyadic(y.raw + 1, -y.ty.shift))
  {
    var e := -x.ty.shift;
    AlignAt(Value(x), e, 0);
    AlignAt(Value(y), e, n);
    AlignAt(Dyadic(y.raw + 1, -y.ty.shift), e, n);
  }

  /**
   * `raw_shr::<N>` as written: `self.raw() >> N` into `Self::Output<{ BITS - N }, { SHIFT - N }>`,
   * with `>>` as compiled without overflow checks. It agrees with `RawShr`
   * wherever the result fits and the shift amount is below the raw width.
   */
  function RawShrAsWritten(x: Fp, n: nat): (r: Fp)
    requires Valid(x) && n <= x.ty.bits && I32(x.ty.shift - n)
    ensures r.ty == RawShrType(x.ty, n)
    ensures RawShrFits(x.ty, n) && n < x.ty.prim.width ==> r == RawShr(x, n)
  {
    ShrMaskedSmall(x.ty.prim, x.raw, n);
    Fp(RawShrType(x.ty, n), ShrMasked(x.ty.prim, x.raw, n))
  }

  /** A signed 4-bit value `-1` shifted right by all 4 bits gives raw `-1` in a 0-bit type, whose only value is 0. */
  lemma {:induction false} RawShrAsWrittenSignedFullShift()
    ensures var x := Fp(FpType(IntType(32, true), 4, 0), -1);
      Valid(x) && RawShrAsWritten(x, 4).raw == -1 && !Valid(RawShrAsWritten(x, 4))
  {
    assert Pow2(4) == 16;
  }

  /** An unsigned 8-bit `255` shifted right by 8: the shift amount is masked to 0 and the raw value stays 255 in a 0-bit type. */
  lemma {:induction false} RawShrAsWrittenFullWidth()
    ensures var x := Fp(FpType(IntType(8, false), 8, 0), 255);
      Valid(x) && RawShrAsWritten(x, 8).raw == 255 && !Valid(RawShrAsWritten(x, 8))
  {
    assert Pow2(8) == 256;
  }

  /** `raw_shl::<N>` followed by `raw_shr::<N>` gives back the original value. */
  lemma {:induction false} RawShlShrRoundTrip(x: Fp, n: nat)
    requires Valid(x) && x.ty.bits + n <= x.ty.prim.width && I32(x.ty.shift + n)
    requires x.ty.prim.signed ==> x.ty.bits > 0 || n == 0
    ensures RawShrFits(RawShl(x, n).ty, n)
    ensures RawShr(RawShl(x, n), n) == x
  {
    var y := RawShl(x, n);
    var z := RawShr(y, n);
    DivModUnique(x.raw * Pow2(n), Pow2(n), x.raw, 0);
    assert z.ty == x.ty;
  }
}
