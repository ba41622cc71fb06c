/**
 * The fixed-point types `FpXxx<BITS, SHIFT>` of src/fp_impl.rs, written once
 * for every raw integer type: the per-type `BITS` check, the derived `MIN`,
 * `MAX` and `SIGNED`, the unchecked constructor, the view of a primitive
 * integer as a fixed-point number, the `From` identities and the conversions
 * between unsigned and signed.
 */
module FpImpl {
  import opened Wrappers
  import opened Arith
  import opened Ints

  /** `SHIFT` and the amounts of `logical_shl`/`logical_shr` are `i32`. */
  predicate I32(s: int) {
    -0x8000_0000 <= s <= 0x7fff_ffff
  }

  /**
   * The type `FpXxx<BITS, SHIFT>`: raw integer type `Xxx`, at most `BITS`
   * significant bits, logical value `raw / 2^SHIFT`. The primitive integer
   * `xxx` viewed as a fixed-point number is the type with `BITS = W` and
   * `SHIFT = 0` (see `PrimType`).
   */
  datatype FpType = FpType(prim: IntType, bits: nat, shift: int)

  /**
   * The type is accepted by the compiler: `BITS <= T::BITS`, asserted when
   * the constant `BITS` is evaluated, which every constructor forces; and
   * `SHIFT` fits an `i32`.
   */
  predicate TypeOk(t: FpType) {
    WidthOk(t.prim.width) && t.bits <= t.prim.width && I32(t.shift)
  }

  /** `Self::MIN.raw()`: `-2^(BITS-1)` for a signed type of nonzero width, zero otherwise. */
  function MinRaw(t: FpType): (r: int)
    requires TypeOk(t)
    ensures r <= 0
    ensures r < 0 <==> t.prim.signed && t.bits > 0
  {
    if t.prim.signed && t.bits > 0 then -(Pow2(t.bits - 1) as int) else 0
  }

  /** `Self::MAX.raw()`: `2^(BITS-1) - 1` for a signed type of nonzero width, `2^BITS - 1` for an unsigned one. */
  function MaxRaw(t: FpType): (r: int)
    requires TypeOk(t)
    ensures r >= 0
    ensures r - MinRaw(t) + 1 == Pow2(t.bits)
  {
    if t.bits == 0 then 0
    else if t.prim.signed then Pow2Succ(t.bits - 1, t.bits); Pow2(t.bits - 1) - 1
    else Pow2(t.bits) - 1
  }

  /**
   * The bounds are the raw type's own bounds shifted right by
   * `T::BITS - BITS` (zero for zero bits), which is how the source defines them.
   */
  lemma {:induction false} BoundsAreShiftedLimits(t: FpType)
    requires TypeOk(t)
    ensures MinRaw(t) == if t.bits == 0 then 0 else Shr(t.prim, Min(t.prim), t.prim.width - t.bits)
    ensures MaxRaw(t) == if t.bits == 0 then 0 else Shr(t.prim, Max(t.prim), t.prim.width - t.bits)
  {
    if t.bits > 0 {
      var k := t.prim.width - t.bits;
      if t.prim.signed {
        SignedLimitsShifted(t.prim, t.bits - 1, k, t.prim.width - 1);
      } else {
        UnsignedMinShifted(t.prim, k);
        UnsignedMaxShifted(t.prim, t.bits, k);
      }
    }
  }

  lemma {:induction false} SignedLimitsShifted(c: IntType, b: nat, k: nat, m: nat)
    requires WidthOk(c.width) && c.signed && m == c.width - 1 && m == b + k
    ensures Shr(c, Min(c), k) == -(Pow2(b) as int)
    ensures Shr(c, Max(c), k) == Pow2(b) - 1
  {
    ShiftedBottom(b, k, m);
    ShiftedTop(b, k, m);
  }

  lemma {:induction false} UnsignedMaxShifted(c: IntType, b: nat, k: nat)
    requires WidthOk(c.width) && !c.signed && c.width == b + k && b > 0
    ensures Shr(c, Max(c), k) == Pow2(b) - 1
  {
    ShiftedTop(b, k, c.width);
  }

  lemma {:induction false} UnsignedMinShifted(c: IntType, k: nat)
    requires WidthOk(c.width) && !c.signed && k < c.width
    ensures Shr(c, Min(c), k) == 0
  {
    DivZero(Min(c), Pow2(k));
  }

  /** Shifting `-2^m` right by `n` gives `-2^b`, where `m = b + n`. */
  lemma {:induction false} ShiftedBottom(b: nat, n: nat, m: nat)
    requires m == b + n
    ensures -(Pow2(m) as int) / Pow2(n) == -(Pow2(b) as int)
  {
    Pow2AddAt(b, n, m);
    DivideBottom(Pow2(b), Pow2(n), Pow2(m));
  }

  /** Shifting `2^m - 1` right by `n` gives `2^b - 1`, where `m = b + n`. */
  lemma {:induction false} ShiftedTop(b: nat, n: nat, m: nat)
    requires m == b + n
    ensures (Pow2(m) - 1) / Pow2(n) == Pow2(b) - 1
  {
    Pow2AddAt(b, n, m);
    DivideTop(Pow2(b), Pow2(n), Pow2(m));
  }

  /** `raw` lies between `MIN.raw()` and `MAX.raw()` of type `t`. */
  predicate InRange(t: FpType, raw: int)
    requires TypeOk(t)
  {
    MinRaw(t) <= raw <= MaxRaw(t)
  }

  /** A value of type `t` with raw integer `raw`; the raw integer is all that is stored. */
  datatype Fp = Fp(ty: FpType, raw: int)

  /** The invariant every value of a fixed-point type keeps. */
  predicate Valid(x: Fp) {
    TypeOk(x.ty) && InRange(x.ty, x.raw)
  }

  /** The logical value `raw / 2^SHIFT`, as an exact binary fraction. */
  function Value(x: Fp): Dyadic {
    Dyadic(x.raw, -x.ty.shift)
  }

  /** The bounds of a type lie inside its raw integer type and enclose zero. */
  lemma {:induction false} RangeWithinContainer(t: FpType)
    requires TypeOk(t)
    ensures Min(t.prim) <= MinRaw(t) <= 0 <= MaxRaw(t) <= Max(t.prim)
  {
    if t.bits > 0 {
      if t.prim.signed {
        Pow2Mono(t.bits - 1, t.prim.width - 1);
      } else {
        Pow2Mono(t.bits, t.prim.width);
      }
    }
  }

  /** More bits never shrink the range, whatever the raw integer types, as long as the signedness agrees. */
  lemma {:induction false} RangeWidens(t: FpType, u: FpType)
    requires TypeOk(t) && TypeOk(u)
    requires t.prim.signed == u.prim.signed && t.bits <= u.bits
    ensures MinRaw(u) <= MinRaw(t) && MaxRaw(t) <= MaxRaw(u)
  {
    if t.bits > 0 {
      Pow2Mono(t.bits - 1, u.bits - 1);
      Pow2Mono(t.bits, u.bits);
    } else if u.bits > 0 && u.prim.signed {
      assert Pow2(u.bits - 1) >= 1;
    }
  }

  /** `const SIGNED: bool = <$T>::MIN < 0` */
  function Signed(c: IntType): (r: bool)
    requires WidthOk(c.width)
    ensures r == c.signed
  {
    Min(c) < 0
  }

  /** `MIN` as a value of its type. */
  function MinValue(t: FpType): (r: Fp)
    requires TypeOk(t)
    ensures Valid(r) && r.ty == t
    ensures forall y :: InRange(t, y) ==> r.raw <= y
  {
    RangeWithinContainer(t);
    Fp(t, MinRaw(t))
  }

  /** `MAX` as a value of its type. */
  function MaxValue(t: FpType): (r: Fp)
    requires TypeOk(t)
    ensures Valid(r) && r.ty == t
    ensures forall y :: InRange(t, y) ==> y <= r.raw
  {
    RangeWithinContainer(t);
    Fp(t, MaxRaw(t))
  }

  /**
   * `new_unchecked`: the caller promises that `raw` is in range; the
   * type's `BITS` check is the only thing evaluated.
   */
  function NewUnchecked(t: FpType, raw: int): (r: Fp)
    requires TypeOk(t) && InRange(t, raw)
    ensures Valid(r) && r.ty == t && r.raw == raw
  {
    Fp(t, raw)
  }

  /** The primitive integer type `c` seen as a fixed-point type, and `FpXxx<{ Xxx::BITS }, 0>`. */
  function PrimType(c: IntType): FpType {
    FpType(c, c.width, 0)
  }

  /**
   * The primitive's own `Fp` impl declares `MIN = T::MIN` and `MAX = T::MAX`;
   * the derived bounds of `FpXxx<{ Xxx::BITS }, 0>` are the same, so the two
   * views of a primitive integer agree.
   */
  lemma {:induction false} PrimTypeBounds(c: IntType)
    requires WidthOk(c.width)
    ensures TypeOk(PrimType(c))
    ensures MinRaw(PrimType(c)) == Min(c) && MaxRaw(PrimType(c)) == Max(c)
  {
  }

  /** `From<T> for FpT<{ T::BITS }, 0>`, and the primitive viewed as `Fp`: every integer of `T` is a valid value. */
  function FromPrim(c: IntType, v: int): (r: Fp)
    requires WidthOk(c.width) && Contains(c, v)
    ensures Valid(r) && r.ty == PrimType(c) && r.raw == v
    ensures Value(r) == Dyadic(v, 0)
  {
    PrimTypeBounds(c);
    NewUnchecked(PrimType(c), v)
  }

  /** `From<FpT<{ T::BITS }, 0>> for T`: the raw integer. */
  function IntoPrim(x: Fp): (v: int)
    requires Valid(x) && x.ty == PrimType(x.ty.prim)
    ensures Contains(x.ty.prim, v)
    ensures Value(x) == Dyadic(v, 0)
  {
    RangeWithinContainer(x.ty);
    x.raw
  }

  /** The two `From` conversions are inverse to each other. */
  lemma {:induction false} PrimRoundTrip(c: IntType, v: int, x: Fp)
    requires WidthOk(c.width) && Contains(c, v)
    requires Valid(x) && x.ty == PrimType(c)
    ensures IntoPrim(FromPrim(c, v)) == v
    ensures FromPrim(c, IntoPrim(x)) == x
  {
  }

  /** The type `into_signed` returns: `FpI<{ B + 1 }, S>`. */
  function IntoSignedType(t: FpType): FpType {
    FpType(SignedOf(t.prim), t.bits + 1, t.shift)
  }

  /** The type `into_unsigned` returns: `FpU<{ B - 1 }, S>`. */
  function IntoUnsignedType(t: FpType): FpType
    requires t.bits >= 1
  {
    FpType(UnsignedOf(t.prim), t.bits - 1, t.shift)
  }

  /** `into_signed`: the `as` cast to the signed raw type never changes the value, and the result is in range. */
  function IntoSigned(x: Fp): (r: Fp)
    requires Valid(x) && !x.ty.prim.signed
    requires TypeOk(IntoSignedType(x.ty))
    ensures Valid(r) && r.ty == IntoSignedType(x.ty)
    ensures r.raw == x.raw && Value(r) == Value(x)
  {
    var t := IntoSignedType(x.ty);
    assert InRange(t, x.raw);
    RangeWithinContainer(t);
    var v := Wrap(t.prim, x.raw);
    assert v == x.raw;
    NewUnchecked(t, v)
  }

  /** `into_unsigned_unchecked`: the caller promises a non-negative raw value. */
  function IntoUnsignedUnchecked(x: Fp): (r: Fp)
    requires Valid(x) && x.ty.prim.signed && x.ty.bits >= 1 && x.raw >= 0
    ensures Valid(r) && r.ty == IntoUnsignedType(x.ty)
    ensures r.raw == x.raw && Value(r) == Value(x)
  {
    var t := IntoUnsignedType(x.ty);
    assert InRange(t, x.raw);
    RangeWithinContainer(t);
    var v := Wrap(t.prim, x.raw);
    assert v == x.raw;
    NewUnchecked(t, v)
  }

  /** `into_unsigned`: absent exactly for a negative raw value, otherwise the same raw value one bit narrower. */
  function IntoUnsigned(x: Fp): (r: Option<Fp>)
    requires Valid(x) && x.ty.prim.signed && x.ty.bits >= 1
    ensures r.None? <==> x.raw < 0
    ensures r.Some? ==> Valid(r.value) && r.value.ty == IntoUnsignedType(x.ty) && r.value.raw == x.raw
  {
    if x.raw >= 0 then Some(IntoUnsignedUnchecked(x)) else None
  }

  /** `into_signed` followed by `into_unsigned` gives back the original value. */
  lemma {:induction false} SignedUnsignedRoundTrip(x: Fp)
    requires Valid(x) && !x.ty.prim.signed && TypeOk(IntoSignedType(x.ty))
    ensures IntoUnsigned(IntoSigned(x)) == Some(x)
  {
    var y := IntoSigned(x);
    assert IntoUnsignedType(y.ty) == x.ty;
  }

  /** `into_unsigned` followed by `into_signed` gives back a non-negative original value. */
  lemma {:induction false} UnsignedSignedRoundTrip(x: Fp)
    requires Valid(x) && x.ty.prim.signed && x.ty.bits >= 1 && x.raw >= 0
    ensures IntoUnsigned(x).Some?
    ensures TypeOk(IntoSignedType(IntoUnsigned(x).value.ty))
    ensures IntoSigned(IntoUnsigned(x).value) == x
  {
    var y := IntoUnsigned(x).value;
    assert IntoSignedType(y.ty) == x.ty;
  }
}
