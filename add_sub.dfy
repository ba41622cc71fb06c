/**
 * The operators of src/add_sub.rs: `+` on two values of the same raw type
 * and shift, `-` whose result is always signed, and unary `-`. Each result
 * type has one more bit than the wider operand, which is what keeps the
 * wrapping operations from ever wrapping.
 */
module AddSub {
  import opened Arith
  import opened Ints
  import opened FpImpl

  /** The `const fn max` used in the result types: the larger of the two bit counts. */
  function MaxBits(a: nat, b: nat): (r: nat)
    ensures a <= r && b <= r
    ensures r == a || r == b
  {
    if a > b then a else b
  }

  /** `max` does not depend on the order of its arguments. */
  lemma {:induction false} MaxBitsSymmetric(a: nat, b: nat)
    ensures MaxBits(a, b) == MaxBits(b, a)
  {
  }

  /** Operands of `+` and `-`: the same raw integer type and the same `S`; the bit counts may differ. */
  predicate Compatible(x: Fp, y: Fp) {
    x.ty.prim == y.ty.prim && x.ty.shift == y.ty.shift
  }

  /** The type both operands fit in: the wider bit count, the same raw type and shift. */
  function Wider(t: FpType, u: FpType): FpType {
    FpType(t.prim, MaxBits(t.bits, u.bits), t.shift)
  }

  /** The type `+` returns: `$Name<{ max(B0, B1) + 1 }, S>`. */
  function AddType(t: FpType, u: FpType): FpType {
    FpType(t.prim, MaxBits(t.bits, u.bits) + 1, t.shift)
  }

  /** The type `-` returns: `$Iname<{ max(B0, B1) + 1 }, S>`, signed whatever the operands. */
  function SubType(t: FpType, u: FpType): FpType {
    IntoSignedType(Wider(t, u))
  }

  /** The type unary `-` returns: `$Iname<{ B + 1 }, S>`, the type `into_signed` returns. */
  function NegType(t: FpType): FpType {
    IntoSignedType(t)
  }

  /** Both operands lie in the range of the wider of their two types. */
  lemma {:induction false} OperandsFitWider(x: Fp, y: Fp)
    requires Valid(x) && Valid(y) && Compatible(x, y)
    requires TypeOk(Wider(x.ty, y.ty))
    ensures InRange(Wider(x.ty, y.ty), x.raw) && InRange(Wider(x.ty, y.ty), y.raw)
  {
    RangeWidens(x.ty, Wider(x.ty, y.ty));
    RangeWidens(y.ty, Wider(x.ty, y.ty));
  }

  /** One more bit holds the sum of any two values of a type. */
  lemma {:induction false} SumRange(w: FpType, v: FpType)
    requires TypeOk(w) && TypeOk(v) && v == FpType(w.prim, w.bits + 1, w.shift)
    ensures MinRaw(v) <= 2 * MinRaw(w) && 2 * MaxRaw(w) <= MaxRaw(v)
  {
    if w.bits == 0 {
      if w.prim.signed {
        assert Pow2(0) == 1;
      }
    } else if w.prim.signed {
      Pow2Succ(w.bits - 1, w.bits);
    } else {
      Pow2Succ(w.bits, w.bits + 1);
    }
  }

  /** One more bit, signed, holds the difference of any two values of a type, signed or not. */
  lemma {:induction false} DifferenceRange(w: FpType, v: FpType)
    requires TypeOk(w) && TypeOk(v) && v == IntoSignedType(w)
    ensures MinRaw(v) <= MinRaw(w) - MaxRaw(w) && MaxRaw(w) - MinRaw(w) <= MaxRaw(v)
  {
    if w.bits == 0 {
      assert Pow2(0) == 1;
    } else if w.prim.signed {
      Pow2Succ(w.bits - 1, w.bits);
    }
  }

  /**
   * `+`: `wrapping_add` of the raw integers. The sum always fits the result
   * type, so the wrap never changes it and the logical value is the exact sum.
   */
  function Add(x: Fp, y: Fp): (r: Fp)
    requires Valid(x) && Valid(y) && Compatible(x, y)
    requires TypeOk(AddType(x.ty, y.ty))
    ensures Valid(r) && r.ty == AddType(x.ty, y.ty)
    ensures r.raw == x.raw + y.raw
    ensures Value(r) == DyadicAdd(Value(x), Value(y))
  {
    var t := AddType(x.ty, y.ty);
    OperandsFitWider(x, y);
    SumRange(Wider(x.ty, y.ty), t);
    RangeWithinContainer(t);
    DyadicAddSameExp(Value(x), Value(y));
    NewUnchecked(t, Wrap(t.prim, x.raw + y.raw))
  }

  /**
   * `-`: `wrapping_sub` of the raw integers in their own type, then an `as`
   * cast to the signed type of the same width. For unsigned operands the
   * subtraction may wrap, and the cast undoes it: the result is the exact
   * difference.
   */
  function Sub(x: Fp, y: Fp): (r: Fp)
    requires Valid(x) && Valid(y) && Compatible(x, y)
    requires TypeOk(SubType(x.ty, y.ty))
    ensures Valid(r) && r.ty == SubType(x.ty, y.ty)
    ensures r.raw == x.raw - y.raw
    ensures Value(r) == DyadicAdd(Value(x), DyadicNeg(Value(y)))
  {
    var t := SubType(x.ty, y.ty);
    OperandsFitWider(x, y);
    DifferenceRange(Wider(x.ty, y.ty), t);
    RangeWithinContainer(t);
    WrapCast(x.ty.prim, t.prim, x.raw - y.raw);
    DyadicAddSameExp(Value(x), DyadicNeg(Value(y)));
    NewUnchecked(t, Wrap(t.prim, Wrap(x.ty.prim, x.raw - y.raw)))
  }

  /**
   * Unary `-`: the raw integer cast with `as` to the signed type, then
   * negated there. The extra bit holds `-MIN` of a signed type, so the
   * negation never wraps.
   */
  function Neg(x: Fp): (r: Fp)
    requires Valid(x) && TypeOk(NegType(x.ty))
    ensures Valid(r) && r.ty == NegType(x.ty)
    ensures r.raw == -x.raw
    ensures Value(r) == DyadicNeg(Value(x))
  {
    var t := NegType(x.ty);
    DifferenceRange(x.ty, t);
    RangeWithinContainer(x.ty);
    RangeWithinContainer(t);
    var v := Wrap(t.prim, x.raw);
    NewUnchecked(t, Wrap(t.prim, -v))
  }

  /** `+` is commutative, type and all. */
  lemma {:induction false} AddCommutes(x: Fp, y: Fp)
    requires Valid(x) && Valid(y) && Compatible(x, y)
    requires TypeOk(AddType(x.ty, y.ty))
    ensures TypeOk(AddType(y.ty, x.ty))
    ensures Add(x, y) == Add(y, x)
  {
    MaxBitsSymmetric(x.ty.bits, y.ty.bits);
  }

  /**
   * `+` is associative in value but not in type: both groupings give the
   * same raw integer and shift, and the bit counts are each one more than
   * the wider operand of the outer sum.
   */
  lemma {:induction false} AddAssociatesInValue(x: Fp, y: Fp, z: Fp)
    requires Valid(x) && Valid(y) && Valid(z) && Compatible(x, y) && Compatible(y, z)
    requires TypeOk(AddType(y.ty, z.ty)) && TypeOk(AddType(x.ty, AddType(y.ty, z.ty)))
    requires TypeOk(AddType(x.ty, y.ty)) && TypeOk(AddType(AddType(x.ty, y.ty), z.ty))
    ensures Add(x, Add(y, z)).raw == Add(Add(x, y), z).raw
    ensures Add(x, Add(y, z)).ty.shift == Add(Add(x, y), z).ty.shift
    ensures Add(x, Add(y, z)).ty.bits == MaxBits(x.ty.bits, MaxBits(y.ty.bits, z.ty.bits) + 1) + 1
    ensures Add(Add(x, y), z).ty.bits == MaxBits(MaxBits(x.ty.bits, y.ty.bits) + 1, z.ty.bits) + 1
  {
    var yz := Add(y, z);
    var xy := Add(x, y);
    assert Add(x, yz).raw == x.raw + yz.raw;
    assert Add(xy, z).raw == xy.raw + z.raw;
  }

  /**
   * `12` with 5 bits and `-1` with 1 bit, in any signed raw type such as
   * `i32`: `a + (b + b)` has 6 bits but `(a + b) + b` has 7, and both are 10.
   */
  lemma {:induction false} AddAssociativityExample(c: IntType)
    requires WidthOk(c.width) && c.signed
    ensures var a := Fp(FpType(c, 5, 0), 12);
      var b := Fp(FpType(c, 1, 0), -1);
      && Valid(a) && Valid(b)
      && TypeOk(AddType(b.ty, b.ty)) && TypeOk(AddType(a.ty, AddType(b.ty, b.ty)))
      && TypeOk(AddType(a.ty, b.ty)) && TypeOk(AddType(AddType(a.ty, b.ty), b.ty))
      && Add(a, Add(b, b)).raw == Add(Add(a, b), b).raw == 10
      && Add(a, Add(b, b)).ty.bits == 6
      && Add(Add(a, b), b).ty.bits == 7
  {
    var a := Fp(FpType(c, 5, 0), 12);
    var b := Fp(FpType(c, 1, 0), -1);
    assert Pow2(4) == 16 && Pow2(0) == 1;
    AddAssociatesInValue(a, b, b);
  }

  /** `-` undoes `+`: subtracting the second operand from the sum gives back the first raw integer. */
  lemma {:induction false} SubUndoesAdd(x: Fp, y: Fp)
    requires Valid(x) && Valid(y) && Compatible(x, y)
    requires TypeOk(AddType(x.ty, y.ty)) && TypeOk(SubType(AddType(x.ty, y.ty), y.ty))
    ensures Sub(Add(x, y), y).raw == x.raw
  {
    var s := Add(x, y);
    assert Sub(s, y).raw == s.raw - y.raw;
  }

  /** Swapping the operands of `-` negates the result and keeps its type. */
  lemma {:induction false} SubAntisymmetric(x: Fp, y: Fp)
    requires Valid(x) && Valid(y) && Compatible(x, y)
    requires TypeOk(SubType(x.ty, y.ty))
    ensures TypeOk(SubType(y.ty, x.ty))
    ensures Sub(x, y).ty == Sub(y, x).ty
    ensures Sub(x, y).raw == -Sub(y, x).raw
  {
    MaxBitsSymmetric(x.ty.bits, y.ty.bits);
  }

  /** Negating twice gives back the raw integer, two bits wider. */
  lemma {:induction false} NegNeg(x: Fp)
    requires Valid(x) && TypeOk(NegType(x.ty)) && TypeOk(NegType(NegType(x.ty)))
    ensures Neg(Neg(x)).raw == x.raw
    ensures Neg(Neg(x)).ty.bits == x.ty.bits + 2
  {
    var n := Neg(x);
    assert Neg(n).raw == -n.raw;
  }
}
