# fsfp: a verified model of the fixed-point type algebra

`fsfp` is a Rust crate for fixed-point numbers. A value is a raw integer held in a primitive
integer type `T`. Its type carries two compile-time parameters:

- `BITS`, the number of significant bits of the raw integer;
- `SHIFT`, the position of the binary point.

The logical value is `raw / 2^SHIFT`. Every operator computes the `BITS` and `SHIFT` of its
result from those of its operands. The crate claims that this makes every operation
overflow-free without a runtime check.

This Dafny project models that type algebra and proves the claim, operator by operator. It
covers four files:

- the trait default methods of `src/lib.rs`;
- the per-type constants and conversions of `src/fp_impl.rs`;
- the additive operators of `src/add_sub.rs`;
- the multiplicative operators of `src/mul_div.rs`.

The model is written once for every raw type. `IntType(width, signed)` stands for
`i8 … u128`, `isize` and `usize`. `FpType(prim, bits, shift)` stands for `FpXxx<BITS, SHIFT>`,
and a value `Fp(ty, raw)` is valid when its raw integer lies between `MIN.raw()` and
`MAX.raw()` of its type.

Rust's integer operations are written out:

- `Wrap` is `wrapping_add`, `wrapping_sub`, an unchecked `*` or `<<`, and an `as` cast between
  types of one width.
- `TruncDiv` is `/`, which truncates toward zero.
- `Shr` is `>>`, which is floor division by `2^N` on signed values.
- `LeadingZeros` and `LeadingOnes` count bits of the two's-complement pattern.

Each operator is modelled with the wrapping or cast that its source writes. Its contract then
proves three things:

- the wrap never takes effect, because the raw result equals the exact integer result;
- that result lies in the range of the output type;
- the logical value is the exact one.

The logical value is the exact binary fraction `Dyadic(raw, -SHIFT)`, not a floating-point
number.

Modules, in dependency order:

- `Arith` (arith.dfy): powers of two, truncating division, bit length and exact binary fractions.
- `Ints` (ints.dfy): the primitive integer types and their wrapping, shift and bit-count operations.
- `FpImpl` (fp_impl.dfy): `src/fp_impl.rs`.
- `Lib` (lib.dfy): `src/lib.rs`.
- `AddSub` (add_sub.dfy): `src/add_sub.rs`.
- `MulDiv` (mul_div.dfy): `src/mul_div.rs`.

Conditions that Rust checks when it compiles or monomorphises become preconditions of the
model. These include the `BITS <= T::BITS` assertion evaluated by every constructor, the
`generic_const_exprs` bounds such as `B - 1` or `1 + BITS - (...)` in `u32`, and `SHIFT` in
`i32`. Most appear as `TypeOk` of the result type. Runtime `assert!`s and division by zero are
preconditions as well.

Signed ÷ unsigned keeps `B0` bits (`src/mul_div.rs:116`), while same-type division adds one
bit for a signed type (`src/mul_div.rs:62`). `MulDiv.DivSignedUnsigned` models those `B0` bits.

## Model

| member | source | states |
|---|---|---|
| Arith.TruncDiv | src/mul_div.rs:38-40 | Rust `/` on integers: the quotient's magnitude is the largest multiple count of the divisor's magnitude not above the dividend's, and its sign is the product of the operands' signs |
| Arith.TruncDivShrinks | src/mul_div.rs:59-62 | a truncated quotient by a nonzero divisor is never larger in magnitude than the dividend |
| Arith.TruncDivBetween | src/mul_div.rs:111-122 | dividing by a positive divisor gives a quotient between zero and the dividend |
| Arith.TruncDivOfProduct | src/mul_div.rs:53-66 | `(a * d) / d == a` for every nonzero `d` |
| Arith.TruncDivByUnit | src/mul_div.rs:59-62 | dividing by `1` or `-1` multiplies by the divisor, so `MIN / -1` is `-MIN` |
| Arith.BitLength | src/mul_div.rs:10-37 | the number of significant bits `k` of `v`: `2^(k-1) <= v < 2^k` |
| Ints.Wrap | src/add_sub.rs:26-34 | `wrapping_add`/`wrapping_sub`/`as`: the result is in the type, and equals the input when the input is already in the type |
| Ints.WrapUnique | src/add_sub.rs:26-34 | wrapping adds exactly the multiple of `2^W` that lands in the type |
| Ints.WrapCast | src/add_sub.rs:40-55 | a wrapping operation in one type followed by an `as` cast to another type of the same width gives back every value the second type holds |
| Ints.Shr | src/lib.rs:215 | `>>` by an amount below the width is floor division by `2^N`: `r * 2^N <= x < (r + 1) * 2^N`, so the result keeps the sign of `x` and is no larger in magnitude |
| Ints.ShrMasked | src/lib.rs:215 | `>>` in a build without overflow checks: a shift by a multiple of the width leaves the value unchanged |
| Ints.ShrMaskedSmall | src/lib.rs:208-216 | masking leaves an amount below the width unchanged, so the masked `>>` is `Shr` |
| Ints.ShlMasked | src/lib.rs:206 | `<<` in a build without overflow checks gives an integer of the type, and a shift by a multiple of the width leaves an integer of the type unchanged |
| Ints.ShlMaskedSmall | src/lib.rs:199-207 | `<<` by an amount below the width is multiplication by `2^N` followed by wrapping; shifting zero gives zero |
| Ints.TryFrom | src/lib.rs:137 | `try_into` between primitive types succeeds exactly when the value fits the target, and then keeps it |
| Ints.LeadingZeros | src/mul_div.rs:19 | `leading_zeros` is at most the width, equals the width exactly for zero, and is zero for a negative value |
| Ints.LeadingOnes | src/mul_div.rs:16 | `leading_ones` is at most the width, equals the width exactly for the all-ones pattern (`-1` signed, `MAX` unsigned), and is zero for a non-negative signed value |
| Ints.LeadingZerosBitLength | src/mul_div.rs:19 | for a non-negative value, `W - leading_zeros` is its bit length |
| Ints.LeadingOnesBitLength | src/mul_div.rs:16 | for a negative value `x`, `W - leading_ones` is the bit length of `-x - 1` |
| FpImpl.MinRaw | src/fp_impl.rs:52-59 | `MIN.raw()` is never positive, and is negative exactly for a signed type with at least one bit |
| FpImpl.MaxRaw | src/fp_impl.rs:60-67 | `MAX.raw()` is never negative, and the range from `MIN.raw()` to `MAX.raw()` holds exactly `2^BITS` integers |
| FpImpl.BoundsAreShiftedLimits | src/fp_impl.rs:52-67 | `MIN.raw()` and `MAX.raw()` are `T::MIN >> (W - BITS)` and `T::MAX >> (W - BITS)`, or 0 for `BITS == 0`; so they are `-2^(B-1)` and `2^(B-1) - 1` when signed, and `0` and `2^B - 1` when unsigned |
| FpImpl.RangeWithinContainer | src/fp_impl.rs:47-67 | the range of every accepted type lies inside its raw type and contains zero |
| FpImpl.RangeWidens | src/lib.rs:148-156 | more bits never shrink the range, for either signedness |
| FpImpl.Signed | src/fp_impl.rs:69 | `SIGNED` is `T::MIN < 0`, which holds exactly for the signed raw types |
| FpImpl.MinValue | src/fp_impl.rs:52-59 | `MIN` is a valid value of its type, and no value of the type is below it |
| FpImpl.MaxValue | src/fp_impl.rs:60-67 | `MAX` is a valid value of its type, and no value of the type is above it |
| FpImpl.NewUnchecked | src/fp_impl.rs:70-73 | `new_unchecked` keeps the raw integer; it needs an accepted type and an in-range value |
| FpImpl.PrimTypeBounds | src/fp_impl.rs:8-16 | the primitive viewed as `Fp` and `FpT<{ T::BITS }, 0>` have the same bounds, the full range of `T` |
| FpImpl.FromPrim | src/fp_impl.rs:103-109 | `From<T>` accepts every integer of `T`, keeps it as the raw integer, and the logical value is that integer |
| FpImpl.IntoPrim | src/fp_impl.rs:111-117 | `From<FpT<W, 0>> for T` returns the raw integer, an integer of `T` equal to the logical value |
| FpImpl.PrimRoundTrip | src/fp_impl.rs:103-117 | the two `From` conversions are inverse to each other |
| FpImpl.IntoSigned | src/fp_impl.rs:136-142 | `into_signed` gives the signed `B + 1`-bit value with the same raw integer and logical value; the cast never changes the value |
| FpImpl.IntoUnsignedUnchecked | src/fp_impl.rs:145-150 | for a non-negative value, `into_unsigned_unchecked` gives the unsigned `B - 1`-bit value with the same raw integer and logical value |
| FpImpl.IntoUnsigned | src/fp_impl.rs:151-160 | `into_unsigned` is absent exactly for a negative raw integer, and otherwise a valid `B - 1`-bit unsigned value with the same raw integer |
| FpImpl.SignedUnsignedRoundTrip | src/fp_impl.rs:136-160 | `into_signed` followed by `into_unsigned` gives back the original value |
| FpImpl.UnsignedSignedRoundTrip | src/fp_impl.rs:136-160 | `into_unsigned` followed by `into_signed` gives back a non-negative original value |
| Lib.New | src/lib.rs:86-94 | `new` gives `TooSmall` exactly below `MIN.raw()`, `TooLarge` exactly above `MAX.raw()`, and otherwise `Ok` of a valid value with the raw integer unchanged |
| Lib.NewOfRaw | src/lib.rs:86-96 | `new` applied to the raw integer of a valid value gives back that value |
| Lib.FromFp | src/lib.rs:127-138 | with equal `SHIFT`, equal signedness and no fewer bits, `from_fp` keeps the raw integer and the logical value, and the result is valid; `try_into` never fails |
| Lib.IntoFp | src/lib.rs:142-147 | `into_fp` keeps the raw integer and the logical value, and the result is a valid value of the destination type |
| Lib.FromFpRoundTrip | src/lib.rs:127-147 | widening with `from_fp` and checking back into the source type with `new` gives back the original; at equal width, `from_fp` back gives the original |
| Lib.AddBits | src/lib.rs:148-156 | `add_bits::<N>` keeps the raw integer, `SHIFT` and logical value; the result is valid at `BITS + N` bits |
| Lib.SetBits | src/lib.rs:157-162 | `set_bits::<N>` succeeds exactly when the raw integer is in the `N`-bit range, keeping raw integer and shift; it fails with `TooSmall` below and `TooLarge` above |
| Lib.SetBitsWidening | src/lib.rs:148-162 | `set_bits` to a wider type always succeeds and agrees with `add_bits` |
| Lib.SetBitsAddBitsRoundTrip | src/lib.rs:148-162 | a successful narrowing `set_bits` followed by `add_bits` back gives back the original |
| Lib.SetBitsUnchecked | src/lib.rs:163-171 | `set_bits_unchecked` with an in-range value gives what a successful `set_bits` gives |
| Lib.Saturate | src/lib.rs:172-180 | `saturate::<N>` is always valid at `N` bits, keeps an in-range raw integer, and otherwise returns the closest value of the range (`MIN` below, `MAX` above) |
| Lib.SaturateIdempotent | src/lib.rs:172-180 | saturating twice to the same width is saturating once |
| Lib.LogicalShl | src/lib.rs:181-189 | `logical_shl::<N>` keeps raw integer and bits, moves `SHIFT` to `SHIFT - N`, and multiplies the logical value by `2^N` |
| Lib.LogicalShr | src/lib.rs:190-198 | `logical_shr::<N>` keeps raw integer and bits, moves `SHIFT` to `SHIFT + N`, and divides the logical value by `2^N` |
| Lib.LogicalShiftsInverse | src/lib.rs:181-198 | `logical_shl` and `logical_shr` by the same amount undo each other |
| Lib.ScaledInRange | src/lib.rs:199-207 | a value of `B` bits times `2^N` lies in the `B + N`-bit range |
| Lib.RawShl | src/lib.rs:199-207 | `raw_shl::<N>` multiplies the raw integer by `2^N` without wrapping, is valid at `B + N` bits and shift `S + N`, and keeps the logical value; the shift amount reaches the width only for a 0-bit value, whose raw integer is 0 |
| Lib.ValueRawShl | src/lib.rs:199-200 | multiplying the raw integer by `2^N` and adding `N` to the shift keeps the logical value |
| Lib.ShiftedInRange | src/lib.rs:208-216 | floor division by `2^N` maps the `B`-bit range into the `B - N`-bit range |
| Lib.RawShr | src/lib.rs:208-216 | `raw_shr::<N>` (where it fits) is floor division of the raw integer by `2^N`, equal to Rust's `>>`, valid at `B - N` bits and shift `S - N`; the logical value is truncated downward by less than one unit of the new type |
| Lib.ValueRawShr | src/lib.rs:208-209 | floor division by `2^N` with shift `S - N` bounds the logical value from below, within one unit |
| Lib.RawShrAsWritten | src/lib.rs:208-216 | `raw_shr` as written, `>>` with the amount masked by the width; it agrees with `RawShr` wherever that fits |
| Lib.RawShrAsWrittenSignedFullShift | src/lib.rs:210-215 | `FpI32<4, 0>` holding -1 shifted by 4 gives -1 in a 0-bit type, which is not valid |
| Lib.RawShrAsWrittenFullWidth | src/lib.rs:210-215 | `FpU8<8, 0>` holding 255 shifted by 8 keeps 255 in a 0-bit type, which is not valid |
| Lib.RawShlShrRoundTrip | src/lib.rs:199-216 | `raw_shr::<N>` after `raw_shl::<N>` gives back the original value |
| AddSub.MaxBits | src/add_sub.rs:7-13 | `max(a, b)` is at least both arguments and equals one of them |
| AddSub.MaxBitsSymmetric | src/add_sub.rs:7-13 | `max` is symmetric |
| AddSub.OperandsFitWider | src/add_sub.rs:18-25 | both operands are valid at the width of the wider one |
| AddSub.SumRange | src/add_sub.rs:18-25 | one more bit holds twice the range: `2 * MIN` and `2 * MAX` still fit |
| AddSub.DifferenceRange | src/add_sub.rs:36-45 | the signed type with one more bit holds `MIN - MAX` and `MAX - MIN` of the narrower type |
| AddSub.Add | src/add_sub.rs:21-35 | `+` with equal shifts: `max(B0, B1) + 1` bits, same raw type and shift; `wrapping_add` never wraps, the raw result is the sum, valid, and the logical value is the exact sum |
| AddSub.Sub | src/add_sub.rs:40-55 | `-` is always signed with `max(B0, B1) + 1` bits; `wrapping_sub` cast to the signed type is the exact difference, even for unsigned operands, valid, with the exact logical difference |
| AddSub.Neg | src/add_sub.rs:56-67 | unary `-` is signed with `B + 1` bits; the raw result is `-raw`, valid, including `-MIN` of a signed type |
| AddSub.AddCommutes | src/add_sub.rs:21-35 | `x + y` and `y + x` are the same value of the same type |
| AddSub.AddAssociatesInValue | src/add_sub.rs:25 | `x + (y + z)` and `(x + y) + z` have the same raw integer and shift, with bit counts given by the two nestings of `max` |
| AddSub.AddAssociativityExample | examples/main.rs:16-22 | with `a = 12` at 5 bits and `b = -1` at 1 bit, `a + (b + b)` has 6 bits and `(a + b) + b` has 7, both holding 10 |
| AddSub.SubUndoesAdd | src/add_sub.rs:21-55 | `(x + y) - y` has the raw integer of `x` |
| AddSub.SubAntisymmetric | src/add_sub.rs:40-55 | `x - y` and `y - x` have the same type and opposite raw integers |
| AddSub.NegNeg | src/add_sub.rs:56-67 | negating twice gives back the raw integer with two more bits |
| MulDiv.MulConstBits | src/mul_div.rs:10-21 | `mul_const_bits(v)` is 0 for `v == 0`, and otherwise adds between 0 and `T::BITS` bits to `BITS` |
| MulDiv.MulConstBitsIsBitLength | src/mul_div.rs:9-21 | `mul_const_bits(v)` is 0 for `v == 0`, `BITS + bitlength(v - 1)` (that is, `BITS + ceil(log2 v)`) for `v > 0`, and `BITS + bitlength(-v)` for `v < 0`, including `v == T::MIN` where `wrapping_sub` wraps |
| MulDiv.NegativeMinBits | src/mul_div.rs:14-16 | at `v == T::MIN`, `v.wrapping_sub(1)` is `T::MAX`, which has no leading one |
| MulDiv.DivConstBits | src/mul_div.rs:26-37 | `div_const_bits(v)`, for a nonzero `v` whose `u32` subtraction does not underflow, is at most `BITS + 1`, and is `BITS + 1` exactly for `v == -1` |
| MulDiv.DivisorBitsIsBitLength | src/mul_div.rs:25-37 | the bits `div_const_bits` subtracts are the bit length of `v`, or of `-v - 1` for a negative `v` |
| MulDiv.MulConstInRange | src/mul_div.rs:22-24 | every product of a valid value and `v` lies in the `mul_const_bits(v)`-bit range |
| MulDiv.MulConst | src/mul_div.rs:22-24 | `mul_const::<V>` never wraps: the raw result is `raw * V`, valid at `mul_const_bits(V)` bits, and the logical value is scaled by `V` |
| MulDiv.MulConstExample | tests/mul_div.rs:25-32 | a 4-bit value 4 times 4 is 16 at 6 bits, and times 5 is 20 at 7 bits |
| MulDiv.DivConstInRange | src/mul_div.rs:26-40 | every truncated quotient of a valid value by `v` lies in the `div_const_bits(v)`-bit range, including `MIN / -1` |
| MulDiv.DivConst | src/mul_div.rs:38-40 | `div_const::<V>` gives the raw quotient truncated toward zero, valid at `div_const_bits(V)` bits |
| MulDiv.DivConstUndoesMulConst | src/mul_div.rs:22-40 | `div_const::<V>` after `mul_const::<V>` gives back the raw integer |
| MulDiv.ProductInRange | src/mul_div.rs:42-52 | every product of two valid values lies in the `B0 + B1`-bit range, for all four sign combinations, including `MIN * MIN` |
| MulDiv.Mul | src/mul_div.rs:42-52 | same-type `*`: `B0 + B1` bits, shift `S0 + S1`; the raw result is the product, valid, with the exact product as logical value |
| MulDiv.MulSignedUnsigned | src/mul_div.rs:85-97 | signed times unsigned: signed `B0 + B1` bits; the `as` cast of the unsigned raw integer never changes the product, which is valid with the exact logical product |
| MulDiv.MulUnsignedSigned | src/mul_div.rs:98-110 | unsigned times signed: the same, with the cast on the left operand |
| MulDiv.CastOperand | src/mul_div.rs:92-108 | the cast of the unsigned operand keeps the product: either it keeps the operand, or the operand uses every bit and the signed one has none |
| MulDiv.MulCommutes | src/mul_div.rs:42-110 | swapping the operands gives the same result type and raw integer, for same-type and mixed products |
| MulDiv.Div | src/mul_div.rs:53-66 | same-type `/` with a nonzero divisor: `B0 + SIGNED` bits, shift `S0 - S1`; the raw result is the truncated quotient, valid (also for `MIN / -1`) and no larger than the dividend |
| MulDiv.QuotientInWiderRange | src/mul_div.rs:59-62 | a truncated quotient of a `B0`-bit value fits `B0` bits when unsigned and `B0 + 1` bits when signed |
| MulDiv.DivUndoesMul | src/mul_div.rs:42-66 | `(x * y) / y` has the raw integer and shift of `x` |
| MulDiv.DivSignedUnsignedAsWritten | src/mul_div.rs:111-122 | signed / unsigned as written, with the divisor cast to the signed type: it panics (`None`) exactly for `T::MIN` divided by `2^W - 1`; otherwise the quotient is an integer of `T`, equal to `DivSignedUnsigned` when the cast keeps the divisor and to the quotient by `divisor - 2^W` when it does not |
| MulDiv.QuotientOverflows | src/mul_div.rs:119 | Rust's `/` between two integers of a signed type leaves the type exactly for `T::MIN / -1` |
| MulDiv.CastDivisor | src/mul_div.rs:119 | the cast of a nonzero unsigned divisor keeps it or subtracts `2^W`, and never gives zero |
| MulDiv.DivSignedUnsignedCastFlipsSign | src/mul_div.rs:111-122 | `FpI8<4, 0>` holding -8 divided by `FpU8<8, 0>` holding 255 gives 8 as written, outside the 4-bit range |
| MulDiv.DivSignedUnsignedFullWidthPanics | src/mul_div.rs:111-122 | for every signed raw type, a full-width dividend holding `T::MIN` divided by the unsigned `2^W - 1` panics as written, while the quotient by the divisor's value is 0 |
| MulDiv.DivSignedUnsigned | src/mul_div.rs:111-122 | signed / unsigned by the divisor's value: `B0` bits, shift `S0 - S1`; the quotient lies between zero and the dividend, so it is always valid |
| MulDiv.DivUnsignedSigned | src/mul_div.rs:123-135 | unsigned / signed: the cast of the dividend keeps it; the result is signed, `B0 + 1` bits, the truncated quotient, valid, and no larger in magnitude than the dividend |

## Left out

- Floating point: `from_f32`, `from_f64`, their unchecked forms, `into_f32` and `into_f64` are
  not modelled. They rely on `powi`, float multiplication and saturating float casts.
- The twelve macro copies of each impl are one generic model. `isize` and `usize` are covered
  by the widths 16, 32 and 64.
- The derived `Ord`/`Eq` of the fixed-point structs is not modelled. It orders values by raw
  integer.
- Panics are preconditions, not a modelled behaviour:
  - a debug build's overflow check;
  - the `assert!`s of `from_fp`;
  - division by zero in `/`;
  - the `div_const_bits(0)` panic.

  Apart from the cases named in the next item and under "## Findings", the model proves that
  the overflow cases cannot arise. It does not model what a debug build would do if they did.
- Lib.RawShl: for a 0-bit value, `raw_shl::<{ T::BITS }>` shifts by the full width
  (src/lib.rs:206). A build with overflow checks panics there. The model gives the masked result,
  0, which is also the intended one, and its contract marks this as the only case where the
  amount reaches the width.
- Generic const bounds that only require an expression to be computable are not modelled
  separately. They become `TypeOk` of the result type, a bound on `BITS`, or `I32` of a shift.
- `unsafe` constructors (`new_unchecked`, `set_bits_unchecked`, `into_unsigned_unchecked`) are
  modelled only with their safety precondition. Behaviour on a violated precondition is not
  modelled.
- MulDiv.DivConst: the logical value of the quotient is stated only through the raw integer,
  which is `raw / V` truncated at the same shift.
- MulDiv.Div: the logical value is stated only through the raw integer. The shift
  `S0 - S1` is part of the result type.
- The `Fp` trait and the `Num` trait named in `src/mul_div.rs` are treated as the same trait,
  and `I8`, `U8`, … as the `FpI8`, `FpU8`, … types.

## Findings

| source | as written | input that shows it | evidently intended | confidence | as-written member | corrected member |
|---|---|---|---|---|---|---|
| src/lib.rs:208-216 | `raw_shr::<N>` accepts `N == BITS` for a signed type, giving a 0-bit type whose only value is 0, while `>>` of a negative raw integer gives -1 | `FpI32<4, 0>` holding -1, `raw_shr::<4>()` gives raw -1 in `FpI32<0, -4>` | for a signed type, `N < BITS` whenever `BITS > 0`, so the sign bit remains | not executed | Lib.RawShrAsWrittenSignedFullShift | Lib.RawShr |
| src/lib.rs:208-216 | `raw_shr::<N>` accepts `N == BITS == T::BITS`, where `>>` by the full width overflows; without overflow checks the amount is masked to 0 and the raw integer is unchanged | `FpU8<8, 0>` holding 255, `raw_shr::<8>()` gives raw 255 in the 0-bit type `FpU8<0, -8>` | the result is floor division by `2^N`, here 0 | not executed | Lib.RawShrAsWrittenFullWidth | Lib.RawShr |
| src/mul_div.rs:111-122 | signed / unsigned casts the divisor with `as` to the signed type, so an unsigned divisor of `2^(W-1)` or more becomes negative and the quotient changes sign, which can leave the `B0`-bit range | `FpI8<4, 0>` holding -8 divided by `FpU8<8, 0>` holding 255: the divisor becomes -1 and the quotient 8 is outside `[-8, 7]` | divide by the divisor's value: the quotient is 0 | not executed | MulDiv.DivSignedUnsignedCastFlipsSign | MulDiv.DivSignedUnsigned |
| src/mul_div.rs:111-122 | with the divisor cast to the signed type, a full-width dividend holding `T::MIN` divided by the unsigned `2^W - 1` becomes `T::MIN / -1`, which panics with a division overflow in every build | `FpI8<8, 0>` holding -128 divided by `FpU8<8, 0>` holding 255: `-128i8 / -1i8` panics | divide by the divisor's value: the quotient is 0 | not executed | MulDiv.DivSignedUnsignedFullWidthPanics | MulDiv.DivSignedUnsigned |
