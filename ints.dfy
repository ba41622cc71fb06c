/**
 * The Rust primitive integer types that hold a fixed-point value's raw
 * integer, and the primitive operations the crate applies to them:
 * wrapping arithmetic and `as` casts, the shift operators, `leading_zeros`,
 * `leading_ones` and `try_into`.
 */
module Ints {
  import opened Wrappers
  import opened Arith

  /**
   * One of `i8 u8 i16 u16 i32 u32 i64 u64 i128 u128 isize usize`.
   * `isize` and `usize` have the target's pointer width, which is 16, 32 or 64.
   */
  datatype IntType = IntType(width: nat, signed: bool)

  predicate WidthOk(w: nat) {
    w == 8 || w == 16 || w == 32 || w == 64 || w == 128
  }

  /** The signed type of the same width: the `$Iname` paired with each `$Name` in the macros. */
  function SignedOf(c: IntType): IntType {
    IntType(c.width, true)
  }

  /** The unsigned type of the same width. */
  function UnsignedOf(c: IntType): IntType {
    IntType(c.width, false)
  }

  /** `T::MIN` */
  function Min(c: IntType): int
    requires WidthOk(c.width)
  {
    if c.signed then -(Pow2(c.width - 1) as int) else 0
  }

  /** `T::MAX` */
  function Max(c: IntType): int
    requires WidthOk(c.width)
  {
    if c.signed then Pow2(c.width - 1) - 1 else Pow2(c.width) - 1
  }

  predicate Contains(c: IntType, x: int)
    requires WidthOk(c.width)
  {
    Min(c) <= x <= Max(c)
  }

  /** The container holds exactly `2^W` consecutive integers. */
  lemma {:induction false} ContainerSize(c: IntType)
    requires WidthOk(c.width)
    ensures Max(c) - Min(c) + 1 == Pow2(c.width)
  {
  }

  /**
   * The value a wrapping operation (`wrapping_add`, `wrapping_sub`, an
   * overflowing `*` or `<<` in a build without overflow checks) or an `as`
   * cast between types of the same width leaves in `c`: the unique value of
   * `c` congruent to `x` modulo `2^W`.
   */
  function Wrap(c: IntType, x: int): (r: int)
    requires WidthOk(c.width)
    ensures Contains(c, r)
    ensures Contains(c, x) ==> r == x
  {
    WrapResidue(c, x);
    Min(c) + (x - Min(c)) % Pow2(c.width)
  }

  lemma {:induction false} WrapResidue(c: IntType, x: int)
    requires WidthOk(c.width)
    ensures var r := Min(c) + (x - Min(c)) % Pow2(c.width);
      && Contains(c, r)
      && (Contains(c, x) ==> r == x)
      && (x - r) % Pow2(c.width) == 0
  {
    ContainerSize(c);
    ModWindow(x, Min(c), Pow2(c.width));
  }

  /** Reducing `x` into the window `[lo, lo + m)` by a multiple of `m`. */
  lemma {:induction false} ModWindow(x: int, lo: int, m: int)
    requires m > 0
    ensures var r := lo + (x - lo) % m;
      && lo <= r < lo + m
      && (lo <= x < lo + m ==> r == x)
      && (x - r) % m == 0
  {
    var q := (x - lo) / m;
    var r := lo + (x - lo) % m;
    assert x - lo == q * m + (x - lo) % m;
    assert x - r == q * m;
    DivModUnique(x - r, m, q, 0);
    if lo <= x < lo + m {
      DivModUnique(x - lo, m, 0, x - lo);
    }
  }

  /** Wrapping is determined by the residue: adding a multiple of `2^W` does not change it. */
  lemma {:induction false} WrapUnique(c: IntType, x: int, k: int)
    requires WidthOk(c.width)
    requires Contains(c, x + k * Pow2(c.width))
    ensures Wrap(c, x) == x + k * Pow2(c.width)
  {
    ContainerSize(c);
    ModShift(x, Min(c), Pow2(c.width), k);
  }

  lemma {:induction false} ModShift(x: int, lo: int, m: int, k: int)
    requires m > 0 && lo <= x + k * m < lo + m
    ensures lo + (x - lo) % m == x + k * m
  {
    var y := x + k * m;
    assert x - lo == (-k) * m + (y - lo);
    DivModUnique(x - lo, m, -k, y - lo);
  }

  /**
   * Wrapping into `c` and then casting with `as` to `d` of the same width
   * gives back any `x` that `d` holds: the two steps only ever add
   * multiples of `2^W`.
   */
  lemma {:induction false} WrapCast(c: IntType, d: IntType, x: int)
    requires WidthOk(c.width) && d.width == c.width && Contains(d, x)
    ensures Wrap(d, Wrap(c, x)) == x
  {
    var q := (x - Min(c)) / Pow2(c.width);
    WrapOffset(c, x);
    WrapUnique(d, Wrap(c, x), q);
  }

  /** Wrapping subtracts an explicit multiple of `2^W`. */
  lemma {:induction false} WrapOffset(c: IntType, x: int)
    requires WidthOk(c.width)
    ensures Wrap(c, x) == x - ((x - Min(c)) / Pow2(c.width)) * Pow2(c.width)
  {
    ModOffset(x, Min(c), Pow2(c.width));
  }

  lemma {:induction false} ModOffset(x: int, lo: int, m: int)
    requires m > 0
    ensures lo + (x - lo) % m == x - ((x - lo) / m) * m
  {
    assert x - lo == ((x - lo) / m) * m + (x - lo) % m;
  }

  /** `x >> n` for an amount below the width: arithmetic (floor) shift for signed, logical for unsigned. */
  function Shr(c: IntType, x: int, n: nat): (r: int)
    requires n < c.width
    ensures r * Pow2(n) <= x < (r + 1) * Pow2(n)
    ensures x >= 0 ==> 0 <= r <= x
    ensures x < 0 ==> x <= r < 0
  {
    FloorDivShrinks(x, Pow2(n), x / Pow2(n));
    x / Pow2(n)
  }

  /**
   * `x >> n` in a build without overflow checks: the amount is reduced
   * modulo the width before shifting (a build with overflow checks panics
   * instead when `n >= W`).
   */
  function ShrMasked(c: IntType, x: int, n: nat): (r: int)
    requires WidthOk(c.width)
    ensures n % c.width == 0 ==> r == x
  {
    Shr(c, x, n % c.width)
  }

  /** An amount below the width is not changed by the masking. */
  lemma {:induction false} ShrMaskedSmall(c: IntType, x: int, n: nat)
    requires WidthOk(c.width)
    ensures n < c.width ==> ShrMasked(c, x, n) == Shr(c, x, n)
  {
    if n < c.width {
      DivModUnique(n, c.width, 0, n);
    }
  }

  /** `x << n` in a build without overflow checks: the amount is reduced modulo the width and high bits are dropped. */
  function ShlMasked(c: IntType, x: int, n: nat): (r: int)
    requires WidthOk(c.width)
    ensures Contains(c, r)
    ensures n % c.width == 0 && Contains(c, x) ==> r == x
  {
    Wrap(c, x * Pow2(n % c.width))
  }

  /** An amount below the width is not changed by the masking; shifting zero always gives zero. */
  lemma {:induction false} ShlMaskedSmall(c: IntType, x: int, n: nat)
    requires WidthOk(c.width)
    ensures n < c.width ==> ShlMasked(c, x, n) == Wrap(c, x * Pow2(n))
    ensures x == 0 ==> ShlMasked(c, x, n) == 0
  {
    if n < c.width {
      DivModUnique(n, c.width, 0, n);
    }
  }

  /** `try_into` between primitive types: `None` when the value does not fit. */
  function TryFrom(c: IntType, x: int): (r: Option<int>)
    requires WidthOk(c.width)
    ensures r.Some? <==> Contains(c, x)
    ensures r.Some? ==> r.value == x
  {
    if Contains(c, x) then Some(x) else None
  }

  /** The two's-complement bit pattern of `x` in `c`, read as an unsigned number. */
  function Bits(c: IntType, x: int): (u: nat)
    requires WidthOk(c.width) && Contains(c, x)
    ensures u < Pow2(c.width)
    ensures x >= 0 ==> u == x
    ensures x < 0 ==> u == x + Pow2(c.width)
  {
    if x < 0 then x + Pow2(c.width) else x
  }

  /**
   * The number of leading zero bits of a `w`-bit pattern `u`. The pattern
   * then lies below `2^(w-r)`, and its top remaining bit is set.
   */
  function LeadingZerosIn(w: nat, u: nat): (r: nat)
    requires u < Pow2(w)
    ensures r <= w
    ensures u < Pow2(w - r)
    ensures r < w ==> Pow2(w - r - 1) <= u
  {
    if w == 0 then 0
    else if u >= Pow2(w - 1) then 0
    else 1 + LeadingZerosIn(w - 1, u)
  }

  /**
   * The number of leading one bits of a `w`-bit pattern `u`. The pattern
   * then lies at or above `2^w - 2^(w-r)`, and the next bit is clear.
   */
  function LeadingOnesIn(w: nat, u: nat): (r: nat)
    requires u < Pow2(w)
    ensures r <= w
    ensures Pow2(w) - Pow2(w - r) <= u
    ensures r < w ==> u < Pow2(w) - Pow2(w - r - 1)
  {
    if w == 0 then 0
    else if u >= Pow2(w - 1) then 1 + LeadingOnesIn(w - 1, u - Pow2(w - 1))
    else 0
  }

  /** `x.leading_zeros()` */
  function LeadingZeros(c: IntType, x: int): (r: nat)
    requires WidthOk(c.width) && Contains(c, x)
    ensures r <= c.width
    ensures r == c.width <==> x == 0
    ensures x < 0 ==> r == 0
  {
    LeadingZerosIn(c.width, Bits(c, x))
  }

  /** `x.leading_ones()` */
  function LeadingOnes(c: IntType, x: int): (r: nat)
    requires WidthOk(c.width) && Contains(c, x)
    ensures r <= c.width
    ensures r == c.width <==> x == (if c.signed then -1 else Max(c))
    ensures c.signed && x >= 0 ==> r == 0
  {
    LeadingOnesIn(c.width, Bits(c, x))
  }

  /** For a non-negative value, `W - leading_zeros` is its bit length. */
  lemma {:induction false} LeadingZerosBitLength(c: IntType, x: int)
    requires WidthOk(c.width) && Contains(c, x) && x >= 0
    ensures LeadingZeros(c, x) <= c.width
    ensures c.width - LeadingZeros(c, x) == BitLength(x)
  {
    LeadingZerosPattern(c, x);
    LeadingZerosComplement(c.width, x);
  }

  lemma {:induction false} LeadingZerosPattern(c: IntType, x: int)
    requires WidthOk(c.width) && Contains(c, x) && x >= 0
    ensures LeadingZeros(c, x) == LeadingZerosIn(c.width, x)
  {
  }

  /** The leading zeros of a `w`-bit pattern `v` leave its bit length. */
  lemma {:induction false} LeadingZerosComplement(w: nat, v: nat)
    requires v < Pow2(w)
    ensures w - LeadingZerosIn(w, v) == BitLength(v)
  {
    var k := w - LeadingZerosIn(w, v);
    BitLengthUnique(v, k);
  }

  /** For a negative value, `W - leading_ones` is the bit length of its complement `-x - 1`. */
  lemma {:induction false} LeadingOnesBitLength(c: IntType, x: int)
    requires WidthOk(c.width) && Contains(c, x) && x < 0
    ensures LeadingOnes(c, x) <= c.width
    ensures c.width - LeadingOnes(c, x) == BitLength(-x - 1)
  {
    LeadingOnesBitLengthAt(c, x, -x - 1);
  }

  /** The same, with the complement named by the caller. */
  lemma {:induction false} LeadingOnesBitLengthAt(c: IntType, x: int, n: nat)
    requires WidthOk(c.width) && Contains(c, x) && x < 0 && n == -x - 1
    ensures c.width - LeadingOnes(c, x) == BitLength(n)
  {
    LeadingOnesPattern(c, x);
    LeadingOnesComplement(c.width, x, n);
  }

  lemma {:induction false} LeadingOnesPattern(c: IntType, x: int)
    requires WidthOk(c.width) && Contains(c, x) && x < 0
    ensures LeadingOnes(c, x) == LeadingOnesIn(c.width, x + Pow2(c.width))
  {
    assert Bits(c, x) == x + Pow2(c.width);
  }

  /** The leading ones of the pattern of a negative `x` are the leading zeros of its complement `-x - 1`. */
  lemma {:induction false} LeadingOnesComplement(w: nat, x: int, n: nat)
    requires -(Pow2(w) as int) <= x < 0 && n == -x - 1
    ensures w - LeadingOnesIn(w, x + Pow2(w)) == BitLength(n)
  {
    var u := x + Pow2(w);
    var r := LeadingOnesIn(w, u);
    var k := w - r;
    assert n < Pow2(k);
    if r < w {
      assert Pow2(k - 1) <= n;
    }
    BitLengthUnique(n, k);
  }
}
