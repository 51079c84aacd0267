/** The kind registry: the element kinds a container may hold, the range of
    each storage type, and the per-kind scalar arithmetic every container
    operation funnels through (the twelve-way `switch` of every Go method).

    A cell is stored as an `int`.  For the ten integer kinds that int is the
    value itself, always inside the kind's range; Go's fixed-width arithmetic
    wraps modulo 2^width, and the model writes that wrap out.  For Float32 and
    Float64 the int is the IEEE 754 bit pattern.  Floating-point arithmetic
    is not modelled: it is a parameter (`FloatUnit`), whose results are only
    known to be bit patterns of the right width.  Floating-point equality is
    modelled exactly on the bit patterns (NaN is unequal to everything,
    +0 equals -0). */
module Scalars {

  /** reflect.Kind, restricted to what the containers distinguish.  The twelve
      element kinds, the two complex kinds the older matrix snapshot accepts,
      and every other reflect kind (Bool, String, Interface, ...). */
  datatype ElementKind =
    | Int | Int8 | Int16 | Int32 | Int64
    | Uint | Uint8 | Uint16 | Uint32 | Uint64
    | Float32 | Float64
    | Complex64 | Complex128
    | OtherKind

  predicate IsSigned(k: ElementKind) {
    k.Int? || k.Int8? || k.Int16? || k.Int32? || k.Int64?
  }

  predicate IsUnsigned(k: ElementKind) {
    k.Uint? || k.Uint8? || k.Uint16? || k.Uint32? || k.Uint64?
  }

  predicate IsInteger(k: ElementKind) { IsSigned(k) || IsUnsigned(k) }

  predicate IsFloat(k: ElementKind) { k.Float32? || k.Float64? }

  /** The kinds genericZeroVector and genericZeroMatrix can allocate. */
  predicate IsElementKind(k: ElementKind) { IsInteger(k) || IsFloat(k) }

  /** 2^width of the kind's storage type (`int` and `uint` are 64 bits). */
  function Modulus(k: ElementKind): nat {
    match k
    case Int8 | Uint8 => 0x100
    case Int16 | Uint16 => 0x1_0000
    case Int32 | Uint32 | Float32 => 0x1_0000_0000
    case Int | Int64 | Uint | Uint64 | Float64 | Complex64 => 0x1_0000_0000_0000_0000
    case Complex128 => 0x1_0000_0000_0000_0000_0000_0000_0000_0000
    case OtherKind => 1
  }

  /** The values of the kind's storage type. */
  predicate InRange(k: ElementKind, x: int) {
    if IsSigned(k) then -(Modulus(k) / 2) <= x < Modulus(k) / 2
    else if k.OtherKind? then true
    else 0 <= x < Modulus(k)
  }

  /** A Go value together with its dynamic kind, as `interface{}` carries it. */
  datatype Scalar = Scalar(kind: ElementKind, raw: int)

  /** A scalar whose raw value is a value of its kind's storage type. */
  type Value = s: Scalar | InRange(s.kind, s.raw) witness Scalar(Int, 0)

  /** Reduction modulo m into [0, m), or into [-m/2, m/2) when signed. */
  function WrapBy(x: int, m: nat, signed: bool): int
    requires m > 0
  {
    if signed then (x + m / 2) % m - m / 2 else x % m
  }

  /** Go's fixed-width two's-complement wrap-around for integer kinds.  The
      case split comes first, so that each width is a literal. */
  function Wrap(k: ElementKind, x: int): (r: int)
    requires IsInteger(k)
    ensures InRange(k, r)
  {
    match k
    case Int8 => WrapBy(x, 0x100, true)
    case Int16 => WrapBy(x, 0x1_0000, true)
    case Int32 => WrapBy(x, 0x1_0000_0000, true)
    case Int | Int64 => WrapBy(x, 0x1_0000_0000_0000_0000, true)
    case Uint8 => WrapBy(x, 0x100, false)
    case Uint16 => WrapBy(x, 0x1_0000, false)
    case Uint32 => WrapBy(x, 0x1_0000_0000, false)
    case Uint | Uint64 => WrapBy(x, 0x1_0000_0000_0000_0000, false)
  }

  lemma WrapIsWrapBy(k: ElementKind, x: int)
    requires IsInteger(k)
    ensures Wrap(k, x) == WrapBy(x, Modulus(k), IsSigned(k))
  {
  }

  lemma WrapIdentity(k: ElementKind, x: int)
    requires IsInteger(k) && InRange(k, x)
    ensures Wrap(k, x) == x
  {
  }

  // ---------------------------------------------------------------------
  // Go `int` (64 bits) arithmetic, used for lengths and index computations.

  const MinInt64: int := -0x8000_0000_0000_0000
  const MaxInt64: int := 0x7FFF_FFFF_FFFF_FFFF
  const MaxInt32: int := 0x7FFF_FFFF

  /** A value of Go's `int`. */
  type GoInt = x: int | MinInt64 <= x <= MaxInt64

  /** The product a*b, written as repeated addition so that the size and
      index computations stay linear until TimesIsProduct is called. */
  function Times(a: int, b: int): int
    decreases Abs(b)
  {
    if b == 0 then 0 else if b > 0 then Times(a, b - 1) + a else Times(a, b + 1) - a
  }

  lemma {:induction false} TimesIsProduct(a: int, b: int)
    ensures Times(a, b) == a * b
    decreases Abs(b)
  {
    if b > 0 {
      TimesIsProduct(a, b - 1);
      assert a * (b - 1) + a == a * b;
    } else if b < 0 {
      TimesIsProduct(a, b + 1);
      assert a * (b + 1) - a == a * b;
    }
  }

  function GoMul(a: GoInt, b: GoInt): GoInt { Wrap(Int, Times(a, b)) }

  function GoAdd(a: GoInt, b: GoInt): GoInt { Wrap(Int, a + b) }

  lemma GoMulExact(a: GoInt, b: GoInt)
    requires MinInt64 <= a * b <= MaxInt64
    ensures GoMul(a, b) == a * b
  {
    TimesIsProduct(a, b);
    WrapIdentity(Int, a * b);
  }

  lemma GoAddExact(a: GoInt, b: GoInt)
    requires MinInt64 <= a + b <= MaxInt64
    ensures GoAdd(a, b) == a + b
  {
    WrapIdentity(Int, a + b);
  }

  // ---------------------------------------------------------------------
  // Per-kind constants.

  /** The zero value of every numeric storage type (for floats: +0.0). */
  function Zero(k: ElementKind): (r: int)
    ensures InRange(k, r)
  {
    0
  }

  /** The `1` of genericUnitMatrix: 1 for integers, the bit pattern of 1.0 for floats. */
  function One(k: ElementKind): (r: int)
    requires IsElementKind(k)
    ensures InRange(k, r)
  {
    match k
    case Float32 => 0x3F80_0000
    case Float64 => 0x3FF0_0000_0000_0000
    case _ => 1
  }

  // ---------------------------------------------------------------------
  // IEEE 754 classification on bit patterns.

  /** Number of fraction bits, as a power of two. */
  function FractionUnit(k: ElementKind): nat
    requires IsFloat(k)
  {
    if k.Float32? then 0x80_0000 else 0x10_0000_0000_0000
  }

  /** Number of exponent values, 2^exponent-width. */
  function ExponentRange(k: ElementKind): nat
    requires IsFloat(k)
  {
    if k.Float32? then 0x100 else 0x800
  }

  predicate IsNaN(k: ElementKind, x: int)
    requires IsFloat(k)
  {
    (x / FractionUnit(k)) % ExponentRange(k) == ExponentRange(k) - 1 && x % FractionUnit(k) != 0
  }

  /** +0.0 or -0.0: every bit but the sign bit is clear. */
  predicate IsFloatZero(k: ElementKind, x: int)
    requires IsFloat(k)
  {
    x % (Modulus(k) / 2) == 0
  }

  /** The sign bit is set. */
  predicate IsNegative(k: ElementKind, x: int)
    requires IsFloat(k)
  {
    x % Modulus(k) >= Modulus(k) / 2
  }

  /** Go's `==` on cells of kind k: value equality for integers, IEEE
      equality for floats. */
  predicate Eq(k: ElementKind, a: int, b: int)
    requires IsElementKind(k)
  {
    if IsFloat(k) then
      !IsNaN(k, a) && !IsNaN(k, b) && (a == b || (IsFloatZero(k, a) && IsFloatZero(k, b)))
    else
      a == b
  }

  /** Go's `x <= 0.0` on floats: false whenever x is NaN. */
  predicate FloatAtMostZero(k: ElementKind, x: int)
    requires IsFloat(k)
  {
    !IsNaN(k, x) && (IsFloatZero(k, x) || IsNegative(k, x))
  }

  /** Unary minus on a float flips the sign bit. */
  function FloatNeg(k: ElementKind, x: int): (r: int)
    requires IsFloat(k) && InRange(k, x)
    ensures InRange(k, r)
    ensures IsNegative(k, r) == !IsNegative(k, x)
  {
    (x + Modulus(k) / 2) % Modulus(k)
  }

  // ---------------------------------------------------------------------
  // Arithmetic.

  /** The floating-point unit: IEEE 754 arithmetic on bit patterns, taken as
      given.  The model only relies on its results being reduced to the
      width of the kind. */
  datatype FloatUnit = FloatUnit(
    add: (ElementKind, int, int) -> int,
    sub: (ElementKind, int, int) -> int,
    mul: (ElementKind, int, int) -> int,
    div: (ElementKind, int, int) -> int)

  function FloatResult(k: ElementKind, x: int): (r: int)
    requires IsFloat(k)
    ensures InRange(k, r)
  {
    if k.Float32? then x % 0x1_0000_0000 else x % 0x1_0000_0000_0000_0000
  }

  function Add(k: ElementKind, a: int, b: int, fpu: FloatUnit): (r: int)
    requires IsElementKind(k)
    ensures InRange(k, r)
  {
    if IsInteger(k) then Wrap(k, a + b) else FloatResult(k, fpu.add(k, a, b))
  }

  function Sub(k: ElementKind, a: int, b: int, fpu: FloatUnit): (r: int)
    requires IsElementKind(k)
    ensures InRange(k, r)
  {
    if IsInteger(k) then Wrap(k, a - b) else FloatResult(k, fpu.sub(k, a, b))
  }

  function Mul(k: ElementKind, a: int, b: int, fpu: FloatUnit): (r: int)
    requires IsElementKind(k)
    ensures InRange(k, r)
  {
    if IsInteger(k) then Wrap(k, Times(a, b)) else FloatResult(k, fpu.mul(k, a, b))
  }

  function Abs(x: int): nat { if x < 0 then -x else x }

  /** Go's integer `/`: the quotient truncated toward zero.  The remainder
      `a - q*b` is smaller than the divisor and takes the sign of `a`, the
      identity the Go language specification gives for `/` and `%`. */
  function TruncDiv(a: int, b: int): (q: int)
    requires b != 0
    ensures q != 0 ==> ((q < 0) <==> ((a < 0) != (b < 0)))
    ensures Abs(a - q * b) < Abs(b)
    ensures a - q * b == 0 || ((a - q * b < 0) <==> (a < 0))
  {
    TruncRemainder(a, b);
    var n := Abs(a) / Abs(b);
    if (a < 0) == (b < 0) then n else -n
  }

  /** The remainder of the truncated quotient is the remainder of |a| / |b|,
      with the sign of `a`. */
  lemma TruncRemainder(a: int, b: int)
    requires b != 0
    ensures var n, m := Abs(a) / Abs(b), Abs(a) % Abs(b);
      0 <= n && 0 <= m < Abs(b) &&
      a - (if (a < 0) == (b < 0) then n else -n) * b == (if a < 0 then -m else m)
  {
    var n, m := Abs(a) / Abs(b), Abs(a) % Abs(b);
    assert Abs(a) == n * Abs(b) + m;
    var q := if (a < 0) == (b < 0) then n else -n;
    assert q * b == (if a < 0 then -(n * Abs(b)) else n * Abs(b)) by {
      if b < 0 {
        assert q * b == (-q) * Abs(b);
      } else {
        assert q * b == q * Abs(b);
      }
    }
  }

  /** Go's `/` on cells of kind k.  Integer division by zero panics, so it
      is excluded here; callers report it as `DivideByZero`.  The one integer
      overflow, MinInt / -1, wraps back to MinInt. */
  function Div(k: ElementKind, a: int, b: int, fpu: FloatUnit): (r: int)
    requires IsElementKind(k)
    requires IsInteger(k) ==> b != 0
    ensures InRange(k, r)
  {
    if IsInteger(k) then Wrap(k, TruncDiv(a, b)) else FloatResult(k, fpu.div(k, a, b))
  }

  // ---------------------------------------------------------------------
  // Laws of the integer kinds, used by the container proofs.

  lemma AddZeroLeft(k: ElementKind, x: int, fpu: FloatUnit)
    requires IsInteger(k) && InRange(k, x)
    ensures Add(k, Zero(k), x, fpu) == x
  {
    WrapIdentity(k, x);
  }

  lemma AddZeroRight(k: ElementKind, x: int, fpu: FloatUnit)
    requires IsInteger(k) && InRange(k, x)
    ensures Add(k, x, Zero(k), fpu) == x
  {
    WrapIdentity(k, x);
  }

  lemma MulZero(k: ElementKind, x: int, fpu: FloatUnit)
    requires IsInteger(k)
    ensures Mul(k, Zero(k), x, fpu) == Zero(k) && Mul(k, x, Zero(k), fpu) == Zero(k)
  {
    TimesIsProduct(Zero(k), x);
    TimesIsProduct(x, Zero(k));
    WrapIdentity(k, 0);
  }

  lemma MulOne(k: ElementKind, x: int, fpu: FloatUnit)
    requires IsInteger(k) && InRange(k, x)
    ensures Mul(k, One(k), x, fpu) == x && Mul(k, x, One(k), fpu) == x
  {
    TimesIsProduct(One(k), x);
    TimesIsProduct(x, One(k));
    WrapIdentity(k, x);
  }

  lemma MulCommutes(k: ElementKind, x: int, y: int, fpu: FloatUnit)
    requires IsInteger(k)
    ensures Mul(k, x, y, fpu) == Mul(k, y, x, fpu)
  {
    TimesIsProduct(x, y);
    TimesIsProduct(y, x);
    assert x * y == y * x;
  }

  /** x - x is the zero of every integer kind. */
  lemma SubSelf(k: ElementKind, x: int, fpu: FloatUnit)
    requires IsInteger(k)
    ensures Sub(k, x, x, fpu) == Zero(k)
  {
    WrapIdentity(k, 0);
  }

  /** Euclidean division is unique: a quotient and a remainder in [0, m)
      are the ones `/` and `%` compute. */
  lemma DivModUnique(y: int, m: int, q: int, r: int)
    requires m > 0 && 0 <= r < m && y == m * q + r
    ensures y % m == r && y / m == q
  {
    var d := q - y / m;
    assert m * d == y % m - r;
  }

  /** Reducing by a modulus ignores whole multiples of it. */
  lemma WrapByShift(x: int, m: nat, signed: bool, c: int)
    requires m > 0
    ensures WrapBy(x - m * c, m, signed) == WrapBy(x, m, signed)
  {
    var z := if signed then x + m / 2 else x;
    var q := z / m;
    assert z == m * q + z % m;
    assert m * (q - c) == m * q - m * c;
    DivModUnique(z - m * c, m, q - c, z % m);
  }

  /** Wrapping by the modulus does not depend on whole multiples of it. */
  lemma WrapShift(k: ElementKind, x: int, c: int)
    requires IsInteger(k)
    ensures Wrap(k, x - Modulus(k) * c) == Wrap(k, x)
  {
    WrapByShift(x, Modulus(k), IsSigned(k), c);
    WrapIsWrapBy(k, x);
    WrapIsWrapBy(k, x - Modulus(k) * c);
  }

  /** Subtraction undoes addition in every integer kind, wrap-around included. */
  lemma SubUndoesAdd(k: ElementKind, x: int, y: int, fpu: FloatUnit)
    requires IsInteger(k) && InRange(k, x)
    ensures Sub(k, Add(k, x, y, fpu), y, fpu) == x
  {
    var m := Modulus(k);
    var z := if IsSigned(k) then x + y + m / 2 else x + y;
    var c := z / m;
    WrapIsWrapBy(k, x + y);
    assert Add(k, x, y, fpu) == x + y - m * c;
    WrapIsWrapBy(k, x + y - m * c - y);
    WrapShift(k, x, c);
    WrapIdentity(k, x);
  }

  /** x / 1 is x for every value of an integer kind. */
  lemma DivOne(k: ElementKind, x: int, fpu: FloatUnit)
    requires IsInteger(k) && InRange(k, x)
    ensures Div(k, x, One(k), fpu) == x
  {
    assert TruncDiv(x, 1) == x;
    WrapIdentity(k, x);
  }

  /** Go's one signed-division overflow: MinInt64 / -1 is MinInt64. */
  lemma DivMinByMinusOne(fpu: FloatUnit)
    ensures Div(Int64, MinInt64, -1, fpu) == MinInt64
    ensures Div(Int, MinInt64, -1, fpu) == MinInt64
  {
    assert TruncDiv(MinInt64, -1) == 0x8000_0000_0000_0000;
  }

  /** Division truncates toward zero: -7 / 2 is -3, not -4. */
  lemma DivTruncatesTowardZero(fpu: FloatUnit)
    ensures Div(Int, -7, 2, fpu) == -3
    ensures Div(Int8, 7, -2, fpu) == -3
  {
    assert TruncDiv(-7, 2) == -3;
    assert TruncDiv(7, -2) == -3;
    WrapIdentity(Int, -3);
    WrapIdentity(Int8, -3);
  }

  /** Fixed-width wrap-around of addition, at the boundary of Int8 and Uint8. */
  lemma AddWraps(fpu: FloatUnit)
    ensures Add(Int8, 127, 1, fpu) == -128
    ensures Add(Uint8, 255, 1, fpu) == 0
    ensures Sub(Uint, 0, 1, fpu) == 0xFFFF_FFFF_FFFF_FFFF
  {
  }

  /** Equality of a cell with itself fails exactly on NaN. */
  lemma EqReflexiveExceptNaN(k: ElementKind, x: int)
    requires IsElementKind(k)
    ensures Eq(k, x, x) <==> !(IsFloat(k) && IsNaN(k, x))
  {
  }

  /** +0.0 and -0.0 are equal although their bit patterns differ, and the
      quiet NaN 0x7FC00000 is not equal to itself. */
  lemma FloatEqualityIsNotBitEquality()
    ensures Eq(Float32, 0, 0x8000_0000)
    ensures !Eq(Float32, 0x7FC0_0000, 0x7FC0_0000)
  {
  }
}
