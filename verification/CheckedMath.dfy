/**
 Checked integer arithmetic: portable overflow tests on sign bits and on truncating divisions,
 for the integer types of 32 and 64 bits.
 */
module CheckedMath {

  function Pow2(n: nat): (r: nat)
    ensures r > 0
  {
    if n == 0 then 1 else 2 * Pow2(n - 1)
  }

  /** An integer type at least as wide as `int`. */
  datatype IntType = IntType(bits: nat, signed: bool)

  predicate Supported(t: IntType) {
    t.bits == 32 || t.bits == 64
  }

  function Modulus(t: IntType): (r: int)
    ensures r > 0
  {
    Pow2(t.bits)
  }

  function Min(t: IntType): int
    requires t.bits > 0
  {
    if t.signed then 0 - Pow2(t.bits - 1) else 0
  }

  function Max(t: IntType): int
    requires t.bits > 0
  {
    if t.signed then Pow2(t.bits - 1) - 1 else Pow2(t.bits) - 1
  }

  predicate InRange(t: IntType, v: int)
    requires t.bits > 0
  {
    Min(t) <= v <= Max(t)
  }

  /** The cast to the unsigned type of the same size, and the cast back. */
  function ToUnsigned(t: IntType, v: int): (u: int)
    ensures 0 <= u < Modulus(t)
  {
    v % Modulus(t)
  }

  function FromUnsigned(t: IntType, u: int): int
    requires t.bits > 0
  {
    if t.signed && u >= Pow2(t.bits - 1) then u - Modulus(t) else u
  }

  /** `static_cast<T>(v)`. */
  function Wrap(t: IntType, v: int): int
    requires t.bits > 0
  {
    FromUnsigned(t, ToUnsigned(t, v))
  }

  /** C division, which truncates. */
  function Div(a: int, b: int): int
    requires b != 0
  {
    if a >= 0 then (if b > 0 then a / b else -(a / -b))
    else if b > 0 then -(-a / b)
    else -a / -b
  }

  /** What is left has the sign of the dividend and is smaller than the divisor. */
  predicate Truncates(a: int, b: int, product: int) {
    var r := a - product;
    && (if b > 0 then -b < r < b else b < r < -b)
    && (a >= 0 ==> r >= 0) && (a <= 0 ==> r <= 0)
  }

  lemma SizesTruncate(m: nat, n: nat)
    requires n > 0
    ensures Truncates(m, n, m / n * n)
  {
    assert m == m / n * n + m % n;
  }

  lemma MinusFactor(q: int, n: int)
    ensures -q * n == -(q * n) && -q * -n == q * n && q * -n == -(q * n)
  {
  }

  lemma OtherSignsTruncate(m: int, n: int, product: int)
    requires Truncates(m, n, product) && n > 0
    ensures Truncates(m, -n, product) && Truncates(-m, n, -product) && Truncates(-m, -n, -product)
  {
  }

  /** The quotient goes towards zero. */
  lemma DivTruncates(a: int, b: int)
    requires b != 0
    ensures Truncates(a, b, Div(a, b) * b)
  {
    var m: nat, n: nat := if a < 0 then -a else a, if b < 0 then -b else b;
    var q := m / n;
    assert Div(a, b) == if (a < 0) == (b < 0) then q else -q;
    SizesTruncate(m, n);
    hide Truncates, Div;
    SignsTruncate(a, b, Div(a, b), m, n, q);
  }

  lemma SignsTruncate(a: int, b: int, d: int, m: int, n: int, q: int)
    requires n > 0 && Truncates(m, n, q * n) && (a == m || a == -m) && (b == n || b == -n) && m >= 0
    requires (a == m <==> a >= 0) && d == if (a < 0) == (b < 0) then q else -q
    ensures Truncates(a, b, d * b)
  {
    OtherSignsTruncate(m, n, q * n);
    MinusFactor(q, n);
    hide Truncates;
  }

  // -------------------------------------------------------------- bits

  /** A bitwise operation on `n` bits, the highest one first. */
  function Bitwise(n: nat, a: int, b: int, f: (bool, bool) -> bool): (r: int)
    ensures 0 <= r < Pow2(n)
  {
    if n == 0 then 0
    else
      var h := Pow2(n - 1);
      var p, q := a >= h, b >= h;
      (if f(p, q) then h else 0) + Bitwise(n - 1, if p then a - h else a, if q then b - h else b, f)
  }

  function Xor(n: nat, a: int, b: int): (r: int)
    ensures 0 <= r < Pow2(n)
  {
    Bitwise(n, a, b, (p, q) => p != q)
  }

  function And(n: nat, a: int, b: int): (r: int)
    ensures 0 <= r < Pow2(n)
  {
    Bitwise(n, a, b, (p, q) => p && q)
  }

  /** `BinaryComplement`. */
  function Not(n: nat, a: int): (r: int)
    ensures 0 <= r < Pow2(n)
  {
    Bitwise(n, a, a, (p, _) => !p)
  }

  /** `HasSignBit`: what is left when all bits but one are shifted out. */
  predicate HasSignBit(t: IntType, u: int)
    requires t.bits > 0
  {
    u / Pow2(t.bits - 1) != 0
  }

  // -------------------------------------------------------------- the checked operations

  /** The bits of the constraint: RANGE_VALID has none, RANGE_INVALID both. */
  datatype RangeConstraint = RangeConstraint(underflow: bool, overflow: bool)

  const RANGE_VALID := RangeConstraint(false, false)
  const RANGE_UNDERFLOW := RangeConstraint(true, false)
  const RANGE_OVERFLOW := RangeConstraint(false, true)

  function Or(a: RangeConstraint, b: RangeConstraint): RangeConstraint {
    RangeConstraint(a.underflow || b.underflow, a.overflow || b.overflow)
  }

  /** `DstRangeRelationToSrcRange`: on which side of the type `v` lies. */
  function RangeOf(t: IntType, v: int): RangeConstraint
    requires t.bits > 0
  {
    RangeConstraint(v < Min(t), v > Max(t))
  }

  datatype Checked = Checked(value: int, validity: RangeConstraint)

  function CheckedAdd(t: IntType, x: int, y: int): Checked
    requires t.bits > 0
  {
    var n := t.bits;
    var ux, uy := ToUnsigned(t, x), ToUnsigned(t, y);
    var uresult := ToUnsigned(t, ux + uy);
    Checked(
      FromUnsigned(t, uresult),
      if t.signed then
        if HasSignBit(t, Not(n, And(n, Xor(n, uresult, ux), Xor(n, uresult, uy)))) then RANGE_VALID
        else if HasSignBit(t, uresult) then RANGE_OVERFLOW
        else RANGE_UNDERFLOW
      else if Not(n, x) >= y then RANGE_VALID
      else RANGE_OVERFLOW)
  }

  function CheckedSub(t: IntType, x: int, y: int): Checked
    requires t.bits > 0
  {
    var n := t.bits;
    var ux, uy := ToUnsigned(t, x), ToUnsigned(t, y);
    var uresult := ToUnsigned(t, ux - uy);
    Checked(
      FromUnsigned(t, uresult),
      if t.signed then
        if HasSignBit(t, Not(n, And(n, Xor(n, uresult, ux), Xor(n, ux, uy)))) then RANGE_VALID
        else if HasSignBit(t, uresult) then RANGE_OVERFLOW
        else RANGE_UNDERFLOW
      else if x >= y then RANGE_VALID
      else RANGE_UNDERFLOW)
  }

  /** Where a type of twice the width exists, the product is computed in it. */
  function CheckedMulWide(t: IntType, x: int, y: int): Checked
    requires t.bits > 0
  {
    var tmp := Wrap(IntType(2 * t.bits, t.signed), x * y);
    Checked(Wrap(t, tmp), RangeOf(t, tmp))
  }

  /** Elsewhere, divisions tell whether the product fits. */
  function CheckedMulByDivision(t: IntType, x: int, y: int): Checked
    requires t.bits > 0
  {
    if !t.signed then
      Checked(Wrap(t, x * y), if y == 0 || x <= Div(Max(t), y) then RANGE_VALID else RANGE_OVERFLOW)
    else if x == 0 || y == 0 then
      Checked(0, RANGE_VALID)
    else
      Checked(
        Wrap(t, x * y),
        if x > 0 then
          if y > 0 then (if x <= Div(Max(t), y) then RANGE_VALID else RANGE_OVERFLOW)
          else (if y >= Div(Min(t), x) then RANGE_VALID else RANGE_UNDERFLOW)
        else
          if y > 0 then (if x >= Div(Min(t), y) then RANGE_VALID else RANGE_UNDERFLOW)
          else (if y >= Div(Max(t), x) then RANGE_VALID else RANGE_OVERFLOW))
  }

  function CheckedMul(t: IntType, x: int, y: int): Checked
    requires t.bits > 0
  {
    if 2 * t.bits <= 64 then CheckedMulWide(t, x, y) else CheckedMulByDivision(t, x, y)
  }

  function CheckedNeg(t: IntType, x: int): Checked
    requires t.bits > 0
  {
    if t.signed then Checked(Wrap(t, -x), if x != Min(t) then RANGE_VALID else RANGE_OVERFLOW)
    else Checked(Wrap(t, -Wrap(IntType(t.bits, true), x)), if x != 0 then RANGE_UNDERFLOW else RANGE_VALID)
  }

  function CheckedAbs(t: IntType, x: int): Checked
    requires t.bits > 0
  {
    if t.signed then Checked(Wrap(t, if x < 0 then -x else x), if x != Min(t) then RANGE_VALID else RANGE_OVERFLOW)
    else Checked(x, RANGE_VALID)
  }

  /** What a checked operation should give for a mathematical result: it wrapped, and where it lies. */
  function Exact(t: IntType, v: int): Checked
    requires t.bits > 0
  {
    Checked(Wrap(t, v), RangeOf(t, v))
  }

  // -------------------------------------------------------------- casts

  lemma ModOnce(v: int, m: int)
    requires 0 < m && -m <= v < 2 * m
    ensures v % m == if v < 0 then v + m else if v < m then v else v - m
  {
    var q := v / m;
    assert v == q * m + v % m;
    assert -1 <= q <= 1;
  }

  lemma WrapInRange(t: IntType, v: int)
    requires t.bits > 0 && InRange(t, v)
    ensures Wrap(t, v) == v
    ensures ToUnsigned(t, v) == if v < 0 then v + Modulus(t) else v
  {
    ModOnce(v, Modulus(t));
  }

  lemma HasSignBitIs(t: IntType, u: int)
    requires t.bits > 0 && 0 <= u < Modulus(t)
    ensures HasSignBit(t, u) <==> u >= Pow2(t.bits - 1)
  {
    var h := Pow2(t.bits - 1);
    if u < h {
      assert u / h == 0;
    } else {
      assert u == u / h * h + u % h;
    }
  }

  /** The top bit of a bitwise result is the operation on the top bits. */
  lemma TopBit(n: nat, a: int, b: int, f: (bool, bool) -> bool)
    requires n > 0
    ensures Bitwise(n, a, b, f) >= Pow2(n - 1) <==> f(a >= Pow2(n - 1), b >= Pow2(n - 1))
  {
  }

  lemma {:induction false} NotIsComplement(n: nat, a: int)
    requires 0 <= a < Pow2(n)
    ensures Not(n, a) == Pow2(n) - 1 - a
  {
    if n > 0 {
      var h := Pow2(n - 1);
      NotIsComplement(n - 1, if a >= h then a - h else a);
    }
  }

  /** The sign bit of `~((a ^ b) & (c ^ d))`. */
  lemma SignOfTest(t: IntType, a: int, b: int, c: int, d: int)
    requires t.bits > 0
    ensures HasSignBit(t, Not(t.bits, And(t.bits, Xor(t.bits, a, b), Xor(t.bits, c, d)))) <==>
            var h := Pow2(t.bits - 1);
            !((a >= h) != (b >= h) && (c >= h) != (d >= h))
  {
    var n := t.bits;
    var x, y := Xor(n, a, b), Xor(n, c, d);
    TopBit(n, a, b, (p, q) => p != q);
    TopBit(n, c, d, (p, q) => p != q);
    TopBit(n, x, y, (p, q) => p && q);
    TopBit(n, And(n, x, y), And(n, x, y), (p, _) => !p);
    HasSignBitIs(t, Not(n, And(n, x, y)));
  }

  // -------------------------------------------------------------- each operation is exact

  /** The cast of a value at most one modulus away from the unsigned range. */
  lemma UnsignedOnce(t: IntType, v: int)
    requires -Modulus(t) <= v < 2 * Modulus(t)
    ensures ToUnsigned(t, v) == if v < 0 then v + Modulus(t) else if v < Modulus(t) then v else v - Modulus(t)
  {
    ModOnce(v, Modulus(t));
  }

  lemma Halves(t: IntType)
    requires t.bits > 0
    ensures Modulus(t) == 2 * Pow2(t.bits - 1)
    ensures Min(t) == (if t.signed then -(Modulus(t) / 2) else 0)
    ensures Max(t) == (if t.signed then Modulus(t) / 2 - 1 else Modulus(t) - 1)
  {
  }

  /** Wrapping the operands first makes no difference to the wrapped sum or difference. */
  lemma SumWraps(t: IntType, x: int, y: int)
    requires t.bits > 0 && InRange(t, x) && InRange(t, y)
    ensures ToUnsigned(t, ToUnsigned(t, x) + ToUnsigned(t, y)) == ToUnsigned(t, x + y)
    ensures ToUnsigned(t, ToUnsigned(t, x) - ToUnsigned(t, y)) == ToUnsigned(t, x - y)
  {
    Halves(t);
    UnsignedOnce(t, x);
    UnsignedOnce(t, y);
    UnsignedOnce(t, x + y);
    UnsignedOnce(t, x - y);
    UnsignedOnce(t, ToUnsigned(t, x) + ToUnsigned(t, y));
    UnsignedOnce(t, ToUnsigned(t, x) - ToUnsigned(t, y));
    hide ToUnsigned, Modulus, Min, Max;
  }

  /** The sign bits of a wrapped sum tell whether it left the range, and on which side. */
  lemma SignsOfSum(t: IntType, x: int, y: int)
    requires t.bits > 0 && t.signed && InRange(t, x) && InRange(t, y)
    ensures
      var h := Pow2(t.bits - 1);
      var p, q, r := ToUnsigned(t, x) >= h, ToUnsigned(t, y) >= h, ToUnsigned(t, x + y) >= h;
      && ((r != p && r != q) <==> !InRange(t, x + y))
      && (!InRange(t, x + y) ==> (r <==> x + y > Max(t)))
  {
    Halves(t);
    UnsignedOnce(t, x);
    UnsignedOnce(t, y);
    UnsignedOnce(t, x + y);
    hide ToUnsigned, Modulus, Pow2;
  }

  lemma SignsOfDifference(t: IntType, x: int, y: int)
    requires t.bits > 0 && t.signed && InRange(t, x) && InRange(t, y)
    ensures
      var h := Pow2(t.bits - 1);
      var p, q, r := ToUnsigned(t, x) >= h, ToUnsigned(t, y) >= h, ToUnsigned(t, x - y) >= h;
      && ((r != p && p != q) <==> !InRange(t, x - y))
      && (!InRange(t, x - y) ==> (r <==> x - y > Max(t)))
  {
    Halves(t);
    UnsignedOnce(t, x);
    UnsignedOnce(t, y);
    UnsignedOnce(t, x - y);
    hide ToUnsigned, Modulus, Pow2;
  }

  lemma AddIsExact(t: IntType, x: int, y: int)
    requires t.bits > 0 && InRange(t, x) && InRange(t, y)
    ensures CheckedAdd(t, x, y) == Exact(t, x + y)
  {
    Halves(t);
    SumWraps(t, x, y);
    hide Bitwise, HasSignBit, Not, And, Xor, ToUnsigned, FromUnsigned, Pow2, Modulus;
    if t.signed {
      var u := ToUnsigned(t, x + y);
      SignsOfSum(t, x, y);
      SignOfTest(t, u, ToUnsigned(t, x), u, ToUnsigned(t, y));
      HasSignBitIs(t, u);
      hide Min, Max;
    } else {
      UnsignedComplement(t, x);
    }
  }

  lemma UnsignedComplement(t: IntType, x: int)
    requires t.bits > 0 && !t.signed && InRange(t, x)
    ensures Not(t.bits, x) == Max(t) - x
  {
    NotIsComplement(t.bits, x);
  }

  lemma SubIsExact(t: IntType, x: int, y: int)
    requires t.bits > 0 && InRange(t, x) && InRange(t, y)
    ensures CheckedSub(t, x, y) == Exact(t, x - y)
  {
    Halves(t);
    SumWraps(t, x, y);
    hide Bitwise, HasSignBit, Not, And, Xor, ToUnsigned, FromUnsigned, Pow2, Modulus;
    if t.signed {
      var u := ToUnsigned(t, x - y);
      SignsOfDifference(t, x, y);
      SignOfTest(t, u, ToUnsigned(t, x), ToUnsigned(t, x), ToUnsigned(t, y));
      HasSignBitIs(t, u);
      hide Min, Max;
    }
  }

  lemma {:induction false} Pow2Sum(a: nat, b: nat)
    ensures Pow2(a + b) == Pow2(a) * Pow2(b)
  {
    if a > 0 {
      Pow2Sum(a - 1, b);
    }
  }

  lemma ProductBound(x: int, y: int, b: int)
    requires -b <= x <= b && -b <= y <= b
    ensures -(b * b) <= x * y <= b * b
  {
    var p, q := if x < 0 then -x else x, if y < 0 then -y else y;
    NatProductBound(p, q, b);
    assert x * y == p * q || x * y == -(p * q);
  }

  lemma NatProductBound(p: nat, q: nat, b: int)
    requires p <= b && q <= b
    ensures 0 <= p * q <= b * b
  {
    assert p * q <= b * q && b * q <= b * b;
  }

  lemma SquareFits(n: nat)
    requires n > 0
    ensures Pow2(2 * n - 1) == 2 * (Pow2(n - 1) * Pow2(n - 1))
    ensures Pow2(2 * n) == Pow2(n) * Pow2(n)
  {
    Pow2Sum(n - 1, n - 1);
    Pow2Sum(n, n);
    assert Pow2(2 * n - 1) == 2 * Pow2(2 * n - 2);
  }

  /** The product of two values fits the type of twice the width. */
  lemma WideHoldsProduct(t: IntType, x: int, y: int)
    requires t.bits > 0 && InRange(t, x) && InRange(t, y)
    ensures InRange(IntType(2 * t.bits, t.signed), x * y)
  {
    SquareFits(t.bits);
    hide Pow2;
    if t.signed {
      ProductBound(x, y, Pow2(t.bits - 1));
      SquareIsPositive(Pow2(t.bits - 1));
    } else {
      NatProductBound(x, y, Pow2(t.bits) - 1);
      SmallerSquare(Pow2(t.bits));
    }
  }

  lemma SquareIsPositive(h: int)
    requires h > 0
    ensures h * h > 0
  {
  }

  lemma SmallerSquare(m: int)
    requires m > 0
    ensures (m - 1) * (m - 1) <= m * m - 1
  {
    assert (m - 1) * (m - 1) == m * m - 2 * m + 1;
  }

  lemma MulWideIsExact(t: IntType, x: int, y: int)
    requires t.bits > 0 && InRange(t, x) && InRange(t, y)
    ensures CheckedMulWide(t, x, y) == Exact(t, x * y)
  {
    WideHoldsProduct(t, x, y);
    WrapInRange(IntType(2 * t.bits, t.signed), x * y);
  }

  lemma TimesMonotone(a: int, b: int, c: nat)
    requires a <= b
    ensures a * c <= b * c
  {
  }

  /** The one fact about division the four quadrants rest on. */
  lemma FitsByDivision(a: nat, b: int, m: nat)
    requires b > 0
    ensures a <= m / b <==> a * b <= m
  {
    var q := m / b;
    assert m == q * b + m % b;
    if a <= q {
      TimesMonotone(a, q, b);
    } else {
      TimesMonotone(q + 1, a, b);
    }
  }

  lemma BothPositive(x: int, y: int, max: nat)
    requires x > 0 && y > 0
    ensures x <= Div(max, y) <==> x * y <= max
    ensures x * y > 0
  {
    FitsByDivision(x, y, max);
  }

  lemma OnlyLeftPositive(x: int, y: int, min: int)
    requires x > 0 && y < 0 && min <= 0
    ensures y >= Div(min, x) <==> x * y >= min
    ensures x * y < 0
  {
    FitsByDivision(-y, x, -min);
    assert x * y == -(-y * x);
  }

  lemma BothNegative(x: int, y: int, max: nat)
    requires x < 0 && y < 0
    ensures y >= Div(max, x) <==> x * y <= max
    ensures x * y > 0
  {
    FitsByDivision(-y, -x, max);
    assert x * y == -y * -x;
  }

  lemma UnsignedMulByDivision(t: IntType, x: int, y: int)
    requires t.bits > 0 && !t.signed && InRange(t, x) && InRange(t, y)
    ensures CheckedMulByDivision(t, x, y) == Exact(t, x * y)
  {
    hide Wrap;
    if y > 0 {
      FitsByDivision(x, y, Max(t));
    }
    assert x * y >= 0;
  }

  lemma MulByDivisionIsExact(t: IntType, x: int, y: int)
    requires t.bits > 0 && InRange(t, x) && InRange(t, y)
    ensures CheckedMulByDivision(t, x, y) == Exact(t, x * y)
  {
    hide Div, Wrap;
    assert Min(t) <= 0 <= Max(t);
    if !t.signed {
      UnsignedMulByDivision(t, x, y);
    } else if x == 0 || y == 0 {
      assert x * y == 0;
      WrapInRange(t, 0);
    } else if x > 0 && y > 0 {
      BothPositive(x, y, Max(t));
    } else if x > 0 {
      OnlyLeftPositive(x, y, Min(t));
    } else if y > 0 {
      OnlyLeftPositive(y, x, Min(t));
      assert x * y == y * x;
    } else {
      BothNegative(x, y, Max(t));
    }
  }

  lemma MulIsExact(t: IntType, x: int, y: int)
    requires t.bits > 0 && InRange(t, x) && InRange(t, y)
    ensures CheckedMul(t, x, y) == Exact(t, x * y)
  {
    MulWideIsExact(t, x, y);
    MulByDivisionIsExact(t, x, y);
  }

  /** Negation of the signed minimum is the one case off: it overflows, and the value stays. */
  lemma NegIsExact(t: IntType, x: int)
    requires t.bits > 0 && InRange(t, x)
    ensures CheckedNeg(t, x) == Exact(t, -x)
  {
    if !t.signed {
      var s := IntType(t.bits, true);
      ModOnce(x, Modulus(t));
      ModOnce(-x, Modulus(t));
      ModOnce(-Wrap(s, x), Modulus(t));
    }
  }

  lemma AbsIsExact(t: IntType, x: int)
    requires t.bits > 0 && InRange(t, x)
    ensures CheckedAbs(t, x) == Exact(t, if x < 0 then -x else x)
  {
    WrapInRange(t, x);
  }

  // -------------------------------------------------------------- chains

  /** What can be computed with CheckedNumerics of one type. */
  datatype Expr =
    | Value(v: int)
    | Add(left: Expr, right: Expr)
    | Sub(left: Expr, right: Expr)
    | Mul(left: Expr, right: Expr)
    | Neg(arg: Expr)
    | Abs(arg: Expr)

  /** `CheckedNumeric<T>(value, validity)`: the value is cast and checked once more. */
  function Numeric(t: IntType, value: int, validity: RangeConstraint): Checked
    requires t.bits > 0
  {
    Checked(Wrap(t, value), Or(validity, RangeOf(t, value)))
  }

  /** The binary operators of CheckedNumeric, given the checked operation. */
  function Combine(t: IntType, result: Checked, a: RangeConstraint, b: RangeConstraint): Checked
    requires t.bits > 0
  {
    Numeric(t, result.value, Or(Or(result.validity, a), b))
  }

  function Plus(t: IntType, a: Checked, b: Checked): Checked
    requires t.bits > 0
  {
    Combine(t, CheckedAdd(t, a.value, b.value), a.validity, b.validity)
  }

  function Minus(t: IntType, a: Checked, b: Checked): Checked
    requires t.bits > 0
  {
    Combine(t, CheckedSub(t, a.value, b.value), a.validity, b.validity)
  }

  function Times(t: IntType, a: Checked, b: Checked): Checked
    requires t.bits > 0
  {
    Combine(t, CheckedMul(t, a.value, b.value), a.validity, b.validity)
  }

  function Eval(t: IntType, e: Expr): Checked
    requires t.bits > 0
  {
    match e
    case Value(v) => Numeric(t, v, RANGE_VALID)
    case Add(left, right) => Plus(t, Eval(t, left), Eval(t, right))
    case Sub(left, right) => Minus(t, Eval(t, left), Eval(t, right))
    case Mul(left, right) => Times(t, Eval(t, left), Eval(t, right))
    case Neg(arg) =>
      var a := Eval(t, arg);
      Combine(t, CheckedNeg(t, a.value), a.validity, RANGE_VALID)
    case Abs(arg) =>
      var a := Eval(t, arg);
      Combine(t, CheckedAbs(t, a.value), a.validity, RANGE_VALID)
  }

  /** The mathematical value. */
  function Meaning(e: Expr): int {
    match e
    case Value(v) => v
    case Add(left, right) => Meaning(left) + Meaning(right)
    case Sub(left, right) => Meaning(left) - Meaning(right)
    case Mul(left, right) => Meaning(left) * Meaning(right)
    case Neg(arg) => -Meaning(arg)
    case Abs(arg) => if Meaning(arg) < 0 then -Meaning(arg) else Meaning(arg)
  }

  /** Every intermediate mathematical value is in range. */
  predicate AllInRange(t: IntType, e: Expr)
    requires t.bits > 0
  {
    && InRange(t, Meaning(e))
    && match e
       case Value(_) => true
       case Add(left, right) => AllInRange(t, left) && AllInRange(t, right)
       case Sub(left, right) => AllInRange(t, left) && AllInRange(t, right)
       case Mul(left, right) => AllInRange(t, left) && AllInRange(t, right)
       case Neg(arg) => AllInRange(t, arg)
       case Abs(arg) => AllInRange(t, arg)
  }

  lemma WrapIsInRange(t: IntType, v: int)
    requires t.bits > 0
    ensures InRange(t, Wrap(t, v))
  {
  }

  /**
   Wrapped operands give a wrapped result: one operation is valid exactly if its operands were and
   its own result is in range.
   */
  lemma CombineIsExact(t: IntType, v: int, a: RangeConstraint, b: RangeConstraint)
    requires t.bits > 0
    ensures Combine(t, Exact(t, v), a, b).value == Wrap(t, v)
    ensures Combine(t, Exact(t, v), a, b).validity == Or(Or(RangeOf(t, v), a), b)
  {
    WrapIsInRange(t, v);
    WrapInRange(t, Wrap(t, v));
  }

  /**
   A chain of checked operations is valid exactly if every intermediate mathematical value is in
   range, and then its value is the mathematical one. No error is lost on the way, however the
   wrapped values behind it go on.
   */
  lemma {:induction false} ChainsAreExact(t: IntType, e: Expr)
    requires Supported(t)
    ensures InRange(t, Eval(t, e).value)
    ensures Eval(t, e).validity == RANGE_VALID <==> AllInRange(t, e)
    ensures AllInRange(t, e) ==> Eval(t, e).value == Meaning(e)
  {
    hide CheckedAdd, CheckedSub, CheckedMul, CheckedNeg, CheckedAbs, Wrap, Combine, Exact, RangeOf, InRange;
    match e {
      case Value(v) =>
        NumberIsExact(t, v);
      case Add(left, right) =>
        ChainsAreExact(t, left);
        ChainsAreExact(t, right);
        AddIsExact(t, Eval(t, left).value, Eval(t, right).value);
        Conclude(t, Eval(t, left).value + Eval(t, right).value, Eval(t, left).validity, Eval(t, right).validity);
      case Sub(left, right) =>
        ChainsAreExact(t, left);
        ChainsAreExact(t, right);
        SubIsExact(t, Eval(t, left).value, Eval(t, right).value);
        Conclude(t, Eval(t, left).value - Eval(t, right).value, Eval(t, left).validity, Eval(t, right).validity);
      case Mul(left, right) =>
        ChainsAreExact(t, left);
        ChainsAreExact(t, right);
        MulIsExact(t, Eval(t, left).value, Eval(t, right).value);
        Conclude(t, Eval(t, left).value * Eval(t, right).value, Eval(t, left).validity, Eval(t, right).validity);
      case Neg(arg) =>
        ChainsAreExact(t, arg);
        var x := Eval(t, arg).value;
        NegIsExact(t, x);
        Conclude(t, -x, Eval(t, arg).validity, RANGE_VALID);
      case Abs(arg) =>
        ChainsAreExact(t, arg);
        var x := Eval(t, arg).value;
        AbsIsExact(t, x);
        Conclude(t, if x < 0 then -x else x, Eval(t, arg).validity, RANGE_VALID);
    }
  }

  lemma NumberIsExact(t: IntType, v: int)
    requires t.bits > 0
    ensures InRange(t, Numeric(t, v, RANGE_VALID).value)
    ensures Numeric(t, v, RANGE_VALID).validity == RANGE_VALID <==> InRange(t, v)
    ensures InRange(t, v) ==> Numeric(t, v, RANGE_VALID).value == v
  {
    WrapIsInRange(t, v);
    if InRange(t, v) { WrapInRange(t, v); }
  }

  lemma Conclude(t: IntType, v: int, a: RangeConstraint, b: RangeConstraint)
    requires t.bits > 0
    ensures InRange(t, Combine(t, Exact(t, v), a, b).value)
    ensures Combine(t, Exact(t, v), a, b).validity == RANGE_VALID
            <==> InRange(t, v) && a == RANGE_VALID && b == RANGE_VALID
    ensures InRange(t, v) ==> Combine(t, Exact(t, v), a, b).value == v
  {
    CombineIsExact(t, v, a, b);
    WrapIsInRange(t, v);
    if InRange(t, v) { WrapInRange(t, v); }
  }

  // -------------------------------------------------------------- compound assignment

  /**
   A CheckedNumeric variable. The ghost expression is what it was computed from, so that the
   theorem about chains applies to every run of assignments.
   */
  class CheckedNumeric {
    const t: IntType
    var state: Checked
    ghost var expr: Expr

    ghost predicate Valid()
      reads this
    {
      Supported(t) && state == Eval(t, expr)
    }

    constructor (t: IntType, value: int)
      requires Supported(t)
      ensures Valid() && this.t == t && expr == Value(value)
    {
      this.t := t;
      state := Numeric(t, value, RANGE_VALID);
      expr := Value(value);
    }

    method AddAssign(rhs: CheckedNumeric)
      requires Valid() && rhs.Valid() && rhs.t == t
      modifies this
      ensures Valid() && expr == Add(old(expr), old(rhs.expr))
    {
      state := Plus(t, state, rhs.state);
      expr := Add(expr, rhs.expr);
    }

    method SubAssign(rhs: CheckedNumeric)
      requires Valid() && rhs.Valid() && rhs.t == t
      modifies this
      ensures Valid() && expr == Sub(old(expr), old(rhs.expr))
    {
      state := Minus(t, state, rhs.state);
      expr := Sub(expr, rhs.expr);
    }

    method MulAssign(rhs: CheckedNumeric)
      requires Valid() && rhs.Valid() && rhs.t == t
      modifies this
      ensures Valid() && expr == Mul(old(expr), old(rhs.expr))
    {
      state := Times(t, state, rhs.state);
      expr := Mul(expr, rhs.expr);
    }

    /** `++` in front of the variable. */
    method Increment()
      requires Valid()
      modifies this
      ensures Valid() && expr == Add(old(expr), Value(1))
    {
      var one := new CheckedNumeric(t, 1);
      AddAssign(one);
    }

    method Decrement()
      requires Valid()
      modifies this
      ensures Valid() && expr == Sub(old(expr), Value(1))
    {
      var one := new CheckedNumeric(t, 1);
      SubAssign(one);
    }

    /** The mathematical value where every step on the way was in range, and the default elsewhere. */
    method ValueOrDefault(defaultValue: int) returns (value: int)
      requires Valid()
      ensures value == if AllInRange(t, expr) then Meaning(expr) else defaultValue
    {
      ChainsAreExact(t, expr);
      return if state.validity == RANGE_VALID then state.value else defaultValue;
    }
  }
}
