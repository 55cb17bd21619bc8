/**
 * The decimal layer: a significand and an exponent, both BigIntegers.  The exponent is the
 * power of ten of the significand's leading digit, as in scientific notation, so a
 * BigDecimal stands for significand * 10^(exponent - digits + 1).
 */
module BigDecimals {
  import opened Errors
  import A = Arithmetic
  import B = BigIntegers

  // Kotlin's narrower signed integer types, as ranges of int.
  type Int = B.Int
  type Short = x: int | -0x8000 <= x < 0x8000
  type Byte = x: int | -0x80 <= x < 0x80

  const INT_MAX_VALUE: Int := 0x7FFF_FFFF
  const INT_MIN_VALUE: Int := -0x8000_0000

  /** NONE, or any of the rounding policies (none of which is implemented yet). */
  datatype RoundingMode = NONE | Policy(name: string)

  datatype DecimalMode = DecimalMode(precision: nat, roundingMode: RoundingMode)

  datatype BigDecimal = BigDecimal(significand: B.BigInteger, exponent: B.BigInteger)

  /** numberOfDigits: the count of decimal digits of the magnitude, 0 for zero. */
  function Digits(x: B.BigInteger): nat
  {
    A.DecimalDigits(x.magnitude)
  }

  /** The BigInteger of an integer, as fromLong builds it for values in range. */
  function IntToBig(i: int): (r: B.BigInteger)
    ensures B.Valid(r) && B.Value(r) == i
  {
    if i > 0 then B.BigInteger(i, B.Sign.POSITIVE)
    else if i < 0 then B.BigInteger(-i, B.Sign.NEGATIVE)
    else B.BigInteger(0, B.Sign.ZERO)
  }

  // ------------------------------------------------------------- the value

  /** v * 10^e for any integer e, one factor of ten at a time. */
  function Scale(v: real, e: int): real
    decreases if e >= 0 then e else -e
  {
    if e == 0 then v else if e > 0 then 10.0 * Scale(v, e - 1) else 0.1 * Scale(v, e + 1)
  }

  /** The power of ten of the significand's last digit. */
  function UnitExponent(d: BigDecimal): int
  {
    B.Value(d.exponent) - Digits(d.significand) + 1
  }

  /** The significand as a number. */
  function SigValue(d: BigDecimal): real
  {
    B.Value(d.significand) as real
  }

  /** The number a BigDecimal stands for: the significand scaled by its unit's power of ten. */
  function DecimalValue(d: BigDecimal): real
  {
    Scale(SigValue(d), UnitExponent(d))
  }

  /** One more power of ten is ten times as much, on either side of zero. */
  lemma ScaleStep(v: real, e: int)
    ensures Scale(v, e + 1) == 10.0 * Scale(v, e)
  {
  }

  lemma {:induction false} ScaleNegate(v: real, e: int)
    ensures Scale(-v, e) == -Scale(v, e)
    decreases if e >= 0 then e else -e
  {
    if e > 0 {
      ScaleNegate(v, e - 1);
    } else if e < 0 {
      ScaleNegate(v, e + 1);
    }
  }

  /** Scaling is linear in the scaled value. */
  lemma {:induction false} ScaleSubtract(a: real, b: real, e: int)
    ensures Scale(a, e) - Scale(b, e) == Scale(a - b, e)
    decreases if e >= 0 then e else -e
  {
    if e > 0 {
      ScaleSubtract(a, b, e - 1);
    } else if e < 0 {
      ScaleSubtract(a, b, e + 1);
    }
  }

  /** Scaling keeps the sign. */
  lemma {:induction false} ScaleSign(v: real, e: int)
    ensures v > 0.0 <==> Scale(v, e) > 0.0
    ensures v == 0.0 <==> Scale(v, e) == 0.0
    decreases if e >= 0 then e else -e
  {
    if e > 0 {
      ScaleSign(v, e - 1);
    } else if e < 0 {
      ScaleSign(v, e + 1);
    }
  }

  lemma ScaleOrder(a: real, b: real, e: int)
    ensures a < b <==> Scale(a, e) < Scale(b, e)
    ensures a > b <==> Scale(a, e) > Scale(b, e)
  {
    ScaleSubtract(a, b, e);
    ScaleSubtract(b, a, e);
    ScaleSign(a - b, e);
    ScaleSign(b - a, e);
  }

  lemma ScaleAbs(v: real, e: int)
    ensures Scale(if v < 0.0 then -v else v, e) == (if Scale(v, e) < 0.0 then -Scale(v, e) else Scale(v, e))
  {
    ScaleSign(v, e);
    ScaleSign(-v, e);
    ScaleNegate(v, e);
  }

  /** Scaling twice adds the exponents. */
  lemma {:induction false} ScaleTwice(v: real, a: int, b: int)
    ensures Scale(Scale(v, a), b) == Scale(v, a + b)
    decreases if b >= 0 then b else -b
  {
    if b > 0 {
      ScaleTwice(v, a, b - 1);
      ScaleStep(v, a + b - 1);
    } else if b < 0 {
      ScaleTwice(v, a, b + 1);
      ScaleStep(v, a + b);
    }
  }

  lemma MulStep(k: real, x: real, y: real, u: real, p: real, q: real)
    requires x == k * y && y == p * q && u == k * p
    ensures x == u * q
  {
  }

  /** A factor can be taken out of the scaled value. */
  lemma {:induction false} ScaleTimes(c: real, v: real, e: int)
    ensures Scale(c * v, e) == c * Scale(v, e)
    decreases if e >= 0 then e else -e
  {
    if e > 0 {
      ScaleTimes(c, v, e - 1);
      var t, s, u, p := Scale(c * v, e), Scale(c * v, e - 1), Scale(v, e), Scale(v, e - 1);
      MulStep(10.0, t, s, u, p, c);
    } else if e < 0 {
      ScaleTimes(c, v, e + 1);
      var t, s, u, p := Scale(c * v, e), Scale(c * v, e + 1), Scale(v, e), Scale(v, e + 1);
      MulStep(0.1, t, s, u, p, c);
    }
  }

  lemma ScaleProductStepUp(a: real, b: real, x: int, y: int)
    requires x > 0
    requires Scale(a, x - 1) * Scale(b, y) == Scale(a * b, x - 1 + y)
    ensures Scale(a, x) * Scale(b, y) == Scale(a * b, x + y)
  {
    var t, s, u, p, q := Scale(a * b, x + y), Scale(a * b, x - 1 + y), Scale(a, x), Scale(a, x - 1), Scale(b, y);
    assert t == 10.0 * s by {
      ScaleStep(a * b, x - 1 + y);
      assert x - 1 + y + 1 == x + y;
    }
    MulStep(10.0, t, s, u, p, q);
  }

  lemma ScaleProductStepDown(a: real, b: real, x: int, y: int)
    requires x < 0
    requires Scale(a, x + 1) * Scale(b, y) == Scale(a * b, x + 1 + y)
    ensures Scale(a, x) * Scale(b, y) == Scale(a * b, x + y)
  {
    var t, s, u, p, q := Scale(a * b, x + y), Scale(a * b, x + 1 + y), Scale(a, x), Scale(a, x + 1), Scale(b, y);
    assert t == 0.1 * s by {
      ScaleStep(a * b, x + y);
      assert x + y + 1 == x + 1 + y;
    }
    MulStep(0.1, t, s, u, p, q);
  }

  lemma {:induction false} ScaleProductUp(a: real, b: real, x: int, y: int)
    requires x >= 0
    ensures Scale(a, x) * Scale(b, y) == Scale(a * b, x + y)
    decreases x
  {
    if x > 0 {
      ScaleProductUp(a, b, x - 1, y);
      ScaleProductStepUp(a, b, x, y);
    } else {
      ScaleTimes(a, b, y);
    }
  }

  lemma {:induction false} ScaleProductDown(a: real, b: real, x: int, y: int)
    requires x <= 0
    ensures Scale(a, x) * Scale(b, y) == Scale(a * b, x + y)
    decreases -x
  {
    if x < 0 {
      ScaleProductDown(a, b, x + 1, y);
      ScaleProductStepDown(a, b, x, y);
    } else {
      ScaleTimes(a, b, y);
    }
  }

  /** The product of two scaled values is the scaled product. */
  lemma ScaleProduct(a: real, b: real, x: int, y: int)
    ensures Scale(a, x) * Scale(b, y) == Scale(a * b, x + y)
  {
    if x >= 0 {
      ScaleProductUp(a, b, x, y);
    } else {
      ScaleProductDown(a, b, x, y);
    }
  }

  /** A non-zero value is left as it is by scaling exactly when the exponent is zero. */
  lemma {:induction false} ScaleGrows(v: real, e: int)
    requires v > 0.0
    ensures e > 0 ==> Scale(v, e) >= 10.0 * v
    ensures e < 0 ==> Scale(v, e) <= 0.1 * v
    decreases if e >= 0 then e else -e
  {
    if e > 0 {
      ScaleGrows(v, e - 1);
      ScaleSign(v, e - 1);
    } else if e < 0 {
      ScaleGrows(v, e + 1);
      ScaleSign(v, e + 1);
    }
  }

  lemma ScaleFixed(v: real, e: int)
    requires v != 0.0
    ensures Scale(v, e) == v <==> e == 0
  {
    if v > 0.0 {
      ScaleGrows(v, e);
    } else {
      ScaleGrows(-v, e);
      ScaleNegate(v, e);
    }
  }

  // ---------------------------------------------------------- construction

  /** fromLongWithExponent: the exponent names the power of ten of the value's leading digit. */
  function FromLongWithExponent(value: B.Long, exponent: B.BigInteger): (r: BigDecimal)
    ensures B.Valid(r.significand) && B.Value(r.significand) == value
    ensures B.ZeroSound(exponent) ==> B.Value(r.exponent) == B.Value(exponent) + Digits(r.significand) - 1
    ensures B.Valid(exponent) ==> B.Valid(r.exponent)
  {
    var bigint := B.FromLong(value);
    var preparedExponent := Digits(bigint) - 1;
    BigDecimal(bigint, B.Add(exponent, IntToBig(preparedExponent)))
  }

  /** A value and an exponent become value * 10^exponent. */
  lemma FromLongWithExponentValue(value: B.Long, exponent: B.BigInteger)
    requires B.ZeroSound(exponent)
    ensures DecimalValue(FromLongWithExponent(value, exponent)) == Scale(value as real, B.Value(exponent))
  {
    var r := FromLongWithExponent(value, exponent);
    assert UnitExponent(r) == B.Value(exponent);
  }

  /** fromIntWithExponent: the preparedExponent lacks the - 1 of the Long variant. */
  function FromIntWithExponent(value: Int, exponent: B.BigInteger): (r: BigDecimal)
    ensures B.Valid(r.significand) && B.Value(r.significand) == value
    ensures B.ZeroSound(exponent) ==> B.Value(r.exponent) == B.Value(exponent) + Digits(r.significand)
    ensures B.Valid(exponent) ==> B.Valid(r.exponent)
  {
    var bigint := B.FromLong(value);
    var preparedExponent := Digits(bigint);
    BigDecimal(bigint, B.Add(exponent, IntToBig(preparedExponent)))
  }

  /** The Int variant stands for ten times the number asked for. */
  lemma FromIntWithExponentValue(value: Int, exponent: B.BigInteger)
    requires B.ZeroSound(exponent)
    ensures DecimalValue(FromIntWithExponent(value, exponent)) == Scale(value as real, B.Value(exponent) + 1)
  {
    var r := FromIntWithExponent(value, exponent);
    assert UnitExponent(r) == B.Value(exponent) + 1;
  }

  /** fromShortWithExponent: fromShort builds the same BigInteger as fromInt. */
  function FromShortWithExponent(value: Short, exponent: B.BigInteger): (r: BigDecimal)
    ensures B.Valid(r.significand) && B.Value(r.significand) == value
    ensures B.ZeroSound(exponent) ==> B.Value(r.exponent) == B.Value(exponent) + Digits(r.significand)
  {
    FromIntWithExponent(value, exponent)
  }

  /** fromByteWithExponent: fromByte builds the same BigInteger as fromInt. */
  function FromByteWithExponent(value: Byte, exponent: B.BigInteger): (r: BigDecimal)
    ensures B.Valid(r.significand) && B.Value(r.significand) == value
    ensures B.ZeroSound(exponent) ==> B.Value(r.exponent) == B.Value(exponent) + Digits(r.significand)
  {
    FromIntWithExponent(value, exponent)
  }

  /** fromIntWithExponent as the Long variant computes it. */
  function FromIntWithExponentCorrected(value: Int, exponent: B.BigInteger): (r: BigDecimal)
    ensures B.Valid(r.significand) && B.Value(r.significand) == value
    ensures B.ZeroSound(exponent) ==> UnitExponent(r) == B.Value(exponent)
  {
    FromLongWithExponent(value, exponent)
  }

  /** The corrected Int variant stands for value * 10^exponent, like the Long one. */
  lemma FromIntWithExponentCorrectedValue(value: Int, exponent: B.BigInteger)
    requires B.ZeroSound(exponent)
    ensures DecimalValue(FromIntWithExponentCorrected(value, exponent)) == Scale(value as real, B.Value(exponent))
  {
    FromLongWithExponentValue(value, exponent);
  }

  /** 5 with exponent 0 should be 5, but the Int variant makes it 50. */
  lemma FromIntWithExponentCounterexample()
    ensures DecimalValue(FromLongWithExponent(5, IntToBig(0))) == 5.0
    ensures DecimalValue(FromIntWithExponent(5, IntToBig(0))) == 50.0
    ensures DecimalValue(FromIntWithExponentCorrected(5, IntToBig(0))) == 5.0
  {
    FromLongWithExponentValue(5, IntToBig(0));
    FromIntWithExponentValue(5, IntToBig(0));
    assert Scale(5.0, 1) == 50.0;
  }

  // ------------------------------------------------------ unary operations

  /** negate() and unaryMinus(): the significand negated, the exponent kept. */
  function Negate(x: BigDecimal): (r: BigDecimal)
    ensures r.exponent == x.exponent && Digits(r.significand) == Digits(x.significand)
    ensures B.Value(r.significand) == -B.Value(x.significand)
    ensures B.ZeroSound(r.significand) <==> B.ZeroSound(x.significand)
  {
    BigDecimal(B.Negate(x.significand), x.exponent)
  }

  /** Negating flips the sign of the value. */
  lemma NegateValue(x: BigDecimal)
    ensures DecimalValue(Negate(x)) == -DecimalValue(x)
  {
    ScaleNegate(SigValue(x), UnitExponent(x));
  }

  /** abs(): the significand's abs, the exponent kept. */
  function Abs(x: BigDecimal): (r: BigDecimal)
    ensures r.exponent == x.exponent && Digits(r.significand) == Digits(x.significand)
    ensures B.Value(r.significand) == x.significand.magnitude
    ensures B.ZeroSound(x.significand) ==> B.Value(r.significand) == B.Abs(B.Value(x.significand))
  {
    BigDecimal(B.AbsoluteValue(x.significand), x.exponent)
  }

  /** The value of abs() is the absolute value of the number. */
  lemma AbsValue(x: BigDecimal)
    requires B.ZeroSound(x.significand)
    ensures DecimalValue(Abs(x)) == (if DecimalValue(x) < 0.0 then -DecimalValue(x) else DecimalValue(x))
  {
    ScaleAbs(SigValue(x), UnitExponent(x));
  }

  lemma NegateInvolution(x: BigDecimal)
    ensures Negate(Negate(x)) == x
  {
    B.NegateInvolution(x.significand);
  }

  // ------------------------------------------------------------ arithmetic

  /** roundOrDont: rounding other than NONE goes to round, which is unfinished. */
  function RoundOrDont(significand: B.BigInteger, exponent: B.BigInteger, decimalMode: DecimalMode): (r: Result<BigDecimal>)
    ensures r.Ok? <==> decimalMode.roundingMode == NONE
    ensures r.Ok? ==> r.value.significand == significand && r.value.exponent == exponent
    ensures r.Err? ==> r.error == NotImplemented
  {
    if decimalMode.roundingMode != NONE then Err(NotImplemented) else Ok(BigDecimal(significand, exponent))
  }

  /** multiply: the significands multiplied, the exponents added. */
  function Multiply(x: BigDecimal, y: BigDecimal, decimalMode: DecimalMode): (r: Result<BigDecimal>)
    ensures r.Ok? <==> decimalMode.roundingMode == NONE
    ensures r.Err? ==> r.error == NotImplemented
    ensures r.Ok? && B.ZeroSound(x.significand) && B.ZeroSound(y.significand) ==>
      B.Value(r.value.significand) == B.Value(x.significand) * B.Value(y.significand)
    ensures r.Ok? && B.ZeroSound(x.exponent) && B.ZeroSound(y.exponent) ==>
      B.Value(r.value.exponent) == B.Value(x.exponent) + B.Value(y.exponent)
  {
    var newSignificand := B.Multiply(x.significand, y.significand);
    var newExponent := B.Add(x.exponent, y.exponent);
    RoundOrDont(newSignificand, newExponent, decimalMode)
  }

  /**
   * The product's value is the product of the values scaled by a power of ten: adding the
   * exponents is exact only when the significands' product has one digit fewer than the
   * two significands together.
   */
  lemma MultiplyValue(x: BigDecimal, y: BigDecimal, decimalMode: DecimalMode)
    requires decimalMode.roundingMode == NONE
    requires B.ZeroSound(x.significand) && B.ZeroSound(y.significand)
    requires B.ZeroSound(x.exponent) && B.ZeroSound(y.exponent)
    ensures var p := Multiply(x, y, decimalMode).value;
      DecimalValue(x) * DecimalValue(y)
      == Scale(DecimalValue(p), Digits(p.significand) + 1 - Digits(x.significand) - Digits(y.significand))
  {
    var p := Multiply(x, y, decimalMode).value;
    var k := Digits(p.significand) + 1 - Digits(x.significand) - Digits(y.significand);
    SigValueProduct(x, y, p);
    DecimalProduct(x, y);
    ScaleTwiceOf(SigValue(p), UnitExponent(p), k, DecimalValue(p),
      Scale(SigValue(x) * SigValue(y), UnitExponent(x) + UnitExponent(y)));
  }

  lemma SigValueProduct(x: BigDecimal, y: BigDecimal, p: BigDecimal)
    requires B.Value(p.significand) == B.Value(x.significand) * B.Value(y.significand)
    ensures SigValue(p) == SigValue(x) * SigValue(y)
  {
    RealOfProduct(B.Value(x.significand), B.Value(y.significand));
  }

  lemma ScaleProductOf(a: real, b: real, ux: int, uy: int, sx: real, sy: real, r: real)
    requires sx == Scale(a, ux) && sy == Scale(b, uy) && r == Scale(a * b, ux + uy)
    ensures sx * sy == r
  {
    ScaleProduct(a, b, ux, uy);
  }

  lemma ScaleTwiceOf(c: real, u: int, k: int, v: real, r: real)
    requires v == Scale(c, u) && r == Scale(c, u + k)
    ensures Scale(v, k) == r
  {
    ScaleTwice(c, u, k);
  }

  /** The product of two values, as one scaled product of the significands. */
  lemma DecimalProduct(x: BigDecimal, y: BigDecimal)
    ensures DecimalValue(x) * DecimalValue(y) == Scale(SigValue(x) * SigValue(y), UnitExponent(x) + UnitExponent(y))
  {
    ScaleProductOf(SigValue(x), SigValue(y), UnitExponent(x), UnitExponent(y),
      DecimalValue(x), DecimalValue(y), Scale(SigValue(x) * SigValue(y), UnitExponent(x) + UnitExponent(y)));
  }

  lemma RealOfProduct(m: int, n: int)
    ensures (m * n) as real == (m as real) * (n as real)
  {
  }

  /** For non-zero operands the product is the exact product exactly when no digit is gained. */
  lemma MultiplyExact(x: BigDecimal, y: BigDecimal, decimalMode: DecimalMode)
    requires decimalMode.roundingMode == NONE
    requires B.Valid(x.significand) && B.Valid(y.significand)
    requires B.ZeroSound(x.exponent) && B.ZeroSound(y.exponent)
    requires x.significand.magnitude != 0 && y.significand.magnitude != 0
    ensures var p := Multiply(x, y, decimalMode).value;
      DecimalValue(p) == DecimalValue(x) * DecimalValue(y)
      <==> Digits(p.significand) + 1 == Digits(x.significand) + Digits(y.significand)
  {
    var p := Multiply(x, y, decimalMode).value;
    var k := Digits(p.significand) + 1 - Digits(x.significand) - Digits(y.significand);
    MultiplyValue(x, y, decimalMode);
    assert B.Value(p.significand) != 0 by {
      var m, n := x.significand.magnitude, y.significand.magnitude;
      assert p.significand.magnitude == m * n;
      A.MulAtLeast(m, n);
    }
    ScaleSign(SigValue(p), UnitExponent(p));
    ScaleFixed(DecimalValue(p), k);
  }

  /**
   * fromLongWithExponent(5, 1) is 50, stored as 5 with exponent 1.  Squared, it gives 25
   * with exponent 2, which stands for 250 and which toString prints as "2.5E+2".
   */
  lemma MultiplyCarryExample()
    ensures FromLongWithExponent(5, IntToBig(1)) == BigDecimal(IntToBig(5), IntToBig(1))
    ensures DecimalValue(BigDecimal(IntToBig(5), IntToBig(1))) == 50.0
    ensures Multiply(BigDecimal(IntToBig(5), IntToBig(1)), BigDecimal(IntToBig(5), IntToBig(1)), DecimalMode(0, NONE))
      == Ok(BigDecimal(IntToBig(25), IntToBig(2)))
    ensures DecimalValue(BigDecimal(IntToBig(25), IntToBig(2))) == 250.0
    ensures ToString(BigDecimal(IntToBig(25), IntToBig(2))) == "2.5E+2"
  {
    assert Digits(IntToBig(5)) == 1;
    assert Digits(IntToBig(25)) == 2;
    assert Scale(5.0, 1) == 50.0;
    assert Scale(25.0, 1) == 250.0;
    PrintedCarry();
  }

  lemma PrintedCarry()
    ensures ToString(BigDecimal(IntToBig(25), IntToBig(2))) == "2.5E+2"
  {
    Digits25();
    Mantissa25();
    assert B.ToString(IntToBig(25), 10) == "25";
    assert B.ToString(IntToBig(2), 10) == "2";
  }

  lemma Digits25()
    ensures A.ToString(25, 10) == "25" && A.ToString(2, 10) == "2"
  {
    assert A.ToString(2, 10) == "2";
  }

  lemma Mantissa25()
    ensures Mantissa("25") == "2.5"
  {
    assert Prepared("25", 1) == "2.5";
    assert DropTrailingZeros("2.5") == "2.5";
  }

  /**
   * multiply with the exponent the product's digit count calls for: the exponents'
   * sum plus one when the significands' product gains a digit over their digits' sum
   * less one, so that the digits one place apart from the unit are counted once.
   */
  function MultiplyCorrected(x: BigDecimal, y: BigDecimal, decimalMode: DecimalMode): (r: Result<BigDecimal>)
    ensures r.Ok? <==> decimalMode.roundingMode == NONE
    ensures r.Err? ==> r.error == NotImplemented
    ensures r.Ok? && B.ZeroSound(x.significand) && B.ZeroSound(y.significand) ==>
      B.Value(r.value.significand) == B.Value(x.significand) * B.Value(y.significand)
  {
    var newSignificand := B.Multiply(x.significand, y.significand);
    var carry := Digits(newSignificand) + 1 - Digits(x.significand) - Digits(y.significand);
    var newExponent := B.Add(B.Add(x.exponent, y.exponent), IntToBig(carry));
    RoundOrDont(newSignificand, newExponent, decimalMode)
  }

  /** The corrected product is the exact product of the values, whatever the digit counts. */
  lemma MultiplyCorrectedExact(x: BigDecimal, y: BigDecimal, decimalMode: DecimalMode)
    requires decimalMode.roundingMode == NONE
    requires B.ZeroSound(x.significand) && B.ZeroSound(y.significand)
    requires B.ZeroSound(x.exponent) && B.ZeroSound(y.exponent)
    ensures DecimalValue(MultiplyCorrected(x, y, decimalMode).value) == DecimalValue(x) * DecimalValue(y)
  {
    var p := MultiplyCorrected(x, y, decimalMode).value;
    assert UnitExponent(p) == UnitExponent(x) + UnitExponent(y) by {
      var sum := B.Add(x.exponent, y.exponent);
      assert B.ZeroSound(sum) && B.Value(sum) == B.Value(x.exponent) + B.Value(y.exponent);
    }
    SigValueProduct(x, y, p);
    DecimalProduct(x, y);
  }

  /** 50 times 50, corrected: 25 with exponent 3, which stands for 2500. */
  lemma MultiplyCorrectedExample()
    ensures MultiplyCorrected(BigDecimal(IntToBig(5), IntToBig(1)), BigDecimal(IntToBig(5), IntToBig(1)), DecimalMode(0, NONE))
      == Ok(BigDecimal(IntToBig(25), IntToBig(3)))
    ensures DecimalValue(BigDecimal(IntToBig(25), IntToBig(3))) == 2500.0
  {
    assert Digits(IntToBig(25)) == 2;
    assert Digits(IntToBig(5)) == 1;
    assert Scale(25.0, 2) == 2500.0;
  }

  // ------------------------------------------------------------ comparison

  /** compare with equal exponents: the significands' compare. */
  function Compare(x: BigDecimal, y: BigDecimal): (r: int)
    requires B.Equals(x.exponent, y.exponent)
    ensures r == -1 || r == 0 || r == 1
    ensures B.Valid(x.significand) && B.Valid(y.significand) ==> (r == 0 <==> x.significand == y.significand)
    ensures B.Valid(x.significand) && B.Valid(y.significand) && !(x.significand.sign == y.significand.sign == B.Sign.NEGATIVE) ==>
      r == B.IntCompare(B.Value(x.significand), B.Value(y.significand))
  {
    if B.Valid(x.significand) && B.Valid(y.significand) then
      B.EqualsIsEquality(x.significand, y.significand);
      if !(x.significand.sign == y.significand.sign == B.Sign.NEGATIVE) then
        B.CompareAgreesOffNegatives(x.significand, y.significand);
        B.Compare(x.significand, y.significand)
      else B.Compare(x.significand, y.significand)
    else B.Compare(x.significand, y.significand)
  }

  function RealCompare(a: real, b: real): int
  {
    if a < b then -1 else if a > b then 1 else 0
  }

  /** With equal exponents and equally long significands, compare orders the values. */
  lemma CompareOrdersValues(x: BigDecimal, y: BigDecimal)
    requires B.Valid(x.exponent) && B.Valid(y.exponent) && B.Equals(x.exponent, y.exponent)
    requires B.Valid(x.significand) && B.Valid(y.significand)
    requires !(x.significand.sign == y.significand.sign == B.Sign.NEGATIVE)
    requires Digits(x.significand) == Digits(y.significand)
    ensures Compare(x, y) == RealCompare(DecimalValue(x), DecimalValue(y))
  {
    B.EqualsIsEquality(x.exponent, y.exponent);
    assert UnitExponent(x) == UnitExponent(y);
    ScaleOrder(SigValue(x), SigValue(y), UnitExponent(x));
  }

  /**
   * Significands of different lengths are compared as integers: fromLongWithExponent(5, 1)
   * is 5 with exponent 1, which stands for 50, and fromLongWithExponent(10, 0) is 10 with
   * exponent 1, which stands for 10, yet compare ranks the first below the second.  The
   * corrected compare ranks it above.
   */
  lemma CompareDigitsExample()
    ensures FromLongWithExponent(5, IntToBig(1)) == BigDecimal(IntToBig(5), IntToBig(1))
    ensures FromLongWithExponent(10, IntToBig(0)) == BigDecimal(IntToBig(10), IntToBig(1))
    ensures Compare(BigDecimal(IntToBig(5), IntToBig(1)), BigDecimal(IntToBig(10), IntToBig(1))) == -1
    ensures DecimalValue(BigDecimal(IntToBig(5), IntToBig(1))) == 50.0
    ensures DecimalValue(BigDecimal(IntToBig(10), IntToBig(1))) == 10.0
    ensures CompareCorrected(BigDecimal(IntToBig(5), IntToBig(1)), BigDecimal(IntToBig(10), IntToBig(1))) == 1
  {
    assert Digits(IntToBig(5)) == 1;
    assert Digits(IntToBig(10)) == 2;
    assert Scale(5.0, 1) == 50.0;
    assert Scale(10.0, 0) == 10.0;
    assert A.Pow(10, 1) == 10;
  }

  /**
   * compare for equal exponents as the order of the numbers calls for: the shorter
   * significand is padded with zeros to the longer one's digit count before the two are
   * compared as integers.
   */
  function CompareCorrected(x: BigDecimal, y: BigDecimal): (r: int)
    requires B.Equals(x.exponent, y.exponent)
    ensures r == -1 || r == 0 || r == 1
  {
    var d := if Digits(x.significand) >= Digits(y.significand) then Digits(x.significand) else Digits(y.significand);
    B.IntCompare(B.Value(x.significand) * A.Pow(10, d - Digits(x.significand)),
      B.Value(y.significand) * A.Pow(10, d - Digits(y.significand)))
  }

  /** The corrected compare orders every pair with equal exponents by the numbers they denote. */
  lemma CompareCorrectedOrdersValues(x: BigDecimal, y: BigDecimal)
    requires B.Equals(x.exponent, y.exponent)
    ensures CompareCorrected(x, y) == RealCompare(DecimalValue(x), DecimalValue(y))
  {
    var d := if Digits(x.significand) >= Digits(y.significand) then Digits(x.significand) else Digits(y.significand);
    var e := B.Value(x.exponent) - d + 1;
    assert B.Value(y.exponent) == B.Value(x.exponent);
    PaddedValue(x, d, e);
    PaddedValue(y, d, e);
    ScaleOrder((B.Value(x.significand) * A.Pow(10, d - Digits(x.significand))) as real,
      (B.Value(y.significand) * A.Pow(10, d - Digits(y.significand))) as real, e);
  }

  /** Padding the significand to d digits and taking the unit exponent of d digits keeps the number. */
  lemma PaddedValue(x: BigDecimal, d: nat, e: int)
    requires d >= Digits(x.significand) && e == B.Value(x.exponent) - d + 1
    ensures DecimalValue(x) == Scale((B.Value(x.significand) * A.Pow(10, d - Digits(x.significand))) as real, e)
  {
    var k := d - Digits(x.significand);
    assert DecimalValue(x) == Scale(B.Value(x.significand) as real, k + e);
    PaddedScale(B.Value(x.significand), k, e);
  }

  /** Moving k powers of ten from the scale into the integer keeps the number. */
  lemma PaddedScale(n: int, k: nat, e: int)
    ensures Scale(n as real, k + e) == Scale((n * A.Pow(10, k)) as real, e)
  {
    var p := A.Pow(10, k);
    ScaleTwice(n as real, k, e);
    ScaleIsPow(n as real, k);
    RealOfProduct(n, p);
    assert Scale(n as real, k) == (n * p) as real;
  }

  /** A non-negative power of ten scales by the integer power. */
  lemma {:induction false} ScaleIsPow(v: real, k: nat)
    ensures Scale(v, k) == v * (A.Pow(10, k) as real)
  {
    if k > 0 {
      ScaleIsPow(v, k - 1);
      ScaleStep(v, k - 1);
      RealOfProduct(10, A.Pow(10, k - 1));
    }
  }

  // ------------------------------------------------------ placing the dot

  /** `n * '0'` and friends: the character repeated n times. */
  function Repeat(c: char, n: nat): (r: string)
    ensures |r| == n && forall i :: 0 <= i < n ==> r[i] == c
  {
    seq(n, _ => c)
  }

  /** dropLastWhile { it == '0' }. */
  function DropTrailingZeros(s: string): (r: string)
    ensures |r| <= |s| && r == s[..|r|]
    ensures forall i :: |r| <= i < |s| ==> s[i] == '0'
    ensures |r| == 0 || r[|r| - 1] != '0'
  {
    if |s| == 0 || s[|s| - 1] != '0' then s else DropTrailingZeros(s[..|s| - 1])
  }

  /** How often c occurs in s. */
  function Count(s: string, c: char): nat
  {
    if |s| == 0 then 0 else Count(s[..|s| - 1], c) + (if s[|s| - 1] == c then 1 else 0)
  }

  lemma {:induction false} CountConcat(a: string, b: string, c: char)
    ensures Count(a + b, c) == Count(a, c) + Count(b, c)
  {
    if |b| > 0 {
      assert (a + b)[..|a + b| - 1] == a + b[..|b| - 1];
      CountConcat(a, b[..|b| - 1], c);
    } else {
      assert a + b == a;
    }
  }

  lemma {:induction false} CountRepeat(c: char, n: nat, d: char)
    requires c != d
    ensures Count(Repeat(c, n), d) == 0
  {
    if n > 0 {
      assert Repeat(c, n)[..n - 1] == Repeat(c, n - 1);
      CountRepeat(c, n - 1, d);
    }
  }

  /** Dropping zeros drops no other character. */
  lemma {:induction false} CountDropTrailingZeros(s: string, c: char)
    requires c != '0'
    ensures Count(DropTrailingZeros(s), c) == Count(s, c)
  {
    if |s| > 0 && s[|s| - 1] == '0' {
      CountDropTrailingZeros(s[..|s| - 1], c);
    }
  }

  /** The string placeADotInString builds before dropping the trailing zeros. */
  function Prepared(input: string, position: nat): (r: string)
  {
    if |input| < position then "0." + (Repeat('0', position - |input|) + input)
    else
      var prefix := input[..|input| - position];
      var suffix := input[|input| - position..];
      prefix + "." + suffix
  }

  /** Every prepared string gains exactly one '.'. */
  lemma PreparedDots(input: string, position: nat)
    ensures Count(Prepared(input, position), '.') == Count(input, '.') + 1
  {
    if |input| < position {
      CountRepeat('0', position - |input|, '.');
      CountConcat(Repeat('0', position - |input|), input, '.');
      CountConcat("0.", Repeat('0', position - |input|) + input, '.');
      assert Count("0.", '.') == 1 by {
        assert "0."[..1] == "0";
        assert "0"[..0] == "";
      }
    } else {
      var k := |input| - position;
      assert input == input[..k] + input[k..];
      CountConcat(input[..k], input[k..], '.');
      CountConcat(input[..k], ".", '.');
      CountConcat(input[..k] + ".", input[k..], '.');
      assert Count(".", '.') == 1 by {
        assert "."[..0] == "";
      }
    }
  }

  /**
   * placeADotInString, as a function of its inputs: a negative position makes the
   * substring call fail.  The result never ends in '0' and has exactly one more '.'.
   */
  function PlaceADot(input: string, position: int): (r: Result<string>)
    ensures r.Err? <==> position < 0
    ensures r.Err? ==> r.error == IndexOutOfBounds
    ensures r.Ok? ==> |r.value| == 0 || r.value[|r.value| - 1] != '0'
    ensures r.Ok? ==> Count(r.value, '.') == Count(input, '.') + 1
  {
    if position < 0 then Err(IndexOutOfBounds)
    else
      PreparedDots(input, position);
      CountDropTrailingZeros(Prepared(input, position), '.');
      Ok(DropTrailingZeros(Prepared(input, position)))
  }

  /**
   * Within the input, the dot goes in `position` characters from the end and only
   * trailing zeros are dropped.
   */
  lemma PlaceADotWithin(input: string, position: int)
    requires 0 <= position <= |input|
    ensures var r := PlaceADot(input, position).value; var k := |input| - position;
      k < |r| <= |input| + 1 && r[..k] == input[..k] && r[k] == '.' && r[k + 1..] == input[k..|r| - 1]
      && forall i :: |r| - 1 <= i < |input| ==> input[i] == '0'
  {
    var k := |input| - position;
    var p := Prepared(input, position);
    var r := DropTrailingZeros(p);
    assert PlaceADot(input, position).value == r;
    PreparedWithin(input, position, p);
    DroppedAfterDot(input, k, p, r);
  }

  /** Within the input, the prepared string is the input with '.' after its first k characters. */
  lemma PreparedWithin(input: string, position: int, p: string)
    requires 0 <= position <= |input| && p == Prepared(input, position)
    ensures p == input[..|input| - position] + "." + input[|input| - position..]
  { }

  /** Dropping trailing zeros from input[..k] + "." + input[k..] keeps the dot and a prefix of the rest. */
  lemma DroppedAfterDot(input: string, k: nat, p: string, r: string)
    requires k <= |input| && p == input[..k] + "." + input[k..]
    requires |r| <= |p| && r == p[..|r|] && (forall i :: |r| <= i < |p| ==> p[i] == '0')
    requires |r| == 0 || r[|r| - 1] != '0'
    ensures k < |r| <= |input| + 1 && r[..k] == input[..k] && r[k] == '.' && r[k + 1..] == input[k..|r| - 1]
    ensures forall i :: |r| - 1 <= i < |input| ==> input[i] == '0'
  {
    assert p[k] == '.';
    assert |r| > k;
    assert r[..k] == p[..k] == input[..k];
    assert r[k + 1..] == p[k + 1..|r|];
    assert forall i :: |r| - 1 <= i < |input| ==> input[i] == p[i + 1];
  }

  /** Past the input's length the result is "0.", the missing zeros, then the input. */
  lemma PlaceADotPadded(input: string, position: int)
    requires position > |input|
    ensures var r := PlaceADot(input, position).value; var z := position - |input|;
      2 <= |r| <= 2 + position && r[..2] == "0." && r[2..] == (Repeat('0', z) + input)[..|r| - 2]
      && forall i :: |r| - 2 <= i < position ==> (Repeat('0', z) + input)[i] == '0'
  {
    var z := position - |input|;
    var q := Repeat('0', z) + input;
    var p := Prepared(input, position);
    assert p == "0." + q && |q| == position;
    var r := DropTrailingZeros(p);
    assert |r| >= 2 by {
      assert p[1] == '.';
    }
    assert r[..2] == "0." by {
      assert r[..2] == p[..2];
    }
    assert r[2..] == q[..|r| - 2] by {
      assert r[2..] == p[2..|r|];
    }
    forall i | |r| - 2 <= i < position
      ensures q[i] == '0'
    {
      assert q[i] == p[i + 2];
    }
  }

  /** placeADotInString: the padding '0's are appended one at a time. */
  method PlaceADotInString(input: string, position: int) returns (r: Result<string>)
    ensures r == PlaceADot(input, position)
  {
    if position < 0 {
      return Err(IndexOutOfBounds);
    }
    var prepared: string;
    if |input| < position {
      var builder := "";
      for i := 0 to position - |input|
        invariant builder == Repeat('0', i)
      {
        builder := builder + "0";
      }
      builder := builder + input;
      prepared := "0." + builder;
    } else {
      var prefix := input[..|input| - position];
      var suffix := input[|input| - position..];
      prepared := prefix + "." + suffix;
    }
    return Ok(DropTrailingZeros(prepared));
  }

  // -------------------------------------------------------------- toString

  /** The mantissa toString writes: the dot placed after the first character. */
  function Mantissa(s: string): (m: string)
    requires |s| >= 1
    ensures 2 <= |m| <= |s| + 1 && m[0] == s[0] && m[1] == '.'
    ensures m[2..] == s[1..|m| - 1] && forall i :: |m| - 1 <= i < |s| ==> s[i] == '0'
  {
    PlaceADotWithin(s, |s| - 1);
    PlaceADot(s, |s| - 1).value
  }

  /** noExponentStringtoScientificNotation: the exponent is the number of digits after the first. */
  function NoExponentToScientific(input: string): (r: string)
    requires |input| >= 1
    ensures var m := Mantissa(input); |r| > |m| + 1 && r[..|m|] == m && r[|m|] == 'E' && r[|m| + 1] == '+'
  {
    AfterTheE(Mantissa(input), "+", A.ToString(|input| - 1, 10));
    Mantissa(input) + "E+" + A.ToString(|input| - 1, 10)
  }

  /** The exponent written after the 'E' parses back to the number of digits after the first. */
  lemma NoExponentExponentParses(input: string)
    requires |input| >= 1
    ensures B.ParseString(NoExponentToScientific(input)[|Mantissa(input)| + 1..], 10) == Ok(IntToBig(|input| - 1))
  {
    var digits := A.ToString(|input| - 1, 10);
    assert B.ToString(IntToBig(|input| - 1), 10) == digits;
    PlusDigitsParse(IntToBig(|input| - 1));
    assert NoExponentToScientific(input) == Mantissa(input) + "E" + "+" + digits;
    ParseAfterE(Mantissa(input), "+", digits, IntToBig(|input| - 1));
  }

  /** Whatever parses after the 'E' is read back from the whole string. */
  lemma ParseAfterE(m: string, sign: string, digits: string, e: B.BigInteger)
    requires B.ParseString(sign + digits, 10) == Ok(e)
    ensures B.ParseString((m + "E" + sign + digits)[|m| + 1..], 10) == Ok(e)
  {
    AfterTheE(m, sign, digits);
  }

  /** What a mantissa, 'E', a sign and digits leave on either side of the 'E'. */
  lemma AfterTheE(m: string, sign: string, digits: string)
    ensures var r := m + "E" + sign + digits; |r| == |m| + 1 + |sign| + |digits|
    ensures var r := m + "E" + sign + digits; r[..|m|] == m && r[|m|] == 'E' && r[|m| + 1..] == sign + digits
  {
    var r := m + "E" + sign + digits;
    assert r == m + ("E" + sign + digits);
  }

  /** toString: the mantissa, 'E', then the signed exponent. */
  function ToString(x: BigDecimal): (r: string)
    ensures var m := Mantissa(B.ToString(x.significand, 10)); |r| > |m| + 1 && r[..|m|] == m && r[|m|] == 'E'
    ensures var m := Mantissa(B.ToString(x.significand, 10));
      |r| > |m| + 1 && r[|m| + 1] == (if x.exponent.sign == B.Sign.NEGATIVE then '-' else '+')
  {
    var significandString := B.ToString(x.significand, 10);
    var c := B.Compare(x.exponent, IntToBig(0));
    CompareWithZero(x.exponent, c);
    if c > 0 then
      MantissaThenE(Mantissa(significandString), "E+", B.ToString(x.exponent, 10));
      Mantissa(significandString) + ("E+" + B.ToString(x.exponent, 10))
    else if c < 0 then
      MantissaThenE(Mantissa(significandString), "E", B.ToString(x.exponent, 10));
      Mantissa(significandString) + ("E" + B.ToString(x.exponent, 10))
    else NoExponentToScientific(significandString)
  }

  /** The sign of a comparison with zero is the sign tag. */
  lemma CompareWithZero(e: B.BigInteger, c: int)
    requires c == B.Compare(e, IntToBig(0))
    ensures c > 0 <==> e.sign == B.Sign.POSITIVE
    ensures c < 0 <==> e.sign == B.Sign.NEGATIVE
  {
  }

  lemma MantissaThenE(m: string, e: string, digits: string)
    requires (e == "E+" || e == "E") && |digits| >= 1
    ensures var r := m + (e + digits); |r| > |m| + 1 && r[..|m|] == m && r[|m|] == 'E'
    ensures var r := m + (e + digits); r[|m| + 1] == (if e == "E" then digits[0] else '+')
  {
  }

  /** The exponent toString shows: the exponent, or for a zero exponent the digits after the first. */
  function ShownExponent(x: BigDecimal): B.BigInteger
  {
    if x.exponent.sign == B.Sign.ZERO then IntToBig(|B.ToString(x.significand, 10)| - 1) else x.exponent
  }

  lemma PlusDigitsParse(e: B.BigInteger)
    requires B.Valid(e) && e.sign != B.Sign.NEGATIVE
    ensures B.ParseString("+" + B.ToString(e, 10), 10) == Ok(e)
  {
    var s := "+" + B.ToString(e, 10);
    A.ToStringHead(e.magnitude, 10);
    assert s[1..] == A.ToString(e.magnitude, 10);
    if e.magnitude == 0 {
      assert s == "+0";
    } else {
      B.ParsePlusDigits(e.magnitude, 10);
    }
  }

  /** What follows the 'E' parses back to the exponent shown. */
  lemma ToStringExponentRoundTrip(x: BigDecimal)
    requires B.Valid(x.exponent)
    ensures var s := ToString(x); var m := Mantissa(B.ToString(x.significand, 10));
      B.ParseString(s[|m| + 1..], 10) == Ok(ShownExponent(x))
  {
    var c := B.Compare(x.exponent, IntToBig(0));
    if c > 0 {
      PositiveExponentRoundTrip(x);
    } else if c < 0 {
      NegativeExponentRoundTrip(x);
    } else {
      NoExponentExponentParses(B.ToString(x.significand, 10));
    }
  }

  /**
   * For a positive exponent the text after the 'E' parses back to it, and it is a '+'
   * followed by unsigned digits that parse back to it on their own.
   */
  lemma PositiveExponentRoundTrip(x: BigDecimal)
    requires B.Valid(x.exponent) && B.Compare(x.exponent, IntToBig(0)) > 0
    ensures var s := ToString(x); var m := Mantissa(B.ToString(x.significand, 10));
      B.ParseString(s[|m| + 1..], 10) == Ok(x.exponent)
    ensures var s := ToString(x); var m := Mantissa(B.ToString(x.significand, 10));
      s[|m| + 1] == '+' && B.ParseString(s[|m| + 2..], 10) == Ok(x.exponent)
  {
    PositiveExponentDigits(x);
    PlusDigitsParse(x.exponent);
  }

  /** After the 'E' of a positive exponent come a '+' and the exponent's digits. */
  lemma PositiveExponentDigits(x: BigDecimal)
    requires B.Valid(x.exponent) && B.Compare(x.exponent, IntToBig(0)) > 0
    ensures var s := ToString(x); var m := Mantissa(B.ToString(x.significand, 10));
      s[|m| + 1..] == "+" + B.ToString(x.exponent, 10)
    ensures var s := ToString(x); var m := Mantissa(B.ToString(x.significand, 10));
      s[|m| + 1] == '+' && B.ParseString(s[|m| + 2..], 10) == Ok(x.exponent)
  {
    var m := Mantissa(B.ToString(x.significand, 10));
    var digits := B.ToString(x.exponent, 10);
    CompareWithZero(x.exponent, B.Compare(x.exponent, IntToBig(0)));
    UnsignedExponentParses(x.exponent);
    assert ToString(x) == m + ("E+" + digits);
    DigitsAfterSign(m, digits);
  }

  lemma DigitsAfterSign(m: string, digits: string)
    ensures (m + ("E+" + digits))[|m| + 1..] == "+" + digits
    ensures (m + ("E+" + digits))[|m| + 2..] == digits
  {
  }

  /** The digits of a positive exponent, with no sign in front, parse back to it. */
  lemma UnsignedExponentParses(e: B.BigInteger)
    requires B.Valid(e) && e.sign == B.Sign.POSITIVE
    ensures B.ParseString(B.ToString(e, 10), 10) == Ok(e)
  {
    assert B.ToString(e, 10) == A.ToString(e.magnitude, 10);
    B.ParseDigitsAlone(e.magnitude, 10);
  }

  lemma NegativeExponentRoundTrip(x: BigDecimal)
    requires B.Valid(x.exponent) && B.Compare(x.exponent, IntToBig(0)) < 0
    ensures var s := ToString(x); var m := Mantissa(B.ToString(x.significand, 10));
      B.ParseString(s[|m| + 1..], 10) == Ok(x.exponent)
  {
    var m := Mantissa(B.ToString(x.significand, 10));
    var digits := B.ToString(x.exponent, 10);
    B.ParseToStringRoundTrip(x.exponent, 10);
    assert "" + digits == digits;
    assert ToString(x) == m + "E" + "" + digits;
    ParseAfterE(m, "", digits, x.exponent);
  }

  /** The sign goes in front of the mantissa of the magnitude's digits. */
  function ToStringCorrected(x: BigDecimal): (r: string)
    ensures x.significand.sign != B.Sign.NEGATIVE ==> r == ToString(x)
    ensures x.significand.sign == B.Sign.NEGATIVE ==>
      r == "-" + ToString(BigDecimal(B.AbsoluteValue(x.significand), x.exponent))
  {
    var magnitudeString := ToString(BigDecimal(B.AbsoluteValue(x.significand), x.exponent));
    if x.significand.sign == B.Sign.NEGATIVE then "-" + magnitudeString
    else
      assert B.ToString(B.AbsoluteValue(x.significand), 10) == B.ToString(x.significand, 10);
      ToString(x)
  }

  predicate IsDigit(c: char)
  {
    '0' <= c <= '9'
  }

  lemma {:induction false} DecimalHead(n: nat)
    ensures IsDigit(A.ToString(n, 10)[0])
    decreases n
  {
    if n >= 10 {
      A.DivShrinks(n, 10);
      DecimalHead(n / 10);
      assert A.ToString(n, 10)[0] == A.ToString(n / 10, 10)[0];
    }
  }

  /** With a non-negative significand the mantissa is the leading digit, then the dot. */
  lemma ToStringPositiveMantissa(x: BigDecimal)
    requires x.significand.sign != B.Sign.NEGATIVE
    ensures var r := ToString(x); IsDigit(r[0]) && r[1] == '.'
  {
    var s := B.ToString(x.significand, 10);
    assert s == A.ToString(x.significand.magnitude, 10);
    DecimalHead(x.significand.magnitude);
    var m := Mantissa(s);
    assert ToString(x)[..|m|] == m;
  }

  /**
   * A negative significand puts the '-' where the leading digit belongs, "-.123E+2"
   * for -123 with exponent 2.
   */
  lemma ToStringNegativeCounterexample(x: BigDecimal)
    requires x.significand.sign == B.Sign.NEGATIVE
    ensures ToString(x)[..2] == "-."
  {
    var s := B.ToString(x.significand, 10);
    var m := Mantissa(s);
    var r := ToString(x);
    assert r[..|m|] == m;
    assert r[0] == m[0] == s[0] == '-';
    assert r[1] == m[1] == '.';
  }

  /** The corrected form: an optional '-', then a digit, then the dot, whatever the sign. */
  lemma ToStringCorrectedMantissa(x: BigDecimal)
    ensures var r := ToStringCorrected(x); var i := if x.significand.sign == B.Sign.NEGATIVE then 1 else 0;
      (r[0] == '-' <==> x.significand.sign == B.Sign.NEGATIVE) && IsDigit(r[i]) && r[i + 1] == '.'
  {
    if x.significand.sign == B.Sign.NEGATIVE {
      ToStringPositiveMantissa(BigDecimal(B.AbsoluteValue(x.significand), x.exponent));
    } else {
      ToStringPositiveMantissa(x);
    }
  }

  // ------------------------------------------------------ toStringExpanded

  /** exponent.magnitude[0] for the 63-bit word backend: the low 63 bits. */
  function Word0(magnitude: nat): nat
  {
    magnitude % 0x8000_0000_0000_0000
  }

  /** ULong.toInt(): the low 32 bits read as a signed Int. */
  function ToInt(w: nat): (r: Int)
  {
    var low := w % 0x1_0000_0000;
    if low >= 0x8000_0000 then low - 0x1_0000_0000 else low
  }

  /** Int.absoluteValue, which leaves Int.MIN_VALUE negative. */
  function AbsoluteValue(v: Int): (r: Int)
    ensures r < 0 <==> v == INT_MIN_VALUE
  {
    if v == INT_MIN_VALUE then v else if v < 0 then -v else v
  }

  /** The dot position toStringExpanded computes from the exponent. */
  function ExpandedPosition(exponent: B.BigInteger): Int
  {
    AbsoluteValue(ToInt(Word0(exponent.magnitude)))
  }

  /** An exponent whose magnitude is below 2^31 gives its own magnitude as the position. */
  lemma ExpandedPositionSmall(exponent: B.BigInteger)
    requires exponent.magnitude < 0x8000_0000
    ensures ExpandedPosition(exponent) == exponent.magnitude
  {
    A.ModUnique(exponent.magnitude, 0x8000_0000_0000_0000, 0, exponent.magnitude);
    A.ModUnique(exponent.magnitude, 0x1_0000_0000, 0, exponent.magnitude);
  }

  /**
   * toStringExpanded: an exponent above Int.MAX_VALUE is refused; a positive exponent
   * pads the digits with '0's when it passes them; a zero exponent gives the digits.
   */
  function ToStringExpanded(x: BigDecimal): (r: Result<string>)
    ensures B.Compare(x.exponent, IntToBig(INT_MAX_VALUE)) > 0 ==> r == Err(ExponentOutOfRange)
    ensures x.exponent.sign == B.Sign.ZERO ==> r == Ok(B.ToString(x.significand, 10))
    ensures B.Valid(x.exponent) && 0 < B.Value(x.exponent) <= INT_MAX_VALUE ==> r.Ok?
    ensures B.Valid(x.exponent) && 0 < B.Value(x.exponent) <= INT_MAX_VALUE && B.Value(x.exponent) < Digits(x.significand) ==>
      r == PlaceADot(B.ToString(x.significand, 10), B.Value(x.exponent))
  {
    var digits := Digits(x.significand);
    if B.Compare(x.exponent, IntToBig(INT_MAX_VALUE)) > 0 then Err(ExponentOutOfRange)
    else
      var significandString := B.ToString(x.significand, 10);
      var c := B.Compare(x.exponent, IntToBig(0));
      var position := ExpandedPosition(x.exponent);
      if c > 0 then
        ExpandedPositionSmall(x.exponent);
        var padding := B.Add(B.Subtract(x.exponent, IntToBig(digits)), IntToBig(1));
        if B.Compare(padding, IntToBig(0)) > 0 then
          PlaceADot(significandString + Repeat('0', padding.magnitude), position)
        else PlaceADot(significandString, position)
      else if c < 0 then PlaceADot(significandString, position)
      else Ok(significandString)
  }

  /** An exponent at or below -2^31 wraps: -(2^32 + 1) is rendered as -1 is. */
  lemma ToStringExpandedWrapCounterexample(s: B.BigInteger)
    ensures ToStringExpanded(BigDecimal(s, IntToBig(-0x1_0000_0001))) == ToStringExpanded(BigDecimal(s, IntToBig(-1)))
  {
    A.ModUnique(0x1_0000_0001, 0x8000_0000_0000_0000, 0, 0x1_0000_0001);
    A.ModUnique(0x1_0000_0001, 0x1_0000_0000, 1, 1);
    ExpandedPositionSmall(IntToBig(-1));
  }

  /** toStringExpanded refusing, with a sign-correct compare, exponents below -Int.MAX_VALUE as well. */
  function ToStringExpandedCorrected(x: BigDecimal): (r: Result<string>)
    ensures B.Valid(x.exponent) ==> (r.Err? <==> !(-INT_MAX_VALUE <= B.Value(x.exponent) <= INT_MAX_VALUE))
    ensures B.Valid(x.exponent) && r.Ok? && B.Value(x.exponent) < 0 ==>
      r == PlaceADot(B.ToString(x.significand, 10), -B.Value(x.exponent))
    ensures B.Valid(x.exponent) && r.Ok? && B.Value(x.exponent) >= 0 ==> r == ToStringExpanded(x)
  {
    if B.CompareCorrected(x.exponent, IntToBig(-INT_MAX_VALUE)) < 0 then Err(ExponentOutOfRange)
    else if x.exponent.magnitude < 0x8000_0000 then
      ExpandedCorrectedSmall(x);
      ToStringExpanded(x)
    else
      ExpandedCorrectedLarge(x);
      ToStringExpanded(x)
  }

  /** Past the lower bound and below 2^31 in magnitude, toStringExpanded succeeds, placing a negative exponent's dot at its magnitude. */
  lemma ExpandedCorrectedSmall(x: BigDecimal)
    requires B.CompareCorrected(x.exponent, IntToBig(-INT_MAX_VALUE)) >= 0 && x.exponent.magnitude < 0x8000_0000
    ensures B.Valid(x.exponent) ==> -INT_MAX_VALUE <= B.Value(x.exponent) <= INT_MAX_VALUE && ToStringExpanded(x).Ok?
    ensures B.Valid(x.exponent) && B.Value(x.exponent) < 0 ==>
      ToStringExpanded(x) == PlaceADot(B.ToString(x.significand, 10), -B.Value(x.exponent))
  {
    ExpandedPositionSmall(x.exponent);
    if B.Valid(x.exponent) && B.Value(x.exponent) < 0 {
      assert B.Compare(x.exponent, IntToBig(0)) < 0;
      assert B.Compare(x.exponent, IntToBig(INT_MAX_VALUE)) <= 0;
    }
  }

  /** Past the lower bound and at least 2^31 in magnitude, a valid exponent is above Int.MAX_VALUE and refused. */
  lemma ExpandedCorrectedLarge(x: BigDecimal)
    requires B.CompareCorrected(x.exponent, IntToBig(-INT_MAX_VALUE)) >= 0 && x.exponent.magnitude >= 0x8000_0000
    ensures B.Valid(x.exponent) ==> B.Value(x.exponent) > INT_MAX_VALUE && ToStringExpanded(x).Err?
  {
    if B.Valid(x.exponent) {
      B.CompareAgreesOffNegatives(x.exponent, IntToBig(INT_MAX_VALUE));
    }
  }

  /**
   * Expanded notation for the digits m of a significand and its exponent e: e + 1 digits
   * stand before the dot, '0's filling in when there are fewer than that, and "0." and
   * -e - 1 '0's go ahead of the digits when e is negative; trailing '0's after a dot are
   * dropped.
   */
  predicate ExpandedLayout(s: string, m: string, e: int)
  {
    if e >= |m| - 1 then s == m + Repeat('0', e - |m| + 1)
    else if e >= 0 then
      e + 1 < |s| <= |m| + 1 && s[..e + 1] == m[..e + 1] && s[e + 1] == '.' && s[e + 2..] == m[e + 1..|s| - 1]
      && forall i :: |s| - 1 <= i < |m| ==> m[i] == '0'
    else FractionLayout(s, Repeat('0', -e - 1) + m)
  }

  /** "0." followed by the digits z, with only trailing '0's of z left out. */
  predicate FractionLayout(s: string, z: string)
  {
    2 <= |s| <= |z| + 2 && s[..2] == "0." && s[2..] == z[..|s| - 2]
    && forall i :: |s| - 2 <= i < |z| ==> z[i] == '0'
  }

  /** The digits laid out for the exponent, placing the dot with placeADotInString. */
  function ExpandedDigits(m: string, e: int): (r: string)
    requires |m| >= 1
    ensures ExpandedLayout(r, m, e)
  {
    if e >= |m| - 1 then m + Repeat('0', e - |m| + 1)
    else if e >= 0 then
      DotWithinLayout(m, e);
      PlaceADot(m, |m| - 1 - e).value
    else
      DotPaddedLayout(m, e);
      PlaceADot(Repeat('0', -e) + m, |m| - 1 - e).value
  }

  lemma DotWithinLayout(m: string, e: int)
    requires 0 <= e < |m| - 1
    ensures ExpandedLayout(PlaceADot(m, |m| - 1 - e).value, m, e)
  {
    PlaceADotWithin(m, |m| - 1 - e);
  }

  lemma DotPaddedLayout(m: string, e: int)
    requires |m| >= 1 && e < 0
    ensures FractionLayout(PlaceADot(Repeat('0', -e) + m, |m| - 1 - e).value, Repeat('0', -e - 1) + m)
  {
    var padded := Repeat('0', -e) + m;
    PaddedTail(m, e, padded);
    FractionFromPadded(padded, Repeat('0', -e - 1) + m, |m| - 1 - e);
  }

  /** A dot after the first of the digits "0" + z gives the fraction layout of z. */
  lemma FractionFromPadded(padded: string, z: string, position: nat)
    requires |padded| == position + 1 && padded[..1] == "0" && padded[1..] == z
    ensures FractionLayout(PlaceADot(padded, position).value, z)
  {
    var s := PlaceADot(padded, position).value;
    PlaceADotWithin(padded, position);
    assert s[..2] == "0." by {
      assert s[..2] == s[..1] + [s[1]];
    }
    assert s[2..] == z[..|s| - 2];
    forall i | |s| - 2 <= i < |z|
      ensures z[i] == '0'
    {
      assert z[i] == padded[i + 1];
    }
  }

  lemma PaddedTail(m: string, e: int, padded: string)
    requires e < 0 && padded == Repeat('0', -e) + m
    ensures padded[..1] == "0" && padded[1..] == Repeat('0', -e - 1) + m
  {
    var z := Repeat('0', -e - 1) + m;
    assert |padded[1..]| == |z|;
    forall i | 0 <= i < |z|
      ensures padded[1..][i] == z[i]
    {
      if i + 1 < -e {
        assert padded[i + 1] == '0';
      } else {
        assert padded[i + 1] == m[i + 1 + e];
      }
    }
  }

  /**
   * toStringExpanded with the dot where the exponent puts it, the sign ahead of the
   * magnitude's digits; only an exponent above Int.MAX_VALUE is refused.
   */
  function ToStringExpandedPlaced(x: BigDecimal): (r: Result<string>)
    ensures r.Err? <==> B.Value(x.exponent) > INT_MAX_VALUE
    ensures r.Err? ==> r.error == ExponentOutOfRange
    ensures r.Ok? && x.significand.sign == B.Sign.NEGATIVE ==>
      |r.value| >= 1 && r.value[0] == '-' && ExpandedLayout(r.value[1..], A.ToString(x.significand.magnitude, 10), B.Value(x.exponent))
    ensures r.Ok? && x.significand.sign != B.Sign.NEGATIVE ==>
      ExpandedLayout(r.value, A.ToString(x.significand.magnitude, 10), B.Value(x.exponent))
  {
    var e := B.Value(x.exponent);
    if e > INT_MAX_VALUE then Err(ExponentOutOfRange)
    else
      var m := A.ToString(x.significand.magnitude, 10);
      A.ToStringHead(x.significand.magnitude, 10);
      var digits := ExpandedDigits(m, e);
      if x.significand.sign == B.Sign.NEGATIVE then
        assert ("-" + digits)[1..] == digits;
        Ok("-" + digits)
      else Ok(digits)
  }

  /** The digits of 12345: five of them, printed as "12345". */
  lemma Digits12345()
    ensures A.DecimalDigits(12345) == 5
    ensures A.ToString(12345, 10) == "12345"
  {
    assert A.DecimalDigits(12) == 2;
    assert A.DecimalDigits(1234) == 4;
    assert A.ToString(12, 10) == "12";
    assert A.ToString(123, 10) == "123";
    assert A.ToString(1234, 10) == "1234";
  }

  /** 12345 with exponent 1 stands for 12.345, but toStringExpanded prints "1234.5". */
  lemma ToStringExpandedDotCounterexample()
    ensures DecimalValue(BigDecimal(IntToBig(12345), IntToBig(1))) == 12.345
    ensures ToStringExpanded(BigDecimal(IntToBig(12345), IntToBig(1))) == Ok("1234.5")
    ensures ToStringExpandedPlaced(BigDecimal(IntToBig(12345), IntToBig(1))) == Ok("12.345")
  {
    Digits12345();
    assert Scale(12345.0, -3) == 12.345;
    ExpandedAsWritten12345();
    ExpandedPlaced12345();
  }

  lemma ExpandedAsWritten12345()
    requires A.DecimalDigits(12345) == 5 && A.ToString(12345, 10) == "12345"
    ensures ToStringExpanded(BigDecimal(IntToBig(12345), IntToBig(1))) == Ok("1234.5")
  {
    assert B.ToString(IntToBig(12345), 10) == "12345";
    assert Prepared("12345", 1) == "1234.5";
  }

  lemma ExpandedPlaced12345()
    requires A.ToString(12345, 10) == "12345"
    ensures ToStringExpandedPlaced(BigDecimal(IntToBig(12345), IntToBig(1))) == Ok("12.345")
  {
    assert Prepared("12345", 3) == "12.345";
    assert ExpandedDigits("12345", 1) == "12.345";
  }
}
