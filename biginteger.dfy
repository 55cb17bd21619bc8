/**
 * The sign-aware integer: a magnitude with a separate sign tag.  Every operation is a case
 * split on the signs (and on a magnitude comparison) that hands the magnitude work to the
 * backend in module Arithmetic.
 */
module BigIntegers {
  import opened Errors
  import A = Arithmetic

  // Kotlin's fixed-width integer types, as ranges of int.
  type Int = x: int | -0x8000_0000 <= x < 0x8000_0000
  type Long = x: int | -0x8000_0000_0000_0000 <= x < 0x8000_0000_0000_0000
  type ULong = x: int | 0 <= x < 0x1_0000_0000_0000_0000

  const LONG_MAX_VALUE: Long := 0x7FFF_FFFF_FFFF_FFFF

  // ------------------------------------------------------------------ Sign

  datatype Sign = POSITIVE | NEGATIVE | ZERO {

    /** `!sign`: swaps POSITIVE and NEGATIVE and keeps ZERO. */
    function Not(): (r: Sign)
      ensures r.ToInt() == -ToInt()
    {
      match this
      case POSITIVE => NEGATIVE
      case NEGATIVE => POSITIVE
      case ZERO => ZERO
    }

    /** 1, -1 and 0 for POSITIVE, NEGATIVE and ZERO. */
    function ToInt(): (r: int)
      ensures -1 <= r <= 1
      ensures r == 0 <==> this == ZERO
      ensures r > 0 <==> this == POSITIVE
    {
      match this
      case POSITIVE => 1
      case NEGATIVE => -1
      case ZERO => 0
    }
  }

  lemma NotIsInvolution(s: Sign)
    ensures s.Not().Not() == s
    ensures (s.Not() == s) <==> (s == Sign.ZERO)
  {
  }

  // ------------------------------------------------------------- the value

  /** A BigInteger: the magnitude its word array denotes, and the sign tag. */
  datatype BigInteger = BigInteger(magnitude: nat, sign: Sign)

  const ZERO := BigInteger(0, Sign.ZERO)
  const ONE := BigInteger(1, POSITIVE)
  const TEN := BigInteger(10, POSITIVE)

  /** The integer a BigInteger denotes; a ZERO sign denotes 0 whatever the magnitude. */
  function Value(x: BigInteger): int
  {
    match x.sign
    case POSITIVE => x.magnitude
    case NEGATIVE => -(x.magnitude as int)
    case ZERO => 0
  }

  /** The representation invariant: the magnitude is zero iff the sign is ZERO. */
  predicate Valid(x: BigInteger)
  {
    (x.magnitude == 0) <==> (x.sign == Sign.ZERO)
  }

  /** The half of the invariant that the arithmetic needs: a ZERO sign carries a zero magnitude. */
  predicate ZeroSound(x: BigInteger)
  {
    x.sign == Sign.ZERO ==> x.magnitude == 0
  }

  function Abs(v: int): nat
  {
    if v < 0 then -v else v
  }

  /** Three-way comparison of integers: the reference for the signed compare. */
  function IntCompare(a: int, b: int): int
  {
    if a < b then -1 else if a > b then 1 else 0
  }

  /** v to the power e, on integers. */
  function IntPow(v: int, e: nat): int
  {
    if e == 0 then 1 else v * IntPow(v, e - 1)
  }

  /** Java's `/` on integers: the quotient truncated toward zero. */
  function TruncDiv(a: int, b: int): int
    requires b != 0
  {
    if (a < 0) == (b < 0) then Abs(a) / Abs(b) else -(Abs(a) / Abs(b))
  }

  /** Java's `%` on integers: what is left after TruncDiv; it takes the dividend's sign. */
  function TruncRem(a: int, b: int): (r: int)
    requires b != 0
    ensures r == if a < 0 then -(Abs(a) % Abs(b)) else Abs(a) % Abs(b)
  {
    TruncRemMagnitude(a, b);
    a - b * TruncDiv(a, b)
  }

  lemma TruncRemMagnitude(a: int, b: int)
    requires b != 0
    ensures a - b * TruncDiv(a, b) == if a < 0 then -(Abs(a) % Abs(b)) else Abs(a) % Abs(b)
  {
    var m: int, d: int := Abs(a), Abs(b);
    var q: int, rest: int := m / d, m % d;
    assert m == d * q + rest;
    var t := TruncDiv(a, b);
    if a < 0 && b < 0 {
      assert t == q && b * t == -(d * q);
    } else if a < 0 {
      assert t == -q && b * t == -(d * q);
    } else if b < 0 {
      assert t == -q && b * t == d * q;
    } else {
      assert t == q && b * t == d * q;
    }
  }

  /** A quotient is zero exactly when the dividend is below the divisor. */
  lemma DivIsZero(m: nat, d: nat)
    requires d > 0
    ensures m / d == 0 <==> m < d
  {
    if m >= d {
      assert m == d * (m / d) + m % d;
    }
  }

  // ----------------------------------------------------------- construction

  /** BigInteger(long): magnitude |x| with the sign of x. */
  function FromLong(x: Long): (r: BigInteger)
    ensures Valid(r) && Value(r) == x
  {
    var sign := if x < 0 then NEGATIVE else if x > 0 then POSITIVE else Sign.ZERO;
    BigInteger(Abs(x), sign)
  }

  /** fromULong: always POSITIVE, so 0 gives a POSITIVE zero magnitude. */
  function FromULong(u: ULong): (r: BigInteger)
    ensures ZeroSound(r) && Value(r) == u
    ensures Valid(r) <==> u != 0
  {
    BigInteger(u, POSITIVE)
  }

  /** The digits parseString hands to the backend: the string without its sign. */
  function UnsignedPart(s: string): string
  {
    if |s| > 0 && (s[0] == '-' || s[0] == '+') then s[1..] else s
  }

  function ParseString(s: string, base: nat): (r: Result<BigInteger>)
    requires A.ValidBase(base)
    ensures |s| == 0 ==> r == Err(IndexOutOfBounds)
    ensures (s == "-" || s == "+") ==> r == Err(NumberFormat)
    ensures s == "0" || s == "+0" || s == "-0" ==> r == Ok(ZERO)
    ensures |s| >= 1 && s != "-" && s != "+" && A.ParseForBase(UnsignedPart(s), base).Ok? ==> r.Ok?
    ensures |s| >= 1 && s != "-" && s != "+" && A.ParseForBase(UnsignedPart(s), base).Err? ==>
      r == Err(A.ParseForBase(UnsignedPart(s), base).error)
    ensures r.Ok? ==> ZeroSound(r.value) && A.ParseForBase(UnsignedPart(s), base) == Ok(r.value.magnitude)
    ensures r.Ok? && r.value != ZERO ==> (r.value.sign == NEGATIVE <==> s[0] == '-')
  {
    if |s| == 0 then Err(IndexOutOfBounds)
    else if s[0] == '-' || s[0] == '+' then
      if |s| == 1 then Err(NumberFormat)
      else
        var sign := if s[0] == '-' then NEGATIVE else POSITIVE;
        if |s| == 2 && s[1] == '0' then
          assert A.ParseDigits(s[1..][..0], base) == Ok(0);
          Ok(ZERO)
        else
          match A.ParseForBase(s[1..], base)
          case Err(e) => Err(e)
          case Ok(m) => Ok(BigInteger(m, sign))
    else if |s| == 1 && s[0] == '0' then
      assert A.ParseDigits(s[..0], base) == Ok(0);
      Ok(ZERO)
    else
      match A.ParseForBase(s, base)
      case Err(e) => Err(e)
      case Ok(m) => Ok(BigInteger(m, POSITIVE))
  }

  // ------------------------------------------------------------ arithmetic

  function Add(x: BigInteger, y: BigInteger): (r: BigInteger)
    ensures ZeroSound(x) && ZeroSound(y) ==> ZeroSound(r) && Value(r) == Value(x) + Value(y)
    ensures Valid(x) && Valid(y) ==> Valid(r)
  {
    var comparison := A.Compare(x.magnitude, y.magnitude);
    if y.sign == x.sign then BigInteger(A.Add(x.magnitude, y.magnitude), x.sign)
    else if comparison > 0 then BigInteger(A.Substract(x.magnitude, y.magnitude), x.sign)
    else if comparison < 0 then BigInteger(A.Substract(y.magnitude, x.magnitude), y.sign)
    else ZERO
  }

  function Subtract(x: BigInteger, y: BigInteger): (r: BigInteger)
    ensures ZeroSound(x) && ZeroSound(y) ==> ZeroSound(r) && Value(r) == Value(x) - Value(y)
    ensures Valid(x) && Valid(y) ==> Valid(r)
  {
    var comparison := A.Compare(x.magnitude, y.magnitude);
    if Equals(x, ZERO) then Negate(y)
    else if Equals(y, ZERO) then x
    else if y.sign == x.sign then
      if comparison > 0 then BigInteger(A.Substract(x.magnitude, y.magnitude), x.sign)
      else if comparison < 0 then BigInteger(A.Substract(y.magnitude, x.magnitude), x.sign.Not())
      else ZERO
    else BigInteger(A.Add(x.magnitude, y.magnitude), x.sign)
  }

  function Multiply(x: BigInteger, y: BigInteger): (r: BigInteger)
    ensures ZeroSound(x) && ZeroSound(y) ==> ZeroSound(r) && Value(r) == Value(x) * Value(y)
    ensures Valid(x) && Valid(y) ==> Valid(r)
  {
    if x.sign == Sign.ZERO || y.sign == Sign.ZERO then ZERO
    else
      var sign := if x.sign != y.sign then NEGATIVE else POSITIVE;
      BigInteger(A.Multiply(x.magnitude, y.magnitude), sign)
  }

  /** The sign given to a quotient or remainder: NEGATIVE exactly when the signs differ. */
  function SignsMatchSign(x: BigInteger, y: BigInteger): Sign
  {
    if x.sign != y.sign then NEGATIVE else POSITIVE
  }

  function Divide(x: BigInteger, y: BigInteger): (r: Result<BigInteger>)
    ensures r.Err? <==> y.sign == Sign.ZERO || y.magnitude == 0
    ensures r.Err? ==> r.error == DivisionByZero
    ensures r.Ok? ==> Valid(r.value) && r.value.magnitude == x.magnitude / y.magnitude
    ensures r.Ok? && ZeroSound(x) ==> Value(r.value) == TruncDiv(Value(x), Value(y))
  {
    if y.sign == Sign.ZERO then Err(DivisionByZero)
    else match A.Divide(x.magnitude, y.magnitude)
      case Err(e) => Err(e)
      case Ok(qr) =>
        if qr.0 == 0 then Ok(ZERO) else Ok(BigInteger(qr.0, SignsMatchSign(x, y)))
  }

  /** remainder(): the backend remainder with the signs-match sign, not normalised. */
  function Remainder(x: BigInteger, y: BigInteger): (r: Result<BigInteger>)
    ensures r.Err? <==> y.sign == Sign.ZERO || y.magnitude == 0
    ensures r.Err? ==> r.error == DivisionByZero
    ensures r.Ok? ==> r.value.magnitude == x.magnitude % y.magnitude && r.value.sign == SignsMatchSign(x, y)
    ensures r.Ok? && ZeroSound(x) ==> Abs(Value(r.value)) == Abs(TruncRem(Value(x), Value(y)))
  {
    if y.sign == Sign.ZERO then Err(DivisionByZero)
    else
      var sign := SignsMatchSign(x, y);
      match A.Divide(x.magnitude, y.magnitude)
      case Err(e) => Err(e)
      case Ok(qr) => Ok(BigInteger(qr.1, sign))
  }

  function DivideAndRemainder(x: BigInteger, y: BigInteger): (r: Result<(BigInteger, BigInteger)>)
    ensures r.Err? <==> y.sign == Sign.ZERO || y.magnitude == 0
    ensures r.Err? ==> r.error == DivisionByZero
    ensures r.Ok? ==> Valid(r.value.0) && Valid(r.value.1)
    ensures r.Ok? ==> Ok(r.value.0) == Divide(x, y)
    ensures r.Ok? ==> r.value.1.magnitude == x.magnitude % y.magnitude
    ensures r.Ok? && r.value.1 != ZERO ==> r.value.1.sign == SignsMatchSign(x, y)
  {
    if y.sign == Sign.ZERO then Err(DivisionByZero)
    else
      var sign := SignsMatchSign(x, y);
      match A.Divide(x.magnitude, y.magnitude)
      case Err(e) => Err(e)
      case Ok(qr) =>
        var quotient := if qr.0 == 0 then ZERO else BigInteger(qr.0, sign);
        var remainder := if qr.1 == 0 then ZERO else BigInteger(qr.1, sign);
        Ok((quotient, remainder))
  }

  // ------------------------------------------------------------ comparison

  function Compare(x: BigInteger, y: BigInteger): (r: int)
    ensures r == -1 || r == 0 || r == 1
  {
    if x.sign == Sign.ZERO && y.sign == Sign.ZERO then 0
    else if y.sign == Sign.ZERO && x.sign == POSITIVE then 1
    else if y.sign == Sign.ZERO && x.sign == NEGATIVE then -1
    else if x.sign == Sign.ZERO && y.sign == POSITIVE then -1
    else if x.sign == Sign.ZERO && y.sign == NEGATIVE then 1
    else if x.sign != y.sign then (if x.sign == POSITIVE then 1 else -1)
    else A.Compare(x.magnitude, y.magnitude)
  }

  /**
   * equals(other) on another BigInteger: compare(other) == 0, which holds exactly for the
   * same sign and, off ZERO, the same magnitude.
   */
  function Equals(x: BigInteger, y: BigInteger): (r: bool)
    ensures r <==> x.sign == y.sign && (x.sign == Sign.ZERO || x.magnitude == y.magnitude)
  {
    Compare(x, y) == 0
  }

  /** max: one of the two, placed by compare at or above both. */
  function Max(first: BigInteger, second: BigInteger): (r: BigInteger)
    ensures r == first || r == second
    ensures Compare(r, first) >= 0 && Compare(r, second) >= 0
  {
    CompareReflexive(first);
    CompareReflexive(second);
    CompareAntisymmetric(first, second);
    if Compare(first, second) > 0 then first else second
  }

  /** min: one of the two, placed by compare at or below both. */
  function Min(first: BigInteger, second: BigInteger): (r: BigInteger)
    ensures r == first || r == second
    ensures Compare(r, first) <= 0 && Compare(r, second) <= 0
  {
    CompareReflexive(first);
    CompareReflexive(second);
    CompareAntisymmetric(first, second);
    if Compare(first, second) < 0 then first else second
  }

  lemma CompareReflexive(x: BigInteger)
    ensures Compare(x, x) == 0
  {
  }

  // ---------------------------------------------------- unary operations

  function Negate(x: BigInteger): (r: BigInteger)
    ensures Value(r) == -Value(x) && r.magnitude == x.magnitude
    ensures ZeroSound(r) <==> ZeroSound(x)
    ensures Valid(r) <==> Valid(x)
  {
    BigInteger(x.magnitude, x.sign.Not())
  }

  /** abs(): the magnitude with a POSITIVE sign, even for a zero magnitude. */
  function AbsoluteValue(x: BigInteger): (r: BigInteger)
    ensures ZeroSound(x) ==> Value(r) == Abs(Value(x))
    ensures Valid(r) <==> x.magnitude != 0
  {
    BigInteger(x.magnitude, POSITIVE)
  }

  /**
   * pow(Long), and pow(Int) through it.  The sign follows the exponent's parity for every
   * exponent (Kotlin's remainder of an odd negative exponent is -1, not 0); the magnitude is
   * the backend's power, which is the integer power for an exponent that is not negative.
   */
  function Pow(x: BigInteger, exponent: Long): (r: BigInteger)
    ensures ZeroSound(x) && exponent >= 0 ==> Value(r) == IntPow(Value(x), exponent)
    ensures r.sign == NEGATIVE <==> x.sign == NEGATIVE && TruncRem(exponent, 2) != 0
    ensures exponent >= 0 ==> (Valid(r) <==> x.magnitude != 0 || exponent == 0)
  {
    var sign := if x.sign == NEGATIVE then (if TruncRem(exponent, 2) == 0 then POSITIVE else NEGATIVE) else POSITIVE;
    var r := BigInteger(A.PowMagnitude(x.magnitude, exponent), sign);
    if exponent >= 0 then PowMagnitudeFacts(x.magnitude, exponent); r else r
  }

  lemma {:induction false} PowMagnitudeFacts(m: nat, e: nat)
    ensures A.Pow(m, e) == 0 <==> m == 0 && e > 0
    ensures IntPow(m, e) == A.Pow(m, e)
    ensures IntPow(-(m as int), e) == if e % 2 == 0 then A.Pow(m, e) else -(A.Pow(m, e) as int)
  {
    if e > 0 {
      PowMagnitudeFacts(m, e - 1);
      if m > 0 {
        A.PowPositive(m, e);
      }
    }
  }

  function Signum(x: BigInteger): (r: int)
    ensures Valid(x) ==> r == IntCompare(Value(x), 0)
  {
    x.sign.ToInt()
  }

  /** toString(base): a '-' for a NEGATIVE sign, then the magnitude's digits. */
  function ToString(x: BigInteger, base: nat): (r: string)
    requires A.ValidBase(base)
    ensures |r| >= 1
    ensures r[0] == '-' <==> x.sign == NEGATIVE
  {
    A.ToStringHead(x.magnitude, base);
    (if x.sign == NEGATIVE then "-" else "") + A.ToString(x.magnitude, base)
  }

  // ---------------------------------------------------------- bit operations

  /** shl: the magnitude shifted by the backend, the sign kept. */
  function Shl(x: BigInteger, places: Int): (r: BigInteger)
    ensures r.sign == x.sign
    ensures ZeroSound(x) && places >= 0 ==> Value(r) == Value(x) * A.Pow2(places)
    ensures Valid(x) && places >= 0 ==> Valid(r)
  {
    BigInteger(A.ShiftLeft(x.magnitude, places), x.sign)
  }

  /** shr: the magnitude shifted, the sign kept (truncation toward zero on negatives). */
  function Shr(x: BigInteger, places: Int): (r: BigInteger)
    ensures r.sign == x.sign
    ensures ZeroSound(x) && places >= 0 ==> Value(r) == TruncDiv(Value(x), A.Pow2(places))
    ensures Valid(x) && places >= 0 ==> (Valid(r) <==> x.magnitude == 0 || x.magnitude >= A.Pow2(places))
  {
    var r := BigInteger(A.ShiftRight(x.magnitude, places), x.sign);
    if places >= 0 then DivIsZero(x.magnitude, A.Pow2(places)); r else r
  }

  function And(x: BigInteger, y: BigInteger): (r: BigInteger)
    ensures r.sign == x.sign && r.magnitude == A.BitAnd(x.magnitude, y.magnitude)
    ensures Valid(x) ==> (Valid(r) <==> x.magnitude == 0 || A.BitAnd(x.magnitude, y.magnitude) != 0)
  {
    BigInteger(A.BitAnd(x.magnitude, y.magnitude), x.sign)
  }

  function Or(x: BigInteger, y: BigInteger): (r: BigInteger)
    ensures r.sign == x.sign && r.magnitude == A.BitOr(x.magnitude, y.magnitude)
    ensures Valid(x) ==> (Valid(r) <==> x.sign != Sign.ZERO || y.magnitude == 0)
  {
    BitOrZero(x.magnitude, y.magnitude);
    BigInteger(A.BitOr(x.magnitude, y.magnitude), x.sign)
  }

  function Xor(x: BigInteger, y: BigInteger): (r: BigInteger)
    ensures r.sign == x.sign && r.magnitude == A.BitXor(x.magnitude, y.magnitude)
    ensures Valid(x) ==> (Valid(r) <==> if x.sign == Sign.ZERO then y.magnitude == 0 else x.magnitude != y.magnitude)
  {
    BitXorZero(x.magnitude, y.magnitude);
    BigInteger(A.BitXor(x.magnitude, y.magnitude), x.sign)
  }

  /** not(): complement within the magnitude's bit length, sign kept. */
  function Not(x: BigInteger): (r: BigInteger)
    ensures r.sign == x.sign
    ensures x.magnitude + r.magnitude + 1 == A.Pow2(A.BitLength(x.magnitude))
    ensures Valid(x) ==> (Valid(r) <==> x.magnitude == 0 || x.magnitude + 1 != A.Pow2(A.BitLength(x.magnitude)))
  {
    BigInteger(A.BitNot(x.magnitude), x.sign)
  }

  lemma {:induction false} BitOrZero(a: nat, b: nat)
    ensures A.BitOr(a, b) == 0 <==> a == 0 && b == 0
    decreases a
  {
    if a != 0 && b != 0 {
      BitOrZero(a / 2, b / 2);
    }
  }

  lemma {:induction false} BitXorZero(a: nat, b: nat)
    ensures A.BitXor(a, b) == 0 <==> a == b
    decreases a
  {
    if a != 0 && b != 0 {
      BitXorZero(a / 2, b / 2);
    }
  }

  // ---------------------------------------------------------- properties

  /** Parsing what toString(base) prints gives the number back. */
  lemma ParseToStringRoundTrip(x: BigInteger, base: nat)
    requires A.ValidBase(base) && Valid(x)
    ensures ParseString(ToString(x, base), base) == Ok(x)
  {
    var digits := A.ToString(x.magnitude, base);
    if x.sign == NEGATIVE {
      assert ToString(x, base) == "-" + digits;
      ParseMinusDigits(x.magnitude, base);
    } else if x.sign == POSITIVE {
      assert ToString(x, base) == digits;
      ParseDigitsAlone(x.magnitude, base);
    } else {
      assert ToString(x, base) == "0";
    }
  }

  /** A '-' before the digits of a non-zero magnitude parses to a NEGATIVE number. */
  lemma ParseMinusDigits(n: nat, base: nat)
    requires A.ValidBase(base) && n > 0
    ensures ParseString("-" + A.ToString(n, base), base) == Ok(BigInteger(n, NEGATIVE))
  {
    var s := "-" + A.ToString(n, base);
    A.ToStringHead(n, base);
    A.ParseToString(n, base);
    assert s[1..] == A.ToString(n, base);
  }

  /** The digits of a non-zero magnitude alone parse to a POSITIVE number. */
  lemma ParseDigitsAlone(n: nat, base: nat)
    requires A.ValidBase(base) && n > 0
    ensures ParseString(A.ToString(n, base), base) == Ok(BigInteger(n, POSITIVE))
  {
    A.ToStringHead(n, base);
    A.ParseToString(n, base);
  }

  /** An explicit '+' before the digits of a non-zero magnitude parses to a POSITIVE number. */
  lemma ParsePlusDigits(n: nat, base: nat)
    requires A.ValidBase(base) && n > 0
    ensures ParseString("+" + A.ToString(n, base), base) == Ok(BigInteger(n, POSITIVE))
  {
    var s := "+" + A.ToString(n, base);
    A.ToStringHead(n, base);
    A.ParseToString(n, base);
    assert s[1..] == A.ToString(n, base);
  }

  /** "00" parses to a POSITIVE sign over a zero magnitude, outside the invariant. */
  lemma ParseDoubleZero()
    ensures ParseString("00", 10) == Ok(BigInteger(0, POSITIVE))
    ensures !Valid(BigInteger(0, POSITIVE))
  {
    assert "00"[..1] == "0" && "0"[..0] == "";
    assert A.ParseDigits("0", 10) == Ok(0);
  }

  /** compare agrees with the integers except when both signs are NEGATIVE ... */
  lemma CompareAgreesOffNegatives(x: BigInteger, y: BigInteger)
    requires Valid(x) && Valid(y) && !(x.sign == NEGATIVE && y.sign == NEGATIVE)
    ensures Compare(x, y) == IntCompare(Value(x), Value(y))
  {
  }

  /** ... where it compares the magnitudes, the reverse of the integer order. */
  lemma CompareReversedOnNegatives(x: BigInteger, y: BigInteger)
    requires Valid(x) && Valid(y) && x.sign == NEGATIVE && y.sign == NEGATIVE
    ensures Compare(x, y) == IntCompare(Value(y), Value(x))
    ensures x != y ==> Compare(x, y) != IntCompare(Value(x), Value(y))
  {
  }

  lemma CompareCounterexample()
    ensures Compare(FromLong(-5), FromLong(-3)) == 1
    ensures IntCompare(-5, -3) == -1
  {
  }

  /** The compare that the integer order calls for: the magnitudes' order, reversed for two negatives. */
  function CompareCorrected(x: BigInteger, y: BigInteger): (r: int)
    ensures Valid(x) && Valid(y) ==> r == IntCompare(Value(x), Value(y))
  {
    if x.sign == NEGATIVE && y.sign == NEGATIVE then A.Compare(y.magnitude, x.magnitude)
    else Compare(x, y)
  }

  lemma CompareAntisymmetric(x: BigInteger, y: BigInteger)
    ensures Compare(x, y) == -Compare(y, x)
  {
  }

  /** On valid numbers equals is structural equality, and equality of values. */
  lemma EqualsIsEquality(x: BigInteger, y: BigInteger)
    requires Valid(x) && Valid(y)
    ensures Equals(x, y) <==> x == y
    ensures Equals(x, y) <==> Value(x) == Value(y)
  {
  }

  /** max and min follow compare, so they pick the wrong one of two negatives. */
  lemma MaxMinValues(x: BigInteger, y: BigInteger)
    requires Valid(x) && Valid(y)
    ensures !(x.sign == NEGATIVE && y.sign == NEGATIVE) ==>
      Value(Max(x, y)) == (if Value(x) >= Value(y) then Value(x) else Value(y)) &&
      Value(Min(x, y)) == (if Value(x) <= Value(y) then Value(x) else Value(y))
    ensures x.sign == NEGATIVE && y.sign == NEGATIVE ==>
      Value(Max(x, y)) == (if Value(x) <= Value(y) then Value(x) else Value(y)) &&
      Value(Min(x, y)) == (if Value(x) >= Value(y) then Value(x) else Value(y))
  {
  }

  lemma NegateInvolution(x: BigInteger)
    ensures Negate(Negate(x)) == x
  {
    NotIsInvolution(x.sign);
  }

  /** abs keeps a NEGATIVE zero magnitude as a POSITIVE zero magnitude ... */
  lemma AbsOfZeroMagnitude()
    ensures AbsoluteValue(BigInteger(0, NEGATIVE)) == BigInteger(0, POSITIVE)
    ensures AbsoluteValue(ZERO) == BigInteger(0, POSITIVE) && !Valid(AbsoluteValue(ZERO))
  {
  }

  /** ... the intended abs keeps ZERO as ZERO. */
  function AbsCorrected(x: BigInteger): (r: BigInteger)
    ensures ZeroSound(x) ==> Value(r) == Abs(Value(x)) && Valid(r) && r.sign != NEGATIVE
    ensures Valid(x) ==> Valid(r)
  {
    if x.magnitude == 0 then ZERO else BigInteger(x.magnitude, POSITIVE)
  }

  /** remainder with a negative divisor has the wrong sign ... */
  lemma RemainderCounterexample()
    ensures Remainder(FromLong(7), FromLong(-2)) == Ok(BigInteger(1, NEGATIVE))
    ensures TruncRem(7, -2) == 1
    ensures Remainder(FromLong(4), FromLong(2)) == Ok(BigInteger(0, POSITIVE))
    ensures Remainder(ZERO, FromLong(3)) == Ok(BigInteger(0, NEGATIVE))
  {
    assert A.Divide(7, 2) == Ok((3, 1));
    assert A.Divide(4, 2) == Ok((2, 0));
    assert A.Divide(0, 3) == Ok((0, 0));
  }

  /** ... and quotient times divisor plus remainder misses the dividend for a negative divisor. */
  lemma DivideAndRemainderIdentity(x: BigInteger, y: BigInteger)
    requires ZeroSound(x) && Valid(y)
    requires DivideAndRemainder(x, y).Ok?
    ensures var (q, r) := DivideAndRemainder(x, y).value;
      Value(q) * Value(y) + Value(r) == Value(x) <==> y.sign == POSITIVE || r == ZERO
  {
    var (q, r) := DivideAndRemainder(x, y).value;
    var qm, rm := x.magnitude / y.magnitude, x.magnitude % y.magnitude;
    assert x.magnitude == qm * y.magnitude + rm;
    assert Value(q) == qm * SignsMatchSign(x, y).ToInt();
    assert Value(r) == rm * SignsMatchSign(x, y).ToInt();
    if x.sign == Sign.ZERO {
      assert rm == 0 && qm == 0;
    }
  }

  lemma DivideAndRemainderCounterexample()
    ensures DivideAndRemainder(FromLong(-7), FromLong(-2)) == Ok((BigInteger(3, POSITIVE), BigInteger(1, POSITIVE)))
    ensures 3 * -2 + 1 != -7
  {
    assert A.Divide(7, 2) == Ok((3, 1));
  }

  /** The intended remainder: the dividend's sign, and ZERO for a zero magnitude. */
  function RemainderCorrected(x: BigInteger, y: BigInteger): (r: Result<BigInteger>)
    ensures r.Err? <==> y.sign == Sign.ZERO || y.magnitude == 0
    ensures r.Ok? && ZeroSound(x) ==> Valid(r.value) && Value(r.value) == TruncRem(Value(x), Value(y))
  {
    if y.sign == Sign.ZERO then Err(DivisionByZero)
    else match A.Divide(x.magnitude, y.magnitude)
      case Err(e) => Err(e)
      case Ok(qr) => if qr.1 == 0 then Ok(ZERO) else Ok(BigInteger(qr.1, x.sign))
  }

  /** The intended divideAndRemainder: Divide's quotient and RemainderCorrected's remainder. */
  function DivideAndRemainderCorrected(x: BigInteger, y: BigInteger): (r: Result<(BigInteger, BigInteger)>)
    ensures r.Err? <==> y.sign == Sign.ZERO || y.magnitude == 0
    ensures r.Ok? ==> Valid(r.value.0)
    ensures r.Ok? && ZeroSound(x) ==> Valid(r.value.1)
    ensures r.Ok? && ZeroSound(x) ==>
      Value(r.value.0) * Value(y) + Value(r.value.1) == Value(x) &&
      Abs(Value(r.value.1)) < Abs(Value(y)) &&
      (Value(r.value.1) == 0 || (Value(r.value.1) < 0 <==> Value(x) < 0))
  {
    match Divide(x, y)
    case Err(e) => Err(e)
    case Ok(q) =>
      var r := RemainderCorrected(x, y).value;
      assert ZeroSound(x) ==> Value(q) * Value(y) + Value(r) == Value(x) by {
        if ZeroSound(x) {
          assert Value(r) == Value(x) - Value(y) * TruncDiv(Value(x), Value(y));
        }
      }
      Ok((q, r))
  }

  /** Signum agrees with the sign of the value for valid numbers. */
  lemma SignumNegate(x: BigInteger)
    ensures Signum(Negate(x)) == -Signum(x)
  {
  }

  // ------------------------------------------------------- imperative loops

  /**
   * pow(BigInteger): an exponent up to Long.MAX_VALUE goes to pow(Long) with the
   * magnitude's lowest word read as a Long (so a negative exponent is treated as its
   * magnitude); a larger one multiplies in a loop, counting down.
   */
  method PowBig(x: BigInteger, exponent: BigInteger) returns (result: BigInteger)
    ensures ZeroSound(x) && exponent.sign == POSITIVE && exponent.magnitude > LONG_MAX_VALUE ==>
      Value(result) == IntPow(Value(x), exponent.magnitude)
    ensures ZeroSound(x) && !(exponent.sign == POSITIVE && exponent.magnitude > LONG_MAX_VALUE) ==>
      Value(result) == IntPow(Value(x), exponent.magnitude % A.Pow2(63))
    ensures ZeroSound(x) && ZeroSound(exponent) && exponent.sign != NEGATIVE ==>
      Value(result) == IntPow(Value(x), Value(exponent))
  {
    A.Pow2Of63();
    var large := exponent.sign == POSITIVE && exponent.magnitude > LONG_MAX_VALUE;
    if Compare(exponent, FromLong(LONG_MAX_VALUE)) <= 0 {
      assert !large;
      var low: Long := exponent.magnitude % A.Pow2(63);
      assert ZeroSound(exponent) && exponent.sign != NEGATIVE ==> low == Value(exponent) by {
        if ZeroSound(exponent) && exponent.sign != NEGATIVE {
          A.ModUnique(exponent.magnitude, A.Pow2(63), 0, exponent.magnitude);
        }
      }
      result := Pow(x, low);
      return;
    }
    assert large;
    var counter := exponent;
    result := ONE;
    while Compare(counter, ZERO) > 0
      invariant Valid(counter) && counter.sign != NEGATIVE
      invariant counter.magnitude <= exponent.magnitude
      invariant ZeroSound(result)
      invariant ZeroSound(x) ==> Value(result) == IntPow(Value(x), exponent.magnitude - counter.magnitude)
      decreases counter.magnitude
    {
      counter := Subtract(counter, ONE);
      result := Multiply(result, x);
    }
  }

  /**
   * numberOfDecimalDigits: divides by 10^minDigit, then counts divisions by ten until the
   * quotient is zero.  minDigit is the lower estimate derived in floating point from the bit
   * length, ceil((bitLength - 1) * log10(2)) taken as an Int; it is never below zero (the
   * zero magnitude gives ceil(-0.30...) = 0), which the requires records.
   */
  method NumberOfDecimalDigits(x: BigInteger, minDigit: Int) returns (count: int)
    requires minDigit >= 0
    ensures count == if A.DecimalDigits(x.magnitude) >= minDigit then A.DecimalDigits(x.magnitude) else minDigit
    ensures minDigit <= A.DecimalDigits(x.magnitude) ==> count == A.DecimalDigits(x.magnitude)
  {
    var divisor := Pow(FromLong(10), minDigit);
    var first := Divide(x, divisor);
    var tmp := first.value;
    var counter := 0;
    A.DecimalDigitsDiv(x.magnitude, minDigit);
    while Compare(tmp, FromLong(0)) != 0
      invariant Valid(tmp)
      invariant counter + A.DecimalDigits(tmp.magnitude) == A.DecimalDigits(x.magnitude / A.Pow(10, minDigit))
      decreases tmp.magnitude
    {
      var next := Divide(tmp, FromLong(10));
      tmp := next.value;
      counter := counter + 1;
    }
    count := counter + minDigit;
  }
}
