/**
 * The magnitude backend (the BigIntegerArithmetic interface), stated at the level of values:
 * a magnitude is the natural number its word array denotes.  The signed layer in module
 * BigIntegers delegates every piece of magnitude work to these functions.
 */
module Arithmetic {
  import opened Errors

  // ---------------------------------------------------------------- powers

  /** b raised to the power e. */
  function Pow(b: nat, e: nat): (r: nat)
    ensures b > 0 ==> r > 0
  {
    if e == 0 then 1 else b * Pow(b, e - 1)
  }

  /** 2 raised to the power n. */
  function Pow2(n: nat): (r: nat)
    ensures r >= 1
  {
    if n == 0 then 1 else 2 * Pow2(n - 1)
  }

  lemma {:induction false} Pow2Add(a: nat, b: nat)
    ensures Pow2(a + b) == Pow2(a) * Pow2(b)
  {
    if a > 0 {
      Pow2Add(a - 1, b);
      assert Pow2(a + b) == 2 * Pow2(a - 1 + b);
    }
  }

  lemma {:induction false} PowAdd(b: nat, x: nat, y: nat)
    ensures Pow(b, x + y) == Pow(b, x) * Pow(b, y)
  {
    if x > 0 {
      PowAdd(b, x - 1, y);
      assert Pow(b, x + y) == b * Pow(b, x - 1 + y);
    }
  }

  // The powers of two that the word and byte widths need.

  lemma Pow2Of8()
    ensures Pow2(8) == 0x100
  {
  }

  lemma Pow2Of16()
    ensures Pow2(16) == 0x1_0000
  {
    Pow2Of8();
    Pow2Add(8, 8);
  }

  lemma Pow2Of32()
    ensures Pow2(32) == 0x1_0000_0000
  {
    Pow2Of16();
    Pow2Add(16, 16);
  }

  lemma Pow2Of63()
    ensures Pow2(63) == 0x8000_0000_0000_0000
  {
    Pow2Of16();
    Pow2Of32();
    assert Pow2(15) == 0x8000;
    Pow2Add(16, 15);
    Pow2Add(32, 31);
  }

  lemma Pow2Of64()
    ensures Pow2(64) == 0x1_0000_0000_0000_0000
  {
    Pow2Of32();
    Pow2Add(32, 32);
  }

  lemma {:induction false} Pow2Monotone(a: nat, b: nat)
    requires a <= b
    ensures Pow2(a) <= Pow2(b)
  {
    if a < b {
      Pow2Monotone(a, b - 1);
    }
  }

  // ------------------------------------------------------ value-level backend

  /** The backend comparison: -1, 0 or 1 as `first` is below, equal to or above `second`. */
  function Compare(first: nat, second: nat): (r: int)
    ensures r == -1 || r == 0 || r == 1
    ensures r < 0 <==> first < second
    ensures r > 0 <==> first > second
  {
    if first < second then -1 else if first > second then 1 else 0
  }

  /** The backend addition: never below either operand, and zero only for two zeros. */
  function Add(first: nat, second: nat): (r: nat)
    ensures r >= first && r >= second
    ensures r == 0 <==> first == 0 && second == 0
  {
    first + second
  }

  /** The backend subtraction; its callers must put the larger magnitude first. */
  function Substract(first: nat, second: nat): (r: nat)
    requires first >= second
    ensures r <= first
    ensures r == 0 <==> first == second
  {
    first - second
  }

  /** Subtraction undoes addition, and addition undoes subtraction. */
  lemma AddSubstractInverse(first: nat, second: nat)
    ensures Substract(Add(first, second), second) == first
    ensures first >= second ==> Add(Substract(first, second), second) == first
  {
  }

  /** The backend multiplication: zero exactly when an operand is, and otherwise at least either operand. */
  function Multiply(first: nat, second: nat): (r: nat)
    ensures r == 0 <==> first == 0 || second == 0
    ensures second > 0 ==> r >= first
    ensures first > 0 ==> r >= second
  {
    if first > 0 && second > 0 then
      MulAtLeast(first, second);
      MulAtLeast(second, first);
      first * second
    else first * second
  }

  /**
   * The backend division: quotient and remainder of magnitudes, as Java's `/` and `%` give
   * them on non-negative operands; a zero divisor is an error.
   */
  function Divide(first: nat, second: nat): (r: Result<(nat, nat)>)
    ensures r.Err? <==> second == 0
    ensures r.Ok? ==> r.value.0 * second + r.value.1 == first && r.value.1 < second
  {
    if second == 0 then Err(DivisionByZero) else Ok((first / second, first % second))
  }

  /**
   * The backend's pow and shifts take a signed count.  For a count that is not negative
   * they are the power and the shifts of the integers.  What the backend does with a
   * negative count cannot be seen from the caller's side; these take the empty product
   * for pow and the opposite shift for shl and shr.
   */
  function PowMagnitude(base: nat, exponent: int): (r: nat)
    ensures exponent >= 0 ==> r == Pow(base, exponent)
  {
    if exponent < 0 then 1 else Pow(base, exponent)
  }

  function ShiftLeft(operand: nat, places: int): (r: nat)
    ensures places >= 0 ==> r == operand * Pow2(places)
  {
    if places < 0 then DivIsSmaller(operand, Pow2(-places)); operand / Pow2(-places)
    else MulNonNegative(operand, Pow2(places)); operand * Pow2(places)
  }

  function ShiftRight(operand: nat, places: int): (r: nat)
    ensures places >= 0 ==> r == operand / Pow2(places) && r <= operand
  {
    if places < 0 then MulNonNegative(operand, Pow2(-places)); operand * Pow2(-places)
    else DivIsSmaller(operand, Pow2(places)); operand / Pow2(places)
  }

  /** Shifting left and then right by the same count gives the operand back. */
  lemma ShiftRoundTrip(operand: nat, places: nat)
    ensures ShiftRight(ShiftLeft(operand, places), places) == operand
  {
    var p := Pow2(places);
    assert (operand * p) / p == operand by {
      ModUnique(operand * p, p, operand, 0);
    }
  }

  // ------------------------------------------------------------- bit logic

  /** The number of binary digits of n (0 for 0). */
  function BitLength(n: nat): nat
  {
    if n == 0 then 0 else 1 + BitLength(n / 2)
  }

  lemma {:induction false} BitLengthBounds(n: nat)
    ensures n < Pow2(BitLength(n))
    ensures n > 0 ==> Pow2(BitLength(n) - 1) <= n
  {
    if n > 0 {
      BitLengthBounds(n / 2);
    }
  }

  function BitAnd(a: nat, b: nat): nat
    decreases a
  {
    if a == 0 || b == 0 then 0
    else 2 * BitAnd(a / 2, b / 2) + (if a % 2 == 1 && b % 2 == 1 then 1 else 0)
  }

  function BitOr(a: nat, b: nat): nat
    decreases a
  {
    if a == 0 then b
    else if b == 0 then a
    else 2 * BitOr(a / 2, b / 2) + (if a % 2 == 1 || b % 2 == 1 then 1 else 0)
  }

  function BitXor(a: nat, b: nat): nat
    decreases a
  {
    if a == 0 then b
    else if b == 0 then a
    else 2 * BitXor(a / 2, b / 2) + (if a % 2 != b % 2 then 1 else 0)
  }

  /** Complement within the operand's own bit length (not an infinite two's complement). */
  function BitNot(n: nat): nat
  {
    BitLengthBounds(n);
    Pow2(BitLength(n)) - 1 - n
  }

  lemma {:induction false} BitAndAtMost(a: nat, b: nat)
    ensures BitAnd(a, b) <= b
    decreases a
  {
    if a != 0 && b != 0 {
      BitAndAtMost(a / 2, b / 2);
    }
  }

  /** The bit length is the k with 2^(k-1) <= n < 2^k. */
  lemma BitLengthFromBounds(n: nat, k: nat)
    requires k >= 1 && Pow2(k - 1) <= n < Pow2(k)
    ensures BitLength(n) == k
  {
    BitLengthBounds(n);
    if BitLength(n) < k {
      Pow2Monotone(BitLength(n), k - 1);
    } else if BitLength(n) > k {
      Pow2Monotone(k, BitLength(n) - 1);
    }
  }

  lemma {:induction false} BitOrCommutes(a: nat, b: nat)
    ensures BitOr(a, b) == BitOr(b, a)
    decreases a
  {
    if a != 0 && b != 0 {
      BitOrCommutes(a / 2, b / 2);
    }
  }

  /** Or of a multiple of 2^k and a number below 2^k is their sum: the bits do not meet. */
  lemma {:induction false} BitOrDisjoint(c: nat, b: nat, k: nat)
    requires b < Pow2(k)
    ensures BitOr(c * Pow2(k), b) == c * Pow2(k) + b
    decreases k
  {
    if k > 0 && c != 0 && b != 0 {
      var a := c * Pow2(k);
      assert a == 2 * (c * Pow2(k - 1));
      assert a / 2 == c * Pow2(k - 1) && a % 2 == 0;
      BitOrDisjoint(c, b / 2, k - 1);
    }
  }

  lemma {:induction false} ModHalf(y: nat, m: nat)
    requires m > 0
    ensures y % (2 * m) == 2 * ((y / 2) % m) + y % 2
  {
    var q, r := (y / 2) / m, (y / 2) % m;
    assert y / 2 == q * m + r;
    assert y == (2 * m) * q + (2 * r + y % 2);
    ModUnique(y, 2 * m, q, 2 * r + y % 2);
  }

  lemma ModUnique(y: int, d: int, q: int, r: int)
    requires d > 0 && 0 <= r < d && y == d * q + r
    ensures y % d == r && y / d == q
  {
    var q', r' := y / d, y % d;
    assert d * q' + r' == d * q + r;
    MulMono(d, q, q');
    MulMono(d, q', q);
  }

  /** Splitting a modulus that is a product: x mod (a*b) from x mod a and (x / a) mod b. */
  lemma ModMul(x: nat, a: nat, b: nat)
    requires a > 0 && b > 0
    ensures x % (a * b) == x % a + a * ((x / a) % b)
  {
    var q1, r1 := x / a, x % a;
    var q2, r2 := q1 / b, q1 % b;
    assert x == a * q1 + r1;
    assert q1 == b * q2 + r2;
    assert x == (a * b) * q2 + (a * r2 + r1) by {
      assert a * q1 == a * (b * q2) + a * r2;
    }
    assert a * r2 + r1 < a * b by {
      MulLeft(a, r2, b - 1);
    }
    ModUnique(x, a * b, q2, a * r2 + r1);
  }

  lemma DivIsSmaller(x: nat, d: nat)
    requires d >= 1
    ensures 0 <= x / d <= x
  {
    assert x == d * (x / d) + x % d;
    MulLeft(x / d, 1, d);
  }

  lemma MulBelow(v: int, a: int, p: int)
    requires 0 <= v < a && p > 0
    ensures v * p < a * p
  {
    MulLeft(p, v, a - 1);
    assert p * (a - 1) == p * a - p;
  }

  lemma MulLeft(a: int, u: int, v: int)
    requires a >= 0 && u <= v
    ensures a * u <= a * v
  {
    assert a * v - a * u == a * (v - u);
  }

  lemma MulMono(d: int, a: int, b: int)
    requires d > 0
    ensures a < b ==> d * a + d <= d * b
  {
    if a < b {
      MulAtLeast(d, b - a);
      assert d * b == d * a + d * (b - a);
    }
  }

  lemma {:induction false} MulAtLeast(d: int, k: int)
    requires d > 0 && k >= 1
    ensures d * k >= d
    decreases k
  {
    if k > 1 {
      MulAtLeast(d, k - 1);
      assert d * k == d * (k - 1) + d;
    }
  }

  /** And with the mask 2^k - 1 keeps exactly the k low bits. */
  lemma {:induction false} BitAndLowMask(k: nat, y: nat)
    ensures BitAnd(Pow2(k) - 1, y) == y % Pow2(k)
    decreases k
  {
    if k > 0 && y != 0 {
      BitAndLowMask(k - 1, y / 2);
      BitAndLowMaskStep(k, y);
    } else if k == 0 {
      ModUnique(y, Pow2(k), y, 0);
    } else {
      ModUnique(y, Pow2(k), 0, 0);
    }
  }

  lemma BitAndLowMaskStep(k: nat, y: nat)
    requires k > 0 && y != 0
    requires BitAnd(Pow2(k - 1) - 1, y / 2) == (y / 2) % Pow2(k - 1)
    ensures BitAnd(Pow2(k) - 1, y) == y % Pow2(k)
  {
    assert Pow2(k) == 2 * Pow2(k - 1);
    ModUnique(Pow2(k) - 1, 2, Pow2(k - 1) - 1, 1);
    assert BitAnd(Pow2(k) - 1, y) == 2 * BitAnd(Pow2(k - 1) - 1, y / 2) + y % 2;
    ModHalf(y, Pow2(k - 1));
  }

  // ------------------------------------------------------------ digit strings

  /** The digit character for d: 0-9 then lower-case a-z. */
  function DigitChar(d: nat): char
    requires d < 36
  {
    if d < 10 then ('0' as int + d) as char else ('a' as int + d - 10) as char
  }

  /** The value of a digit character in any base up to 36, or -1 for a non-digit. */
  function DigitValue(c: char): int
  {
    if '0' <= c <= '9' then c as int - '0' as int
    else if 'a' <= c <= 'z' then c as int - 'a' as int + 10
    else if 'A' <= c <= 'Z' then c as int - 'A' as int + 10
    else -1
  }

  predicate ValidBase(base: nat)
  {
    2 <= base <= 36
  }

  /** The digits of n in the given base, most significant first; "0" for zero. */
  function ToString(n: nat, base: nat): (s: string)
    requires ValidBase(base)
    decreases n
  {
    if n < base then [DigitChar(n)] else ToString(n / base, base) + [DigitChar(n % base)]
  }

  /** The value of a (possibly empty) digit string; InvalidDigit at the first non-digit. */
  function ParseDigits(s: string, base: nat): Result<nat>
    requires ValidBase(base)
    decreases |s|
  {
    if s == [] then Ok(0)
    else
      var d := DigitValue(s[|s| - 1]);
      if d < 0 || d >= base then Err(InvalidDigit)
      else match ParseDigits(s[..|s| - 1], base)
        case Err(e) => Err(e)
        case Ok(v) => MulNonNegative(v, base); Ok(v * base + d)
  }

  lemma MulNonNegative(a: nat, b: nat)
    ensures a * b >= 0
  {
  }

  /** Parse a non-empty digit string in the given base. */
  function ParseForBase(s: string, base: nat): Result<nat>
    requires ValidBase(base)
  {
    if s == [] then Err(InvalidDigit) else ParseDigits(s, base)
  }

  lemma DigitRoundTrip(d: nat)
    requires d < 36
    ensures DigitValue(DigitChar(d)) == d
  {
  }

  /** Appending one valid digit multiplies by the base and adds the digit. */
  lemma ParseDigitsSnoc(s: string, d: nat, v: nat, base: nat)
    requires ValidBase(base) && d < base
    requires ParseDigits(s, base) == Ok(v)
    ensures ParseDigits(s + [DigitChar(d)], base) == Ok(v * base + d)
  {
    var t := s + [DigitChar(d)];
    DigitRoundTrip(d);
    assert t[..|t| - 1] == s;
    assert t[|t| - 1] == DigitChar(d);
  }

  /** Parsing what ToString printed gives the number back. */
  lemma {:induction false} ParseToString(n: nat, base: nat)
    requires ValidBase(base)
    ensures ParseForBase(ToString(n, base), base) == Ok(n)
    decreases n
  {
    if n < base {
      ParseDigitsSnoc([], n, 0, base);
      assert [] + [DigitChar(n)] == ToString(n, base);
    } else {
      DivShrinks(n, base);
      ParseToString(n / base, base);
      ToStringHead(n / base, base);
      ParseDigitsSnoc(ToString(n / base, base), n % base, n / base, base);
      DivModIdentity(n, base);
    }
  }

  lemma DivModIdentity(n: nat, base: nat)
    requires base > 0
    ensures (n / base) * base + n % base == n
  {
  }

  lemma DivShrinks(n: nat, base: nat)
    requires base >= 2 && n > 0
    ensures n / base < n
  {
    var q := n / base;
    assert n == base * q + n % base;
    if q > 0 {
      MulAtLeast(q, base);
      assert base * q >= 2 * q;
    }
  }

  /** ToString never starts with a sign, and starts with '0' only for zero. */
  lemma {:induction false} ToStringHead(n: nat, base: nat)
    requires ValidBase(base)
    ensures var s := ToString(n, base); |s| >= 1 && s[0] != '-' && s[0] != '+' && (s[0] == '0' <==> n == 0)
    decreases n
  {
    if n < base {
      DigitCharHead(n);
    } else {
      DivShrinks(n, base);
      ToStringHead(n / base, base);
      assert ToString(n, base)[0] == ToString(n / base, base)[0];
    }
  }

  lemma DigitCharHead(d: nat)
    requires d < 36
    ensures DigitChar(d) != '-' && DigitChar(d) != '+' && (DigitChar(d) == '0' <==> d == 0)
  {
  }

  // ------------------------------------------------------------ decimal digits

  /** The number of decimal digits of n; 0 for 0. */
  function DecimalDigits(n: nat): nat
  {
    if n == 0 then 0 else 1 + DecimalDigits(n / 10)
  }

  lemma {:induction false} DecimalDigitsBounds(n: nat)
    ensures n < Pow(10, DecimalDigits(n))
    ensures n > 0 ==> Pow(10, DecimalDigits(n) - 1) <= n
  {
    if n > 0 {
      DecimalDigitsBounds(n / 10);
    }
  }

  /** Dividing by 10^k removes k digits. */
  lemma {:induction false} DecimalDigitsDiv(n: nat, k: nat)
    ensures DecimalDigits(n / Pow(10, k)) == if DecimalDigits(n) >= k then DecimalDigits(n) - k else 0
  {
    if k > 0 {
      DivDiv(n, Pow(10, k - 1), 10);
      assert n / Pow(10, k) == (n / Pow(10, k - 1)) / 10;
      DecimalDigitsDiv(n, k - 1);
    }
  }

  lemma {:induction false} PowPositive(b: nat, e: nat)
    requires b > 0
    ensures Pow(b, e) > 0
  {
    if e > 0 {
      PowPositive(b, e - 1);
    }
  }

  lemma DivDiv(n: nat, a: nat, b: nat)
    requires a > 0 && b > 0
    ensures n / a / b == n / (b * a)
  {
    var q := n / a / b;
    var r := (n / a) % b;
    assert n / a == b * q + r;
    assert n == a * (b * q + r) + n % a;
    assert n == (b * a) * q + (a * r + n % a);
    assert a * r + n % a < b * a by {
      assert a * r <= a * (b - 1);
    }
    ModUnique(n, b * a, q, a * r + n % a);
  }
}
