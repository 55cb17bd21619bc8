# kotlin-multiplatform-bignum core, modelled in Dafny

This project models three layers of the Kotlin bignum library and proves properties about them:

- **The sign-aware integer, BigInteger.** A magnitude with a separate `Sign` tag: POSITIVE, NEGATIVE or ZERO. Every operation splits on the signs and on a magnitude comparison, then hands the magnitude work to a word-array backend.
- **The byte and word conversion utilities of ConversionUtils.** These are:
  - endian encoders and decoders;
  - `mirrorBytes`;
  - `increment` and `invert` on byte, UInt and ULong arrays;
  - the two's-complement byte encoder and decoder.
- **The decimal string layer of BigDecimal.** This covers the exponent-taking constructors, negate/abs, multiply, compare with equal exponents, `placeADotInString`, `toString` and `toStringExpanded`.

Modules, one per file:

- `Errors` (`errors.dfy`): the exceptions the code throws, turned into a `Result` value.
- `Arithmetic` (`arithmetic.dfy`): the backend interface of `BigIntegerArithmetic`, defined on `nat` magnitudes.
  - Compare, add, subtract, multiply and divide work at the value level.
  - The bit operations are defined recursively on `nat`.
  - Digit strings are converted to and from any base 2..36.
- `BigIntegers` (`biginteger.dfy`): `Sign`, the `BigInteger` value and its operations. This includes the `pow(BigInteger)` loop and the `numberOfDecimalDigits` loop as methods.
- `ConversionUtils` (`conversion_utils.dfy`):
  - the conversion functions;
  - `mirrorBytes`, `increment` and `invert` as methods over arrays.
- `BigDecimals` (`bigdecimal.dfy`): the decimal layer. `placeADotInString` is a method with the source's padding loop, proved against a function.

## Modelling choices

- **Magnitudes and validity.** A magnitude is the `nat` its word array denotes. The library's invariant "magnitude is zero exactly when the sign is ZERO" is `Valid`. The weaker `ZeroSound` says only that a ZERO sign carries a zero magnitude. The arithmetic is value-correct under `ZeroSound`, and it keeps `Valid`. Several operations leave `Valid`, and the contracts say exactly when.
- **Array equality.** Kotlin's `==` between two word arrays is modelled as value equality of the magnitudes.
- **The backend.** It is modelled by value-level definitions: the word-array implementations are not part of this model. Its `divide` is Euclidean on magnitudes, which matches Java's `/` and `%` on non-negative operands, the backend's contract in its division test.
- **The exponent.** A BigDecimal's exponent is the power of ten of the leading digit of its significand. So `DecimalValue(d) = significand * 10^(exponent - digits + 1)`. This uses real numbers and an exact `Scale(v, e) = v * 10^e`.
- **Zero exponent in toString.** With exponent 0, `toString` reads the significand as a plain integer: it prints `dot(s, len-1) + "E+" + (len-1)`. The model keeps that reading next to the value semantics above.
- **Digit count.** `numberOfDigits`, which is not part of this model, is taken to be the exact number of decimal digits, 0 for zero. That is the count `numberOfDecimalDigits` computes.
- **The numberOfDecimalDigits estimate.** The floating-point lower estimate `ceil((bitLength - 1) * log10(2))` becomes a parameter `minDigit` of the method. Its result is proved exact whenever the estimate does not overshoot.
- **Byte arrays of an integer.** `toByteArray` is not part of this model. `ToTwosComplementByteArray` takes its bytes as a parameter, with the requirement that their big-endian value is the magnitude. Likewise `fromByteArray` and `fromUByteArray` are modelled as building the magnitude that the bytes denote, in big-endian order.
- **Counting the bits of a ULong word.** `invert(ULongArray)` counts the bits of word 0 with the 63-bit backend's `bitLength`. The model uses the exact bit length of the word.
- **Kotlin shift counts.** Shifts are masked as Kotlin masks them: ULong shifts by `n % 64`, UInt shifts by `n % 32`. Signed fixed-width integers are ranges of `int`. `ULong.toInt()` and `Int.absoluteValue` are written out with their wrap-around.

## Model

| member | source | states |
|---|---|---|
| BigIntegers.Sign.Not | bignum/src/commonMain/kotlin/com/ionspin/kotlin/bignum/integer/BigInteger.kt:33-39 | `!sign` negates the sign's integer: POSITIVE and NEGATIVE swap and ZERO stays |
| BigIntegers.Sign.ToInt | bignum/src/commonMain/kotlin/com/ionspin/kotlin/bignum/integer/BigInteger.kt:41-47 | toInt is in -1..1, zero exactly for ZERO and positive exactly for POSITIVE |
| BigIntegers.NotIsInvolution | bignum/src/commonMain/kotlin/com/ionspin/kotlin/bignum/integer/BigInteger.kt:33-39 | `not` is an involution whose only fixed point is ZERO |
| BigIntegers.FromLong | bignum/src/commonMain/kotlin/com/ionspin/kotlin/bignum/integer/BigInteger.kt:58 | the Long constructor gives a valid BigInteger denoting that Long |
| BigIntegers.FromULong | bignum/src/commonMain/kotlin/com/ionspin/kotlin/bignum/integer/BigInteger.kt:144 | fromULong denotes the ULong; it always takes the POSITIVE sign, so it is invalid exactly for 0 |
| BigIntegers.ParseString | bignum/src/commonMain/kotlin/com/ionspin/kotlin/bignum/integer/BigInteger.kt:74-99 | the empty string fails on index 0; a lone sign is a number-format error; "0", "+0" and "-0" give ZERO; otherwise the result succeeds exactly when the backend parses the unsigned part, fails with the backend's own error when it does not, has that parse as its magnitude, and a non-zero result is NEGATIVE exactly when the text starts with '-' |
| BigIntegers.ParseToStringRoundTrip | bignum/src/commonMain/kotlin/com/ionspin/kotlin/bignum/integer/BigInteger.kt:74-99 | parsing toString(base) of a valid BigInteger gives it back |
| BigIntegers.ParseDoubleZero | bignum/src/commonMain/kotlin/com/ionspin/kotlin/bignum/integer/BigInteger.kt:93-96 | "00" parses to a zero magnitude with a POSITIVE sign, which breaks the zero invariant |
| BigIntegers.Add | bignum/src/commonMain/kotlin/com/ionspin/kotlin/bignum/integer/BigInteger.kt:180-198 | the value of the result is the sum of the values, and the zero invariant is kept |
| BigIntegers.Subtract | bignum/src/commonMain/kotlin/com/ionspin/kotlin/bignum/integer/BigInteger.kt:200-223 | the value of the result is the difference of the values, and the zero invariant is kept |
| BigIntegers.Multiply | bignum/src/commonMain/kotlin/com/ionspin/kotlin/bignum/integer/BigInteger.kt:225-240 | the value of the result is the product of the values, and the zero invariant is kept |
| BigIntegers.Divide | bignum/src/commonMain/kotlin/com/ionspin/kotlin/bignum/integer/BigInteger.kt:242-260 | fails with division by zero exactly for a zero divisor; otherwise the result is valid, its magnitude is the magnitudes' quotient, and the value truncates toward zero |
| BigIntegers.Remainder | bignum/src/commonMain/kotlin/com/ionspin/kotlin/bignum/integer/BigInteger.kt:262-273 | fails exactly for a zero divisor; otherwise the magnitude is the magnitudes' remainder, tagged with the signs-match sign, and its absolute value is that of the truncated remainder |
| BigIntegers.DivideAndRemainder | bignum/src/commonMain/kotlin/com/ionspin/kotlin/bignum/integer/BigInteger.kt:275-299 | fails exactly for a zero divisor; otherwise both parts are valid, the quotient is divide's, and a non-zero remainder carries the signs-match sign |
| BigIntegers.DivideAndRemainderIdentity | bignum/src/commonMain/kotlin/com/ionspin/kotlin/bignum/integer/BigInteger.kt:275-299 | `q * y + r == x` holds exactly when the divisor is positive or the remainder is ZERO |
| BigIntegers.Compare | bignum/src/commonMain/kotlin/com/ionspin/kotlin/bignum/integer/BigInteger.kt:317-325 | compare returns -1, 0 or 1 |
| BigIntegers.CompareAgreesOffNegatives | bignum/src/commonMain/kotlin/com/ionspin/kotlin/bignum/integer/BigInteger.kt:317-325 | unless both operands are negative, compare orders valid operands by value |
| BigIntegers.CompareReversedOnNegatives | bignum/src/commonMain/kotlin/com/ionspin/kotlin/bignum/integer/BigInteger.kt:324 | for two negatives compare orders by magnitude, the reverse of value order, and so is wrong whenever they differ |
| BigIntegers.CompareAntisymmetric | bignum/src/commonMain/kotlin/com/ionspin/kotlin/bignum/integer/BigInteger.kt:317-325 | swapping the operands negates the result |
| BigIntegers.CompareReflexive | bignum/src/commonMain/kotlin/com/ionspin/kotlin/bignum/integer/BigInteger.kt:317-325 | every BigInteger compares equal to itself |
| BigIntegers.Equals | bignum/src/commonMain/kotlin/com/ionspin/kotlin/bignum/integer/BigInteger.kt:483-493 | equals with another BigInteger holds exactly when the signs agree and, unless both are ZERO, the magnitudes agree |
| BigIntegers.Max | bignum/src/commonMain/kotlin/com/ionspin/kotlin/bignum/integer/BigInteger.kt:153-159 | max returns one of its two operands, and compare places it at or above both |
| BigIntegers.Min | bignum/src/commonMain/kotlin/com/ionspin/kotlin/bignum/integer/BigInteger.kt:161-167 | min returns one of its two operands, and compare places it at or below both |
| BigIntegers.EqualsIsEquality | bignum/src/commonMain/kotlin/com/ionspin/kotlin/bignum/integer/BigInteger.kt:483-493 | on valid operands equals holds exactly for equal BigIntegers and exactly for equal values |
| BigIntegers.MaxMinValues | bignum/src/commonMain/kotlin/com/ionspin/kotlin/bignum/integer/BigInteger.kt:153-167 | max and min pick the larger and smaller value, except for two negatives, where they pick the reverse |
| BigIntegers.Negate | bignum/src/commonMain/kotlin/com/ionspin/kotlin/bignum/integer/BigInteger.kt:329-331 | negate keeps the magnitude, negates the value and keeps both invariants either way |
| BigIntegers.NegateInvolution | bignum/src/commonMain/kotlin/com/ionspin/kotlin/bignum/integer/BigInteger.kt:329-331 | negating twice gives back the same BigInteger |
| BigIntegers.AbsoluteValue | bignum/src/commonMain/kotlin/com/ionspin/kotlin/bignum/integer/BigInteger.kt:333-335 | abs denotes the absolute value, and its result is valid exactly when the magnitude is non-zero |
| BigIntegers.AbsOfZeroMagnitude | bignum/src/commonMain/kotlin/com/ionspin/kotlin/bignum/integer/BigInteger.kt:333-335 | abs(ZERO) is a zero magnitude with a POSITIVE sign, an invalid BigInteger |
| BigIntegers.Pow | bignum/src/commonMain/kotlin/com/ionspin/kotlin/bignum/integer/BigInteger.kt:352-363 | pow(Long) takes any Long: for a non-negative exponent it denotes the value raised to it, and it is valid exactly when the magnitude is non-zero or the exponent is 0; for any exponent the result is NEGATIVE exactly when the base is NEGATIVE and the exponent's truncated remainder by 2 is non-zero, so an odd negative exponent keeps the sign |
| BigIntegers.PowBig | bignum/src/commonMain/kotlin/com/ionspin/kotlin/bignum/integer/BigInteger.kt:337-350 | pow(BigInteger) takes any exponent: a POSITIVE one above Long.MAX_VALUE runs the counting loop and gives the value raised to the magnitude; every other exponent goes to pow(Long) with the magnitude's low 63 bits; so a valid or zero-magnitude exponent that is not NEGATIVE gives the value raised to the exponent's value |
| BigIntegers.Signum | bignum/src/commonMain/kotlin/com/ionspin/kotlin/bignum/integer/BigInteger.kt:369-373 | on a valid BigInteger signum is the sign of its value |
| BigIntegers.SignumNegate | bignum/src/commonMain/kotlin/com/ionspin/kotlin/bignum/integer/BigInteger.kt:369-373 | the signum of the negation is the negated signum |
| BigIntegers.NumberOfDecimalDigits | bignum/src/commonMain/kotlin/com/ionspin/kotlin/bignum/integer/BigInteger.kt:383-403 | for a non-negative lower estimate, as ceil((bitLength - 1) * log10 2) always is, the count is the exact number of decimal digits of the magnitude when the estimate does not overshoot, and otherwise the estimate |
| BigIntegers.ToString | bignum/src/commonMain/kotlin/com/ionspin/kotlin/bignum/integer/BigInteger.kt:510-517 | toString(base) is non-empty and starts with '-' exactly when the sign is NEGATIVE |
| BigIntegers.ParsePlusDigits | bignum/src/commonMain/kotlin/com/ionspin/kotlin/bignum/integer/BigInteger.kt:74-99 | '+' followed by the digits of a positive number parses to that number |
| BigIntegers.ParseMinusDigits | bignum/src/commonMain/kotlin/com/ionspin/kotlin/bignum/integer/BigInteger.kt:75-91 | "-digits" of a positive magnitude parses to it, NEGATIVE |
| BigIntegers.ParseDigitsAlone | bignum/src/commonMain/kotlin/com/ionspin/kotlin/bignum/integer/BigInteger.kt:92-97 | unsigned digits of a positive magnitude parse to it, POSITIVE |
| BigIntegers.Shl | bignum/src/commonMain/kotlin/com/ionspin/kotlin/bignum/integer/BigInteger.kt:406-408 | shl takes any Int count and keeps the sign; for a non-negative count it multiplies the value by 2^places and keeps the invariant |
| BigIntegers.Shr | bignum/src/commonMain/kotlin/com/ionspin/kotlin/bignum/integer/BigInteger.kt:410-412 | shr takes any Int count and keeps the sign; for a non-negative count it divides the value by 2^places toward zero, and the result stays valid exactly when the magnitude is zero or at least 2^places |
| BigIntegers.And | bignum/src/commonMain/kotlin/com/ionspin/kotlin/bignum/integer/BigInteger.kt:449-451 | and keeps this sign and ands the magnitudes; the result is valid exactly when this is zero or the and is non-zero |
| BigIntegers.Or | bignum/src/commonMain/kotlin/com/ionspin/kotlin/bignum/integer/BigInteger.kt:453-455 | or keeps this sign and ors the magnitudes; the result is valid exactly when this is non-zero or the other magnitude is zero |
| BigIntegers.Xor | bignum/src/commonMain/kotlin/com/ionspin/kotlin/bignum/integer/BigInteger.kt:457-459 | xor keeps this sign and xors the magnitudes; the exact condition under which the result stays valid is stated |
| BigIntegers.Not | bignum/src/commonMain/kotlin/com/ionspin/kotlin/bignum/integer/BigInteger.kt:467-469 | not keeps the sign and complements the magnitude within its bit length, so the two add up to 2^bitLength - 1 |
| BigIntegers.BitOrZero | bignum/src/commonMain/kotlin/com/ionspin/kotlin/bignum/integer/BigInteger.kt:453-455 | an or is zero exactly when both operands are |
| BigIntegers.BitXorZero | bignum/src/commonMain/kotlin/com/ionspin/kotlin/bignum/integer/BigInteger.kt:457-459 | a xor is zero exactly when the operands are equal |
| BigIntegers.PowMagnitudeFacts | bignum/src/commonMain/kotlin/com/ionspin/kotlin/bignum/integer/BigInteger.kt:352-363 | the magnitude power is zero exactly for a zero base with a positive exponent, and a negative base's power has the sign of the exponent's parity |
| Arithmetic.ShiftLeft | core/src/commonMain/kotlin/com/ionspin/kotlin/biginteger/BigIntegerArithmetic.kt:17 | shifting left by a non-negative count multiplies the magnitude by 2^count |
| Arithmetic.ShiftRight | core/src/commonMain/kotlin/com/ionspin/kotlin/biginteger/BigIntegerArithmetic.kt:18 | shifting right by a non-negative count divides the magnitude by 2^count, rounding down, and never makes it larger |
| Arithmetic.ShiftRoundTrip | core/src/commonMain/kotlin/com/ionspin/kotlin/biginteger/BigIntegerArithmetic.kt:17-18 | shifting left and then right by the same count gives the magnitude back |
| Arithmetic.Add | core/src/commonMain/kotlin/com/ionspin/kotlin/biginteger/BigIntegerArithmetic.kt:20 | the sum is at least either operand, and zero exactly when both operands are |
| Arithmetic.Substract | core/src/commonMain/kotlin/com/ionspin/kotlin/biginteger/BigIntegerArithmetic.kt:21 | with the larger magnitude first, the difference is at most the first operand, and zero exactly when the operands are equal |
| Arithmetic.AddSubstractInverse | core/src/commonMain/kotlin/com/ionspin/kotlin/biginteger/BigIntegerArithmetic.kt:20-21 | substract undoes add, and add undoes substract |
| Arithmetic.Multiply | core/src/commonMain/kotlin/com/ionspin/kotlin/biginteger/BigIntegerArithmetic.kt:22 | the product is zero exactly when an operand is, and otherwise at least either operand |
| Arithmetic.PowMagnitude | bignum/src/commonMain/kotlin/com/ionspin/kotlin/bignum/integer/BigInteger.kt:362 | for a non-negative exponent the backend pow is the magnitude raised to it |
| Arithmetic.Compare | core/src/commonMain/kotlin/com/ionspin/kotlin/biginteger/BigIntegerArithmetic.kt:19 | the backend compare returns -1, 0 or 1 in the order of the magnitudes |
| Arithmetic.Divide | core/src/commonMain/kotlin/com/ionspin/kotlin/biginteger/BigIntegerArithmetic.kt:23 | the backend divide fails exactly on a zero divisor, and otherwise gives `q * b + r == a` with `r < b` |
| Arithmetic.BitLengthBounds | core/src/commonMain/kotlin/com/ionspin/kotlin/biginteger/BigIntegerArithmetic.kt:16 | a non-zero magnitude lies in [2^(bitLength-1), 2^bitLength) |
| Arithmetic.ParseToString | core/src/commonMain/kotlin/com/ionspin/kotlin/biginteger/BigIntegerArithmetic.kt:24-25 | parseForBase inverts toString in every base 2..36 |
| Arithmetic.ToStringHead | core/src/commonMain/kotlin/com/ionspin/kotlin/biginteger/BigIntegerArithmetic.kt:25 | a magnitude's digit string is non-empty, unsigned, and starts with '0' only for zero |
| Arithmetic.DecimalDigitsBounds | bignum/src/commonMain/kotlin/com/ionspin/kotlin/bignum/integer/BigInteger.kt:383-403 | a non-zero magnitude lies in [10^(digits-1), 10^digits) |
| Arithmetic.DecimalDigitsDiv | bignum/src/commonMain/kotlin/com/ionspin/kotlin/bignum/integer/BigInteger.kt:393 | dividing by 10^k removes k digits, down to zero |
| ConversionUtils.MirrorBytes | bignum/src/commonMain/kotlin/com/ionspin/kotlin/bignum/integer/util/ConversionUtils.kt:22-27 | the target afterwards holds the source range reversed at targetStart, every other cell unchanged; an empty range changes nothing |
| ConversionUtils.Mirrored | bignum/src/commonMain/kotlin/com/ionspin/kotlin/bignum/integer/util/ConversionUtils.kt:22-27 | the mirrored target keeps its length and has the reversed range in place |
| ConversionUtils.ReverseInvolution | bignum/src/commonMain/kotlin/com/ionspin/kotlin/bignum/integer/util/ConversionUtils.kt:22-27 | reversing twice is the identity |
| ConversionUtils.UIntToBigEndian | bignum/src/commonMain/kotlin/com/ionspin/kotlin/bignum/integer/util/ConversionUtils.kt:30-34 | four bytes whose big-endian value is the UInt |
| ConversionUtils.UIntToBigEndianValue | bignum/src/commonMain/kotlin/com/ionspin/kotlin/bignum/integer/util/ConversionUtils.kt:32 | the bytes `(x shr (24 - 8i)) and 0xFF` read big-endian give x |
| ConversionUtils.UIntToLittleEndian | bignum/src/commonMain/kotlin/com/ionspin/kotlin/bignum/integer/util/ConversionUtils.kt:36-40 | four bytes whose little-endian value is the UInt |
| ConversionUtils.UIntToLittleEndianValue | bignum/src/commonMain/kotlin/com/ionspin/kotlin/bignum/integer/util/ConversionUtils.kt:38 | the bytes `(x shr 8i) and 0xFF` read little-endian give x |
| ConversionUtils.ULongToBigEndian | bignum/src/commonMain/kotlin/com/ionspin/kotlin/bignum/integer/util/ConversionUtils.kt:44-48 | eight bytes whose big-endian value is the ULong |
| ConversionUtils.ULongToBigEndianValue | bignum/src/commonMain/kotlin/com/ionspin/kotlin/bignum/integer/util/ConversionUtils.kt:46 | the bytes `(x shr (56 - 8i)) and 0xFF` read big-endian give x |
| ConversionUtils.ULongToLittleEndian | bignum/src/commonMain/kotlin/com/ionspin/kotlin/bignum/integer/util/ConversionUtils.kt:60-64 | eight bytes whose little-endian value is the ULong |
| ConversionUtils.ULongToLittleEndianValue | bignum/src/commonMain/kotlin/com/ionspin/kotlin/bignum/integer/util/ConversionUtils.kt:62 | the bytes `(x shr 8i) and 0xFF` read little-endian give x |
| ConversionUtils.FromBigEndianArrayToULong | bignum/src/commonMain/kotlin/com/ionspin/kotlin/bignum/integer/util/ConversionUtils.kt:50-58 | more than 8 bytes is an overflow error; otherwise the fold is the big-endian value shifted to the top of the word |
| ConversionUtils.FromLittleEndianArrayToULong | bignum/src/commonMain/kotlin/com/ionspin/kotlin/bignum/integer/util/ConversionUtils.kt:66-72 | more than 8 bytes is an overflow error; otherwise the fold is the little-endian value |
| ConversionUtils.FoldBigEndianValue | bignum/src/commonMain/kotlin/com/ionspin/kotlin/bignum/integer/util/ConversionUtils.kt:54-56 | the or-of-shifts fold equals the big-endian value times 2^(8 * (8 - size)) |
| ConversionUtils.FoldLittleEndianValue | bignum/src/commonMain/kotlin/com/ionspin/kotlin/bignum/integer/util/ConversionUtils.kt:70 | the or-of-shifts fold equals the little-endian value |
| ConversionUtils.BigEndianRoundTrip | bignum/src/commonMain/kotlin/com/ionspin/kotlin/bignum/integer/util/ConversionUtils.kt:44-58 | decoding a ULong's big-endian bytes gives the ULong |
| ConversionUtils.LittleEndianRoundTrip | bignum/src/commonMain/kotlin/com/ionspin/kotlin/bignum/integer/util/ConversionUtils.kt:60-72 | decoding a ULong's little-endian bytes gives the ULong |
| ConversionUtils.BigEndianBytesRoundTrip | bignum/src/commonMain/kotlin/com/ionspin/kotlin/bignum/integer/util/ConversionUtils.kt:44-58 | encoding the decode of 8 bytes gives the same bytes |
| ConversionUtils.LittleEndianBytesRoundTrip | bignum/src/commonMain/kotlin/com/ionspin/kotlin/bignum/integer/util/ConversionUtils.kt:60-72 | encoding the decode of 8 little-endian bytes gives the same bytes |
| ConversionUtils.BEInjective | bignum/src/commonMain/kotlin/com/ionspin/kotlin/bignum/integer/util/ConversionUtils.kt:44-58 | equal-length digit strings with the same big-endian value are equal |
| ConversionUtils.LEInjective | bignum/src/commonMain/kotlin/com/ionspin/kotlin/bignum/integer/util/ConversionUtils.kt:60-72 | equal-length digit strings with the same little-endian value are equal |
| ConversionUtils.IndexOfLastBelow | bignum/src/commonMain/kotlin/com/ionspin/kotlin/bignum/integer/util/ConversionUtils.kt:78 | indexOfLast: the last index below the bound, or -1 when every element reaches it |
| ConversionUtils.IncrementBytes | bignum/src/commonMain/kotlin/com/ionspin/kotlin/bignum/integer/util/ConversionUtils.kt:77-90 | the method returns a fresh array holding the byte-increment specification of the input |
| ConversionUtils.IncrementBytesWithRoom | bignum/src/commonMain/kotlin/com/ionspin/kotlin/bignum/integer/util/ConversionUtils.kt:78-86 | with a byte below 0xFF the result has the input's length and its big-endian value is one more |
| ConversionUtils.IncrementBytesSaturated | bignum/src/commonMain/kotlin/com/ionspin/kotlin/bignum/integer/util/ConversionUtils.kt:87-89 | with every byte 0xFF the result is `[1] + input`, which is not the successor for a non-empty input |
| ConversionUtils.IncrementCorrected | bignum/src/commonMain/kotlin/com/ionspin/kotlin/bignum/integer/util/ConversionUtils.kt:77-118 | the true big-endian successor: digits are kept and the value gains one; one digit longer only when every digit is at its maximum |
| ConversionUtils.IncrementCorrectedValue | bignum/src/commonMain/kotlin/com/ionspin/kotlin/bignum/integer/util/ConversionUtils.kt:82-85 | zeroing the saturated tail and bumping the digit before it adds one to the value |
| ConversionUtils.IncrementUInts | bignum/src/commonMain/kotlin/com/ionspin/kotlin/bignum/integer/util/ConversionUtils.kt:95-104 | returns a fresh array holding the word-increment specification at maximum 0xFFFFFFFF |
| ConversionUtils.IncrementULongs | bignum/src/commonMain/kotlin/com/ionspin/kotlin/bignum/integer/util/ConversionUtils.kt:109-118 | returns a fresh array holding the word-increment specification at maximum 0xFFFFFFFFFFFFFFFF |
| ConversionUtils.IncrementWordsValue | bignum/src/commonMain/kotlin/com/ionspin/kotlin/bignum/integer/util/ConversionUtils.kt:95-118 | bumping the last non-saturated word k adds radix^(size-1-k) to the value; this is the successor exactly when k is the last word |
| ConversionUtils.InvertBytes | bignum/src/commonMain/kotlin/com/ionspin/kotlin/bignum/integer/util/ConversionUtils.kt:136-138 | invert(UByteArray) keeps the length |
| ConversionUtils.InvertBytesInvolution | bignum/src/commonMain/kotlin/com/ionspin/kotlin/bignum/integer/util/ConversionUtils.kt:136-138 | inverting bytes twice gives them back |
| ConversionUtils.InvertBytesValue | bignum/src/commonMain/kotlin/com/ionspin/kotlin/bignum/integer/util/ConversionUtils.kt:136-138 | the inverted bytes denote 256^size - 1 - value |
| ConversionUtils.InvertULongs | bignum/src/commonMain/kotlin/com/ionspin/kotlin/bignum/integer/util/ConversionUtils.kt:120-126 | an empty array fails on index 0; otherwise a fresh array with every word complemented and word 0 masked by the inverse of `ULONG_MAX shl roundedBitLength` |
| ConversionUtils.InvertUInts | bignum/src/commonMain/kotlin/com/ionspin/kotlin/bignum/integer/util/ConversionUtils.kt:128-134 | the same for UInt words, with `0xFFFFFFFF shl roundedBitLength` |
| ConversionUtils.Complement | bignum/src/commonMain/kotlin/com/ionspin/kotlin/bignum/integer/util/ConversionUtils.kt:123 | the mapped `inv()` array: same length, each word subtracted from the word maximum |
| ConversionUtils.RoundedBitLengthBounds | bignum/src/commonMain/kotlin/com/ionspin/kotlin/bignum/integer/util/ConversionUtils.kt:121-122 | the bit length rounded up to whole bytes covers the word and stays within the word width |
| ConversionUtils.InvertedHeadWithinRounded | bignum/src/commonMain/kotlin/com/ionspin/kotlin/bignum/integer/util/ConversionUtils.kt:124 | when the rounded bit length is below the word width, the new word 0 is the complement of word 0 within the rounded bit length |
| ConversionUtils.InvertedHeadTopByte | bignum/src/commonMain/kotlin/com/ionspin/kotlin/bignum/integer/util/ConversionUtils.kt:124 | when the top byte of word 0 is in use, the shift count wraps to 0 and the new word 0 is 0 |
| ConversionUtils.InvertedHeadCorrected | bignum/src/commonMain/kotlin/com/ionspin/kotlin/bignum/integer/util/ConversionUtils.kt:120-134 | the intended word 0: its complement within the rounded bit length in every case |
| ConversionUtils.ShlULongHead | bignum/src/commonMain/kotlin/com/ionspin/kotlin/bignum/integer/util/ConversionUtils.kt:124 | the ULong mask expression applied to the complemented word gives the modelled new word 0 |
| ConversionUtils.ShlUIntHead | bignum/src/commonMain/kotlin/com/ionspin/kotlin/bignum/integer/util/ConversionUtils.kt:132 | the UInt mask expression applied to the complemented word gives the modelled new word 0 |
| ConversionUtils.IndexOfFirstNot | bignum/src/commonMain/kotlin/com/ionspin/kotlin/bignum/integer/util/ConversionUtils.kt:167 | indexOfFirst: the first index whose byte differs from the fill, or -1 when there is none |
| ConversionUtils.TrimmedValue | bignum/src/commonMain/kotlin/com/ionspin/kotlin/bignum/integer/util/ConversionUtils.kt:167-180 | trimming leading fill bytes and re-adding a sign byte when needed keeps the two's-complement value; the top bit of the result is set exactly for an 0xFF fill; the result is minimal |
| ConversionUtils.InvertIncrementValue | bignum/src/commonMain/kotlin/com/ionspin/kotlin/bignum/integer/util/ConversionUtils.kt:164-165 | invert-then-increment of bytes with room gives 256^size - value, at the same length |
| ConversionUtils.FromTwosComplementByteArray | bignum/src/commonMain/kotlin/com/ionspin/kotlin/bignum/integer/util/ConversionUtils.kt:140-152 | decodes to the two's-complement value of the bytes; ZERO exactly for the empty array; NEGATIVE exactly when the first byte is below 0 |
| ConversionUtils.ToTwosComplementByteArray | bignum/src/commonMain/kotlin/com/ionspin/kotlin/bignum/integer/util/ConversionUtils.kt:154-201 | a non-NEGATIVE zero magnitude encodes as [0] and -1 as [0xFF]; a NEGATIVE zero magnitude, which the isEmpty test never catches, goes down the negative path and encodes as [0xFF, 0x01] followed by one 0xFF per input byte; the encoding is minimal; the top bit of byte 0 is set exactly for NEGATIVE; every other ZeroSound input encodes its value |
| ConversionUtils.NegativeEncoding | bignum/src/commonMain/kotlin/com/ionspin/kotlin/bignum/integer/util/ConversionUtils.kt:163-180 | for a magnitude of at least 2 the negative branch yields a minimal encoding of -magnitude whose first byte has its top bit set |
| ConversionUtils.PositiveEncoding | bignum/src/commonMain/kotlin/com/ionspin/kotlin/bignum/integer/util/ConversionUtils.kt:185-199 | for a positive magnitude the trimmed bytes are a minimal encoding of it whose first byte is below 0x80 |
| ConversionUtils.TwosComplementValueRoundTrip | bignum/src/commonMain/kotlin/com/ionspin/kotlin/bignum/integer/util/ConversionUtils.kt:140-201 | decoding the encoding of a BigInteger gives its value, except a NEGATIVE zero magnitude, which decodes to -254 * 256^n - 1 for n input bytes |
| ConversionUtils.TwosComplementRoundTrip | bignum/src/commonMain/kotlin/com/ionspin/kotlin/bignum/integer/util/ConversionUtils.kt:140-201 | decoding the encoding of a valid non-zero BigInteger gives it back exactly |
| ConversionUtils.NegativeZeroIncrement | bignum/src/commonMain/kotlin/com/ionspin/kotlin/bignum/integer/util/ConversionUtils.kt:164-165 | inverting and incrementing bytes of value 0 gives [1] followed by one 0xFF per byte |
| ConversionUtils.NegativeZeroEncoding | bignum/src/commonMain/kotlin/com/ionspin/kotlin/bignum/integer/util/ConversionUtils.kt:163-180 | for a zero magnitude the negative path yields [0xFF, 0x01] followed by one 0xFF per input byte, a minimal encoding of -254 * 256^n - 1 |
| ConversionUtils.CarryTrimmed | bignum/src/commonMain/kotlin/com/ionspin/kotlin/bignum/integer/util/ConversionUtils.kt:167-180 | trimming [1] and n bytes 0xFF keeps them all and adds a sign byte 0xFF; the result is minimal and denotes -254 * 256^n - 1 |
| ConversionUtils.NegativeZeroCounterexample | bignum/src/commonMain/kotlin/com/ionspin/kotlin/bignum/integer/util/ConversionUtils.kt:155-180 | a NEGATIVE zero magnitude with one zero byte encodes as [0xFF, 0x01, 0xFF], which denotes -65025; the corrected encoder gives [0] |
| ConversionUtils.ToTwosComplementCorrected | bignum/src/commonMain/kotlin/com/ionspin/kotlin/bignum/integer/util/ConversionUtils.kt:154-201 | every zero magnitude encodes as [0]; the encoding is minimal, denotes the value, has the top bit of byte 0 set exactly for a negative value, and decodes back to the value |
| BigDecimals.FromLongWithExponent | bignum/src/commonMain/kotlin/com/ionspin/kotlin/bignum/decimal/BigDecimal.kt:64-68 | the significand is the Long and the stored exponent is `exponent + digits - 1` |
| BigDecimals.FromLongWithExponentValue | bignum/src/commonMain/kotlin/com/ionspin/kotlin/bignum/decimal/BigDecimal.kt:64-68 | the result denotes long * 10^exponent |
| BigDecimals.FromIntWithExponent | bignum/src/commonMain/kotlin/com/ionspin/kotlin/bignum/decimal/BigDecimal.kt:70-74 | the significand is the Int and the stored exponent is `exponent + digits` |
| BigDecimals.FromIntWithExponentValue | bignum/src/commonMain/kotlin/com/ionspin/kotlin/bignum/decimal/BigDecimal.kt:70-74 | the result denotes int * 10^(exponent + 1), one power of ten above the Long variant |
| BigDecimals.FromShortWithExponent | bignum/src/commonMain/kotlin/com/ionspin/kotlin/bignum/decimal/BigDecimal.kt:76-80 | the significand is the Short and the stored exponent is `exponent + digits` |
| BigDecimals.FromByteWithExponent | bignum/src/commonMain/kotlin/com/ionspin/kotlin/bignum/decimal/BigDecimal.kt:82-86 | the significand is the Byte and the stored exponent is `exponent + digits` |
| BigDecimals.Negate | bignum/src/commonMain/kotlin/com/ionspin/kotlin/bignum/decimal/BigDecimal.kt:177-179 | negate and unaryMinus keep the exponent and the digit count and negate the significand |
| BigDecimals.NegateValue | bignum/src/commonMain/kotlin/com/ionspin/kotlin/bignum/decimal/BigDecimal.kt:193-195 | the negation denotes the negated number |
| BigDecimals.NegateInvolution | bignum/src/commonMain/kotlin/com/ionspin/kotlin/bignum/decimal/BigDecimal.kt:193-195 | negating twice gives the same BigDecimal |
| BigDecimals.Abs | bignum/src/commonMain/kotlin/com/ionspin/kotlin/bignum/decimal/BigDecimal.kt:189-191 | abs keeps the exponent and makes the significand denote its magnitude |
| BigDecimals.AbsValue | bignum/src/commonMain/kotlin/com/ionspin/kotlin/bignum/decimal/BigDecimal.kt:189-191 | abs denotes the absolute value of the number |
| BigDecimals.RoundOrDont | bignum/src/commonMain/kotlin/com/ionspin/kotlin/bignum/decimal/BigDecimal.kt:41-47 | with rounding mode NONE the parts are kept as given; any other mode reaches the unimplemented rounding |
| BigDecimals.Multiply | bignum/src/commonMain/kotlin/com/ionspin/kotlin/bignum/decimal/BigDecimal.kt:115-121 | with rounding mode NONE the significand is the product of the significands and the exponent the sum of the exponents |
| BigDecimals.MultiplyValue | bignum/src/commonMain/kotlin/com/ionspin/kotlin/bignum/decimal/BigDecimal.kt:115-121 | the true product equals the result's number scaled by 10^(digits(p) + 1 - digits(x) - digits(y)) |
| BigDecimals.MultiplyExact | bignum/src/commonMain/kotlin/com/ionspin/kotlin/bignum/decimal/BigDecimal.kt:115-121 | for non-zero operands the result denotes the product exactly when the significand product has one digit fewer than the two significands together |
| BigDecimals.MultiplyCarryExample | bignum/src/commonMain/kotlin/com/ionspin/kotlin/bignum/decimal/BigDecimal.kt:115-121 | fromLongWithExponent(5, 1) is significand 5 with exponent 1, which denotes 50; squared it gives significand 25 with exponent 2, which denotes 250 and prints as "2.5E+2" |
| BigDecimals.MultiplyCorrected | bignum/src/commonMain/kotlin/com/ionspin/kotlin/bignum/decimal/BigDecimal.kt:115-121 | multiply with the exponent raised by one when the product of the significands gains a digit; the significand is still the product of the significands, and rounding other than NONE is NotImplemented |
| BigDecimals.MultiplyCorrectedExact | bignum/src/commonMain/kotlin/com/ionspin/kotlin/bignum/decimal/BigDecimal.kt:115-121 | the corrected product denotes exactly the product of the two numbers, for every pair of operands |
| BigDecimals.MultiplyCorrectedExample | bignum/src/commonMain/kotlin/com/ionspin/kotlin/bignum/decimal/BigDecimal.kt:115-121 | corrected, 50 times 50 gives significand 25 with exponent 3, which denotes 2500 |
| BigDecimals.Compare | bignum/src/commonMain/kotlin/com/ionspin/kotlin/bignum/decimal/BigDecimal.kt:229-232 | with equal exponents compare is the significand compare: 0 exactly for equal significands, value order unless both are negative |
| BigDecimals.CompareOrdersValues | bignum/src/commonMain/kotlin/com/ionspin/kotlin/bignum/decimal/BigDecimal.kt:229-232 | with equal exponents and equal digit counts, and unless both are negative, compare orders the numbers denoted |
| BigDecimals.CompareDigitsExample | bignum/src/commonMain/kotlin/com/ionspin/kotlin/bignum/decimal/BigDecimal.kt:229-232 | fromLongWithExponent(5, 1) = (5, 1) denotes 50 and fromLongWithExponent(10, 0) = (10, 1) denotes 10, yet compare ranks the first below the second; the corrected compare ranks it above |
| BigDecimals.CompareCorrected | bignum/src/commonMain/kotlin/com/ionspin/kotlin/bignum/decimal/BigDecimal.kt:229-232 | the equal-exponent compare with the shorter significand padded with zeros to the longer one's digit count; it returns -1, 0 or 1 |
| BigDecimals.CompareCorrectedOrdersValues | bignum/src/commonMain/kotlin/com/ionspin/kotlin/bignum/decimal/BigDecimal.kt:229-232 | for every pair with equal exponents the corrected compare is the order of the numbers denoted |
| BigDecimals.Repeat | bignum/src/commonMain/kotlin/com/ionspin/kotlin/bignum/decimal/BigDecimal.kt:280 | `n * '0'` is n copies of the character |
| BigDecimals.DropTrailingZeros | bignum/src/commonMain/kotlin/com/ionspin/kotlin/bignum/decimal/BigDecimal.kt:311 | dropLastWhile '0' gives the longest prefix not ending in '0', having removed only '0's |
| BigDecimals.PlaceADot | bignum/src/commonMain/kotlin/com/ionspin/kotlin/bignum/decimal/BigDecimal.kt:297-313 | a negative position fails; otherwise the result never ends in '0' and holds exactly one '.' more than the input |
| BigDecimals.PlaceADotWithin | bignum/src/commonMain/kotlin/com/ionspin/kotlin/bignum/decimal/BigDecimal.kt:306-311 | for a position within the string, the result is the prefix, a '.', then the suffix with trailing '0's dropped |
| BigDecimals.PlaceADotPadded | bignum/src/commonMain/kotlin/com/ionspin/kotlin/bignum/decimal/BigDecimal.kt:298-305 | for a position past the string, the result is "0." then position - length '0's and the input, trailing '0's dropped |
| BigDecimals.PlaceADotInString | bignum/src/commonMain/kotlin/com/ionspin/kotlin/bignum/decimal/BigDecimal.kt:297-313 | the method with the padding loop computes PlaceADot |
| BigDecimals.Mantissa | bignum/src/commonMain/kotlin/com/ionspin/kotlin/bignum/decimal/BigDecimal.kt:264-265 | `dot(s, len-1)`: the first character, a '.', then the rest with trailing '0's dropped |
| BigDecimals.NoExponentToScientific | bignum/src/commonMain/kotlin/com/ionspin/kotlin/bignum/decimal/BigDecimal.kt:293-295 | the mantissa followed by "E+" |
| BigDecimals.NoExponentExponentParses | bignum/src/commonMain/kotlin/com/ionspin/kotlin/bignum/decimal/BigDecimal.kt:293-295 | what follows the 'E' parses as length - 1 |
| BigDecimals.ToString | bignum/src/commonMain/kotlin/com/ionspin/kotlin/bignum/decimal/BigDecimal.kt:261-269 | toString is the mantissa of the significand's digits, then 'E', then '-' for a NEGATIVE exponent and '+' for any other |
| BigDecimals.ToStringExponentRoundTrip | bignum/src/commonMain/kotlin/com/ionspin/kotlin/bignum/decimal/BigDecimal.kt:261-269 | what follows the 'E' parses back to the exponent, or to length - 1 when the exponent is 0 |
| BigDecimals.PositiveExponentDigits | bignum/src/commonMain/kotlin/com/ionspin/kotlin/bignum/decimal/BigDecimal.kt:264 | for a positive exponent, everything after the 'E' is a '+' followed by the exponent's digits |
| BigDecimals.PositiveExponentRoundTrip | bignum/src/commonMain/kotlin/com/ionspin/kotlin/bignum/decimal/BigDecimal.kt:264 | for a positive exponent, the 'E' is followed by a '+', and the characters after the '+' parse back to the exponent |
| BigDecimals.NegativeExponentRoundTrip | bignum/src/commonMain/kotlin/com/ionspin/kotlin/bignum/decimal/BigDecimal.kt:265 | for a negative exponent, its printed form parses back to it |
| BigDecimals.PlusDigitsParse | bignum/src/commonMain/kotlin/com/ionspin/kotlin/bignum/decimal/BigDecimal.kt:264 | "+" then a non-negative BigInteger's digits parse back to it |
| BigDecimals.ToStringPositiveMantissa | bignum/src/commonMain/kotlin/com/ionspin/kotlin/bignum/decimal/BigDecimal.kt:261-269 | a non-negative significand prints as a digit, a '.', and so on |
| BigDecimals.ToStringNegativeCounterexample | bignum/src/commonMain/kotlin/com/ionspin/kotlin/bignum/decimal/BigDecimal.kt:264-265 | a negative significand prints as "-." with no digit before the dot |
| BigDecimals.ToStringCorrected | bignum/src/commonMain/kotlin/com/ionspin/kotlin/bignum/decimal/BigDecimal.kt:261-269 | the intended toString: as written for non-negative significands, and "-" before the absolute value's rendering otherwise |
| BigDecimals.ToStringCorrectedMantissa | bignum/src/commonMain/kotlin/com/ionspin/kotlin/bignum/decimal/BigDecimal.kt:261-269 | the corrected rendering has a '-' exactly for negatives, then a digit and a '.' |
| BigDecimals.ExpandedPositionSmall | bignum/src/commonMain/kotlin/com/ionspin/kotlin/bignum/decimal/BigDecimal.kt:280-286 | `exponent.magnitude[0].toInt().absoluteValue` is the magnitude when it is below 2^31 |
| BigDecimals.ToStringExpanded | bignum/src/commonMain/kotlin/com/ionspin/kotlin/bignum/decimal/BigDecimal.kt:271-291 | an exponent above Int.MAX_VALUE is refused; a zero exponent gives the significand's digits; an exponent in 1..Int.MAX_VALUE succeeds, and below the digit count it places the dot at the exponent |
| BigDecimals.ToStringExpandedWrapCounterexample | bignum/src/commonMain/kotlin/com/ionspin/kotlin/bignum/decimal/BigDecimal.kt:286 | exponent -(2^32 + 1) prints exactly as exponent -1 does |
| BigDecimals.ToStringExpandedCorrected | bignum/src/commonMain/kotlin/com/ionspin/kotlin/bignum/decimal/BigDecimal.kt:271-291 | refuses exactly the exponents outside ±Int.MAX_VALUE, which fixes only the Int wrap; a negative exponent still places the dot at its magnitude from the right, as the source does; otherwise as written |
| BigDecimals.ExpandedDigits | bignum/src/commonMain/kotlin/com/ionspin/kotlin/bignum/decimal/BigDecimal.kt:277-287 | the digits laid out in expanded notation for the exponent: exactly exponent + 1 digits before the dot, zeros filling in past the digits, and "0." with -exponent - 1 zeros ahead for a negative exponent |
| BigDecimals.ToStringExpandedPlaced | bignum/src/commonMain/kotlin/com/ionspin/kotlin/bignum/decimal/BigDecimal.kt:271-291 | refuses exactly the exponents above Int.MAX_VALUE; otherwise the sign, then the magnitude's digits in expanded notation with exponent + 1 digits before the dot |
| BigDecimals.ToStringExpandedDotCounterexample | bignum/src/commonMain/kotlin/com/ionspin/kotlin/bignum/decimal/BigDecimal.kt:282 | 12345 with exponent 1 denotes 12.345, toStringExpanded prints "1234.5", and the corrected rendering prints "12.345" |
| BigDecimals.FromIntWithExponentCorrected | bignum/src/commonMain/kotlin/com/ionspin/kotlin/bignum/decimal/BigDecimal.kt:70-86 | the Int/Short/Byte constructors with the `- 1` the Long one has: the unit exponent is the given exponent |
| BigDecimals.FromIntWithExponentCorrectedValue | bignum/src/commonMain/kotlin/com/ionspin/kotlin/bignum/decimal/BigDecimal.kt:70-86 | the corrected constructor denotes int * 10^exponent, as the Long variant does |
| BigDecimals.IntToBig | bignum/src/commonMain/kotlin/com/ionspin/kotlin/bignum/integer/BigInteger.kt:58-59 | an in-range integer becomes the valid BigInteger denoting it |

## Left out

- The word-array backends: BigInteger63Arithmetic, BigInteger32Arithmetic and the linked-list variant are not part of this model.
  - Module `Arithmetic` gives their operations value-level definitions instead.
  - Its own digit conversion stands in for `parseForBase` and `toString`, and `ParseString` requires a base in 2..36.
- Runtime dispatch on the chosen word representation (`ArithmeticExtensions.kt`, `WordTypealiasUtil.kt`). It only selects a representation.
- The commented-out concurrent multiply in `Placeholder.kt`. It has no code.
- Floating point: the `log10(2.0)` estimate and `ceil` in numberOfDecimalDigits. The estimate is the parameter `minDigit` instead.
- The TODO stubs: `divideByReciprocal`, `reciprocal`, `sqrt`, `gcd` and `BigDecimal.round`. Rounding is an error result, `NotImplemented`.
- BigDecimal `bringToSameExponent`, `plus`, `minus`, `div`, `rem`, `divrem` and `pow`.
  - They rest on the unseen `numberOfDigits` and on `pow` with a possibly negative count.
  - Their intended result is not stated in the code.
  - As a consequence, compare is modelled only on its equal-exponent path.
- Comparison and equality against `Any` and the native types. Only the BigInteger-to-BigInteger path and the BigDecimal equal-exponent path are modelled.
- Smaller pieces:
  - `hashCode`;
  - the unused `stringRepresentation` cache;
  - `bitAt`/`setBitAt`;
  - `inc`/`dec`;
  - the native-type overloads of the arithmetic operators, which are thin calls to the constructors;
  - the operator aliases (`plus`, `minus`, `times`, `div`, `rem`, `unaryMinus`), which call the modelled operations.
- `times(Char)`, the StringBuilder loop. Only its use as `n * '0'` in toStringExpanded is modelled, as the function `Repeat`.
- The tests. They are evidence for the backend contract only; they use JUnit, coroutines and java.math.BigInteger.
- BigIntegers.PowBig: `exponent.magnitude[0].toLong()` is modelled as the magnitude's low 63 bits, which is what the first word of the 63-bit backend holds. The 32-bit backend's first word is not modelled.
- BigIntegers.NumberOfDecimalDigits: the floating-point `minDigit` is a parameter. The count is proved exact only when that estimate is at most the true count.
- BigIntegers.Remainder: the value is stated up to sign. Its sign is the signs-match sign, which the finding below shows is not the sign of the true remainder.
- BigIntegers.Compare: the contract gives only the range. How its result relates to the values is stated by CompareAgreesOffNegatives and CompareReversedOnNegatives.
- ConversionUtils.InvertULongs: word 0's bit length is the exact one, not `BigInteger63Arithmetic.bitLength`, whose code is not part of this model.
- ConversionUtils.ToTwosComplementByteArray and ConversionUtils.FromTwosComplementByteArray: `toByteArray`, `fromByteArray` and `fromUByteArray` are not part of this model.
  - Their bytes are a parameter with the right big-endian value.
  - On the way back they build the magnitude the bytes denote, with the sign as given.
- BigDecimals.ToStringExpandedCorrected: it corrects only the refusal of exponents whose position wraps as an Int. For a negative exponent it keeps the source's dot, |exponent| characters from the right; ToStringExpandedPlaced is the member that puts exponent + 1 digits before the dot.
- BigDecimals.ToStringExpanded: the contract does not state the rendering for a positive exponent at or past the digit count, or for a negative exponent. ToStringExpandedCorrected states the negative case, and ToStringExpandedPlaced states where the dot evidently belongs.
- Arithmetic.PowMagnitude, Arithmetic.ShiftLeft and Arithmetic.ShiftRight: what the backend's `pow`, `shiftLeft` and `shiftRight` do with a negative count is not part of this model. The model takes 1 for a negative exponent and a shift the other way for a negative count, and BigIntegers.Pow, Shl and Shr state their values only for non-negative counts.
- ConversionUtils.MirrorBytes: indices outside either array are excluded by its requires. The source would throw an index-out-of-bounds exception after copying part of the range; that partial copy and the exception are not modelled.
- In-place array state.
  - `IncrementBytes`, `IncrementUInts` and `IncrementULongs` copy the input into a fresh array and change only the copy: this is how the source behaves.
  - `MirrorBytes` changes only `target`, and the model requires that `source` and `target` are different arrays. Overlapping ranges within one array are not modelled.

## Findings

| source | as written | input that shows it | evidently intended | confidence | as-written member | corrected member |
|---|---|---|---|---|---|---|
| bignum/src/commonMain/kotlin/com/ionspin/kotlin/bignum/integer/BigInteger.kt:324 | two negatives are ordered by raw magnitude comparison | compare(-5, -3) returns 1 | -1, as for any pair with -5 < -3 | high, not executed | BigIntegers.CompareCounterexample | BigIntegers.CompareCorrected |
| bignum/src/commonMain/kotlin/com/ionspin/kotlin/bignum/integer/BigInteger.kt:266-272 | remainder takes the signs-match sign and does not normalise zero | 7 % -2 gives -1; 4 % 2 gives a zero magnitude tagged POSITIVE | 1 (Java's truncated remainder follows the dividend), and ZERO for a zero remainder | high, not executed | BigIntegers.RemainderCounterexample | BigIntegers.RemainderCorrected |
| bignum/src/commonMain/kotlin/com/ionspin/kotlin/bignum/integer/BigInteger.kt:279-294 | the remainder of divideAndRemainder takes the signs-match sign | (-7).divideAndRemainder(-2) gives (3, 1), and 3 * -2 + 1 = -5, not -7 | (3, -1), with quotient * divisor + remainder = dividend | high, not executed | BigIntegers.DivideAndRemainderCounterexample | BigIntegers.DivideAndRemainderCorrected |
| bignum/src/commonMain/kotlin/com/ionspin/kotlin/bignum/integer/BigInteger.kt:333-335 | abs always tags the result POSITIVE | ZERO.abs() is a zero magnitude with sign POSITIVE | ZERO, keeping "zero magnitude iff sign ZERO" | medium, not executed | BigIntegers.AbsOfZeroMagnitude | BigIntegers.AbsCorrected |
| bignum/src/commonMain/kotlin/com/ionspin/kotlin/bignum/integer/util/ConversionUtils.kt:88-89 | an all-0xFF byte array is incremented to `[1] + input` | increment([0xFF]) = [1, 0xFF], value 511 | [1, 0x00], value 256 | high, not executed | ConversionUtils.IncrementBytesCounterexample | ConversionUtils.IncrementCorrected |
| bignum/src/commonMain/kotlin/com/ionspin/kotlin/bignum/integer/util/ConversionUtils.kt:97-103 | trailing saturated words are not cleared | increment([0, 0xFFFFFFFF]) = [1, 0xFFFFFFFF] | [1, 0], the big-endian successor | high, not executed | ConversionUtils.IncrementWordsCounterexample | ConversionUtils.IncrementCorrected |
| bignum/src/commonMain/kotlin/com/ionspin/kotlin/bignum/integer/util/ConversionUtils.kt:132 | a shift by the full word width is masked to a shift by 0, so the mask is 0 | invert([0x80000000]) gives [0] | [0x7FFFFFFF], the complement within the rounded bit length | high, not executed | ConversionUtils.InvertedHeadCounterexample | ConversionUtils.InvertedHeadCorrected |
| bignum/src/commonMain/kotlin/com/ionspin/kotlin/bignum/decimal/BigDecimal.kt:264-265 | the dot is placed after the first character, which for a negative significand is the '-' | significand -123 renders as "-.123E…" | "-1.23E…" | high, not executed | BigDecimals.ToStringNegativeCounterexample | BigDecimals.ToStringCorrected |
| bignum/src/commonMain/kotlin/com/ionspin/kotlin/bignum/decimal/BigDecimal.kt:72 | the Int, Short and Byte variants add `digits` where the Long variant adds `digits - 1` | fromIntWithExponent(5, 0) denotes 50 while fromLongWithExponent(5, 0) denotes 5 | the same number as the Long variant | medium, not executed | BigDecimals.FromIntWithExponentCounterexample | BigDecimals.FromIntWithExponentCorrected |
| bignum/src/commonMain/kotlin/com/ionspin/kotlin/bignum/decimal/BigDecimal.kt:286 | a negative exponent's position is the low 32 bits of its first word read as an Int | exponent -(2^32 + 1) renders as exponent -1 does | refuse exponents below -Int.MAX_VALUE, as those above Int.MAX_VALUE are refused | medium, not executed | BigDecimals.ToStringExpandedWrapCounterexample | BigDecimals.ToStringExpandedCorrected |
| bignum/src/commonMain/kotlin/com/ionspin/kotlin/bignum/integer/util/ConversionUtils.kt:155-180 | the isEmpty test never holds, so a zero magnitude tagged NEGATIVE, such as parsing "-00" gives, goes down the negative path | the magnitude 0 with sign NEGATIVE and bytes [0] encodes as [0xFF, 0x01, 0xFF], which denotes -65025 | [0], as for every other zero | medium, not executed | ConversionUtils.NegativeZeroCounterexample | ConversionUtils.ToTwosComplementCorrected |
| bignum/src/commonMain/kotlin/com/ionspin/kotlin/bignum/decimal/BigDecimal.kt:115-121 | multiply adds the exponents, which is exact only when the significands' product has one digit fewer than the two significands together | fromLongWithExponent(5, 1), which denotes 50, squared gives significand 25 with exponent 2, printed "2.5E+2", which denotes 250 | 2500: significand 25 with exponent 3 | medium, not executed | BigDecimals.MultiplyCarryExample | BigDecimals.MultiplyCorrected |
| bignum/src/commonMain/kotlin/com/ionspin/kotlin/bignum/decimal/BigDecimal.kt:282 | the dot is placed `exponent` characters from the right, where exponent + 1 digits should stand before it | 12345 with exponent 1 renders as "1234.5" | "12.345" | medium, not executed | BigDecimals.ToStringExpandedDotCounterexample | BigDecimals.ToStringExpandedPlaced |
| bignum/src/commonMain/kotlin/com/ionspin/kotlin/bignum/decimal/BigDecimal.kt:229-232 | with equal exponents the significands are compared as integers, although their digit counts fix their scale | (5, 1), which denotes 50, is ranked below (10, 1), which denotes 10 | 1, since 50 > 10 | medium, not executed | BigDecimals.CompareDigitsExample | BigDecimals.CompareCorrected |
