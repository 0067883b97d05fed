# BNHaNa numeric kernel in Dafny

This project models the arbitrary-precision integer library in
`Python/BNHaNa.py` and proves what it computes.

## Numbers

A number is either of these:

- a finite value: a sign (+1 or -1), a list of base-1000 blocks (least significant first) and a decimal magnitude (its digit count);
- a signed infinity.

A finite result is at most `MAX_SUPPORTED_MAGNITUDE = 3003` digits long.
Most operations return the infinity of the result's sign once the exact
result would have more digits than that. Three things differ:

- power returns +∞ whatever the sign of the true value when its exponent is above 10000.
- power also returns +∞ whatever the sign when squaring the base overflows. So power(-(10^1600), 3) is +∞.
- Some operations saturate although the exact result has 3003 digits or fewer. "## Findings" lists these cases: modulo, power, sqrt, and reading "0e<k>".

The datatype `Numbers.Num` is `Finite(sign, blocks, magnitude) | Inf(sign)`.
`Numbers.FromVal(s, x)` is the canonical number of sign `s` and absolute
value `x`. `Numbers.Valid(n)` says `n` is in that canonical form: blocks
below 1000, no most-significant zero block, and the exact magnitude.

Python exceptions become `Err(..)` values of a `Result` datatype, with one
error per message of the source.

## Modules

The modules follow the source:

- `Numbers`: the representation and its canonical form.
- `Normalization`: `normalize_number`.
- `Comparison`: `compare` and the `is_*` wrappers.
- `Arithmetic`: `add`, `subtract`, `multiply`.
- `Division`: `divide`.
- `Remainder`: `modulo`.
- `Divisors`: `abs_`, `gcd`, `lcm`.
- `Powers`: `power`.
- `SquareRoot`: `sqrt`.
- `Factorials`: `factorial`.
- `Batch`: `batch_add`, `batch_multiply`.
- `Strings`: `to_decimal_string`, `string_to_number`.
- `Notation`: `notation_to_string`, with the suffix table as a parameter.
- `Validation`: `is_valid_number`.
- `Codec`: `encode_number`, `decode_number` and the 90-symbol alphabet.

## How the model is proved

The functions that update local state in loops are Dafny methods with loop
invariants: normalisation, the carry and borrow loops, the schoolbook
convolution over an array, long division with its binary search, the Euclid,
Newton, squaring and factorial loops, and the base-90 conversions.

Each method is proved equal to a reference function, for example
`Arithmetic.AddSpec`, `Division.DivSpec` or `Codec.EncodeSpec`. Lemmas then
relate that reference function to exact integer arithmetic: sums, floor
quotients, floor remainders, powers, factorials, greatest common divisors,
and base-90 and decimal digit strings.

Two properties are only conditional:

- `compare` agrees with integer order except on a zero carrying the sign -1. `add` and `subtract` can produce such a zero, and it compares below +0.
- `sqrt` is the integer square root only when its loop stops on a fixed point.

## Model

| member | source | states |
|---|---|---|
| Numbers.FromValFacts | Python/BNHaNa.py:55-82 | the canonical number of a value is valid, keeps the sign, is finite exactly when the value has fewer than 3004 digits, and then holds that value |
| Numbers.ValidFacts | Python/BNHaNa.py:55-82 | a canonical finite number has blocks below 1000 that are the base-1000 digits of its value, no top zero block, a magnitude equal to its digit count (at most 3003), ceil(magnitude/3) blocks, and value 0 exactly when its blocks are [0] |
| Numbers.OverflowsIff | Python/BNHaNa.py:74-76 | a value saturates exactly when its absolute value reaches 10^3003 |
| Numbers.FromIntFacts | Python/BNHaNa.py:74-82 | the number built from a signed integer is valid and finite exactly when the integer does not overflow, holds the integer, and otherwise is the infinity of the integer's sign |
| Numbers.NegatedFromVal | Python/BNHaNa.py:115 | flipping the sign of a canonical number gives the canonical number of the opposite sign |
| Normalization.TrimFacts | Python/BNHaNa.py:59-61 | dropping top zero blocks keeps a nonempty prefix with no top zero, the same value, blocks below 1000, and the same derived magnitude |
| Normalization.TrimIdempotent | Python/BNHaNa.py:59-61 | trimming twice is trimming once |
| Normalization.CanonicalMagnitude | Python/BNHaNa.py:62-73 | for trimmed blocks, 3*i plus the digit count of the top nonzero block i is the decimal digit count of the value (1 for zero) |
| Normalization.NormalizedIsFromVal | Python/BNHaNa.py:55-82 | normalising blocks without a given magnitude yields exactly the canonical number of their value and sign |
| Normalization.NormalizedIdempotent | Python/BNHaNa.py:55-82 | normalising a canonical number, with or without its magnitude, returns it unchanged |
| Normalization.Normalize | Python/BNHaNa.py:55-82 | the loop computes the normalised number; it keeps the sign and the value, saturates to the infinity of the sign, and yields the canonical number when no magnitude is given |
| Normalization.NormFacts | Python/BNHaNa.py:55-82 | normalisation keeps the sign and value, is idempotent, leaves canonical numbers alone, and removes every top zero block |
| Normalization.NormalizeNum | Python/BNHaNa.py:55-82 | normalising a whole number record is the identity on canonical numbers |
| Comparison.Compare | Python/BNHaNa.py:84-100 | compare returns only -1, 0 or 1 |
| Comparison.CompareAntisymmetric | Python/BNHaNa.py:84-100 | compare(a, b) == -compare(b, a) for all inputs |
| Comparison.CompareInfinities | Python/BNHaNa.py:85-88 | +∞ is above and -∞ below every finite number, and two infinities compare by sign |
| Comparison.CompareMixedSigns | Python/BNHaNa.py:89-90 | numbers of opposite signs that are not both zero compare as their integer values |
| Comparison.MagnitudeDecides | Python/BNHaNa.py:92-93 | between canonical numbers, a larger magnitude means a larger absolute value |
| Comparison.CompareSameSign | Python/BNHaNa.py:91-99 | numbers of the same sign compare as their integer values |
| Comparison.CompareAgrees | Python/BNHaNa.py:84-100 | on canonical finite numbers compare is integer order, except that two zeros compare by their signs |
| Comparison.EqualIffSame | Python/BNHaNa.py:84-100 | two canonical numbers compare equal exactly when they are the same number |
| Comparison.IsGreater | Python/BNHaNa.py:637-638 | is_greater holds exactly when a's value exceeds b's |
| Comparison.IsLesser | Python/BNHaNa.py:640-641 | is_lesser holds exactly when a's value is below b's |
| Comparison.IsEqual | Python/BNHaNa.py:643-644 | is_equal holds exactly when the values are equal, and on canonical numbers exactly when the numbers are identical |
| Comparison.IsGreaterOrEqual | Python/BNHaNa.py:646-647 | is_greater_than_or_equal is integer >= |
| Comparison.IsLesserOrEqual | Python/BNHaNa.py:649-650 | is_lesser_than_or_equal is integer <= |
| Arithmetic.AddBlocks | Python/BNHaNa.py:117-126 | the carry loop produces blocks below 1000 whose value is the sum of the operands' values |
| Arithmetic.AddCarryLoop | Python/BNHaNa.py:120-124 | after max_len rounds, the blocks (all below 1000) followed by the last carry (0 or 1) have the value of both operands' blocks, zero-padded to max_len |
| Arithmetic.SubtractBlocks | Python/BNHaNa.py:151-162 | the borrow loop produces blocks below 1000 with result + b == a + borrow * 1000^len |
| Arithmetic.AddCrosses | Python/BNHaNa.py:114-116 | for operands of opposite signs, a + b is a - (-b) |
| Arithmetic.SubtractCrosses | Python/BNHaNa.py:141-143 | for operands of opposite signs, a - b is a + (-b) |
| Arithmetic.Add | Python/BNHaNa.py:102-127 | add gives the saturated exact sum, the first infinity against a finite number, and an error for ∞ + -∞ |
| Arithmetic.Subtract | Python/BNHaNa.py:129-163 | subtract gives the saturated exact difference, ∓∞ for finite minus ±∞, and an error for ∞ - ∞ of one sign |
| Arithmetic.AddValid | Python/BNHaNa.py:102-127 | the sum of canonical numbers is canonical |
| Arithmetic.SubValid | Python/BNHaNa.py:129-163 | the difference of canonical numbers is canonical |
| Arithmetic.AccumulateRow | Python/BNHaNa.py:178-181 | one row of the convolution adds a_i * 1000^i * b to the accumulator's value |
| Arithmetic.Convolve | Python/BNHaNa.py:177-181 | the product array holds a value equal to the product of the operands' values |
| Arithmetic.PropagateCarries | Python/BNHaNa.py:182-189 | the carry pass yields blocks below 1000 of the same value |
| Arithmetic.Multiply | Python/BNHaNa.py:165-191 | multiply is the saturated exact product with the product of the signs, +0 for a zero operand, the signed infinity for a nonzero operand against an infinity, and an error for 0 * ∞ |
| Division.FloorDivIsFloor | Python/BNHaNa.py:250-260 | the reference quotient is Python's floor division: its remainder is 0 or has the divisor's sign and is smaller in size |
| Division.DigitSearch | Python/BNHaNa.py:226-236 | the binary search finds the largest digit q below 1000 with q * abs_b <= R |
| Division.Reduce | Python/BNHaNa.py:225-242 | one long-division step leaves a remainder below abs_b, equal to R - q * abs_b |
| Division.LongDivision | Python/BNHaNa.py:218-247 | the digit loop yields the quotient digits of abs_a // abs_b and the remainder abs_a % abs_b |
| Division.QuotientNumber | Python/BNHaNa.py:244-248 | the reversed and trimmed quotient digits normalise to the canonical quotient |
| Division.SignedQuotient | Python/BNHaNa.py:249-260 | the sign correction (+1 when the remainder is nonzero and the signs differ) gives the floor quotient |
| Division.Divide | Python/BNHaNa.py:193-260 | divide is floor(a / b) saturated, 0 for a finite number over an infinity, the signed infinity for an infinity over a finite number, and an error for a zero divisor |
| Remainder.FloorModRange | Python/BNHaNa.py:610-623 | the reference remainder lies in [0, b) for b > 0 and in (b, 0] for b < 0 |
| Remainder.MulValue | Python/BNHaNa.py:165-191 | multiply of canonical finite numbers is the saturated exact product |
| Remainder.ModExactRange | Python/BNHaNa.py:621-623 | the intended remainder a - floor(a/b) * b of finite numbers is finite, canonical and lies in [0, b) or (b, 0] |
| Remainder.ModuloAgrees | Python/BNHaNa.py:621-623 | modulo as written equals the exact remainder whenever floor(a/b) * b does not saturate |
| Remainder.ModuloNonnegative | Python/BNHaNa.py:621-623 | modulo of a nonnegative number by a positive one is always the exact remainder |
| Remainder.ModuloSaturates | Python/BNHaNa.py:621-623 | when a = -(b + 1) and 2b saturates, modulo as written returns +∞ although the remainder is b - 1 |
| Remainder.SaturatingOperands | Python/BNHaNa.py:20 | a = -(10^3003 - 1) and b = 10^3003 - 2 are finite canonical numbers with 2b saturating |
| Remainder.Modulo | Python/BNHaNa.py:610-623 | the method computes modulo as written: a for an infinite divisor, errors for ∞ mod finite and a zero divisor, a for a zero dividend, otherwise a - divide(a, b) * b |
| Remainder.ModuloExact | Python/BNHaNa.py:610-623 | the corrected modulo has the same guards and returns the exact floor remainder |
| Divisors.GcdDivides | Python/BNHaNa.py:715-722 | the Euclid gcd divides both operands |
| Divisors.GcdGreatest | Python/BNHaNa.py:715-722 | every common divisor divides the Euclid gcd |
| Divisors.GcdBound | Python/BNHaNa.py:715-722 | gcd(x, 0) == x, and otherwise 1 <= gcd(x, y) <= y |
| Divisors.AbsoluteValue | Python/BNHaNa.py:625-635 | abs_ has sign +1, maps either infinity to +∞, and a finite number to the canonical number of its absolute value |
| Divisors.EuclidStep | Python/BNHaNa.py:718-721 | a loop step through modulo gives a smaller nonnegative remainder and keeps the gcd |
| Divisors.GcdValue | Python/BNHaNa.py:715-722 | gcd of finite numbers is gcd(abs(a), abs(b)), so gcd(a, 0) is abs(a) |
| Divisors.GcdOf | Python/BNHaNa.py:715-722 | the Euclid loop computes the reference gcd |
| Divisors.Lcm | Python/BNHaNa.py:724-727 | lcm is divide(multiply(abs(a), abs(b)), gcd(a, b)) with its errors |
| Divisors.LcmCommonMultiple | Python/BNHaNa.py:724-727 | abs(a·b) / gcd is a multiple of both operands |
| Divisors.LcmValue | Python/BNHaNa.py:724-727 | for nonzero finite operands whose product fits, lcm is abs(a·b) / gcd(abs(a), abs(b)) |
| Divisors.LcmWithZero | Python/BNHaNa.py:724-727 | lcm(a, 0) is 0 for a nonzero a and a division-by-zero error for a == 0 |
| Powers.PowerGuards | Python/BNHaNa.py:559-595 | the guard cascade: ∞^∞, ∞^0 and 1^∞ raise; x^0 is 1 even for x = 0; 0^-n raises; other negative exponents raise; exponents above 10000 give +∞ |
| Powers.PowLoopFacts | Python/BNHaNa.py:599-607 | the squaring loop keeps result * base^e == b^E; it returns b^E whenever it returns a finite value, and it saturates only when b^(2E) overflows |
| Powers.PowerValue | Python/BNHaNa.py:596-608 | past the guards power is b^e whenever finite, +∞ at least whenever b^e overflows, and only when b^(2e) overflows |
| Powers.Power | Python/BNHaNa.py:555-608 | the method computes power as written, guards and squaring loop |
| Powers.PowerSaturates | Python/BNHaNa.py:599-607 | with exponent 2, if b^2 fits and b^4 does not, power as written returns +∞ while b^2 is finite |
| Powers.PowerSaturatingOperands | Python/BNHaNa.py:20 | a base 10^k with 2k < 3003 <= 4k has a finite square and an overflowing fourth power |
| Powers.PowerOfTenSquared | Python/BNHaNa.py:599-607 | power(10^1000, 2) as written is +∞ and the intended result is 10^2000 |
| Powers.PowerExact | Python/BNHaNa.py:555-608 | the corrected loop (no squaring after the last bit) returns the guards' results and otherwise the saturated b^e |
| SquareRoot.GuessBlocks | Python/BNHaNa.py:666-681 | the guess blocks are [1, 0, ..., 0, 1] of length ceil(m/2), of value 1000^(ceil(m/2)-1) + 1 (1 for one block) |
| SquareRoot.StartingGuess | Python/BNHaNa.py:666-681 | the normalised initial guess is the canonical number of that value |
| SquareRoot.NewtonRound | Python/BNHaNa.py:684-686 | one round computes divide(add(x, divide(num, x)), two) |
| SquareRoot.Iterate | Python/BNHaNa.py:683-690 | the loop performs at most 100 rounds and stops when a round leaves x unchanged |
| SquareRoot.Sqrt | Python/BNHaNa.py:652-690 | the method computes sqrt as written: +∞ for +∞, errors for -∞ and negative numbers, zero unchanged, then the Newton loop |
| SquareRoot.NewtonFixpoint | Python/BNHaNa.py:684-688 | a positive fixed point of the integer Newton step is the integer square root |
| SquareRoot.IsqrtUnique | Python/BNHaNa.py:652-690 | the integer square root is unique |
| SquareRoot.StepAbove | Python/BNHaNa.py:684-686 | every Newton step from a positive guess stays above the root: n < (x + 1)^2 |
| SquareRoot.FixpointIsRoot | Python/BNHaNa.py:687-688 | if the loop exits because new_x == x, x is the integer square root |
| SquareRoot.LoopAtInfinity | Python/BNHaNa.py:683-690 | once the guess is +∞ every round keeps it +∞ |
| SquareRoot.SqrtSettled | Python/BNHaNa.py:652-690 | for positive input sqrt returns a valid positive guess x with n < (x+1)^2, and x is the integer square root when the loop stopped on a fixed point |
| SquareRoot.EightSteps | Python/BNHaNa.py:683-690 | from the guess 1, the steps for 8 run 1, 4, 3, 2, 3 |
| SquareRoot.Oscillation | Python/BNHaNa.py:683-690 | from 3 an even number of further steps for 8 returns to 3 |
| SquareRoot.SqrtOfEight | Python/BNHaNa.py:652-690 | sqrt(8) as written is 3, while the integer square root of 8 is 2 |
| SquareRoot.HugeGuess | Python/BNHaNa.py:666-681 | for magnitudes of 2003 or more the initial guess saturates to +∞ |
| SquareRoot.SqrtHuge | Python/BNHaNa.py:652-690 | sqrt as written returns +∞ for every positive input of 2003 or more digits |
| SquareRoot.HugeWitness | Python/BNHaNa.py:652-690 | sqrt(10^2002) as written is +∞, while its integer square root is 10^1001 |
| SquareRoot.Descend | Python/BNHaNa.py:683-690 | the corrected loop (start at num, step while the next guess is smaller) ends on the integer square root |
| SquareRoot.SqrtExact | Python/BNHaNa.py:652-690 | the corrected sqrt keeps the guards and returns the exact integer square root of every positive input |
| Factorials.FactBelowPow1000 | Python/BNHaNa.py:702-713 | n! <= 1000^n for n <= 1000 |
| Factorials.FactFits | Python/BNHaNa.py:702-713 | n! for n <= 1000 is finite, so the loop never saturates |
| Factorials.FactLoopValue | Python/BNHaNa.py:708-712 | from result (k-1)! and current k, count rounds give (k-1+count)! |
| Factorials.FactRound | Python/BNHaNa.py:708-712 | one round multiplies by i and advances current to i + 1 |
| Factorials.FactIterate | Python/BNHaNa.py:706-713 | the loop over 2..n computes the reference loop |
| Factorials.FactorialValue | Python/BNHaNa.py:692-713 | factorial(n) is exactly n! for 0 <= n <= 1000 |
| Factorials.Factorial | Python/BNHaNa.py:692-713 | factorial gives +∞ for either infinity and for n > 1000, an error for negative n, 1 for 0 and 1, then the loop |
| Batch.AddFoldValue | Python/BNHaNa.py:766-771 | folding add over finite numbers never fails; it stays finite exactly when every running total fits, and then it is the sum |
| Batch.BatchAddValue | Python/BNHaNa.py:763-771 | batch_add of finite numbers is their sum when every running total fits, and +∞ or -∞ otherwise |
| Batch.BatchAdd | Python/BNHaNa.py:763-771 | takes any list whose blocks are below 1000 and returns a result with blocks below 1000; on canonical elements the loop gives 0 for an empty list, adds left to right, and stops at the first infinite running total |
| Batch.MulFoldValue | Python/BNHaNa.py:776-780 | folding multiply over finite numbers stays finite exactly when every running product fits, and then it is the product |
| Batch.BatchMulValue | Python/BNHaNa.py:773-780 | batch_multiply of finite numbers is their product when every running product fits |
| Batch.BatchMultiply | Python/BNHaNa.py:773-780 | for any list, canonical or not, the loop gives 1 for an empty list, multiplies left to right, and stops at the first infinite running product |
| Strings.NatToStringFacts | Python/BNHaNa.py:44 | str(x) is a digit string of NumDigits(x) digits with value x and no leading zero |
| Strings.ShowParse | Python/BNHaNa.py:44 | reading a digit string without a leading zero and printing it back gives the same string |
| Strings.StripZerosFacts | Python/BNHaNa.py:48 | removing leading zeros keeps a suffix of the same value that starts with a nonzero digit |
| Strings.CanonicalDigits | Python/BNHaNa.py:273 | a digit string without its leading zeros is str of its value, or empty for zero |
| Strings.Pad3Facts | Python/BNHaNa.py:46 | a block printed with :03d is three digits of the block's value |
| Strings.LowerDigitsFacts | Python/BNHaNa.py:41-47 | the padded lower blocks are 3 digits each and spell their value |
| Strings.BlockDigitsFacts | Python/BNHaNa.py:41-47 | the joined blocks are a digit string of the blocks' value |
| Strings.JoinBlocks | Python/BNHaNa.py:41-47 | the loop joins the top block and the :03d lower blocks |
| Strings.ToDecimalString | Python/BNHaNa.py:36-53 | to_decimal_string: "Infinity" or "-Infinity" for the infinities, "0" for no blocks, otherwise the joined blocks without leading zeros and a '-' only before a nonzero numeral; ToDecimalStringValue, PrintedFinite and ReadPrinted prove it is the signed numeral of the value and reads back |
| Strings.ToDecimalStringValue | Python/BNHaNa.py:36-53 | to_decimal_string of a well-formed finite number is the signed decimal numeral of its value |
| Strings.PrintedFinite | Python/BNHaNa.py:36-53 | a canonical finite number prints as an optional '-' (nonzero only) and str of its absolute value |
| Strings.CleanKeeps | Python/BNHaNa.py:263 | removing whitespace and commas leaves a string without them unchanged |
| Strings.ChunksFacts | Python/BNHaNa.py:279-284 | cutting digits into groups of three from the right gives blocks below 1000 of the same value |
| Strings.DigitsToNumberValue | Python/BNHaNa.py:272-285 | the digit-string helper yields the canonical number of the digits' value, +0 for zero |
| Strings.ScientificValid | Python/BNHaNa.py:286-324 | the scientific branch yields a canonical number and never a -0 |
| Strings.StringToNumber | Python/BNHaNa.py:262-335 | string_to_number: clean, read the '-', the infinity words, then the scientific branch or the decimal digits; StringToNumberValid, ReadPlain, ReadInfinity, ScientificTruncates and ScientificScales state what it gives for each case |
| Strings.Scientific | Python/BNHaNa.py:286-324 | the scientific branch on the text around the 'e'; ScientificTruncates and ScientificScales give its result for every mantissa and exponent |
| Strings.StringToNumberValid | Python/BNHaNa.py:262-335 | string_to_number always yields a canonical number and never a -0 |
| Strings.ReadPlain | Python/BNHaNa.py:326-335 | a cleaned input that is an optional '-' and digits reads as their value, negative only when nonzero |
| Strings.PrintRead | Python/BNHaNa.py:262-335 | printing what was read from an optional '-' and digits gives the digits without leading zeros, "0" for zero (so "-0" gives "0"), and ±Infinity past 3003 significant digits |
| Strings.ReadInfinity | Python/BNHaNa.py:265-270 | the printed infinities "Infinity" and "-Infinity" read back as the same infinities |
| Strings.ReadPrinted | Python/BNHaNa.py:262-335 | reading what to_decimal_string prints gives the same number back, with -0 read as +0 |
| Strings.ScientificTruncates | Python/BNHaNa.py:309-316 | an exponent below the number of fractional digits drops the excess digits, truncating toward zero |
| Strings.ScientificScales | Python/BNHaNa.py:317-324 | for every mantissa (empty or with leading zeros included), a total exponent k >= 0 gives the signed infinity when the mantissa's length plus k exceeds 3003, and otherwise the canonical number of the digits times 10^k, +0 for zero |
| Strings.ScientificSignificant | Python/BNHaNa.py:317-324 | when the mantissa does not start with '0', a total exponent k >= 0 gives the digits times 10^k, saturated to the signed infinity past 3003 digits |
| Strings.ZeroScientificRead | Python/BNHaNa.py:286-324 | "0e<k>" takes the scientific branch with mantissa "0" and exponent k |
| Strings.ZeroScientificSaturates | Python/BNHaNa.py:318-321 | "0e<k>" for k >= 3003 reads as +Infinity although the shifted value is 0 |
| Strings.ScientificExactValue | Python/BNHaNa.py:286-324 | the corrected scientific branch is the canonical number of the truncated shifted value |
| Strings.ZeroScientificExact | Python/BNHaNa.py:318-322 | with the corrected branch "0e<k>" reads as 0 for every k |
| Notation.SuffixIndexFirst | Python/BNHaNa.py:355-360 | the suffix search finds an index exactly when some table entry matches case-insensitively, and the index is the first match |
| Notation.SuffixIndexUnique | Python/BNHaNa.py:355-360 | the first matching entry is the index found |
| Notation.NumberLengthStops | Python/BNHaNa.py:345 | the number part stops exactly where the letters start |
| Notation.SplitSuffixMatches | Python/BNHaNa.py:345 | the pattern matches exactly when the text splits into digits and points followed by letters, and the split is at that point |
| Notation.RemoveDotsDigits | Python/BNHaNa.py:353 | removing the points from a number part leaves only digits |
| Notation.TrailingZerosAppend | Python/BNHaNa.py:383 | the trailing zero run of a concatenation is that of the second part, extended into the first when the second is all zeros |
| Notation.TidyDecimal | Python/BNHaNa.py:383-385 | trimming "whole.fraction" drops the fraction's trailing zeros, and the point too when nothing is left |
| Notation.PlacePointWhole | Python/BNHaNa.py:386-387 | a nonnegative effective exponent appends that many zeros, which is str of digits * 10^e |
| Notation.PointSplit | Python/BNHaNa.py:377-382 | placing the point k digits from the right (padding with "0." and zeros when short) gives quotient "." remainder padded to k digits |
| Notation.DecimalTextTrimmed | Python/BNHaNa.py:376-385 | the shortest decimal numeral of m / 10^k is the quotient with the remainder's k digits without trailing zeros |
| Notation.PlacePointFraction | Python/BNHaNa.py:376-385 | a negative effective exponent -k prints the shortest decimal numeral of digits / 10^k |
| Notation.NotationToString | Python/BNHaNa.py:337-388 | notation_to_string with the suffix table as a parameter; NotationUnmatched, NotationPlain, NotationUnknownSuffix, NotationPlaced and NotationScaled state its result in each case |
| Notation.NotationUnmatched | Python/BNHaNa.py:338-347 | input that is not digits and points then letters comes back cleaned ("0" when empty) |
| Notation.NotationPlain | Python/BNHaNa.py:351-353 | without a suffix the result is the sign and the number with every point removed, all digits |
| Notation.NotationUnknownSuffix | Python/BNHaNa.py:361-362 | a suffix absent from the table returns the cleaned input unchanged |
| Notation.NotationPlaced | Python/BNHaNa.py:363-388 | a known suffix returns "0" for all-zero digits and otherwise the sign and the digits with the point placed 3*index - fraction_digits places to the right |
| Notation.NotationScaled | Python/BNHaNa.py:337-388 | a suffix at table index i gives the number times 10^(3i): the signed integer m * 10^e when e >= 0, else the shortest decimal numeral of m / 10^-e, and "0" for a zero value |
| Validation.IsValidNumber | Python/BNHaNa.py:729-761 | is_valid_number on a string: the infinity words and '∞' before the '-', then the scientific or decimal shape; ValidReadsEverything, ValidNumeral, ValidPrinted and NegativeInfinityRejected state what it accepts and rejects |
| Validation.DecimalShapeKeeps | Python/BNHaNa.py:752 | when the decimal pattern matches, the digits read are the text without its point |
| Validation.ValidReadsEverything | Python/BNHaNa.py:729-761 | a valid finite numeral is read using every one of its digits, at least one, with an exponent int() accepts |
| Validation.ValidNumeral | Python/BNHaNa.py:740-761 | an optional '-' followed by str of a natural number is valid |
| Validation.ValidPrinted | Python/BNHaNa.py:729-761 | every finite number to_decimal_string prints is valid |
| Validation.InfinitySymbolReadsZero | Python/BNHaNa.py:738-739 | "∞" is valid, yet string_to_number reads it as 0 |
| Validation.NegativeInfinityRejected | Python/BNHaNa.py:738-742 | "-Infinity" is printed for -∞ and read back as -∞, yet is_valid_number rejects it |
| Validation.ValidPrintedSigned | Python/BNHaNa.py:729-761 | with the sign read before the infinity words, everything to_decimal_string prints is valid, the infinities included |
| Validation.SignedAcceptsMore | Python/BNHaNa.py:729-761 | the corrected check accepts everything the original accepts, and besides only signed infinity words |
| Codec.Characters | Python/BNHaNa.py:12-17 | the alphabet has exactly 90 symbols |
| Codec.CharactersListed | Python/BNHaNa.py:12-17 | the alphabet is the digits, the lower and upper letters and 28 punctuation marks, in the source's order |
| Codec.Lookup | Python/BNHaNa.py:514 | looking up the d-th symbol gives d back |
| Codec.LookupBack | Python/BNHaNa.py:514 | a symbol found by the lookup sits at the position the lookup gives |
| Codec.CharValueIsPosition | Python/BNHaNa.py:514 | the lookup gives d exactly when d is the symbol's position, so the symbols are distinct; '-' and '∞' are not symbols |
| Codec.Digits90Facts | Python/BNHaNa.py:473-495 | the base-90 digits of x use only alphabet symbols, are empty exactly for 0, and do not start with '0' |
| Codec.DivideBy90 | Python/BNHaNa.py:473-492 | one pass of the division loop yields trimmed blocks of value v / 90 and the remainder v % 90 |
| Codec.Encode | Python/BNHaNa.py:461-496 | encode_number gives the reference encoding of the number read from the input |
| Codec.EncodedShape | Python/BNHaNa.py:461-496 | a nonzero number encodes as an optional '-' then its base-90 digits, nonempty, with no leading '0' and no '-' inside |
| Codec.DecodeDigitsOk | Python/BNHaNa.py:517-521 | decoding symbols succeeds exactly when every character is in the alphabet |
| Codec.DecodeDigitsRejects | Python/BNHaNa.py:517-521 | decoding raises on the first character outside the alphabet and names it |
| Codec.DecodeDigits90 | Python/BNHaNa.py:515-541 | decoding the base-90 digits of x gives x |
| Codec.Digits90OfDecoded | Python/BNHaNa.py:515-541 | decoding alphabet symbols without a leading '0' and encoding the value gives the symbols back |
| Codec.TimesBase | Python/BNHaNa.py:523-531 | multiplying the blocks by 90 with carries keeps them below 1000 and multiplies their value by 90 |
| Codec.AddDigit | Python/BNHaNa.py:533-541 | adding a symbol value with carries keeps blocks below 1000 and adds it to the value |
| Codec.ReadSymbols | Python/BNHaNa.py:515-541 | the decoding loop yields blocks of the decoded value, or the error for the first bad character |
| Codec.PrintedBlocks | Python/BNHaNa.py:543-552 | joining the decoded blocks and stripping leading zeros gives str of their value, "0" exactly for zero |
| Codec.DecodeLoneMinus | Python/BNHaNa.py:506-512 | decoding "-" gives "0" |
| Codec.DecodeSigned | Python/BNHaNa.py:506-553 | an optional '-' then base-90 symbols decode to the signed decimal numeral, with no '-' for zero |
| Codec.DecodeRejects | Python/BNHaNa.py:517-521 | any encoded text other than the infinity marks with a non-alphabet character after the optional '-' raises for the first one |
| Codec.Decode | Python/BNHaNa.py:498-553 | decode_number gives the reference decoding: "0", "Infinity", "-Infinity" for the marks, then the signed decimal numeral or the error |
| Codec.EncodeDecode | Python/BNHaNa.py:498-553 | decoding the encoding of any canonical number gives its decimal string |
| Codec.CodecRoundTrip | Python/BNHaNa.py:461-553 | decode_number(encode_number(s)) == to_decimal_string(string_to_number(s)) for every string s |

## Left out

- format_number, get_suffix, get_short, get_medium, get_detailed and get_scientific (Python/BNHaNa.py:390-459) are not modelled. They compute in floating point (log10 and formatted rounding) and read the suffix table at fixed tiers.
- to_number (Python/BNHaNa.py:29-34) is not modelled. It only wraps Python's int().
- The base_cache in encode_number is not modelled. It computes the same quotient and remainder as the arithmetic fallback, and the model uses that.
- The suffix table NOTATION comes from another module. NotationModule is not part of this model, so the table is a parameter of Notation.NotationToString.
- Whitespace and letters are ASCII only. Python's \s and \d also match other Unicode characters, str.lower() folds non-ASCII letters, and int() accepts underscores and surrounding spaces. The model covers none of these.
- The isinstance checks are not modelled. This covers non-string input to is_valid_number and string arguments to power, which power parses with string_to_number first.
- Normalization.Normalize: the magnitude is the exact decimal digit count of the top block. The source uses floor(log10(top)) + 1 in floating point. The two differ only for top blocks of 10^15 - 1 or more, far above the 999 that every operation of the library produces. For example, log10(10^15 - 1) rounds to 15.0.
- Arithmetic.PropagateCarries: the carry is exact integer division by 1000. The source uses floor(total / 1000) in floating point, which can differ once a column total is too large for a double to hold exactly (above 2^53). Column totals stay below 10^6 times the number of blocks when the operands' blocks are below 1000.
- Arithmetic.Multiply: it ensures the exact product for any blocks, because its carry pass is exact. The source's floating-point carry loses the value only for raw blocks far above 999, which no operation of the library produces.
- Strings.ParseExponent: it reads an exponent of any length. Python 3.11 and later refuse int() on more than 4300 digits, and string_to_number then uses exponent 0. The model does not capture that limit.
- Python exceptions are modelled as Err values. The raise and unwind is not modelled.
- Lists are modelled as values. Aliasing is not: normalize_number copying its input, add and subtract sharing block lists with their operands, and sqrt extending the guess list in place all become new values. Multiply keeps its product array.
- The reversed intermediate lists (new_blocks in encode_number, the most-significant-first digits in divide) are modelled by their values. Codec.DivideBy90 builds the next blocks directly in least-significant-first order.
- The unused local one in sqrt is not modelled.
- Strings.StringToNumber: the three-digit chunking loop and the regular expressions are recursive functions, not loops. Strings.JoinBlocks is the loop form of to_decimal_string's join.
- Arithmetic.Add: requires every block to be below 1000. The exact result is stated only for canonical operands; for other well-formed operands the contract states only that the result is well-formed.
- Arithmetic.Subtract: the same restriction as Arithmetic.Add.
- Division.Divide: requires canonical operands. The source also runs on numbers that were never normalised.
- Remainder.Modulo: requires canonical operands, as Division.Divide does.
- Powers.Power: requires canonical operands.
- SquareRoot.Sqrt: requires a canonical operand.
- SquareRoot.SqrtSettled: a loop that hits the 100-step cap before converging is characterised only by n < (x+1)^2. The exact guess it stops on is not stated.
- Factorials.Factorial: requires a canonical operand.
- Divisors.GcdOf: requires canonical operands.
- Divisors.Lcm: requires canonical operands, as Divisors.GcdOf does, which lcm calls first. The source also runs on numbers that were never normalised.
- Batch.BatchAdd: accepts any elements with blocks below 1000, as Arithmetic.Add does, but states the fold result only for canonical elements. For other elements it states only that the result has blocks below 1000.
- Divisors.LcmValue: states the value only when the product of the absolute values fits. When it does not fit, lcm divides +∞ by the gcd.

## Findings

| source | as written | input that shows it | evidently intended | confidence | as-written member | corrected member |
|---|---|---|---|---|---|---|
| Python/BNHaNa.py:621-623 | modulo computes a - divide(a, b) * b, and the intermediate product saturates even though the remainder is small | a = -(10^3003 - 1), b = 10^3003 - 2 gives +Infinity | a mod b = b - 1, the floor remainder | high; not executed | Remainder.ModuloSaturates | Remainder.ModuloExact |
| Python/BNHaNa.py:599-607 | power squares current_base once more after the last exponent bit, and returns +∞ when that unused square overflows | power(10^1000, 2) gives +Infinity | 10^2000, which has 2001 digits | high; not executed | Powers.PowerOfTenSquared | Powers.PowerExact |
| Python/BNHaNa.py:683-690 | the Newton loop stops only on an exact fixed point; for 8 it oscillates between 2 and 3 and ends after 100 steps on 3 | sqrt(8) gives 3 | 2, the integer square root | high; not executed | SquareRoot.SqrtOfEight | SquareRoot.SqrtExact |
| Python/BNHaNa.py:666-681 | the initial guess 1000^(ceil(m/2)-1) + 1 has more than 3003 digits once m >= 2003, so it saturates and the loop keeps +∞ | sqrt(10^2002) gives +Infinity | 10^1001 | high; not executed | SquareRoot.HugeWitness | SquareRoot.SqrtExact |
| Python/BNHaNa.py:318-321 | the magnitude test counts len(combined) + exponent without removing leading zeros first | "0e3003" reads as +Infinity | 0 | high; not executed | Strings.ZeroScientificSaturates | Strings.ZeroScientificExact |
| Python/BNHaNa.py:738-742 | the infinity words are checked before the '-' is removed | is_valid_number("-Infinity") is False, although to_decimal_string prints it and string_to_number reads it | True, as for "Infinity" | medium; not executed | Validation.NegativeInfinityRejected | Validation.ValidPrintedSigned |
