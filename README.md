# Nethermind.Int256: a verified model of the 256-bit integer engine

This project models the 256-bit integer engine of NethermindEth/uint. It has
two types:

- `UInt256`, an unsigned value held in four 64-bit words;
- `Int256`, the same 256-bit pattern read as two's complement.

The engine is pinned down by the conformance suite
`src/Nethermind.Int256.Test/UInt256Tests.cs`. Each test computes an expected
value with `System.Numerics.BigInteger` and checks the 256-bit operation
against it. The model builds every operation from word-level primitives and
proves it equal to that expected value, for operands that are values of the
type and non-negative shift amounts, outside the cases the test skips.

Modules, from the bottom up:

- `Arith`: powers, division and remainder on mathematical integers.
- `Limbs`: little-endian word sequences and their primitives. These are
  addition with carry, subtraction with borrow, schoolbook multiplication to
  the full double width, comparison and bitwise complement.
- `LimbShifts`: shifts across word boundaries, and bit extraction.
- `LimbDivision`: restoring binary long division, which gives the exact
  truncating quotient and remainder.
- `Oracle`: the BigInteger semantics the tests use. This covers truncating
  `/` and `%`, `<<`, the floor shift `>>`, `Pow` and `ModPow`, decimal
  `ToString()`, and the signed suite's `Postprocess`.
- `Unsigned`: `UInt256` is a sequence of exactly four words: word `i` at
  index `i`, least significant first.
- `Signed`: `Int256` wraps a `UInt256` bit pattern. Division, the modular
  operations, the right shift, comparison and `ToString` are sign-aware; the
  rest are the unsigned operations on the pattern.
- `UInt256Tests` and `Int256Tests`: one lemma per test method, stating the
  test's assertion. A lemma named `...Of` states it for operands given by
  their words together with the integers they stand for. The lemma without
  the suffix states it for operands converted from integers, as the test does.

The signed suite compares results after `Postprocess`. This keeps the low 32
bytes of the two's-complement form and reads them back as two's complement.
The model states this as: a value in `[-2^255, 2^255)` is unchanged, and
any other value becomes its residue modulo 2^256 read as two's complement.

All functions are pure. The source's operations return their result through
an `out` parameter and leave the operands untouched. The implementation
sources are not part of this model; the engine here is reconstructed from
the behaviour the suite asserts.

## Model

| member | source | states |
|---|---|---|
| Unsigned.ToBig | src/Nethermind.Int256.Test/UInt256Tests.cs:33 | `Convert(out BigInteger)` of an unsigned value is the weighted sum of its four words, which lies in [0, 2^256) |
| Unsigned.ToBigInjective | src/Nethermind.Int256.Test/UInt256Tests.cs:202-207 | two values that convert to the same integer are the same value |
| Unsigned.FromBig | src/Nethermind.Int256.Test/UInt256Tests.cs:219 | the cast `(UInt256)x` of an integer in [0, 2^256) converts back to that integer |
| Unsigned.ConvertRoundTrip | src/Nethermind.Int256.Test/UInt256Tests.cs:202-207 | integer to value to integer, and value to integer to value, are both the identity |
| Unsigned.ConstantValues | src/Nethermind.Int256.Test/UInt256Tests.cs:221-257 | Zero and MinValue stand for 0, One for 1 and MaxValue for 2^256 - 1; every value lies between MinValue and MaxValue |
| Unsigned.IsZero | src/Nethermind.Int256.Test/UInt256Tests.cs:233-238 | `IsZero` holds exactly when the value is 0 |
| Unsigned.IsOne | src/Nethermind.Int256.Test/UInt256Tests.cs:246-251 | `IsOne` holds exactly when the value is 1 |
| Unsigned.Add | src/Nethermind.Int256.Test/UInt256Tests.cs:24-35 | the sum wraps: it is (a + b) mod 2^256 |
| Unsigned.Subtract | src/Nethermind.Int256.Test/UInt256Tests.cs:59-75 | the difference wraps: it is (a - b) mod 2^256, which is exactly a - b when a >= b |
| Unsigned.Multiply | src/Nethermind.Int256.Test/UInt256Tests.cs:79-89 | the product keeps the low 256 bits: (a * b) mod 2^256 |
| Unsigned.Divide | src/Nethermind.Int256.Test/UInt256Tests.cs:112-127 | for b != 0 the quotient is floor(a / b), which for these operands equals BigInteger's truncated `/` |
| Unsigned.Mod | src/Nethermind.Int256.Test/UInt256Tests.cs:39-55 | for m != 0 the remainder is a mod m |
| Unsigned.DivisionIdentity | src/Nethermind.Int256.Test/UInt256Tests.cs:112-127 | quotient * b + remainder == a, with remainder < b |
| Unsigned.WideSum | src/Nethermind.Int256.Test/UInt256Tests.cs:45 | the sum taken over five words is exact, with no truncation to 256 bits |
| Unsigned.AddMod | src/Nethermind.Int256.Test/UInt256Tests.cs:39-55 | for m != 0 the result is (a + b) mod m of the exact sum |
| Unsigned.MultiplyMod | src/Nethermind.Int256.Test/UInt256Tests.cs:93-109 | for m != 0 the result is (a * b) mod m of the exact 512-bit product |
| Unsigned.ExpFrom | src/Nethermind.Int256.Test/UInt256Tests.cs:130-142 | square-and-multiply over the exponent bits from `j` up gives a^(e >> j) mod 2^256 |
| Unsigned.Exp | src/Nethermind.Int256.Test/UInt256Tests.cs:130-142 | the result is a^e mod 2^256 |
| Unsigned.ExpModFrom | src/Nethermind.Int256.Test/UInt256Tests.cs:145-163 | square-and-multiply modulo m over the exponent bits from `j` up gives a^(e >> j) mod m |
| Unsigned.ExpMod | src/Nethermind.Int256.Test/UInt256Tests.cs:145-163 | for m != 0 the result is a^e mod m |
| Unsigned.LeftShift | src/Nethermind.Int256.Test/UInt256Tests.cs:166-181 | the result is (a * 2^n) mod 2^256 |
| Unsigned.RightShift | src/Nethermind.Int256.Test/UInt256Tests.cs:184-199 | the result is floor(a / 2^n) |
| Unsigned.CompareTo | src/Nethermind.Int256.Test/UInt256Tests.cs:8 | the numeric ordering of the generic type constrained here, which the suite does not exercise: -1, 0 or 1 exactly as a < b, a == b or a > b |
| Unsigned.ToString | src/Nethermind.Int256.Test/UInt256Tests.cs:209-214 | the string is the decimal rendering of the value |
| Arith.Pow | src/Nethermind.Int256.Test/UInt256Tests.cs:132 | `BigInteger.Pow(A, n)` for n >= 0, with `Pow(0, 0) == 1`; a positive base has a positive power |
| Arith.PowAdd | src/Nethermind.Int256.Test/UInt256Tests.cs:132 | powers add their exponents: b^(e1 + e2) == b^e1 * b^e2 |
| Oracle.TDiv | src/Nethermind.Int256.Test/UInt256Tests.cs:118 | BigInteger `/`, truncating toward zero; `TruncatedDivision` and `TruncatedRemainder` prove the division identity with `TMod` and that its magnitude is abs(a) / abs(b) |
| Oracle.TMod | src/Nethermind.Int256.Test/UInt256Tests.cs:45 | BigInteger `%`, also at lines 99 and 290; `TruncatedRemainder` proves it is smaller than the divisor in magnitude and has the dividend's sign |
| Oracle.ShiftLeft | src/Nethermind.Int256.Test/UInt256Tests.cs:172 | BigInteger `A << n` for n >= 0: A * 2^n, with no truncation |
| Oracle.ShiftRight | src/Nethermind.Int256.Test/UInt256Tests.cs:190 | BigInteger `A >> n` for n >= 0; `ShiftRightIsFloor` proves it is the floor of A / 2^n |
| Oracle.ModPow | src/Nethermind.Int256.Test/UInt256Tests.cs:151 | `BigInteger.ModPow(A, B, M)` for B >= 0; `Signed.ModPowOfMagnitudes` proves it is the remainder of the magnitudes' power, negative only for a negative base with an odd exponent, whatever M's sign |
| Oracle.ToDecimalString | src/Nethermind.Int256.Test/UInt256Tests.cs:213 | `BigInteger.ToString()`; `ToDecimalStringRoundTrip` proves the rendering is non-empty, parses back to the integer and starts with `-` exactly for negative integers |
| Oracle.TruncatedDivision | src/Nethermind.Int256.Test/UInt256Tests.cs:45 | BigInteger `/` and `%` satisfy quotient * b + remainder == a |
| Oracle.TruncatedRemainder | src/Nethermind.Int256.Test/UInt256Tests.cs:45 | a BigInteger remainder is smaller than the divisor in magnitude and has the dividend's sign; the quotient's magnitude is abs(a) / abs(b) |
| Oracle.ShiftRightIsFloor | src/Nethermind.Int256.Test/UInt256Tests.cs:190 | `A >> n` is the floor of A / 2^n, so it rounds toward minus infinity |
| Oracle.Postprocess | src/Nethermind.Int256.Test/UInt256Tests.cs:263-267 | the result lies in [-2^255, 2^255) and is congruent to the input modulo 2^256 |
| Oracle.PostprocessUnique | src/Nethermind.Int256.Test/UInt256Tests.cs:263-267 | it is the only value with those two properties |
| Oracle.PostprocessFacts | src/Nethermind.Int256.Test/UInt256Tests.cs:263-267 | a value already in the signed range is unchanged, and adding a multiple of 2^256 changes nothing |
| Oracle.PostprocessAfterReduction | src/Nethermind.Int256.Test/UInt256Tests.cs:27-28 | reducing with a truncated `% 2^256` before `Postprocess` does not change the outcome |
| Oracle.ToDecimalStringRoundTrip | src/Nethermind.Int256.Test/UInt256Tests.cs:213 | the decimal rendering is non-empty, parses back to the integer, and starts with `-` exactly for negative integers |
| Oracle.NatToDecimalRoundTrip | src/Nethermind.Int256.Test/UInt256Tests.cs:213 | the digits of a natural number parse back to it, with a leading `0` only for zero |
| Signed.IsNegative | src/Nethermind.Int256.Test/UInt256Tests.cs:269 | a value is negative exactly when the pattern is at least 2^255, that is, when its top bit is set |
| Signed.ToBig | src/Nethermind.Int256.Test/UInt256Tests.cs:33 | `Convert` of a signed value lies in [-2^255, 2^255), is negative exactly when `IsNegative` holds, and is the pattern's unsigned value read through `Postprocess` |
| Signed.BitsAreResidue | src/Nethermind.Int256.Test/UInt256Tests.cs:269 | the pattern's unsigned value is the signed value mod 2^256 |
| Signed.Wraps | src/Nethermind.Int256.Test/UInt256Tests.cs:263-267 | a pattern congruent to v modulo 2^256 is read as `Postprocess(v)` |
| Signed.FromBig | src/Nethermind.Int256.Test/UInt256Tests.cs:269 | `new Int256(x)` of an integer in [-2^255, 2^255) converts back to that integer |
| Signed.ConvertRoundTrip | src/Nethermind.Int256.Test/UInt256Tests.cs:323-324 | integer to value to integer, and value to integer to value, are both the identity |
| Signed.ConstantValues | src/Nethermind.Int256.Test/UInt256Tests.cs:269 | the signed suite tests no constant; the model's Zero is 0, One is 1, MinValue is -2^255 and MaxValue is 2^255 - 1, and every value lies between them |
| Signed.Add | src/Nethermind.Int256.Test/UInt256Tests.cs:273-274 | the result is `Postprocess(a + b)`, two's-complement wrap-around |
| Signed.Subtract | src/Nethermind.Int256.Test/UInt256Tests.cs:279-280 | the result is `Postprocess(a - b)` |
| Signed.Multiply | src/Nethermind.Int256.Test/UInt256Tests.cs:302-303 | the result is `Postprocess(a * b)` |
| Signed.Exp | src/Nethermind.Int256.Test/UInt256Tests.cs:311-312 | the result is `Postprocess(a^e)` for a non-negative exponent |
| Signed.LeftShift | src/Nethermind.Int256.Test/UInt256Tests.cs:317-318 | the result is `Postprocess(a << n)` |
| Signed.RightShift | src/Nethermind.Int256.Test/UInt256Tests.cs:320-321 | the result is `a >> n`, the floor shift, which sign-extends |
| Signed.Magnitude | src/Nethermind.Int256.Test/UInt256Tests.cs:308-309 | the magnitude of a value as an unsigned value is abs(a), at most 2^255 |
| Signed.MagnitudeAndSign | src/Nethermind.Int256.Test/UInt256Tests.cs:269 | a value is its magnitude with its sign |
| Signed.WithSign | src/Nethermind.Int256.Test/UInt256Tests.cs:263-267 | a magnitude with a sign gives `Postprocess` of the signed magnitude |
| Signed.Divide | src/Nethermind.Int256.Test/UInt256Tests.cs:308-309 | for b != 0 the result is `Postprocess` of the quotient truncated toward zero, so MinValue / -1 wraps to MinValue |
| Signed.SignedSum | src/Nethermind.Int256.Test/UInt256Tests.cs:45 | the exact sum of two signed magnitudes, as a sign and a five-word magnitude |
| Signed.Gap | src/Nethermind.Int256.Test/UInt256Tests.cs:290 | the exact difference of two magnitudes, the larger first |
| Signed.Reduce | src/Nethermind.Int256.Test/UInt256Tests.cs:45 | the truncated remainder of a signed magnitude by m, with the dividend's sign |
| Signed.SignedRemainder | src/Nethermind.Int256.Test/UInt256Tests.cs:45 | the truncated remainder of a signed number is the remainder of its magnitude, with its sign |
| Signed.SumOfMagnitudes | src/Nethermind.Int256.Test/UInt256Tests.cs:45 | the magnitudes of a and b with their signs add up to a + b, or to a - b when b's sign is flipped |
| Signed.AddMod | src/Nethermind.Int256.Test/UInt256Tests.cs:276-277 | for m != 0 the result is the truncated (a + b) % m of the exact sum |
| Signed.SubtractMod | src/Nethermind.Int256.Test/UInt256Tests.cs:283-300 | for m != 0 the result is the truncated (a - b) % m, so a nonzero result has the sign of a - b |
| Signed.SignedProduct | src/Nethermind.Int256.Test/UInt256Tests.cs:99 | the product of two signed magnitudes is the product of the magnitudes, negative when exactly one sign is |
| Signed.MultiplyMod | src/Nethermind.Int256.Test/UInt256Tests.cs:305-306 | for m != 0 the result is the truncated (a * b) % m of the exact product |
| Signed.SignedPower | src/Nethermind.Int256.Test/UInt256Tests.cs:151 | a^e is abs(a)^e, negative when a is negative and e odd |
| Signed.ModPowOfMagnitudes | src/Nethermind.Int256.Test/UInt256Tests.cs:151 | `ModPow` of a signed base is the unsigned modular power of the magnitudes, with the sign of a^e |
| Signed.ExponentParity | src/Nethermind.Int256.Test/UInt256Tests.cs:151 | a non-negative exponent's parity is the parity of its lowest word |
| Signed.ExpMod | src/Nethermind.Int256.Test/UInt256Tests.cs:314-315 | for m != 0 and e >= 0 the result is `BigInteger.ModPow(a, e, m)` |
| Signed.CompareTo | src/Nethermind.Int256.Test/UInt256Tests.cs:8 | the signed numeric ordering, which the suite does not exercise: -1, 0 or 1 exactly as a < b, a == b or a > b |
| Signed.ToString | src/Nethermind.Int256.Test/UInt256Tests.cs:326-327 | the string is the decimal rendering of the value, with a leading `-` when negative |
| UInt256Tests.AddOf | src/Nethermind.Int256.Test/UInt256Tests.cs:24-35 | the `Add` assertion for operands given by their words |
| UInt256Tests.Add | src/Nethermind.Int256.Test/UInt256Tests.cs:24-35 | `convert(A).Add(convert(B))` converts to `(A + B) % 2^256` |
| UInt256Tests.AddModOf | src/Nethermind.Int256.Test/UInt256Tests.cs:39-55 | the `AddMod` assertion for operands given by their words |
| UInt256Tests.AddMod | src/Nethermind.Int256.Test/UInt256Tests.cs:39-55 | for M != 0 the result converts to `((A + B) % M) % 2^256` |
| UInt256Tests.SubtractOf | src/Nethermind.Int256.Test/UInt256Tests.cs:59-75 | the `Subtract` assertion for operands given by their words |
| UInt256Tests.Subtract | src/Nethermind.Int256.Test/UInt256Tests.cs:59-75 | for A >= B the result converts to `(A - B) % 2^256` |
| UInt256Tests.MultiplyOf | src/Nethermind.Int256.Test/UInt256Tests.cs:79-89 | the `Multiply` assertion for operands given by their words |
| UInt256Tests.Multiply | src/Nethermind.Int256.Test/UInt256Tests.cs:79-89 | the result converts to `(A * B) % 2^256` |
| UInt256Tests.MultiplyModOf | src/Nethermind.Int256.Test/UInt256Tests.cs:93-109 | the `MultiplyMod` assertion for operands given by their words |
| UInt256Tests.MultiplyMod | src/Nethermind.Int256.Test/UInt256Tests.cs:93-109 | for M != 0 the result converts to `((A * B) % M) % 2^256` |
| UInt256Tests.DivOf | src/Nethermind.Int256.Test/UInt256Tests.cs:112-127 | the `Div` assertion for operands given by their words |
| UInt256Tests.Div | src/Nethermind.Int256.Test/UInt256Tests.cs:112-127 | for B != 0 the result converts to `(A / B) % 2^256`, with truncating `/` |
| UInt256Tests.ExpOf | src/Nethermind.Int256.Test/UInt256Tests.cs:130-142 | the `Exp` assertion for operands given by their words |
| UInt256Tests.Exp | src/Nethermind.Int256.Test/UInt256Tests.cs:130-142 | for an `int` exponent n >= 0 the result converts to `BigInteger.Pow(A, n) % 2^256` |
| UInt256Tests.ExpModOf | src/Nethermind.Int256.Test/UInt256Tests.cs:145-163 | the `ExpMod` assertion for operands given by their words |
| UInt256Tests.ExpMod | src/Nethermind.Int256.Test/UInt256Tests.cs:145-163 | for M != 0 the result converts to `BigInteger.ModPow(A, B, M) % 2^256` |
| UInt256Tests.LshOf | src/Nethermind.Int256.Test/UInt256Tests.cs:166-181 | the `Lsh` assertion for an operand given by its words |
| UInt256Tests.Lsh | src/Nethermind.Int256.Test/UInt256Tests.cs:166-181 | for an `int` shift n > 0 the result converts to `(A << n) % 2^256` |
| UInt256Tests.RshOf | src/Nethermind.Int256.Test/UInt256Tests.cs:184-199 | the `Rsh` assertion for an operand given by its words |
| UInt256Tests.Rsh | src/Nethermind.Int256.Test/UInt256Tests.cs:184-199 | for an `int` shift n > 0 the result converts to `(A >> n) % 2^256` |
| UInt256Tests.ToBigIntegerAndBack | src/Nethermind.Int256.Test/UInt256Tests.cs:202-207 | converting A to the type and back gives A |
| UInt256Tests.ToString | src/Nethermind.Int256.Test/UInt256Tests.cs:209-214 | `convert(A).ToString()` equals `A.ToString()` |
| UInt256Tests.ZeroIsMinValue | src/Nethermind.Int256.Test/UInt256Tests.cs:221-225 | Zero equals MinValue |
| UInt256Tests.ZeroIsZero | src/Nethermind.Int256.Test/UInt256Tests.cs:227-231 | Zero equals `convert(0)` |
| UInt256Tests.IsZero | src/Nethermind.Int256.Test/UInt256Tests.cs:233-238 | Zero is zero and One is not |
| UInt256Tests.OneIsOne | src/Nethermind.Int256.Test/UInt256Tests.cs:240-244 | One equals `convert(1)` |
| UInt256Tests.IsOne | src/Nethermind.Int256.Test/UInt256Tests.cs:246-251 | One is one and Zero is not |
| UInt256Tests.MaxValueIsCorrect | src/Nethermind.Int256.Test/UInt256Tests.cs:253-257 | MaxValue equals `convert(2^256 - 1)` |
| Int256Tests.SmallRemainder | src/Nethermind.Int256.Test/UInt256Tests.cs:45-47 | a truncated remainder by a signed 256-bit modulus survives the further `% 2^256` and `Postprocess` unchanged |
| Int256Tests.SumRemainder | src/Nethermind.Int256.Test/UInt256Tests.cs:45-47 | the truncated remainder of a sum, computed from the words, is the expected value computed from the integers |
| Int256Tests.DifferenceRemainder | src/Nethermind.Int256.Test/UInt256Tests.cs:290-291 | the same for a difference |
| Int256Tests.AddOf | src/Nethermind.Int256.Test/UInt256Tests.cs:273-274 | the signed `Add` assertion for operands given by their words |
| Int256Tests.Add | src/Nethermind.Int256.Test/UInt256Tests.cs:273-274 | the result converts to `Postprocess((A + B) % 2^256)` |
| Int256Tests.AddModOf | src/Nethermind.Int256.Test/UInt256Tests.cs:276-277 | the signed `AddMod` assertion for operands given by their words |
| Int256Tests.AddMod | src/Nethermind.Int256.Test/UInt256Tests.cs:276-277 | for M != 0 the result converts to `Postprocess(((A + B) % M) % 2^256)` |
| Int256Tests.SubtractOf | src/Nethermind.Int256.Test/UInt256Tests.cs:279-280 | the signed `Subtract` assertion for operands given by their words |
| Int256Tests.Subtract | src/Nethermind.Int256.Test/UInt256Tests.cs:279-280 | for A >= B the result converts to `Postprocess((A - B) % 2^256)` |
| Int256Tests.SubtractModOf | src/Nethermind.Int256.Test/UInt256Tests.cs:283-300 | the `SubtractMod` assertion for operands given by their words |
| Int256Tests.SubtractMod | src/Nethermind.Int256.Test/UInt256Tests.cs:283-300 | for M != 0 the result converts to `Postprocess(((A - B) % M) % 2^256)` |
| Int256Tests.MultiplyOf | src/Nethermind.Int256.Test/UInt256Tests.cs:302-303 | the signed `Multiply` assertion for operands given by their words |
| Int256Tests.Multiply | src/Nethermind.Int256.Test/UInt256Tests.cs:302-303 | the result converts to `Postprocess((A * B) % 2^256)` |
| Int256Tests.MultiplyModOf | src/Nethermind.Int256.Test/UInt256Tests.cs:305-306 | the signed `MultiplyMod` assertion for operands given by their words |
| Int256Tests.MultiplyMod | src/Nethermind.Int256.Test/UInt256Tests.cs:305-306 | for M != 0 the result converts to `Postprocess(((A * B) % M) % 2^256)` |
| Int256Tests.DivOf | src/Nethermind.Int256.Test/UInt256Tests.cs:308-309 | the signed `Div` assertion for operands given by their words |
| Int256Tests.Div | src/Nethermind.Int256.Test/UInt256Tests.cs:308-309 | for B != 0 the result converts to `Postprocess((A / B) % 2^256)`, with truncating `/` |
| Int256Tests.ExpOf | src/Nethermind.Int256.Test/UInt256Tests.cs:311-312 | the signed `Exp` assertion for operands given by their words |
| Int256Tests.Exp | src/Nethermind.Int256.Test/UInt256Tests.cs:311-312 | for an `int` exponent n >= 0 the result converts to `Postprocess(BigInteger.Pow(A, n) % 2^256)` |
| Int256Tests.ExpModOf | src/Nethermind.Int256.Test/UInt256Tests.cs:314-315 | the signed `ExpMod` assertion for operands given by their words |
| Int256Tests.ExpMod | src/Nethermind.Int256.Test/UInt256Tests.cs:314-315 | for M != 0 and B >= 0 the result converts to `Postprocess(BigInteger.ModPow(A, B, M) % 2^256)` |
| Int256Tests.LshOf | src/Nethermind.Int256.Test/UInt256Tests.cs:317-318 | the signed `Lsh` assertion for an operand given by its words |
| Int256Tests.Lsh | src/Nethermind.Int256.Test/UInt256Tests.cs:317-318 | for n > 0 the result converts to `Postprocess((A << n) % 2^256)` |
| Int256Tests.RshOf | src/Nethermind.Int256.Test/UInt256Tests.cs:320-321 | the signed `Rsh` assertion for an operand given by its words |
| Int256Tests.Rsh | src/Nethermind.Int256.Test/UInt256Tests.cs:320-321 | for n > 0 the result converts to `Postprocess((A >> n) % 2^256)` |
| Int256Tests.ShiftStaysInRange | src/Nethermind.Int256.Test/UInt256Tests.cs:190 | a floor shift of a signed 256-bit value stays in the signed range |
| Int256Tests.ToBigIntegerAndBack | src/Nethermind.Int256.Test/UInt256Tests.cs:323-324 | converting A to the signed type and back gives A |
| Int256Tests.ToString | src/Nethermind.Int256.Test/UInt256Tests.cs:326-327 | `new Int256(A).ToString()` equals `A.ToString()` |

## Left out

- The NUnit and FluentAssertions harness, the `[TestCaseSource]` wiring and the virtual/override plumbing are test infrastructure. The lemmas state each assertion for all operands, not for listed cases.
- The data tables `BinaryOps`, `TernaryOps`, `UnaryOps` and `TestNumbers` are not shown. Operands range over the whole type instead.
- Division and remainder by zero are not modelled. The suite skips a zero divisor or modulus and asserts nothing, so `Divide`, `Mod`, `AddMod`, `SubtractMod`, `MultiplyMod` and `ExpMod` require a nonzero divisor. No policy is chosen for that case.
- UInt256Tests.Subtract: requires A >= B, because the suite skips A < B. `Unsigned.Subtract` itself is total and wraps modulo 2^256.
- Int256Tests.Subtract: requires A >= B, because the signed suite inherits the same skip. `Signed.Subtract` itself is total.
- UInt256Tests.Lsh, UInt256Tests.Rsh, Int256Tests.Lsh, Int256Tests.Rsh: require n > 0, because the suite skips a zero shift. The shift functions themselves accept n = 0.
- Negative shift amounts are not modelled; a shift amount is a `nat`. `Exp`, `Lsh` and `Rsh` draw their operands from one shared table (`ShiftTestCases` at lines 129, 165 and 183, `SignedShiftTestCases` at lines 311, 317 and 320), and `BigInteger.Pow` at line 132 throws for a negative exponent, so a passing suite holds no negative amount.
- UInt256Tests.Exp, Int256Tests.Exp: require n >= 0, because `BigInteger.Pow` rejects a negative exponent.
- Signed.ExpMod: requires a non-negative exponent, because the suite skips B < 0 and asserts nothing for it.
- Unsigned.FromBig, Signed.FromBig: require an integer in the type's range. Conversion of an out-of-range integer, wrapping or rejecting it, is not modelled.
- The byte layout of `BigInteger.ToByteArray` inside `Postprocess` is not modelled. `Oracle.Postprocess` models its meaning: keep the low 256 bits and read them as two's complement.
- The implementation sources of `UInt256`, `Int256` and `IInteger<T>` are not part of this model. Their hardware intrinsics and fast paths are therefore absent. Only the behaviour the suite asserts is modelled, with word-level algorithms of the model's own choosing.
- The suite does not exercise `CompareTo`; the model gives each type its numeric ordering.
- Oracle.ToDecimalString: renders a negative number with `-`, the invariant culture's negative sign; `BigInteger.ToString()` uses the current culture's `NegativeSign`, which the model does not take as a parameter.
