# Base-23 numbers in Dafny

A model of the radix-23 value type of the Base23 calculator and of the
calculator facade that forwards to it.

A `Base23Number` wraps one unbounded signed integer (`decimalValue`). Base-23
text is only its surface encoding, written with the 23 glyphs `0`-`9`, `A`-`M`.
Letters are read in either case and always written in upper case.

- `Digits` (digits.dfy) holds the glyph table. The character-to-digit
  dictionary holds the upper- and lower-case form of each glyph; it is stated
  as the relation `IsKey`, and `CharToDigit` is proved against it.
- `Base23` (base23.dfy) holds the value type:
  - `Parse` is the throwing parse, with a `Result` whose error is `NullInput`,
    `Format` or `DivideByZero`. A null string is `None`.
  - `TryParse` is the non-throwing parse. `Fold` is the shared left-to-right
    Horner loop.
  - `ToString` formats a value. `FormatMagnitude` is the divide-by-23 loop.
  - `Plus`, `Minus`, `Times`, `Div`, `Mod` and `DivRem` are the operators.
  - `Equals`, `EqualsObject`, `EqualOp` and `NotEqualOp` are the equality
    members.
  - The meaning of a numeral is given independently by `Denotation`, a
    positional sum of digit weights `23^k`. `FoldIsPositional` proves that the
    Horner loop computes it.
- `TruncatedDivision` (division.dfy) defines division that truncates toward
  zero, with the remainder taking the sign of the dividend, as C#'s
  `BigInteger` implements `/`, `%` and `DivRem`. Dafny's own `/` and `%` are
  Euclidean, so here they are applied to magnitudes only. `IsTruncDivRem`
  characterises the result, and `TruncDivRemUnique` proves that the
  characterisation fixes it.
- `Calculator` (calculator.dfy) is the facade: `Add`, `Subtract`, `Multiply`,
  `Divide` and `DivideWithRemainder`.
- `Examples` (examples.dfy) restates the documented parse, format,
  arithmetic, division and equality test cases of the value type and of the
  facade as lemmas.

Inputs that the calculator handles are not excluded by preconditions.
Null text, empty text, a lone `-`, characters outside the table and zero
divisors all take their error paths.

## Model

| member | source | states |
|---|---|---|
| Digits.CharToDigit | Base23Calculator/Base23Number.cs:13-27 | a character is in the table exactly when it is the upper- or lower-case form of some glyph, and its value is that glyph's index |
| Digits.DigitToChar | Base23Calculator/Base23Number.cs:13 | the glyph for a digit value is upper case and reads back as that value |
| Digits.CaseInsensitive | Base23Calculator/Base23Number.cs:22-26 | a character, its upper-case form and its lower-case form have the same table entry |
| Digits.GlyphOfDigit | Base23Calculator/Base23Number.cs:13-27 | an upper-case table character is the glyph of its own digit value |
| Base23.Fold | Base23Calculator/Base23Number.cs:64-72 | the digit loop succeeds exactly when every character is in the table |
| Base23.PositionalSnoc | Base23Calculator/Base23Number.cs:71 | appending a digit multiplies the positional value by 23 and adds the digit, which is the step `result * Base + digitValue` |
| Base23.FoldIsPositional | Base23Calculator/Base23Number.cs:64-72 | the Horner fold equals the positional sum of digit weights |
| Base23.Parse | Base23Calculator/Base23Number.cs:50-75 | null input gives NullInput; input outside the grammar `-`? glyph+ gives Format; otherwise the result is the numeral's positional value, negated after a leading `-` |
| Base23.TryParse | Base23Calculator/Base23Number.cs:83-108 | succeeds exactly when `Parse` succeeds and then gives the same value; null, empty and malformed input give `false` and zero |
| Base23.FormatMagnitude | Base23Calculator/Base23Number.cs:119-127 | the glyphs of a magnitude are upper-case table glyphs, are empty only for zero, and never start with `0` |
| Base23.ToString | Base23Calculator/Base23Number.cs:114-133 | zero gives `"0"`; the text is non-empty, starts with `-` exactly for negative values, and is canonical (upper case, no leading zero) |
| Base23.FoldFormatMagnitude | Base23Calculator/Base23Number.cs:119-127 | reading the formatted magnitude back with the digit loop gives the magnitude |
| Base23.RoundTrip | Base23Calculator/Base23Number.cs:114-133 | parsing the text of any value succeeds and gives that value |
| Base23.FormatMagnitudeOfFold | Base23Calculator/Base23Number.cs:119-127 | formatting the fold of upper-case glyphs without a leading zero gives the same glyphs |
| Base23.CanonicalRoundTrip | Base23Calculator/Base23Number.cs:50-75 | on canonical text, formatting after parsing gives the text back |
| Base23.UpperDigitValues | Base23Calculator/Base23Number.cs:24-25 | upper-casing keeps exactly the table characters and their digit values |
| Base23.ParseCaseInsensitive | Base23Calculator/Base23Number.cs:64-72 | upper-casing the text never changes the outcome of `Parse` |
| Base23.Div | Base23Calculator/Base23Number.cs:165-171 | fails with DivideByZero exactly when the divisor is zero; otherwise the quotient truncates toward zero (quotient times divisor plus remainder is the dividend, the remainder is smaller than the divisor and has the dividend's sign) |
| Base23.Mod | Base23Calculator/Base23Number.cs:177-183 | fails with DivideByZero exactly when the divisor is zero; otherwise the result is the truncating-division remainder, which is 0 or has the dividend's sign |
| Base23.DivRem | Base23Calculator/Base23Number.cs:241-249 | fails with DivideByZero exactly when the divisor is zero; otherwise it returns a truncating quotient and remainder, the same ones as `Div` and `Mod` |
| Base23.PlusMinusInverse | Base23Calculator/Base23Number.cs:140-151 | `-` undoes `+`, and `+` undoes `-` |
| Base23.TimesDivInverse | Base23Calculator/Base23Number.cs:156-183 | dividing a product by a non-zero factor gives the other factor back, with remainder zero |
| Base23.DivRemReconstructs | Base23Calculator/Base23Number.cs:241-249 | a corollary of `DivRem`'s contract in the value type's own operators: `quotient * divisor + remainder` rebuilds the dividend |
| Base23.Equals | Base23Calculator/Base23Number.cs:192-195 | two numbers are equal exactly when their integers are |
| Base23.EqualsObject | Base23Calculator/Base23Number.cs:200-203 | the object overload is true only for a boxed number with the same integer |
| Base23.EqualOp | Base23Calculator/Base23Number.cs:216-219 | `==` is decided by the underlying integers |
| Base23.NotEqualOp | Base23Calculator/Base23Number.cs:224-227 | `!=` is the negation of `==` |
| TruncatedDivision.QuotRem | Base23Calculator/Base23Number.cs:246 | the integer quotient and remainder satisfy the truncating-division relation |
| TruncatedDivision.SignedFromMagnitudes | Base23Calculator/Base23Number.cs:170 | Euclidean division of the magnitudes, with the quotient negated for mixed signs and the remainder given the dividend's sign, is truncating division |
| TruncatedDivision.TruncDivRemUnique | Base23Calculator/Base23Number.cs:241-249 | at most one quotient/remainder pair satisfies the truncating-division relation |
| Calculator.Add | Base23Calculator/Calculator.cs:17-20 | the result is the sum of the operands' integers |
| Calculator.Subtract | Base23Calculator/Calculator.cs:28-31 | the result is the difference, including negative ones, and adding `b` back gives `a` |
| Calculator.Multiply | Base23Calculator/Calculator.cs:39-42 | the result is the product of the operands' integers |
| Calculator.Divide | Base23Calculator/Calculator.cs:51-54 | fails with DivideByZero exactly when `b` is zero; otherwise the quotient truncates toward zero |
| Calculator.DivideWithRemainder | Base23Calculator/Calculator.cs:64-67 | the same zero-divisor failure, a truncating quotient and remainder, and the quotient that `Divide` returns |
| Examples.ParseSingleDigits | Base23Calculator.Tests/Base23NumberTests.cs:14-18 | `0`, `1`, `9`, `A`, `M` parse to 0, 1, 9, 10, 22 |
| Examples.ParseTwoDigits | Base23Calculator.Tests/Base23NumberTests.cs:19-22 | `10`, `11`, `1M`, `MM` parse to 23, 24, 45, 528 |
| Examples.ParseThreeDigits | Base23Calculator.Tests/Base23NumberTests.cs:23 | `100` parses to 529 |
| Examples.ParseSignAndCase | Base23Calculator.Tests/Base23NumberTests.cs:24-25 | `-1` and `-M` parse to -1 and -22; `a` and `m` parse like `A` and `M` |
| Examples.ParseRejects | Base23Calculator.Tests/Base23NumberTests.cs:35-54 | null gives NullInput; empty text, `X`, `1X`, `@`, `A@` and `N` give Format |
| Examples.ParseRejectsSigns | Base23Calculator/Base23Number.cs:58-69 | a lone `-` and `--1` give Format |
| Examples.TryParseRejects | Base23Calculator/Base23Number.cs:83-108 | null, empty, sign-only and malformed text give `false` and zero |
| Examples.FormatSmall | Base23Calculator.Tests/Base23NumberTests.cs:56-60 | 0, 1, 9, 10, 22 format to `0`, `1`, `9`, `A`, `M` |
| Examples.FormatTwoDigits | Base23Calculator.Tests/Base23NumberTests.cs:61-64 | 23, 24, 45, 528 format to `10`, `11`, `1M`, `MM` |
| Examples.FormatThreeDigits | Base23Calculator.Tests/Base23NumberTests.cs:65 | 529 formats to `100` |
| Examples.FormatNegative | Base23Calculator.Tests/Base23NumberTests.cs:66-67 | -1 and -22 format to `-1` and `-M` |
| Examples.NonCanonicalInput | Base23Calculator/Base23Number.cs:58-74 | `0A` and `-0` are accepted and format back to `A` and `0` |
| Examples.ArithmeticExamples | Base23Calculator.Tests/Base23NumberTests.cs:80-129 | `10 + 1 = 11`, `M - A = C`, `M * 2 = 1L` |
| Examples.DivisionExamples | Base23Calculator.Tests/Base23NumberTests.cs:131-178 | `100 / 10 = 10`, `DivRem(100, 3) = (7F, 1)`, and `/`, `%` and `DivRem` by zero give DivideByZero |
| Examples.AdditionCarries | Base23Calculator.Tests/Base23NumberTests.cs:81-82 | `M + 1 = 10` and `MM + 1 = 100` |
| Examples.SubtractionBorrows | Base23Calculator.Tests/Base23NumberTests.cs:97-98 | `10 - 1 = M` and `100 - 1 = MM` |
| Examples.MultiplicationExamples | Base23Calculator.Tests/Base23NumberTests.cs:114-115 | `10 * 2 = 20` and `10 * 10 = 100` |
| Examples.MoreQuotients | Base23Calculator.Tests/Base23NumberTests.cs:131-133 | `10 / 2 = B` and `1M / 3 = F` |
| Examples.MoreDivRems | Base23Calculator.Tests/Base23NumberTests.cs:160-162 | `DivRem(1M, 2) = (M, 1)` and `DivRem(MM, M) = (11, 0)` |
| Examples.EqualPairs | Base23Calculator.Tests/Base23NumberTests.cs:180-204 | each of the pairs `10`/`10`, `A`/`a` and `MM`/`MM` is equal under `Equals`, the object overload of `Equals` and `==`, and not unequal under `!=` |
| Examples.UnequalPairs | Base23Calculator.Tests/Base23NumberTests.cs:180-204 | each of the pairs `10`/`11` and `A`/`B` is unequal under `Equals`, the object overload of `Equals` and `==`, and unequal under `!=` |
| Examples.FacadeArithmetic | Base23Calculator.Tests/CalculatorTests.cs:17-66 | the facade's `Add`, `Subtract` and `Multiply` give the documented sums, differences and products |
| Examples.FacadeDivision | Base23Calculator.Tests/CalculatorTests.cs:68-115 | the facade's `Divide` and `DivideWithRemainder` give the documented quotients and remainders, and `Divide` by zero gives DivideByZero |
| Examples.NegativeDivision | Base23Calculator/Base23Number.cs:246 | with negative operands the quotient truncates toward zero and the remainder takes the dividend's sign |

## Left out

- `GetHashCode` (Base23Calculator/Base23Number.cs:208-211) is left out. Its value comes from the integer type's own hash. It is derived from the same integer that equality compares.
- The constructor and the `DecimalValue` property are the datatype constructor `Base23Number` and its field `decimalValue`. They have no contract of their own.
- `Plus`, `Minus`, `Times`: these have no contract of their own, because their whole meaning is the integer operation in their bodies. That meaning is stated by the contracts of `Calculator.Add`, `Calculator.Subtract` and `Calculator.Multiply`, and by the inverse lemmas `PlusMinusInverse` and `TimesDivInverse`.
- Exception messages, including the offending character named in the `Format` message, are left out. Only the error kind is kept.
- The static-constructor mechanics that fill the dictionary are left out. The table is a constant string plus the pure lookup `CharToDigit`.
- Digits.CharToDigit: models the table built with invariant (ASCII) casing. `char.ToUpper` and `char.ToLower` at Base23Calculator/Base23Number.cs:24-25 use the current culture; under a Turkish or Azeri culture the lower-case key for glyph `I` (18) is `ı` (U+0131) rather than `i`, so there `"i"` is rejected and `"ı"` is read as 18, while the model reads `"i"` as 18 and rejects `"ı"`. `Digits.CaseInsensitive` and `Base23.ParseCaseInsensitive` are stated for the invariant-culture table only.
- The interactive loop in Base23Calculator/Program.cs is left out. It is I/O glue: it reads lines, splits tokens, dispatches on the operator, prints results and catches exceptions.
- C# strings are UTF-16 code units, while Dafny's `char` is a Unicode scalar value. Under the invariant-culture table every table key is ASCII, so this does not change any outcome there.
