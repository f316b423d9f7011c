# Swift `Int` extensions, modelled in Dafny

The Extensions page of the LearnSwift playgrounds adds four pieces of integer
behaviour to Swift's `Int` through extensions:

- `mutating func square()`, which replaces a variable's value by its square;
- `subscript(digitIndex:)`, which returns the decimal digit `digitIndex`
  places in from the right, by multiplying a `decimalBase` up to
  10^digitIndex in a loop and returning `(self / decimalBase) % 10`;
- the nested `enum Kind { negative, zero, positive }` and the computed
  property `kind`;
- `printIntegerKinds(_:)`, which prints one token (`- `, `0 `, `+ `) per
  number and then a line break.

The project has two modules:

- `SwiftInt` (SwiftInt.dfy) holds Swift's 64-bit `Int` as the newtype
  `Int64`. Dafny checks every arithmetic result on it against the range, which
  is where Swift traps on overflow. The module also defines Swift's truncating
  `/` and `%` as `Quot` and `Rem`, because Dafny's own operators are
  Euclidean, and the powers of ten `Pow10`.
- `Extensions` (Extensions.dfy) models the four pieces above.

How the Swift constructs are modelled:

- The mutating method becomes a class `IntVariable` with one field, and
  `Square` modifies that field.
- The subscript becomes the method `Subscript`. Its loop invariant is
  `decimalBase == 10^i`. It is proved against the specification function
  `Digit`, and lemmas relate `Digit` to an independent decimal expansion
  `DecimalDigits`.
- `kind` is a pure function.
- The printing loop becomes the method `PrintIntegerKinds`. It returns the
  text that would be printed and is proved equal to the pure rendering
  `RenderKinds` followed by `"\n"`. The parser `ParseGlyphs` is that
  rendering's inverse.

Swift traps where the model has preconditions:

- `0..<digitIndex` traps for a negative index.
- `decimalBase *= 10` traps once the base would pass 10^18. `Pow10FitsInt64`
  proves that 18 is the exact limit, so `Subscript` requires
  `0 <= digitIndex <= 18`.
- `self * self` in `square()` traps when the square leaves the range.
  `SquareNoOverflow` proves this happens exactly when the magnitude exceeds
  3037000499.

Negative receivers are modelled, not excluded. For them the subscript yields
the negated digit of the magnitude, a value in -9..0.

## Model

| member | source | states |
|---|---|---|
| Extensions.IntVariable.constructor | LearnSwift@iOS-Camp/playgrounds/TheSwiftProgrammingLanguage.playground/Pages/Extensions.xcplaygroundpage/Contents.swift:139 | a new variable holds the given value |
| Extensions.IntVariable.Square | LearnSwift@iOS-Camp/playgrounds/TheSwiftProgrammingLanguage.playground/Pages/Extensions.xcplaygroundpage/Contents.swift:133-137 | the new value is the old value times itself and is non-negative; requires the square to fit in `Int` (Swift traps otherwise) |
| Extensions.SquareThree | LearnSwift@iOS-Camp/playgrounds/TheSwiftProgrammingLanguage.playground/Pages/Extensions.xcplaygroundpage/Contents.swift:139-141 | `someInt = 3` followed by `square()` leaves 9 |
| Extensions.SquareNoOverflow | LearnSwift@iOS-Camp/playgrounds/TheSwiftProgrammingLanguage.playground/Pages/Extensions.xcplaygroundpage/Contents.swift:135 | `self * self` stays within `Int` exactly when `-3037000499 <= self <= 3037000499` |
| Extensions.SquareKind | LearnSwift@iOS-Camp/playgrounds/TheSwiftProgrammingLanguage.playground/Pages/Extensions.xcplaygroundpage/Contents.swift:133-137 | the square of a value is never `.negative`; it is `.zero` exactly for zero |
| Extensions.Subscript | LearnSwift@iOS-Camp/playgrounds/TheSwiftProgrammingLanguage.playground/Pages/Extensions.xcplaygroundpage/Contents.swift:151-159 | the result equals `Digit(self, digitIndex)`, Swift's `(self / 10^digitIndex) % 10`; it lies in 0..9 for `self >= 0` and in -9..0 for `self <= 0`; requires `0 <= digitIndex <= 18` (Swift traps outside). The fact that the loop builds `decimalBase == 10^i` after i rounds is its loop invariant, not part of the ensures |
| Extensions.Digit | LearnSwift@iOS-Camp/playgrounds/TheSwiftProgrammingLanguage.playground/Pages/Extensions.xcplaygroundpage/Contents.swift:157 | the subscript's value `(n / 10^k) % 10` with Swift's truncating operators; its meaning is stated by DigitRange, DigitShift, DigitIsDecimalDigit and SubscriptExamples |
| SwiftInt.Pow10FitsInt64 | LearnSwift@iOS-Camp/playgrounds/TheSwiftProgrammingLanguage.playground/Pages/Extensions.xcplaygroundpage/Contents.swift:153-156 | 10^k fits in `Int` exactly when k <= 18, so the loop's multiplications never overflow for those indices and overflow for any larger one |
| SwiftInt.Pow10 | LearnSwift@iOS-Camp/playgrounds/TheSwiftProgrammingLanguage.playground/Pages/Extensions.xcplaygroundpage/Contents.swift:153-156 | the value `decimalBase` reaches after k rounds of `*= 10`, starting from 1; it is at least 1, so the division at line 157 never divides by zero |
| SwiftInt.Quot | LearnSwift@iOS-Camp/playgrounds/TheSwiftProgrammingLanguage.playground/Pages/Extensions.xcplaygroundpage/Contents.swift:157 | Swift's truncating `/`: the quotient rounded toward zero, characterized by TruncatedDivision |
| SwiftInt.Rem | LearnSwift@iOS-Camp/playgrounds/TheSwiftProgrammingLanguage.playground/Pages/Extensions.xcplaygroundpage/Contents.swift:157 | Swift's truncating `%`: the remainder with the dividend's sign, characterized by TruncatedDivision |
| SwiftInt.TruncatedDivision | LearnSwift@iOS-Camp/playgrounds/TheSwiftProgrammingLanguage.playground/Pages/Extensions.xcplaygroundpage/Contents.swift:157 | Swift's `/` and `%` rebuild the dividend, the remainder is smaller than the divisor in magnitude and has the sign of the dividend, and the quotient never overshoots in magnitude |
| SwiftInt.QuotRemNonNegative | LearnSwift@iOS-Camp/playgrounds/TheSwiftProgrammingLanguage.playground/Pages/Extensions.xcplaygroundpage/Contents.swift:157 | on non-negative operands Swift's `/` and `%` agree with Euclidean division |
| SwiftInt.QuotRemOfNegation | LearnSwift@iOS-Camp/playgrounds/TheSwiftProgrammingLanguage.playground/Pages/Extensions.xcplaygroundpage/Contents.swift:157 | negating the dividend negates Swift's quotient and remainder |
| SwiftInt.DivDiv | LearnSwift@iOS-Camp/playgrounds/TheSwiftProgrammingLanguage.playground/Pages/Extensions.xcplaygroundpage/Contents.swift:157 | the Euclidean identity `(n / p) / q == n / (p * q)` for natural `n` and positive `p`, `q`; it stands for Swift's `/` only for non-negative dividends, where the two agree (QuotRemNonNegative) |
| Extensions.DigitRange | LearnSwift@iOS-Camp/playgrounds/TheSwiftProgrammingLanguage.playground/Pages/Extensions.xcplaygroundpage/Contents.swift:145-150 | a digit of a non-negative number is in 0..9; of a non-positive number, in -9..0 |
| Extensions.DigitOfNegation | LearnSwift@iOS-Camp/playgrounds/TheSwiftProgrammingLanguage.playground/Pages/Extensions.xcplaygroundpage/Contents.swift:157 | the subscript of `-n` is the negation of the subscript of `n` |
| Extensions.DigitShift | LearnSwift@iOS-Camp/playgrounds/TheSwiftProgrammingLanguage.playground/Pages/Extensions.xcplaygroundpage/Contents.swift:145-150 | digit k+1 of n is digit k of n / 10; the index counts places from the right |
| Extensions.DecimalDigits | LearnSwift@iOS-Camp/playgrounds/TheSwiftProgrammingLanguage.playground/Pages/Extensions.xcplaygroundpage/Contents.swift:145-150 | the reference decimal expansion, least significant digit first: at least one digit, every digit in 0..9, no leading zero for a positive number |
| Extensions.DecimalDigitsRoundTrip | LearnSwift@iOS-Camp/playgrounds/TheSwiftProgrammingLanguage.playground/Pages/Extensions.xcplaygroundpage/Contents.swift:145-150 | the reference expansion reads back as the number it was made from |
| Extensions.DigitIsDecimalDigit | LearnSwift@iOS-Camp/playgrounds/TheSwiftProgrammingLanguage.playground/Pages/Extensions.xcplaygroundpage/Contents.swift:145-150 | for n >= 0, `n[k]` is the k-th digit of the decimal expansion counted from the right, and 0 beyond the most significant digit |
| Extensions.SubscriptExamples | LearnSwift@iOS-Camp/playgrounds/TheSwiftProgrammingLanguage.playground/Pages/Extensions.xcplaygroundpage/Contents.swift:145-172 | `123456789[0] == 9`, `123456789[1] == 8`, and `746381295` at indices 0, 1, 2 and 8 gives 5, 9, 2 and 7 |
| Extensions.KindOf | LearnSwift@iOS-Camp/playgrounds/TheSwiftProgrammingLanguage.playground/Pages/Extensions.xcplaygroundpage/Contents.swift:175-190 | total, exactly one case: `.zero` iff the value is 0, `.positive` iff it is > 0, `.negative` iff it is < 0 |
| Extensions.Kinds | LearnSwift@iOS-Camp/playgrounds/TheSwiftProgrammingLanguage.playground/Pages/Extensions.xcplaygroundpage/Contents.swift:193-194 | `number.kind` for each element of the array: as many kinds as numbers, and the i-th kind is the kind of the i-th number |
| Extensions.Glyph | LearnSwift@iOS-Camp/playgrounds/TheSwiftProgrammingLanguage.playground/Pages/Extensions.xcplaygroundpage/Contents.swift:194-201 | the token printed for a kind (`- `, `0 `, `+ `) is two characters long and ends in a space |
| Extensions.RenderKinds | LearnSwift@iOS-Camp/playgrounds/TheSwiftProgrammingLanguage.playground/Pages/Extensions.xcplaygroundpage/Contents.swift:192-205 | the text printed before the final line break has exactly two characters per number, for every array including the empty one |
| Extensions.RenderKindsTokens | LearnSwift@iOS-Camp/playgrounds/TheSwiftProgrammingLanguage.playground/Pages/Extensions.xcplaygroundpage/Contents.swift:192-205 | the token at place i of the rendering is `- `, `0 ` or `+ ` for the kind of the i-th number, in input order |
| Extensions.ParseRendered | LearnSwift@iOS-Camp/playgrounds/TheSwiftProgrammingLanguage.playground/Pages/Extensions.xcplaygroundpage/Contents.swift:193-202 | parsing the rendered tokens gives back the sequence of kinds |
| Extensions.RenderParsed | LearnSwift@iOS-Camp/playgrounds/TheSwiftProgrammingLanguage.playground/Pages/Extensions.xcplaygroundpage/Contents.swift:193-202 | any text that parses as tokens is exactly the rendering of what it parses to |
| Extensions.PrintIntegerKinds | LearnSwift@iOS-Camp/playgrounds/TheSwiftProgrammingLanguage.playground/Pages/Extensions.xcplaygroundpage/Contents.swift:192-205 | the loop's output is the rendering of the numbers' kinds followed by the line break of `print("")` |
| Extensions.RenderExample | LearnSwift@iOS-Camp/playgrounds/TheSwiftProgrammingLanguage.playground/Pages/Extensions.xcplaygroundpage/Contents.swift:207 | `[3, 19, -27, 0, -6, 0, 7]` renders as `+ + - 0 - 0 + ` |

## Left out

- The `Double` extensions `km`, `m`, `cm`, `mm`, `ft` and their uses (lines 48-68) are left out because they are floating-point arithmetic.
- `Size`, `Point`, `Rect` and `Rect.init(center:size:)` (lines 84-111) are left out because they are floating-point geometry.
- `Int.repetitions(task:)` (lines 118-128) is left out. It runs a closure whose only effect is console output.
- Console output itself is not modelled. `PrintIntegerKinds` returns the text it would print, and the `print` calls at the top level of the page are left out.
- Swift's traps are not modelled as runtime failures. A trap is a precondition of the operation (`Subscript`, `IntVariable.Square`), and the lemmas above show where it falls.
- The Homework calculator page and the Nested Types page are not part of this model.
