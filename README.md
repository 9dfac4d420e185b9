# Roman/Arabic calculator — a Dafny model

This project models a small Java calculator (`src/main/java/org/example/Main.java`). It
evaluates one binary expression such as `"7 / 3"` or `"VII / III"`. `calc` removes the
spaces and splits the text into two operand texts and a sign (`parseExpression`).
It refuses mixed notation, converts the operands with a ten-entry table or
`Integer.parseInt` (`maybeConvertToArabic`) and refuses operands above 10. It then applies
`+ - * /` with Java `int` semantics (`doCalc`). In Roman mode it requires a result in
[1, 4000] (`validateResult`) and writes it greedily from the thirteen-symbol
`RomanNumeral` table (`maybeConvertToRoman`); otherwise it writes the decimal text.

Modules:

- `results.dfy` — `Results`: the error kinds, `Option`, and the failure-compatible `Result`
  and `Outcome` types. Every `throw new Exception()` becomes a `Failure` naming why it failed.
- `java_int.dfy` — `JavaInt`: the 32-bit `int` range and wrap-around, truncating division,
  `Integer.parseInt` and `String.valueOf` on ASCII digits, and `String.isBlank`.
- `roman.dfy` — `Roman`: the enum and its reverse-sorted table.
  - `maybeConvertToRoman` is an imperative loop. It is proved equal to the function
    `ToRoman`, which is proved to add up, to be ordered, and to equal the textbook
    digit-by-digit numeral `CanonicalRoman`.
  - The `romanToArabic` table is proved to be the converter's inverse on 1..10.
  - `maybeConvertToArabic` is modelled as a function.
- `tokenizer.dfy` — `Tokenizer`.
  - `parseExpression` is an imperative loop proved equal to the function `Scan`.
  - `Scan` is characterised in both directions by the predicate `Tokenizable`.
  - `isRoman` is a loop over the three Roman digits.
- `calculator.dfy` — `Calculator`: `validateAndParse`, `doCalc`, `validateResult` and `calc`.
  - End-to-end lemmas cover decimal operands, Roman operands, invalid numerals, mixed
    notation and a missing operator.
  - Worked examples: `7/3`, `VII/III`, `X+I`, `I-II` and `IV/0`.

A Java `null` input is `None`. `calc`'s input is `Option<string>`.

Data: the classes `RawExpression` (lines 101-133) and `Expression` (lines 134-172) are only
built and read, never updated, so they are the datatypes `Tokenizer.RawExpression` and
`Calculator.Expression` with the same fields. The enum `RomanNumeral` (lines 174-187) is the
datatype `Roman.RomanNumeral`, and the map `romanToArabic` (lines 197-208) is the constant
`Roman.RomanToArabic`; the table's rows below state what is proved about each.

## Model

| member | source | states |
|---|---|---|
| JavaInt.Wrap | src/main/java/org/example/Main.java:20-33 | the `int` result of `doCalc`'s arithmetic lies in the 32-bit range, differs from the exact value by a multiple of 2^32, and is the exact value when that is in range |
| JavaInt.TruncDiv | src/main/java/org/example/Main.java:28-29 | Java `/`: the remainder is smaller than the divisor in magnitude and has the dividend's sign (truncation toward zero); for non-negative operands it is ordinary division |
| JavaInt.ParseInt | src/main/java/org/example/Main.java:214-218 | `Integer.parseInt`: a result lies in the `int` range; failure is an invalid numeral; on a digit string it succeeds iff the string is non-empty and its value is at most 2^31-1, and then returns that value; a success starts with a sign or digit followed by digits only |
| JavaInt.IntToString | src/main/java/org/example/Main.java:17 | `String.valueOf(int)`: non-empty, a leading '-' exactly for negative values, the digits spell the magnitude, and there is no leading zero (only 0 itself is written "0") |
| JavaInt.IsJavaWhitespace | src/main/java/org/example/Main.java:42 | `Character.isWhitespace`, the test behind `isBlank` (no contract of its own; `Tokenizer.CharClassesDisjoint` states that the space is whitespace and that no operand or operator character is) |
| JavaInt.IsBlank | src/main/java/org/example/Main.java:42 | `String.isBlank`: empty or whitespace only (no contract of its own; `Calculator.OnlySpaces`, `Calculator.NotBlankBeforeRemoval` and `Tokenizer.BlankSign` state what the calculator relies on) |
| JavaInt.ParseIntOfIntToString | src/main/java/org/example/Main.java:17 | round trip: parsing the decimal text of any `int` gives it back |
| Roman.RomanNumeral.Value | src/main/java/org/example/Main.java:174-187 | `getValue`: every constant stands for a positive value, so each symbol the converter appends lowers what remains |
| Roman.RomanNumeral.Name | src/main/java/org/example/Main.java:174-177 | `name()`: the text of a constant is one letter, or a subtractive pair of two |
| Roman.SubtractivePair | src/main/java/org/example/Main.java:174-177 | a two-letter constant's value is its second letter's constant's value less its first letter's |
| Roman.ReverseSortedValues | src/main/java/org/example/Main.java:189-193 | the sorted list holds exactly the thirteen enum constants, one each, with values strictly decreasing |
| Roman.RomanSymbols | src/main/java/org/example/Main.java:228 | nothing is written for a number <= 0 (the loop guard `number > 0`) |
| Roman.Greedy | src/main/java/org/example/Main.java:228-236 | what the loop still emits with `n` remaining at table position `i` (no contract of its own; `Roman.GreedySum`, `Roman.GreedyNonIncreasing` and `Roman.GreedyPlace` state its sum, order and digits) |
| Roman.ToRoman | src/main/java/org/example/Main.java:222-239 | the text `calc` returns in Roman mode is empty exactly when the number is not positive (the guard `number > 0`); `Roman.ToRomanIsCanonical` states its content |
| Roman.MaybeConvertToRoman | src/main/java/org/example/Main.java:222-239 | the while loop returns exactly `ToRoman(number)`, the names of the symbols the greedy walk emits |
| Roman.GreedySum | src/main/java/org/example/Main.java:228-236 | the symbols emitted from any table position add up to what remains (0 if nothing remains), while a symbol of value 1 is still ahead |
| Roman.GreedyNonIncreasing | src/main/java/org/example/Main.java:228-236 | from position i the emitted symbols are non-increasing and none exceeds the symbol at i |
| Roman.RomanSymbolsSumAndOrder | src/main/java/org/example/Main.java:222-239 | the converted symbols add up to n for n >= 1 (to 0 for n <= 0) and are in non-increasing value order |
| Roman.GreedyPlace | src/main/java/org/example/Main.java:228-236 | on one decimal place (nine, five, four and one units in a row) the loop writes exactly the textbook digit d, then continues with the remainder |
| Roman.ToRomanIsCanonical | src/main/java/org/example/Main.java:222-239 | for every n >= 0 the converter writes one M per thousand followed by the canonical hundreds, tens and units digits |
| Roman.ThousandsAreMs | src/main/java/org/example/Main.java:222-239 | k thousands convert to k M's |
| Roman.FourThousandIsFourMs | src/main/java/org/example/Main.java:222-239 | 4000 converts to "MMMM" |
| Roman.UnitsNumeral | src/main/java/org/example/Main.java:222-239 | below ten the converter writes the units digit with I, V and X |
| Roman.SmallNumerals | src/main/java/org/example/Main.java:222-239 | 1, 2, 3 and 7 convert to "I", "II", "III" and "VII" |
| Roman.TenAndEleven | src/main/java/org/example/Main.java:222-239 | 10 and 11 convert to "X" and "XI" |
| Roman.IsRomanDigit | src/main/java/org/example/Main.java:7 | membership in `ROMAN_DIGITS` (no contract of its own; `Tokenizer.CharClassesDisjoint` states that a Roman letter is not a decimal digit) |
| Roman.HasRomanDigit | src/main/java/org/example/Main.java:90-97 | what `isRoman` answers: some character is I, V or X (no contract of its own; `Tokenizer.IsRoman` is proved equal to it and `Roman.RomanLetterDefeatsParseInt` shows such a text is never a number) |
| Roman.TableEntry | src/main/java/org/example/Main.java:197-208 | for n in 1..10 the converter's output is a key of `romanToArabic` mapped to n |
| Roman.TableKey | src/main/java/org/example/Main.java:197-208 | each key of `romanToArabic` maps to a value in 1..10 whose numeral is that key |
| Roman.TableInvertsToRoman | src/main/java/org/example/Main.java:197-208 | the table and the converter are inverse on 1..10, in both directions |
| Roman.RomanLettersOnly | src/main/java/org/example/Main.java:197-208 | the numerals of 1..10 use only I, V, X and contain at least one of them |
| Roman.TableKeysAreRoman | src/main/java/org/example/Main.java:197-208 | every table key holds only Roman letters, at least one |
| Roman.RomanLetterDefeatsParseInt | src/main/java/org/example/Main.java:214-218 | `Integer.parseInt` fails on any text containing I, V or X |
| Roman.MaybeConvertToArabic | src/main/java/org/example/Main.java:210-220 | failure is an invalid numeral; a text with a Roman letter converts iff it is a table key, to a value in 1..10 whose numeral is that text; a digit text converts iff it is non-empty and fits an `int`, to its value |
| Tokenizer.IsOperandChar | src/main/java/org/example/Main.java:67 | an operand character is an ASCII digit or I, V, X (no contract of its own; see `Tokenizer.CharClassesDisjoint`) |
| Tokenizer.IsOperatorChar | src/main/java/org/example/Main.java:76 | the four operators `+ - / *` (no contract of its own; see `Tokenizer.CharClassesDisjoint`) |
| Tokenizer.CharClassesDisjoint | src/main/java/org/example/Main.java:67-76 | an operand character is neither an operator nor whitespace, an operator is not whitespace, a Roman letter is not a digit, and the space is whitespace |
| Tokenizer.Step | src/main/java/org/example/Main.java:67-85 | one pass of the loop body appends the character to the first or second operand or makes it the sign; an operator is taken only while the sign is blank; a failure is malformed and the character was not an operand character |
| Tokenizer.Scan | src/main/java/org/example/Main.java:62-88 | on success the pieces join back into the text, the operands hold only operand characters, the sign is empty or one operator, and with no sign the second operand is empty; failure is a malformed expression |
| Tokenizer.StepKeepsSplit | src/main/java/org/example/Main.java:67-85 | one pass of the loop body keeps the pieces a split of the text read so far, or fails as malformed |
| Tokenizer.ParseExpression | src/main/java/org/example/Main.java:62-88 | the loop returns exactly `Scan(expression)` |
| Tokenizer.ScanExtend | src/main/java/org/example/Main.java:66-86 | reading one more character is one more step of the loop |
| Tokenizer.ScanFailureSticks | src/main/java/org/example/Main.java:79-84 | once a prefix is rejected the whole text is rejected (the throw ends the loop) |
| Tokenizer.SignIffOperator | src/main/java/org/example/Main.java:74-78 | after a successful scan the sign is empty iff the text holds no operator character |
| Tokenizer.BlankSign | src/main/java/org/example/Main.java:68 | `sign.isBlank()` holds exactly when no operator has been read yet |
| Tokenizer.StepSucceedsIff | src/main/java/org/example/Main.java:67-85 | after an accepted text one more character is accepted iff it is an operand character, or an operator and no operator came before |
| Tokenizer.ScanSucceedsIff | src/main/java/org/example/Main.java:66-86 | the tokenizer accepts a text iff every character is an operand or operator character and no operator follows another |
| Tokenizer.SplitUnique | src/main/java/org/example/Main.java:62-88 | two operand texts around one operator can be split only one way |
| Tokenizer.ScanOfSplit | src/main/java/org/example/Main.java:62-88 | two operand texts around one operator come back as first operand, sign and second operand |
| Tokenizer.ScanWithoutOperator | src/main/java/org/example/Main.java:62-88 | operand characters alone become the first operand, with empty sign and second operand |
| Tokenizer.IsRoman | src/main/java/org/example/Main.java:90-97 | the loop returns true iff the text contains I, V or X |
| Calculator.RemoveSpaces | src/main/java/org/example/Main.java:45 | `replace(" ", "")` leaves no space and never lengthens the text |
| Calculator.RemoveSpacesIdentity | src/main/java/org/example/Main.java:45 | text without spaces is unchanged |
| Calculator.RemoveSpacesKeepsOthers | src/main/java/org/example/Main.java:45 | every other character is kept exactly as often as it occurs |
| Calculator.RemoveSpacesAppend | src/main/java/org/example/Main.java:45 | removing spaces distributes over concatenation |
| Calculator.NotBlankBeforeRemoval | src/main/java/org/example/Main.java:42-45 | a text that still holds a non-whitespace character after the removal was not blank |
| Calculator.ValidateAndParse | src/main/java/org/example/Main.java:41-60 | null, blank or untokenizable input is malformed; a success comes from a successful scan, has operands in [0, 10] (at least 1 when Roman), a one-operator sign, and an `isRoman` flag equal to the classification of both raw operands |
| Calculator.OperandBounds | src/main/java/org/example/Main.java:51-56 | a converted operand is non-empty and non-negative, and at least 1 when Roman |
| Calculator.DoCalc | src/main/java/org/example/Main.java:20-33 | the result lies in the `int` range; it fails iff the sign is unknown or it divides by zero, with that error |
| Calculator.DoCalcIsExact | src/main/java/org/example/Main.java:20-33 | on operands in [0, 10] `doCalc` is exact `+ - *` and plain division, failing only on a zero divisor |
| Calculator.ValidateResult | src/main/java/org/example/Main.java:35-39 | passes iff not Roman or the result lies in [1, 4000]; otherwise the result is out of range |
| Calculator.Calc | src/main/java/org/example/Main.java:13-18 | null, blank or untokenizable input is malformed; an unknown operator never reaches the caller; a success is non-empty text |
| Calculator.DecimalOperand | src/main/java/org/example/Main.java:90-97 | a digit text holds operand characters only and is not Roman |
| Calculator.ParseArabic | src/main/java/org/example/Main.java:41-60 | decimal operands: invalid numeral if either is empty or exceeds the `int` range, out of range if either exceeds 10, otherwise their values with `isRoman` false |
| Calculator.CalcArabic | src/main/java/org/example/Main.java:13-18 | decimal operands end to end: the same failures, a division by zero, or the decimal text of the exact value |
| Calculator.ParseRoman | src/main/java/org/example/Main.java:41-60 | Roman operands: both table keys give their table values with `isRoman` true, anything else an invalid numeral |
| Calculator.CalcRoman | src/main/java/org/example/Main.java:13-18 | operands written as the converter writes 1..10: the Roman numeral of the exact value when it lies in [1, 4000], otherwise out of range |
| Calculator.CalcInvalidRoman | src/main/java/org/example/Main.java:51-55 | Roman operands outside the table are an invalid numeral |
| Calculator.CalcMixed | src/main/java/org/example/Main.java:47-50 | exactly one Roman operand is mixed notation, whatever else is wrong |
| Calculator.CalcWithoutOperator | src/main/java/org/example/Main.java:41-60 | without an operator: a Roman operand is mixed notation, a decimal one an invalid numeral, all spaces malformed |
| Calculator.OnlySpaces | src/main/java/org/example/Main.java:42-45 | text that is all spaces is blank |
| Calculator.ExampleArabicDivision | src/main/java/org/example/Main.java:10 | "7 / 3" (and any spacing of it) gives "2" |
| Calculator.ExampleRomanDivision | src/main/java/org/example/Main.java:13-18 | "VII/III" gives "II" |
| Calculator.ExampleRomanSum | src/main/java/org/example/Main.java:13-18 | "X+I" gives "XI" |
| Calculator.ExampleRomanBelowOne | src/main/java/org/example/Main.java:35-39 | "I-II" is out of range |
| Calculator.ExampleRomanOverZero | src/main/java/org/example/Main.java:47-50 | "IV/0" is mixed notation, not a division by zero |

## Left out

- `main` and its `System.out.println` (lines 9-11) are I/O. The model covers only the value `calc("7 / 3")` returns.
- The `toString` methods of `RawExpression` and `Expression` are debugging output.
- Java throws an untyped `Exception` at every failure. The model returns a `Failure` naming the check that failed; a caller of the Java code cannot tell these kinds apart.
- The two unchecked exceptions are modelled by what they mean:
  - the `NullPointerException` when a text is not in the table (line 212) means "not in the table";
  - the `ArithmeticException` on a zero divisor (line 29) is `DivisionByZero`.
- `Character.isDigit` and `Integer.parseInt` also accept non-ASCII Unicode digits. The model accepts ASCII `0-9` only.
- Roman.ReverseSortedValues: the stream sort (lines 189-193) is not modelled as a sort. Its result is the constant thirteen-symbol list, proved to be exactly the constants in strictly decreasing order.
- Tokenizer.IsRoman: `Set.of` fixes no iteration order. The model visits I, V, X in that order; the answer is the same for every order.
- `parseExpression` builds its operands with `StringBuilder` objects. The model reassigns immutable strings; nothing else holds a reference to those builders, so no aliasing is lost.
- Two Roman tables are modelled as values because they are never changed: `romanToArabic` is a `map` constant and the sorted enum list is a `seq`.
- Calculator.Calc: the result of a successful Roman computation is stated through `CalcRoman` and the examples, not in `Calc`'s own contract.
- `IV / 0` fails with mixed notation, not with a division by zero. "0" holds no Roman letter, and the notation check (lines 47-50) runs before any arithmetic. The model follows the code; see `Calculator.ExampleRomanOverZero`.
