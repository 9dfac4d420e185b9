/** `calc` and its stages `validateAndParse`, `doCalc` and `validateResult`: one binary
    expression in, its value out, written in the notation of the operands. */
module Calculator {
  import opened Results
  import opened JavaInt
  import opened Roman
  import opened Tokenizer

  /** A parsed expression: the two operand values, the sign text and whether the operands
      were written in Roman numerals. */
  datatype Expression = Expression(firstNum: int, sign: string, secondNum: int, isRoman: bool)

  // ---------------------------------------------------------------- validateAndParse

  /** `expression.replace(" ", "")`: every space removed, every other character kept. */
  function RemoveSpaces(s: string): (r: string)
    ensures forall i | 0 <= i < |r| :: r[i] != ' '
    ensures |r| <= |s|
  {
    if s == [] then ""
    else
      var head: string := if s[0] == ' ' then "" else [s[0]];
      assert s == [s[0]] + s[1..];
      head + RemoveSpaces(s[1..])
  }

  /** Text without spaces is left as it is. */
  lemma {:induction false} RemoveSpacesIdentity(s: string)
    requires forall i | 0 <= i < |s| :: s[i] != ' '
    ensures RemoveSpaces(s) == s
  {
    if s != [] {
      RemoveSpacesIdentity(s[1..]);
      assert s == [s[0]] + s[1..];
    }
  }

  /** Every character other than a space is kept, as often as it occurs. */
  lemma {:induction false} RemoveSpacesKeepsOthers(s: string)
    ensures forall c | c != ' ' :: multiset(RemoveSpaces(s))[c] == multiset(s)[c]
  {
    if s != [] {
      RemoveSpacesKeepsOthers(s[1..]);
      var head: string := if s[0] == ' ' then "" else [s[0]];
      assert s == [s[0]] + s[1..];
      assert multiset(s) == multiset([s[0]]) + multiset(s[1..]);
      assert RemoveSpaces(s) == head + RemoveSpaces(s[1..]);
      assert multiset(RemoveSpaces(s)) == multiset(head) + multiset(RemoveSpaces(s[1..]));
    }
  }

  lemma {:induction false} RemoveSpacesAppend(a: string, b: string)
    ensures RemoveSpaces(a + b) == RemoveSpaces(a) + RemoveSpaces(b)
  {
    if a == [] {
      assert a + b == b;
    } else {
      var head: string := if a[0] == ' ' then "" else [a[0]];
      assert (a + b)[0] == a[0] && (a + b)[1..] == a[1..] + b;
      assert RemoveSpaces(a + b) == head + RemoveSpaces(a[1..] + b);
      RemoveSpacesAppend(a[1..], b);
      var x, y := RemoveSpaces(a[1..]), RemoveSpaces(b);
      assert RemoveSpaces(a) == head + x;
      assert head + (x + y) == (head + x) + y;
    }
  }

  /** Text that still holds a character other than white space after the spaces are gone
      was not blank to begin with. */
  lemma NotBlankBeforeRemoval(s: string, k: nat)
    requires k < |RemoveSpaces(s)| && !IsJavaWhitespace(RemoveSpaces(s)[k])
    ensures !IsBlank(s)
  {
    var c := RemoveSpaces(s)[k];
    RemoveSpacesKeepsOthers(s);
    assert c in multiset(RemoveSpaces(s));
    assert c in multiset(s);
    var i :| 0 <= i < |s| && s[i] == c;
  }

  /** `validateAndParse`: reject null and blank text, strip the spaces, split, refuse mixed
      notation, convert both operands and refuse any above 10. */
  function ValidateAndParse(input: Option<string>): (r: Result<Expression, Error>)
    ensures input.None? || IsBlank(input.value) ==> r == Failure(MalformedExpression)
    ensures input.Some? && !Tokenizable(RemoveSpaces(input.value)) ==> r == Failure(MalformedExpression)
    ensures r.Success? ==> input.Some? && Scan(RemoveSpaces(input.value)).Success?
    ensures r.Success? ==> 0 <= r.value.firstNum <= 10 && 0 <= r.value.secondNum <= 10
    ensures r.Success? && r.value.isRoman ==> 1 <= r.value.firstNum && 1 <= r.value.secondNum
    ensures r.Success? ==> |r.value.sign| == 1 && IsOperatorChar(r.value.sign[0])
    ensures r.Success? ==>
              (var raw := Scan(RemoveSpaces(input.value)).value;
               HasRomanDigit(raw.firstNum) == r.value.isRoman == HasRomanDigit(raw.secondNum))
  {
    if input.None? || IsBlank(input.value) then Failure(MalformedExpression)
    else
      var corrected := RemoveSpaces(input.value);
      ScanSucceedsIff(corrected);
      var raw :- Scan(corrected);
      if (HasRomanDigit(raw.firstNum) && !HasRomanDigit(raw.secondNum))
         || (HasRomanDigit(raw.secondNum) && !HasRomanDigit(raw.firstNum)) then
        Failure(MixedNotation)
      else
        var first :- MaybeConvertToArabic(raw.firstNum);
        var second :- MaybeConvertToArabic(raw.secondNum);
        var parsed := Expression(first, raw.sign, second, HasRomanDigit(raw.firstNum));
        if parsed.firstNum > 10 || parsed.secondNum > 10 then
          Failure(OperandOutOfRange)
        else
          OperandBounds(raw.firstNum);
          OperandBounds(raw.secondNum);
          Success(parsed)
  }

  /** An operand text that converts has a non-negative value, at least 1 when Roman; the
      empty text never converts. */
  lemma OperandBounds(s: string)
    requires AllOperandChars(s)
    ensures MaybeConvertToArabic(s).Success? ==> s != [] && 0 <= MaybeConvertToArabic(s).value
    ensures MaybeConvertToArabic(s).Success? && HasRomanDigit(s) ==> 1 <= MaybeConvertToArabic(s).value
  {
    if !HasRomanDigit(s) {
      assert AllDigits(s) by {
        forall i | 0 <= i < |s| ensures IsDigit(s[i]) {
          assert !IsRomanDigit(s[i]);
        }
      }
    }
  }

  // ---------------------------------------------------------------- doCalc and validateResult

  /** The four signs `doCalc` knows. */
  predicate IsKnownSign(sign: string) {
    sign == "+" || sign == "-" || sign == "*" || sign == "/"
  }

  /** `doCalc`: Java int arithmetic on the two operands; `/` truncates toward zero and fails on
      a zero divisor; any other sign fails. */
  function DoCalc(e: Expression): (r: Result<int, Error>)
    ensures r.Success? ==> InIntRange(r.value)
    ensures r.Failure? <==> !IsKnownSign(e.sign) || (e.sign == "/" && e.secondNum == 0)
    ensures r.Failure? ==> r.error == if IsKnownSign(e.sign) then DivisionByZero else UnknownOperator
  {
    if e.sign == "+" then Success(Wrap(e.firstNum + e.secondNum))
    else if e.sign == "-" then Success(Wrap(e.firstNum - e.secondNum))
    else if e.sign == "*" then Success(Wrap(e.firstNum * e.secondNum))
    else if e.sign == "/" then
      if e.secondNum == 0 then Failure(DivisionByZero)
      else Success(Wrap(TruncDiv(e.firstNum, e.secondNum)))
    else Failure(UnknownOperator)
  }

  /** The exact value of `a op b` over unbounded integers, with Dafny's division. */
  function Arithmetic(op: char, a: int, b: int): int
    requires IsOperatorChar(op) && (op == '/' ==> b != 0)
  {
    if op == '+' then a + b
    else if op == '-' then a - b
    else if op == '*' then a * b
    else a / b
  }

  /** On operands in [0, 10] nothing wraps and truncation is plain division: `doCalc` is exact
      arithmetic, failing only on a zero divisor. */
  lemma DoCalcIsExact(a: int, op: char, b: int, isRoman: bool)
    requires 0 <= a <= 10 && 0 <= b <= 10 && IsOperatorChar(op)
    ensures DoCalc(Expression(a, [op], b, isRoman))
         == if op == '/' && b == 0 then Failure(DivisionByZero) else Success(Arithmetic(op, a, b))
  {
    assert a * b <= 100 by {
      assert a * b <= 10 * b;
    }
  }

  /** `validateResult`: in Roman mode the result must lie in [1, 4000]. */
  function ValidateResult(result: int, isRoman: bool): (r: Outcome<Error>)
    ensures r.Pass? <==> !isRoman || 1 <= result <= 4000
    ensures r.Fail? ==> r.error == ResultOutOfRange
  {
    if isRoman && (result < 1 || result > 4000) then Fail(ResultOutOfRange) else Pass
  }

  // ---------------------------------------------------------------- calc

  /** `calc`: parse, evaluate, check the result and write it in the operands' notation. */
  function Calc(input: Option<string>): (r: Result<string, Error>)
    ensures input.None? || IsBlank(input.value) ==> r == Failure(MalformedExpression)
    ensures input.Some? && !Tokenizable(RemoveSpaces(input.value)) ==> r == Failure(MalformedExpression)
    ensures r != Failure(UnknownOperator)
    ensures r.Success? ==> r.value != ""
  {
    var expression :- ValidateAndParse(input);
    var result :- DoCalc(expression);
    :- ValidateResult(result, expression.isRoman);
    if expression.isRoman then
      Success(ToRoman(result))
    else
      Success(IntToString(result))
  }

  // ---------------------------------------------------------------- calc, end to end

  /** A decimal operand text holds no Roman letter and only operand characters. */
  lemma DecimalOperand(x: string)
    requires AllDigits(x)
    ensures AllOperandChars(x) && !HasRomanDigit(x)
  {
    forall i | 0 <= i < |x| ensures !IsRomanDigit(x[i]) {
      assert IsDigit(x[i]);
    }
  }

  /** Decimal operands: both must parse as Java ints, then lie in [0, 10]. */
  lemma ParseArabic(s: string, x: string, op: char, y: string)
    requires RemoveSpaces(s) == x + [op] + y
    requires AllDigits(x) && AllDigits(y) && IsOperatorChar(op)
    ensures ValidateAndParse(Some(s)) ==
              if x == [] || y == [] || DigitsValue(x) > MaxInt || DigitsValue(y) > MaxInt then
                Failure(InvalidNumeral)
              else if DigitsValue(x) > 10 || DigitsValue(y) > 10 then
                Failure(OperandOutOfRange)
              else
                Success(Expression(DigitsValue(x), [op], DigitsValue(y), false))
  {
    assert RemoveSpaces(s)[|x|] == op;
    NotBlankBeforeRemoval(s, |x|);
    DecimalOperand(x);
    DecimalOperand(y);
    ScanOfSplit(x, op, y);
  }

  /** Decimal operands end to end: after the checks of `ParseArabic` the answer is the decimal
      text of the exact value, or a division by zero. */
  lemma CalcArabic(s: string, x: string, op: char, y: string)
    requires RemoveSpaces(s) == x + [op] + y
    requires AllDigits(x) && AllDigits(y) && IsOperatorChar(op)
    ensures Calc(Some(s)) ==
              if x == [] || y == [] || DigitsValue(x) > MaxInt || DigitsValue(y) > MaxInt then
                Failure(InvalidNumeral)
              else if DigitsValue(x) > 10 || DigitsValue(y) > 10 then
                Failure(OperandOutOfRange)
              else if op == '/' && DigitsValue(y) == 0 then
                Failure(DivisionByZero)
              else
                Success(IntToString(Arithmetic(op, DigitsValue(x), DigitsValue(y))))
  {
    ParseArabic(s, x, op, y);
    if x != [] && y != [] && DigitsValue(x) <= 10 && DigitsValue(y) <= 10 {
      DoCalcIsExact(DigitsValue(x), op, DigitsValue(y), false);
    }
  }

  /** Roman operands: each must be a numeral of the table, and then both are its values. */
  lemma ParseRoman(s: string, x: string, op: char, y: string)
    requires RemoveSpaces(s) == x + [op] + y
    requires AllOperandChars(x) && AllOperandChars(y) && IsOperatorChar(op)
    requires HasRomanDigit(x) && HasRomanDigit(y)
    ensures ValidateAndParse(Some(s)) ==
              if x in RomanToArabic && y in RomanToArabic then
                Success(Expression(RomanToArabic[x], [op], RomanToArabic[y], true))
              else
                Failure(InvalidNumeral)
  {
    assert RemoveSpaces(s)[|x|] == op;
    NotBlankBeforeRemoval(s, |x|);
    ScanOfSplit(x, op, y);
  }

  /** Roman operands written as the converter writes one to ten: the answer is the Roman
      numeral of the exact value when that lies in [1, 4000], and out of range otherwise. */
  lemma CalcRoman(s: string, a: int, op: char, b: int)
    requires 1 <= a <= 10 && 1 <= b <= 10 && IsOperatorChar(op)
    requires RemoveSpaces(s) == ToRoman(a) + [op] + ToRoman(b)
    ensures Calc(Some(s)) ==
              var v := Arithmetic(op, a, b);
              if 1 <= v <= 4000 then Success(ToRoman(v)) else Failure(ResultOutOfRange)
  {
    RomanLettersOnly(a);
    RomanLettersOnly(b);
    TableEntry(a);
    TableEntry(b);
    ParseRoman(s, ToRoman(a), op, ToRoman(b));
    DoCalcIsExact(a, op, b, true);
  }

  /** Roman operands outside the table of one to ten are invalid numerals. */
  lemma CalcInvalidRoman(s: string, x: string, op: char, y: string)
    requires RemoveSpaces(s) == x + [op] + y
    requires AllOperandChars(x) && AllOperandChars(y) && IsOperatorChar(op)
    requires HasRomanDigit(x) && HasRomanDigit(y)
    requires x !in RomanToArabic || y !in RomanToArabic
    ensures Calc(Some(s)) == Failure(InvalidNumeral)
  {
    ParseRoman(s, x, op, y);
  }

  /** One Roman and one non-Roman operand: mixed notation, whatever else is wrong. */
  lemma CalcMixed(s: string, x: string, op: char, y: string)
    requires RemoveSpaces(s) == x + [op] + y
    requires AllOperandChars(x) && AllOperandChars(y) && IsOperatorChar(op)
    requires HasRomanDigit(x) != HasRomanDigit(y)
    ensures Calc(Some(s)) == Failure(MixedNotation)
  {
    assert RemoveSpaces(s)[|x|] == op;
    NotBlankBeforeRemoval(s, |x|);
    ScanOfSplit(x, op, y);
  }

  /** Without an operator the second operand is empty: a lone Roman operand is mixed notation,
      a lone decimal one an invalid numeral, and text of spaces only is malformed. */
  lemma CalcWithoutOperator(s: string)
    requires AllOperandChars(RemoveSpaces(s))
    ensures Calc(Some(s)) ==
              if RemoveSpaces(s) == "" then Failure(MalformedExpression)
              else if HasRomanDigit(RemoveSpaces(s)) then Failure(MixedNotation)
              else Failure(InvalidNumeral)
  {
    var x := RemoveSpaces(s);
    if x == "" {
      OnlySpaces(s);
    } else {
      assert !IsJavaWhitespace(x[0]);
      NotBlankBeforeRemoval(s, 0);
      ScanWithoutOperator(x);
      DecimalOperand("");
    }
  }

  /** Text that is all spaces is blank. */
  lemma OnlySpaces(s: string)
    requires RemoveSpaces(s) == ""
    ensures IsBlank(s)
  {
    forall i | 0 <= i < |s| ensures IsJavaWhitespace(s[i]) {
      assert s[i] in multiset(s);
    }
  }

  // Worked examples. Each holds for every input that reads as shown once its spaces are
  // removed, such as "7 / 3" or " 7/ 3".

  /** Decimal division truncates: 7 / 3 is 2. */
  lemma ExampleArabicDivision(s: string)
    requires RemoveSpaces(s) == "7/3"
    ensures Calc(Some(s)) == Success("2")
  {
    assert "7/3" == "7" + ['/'] + "3";
    assert DigitsValue("7") == 7 && DigitsValue("3") == 3;
    assert Arithmetic('/', 7, 3) == 2;
    assert IntToString(2) == "2";
    CalcArabic(s, "7", '/', "3");
  }

  /** Roman division truncates too: VII / III is II. */
  lemma ExampleRomanDivision(s: string)
    requires RemoveSpaces(s) == "VII/III"
    ensures Calc(Some(s)) == Success("II")
  {
    SmallNumerals();
    assert "VII/III" == "VII" + ['/'] + "III";
    RomanExample(s, 7, '/', 3, "VII", "III", 2, "II");
  }

  /** A Roman sum above ten: X + I is XI. */
  lemma ExampleRomanSum(s: string)
    requires RemoveSpaces(s) == "X+I"
    ensures Calc(Some(s)) == Success("XI")
  {
    SmallNumerals();
    TenAndEleven();
    assert "X+I" == "X" + ['+'] + "I";
    RomanExample(s, 10, '+', 1, "X", "I", 11, "XI");
  }

  /** A Roman answer below one is refused: I - II. */
  lemma ExampleRomanBelowOne(s: string)
    requires RemoveSpaces(s) == "I-II"
    ensures Calc(Some(s)) == Failure(ResultOutOfRange)
  {
    SmallNumerals();
    assert "I-II" == "I" + ['-'] + "II";
    RomanExample(s, 1, '-', 2, "I", "II", -1, "");
  }

  /** A Roman operand over a zero divisor is mixed notation: "0" holds no Roman letter, and
      notation is checked before anything is divided. */
  lemma ExampleRomanOverZero(s: string)
    requires RemoveSpaces(s) == "IV/0"
    ensures Calc(Some(s)) == Failure(MixedNotation)
  {
    assert "IV/0" == "IV" + ['/'] + "0";
    assert IsRomanDigit("IV"[0]) && !IsRomanDigit("0"[0]);
    CalcMixed(s, "IV", '/', "0");
  }

  /** `CalcRoman` with the operand texts, the value and its numeral named. */
  lemma RomanExample(s: string, a: int, op: char, b: int, x: string, y: string, v: int, z: string)
    requires 1 <= a <= 10 && 1 <= b <= 10 && IsOperatorChar(op)
    requires x == ToRoman(a) && y == ToRoman(b) && RemoveSpaces(s) == x + [op] + y
    requires Arithmetic(op, a, b) == v && (1 <= v <= 4000 ==> ToRoman(v) == z)
    ensures Calc(Some(s)) == if 1 <= v <= 4000 then Success(z) else Failure(ResultOutOfRange)
  {
    CalcRoman(s, a, op, b);
  }
}
