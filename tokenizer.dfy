/** `parseExpression` and `isRoman`: splitting the space-free text into two operand texts and
    a sign, and classifying an operand text as Roman. */
module Tokenizer {
  import opened Results
  import opened JavaInt
  import opened Roman

  /** The unparsed split of one expression. */
  datatype RawExpression = RawExpression(firstNum: string, sign: string, secondNum: string)

  /** The characters an operand may hold: ASCII digits and the letters I, V, X. */
  predicate IsOperandChar(c: char) {
    IsDigit(c) || IsRomanDigit(c)
  }

  /** The four operators `parseExpression` accepts as a sign. */
  predicate IsOperatorChar(c: char) {
    c == '+' || c == '-' || c == '/' || c == '*'
  }

  /** The character classes the tokenizer tells apart do not overlap: an operand character is
      neither an operator nor whitespace, an operator is not whitespace, and a Roman letter is
      not a decimal digit; the space is whitespace. */
  lemma CharClassesDisjoint(c: char)
    ensures IsOperandChar(c) ==> !IsOperatorChar(c) && !IsJavaWhitespace(c)
    ensures IsOperatorChar(c) ==> !IsJavaWhitespace(c)
    ensures IsRomanDigit(c) ==> !IsDigit(c)
    ensures c == ' ' ==> IsJavaWhitespace(c)
  {
  }

  predicate AllOperandChars(s: string) {
    forall i | 0 <= i < |s| :: IsOperandChar(s[i])
  }

  /** A sign text as the tokenizer leaves it: empty, or one operator. */
  predicate IsSign(s: string) {
    s == "" || (|s| == 1 && IsOperatorChar(s[0]))
  }

  /** The texts the tokenizer accepts: operand and operator characters only, and no operator
      after another. */
  predicate Tokenizable(s: string) {
    && (forall i | 0 <= i < |s| :: IsOperandChar(s[i]) || IsOperatorChar(s[i]))
    && (forall i, j | 0 <= i < j < |s| :: !(IsOperatorChar(s[i]) && IsOperatorChar(s[j])))
  }

  /** One pass of the loop body on the character c: an operand character goes to the first
      operand until a sign has been seen and to the second after; an operator becomes the sign
      if there is none yet; anything else is rejected. */
  function Step(raw: RawExpression, c: char): (r: Result<RawExpression, Error>)
    ensures r.Success? ==> || r.value == raw.(firstNum := raw.firstNum + [c])
                           || r.value == raw.(secondNum := raw.secondNum + [c])
                           || r.value == raw.(sign := [c])
    ensures r.Success? && IsOperatorChar(c) ==> IsBlank(raw.sign) && r.value == raw.(sign := [c])
    ensures r.Failure? ==> r.error == MalformedExpression && !IsOperandChar(c)
  {
    if IsOperandChar(c) then
      if IsBlank(raw.sign) then Success(raw.(firstNum := raw.firstNum + [c]))
      else Success(raw.(secondNum := raw.secondNum + [c]))
    else if IsBlank(raw.sign) && IsOperatorChar(c) then
      Success(raw.(sign := [c]))
    else
      Failure(MalformedExpression)
  }

  /** The loop's state once it has read all of s, which is what `parseExpression(s)` returns:
      a split of s (the pieces join back into s, hold only operand characters around a sign
      that is empty or one operator, and with no sign everything is the first operand). */
  function Scan(s: string): (r: Result<RawExpression, Error>)
    ensures r.Success? ==> IsSplit(r.value, s)
    ensures r.Failure? ==> r.error == MalformedExpression
  {
    if s == [] then Success(RawExpression("", "", ""))
    else
      var raw :- Scan(s[..|s| - 1]);
      assert s == s[..|s| - 1] + [s[|s| - 1]];
      StepKeepsSplit(raw, s[..|s| - 1], s[|s| - 1]);
      Step(raw, s[|s| - 1])
  }

  /** The pieces of a text the tokenizer has read so far. */
  predicate IsSplit(raw: RawExpression, s: string) {
    && raw.firstNum + raw.sign + raw.secondNum == s
    && AllOperandChars(raw.firstNum) && AllOperandChars(raw.secondNum) && IsSign(raw.sign)
    && (raw.sign == "" ==> raw.secondNum == "")
  }

  /** One step of the loop keeps the pieces a split of the text read, or fails as malformed. */
  lemma StepKeepsSplit(raw: RawExpression, p: string, c: char)
    requires IsSplit(raw, p)
    ensures Step(raw, c).Success? ==> IsSplit(Step(raw, c).value, p + [c])
    ensures Step(raw, c).Failure? ==> Step(raw, c).error == MalformedExpression
  {
    var a, sign, b := raw.firstNum, raw.sign, raw.secondNum;
    BlankSign(sign);
    if IsOperandChar(c) {
      if sign == "" {
        assert a + [c] + "" + "" == a + [c] && a + "" + "" == a;
        assert AllOperandChars(a + [c]);
      } else {
        assert a + sign + (b + [c]) == a + sign + b + [c];
        assert AllOperandChars(b + [c]);
      }
    } else if sign == "" && IsOperatorChar(c) {
      assert a + "" + "" == a && a + [c] + "" == a + [c];
    }
  }

  /** `parseExpression`: the left-to-right loop over the characters. */
  method ParseExpression(expression: string) returns (r: Result<RawExpression, Error>)
    ensures r == Scan(expression)
  {
    var firstNum, sign, secondNum := "", "", "";
    var i := 0;
    while i < |expression|
      invariant 0 <= i <= |expression|
      invariant Scan(expression[..i]) == Success(RawExpression(firstNum, sign, secondNum))
    {
      var symbol := expression[i];
      ScanExtend(expression, i);
      if IsOperandChar(symbol) {
        if IsBlank(sign) {
          firstNum := firstNum + [symbol];
        } else {
          secondNum := secondNum + [symbol];
        }
      } else if IsBlank(sign) && IsOperatorChar(symbol) {
        sign := [symbol];
      } else {
        ScanFailureSticks(expression, i + 1);
        return Failure(MalformedExpression);
      }
      i := i + 1;
    }
    assert expression[..i] == expression;
    r := Success(RawExpression(firstNum, sign, secondNum));
  }

  /** Reading one more character of s is one more step of the loop. */
  lemma ScanExtend(s: string, i: nat)
    requires i < |s| && Scan(s[..i]).Success?
    ensures Scan(s[..i + 1]) == Step(Scan(s[..i]).value, s[i])
  {
    assert s[..i + 1][..i] == s[..i];
  }

  /** Once a prefix is rejected, so is every longer text. */
  lemma {:induction false} ScanFailureSticks(s: string, k: nat)
    requires k <= |s| && Scan(s[..k]).Failure?
    ensures Scan(s) == Failure(MalformedExpression)
    decreases |s| - k
  {
    if k == |s| {
      assert s[..k] == s;
    } else {
      assert s[..k + 1][..k] == s[..k];
      ScanFailureSticks(s, k + 1);
    }
  }

  /** After a successful scan the sign is empty exactly when the text holds no operator. */
  lemma SignIffOperator(s: string)
    requires Scan(s).Success?
    ensures Scan(s).value.sign == "" <==> forall i | 0 <= i < |s| :: !IsOperatorChar(s[i])
  {
    var raw := Scan(s).value;
    var a, sign, b := raw.firstNum, raw.sign, raw.secondNum;
    assert a + sign + b == s;
    if sign != "" {
      assert IsOperatorChar(sign[0]);
      assert s[|a|] == (a + sign + b)[|a|] == sign[0];
    } else {
      assert b == "";
      assert a + sign + b == a;
      forall i | 0 <= i < |s| ensures !IsOperatorChar(s[i]) {
        assert IsOperandChar(a[i]);
      }
    }
  }

  /** The tokenizer accepts exactly the tokenizable texts. */
  lemma {:induction false} ScanSucceedsIff(s: string)
    ensures Scan(s).Success? <==> Tokenizable(s)
    decreases |s|
  {
    if s != [] {
      var p, c := s[..|s| - 1], s[|s| - 1];
      assert s == p + [c];
      ScanSucceedsIff(p);
      TokenizableSnoc(p, c);
      if Scan(p).Success? {
        StepSucceedsIff(p, c);
      }
    }
  }

  /** After an accepted text, one more character is accepted exactly when it is an operand
      character, or an operator and the text so far holds none. */
  lemma StepSucceedsIff(p: string, c: char)
    requires Scan(p).Success?
    ensures Scan(p + [c]).Success? <==>
              && (IsOperandChar(c) || IsOperatorChar(c))
              && (IsOperatorChar(c) ==> forall i | 0 <= i < |p| :: !IsOperatorChar(p[i]))
  {
    var raw := Scan(p).value;
    assert (p + [c])[..|p|] == p;
    assert Scan(p + [c]) == Step(raw, c);
    SignIffOperator(p);
    BlankSign(raw.sign);
  }

  /** A sign text is blank exactly when it is empty. */
  lemma BlankSign(sign: string)
    requires IsSign(sign)
    ensures IsBlank(sign) <==> sign == ""
  {
    if sign != "" {
      assert !IsJavaWhitespace(sign[0]);
    }
  }

  /** Extending a text by one character keeps it tokenizable exactly when the character is an
      operand or operator character, and an operator comes after none. */
  lemma TokenizableSnoc(p: string, c: char)
    ensures Tokenizable(p + [c]) <==>
              && Tokenizable(p)
              && (IsOperandChar(c) || IsOperatorChar(c))
              && (IsOperatorChar(c) ==> forall i | 0 <= i < |p| :: !IsOperatorChar(p[i]))
  {
    var s := p + [c];
    assert forall i | 0 <= i < |p| :: s[i] == p[i];
    assert s[|p|] == c;
    if Tokenizable(s) && IsOperatorChar(c) {
      assert forall i | 0 <= i < |p| :: !IsOperatorChar(p[i]);
    }
    if Tokenizable(p) && (IsOperandChar(c) || IsOperatorChar(c))
       && (IsOperatorChar(c) ==> forall i | 0 <= i < |p| :: !IsOperatorChar(p[i])) {
      forall i, j | 0 <= i < j < |s| ensures !(IsOperatorChar(s[i]) && IsOperatorChar(s[j])) {
        if j == |p| {
          assert s[i] == p[i];
        } else {
          assert s[i] == p[i] && s[j] == p[j];
        }
      }
    }
  }

  /** A text split around one operator into two operand texts has only that split. */
  lemma SplitUnique(x: string, op: char, y: string, a: string, sign: string, b: string)
    requires AllOperandChars(x) && AllOperandChars(y) && IsOperatorChar(op)
    requires AllOperandChars(a) && AllOperandChars(b) && IsSign(sign)
    requires a + sign + b == x + [op] + y
    ensures a == x && sign == [op] && b == y
  {
    var s := x + [op] + y;
    assert s[|x|] == op;
    if sign == "" {
      assert false;
    } else {
      assert s[|a|] == sign[0];
      assert |a| == |x|;
      assert a == s[..|a|] == x;
      assert b == s[|a| + 1..] == y;
    }
  }

  /** Two operand texts around one operator come back as they were. */
  lemma ScanOfSplit(x: string, op: char, y: string)
    requires AllOperandChars(x) && AllOperandChars(y) && IsOperatorChar(op)
    ensures Scan(x + [op] + y) == Success(RawExpression(x, [op], y))
  {
    var s := x + [op] + y;
    assert Tokenizable(s) by {
      forall i | 0 <= i < |s| ensures IsOperandChar(s[i]) || IsOperatorChar(s[i]) {
        if i < |x| {
          assert s[i] == x[i];
        } else if i > |x| {
          assert s[i] == y[i - |x| - 1];
        }
      }
      forall i, j | 0 <= i < j < |s| ensures !(IsOperatorChar(s[i]) && IsOperatorChar(s[j])) {
        if i < |x| {
          assert s[i] == x[i];
        } else {
          assert s[j] == y[j - |x| - 1];
        }
      }
    }
    ScanSucceedsIff(s);
    var raw := Scan(s).value;
    SplitUnique(x, op, y, raw.firstNum, raw.sign, raw.secondNum);
  }

  /** Operand characters alone come back as the first operand, with no sign. */
  lemma ScanWithoutOperator(x: string)
    requires AllOperandChars(x)
    ensures Scan(x) == Success(RawExpression(x, "", ""))
  {
    assert Tokenizable(x);
    ScanSucceedsIff(x);
    SignIffOperator(x);
    var raw := Scan(x).value;
    assert raw.sign == "" && raw.secondNum == "";
    assert raw.firstNum + "" + "" == raw.firstNum;
  }

  /** `ROMAN_DIGITS`. `Set.of` fixes no iteration order; the answer does not depend on one. */
  const RomanDigits: seq<char> := ['I', 'V', 'X']

  /** `isRoman`: look for each Roman digit in turn and stop at the first one found. */
  method IsRoman(value: string) returns (b: bool)
    ensures b == HasRomanDigit(value)
  {
    var k := 0;
    while k < |RomanDigits|
      invariant 0 <= k <= |RomanDigits|
      invariant forall j | 0 <= j < k :: RomanDigits[j] !in value
    {
      if RomanDigits[k] in value {
        return true;
      }
      k := k + 1;
    }
    assert RomanDigits[0] !in value && RomanDigits[1] !in value && RomanDigits[2] !in value;
    return false;
  }
}
