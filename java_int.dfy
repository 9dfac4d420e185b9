/** The parts of Java's `int`, `Integer.parseInt`, `String.valueOf(int)` and
    `String.isBlank` that the calculator relies on, written out over unbounded integers
    and strings of characters. */
module JavaInt {
  import opened Results

  const MinInt: int := -0x8000_0000
  const MaxInt: int := 0x7FFF_FFFF
  const Modulus: int := 0x1_0000_0000

  predicate InIntRange(x: int) {
    MinInt <= x <= MaxInt
  }

  function Abs(x: int): nat {
    if x < 0 then -x else x
  }

  /** Java's 32-bit two's-complement wrap-around: the unique int congruent to x. */
  function Wrap(x: int): (r: int)
    ensures InIntRange(r)
    ensures (x - r) % Modulus == 0
    ensures InIntRange(x) ==> r == x
  {
    (x - MinInt) % Modulus + MinInt
  }

  /** Java's integer `/`, which truncates toward zero (Dafny's `/` is Euclidean). */
  function TruncDiv(a: int, b: int): (q: int)
    requires b != 0
    ensures Abs(a - q * b) < Abs(b)
    ensures a - q * b == 0 || (a - q * b < 0 <==> a < 0)
    ensures 0 <= a && 0 < b ==> q == a / b
  {
    var t := Abs(a) / Abs(b);
    var q := if (a < 0) == (b < 0) then t else -t;
    TruncDivRemainder(a, b, t, q);
    q
  }

  /** The remainder left by truncating division is the magnitude's remainder, carrying the
      dividend's sign. */
  lemma TruncDivRemainder(a: int, b: int, t: int, q: int)
    requires b != 0 && t == Abs(a) / Abs(b)
    requires q == if (a < 0) == (b < 0) then t else -t
    ensures a - q * b == if a < 0 then -(Abs(a) % Abs(b)) else Abs(a) % Abs(b)
  {
    var A: int, B: int := Abs(a), Abs(b);
    var m := A % B;
    assert A == t * B + m;
    assert a == if a < 0 then -A else A;
    assert b == if b < 0 then -B else B;
    assert t * -B == -(t * B);
    if a < 0 && b < 0 {
      assert q * b == -(t * B);
    } else if a < 0 {
      assert q * b == -(t * B);
    } else if b < 0 {
      assert q * b == t * B;
    } else {
      assert q * b == t * B;
    }
  }

  // ---------------------------------------------------------------- decimal digits

  predicate IsDigit(c: char) {
    '0' <= c <= '9'
  }

  predicate AllDigits(s: string) {
    forall i | 0 <= i < |s| :: IsDigit(s[i])
  }

  function DigitValue(c: char): nat
    requires IsDigit(c)
  {
    c as int - '0' as int
  }

  function DigitChar(d: nat): (c: char)
    requires d < 10
    ensures IsDigit(c) && DigitValue(c) == d
  {
    ('0' as int + d) as char
  }

  /** The value of a string of decimal digits, most significant digit first. */
  function DigitsValue(s: string): nat
    requires AllDigits(s)
  {
    if s == [] then 0 else 10 * DigitsValue(s[..|s| - 1]) + DigitValue(s[|s| - 1])
  }

  /** The decimal text of a natural number, without leading zeros. */
  function NatToString(n: nat): (s: string)
    ensures |s| > 0 && AllDigits(s)
    ensures DigitsValue(s) == n
    ensures s[0] == '0' ==> s == "0"
  {
    if n < 10 then [DigitChar(n)]
    else
      var prefix := NatToString(n / 10);
      var s := prefix + [DigitChar(n % 10)];
      assert s[..|s| - 1] == prefix;
      s
  }

  /** `String.valueOf(int)`: a minus sign for negative values, then the decimal digits. */
  function IntToString(n: int): (s: string)
    ensures |s| > 0 && (s[0] == '-' <==> n < 0)
    ensures n >= 0 ==> AllDigits(s) && DigitsValue(s) == n
    ensures n < 0 ==> |s| >= 2 && AllDigits(s[1..]) && DigitsValue(s[1..]) == -n
    ensures n >= 0 ==> (s[0] == '0' ==> s == "0")
    ensures n < 0 ==> s[1] != '0'
  {
    if n < 0 then "-" + NatToString(-n) else NatToString(n)
  }

  /** `Integer.parseInt(s)` in radix 10: an optional sign, at least one digit, and a value
      that fits in an int; anything else is a NumberFormatException. */
  function ParseInt(s: string): (r: Result<int, Error>)
    ensures r.Success? ==> InIntRange(r.value)
    ensures r.Failure? ==> r.error == InvalidNumeral
    ensures AllDigits(s) ==>
              (r.Success? <==> s != [] && DigitsValue(s) <= MaxInt) &&
              (r.Success? ==> r.value == DigitsValue(s))
    ensures r.Success? ==> s != [] && (s[0] == '-' || s[0] == '+' || IsDigit(s[0])) && AllDigits(s[1..])
  {
    if s == [] then Failure(InvalidNumeral)
    else
      var signed := s[0] == '-' || s[0] == '+';
      var digits := if signed then s[1..] else s;
      if digits == [] || !AllDigits(digits) then Failure(InvalidNumeral)
      else
        var v: int := if s[0] == '-' then -(DigitsValue(digits) as int) else DigitsValue(digits);
        if InIntRange(v) then Success(v) else Failure(InvalidNumeral)
  }

  /** Every int survives a trip through its decimal text. */
  lemma ParseIntOfIntToString(n: int)
    requires InIntRange(n)
    ensures ParseInt(IntToString(n)) == Success(n)
  {
    var s := IntToString(n);
    if n < 0 {
      assert s[0] == '-' && !IsDigit(s[0]);
    }
  }

  // ---------------------------------------------------------------- blank strings

  /** `Character.isWhitespace`: the ASCII controls it names and the Unicode space, line and
      paragraph separators other than the non-breaking spaces. */
  predicate IsJavaWhitespace(c: char) {
    var k := c as int;
    (9 <= k <= 13) || (28 <= k <= 32) || k == 0x1680 ||
    (0x2000 <= k <= 0x2006) || (0x2008 <= k <= 0x200A) ||
    k == 0x2028 || k == 0x2029 || k == 0x205F || k == 0x3000
  }

  /** `String.isBlank`: empty or whitespace only; a blank text holds no digit. */
  predicate IsBlank(s: string) {
    forall i | 0 <= i < |s| :: IsJavaWhitespace(s[i])
  }
}
