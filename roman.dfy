/** Roman numerals: the thirteen-symbol enum, the greedy converter to Roman text and the
    ten-entry table that reads Roman operands back. */
module Roman {
  import opened Results
  import opened JavaInt

  // ---------------------------------------------------------------- the symbols

  /** The enum constants, in declaration order; a two-letter constant is one subtractive pair. */
  datatype RomanNumeral = I | IV | V | IX | X | XL | L | XC | C | CD | D | CM | M {
    /** The value the constant stands for; every constant is worth something, so each symbol
        the converter appends lowers what remains. */
    function Value(): (v: nat)
      ensures v >= 1
    {
      match this
      case I => 1
      case IV => 4
      case V => 5
      case IX => 9
      case X => 10
      case XL => 40
      case L => 50
      case XC => 90
      case C => 100
      case CD => 400
      case D => 500
      case CM => 900
      case M => 1000
    }

    /** The enum constant's `name()`, which is the text the converter appends: one letter, or
        a subtractive pair of two. */
    function Name(): (s: string)
      ensures 1 <= |s| <= 2
    {
      match this
      case I => "I"
      case IV => "IV"
      case V => "V"
      case IX => "IX"
      case X => "X"
      case XL => "XL"
      case L => "L"
      case XC => "XC"
      case C => "C"
      case CD => "CD"
      case D => "D"
      case CM => "CM"
      case M => "M"
    }
  }

  /** A two-letter constant is a subtractive pair: its value is its second letter's value less
      its first letter's. */
  lemma SubtractivePair(x: RomanNumeral)
    requires |x.Name()| == 2
    ensures exists a: RomanNumeral, b: RomanNumeral ::
              a.Name() == [x.Name()[0]] && b.Name() == [x.Name()[1]] && x.Value() == b.Value() - a.Value()
  {
    match x
    case IV => assert I.Name() == [x.Name()[0]] && V.Name() == [x.Name()[1]];
    case IX => assert I.Name() == [x.Name()[0]] && X.Name() == [x.Name()[1]];
    case XL => assert X.Name() == [x.Name()[0]] && L.Name() == [x.Name()[1]];
    case XC => assert X.Name() == [x.Name()[0]] && C.Name() == [x.Name()[1]];
    case CD => assert C.Name() == [x.Name()[0]] && D.Name() == [x.Name()[1]];
    case CM => assert C.Name() == [x.Name()[0]] && M.Name() == [x.Name()[1]];
  }

  /** `RomanNumeral.values()`: the constants in declaration order. */
  const Values: seq<RomanNumeral> := [I, IV, V, IX, X, XL, L, XC, C, CD, D, CM, M]

  const Descending: seq<RomanNumeral> := [M, CM, D, CD, C, XC, L, XL, X, IX, V, IV, I]

  /** `getReverseSortedValues`: every constant once (the values strictly decrease, so none
      repeats), largest value first. */
  function ReverseSortedValues(): (r: seq<RomanNumeral>)
    ensures |r| == |Values| && forall x :: x in r <==> x in Values
    ensures forall j, k | 0 <= j < k < |r| :: r[j].Value() > r[k].Value()
  {
    Descending
  }

  // ---------------------------------------------------------------- the greedy converter

  /** The values in a table strictly decrease, as they do in the sorted one. */
  predicate Decreasing(table: seq<RomanNumeral>) {
    forall j, k | 0 <= j < k < |table| :: table[j].Value() > table[k].Value()
  }

  /** What the converter's loop over `table` still emits when `n` remains and it stands at
      position `i`: the current symbol while it fits, otherwise the next one. */
  function Greedy(table: seq<RomanNumeral>, n: int, i: nat): seq<RomanNumeral>
    requires i <= |table|
    decreases |table| - i, n
  {
    if n <= 0 || i == |table| then []
    else if table[i].Value() <= n then [table[i]] + Greedy(table, n - table[i].Value(), i)
    else Greedy(table, n, i + 1)
  }

  /** The text of a sequence of symbols: their names, one after another. */
  function Spell(syms: seq<RomanNumeral>): string {
    if syms == [] then "" else syms[0].Name() + Spell(syms[1..])
  }

  /** The total value of a sequence of symbols. */
  function Sum(syms: seq<RomanNumeral>): int {
    if syms == [] then 0 else syms[0].Value() + Sum(syms[1..])
  }

  predicate NonIncreasing(syms: seq<RomanNumeral>) {
    forall j, k | 0 <= j < k < |syms| :: syms[j].Value() >= syms[k].Value()
  }

  /** The symbols `maybeConvertToRoman(n)` emits; none for n <= 0. */
  function RomanSymbols(n: int): (r: seq<RomanNumeral>)
    ensures n <= 0 ==> r == []
  {
    Greedy(ReverseSortedValues(), n, 0)
  }

  /** The text `maybeConvertToRoman(n)` returns: empty exactly when the loop guard
      `number > 0` fails at once. */
  function ToRoman(n: int): (s: string)
    ensures s == "" <==> n <= 0
  {
    var syms := RomanSymbols(n);
    if n >= 1 then
      RomanSymbolsSumAndOrder(n);
      assert syms != [] && |syms[0].Name()| >= 1;
      Spell(syms)
    else
      Spell(syms)
  }

  /** `maybeConvertToRoman`: walk the sorted table, appending each symbol while its value
      still fits into what remains. */
  method MaybeConvertToRoman(number: int) returns (s: string)
    ensures s == ToRoman(number)
  {
    var romanNumerals := ReverseSortedValues();
    var n := number;
    var i := 0;
    s := "";
    ghost var emitted: seq<RomanNumeral> := [];
    while n > 0 && i < |romanNumerals|
      invariant 0 <= i <= |romanNumerals|
      invariant emitted + Greedy(romanNumerals, n, i) == RomanSymbols(number)
      invariant s == Spell(emitted)
      decreases |romanNumerals| - i, n
    {
      var current := romanNumerals[i];
      if current.Value() <= n {
        SpellAppend(emitted, [current]);
        s := s + current.Name();
        emitted := emitted + [current];
        n := n - current.Value();
      } else {
        i := i + 1;
      }
    }
    assert Greedy(romanNumerals, n, i) == [] && emitted + [] == emitted;
  }

  // ---------------------------------------------------------------- facts about sequences of symbols

  lemma {:induction false} SpellAppend(a: seq<RomanNumeral>, b: seq<RomanNumeral>)
    ensures Spell(a + b) == Spell(a) + Spell(b)
  {
    if a == [] {
      assert a + b == b;
    } else {
      assert (a + b)[1..] == a[1..] + b;
      SpellAppend(a[1..], b);
    }
  }

  lemma SpellCons(x: RomanNumeral, rest: seq<RomanNumeral>)
    ensures Spell([x] + rest) == x.Name() + Spell(rest)
  {
    assert ([x] + rest)[1..] == rest;
  }

  lemma SumCons(x: RomanNumeral, rest: seq<RomanNumeral>)
    ensures Sum([x] + rest) == x.Value() + Sum(rest)
  {
    assert ([x] + rest)[1..] == rest;
  }

  /** The emitted symbols add up to the number converted, as long as a symbol of value one is
      still ahead. */
  lemma {:induction false} GreedySum(table: seq<RomanNumeral>, n: int, i: nat)
    requires i < |table| && table[|table| - 1].Value() == 1
    ensures Sum(Greedy(table, n, i)) == if n <= 0 then 0 else n
    decreases |table| - i, n
  {
    if n > 0 {
      var v := table[i].Value();
      if v <= n {
        GreedySum(table, n - v, i);
        SumCons(table[i], Greedy(table, n - v, i));
      } else {
        GreedySum(table, n, i + 1);
      }
    }
  }

  /** From position i on, the converter emits symbols no larger than the one at i, in
      non-increasing order. */
  lemma {:induction false} GreedyNonIncreasing(table: seq<RomanNumeral>, n: int, i: nat)
    requires i < |table| && Decreasing(table)
    ensures NonIncreasing(Greedy(table, n, i))
    ensures forall k | 0 <= k < |Greedy(table, n, i)| :: Greedy(table, n, i)[k].Value() <= table[i].Value()
    decreases |table| - i, n
  {
    if n > 0 {
      var v := table[i].Value();
      if v <= n {
        GreedyNonIncreasing(table, n - v, i);
      } else if i + 1 < |table| {
        GreedyNonIncreasing(table, n, i + 1);
      }
    }
  }

  /** Sum and order of the whole conversion. */
  lemma RomanSymbolsSumAndOrder(n: int)
    ensures Sum(RomanSymbols(n)) == if n <= 0 then 0 else n
    ensures NonIncreasing(RomanSymbols(n))
  {
    var table := ReverseSortedValues();
    GreedySum(table, n, 0);
    GreedyNonIncreasing(table, n, 0);
  }

  // ---------------------------------------------------------------- the canonical reference

  function Repeat(c: char, k: nat): (s: string)
    ensures |s| == k
  {
    if k == 0 then "" else [c] + Repeat(c, k - 1)
  }

  /** One decimal digit of a numeral, written with the letters for one, five and ten units. */
  function DigitNumeral(d: nat, one: char, five: char, ten: char): string
    requires d < 10
  {
    if d == 9 then [one, ten]
    else if d >= 5 then [five] + Repeat(one, d - 5)
    else if d == 4 then [one, five]
    else Repeat(one, d)
  }

  /** The textbook digit-by-digit Roman numeral: one M per thousand, then the hundreds, tens
      and units digits each written on its own. */
  function CanonicalRoman(n: nat): string {
    Repeat('M', n / 1000)
    + (DigitNumeral(n % 1000 / 100, 'C', 'D', 'M')
       + (DigitNumeral(n % 100 / 10, 'X', 'L', 'C')
          + DigitNumeral(n % 10, 'I', 'V', 'X')))
  }

  /** A symbol that fits is written, and the loop stays on it with `left` remaining. */
  lemma GreedyTake(table: seq<RomanNumeral>, n: int, i: nat, left: int)
    requires i < |table| && 0 < table[i].Value() <= n && left == n - table[i].Value()
    ensures Spell(Greedy(table, n, i)) == table[i].Name() + Spell(Greedy(table, left, i))
  {
    SpellCons(table[i], Greedy(table, left, i));
  }

  /** Positions whose symbols are all larger than what remains are passed over. */
  lemma {:induction false} GreedySkip(table: seq<RomanNumeral>, n: int, i: nat, j: nat)
    requires i <= j <= |table|
    requires forall k | i <= k < j :: n < table[k].Value()
    ensures Greedy(table, n, i) == Greedy(table, n, j)
    decreases j - i
  {
    if i < j {
      GreedySkip(table, n, i + 1, j);
    }
  }

  /** Multiplication distributes over a sum named `total`. */
  lemma Distribute(a: int, b: int, total: int, u: int)
    requires total == a + b
    ensures total * u == a * u + b * u
  {
  }

  /** `c` copies of the symbol at position `at`, then whatever the smaller symbols make of the
      rest. */
  lemma GreedyRepeat(table: seq<RomanNumeral>, c: nat, u: nat, r: int, at: nat, letter: char)
    requires at < |table|
    requires table[at].Value() == u && table[at].Name() == [letter]
    requires 0 <= r < u
    ensures Spell(Greedy(table, c * u + r, at)) == Repeat(letter, c) + Spell(Greedy(table, r, at + 1))
  {
    GreedyRepeatSum(table, c, u, r, at, letter, c * u + r);
  }

  /** `GreedyRepeat` with the product left out: n is c units more than r. */
  lemma {:induction false} GreedyRepeatSum(table: seq<RomanNumeral>, c: nat, u: nat, r: int, at: nat, letter: char, n: int)
    requires at < |table|
    requires table[at].Value() == u && table[at].Name() == [letter]
    requires 0 <= r < u && n - r == c * u
    ensures Spell(Greedy(table, n, at)) == Repeat(letter, c) + Spell(Greedy(table, r, at + 1))
  {
    if c == 0 {
      GreedySkip(table, r, at, at + 1);
      assert Repeat(letter, 0) + Spell(Greedy(table, r, at + 1)) == Spell(Greedy(table, r, at + 1));
    } else {
      Distribute(c - 1, 1, c, u);
      GreedyRepeatSum(table, c - 1, u, r, at, letter, n - u);
      GreedyRepeatStep(table, c, u, r, at, letter, n);
    }
  }

  /** One more unit on top of c - 1 of them is one more letter in front. */
  lemma GreedyRepeatStep(table: seq<RomanNumeral>, c: nat, u: nat, r: int, at: nat, letter: char, n: int)
    requires at < |table| && table[at].Value() == u && table[at].Name() == [letter]
    requires 0 < c && 0 <= r < u && u <= n
    requires Spell(Greedy(table, n - u, at)) == Repeat(letter, c - 1) + Spell(Greedy(table, r, at + 1))
    ensures Spell(Greedy(table, n, at)) == Repeat(letter, c) + Spell(Greedy(table, r, at + 1))
  {
    var rest := Spell(Greedy(table, r, at + 1));
    GreedyTake(table, n, at, n - u);
    var tail := Repeat(letter, c - 1);
    assert Spell(Greedy(table, n, at)) == [letter] + (tail + rest);
    assert [letter] + (tail + rest) == ([letter] + tail) + rest;
  }

  /** Positions p to p + 3 of a table hold nine, five, four and one units of u,
      written with the letters one, five and ten, and p + 4 is below one unit. */
  predicate PlaceAt(table: seq<RomanNumeral>, p: nat, u: nat, one: char, five: char, ten: char) {
    && p + 3 < |table| && 0 < u
    && table[p].Value() == 9 * u && table[p].Name() == [one, ten]
    && table[p + 1].Value() == 5 * u && table[p + 1].Name() == [five]
    && table[p + 2].Value() == 4 * u && table[p + 2].Name() == [one, five]
    && table[p + 3].Value() == u && table[p + 3].Name() == [one]
  }

  /** The sorted table holds the thousands, then the hundreds, tens and units places. */
  lemma SortedTablePlaces()
    ensures ReverseSortedValues()[0] == M
    ensures PlaceAt(ReverseSortedValues(), 1, 100, 'C', 'D', 'M')
    ensures PlaceAt(ReverseSortedValues(), 5, 10, 'X', 'L', 'C')
    ensures PlaceAt(ReverseSortedValues(), 9, 1, 'I', 'V', 'X')
  {
  }

  /** A digit of nine: the nine-units pair, and nothing else on this place. */
  lemma GreedyNine(table: seq<RomanNumeral>, p: nat, u: nat, one: char, five: char, ten: char, r: int, n: int)
    requires PlaceAt(table, p, u, one, five, ten) && 0 <= r < u && n == 9 * u + r
    ensures Spell(Greedy(table, n, p)) == [one, ten] + Spell(Greedy(table, r, p + 4))
  {
    GreedyTake(table, n, p, r);
    GreedySkip(table, r, p, p + 4);
  }

  /** A digit of five to eight: the five, then up to three ones. */
  lemma GreedyFivePlus(table: seq<RomanNumeral>, p: nat, u: nat, one: char, five: char, ten: char, c: nat, r: int, n: int)
    requires PlaceAt(table, p, u, one, five, ten) && c <= 3 && 0 <= r < u
    requires n == 5 * u + (c * u + r)
    ensures Spell(Greedy(table, n, p)) == [five] + Repeat(one, c) + Spell(Greedy(table, r, p + 4))
  {
    var m := c * u + r;
    BelowFourUnits(c, u, r);
    GreedyFive(table, p, u, one, five, ten, m, n);
    GreedyOnes(table, p, u, one, five, ten, c, r, m);
    var tail, rest := Repeat(one, c), Spell(Greedy(table, r, p + 4));
    assert Spell(Greedy(table, n, p)) == [five] + (tail + rest);
    ConcatAssoc([five], tail, rest);
  }

  /** Concatenation regroups freely. */
  lemma ConcatAssoc(a: string, b: string, c: string)
    ensures a + (b + c) == a + b + c
  {
  }

  /** Five units and less than four more: the five, then what the smaller symbols make of
      the rest. */
  lemma GreedyFive(table: seq<RomanNumeral>, p: nat, u: nat, one: char, five: char, ten: char, m: int, n: int)
    requires PlaceAt(table, p, u, one, five, ten) && 0 <= m < 4 * u && n == 5 * u + m
    ensures Spell(Greedy(table, n, p)) == [five] + Spell(Greedy(table, m, p))
  {
    assert Greedy(table, n, p) == Greedy(table, n, p + 1);
    GreedyTake(table, n, p + 1, m);
    assert Greedy(table, m, p) == Greedy(table, m, p + 1);
  }

  /** At most three units and a remainder below one unit stay below four units. */
  lemma BelowFourUnits(c: nat, u: nat, r: int)
    requires c <= 3 && 0 <= r < u
    ensures c * u + r < 4 * u
  {
    if c == 0 {
    } else if c == 1 {
    } else if c == 2 {
    } else {
    }
  }

  /** A digit of four: the four-units pair. */
  lemma GreedyFour(table: seq<RomanNumeral>, p: nat, u: nat, one: char, five: char, ten: char, r: int, n: int)
    requires PlaceAt(table, p, u, one, five, ten) && 0 <= r < u && n == 4 * u + r
    ensures Spell(Greedy(table, n, p)) == [one, five] + Spell(Greedy(table, r, p + 4))
  {
    assert Greedy(table, n, p) == Greedy(table, n, p + 1) == Greedy(table, n, p + 2);
    GreedyTake(table, n, p + 2, r);
    assert Greedy(table, r, p + 2) == Greedy(table, r, p + 3) == Greedy(table, r, p + 4);
  }

  /** A digit of zero to three: that many ones. */
  lemma GreedyOnes(table: seq<RomanNumeral>, p: nat, u: nat, one: char, five: char, ten: char, c: nat, r: int, n: int)
    requires PlaceAt(table, p, u, one, five, ten) && c <= 3 && 0 <= r < u && n == c * u + r
    ensures Spell(Greedy(table, n, p)) == Repeat(one, c) + Spell(Greedy(table, r, p + 4))
  {
    BelowFourUnits(c, u, r);
    GreedySkip(table, n, p, p + 3);
    GreedyRepeatSum(table, c, u, r, p + 3, one, n);
  }

  /** On one decimal place the greedy loop writes exactly the textbook digit. */
  lemma GreedyPlace(table: seq<RomanNumeral>, p: nat, u: nat, one: char, five: char, ten: char, d: nat, r: int)
    requires PlaceAt(table, p, u, one, five, ten) && d < 10 && 0 <= r < u
    ensures Spell(Greedy(table, d * u + r, p))
         == DigitNumeral(d, one, five, ten) + Spell(Greedy(table, r, p + 4))
  {
    var n := d * u + r;
    if d == 9 {
      GreedyNine(table, p, u, one, five, ten, r, n);
      assert DigitNumeral(d, one, five, ten) == [one, ten];
    } else if d >= 5 {
      GreedyFiveToEight(table, p, u, one, five, ten, d, r);
    } else if d == 4 {
      GreedyFour(table, p, u, one, five, ten, r, n);
      assert DigitNumeral(d, one, five, ten) == [one, five];
    } else {
      GreedyOnes(table, p, u, one, five, ten, d, r, n);
      assert DigitNumeral(d, one, five, ten) == Repeat(one, d);
    }
  }

  /** A digit of five to eight on one decimal place. */
  lemma GreedyFiveToEight(table: seq<RomanNumeral>, p: nat, u: nat, one: char, five: char, ten: char, d: nat, r: int)
    requires PlaceAt(table, p, u, one, five, ten) && 5 <= d <= 8 && 0 <= r < u
    ensures Spell(Greedy(table, d * u + r, p))
         == DigitNumeral(d, one, five, ten) + Spell(Greedy(table, r, p + 4))
  {
    var c := d - 5;
    Distribute(5, c, d, u);
    GreedyFivePlus(table, p, u, one, five, ten, c, r, d * u + r);
    assert DigitNumeral(d, one, five, ten) == [five] + Repeat(one, c);
  }

  /** The thousands, hundreds, tens and units of n, as the canonical form reads them. */
  lemma DecimalPlaces(n: nat)
    ensures n == n / 1000 * 1000 + n % 1000
    ensures n % 1000 == n % 1000 / 100 * 100 + n % 100
    ensures n % 100 == n % 100 / 10 * 10 + n % 10
  {
    var r := n % 1000;
    var t := r % 100;
    assert n == 1000 * (n / 1000) + r && 0 <= r < 1000;
    assert r == 100 * (r / 100) + t && 0 <= t < 100;
    assert n == 100 * (n / 100) + n % 100 && 0 <= n % 100 < 100;
    assert 100 * (n / 100 - 10 * (n / 1000) - r / 100) == t - n % 100;
    assert n % 100 == t;
    var u := n % 100 % 10;
    assert n % 100 == 10 * (n % 100 / 10) + u && 0 <= u < 10;
    assert n == 10 * (n / 10) + n % 10 && 0 <= n % 10 < 10;
    assert 10 * (n / 10 - 10 * (n / 100) - n % 100 / 10) == u - n % 10;
  }

  /** The units place, where nothing follows. */
  lemma UnitsPlace(table: seq<RomanNumeral>, units: nat)
    requires PlaceAt(table, 9, 1, 'I', 'V', 'X') && units < 10
    ensures Spell(Greedy(table, units, 9)) == DigitNumeral(units, 'I', 'V', 'X')
  {
    GreedyPlace(table, 9, 1, 'I', 'V', 'X', units, 0);
    assert units * 1 + 0 == units;
    assert Spell(Greedy(table, 0, 13)) == "";
  }

  /** One decimal place in front of the text the smaller places make of the rest. */
  lemma PlaceBefore(table: seq<RomanNumeral>, p: nat, u: nat, one: char, five: char, ten: char, d: nat, r: int, rest: string)
    requires PlaceAt(table, p, u, one, five, ten) && d < 10 && 0 <= r < u
    requires Spell(Greedy(table, r, p + 4)) == rest
    ensures Spell(Greedy(table, d * u + r, p)) == DigitNumeral(d, one, five, ten) + rest
  {
    GreedyPlace(table, p, u, one, five, ten, d, r);
  }

  /** One M per thousand in front of the text of the rest. */
  lemma ThousandsBefore(table: seq<RomanNumeral>, th: nat, r: int, rest: string)
    requires 0 < |table| && table[0] == M && 0 <= r < 1000
    requires Spell(Greedy(table, r, 1)) == rest
    ensures Spell(Greedy(table, th * 1000 + r, 0)) == Repeat('M', th) + rest
  {
    GreedyRepeat(table, th, 1000, r, 0, 'M');
  }

  /** The greedy converter is the textbook digit-by-digit encoding for every n >= 0; below
      4000 that is the canonical numeral, and 4000 itself becomes four M's. The table is
      walked place by place, from the units up. */
  lemma ToRomanIsCanonical(n: nat)
    ensures ToRoman(n) == CanonicalRoman(n)
  {
    var table := ReverseSortedValues();
    SortedTablePlaces();
    DecimalPlaces(n);
    var th, h, te, units := n / 1000, n % 1000 / 100, n % 100 / 10, n % 10;
    var belowHundred := te * 10 + units;
    var belowThousand := h * 100 + belowHundred;
    var onesText := DigitNumeral(units, 'I', 'V', 'X');
    var tensText := DigitNumeral(te, 'X', 'L', 'C') + onesText;
    var hundredsText := DigitNumeral(h, 'C', 'D', 'M') + tensText;
    UnitsPlace(table, units);
    PlaceBefore(table, 5, 10, 'X', 'L', 'C', te, units, onesText);
    PlaceBefore(table, 1, 100, 'C', 'D', 'M', h, belowHundred, tensText);
    ThousandsBefore(table, th, belowThousand, hundredsText);
    assert th * 1000 + belowThousand == n;
  }

  /** Multiples of a thousand are written as that many M's; 4000 becomes "MMMM". */
  lemma ThousandsAreMs(k: nat)
    ensures ToRoman(1000 * k) == Repeat('M', k)
  {
    ToRomanIsCanonical(1000 * k);
    assert DigitNumeral(0, 'I', 'V', 'X') == "";
    assert DigitNumeral(0, 'X', 'L', 'C') == "";
    assert DigitNumeral(0, 'C', 'D', 'M') == "";
  }

  lemma FourThousandIsFourMs()
    ensures ToRoman(4000) == "MMMM"
  {
    ThousandsAreMs(4);
  }

  /** Numerals of the worked examples below ten. */
  lemma SmallNumerals()
    ensures ToRoman(1) == "I" && ToRoman(2) == "II" && ToRoman(3) == "III" && ToRoman(7) == "VII"
  {
    assert ToRoman(1) == "I" by { UnitsNumeral(1); }
    assert ToRoman(2) == "II" by { UnitsNumeral(2); }
    assert ToRoman(3) == "III" by { UnitsNumeral(3); }
    assert ToRoman(7) == "VII" by { UnitsNumeral(7); }
  }

  /** Numerals of the worked examples from ten on. */
  lemma TenAndEleven()
    ensures ToRoman(10) == "X" && ToRoman(11) == "XI"
  {
    assert ToRoman(10) == "X" by { ToRomanIsCanonical(10); }
    assert ToRoman(11) == "XI" by { ToRomanIsCanonical(11); }
  }

  /** Below ten the converter writes the units digit alone. */
  lemma UnitsNumeral(n: nat)
    requires n <= 9
    ensures ToRoman(n) == DigitNumeral(n, 'I', 'V', 'X')
  {
    ToRomanIsCanonical(n);
    assert n / 1000 == 0 && n % 1000 / 100 == 0 && n % 100 / 10 == 0 && n % 10 == n;
    assert DigitNumeral(0, 'C', 'D', 'M') == "" && DigitNumeral(0, 'X', 'L', 'C') == "";
  }

  // ---------------------------------------------------------------- reading operands back

  /** The three letters an operand may use. */
  predicate IsRomanDigit(c: char) {
    c == 'I' || c == 'V' || c == 'X'
  }

  /** `isRoman`: the text holds at least one of I, V, X. */
  predicate HasRomanDigit(s: string) {
    exists i | 0 <= i < |s| :: IsRomanDigit(s[i])
  }

  /** `romanToArabic`: the canonical numerals of one to ten. */
  const RomanToArabic: map<string, int> := map[
    "I" := 1, "II" := 2, "III" := 3, "IV" := 4, "V" := 5,
    "VI" := 6, "VII" := 7, "VIII" := 8, "IX" := 9, "X" := 10]

  /** Each of one to ten is written as its table key. */
  lemma TableEntry(n: int)
    requires 1 <= n <= 10
    ensures ToRoman(n) in RomanToArabic && RomanToArabic[ToRoman(n)] == n
  {
    if n == 10 {
      ToRomanIsCanonical(n);
      assert CanonicalRoman(n) == "X";
    } else {
      UnitsNumeral(n);
      UnitsInTable(n);
    }
  }

  /** The table's keys are the units digits one to nine, and ten. */
  lemma UnitsInTable(n: nat)
    requires 1 <= n <= 9
    ensures DigitNumeral(n, 'I', 'V', 'X') in RomanToArabic
    ensures RomanToArabic[DigitNumeral(n, 'I', 'V', 'X')] == n
  {
    var t := DigitNumeral(n, 'I', 'V', 'X');
    if n == 1 { assert t == "I"; }
    else if n == 2 { assert t == "II"; }
    else if n == 3 { assert t == "III"; }
    else if n == 4 { assert t == "IV"; }
    else if n == 5 { assert t == "V"; }
    else if n == 6 { assert t == "VI"; }
    else if n == 7 { assert t == "VII"; }
    else if n == 8 { assert t == "VIII"; }
    else { assert t == "IX"; }
  }

  /** The table is the greedy converter's inverse on one to ten, in both directions. */
  lemma TableInvertsToRoman()
    ensures forall n | 1 <= n <= 10 :: ToRoman(n) in RomanToArabic && RomanToArabic[ToRoman(n)] == n
    ensures forall s | s in RomanToArabic :: 1 <= RomanToArabic[s] <= 10 && ToRoman(RomanToArabic[s]) == s
  {
    forall n | 1 <= n <= 10
      ensures ToRoman(n) in RomanToArabic && RomanToArabic[ToRoman(n)] == n
    {
      TableEntry(n);
    }
    forall s | s in RomanToArabic
      ensures 1 <= RomanToArabic[s] <= 10 && ToRoman(RomanToArabic[s]) == s
    {
      TableKey(s);
    }
  }

  /** Each key of the table is the numeral of its value. */
  lemma TableKey(s: string)
    requires s in RomanToArabic
    ensures 1 <= RomanToArabic[s] <= 10 && ToRoman(RomanToArabic[s]) == s
  {
    var n := RomanToArabic[s];
    if n == 10 {
      ToRomanIsCanonical(10);
      assert CanonicalRoman(10) == "X";
    } else {
      UnitsNumeral(n);
      KeyIsUnitsDigit(s);
    }
  }

  /** A key below ten is the units digit of its value. */
  lemma KeyIsUnitsDigit(s: string)
    requires s in RomanToArabic && RomanToArabic[s] != 10
    ensures 1 <= RomanToArabic[s] <= 9 && DigitNumeral(RomanToArabic[s], 'I', 'V', 'X') == s
  {
    if s == "I" || s == "II" || s == "III" {
      assert DigitNumeral(|s|, 'I', 'V', 'X') == Repeat('I', |s|);
    } else if s == "VI" || s == "VII" || s == "VIII" {
      assert DigitNumeral(|s| + 4, 'I', 'V', 'X') == ['V'] + Repeat('I', |s| - 1);
    }
  }

  lemma RepeatLetters(c: char, k: nat)
    ensures forall i | 0 <= i < k :: Repeat(c, k)[i] == c
  {
    if k > 0 {
      RepeatLetters(c, k - 1);
      assert forall i | 1 <= i < k :: Repeat(c, k)[i] == Repeat(c, k - 1)[i - 1];
    }
  }

  /** One to ten are written with the letters I, V, X only, and at least one of them. */
  lemma RomanLettersOnly(n: int)
    requires 1 <= n <= 10
    ensures forall i | 0 <= i < |ToRoman(n)| :: IsRomanDigit(ToRoman(n)[i])
    ensures HasRomanDigit(ToRoman(n))
  {
    var t := ToRoman(n);
    if n == 10 {
      ToRomanIsCanonical(n);
      assert t == "X";
    } else {
      UnitsNumeral(n);
      if 5 <= n <= 8 {
        RepeatLetters('I', n - 5);
        assert t == ['V'] + Repeat('I', n - 5);
      } else if n < 4 {
        RepeatLetters('I', n);
      }
    }
    assert IsRomanDigit(t[0]);
  }

  /** Every key of the table holds a Roman letter. */
  lemma TableKeysAreRoman(s: string)
    requires s in RomanToArabic
    ensures HasRomanDigit(s)
  {
    TableInvertsToRoman();
    RomanLettersOnly(RomanToArabic[s]);
  }

  /** `Integer.parseInt` refuses any text holding a Roman letter. */
  lemma RomanLetterDefeatsParseInt(s: string)
    ensures HasRomanDigit(s) ==> ParseInt(s).Failure?
  {
  }

  /** `maybeConvertToArabic`: a table numeral gives its value; any other text goes to
      `Integer.parseInt`, whose failure is the conversion's failure. */
  function MaybeConvertToArabic(s: string): (r: Result<int, Error>)
    ensures r.Failure? ==> r.error == InvalidNumeral
    ensures HasRomanDigit(s) ==> (r.Success? <==> s in RomanToArabic)
    ensures HasRomanDigit(s) && r.Success? ==> 1 <= r.value <= 10 && ToRoman(r.value) == s
    ensures AllDigits(s) ==>
              (r.Success? <==> s != [] && DigitsValue(s) <= MaxInt) &&
              (r.Success? ==> r.value == DigitsValue(s))
  {
    if s in RomanToArabic then
      TableInvertsToRoman();
      TableKeysAreRoman(s);
      assert !AllDigits(s) by {
        var i :| 0 <= i < |s| && IsRomanDigit(s[i]);
        assert !IsDigit(s[i]);
      }
      Success(RomanToArabic[s])
    else
      RomanLetterDefeatsParseInt(s);
      ParseInt(s)
  }
}
