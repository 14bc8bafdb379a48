/** Digits of number literals: grouping, positional values, the machine-word fast
    path and printing. */
module NumberText {
  import opened Arithmetic
  import opened Basics
  import opened Numbers

  type DigitTest = char -> bool

  predicate IsDecimal(c: char) {
    '0' <= c <= '9'
  }

  predicate IsBinary(c: char) {
    c == '0' || c == '1'
  }

  predicate IsHex(c: char) {
    IsDecimal(c) || 'a' <= c <= 'f' || 'A' <= c <= 'F'
  }

  function DigitValue(c: char): int {
    if IsDecimal(c) then c as int - '0' as int
    else if 'a' <= c <= 'f' then c as int - 'a' as int + 10
    else c as int - 'A' as int + 10
  }

  /** The integer a digit text denotes in a radix, most significant digit first. */
  function Positional(digits: string, radix: int): int {
    if digits == [] then 0
    else Positional(digits[..|digits| - 1], radix) * radix + DigitValue(digits[|digits| - 1])
  }

  datatype ParseError =
    | MissingDigits
    | SlashChain
    | ZeroDenominator
    | SeparatorPlacement
    | InvalidDigit(digit: char)
    | ExponentOverflow
    | ExponentBeyondLimit
    | TooManyFractionDigits

  // ---- Grouped digits ----

  /** Drops separators, given whether a digit was seen and whether one just passed. */
  function CleanFrom(text: string, sawDigit: bool, afterUnderscore: bool, isDigit: DigitTest)
    : Result<string, ParseError>
  {
    if text == [] then if afterUnderscore then Err(SeparatorPlacement) else Ok("")
    else if isDigit(text[0]) then Prepend([text[0]], CleanFrom(text[1..], true, false, isDigit))
    else if text[0] != '_' then Err(InvalidDigit(text[0]))
    else if !sawDigit || afterUnderscore then Err(SeparatorPlacement)
    else CleanFrom(text[1..], sawDigit, true, isDigit)
  }

  function Clean(text: string, isDigit: DigitTest): Result<string, ParseError> {
    if text == [] then Err(MissingDigits) else CleanFrom(text, false, false, isDigit)
  }

  function DigitsOf(text: string, isDigit: DigitTest): string {
    if text == [] then ""
    else if isDigit(text[0]) then [text[0]] + DigitsOf(text[1..], isDigit)
    else DigitsOf(text[1..], isDigit)
  }

  /** Digits with single underscores strictly between them. */
  predicate WellGrouped(text: string, isDigit: DigitTest) {
    && text != [] && isDigit(text[0]) && isDigit(text[|text| - 1])
    && SingleSeparators(text, isDigit)
  }

  predicate SingleSeparators(text: string, isDigit: DigitTest) {
    && (forall i :: 0 <= i < |text| ==> isDigit(text[i]) || text[i] == '_')
    && (forall i, j :: 0 <= i < j == i + 1 < |text| ==> isDigit(text[i]) || isDigit(text[j]))
  }

  lemma SingleSeparatorsTail(text: string, isDigit: DigitTest)
    requires text != []
    ensures SingleSeparators(text, isDigit) <==>
            && SingleSeparators(text[1..], isDigit) && (isDigit(text[0]) || text[0] == '_')
            && (|text| > 1 ==> isDigit(text[0]) || isDigit(text[1]))
  {
    var rest := text[1..];
    assert forall i :: 0 <= i < |rest| ==> rest[i] == text[i + 1];
    if SingleSeparators(rest, isDigit) && (isDigit(text[0]) || text[0] == '_')
       && (|text| > 1 ==> isDigit(text[0]) || isDigit(text[1])) {
      forall i | 0 <= i < |text|
        ensures isDigit(text[i]) || text[i] == '_'
      {
        assert i > 0 ==> text[i] == rest[i - 1];
      }
      forall i, j | 0 <= i < j == i + 1 < |text|
        ensures isDigit(text[i]) || isDigit(text[j])
      {
        assert i > 0 ==> text[i] == rest[i - 1] && text[j] == rest[j - 1];
      }
    }
  }

  lemma {:induction false} CleanFromExact(text: string, sawDigit: bool, afterUnderscore: bool, isDigit: DigitTest)
    requires !isDigit('_')
    ensures CleanFrom(text, sawDigit, afterUnderscore, isDigit).Ok? <==>
            && SingleSeparators(text, isDigit)
            && (if text == [] then !afterUnderscore
                else isDigit(text[|text| - 1]) && (isDigit(text[0]) || (sawDigit && !afterUnderscore)))
    ensures CleanFrom(text, sawDigit, afterUnderscore, isDigit).Ok? ==>
            CleanFrom(text, sawDigit, afterUnderscore, isDigit).value == DigitsOf(text, isDigit)
  {
    if text != [] {
      SingleSeparatorsTail(text, isDigit);
      if isDigit(text[0]) {
        CleanFromExact(text[1..], true, false, isDigit);
      } else {
        CleanFromExact(text[1..], sawDigit, true, isDigit);
      }
    }
  }

  /** Grouped digits are accepted exactly when every underscore stands alone between
      two digits, and underscores never change the digits. */
  lemma CleanExact(text: string, isDigit: DigitTest)
    requires !isDigit('_')
    ensures Clean(text, isDigit).Ok? <==> WellGrouped(text, isDigit)
    ensures Clean(text, isDigit).Ok? ==> Clean(text, isDigit).value == DigitsOf(text, isDigit)
  {
    CleanFromExact(text, false, false, isDigit);
  }

  method CleanGroupedDigits(text: string, isDigit: DigitTest) returns (r: Result<string, ParseError>)
    ensures r == Clean(text, isDigit)
  {
    if text == [] {
      return Err(MissingDigits);
    }
    var cleaned := "";
    var previousWasUnderscore, sawDigit := false, false;
    PrependTwice("", "", CleanFrom(text, false, false, isDigit));
    assert text[0..] == text;
    for i := 0 to |text|
      invariant Clean(text, isDigit) ==
                Prepend(cleaned, CleanFrom(text[i..], sawDigit, previousWasUnderscore, isDigit))
    {
      assert text[i..][0] == text[i] && text[i..][1..] == text[i + 1..];
      if isDigit(text[i]) {
        PrependTwice(cleaned, [text[i]], CleanFrom(text[i + 1..], true, false, isDigit));
        cleaned := cleaned + [text[i]];
        previousWasUnderscore, sawDigit := false, true;
      } else if text[i] == '_' {
        if !sawDigit || previousWasUnderscore {
          return Err(SeparatorPlacement);
        }
        previousWasUnderscore := true;
      } else {
        return Err(InvalidDigit(text[i]));
      }
    }
    assert text[|text|..] == [];
    if previousWasUnderscore {
      return Err(SeparatorPlacement);
    }
    assert cleaned + "" == cleaned;
    r := Ok(cleaned);
  }

  // ---- The machine-word fast path ----

  newtype int64 = x: int | -0x8000_0000_0000_0000 <= x < 0x8000_0000_0000_0000

  function Pow10(k: nat): (p: int)
    ensures p > 0
  {
    if k == 0 then 1 else 10 * Pow10(k - 1)
  }

  /** The value of plain grouped decimal digits that fit a machine word. */
  function MachineWord(text: string): Option<int> {
    var digits := DigitsOf(text, IsDecimal);
    if WellGrouped(text, IsDecimal) && |digits| <= 18 then Some(Positional(digits, 10)) else None
  }

  lemma {:induction false} DigitsSplit(a: string, b: string, isDigit: DigitTest)
    ensures DigitsOf(a + b, isDigit) == DigitsOf(a, isDigit) + DigitsOf(b, isDigit)
  {
    if a == [] {
      assert a + b == b;
    } else {
      DigitsSplit(a[1..], b, isDigit);
      assert (a + b)[1..] == a[1..] + b;
      Associative([a[0]], DigitsOf(a[1..], isDigit), DigitsOf(b, isDigit));
    }
  }

  lemma DigitsPush(text: string, i: nat, isDigit: DigitTest)
    requires i < |text|
    ensures DigitsOf(text[..i + 1], isDigit) ==
            DigitsOf(text[..i], isDigit) + if isDigit(text[i]) then [text[i]] else []
    ensures |DigitsOf(text[..i + 1], isDigit)| <= |DigitsOf(text, isDigit)|
  {
    assert text[..i + 1] == text[..i] + [text[i]];
    DigitsSplit(text[..i], [text[i]], isDigit);
    assert text == text[..i + 1] + text[i + 1..];
    DigitsSplit(text[..i + 1], text[i + 1..], isDigit);
  }

  lemma PositionalPush(digits: string, c: char, radix: int)
    ensures Positional(digits + [c], radix) == Positional(digits, radix) * radix + DigitValue(c)
  {
    assert (digits + [c])[..|digits|] == digits;
  }

  lemma {:induction false} Pow10Monotone(a: nat, b: nat)
    requires a <= b
    ensures Pow10(a) <= Pow10(b)
    decreases b
  {
    if a < b {
      Pow10Monotone(a, b - 1);
    }
  }

  lemma EighteenDigitsFit(digits: nat, value: int)
    requires digits <= 18 && 0 <= value < Pow10(digits)
    ensures value < 0x8000_0000_0000_0000
  {
    Pow10Monotone(digits, 18);
    assert Pow10(6) == 1_000_000 by {
      assert Pow10(2) == 100 && Pow10(4) == 10_000;
    }
    assert Pow10(12) == 1_000_000_000_000 by {
      assert Pow10(8) == 100_000_000 && Pow10(10) == 10_000_000_000;
    }
    assert Pow10(14) == 100_000_000_000_000 && Pow10(16) == 10_000_000_000_000_000;
  }

  /** What the scan knows after `i` scalars. */
  ghost predicate Scanned(text: string, i: nat, value: int, digits: int, afterDigit: bool) {
    && i <= |text|
    && (afterDigit <==> i > 0 && IsDecimal(text[i - 1]))
    && (i > 0 ==> IsDecimal(text[0]))
    && SingleSeparators(text[..i], IsDecimal)
    && digits == |DigitsOf(text[..i], IsDecimal)|
    && digits <= 18
    && value == Positional(DigitsOf(text[..i], IsDecimal), 10)
    && 0 <= value < Pow10(digits)
  }

  lemma SeparatorsPush(text: string, i: nat)
    requires i < |text| && SingleSeparators(text[..i], IsDecimal)
    requires IsDecimal(text[i]) || (text[i] == '_' && i > 0 && IsDecimal(text[i - 1]))
    ensures SingleSeparators(text[..i + 1], IsDecimal)
  {
    assert forall j :: 0 <= j < i ==> text[..i][j] == text[j];
  }

  lemma ScanDigit(text: string, i: nat, value: int, digits: int, afterDigit: bool)
    requires Scanned(text, i, value, digits, afterDigit) && i < |text| && IsDecimal(text[i])
    ensures digits + 1 <= |DigitsOf(text, IsDecimal)|
    ensures digits < 18 ==>
              var next := value * 10 + DigitValue(text[i]);
              next < 0x8000_0000_0000_0000 && Scanned(text, i + 1, next, digits + 1, true)
  {
    DigitsPush(text, i, IsDecimal);
    if digits < 18 {
      SeparatorsPush(text, i);
      PositionalPush(DigitsOf(text[..i], IsDecimal), text[i], 10);
      EighteenDigitsFit(digits + 1, value * 10 + DigitValue(text[i]));
    }
  }

  lemma ScanUnderscore(text: string, i: nat, value: int, digits: int)
    requires Scanned(text, i, value, digits, true) && i < |text| && text[i] == '_'
    ensures Scanned(text, i + 1, value, digits, false)
  {
    DigitsPush(text, i, IsDecimal);
    SeparatorsPush(text, i);
    assert DigitsOf(text[..i], IsDecimal) + [] == DigitsOf(text[..i], IsDecimal);
  }

  lemma ScanStops(text: string, i: nat, value: int, digits: int, afterDigit: bool)
    requires Scanned(text, i, value, digits, afterDigit) && i < |text|
    requires !IsDecimal(text[i]) && !(text[i] == '_' && afterDigit)
    ensures !WellGrouped(text, IsDecimal)
  {
  }

  /** Answers in 64-bit arithmetic, never overflowing, exactly on the texts whose
      value it can hold in eighteen digits. */
  method MachineWordInteger(text: string) returns (r: Option<int64>)
    ensures r.Some? <==> MachineWord(text).Some?
    ensures r.Some? ==> MachineWord(text) == Some(r.value as int)
  {
    var value: int64 := 0;
    var digits := 0;
    var afterDigit := false;
    for i := 0 to |text|
      invariant Scanned(text, i, value as int, digits, afterDigit)
    {
      if IsDecimal(text[i]) {
        ScanDigit(text, i, value as int, digits, afterDigit);
        digits := digits + 1;
        if digits > 18 {
          return None;
        }
        value := value * 10 + (text[i] as int - '0' as int) as int64;
        afterDigit := true;
      } else if text[i] == '_' && afterDigit {
        ScanUnderscore(text, i, value as int, digits);
        afterDigit := false;
      } else {
        ScanStops(text, i, value as int, digits, afterDigit);
        return None;
      }
    }
    assert text[..|text|] == text;
    r := if afterDigit then Some(value) else None;
  }

  // ---- Printing ----

  function DigitChar(n: int): char
    requires 0 <= n < 16
  {
    if n < 10 then ('0' as int + n) as char else ('a' as int + n - 10) as char
  }

  /** A natural number in a radix, without leading zeros. */
  function RadixText(n: nat, radix: nat): (text: string)
    requires 2 <= radix <= 16
    ensures text != []
  {
    if n < radix then [DigitChar(n)] else RadixText(n / radix, radix) + [DigitChar(n % radix)]
  }

  function NatText(n: nat): string {
    RadixText(n, 10)
  }

  function IntText(n: int): string {
    if n < 0 then "-" + NatText(-n) else NatText(n)
  }

  function Display(x: Number): string {
    if x.denominator == 1 then IntText(x.numerator)
    else IntText(x.numerator) + "/" + NatText(x.denominator)
  }

  predicate AllDecimal(text: string) {
    AllDigits(text, IsDecimal)
  }

  predicate AllDigits(text: string, isDigit: DigitTest) {
    forall i :: 0 <= i < |text| ==> isDigit(text[i])
  }

  /** Printed digits read back as the number, in every radix whose digits the test accepts. */
  lemma {:induction false} RadixTextReads(n: nat, radix: nat, isDigit: DigitTest)
    requires 2 <= radix <= 16
    requires forall k: nat :: k < radix ==> isDigit(DigitChar(k))
    ensures AllDigits(RadixText(n, radix), isDigit) && Positional(RadixText(n, radix), radix) == n
  {
    if n < radix {
      PositionalPush("", DigitChar(n), radix);
      assert "" + RadixText(n, radix) == RadixText(n, radix);
      DigitCharValue(n);
    } else {
      var q, r := n / radix, n % radix;
      DivMod(n, radix);
      RadixTextReads(q, radix, isDigit);
      PositionalPush(RadixText(q, radix), DigitChar(r), radix);
      DigitCharValue(r);
      AllDigitsPush(RadixText(q, radix), DigitChar(r), isDigit);
    }
  }

  lemma AllDigitsPush(text: string, c: char, isDigit: DigitTest)
    requires AllDigits(text, isDigit) && isDigit(c)
    ensures AllDigits(text + [c], isDigit)
  {
  }

  lemma DigitCharValue(n: nat)
    requires n < 16
    ensures DigitValue(DigitChar(n)) == n
  {
  }

  /** The digits of every radix, in both cases: sixteen values and no other scalar. */
  lemma HexDigitValues(n: nat)
    requires n < 16
    ensures DigitValue("0123456789abcdef"[n]) == n == DigitValue("0123456789ABCDEF"[n])
    ensures forall c :: IsHex(c) <==> c in "0123456789abcdef" || c in "0123456789ABCDEF"
    ensures forall c :: IsDecimal(c) <==> c in "0123456789"
    ensures forall c :: IsBinary(c) <==> c in "01"
  {
    forall c | IsHex(c)
      ensures c in "0123456789abcdef" || c in "0123456789ABCDEF"
    {
      var k := DigitValue(c);
      assert c == "0123456789abcdef"[k] || c == "0123456789ABCDEF"[k];
    }
    forall c | IsDecimal(c)
      ensures c in "0123456789"
    {
      assert c == "0123456789"[DigitValue(c)];
    }
  }

  lemma NatTextReads(n: nat)
    ensures AllDecimal(NatText(n)) && Positional(NatText(n), 10) == n
  {
    RadixTextReads(n, 10, IsDecimal);
  }

  lemma {:induction false} PlainDigits(text: string, isDigit: DigitTest)
    requires AllDigits(text, isDigit)
    ensures DigitsOf(text, isDigit) == text
    ensures SingleSeparators(text, isDigit)
  {
    if text != [] {
      PlainDigits(text[1..], isDigit);
      assert [text[0]] + text[1..] == text;
    }
  }

  /** Appending digits shifts the value by their number of places. */
  lemma {:induction false} PositionalJoin(a: string, b: string)
    ensures Positional(a + b, 10) == Positional(a, 10) * Pow10(|b|) + Positional(b, 10)
  {
    if b == [] {
      assert a + b == a;
    } else {
      var init, last := b[..|b| - 1], b[|b| - 1];
      PositionalJoin(a, init);
      PositionalPush(a + init, last, 10);
      PositionalPush(init, last, 10);
      assert b == init + [last];
      Associative(a, init, [last]);
      ShiftOnce(Positional(a, 10), Pow10(|init|), Positional(init, 10));
    }
  }

  lemma ShiftOnce(x: int, p: int, y: int)
    ensures (x * p + y) * 10 == x * (10 * p) + y * 10
  {
  }
}
