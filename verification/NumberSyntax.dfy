/** The number literals the parser accepts, written out independently of how it reads
    them, and what each of them denotes: nothing else is accepted. */
module NumberSyntax {
  import opened Basics
  import opened Text
  import opened Numbers
  import opened NumberText
  import opened NumberParse

  // ---- Literals and their texts ----

  datatype WrittenExponent = WrittenExponent(mark: char, sign: string, digits: string)

  /** A literal without its sign. */
  datatype Literal =
    | Ratio(above: string, below: string)
    | Hexadecimal(mark: char, digits: string)
    | Binary(mark: char, digits: string)
    | Decimal(whole: string, fraction: Option<string>, exponent: Option<WrittenExponent>)

  function MantissaText(whole: string, fraction: Option<string>): string {
    match fraction
    case None => whole
    case Some(digits) => whole + "." + digits
  }

  function LiteralText(literal: Literal): string {
    match literal
    case Ratio(above, below) => above + "/" + below
    case Hexadecimal(mark, digits) => ['0', mark] + digits
    case Binary(mark, digits) => ['0', mark] + digits
    case Decimal(whole, fraction, None) => MantissaText(whole, fraction)
    case Decimal(whole, fraction, Some(e)) => MantissaText(whole, fraction) + [e.mark] + (e.sign + e.digits)
  }

  // ---- Which literals are allowed, and what they denote ----

  predicate IsSign(sign: string) {
    sign == "" || sign == "-" || sign == "_"
  }

  predicate IsWhole(text: string) {
    WellGrouped(text, IsDecimal)
  }

  /** The integer that grouped decimal digits denote. */
  function Whole(text: string): int {
    Positional(DigitsOf(text, IsDecimal), 10)
  }

  function Places(fraction: Option<string>): nat {
    match fraction
    case None => 0
    case Some(digits) => |DigitsOf(digits, IsDecimal)|
  }

  /** The mantissa without its point. */
  function Unpointed(whole: string, fraction: Option<string>): int {
    match fraction
    case None => Whole(whole)
    case Some(digits) => Whole(whole) * Pow10(Places(fraction)) + Whole(digits)
  }

  predicate MantissaAllowed(whole: string, fraction: Option<string>) {
    IsWhole(whole) && (fraction.Some? ==> IsWhole(fraction.value) && Places(fraction) <= MAX_U32)
  }

  predicate ExponentAllowed(e: WrittenExponent) {
    (e.mark == 'e' || e.mark == 'E') && IsSign(e.sign) && IsWhole(e.digits) && 0 <= Whole(e.digits) <= 100_000
  }

  predicate Allowed(literal: Literal) {
    match literal
    case Ratio(above, below) => IsWhole(above) && IsWhole(below) && Whole(below) > 0
    case Hexadecimal(mark, digits) => (mark == 'x' || mark == 'X') && WellGrouped(digits, IsHex)
    case Binary(mark, digits) => (mark == 'b' || mark == 'B') && WellGrouped(digits, IsBinary)
    case Decimal(whole, fraction, exponent) =>
      MantissaAllowed(whole, fraction) && (exponent.Some? ==> ExponentAllowed(exponent.value))
  }

  /** A literal denotes one integer over another. */
  function Top(literal: Literal): int
    requires Allowed(literal)
  {
    match literal
    case Ratio(above, _) => Whole(above)
    case Hexadecimal(_, digits) => Positional(DigitsOf(digits, IsHex), 16)
    case Binary(_, digits) => Positional(DigitsOf(digits, IsBinary), 2)
    case Decimal(whole, fraction, exponent) =>
      if exponent.Some? && exponent.value.sign == ""
      then Unpointed(whole, fraction) * Pow10(Whole(exponent.value.digits)) else Unpointed(whole, fraction)
  }

  function Bottom(literal: Literal): (d: int)
    requires Allowed(literal)
    ensures d > 0
  {
    match literal
    case Ratio(_, below) => Whole(below)
    case Hexadecimal(_, _) => 1
    case Binary(_, _) => 1
    case Decimal(whole, fraction, exponent) =>
      var d := Pow10(Places(fraction));
      if exponent.Some? && exponent.value.sign != "" then Scaled(d, Pow10(Whole(exponent.value.digits))) else d
  }

  function Scaled(d: int, p: int): (q: int)
    requires d > 0 && p > 0
    ensures q == d * p && q > 0
  {
    d * p
  }

  ghost predicate Spells(text: string, sign: string, literal: Literal) {
    IsSign(sign) && Allowed(literal) && text == sign + LiteralText(literal)
  }

  // ---- Every spelling is accepted and denotes its value ----

  lemma WholeRead(text: string)
    requires IsWhole(text)
    ensures Clean(text, IsDecimal) == Ok(DigitsOf(text, IsDecimal))
    ensures Grouped(text, 10, IsDecimal) == Ok(Whole(text)) && Whole(text) >= 0
    ensures Lacks(text, 'e') && Lacks(text, 'E') && Lacks(text, '.') && Lacks(text, '/')
    ensures text[0] != '-' && text[0] != '_'
  {
    CleanExact(text, IsDecimal);
    LacksMarks(text);
    DigitsAreDigits(text);
    PositionalIsNatural(DigitsOf(text, IsDecimal));
  }

  lemma RatioRead(above: string, below: string)
    requires IsWhole(above) && IsWhole(below) && Whole(below) > 0
    ensures var text := above + "/" + below;
            && !Repeats(text, '/') && ParseUnsigned(text) == Ok(Reduce(Whole(above), Whole(below)))
            && text != [] && IsDecimal(text[0])
  {
    WholeRead(above);
    WholeRead(below);
    SplitAt(above, '/', below);
  }

  lemma PointRead(whole: string, digits: string)
    requires IsWhole(whole) && IsWhole(digits) && |DigitsOf(digits, IsDecimal)| <= MAX_U32
    ensures var k := |DigitsOf(digits, IsDecimal)|;
            ParseMantissa(whole + "." + digits) == Ok(Mantissa(Whole(whole) * Pow10(k) + Whole(digits), k))
  {
    WholeRead(whole);
    WholeRead(digits);
    SplitAt(whole, '.', digits);
    DigitsAreDigits(digits);
    PositionalJoin(DigitsOf(whole, IsDecimal), DigitsOf(digits, IsDecimal));
  }

  lemma MantissaRead(whole: string, fraction: Option<string>)
    requires MantissaAllowed(whole, fraction)
    ensures ParseMantissa(MantissaText(whole, fraction)) == Ok(Mantissa(Unpointed(whole, fraction), Places(fraction)))
  {
    if fraction.None? {
      WholeRead(whole);
      SplitAt(whole, '.', "");
    } else {
      PointRead(whole, fraction.value);
    }
  }

  /** The scalars of a mantissa: no mark of another part, and no prefix at its start. */
  lemma MantissaScalars(whole: string, fraction: Option<string>)
    requires MantissaAllowed(whole, fraction)
    ensures var text := MantissaText(whole, fraction);
            && text != [] && IsDecimal(text[0]) && Lacks(text, 'e') && Lacks(text, 'E') && Lacks(text, '/')
            && forall i :: 0 <= i < |text| ==> IsDecimal(text[i]) || text[i] == '_' || text[i] == '.'
  {
    WholeRead(whole);
    if fraction.Some? {
      WholeRead(fraction.value);
    }
  }

  lemma ExponentRead(e: WrittenExponent)
    requires ExponentAllowed(e)
    ensures ParseExponent(e.sign + e.digits) == Ok(Exponent(e.sign != "", Whole(e.digits)))
    ensures Lacks(e.sign + e.digits, '/')
  {
    WholeRead(e.digits);
    var text := e.sign + e.digits;
    if e.sign == "" {
      assert text == e.digits;
    } else {
      assert text[1..] == e.digits && text[0] == e.sign[0];
    }
    ExponentExact(text);
  }

  lemma UnmarkedRead(whole: string, fraction: Option<string>)
    requires MantissaAllowed(whole, fraction)
    ensures ParseDecimal(MantissaText(whole, fraction)) ==
            Ok(Exact(Mantissa(Unpointed(whole, fraction), Places(fraction)), Exponent(false, 0)))
  {
    var text := MantissaText(whole, fraction);
    MantissaRead(whole, fraction);
    MantissaScalars(whole, fraction);
    FirstOfUnique(text, 'e', "");
    FirstOfUnique(text, 'E', "");
    DecimalRefines(text);
  }

  lemma MarkedRead(whole: string, fraction: Option<string>, e: WrittenExponent)
    requires MantissaAllowed(whole, fraction) && ExponentAllowed(e)
    ensures ParseDecimal(MantissaText(whole, fraction) + [e.mark] + (e.sign + e.digits)) ==
            Ok(Exact(Mantissa(Unpointed(whole, fraction), Places(fraction)), Exponent(e.sign != "", Whole(e.digits))))
  {
    MantissaRead(whole, fraction);
    MantissaScalars(whole, fraction);
    ExponentRead(e);
    MarkedMeaning(MantissaText(whole, fraction), e.mark, e.sign + e.digits,
                  Mantissa(Unpointed(whole, fraction), Places(fraction)), Exponent(e.sign != "", Whole(e.digits)));
  }

  lemma UnprefixedText(front: string, tail: string)
    requires front != [] && (forall i :: 0 <= i < |front| ==> IsDecimal(front[i]) || front[i] == '_' || front[i] == '.')
    requires IsDecimal(front[0]) && (tail == [] || tail[0] == 'e' || tail[0] == 'E')
    ensures var text := front + tail;
            && text != [] && IsDecimal(text[0])
            && !HasPrefix(text, 'x', 'X') && !HasPrefix(text, 'b', 'B')
  {
    var text := front + tail;
    if |text| > 1 {
      assert text[1] == if |front| > 1 then front[1] else tail[0];
    }
  }

  lemma UnbrokenText(text: string)
    requires Lacks(text, '/')
    ensures !Repeats(text, '/') && SplitOnce(text, '/') == None
  {
    FirstOfUnique(text, '/', "");
  }

  function ExponentText(exponent: Option<WrittenExponent>): string {
    match exponent
    case None => ""
    case Some(e) => [e.mark] + (e.sign + e.digits)
  }

  lemma DecimalText(literal: Literal)
    requires literal.Decimal?
    ensures LiteralText(literal) == MantissaText(literal.whole, literal.fraction) + ExponentText(literal.exponent)
  {
  }

  /** A decimal literal is taken for neither a ratio nor a prefixed integer. */
  lemma DecimalScalars(literal: Literal)
    requires literal.Decimal? && Allowed(literal)
    ensures var text := LiteralText(literal);
            && text != [] && IsDecimal(text[0]) && !Repeats(text, '/') && SplitOnce(text, '/') == None
            && !HasPrefix(text, 'x', 'X') && !HasPrefix(text, 'b', 'B')
  {
    var front, tail := MantissaText(literal.whole, literal.fraction), ExponentText(literal.exponent);
    DecimalText(literal);
    MantissaScalars(literal.whole, literal.fraction);
    if literal.exponent.Some? {
      ExponentRead(literal.exponent.value);
    }
    UnprefixedText(front, tail);
    UnbrokenText(front + tail);
  }

  lemma DecimalRead(literal: Literal)
    requires literal.Decimal? && Allowed(literal)
    ensures ParseUnsigned(LiteralText(literal)) == Ok(Reduce(Top(literal), Bottom(literal)))
  {
    DecimalScalars(literal);
    if literal.exponent.None? {
      UnmarkedRead(literal.whole, literal.fraction);
      assert Pow10(0) == 1;
    } else {
      MarkedRead(literal.whole, literal.fraction, literal.exponent.value);
    }
  }

  lemma PrefixedRead(mark: char, digits: string, radix: int, isDigit: DigitTest, text: string)
    requires WellGrouped(digits, isDigit) && !isDigit('_') && Lacks(digits, '/') && text == ['0', mark] + digits
    requires || ((mark == 'x' || mark == 'X') && radix == 16 && isDigit == IsHex)
             || ((mark == 'b' || mark == 'B') && radix == 2 && isDigit == IsBinary)
    ensures ParseUnsigned(text) == Ok(Reduce(Positional(DigitsOf(digits, isDigit), radix), 1))
    ensures text != [] && IsDecimal(text[0]) && !Repeats(text, '/')
  {
    CleanExact(digits, isDigit);
    PrefixedText(mark, digits);
    IntegerIsReduced(Positional(DigitsOf(digits, isDigit), radix));
  }

  lemma LiteralRead(literal: Literal)
    requires Allowed(literal)
    ensures var text := LiteralText(literal);
            && text != [] && IsDecimal(text[0]) && !Repeats(text, '/')
            && ParseUnsigned(text) == Ok(Reduce(Top(literal), Bottom(literal)))
  {
    match literal
    case Ratio(above, below) => RatioRead(above, below);
    case Hexadecimal(mark, digits) => PrefixedRead(mark, digits, 16, IsHex, LiteralText(literal));
    case Binary(mark, digits) => PrefixedRead(mark, digits, 2, IsBinary, LiteralText(literal));
    case Decimal(_, _, _) =>
      DecimalRead(literal);
      DecimalScalars(literal);
  }

  lemma NegatedReduce(n: int, d: int)
    requires d > 0
    ensures Negated(Reduce(n, d)) == Reduce(-n, d)
  {
    ReduceValue(n, d);
    ReduceValue(-n, d);
    NegatedRatio(n, d);
    ValueDecides(Negated(Reduce(n, d)), Reduce(-n, d));
  }

  lemma SignRead(sign: string, magnitude: string, n: int, d: int)
    requires IsSign(sign) && magnitude != [] && IsDecimal(magnitude[0]) && !Repeats(magnitude, '/')
    requires d > 0 && ParseUnsigned(magnitude) == Ok(Reduce(n, d))
    ensures Parse(sign + magnitude) == Ok(Reduce(if sign == "" then n else -n, d))
  {
    ParseWithSign(magnitude, Reduce(n, d));
    NegatedReduce(n, d);
    assert "" + magnitude == magnitude;
  }

  /** Every allowed literal is accepted as the integer over the integer that it denotes;
      either sign mark negates it. */
  lemma LiteralMeaning(text: string, sign: string, literal: Literal, n: int, d: int)
    requires Spells(text, sign, literal) && n == Top(literal) && d == Bottom(literal)
    ensures Parse(text) == Ok(Reduce(if sign == "" then n else -n, d))
  {
    LiteralRead(literal);
    SignRead(sign, LiteralText(literal), n, d);
  }

  lemma PointLiteral(whole: string, fraction: string) returns (literal: Literal)
    requires IsWhole(whole) && IsWhole(fraction) && |DigitsOf(fraction, IsDecimal)| <= MAX_U32
    ensures Allowed(literal) && LiteralText(literal) == whole + "." + fraction
    ensures var p := Pow10(|DigitsOf(fraction, IsDecimal)|);
            Bottom(literal) == p && Top(literal) == Whole(whole) * p + Whole(fraction)
  {
    literal := Decimal(whole, Some(fraction), None);
  }

  /** A point alone: `W.F` is (W·10^k + F) / 10^k, where k is the number of fraction
      digits, and either sign mark negates it. */
  lemma PointMeaning(whole: string, fraction: string, n: int, p: int)
    requires IsWhole(whole) && IsWhole(fraction) && |DigitsOf(fraction, IsDecimal)| <= MAX_U32
    requires p == Pow10(|DigitsOf(fraction, IsDecimal)|) && n == Whole(whole) * p + Whole(fraction)
    ensures var text := whole + "." + fraction;
            && Parse(text) == Ok(Reduce(n, p)) && Value(Reduce(n, p)) == n as real / p as real
            && Parse("-" + text) == Parse("_" + text) == Ok(Negated(Reduce(n, p)))
  {
    var literal := PointLiteral(whole, fraction);
    LiteralRead(literal);
    ParseWithSign(LiteralText(literal), Reduce(n, p));
    ReduceValue(n, p);
  }

  // ---- Nothing else is accepted ----

  lemma WholeSpelled(text: string)
    requires Clean(text, IsDecimal).Ok?
    ensures IsWhole(text) && Clean(text, IsDecimal).value == DigitsOf(text, IsDecimal) && Whole(text) >= 0
  {
    CleanExact(text, IsDecimal);
    WholeRead(text);
  }

  lemma SplitSpelled(text: string, c: char)
    requires SplitOnce(text, c).Some?
    ensures text == SplitOnce(text, c).value.0 + [c] + SplitOnce(text, c).value.1
  {
  }

  lemma MantissaSpelled(text: string) returns (whole: string, fraction: Option<string>)
    requires ParseMantissa(text).Ok?
    ensures MantissaAllowed(whole, fraction) && text == MantissaText(whole, fraction)
  {
    var split := SplitOnce(text, '.');
    if split.None? {
      whole, fraction := text, None;
      WholeSpelled(text);
    } else {
      whole, fraction := split.value.0, Some(split.value.1);
      SplitSpelled(text, '.');
      WholeSpelled(split.value.0);
      WholeSpelled(split.value.1);
    }
  }

  lemma ExponentSpelled(text: string, mark: char) returns (e: WrittenExponent)
    requires ParseExponent(text).Ok? && (mark == 'e' || mark == 'E')
    ensures ExponentAllowed(e) && e.mark == mark && text == e.sign + e.digits
  {
    ExponentExact(text);
    WholeSpelled(Unsigned(text));
    e := WrittenExponent(mark, if Signed(text) then [text[0]] else "", Unsigned(text));
  }

  lemma DecimalSpelled(text: string) returns (literal: Literal)
    requires ParseDecimal(text).Ok?
    ensures Allowed(literal) && text == LiteralText(literal)
  {
    DecimalRefines(text);
    var split := SplitExponent(text);
    if split.None? {
      var whole, fraction := MantissaSpelled(text);
      literal := Decimal(whole, fraction, None);
    } else {
      var (front, back) := split.value;
      var mark := text[|front|];
      assert text == front + [mark] + back;
      var whole, fraction := MantissaSpelled(front);
      var e := ExponentSpelled(back, mark);
      literal := Decimal(whole, fraction, Some(e));
    }
  }

  lemma UnsignedSpelled(text: string) returns (literal: Literal)
    requires ParseUnsigned(text).Ok?
    ensures Allowed(literal) && text == LiteralText(literal)
  {
    var split := SplitOnce(text, '/');
    if split.Some? {
      var (above, below) := split.value;
      SplitSpelled(text, '/');
      WholeSpelled(above);
      WholeSpelled(below);
      literal := Ratio(above, below);
    } else if HasPrefix(text, 'x', 'X') {
      CleanExact(text[2..], IsHex);
      literal := Hexadecimal(text[1], text[2..]);
    } else if HasPrefix(text, 'b', 'B') {
      CleanExact(text[2..], IsBinary);
      literal := Binary(text[1], text[2..]);
    } else {
      literal := DecimalSpelled(text);
    }
  }

  /** A text is accepted exactly when it spells a literal. */
  lemma AcceptsExactlyLiterals(text: string)
    ensures Parse(text).Ok? <==> exists sign, literal :: Spells(text, sign, literal)
  {
    if Parse(text).Ok? {
      var literal := UnsignedSpelled(Unsigned(text));
      var sign := if Signed(text) then [text[0]] else "";
      assert text == sign + Unsigned(text);
      assert Spells(text, sign, literal);
    }
    if sign, literal :| Spells(text, sign, literal) {
      LiteralMeaning(text, sign, literal, Top(literal), Bottom(literal));
    }
  }

  // ---- Printed numbers ----

  /** Decimal digits without a leading zero. */
  predicate Shortest(text: string) {
    text != [] && AllDecimal(text) && (text[0] == '0' ==> |text| == 1)
  }

  lemma {:induction false} ShortestIsPositive(text: string)
    requires AllDecimal(text) && text != [] && text[0] != '0'
    ensures Positional(text, 10) >= 1
  {
    if |text| > 1 {
      ShortestIsPositive(text[..|text| - 1]);
    } else {
      assert text[..0] == [];
    }
  }

  /** A number is printed with the one such text that denotes it. */
  lemma {:induction false} NatTextExact(n: nat, text: string)
    requires Shortest(text) && Positional(text, 10) == n
    ensures NatText(n) == text
  {
    var init, last := text[..|text| - 1], text[|text| - 1];
    var q, r := Positional(init, 10), DigitValue(last);
    assert n == q * 10 + r && 0 <= r < 10 && DigitChar(r) == last;
    if |text| == 1 {
      assert init == [] && text == [last];
    } else {
      ShortestIsPositive(init);
      assert n / 10 == q && n % 10 == r;
      NatTextExact(q, init);
      assert text == init + [last];
    }
  }

  /** A number is printed as its numerator in lowest terms, with a minus sign if it is
      negative, and over its denominator unless that is one; no digit is superfluous. */
  lemma DisplayExact(x: Number, above: string, below: string)
    requires Shortest(above) && Positional(above, 10) == Abs(x.numerator)
    requires Shortest(below) && Positional(below, 10) == x.denominator
    ensures Display(x) == (if x.numerator < 0 then "-" else "") + above +
                          (if x.denominator == 1 then "" else "/" + below)
  {
    NatTextExact(Abs(x.numerator), above);
    NatTextExact(x.denominator, below);
    Printed(above, below);
  }

  lemma Printed(above: string, below: string)
    ensures "" + above + "" == above && "-" + above + "" == "-" + above
    ensures "" + above + ("/" + below) == above + "/" + below
    ensures "-" + above + ("/" + below) == "-" + above + "/" + below
  {
  }

  /** Such texts exist for every number. */
  lemma {:induction false} NatTextIsShortest(n: nat)
    ensures Shortest(NatText(n)) && Positional(NatText(n), 10) == n
  {
    NatTextReads(n);
    if n >= 10 {
      NatTextIsShortest(n / 10);
    }
  }
}
