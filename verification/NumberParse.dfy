/** Number literals: the source's parse with its two fast paths, the general parse
    it refines, and reading back what was printed. */
module NumberParse {
  import opened Basics
  import opened Text
  import opened Numbers
  import opened NumberText

  const MAX_DECIMAL_EXPONENT := 100_000
  const MAX_U32 := 0xFFFF_FFFF

  // ---- Splitting ----

  /** Two pieces around the only occurrence; absent when there are none or several. */
  function SplitOnce(text: string, needle: char): Option<(string, string)> {
    var k := FirstOf(text, needle);
    if k == |text| || !Lacks(text[k + 1..], needle) then None
    else Some((text[..k], text[k + 1..]))
  }

  /** The position of the first exponent mark of either case, or the length. */
  function ExponentMark(text: string): (k: nat)
    ensures k <= |text|
  {
    Min(FirstOf(text, 'e'), FirstOf(text, 'E'))
  }

  /** Two pieces around the exponent mark. */
  function SplitExponent(text: string): Option<(string, string)> {
    var k := ExponentMark(text);
    if k == |text| then None else Some((text[..k], text[k + 1..]))
  }

  function Min(a: nat, b: nat): nat {
    if a < b then a else b
  }

  predicate Repeats(text: string, needle: char) {
    var k := FirstOf(text, needle);
    k < |text| && !Lacks(text[k + 1..], needle)
  }

  predicate Signed(text: string) {
    text != [] && (text[0] == '_' || text[0] == '-')
  }

  function Unsigned(text: string): string {
    if Signed(text) then text[1..] else text
  }

  predicate HasPrefix(text: string, lower: char, upper: char) {
    |text| >= 2 && text[0] == '0' && (text[1] == lower || text[1] == upper)
  }

  // ---- Parsing ----

  function Grouped(text: string, radix: int, isDigit: DigitTest): Result<int, ParseError> {
    match Clean(text, isDigit)
    case Err(e) => Err(e)
    case Ok(digits) => Ok(Positional(digits, radix))
  }

  datatype Exponent = Exponent(negative: bool, magnitude: int)

  function ParseExponent(text: string): Result<Exponent, ParseError> {
    match Grouped(Unsigned(text), 10, IsDecimal)
    case Err(e) => Err(e)
    case Ok(magnitude) =>
      if magnitude > MAX_U32 then Err(ExponentOverflow)
      else if magnitude > MAX_DECIMAL_EXPONENT then Err(ExponentBeyondLimit)
      else Ok(Exponent(Signed(text), magnitude))
  }

  /** An integer over a power of ten. */
  datatype Mantissa = Mantissa(numerator: int, scale: nat)

  function ParseMantissa(text: string): Result<Mantissa, ParseError> {
    match SplitOnce(text, '.')
    case None =>
      (match Grouped(text, 10, IsDecimal)
       case Err(e) => Err(e)
       case Ok(numerator) => Ok(Mantissa(numerator, 0)))
    case Some((whole, fractional)) =>
      match Clean(whole, IsDecimal)
      case Err(e) => Err(e)
      case Ok(before) =>
        match Clean(fractional, IsDecimal)
        case Err(e) => Err(e)
        case Ok(after) =>
          if |after| > MAX_U32 then Err(TooManyFractionDigits)
          else Ok(Mantissa(Positional(before + after, 10), |after|))
  }

  function ParseParts(text: string): Result<(Mantissa, Exponent), ParseError> {
    match SplitExponent(text)
    case None =>
      (match ParseMantissa(text)
       case Err(e) => Err(e)
       case Ok(mantissa) => Ok((mantissa, Exponent(false, 0))))
    case Some((front, back)) =>
      match ParseExponent(back)
      case Err(e) => Err(e)
      case Ok(exponent) =>
        match ParseMantissa(front)
        case Err(e) => Err(e)
        case Ok(mantissa) => Ok((mantissa, exponent))
  }

  lemma ExponentIsNatural(text: string)
    ensures ParseExponent(text).Ok? ==> 0 <= ParseExponent(text).value.magnitude <= MAX_DECIMAL_EXPONENT
  {
    var rest := Unsigned(text);
    if Clean(rest, IsDecimal).Ok? {
      CleanExact(rest, IsDecimal);
      DigitsAreDigits(rest);
      PositionalIsNatural(DigitsOf(rest, IsDecimal));
    }
  }

  lemma {:induction false} DigitsAreDigits(text: string)
    ensures AllDecimal(DigitsOf(text, IsDecimal))
  {
    if text != [] {
      DigitsAreDigits(text[1..]);
    }
  }

  lemma {:induction false} PositionalIsNatural(digits: string)
    requires AllDecimal(digits)
    ensures Positional(digits, 10) >= 0
  {
    if digits != [] {
      PositionalIsNatural(digits[..|digits| - 1]);
    }
  }

  lemma PartsAreNatural(text: string)
    ensures ParseParts(text).Ok? ==> 0 <= ParseParts(text).value.1.magnitude <= MAX_DECIMAL_EXPONENT
  {
    var split := SplitExponent(text);
    if split.Some? {
      ExponentIsNatural(split.value.1);
    }
  }

  /** Builds the number, multiplying integers only where no reduction can be needed. */
  function FromParts(mantissa: Mantissa, exponent: Exponent): Number
    requires exponent.magnitude >= 0
  {
    var n, d, p := mantissa.numerator, Pow10(mantissa.scale), Pow10(exponent.magnitude);
    if mantissa.scale == 0 && (exponent.magnitude == 0 || !exponent.negative) then
      FromInteger(if exponent.magnitude == 0 then n else n * p)
    else if exponent.magnitude == 0 then Reduce(n, d)
    else if exponent.negative then CheckedDiv(Reduce(n, d), FromInteger(p)).value
    else Mul(Reduce(n, d), FromInteger(p))
  }

  /** The parse the interpreter runs: a machine-word attempt, then the parts. */
  function ParseDecimal(text: string): Result<Number, ParseError> {
    PartsAreNatural(text);
    match MachineWord(text)
    case Some(value) => Ok(FromInteger(value))
    case None =>
      match ParseParts(text)
      case Err(e) => Err(e)
      case Ok((mantissa, exponent)) => Ok(FromParts(mantissa, exponent))
  }

  /** One ratio: the mantissa's digits times or over powers of ten. */
  function Exact(mantissa: Mantissa, exponent: Exponent): Number
    requires exponent.magnitude >= 0
  {
    var d, p := Pow10(mantissa.scale), Pow10(exponent.magnitude);
    if exponent.negative then Reduce(mantissa.numerator, d * p) else Reduce(mantissa.numerator * p, d)
  }

  /** The parse without either fast path. */
  function GeneralDecimal(text: string): Result<Number, ParseError> {
    PartsAreNatural(text);
    match ParseParts(text)
    case Err(e) => Err(e)
    case Ok((mantissa, exponent)) => Ok(Exact(mantissa, exponent))
  }

  function ParseUnsigned(text: string): Result<Number, ParseError> {
    match SplitOnce(text, '/')
    case Some((above, below)) =>
      (match Grouped(above, 10, IsDecimal)
       case Err(e) => Err(e)
       case Ok(numerator) =>
         match Grouped(below, 10, IsDecimal)
         case Err(e) => Err(e)
         case Ok(denominator) =>
           if denominator == 0 then Err(ZeroDenominator) else Ok(Reduce(numerator, denominator)))
    case None =>
      if HasPrefix(text, 'x', 'X') then Integer(Grouped(text[2..], 16, IsHex))
      else if HasPrefix(text, 'b', 'B') then Integer(Grouped(text[2..], 2, IsBinary))
      else ParseDecimal(text)
  }

  function Integer(r: Result<int, ParseError>): Result<Number, ParseError> {
    match r
    case Err(e) => Err(e)
    case Ok(n) => Ok(FromInteger(n))
  }

  function Parse(text: string): Result<Number, ParseError> {
    var rest := Unsigned(text);
    if rest == [] then Err(MissingDigits)
    else if Repeats(rest, '/') then Err(SlashChain)
    else
      match ParseUnsigned(rest)
      case Err(e) => Err(e)
      case Ok(number) => Ok(if Signed(text) then Negated(number) else number)
  }

  // ---- The fast paths refine the general parse ----

  lemma ReduceCross(n: int, d: int)
    requires d > 0
    ensures Reduce(n, d).numerator * d == n * Reduce(n, d).denominator
  {
    var p, q, g := LowestParts(n, d);
    Regroup(p, q, g);
  }

  lemma IntegerIsReduced(n: int)
    ensures Reduce(n, 1) == FromInteger(n)
  {
    NumberIsReduced(FromInteger(n));
  }

  lemma ProductOfRatio(n: int, d: int, p: int)
    requires d > 0 && p > 0
    ensures Mul(Reduce(n, d), FromInteger(p)) == Reduce(n * p, d)
  {
    var r := Reduce(n, d);
    ReduceCross(n, d);
    Exchange(r.numerator, d, n, r.denominator, p);
    RatioDecides(r.numerator * p, r.denominator * 1, n * p, d);
  }

  lemma QuotientOfRatio(n: int, d: int, p: int)
    requires d > 0 && p > 0
    ensures d * p > 0 && CheckedDiv(Reduce(n, d), FromInteger(p)) == Some(Reduce(n, d * p))
  {
    var r := Reduce(n, d);
    ReduceCross(n, d);
    assert d * p > 0 && r.denominator * p > 0;
    Exchange(r.numerator, d, n, r.denominator, p);
    RatioDecides(r.numerator * 1, r.denominator * p, n, d * p);
  }

  lemma Exchange(a: int, d: int, n: int, b: int, p: int)
    requires a * d == n * b
    ensures (a * p) * d == (n * p) * (b * 1)
    ensures (a * 1) * (d * p) == n * (b * p)
  {
    assert (a * p) * d == (a * d) * p && (n * p) * b == (n * b) * p;
    assert a * (d * p) == (a * d) * p && n * (b * p) == (n * b) * p;
  }

  /** The integer shortcut and the stepwise rational arithmetic give the exact ratio. */
  lemma FromPartsExact(mantissa: Mantissa, exponent: Exponent)
    requires exponent.magnitude >= 0
    ensures FromParts(mantissa, exponent) == Exact(mantissa, exponent)
  {
    var n, d, p := mantissa.numerator, Pow10(mantissa.scale), Pow10(exponent.magnitude);
    if mantissa.scale == 0 && (exponent.magnitude == 0 || !exponent.negative) {
      IntegerIsReduced(n * p);
      IntegerIsReduced(n);
    } else if exponent.magnitude != 0 {
      ProductOfRatio(n, d, p);
      QuotientOfRatio(n, d, p);
    }
  }

  lemma PlainParts(text: string)
    requires WellGrouped(text, IsDecimal)
    ensures ParseParts(text) == Ok((Mantissa(Positional(DigitsOf(text, IsDecimal), 10), 0), Exponent(false, 0)))
  {
    CleanExact(text, IsDecimal);
    LacksMarks(text);
    FirstOfUnique(text, 'e', "");
    FirstOfUnique(text, 'E', "");
    FirstOfUnique(text, '.', "");
  }

  lemma LacksMarks(text: string)
    requires SingleSeparators(text, IsDecimal)
    ensures Lacks(text, 'e') && Lacks(text, 'E') && Lacks(text, '.') && Lacks(text, '/')
  {
  }

  /** Both fast paths are invisible: for every text the parse equals the general one,
      errors included. */
  lemma DecimalRefines(text: string)
    ensures ParseDecimal(text) == GeneralDecimal(text)
  {
    PartsAreNatural(text);
    if MachineWord(text).Some? {
      PlainParts(text);
      IntegerIsReduced(MachineWord(text).value);
    } else if ParseParts(text).Ok? {
      FromPartsExact(ParseParts(text).value.0, ParseParts(text).value.1);
    }
  }

  // ---- Reading back printed numbers ----

  lemma ParsePlain(text: string)
    requires AllDecimal(text) && text != []
    ensures Grouped(text, 10, IsDecimal) == Ok(Positional(text, 10))
    ensures ParseDecimal(text) == Ok(FromInteger(Positional(text, 10)))
    ensures Lacks(text, '/') && !HasPrefix(text, 'x', 'X') && !HasPrefix(text, 'b', 'B')
  {
    PlainDigits(text, IsDecimal);
    CleanExact(text, IsDecimal);
    LacksMarks(text);
    PlainParts(text);
    DecimalRefines(text);
    IntegerIsReduced(Positional(text, 10));
  }

  lemma SplitAt(above: string, c: char, below: string)
    requires Lacks(above, c) && Lacks(below, c)
    ensures SplitOnce(above + [c] + below, c) == Some((above, below))
    ensures !Repeats(above + [c] + below, c)
    ensures SplitOnce(above, c) == None && !Repeats(above, c)
  {
    FirstOfUnique(above, c, below);
    var text := above + [c] + below;
    assert text[..|above|] == above && text[|above| + 1..] == below;
  }

  lemma ParsePrintedMagnitude(n: nat, d: nat)
    requires d > 0 && Gcd(n, d) == 1
    ensures var text := if d == 1 then NatText(n) else NatText(n) + "/" + NatText(d);
            text != [] && !Repeats(text, '/') && ParseUnsigned(text) == Ok(Fraction(n, d))
            && IsDecimal(text[0])
  {
    NatTextReads(n);
    NatTextReads(d);
    ParsePlain(NatText(n));
    ParsePlain(NatText(d));
    SplitAt(NatText(n), '/', NatText(d));
    NumberIsReduced(Fraction(n, d));
  }

  /** Either sign mark negates what follows it. */
  lemma ParseWithSign(magnitude: string, number: Number)
    requires magnitude != [] && IsDecimal(magnitude[0]) && !Repeats(magnitude, '/')
    requires ParseUnsigned(magnitude) == Ok(number)
    ensures Parse(magnitude) == Ok(number)
    ensures Parse("-" + magnitude) == Ok(Negated(number)) == Parse("_" + magnitude)
  {
    assert Unsigned("-" + magnitude) == magnitude == Unsigned("_" + magnitude);
  }

  lemma DisplayParts(x: Number, n: nat, d: nat, magnitude: string)
    requires n == Abs(x.numerator) && d == x.denominator
    requires magnitude == if d == 1 then NatText(n) else NatText(n) + "/" + NatText(d)
    ensures Display(x) == if x.numerator < 0 then "-" + magnitude else magnitude
  {
    if x.numerator < 0 && d != 1 {
      assert "-" + NatText(n) + "/" + NatText(d) == "-" + (NatText(n) + "/" + NatText(d));
    }
  }

  /** Every number is read back from its printed text. */
  lemma ParseDisplay(x: Number)
    ensures Parse(Display(x)) == Ok(x)
  {
    var n, d := Abs(x.numerator), x.denominator;
    var magnitude := if d == 1 then NatText(n) else NatText(n) + "/" + NatText(d);
    ParsePrintedMagnitude(n, d);
    ParseWithSign(magnitude, Fraction(n, d));
    DisplayParts(x, n, d, magnitude);
  }

  // ---- What literals mean ----

  lemma GroupedDigits(text: string, radix: int, isDigit: DigitTest)
    requires text != [] && AllDigits(text, isDigit) && !isDigit('_')
    ensures Clean(text, isDigit) == Ok(text)
    ensures Grouped(text, radix, isDigit) == Ok(Positional(text, radix))
  {
    PlainDigits(text, isDigit);
    CleanExact(text, isDigit);
  }

  /** What follows a radix prefix is accepted exactly when it is well grouped, and then
      denotes its digits, whatever their case and however many zeros lead. */
  lemma HexReads(text: string, mark: char)
    requires (mark == 'x' || mark == 'X') && Lacks(text, '/')
    ensures Parse(['0', mark] + text).Ok? <==> WellGrouped(text, IsHex)
    ensures WellGrouped(text, IsHex) ==>
              Parse(['0', mark] + text) == Ok(FromInteger(Positional(DigitsOf(text, IsHex), 16)))
  {
    CleanExact(text, IsHex);
    PrefixedText(mark, text);
  }

  lemma BinaryReads(text: string, mark: char)
    requires (mark == 'b' || mark == 'B') && Lacks(text, '/')
    ensures Parse(['0', mark] + text).Ok? <==> WellGrouped(text, IsBinary)
    ensures WellGrouped(text, IsBinary) ==>
              Parse(['0', mark] + text) == Ok(FromInteger(Positional(DigitsOf(text, IsBinary), 2)))
  {
    CleanExact(text, IsBinary);
    PrefixedText(mark, text);
  }

  lemma PrefixedText(mark: char, rest: string)
    requires mark != '/' && Lacks(rest, '/')
    ensures var text := ['0', mark] + rest;
            && text[2..] == rest && text[0] == '0' && text[1] == mark
            && SplitOnce(text, '/') == None && !Repeats(text, '/')
  {
    var text := ['0', mark] + rest;
    assert Lacks(text, '/');
    FirstOfUnique(text, '/', "");
  }

  lemma PrintedText(n: nat, radix: nat, isDigit: DigitTest)
    requires 2 <= radix <= 16 && !isDigit('/')
    requires forall k: nat :: k < radix ==> isDigit(DigitChar(k))
    ensures var text := RadixText(n, radix);
            && Lacks(text, '/') && WellGrouped(text, isDigit)
            && Positional(DigitsOf(text, isDigit), radix) == n
  {
    var text := RadixText(n, radix);
    RadixTextReads(n, radix, isDigit);
    PlainDigits(text, isDigit);
  }

  /** A number printed in hexadecimal or binary is read back behind the prefix. */
  lemma PrefixedReadsBack(n: nat)
    ensures Parse(['0', 'x'] + RadixText(n, 16)) == Ok(FromInteger(n))
    ensures Parse(['0', 'b'] + RadixText(n, 2)) == Ok(FromInteger(n))
  {
    PrintedText(n, 16, IsHex);
    PrintedText(n, 2, IsBinary);
    HexReads(RadixText(n, 16), 'x');
    BinaryReads(RadixText(n, 2), 'b');
  }

  /** An exponent is accepted exactly when its digits are well grouped and do not
      exceed the limit, and is then read with its sign. */
  lemma ExponentExact(text: string)
    ensures ParseExponent(text).Ok? <==>
            && WellGrouped(Unsigned(text), IsDecimal)
            && Positional(DigitsOf(Unsigned(text), IsDecimal), 10) <= MAX_DECIMAL_EXPONENT
    ensures ParseExponent(text).Ok? ==>
            ParseExponent(text).value ==
            Exponent(Signed(text), Positional(DigitsOf(Unsigned(text), IsDecimal), 10))
  {
    CleanExact(Unsigned(text), IsDecimal);
  }

  lemma PointParts(whole: string, fraction: string)
    requires whole != [] && AllDecimal(whole) && fraction != [] && AllDecimal(fraction) && |fraction| <= MAX_U32
    ensures ParseMantissa(whole + "." + fraction) ==
            Ok(Mantissa(Positional(whole, 10) * Pow10(|fraction|) + Positional(fraction, 10), |fraction|))
  {
    GroupedDigits(whole, 10, IsDecimal);
    GroupedDigits(fraction, 10, IsDecimal);
    SplitAt(whole, '.', fraction);
    PositionalJoin(whole, fraction);
  }

  lemma MarkedParts(front: string, mark: char, back: string)
    requires mark == 'e' || mark == 'E'
    requires Lacks(front, 'e') && Lacks(front, 'E')
    ensures SplitExponent(front + [mark] + back) == Some((front, back))
  {
    var text := front + [mark] + back;
    assert text[..|front|] == front && text[|front| + 1..] == back;
    FirstOfUnique(front, mark, back);
    NotBefore(text, if mark == 'e' then 'E' else 'e', |front|);
  }

  lemma {:induction false} NotBefore(text: string, c: char, k: nat)
    requires k < |text| && Lacks(text[..k], c) && text[k] != c
    ensures FirstOf(text, c) > k
  {
    if k > 0 {
      assert text[..k][0] == text[0];
      assert text[1..][..k - 1] == text[..k][1..];
      NotBefore(text[1..], c, k - 1);
    }
  }

  /** How an exponent is spelled: a sign mark, if negative, and its digits. */
  function Spelled(negative: bool, mark: char, digits: string): string {
    if negative then [mark] + digits else digits
  }

  lemma SpelledExponent(negative: bool, mark: char, digits: string)
    requires (mark == '-' || mark == '_') && digits != [] && AllDecimal(digits)
    requires Positional(digits, 10) <= MAX_DECIMAL_EXPONENT
    ensures ParseExponent(Spelled(negative, mark, digits)) == Ok(Exponent(negative, Positional(digits, 10)))
  {
    GroupedDigits(digits, 10, IsDecimal);
    assert Unsigned(Spelled(negative, mark, digits)) == digits;
  }

  lemma LacksExponent(whole: string, fraction: string)
    requires AllDecimal(whole) && AllDecimal(fraction)
    ensures Lacks(whole + "." + fraction, 'e') && Lacks(whole + "." + fraction, 'E')
  {
  }

  /** A mantissa and an exponent around an exponent mark are combined exactly. */
  lemma MarkedMeaning(front: string, mark: char, back: string, mantissa: Mantissa, exponent: Exponent)
    requires (mark == 'e' || mark == 'E') && Lacks(front, 'e') && Lacks(front, 'E')
    requires ParseMantissa(front) == Ok(mantissa) && ParseExponent(back) == Ok(exponent)
    ensures exponent.magnitude >= 0
    ensures ParseDecimal(front + [mark] + back) == Ok(Exact(mantissa, exponent))
  {
    MarkedParts(front, mark, back);
    ExponentIsNatural(back);
    DecimalRefines(front + [mark] + back);
  }

  /** `W.FeX` is (W·10^k + F) / 10^k times 10^X, and `W.Fe-X` that over 10^X, where k
      is the number of fraction digits. */
  lemma ScientificMeaning(whole: string, fraction: string, mark: char, negative: bool, sign: char, digits: string)
    requires whole != [] && AllDecimal(whole) && fraction != [] && AllDecimal(fraction) && |fraction| <= MAX_U32
    requires (mark == 'e' || mark == 'E') && (sign == '-' || sign == '_')
    requires digits != [] && AllDecimal(digits) && Positional(digits, 10) <= MAX_DECIMAL_EXPONENT
    ensures Positional(digits, 10) >= 0
    ensures ParseDecimal(whole + "." + fraction + [mark] + Spelled(negative, sign, digits)) ==
            Ok(Exact(Mantissa(Positional(whole, 10) * Pow10(|fraction|) + Positional(fraction, 10), |fraction|),
                     Exponent(negative, Positional(digits, 10))))
  {
    PointParts(whole, fraction);
    SpelledExponent(negative, sign, digits);
    LacksExponent(whole, fraction);
    MarkedMeaning(whole + "." + fraction, mark, Spelled(negative, sign, digits),
                  ParseMantissa(whole + "." + fraction).value, Exponent(negative, Positional(digits, 10)));
  }

  /** The exact combination is the mantissa's value times or over the power of ten. */
  lemma ExactValue(mantissa: Mantissa, exponent: Exponent)
    requires exponent.magnitude >= 0
    ensures var n, d, p := mantissa.numerator, Pow10(mantissa.scale), Pow10(exponent.magnitude);
            Value(Exact(mantissa, exponent)) ==
            if exponent.negative then n as real / (d * p) as real else (n * p) as real / d as real
  {
    var n, d, p := mantissa.numerator, Pow10(mantissa.scale), Pow10(exponent.magnitude);
    if exponent.negative {
      assert d * p > 0;
      ReduceValue(n, d * p);
    } else {
      ReduceValue(n * p, d);
    }
  }
}
