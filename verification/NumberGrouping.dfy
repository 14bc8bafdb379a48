/** An underscore between two digits of a literal never changes what it parses to. */
module NumberGrouping {
  import opened Basics
  import opened Text
  import opened NumberText
  import opened NumberParse

  predicate Between(x: string, i: nat, isDigit: DigitTest) {
    0 < i < |x| && isDigit(x[i - 1]) && isDigit(x[i])
  }

  function Insert(x: string, i: nat): string
    requires i <= |x|
  {
    x[..i] + "_" + x[i..]
  }

  /** The same text, or the text with one underscore more between two digits. */
  ghost predicate Regrouped(x: string, y: string, isDigit: DigitTest) {
    x == y || exists i: nat :: Between(x, i, isDigit) && y == Insert(x, i)
  }

  lemma {:induction false} CleanFromInsert(x: string, i: nat, saw: bool, after: bool, isDigit: DigitTest)
    requires 0 < i < |x| && x[i - 1] != '_' && x[i] != '_' && !isDigit('_')
    ensures CleanFrom(Insert(x, i), saw, after, isDigit) == CleanFrom(x, saw, after, isDigit)
  {
    var y := Insert(x, i);
    if i == 1 {
      assert y[0] == x[0] && y[1..][0] == '_' && y[1..][1..] == x[1..];
      assert x[1..][0] == x[1] != '_';
      assert CleanFrom(y[1..], true, false, isDigit) == CleanFrom(x[1..], true, true, isDigit)
          == CleanFrom(x[1..], true, false, isDigit);
    } else {
      assert y[0] == x[0] && y[1..] == Insert(x[1..], i - 1);
      CleanFromInsert(x[1..], i - 1, true, false, isDigit);
      CleanFromInsert(x[1..], i - 1, saw, true, isDigit);
    }
  }

  lemma CleanRegrouped(x: string, y: string, isDigit: DigitTest, accepts: DigitTest)
    requires Regrouped(x, y, isDigit) && !isDigit('_') && !accepts('_')
    ensures Clean(y, accepts) == Clean(x, accepts)
  {
    if x != y {
      var i: nat :| Between(x, i, isDigit) && y == Insert(x, i);
      CleanFromInsert(x, i, false, false, accepts);
    }
  }

  /** Cutting at a scalar that is no digit commutes with regrouping. */
  lemma CutInsert(x: string, i: nat, k: nat, isDigit: DigitTest) returns (j: nat)
    requires Between(x, i, isDigit) && k < |x| && !isDigit(x[k])
    ensures j == if k < i then k else k + 1
    ensures j < |Insert(x, i)| && Insert(x, i)[j] == x[k]
    ensures Regrouped(x[..k], Insert(x, i)[..j], isDigit) && Regrouped(x[k + 1..], Insert(x, i)[j + 1..], isDigit)
  {
    var y := Insert(x, i);
    if k < i {
      j := k;
      assert y[..j] == x[..k];
      assert Between(x[k + 1..], i - k - 1, isDigit);
      assert y[j + 1..] == Insert(x[k + 1..], i - k - 1);
    } else {
      j := k + 1;
      assert y[j + 1..] == x[k + 1..];
      assert Between(x[..k], i, isDigit);
      assert y[..j] == Insert(x[..k], i);
    }
  }

  lemma LacksInsert(x: string, i: nat, c: char)
    requires i <= |x| && c != '_'
    ensures Lacks(Insert(x, i), c) <==> Lacks(x, c)
  {
    var y := Insert(x, i);
    assert forall k :: 0 <= k < i ==> y[k] == x[k];
    assert forall k :: i <= k < |x| ==> y[k + 1] == x[k];
    if Lacks(x, c) {
      forall k | 0 <= k < |y|
        ensures y[k] != c
      {
        assert k > i ==> y[k] == x[k - 1];
      }
    }
  }

  lemma LacksRegrouped(x: string, y: string, c: char, isDigit: DigitTest)
    requires Regrouped(x, y, isDigit) && c != '_'
    ensures Lacks(y, c) <==> Lacks(x, c)
  {
    if x != y {
      var i: nat :| Between(x, i, isDigit) && y == Insert(x, i);
      LacksInsert(x, i, c);
    }
  }

  lemma FirstOfAt(y: string, c: char, j: nat)
    requires j < |y| && y[j] == c && Lacks(y[..j], c)
    ensures FirstOf(y, c) == j
  {
    FirstOfUnique(y[..j], c, y[j + 1..]);
    assert y == y[..j] + [c] + y[j + 1..];
  }

  lemma FirstOfInsert(x: string, i: nat, c: char, isDigit: DigitTest)
    requires Between(x, i, isDigit) && c != '_' && !isDigit(c)
    ensures FirstOf(Insert(x, i), c) == FirstOf(x, c) + if FirstOf(x, c) < i then 0 else 1
  {
    var k := FirstOf(x, c);
    if k == |x| {
      assert x[..k] == x;
      LacksInsert(x, i, c);
      FirstOfUnique(Insert(x, i), c, "");
    } else {
      var j := CutInsert(x, i, k, isDigit);
      LacksRegrouped(x[..k], Insert(x, i)[..j], c, isDigit);
      FirstOfAt(Insert(x, i), c, j);
    }
  }

  ghost predicate RegroupedPair(p: Option<(string, string)>, q: Option<(string, string)>, isDigit: DigitTest) {
    match (p, q)
    case (None, None) => true
    case (Some((a, b)), Some((c, d))) => Regrouped(a, c, isDigit) && Regrouped(b, d, isDigit)
    case _ => false
  }

  lemma SplitInsert(x: string, i: nat, c: char, isDigit: DigitTest)
    requires Between(x, i, isDigit) && c != '_' && !isDigit(c)
    ensures RegroupedPair(SplitOnce(x, c), SplitOnce(Insert(x, i), c), isDigit)
    ensures Repeats(Insert(x, i), c) <==> Repeats(x, c)
  {
    FirstOfInsert(x, i, c, isDigit);
    var k, y := FirstOf(x, c), Insert(x, i);
    if k < |x| {
      var j := CutInsert(x, i, k, isDigit);
      assert j == FirstOf(y, c);
      LacksRegrouped(x[k + 1..], y[j + 1..], c, isDigit);
    }
  }

  lemma SplitRegrouped(x: string, y: string, c: char, isDigit: DigitTest)
    requires Regrouped(x, y, isDigit) && c != '_' && !isDigit(c)
    ensures RegroupedPair(SplitOnce(x, c), SplitOnce(y, c), isDigit)
    ensures Repeats(y, c) <==> Repeats(x, c)
  {
    if x != y {
      var i: nat :| Between(x, i, isDigit) && y == Insert(x, i);
      SplitInsert(x, i, c, isDigit);
    }
  }

  lemma ExponentMarkInsert(x: string, i: nat)
    requires Between(x, i, IsDecimal)
    ensures ExponentMark(Insert(x, i)) == ExponentMark(x) + if ExponentMark(x) < i then 0 else 1
    ensures ExponentMark(x) < |x| ==> !IsDecimal(x[ExponentMark(x)])
  {
    FirstOfInsert(x, i, 'e', IsDecimal);
    FirstOfInsert(x, i, 'E', IsDecimal);
  }

  lemma SplitExponentInsert(x: string, i: nat)
    requires Between(x, i, IsDecimal)
    ensures RegroupedPair(SplitExponent(x), SplitExponent(Insert(x, i)), IsDecimal)
  {
    ExponentMarkInsert(x, i);
    if ExponentMark(x) < |x| {
      var j := CutInsert(x, i, ExponentMark(x), IsDecimal);
      assert j == ExponentMark(Insert(x, i));
    }
  }

  lemma SplitExponentRegrouped(x: string, y: string)
    requires Regrouped(x, y, IsDecimal)
    ensures RegroupedPair(SplitExponent(x), SplitExponent(y), IsDecimal)
  {
    if x != y {
      var i: nat :| Between(x, i, IsDecimal) && y == Insert(x, i);
      SplitExponentInsert(x, i);
    }
  }

  /** No sign mark, slash or underscore is among the digits. */
  predicate PlainTest(isDigit: DigitTest) {
    !isDigit('_') && !isDigit('-') && !isDigit('/')
  }

  lemma UnsignedInsert(x: string, i: nat, isDigit: DigitTest)
    requires Between(x, i, isDigit) && PlainTest(isDigit)
    ensures Signed(Insert(x, i)) <==> Signed(x)
    ensures Regrouped(Unsigned(x), Unsigned(Insert(x, i)), isDigit)
  {
    assert Insert(x, i)[0] == x[0];
    if Signed(x) {
      var j := CutInsert(x, i, 0, isDigit);
      assert j == 0;
    } else {
      assert Between(Unsigned(x), i, isDigit);
    }
  }

  lemma UnsignedRegrouped(x: string, y: string, isDigit: DigitTest)
    requires Regrouped(x, y, isDigit) && PlainTest(isDigit)
    ensures Signed(y) <==> Signed(x)
    ensures Regrouped(Unsigned(x), Unsigned(y), isDigit)
  {
    if x != y {
      var i: nat :| Between(x, i, isDigit) && y == Insert(x, i);
      UnsignedInsert(x, i, isDigit);
    }
  }

  lemma PrefixRegrouped(x: string, y: string, lower: char, upper: char, isDigit: DigitTest)
    requires Regrouped(x, y, isDigit) && !isDigit(lower) && !isDigit(upper) && lower != '_' && upper != '_'
    ensures HasPrefix(y, lower, upper) <==> HasPrefix(x, lower, upper)
    ensures HasPrefix(x, lower, upper) ==> Regrouped(x[2..], y[2..], isDigit)
  {
    if x != y {
      var i: nat :| Between(x, i, isDigit) && y == Insert(x, i);
      assert y[0] == x[0];
      assert i > 1 ==> y[1] == x[1];
      if HasPrefix(x, lower, upper) {
        var j := CutInsert(x, i, 1, isDigit);
      }
    }
  }

  lemma PartsRegrouped(x: string, y: string)
    requires Regrouped(x, y, IsDecimal)
    ensures ParseParts(y) == ParseParts(x)
  {
    SplitExponentRegrouped(x, y);
    var p, q := SplitExponent(x), SplitExponent(y);
    if p.None? {
      MantissaRegrouped(x, y);
    } else {
      ExponentRegrouped(p.value.1, q.value.1);
      MantissaRegrouped(p.value.0, q.value.0);
    }
  }

  lemma ExponentRegrouped(x: string, y: string)
    requires Regrouped(x, y, IsDecimal)
    ensures ParseExponent(y) == ParseExponent(x)
  {
    UnsignedRegrouped(x, y, IsDecimal);
    CleanRegrouped(Unsigned(x), Unsigned(y), IsDecimal, IsDecimal);
  }

  lemma MantissaRegrouped(x: string, y: string)
    requires Regrouped(x, y, IsDecimal)
    ensures ParseMantissa(y) == ParseMantissa(x)
  {
    SplitRegrouped(x, y, '.', IsDecimal);
    var p, q := SplitOnce(x, '.'), SplitOnce(y, '.');
    if p.None? {
      CleanRegrouped(x, y, IsDecimal, IsDecimal);
    } else {
      CleanRegrouped(p.value.0, q.value.0, IsDecimal, IsDecimal);
      CleanRegrouped(p.value.1, q.value.1, IsDecimal, IsDecimal);
    }
  }

  /** A fraction is parsed the same whatever the digits of the regrouped neighbours. */
  lemma FractionRegrouped(x: string, y: string, isDigit: DigitTest)
    requires Regrouped(x, y, isDigit) && PlainTest(isDigit)
    ensures SplitOnce(y, '/').Some? <==> SplitOnce(x, '/').Some?
    ensures SplitOnce(x, '/').Some? ==> ParseUnsigned(y) == ParseUnsigned(x)
  {
    SplitRegrouped(x, y, '/', isDigit);
    var p, q := SplitOnce(x, '/'), SplitOnce(y, '/');
    if p.Some? {
      CleanRegrouped(p.value.0, q.value.0, isDigit, IsDecimal);
      CleanRegrouped(p.value.1, q.value.1, isDigit, IsDecimal);
    }
  }

  lemma ParseUnsignedRegrouped(x: string, y: string)
    requires Regrouped(x, y, IsDecimal)
    ensures ParseUnsigned(y) == ParseUnsigned(x)
  {
    FractionRegrouped(x, y, IsDecimal);
    if SplitOnce(x, '/').None? {
      PrefixRegrouped(x, y, 'x', 'X', IsDecimal);
      PrefixRegrouped(x, y, 'b', 'B', IsDecimal);
      if HasPrefix(x, 'x', 'X') {
        CleanRegrouped(x[2..], y[2..], IsDecimal, IsHex);
      } else if HasPrefix(x, 'b', 'B') {
        CleanRegrouped(x[2..], y[2..], IsDecimal, IsBinary);
      } else {
        PartsRegrouped(x, y);
        DecimalRefines(x);
        DecimalRefines(y);
      }
    }
  }

  lemma ParseHexRegrouped(x: string, y: string)
    requires Regrouped(x, y, IsHex) && HasPrefix(x, 'x', 'X')
    ensures ParseUnsigned(y) == ParseUnsigned(x)
  {
    FractionRegrouped(x, y, IsHex);
    if SplitOnce(x, '/').None? {
      PrefixRegrouped(x, y, 'x', 'X', IsHex);
      CleanRegrouped(x[2..], y[2..], IsHex, IsHex);
    }
  }

  lemma ParseRegrouped(x: string, y: string, isDigit: DigitTest)
    requires Regrouped(x, y, isDigit) && PlainTest(isDigit)
    requires ParseUnsigned(Unsigned(y)) == ParseUnsigned(Unsigned(x))
    ensures Parse(y) == Parse(x)
  {
    UnsignedRegrouped(x, y, isDigit);
    SplitRegrouped(Unsigned(x), Unsigned(y), '/', isDigit);
  }

  /** Whatever the literal, well formed or not: an underscore put between two decimal
      digits, or between two hexadecimal digits behind a hexadecimal prefix, leaves the
      result unchanged, errors included. */
  lemma GroupingIrrelevant(x: string, i: nat)
    requires Between(x, i, IsDecimal) || (Between(x, i, IsHex) && HasPrefix(Unsigned(x), 'x', 'X'))
    ensures Parse(Insert(x, i)) == Parse(x)
  {
    var y := Insert(x, i);
    if Between(x, i, IsDecimal) {
      assert Regrouped(x, y, IsDecimal);
      UnsignedRegrouped(x, y, IsDecimal);
      ParseUnsignedRegrouped(Unsigned(x), Unsigned(y));
      ParseRegrouped(x, y, IsDecimal);
    } else {
      assert Regrouped(x, y, IsHex);
      UnsignedRegrouped(x, y, IsHex);
      ParseHexRegrouped(Unsigned(x), Unsigned(y));
      ParseRegrouped(x, y, IsHex);
    }
  }
}
