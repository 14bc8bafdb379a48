/** Exact rational numbers in lowest terms. */
module Numbers {
  import opened Arithmetic
  import opened Basics

  datatype Fraction = Fraction(numerator: int, denominator: int)

  /** A fraction in lowest terms with a positive denominator. */
  type Number = x: Fraction | Reduced(x) witness Fraction(0, 1)

  function Abs(x: int): nat {
    if x < 0 then -x else x
  }

  // ---- Greatest common divisors ----

  function Gcd(a: nat, b: nat): (g: nat)
    ensures g == 0 <==> a == 0 && b == 0
    decreases b
  {
    if b == 0 then a else Gcd(b, a % b)
  }

  /** Scaling both numbers scales their greatest common divisor. */
  lemma {:induction false} GcdScale(k: nat, a: nat, b: nat)
    requires k > 0
    ensures Gcd(k * a, k * b) == k * Gcd(a, b)
    decreases b
  {
    if b > 0 {
      ScaleModulo(k, a, b);
      GcdScale(k, b, a % b);
    }
  }

  /** The greatest common divisor divides both numbers. */
  lemma {:induction false} GcdDivides(a: nat, b: nat) returns (p: nat, q: nat)
    ensures a == p * Gcd(a, b) && b == q * Gcd(a, b)
    decreases b
  {
    if b == 0 {
      p, q := 1, 0;
    } else {
      var r, s := GcdDivides(b, a % b);
      p, q := (a / b) * r + s, r;
      Recombine(a, b, r, s, Gcd(b, a % b));
    }
  }

  lemma Recombine(a: int, b: int, r: int, s: int, g: int)
    requires b > 0 && b == r * g && a % b == s * g
    ensures a == ((a / b) * r + s) * g
  {
    Factor(a / b, r, s, g);
    assert a == (a / b) * b + a % b;
  }

  lemma Factor(k: int, r: int, s: int, g: int)
    ensures (k * r + s) * g == k * (r * g) + s * g
  {
  }

  // ---- Lowest terms ----

  predicate Reduced(x: Fraction) {
    x.denominator > 0 && Gcd(Abs(x.numerator), x.denominator) == 1
  }

  function Lowest(n: int, d: int): Fraction
    requires d > 0
  {
    var g := Gcd(Abs(n), d);
    Fraction(n / g, d / g)
  }

  lemma QuotientsCoprime(p: nat, q: nat, g: nat)
    requires g > 0 && Gcd(p * g, q * g) == g
    ensures Gcd(p, q) == 1
  {
    assert p * g == g * p && q * g == g * q;
    GcdScale(g, p, q);
    CancelFactor(g, Gcd(p, q), 1);
  }

  lemma CancelFactor(g: int, x: int, y: int)
    requires g != 0 && g * x == g * y
    ensures x == y
  {
  }

  /** Two numbers are multiples of their divisor by coprime factors. */
  lemma GcdParts(a: nat, b: nat) returns (p: nat, q: nat)
    requires b > 0
    ensures a == p * Gcd(a, b) && b == q * Gcd(a, b) && q > 0
    ensures Gcd(p, q) == 1
  {
    p, q := GcdDivides(a, b);
    QuotientsCoprime(p, q, Gcd(a, b));
  }

  /** Lowest terms divide both sides of a ratio by one positive factor. */
  lemma LowestParts(n: int, d: int) returns (p: int, q: int, g: nat)
    requires d > 0
    ensures g > 0 && g == Gcd(Abs(n), d) && n == p * g && d == q * g && q > 0
    ensures Lowest(n, d) == Fraction(p, q) && Reduced(Fraction(p, q))
  {
    g := Gcd(Abs(n), d);
    var a: int, b := GcdParts(Abs(n), d);
    p, q := if n < 0 then -a else a, b;
    DivideExact(p, g);
    DivideExact(q, g);
  }

  lemma LowestIsReduced(n: int, d: int)
    requires d > 0
    ensures Reduced(Lowest(n, d))
  {
    var _, _, _ := LowestParts(n, d);
  }

  /** The number of a ratio. */
  function Reduce(n: int, d: int): Number
    requires d != 0
  {
    LowestIsReduced(if d > 0 then n else -n, Abs(d));
    if d > 0 then Lowest(n, d) else Lowest(-n, -d)
  }

  lemma LowestScale(n: int, d: int, k: int)
    requires d > 0 && k > 0
    ensures k * d > 0 && Lowest(k * n, k * d) == Lowest(n, d)
  {
    var p, q, g := LowestParts(n, d);
    GcdScale(k, Abs(n), d);
    AbsScale(k, n);
    assert k * d > 0 && k * g > 0;
    Regroup(k, p, g);
    Regroup(k, q, g);
    DivideExact(p, k * g);
    DivideExact(q, k * g);
  }

  lemma AbsScale(k: int, n: int)
    requires k > 0
    ensures Abs(k * n) == k * Abs(n)
  {
  }

  lemma Regroup(k: int, p: int, g: int)
    ensures k * (p * g) == p * (k * g)
  {
  }

  /** A ratio decides its number: equal ratios, however written, reduce to one number. */
  lemma RatioDecides(n: int, d: int, m: int, e: int)
    requires d > 0 && e > 0 && n * e == m * d
    ensures Reduce(n, d) == Reduce(m, e)
  {
    LowestScale(n, d, e);
    LowestScale(m, e, d);
    assert e * n == d * m && e * d == d * e;
  }

  lemma NumberIsReduced(x: Number)
    ensures Reduce(x.numerator, x.denominator) == x
  {
    assert x.numerator / 1 == x.numerator && x.denominator / 1 == x.denominator;
  }

  // ---- Values ----

  function Value(x: Number): real {
    x.numerator as real / x.denominator as real
  }

  lemma ProductAsReal(a: int, b: int)
    ensures (a * b) as real == a as real * b as real
  {
  }

  lemma RealRatio(p: real, q: real, g: real)
    requires q != 0.0 && g != 0.0
    ensures (p * g) / (q * g) == p / q
  {
    assert q * g != 0.0;
    assert (p / q) * (q * g) == p * g;
  }

  lemma RealFlip(n: real, d: real)
    requires d != 0.0
    ensures (-n) / (-d) == n / d
  {
    assert (n / d) * (-d) == -n;
  }

  lemma ReduceValue(n: int, d: int)
    requires d != 0
    ensures Value(Reduce(n, d)) == n as real / d as real
  {
    if d > 0 {
      LowestValue(n, d);
    } else {
      LowestValue(-n, -d);
      RealFlip(n as real, d as real);
      assert (-n) as real == -(n as real) && (-d) as real == -(d as real);
    }
  }

  lemma LowestValue(n: int, d: int)
    requires d > 0
    ensures var x := Lowest(n, d);
            x.denominator != 0 && x.numerator as real / x.denominator as real == n as real / d as real
  {
    var p, q, g := LowestParts(n, d);
    ScaledRatio(p, q, g);
  }

  lemma ScaledRatio(p: int, q: int, g: int)
    requires q > 0 && g > 0
    ensures (q * g) != 0 && (p * g) as real / (q * g) as real == p as real / q as real
  {
    ProductAsReal(p, g);
    ProductAsReal(q, g);
    RealRatio(p as real, q as real, g as real);
  }

  /** Numbers of equal value are the same number. */
  lemma ValueDecides(x: Number, y: Number)
    requires Value(x) == Value(y)
    ensures x == y
  {
    ProductAsReal(x.numerator, y.denominator);
    ProductAsReal(y.numerator, x.denominator);
    RatioDecides(x.numerator, x.denominator, y.numerator, y.denominator);
    NumberIsReduced(x);
    NumberIsReduced(y);
  }

  // ---- Arithmetic ----

  function FromInteger(n: int): (x: Number)
    ensures Value(x) == n as real
  {
    Fraction(n, 1)
  }

  function FromByte(b: byte): (x: Number)
    ensures Value(x) == (b as int) as real
  {
    FromInteger(b as int)
  }

  function Negated(x: Number): (y: Number)
    ensures Value(y) == -Value(x)
  {
    NegatedRatio(x.numerator, x.denominator);
    Fraction(-x.numerator, x.denominator)
  }

  lemma NegatedRatio(n: int, d: int)
    requires d > 0
    ensures (-n) as real / d as real == -(n as real / d as real)
  {
    assert (-n) as real == -(n as real);
  }

  function Sub(a: Number, b: Number): (c: Number)
    ensures Value(c) == Value(a) - Value(b)
  {
    var n, d := a.numerator * b.denominator - b.numerator * a.denominator, a.denominator * b.denominator;
    SubValue(a, b);
    Reduce(n, d)
  }

  lemma SubValue(a: Number, b: Number)
    ensures a.denominator * b.denominator > 0
    ensures Value(Reduce(a.numerator * b.denominator - b.numerator * a.denominator, a.denominator * b.denominator))
         == Value(a) - Value(b)
  {
    DifferenceRatio(a.numerator, a.denominator, b.numerator, b.denominator);
    ReduceValue(a.numerator * b.denominator - b.numerator * a.denominator, a.denominator * b.denominator);
  }

  lemma DifferenceRatio(n: int, d: int, m: int, e: int)
    requires d > 0 && e > 0
    ensures d * e > 0
    ensures (n * e - m * d) as real / (d * e) as real == n as real / d as real - m as real / e as real
  {
    assert d * e > 0;
    ProductAsReal(n, e);
    ProductAsReal(m, d);
    ProductAsReal(d, e);
    RealDifference(n as real, d as real, m as real, e as real);
  }

  lemma RealDifference(n: real, d: real, m: real, e: real)
    requires d != 0.0 && e != 0.0
    ensures d * e != 0.0 && (n * e - m * d) / (d * e) == n / d - m / e
  {
    RealRatio(n, d, e);
    RealRatio(m, e, d);
    assert d * e == e * d && m * d / (e * d) == m / e;
    RealSplit(n * e, m * d, d * e);
  }

  lemma RealSplit(x: real, y: real, z: real)
    requires z != 0.0
    ensures (x - y) / z == x / z - y / z
  {
  }

  function Mul(a: Number, b: Number): (c: Number)
    ensures Value(c) == Value(a) * Value(b)
  {
    MulValue(a, b);
    Reduce(a.numerator * b.numerator, a.denominator * b.denominator)
  }

  lemma MulValue(a: Number, b: Number)
    ensures a.denominator * b.denominator > 0
    ensures Value(Reduce(a.numerator * b.numerator, a.denominator * b.denominator)) == Value(a) * Value(b)
  {
    ProductRatio(a.numerator, a.denominator, b.numerator, b.denominator);
    ReduceValue(a.numerator * b.numerator, a.denominator * b.denominator);
  }

  lemma ProductRatio(n: int, d: int, m: int, e: int)
    requires d > 0 && e > 0
    ensures d * e > 0
    ensures (n * m) as real / (d * e) as real == (n as real / d as real) * (m as real / e as real)
  {
    assert d * e > 0;
    ProductAsReal(n, m);
    ProductAsReal(d, e);
    RealProduct(n as real, d as real, m as real, e as real);
  }

  lemma RealProduct(n: real, d: real, m: real, e: real)
    requires d != 0.0 && e != 0.0
    ensures d * e != 0.0 && (n * m) / (d * e) == (n / d) * (m / e)
  {
    var x, y := n / d, m / e;
    assert n == x * d && m == y * e;
    assert n * m == (x * y) * (d * e);
  }

  function CheckedDiv(a: Number, b: Number): (c: Option<Number>)
    ensures c.None? <==> Value(b) == 0.0
    ensures c.Some? ==> Value(c.value) * Value(b) == Value(a)
  {
    DivValue(a, b);
    if b.numerator == 0 then None
    else Some(Reduce(a.numerator * b.denominator, a.denominator * b.numerator))
  }

  lemma DivValue(a: Number, b: Number)
    ensures b.numerator == 0 <==> Value(b) == 0.0
    ensures b.numerator != 0 ==>
              && a.denominator * b.numerator != 0
              && Value(Reduce(a.numerator * b.denominator, a.denominator * b.numerator)) * Value(b) == Value(a)
  {
    RealZero(b.numerator as real, b.denominator as real);
    if b.numerator != 0 {
      QuotientRatio(a.numerator, a.denominator, b.numerator, b.denominator);
      ReduceValue(a.numerator * b.denominator, a.denominator * b.numerator);
    }
  }

  lemma RealZero(m: real, e: real)
    requires e != 0.0
    ensures m / e == 0.0 <==> m == 0.0
  {
    assert m == (m / e) * e;
  }

  lemma QuotientRatio(n: int, d: int, m: int, e: int)
    requires d > 0 && e > 0 && m != 0
    ensures d * m != 0
    ensures ((n * e) as real / (d * m) as real) * (m as real / e as real) == n as real / d as real
  {
    assert d * m != 0;
    ProductAsReal(n, e);
    ProductAsReal(d, m);
    RealQuotient(n as real, d as real, m as real, e as real);
  }

  lemma RealQuotient(n: real, d: real, m: real, e: real)
    requires d != 0.0 && e != 0.0 && m != 0.0
    ensures d * m != 0.0 && ((n * e) / (d * m)) * (m / e) == n / d
  {
    assert d * m != 0.0;
    var x, y := n / d, m / e;
    assert n == x * d && m == y * e;
    assert n * e == (x * d) * e && d * m == d * (y * e);
    assert y != 0.0;
    assert (x / y) * (d * m) == n * e by {
      assert (x / y) * y == x;
    }
  }

  // ---- Floor and modulo ----

  /** The denominator is positive, so Euclidean division is floored division. */
  function Floor(x: Number): (f: Number)
    ensures f.denominator == 1 && Value(f) == f.numerator as real
    ensures Value(f) <= Value(x) < Value(f) + 1.0
  {
    FloorRatio(x.numerator, x.denominator);
    FromInteger(x.numerator / x.denominator)
  }

  lemma FloorRatio(n: int, d: int)
    requires d > 0
    ensures (n / d) as real <= n as real / d as real < (n / d) as real + 1.0
  {
    var q, r := n / d, n % d;
    assert n == q * d + r;
    ProductAsReal(q, d);
    assert n as real == q as real * d as real + r as real;
    RealBounds(n as real, d as real, q as real, r as real, n as real / d as real);
  }

  lemma RealBounds(n: real, d: real, q: real, r: real, t: real)
    requires d > 0.0 && 0.0 <= r < d && n == q * d + r && n == t * d
    ensures q <= t < q + 1.0
  {
    if t < q {
      RealDistribute(q, t, d);
      PositiveProduct(q - t, d, (q - t) * d);
    } else if t - q >= 1.0 {
      RealDistribute(t, q, d);
      AtLeastOnce(t - q, d, (t - q) * d);
    }
  }

  lemma RealDistribute(j: real, k: real, b: real)
    ensures (j - k) * b == j * b - k * b
  {
  }

  lemma PositiveProduct(t: real, b: real, product: real)
    requires t > 0.0 && b > 0.0 && product == t * b
    ensures product > 0.0
  {
  }

  lemma AtLeastOnce(t: real, b: real, product: real)
    requires t >= 1.0 && product == t * b
    ensures if b > 0.0 then product >= b else product <= b
  {
  }

  predicate InRange(m: real, b: real) {
    if b > 0.0 then 0.0 <= m < b else b < m <= 0.0
  }

  /** `x` is `k` whole steps of `b` above `m`. */
  predicate StepsAbove(x: real, m: real, k: int, b: real) {
    x == m + k as real * b
  }

  /** `m` differs from `a` by an integer multiple of `b` and lies between zero and `b`. */
  ghost predicate IsRemainder(a: real, b: real, m: real) {
    (exists k: int :: StepsAbove(a, m, k, b)) && InRange(m, b)
  }

  function CheckedMod(a: Number, b: Number): Option<Number> {
    match CheckedDiv(a, b)
    case None => None
    case Some(quotient) => Some(Sub(a, Mul(b, Floor(quotient))))
  }

  lemma RealRemainder(a: real, b: real, q: real, f: real, k: int)
    requires b != 0.0 && q * b == a && f <= q < f + 1.0 && f == k as real
    ensures IsRemainder(a, b, a - b * f)
  {
    RealDistribute(q, f, b);
    PartOf(q - f, b, a - b * f);
    assert StepsAbove(a, a - b * f, k, b);
  }

  lemma PartOf(t: real, b: real, product: real)
    requires 0.0 <= t < 1.0 && b != 0.0 && product == t * b
    ensures InRange(product, b)
  {
  }

  lemma RealRemainderUnique(a: real, b: real, x: real, y: real)
    requires b != 0.0 && IsRemainder(a, b, x) && IsRemainder(a, b, y)
    ensures x == y
  {
    var j: int :| StepsAbove(a, x, j, b);
    var k: int :| StepsAbove(a, y, k, b);
    StepsUnique(a, b, x, y, j, k);
  }

  lemma StepsUnique(a: real, b: real, x: real, y: real, j: int, k: int)
    requires b != 0.0 && InRange(x, b) && InRange(y, b)
    requires StepsAbove(a, x, j, b) && StepsAbove(a, y, k, b)
    ensures x == y
  {
    IntegerGap(j, k);
    StepProduct(a, x, j, b);
    StepProduct(a, y, k, b);
    SameSteps(b, x, y, j as real, k as real, a - x, a - y);
  }

  lemma IntegerGap(j: int, k: int)
    ensures j as real > k as real ==> j as real - k as real >= 1.0
    ensures j as real < k as real ==> k as real - j as real >= 1.0
  {
    if j > k {
      assert j as real == k as real + (j - k) as real;
    } else if j < k {
      assert k as real == j as real + (k - j) as real;
    }
  }

  lemma StepProduct(a: real, x: real, j: int, b: real)
    requires StepsAbove(a, x, j, b)
    ensures a - x == j as real * b
  {
  }

  lemma SameSteps(b: real, x: real, y: real, j: real, k: real, jb: real, kb: real)
    requires InRange(x, b) && InRange(y, b) && b != 0.0
    requires jb == j * b && kb == k * b && x + jb == y + kb
    requires j > k ==> j - k >= 1.0
    requires j < k ==> k - j >= 1.0
    ensures x == y
  {
    if j > k {
      RealDistribute(j, k, b);
      AtLeastOnce(j - k, b, jb - kb);
    } else if j < k {
      RealDistribute(k, j, b);
      AtLeastOnce(k - j, b, kb - jb);
    }
  }

  lemma FlooredQuotient(a: Number, b: Number, q: Number)
    requires CheckedDiv(a, b) == Some(q)
    ensures IsRemainder(Value(a), Value(b), Value(a) - Value(b) * Value(Floor(q)))
  {
    RealRemainder(Value(a), Value(b), Value(q), Value(Floor(q)), Floor(q).numerator);
  }

  lemma ModValue(a: Number, b: Number, q: Number)
    requires CheckedDiv(a, b) == Some(q)
    ensures CheckedMod(a, b).Some? && Value(CheckedMod(a, b).value) == Value(a) - Value(b) * Value(Floor(q))
  {
    SubtractMultiple(a, b, Floor(q));
  }

  lemma SubtractMultiple(a: Number, b: Number, f: Number)
    ensures Value(Sub(a, Mul(b, f))) == Value(a) - Value(b) * Value(f)
  {
  }

  lemma ModIsRemainder(a: Number, b: Number)
    requires Value(b) != 0.0
    ensures CheckedMod(a, b).Some? && IsRemainder(Value(a), Value(b), Value(CheckedMod(a, b).value))
  {
    var q := CheckedDiv(a, b).value;
    FlooredQuotient(a, b, q);
    ModValue(a, b, q);
  }

  /** Modulo is absent exactly for a zero divisor, and otherwise is the one number
      that is a remainder: the property determines it. */
  lemma ModExact(a: Number, b: Number, m: Number)
    ensures CheckedMod(a, b).None? <==> Value(b) == 0.0
    ensures Value(b) != 0.0 ==> (CheckedMod(a, b) == Some(m) <==> IsRemainder(Value(a), Value(b), Value(m)))
  {
    if Value(b) != 0.0 {
      ModIsRemainder(a, b);
      var found := CheckedMod(a, b).value;
      if IsRemainder(Value(a), Value(b), Value(m)) {
        RealRemainderUnique(Value(a), Value(b), Value(found), Value(m));
        ValueDecides(found, m);
      }
    }
  }
}
