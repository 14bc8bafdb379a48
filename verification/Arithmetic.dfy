/** Quotients and remainders of integers. */
module Arithmetic {
  lemma ModuloSmall(x: int, m: int)
    requires 0 <= x < m
    ensures x % m == x
  {
  }

  lemma ModuloShift(x: int, m: int)
    requires m > 0
    ensures (x + m) % m == x % m
  {
    var q := x / m;
    assert x == q * m + x % m;
    assert x + m == (q + 1) * m + x % m;
    ModuloUnique(x + m, m, q + 1, x % m);
  }

  lemma ModuloUnique(x: int, m: int, q: int, r: int)
    requires m > 0 && 0 <= r < m && x == q * m + r
    ensures x % m == r && x / m == q
  {
    var d := x / m - q;
    assert d * m == (x / m) * m - q * m == r - x % m;
    MultipleSize(d, m);
  }

  lemma MultipleSize(d: int, m: int)
    requires m > 0
    ensures d > 0 ==> d * m >= m
    ensures d < 0 ==> d * m <= -m
  {
  }

  lemma ModuloDifference(a: int, b: int, m: int)
    requires m > 0
    ensures a % m == b % m <==> (b - a) % m == 0
  {
    var p, q := a / m, b / m;
    assert a == p * m + a % m && b == q * m + b % m;
    if a % m == b % m {
      assert b - a == (q - p) * m;
      ModuloUnique(b - a, m, q - p, 0);
    } else if (b - a) % m == 0 {
      var d := (b - a) / m;
      assert b - a == d * m;
      assert b == (p + d) * m + a % m;
      ModuloUnique(b, m, p + d, a % m);
    }
  }

  lemma ScaleModulo(k: int, a: int, b: int)
    requires k > 0 && b > 0
    ensures k * b > 0 && (k * a) % (k * b) == k * (a % b)
  {
    var q, r := a / b, a % b;
    assert a == q * b + r;
    Distribute(k, q, b, r);
    assert k * b > 0 && 0 <= k * r < k * b;
    ModuloUnique(k * a, k * b, q, k * r);
  }

  lemma Distribute(k: int, q: int, b: int, r: int)
    ensures k * (q * b + r) == q * (k * b) + k * r
  {
  }

  lemma DivMod(n: int, m: int)
    requires m >= 2 && n >= m
    ensures n == (n / m) * m + n % m
    ensures 0 <= n % m < m && 0 < n / m < n
  {
    var q := n / m;
    assert n == q * m + n % m;
    MultipleSize(q, m);
    assert q > 0 ==> q * m >= q * 2;
  }

  lemma DivideExact(p: int, g: int)
    requires g > 0
    ensures (p * g) / g == p && (p * g) % g == 0
  {
    ModuloUnique(p * g, g, p, 0);
  }
}
