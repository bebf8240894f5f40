/** Products and quotients of reals. */
module RealFacts {

  lemma SignOfProduct(y: real, d: real)
    requires d > 0.0
    ensures y > 0.0 ==> y * d > 0.0
    ensures y < 0.0 ==> y * d < 0.0
  {
  }

  lemma TimesQuotient(x: real, n: real)
    requires n != 0.0
    ensures n * (x / n) == x && n * x / n == x
  {
  }

  lemma Quotient(x: real, d: real)
    requires x >= 0.0 && d > 0.0
    ensures x / d >= 0.0 && (x / d == 0.0 <==> x == 0.0)
  {
    TimesQuotient(x, d);
    SignOfProduct(x / d, d);
  }

  lemma Fraction(x: real, d: real)
    requires 0.0 <= x <= d && d > 0.0
    ensures 0.0 <= x / d <= 1.0
  {
    Quotient(x, d);
    TimesQuotient(x, d);
    SignOfProduct(x / d - 1.0, d);
    assert (x / d - 1.0) * d == x / d * d - d;
  }

  lemma Distribute(k: real, a: real, b: real)
    ensures k * (a + b) == k * a + k * b
  {
  }

  lemma NoZeroDivisors(x: real, y: real)
    requires x * y == 0.0
    ensures x == 0.0 || y == 0.0
  {
    if x != 0.0 {
      assert x * y / x == y;
    }
  }
}
