/** Natural-number arithmetic: floor division, minima and truncated subtraction. */
module Arith {

  function Min(a: int, b: int): int { if a <= b then a else b }

  function Max(a: int, b: int): int { if a >= b then a else b }

  /** Saturating subtraction of unsigned integers. */
  function Monus(a: nat, b: nat): nat { if a >= b then a - b else 0 }

  function Abs(a: int): nat { if a < 0 then -a else a }

  lemma MulMono(a: int, b: int, c: int)
    requires a <= b && 0 <= c
    ensures a * c <= b * c
  {
    assert (b - a) * c >= 0;
  }

  lemma MulMonoBoth(a: int, b: int, c: int, d: int)
    requires 0 <= a <= b && 0 <= c <= d
    ensures a * c <= b * d
  {
    MulMono(a, b, c);
    MulMono(c, d, b);
  }

  lemma MulDistrib(a: int, b: int, c: int)
    ensures a * (b + c) == a * b + a * c
  {
  }

  /** A strict comparison of multiples of a positive factor compares the cofactors. */
  lemma MulCancel(a: int, b: int, c: int)
    requires 0 < c && a * c < b * c
    ensures a < b
  {
    if b <= a { MulMono(b, a, c); }
  }

  lemma DivBounds(a: int, d: int)
    requires 0 < d
    ensures (a / d) * d <= a < (a / d) * d + d
  {
  }

  lemma DivUnique(a: int, d: int, q: int)
    requires 0 < d && q * d <= a < q * d + d
    ensures a / d == q
  {
    DivBounds(a, d);
    assert (q + 1) * d == q * d + d;
    assert (a / d + 1) * d == (a / d) * d + d;
    MulCancel(q, a / d + 1, d);
    MulCancel(a / d, q + 1, d);
  }

  lemma DivNonneg(a: nat, d: nat)
    requires 0 < d
    ensures 0 <= a / d <= a
  {
    DivBounds(a, d);
    if a / d < 0 { MulMono(a / d, -1, d); }
    if a / d > a { MulMono(a + 1, a / d, d); MulMono(1, d, a + 1); }
  }

  /** Division of unsigned integers. */
  function Floor(n: nat, d: nat): nat
    requires 0 < d
  {
    DivNonneg(n, d);
    n / d
  }

  lemma DivMono(a: int, b: int, d: int)
    requires a <= b && 0 < d
    ensures a / d <= b / d
  {
    DivBounds(a, d);
    DivBounds(b, d);
    assert (b / d + 1) * d == (b / d) * d + d;
    MulCancel(a / d, b / d + 1, d);
  }

  /** The quotient is at least q exactly when the dividend reaches q divisors. */
  lemma DivAtLeast(a: int, d: int, q: int)
    requires 0 < d
    ensures q <= a / d <==> q * d <= a
  {
    DivBounds(a, d);
    if q * d <= a {
      assert (a / d + 1) * d == (a / d) * d + d;
      MulCancel(q, a / d + 1, d);
    }
    if q <= a / d {
      MulMono(q, a / d, d);
    }
  }

  /** Two floor divisions in a row are one by the product. */
  lemma DivDiv(a: int, b: int, c: int)
    requires 0 < b && 0 < c
    ensures 0 < b * c && (a / b) / c == a / (b * c)
  {
    MulMonoBoth(1, b, 1, c);
    var q := (a / b) / c;
    DivAtLeast(a / b, c, q);
    DivAtLeast(a, b, q * c);
    assert q * (b * c) == (q * c) * b;
    DivAtLeast(a / b, c, q + 1);
    DivAtLeast(a, b, (q + 1) * c);
    assert (q + 1) * (b * c) == ((q + 1) * c) * b;
    assert (q + 1) * (b * c) == q * (b * c) + b * c;
    DivUnique(a, b * c, q);
  }

  lemma MulSwap(a: int, b: int, c: int)
    ensures (a * b) * c == (a * c) * b == a * (b * c)
  {
  }

  /** Floor of x times a fraction is monotone in x and in the fraction. */
  lemma FractionMono(x: nat, a: nat, b: nat, y: nat, c: nat, d: nat)
    requires 0 < b && 0 < d
    requires x <= y && a * d <= c * b
    ensures x * a / b <= y * c / d
  {
    var q := x * a / b;
    DivAtLeast(x * a, b, q);
    MulMono(q * b, x * a, d);
    MulSwap(q, b, d);
    MulSwap(x, a, d);
    MulMonoBoth(x, y, a * d, c * b);
    MulSwap(y, c, b);
    assert (q * d) * b <= (y * c) * b;
    if y * c < q * d {
      MulMono(y * c + 1, q * d, b);
      MulPlusOne(y * c, b);
    }
    DivAtLeast(y * c, d, q);
  }

  lemma MulPlusOne(a: int, b: int)
    ensures (a + 1) * b == a * b + b
  {
  }
}
