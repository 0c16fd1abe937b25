/**
 Partial sums of u + u^3/3 + u^5/5 + ..., the logarithm of (1 + u)/(1 - u) halved, between sums of reciprocals:
 with u = (p - j)/(p + j) a partial sum is at most, and with a bound for its tail at least, half the sum
 1/(j + 1) + ... + 1/p.
 */
module Artanh {
  import opened Reals
  import opened Harmonics

  // ---- powers

  /** A geometric sequence: each member is u times the one before. */
  ghost predicate Geometric(p: nat -> real, u: real) {
    forall n: nat :: StepAt(p, u, n)
  }

  ghost predicate StepAt(p: nat -> real, u: real, n: nat) {
    p(n + 1) == p(n) * u
  }

  ghost predicate Powers(p: nat -> real, u: real) {
    p(0) == 1.0 && Geometric(p, u)
  }

  /** b is h times p. */
  ghost predicate Scaled(p: nat -> real, b: nat -> real, h: real) {
    forall n: nat :: ScaledAt(p, b, h, n)
  }

  ghost predicate ScaledAt(p: nat -> real, b: nat -> real, h: real, n: nat) {
    b(n) == p(n) * h
  }

  ghost function Power(u: real, n: nat): real {
    if n == 0 then 1.0 else Power(u, n - 1) * u
  }

  ghost function PowersOf(u: real): (p: nat -> real)
    ensures Powers(p, u)
  {
    var p := (n: nat) => Power(u, n);
    assert forall n: nat :: StepAt(p, u, n);
    p
  }

  ghost function ScaledBy(p: nat -> real, h: real): (b: nat -> real)
    ensures Scaled(p, b, h)
  {
    var b := (n: nat) => p(n) * h;
    assert forall n: nat :: ScaledAt(p, b, h, n);
    b
  }

  lemma Swapped(a: real, b: real, u: real, h: real)
    requires b == a * u
    ensures b * h == a * h * u
  {
  }

  lemma ScaledIsGeometric(p: nat -> real, b: nat -> real, u: real, h: real)
    requires Geometric(p, u) && Scaled(p, b, h)
    ensures Geometric(b, u)
  {
    forall n: nat
      ensures StepAt(b, u, n)
    {
      assert StepAt(p, u, n) && ScaledAt(p, b, h, n) && ScaledAt(p, b, h, n + 1);
      Swapped(p(n), p(n + 1), u, h);
    }
  }

  lemma {:induction false} NotNegative(p: nat -> real, u: real, n: nat)
    requires 0.0 <= p(0) && Geometric(p, u) && 0.0 <= u
    ensures 0.0 <= p(n)
  {
    if n > 0 {
      NotNegative(p, u, n - 1);
      assert StepAt(p, u, n - 1);
      RealMono(0.0, p(n - 1), u);
    }
  }

  lemma {:induction false} PowerMono(p: nat -> real, x: real, q: nat -> real, y: real, n: nat)
    requires Powers(p, x) && Powers(q, y) && 0.0 <= y <= x
    ensures 0.0 <= q(n) <= p(n)
  {
    if n > 0 {
      PowerMono(p, x, q, y, n - 1);
      assert StepAt(p, x, n - 1) && StepAt(q, y, n - 1);
      RealMonoBoth(q(n - 1), p(n - 1), y, x);
    }
  }

  // ---- slopes

  lemma RiseOfProduct(a: real, b: real, x: real, y: real, h: real)
    requires h == x - y
    ensures a * x - b * y == a * h + y * (a - b)
    ensures a * x - b * y == b * h + x * (a - b)
  {
  }

  lemma SlopeAbove(a: real, b: real, x: real, y: real, s: real, n: real)
    requires 0.0 <= y <= x && 0.0 <= a - b <= n * s
    ensures a * x - b * y <= n * (s * x) + a * (x - y)
  {
    RiseOfProduct(a, b, x, y, x - y);
    RealMono(y, x, a - b);
    RealMono(a - b, n * s, x);
    assert n * s * x == n * (s * x);
  }

  lemma SlopeBelow(a: real, b: real, x: real, y: real, s: real, n: real)
    requires 0.0 <= y <= x && 0.0 <= a - b && n * s <= a - b
    ensures n * (s * y) + b * (x - y) <= a * x - b * y
  {
    RiseOfProduct(a, b, x, y, x - y);
    RealMono(y, x, a - b);
    RealMono(n * s, a - b, y);
    assert n * s * y == n * (s * y);
  }

  /** Between y and x the power n + 1 rises by its slope times x - y, and the slope is largest at x and smallest
      at y; a and b are the powers times x - y. */
  ghost predicate Rises(p: nat -> real, a: nat -> real, q: nat -> real, b: nat -> real, n: nat, c: real) {
    c * b(n) <= p(n + 1) - q(n + 1) <= c * a(n)
  }

  /** The powers of x and y with 0 <= y <= x, and these times x - y. */
  ghost predicate Pair(p: nat -> real, x: real, a: nat -> real, q: nat -> real, y: real, b: nat -> real) {
    && 0.0 <= y <= x && Powers(p, x) && Powers(q, y)
    && Scaled(p, a, x - y) && Scaled(q, b, x - y) && Geometric(a, x) && Geometric(b, y)
  }

  lemma AtNext(p: nat -> real, a: nat -> real, x: real, h: real, n: nat)
    requires Geometric(p, x) && Scaled(p, a, h) && Geometric(a, x) && 0 < n
    ensures p(n + 1) == p(n) * x && a(n) == a(n - 1) * x && a(n) == p(n) * h
  {
    assert StepAt(p, x, n) && StepAt(a, x, n - 1) && ScaledAt(p, a, h, n);
  }

  lemma NextBelow(p: nat -> real, x: real, a: nat -> real, q: nat -> real, y: real, n: nat, c: real)
    requires 0.0 <= y <= x && Geometric(p, x) && Scaled(p, a, x - y) && Geometric(a, x) && 0 < n
    requires q(n + 1) == q(n) * y && 0.0 <= p(n) - q(n) <= c * a(n - 1)
    ensures p(n + 1) - q(n + 1) <= (c + 1.0) * a(n)
  {
    AtNext(p, a, x, x - y, n);
    RisesBelow(p(n), q(n), x, y, a(n - 1), a(n), c, p(n + 1) - q(n + 1));
  }

  lemma NextAbove(p: nat -> real, x: real, q: nat -> real, y: real, b: nat -> real, n: nat, c: real)
    requires 0.0 <= y <= x && Geometric(q, y) && Scaled(q, b, x - y) && Geometric(b, y) && 0 < n
    requires p(n + 1) == p(n) * x && 0.0 <= p(n) - q(n) && c * b(n - 1) <= p(n) - q(n)
    ensures (c + 1.0) * b(n) <= p(n + 1) - q(n + 1)
  {
    AtNext(q, b, y, x - y, n);
    RisesAbove(p(n), q(n), x, y, b(n - 1), b(n), c, p(n + 1) - q(n + 1));
  }

  lemma RisesNext(p: nat -> real, x: real, a: nat -> real, q: nat -> real, y: real, b: nat -> real, n: nat, c: real)
    requires Pair(p, x, a, q, y, b) && 0 < n && Rises(p, a, q, b, n - 1, c)
    ensures Rises(p, a, q, b, n, c + 1.0)
  {
    PowerMono(p, x, q, y, n);
    assert StepAt(p, x, n) && StepAt(q, y, n);
    NextBelow(p, x, a, q, y, n, c);
    NextAbove(p, x, q, y, b, n, c);
  }

  lemma RisesBelow(a: real, b: real, x: real, y: real, s: real, s': real, c: real, rise: real)
    requires 0.0 <= y <= x && 0.0 <= a - b <= c * s && s' == s * x && s' == a * (x - y) && rise == a * x - b * y
    ensures rise <= (c + 1.0) * s'
  {
    SlopeAbove(a, b, x, y, s, c);
    OneMore(c, s');
  }

  lemma RisesAbove(a: real, b: real, x: real, y: real, s: real, s': real, c: real, rise: real)
    requires 0.0 <= y <= x && 0.0 <= a - b && c * s <= a - b && s' == s * y && s' == b * (x - y)
    requires rise == a * x - b * y
    ensures (c + 1.0) * s' <= rise
  {
    SlopeBelow(a, b, x, y, s, c);
    OneMore(c, s');
  }

  lemma OneMore(c: real, a: real)
    ensures (c + 1.0) * a == c * a + a
  {
  }

  lemma {:induction false} PowerRises(p: nat -> real, x: real, a: nat -> real, q: nat -> real, y: real, b: nat -> real,
                                      n: nat, c: real)
    requires Pair(p, x, a, q, y, b) && c == n as real + 1.0
    ensures Rises(p, a, q, b, n, c)
    decreases n
  {
    if n > 0 {
      PowerRises(p, x, a, q, y, b, n - 1, c - 1.0);
      RisesNext(p, x, a, q, y, b, n, c - 1.0);
    } else {
      assert StepAt(p, x, 0) && StepAt(q, y, 0) && ScaledAt(p, a, x - y, 0) && ScaledAt(q, b, x - y, 0);
    }
  }

  // ---- six terms, and a bound for the rest

  /** u + u^3/3 + ... + u^11/11 */
  ghost function Low(p: nat -> real): real {
    p(1) + p(3) / 3.0 + p(5) / 5.0 + p(7) / 7.0 + p(9) / 9.0 + p(11) / 11.0
  }

  /** Up to a third, what is missing is at most nine eighths of the next term. */
  ghost function High(p: nat -> real): real {
    Low(p) + 1.125 * p(13) / 13.0
  }

  /** The slope 1 + u^2 + ... + u^10. */
  ghost function Slope(p: nat -> real): real {
    p(0) + p(2) + p(4) + p(6) + p(8) + p(10)
  }

  lemma LowSlope(p: nat -> real, x: real, a: nat -> real, q: nat -> real, y: real, b: nat -> real)
    requires Pair(p, x, a, q, y, b)
    ensures Slope(b) <= Low(p) - Low(q) <= Slope(a)
    ensures Low(p) - Low(q) + 1.125 * b(12) <= High(p) - High(q)
  {
    PowerRises(p, x, a, q, y, b, 0, 1.0);
    PowerRises(p, x, a, q, y, b, 2, 3.0);
    PowerRises(p, x, a, q, y, b, 4, 5.0);
    PowerRises(p, x, a, q, y, b, 6, 7.0);
    PowerRises(p, x, a, q, y, b, 8, 9.0);
    PowerRises(p, x, a, q, y, b, 10, 11.0);
    PowerRises(p, x, a, q, y, b, 12, 13.0);
  }

  lemma TwoSteps(p: nat -> real, u: real, v: real, n: nat)
    requires Geometric(p, u) && v == 1.0 - u * u
    ensures p(n) * v == p(n) - p(n + 2)
  {
    assert StepAt(p, u, n) && StepAt(p, u, n + 1);
    TwoFactors(p(n), p(n + 1), p(n + 2), u, v);
  }

  lemma TwoFactors(a: real, b: real, c: real, u: real, v: real)
    requires b == a * u && c == b * u && v == 1.0 - u * u
    ensures a * v == a - c
  {
    assert a * (u * u) == c;
  }

  lemma SixProducts(a: real, b: real, c: real, d: real, e: real, f: real, v: real)
    ensures (a + b + c + d + e + f) * v == a * v + b * v + c * v + d * v + e * v + f * v
  {
  }

  lemma SlopeIsGeometric(p: nat -> real, u: real, v: real)
    requires Geometric(p, u) && v == 1.0 - u * u
    ensures Slope(p) * v == p(0) - p(12)
  {
    TwoSteps(p, u, v, 0);
    TwoSteps(p, u, v, 2);
    TwoSteps(p, u, v, 4);
    TwoSteps(p, u, v, 6);
    TwoSteps(p, u, v, 8);
    TwoSteps(p, u, v, 10);
    SixSteps(p, v);
  }

  lemma SixSteps(p: nat -> real, v: real)
    requires p(0) * v == p(0) - p(2) && p(2) * v == p(2) - p(4) && p(4) * v == p(4) - p(6)
    requires p(6) * v == p(6) - p(8) && p(8) * v == p(8) - p(10) && p(10) * v == p(10) - p(12)
    ensures Slope(p) * v == p(0) - p(12)
  {
    SixProducts(p(0), p(2), p(4), p(6), p(8), p(10), v);
  }

  lemma PairOf(p: nat -> real, x: real, q: nat -> real, y: real) returns (a: nat -> real, b: nat -> real)
    requires Powers(p, x) && Powers(q, y) && 0.0 <= y <= x
    ensures Pair(p, x, a, q, y, b) && a(0) == b(0) == x - y
  {
    a, b := ScaledBy(p, x - y), ScaledBy(q, x - y);
    ScaledIsGeometric(p, a, x, x - y);
    ScaledIsGeometric(q, b, y, x - y);
    assert ScaledAt(p, a, x - y, 0) && ScaledAt(q, b, x - y, 0);
  }

  /** Six terms rise at most as fast as the sum of all. */
  lemma LowRises(p: nat -> real, x: real, q: nat -> real, y: real, d: real)
    requires Powers(p, x) && Powers(q, y) && 0.0 <= y <= x && x * x < 1.0 && d == Low(p) - Low(q)
    ensures d * (1.0 - x * x) <= x - y
  {
    var a, b := PairOf(p, x, q, y);
    LowSlope(p, x, a, q, y, b);
    SlopeIsGeometric(a, x, 1.0 - x * x);
    NotNegative(a, x, 12);
    RealMono(d, Slope(a), 1.0 - x * x);
  }

  /** With the bound for the rest they rise at least as fast, up to a third. */
  lemma HighRises(p: nat -> real, x: real, q: nat -> real, y: real, d: real)
    requires Powers(p, x) && Powers(q, y) && 0.0 <= y <= x && y <= 1.0 / 3.0 && d == High(p) - High(q)
    ensures x - y <= d * (1.0 - y * y)
  {
    var a, b := PairOf(p, x, q, y);
    LowSlope(p, x, a, q, y, b);
    SlopeIsGeometric(b, y, 1.0 - y * y);
    NotNegative(b, y, 12);
    RealMonoBoth(y, 1.0 / 3.0, y, 1.0 / 3.0);
    HighAlgebra(d, Slope(b), b(12), x - y, 1.0 - y * y);
  }

  lemma HighAlgebra(d: real, e: real, rest: real, h: real, c: real)
    requires e + 1.125 * rest <= d && 8.0 / 9.0 <= c && e * c == h - rest && 0.0 <= rest
    ensures h <= d * c
  {
    RealMono(e + 1.125 * rest, d, c);
    RealMono(8.0 / 9.0, c, rest);
    assert (e + 1.125 * rest) * c == e * c + 1.125 * (c * rest);
  }

  // ---- along the fractions (p - j)/(p + j)

  ghost function Fraction(p: nat, j: nat): (u: real)
    requires 0 < j <= p
    ensures 0.0 <= u < 1.0 && u * (p as real + j as real) == p as real - j as real
  {
    var u := (p as real - j as real) / (p as real + j as real);
    FractionBetween(u, p as real, j as real);
    u
  }

  lemma FractionBetween(u: real, p: real, j: real)
    requires 0.0 < j <= p && u * (p + j) == p - j
    ensures 0.0 <= u < 1.0
  {
    RealCancel(0.0, u, p + j);
    if 1.0 <= u { RealMono(1.0, u, p + j); }
  }

  /** x and y are the fractions for j - 1 and j. */
  lemma FractionStep(p: real, j: real, x: real, y: real)
    requires 1.0 < j <= p && x * (p + j - 1.0) == p - j + 1.0 && y * (p + j) == p - j
    ensures (x - y) * ((p + j - 1.0) * (p + j)) == 2.0 * p
    ensures (1.0 - x * x) * ((p + j - 1.0) * (p + j - 1.0)) == 4.0 * p * (j - 1.0)
    ensures (1.0 - y * y) * ((p + j) * (p + j)) == 4.0 * p * j
  {
    var a, b := p + j - 1.0, p + j;
    assert (x - y) * (a * b) == (x * a) * b - (y * b) * a;
    assert (x * x) * (a * a) == (x * a) * (x * a);
    assert (y * y) * (b * b) == (y * b) * (y * b);
    Squares(p, j - 1.0);
    Squares(p, j);
    assert (p - j + 1.0) * b - (p - j) * a == 2.0 * p by {
      assert (p - j + 1.0) * b == (p - j) * b + b;
      assert (p - j) * b == (p - j) * a + (p - j);
    }
  }

  lemma Squares(p: real, j: real)
    ensures (p + j) * (p + j) - (p - j) * (p - j) == 4.0 * p * j
  {
  }

  lemma LowStepAlgebra(d: real, e: real, h: real, a: real, b: real, p: real, i: real)
    requires d * e <= h && h * (a * b) == 2.0 * p && e * (a * a) == 4.0 * p * i
    requires 0.0 < a <= b && 0.0 < p && 0.0 < i
    ensures 2.0 * d * i <= 1.0
  {
    var aab := a * a * b;
    RealMonoBoth(0.0, a, 0.0, a);
    RealMonoBoth(0.0, a * a, 0.0, b);
    RealMono(d * e, h, aab);
    assert d * e * aab == d * (e * (a * a)) * b;
    assert h * aab == h * (a * b) * a;
    RealMono(a, b, 2.0 * p);
    assert d * (4.0 * p * i) * b == (2.0 * d * i) * (2.0 * p * b);
    RealMono(0.0, p, b);
    RealPositive(p, b);
    RealCancel(2.0 * d * i, 1.0, 2.0 * p * b);
  }

  lemma RealPositive(x: real, y: real)
    requires 0.0 < x && 0.0 < y
    ensures 0.0 < x * y
  {
  }

  lemma HighStepAlgebra(d: real, e: real, h: real, a: real, b: real, p: real, j: real)
    requires h <= d * e && h * (a * b) == 2.0 * p && e * (b * b) == 4.0 * p * j
    requires 0.0 < a <= b && 0.0 < p && 0.0 < j
    ensures 1.0 <= 2.0 * d * j
  {
    var bba := b * b * a;
    RealMonoBoth(0.0, b, 0.0, b);
    RealMonoBoth(0.0, b * b, 0.0, a);
    RealMono(h, d * e, bba);
    assert d * e * bba == d * (e * (b * b)) * a;
    assert h * bba == h * (a * b) * b;
    RealMono(a, b, 2.0 * p);
    assert d * (4.0 * p * j) * a == (2.0 * d * j) * (2.0 * p * a);
    RealPositive(p, a);
    RealCancel(1.0, 2.0 * d * j, 2.0 * p * a);
  }

  /** Six terms at the fraction for j, and six terms with the bound for the rest. */
  ghost function LowAt(p: nat, j: nat): real
    requires 0 < j <= p
  {
    Low(PowersOf(Fraction(p, j)))
  }

  ghost function HighAt(p: nat, j: nat): real
    requires 0 < j <= p
  {
    High(PowersOf(Fraction(p, j)))
  }

  lemma SquareBelowOne(x: real)
    requires 0.0 <= x < 1.0
    ensures x * x < 1.0
  {
    RealMono(x, 1.0, x);
  }

  lemma FractionGrows(x: real, y: real, a: real, b: real, p: real)
    requires (x - y) * (a * b) == 2.0 * p && 0.0 < p && 0.0 < a && 0.0 < b
    ensures y <= x
  {
    RealPositive(a, b);
    if x < y { RealMono(x - y, 0.0, a * b); }
  }

  lemma InverseAbove(d: real, i: nat)
    requires 0 < i && 2.0 * d * i as real <= 1.0
    ensures 2.0 * d <= Inverse(i)
  {
    RealCancel(2.0 * d, Inverse(i), i as real);
  }

  lemma InverseBelow(d: real, i: nat)
    requires 0 < i && 1.0 <= 2.0 * d * i as real
    ensures Inverse(i) <= 2.0 * d
  {
    RealCancel(Inverse(i), 2.0 * d, i as real);
  }

  lemma LowStepReal(p: real, i: real, j: real, x: real, y: real, d: real)
    requires 1.0 < j <= p && i == j - 1.0 && x * (p + i) == p - i && y * (p + j) == p - j
    requires d * (1.0 - x * x) <= x - y
    ensures 2.0 * d * (j - 1.0) <= 1.0
  {
    FractionStep(p, j, x, y);
    LowStepAlgebra(d, 1.0 - x * x, x - y, p + j - 1.0, p + j, p, j - 1.0);
  }

  lemma HighStepReal(p: real, i: real, j: real, x: real, y: real, d: real)
    requires 1.0 < j <= p && i == j - 1.0 && x * (p + i) == p - i && y * (p + j) == p - j
    requires x - y <= d * (1.0 - y * y)
    ensures 1.0 <= 2.0 * d * j
  {
    FractionStep(p, j, x, y);
    HighStepAlgebra(d, 1.0 - y * y, x - y, p + j - 1.0, p + j, p, j);
  }

  lemma FractionsGrow(p: real, i: real, j: real, x: real, y: real)
    requires 1.0 < j <= p && i == j - 1.0 && x * (p + i) == p - i && y * (p + j) == p - j
    ensures y <= x
  {
    FractionStep(p, j, x, y);
    FractionGrows(x, y, p + j - 1.0, p + j, p);
  }

  lemma LowStep(p: nat, j: nat, i: nat)
    requires 1 < j <= p && i == j - 1
    ensures 2.0 * (LowAt(p, i) - LowAt(p, j)) <= Inverse(i)
  {
    var x, y := Fraction(p, i), Fraction(p, j);
    FractionsGrow(p as real, i as real, j as real, x, y);
    SquareBelowOne(x);
    var d := LowAt(p, i) - LowAt(p, j);
    LowRises(PowersOf(x), x, PowersOf(y), y, d);
    LowStepReal(p as real, i as real, j as real, x, y, d);
    InverseAbove(d, i);
  }

  lemma AtMostThird(y: real, p: real, j: real)
    requires 0.0 < j <= p <= 2.0 * j && y * (p + j) == p - j
    ensures y <= 1.0 / 3.0
  {
    RealCancel(y, 1.0 / 3.0, p + j);
  }

  lemma HighStep(p: nat, j: nat, i: nat)
    requires 1 < j <= p <= 2 * j && i == j - 1
    ensures Inverse(j) <= 2.0 * (HighAt(p, i) - HighAt(p, j))
  {
    var x, y := Fraction(p, i), Fraction(p, j);
    FractionsGrow(p as real, i as real, j as real, x, y);
    AtMostThird(y, p as real, j as real);
    var d := HighAt(p, i) - HighAt(p, j);
    HighRises(PowersOf(x), x, PowersOf(y), y, d);
    HighStepReal(p as real, i as real, j as real, x, y, d);
    InverseBelow(d, j);
  }

  lemma {:induction false} PowersOfZero(p: nat -> real, n: nat)
    requires Powers(p, 0.0) && 0 < n
    ensures p(n) == 0.0
  {
    assert StepAt(p, 0.0, n - 1);
  }

  lemma AtZero(p: nat)
    requires 0 < p
    ensures LowAt(p, p) == 0.0 && HighAt(p, p) == 0.0
  {
    var u := Fraction(p, p);
    RealCancelEqual(u, 0.0, p as real + p as real);
    var powers := PowersOf(u);
    PowersOfZero(powers, 1);
    PowersOfZero(powers, 3);
    PowersOfZero(powers, 5);
    PowersOfZero(powers, 7);
    PowersOfZero(powers, 9);
    PowersOfZero(powers, 11);
    PowersOfZero(powers, 13);
  }

  /** Twice six terms are at most the sum of 1/j to 1/(p - 1). */
  lemma {:induction false} LowSum(p: nat, j: nat)
    requires 0 < j <= p
    ensures 2.0 * LowAt(p, j) <= Harmonic(j, p) + Inverse(j) - Inverse(p)
    decreases p - j
  {
    if j == p {
      AtZero(p);
    } else {
      LowSum(p, j + 1);
      LowStep(p, j + 1, j);
      HarmonicAdds(j, j + 1, p);
      assert Harmonic(j, j + 1) == Inverse(j + 1);
    }
  }

  /** With the bound for the rest they are at least the sum of 1/(j + 1) to 1/p, within an octave. */
  lemma {:induction false} HighSum(p: nat, j: nat)
    requires 0 < j <= p <= 2 * j
    ensures Harmonic(j, p) <= 2.0 * HighAt(p, j)
    decreases p - j
  {
    if j == p {
      AtZero(p);
    } else {
      HighSum(p, j + 1);
      HighStep(p, j + 1, j);
      HarmonicAdds(j, j + 1, p);
      assert Harmonic(j, j + 1) == Inverse(j + 1);
    }
  }
}
