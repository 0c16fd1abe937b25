/**
 How close the integer logarithm comes to 10^6 * log2(p/q). The reference for ln(p/q) is the sum of the
 reciprocals from nq + 1 to np: it adds up exactly over ratios, and for growing n it is the logarithm.
 */
module Log2Accuracy {
  import opened Arith
  import opened Reals
  import opened Harmonics
  import opened Artanh
  import opened Log2

  // ---- the series has at most six terms

  lemma TermsFall(k: nat, num: nat, den: nat)
    requires num < den
    ensures Term(k + 1, num, den) <= Term(k, num, den)
  {
    if k == 0 {
      PowersOrdered(num, den);
      CubeBelow(num, den);
      DivNonneg(Chain(1, num, den), 3);
    } else {
      ChainShrinks(k, num, den);
      DivMono(Chain(k + 1, num, den), Chain(k, num, den), 2 * k + 3);
      DivLarger(Chain(k, num, den), 2 * k + 1, 2 * k + 3);
    }
  }

  lemma CubeBelow(num: nat, den: nat)
    requires num < den
    ensures 0 < Cube(den) && Floor(TWO_DIV_LN2 * Cube(num), Cube(den)) <= Floor(TWO_DIV_LN2 * num, den)
  {
    PowersPositive(den);
    PowersOrdered(num, den);
    MulMono(Square(num), Square(den), num * den);
    MulSwap(num * num, num, den);
    MulSwap(num, den, den * den);
    assert Cube(num) * den == Square(num) * (num * den);
    assert num * Cube(den) == Square(den) * (num * den);
    FractionMono(TWO_DIV_LN2, Cube(num), Cube(den), TWO_DIV_LN2, num, den);
  }

  lemma DivLarger(a: nat, d: nat, e: nat)
    requires 0 < d <= e
    ensures a / e <= a / d
  {
    DivBounds(a, e);
    DivNonneg(a, e);
    MulMonoBoth(a / e, a / e, d, e);
    DivAtLeast(a, d, a / e);
  }

  /** The terms from k to the sixth. */
  function SixTerms(k: nat, num: nat, den: nat): nat
    requires 0 < den
    decreases 6 - k
  {
    if k >= 6 then 0 else Term(k, num, den) + SixTerms(k + 1, num, den)
  }

  lemma {:induction false} NoMoreTerms(k: nat, num: nat, den: nat)
    requires num < den && Term(k, num, den) == 0
    ensures SixTerms(k, num, den) == 0
    decreases 6 - k
  {
    if k < 6 {
      TermsFall(k, num, den);
      NoMoreTerms(k + 1, num, den);
    }
  }

  lemma SeventhTermIsZero(num: nat, den: nat)
    requires 0 < den && 3 * num <= den
    ensures Term(6, num, den) == 0
  {
    TermMono(6, num, den, 1, 3);
    ChainsAtThird();
  }

  lemma {:induction false} SeriesIsSixTerms(k: nat, num: nat, den: nat)
    requires 0 < den && 3 * num <= den && k <= 6
    ensures num < den && Series(k, num, den) == SixTerms(k, num, den)
    decreases 6 - k
  {
    if Term(k, num, den) == 0 {
      NoMoreTerms(k, num, den);
    } else {
      SeventhTermIsZero(num, den);
      TermDecreasesMeasure(k, num, den);
      SeriesIsSixTerms(k + 1, num, den);
    }
  }

  // ---- each term is rounded down by little more than one

  const C: real := 2_885_390.0

  /** a/b as a real is v, and xv is x times v. */
  lemma FloorNear(x: nat, a: nat, b: nat, v: real, xv: real)
    requires 0 < b && v * b as real == a as real && xv == x as real * v
    ensures xv - 1.0 <= Floor(x * a, b) as real <= xv
  {
    var f := Floor(x * a, b);
    DivBounds(x * a, b);
    RealProduct(f, b);
    RealProduct(x, a);
    FloorNearReal(f as real, x as real, a as real, b as real, v, xv);
  }

  lemma FloorNearReal(f: real, x: real, a: real, b: real, v: real, xv: real)
    requires 0.0 < b && v * b == a && f * b <= x * a <= f * b + b && xv == x * v
    ensures xv - 1.0 <= f <= xv
  {
    var t := Regrouped(x, v, b, a, xv);
    QuotientBetween(f, xv, b, t);
  }

  lemma Regrouped(x: real, v: real, b: real, a: real, xv: real) returns (t: real)
    requires v * b == a && xv == x * v
    ensures t == xv * b && t == x * a
  {
    assert x * v * b == x * (v * b);
    t := x * a;
  }

  lemma QuotientBetween(f: real, g: real, b: real, t: real)
    requires 0.0 < b && f * b <= t <= f * b + b && t == g * b
    ensures g - 1.0 <= f <= g
  {
    QuotientBelow(f, g, b, t);
    QuotientAbove(f, g, b, t);
  }

  lemma QuotientAbove(f: real, g: real, b: real, t: real)
    requires 0.0 < b && f * b <= t && t == g * b
    ensures f <= g
  {
  }

  lemma QuotientBelow(f: real, g: real, b: real, t: real)
    requires 0.0 < b && t <= f * b + b && t == g * b
    ensures g - 1.0 <= f
  {
    var d := g - 1.0 - f;
    Difference(g, f, b);
    RealCancel(d, 0.0, b);
  }

  lemma Difference(g: real, f: real, b: real)
    ensures (g - 1.0 - f) * b == g * b - b - f * b
  {
  }

  lemma LessByConstant(y: real, c: real, v: real)
    ensures (y - c) * v == y * v - c * v
  {
  }

  lemma ProductNear(x: real, y: real, v: real, xv: real, yv: real)
    requires y - 1.125 <= x <= y && 0.0 <= v && xv == x * v && yv == y * v
    ensures yv - 1.125 * v <= xv <= yv
  {
    RealMono(x, y, v);
    RealMono(y - 1.125, x, v);
    LessByConstant(y, 1.125, v);
  }

  /** v is at most a ninth and the chain so far is at most nine eighths below y. */
  lemma FloorNext(f: nat, x: nat, a: nat, b: nat, y: real, v: real, xv: real, yv: real)
    requires 0 < b && v * b as real == a as real && 0.0 <= v <= 1.0 / 9.0 && f == Floor(x * a, b)
    requires y - 1.125 <= x as real <= y && xv == x as real * v && yv == y * v
    ensures yv - 1.125 <= f as real <= yv
  {
    FloorNear(x, a, b, v, xv);
    ProductNear(x as real, y, v, xv, yv);
  }

  /** u is num/den, at most a third, and b are its powers times 2/ln 2. */
  ghost predicate Argument(b: nat -> real, u: real, num: nat, den: nat) {
    && 0 < den && 3 * num <= den && u * den as real == num as real
    && 0.0 <= u <= 1.0 / 3.0 && b(0) == C && Geometric(b, u)
  }

  lemma SquareAtMostNinth(u: real)
    requires 0.0 <= u <= 1.0 / 3.0
    ensures 0.0 <= u * u <= 1.0 / 9.0
  {
    RealMonoBoth(u, 1.0 / 3.0, u, 1.0 / 3.0);
  }

  lemma RatioOfPowers(u: real, num: nat, den: nat)
    requires u * den as real == num as real
    ensures (u * u) * Square(den) as real == Square(num) as real
    ensures (u * u * u) * Cube(den) as real == Cube(num) as real
  {
    RealProduct(den, den);
    RealProduct(num, num);
    RealProduct(Square(den), den);
    RealProduct(Square(num), num);
    PowersOfRatio(u, num as real, den as real);
  }

  lemma PowersOfRatio(u: real, a: real, b: real)
    requires u * b == a
    ensures (u * u) * (b * b) == a * a && (u * u * u) * (b * b * b) == a * a * a
  {
    assert (u * u) * (b * b) == (u * b) * (u * b);
    assert (u * u * u) * (b * b * b) == ((u * u) * (b * b)) * (u * b);
  }

  lemma Cubed(b: nat -> real, u: real)
    requires b(0) == C && Geometric(b, u)
    ensures b(1) == C * u && b(3) == C * (u * u * u)
  {
    assert StepAt(b, u, 0) && StepAt(b, u, 1) && StepAt(b, u, 2);
    ThreeSteps(C, b(1), b(2), b(3), u);
  }

  lemma ThreeSteps(c: real, b1: real, b2: real, b3: real, u: real)
    requires b1 == c * u && b2 == b1 * u && b3 == b2 * u
    ensures b3 == c * (u * u * u)
  {
    assert b2 == c * (u * u);
  }

  lemma FirstChainNear(b: nat -> real, u: real, num: nat, den: nat)
    requires Argument(b, u, num, den)
    ensures b(3) - 1.0 <= Chain(1, num, den) as real <= b(3)
  {
    RatioOfPowers(u, num, den);
    PowersPositive(den);
    Cubed(b, u);
    FloorNear(TWO_DIV_LN2, Cube(num), Cube(den), u * u * u, b(3));
  }

  lemma TwoMore(b: nat -> real, u: real, n: nat)
    requires Geometric(b, u)
    ensures b(n) * (u * u) == b(n + 2)
  {
    assert StepAt(b, u, n) && StepAt(b, u, n + 1);
    TwoSquares(b(n), b(n + 1), b(n + 2), u);
  }

  lemma TwoSquares(a: real, b: real, c: real, u: real)
    requires b == a * u && c == b * u
    ensures a * (u * u) == c
  {
  }

  lemma NextChain(k: nat, num: nat, den: nat, square: nat, square': nat)
    requires 0 < den && 1 < k && square == Square(num) && square' == Square(den)
    ensures 0 < square' && Chain(k, num, den) == Floor(Chain(k - 1, num, den) * square, square')
  {
    PowersPositive(den);
  }

  ghost predicate NearBelow(f: nat, y: real) {
    y - 1.125 <= f as real <= y
  }

  lemma ChainNext(f: nat, x: nat, a: nat, c: nat, b: nat -> real, u: real, n: nat)
    requires 0 < c && (u * u) * c as real == a as real && f == Floor(x * a, c)
    requires 0.0 <= u <= 1.0 / 3.0 && Geometric(b, u) && NearBelow(x, b(n))
    ensures NearBelow(f, b(n + 2))
  {
    SquareAtMostNinth(u);
    TwoMore(b, u, n);
    var v := u * u;
    FloorNext(f, x, a, c, b(n), v, x as real * v, b(n + 2));
  }

  lemma {:induction false} ChainNear(k: nat, b: nat -> real, u: real, num: nat, den: nat, square: nat, square': nat)
    requires Argument(b, u, num, den) && 0 < k
    requires square == Square(num) && square' == Square(den) && (u * u) * square' as real == square as real
    ensures NearBelow(Chain(k, num, den), b(2 * k + 1))
  {
    if k == 1 {
      FirstChainNear(b, u, num, den);
    } else {
      ChainNear(k - 1, b, u, num, den, square, square');
      NextChain(k, num, den, square, square');
      ChainNext(Chain(k, num, den), Chain(k - 1, num, den), square, square', b, u, 2 * k - 1);
    }
  }

  lemma FloorTimes(a: nat, d: nat, f: nat)
    requires 0 < d && f == Floor(a, d)
    ensures a - (d - 1) <= d * f <= a
  {
    DivBounds(a, d);
    assert f * d == d * f;
  }

  /** Term k times d = 2k + 1. */
  lemma TermNear(k: nat, d: nat, b: nat -> real, u: real, num: nat, den: nat)
    requires Argument(b, u, num, den) && 0 < k && d == 2 * k + 1
    ensures b(d) - 0.125 - d as real <= (d * Term(k, num, den)) as real <= b(d)
  {
    RatioOfPowers(u, num, den);
    ChainNear(k, b, u, num, den, Square(num), Square(den));
    FloorTimes(Chain(k, num, den), d, Term(k, num, den));
  }

  lemma FirstTermNear(b: nat -> real, u: real, num: nat, den: nat)
    requires Argument(b, u, num, den)
    ensures b(1) - 1.0 <= Term(0, num, den) as real <= b(1)
  {
    Cubed(b, u);
    FloorNear(TWO_DIV_LN2, num, den, u, b(1));
  }

  /** The series is less than 6.11 below six exact terms, and not above them. */
  lemma SeriesNear(b: nat -> real, u: real, num: nat, den: nat)
    requires Argument(b, u, num, den)
    ensures num < den && Low(b) - 6.11 <= Series(0, num, den) as real <= Low(b)
  {
    SeriesIsSixTerms(0, num, den);
    FirstTermNear(b, u, num, den);
    TermNear(1, 3, b, u, num, den);
    TermNear(2, 5, b, u, num, den);
    TermNear(3, 7, b, u, num, den);
    TermNear(4, 9, b, u, num, den);
    TermNear(5, 11, b, u, num, den);
    AddedUp(num, den);
    SixNear(b, Term(0, num, den), Term(1, num, den), Term(2, num, den), Term(3, num, den), Term(4, num, den),
            Term(5, num, den));
  }

  lemma AddedUp(num: nat, den: nat)
    requires 0 < den
    ensures SixTerms(0, num, den) == Term(0, num, den) + Term(1, num, den) + Term(2, num, den) + Term(3, num, den)
                                     + Term(4, num, den) + Term(5, num, den)
  {
    assert SixTerms(4, num, den) == Term(4, num, den) + Term(5, num, den);
    assert SixTerms(2, num, den) == Term(2, num, den) + Term(3, num, den) + SixTerms(4, num, den);
  }

  lemma SixNear(p: nat -> real, a: nat, b: nat, c: nat, d: nat, e: nat, f: nat)
    requires p(1) - 1.0 <= a as real <= p(1)
    requires p(3) - 3.125 <= (3 * b) as real <= p(3)
    requires p(5) - 5.125 <= (5 * c) as real <= p(5)
    requires p(7) - 7.125 <= (7 * d) as real <= p(7)
    requires p(9) - 9.125 <= (9 * e) as real <= p(9)
    requires p(11) - 11.125 <= (11 * f) as real <= p(11)
    ensures Low(p) - 6.11 <= (a + b + c + d + e + f) as real <= Low(p)
  {
  }

  // ---- one octave against the sum of reciprocals

  lemma RatioOfMultiples(u: real, n: real, p: real, q: real, np: real, nq: real)
    requires 0.0 < n && np == n * p && nq == n * q && u * (np + nq) == np - nq
    ensures u * (p + q) == p - q
  {
    var left, right := u * (p + q), p - q;
    assert left * n == u * (np + nq);
    assert right * n == np - nq;
    RealCancelEqual(left, right, n);
  }

  lemma ThirdPowers(p: nat -> real)
    requires Powers(p, 1.0 / 3.0)
    ensures p(1) == 1.0 / 3.0 && p(3) == 1.0 / 27.0 && p(5) == 1.0 / 243.0 && p(7) == 1.0 / 2187.0
    ensures p(9) == 1.0 / 19683.0 && p(11) == 1.0 / 177147.0 && p(13) == 1.0 / 1594323.0
  {
    assert StepAt(p, 1.0 / 3.0, 0) && StepAt(p, 1.0 / 3.0, 1) && StepAt(p, 1.0 / 3.0, 2) && StepAt(p, 1.0 / 3.0, 3);
    assert StepAt(p, 1.0 / 3.0, 4) && StepAt(p, 1.0 / 3.0, 5) && StepAt(p, 1.0 / 3.0, 6) && StepAt(p, 1.0 / 3.0, 7);
    assert StepAt(p, 1.0 / 3.0, 8) && StepAt(p, 1.0 / 3.0, 9) && StepAt(p, 1.0 / 3.0, 10) && StepAt(p, 1.0 / 3.0, 11);
    assert StepAt(p, 1.0 / 3.0, 12);
  }

  lemma LowOfMultiple(p: nat -> real, b: nat -> real)
    requires Scaled(p, b, C)
    ensures Low(b) == C * Low(p)
  {
    assert ScaledAt(p, b, C, 1) && ScaledAt(p, b, C, 3) && ScaledAt(p, b, C, 5);
    assert ScaledAt(p, b, C, 7) && ScaledAt(p, b, C, 9) && ScaledAt(p, b, C, 11);
  }

  lemma RestIsSmall(p: nat -> real, u: real)
    requires Powers(p, u) && 0.0 <= u <= 1.0 / 3.0
    ensures C * High(p) <= C * Low(p) + 0.16
  {
    var third := PowersOf(1.0 / 3.0);
    PowerMono(third, 1.0 / 3.0, p, u, 13);
    ThirdPowers(third);
  }

  lemma MultiplesInOctave(p: nat, q: nat, n: nat, np: nat, nq: nat)
    requires 0 < n && 1 <= q <= p < 2 * q && np == n * p && nq == n * q
    ensures 0 < nq <= np <= 2 * nq
  {
    MulMonoBoth(1, n, 1, q);
    MulMonoBoth(n, n, q, p);
    MulMonoBoth(n, n, p, 2 * q);
    MulSwap(n, 2, q);
  }

  lemma FractionOfMultiples(p: nat, q: nat, n: nat, np: nat, nq: nat)
    requires 0 < n && 1 <= q <= p && np == n * p && nq == n * q && 0 < nq <= np
    ensures Fraction(np, nq) * (p + q) as real == (p - q) as real
  {
    RealProduct(n, p);
    RealProduct(n, q);
    RatioOfMultiples(Fraction(np, nq), n as real, p as real, q as real, np as real, nq as real);
  }

  lemma MultipleOfPowers(p: nat -> real, u: real) returns (b: nat -> real)
    requires Powers(p, u)
    ensures b(0) == C && Geometric(b, u) && Low(b) == C * Low(p)
  {
    b := ScaledBy(p, C);
    ScaledIsGeometric(p, b, u, C);
    assert ScaledAt(p, b, C, 0);
    LowOfMultiple(p, b);
  }

  lemma OctaveArgument(p: nat, q: nat, np: nat, nq: nat, u: real) returns (b: nat -> real)
    requires 1 <= q <= p < 2 * q && 0 < nq <= np <= 2 * nq
    requires u == Fraction(np, nq) && u * (p + q) as real == (p - q) as real
    ensures Argument(b, u, p - q, p + q) && Low(b) == C * LowAt(np, nq)
    ensures C * HighAt(np, nq) <= C * LowAt(np, nq) + 0.16
  {
    AtMostThird(u, np as real, nq as real);
    b := MultipleOfPowers(PowersOf(u), u);
    RestIsSmall(PowersOf(u), u);
  }

  /** Twice the series of an octave against the sum of reciprocals. */
  lemma OctaveNear(p: nat, q: nat, n: nat, np: nat, nq: nat)
    requires 0 < n && 1 <= q <= p < 2 * q && np == n * p && nq == n * q
    ensures 0 < nq
    ensures C * Harmonic(nq, np) - 12.54 <= 2.0 * Series(0, p - q, p + q) as real <= C * (Harmonic(nq, np) + Inverse(nq))
  {
    MultiplesInOctave(p, q, n, np, nq);
    FractionOfMultiples(p, q, n, np, nq);
    var b := OctaveArgument(p, q, np, nq, Fraction(np, nq));
    SeriesNear(b, Fraction(np, nq), p - q, p + q);
    LowSum(np, nq);
    HighSum(np, nq);
  }

  // ---- ln 2

  /** Fine enough for the reciprocals of more than n to be negligible. */
  const FINE: nat := 1_000_000_000_000_000

  lemma InverseOfFine(n: nat)
    requires FINE <= n
    ensures Inverse(n) * 1_000_000_000_000_000.0 <= 1.0
  {
    RealMono(FINE as real, n as real, Inverse(n));
  }

  lemma FractionOfDouble(n: nat)
    requires 0 < n
    ensures Fraction(2 * n, n) == 1.0 / 3.0
  {
    RealCancelEqual(Fraction(2 * n, n), 1.0 / 3.0, 3.0 * n as real);
  }

  lemma Ln2Bounds(n: nat)
    requires FINE <= n
    ensures 1_999_999.6 <= C * Ln2(n) <= 2_000_000.0
    ensures 0.69 <= Ln2(n) <= 0.7
  {
    FractionOfDouble(n);
    ThirdPowers(PowersOf(1.0 / 3.0));
    LowSum(2 * n, n);
    HighSum(2 * n, n);
    InverseOfFine(n);
  }

  // ---- the logarithm

  /** The logarithm times ln 2 against the sum h of reciprocals; d is at least the number of doublings. */
  ghost predicate Accurate(log: nat, ln2: real, h: real, step: real, d: nat) {
    1_000_000.0 * h - 6.6 * ln2 - Times(d, 1_000_000.0 * step) <= Times(log, ln2) <= 1_000_000.0 * (h + step)
  }

  lemma BelowMultiple(s: real, t: real, l: real)
    requires s <= 2_885_390.0 * t && 0.0 <= l
    ensures s * l <= 2_885_390.0 * (t * l)
  {
    RealMono(s, 2_885_390.0 * t, l);
  }

  lemma MultipleBelow(t: real, l: real)
    requires 2_885_390.0 * l <= 2_000_000.0 && 0.0 <= t
    ensures 2_885_390.0 * (t * l) <= 2_000_000.0 * t
  {
    RealMono(2_885_390.0 * l, 2_000_000.0, t);
  }

  lemma OctaveUpper(s: real, t: real, l: real)
    requires s <= 2_885_390.0 * t && 2_885_390.0 * l <= 2_000_000.0 && 0.0 <= t && 0.0 <= l
    ensures s * l <= 2_000_000.0 * t
  {
    BelowMultiple(s, t, l);
    MultipleBelow(t, l);
  }

  lemma OctaveLower(s: real, t: real, l: real)
    requires 2_885_390.0 * t - 12.54 <= s && 1_999_999.6 <= 2_885_390.0 * l && 0.0 <= t && 0.0 <= l
    ensures 1_999_999.6 * t - 12.54 * l <= s * l
  {
    RealMono(2_885_390.0 * t - 12.54, s, l);
    RealMono(1_999_999.6, 2_885_390.0 * l, t);
    LessByConstant(2_885_390.0 * t, 12.54, l);
  }

  lemma Doubled(s: real, l: real, x: real)
    requires x == s * l
    ensures 2.0 * s * l == 2.0 * x
  {
  }

  lemma OctaveAlgebra(s: real, l: real, h: real, step: real, x: real)
    requires x == s * l
    requires C * h - 12.54 <= 2.0 * s <= C * (h + step) && 0.0 <= h <= 0.71 && 0.0 <= step
    requires 1_999_999.6 <= C * l <= 2_000_000.0 && 0.69 <= l
    ensures 1_000_000.0 * h - 6.6 * l <= x <= 1_000_000.0 * (h + step)
  {
    OctaveUpper(2.0 * s, h + step, l);
    OctaveLower(2.0 * s, h, l);
    Doubled(s, l, x);
  }

  /** Within an octave the sum of reciprocals is at most ln 2, up to one step. */
  lemma OctaveIsShort(n: nat, p: nat, q: nat)
    requires FINE <= n && 1 <= q <= p < 2 * q
    ensures 0.0 <= Ln(n, p, q) <= 0.71
  {
    LnAdds(n, 2 * q, p, q);
    LnOfDouble(n, q);
    Ln2Bounds(n);
    InverseOfFine(n);
  }

  lemma OctaveFacts(n: nat, p: nat, q: nat)
    requires FINE <= n && 1 <= q <= p < 2 * q
    ensures C * Ln(n, p, q) - 12.54 <= 2.0 * Series(0, p - q, p + q) as real <= C * (Ln(n, p, q) + Inverse(n))
  {
    MultipleIsProduct(n, p);
    MultipleIsProduct(n, q);
    OctaveNear(p, q, n, Multiple(n, p), Multiple(n, q));
    MulMonoBoth(n, n, 1, q);
    InverseAntitone(n, Multiple(n, q));
  }

  lemma OctaveIsAccurate(n: nat, p: nat, q: nat)
    requires FINE <= n && 1 <= q <= p < 2 * q
    ensures Accurate(Logarithm(p, q), Ln2(n), Ln(n, p, q), Inverse(n), p - q)
  {
    OctaveFacts(n, p, q);
    OctaveIsShort(n, p, q);
    Ln2Bounds(n);
    OctaveBy(Logarithm(p, q), Ln2(n), Ln(n, p, q), Inverse(n), p - q);
  }

  lemma OctaveBy(log: nat, ln2: real, h: real, step: real, d: nat)
    requires C * h - 12.54 <= 2.0 * log as real <= C * (h + step) && 0.0 <= h <= 0.71 && 0.0 <= step
    requires 1_999_999.6 <= C * ln2 <= 2_000_000.0 && 0.69 <= ln2
    ensures Accurate(log, ln2, h, step, d)
  {
    TimesIsProduct(log, ln2);
    OctaveAlgebra(log as real, ln2, h, step, Times(log, ln2));
    TimesNotNegative(d, 1_000_000.0 * step);
  }

  lemma AccurateNext(log: nat, ln2: real, h: real, h': real, step: real, d: nat, d': nat)
    requires Accurate(log, ln2, h, step, d) && d < d' && 0.0 <= step && h + ln2 <= h' <= h + ln2 + step
    ensures Accurate(1_000_000 + log, ln2, h', step, d')
  {
    TimesAdds(1_000_000, log, ln2);
    TimesIsProduct(1_000_000, ln2);
    TimesMono(d + 1, d', 1_000_000.0 * step);
  }

  lemma {:induction false} LogarithmAccurate(n: nat, p: nat, q: nat)
    requires FINE <= n && 1 <= q <= p
    ensures Accurate(Logarithm(p, q), Ln2(n), Ln(n, p, q), Inverse(n), p - q)
    decreases p - q
  {
    if p < 2 * q {
      OctaveIsAccurate(n, p, q);
    } else {
      LogarithmAccurate(n, p, 2 * q);
      LnAdds(n, p, 2 * q, q);
      LnOfDouble(n, q);
      AccurateNext(Logarithm(p, 2 * q), Ln2(n), Ln(n, p, 2 * q), Ln(n, p, q), Inverse(n), p - 2 * q, p - q);
    }
  }

  lemma FineSteps(d: nat, step: real)
    requires d <= MILLION && 0.0 <= step && step * 1_000_000_000_000_000.0 <= 1.0
    ensures Times(d, 1_000_000.0 * step) <= 0.001
  {
    TimesIsProduct(d, 1_000_000.0 * step);
    RealMonoBoth(d as real, 1_000_000.0, 1_000_000.0 * step, 0.000_000_001);
  }

  lemma SevenMore(log: nat, ln2: real)
    ensures Times(log + 7, ln2) == Times(log, ln2) + 7.0 * ln2
  {
    TimesAdds(log, 7, ln2);
    TimesIsProduct(7, ln2);
  }

  /** For every ratio up to a million the result is at most seven millionths below the logarithm and not above
      it, up to one of n steps: with ln the sum of reciprocals, for every fine enough n. */
  lemma LogarithmIsAccurate(n: nat, p: nat, q: nat)
    requires FINE <= n && 1 <= q <= p <= MILLION
    ensures Times(Logarithm(p, q), Ln2(n)) <= 1_000_000.0 * (Ln(n, p, q) + Inverse(n))
    ensures 1_000_000.0 * Ln(n, p, q) <= Times(Logarithm(p, q) + 7, Ln2(n))
  {
    LogarithmAccurate(n, p, q);
    InverseOfFine(n);
    Ln2Bounds(n);
    FineSteps(p - q, Inverse(n));
    SevenMore(Logarithm(p, q), Ln2(n));
  }

  // ---- near convexity

  ghost predicate WithinSeven(log: nat, ln2: real, h: real, step: real) {
    Times(log, ln2) <= 1_000_000.0 * (h + step) && 1_000_000.0 * h <= Times(log + 7, ln2)
  }

  lemma LogarithmWithin(n: nat, p: nat, q: nat)
    requires FINE <= n && 1 <= q <= p <= MILLION
    ensures WithinSeven(Logarithm(p, q), Ln2(n), Ln(n, p, q), Inverse(n))
  {
    LogarithmIsAccurate(n, p, q);
  }

  /** a, b are values for q - m and q, and a', b' for q' - m and q'. */
  lemma ConvexAlgebra(a: nat, b: nat, a': nat, b': nat, ln2: real, ha: real, hb: real, ha': real, hb': real, step: real)
    requires 0.69 <= ln2 && 0.0 <= step <= 0.000_000_1 && ha - hb <= ha' - hb'
    requires WithinSeven(a, ln2, ha, step) && WithinSeven(b, ln2, hb, step)
    requires WithinSeven(a', ln2, ha', step) && WithinSeven(b', ln2, hb', step)
    ensures a - b <= a' - b' + 14
  {
    TimesAdds(a, b', ln2);
    TimesAdds(a' + 7, b + 7, ln2);
    TimesAdds(a' + b + 14, 1, ln2);
    assert Times(1, ln2) == ln2;
    if a' + b + 15 <= a + b' { TimesMono(a' + b + 15, a + b', ln2); }
  }

  /** The integer logarithm is convex up to 14 millionths: a step of m down from a smaller q' raises it by as
      much as one from q. */
  lemma LogarithmNearlyConvex(p: nat, q: nat, q': nat, m: nat)
    requires 1 <= q' - m <= q' <= q <= p <= MILLION
    ensures Logarithm(p, q - m) - Logarithm(p, q) <= Logarithm(p, q' - m) - Logarithm(p, q') + 14
  {
    var n := FINE;
    LogarithmWithin(n, p, q - m);
    LogarithmWithin(n, p, q);
    LogarithmWithin(n, p, q' - m);
    LogarithmWithin(n, p, q');
    LnDifferences(n, p, q, q', m);
    Ln2Bounds(n);
    InverseOfFine(n);
    ConvexAlgebra(Logarithm(p, q - m), Logarithm(p, q), Logarithm(p, q' - m), Logarithm(p, q'), Ln2(n),
                  Ln(n, p, q - m), Ln(n, p, q), Ln(n, p, q' - m), Ln(n, p, q'), Inverse(n));
  }

  lemma LnDifferences(n: nat, p: nat, q: nat, q': nat, m: nat)
    requires m <= q' <= q <= p
    ensures Ln(n, p, q - m) - Ln(n, p, q) <= Ln(n, p, q' - m) - Ln(n, p, q')
  {
    LnAdds(n, p, q, q - m);
    LnAdds(n, p, q', q' - m);
    LnShift(n, q, q', m);
  }
}
