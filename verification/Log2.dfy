/** Integer base-2 logarithm in parts per million, by a truncated Taylor series. */
module Log2 {
  import opened Arith

  const MILLION: nat := 1_000_000
  const TWO_DIV_LN2: nat := 2_885_390
  const U32_MAX: nat := 0xFFFF_FFFF
  const U128_MAX: nat := 0xFFFF_FFFF_FFFF_FFFF_FFFF_FFFF_FFFF_FFFF

  function Pow2(n: nat): (r: nat)
    ensures r >= 1
  {
    if n == 0 then 1 else 2 * Pow2(n - 1)
  }

  // ---- the series

  function Square(x: nat): nat { x * x }

  function Cube(x: nat): nat { x * x * x }

  lemma PowersPositive(x: nat)
    requires 0 < x
    ensures 0 < Square(x) && 0 < Cube(x)
  {
    MulMonoBoth(1, x, 1, x);
    MulMonoBoth(1, x * x, 1, x);
  }

  /** The k-th power product before it is divided by 2k + 1. */
  function Chain(k: nat, num: nat, den: nat): nat
    requires 0 < den && 0 < k
  {
    PowersPositive(den);
    if k == 1 then Floor(TWO_DIV_LN2 * Cube(num), Cube(den))
    else Floor(Chain(k - 1, num, den) * Square(num), Square(den))
  }

  /** The k-th term, each step rounded down. */
  function Term(k: nat, num: nat, den: nat): nat
    requires 0 < den
  {
    if k == 0 then Floor(TWO_DIV_LN2 * num, den) else Floor(Chain(k, num, den), 2 * k + 1)
  }

  ghost function Measure(k: nat, num: nat, den: nat): nat
    requires 0 < den
  {
    if k == 0 then TWO_DIV_LN2 + 1 else Chain(k, num, den)
  }

  lemma FloorShrinks(x: nat, a: nat, b: nat)
    requires a < b
    ensures x * a / b <= x && (0 < x ==> x * a / b < x)
  {
    DivBounds(x * a, b);
    MulMono(a, b, x);
    if 0 < x {
      MulMono(a + 1, b, x);
      var q := x * a / b;
      if x <= q { MulMono(x, q, b); }
    } else {
      DivUnique(0, b, 0);
    }
  }

  lemma PowersOrdered(num: nat, den: nat)
    requires num < den
    ensures Square(num) < Square(den) && Cube(num) < Cube(den)
  {
    MulMonoBoth(num, den - 1, num, den);
    MulPlusOne(den - 1, den);
    MulMonoBoth(num * num, den * den - 1, num, den);
    MulPlusOne(den * den - 1, den);
  }

  /** For a fraction below one the chain shrinks until it is zero. */
  lemma ChainShrinks(k: nat, num: nat, den: nat)
    requires num < den && 0 < k
    ensures Chain(1, num, den) <= TWO_DIV_LN2
    ensures Chain(k + 1, num, den) <= Chain(k, num, den)
    ensures 0 < Chain(k, num, den) ==> Chain(k + 1, num, den) < Chain(k, num, den)
  {
    PowersOrdered(num, den);
    FloorShrinks(TWO_DIV_LN2, Cube(num), Cube(den));
    FloorShrinks(Chain(k, num, den), Square(num), Square(den));
  }

  lemma TermDecreasesMeasure(k: nat, num: nat, den: nat)
    requires num < den && Term(k, num, den) != 0
    ensures Measure(k + 1, num, den) < Measure(k, num, den)
  {
    if k > 0 {
      ChainShrinks(k, num, den);
      if Chain(k, num, den) == 0 { DivUnique(0, 2 * k + 1, 0); }
    } else {
      ChainShrinks(1, num, den);
    }
  }

  /** The terms from k on, up to the first that is zero. */
  function Series(k: nat, num: nat, den: nat): nat
    requires num < den
    decreases Measure(k, num, den)
  {
    var term := Term(k, num, den);
    if term == 0 then 0
    else
      TermDecreasesMeasure(k, num, den);
      term + Series(k + 1, num, den)
  }

  /** One million for each doubling of q that does not exceed p, and the series for what is left. */
  function Logarithm(p: nat, q: nat): nat
    requires 1 <= q <= p
    decreases p - q
  {
    if p < 2 * q then Series(0, p - q, p + q) else MILLION + Logarithm(p, 2 * q)
  }

  // ---- octaves

  lemma {:induction false} Pow2Mono(m: nat, n: nat)
    requires m <= n
    ensures Pow2(m) <= Pow2(n)
    decreases n
  {
    if m < n { Pow2Mono(m, n - 1); }
  }

  // ---- the series grows with the fraction

  lemma PowersMono(a: nat, b: nat, c: nat, d: nat)
    requires a * d <= c * b
    ensures Square(a) * Square(d) <= Square(c) * Square(b)
    ensures Cube(a) * Cube(d) <= Cube(c) * Cube(b)
  {
    MulMonoBoth(a * d, c * b, a * d, c * b);
    SquareProduct(a, d);
    SquareProduct(c, b);
    MulMonoBoth((a * d) * (a * d), (c * b) * (c * b), a * d, c * b);
    CubeProduct(a, d);
    CubeProduct(c, b);
  }

  lemma SquareProduct(a: nat, b: nat)
    ensures (a * b) * (a * b) == Square(a) * Square(b)
  {
    MulSwap(a, b, a * b);
    MulSwap(a, a, b);
    MulSwap(a * a, b, b);
  }

  lemma CubeProduct(a: nat, b: nat)
    ensures (a * b) * (a * b) * (a * b) == Cube(a) * Cube(b)
  {
    SquareProduct(a, b);
    MulSwap(a * a, b * b, a * b);
    MulSwap(a * a, a, b);
    MulSwap(a * a * a, b, b * b);
    assert (a * a) * (a * b) == (a * a * a) * b;
    assert b * (b * b) == b * b * b;
  }

  lemma {:induction false} ChainMono(k: nat, a: nat, b: nat, c: nat, d: nat)
    requires 0 < b && 0 < d && 0 < k && a * d <= c * b
    ensures Chain(k, a, b) <= Chain(k, c, d)
  {
    PowersPositive(b);
    PowersPositive(d);
    PowersMono(a, b, c, d);
    if k == 1 {
      FractionMono(TWO_DIV_LN2, Cube(a), Cube(b), TWO_DIV_LN2, Cube(c), Cube(d));
    } else {
      ChainMono(k - 1, a, b, c, d);
      FractionMono(Chain(k - 1, a, b), Square(a), Square(b), Chain(k - 1, c, d), Square(c), Square(d));
    }
  }

  lemma TermMono(k: nat, a: nat, b: nat, c: nat, d: nat)
    requires 0 < b && 0 < d && a * d <= c * b
    ensures Term(k, a, b) <= Term(k, c, d)
  {
    if k == 0 {
      FractionMono(TWO_DIV_LN2, a, b, TWO_DIV_LN2, c, d);
    } else {
      ChainMono(k, a, b, c, d);
      DivMono(Chain(k, a, b), Chain(k, c, d), 2 * k + 1);
    }
  }

  /** Truncation at every step and stopping at the first zero term leave the sum monotone. */
  lemma {:induction false} SeriesMono(k: nat, a: nat, b: nat, c: nat, d: nat)
    requires a < b && c < d && a * d <= c * b
    ensures Series(k, a, b) <= Series(k, c, d)
    decreases Measure(k, a, b)
  {
    TermMono(k, a, b, c, d);
    if Term(k, a, b) != 0 {
      TermDecreasesMeasure(k, a, b);
      SeriesMono(k + 1, a, b, c, d);
    }
  }

  lemma ChainsAtThird()
    ensures Chain(1, 1, 3) == 106_866 && Chain(2, 1, 3) == 11_874 && Chain(3, 1, 3) == 1_319
    ensures Chain(4, 1, 3) == 146 && Chain(5, 1, 3) == 16 && Chain(6, 1, 3) == 1 && Term(6, 1, 3) == 0
  {
    assert Square(3) == 9 && Cube(3) == 27 && Square(1) == 1 && Cube(1) == 1;
    assert Chain(1, 1, 3) == 106_866;
    assert Chain(2, 1, 3) == 11_874;
    assert Chain(3, 1, 3) == 1_319;
    assert Chain(4, 1, 3) == 146;
    assert Chain(5, 1, 3) == 16;
  }

  /** The whole series at one third. */
  lemma SeriesAtThird()
    ensures Series(0, 1, 3) == 999_997
  {
    ChainsAtThird();
    assert Term(0, 1, 3) == 961_796 && Term(1, 1, 3) == 35_622 && Term(2, 1, 3) == 2_374;
    assert Term(3, 1, 3) == 188 && Term(4, 1, 3) == 16 && Term(5, 1, 3) == 1;
    assert Series(5, 1, 3) == 1 + Series(6, 1, 3);
    assert Series(3, 1, 3) == 188 + Series(4, 1, 3);
    assert Series(1, 1, 3) == 35_622 + Series(2, 1, 3);
  }

  /** The fractional part stays below one: between two powers of two the argument of the series is below
      a third. */
  lemma SeriesBelowMillion(num: nat, den: nat)
    requires 0 < den && 3 * num <= den
    ensures Series(0, num, den) < MILLION
  {
    SeriesMono(0, num, den, 1, 3);
    SeriesAtThird();
  }

  // ---- the logarithm

  lemma FractionOrder(p: nat, s: nat, p': nat, s': nat)
    requires s <= p && s' <= p' && p * s' <= p' * s
    ensures (p - s) * (p' + s') <= (p' - s') * (p + s)
  {
    MulDistrib(p - s, p', s');
    MulDistrib(p' - s', p, s);
    assert (p - s) * p' == p * p' - s * p' && (p - s) * s' == p * s' - s * s';
    assert (p' - s') * p == p' * p - s' * p && (p' - s') * s == p' * s - s' * s;
  }

  lemma BelowOctave(p: nat, q: nat)
    requires 1 <= q <= p < 2 * q
    ensures Logarithm(p, q) < MILLION
  {
    SeriesBelowMillion(p - q, p + q);
  }

  /** The logarithm grows with the ratio p/q. */
  lemma {:induction false} RatioMonotone(p: nat, q: nat, p': nat, q': nat)
    requires 1 <= q <= p && 1 <= q' <= p' && p * q' <= p' * q
    ensures Logarithm(p, q) <= Logarithm(p', q')
    decreases p - q
  {
    if p < 2 * q {
      if p' < 2 * q' {
        FractionOrder(p, q, p', q');
        SeriesMono(0, p - q, p + q, p' - q', p' + q');
      } else {
        BelowOctave(p, q);
      }
    } else {
      DoubleStays(p, q, p', q');
      RatioMonotone(p, 2 * q, p', 2 * q');
    }
  }

  lemma DoubleStays(p: nat, q: nat, p': nat, q': nat)
    requires 1 <= q && 2 * q <= p && p * q' <= p' * q
    ensures 2 * q' <= p' && p * (2 * q') <= p' * (2 * q)
  {
    MulMono(2 * q, p, q');
    MulSwap(2, q, q');
    if p' < 2 * q' {
      MulMono(p' + 1, 2 * q', q);
      MulPlusOne(p', q);
    }
    MulSwap(p, 2, q');
    MulSwap(p', 2, q);
  }

  /** The source's form: for the octave n, n million and the series of the rest. */
  lemma {:induction false} LogarithmAt(p: nat, q: nat, n: nat)
    requires 1 <= q && Pow2(n) * q <= p < Pow2(n + 1) * q
    ensures q <= p && 1 <= Pow2(n) * q && Pow2(n + 1) * q == 2 * (Pow2(n) * q)
    ensures Logarithm(p, q) == n * MILLION + Series(0, p - Pow2(n) * q, p + Pow2(n) * q)
    ensures n * MILLION <= Logarithm(p, q) < (n + 1) * MILLION
    decreases n
  {
    MulMonoBoth(1, Pow2(n), q, q);
    MulSwap(2, Pow2(n), q);
    if n == 0 {
      BelowOctave(p, q);
    } else {
      MulSwap(Pow2(n - 1), 2, q);
      MulMonoBoth(1, Pow2(n - 1), 2 * q, 2 * q);
      assert Pow2(n - 1) * (2 * q) == Pow2(n) * q && Pow2(n) * (2 * q) == Pow2(n + 1) * q by {
        MulSwap(Pow2(n), 2, q);
      }
      LogarithmAt(p, 2 * q, n - 1);
    }
  }

  /** Monotone in p and antitone in q, in spite of truncation. */
  lemma MonotoneAndAntitone(p: nat, p': nat, q: nat, q': nat)
    requires 1 <= q' <= q <= p <= p'
    ensures Logarithm(p, q) <= Logarithm(p', q) <= Logarithm(p', q')
  {
    MulMono(p, p', q);
    RatioMonotone(p, q, p', q);
    MulMono(q', q, p');
    RatioMonotone(p', q, p', q');
  }

  /** Only the ratio counts. */
  lemma ScaleInvariant(c: nat, p: nat, q: nat)
    requires 1 <= q <= p && 1 <= c
    ensures 1 <= c * q <= c * p && Logarithm(c * p, c * q) == Logarithm(p, q)
  {
    MulMono(q, p, c);
    MulMonoBoth(1, c, 1, q);
    MulSwap(c, p, q);
    assert (c * p) * q == p * (c * q);
    RatioMonotone(c * p, c * q, p, q);
    RatioMonotone(p, q, c * p, c * q);
  }

  /** Doubling p adds exactly one. */
  lemma DoublingAddsOne(p: nat, q: nat)
    requires 1 <= q <= p
    ensures Logarithm(2 * p, q) == Logarithm(p, q) + MILLION
  {
    ScaleInvariant(2, p, q);
  }

  lemma LogOfOne(p: nat)
    requires 1 <= p
    ensures Logarithm(p, p) == 0
  {
    DivUnique(0, 2 * p, 0);
  }

  lemma Pow2Of20()
    ensures Pow2(20) == 1_048_576
  {
    assert Pow2(5) == 32;
    assert Pow2(10) == 1024;
    assert Pow2(15) == 32_768;
  }

  /** A ratio below 2^n gives a result below n million. */
  lemma {:induction false} LogarithmBelow(p: nat, q: nat, n: nat)
    requires 1 <= q <= p < Pow2(n) * q
    ensures Logarithm(p, q) < n * MILLION
    decreases n
  {
    if n == 0 {
      assert false;
    } else if p < 2 * q {
      BelowOctave(p, q);
    } else {
      MulSwap(Pow2(n - 1), 2, q);
      LogarithmBelow(p, 2 * q, n - 1);
    }
  }

  /** A ratio of at most a million keeps the result below twenty. */
  lemma LogarithmBelowTwenty(p: nat, q: nat)
    requires 1 <= q <= p <= MILLION
    ensures Logarithm(p, q) < 20 * MILLION
  {
    Pow2Of20();
    MulMonoBoth(1, q, Pow2(20), Pow2(20));
    LogarithmBelow(p, q, 20);
  }

  // ---- the loops

  /** No intermediate product of the terms leaves 128 bits. */
  lemma ProductsFit(num: nat, den: nat, x: nat)
    requires num < den <= 2 * MILLION && x <= TWO_DIV_LN2
    ensures x * Cube(num) <= U128_MAX && x * Square(num) <= U128_MAX && Cube(den) <= U128_MAX && Square(den) <= U128_MAX
  {
    MulMonoBoth(num, 2 * MILLION, num, 2 * MILLION);
    MulMonoBoth(den, 2 * MILLION, den, 2 * MILLION);
    MulMonoBoth(num * num, 4 * MILLION * MILLION, num, 2 * MILLION);
    MulMonoBoth(den * den, 4 * MILLION * MILLION, den, 2 * MILLION);
    MulMonoBoth(x, TWO_DIV_LN2, Cube(num), 8 * MILLION * MILLION * MILLION);
    MulMonoBoth(x, TWO_DIV_LN2, Square(num), 4 * MILLION * MILLION);
  }

  method TaylorTerm(k: nat, num: nat, den: nat) returns (term: nat)
    requires num < den <= 2 * MILLION
    ensures term == Term(k, num, den)
  {
    if k == 0 {
      term := Floor(TWO_DIV_LN2 * num, den);
    } else {
      PowersPositive(den);
      ProductsFit(num, den, TWO_DIV_LN2);
      assert TWO_DIV_LN2 * Cube(num) <= U128_MAX && Cube(den) <= U128_MAX;
      var res := Floor(TWO_DIV_LN2 * Cube(num), Cube(den));
      ChainShrinks(1, num, den);
      for i := 1 to k
        invariant res == Chain(i, num, den) <= TWO_DIV_LN2
      {
        ProductsFit(num, den, res);
        assert res * Square(num) <= U128_MAX && Square(den) <= U128_MAX;
        res := Floor(res * Square(num), Square(den));
        ChainShrinks(i, num, den);
      }
      term := Floor(res, 2 * k + 1);
    }
  }

  /** The source bounds its arguments by assertions; a zero q below p runs into its bound on n. Two zeros are
      equal, so their logarithm is zero. */
  method Log2(p: nat, q: nat) returns (res: nat)
    requires q <= p <= MILLION && (q == 0 ==> p == 0)
    ensures res == if q == 0 then 0 else Logarithm(p, q)
  {
    if p == q {
      if 0 < p { LogOfOne(p); }
      return 0;
    }
    var n := 0;
    while p < Pow2(n) * q || p >= Pow2(n + 1) * q
      invariant n < 20 && Pow2(n) * q <= p
      decreases 20 - n
    {
      OctaveBound(p, q, n + 1);
      n := n + 1;
      assert n < 32;
    }
    LogarithmAt(p, q, n);
    assert Pow2(n + 1) * q <= U32_MAX;
    var num := p - Pow2(n) * q;
    var den := p + Pow2(n) * q;
    res := SumSeries(n * MILLION, num, den);
  }

  /** Adds the terms until one is zero. */
  method SumSeries(start: nat, num: nat, den: nat) returns (res: nat)
    requires num < den <= 2 * MILLION
    ensures res == start + Series(0, num, den)
  {
    res := start;
    var k := 0;
    while true
      invariant res + Series(k, num, den) == start + Series(0, num, den)
      decreases Measure(k, num, den)
    {
      var term := TaylorTerm(k, num, den);
      if term == 0 {
        break;
      }
      TermDecreasesMeasure(k, num, den);
      res := res + term;
      k := k + 1;
    }
  }

  lemma OctaveBound(p: nat, q: nat, n: nat)
    requires 1 <= q && p <= MILLION && Pow2(n) * q <= p
    ensures n < 20
  {
    Pow2Of20();
    MulMonoBoth(Pow2(n), Pow2(n), 1, q);
    if n >= 20 { Pow2Mono(20, n); }
  }
}
