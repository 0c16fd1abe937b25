/** The integer logarithm and the stake it gives, against powers of two: no reference but whole numbers. */
module LogarithmPowers {
  import opened Arith
  import opened Reals
  import opened Powers
  import opened Harmonics
  import opened PowerLaws
  import opened Log2
  import opened Log2Accuracy
  import opened CurvePoints

  lemma MillionTimes(m: nat, x: real)
    requires m == MILLION
    ensures Times(m, x) == 1_000_000.0 * x
  {
    TimesIsProduct(m, x);
  }

  /** A number of steps that is fine enough for both comparisons. */
  lemma FineEnough(k: nat, b: nat, k': nat, b': nat) returns (n: nat)
    ensures FINE <= n && k * b < n && k' * b' < n
  {
    n := FINE + k * b + k' * b' + 1;
  }

  lemma PowerStep(n: nat, log: nat, p: nat, q: nat, m: nat)
    requires FINE <= n && 1 <= q <= p <= MILLION && m == MILLION && log == Logarithm(p, q)
    ensures Times(log, Ln2(n)) <= Times(m, Ln(n, p, q)) + Times(m, Inverse(n))
    ensures Times(m, Ln(n, p, q)) <= Times(log + 7, Ln2(n)) + Times(0, Inverse(n))
  {
    LogarithmIsAccurate(n, p, q);
    MillionTimes(m, Ln(n, p, q));
    MillionTimes(m, Inverse(n));
  }

  /** With log for the computed logarithm of p/q, the millionth power of p/q lies between 2^log and 2^(log + 7). */
  lemma LogarithmByPowers(p: nat, q: nat, m: nat)
    requires 1 <= q <= p <= MILLION && m == MILLION
    ensures Pow(2, Logarithm(p, q)) * Pow(q, m) <= Pow(p, m) <= Pow(2, Logarithm(p, q) + 7) * Pow(q, m)
  {
    var log := Logarithm(p, q);
    var n := FineEnough(m + 2 * log + 1, Pow(2, log) * Pow(q, m), 0 + 2 * m, Pow(p, m));
    PowerStep(n, log, p, q, m);
    BelowPower(n, log, m, p, q, m);
    AbovePower(n, log + 7, m, p, q, 0);
  }

  // ---- the stake for an inflation

  /** d times a logarithm in millionths, rounded down. */
  lemma ScaledStep(n: nat, log: nat, x: nat, d: nat, p: nat, q: nat, m: nat)
    requires FINE <= n && 1 <= q <= p <= MILLION && m == MILLION && log == Logarithm(p, q)
    requires d <= m && x == Floor(d * log, m)
    ensures Times(x, Ln2(n)) <= Times(d, Ln(n, p, q)) + Times(d, Inverse(n))
    ensures Times(d, Ln(n, p, q)) <= Times(x + 8, Ln2(n)) + Times(0, Inverse(n))
  {
    PowerStep(n, log, p, q, m);
    DivBounds(d * log, m);
    Ln2Bounds(n);
    SevenAndOne(d, log, x, m);
    TimesBelow(d, log, x, m, Ln2(n), Ln(n, p, q), Inverse(n));
    TimesAbove(d, log + 7, x + 8, m, Ln2(n), Ln(n, p, q));
  }

  lemma TimesBelow(d: nat, log: nat, x: nat, m: nat, ln2: real, ln: real, step: real)
    requires x * m <= d * log && 0 < m && 0.0 <= ln2 && Times(log, ln2) <= Times(m, ln) + Times(m, step)
    ensures Times(x, ln2) <= Times(d, ln) + Times(d, step)
  {
    TimesIsProduct(log, ln2);
    TimesIsProduct(m, ln);
    TimesIsProduct(m, step);
    TimesIsProduct(x, ln2);
    TimesIsProduct(d, ln);
    TimesIsProduct(d, step);
    RealProduct(x, m);
    RealProduct(d, log);
    ScaledBelow(d as real, log as real, x as real, m as real, ln2, ln, step);
  }

  lemma TimesAbove(d: nat, log: nat, x: nat, m: nat, ln2: real, ln: real)
    requires d * log <= x * m && 0 < m && 0.0 <= ln2 && Times(m, ln) <= Times(log, ln2)
    ensures Times(d, ln) <= Times(x, ln2)
  {
    TimesIsProduct(log, ln2);
    TimesIsProduct(m, ln);
    TimesIsProduct(x, ln2);
    TimesIsProduct(d, ln);
    RealProduct(x, m);
    RealProduct(d, log);
    ScaledAbove(d as real, log as real, x as real, m as real, ln2, ln);
  }

  lemma SevenAndOne(d: nat, log: nat, x: nat, m: nat)
    requires d * log < x * m + m && d <= m
    ensures d * (log + 7) <= (x + 8) * m
  {
    MulDistrib(d, log, 7);
    MulSwap(x, 1, m);
    assert (x + 8) * m == x * m + 8 * m;
  }

  lemma ScaledBelow(d: real, log: real, x: real, m: real, ln2: real, ln: real, step: real)
    requires x * m <= d * log && 0.0 <= d && 0.0 < m && 0.0 <= ln2 && log * ln2 <= m * ln + m * step
    ensures x * ln2 <= d * ln + d * step
  {
    RealMono(x * m, d * log, ln2);
    RealMono(log * ln2, m * ln + m * step, d);
    assert (x * ln2) * m == (x * m) * ln2;
    assert (d * log) * ln2 == (log * ln2) * d;
    assert (m * ln + m * step) * d == (d * ln + d * step) * m;
    RealCancel(x * ln2, d * ln + d * step, m);
  }

  lemma ScaledAbove(d: real, log: real, x: real, m: real, ln2: real, ln: real)
    requires d * log <= x * m && 0.0 <= d && 0.0 < m && 0.0 <= ln2 && m * ln <= log * ln2
    ensures d * ln <= x * ln2
  {
    RealMono(d * log, x * m, ln2);
    RealMono(m * ln, log * ln2, d);
    assert (d * ln) * m == (m * ln) * d;
    assert (log * ln2) * d == (d * log) * ln2;
    assert (x * m) * ln2 == (x * ln2) * m;
    RealCancel(d * ln, x * ln2, m);
  }

  /** The curve y = min + (max - min) * 2^((ideal - x) / d), solved for the stake x: with X = x - ideal, the d-th power of
      (max - min) / (y - min) lies between 2^X and 2^(X + 8), so the computed stake is at most eight millionths short. */
  lemma OppositeOnCurve(i: Input, y: nat)
    requires Parsed(i) && i.minInflation < y <= i.maxInflation
    ensures i.idealStake <= Opposite(i, y) && RewardCurve(i).curve(y) == Opposite(i, y)
    ensures var past, d := Opposite(i, y) - i.idealStake, i.falloff;
            Pow(2, past) * Pow(y - i.minInflation, d) <= Pow(i.maxInflation - i.minInflation, d)
              <= Pow(2, past + 8) * Pow(y - i.minInflation, d)
  {
    var p, q := i.maxInflation - i.minInflation, y - i.minInflation;
    FloorByPowers(p, q, i.falloff, Opposite(i, y) - i.idealStake, MILLION);
  }

  lemma FloorByPowers(p: nat, q: nat, d: nat, past: nat, m: nat)
    requires 1 <= q <= p <= MILLION && m == MILLION && d <= m && past == Floor(d * Logarithm(p, q), m)
    ensures Pow(2, past) * Pow(q, d) <= Pow(p, d) <= Pow(2, past + 8) * Pow(q, d)
  {
    var n := FineEnough(d + 2 * past + 1, Pow(2, past) * Pow(q, d), 0 + 2 * d, Pow(p, d));
    ScaledStep(n, Logarithm(p, q), past, d, p, q, m);
    BelowPower(n, past, d, p, q, d);
    AbovePower(n, past + 8, d, p, q, 0);
  }

  /** Below the least inflation no stake is reached: the minimum itself is taken to lie at the largest stake. */
  lemma OppositeOfMinimum(i: Input)
    requires Parsed(i)
    ensures Opposite(i, i.minInflation) == U32_MAX && Opposite(i, i.maxInflation) == i.idealStake
  {
    OppositeOfMax(i);
  }
}
