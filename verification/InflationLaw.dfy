/**
 The inflation past the ideal stake is accuracy * 2^((ideal - stake) / falloff), up to 154 units. It is compared with
 every fraction a/b, and the reference is whole numbers only: a/b <= 2^(-e/d) is 2^e * a^d <= b^d.
 */
module InflationLaw {
  import opened Arith
  import opened Reals
  import opened Powers
  import opened Harmonics
  import opened PowerLaws
  import opened InflationSeries
  import opened InflationAccuracy
  import opened InflationRange
  import opened Exponentials
  import opened InflationAlgebra

  // ---- the exponent that the source computes

  /** Two roundings of ln 2, in parts of the accuracy a, and the quotient q by the falloff d. */
  ghost predicate Rounded(a: real, d: real, parts: real, q: real) {
    && parts * 1_000_000_000_000_000_000.0 <= LN2 as real * a <= (parts + 1.0) * 1_000_000_000_000_000_000.0
    && q * d <= parts * a <= q * d + d
  }

  lemma SourceQuotient(n: nat, d: nat, q: nat)
    requires 0 < d && q == DivByStripped(n, d)
    ensures q * d <= n <= q * d + d
  {
    DivByStrippedIsFloor(n, d);
    DivBounds(n, d);
  }

  lemma QuotientInReals(parts: nat, a: nat, d: nat, q: nat)
    requires q * d <= parts * a <= q * d + d
    ensures q as real * d as real <= parts as real * a as real <= q as real * d as real + d as real
  {
    RealProduct(q, d);
    RealProduct(parts, a);
  }

  lemma PartsInReals(parts: nat, a: nat)
    requires parts == Ln2Parts(a)
    ensures parts as real * 1_000_000_000_000_000_000.0 <= LN2 as real * a as real
    ensures LN2 as real * a as real <= (parts as real + 1.0) * 1_000_000_000_000_000_000.0
  {
    DivBounds(LN2 * a, QUINTILLION);
    RealProduct(LN2, a);
  }

  /** The numbers behind the source's exponent. */
  lemma SourceNumbers(accuracy: nat, stake: nat, ideal: nat, falloff: nat) returns (parts: nat, q: nat)
    requires 0 < falloff
    ensures ParamFor(accuracy, stake, ideal, falloff) == Param(q, ideal, stake, accuracy)
    ensures Rounded(accuracy as real, falloff as real, parts as real, q as real)
  {
    parts := Ln2Parts(accuracy);
    q := DivByStripped(parts * accuracy, falloff);
    PartsInReals(parts, accuracy);
    SourceQuotient(parts * accuracy, falloff, q);
    QuotientInReals(parts, accuracy, falloff, q);
  }

  lemma ExponentInReals(q: nat, ideal: nat, stake: nat, accuracy: nat, e: nat, z: real, v: real)
    requires ideal <= stake && e == stake - ideal && IsExponent(Param(q, ideal, stake, accuracy), z)
    requires v == z * accuracy as real
    ensures v * accuracy as real == e as real * q as real
  {
    RealProduct(accuracy, accuracy);
    RealProduct(e, q);
    Regroup(z, accuracy as real, accuracy as real);
  }

  /** z is at most ln 2 times t, and short of it by at most (t + 1) / a. */
  ghost predicate Close(z: real, a: real, t: real, ln2: real, exact: real, short: real) {
    && ln2 * 1_000_000_000_000_000_000.0 == LN2 as real && exact == ln2 * t && z <= exact
    && short == (exact - z) * a && short <= t + 1.0
  }

  lemma PartsOfLn2(parts: real, a: real, ln2: real, y: real, ln2A: real)
    requires parts * 1_000_000_000_000_000_000.0 <= ln2A <= (parts + 1.0) * 1_000_000_000_000_000_000.0
    requires ln2 * 1_000_000_000_000_000_000.0 == LN2 as real && y == ln2 * a && ln2A == LN2 as real * a
    ensures parts <= y <= parts + 1.0
  {
    NamedSwap(ln2, a, 1_000_000_000_000_000_000.0, y, LN2 as real, y * 1_000_000_000_000_000_000.0, ln2A);
  }

  lemma SourceClose(e: real, d: real, a: real, parts: real, q: real, z: real, t: real, ln2: real, y: real, v: real)
    requires 0.0 <= t && e == t * d && 0.0 <= e <= a && 0.0 < a && 0.0 < d && parts <= y <= parts + 1.0 && y == ln2 * a
    requires q * d <= parts * a <= q * d + d && v * a == e * q && v == z * a
    requires ln2 * 1_000_000_000_000_000_000.0 == LN2 as real
    ensures Close(z, a, t, ln2, ln2 * t, (ln2 * t - z) * a)
  {
    SourceBy(t, e, d, a, parts, q, v, y);
    Unscaled(t, a, z, ln2, v, y * t, ln2 * t, (ln2 * t - z) * a);
  }

  /** The exponent that comes of the rounded numbers. */
  lemma RoundedClose(e: real, d: real, a: real, parts: real, q: real, z: real, t: real, ln2: real, y: real, v: real)
    requires Rounded(a, d, parts, q) && 0.0 <= t && e == t * d && 0.0 <= e <= a && 0.0 < a && 0.0 < d
    requires v * a == e * q && v == z * a && y == ln2 * a && ln2 * 1_000_000_000_000_000_000.0 == LN2 as real
    ensures Close(z, a, t, ln2, ln2 * t, (ln2 * t - z) * a)
  {
    PartsOfLn2(parts, a, ln2, y, LN2 as real * a);
    SourceClose(e, d, a, parts, q, z, t, ln2, y, v);
  }

  // ---- the series

  /** r times the exponential x is the accuracy, up to 150 units each way. */
  ghost predicate Between(r: real, a: real, x: real) {
    r * x <= a + 150.0 * x + 0.75 && a <= r * x + 149.0 * x + 0.75
  }

  lemma NearIsBetween(r: nat, a: nat, e: real)
    requires Within(Times(r, e) - a as real, LAST, e)
    ensures Between(r as real, a as real, e)
  {
    TimesIsProduct(r, e);
    TimesIsProduct(149, e);
    TimesIsProduct(150, e);
    TimesIsProduct(299, 0.0025);
  }

  ghost predicate InSeries(x: Expansion, m: nat, r: nat, a: nat) {
    Between(r as real, a as real, Exp(x, m))
  }

  lemma SourceExpands(p: Param)
    requires ExponentAtMost70(p)
    ensures Expands(ExpansionOf(Exponent(p)))
  {
    FactorAtMost70(p);
    ExponentBounds(p, Exponent(p));
    ExpansionExpands(Exponent(p));
  }

  /** This holds from some partial sum on. */
  lemma SeriesBetween(p: Param) returns (x: Expansion, m0: nat)
    requires ExponentAtMost70(p) && p.accuracy <= QUINTILLION
    ensures Expands(x) && IsExponent(p, x.z)
    ensures forall m: nat :: m0 <= m ==> InSeries(x, m, SeriesPart(p), p.accuracy)
  {
    x := ExpansionOf(Exponent(p));
    SourceExpands(p);
    SeriesIsExponential(p);
    m0 :| NearFrom(x, m0, SeriesPart(p), p.accuracy, LAST);
    forall m: nat | m0 <= m
      ensures InSeries(x, m, SeriesPart(p), p.accuracy)
    {
      assert NearAt(x, m, SeriesPart(p), p.accuracy, LAST);
      NearIsBetween(SeriesPart(p), p.accuracy, Exp(x, m));
    }
  }

  // ---- the exponential against a ratio

  /** The expansion of the sum of reciprocals from na + 1 to nb. */
  lemma RatioExpansion(n: nat, a: nat, b: nat) returns (y: Expansion, low: nat, high: nat)
    requires 0 < n && 1 <= a <= b
    ensures Expands(y) && y.z == Ln(n, b, a) == Harmonic(low, high) && 0 < low <= high && high == Multiple(n, b)
    ensures low as real == a as real * n as real && high as real == b as real * n as real
  {
    MultipleIsProduct(n, a);
    MultipleIsProduct(n, b);
    MulMonoBoth(n, n, a, b);
    MulMonoBoth(1, n, 1, a);
    RealProduct(n, a);
    RealProduct(n, b);
    low, high := Multiple(n, a), Multiple(n, b);
    y := SomeExpansion(Ln(n, b, a));
  }

  lemma RatioBelow(y: real, n: real, a: real, b: real, na: real, nb: real, ya: real)
    requires y * na <= nb && 0.0 < n && na == a * n && nb == b * n && ya == a * y
    ensures ya <= b
  {
    NamedSwap(a, y, n, ya, na, ya * n, y * na);
    NamedCancel(ya, b, n, ya * n, nb);
  }

  lemma SumBelow(m: nat, low: nat, high: nat, y: Expansion, n: real, a: real, b: real, ya: real)
    requires Expands(y) && y.z == Harmonic(low, high) && 0 < low <= high && 0.0 < n
    requires low as real == a * n && high as real == b * n && ya == a * Exp(y, m)
    ensures ya <= b
  {
    AtMostRatio(m, low, high, y);
    RatioBelow(Exp(y, m), n, a, b, low as real, high as real, ya);
  }

  /** Some expansion of ln(b/a); its exponential times a is at most b. */
  lemma ExpansionBelow(m: nat, n: nat, a: nat, b: nat) returns (y: Expansion, ya: real)
    requires 0 < n && 1 <= a <= b
    ensures Expands(y) && y.z == Ln(n, b, a) && ya == a as real * Exp(y, m) && ya <= b as real
  {
    var low, high;
    y, low, high := RatioExpansion(n, a, b);
    ya := a as real * Exp(y, m);
    SumBelow(m, low, high, y, n as real, a as real, b as real, ya);
  }

  lemma SumAbove(m: nat, low: nat, high: nat, y: Expansion) returns (na: real, nb: real)
    requires Expands(y) && y.z == Harmonic(low, high) && 0 < low <= high <= m
    ensures na == low as real && nb == high as real && nb + 1.0 <= Exp(y, m) * (na + 1.0) && 0.0 < na
  {
    AtLeastRatio(m, low, high, y);
    na, nb := low as real, high as real;
  }

  /** ... and its exponential times a and a step is at least b. */
  lemma ExpansionAbove(m: nat, n: nat, a: nat, b: nat) returns (y: Expansion, na: real, nb: real)
    requires 0 < n && 1 <= a <= b && Multiple(n, b) <= m
    ensures Expands(y) && y.z == Ln(n, b, a) && nb + 1.0 <= Exp(y, m) * (na + 1.0) && 0.0 < na
    ensures na == a as real * n as real && nb == b as real * n as real
  {
    var low, high;
    y, low, high := RatioExpansion(n, a, b);
    na, nb := SumAbove(m, low, high, y);
  }

  /** With an exponent of at most ln(b/a) + eta the exponential, less the part eta, times a is at most b. */
  ghost predicate BelowAt(ex: real, z: real, h: real, a: real, b: real, eta: real) {
    0.0 <= eta <= 1.0 && z <= h + eta ==> (ex * (1.0 - eta)) * a <= b
  }

  lemma BelowBy(ex: real, ew: real, ey: real, a: real, part: real, v: real, va: real, ya: real)
    requires ex <= ew && part * ew <= ey && 0.0 <= a && 0.0 <= part && v == ex * part && va == v * a && ya == a * ey
    ensures va <= ya
  {
    NamedMono(ex, ew, part, v, part * ew);
    NamedMono(v, ey, a, va, ya);
  }

  /** Two exponents that differ by eta at most. */
  lemma ExpWithin(m: nat, x: Expansion, y: Expansion, eta: real) returns (ew: real)
    requires Expands(x) && Expands(y) && 0.0 <= eta && x.z <= y.z + eta
    ensures Exp(x, m) <= ew && (1.0 - eta) * ew <= Exp(y, m)
  {
    var w := SomeExpansion(y.z + eta);
    ew := Exp(w, m);
    ExpMono(m, x, w);
    ExpDown(m, y, w, eta);
  }

  lemma ExponentialBelow(m: nat, x: Expansion, y: Expansion, a: real, b: real, ya: real, eta: real, v: real, va: real)
    requires Expands(x) && Expands(y) && 0.0 <= a && ya == a * Exp(y, m) && ya <= b
    requires v == Exp(x, m) * (1.0 - eta) && va == v * a && 0.0 <= eta <= 1.0 && x.z <= y.z + eta
    ensures va <= b
  {
    var ew := ExpWithin(m, x, y, eta);
    BelowBy(Exp(x, m), ew, Exp(y, m), a, 1.0 - eta, v, va, ya);
  }

  lemma AlwaysBelow(m: nat, x: Expansion, y: Expansion, a: real, b: real, ya: real)
    requires Expands(x) && Expands(y) && 0.0 <= a && ya == a * Exp(y, m) && ya <= b
    ensures forall eta :: BelowAt(Exp(x, m), x.z, y.z, a, b, eta)
  {
    forall eta
      ensures BelowAt(Exp(x, m), x.z, y.z, a, b, eta)
    {
      if 0.0 <= eta <= 1.0 && x.z <= y.z + eta {
        ExponentialBelow(m, x, y, a, b, ya, eta, Exp(x, m) * (1.0 - eta), (Exp(x, m) * (1.0 - eta)) * a);
      }
    }
  }

  /** With an exponent of at least ln(b/a) - delta the exponential times a and a step is at least b, less the part delta. */
  ghost predicate AboveAt(ex: real, z: real, h: real, a: real, b: real, s: real, delta: real) {
    0.0 <= delta && h <= z + delta ==> (1.0 - delta) * b <= ex * (a + s)
  }

  lemma AbovePart(x: real, w: real, y: real, na: real, nb: real, part: real, nbp: real, xna: real)
    requires 0.0 <= part && y <= w && part * w <= x && nb + 1.0 <= y * (na + 1.0) && 0.0 < na
    requires nbp == nb * part && xna == x * (na + 1.0)
    ensures nbp + part <= xna
  {
    var py, right, pyna := y * part, (y * (na + 1.0)) * part, (y * part) * (na + 1.0);
    NamedMono(y, w, part, py, part * w);
    NamedMono(nb + 1.0, y * (na + 1.0), part, (nb + 1.0) * part, right);
    NamedSwap(y, na + 1.0, part, y * (na + 1.0), py, right, pyna);
    NamedMono(py, x, na + 1.0, pyna, xna);
    NamedSum(nb, 1.0, part, nbp, part, (nb + 1.0) * part);
  }

  lemma AboveCancel(x: real, n: real, a: real, b: real, na: real, nb: real, part: real, s: real, pb: real, xa: real,
                    nbp: real, xna: real)
    requires 0.0 <= part && nbp + part <= xna && 0.0 < n && nbp == nb * part && xna == x * (na + 1.0)
    requires na == a * n && nb == b * n && s * n == 1.0 && pb == part * b && xa == x * (a + s)
    ensures pb <= xa
  {
    NamedSwap(b, part, n, pb, nb, pb * n, nbp);
    NamedSum(a, s, n, na, 1.0, (a + s) * n);
    NamedSwap(a + s, x, n, xa, (a + s) * n, xa * n, xna);
    NamedCancel(pb, xa, n, pb * n, xa * n);
  }

  lemma AboveBy(ex: real, ew: real, ey: real, n: real, a: real, b: real, na: real, nb: real, part: real, s: real,
                pb: real, xa: real)
    requires 0.0 <= part && ey <= ew && part * ew <= ex && nb + 1.0 <= ey * (na + 1.0) && 0.0 < na && 0.0 < n
    requires na == a * n && nb == b * n && s * n == 1.0 && pb == part * b && xa == ex * (a + s)
    ensures pb <= xa
  {
    AbovePart(ex, ew, ey, na, nb, part, nb * part, ex * (na + 1.0));
    AboveCancel(ex, n, a, b, na, nb, part, s, pb, xa, nb * part, ex * (na + 1.0));
  }

  lemma AbovePositive(m: nat, x: Expansion, y: Expansion, n: real, a: real, b: real, na: real, nb: real, s: real,
                      delta: real,
                      pb: real, xa: real)
    requires Expands(x) && Expands(y) && 0.0 < n && nb + 1.0 <= Exp(y, m) * (na + 1.0) && 0.0 < na
    requires na == a * n && nb == b * n && s * n == 1.0 && 0.0 <= delta <= 1.0 && y.z <= x.z + delta
    requires pb == (1.0 - delta) * b && xa == Exp(x, m) * (a + s)
    ensures pb <= xa
  {
    var ew := ExpWithin(m, y, x, delta);
    AboveBy(Exp(x, m), ew, Exp(y, m), n, a, b, na, nb, 1.0 - delta, s, pb, xa);
  }

  lemma NotPositive(part: real, b: real, ex: real, sum: real, pb: real, xa: real)
    requires part <= 0.0 && 0.0 <= b && 0.0 <= ex && 0.0 <= sum && pb == part * b && xa == ex * sum
    ensures pb <= xa
  {
    NamedMono(part, 0.0, b, pb, 0.0);
    NamedMono(0.0, ex, sum, 0.0, xa);
  }

  lemma ExpNotNegative(m: nat, x: Expansion)
    requires Expands(x)
    ensures 0.0 <= Exp(x, m)
  {
    ExpGrows(0, m, x);
  }

  lemma AboveNegative(m: nat, x: Expansion, a: real, b: real, s: real, delta: real, pb: real, xa: real)
    requires Expands(x) && 0.0 <= a && 0.0 <= b && 0.0 <= s && 1.0 <= delta
    requires pb == (1.0 - delta) * b && xa == Exp(x, m) * (a + s)
    ensures pb <= xa
  {
    ExpNotNegative(m, x);
    NotPositive(1.0 - delta, b, Exp(x, m), a + s, pb, xa);
  }

  lemma ExponentialAbove(m: nat, x: Expansion, y: Expansion, n: real, a: real, b: real, na: real, nb: real, s: real,
                         delta: real,
                         pb: real, xa: real)
    requires Expands(x) && Expands(y) && 0.0 < n && 0.0 <= a && 0.0 <= b && nb + 1.0 <= Exp(y, m) * (na + 1.0)
    requires 0.0 < na
    requires na == a * n && nb == b * n && s * n == 1.0 && 0.0 <= s && pb == (1.0 - delta) * b
    requires xa == Exp(x, m) * (a + s)
    ensures 0.0 <= delta && y.z <= x.z + delta ==> pb <= xa
  {
    if 0.0 <= delta && y.z <= x.z + delta {
      if 1.0 <= delta {
        AboveNegative(m, x, a, b, s, delta, pb, xa);
      } else {
        AbovePositive(m, x, y, n, a, b, na, nb, s, delta, pb, xa);
      }
    }
  }

  lemma AlwaysAbove(m: nat, x: Expansion, y: Expansion, n: real, a: real, b: real, na: real, nb: real, s: real)
    requires Expands(x) && Expands(y) && 0.0 < n && 0.0 <= a && 0.0 <= b && nb + 1.0 <= Exp(y, m) * (na + 1.0)
    requires 0.0 < na
    requires na == a * n && nb == b * n && s * n == 1.0 && 0.0 <= s
    ensures forall delta :: AboveAt(Exp(x, m), x.z, y.z, a, b, s, delta)
  {
    forall delta
      ensures AboveAt(Exp(x, m), x.z, y.z, a, b, s, delta)
    {
      ExponentialAbove(m, x, y, n, a, b, na, nb, s, delta, (1.0 - delta) * b, Exp(x, m) * (a + s));
    }
  }

  // ---- sums of reciprocals

  /** l is ln 2 and h is ln(b/a), both in steps of s = 1/n. */
  ghost predicate Logarithms(n: nat, l: real, s: real, ln2: real) {
    s * n as real == 1.0 && 0.0 <= s && ln2 <= l + s && l <= ln2 + 0.000_000_000_000_000_001
  }

  lemma Ln2Facts(n: nat, l: real, s: real, ln2: real)
    requires 0 < n && l == Ln2(n) && s == Inverse(n) && ln2 * 1_000_000_000_000_000_000.0 == LN2 as real
    ensures Logarithms(n, l, s, ln2)
  {
    ConstantIsLn2(n);
  }

  lemma TimesToProducts(e: nat, d: nat, k: nat, l: real, h: real, s: real, el: real, dh: real, ks: real)
    requires el == e as real * l && dh == h * d as real && ks == s * k as real
    ensures Times(e, l) == el && Times(d, h) == dh && Times(k, s) == ks
  {
    TimesIsProduct(e, l);
    TimesIsProduct(d, h);
    TimesIsProduct(k, s);
  }

  /** If 2^e is at most (b/a)^d: ln 2 and ln(b/a) in n steps, and what follows for any exponential. */
  lemma LowerFacts(x: Expansion, m: nat, n: nat, e: nat, d: nat, a: nat, b: nat, ln2: real, p: real, q: real)
      returns (l: real, h: real, s: real)
    requires p == a as real && q == b as real && Expands(x) && 0 < n && 1 <= a <= b
    requires Times(e, Ln2(n)) <= Times(d, Ln(n, b, a)) + Times(2 * d, Inverse(n))
    requires ln2 * 1_000_000_000_000_000_000.0 == LN2 as real
    ensures Logarithms(n, l, s, ln2) && Times(e, l) <= Times(d, h) + Times(2 * d, s)
    ensures forall eta :: BelowAt(Exp(x, m), x.z, h, p, q, eta)
  {
    l, h, s := Ln2(n), Ln(n, b, a), Inverse(n);
    Ln2Facts(n, l, s, ln2);
    var y, ya := ExpansionBelow(m, n, a, b);
    AlwaysBelow(m, x, y, p, q, ya);
  }

  /** The same if (b/a)^d is at most 2^e. */
  lemma UpperFacts(x: Expansion, m: nat, n: nat, e: nat, d: nat, k: nat, a: nat, b: nat, ln2: real, p: real, q: real)
      returns (l: real, h: real, s: real)
    requires p == a as real && q == b as real && Expands(x) && 0 < n && 1 <= a <= b && Multiple(n, b) <= m
    requires Times(d, Ln(n, b, a)) <= Times(e, Ln2(n)) + Times(k, Inverse(n))
    requires ln2 * 1_000_000_000_000_000_000.0 == LN2 as real
    ensures Logarithms(n, l, s, ln2) && Times(d, h) <= Times(e, l) + Times(k, s)
    ensures forall delta :: AboveAt(Exp(x, m), x.z, h, p, q, s, delta)
  {
    l, h, s := Ln2(n), Ln(n, b, a), Inverse(n);
    Ln2Facts(n, l, s, ln2);
    var y, na, nb := ExpansionAbove(m, n, a, b);
    AlwaysAbove(m, x, y, n as real, p, q, na, nb, s);
  }

  lemma Quotient(e: nat, d: nat) returns (t: real)
    requires 0 < d
    ensures 0.0 <= t <= e as real && e as real == t * d as real
  {
    t := e as real / d as real;
    if t < 0.0 { NamedMono(t, 0.0, d as real, e as real, 0.0); }
    NamedMono(1.0, d as real, t, t, e as real);
  }

  // ---- no less than the power of two

  lemma TwiceSteps(d: nat, s: real, ds: real)
    requires ds == s * d as real
    ensures Times(2 * d, s) == 2.0 * ds
  {
    TimesIsProduct(2 * d, s);
  }

  /** Few enough steps are next to nothing, even times the accuracy and a. */
  lemma SmallEta(n: nat, e: nat, k: real, a: nat, accuracy: nat, s: real, eta: real, ap: real)
    requires 1 <= a && 1 <= accuracy && n == (accuracy * a) * (e + 2) + 1 && k == e as real + 2.0
    requires s * n as real == 1.0 && 0.0 <= s && eta == s * k && ap == accuracy as real * a as real
    ensures 0.0 <= eta <= 1.0 && eta * ap <= 1.0
  {
    MulMonoBoth(1, accuracy, 1, a);
    RealProduct(accuracy, a);
    RealProduct(accuracy * a, e + 2);
    NamedMono(0.0, s, k, 0.0, eta);
    var ka := ap * k;
    NamedMono(ka, n as real, s, ka * s, 1.0);
    NamedSwap(k, ap, s, ka, eta, ka * s, eta * ap);
    NamedMono(1.0, ap, eta, eta, eta * ap);
  }

  lemma LowerSteps(t: real, e: real, e2: real, s: real, eta: real, ts: real)
    requires t <= e && 0.0 <= s && eta == s * e2 && e2 == e + 2.0 && ts == s * t
    ensures 2.0 * s + ts <= eta
  {
    NamedMono(t, e, s, ts, s * e);
    NamedSum(e, 2.0, s, s * e, 2.0 * s, eta);
  }

  lemma LowerGapBy(e: real, e2: real, d: real, l: real, h: real, s: real, ln2: real, t: real, z: real, exact: real,
                   eta: real, el: real,
                   dh: real, ds: real)
    requires el <= dh + 2.0 * ds && el == e * l && dh == h * d && ds == s * d && ln2 <= l + s && 0.0 <= s && 0.0 < d
    requires 0.0 <= t <= e && e == t * d && exact == ln2 * t && z <= exact && eta == s * e2 && e2 == e + 2.0
    ensures z <= h + eta
  {
    var tl, ts := l * t, s * t;
    DivideBelow(t, e, d, l, h, s, tl, el, dh, ds);
    LowerExponent(t, z, ln2, l, h, s, exact, tl, ts);
    LowerSteps(t, e, e2, s, eta, ts);
  }

  lemma LowerProducts(e: nat, d: nat, l: real, h: real, s: real, el: real, dh: real, ds: real)
    requires Times(e, l) <= Times(d, h) + Times(2 * d, s) && el == e as real * l && dh == h * d as real
    requires ds == s * d as real
    ensures el <= dh + 2.0 * ds
  {
    TimesToProducts(e, d, d, l, h, s, el, dh, ds);
    TwiceSteps(d, s, ds);
  }

  lemma LowerInts(r: nat, accuracy: nat, a: nat, b: nat, x: real, eta: real, ap: real, etaAp: real)
    requires Between(r as real, accuracy as real, x) && 1 <= a <= b && 0.0 <= eta <= 1.0
    requires (x * (1.0 - eta)) * a as real <= b as real
    requires ap == accuracy as real * a as real && etaAp == eta * ap && etaAp <= 1.0
    ensures accuracy * a <= (r + 151) * b
  {
    var left, va := (r as real + 151.0) * b as real, (x * (1.0 - eta)) * a as real;
    LowerResult(r as real, accuracy as real, a as real, b as real, x, eta, ap, etaAp, va, left);
    RealProduct(accuracy, a);
    RealProduct(r + 151, b);
  }

  lemma LowerEnd(r: nat, accuracy: nat, a: nat, b: nat, z: real, ex: real, h: real, eta: real, ap: real, p: real,
                 q: real)
    requires 1 <= a <= b && Between(r as real, accuracy as real, ex) && z <= h + eta && 0.0 <= eta <= 1.0
    requires ap == accuracy as real * a as real && eta * ap <= 1.0
    requires p == a as real && q == b as real && forall eta :: BelowAt(ex, z, h, p, q, eta)
    ensures accuracy * a <= (r + 151) * b
  {
    assert BelowAt(ex, z, h, p, q, eta);
    LowerInts(r, accuracy, a, b, ex, eta, ap, eta * ap);
  }

  lemma LowerRest(n: nat, r: nat, accuracy: nat, e: nat, d: nat, a: nat, b: nat, t: real, z: real, ex: real, l: real,
                  h: real, s: real,
                  ln2: real, exact: real, p: real, q: real, e2: real, eta: real, el: real, dh: real, ds: real)
    requires 1 <= accuracy && 0 < d && 1 <= a <= b && n == (accuracy * a) * (e + 2) + 1
    requires Between(r as real, accuracy as real, ex)
    requires 0.0 <= t <= e as real && e as real == t * d as real && exact == ln2 * t && z <= exact
    requires el <= dh + 2.0 * ds && el == e as real * l && dh == h * d as real && ds == s * d as real && ln2 <= l + s
    requires s * n as real == 1.0 && 0.0 <= s && eta == s * e2 && e2 == e as real + 2.0
    requires p == a as real && q == b as real && forall eta :: BelowAt(ex, z, h, p, q, eta)
    ensures accuracy * a <= (r + 151) * b
  {
    var ap := accuracy as real * a as real;
    LowerGapBy(e as real, e2, d as real, l, h, s, ln2, t, z, exact, eta, el, dh, ds);
    SmallEta(n, e, e2, a, accuracy, s, eta, ap);
    LowerEnd(r, accuracy, a, b, z, ex, h, eta, ap, p, q);
  }

  lemma LowerBy(n: nat, r: nat, accuracy: nat, e: nat, d: nat, a: nat, b: nat, t: real, z: real, ex: real, l: real,
                h: real, s: real,
                ln2: real, exact: real, p: real, q: real)
    requires 1 <= accuracy && 0 < d && 1 <= a <= b && n == (accuracy * a) * (e + 2) + 1
    requires Between(r as real, accuracy as real, ex)
    requires 0.0 <= t <= e as real && e as real == t * d as real && exact == ln2 * t && z <= exact
    requires Logarithms(n, l, s, ln2) && Times(e, l) <= Times(d, h) + Times(2 * d, s)
    requires p == a as real && q == b as real && forall eta :: BelowAt(ex, z, h, p, q, eta)
    ensures accuracy * a <= (r + 151) * b
  {
    var e2 := e as real + 2.0;
    var eta, el, dh, ds := s * e2, e as real * l, h * d as real, s * d as real;
    LowerProducts(e, d, l, h, s, el, dh, ds);
    LowerRest(n, r, accuracy, e, d, a, b, t, z, ex, l, h, s, ln2, exact, p, q, e2, eta, el, dh, ds);
  }

  // ---- no more than the power of two

  lemma SmallSteps(n: nat, k: nat, accuracy: nat, s: real, w: real)
    requires n == 4 * (accuracy * k) + 1 && 1 <= k && s * n as real == 1.0 && 0.0 <= s && w == s * k as real
    ensures 0.0 <= w && w * accuracy as real <= 0.25 && s * accuracy as real <= 0.25
  {
    RealProduct(accuracy, k);
    var ka := accuracy as real * k as real;
    NamedMono(4.0 * ka, n as real, s, 4.0 * (ka * s), 1.0);
    NamedSwap(k as real, accuracy as real, s, ka, w, ka * s, w * accuracy as real);
    NamedMono(1.0, k as real, s, s, w);
    NamedMono(s, w, accuracy as real, s * accuracy as real, w * accuracy as real);
  }

  lemma UpperGapBy(e: real, d: real, a: real, l: real, h: real, ln2: real, t: real, z: real, exact: real, short: real,
                   sigma: real,
                   el: real, dh: real, w: real, wa: real)
    requires dh <= el + w && el == e * l && dh == h * d && 0.0 <= w && 1.0 <= d
    requires 100.0 <= a <= 1_000_000_000_000_000_000.0
    requires l <= ln2 + 0.000_000_000_000_000_001 && wa == w * a && wa <= 0.25
    requires 0.0 <= t && e == t * d && exact == ln2 * t && short == (exact - z) * a && short <= t + 1.0
    requires sigma == (h - z) * a
    ensures sigma <= 2.0 * t + 1.25
  {
    var tl := l * t;
    DivideAbove(t, e, d, l, h, w, tl, el, dh);
    UpperExponent(t, z, ln2, l, h, w, a, 0.000_000_000_000_000_001, exact, tl, short, wa, sigma);
  }

  lemma UpperProducts(e: nat, d: nat, k: nat, l: real, h: real, s: real, el: real, dh: real, w: real)
    requires Times(d, h) <= Times(e, l) + Times(k, s) && 0.0 <= s && el == e as real * l && dh == h * d as real
    requires w == s * k as real
    ensures dh <= el + w
  {
    TimesToProducts(e, d, k, l, h, s, el, dh, w);
  }

  /** The part of the gap that counts. */
  lemma PositiveGap(gap: real, accuracy: real, t: real, sigma: real) returns (delta: real)
    requires sigma == gap * accuracy && sigma <= 2.0 * t + 1.25 && 0.0 <= t && 0.0 <= accuracy
    ensures 0.0 <= delta && gap <= delta && delta * accuracy <= 2.0 * t + 1.25
  {
    delta := if gap <= 0.0 then 0.0 else gap;
  }

  lemma UpperByNames(r: real, a: real, p: real, q: real, x: real, delta: real, s: real, sigma: real, t: real)
    requires r * x <= a + 150.0 * x + 0.75 && 1.0 <= q && 1.0 <= x && 0.0 < a && s * a <= 0.25
    requires (1.0 - delta) * q <= x * (p + s) && sigma == delta * a && sigma <= 2.0 * t + 1.25
    requires 2.0 * t + 2.0 <= 3.75 * x
    ensures r * q <= a * p + 154.0 * q
  {
    var aq, ap, sigmaQ := a * q, p * a, sigma * q;
    var xap := ap * x;
    UpperLeft(a, p, q, x, delta, s, sigma, aq, ap, s * a, xap, sigmaQ);
    UpperResult(r, a, q, x, t, sigma, aq, ap, xap, sigmaQ, r * q);
  }

  lemma UpperInts(r: nat, accuracy: nat, a: nat, b: nat, x: real, delta: real, s: real, sigma: real, t: real)
    requires Between(r as real, accuracy as real, x) && 1 <= b && 1.0 <= x && 0 < accuracy
    requires s * accuracy as real <= 0.25
    requires (1.0 - delta) * b as real <= x * (a as real + s) && sigma == delta * accuracy as real
    requires sigma <= 2.0 * t + 1.25
    requires 2.0 * t + 2.0 <= 3.75 * x
    ensures r * b <= accuracy * a + 154 * b
  {
    UpperByNames(r as real, accuracy as real, a as real, b as real, x, delta, s, sigma, t);
    RealProduct(r, b);
    RealProduct(accuracy, a);
  }

  lemma UpperEnd(r: nat, accuracy: nat, a: nat, b: nat, t: real, z: real, ex: real, h: real, s: real, ln2: real,
                 exact: real,
                 short: real, sigma: real, p: real, q: real)
    requires 100 <= accuracy && 1 <= b && Between(r as real, accuracy as real, ex) && 1.0 + z <= ex && 1.0 <= ex
    requires 0.69 <= ln2
    requires 0.0 <= t && exact == ln2 * t && short == (exact - z) * accuracy as real && short <= t + 1.0
    requires sigma == (h - z) * accuracy as real && sigma <= 2.0 * t + 1.25 && s * accuracy as real <= 0.25
    requires p == a as real && q == b as real && forall delta :: AboveAt(ex, z, h, p, q, s, delta)
    ensures r * b <= accuracy * a + 154 * b
  {
    var delta := PositiveGap(h - z, accuracy as real, t, sigma);
    assert AboveAt(ex, z, h, p, q, s, delta);
    AtLeastLinear(t, z, ln2, accuracy as real, ex, exact, short);
    UpperInts(r, accuracy, a, b, ex, delta, s, delta * accuracy as real, t);
  }

  /** ln(b/a) is above the exponent by at most sigma / accuracy. */
  lemma UpperRest(r: nat, accuracy: nat, e: nat, d: nat, a: nat, b: nat, t: real, z: real, ex: real, l: real, h: real,
                  s: real,
                  ln2: real, exact: real, short: real, p: real, q: real, el: real, dh: real, w: real, wa: real)
    requires dh <= el + w && el == e as real * l && dh == h * d as real && 0.0 <= w && 0 < d
    requires 100 <= accuracy <= QUINTILLION
    requires l <= ln2 + 0.000_000_000_000_000_001 && wa == w * accuracy as real && wa <= 0.25
    requires s * accuracy as real <= 0.25
    requires 0.0 <= t && e as real == t * d as real && exact == ln2 * t && short == (exact - z) * accuracy as real
    requires short <= t + 1.0
    requires 1 <= b && Between(r as real, accuracy as real, ex) && 1.0 + z <= ex && 1.0 <= ex && 0.69 <= ln2
    requires p == a as real && q == b as real && forall delta :: AboveAt(ex, z, h, p, q, s, delta)
    ensures r * b <= accuracy * a + 154 * b
  {
    var sigma := (h - z) * accuracy as real;
    UpperGapBy(e as real, d as real, accuracy as real, l, h, ln2, t, z, exact, short, sigma, el, dh, w, wa);
    UpperEnd(r, accuracy, a, b, t, z, ex, h, s, ln2, exact, short, sigma, p, q);
  }

  lemma UpperBy(n: nat, r: nat, accuracy: nat, e: nat, d: nat, k: nat, a: nat, b: nat, t: real, z: real, ex: real,
                l: real, h: real,
                s: real, ln2: real, exact: real, short: real, p: real, q: real)
    requires 100 <= accuracy <= QUINTILLION && 0 < d && 1 <= k && 1 <= a <= b && n == 4 * (accuracy * k) + 1
    requires Between(r as real, accuracy as real, ex) && 1.0 + z <= ex && 1.0 <= ex && 0.69 <= ln2
    requires 0.0 <= t && e as real == t * d as real && exact == ln2 * t && short == (exact - z) * accuracy as real
    requires short <= t + 1.0
    requires Logarithms(n, l, s, ln2) && Times(d, h) <= Times(e, l) + Times(k, s)
    requires p == a as real && q == b as real && forall delta :: AboveAt(ex, z, h, p, q, s, delta)
    ensures r * b <= accuracy * a + 154 * b
  {
    var el, dh, w := e as real * l, h * d as real, s * k as real;
    UpperProducts(e, d, k, l, h, s, el, dh, w);
    SmallSteps(n, k, accuracy, s, w);
    UpperRest(r, accuracy, e, d, a, b, t, z, ex, l, h, s, ln2, exact, short, p, q, el, dh, w, w * accuracy as real);
  }

  // ---- the law

  /** ex is the exponential of z, and r the result it belongs to. */
  ghost predicate Exponential(x: Expansion, m: nat, z: real, ex: real, r: nat, accuracy: nat) {
    Expands(x) && z == x.z && ex == Exp(x, m) && Between(r as real, accuracy as real, ex) && 1.0 + z <= ex && 1.0 <= ex
  }

  lemma LowerLaw(x: Expansion, m: nat, n: nat, r: nat, accuracy: nat, e: nat, d: nat, t: real, z: real, ex: real,
                 ln2: real,
                 exact: real, short: real, a: nat, b: nat)
    requires Exponential(x, m, z, ex, r, accuracy) && Close(z, accuracy as real, t, ln2, exact, short)
    requires 1 <= accuracy && 0 < d && 1 <= a <= b && 0 < n && n == (accuracy * a) * (e + 2) + 1
    requires 0.0 <= t <= e as real && e as real == t * d as real
    requires Times(e, Ln2(n)) <= Times(d, Ln(n, b, a)) + Times(2 * d, Inverse(n))
    ensures accuracy * a <= (r + 151) * b
  {
    var p, q := a as real, b as real;
    var l, h, s := LowerFacts(x, m, n, e, d, a, b, ln2, p, q);
    LowerBy(n, r, accuracy, e, d, a, b, t, z, ex, l, h, s, ln2, exact, p, q);
  }

  lemma UpperLaw(x: Expansion, m: nat, n: nat, r: nat, accuracy: nat, e: nat, d: nat, k: nat, t: real, z: real,
                 ex: real, ln2: real,
                 exact: real, short: real, a: nat, b: nat)
    requires Exponential(x, m, z, ex, r, accuracy) && Close(z, accuracy as real, t, ln2, exact, short)
    requires 100 <= accuracy <= QUINTILLION && 0 < d && 1 <= k && 1 <= a <= b
    requires 0 < n && n == 4 * (accuracy * k) + 1 && Multiple(n, b) <= m
    requires 0.0 <= t && e as real == t * d as real
    requires Times(d, Ln(n, b, a)) <= Times(e, Ln2(n)) + Times(k, Inverse(n))
    ensures r * b <= accuracy * a + 154 * b
  {
    var p, q := a as real, b as real;
    var l, h, s := UpperFacts(x, m, n, e, d, k, a, b, ln2, p, q);
    UpperBy(n, r, accuracy, e, d, k, a, b, t, z, ex, l, h, s, ln2, exact, short, p, q);
  }

  lemma LawBelow(x: Expansion, m: nat, n: nat, r: nat, accuracy: nat, e: nat, d: nat, t: real, z: real, ex: real,
                 ln2: real,
                 exact: real, short: real, a: nat, b: nat)
    requires Exponential(x, m, z, ex, r, accuracy) && Close(z, accuracy as real, t, ln2, exact, short)
    requires 1 <= accuracy && 0 < d && 1 <= a <= b && n == (accuracy * a) * (e + 2) + 1 && 0 < n
    requires 0.0 <= t <= e as real && e as real == t * d as real
    ensures Pow(2, e) * Pow(a, d) <= Pow(b, d) ==> accuracy * a <= (r + 151) * b
  {
    if Pow(2, e) * Pow(a, d) <= Pow(b, d) {
      PowerBelow(n, e, d, b, a);
      LowerLaw(x, m, n, r, accuracy, e, d, t, z, ex, ln2, exact, short, a, b);
    }
  }

  lemma LawAbove(x: Expansion, m: nat, n: nat, r: nat, accuracy: nat, e: nat, d: nat, k: nat, t: real, z: real,
                 ex: real, ln2: real,
                 exact: real, short: real, a: nat, b: nat)
    requires Exponential(x, m, z, ex, r, accuracy) && Close(z, accuracy as real, t, ln2, exact, short)
    requires 100 <= accuracy <= QUINTILLION && 0 < d && k == 2 * e + 1 && 1 <= a <= b
    requires n == 4 * (accuracy * k) + 1 && 0 < n && Multiple(n, b) <= m
    requires 0.0 <= t && e as real == t * d as real
    ensures Pow(b, d) <= Pow(2, e) * Pow(a, d) ==> r * b <= accuracy * a + 154 * b
  {
    if Pow(b, d) <= Pow(2, e) * Pow(a, d) {
      PowerAbove(n, e, d, b, a);
      UpperLaw(x, m, n, r, accuracy, e, d, k, t, z, ex, ln2, exact, short, a, b);
    }
  }

  /** Past the ideal stake, with e for the excess and d for the falloff: for every fraction a/b, if 2^e <= (b/a)^d, that is if
      a/b <= 2^(-e/d), the inflation is at least accuracy * a/b less 151 units, and if 2^e >= (b/a)^d it is at most that and
      154 units. */
  lemma InflationIsPower(accuracy: nat, stake: nat, ideal: nat, falloff: nat, a: nat, b: nat)
    requires Supported(accuracy) && ideal <= stake <= accuracy && accuracy / 100 <= falloff && 1 <= a <= b
    ensures var r, e := Inflation(accuracy, stake, ideal, falloff), stake - ideal;
            && (Pow(2, e) * Pow(a, falloff) <= Pow(b, falloff) ==> accuracy * a <= (r + 151) * b)
            && (Pow(b, falloff) <= Pow(2, e) * Pow(a, falloff) ==> r * b <= accuracy * a + 154 * b)
  {
    InflationIsSeries(accuracy, stake, ideal, falloff);
    FalloffBoundsExponent(accuracy, stake, ideal, falloff);
    DivAtLeast(accuracy, 100, 1);
    SeriesLaw(accuracy, stake, ideal, falloff, a, b);
  }

  /** The computed exponential with as many terms as asked for. */
  lemma ExponentialOf(p: Param, least: nat) returns (x: Expansion, m: nat, z: real, ex: real)
    requires ExponentAtMost70(p) && p.accuracy <= QUINTILLION
    ensures Exponential(x, m, z, ex, SeriesPart(p), p.accuracy) && IsExponent(p, z) && least <= m
  {
    var m0;
    x, m0 := SeriesBetween(p);
    m := m0 + least + 1;
    z, ex := x.z, Exp(x, m);
    assert InSeries(x, m, SeriesPart(p), p.accuracy);
    ExpBounds(x, m);
  }

  /** ... and its exponent times the accuracy. */
  lemma ExponentialWith(q: nat, ideal: nat, stake: nat, accuracy: nat, e: nat, least: nat)
      returns (x: Expansion, m: nat, z: real, ex: real, v: real)
    requires ExponentAtMost70(Param(q, ideal, stake, accuracy)) && accuracy <= QUINTILLION && ideal <= stake
    requires e == stake - ideal
    ensures Exponential(x, m, z, ex, SeriesPart(Param(q, ideal, stake, accuracy)), accuracy) && least <= m
    ensures v == z * accuracy as real && v * accuracy as real == e as real * q as real
  {
    x, m, z, ex := ExponentialOf(Param(q, ideal, stake, accuracy), least);
    v := z * accuracy as real;
    ExponentInReals(q, ideal, stake, accuracy, e, z, v);
  }

  lemma CloseOf(e: real, d: real, a: real, parts: real, q: real, z: real, v: real, t: real) returns (ln2: real,
                exact: real, short: real)
    requires Rounded(a, d, parts, q) && 0.0 <= t && e == t * d && 0.0 <= e <= a && 0.0 < a && 0.0 < d
    requires v * a == e * q && v == z * a
    ensures Close(z, a, t, ln2, exact, short)
  {
    ln2 := LN2 as real / 1_000_000_000_000_000_000.0;
    exact, short := ln2 * t, (ln2 * t - z) * a;
    RoundedClose(e, d, a, parts, q, z, t, ln2, ln2 * a, v);
  }

  lemma CloseNumbers(e: nat, d: nat, accuracy: nat, parts: real, q: nat, z: real, v: real, t: real)
      returns (ln2: real, exact: real, short: real)
    requires Rounded(accuracy as real, d as real, parts, q as real) && e <= accuracy && 0 < d && 0.0 <= t
    requires e as real == t * d as real
    requires v == z * accuracy as real && v * accuracy as real == e as real * q as real && 0 < accuracy
    ensures Close(z, accuracy as real, t, ln2, exact, short)
  {
    ln2, exact, short := CloseOf(e as real, d as real, accuracy as real, parts, q as real, z, v, t);
  }

  lemma Steps(accuracy: nat, a: nat, e: nat) returns (k: nat, n: nat, n': nat)
    ensures k == 2 * e + 1 && n == 4 * (accuracy * k) + 1 && 0 < n && n' == (accuracy * a) * (e + 2) + 1 && 0 < n'
  {
    k := 2 * e + 1;
    n, n' := 4 * (accuracy * k) + 1, (accuracy * a) * (e + 2) + 1;
  }

  lemma LawBoth(x: Expansion, m: nat, k: nat, n: nat, n': nat, r: nat, accuracy: nat, e: nat, d: nat, t: real, z: real,
                ex: real,
                ln2: real, exact: real, short: real, a: nat, b: nat)
    requires Exponential(x, m, z, ex, r, accuracy) && Close(z, accuracy as real, t, ln2, exact, short)
    requires 100 <= accuracy <= QUINTILLION && 0 < d && 1 <= a <= b && 0.0 <= t <= e as real
    requires e as real == t * d as real
    requires k == 2 * e + 1 && n == 4 * (accuracy * k) + 1 && 0 < n && n' == (accuracy * a) * (e + 2) + 1 && 0 < n'
    requires Multiple(n, b) <= m
    ensures Pow(2, e) * Pow(a, d) <= Pow(b, d) ==> accuracy * a <= (r + 151) * b
    ensures Pow(b, d) <= Pow(2, e) * Pow(a, d) ==> r * b <= accuracy * a + 154 * b
  {
    LawBelow(x, m, n', r, accuracy, e, d, t, z, ex, ln2, exact, short, a, b);
    LawAbove(x, m, n, r, accuracy, e, d, k, t, z, ex, ln2, exact, short, a, b);
  }

  /** ... and against t times ln 2. */
  lemma ExponentialClose(q: nat, ideal: nat, stake: nat, accuracy: nat, e: nat, d: nat, parts: real, t: real,
                         least: nat)
      returns (x: Expansion, m: nat, z: real, ex: real, ln2: real, exact: real, short: real)
    requires ExponentAtMost70(Param(q, ideal, stake, accuracy)) && 0 < accuracy <= QUINTILLION && ideal <= stake
    requires e == stake - ideal
    requires Rounded(accuracy as real, d as real, parts, q as real) && e <= accuracy && 0 < d && 0.0 <= t
    requires e as real == t * d as real
    ensures Exponential(x, m, z, ex, SeriesPart(Param(q, ideal, stake, accuracy)), accuracy) && least <= m
    ensures Close(z, accuracy as real, t, ln2, exact, short)
  {
    var v;
    x, m, z, ex, v := ExponentialWith(q, ideal, stake, accuracy, e, least);
    ln2, exact, short := CloseNumbers(e, d, accuracy, parts, q, z, v, t);
  }

  lemma ParamLaw(q: nat, ideal: nat, stake: nat, accuracy: nat, e: nat, d: nat, parts: real, r: nat, a: nat, b: nat)
    requires ExponentAtMost70(Param(q, ideal, stake, accuracy)) && 100 <= accuracy <= QUINTILLION && ideal <= stake
    requires e == stake - ideal
    requires Rounded(accuracy as real, d as real, parts, q as real) && e <= accuracy && 0 < d && 1 <= a <= b
    requires r == SeriesPart(Param(q, ideal, stake, accuracy))
    ensures Pow(2, e) * Pow(a, d) <= Pow(b, d) ==> accuracy * a <= (r + 151) * b
    ensures Pow(b, d) <= Pow(2, e) * Pow(a, d) ==> r * b <= accuracy * a + 154 * b
  {
    var k, n, n' := Steps(accuracy, a, e);
    var t := Quotient(e, d);
    var x, m, z, ex, ln2, exact, short := ExponentialClose(q, ideal, stake, accuracy, e, d, parts, t, Multiple(n, b));
    LawBoth(x, m, k, n, n', r, accuracy, e, d, t, z, ex, ln2, exact, short, a, b);
  }

  lemma SeriesLaw(accuracy: nat, stake: nat, ideal: nat, falloff: nat, a: nat, b: nat)
    requires 100 <= accuracy <= QUINTILLION && ideal <= stake <= accuracy && 0 < falloff && 1 <= a <= b
    requires ExponentAtMost70(ParamFor(accuracy, stake, ideal, falloff))
    ensures var r, e := SeriesPart(ParamFor(accuracy, stake, ideal, falloff)), stake - ideal;
            && (Pow(2, e) * Pow(a, falloff) <= Pow(b, falloff) ==> accuracy * a <= (r + 151) * b)
            && (Pow(b, falloff) <= Pow(2, e) * Pow(a, falloff) ==> r * b <= accuracy * a + 154 * b)
  {
    var parts, q := SourceNumbers(accuracy, stake, ideal, falloff);
    ParamLaw(q, ideal, stake, accuracy, stake - ideal, falloff, parts as real,
             SeriesPart(ParamFor(accuracy, stake, ideal, falloff)), a, b);
  }

  /** Each falloff past the ideal stake halves the inflation: k of them leave accuracy / 2^k, up to 154 units. */
  lemma FalloffHalves(accuracy: nat, ideal: nat, falloff: nat, k: nat)
    requires Supported(accuracy) && accuracy / 100 <= falloff && ideal + k * falloff <= accuracy
    ensures var r := Inflation(accuracy, ideal + k * falloff, ideal, falloff);
            && accuracy <= (r + 151) * Pow(2, k) && r * Pow(2, k) <= accuracy + 154 * Pow(2, k)
  {
    PowPositive(2, k);
    PowOfPow(2, k, falloff);
    PowOfOne(falloff);
    InflationIsPower(accuracy, ideal + k * falloff, ideal, falloff, 1, Pow(2, k));
  }

  /** Below the ideal stake the inflation is the ratio, rounded down, and a falloff of less than one percent gives none. */
  lemma InflationElsewhere(accuracy: nat, stake: nat, ideal: nat, falloff: nat)
    ensures var r := Inflation(accuracy, stake, ideal, falloff);
            && (stake < ideal ==> r * ideal <= stake * accuracy < (r + 1) * ideal)
            && (ideal <= stake && falloff < accuracy / 100 ==> r == 0)
  {
    if stake < ideal {
      DivBounds(stake * accuracy, ideal);
      MulPlusOne(Inflation(accuracy, stake, ideal, falloff), ideal);
    }
  }
}
