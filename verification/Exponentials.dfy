/**
 Partial sums of the exponential series: how they move with the exponent, what they are at a sum of reciprocals, and
 that the source's constant for ln 2 is right to the last digit.
 */
module Exponentials {
  import opened Arith
  import opened Reals
  import opened Harmonics
  import opened InflationSeries
  import opened InflationAccuracy

  lemma SomeExpansion(z: real) returns (x: Expansion)
    requires 0.0 <= z
    ensures Expands(x) && x.z == z
  {
    x := ExpansionOf(z);
    ExpansionExpands(z);
  }

  lemma WeightOne(x: Expansion)
    requires Expands(x)
    ensures x.weight(1) == x.z
  {
    assert WeightAt(x, 0);
  }

  // ---- moving the exponent

  lemma ExpandRise(a: real, b: real, z: real, h: real)
    ensures (b + h * a) * (z + h) == b * z + h * b + h * (a * z) + (h * h) * a
  {
  }

  lemma Commutes(h: real, b: real, n: real)
    ensures h * (b * n) == (h * b) * n
  {
  }

  lemma SquareTimes(h: real, a: real)
    requires 0.0 <= a
    ensures 0.0 <= (h * h) * a
  {
    RealMono(0.0, h * h, a);
  }

  /** The product grows by the step times b, and by n times that again. */
  lemma RiseProduct(a: real, b: real, b': real, z: real, u: real, h: real, n: real, bz: real, left: real, y: real)
    requires 0.0 <= a && 0.0 <= z && 0.0 <= h && b' >= b + h * a && b * n == a * z && u == z + h
    requires bz == b * z && left == b' * u && y == h * b
    ensures left >= bz + y + y * n
  {
    RealMono(b + h * a, b', z + h);
    ExpandRise(a, b, z, h);
    SquareTimes(h, a);
    Commutes(h, b, n);
  }

  lemma RiseQuotient(c: real, c': real, bz: real, left: real, y: real, n: real, k: real)
    requires 0.0 <= n && k == n + 1.0 && c * k == bz && c' * k == left && left >= bz + y + y * n
    ensures c' >= c + y
  {
    SumTimesNext(n, k, c, y);
    RealCancel(c + y, c', k);
  }

  lemma SumTimesNext(n: real, k: real, c: real, y: real)
    requires k == n + 1.0
    ensures (c + y) * k == c * k + y * n + y
  {
  }

  lemma SumTimes(n: real, x: real, y: real)
    ensures n * (x + y) == n * x + n * y
  {
  }

  lemma ProductRises(n: nat, x: Expansion, y: Expansion, rise: real)
    requires Expands(x) && Expands(y) && x.z <= y.z && 0 < n && rise == (y.z - x.z) * x.weight(n)
    requires y.weight(n) >= x.weight(n) + (y.z - x.z) * x.weight(n - 1)
    ensures y.weight(n) * y.z >= x.weight(n) * x.z + rise + rise * n as real
  {
    assert WeightAt(x, n - 1);
    RiseProduct(x.weight(n - 1), x.weight(n), y.weight(n), x.z, y.z, y.z - x.z, n as real, x.weight(n) * x.z,
                y.weight(n) * y.z, rise);
  }

  lemma NextRises(n: nat, x: Expansion, y: Expansion, rise: real)
    requires Expands(x) && Expands(y) && y.weight(n) * y.z >= x.weight(n) * x.z + rise + rise * n as real
    ensures y.weight(n + 1) >= x.weight(n + 1) + rise
  {
    assert WeightAt(x, n) && WeightAt(y, n);
    RiseQuotient(x.weight(n + 1), y.weight(n + 1), x.weight(n) * x.z, y.weight(n) * y.z, rise, n as real, n as real + 1.0);
  }

  /** A larger exponent raises a weight by at least the step times the weight before. */
  lemma {:induction false} WeightRises(n: nat, x: Expansion, y: Expansion)
    requires Expands(x) && Expands(y) && x.z <= y.z
    ensures y.weight(n + 1) >= x.weight(n + 1) + (y.z - x.z) * x.weight(n)
  {
    if n == 0 {
      WeightOne(x);
      WeightOne(y);
    } else {
      WeightRises(n - 1, x, y);
      ProductRises(n, x, y, (y.z - x.z) * x.weight(n));
      NextRises(n, x, y, (y.z - x.z) * x.weight(n));
    }
  }

  lemma ExpandFall(a: real, b: real, u: real, h: real)
    ensures (b - h * a) * (u - h) == b * u - h * b - h * (a * u) + (h * h) * a
  {
  }

  lemma FallProduct(a: real, b: real, b': real, z: real, u: real, h: real, n: real, bu: real, left: real, y: real)
    requires 0.0 <= a && 0.0 <= z && z == u - h && b' >= b - h * a && b * n == a * u
    requires bu == b * u && left == b' * z && y == h * b
    ensures left >= bu - y - y * n
  {
    RealMono(b - h * a, b', z);
    ExpandFall(a, b, u, h);
    SquareTimes(h, a);
    Commutes(h, b, n);
  }

  lemma FallQuotient(c: real, c': real, bu: real, left: real, y: real, n: real, k: real)
    requires 0.0 <= n && k == n + 1.0 && c * k == bu && c' * k == left && left >= bu - y - y * n
    ensures c' >= c - y
  {
    SumTimesNext(n, k, c - y, y);
    RealCancel(c - y, c', k);
  }

  lemma ProductFalls(n: nat, x: Expansion, y: Expansion, fall: real)
    requires Expands(x) && Expands(y) && x.z <= y.z && 0 < n && fall == (y.z - x.z) * y.weight(n)
    requires x.weight(n) >= y.weight(n) - (y.z - x.z) * y.weight(n - 1)
    ensures x.weight(n) * x.z >= y.weight(n) * y.z - fall - fall * n as real
  {
    assert WeightAt(y, n - 1);
    FallProduct(y.weight(n - 1), y.weight(n), x.weight(n), x.z, y.z, y.z - x.z, n as real, y.weight(n) * y.z,
                x.weight(n) * x.z, fall);
  }

  lemma NextFalls(n: nat, x: Expansion, y: Expansion, fall: real)
    requires Expands(x) && Expands(y) && x.weight(n) * x.z >= y.weight(n) * y.z - fall - fall * n as real
    ensures x.weight(n + 1) >= y.weight(n + 1) - fall
  {
    assert WeightAt(x, n) && WeightAt(y, n);
    FallQuotient(y.weight(n + 1), x.weight(n + 1), y.weight(n) * y.z, x.weight(n) * x.z, fall, n as real, n as real + 1.0);
  }

  /** A smaller exponent lowers a weight by at most the step times the weight before. */
  lemma {:induction false} WeightFalls(n: nat, x: Expansion, y: Expansion)
    requires Expands(x) && Expands(y) && x.z <= y.z
    ensures x.weight(n + 1) >= y.weight(n + 1) - (y.z - x.z) * y.weight(n)
  {
    if n == 0 {
      WeightOne(x);
      WeightOne(y);
    } else {
      WeightFalls(n - 1, x, y);
      ProductFalls(n, x, y, (y.z - x.z) * y.weight(n));
      NextFalls(n, x, y, (y.z - x.z) * y.weight(n));
    }
  }

  lemma {:induction false} ExpRises(m: nat, x: Expansion, y: Expansion)
    requires Expands(x) && Expands(y) && x.z <= y.z
    ensures Exp(y, m + 1) >= Exp(x, m + 1) + (y.z - x.z) * Exp(x, m)
  {
    WeightRises(m, x, y);
    if m > 0 {
      ExpRises(m - 1, x, y);
      SumTimes(y.z - x.z, Exp(x, m - 1), x.weight(m));
    } else {
      assert Exp(x, 1) == 1.0 + x.weight(1) && Exp(y, 1) == 1.0 + y.weight(1);
    }
  }

  lemma {:induction false} ExpFalls(m: nat, x: Expansion, y: Expansion)
    requires Expands(x) && Expands(y) && x.z <= y.z
    ensures Exp(x, m + 1) >= Exp(y, m + 1) - (y.z - x.z) * Exp(y, m)
  {
    WeightFalls(m, x, y);
    if m > 0 {
      ExpFalls(m - 1, x, y);
      SumTimes(y.z - x.z, Exp(y, m - 1), y.weight(m));
    } else {
      assert Exp(x, 1) == 1.0 + x.weight(1) && Exp(y, 1) == 1.0 + y.weight(1);
    }
  }

  lemma {:induction false} ExpGrows(m: nat, n: nat, x: Expansion)
    requires Expands(x) && m <= n
    ensures 1.0 <= Exp(x, m) <= Exp(x, n)
    decreases n
  {
    ExpBounds(x, m);
    if m < n {
      ExpGrows(m, n - 1, x);
      assert WeightAt(x, n);
    }
  }

  lemma OnePlus(h: real, a: real)
    ensures (1.0 + h) * a == a + h * a && (1.0 - h) * a == a - h * a
  {
  }

  lemma TimesCommutes(h: real, a: real, b: real)
    ensures h * a == a * h && h * b == b * h
  {
  }

  /** One more term and a larger exponent: at least the factor 1 + h. */
  lemma ExpUp(m: nat, x: Expansion, y: Expansion, h: real)
    requires Expands(x) && Expands(y) && y.z == x.z + h && 0.0 <= h
    ensures (1.0 + h) * Exp(x, m) <= Exp(y, m + 1)
  {
    ExpRises(m, x, y);
    ExpGrows(m, m + 1, x);
    OnePlus(h, Exp(x, m));
  }

  lemma DownBy(h: real, a: real, e: real, x: real, fall: real)
    requires 0.0 <= h && a <= e && x >= e - fall && fall == h * a
    ensures (1.0 - h) * e <= x
  {
    NamedMono(a, e, h, a * h, e * h);
    TimesCommutes(h, a, e);
    OnePlus(h, e);
  }

  /** A smaller exponent: at least the factor 1 - h. */
  lemma ExpDown(m: nat, x: Expansion, y: Expansion, h: real)
    requires Expands(x) && Expands(y) && y.z == x.z + h && 0.0 <= h
    ensures (1.0 - h) * Exp(y, m) <= Exp(x, m)
  {
    if m > 0 {
      ExpFalls(m - 1, x, y);
      ExpGrows(m - 1, m, y);
      DownBy(h, Exp(y, m - 1), Exp(y, m), Exp(x, m), (y.z - x.z) * Exp(y, m - 1));
    } else {
      OnePlus(h, Exp(y, m));
    }
  }

  lemma ExpMono(m: nat, x: Expansion, y: Expansion)
    requires Expands(x) && Expands(y) && x.z <= y.z
    ensures Exp(x, m) <= Exp(y, m)
  {
    if m > 0 {
      ExpRises(m - 1, x, y);
      ExpGrows(m - 1, m - 1, x);
      RealMono(0.0, y.z - x.z, Exp(x, m - 1));
    }
  }

  // ---- at a sum of reciprocals

  lemma DownStep(low: real, high: real, h: real, a: real, b: real)
    requires 0.0 < a && 1.0 < b && h * b == 1.0 && (1.0 - h) * high <= low && low * a <= b - 1.0
    ensures high * a <= b
  {
    RealMono((1.0 - h) * high, low, b);
    LessOnePart(h, high, b);
    RealMono(high * (b - 1.0), low * b, a);
    RealMono(low * a, b - 1.0, b);
    Regroup(high, b - 1.0, a);
    Regroup(low, b, a);
    RealCancel(high * a, b, b - 1.0);
  }

  lemma LessOnePart(h: real, x: real, b: real)
    requires h * b == 1.0
    ensures ((1.0 - h) * x) * b == x * (b - 1.0)
  {
    assert ((1.0 - h) * x) * b == x * b - (h * b) * x;
  }

  /** The exponential of 1/(a+1) + ... + 1/b is at most b/a ... */
  lemma {:induction false} AtMostRatio(m: nat, a: nat, b: nat, x: Expansion)
    requires 0 < a <= b && Expands(x) && x.z == Harmonic(a, b)
    ensures Exp(x, m) * a as real <= b as real
    decreases b
  {
    if a == b {
      ExpOfZero(m, x);
    } else {
      var y := SomeExpansion(Harmonic(a, b - 1));
      AtMostRatio(m, a, b - 1, y);
      ExpDown(m, y, x, Inverse(b));
      DownStep(Exp(y, m), Exp(x, m), Inverse(b), a as real, b as real);
    }
  }

  lemma {:induction false} ExpOfZero(m: nat, x: Expansion)
    requires Expands(x) && x.z == 0.0
    ensures Exp(x, m) == 1.0
  {
    if m > 0 {
      ExpOfZero(m - 1, x);
      assert WeightAt(x, m - 1);
      RealCancelEqual(x.weight(m), 0.0, m as real);
    }
  }

  lemma UpStep(low: real, high: real, h: real, a: real, b: real)
    requires 0.0 < a && 0.0 < b && 0.0 <= h && h * b == 1.0 && (1.0 + h) * low <= high && b <= low * a
    ensures b + 1.0 <= high * a
  {
    RealMono((1.0 + h) * low, high, a);
    RealMono(b, low * a, 1.0 + h);
    OnePlus(h, b);
    TimesCommutes(1.0 + h, low, b);
    Regroup(low, 1.0 + h, a);
  }

  /** ... and, with as many terms as reciprocals, at least (b + 1)/(a + 1). */
  lemma {:induction false} AtLeastRatio(m: nat, a: nat, b: nat, x: Expansion)
    requires a <= b && b - a <= m && Expands(x) && x.z == Harmonic(a, b)
    ensures b as real + 1.0 <= Exp(x, m) * (a as real + 1.0)
    decreases b
  {
    if a == b {
      ExpOfZero(m, x);
    } else {
      var y := SomeExpansion(Harmonic(a, b - 1));
      AtLeastRatio(m - 1, a, b - 1, y);
      ExpUp(m - 1, y, x, Inverse(b));
      UpStep(Exp(y, m - 1), Exp(x, m), Inverse(b), a as real + 1.0, b as real);
    }
  }

  // ---- the constant

  const UNIT: real := 100_000_000_000_000_000_000_000_000.0

  /** In units of 10^-26: bounds of a weight, and of the sum up to it. */
  datatype Bounds = Bounds(low: nat, high: nat, sumLow: nat, sumHigh: nat)

  ghost predicate SumWithin(x: Expansion, i: nat, b: Bounds) {
    && b.low as real <= x.weight(i) * UNIT <= b.high as real
    && b.sumLow as real <= Exp(x, i) * UNIT <= b.sumHigh as real
  }

  lemma SameProduct(w: real, w': real, z: real, k: real)
    requires w' * k == w * z
    ensures (w' * UNIT) * (1_000_000_000_000_000_000.0 * k) == (w * UNIT) * (z * 1_000_000_000_000_000_000.0)
  {
  }

  lemma NextWithin(v: real, v': real, c: real, low: real, high: real, low': real, high': real, ln2: real)
    requires 0.0 < c && v' * c == v * ln2 && 0.0 <= ln2 && low <= v <= high
    requires low' * c <= low * ln2 && high * ln2 <= high' * c
    ensures low' <= v' <= high'
  {
    NamedMono(low, v, ln2, low * ln2, v * ln2);
    NamedMono(v, high, ln2, v * ln2, high * ln2);
    NamedCancel(low', v', c, low' * c, v' * c);
    NamedCancel(v', high', c, v' * c, high' * c);
  }

  lemma AtMostReal(a: nat, k: nat, b: nat)
    requires a * (QUINTILLION * k) <= b * LN2
    ensures a as real * (1_000_000_000_000_000_000.0 * k as real) <= b as real * LN2 as real
  {
    RealProduct(QUINTILLION, k);
    RealProduct(a, QUINTILLION * k);
    RealProduct(b, LN2);
  }

  lemma AtLeastReal(a: nat, k: nat, b: nat)
    requires b * LN2 <= a * (QUINTILLION * k)
    ensures b as real * LN2 as real <= a as real * (1_000_000_000_000_000_000.0 * k as real)
  {
    RealProduct(QUINTILLION, k);
    RealProduct(a, QUINTILLION * k);
    RealProduct(b, LN2);
  }

  lemma NextWeight(w: real, w': real, z: real, k: nat, b: Bounds, low: nat, high: nat)
    requires 0 < k && w' * k as real == w * z && z * 1_000_000_000_000_000_000.0 == LN2 as real
    requires b.low as real <= w * UNIT <= b.high as real
    requires low * (QUINTILLION * k) <= b.low * LN2 && b.high * LN2 <= high * (QUINTILLION * k)
    ensures low as real <= w' * UNIT <= high as real
  {
    SameProduct(w, w', z, k as real);
    AtMostReal(low, k, b.low);
    AtLeastReal(high, k, b.high);
    NextWithin(w * UNIT, w' * UNIT, 1_000_000_000_000_000_000.0 * k as real, b.low as real, b.high as real,
               low as real, high as real, LN2 as real);
  }

  lemma NextSum(x: Expansion, i: nat, b: Bounds, low: nat, high: nat) returns (next: Bounds)
    requires Expands(x) && x.z * 1_000_000_000_000_000_000.0 == LN2 as real && SumWithin(x, i, b)
    requires low * (QUINTILLION * (i + 1)) <= b.low * LN2 && b.high * LN2 <= high * (QUINTILLION * (i + 1))
    ensures next == Bounds(low, high, b.sumLow + low, b.sumHigh + high) && SumWithin(x, i + 1, next)
  {
    assert WeightAt(x, i);
    NextWeight(x.weight(i), x.weight(i + 1), x.z, i + 1, b, low, high);
    next := Bounds(low, high, b.sumLow + low, b.sumHigh + high);
  }

  lemma FirstSums(x: Expansion, b: Bounds) returns (next: Bounds)
    requires Expands(x) && x.z * 1_000_000_000_000_000_000.0 == LN2 as real
    requires b == Bounds(100_000_000_000_000_000_000_000_000, 100_000_000_000_000_000_000_000_000,
                         100_000_000_000_000_000_000_000_000, 100_000_000_000_000_000_000_000_000)
    requires SumWithin(x, 0, b)
    ensures next == Bounds(132_154_867_901_443_094_247, 132_154_867_901_443_094_248,
                           199_999_989_069_255_581_274_455_549, 199_999_989_069_255_581_274_455_557)
    ensures SumWithin(x, 8, next)
  {
    next := NextSum(x, 0, b, 69_314_718_055_994_530_900_000_000, 69_314_718_055_994_530_900_000_000);
    next := NextSum(x, 1, next, 24_022_650_695_910_071_204_434_799, 24_022_650_695_910_071_204_434_800);
    next := NextSum(x, 2, next, 5_550_410_866_482_157_985_291_204, 5_550_410_866_482_157_985_291_205);
    next := NextSum(x, 3, next, 961_812_910_762_847_713_882_097, 961_812_910_762_847_713_882_098);
    next := NextSum(x, 4, next, 133_335_581_464_284_433_832_822, 133_335_581_464_284_433_832_824);
    next := NextSum(x, 5, next, 15_403_530_393_381_609_898_805, 15_403_530_393_381_609_898_806);
    next := NextSum(x, 6, next, 1_525_273_380_405_984_021_575, 1_525_273_380_405_984_021_576);
    next := NextSum(x, 7, next, 132_154_867_901_443_094_247, 132_154_867_901_443_094_248);
  }

  lemma MiddleSums(x: Expansion, b: Bounds) returns (next: Bounds)
    requires Expands(x) && x.z * 1_000_000_000_000_000_000.0 == LN2 as real
    requires b == Bounds(132_154_867_901_443_094_247, 132_154_867_901_443_094_248,
                         199_999_989_069_255_581_274_455_549, 199_999_989_069_255_581_274_455_557)
    requires SumWithin(x, 8, b)
    ensures next == Bounds(13_570_247_948, 13_570_247_949,
                           199_999_999_999_999_999_341_137_002, 199_999_999_999_999_999_341_137_018)
    ensures SumWithin(x, 16, next)
  {
    next := NextSum(x, 8, b, 10_178_086_009_239_699_672, 10_178_086_009_239_699_673);
    next := NextSum(x, 9, next, 705_491_162_080_112_328, 705_491_162_080_112_329);
    next := NextSum(x, 10, next, 44_455_382_718_708_114, 44_455_382_718_708_115);
    next := NextSum(x, 11, next, 2_567_843_599_348_820, 2_567_843_599_348_821);
    next := NextSum(x, 12, next, 136_914_888_539_041, 136_914_888_539_042);
    next := NextSum(x, 13, next, 6_778_726_354_822, 6_778_726_354_823);
    next := NextSum(x, 14, next, 313_243_670_708, 313_243_670_709);
    next := NextSum(x, 15, next, 13_570_247_948, 13_570_247_949);
  }

  lemma LastSums(x: Expansion, b: Bounds) returns (next: Bounds)
    requires Expands(x) && x.z * 1_000_000_000_000_000_000.0 == LN2 as real
    requires b == Bounds(13_570_247_948, 13_570_247_949,
                         199_999_999_999_999_999_341_137_002, 199_999_999_999_999_999_341_137_018)
    requires SumWithin(x, 16, b)
    ensures next == Bounds(0, 1,
                           199_999_999_999_999_999_916_553_564, 199_999_999_999_999_999_916_553_588)
    ensures SumWithin(x, 24, next)
  {
    next := NextSum(x, 16, b, 553_304_653, 553_304_654);
    next := NextSum(x, 17, next, 21_306_753, 21_306_754);
    next := NextSum(x, 18, next, 777_300, 777_301);
    next := NextSum(x, 19, next, 26_939, 26_940);
    next := NextSum(x, 20, next, 889, 890);
    next := NextSum(x, 21, next, 28, 29);
    next := NextSum(x, 22, next, 0, 1);
    next := NextSum(x, 23, next, 0, 1);
  }

  /** From the 24th weight on each is at most half of the one before, so what is left out is at most that weight. */
  lemma {:induction false} RestBelowLast(m: nat, x: Expansion)
    requires Expands(x) && x.z <= 1.0 && 24 <= m
    ensures Exp(x, m) + x.weight(m) <= Exp(x, 24) + x.weight(24)
    decreases m
  {
    if 24 < m {
      RestBelowLast(m - 1, x);
      assert WeightAt(x, m - 1) && WeightAt(x, m);
      HalfOf(x.weight(m - 1), x.weight(m), x.z, m as real);
    }
  }

  lemma HalfOf(w: real, w': real, z: real, k: real)
    requires 0.0 <= w && 0.0 <= w' && w' * k == w * z && z <= 1.0 && 2.0 <= k
    ensures 2.0 * w' <= w
  {
    RealMono(z, 1.0, w);
    RealMono(2.0, k, w');
  }

  /** The exponential of the constant is below 2, by at most 10^-18. */
  lemma ConstantExponential(m: nat, x: Expansion)
    requires Expands(x) && x.z * 1_000_000_000_000_000_000.0 == LN2 as real
    ensures Exp(x, m) <= 2.0
    ensures 24 <= m ==> 2.0 - 0.000_000_000_000_000_001 <= Exp(x, m)
  {
    var b := FirstSums(x, Bounds(100_000_000_000_000_000_000_000_000, 100_000_000_000_000_000_000_000_000,
                                 100_000_000_000_000_000_000_000_000, 100_000_000_000_000_000_000_000_000));
    b := MiddleSums(x, b);
    b := LastSums(x, b);
    if m < 24 {
      ExpGrows(m, 24, x);
    } else {
      RestBelowLast(m, x);
      assert WeightAt(x, m);
      ExpGrows(24, m, x);
    }
  }

  // ---- the constant against sums of reciprocals

  lemma NotTooLarge(h: real, low: real, high: real, n: real, s: real)
    requires 0.0 <= h && 0.0 < n && (1.0 + h) * low <= high <= 2.0 && 2.0 * n + 1.0 <= low * (n + 1.0) && s * n == 1.0
    ensures h <= s
  {
    RealMono(2.0 * n + 1.0, low * (n + 1.0), 1.0 + h);
    RealMono((1.0 + h) * low, 2.0, n + 1.0);
    TimesCommutes(1.0 + h, low, n);
    Regroup(low, 1.0 + h, n + 1.0);
    OnePlus(h, 2.0 * n + 1.0);
    TimesCommutes(1.0 + h, 2.0 * n + 1.0, n);
    RealMono(0.0, h, n);
    assert h * (2.0 * n + 1.0) == 2.0 * (h * n) + h;
    RealCancel(h, s, n);
  }

  lemma NotTooSmall(h: real, low: real, high: real)
    requires 0.0 <= h && (1.0 + h) * low <= high && high <= 2.0 && 2.0 - 0.000_000_000_000_000_001 <= low
    ensures h <= 0.000_000_000_000_000_001
  {
    RealMono(1.0, low, h);
    OnePlus(h, low);
    TimesCommutes(h, low, 1.0);
  }

  lemma AtLeastTwo(n: nat, y: Expansion)
    requires Expands(y) && y.z == Ln2(n)
    ensures 2.0 * n as real + 1.0 <= Exp(y, n) * (n as real + 1.0)
  {
    AtLeastRatio(n, n, 2 * n, y);
  }

  lemma AtMostTwo(m: nat, n: nat, y: Expansion)
    requires 0 < n && Expands(y) && y.z == Ln2(n)
    ensures Exp(y, m) <= 2.0
  {
    AtMostRatio(m, n, 2 * n, y);
    RealCancel(Exp(y, m), 2.0, n as real);
  }

  lemma ConstantNotAbove(n: nat, x: Expansion)
    requires 0 < n && Expands(x) && x.z * 1_000_000_000_000_000_000.0 == LN2 as real && Ln2(n) <= x.z
    ensures x.z <= Ln2(n) + Inverse(n)
  {
    var h := x.z - Ln2(n);
    var y := SomeExpansion(Ln2(n));
    ConstantExponential(n + 1, x);
    AtLeastTwo(n, y);
    ExpUp(n, y, x, h);
    NotTooLarge(h, Exp(y, n), Exp(x, n + 1), n as real, Inverse(n));
  }

  lemma ConstantNotBelow(n: nat, x: Expansion)
    requires 0 < n && Expands(x) && x.z * 1_000_000_000_000_000_000.0 == LN2 as real && x.z <= Ln2(n)
    ensures Ln2(n) <= x.z + 0.000_000_000_000_000_001
  {
    var h := Ln2(n) - x.z;
    var y := SomeExpansion(Ln2(n));
    ConstantExponential(24, x);
    AtMostTwo(25, n, y);
    ExpUp(24, x, y, h);
    NotTooSmall(h, Exp(x, 24), Exp(y, 25));
  }

  /** The constant is ln 2: the sum of the reciprocals from n + 1 to 2n is at most 10^-18 above it, and at most one step
      below it. */
  lemma ConstantIsLn2(n: nat)
    requires 0 < n
    ensures var z := LN2 as real / 1_000_000_000_000_000_000.0;
            z <= Ln2(n) + Inverse(n) && Ln2(n) <= z + 0.000_000_000_000_000_001
  {
    var x := SomeExpansion(LN2 as real / 1_000_000_000_000_000_000.0);
    if Ln2(n) <= x.z { ConstantNotAbove(n, x); } else { ConstantNotBelow(n, x); }
  }
}
