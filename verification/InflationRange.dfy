/** The inflation is a valid fraction for every library accuracy: the out-of-range fallback is not reached. */
module InflationRange {
  import opened Arith
  import opened Powers
  import opened Reals
  import opened InflationSeries
  import opened InflationAccuracy

  // ---- from the distance to the exponential

  /** s times e is at most a, plus e for every second of n terms, plus one. */
  lemma AtMostFraction(s: nat, a: nat, half: nat, e: real, low: real)
    requires Times(s, e) <= a as real + Times(half, e) + 1.0
    requires 1.0 <= low <= e && half <= a + 1 && a as real + 1.0 < Times(a + 1 - half, low)
    ensures s <= a
  {
    TimesAdds(a + 1 - half, half, e);
    TimesGrows(a + 1 - half, low, e);
    if a < s { TimesMono(a + 1, s, e); }
  }

  lemma NearIsAtMost(x: Expansion, m: nat, s: nat, a: nat, n: nat)
    requires NearAt(x, m, s, a, n) && n <= LAST
    ensures Times(s, Exp(x, m)) <= a as real + Times((n + 1) / 2, Exp(x, m)) + 1.0
  {
    TimesMono(n, LAST, 0.0025);
    TimesIsProduct(LAST, 0.0025);
  }

  /** Some partial sum of e^z is large enough. */
  lemma NearIsFraction(x: Expansion, s: nat, a: nat, n: nat, low: real)
    requires Expands(x) && Near(x, s, a, n) && n <= LAST
    requires 1.0 <= low <= 1.0 + x.z + x.weight(2)
    requires (n + 1) / 2 <= a + 1 && a as real + 1.0 < Times(a + 1 - (n + 1) / 2, low)
    ensures s <= a
  {
    var m0: nat :| NearFrom(x, m0, s, a, n);
    assert NearAt(x, m0 + 2, s, a, n);
    ExpBounds(x, m0 + 2);
    NearIsAtMost(x, m0 + 2, s, a, n);
    AtMostFraction(s, a, (n + 1) / 2, Exp(x, m0 + 2), low);
  }

  // ---- coarse accuracies have fewer terms

  lemma RatioAtMost(k: nat, previous: nat, factor: nat, square: nat, c: nat)
    requires 0 < k && 0 < square && factor <= c * square
    ensures k * Fraction(k, previous, factor, square) <= c * previous
  {
    MulMonoBoth(1, k, 1, square);
    var t := Fraction(k, previous, factor, square);
    DivBounds(previous * factor, k * square);
    MulMonoBoth(previous, previous, factor, c * square);
    MulSwap(t, k, square);
    MulSwap(previous, c, square);
    if c * previous < t * k {
      MulMono(c * previous + 1, t * k, square);
      MulPlusOne(c * previous, square);
    }
  }

  /** Term k + 1 is at most c / (k + 1) times term k. */
  ghost predicate FallsBy(t: nat -> nat, c: nat) {
    forall k: nat :: RatioAt(t, c, k)
  }

  ghost predicate RatioAt(t: nat -> nat, c: nat, k: nat) {
    (k + 1) * t(k + 1) <= c * t(k)
  }

  lemma TermsFallBy(p: Param, c: nat)
    requires Valid(p) && 0 < Accuracy2(p) && Factor(p) <= c * Accuracy2(p)
    ensures FallsBy(Terms(p), c)
  {
    forall k: nat
      ensures RatioAt(Terms(p), c, k)
    {
      RatioAtMost(k + 1, Term(k, p), Factor(p), Accuracy2(p), c);
    }
  }

  /** (i + 1) * ... * (i + n) */
  function Rise(i: nat, n: nat): nat {
    if n == 0 then 1 else Rise(i, n - 1) * (i + n)
  }

  lemma Exchange(t: nat, t': nat, r: nat, w: nat, k: nat, c: nat, first: nat)
    requires t * r <= w * first && k * t' <= c * t
    ensures t' * (r * k) <= c * w * first
  {
    MulMono(k * t', c * t, r);
    MulMono(t * r, w * first, c);
    MulSwap(t', r, k);
    MulSwap(t', k, r);
    MulSwap(c, t, r);
    MulSwap(c, w, first);
    assert t' * k == k * t' && c * (t * r) == t * r * c && c * (w * first) == w * first * c;
  }

  /** Over n terms the bounds multiply. */
  lemma {:induction false} BlockFalls(t: nat -> nat, c: nat, i: nat, n: nat)
    requires FallsBy(t, c)
    ensures t(i + n) * Rise(i, n) <= Pow(c, n) * t(i)
    decreases n
  {
    if n > 0 {
      BlockFalls(t, c, i, n - 1);
      assert RatioAt(t, c, i + n - 1);
      Exchange(t(i + n - 1), t(i + n), Rise(i, n - 1), Pow(c, n - 1), i + n, c, t(i));
    }
  }

  lemma BlockBound(t: nat -> nat, c: nat, i: nat, n: nat, b: nat, b': nat, rise: nat, power: nat)
    requires FallsBy(t, c) && t(i) <= b && rise == Rise(i, n) && power == Pow(c, n) && power * b < (b' + 1) * rise
    ensures t(i + n) <= b'
  {
    BlockFalls(t, c, i, n);
    MulMonoBoth(power, power, t(i), b);
    if b' < t(i + n) { MulMono(b' + 1, t(i + n), rise); }
  }

  lemma SlowTo22(t: nat -> nat)
    requires FallsBy(t, 20) && t(0) <= 302
    ensures t(22) <= 11_280_000_000
  {
    assert Pow(20, 11) == 204_800_000_000_000;
    assert Rise(0, 11) == 39_916_800;
    BlockBound(t, 20, 0, 11, 302, 1_550_000_000, Rise(0, 11), Pow(20, 11));
    assert Rise(11, 11) == 28_158_588_057_600;
    BlockBound(t, 20, 11, 11, 1_550_000_000, 11_280_000_000, Rise(11, 11), Pow(20, 11));
  }

  lemma SlowTo44(t: nat -> nat)
    requires FallsBy(t, 20) && t(22) <= 11_280_000_000
    ensures t(44) <= 200_100
  {
    assert Pow(20, 11) == 204_800_000_000_000;
    assert Rise(22, 11) == 7_725_366_544_896_000;
    BlockBound(t, 20, 22, 11, 11_280_000_000, 299_100_000, Rise(22, 11), Pow(20, 11));
    assert Rise(33, 11) == 306_135_476_264_217_600;
    BlockBound(t, 20, 33, 11, 299_100_000, 200_100, Rise(33, 11), Pow(20, 11));
  }

  lemma SlowTo66(t: nat -> nat)
    requires FallsBy(t, 20) && t(44) <= 200_100
    ensures t(66) == 0
  {
    assert Pow(20, 11) == 204_800_000_000_000;
    assert Rise(44, 11) == 4_776_187_457_321_280_000;
    BlockBound(t, 20, 44, 11, 200_100, 8, Rise(44, 11), Pow(20, 11));
    assert Rise(55, 11) == 42_873_948_150_095_462_400;
    BlockBound(t, 20, 55, 11, 8, 0, Rise(55, 11), Pow(20, 11));
  }

  lemma FastTo22(t: nat -> nat)
    requires FallsBy(t, 70) && t(0) <= 302
    ensures t(22) <= 10_510_000_000_000_000_000_000
  {
    assert Pow(70, 11) == 197_732_674_300_000_000_000;
    assert Rise(0, 11) == 39_916_800;
    BlockBound(t, 70, 0, 11, 302, 1_496_000_000_000_000, Rise(0, 11), Pow(70, 11));
    assert Rise(11, 11) == 28_158_588_057_600;
    BlockBound(t, 70, 11, 11, 1_496_000_000_000_000, 10_510_000_000_000_000_000_000, Rise(11, 11), Pow(70, 11));
  }

  lemma FastTo44(t: nat -> nat)
    requires FallsBy(t, 70) && t(22) <= 10_510_000_000_000_000_000_000
    ensures t(44) <= 173_900_000_000_000_000_000_000_000_000
  {
    assert Pow(70, 11) == 197_732_674_300_000_000_000;
    assert Rise(22, 11) == 7_725_366_544_896_000;
    BlockBound(t, 70, 22, 11, 10_510_000_000_000_000_000_000, 269_100_000_000_000_000_000_000_000, Rise(22, 11), Pow(70, 11));
    assert Rise(33, 11) == 306_135_476_264_217_600;
    BlockBound(t, 70, 33, 11, 269_100_000_000_000_000_000_000_000, 173_900_000_000_000_000_000_000_000_000, Rise(33, 11), Pow(70, 11));
  }

  lemma FastTo66(t: nat -> nat)
    requires FallsBy(t, 70) && t(44) <= 173_900_000_000_000_000_000_000_000_000
    ensures t(66) <= 33_210_000_000_000_000_000_000_000_000_000
  {
    assert Pow(70, 11) == 197_732_674_300_000_000_000;
    assert Rise(44, 11) == 4_776_187_457_321_280_000;
    BlockBound(t, 70, 44, 11, 173_900_000_000_000_000_000_000_000_000, 7_200_000_000_000_000_000_000_000_000_000, Rise(44, 11), Pow(70, 11));
    assert Rise(55, 11) == 42_873_948_150_095_462_400;
    BlockBound(t, 70, 55, 11, 7_200_000_000_000_000_000_000_000_000_000, 33_210_000_000_000_000_000_000_000_000_000, Rise(55, 11), Pow(70, 11));
  }

  lemma FastTo88(t: nat -> nat)
    requires FallsBy(t, 70) && t(66) <= 33_210_000_000_000_000_000_000_000_000_000
    ensures t(88) <= 3_813_000_000_000_000_000_000_000_000_000
  {
    assert Pow(70, 11) == 197_732_674_300_000_000_000;
    assert Rise(66, 11) == 266_711_567_621_704_128_000;
    BlockBound(t, 70, 66, 11, 33_210_000_000_000_000_000_000_000_000_000, 24_630_000_000_000_000_000_000_000_000_000, Rise(66, 11), Pow(70, 11));
    assert Rise(77, 11) == 1_277_577_434_576_617_574_400;
    BlockBound(t, 70, 77, 11, 24_630_000_000_000_000_000_000_000_000_000, 3_813_000_000_000_000_000_000_000_000_000, Rise(77, 11), Pow(70, 11));
  }

  lemma FastTo110(t: nat -> nat)
    requires FallsBy(t, 70) && t(88) <= 3_813_000_000_000_000_000_000_000_000_000
    ensures t(110) <= 1_742_000_000_000_000_000_000_000_000
  {
    assert Pow(70, 11) == 197_732_674_300_000_000_000;
    assert Rise(88, 11) == 5_031_533_641_537_910_707_200;
    BlockBound(t, 70, 88, 11, 3_813_000_000_000_000_000_000_000_000_000, 149_900_000_000_000_000_000_000_000_000, Rise(88, 11), Pow(70, 11));
    assert Rise(99, 11) == 17_018_214_378_110_225_280_000;
    BlockBound(t, 70, 99, 11, 149_900_000_000_000_000_000_000_000_000, 1_742_000_000_000_000_000_000_000_000, Rise(99, 11), Pow(70, 11));
  }

  lemma FastTo132(t: nat -> nat)
    requires FallsBy(t, 70) && t(110) <= 1_742_000_000_000_000_000_000_000_000
    ensures t(132) <= 9_674_000_000_000_000_000_000
  {
    assert Pow(70, 11) == 197_732_674_300_000_000_000;
    assert Rise(110, 11) == 50_963_773_003_971_232_204_800;
    BlockBound(t, 70, 110, 11, 1_742_000_000_000_000_000_000_000_000, 6_759_000_000_000_000_000_000_000, Rise(110, 11), Pow(70, 11));
    assert Rise(121, 11) == 138_152_632_708_617_246_720_000;
    BlockBound(t, 70, 121, 11, 6_759_000_000_000_000_000_000_000, 9_674_000_000_000_000_000_000, Rise(121, 11), Pow(70, 11));
  }

  lemma FastTo154(t: nat -> nat)
    requires FallsBy(t, 70) && t(132) <= 9_674_000_000_000_000_000_000
    ensures t(154) <= 1_369_000_000_000_000
  {
    assert Pow(70, 11) == 197_732_674_300_000_000_000;
    assert Rise(132, 11) == 344_679_218_978_506_655_443_200;
    BlockBound(t, 70, 132, 11, 9_674_000_000_000_000_000_000, 5_550_000_000_000_000_000, Rise(132, 11), Pow(70, 11));
    assert Rise(143, 11) == 801_627_513_429_191_404_032_000;
    BlockBound(t, 70, 143, 11, 5_550_000_000_000_000_000, 1_369_000_000_000_000, Rise(143, 11), Pow(70, 11));
  }

  lemma FastTo176(t: nat -> nat)
    requires FallsBy(t, 70) && t(154) <= 1_369_000_000_000_000
    ensures t(176) <= 8_362_000
  {
    assert Pow(70, 11) == 197_732_674_300_000_000_000;
    assert Rise(154, 11) == 1_755_441_778_514_284_852_992_000;
    BlockBound(t, 70, 154, 11, 1_369_000_000_000_000, 154_300_000_000, Rise(154, 11), Pow(70, 11));
    assert Rise(165, 11) == 3_648_716_260_517_560_167_936_000;
    BlockBound(t, 70, 165, 11, 154_300_000_000, 8_362_000, Rise(165, 11), Pow(70, 11));
  }

  lemma FastTo198(t: nat -> nat)
    requires FallsBy(t, 70) && t(176) <= 8_362_000
    ensures t(198) == 0
  {
    assert Pow(70, 11) == 197_732_674_300_000_000_000;
    assert Rise(176, 11) == 7_245_426_572_120_876_845_305_600;
    BlockBound(t, 70, 176, 11, 8_362_000, 228, Rise(176, 11), Pow(70, 11));
    assert Rise(187, 11) == 13_819_393_662_499_657_206_374_400;
    BlockBound(t, 70, 187, 11, 228, 0, Rise(187, 11), Pow(70, 11));
  }

  lemma ShortFor20(p: Param)
    requires Valid(p) && 0 < Accuracy2(p) && p.accuracy <= 302 && Factor(p) <= 20 * Accuracy2(p)
    ensures Term(66, p) == 0
  {
    TermsFallBy(p, 20);
    SlowTo22(Terms(p));
    SlowTo44(Terms(p));
    SlowTo66(Terms(p));
  }

  lemma ShortFor70(p: Param)
    requires Valid(p) && 0 < Accuracy2(p) && p.accuracy <= 302 && Factor(p) <= 70 * Accuracy2(p)
    ensures Term(198, p) == 0
  {
    TermsFallBy(p, 70);
    FastTo22(Terms(p));
    FastTo44(Terms(p));
    FastTo66(Terms(p));
    FastTo88(Terms(p));
    FastTo110(Terms(p));
    FastTo132(Terms(p));
    FastTo154(Terms(p));
    FastTo176(Terms(p));
    FastTo198(Terms(p));
  }

  // ---- the range

  lemma FineIsFraction(p: Param, x: Expansion)
    requires Expands(x) && 1.0 <= x.z && Near(x, SeriesPart(p), p.accuracy, LAST) && 302 < p.accuracy
    ensures SeriesPart(p) <= p.accuracy
  {
    assert WeightAt(x, 2);
    TimesIsProduct(p.accuracy + 1 - 150, 2.0);
    NearIsFraction(x, SeriesPart(p), p.accuracy, LAST, 2.0);
  }

  lemma SlowIsFraction(p: Param, x: Expansion)
    requires Expands(x) && 1.0 <= x.z && Near(x, SeriesPart(p), p.accuracy, 66) && 100 <= p.accuracy
    ensures SeriesPart(p) <= p.accuracy
  {
    assert WeightAt(x, 2);
    TimesIsProduct(p.accuracy + 1 - 33, 2.0);
    NearIsFraction(x, SeriesPart(p), p.accuracy, 66, 2.0);
  }

  lemma FastIsFraction(p: Param, x: Expansion)
    requires Expands(x) && 20.0 <= x.z && Near(x, SeriesPart(p), p.accuracy, 198) && 100 <= p.accuracy
    ensures SeriesPart(p) <= p.accuracy
  {
    SecondWeight(x);
    RealMonoBoth(20.0, x.z, 20.0, x.z);
    TimesIsProduct(p.accuracy + 1 - 99, 221.0);
    NearIsFraction(x, SeriesPart(p), p.accuracy, 198, 221.0);
  }

  /** The result is a valid fraction at every exponent up to 70 and every accuracy from Percent on. */
  lemma FallbackUnreachable(p: Param)
    requires ExponentAtMost70(p) && 100 <= p.accuracy <= QUINTILLION
    ensures SeriesPart(p) <= p.accuracy
  {
    var z := Exponent(p);
    ExponentBounds(p, z);
    FactorAtMost70(p);
    ExpansionExpands(z);
    if Factor(p) <= Accuracy2(p) {
      ResultInRange(p);
    } else if 302 < p.accuracy {
      SeriesIsExponential(p);
      FineIsFraction(p, ExpansionOf(z));
    } else if Factor(p) <= 20 * Accuracy2(p) {
      ShortFor20(p);
      SeriesNear(p, 66);
      SlowIsFraction(p, ExpansionOf(z));
    } else {
      ShortFor70(p);
      SeriesNear(p, 198);
      FastIsFraction(p, ExpansionOf(z));
    }
  }

  /** With a falloff of at least one percent no stake makes the inflation fall back to zero for being out of
      range, in any accuracy for which one percent bounds the exponent: in Percent, PerU16, Permill, Perbill and
      Perquintill alike. */
  lemma InflationIsSeries(accuracy: nat, stake: nat, ideal: nat, falloff: nat)
    requires Supported(accuracy) && stake <= accuracy && accuracy / 100 <= falloff
    ensures SeriesPart(ParamFor(accuracy, stake, ideal, falloff)) <= accuracy
  {
    FalloffBoundsExponent(accuracy, stake, ideal, falloff);
    FallbackUnreachable(ParamFor(accuracy, stake, ideal, falloff));
  }
}
