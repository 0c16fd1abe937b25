/** Yearly inflation past the ideal stake, 2^((x_ideal - x)/d), by an alternating Taylor series on big naturals. */
module InflationSeries {
  import opened Arith
  import opened Powers

  // ---- division of big naturals

  const LIMB: nat := 0x1_0000_0000

  /** The number of 32-bit limbs without leading zeros. */
  function Limbs(x: nat): nat {
    if x == 0 then 0
    else
      DivBounds(x, LIMB);
      1 + Limbs(x / LIMB)
  }

  /** The source's division, by the numbers of limbs of the operands. */
  function DivByStripped(a: nat, b: nat): nat {
    if Limbs(b) == 0 then 0
    else if Limbs(b) == 1 then Floor(a, b)
    else if Limbs(b) > Limbs(a) then 0
    else if Limbs(b) == Limbs(a) then Floor(Floor(Floor(a * 10_000_000_000, b), 100_000), 100_000)
    else Floor(a, b)
  }

  lemma {:induction false} LimbsMono(a: nat, b: nat)
    requires a <= b
    ensures Limbs(a) <= Limbs(b)
    decreases b
  {
    if a > 0 {
      DivMono(a, b, LIMB);
      LimbsMono(a / LIMB, b / LIMB);
    }
  }

  lemma DivProductCancel(a: nat, b: nat, c: nat)
    requires 0 < b && 0 < c
    ensures Floor(Floor(a * c, b), c) == Floor(a, b)
  {
    DivDiv(a * c, b, c);
    DivDiv(a * c, c, b);
    DivUnique(a * c, c, a);
    assert b * c == c * b;
  }

  /** Scaling the dividend up before and down after the long division changes nothing: it is floor division. */
  lemma DivByStrippedIsFloor(a: nat, b: nat)
    requires 0 < b
    ensures DivByStripped(a, b) == a / b
  {
    if Limbs(b) > Limbs(a) {
      if b <= a { LimbsMono(b, a); }
      DivUnique(a, b, 0);
    } else if Limbs(b) == Limbs(a) {
      DivProductCancel(a, b, 10_000_000_000);
      DivDiv(Floor(a * 10_000_000_000, b), 100_000, 100_000);
    }
  }

  /** The scaled dividend has more limbs than the divisor, as the long division needs. */
  lemma ScaledIsLonger(a: nat, b: nat)
    requires 0 < b && Limbs(b) == Limbs(a)
    ensures Limbs(a * 10_000_000_000) > Limbs(b)
  {
    DivUnique(a * LIMB, LIMB, a);
    LimbsMono(a * LIMB, a * 10_000_000_000);
  }

  // ---- terms

  /** All in parts of `accuracy`. */
  datatype Param = Param(ln2DivD: nat, xIdeal: nat, x: nat, accuracy: nat)

  ghost predicate Valid(p: Param) { 0 < p.accuracy }

  function Excess(p: Param): nat { Monus(p.x, p.xIdeal) }

  /** The source's next term: three divisions, each rounded down. */
  function NextTerm(k: nat, previous: nat, p: Param): nat
    requires 0 < k
  {
    DivByStripped(DivByStripped(Floor(previous * Excess(p) * p.ln2DivD, k), p.accuracy), p.accuracy)
  }

  /** previous * (x - x_ideal) * L / (k * A^2), rounded down once. */
  function Fraction(k: nat, previous: nat, factor: nat, square: nat): nat {
    if k * square == 0 then 0 else Floor(previous * factor, k * square)
  }

  function Factor(p: Param): nat { Excess(p) * p.ln2DivD }

  function Accuracy2(p: Param): nat { p.accuracy * p.accuracy }

  /** Three divisions with rounding are one. */
  lemma NextTermExact(k: nat, previous: nat, p: Param)
    requires Valid(p) && 0 < k
    ensures NextTerm(k, previous, p) == Fraction(k, previous, Factor(p), Accuracy2(p))
  {
    var n := previous * Excess(p) * p.ln2DivD;
    MulSwap(previous, Excess(p), p.ln2DivD);
    DivByStrippedIsFloor(Floor(n, k), p.accuracy);
    DivByStrippedIsFloor(DivByStripped(Floor(n, k), p.accuracy), p.accuracy);
    DivDiv(Floor(n, k), p.accuracy, p.accuracy);
    DivDiv(n, k, p.accuracy * p.accuracy);
  }

  /** The terms as a recurrence of single floor divisions. */
  function Term(k: nat, p: Param): nat {
    if k == 0 then p.accuracy else Fraction(k, Term(k - 1, p), Factor(p), Accuracy2(p))
  }

  /** The exact alternating sum of the terms up to k. */
  function Signed(k: nat, p: Param): int {
    var t: int := Term(k, p);
    if k == 0 then t else Signed(k - 1, p) + if k % 2 == 0 then t else -t
  }

  lemma FractionOfZero(k: nat, factor: nat, square: nat)
    ensures Fraction(k, 0, factor, square) == 0
  {
    if k * square != 0 { DivUnique(0, k * square, 0); }
  }

  /** After a zero term there is nothing more to add. */
  lemma {:induction false} ZeroTermEnds(k: nat, n: nat, p: Param)
    requires Valid(p) && 0 < k <= n && Term(k, p) == 0
    ensures Term(n, p) == 0 && Signed(n, p) == Signed(k - 1, p)
    decreases n - k
  {
    if n == k {
    } else {
      FractionOfZero(k + 1, Factor(p), Accuracy2(p));
      ZeroTermEnds(k + 1, n, p);
    }
  }

  /** The number of terms the loop can take in. */
  const LAST: nat := 299

  /** The result: the alternating sum, or zero if it is negative. */
  function SeriesPart(p: Param): nat { Max(Signed(LAST, p), 0) }

  function WithSign(positive: bool, magnitude: nat): int {
    var m: int := magnitude;
    if positive then m else -m
  }

  method ComputeTaylorTerm(k: nat, previous: nat, p: Param) returns (term: nat)
    requires Valid(p) && 0 < k
    ensures term == Fraction(k, previous, Factor(p), Accuracy2(p))
  {
    NextTermExact(k, previous, p);
    var excess := if p.x >= p.xIdeal then p.x - p.xIdeal else 0;
    var res := Floor(previous * excess * p.ln2DivD, k);
    res := DivByStripped(res, p.accuracy);
    term := DivByStripped(res, p.accuracy);
  }

  /** The sum is kept as a magnitude and a sign; it is the exact signed sum at every step. */
  method ComputeTaylorSeriePart(p: Param) returns (result: nat)
    requires Valid(p)
    ensures result == SeriesPart(p)
  {
    var lastTerm := p.accuracy;
    var positive := true;
    var sum := lastTerm;
    var k := 1;
    while k < 300
      invariant 1 <= k <= 300
      invariant lastTerm == Term(k - 1, p)
      invariant Signed(k - 1, p) == WithSign(positive, sum)
    {
      lastTerm := ComputeTaylorTerm(k, lastTerm, p);
      if lastTerm == 0 {
        ZeroTermEnds(k, LAST, p);
        break;
      }
      var termPositive := k % 2 == 0;
      if positive == termPositive {
        sum := sum + lastTerm;
      } else if sum >= lastTerm {
        sum := sum - lastTerm;
      } else {
        positive := !positive;
        sum := lastTerm - sum;
      }
      k := k + 1;
    }
    assert Signed(LAST, p) == WithSign(positive, sum);
    if !positive {
      return 0;
    }
    return sum;
  }

  // ---- when the terms shrink from the start

  lemma FractionDescends(k: nat, previous: nat, factor: nat, square: nat)
    requires 0 < k && factor <= square
    ensures Fraction(k, previous, factor, square) <= previous
  {
    if k * square != 0 {
      MulMonoBoth(1, k, square, square);
      MulMonoBoth(previous, previous, factor, k * square);
      DivMono(previous * factor, previous * (k * square), k * square);
      DivUnique(previous * (k * square), k * square, previous);
    }
  }

  /** With (x - x_ideal) * L <= A^2 no term exceeds the one before. */
  lemma TermsDescend(k: nat, p: Param)
    requires 0 < k && Factor(p) <= Accuracy2(p)
    ensures Term(k, p) <= Term(k - 1, p)
  {
    FractionDescends(k, Term(k - 1, p), Factor(p), Accuracy2(p));
  }

  /** Partial sums of a descending alternating series stay between the first two of them. */
  lemma {:induction false} AlternatingBounds(k: nat, p: Param)
    requires Valid(p) && Factor(p) <= Accuracy2(p)
    ensures Term(0, p) - Term(1, p) <= Signed(k, p) <= Term(0, p)
    ensures k % 2 == 0 ==> Signed(k, p) >= Term(0, p) - Term(1, p) + Term(k, p) || k == 0
    ensures k % 2 == 1 ==> Signed(k, p) <= Term(0, p) - Term(k, p)
  {
    if k > 0 {
      AlternatingBounds(k - 1, p);
      TermsDescend(k, p);
    }
  }

  /** The result then lies within one term of the accuracy, so it is a valid fraction. */
  lemma ResultInRange(p: Param)
    requires Valid(p) && Factor(p) <= Accuracy2(p)
    ensures p.accuracy - Term(1, p) <= SeriesPart(p) <= p.accuracy
    ensures SeriesPart(p) == Signed(LAST, p)
  {
    AlternatingBounds(LAST, p);
    TermsDescend(1, p);
  }

  // ---- the loop always meets a zero term

  /** The exponent (x - x_ideal) * ln 2 / d is at most 70. */
  ghost predicate ExponentAtMost70(p: Param) {
    Valid(p) && Excess(p) <= p.accuracy && p.ln2DivD <= 70 * p.accuracy
  }

  lemma FractionRatio(k: nat, previous: nat, factor: nat, square: nat)
    requires factor <= 70 * square
    ensures Fraction(k, previous, factor, square) * k <= 70 * previous
  {
    if k * square != 0 {
      var t := Fraction(k, previous, factor, square);
      DivBounds(previous * factor, k * square);
      MulMonoBoth(previous, previous, factor, 70 * square);
      MulSwap(t, k, square);
      MulSwap(previous, 70, square);
      if t * k > 70 * previous {
        MulMono(70 * previous + 1, t * k, square);
        MulPlusOne(70 * previous, square);
      }
    }
  }

  /** Term k is at most 70/k of the one before. */
  lemma TermRatio(k: nat, p: Param)
    requires ExponentAtMost70(p) && 0 < k
    ensures Term(k, p) * k <= 70 * Term(k - 1, p)
  {
    MulMonoBoth(Excess(p), p.accuracy, p.ln2DivD, 70 * p.accuracy);
    MulSwap(p.accuracy, 70, p.accuracy);
    FractionRatio(k, Term(k - 1, p), Factor(p), Accuracy2(p));
  }

  /** From a to b terms grow at most by a factor m each, if 70/(a+1) <= m. */
  lemma {:induction false} GrowAtMost(a: nat, b: nat, m: nat, p: Param)
    requires ExponentAtMost70(p) && a <= b && 70 <= m * (a + 1)
    ensures Term(b, p) <= Pow(m, b - a) * Term(a, p)
    decreases b
  {
    if a < b {
      GrowAtMost(a, b - 1, m, p);
      TermRatio(b, p);
      MulMonoBoth(m, m, a + 1, b);
      MulMonoBoth(70, m * b, Term(b - 1, p), Term(b - 1, p));
      MulSwap(m, b, Term(b - 1, p));
      if Term(b, p) > m * Term(b - 1, p) {
        MulMono(m * Term(b - 1, p) + 1, Term(b, p), b);
        MulPlusOne(m * Term(b - 1, p), b);
      }
      MulMonoBoth(m, m, Term(b - 1, p), Pow(m, b - 1 - a) * Term(a, p));
      MulSwap(m, Pow(m, b - 1 - a), Term(a, p));
    }
  }

  /** From a to b terms shrink at least by a factor m each, if 70/(a+1) <= 1/m. */
  lemma {:induction false} ShrinkAtLeast(a: nat, b: nat, m: nat, p: Param)
    requires ExponentAtMost70(p) && a <= b && 70 * m <= a + 1
    ensures Pow(m, b - a) * Term(b, p) <= Term(a, p)
    decreases b
  {
    if a < b {
      ShrinkAtLeast(a, b - 1, m, p);
      TermRatio(b, p);
      MulMono(70 * m, b, Term(b, p));
      MulSwap(70, m, Term(b, p));
      assert m * Term(b, p) <= Term(b - 1, p);
      MulMonoBoth(Pow(m, b - 1 - a), Pow(m, b - 1 - a), m * Term(b, p), Term(b - 1, p));
      MulSwap(Pow(m, b - 1 - a), m, Term(b, p));
      assert m * Pow(m, b - 1 - a) == Pow(m, b - 1 - a) * m;
    }
  }

  lemma PowersOfTwo()
    ensures Pow(2, 35) == 34_359_738_368 && Pow(2, 70) == 1_180_591_620_717_411_303_424
  {
    assert Pow(2, 5) == 32;
    PowAdd(2, 5, 5);
    PowAdd(2, 10, 10);
    PowAdd(2, 20, 10);
    PowAdd(2, 30, 5);
    PowAdd(2, 35, 35);
  }

  lemma PowersOfThree()
    ensures Pow(3, 70) == 2_503_155_504_993_241_601_315_571_986_085_849
  {
    assert Pow(3, 5) == 243;
    PowAdd(3, 5, 5);
    PowAdd(3, 10, 10);
    PowAdd(3, 20, 10);
    PowAdd(3, 30, 5);
    PowAdd(3, 35, 35);
  }

  lemma OtherPowers()
    ensures Pow(70, 8) == 576_480_100_000_000 && Pow(8, 9) == 134_217_728
    ensures Pow(4, 18) == 68_719_476_736 && Pow(4, 19) == 274_877_906_944
  {
    assert Pow(70, 4) == 24_010_000;
    PowAdd(70, 4, 4);
    assert Pow(8, 3) == 512;
    PowAdd(8, 3, 3);
    PowAdd(8, 6, 3);
    assert Pow(4, 6) == 4096;
    PowAdd(4, 6, 6);
    PowAdd(4, 12, 6);
    assert Pow(4, 19) == 4 * Pow(4, 18);
  }

  const QUINTILLION: nat := 1_000_000_000_000_000_000

  /** Up to term 140 the terms stay below 2^148 accuracies. */
  lemma Growth(p: Param)
    requires ExponentAtMost70(p)
    ensures Term(140, p) <= 182_693_836_196_157_427_049_439_903_376_369_254_400_000_000 * p.accuracy
  {
    FirstGrowth(p);
    PowersOfTwo();
    PowOfOne(70);
    GrowAtMost(35, 70, 2, p);
    GrowAtMost(70, 140, 1, p);
  }

  lemma FirstGrowth(p: Param)
    requires ExponentAtMost70(p)
    ensures Term(35, p) <= 5_317_090_434_143_244_843_273_420_800_000_000 * p.accuracy
  {
    OtherPowers();
    GrowAtMost(0, 8, 70, p);
    GrowAtMost(8, 17, 8, p);
    GrowAtMost(17, 35, 4, p);
  }

  /** From term 140 on they shrink by more than 2^218. */
  lemma Decay(p: Param)
    requires ExponentAtMost70(p)
    ensures 400_000_000_000_000_000_000_000_000_000_000_000_000_000_000_000_000_000_000_000_000_000 * Term(299, p) <= Term(140, p)
  {
    PowersOfTwo();
    PowersOfThree();
    OtherPowers();
    ShrinkAtLeast(140, 210, 2, p);
    ShrinkAtLeast(210, 280, 3, p);
    ShrinkAtLeast(280, 299, 4, p);
  }

  /** With an exponent of at most 70 and any accuracy up to 10^18 the loop always ends on a zero term. */
  lemma ZeroTermIsMet(p: Param)
    requires ExponentAtMost70(p) && p.accuracy <= QUINTILLION
    ensures Term(LAST, p) == 0
  {
    Growth(p);
    Decay(p);
  }

  // ---- the inflation

  const LN2: nat := 693_147_180_559_945_309

  function Ln2Parts(accuracy: nat): nat { Floor(LN2 * accuracy, QUINTILLION) }

  function ParamFor(accuracy: nat, stake: nat, ideal: nat, falloff: nat): Param {
    Param(DivByStripped(Ln2Parts(accuracy) * accuracy, falloff), ideal, stake, accuracy)
  }

  /** Inflation as a fraction of `accuracy`: the ratio below the ideal stake, zero when the falloff is too small or the
      series is no fraction. */
  function Inflation(accuracy: nat, stake: nat, ideal: nat, falloff: nat): nat {
    if stake < ideal then Floor(stake * accuracy, ideal)
    else if falloff < accuracy / 100 then 0
    else
      var s := SeriesPart(ParamFor(accuracy, stake, ideal, falloff));
      if s <= accuracy then s else 0
  }

  method ComputeInflation(accuracy: nat, stake: nat, ideal: nat, falloff: nat) returns (r: nat)
    requires 0 < accuracy && stake <= accuracy && ideal <= accuracy && falloff <= accuracy
    ensures r == Inflation(accuracy, stake, ideal, falloff) <= accuracy
  {
    if stake < ideal {
      r := Floor(stake * accuracy, ideal);
      MulMono(stake, ideal, accuracy);
      DivMono(stake * accuracy, accuracy * ideal, ideal);
      DivUnique(accuracy * ideal, ideal, accuracy);
      return;
    }
    if falloff < accuracy / 100 {
      return 0;
    }
    var res := ComputeTaylorSeriePart(ParamFor(accuracy, stake, ideal, falloff));
    r := if res <= accuracy then res else 0;
  }

  /** The accuracy is fine enough for a falloff of one percent to bound the exponent. */
  predicate Supported(accuracy: nat) {
    100 <= accuracy <= QUINTILLION && Ln2Parts(accuracy) <= 70 * (accuracy / 100)
  }

  /** Percent, PerU16, Permill, Perbill and Perquintill are. */
  lemma LibraryAccuraciesSupported()
    ensures Supported(100) && Supported(65_535) && Supported(1_000_000) && Supported(1_000_000_000)
    ensures Supported(QUINTILLION)
  {
  }

  /** A falloff of at least one percent keeps the exponent at most 70. */
  lemma FalloffBoundsExponent(accuracy: nat, stake: nat, ideal: nat, falloff: nat)
    requires Supported(accuracy) && stake <= accuracy && accuracy / 100 <= falloff
    ensures ExponentAtMost70(ParamFor(accuracy, stake, ideal, falloff))
  {
    DivAtLeast(accuracy, 100, 1);
    DivByStrippedIsFloor(Ln2Parts(accuracy) * accuracy, falloff);
    MulMono(Ln2Parts(accuracy), 70 * falloff, accuracy);
    MulSwap(70, falloff, accuracy);
    DivMono(Ln2Parts(accuracy) * accuracy, (70 * accuracy) * falloff, falloff);
    DivUnique((70 * accuracy) * falloff, falloff, 70 * accuracy);
  }

  /** With a falloff of at least one percent the loop always ends on a zero term, at any stake. */
  lemma FalloffEndsTheLoop(accuracy: nat, stake: nat, ideal: nat, falloff: nat)
    requires Supported(accuracy) && stake <= accuracy && accuracy / 100 <= falloff
    ensures exists k :: 1 <= k < 300 && Term(k, ParamFor(accuracy, stake, ideal, falloff)) == 0
  {
    FalloffBoundsExponent(accuracy, stake, ideal, falloff);
    ZeroTermIsMet(ParamFor(accuracy, stake, ideal, falloff));
    assert Term(299, ParamFor(accuracy, stake, ideal, falloff)) == 0;
  }
}
