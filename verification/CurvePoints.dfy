/** Sampling of the reward curve: from the ideal stake on, points as far apart as the piece count allows. */
module CurvePoints {
  import opened Arith
  import opened Log2
  import opened Options

  datatype Input = Input(minInflation: nat, maxInflation: nat, idealStake: nat, falloff: nat, maxPieceCount: nat)

  type Point = (nat, nat)

  /** The bounds the macro checks while parsing. */
  predicate Parsed(i: Input) {
    && 0 < i.minInflation < i.maxInflation <= MILLION
    && 100_000 <= i.idealStake <= 900_000
    && 10_000 <= i.falloff <= MILLION
    && 2 <= i.maxPieceCount <= 1_000
  }

  /** The longest segment on either axis. */
  function MaxLength(i: Input): nat
    requires Parsed(i)
  {
    Floor(i.maxInflation - i.minInflation + MILLION - i.idealStake, i.maxPieceCount - 1)
  }

  /** No step from a point above the minimum inflation can fall below zero. */
  predicate Sampleable(i: Input) {
    Parsed(i) && MaxLength(i) <= i.minInflation + 1
  }

  /** The stake at which the falling part of the curve reaches y. */
  function Opposite(i: Input, y: nat): nat
    requires Parsed(i) && i.minInflation <= y <= i.maxInflation
  {
    if y == i.minInflation then U32_MAX
    else i.idealStake + Floor(i.falloff * Logarithm(i.maxInflation - i.minInflation, y - i.minInflation), MILLION)
  }

  /** Lower inflation is reached at a higher stake. */
  lemma OppositeAntitone(i: Input, y: nat, y': nat)
    requires Parsed(i) && i.minInflation < y' <= y <= i.maxInflation
    ensures Opposite(i, y) <= Opposite(i, y') <= i.idealStake + 20 * MILLION <= U32_MAX
  {
    var p := i.maxInflation - i.minInflation;
    var log, log' := Logarithm(p, y - i.minInflation), Logarithm(p, y' - i.minInflation);
    MonotoneAndAntitone(p, p, y - i.minInflation, y' - i.minInflation);
    LogarithmBelowTwenty(p, y' - i.minInflation);
    MulMonoBoth(i.falloff, i.falloff, log, log');
    DivMono(i.falloff * log, i.falloff * log', MILLION);
    MulMonoBoth(i.falloff, MILLION, log', 20 * MILLION);
    DivMono(i.falloff * log', MILLION * (20 * MILLION), MILLION);
    DivUnique(MILLION * (20 * MILLION), MILLION, 20 * MILLION);
  }

  /** The curve starts falling at the ideal stake. */
  lemma OppositeOfMax(i: Input)
    requires Parsed(i)
    ensures Opposite(i, i.maxInflation) == i.idealStake
  {
    LogOfOne(i.maxInflation - i.minInflation);
  }

  /** What is sampled: a curve that gives the stake for each inflation in (low, high], with segments of at
      most maxLength on either axis. */
  datatype Sampler = Sampler(curve: nat -> nat, low: nat, high: nat, maxLength: nat)

  /** Inflation y' is reached at no lower a stake than y. */
  predicate NotLeft(s: Sampler, y: nat, y': nat) {
    s.curve(y) <= s.curve(y')
  }

  /** Lower inflation is reached at a higher stake. */
  ghost predicate Falling(s: Sampler) {
    forall y: nat, y': nat :: s.low < y' <= y <= s.high ==> NotLeft(s, y, y')
  }

  /** A point of the curve before full stake. */
  predicate OnCurve(s: Sampler, p: Point) {
    s.low < p.1 <= s.high && p.0 == s.curve(p.1) && p.0 < MILLION
  }

  /** The inflation at full stake on the chord between two points, rounded down. */
  function Closing(a: Point, b: Point): nat
    requires a.0 < MILLION <= b.0 && b.1 <= a.1
  {
    b.1 + Floor((b.0 - MILLION) * (a.1 - b.1), b.0 - a.0)
  }

  /** The point reached from `a` by a drop of delta, unless that is too low or too far. */
  function Reached(s: Sampler, a: Point, delta: nat): (r: Option<Point>)
    requires OnCurve(s, a)
    ensures r.Some? ==> s.low < r.value.1 == a.1 - delta && r.value.0 == s.curve(r.value.1)
  {
    if a.1 <= s.low + delta || s.curve(a.1 - delta) - a.0 > s.maxLength then None
    else Some((s.curve(a.1 - delta), a.1 - delta))
  }

  /** The intended points after `a`: each drop is the largest one up to delta that is not too low or too far. */
  function Sampled(s: Sampler, a: Point, delta: nat): (r: seq<Point>)
    requires OnCurve(s, a)
    ensures r != []
    decreases a.1 + delta
  {
    if delta == 0 then [(MILLION, s.low)]
    else
      match Reached(s, a, delta)
      case None => Sampled(s, a, delta - 1)
      case Some(b) =>
        if b.0 >= MILLION then [(MILLION, Closing(a, b))] else [b] + Sampled(s, b, delta)
  }

  /** What the source's unsigned loop computes: None where its subtraction of the drop goes below zero. */
  function Walk(s: Sampler, a: Point, delta: nat): Option<seq<Point>>
    requires OnCurve(s, a)
    decreases a.1 + delta
  {
    if delta == 0 then Some([(MILLION, s.low)])
    else if a.1 < delta then None
    else
      match Reached(s, a, delta)
      case None => Walk(s, a, delta - 1)
      case Some(b) =>
        if b.0 >= MILLION then Some([(MILLION, Closing(a, b))])
        else Prepended(b, Walk(s, b, delta))
  }

  function Prepended(b: Point, rest: Option<seq<Point>>): Option<seq<Point>> {
    if rest.None? then None else Some([b] + rest.value)
  }

  /** The falling part of the reward curve. */
  function RewardCurve(i: Input): Sampler
    requires Parsed(i)
  {
    Sampler((y: nat) => if i.minInflation <= y <= i.maxInflation then Opposite(i, y) else 0,
            i.minInflation, i.maxInflation, MaxLength(i))
  }

  function Ideal(i: Input): Point { (i.idealStake, i.maxInflation) }

  lemma RewardCurveFalls(i: Input)
    requires Parsed(i)
    ensures Falling(RewardCurve(i)) && OnCurve(RewardCurve(i), Ideal(i))
  {
    var s := RewardCurve(i);
    OppositeOfMax(i);
    forall y: nat, y': nat | s.low < y' <= y <= s.high
      ensures NotLeft(s, y, y')
    {
      OppositeAntitone(i, y, y');
    }
  }

  /** The intended points past the ideal stake. */
  function PastIdeal(i: Input): (r: seq<Point>)
    requires Parsed(i)
    ensures r != []
  {
    RewardCurveFalls(i);
    Sampled(RewardCurve(i), Ideal(i), MaxLength(i))
  }

  /** What the source returns for the curve, if it does not fall below zero. */
  function Points(i: Input): Option<seq<Point>>
    requires Parsed(i)
  {
    RewardCurveFalls(i);
    var rest := Walk(RewardCurve(i), Ideal(i), MaxLength(i));
    if rest.None? then None else Some([(0, i.minInflation), Ideal(i)] + rest.value)
  }

  // ---- when the unsigned subtraction fails

  /** A step before the last one that more than halves the inflation. */
  ghost predicate Halves(path: seq<Point>) {
    exists j {:trigger path[j]} :: 0 <= j < |path| - 2 && 2 * path[j + 1].1 < path[j].1
  }

  lemma HalvesLater(a: Point, b: Point, rest: seq<Point>)
    requires rest != []
    ensures Halves([a, b] + rest) <==> 2 * b.1 < a.1 || Halves([b] + rest)
  {
    var path, later := [a, b] + rest, [b] + rest;
    assert forall j :: 0 <= j < |later| ==> path[j + 1] == later[j];
    if Halves(path) {
      var j :| 0 <= j < |path| - 2 && 2 * path[j + 1].1 < path[j].1;
      if j > 0 { assert later[j - 1] == path[j]; }
    }
    if Halves(later) {
      var j :| 0 <= j < |later| - 2 && 2 * later[j + 1].1 < later[j].1;
      assert path[j + 1] == later[j];
    }
    if 2 * b.1 < a.1 { assert path[0] == a && path[1] == b; }
  }

  /** The loop falls below zero exactly when the first drop is above the inflation it starts from, or when
      some step of the intended points but the last more than halves the inflation, so that the same drop
      cannot be made again; otherwise it returns the intended points. */
  lemma {:induction false} WalkFailsIff(s: Sampler, a: Point, delta: nat)
    requires OnCurve(s, a)
    ensures Walk(s, a, delta) == if a.1 < delta || Halves([a] + Sampled(s, a, delta)) then None else Some(Sampled(s, a, delta))
    decreases a.1 + delta
  {
    if 0 < delta <= a.1 {
      match Reached(s, a, delta)
      case None => WalkFailsIff(s, a, delta - 1);
      case Some(b) =>
        if b.0 < MILLION {
          WalkFailsIff(s, b, delta);
          HalvesLater(a, b, Sampled(s, b, delta));
          assert [a] + ([b] + Sampled(s, b, delta)) == [a, b] + Sampled(s, b, delta);
        }
    }
  }

  /** For every input that parses: the points computed are the intended ones, unless the longest segment is
      above the maximum inflation or an intended step but the last more than halves the inflation, and then
      a subtraction goes below zero. */
  lemma PointsFailIff(i: Input)
    requires Parsed(i)
    ensures Points(i) == if i.maxInflation < MaxLength(i) || Halves([Ideal(i)] + PastIdeal(i)) then None
                         else Some([(0, i.minInflation), Ideal(i)] + PastIdeal(i))
  {
    RewardCurveFalls(i);
    WalkFailsIff(RewardCurve(i), Ideal(i), MaxLength(i));
  }

  /** A longest segment of at most the minimum inflation plus one is enough to avoid that. */
  lemma SampleableSucceeds(i: Input)
    requires Sampleable(i)
    ensures Points(i).Some?
  {
    PointsFailIff(i);
    PointsShape(i);
    var path := [Ideal(i)] + PastIdeal(i);
    forall j | 0 <= j < |path| - 2
      ensures 2 * path[j + 1].1 >= path[j].1
    {
      assert GoodStep(RewardCurve(i), path[j], path[j + 1]) && GoodStep(RewardCurve(i), path[j + 1], path[j + 2]);
    }
  }

  // ---- shape of the sampled curve

  /** From a to b the stake does not fall and the inflation does. */
  predicate Falls(a: Point, b: Point) {
    a.0 <= b.0 && b.1 < a.1
  }

  /** A step is short on both axes, or drops all the way to the minimum at full stake. */
  predicate GoodStep(s: Sampler, a: Point, b: Point) {
    && OnCurve(s, a) && Falls(a, b) && b.0 <= MILLION && s.low <= b.1
    && ((b.0 - a.0 <= s.maxLength && a.1 - b.1 <= s.maxLength) || b == (MILLION, s.low))
  }

  /** A falling polyline of good steps along the curve that ends at full stake. */
  predicate WellSampled(s: Sampler, path: seq<Point>) {
    && |path| >= 2
    && path[|path| - 1].0 == MILLION
    && (forall j {:trigger path[j]} :: 0 <= j < |path| - 1 ==> GoodStep(s, path[j], path[j + 1]))
  }

  lemma Prepend(s: Sampler, a: Point, path: seq<Point>)
    requires WellSampled(s, path) && GoodStep(s, a, path[0])
    ensures WellSampled(s, [a] + path)
  {
    var r := [a] + path;
    forall j | 0 <= j < |r| - 1
      ensures GoodStep(s, r[j], r[j + 1])
    {
      if j > 0 { assert r[j] == path[j - 1] && r[j + 1] == path[j]; }
    }
  }

  /** The closing point lies strictly below the point before it and not below the next curve point. */
  lemma ClosingBetween(a: Point, b: Point)
    requires a.0 < MILLION <= b.0 && b.1 < a.1
    ensures b.1 <= Closing(a, b) < a.1
  {
    var n, d, drop := (b.0 - MILLION) * (a.1 - b.1), b.0 - a.0, a.1 - b.1;
    MulMono(b.0 - MILLION + 1, d, drop);
    MulPlusOne(b.0 - MILLION, drop);
    DivAtLeast(n, d, drop);
    MulCommutes(drop, d);
  }

  lemma MulCommutes(a: int, b: int)
    ensures a * b == b * a
  {
  }

  lemma LastStep(s: Sampler, a: Point, delta: nat)
    requires Falling(s) && OnCurve(s, a) && 0 < delta <= s.maxLength
    requires Reached(s, a, delta).Some? && Reached(s, a, delta).value.0 >= MILLION
    ensures GoodStep(s, a, (MILLION, Closing(a, Reached(s, a, delta).value)))
  {
    assert NotLeft(s, a.1, a.1 - delta);
    ClosingBetween(a, Reached(s, a, delta).value);
  }

  lemma {:induction false} SampledShape(s: Sampler, a: Point, delta: nat)
    requires Falling(s) && OnCurve(s, a) && delta <= s.maxLength
    ensures WellSampled(s, [a] + Sampled(s, a, delta))
    decreases a.1 + delta
  {
    if delta > 0 {
      assert a.1 - delta > s.low ==> NotLeft(s, a.1, a.1 - delta);
      match Reached(s, a, delta)
      case None => SampledShape(s, a, delta - 1);
      case Some(b) =>
        if b.0 >= MILLION {
          LastStep(s, a, delta);
        } else {
          SampledShape(s, b, delta);
          Prepend(s, a, [b] + Sampled(s, b, delta));
        }
    }
  }

  /** From the ideal stake on, the sampled curve never goes back in stake and always falls in inflation, stays
      inside the box, ends at full stake, and no step but the fallback down to the minimum is too long. */
  lemma PointsShape(i: Input)
    requires Parsed(i)
    ensures WellSampled(RewardCurve(i), [Ideal(i)] + PastIdeal(i))
  {
    RewardCurveFalls(i);
    SampledShape(RewardCurve(i), Ideal(i), MaxLength(i));
  }

  // ---- inputs inside and outside the condition

  lemma {:induction false} DropsShrink(s: Sampler, a: Point, delta: nat, bound: nat)
    requires OnCurve(s, a) && bound <= delta
    requires forall d :: bound < d <= delta ==> Reached(s, a, d).None?
    ensures Sampled(s, a, delta) == Sampled(s, a, bound)
    decreases delta
  {
    if bound < delta { DropsShrink(s, a, delta - 1, bound); }
  }

  /** If a drop of one is too far, every drop is. */
  lemma OneUnitTooFar(s: Sampler, a: Point, d: nat)
    requires Falling(s) && OnCurve(s, a) && 0 < d && s.low + 1 < a.1 && s.curve(a.1 - 1) - a.0 > s.maxLength
    ensures Reached(s, a, d).None?
  {
    if s.low + d < a.1 { assert NotLeft(s, a.1 - 1, a.1 - d); }
  }

  /** If no drop fits at the ideal stake, the curve is closed at once. */
  lemma ClosedAtOnce(i: Input)
    requires Parsed(i) && MaxLength(i) <= i.maxInflation && i.minInflation + 1 < i.maxInflation
    requires Opposite(i, i.maxInflation - 1) - i.idealStake > MaxLength(i)
    ensures Points(i) == Some([(0, i.minInflation), Ideal(i), (MILLION, i.minInflation)])
  {
    RewardCurveFalls(i);
    forall d | 0 < d <= MaxLength(i)
      ensures Reached(RewardCurve(i), Ideal(i), d).None?
    {
      OneUnitTooFar(RewardCurve(i), Ideal(i), d);
    }
    DropsShrink(RewardCurve(i), Ideal(i), MaxLength(i), 0);
    PointsFailIff(i);
    assert PastIdeal(i) == [(MILLION, i.minInflation)];
    assert [(0, i.minInflation), Ideal(i)] + PastIdeal(i) == [(0, i.minInflation), Ideal(i), (MILLION, i.minInflation)];
  }

  /** An input that parses and is not sampleable, but succeeds: no drop fits. */
  lemma UnsampleableCanSucceed(i: Input)
    requires i == Input(1, 100, 900_000, 10_000, 1000)
    ensures Parsed(i) && !Sampleable(i) && Points(i) == Some([(0, 1), (900_000, 100), (MILLION, 1)])
  {
    OneUnitIsFar(i);
    ClosedAtOnce(i);
  }

  lemma OneUnitIsFar(i: Input)
    requires i == Input(1, 100, 900_000, 10_000, 1000)
    ensures Parsed(i) && MaxLength(i) == 100 && Opposite(i, i.maxInflation - 1) - i.idealStake > MaxLength(i)
  {
    assert Logarithm(99, 98) == Series(0, 1, 197);
    assert Term(0, 1, 197) == 14_646;
    TermDecreasesMeasure(0, 1, 197);
    assert Logarithm(99, 98) >= 14_646;
    MulMonoBoth(10_000, 10_000, 14_646, Logarithm(99, 98));
    DivMono(146_460_000, 10_000 * Logarithm(99, 98), MILLION);
  }

  /** An input that parses, whose longest segment is below the maximum inflation, and that fails: the first
      step falls from 1000000 to 450001 and the drop of 549999 cannot be made again. */
  lemma UnsampleableCanFail(i: Input)
    requires i == Input(1, MILLION, 900_000, 10_000, 3)
    ensures Parsed(i) && MaxLength(i) <= i.maxInflation && Points(i).None?
  {
    var s := RewardCurve(i);
    RewardCurveFalls(i);
    assert MaxLength(i) == 549_999;
    var b := (Opposite(i, 450_001), 450_001);
    BelowOctave(999_999, 900_000);
    assert Logarithm(999_999, 450_000) < 2 * MILLION;
    MulMonoBoth(10_000, 10_000, Logarithm(999_999, 450_000), 2 * MILLION);
    DivMono(10_000 * Logarithm(999_999, 450_000), 20_000 * MILLION, MILLION);
    assert b.0 <= 920_000;
    assert NotLeft(s, MILLION, 450_001);
    assert Reached(s, Ideal(i), 549_999) == Some(b);
    assert Walk(s, b, 549_999).None?;
  }

  /** A longest segment above the maximum inflation always fails, at the first drop. */
  lemma LongSegmentFails(i: Input)
    requires Parsed(i) && i.maxInflation < MaxLength(i)
    ensures Points(i).None?
  {
    RewardCurveFalls(i);
  }

  /** An input that parses and fails at once. */
  lemma FirstStepCanUnderflow(i: Input)
    requires i == Input(1, 100, 500_000, 50_000, 2)
    ensures Parsed(i) && Points(i).None?
  {
    LongSegmentFails(i);
  }

  // ---- how many points

  /** Every step falls by at least one, so there are no more points than units of inflation to fall. */
  lemma {:induction false} PathLength(s: Sampler, path: seq<Point>)
    requires WellSampled(s, path)
    ensures |path| - 1 <= path[0].1 - s.low
    decreases |path|
  {
    assert GoodStep(s, path[0], path[1]);
    if |path| > 2 {
      var rest := path[1..];
      forall j | 0 <= j < |rest| - 1
        ensures GoodStep(s, rest[j], rest[j + 1])
      {
        assert rest[j] == path[j + 1] && rest[j + 1] == path[j + 2];
      }
      PathLength(s, rest);
    }
  }

  /** The curve has at most as many segments as there are units between the inflations, and one more. */
  lemma SegmentsBound(i: Input)
    requires Parsed(i)
    ensures |PastIdeal(i)| <= i.maxInflation - i.minInflation
  {
    PointsShape(i);
    PathLength(RewardCurve(i), [Ideal(i)] + PastIdeal(i));
  }

  lemma OneStepAndClosing(i: Input, b: Point)
    requires Sampleable(i) && i.maxInflation == i.minInflation + 2 && 0 < MaxLength(i)
    requires OnCurve(RewardCurve(i), Ideal(i)) && OnCurve(RewardCurve(i), b)
    requires Reached(RewardCurve(i), Ideal(i), 1) == Some(b)
    ensures PastIdeal(i) == [b, (MILLION, i.minInflation)]
    ensures Points(i) == Some([(0, i.minInflation), Ideal(i), b, (MILLION, i.minInflation)])
  {
    var s := RewardCurve(i);
    DropsShrink(s, Ideal(i), MaxLength(i), 1);
    assert Sampled(s, b, 1) == Sampled(s, b, 0);
    assert PastIdeal(i) == [b] + Sampled(s, b, 1);
    SampleableSucceeds(i);
    PointsFailIff(i);
    assert [(0, i.minInflation), Ideal(i)] + PastIdeal(i) == [(0, i.minInflation), Ideal(i), b, (MILLION, i.minInflation)];
  }

  /** The maximal piece count is no bound: three segments where two are allowed, and as many points past the
      ideal stake as the bound above admits. */
  lemma PieceCountIsExceeded(i: Input)
    requires i == Input(900_000, 900_002, 500_000, 100_000, 2)
    ensures Sampleable(i)
    ensures Points(i) == Some([(0, 900_000), (500_000, 900_002), (600_000, 900_001), (MILLION, 900_000)])
    ensures |Points(i).value| - 1 == 3 > i.maxPieceCount && |PastIdeal(i)| == i.maxInflation - i.minInflation
  {
    RewardCurveFalls(i);
    LogOfOne(1);
    DoublingAddsOne(1, 1);
    assert Opposite(i, 900_001) == 600_000;
    OneStepAndClosing(i, (600_000, 900_001));
  }

  // ---- the loop

  method ComputeOppositeAfterXIdeal(i: Input, y: nat) returns (x: nat)
    requires Parsed(i) && i.minInflation <= y <= i.maxInflation
    ensures x == Opposite(i, y)
  {
    if y == i.minInflation {
      return U32_MAX;
    }
    var log := Log2.Log2(i.maxInflation - i.minInflation, y - i.minInflation);
    var term := Floor(i.falloff * log, MILLION);
    x := i.idealStake + term;
  }

  /** One round of the loop: a drop that is too far is shortened, otherwise a point is added; `done` at
      full stake. */
  method Round(s: Sampler, last: Point, deltaY: nat) returns (added: seq<Point>, deltaY': nat, done: bool)
    requires Falling(s) && OnCurve(s, last) && 0 < deltaY <= last.1
    ensures done ==> Walk(s, last, deltaY) == Some(added)
    ensures !done && added == [] ==> deltaY' == deltaY - 1 && Walk(s, last, deltaY') == Walk(s, last, deltaY)
    ensures !done && added != [] ==>
              && |added| == 1 && deltaY' == deltaY && OnCurve(s, added[0]) && added[0].1 < last.1
              && Prepended(added[0], Walk(s, added[0], deltaY)) == Walk(s, last, deltaY)
  {
    added, deltaY', done := [], deltaY, false;
    var nextY: nat := last.1 - deltaY;
    if nextY <= s.low {
      deltaY' := Monus(deltaY, 1);
      return;
    }
    var nextX := s.curve(nextY);
    assert NotLeft(s, last.1, nextY);
    var length: nat := nextX - last.0;
    if length > s.maxLength {
      deltaY' := Monus(deltaY, 1);
      return;
    }
    if nextX >= MILLION {
      added, done := [(MILLION, Closing(last, (nextX, nextY)))], true;
      return;
    }
    added := [(nextX, nextY)];
  }

  function After(points: seq<Point>, rest: Option<seq<Point>>): Option<seq<Point>> {
    if rest.None? then None else Some(points + rest.value)
  }

  lemma AfterPrepended(points: seq<Point>, b: Point, rest: Option<seq<Point>>)
    ensures After(points, Prepended(b, rest)) == After(points + [b], rest)
  {
    if rest.Some? { assert points + ([b] + rest.value) == points + [b] + rest.value; }
  }

  /** The greedy loop along any falling curve; the reward curve's values are those of
      ComputeOppositeAfterXIdeal. */
  method Sample(s: Sampler, start: seq<Point>) returns (points: Option<seq<Point>>)
    requires Falling(s) && start != [] && OnCurve(s, start[|start| - 1])
    ensures points == After(start, Walk(s, start[|start| - 1], s.maxLength))
  {
    var found := start;
    var deltaY: nat := s.maxLength;
    ghost var whole := After(start, Walk(s, start[|start| - 1], s.maxLength));
    while deltaY != 0
      invariant found != [] && OnCurve(s, found[|found| - 1])
      invariant After(found, Walk(s, found[|found| - 1], deltaY)) == whole
      decreases found[|found| - 1].1 + deltaY
    {
      var last := found[|found| - 1];
      if last.1 < deltaY {
        return None;
      }
      var added, done;
      ghost var before, delta := found, deltaY;
      added, deltaY, done := Round(s, last, deltaY);
      found := found + added;
      assert added == [] ==> found == before;
      if done {
        return Some(found);
      }
      if added != [] {
        assert added == [added[0]];
        AfterPrepended(before, added[0], Walk(s, added[0], deltaY));
      }
    }
    points := Some(found + [(MILLION, s.low)]);
  }

  /** None when the unchecked subtraction goes below zero. */
  method ComputePoints(i: Input) returns (points: Option<seq<Point>>)
    requires Parsed(i)
    ensures points == Points(i)
  {
    RewardCurveFalls(i);
    points := Sample(RewardCurve(i), [(0, i.minInflation), Ideal(i)]);
  }
}
