/**
 How the points past the ideal stake are chosen, without the recursion: every drop is the largest that fits, and the
 curve is closed on the chord to the next point or by falling to the minimum.
 */
module CurveShape {
  import opened Arith
  import opened Log2
  import opened CurvePoints

  /** A drop of d from a point stays above the lower end and within the longest segment. */
  predicate Fits(s: Sampler, a: Point, d: nat) {
    s.low + d < a.1 && s.curve(a.1 - d) - a.0 <= s.maxLength
  }

  /** c lies at full stake on the chord from a to b, up to the unit it is rounded down by. */
  predicate OnChord(a: Point, b: Point, c: Point) {
    && c.0 == MILLION && b.1 <= c.1
    && (c.1 - b.1) * (b.0 - a.0) <= (b.0 - MILLION) * (a.1 - b.1) < (c.1 - b.1 + 1) * (b.0 - a.0)
  }

  /** d is the largest drop up to delta that fits, or zero. */
  ghost predicate Largest(s: Sampler, a: Point, delta: nat, d: nat) {
    d <= delta && (0 < d ==> Fits(s, a, d)) && forall e :: d < e <= delta ==> !Fits(s, a, e)
  }

  /** The points after `a`: the largest drop up to delta gives the next one, unless that is past full stake, where the
      chord closes the curve; the drops never grow. If no drop fits, the curve falls to the lower end at full stake. */
  ghost predicate Greedy(s: Sampler, a: Point, delta: nat, rest: seq<Point>)
    decreases |rest|
  {
    rest != [] &&
    exists d: nat :: Largest(s, a, delta, d) &&
      if d == 0 then rest == [(MILLION, s.low)]
      else
        var b := (s.curve(a.1 - d), a.1 - d);
        if MILLION <= b.0 then |rest| == 1 && OnChord(a, b, rest[0]) else rest[0] == b && Greedy(s, b, d, rest[1..])
  }

  /** The closing point is the height of the chord at full stake, rounded down. */
  lemma ClosingOnChord(a: Point, b: Point)
    requires a.0 < MILLION <= b.0 && b.1 <= a.1
    ensures OnChord(a, b, (MILLION, Closing(a, b)))
  {
    var n, d := (b.0 - MILLION) * (a.1 - b.1), b.0 - a.0;
    DivBounds(n, d);
    MulPlusOne(Floor(n, d), d);
  }

  lemma {:induction false} SampledIsGreedy(s: Sampler, a: Point, delta: nat)
    requires Falling(s) && OnCurve(s, a)
    ensures Greedy(s, a, delta, Sampled(s, a, delta))
    decreases a.1 + delta
  {
    if delta == 0 {
      assert Largest(s, a, 0, 0);
    } else {
      match Reached(s, a, delta)
      case None =>
        SampledIsGreedy(s, a, delta - 1);
        LaterDrop(s, a, delta, Sampled(s, a, delta - 1));
      case Some(b) =>
        assert Largest(s, a, delta, delta);
        if b.0 >= MILLION {
          ClosingOnChord(a, b);
        } else {
          SampledIsGreedy(s, b, delta);
          assert ([b] + Sampled(s, b, delta))[1..] == Sampled(s, b, delta);
        }
    }
  }

  /** A drop that does not fit can be left out. */
  lemma LaterDrop(s: Sampler, a: Point, delta: nat, rest: seq<Point>)
    requires 0 < delta && !Fits(s, a, delta) && Greedy(s, a, delta - 1, rest)
    ensures Greedy(s, a, delta, rest)
  {
    var d: nat :| Largest(s, a, delta - 1, d) &&
      if d == 0 then rest == [(MILLION, s.low)]
      else
        var b := (s.curve(a.1 - d), a.1 - d);
        if MILLION <= b.0 then |rest| == 1 && OnChord(a, b, rest[0]) else rest[0] == b && Greedy(s, b, d, rest[1..]);
    assert Largest(s, a, delta, d);
  }

  /** For every input that parses: the points past the ideal stake are chosen greedily along the reward curve, starting from
      the longest segment, which is the way to full stake at the minimum divided among all pieces but one. */
  lemma PointsAreGreedy(i: Input)
    requires Parsed(i)
    ensures Greedy(RewardCurve(i), Ideal(i), MaxLength(i), PastIdeal(i))
    ensures RewardCurve(i).low == i.minInflation && RewardCurve(i).maxLength == MaxLength(i)
    ensures var way := i.maxInflation - i.minInflation + MILLION - i.idealStake;
            MaxLength(i) * (i.maxPieceCount - 1) <= way < (MaxLength(i) + 1) * (i.maxPieceCount - 1)
    ensures Points(i).Some? ==> Points(i).value == [(0, i.minInflation), (i.idealStake, i.maxInflation)] + PastIdeal(i)
  {
    RewardCurveFalls(i);
    SampledIsGreedy(RewardCurve(i), Ideal(i), MaxLength(i));
    DivBounds(i.maxInflation - i.minInflation + MILLION - i.idealStake, i.maxPieceCount - 1);
    MulPlusOne(MaxLength(i), i.maxPieceCount - 1);
    PointsFailIff(i);
  }
}
