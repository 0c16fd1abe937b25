/**
 How many segments the sampled reward curve has. The integer logarithm is nearly convex, so any two steps in a
 row use up nearly a longest segment of the way that is left, and there are hardly more than twice as many
 segments as the maximal piece count.
 */
module CurveSegments {
  import opened Arith
  import opened Options
  import opened Log2
  import opened Log2Accuracy
  import opened CurvePoints

  // ---- the curve is nearly convex

  /** How far the curve may be from convex, in units of stake. */
  const SLACK: nat := 15

  /** A drop of m from the smaller y' goes as far as one from y, up to the slack. */
  ghost predicate NearlyConvexAt(s: Sampler, y: nat, y': nat, m: nat) {
    m <= y' <= y && s.low < y' - m && y <= s.high ==>
      s.curve(y - m) - s.curve(y) <= s.curve(y' - m) - s.curve(y') + SLACK
  }

  ghost predicate NearlyConvex(s: Sampler) {
    forall y: nat, y': nat, m: nat :: NearlyConvexAt(s, y, y', m)
  }

  /** Rounding down after scaling keeps an inequality between differences up to two units. */
  lemma ScaledDifferences(d: nat, a: nat, b: nat, a': nat, b': nat)
    requires d <= MILLION && a - b <= a' - b' + 14
    ensures Floor(d * a, MILLION) - Floor(d * b, MILLION) <= Floor(d * a', MILLION) - Floor(d * b', MILLION) + SLACK
  {
    DivBounds(d * a, MILLION);
    DivBounds(d * b, MILLION);
    DivBounds(d * a', MILLION);
    DivBounds(d * b', MILLION);
    MulMonoBoth(d, d, a + b', a' + b + 14);
    MulDistrib(d, a, b');
    MulDistrib(d, a' + b, 14);
    MulDistrib(d, a', b);
  }

  lemma RewardCurveNearlyConvex(i: Input)
    requires Parsed(i)
    ensures NearlyConvex(RewardCurve(i))
  {
    forall y: nat, y': nat, m: nat
      ensures NearlyConvexAt(RewardCurve(i), y, y', m)
    {
      CurveNearlyConvexAt(i, y, y', m);
    }
  }

  lemma CurveNearlyConvexAt(i: Input, y: nat, y': nat, m: nat)
    requires Parsed(i)
    ensures NearlyConvexAt(RewardCurve(i), y, y', m)
  {
    if m <= y' <= y <= i.maxInflation && i.minInflation < y' - m {
      OppositeNearlyConvex(i, y, y', m);
      CurveIsOpposite(i, y);
      CurveIsOpposite(i, y - m);
      CurveIsOpposite(i, y');
      CurveIsOpposite(i, y' - m);
    }
  }

  lemma CurveIsOpposite(i: Input, y: nat)
    requires Parsed(i) && i.minInflation <= y <= i.maxInflation
    ensures RewardCurve(i).curve(y) == Opposite(i, y)
  {
  }

  lemma OppositeNearlyConvex(i: Input, y: nat, y': nat, m: nat)
    requires Parsed(i) && m <= y' <= y <= i.maxInflation && i.minInflation < y' - m
    ensures Opposite(i, y - m) - Opposite(i, y) <= Opposite(i, y' - m) - Opposite(i, y') + SLACK
  {
    var p, q, q' := i.maxInflation - i.minInflation, y - i.minInflation, y' - i.minInflation;
    LogarithmNearlyConvex(p, q, q', m);
    ScaledDifferences(i.falloff, Logarithm(p, q - m), Logarithm(p, q), Logarithm(p, q' - m), Logarithm(p, q'));
  }

  // ---- two steps in a row

  /** What is left on both axes until full stake at the minimum. */
  function Left(s: Sampler, a: Point): nat
    requires OnCurve(s, a)
  {
    (a.1 - s.low) + (MILLION - a.0)
  }

  /** A drop of delta + 1 from y is too low or too far. */
  ghost predicate TooMuch(s: Sampler, y: nat, delta: nat) {
    y <= s.high && (y <= s.low + delta + 1 || s.curve(y - delta - 1) - s.curve(y) > s.maxLength)
  }

  /** The drop is the longest, or a longer one failed at this point or at an earlier one. */
  ghost predicate Anchored(s: Sampler, a: Point, delta: nat) {
    delta == s.maxLength || exists y :: a.1 <= y && TooMuch(s, y, delta)
  }

  /** The next point, if it is not the closing one, and the drop that reaches it. */
  lemma {:induction false} NextPoint(s: Sampler, a: Point, delta: nat) returns (c: Point, drop: nat)
    requires OnCurve(s, a) && Anchored(s, a, delta) && |Sampled(s, a, delta)| > 1
    ensures 0 < drop <= delta && Anchored(s, a, drop) && Reached(s, a, drop) == Some(c) && OnCurve(s, c)
    ensures Sampled(s, a, delta) == [c] + Sampled(s, c, drop)
    decreases delta
  {
    match Reached(s, a, delta)
    case None =>
      assert TooMuch(s, a.1, delta - 1);
      c, drop := NextPoint(s, a, delta - 1);
    case Some(b) => c, drop := b, delta;
  }

  lemma AnchoredLater(s: Sampler, a: Point, c: Point, drop: nat)
    requires Anchored(s, a, drop) && c.1 <= a.1
    ensures Anchored(s, c, drop)
  {
    if drop != s.maxLength {
      var y :| a.1 <= y && TooMuch(s, y, drop);
      assert c.1 <= y && TooMuch(s, y, drop);
    }
  }

  /** Where one more unit of drop fails at y, it goes nearly as far as a longest segment from any lower point. */
  lemma FarBelow(s: Sampler, a: Point, drop: nat, c: Point, y: nat)
    requires Falling(s) && NearlyConvex(s) && OnCurve(s, a) && OnCurve(s, c)
    requires a.1 <= y && TooMuch(s, y, drop) && c.1 + drop + 1 <= a.1
    ensures s.maxLength - 14 <= c.0 - a.0
  {
    assert NearlyConvexAt(s, y, a.1, drop + 1);
    assert NotLeft(s, a.1 - drop - 1, c.1);
  }

  /** Two steps in a row use up a longest segment, up to twelve units. */
  lemma TwoSteps(s: Sampler, a: Point, b: Point, c: Point, drop: nat, drop': nat)
    requires Falling(s) && NearlyConvex(s) && OnCurve(s, a) && OnCurve(s, b) && OnCurve(s, c) && Anchored(s, a, drop)
    requires 0 < drop' <= drop && Reached(s, a, drop) == Some(b) && Reached(s, b, drop') == Some(c)
    ensures Left(s, c) + s.maxLength <= Left(s, a) + 12
  {
    assert NotLeft(s, a.1, c.1);
    if drop != s.maxLength {
      var y :| a.1 <= y && TooMuch(s, y, drop);
      FarBelow(s, a, drop, c, y);
    }
  }

  /** So half as many steps use up no more than what is left. */
  lemma {:induction false} StepsFit(s: Sampler, a: Point, delta: nat)
    requires Falling(s) && NearlyConvex(s) && OnCurve(s, a) && Anchored(s, a, delta) && 12 <= s.maxLength
    ensures (|Sampled(s, a, delta)| - 1) / 2 * (s.maxLength - 12) <= Left(s, a)
    decreases a.1 + delta
  {
    if |Sampled(s, a, delta)| > 2 {
      var c, drop := TwoAhead(s, a, delta);
      StepsFit(s, c, drop);
      HalfOfTwoMore(|Sampled(s, c, drop)| - 1, |Sampled(s, a, delta)| - 1, s.maxLength - 12);
    }
  }

  /** The point after the next, if neither is the closing one. */
  lemma TwoAhead(s: Sampler, a: Point, delta: nat) returns (c: Point, drop: nat)
    requires Falling(s) && NearlyConvex(s) && OnCurve(s, a) && Anchored(s, a, delta) && |Sampled(s, a, delta)| > 2
    ensures OnCurve(s, c) && Anchored(s, c, drop) && c.1 + drop < a.1 + delta
    ensures |Sampled(s, a, delta)| == |Sampled(s, c, drop)| + 2
    ensures Left(s, c) + s.maxLength <= Left(s, a) + 12
  {
    var b, first := NextPoint(s, a, delta);
    AnchoredLater(s, a, b, first);
    c, drop := NextPoint(s, b, first);
    AnchoredLater(s, b, c, drop);
    TwoSteps(s, a, b, c, first, drop);
  }

  lemma HalfOfTwoMore(k: nat, l: nat, w: nat)
    requires l == k + 2
    ensures l / 2 * w == k / 2 * w + w
  {
    assert l / 2 == k / 2 + 1;
    MulPlusOne(k / 2, w);
  }

  // ---- the number of segments

  /** Segments of the sampled curve: up to the ideal stake, and one for each point past it. */
  function Segments(i: Input): nat
    requires Parsed(i)
  {
    1 + |PastIdeal(i)|
  }

  /** The way from the ideal stake to full stake at the minimum inflation. */
  function Way(i: Input): nat
    requires Parsed(i)
  {
    i.maxInflation - i.minInflation + MILLION - i.idealStake
  }

  lemma MaxLengthBounds(i: Input)
    requires Parsed(i)
    ensures 100 <= MaxLength(i) && Way(i) < (MaxLength(i) + 1) * (i.maxPieceCount - 1)
  {
    var n, m := i.maxPieceCount - 1, MaxLength(i);
    DivBounds(Way(i), n);
    MulPlusOne(m, n);
    if m < 100 { MulMonoBoth(m + 1, 100, n, 999); }
  }

  /** Half the steps, times a longest segment less twelve units, fit on the way. */
  lemma StepsFitOnWay(i: Input)
    requires Parsed(i)
    ensures (|PastIdeal(i)| - 1) / 2 * (MaxLength(i) - 12) <= Way(i)
  {
    RewardCurveFalls(i);
    RewardCurveNearlyConvex(i);
    MaxLengthBounds(i);
    StepsFit(RewardCurve(i), Ideal(i), MaxLength(i));
  }

  lemma FewSteps(half: nat, m: nat, n: nat, way: nat)
    requires 100 <= m && half * (m - 12) <= way < (m + 1) * n
    ensures 4 * half < 5 * n
    ensures 13 * (n + 1) <= m + 1 ==> half <= n
  {
    if 5 * n <= 4 * half {
      MulMono(5 * n, 4 * half, m - 12);
      MulSwap(4, half, m - 12);
      MulSwap(5, n, m - 12);
      MulMono(4 * (m + 1), 5 * (m - 12), n);
      assert n * (m - 12) == (m - 12) * n;
      MulSwap(4, m + 1, n);
      MulSwap(5, m - 12, n);
    }
    ProductsApart(n, m);
    if 13 * (n + 1) <= m + 1 && n < half { MulMono(n + 1, half, m - 12); }
  }

  lemma ProductsApart(n: int, m: int)
    ensures (n + 1) * (m - 12) == (m + 1) * n + (m + 1) - 13 * (n + 1)
  {
  }

  /** For every input that parses there are at most two and a half times as many segments as the maximal piece
      count, and at most twice as many and one where the longest segment is at least 13 times the piece count. */
  lemma SegmentsWithinPieces(i: Input)
    requires Parsed(i)
    ensures 2 * Segments(i) <= 5 * i.maxPieceCount
    ensures 13 * i.maxPieceCount <= MaxLength(i) + 1 ==> Segments(i) <= 2 * i.maxPieceCount + 1
  {
    MaxLengthBounds(i);
    StepsFitOnWay(i);
    FewSteps((|PastIdeal(i)| - 1) / 2, MaxLength(i), i.maxPieceCount - 1, Way(i));
  }

  /** A curve that falls by less than the maximal piece count keeps to it. */
  lemma FlatCurveKeepsPieceCount(i: Input)
    requires Parsed(i) && i.maxInflation - i.minInflation < i.maxPieceCount
    ensures Segments(i) <= i.maxPieceCount
  {
    SegmentsBound(i);
  }
}
