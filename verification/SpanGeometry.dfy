/**
 The slashing spans of one stash: a list of contiguous era ranges, most recent first, of which the
 last is still open. `Spans` is the stored value, the class edits one in place.
 */
module SpanGeometry {
  import opened Arith
  import opened Options

  /** Eras start..start+length; the ongoing span has no length. */
  datatype SlashingSpan = SlashingSpan(index: int, start: int, length: Option<nat>) {
    predicate ContainsEra(era: nat) {
      start <= era && (length.None? || start + length.value > era)
    }

    /** The span lies wholly before a window that starts at w. */
    predicate EndedBy(w: nat) {
      length.Some? && start + length.value <= w
    }
  }

  /** `prior` holds the lengths of the ended spans, most recent first. */
  datatype Spans = Spans(index: nat, lastStart: nat, lastNonzeroSlash: nat, prior: seq<nat>)

  function Total(lengths: seq<nat>): nat {
    if lengths == [] then 0 else lengths[0] + Total(lengths[1..])
  }

  /** Prior spans that end at era `end`, the first of which has index `index - 1`. */
  function PriorSpans(lengths: seq<nat>, end: int, index: int): (r: seq<SlashingSpan>)
    ensures |r| == |lengths|
  {
    if lengths == [] then []
    else [SlashingSpan(index - 1, end - lengths[0], Some(lengths[0]))]
         + PriorSpans(lengths[1..], end - lengths[0], index - 1)
  }

  /** All spans in reverse order, the ongoing one first. */
  function AllSpans(s: Spans): seq<SlashingSpan> {
    [SlashingSpan(s.index, s.lastStart, None)] + PriorSpans(s.prior, s.lastStart, s.index)
  }

  /** The first span of a list that contains an era. */
  function FirstContaining(spans: seq<SlashingSpan>, era: nat): Option<SlashingSpan> {
    if spans == [] then None
    else if spans[0].ContainsEra(era) then Some(spans[0])
    else FirstContaining(spans[1..], era)
  }

  /** The span an era falls in, if it is covered. */
  function EraSpan(s: Spans, era: nat): Option<SlashingSpan> {
    FirstContaining(AllSpans(s), era)
  }

  function Earliest(s: Spans): int { s.index - |s.prior| }

  function FirstStart(s: Spans): int { s.lastStart - Total(s.prior) }

  /** What every reachable record satisfies: no empty span, and neither eras nor indices underflow. */
  ghost predicate Geometry(s: Spans) {
    && (forall k :: 0 <= k < |s.prior| ==> s.prior[k] >= 1)
    && Total(s.prior) <= s.lastStart
    && |s.prior| <= s.index
  }

  function NewSpans(windowStart: nat): Spans { Spans(0, windowStart, 0, []) }

  function EndedSpan(s: Spans, now: nat): Spans {
    if now + 1 <= s.lastStart then s
    else Spans(s.index + 1, now + 1, s.lastNonzeroSlash, [now + 1 - s.lastStart] + s.prior)
  }

  /** How many prior spans come before the first one that ended by w. */
  function KeepCount(lengths: seq<nat>, end: int, w: nat): (r: nat)
    ensures r <= |lengths|
  {
    if lengths == [] || end <= w then 0 else 1 + KeepCount(lengths[1..], end - lengths[0], w)
  }

  /** The indices dropped by pruning, as a half-open range; None when nothing ended by w. */
  function PrunedRange(s: Spans, w: nat): Option<(int, int)> {
    var keep := KeepCount(s.prior, s.lastStart, w);
    if keep == |s.prior| then None else Some((s.index - |s.prior|, s.index - keep))
  }

  function PrunedSpans(s: Spans, w: nat): Spans {
    s.(prior := s.prior[..KeepCount(s.prior, s.lastStart, w)], lastStart := Max(s.lastStart, w))
  }

  // ---- where the spans lie

  lemma {:induction false} TotalSplit(lengths: seq<nat>, k: nat)
    requires k < |lengths|
    ensures Total(lengths[..k + 1]) == Total(lengths[..k]) + lengths[k]
  {
    assert lengths[..k + 1][0] == lengths[0] && lengths[..k + 1][1..] == lengths[1..][..k];
    if k == 0 {
      assert lengths[..0] == [];
    } else {
      TotalSplit(lengths[1..], k - 1);
      assert lengths[..k][0] == lengths[0] && lengths[..k][1..] == lengths[1..][..k - 1];
    }
  }

  lemma {:induction false} TotalPrefix(lengths: seq<nat>, k: nat)
    requires k <= |lengths|
    ensures Total(lengths[..k]) <= Total(lengths)
    decreases |lengths| - k
  {
    if k == |lengths| {
      assert lengths[..k] == lengths;
    } else {
      TotalSplit(lengths, k);
      TotalPrefix(lengths, k + 1);
    }
  }

  /** Span k starts where the k lengths before it in the list leave off, and its index counts down. */
  lemma {:induction false} PriorSpanAt(lengths: seq<nat>, end: int, index: int, k: nat)
    requires k < |lengths|
    ensures PriorSpans(lengths, end, index)[k]
         == SlashingSpan(index - 1 - k, end - Total(lengths[..k + 1]), Some(lengths[k]))
  {
    assert lengths[..k + 1][0] == lengths[0] && lengths[..k + 1][1..] == lengths[1..][..k];
    if k == 0 {
      assert lengths[1..][..0] == [];
    } else {
      PriorSpanAt(lengths[1..], end - lengths[0], index - 1, k - 1);
    }
  }

  lemma {:induction false} FindIsComplete(spans: seq<SlashingSpan>, era: nat)
    ensures FirstContaining(spans, era).None? ==> forall k :: 0 <= k < |spans| ==> !spans[k].ContainsEra(era)
    ensures FirstContaining(spans, era).Some? ==>
              exists k :: 0 <= k < |spans| && spans[k] == FirstContaining(spans, era).value
                          && spans[k].ContainsEra(era)
  {
    if spans != [] {
      FindIsComplete(spans[1..], era);
      if !spans[0].ContainsEra(era) {
        forall k | 0 <= k < |spans| && FirstContaining(spans, era).None?
          ensures !spans[k].ContainsEra(era)
        {
          if k > 0 { assert spans[k] == spans[1..][k - 1]; }
        }
        if FirstContaining(spans[1..], era).Some? {
          var k :| 0 <= k < |spans[1..]| && spans[1..][k] == FirstContaining(spans[1..], era).value
                   && spans[1..][k].ContainsEra(era);
          assert spans[k + 1] == spans[1..][k];
        }
      }
    }
  }

  lemma {:induction false} PriorTelescope(lengths: seq<nat>, j: nat, k: nat)
    requires j <= k < |lengths|
    ensures Total(lengths[..j]) <= Total(lengths[..k])
    decreases k - j
  {
    if j < k {
      TotalSplit(lengths, j);
      PriorTelescope(lengths, j + 1, k);
    }
  }

  /** Spans are contiguous and disjoint: the spans after span j end at or before its start. */
  lemma SpansDescend(s: Spans, j: nat, k: nat)
    requires j < k < |AllSpans(s)|
    ensures var spans := AllSpans(s);
            && spans[k].length.Some? && spans[k].index == spans[j].index - (k - j)
            && spans[k].start + spans[k].length.value <= spans[j].start
            && (k == j + 1 ==> spans[k].start + spans[k].length.value == spans[j].start)
  {
    PriorSpanAt(s.prior, s.lastStart, s.index, k - 1);
    TotalSplit(s.prior, k - 1);
    if j > 0 {
      PriorSpanAt(s.prior, s.lastStart, s.index, j - 1);
      PriorTelescope(s.prior, j, k - 1);
    } else {
      assert s.prior[..0] == [];
    }
  }

  /** The spans reach back to FirstStart without a gap. */
  lemma {:induction false} PriorCovers(lengths: seq<nat>, end: int, index: int, era: nat)
    requires end - Total(lengths) <= era < end
    ensures FirstContaining(PriorSpans(lengths, end, index), era).Some?
  {
    var spans := PriorSpans(lengths, end, index);
    if lengths == [] {
      assert false;
    } else if era < end - lengths[0] {
      PriorCovers(lengths[1..], end - lengths[0], index - 1, era);
      assert spans[1..] == PriorSpans(lengths[1..], end - lengths[0], index - 1);
    }
  }

  ghost predicate LiesIn(s: Spans, era: nat, k: int) {
    0 <= k < |AllSpans(s)| && AllSpans(s)[k].ContainsEra(era)
  }

  /** Every era from the first covered one on lies in exactly one span, which is the one looked up,
      and its index is one of the live ones. */
  lemma CoveredExactlyOnce(s: Spans, era: nat)
    requires FirstStart(s) <= era
    ensures EraSpan(s, era).Some?
    ensures exists k :: LiesIn(s, era, k) && AllSpans(s)[k] == EraSpan(s, era).value
    ensures forall j, k :: LiesIn(s, era, j) && LiesIn(s, era, k) ==> j == k
    ensures Earliest(s) <= EraSpan(s, era).value.index <= s.index
  {
    var spans := AllSpans(s);
    assert spans[1..] == PriorSpans(s.prior, s.lastStart, s.index);
    if era < s.lastStart { PriorCovers(s.prior, s.lastStart, s.index, era); }
    FindIsComplete(spans, era);
    var k :| 0 <= k < |spans| && spans[k] == EraSpan(s, era).value && spans[k].ContainsEra(era);
    assert LiesIn(s, era, k);
    if k > 0 { SpansDescend(s, 0, k); }
    forall j, k | LiesIn(s, era, j) && LiesIn(s, era, k)
      ensures j == k
    {
      if j < k { SpansDescend(s, j, k); }
      if k < j { SpansDescend(s, k, j); }
    }
  }

  /** A new record covers exactly the eras from the window's start on, in span 0. */
  lemma NewSpansCover(w: nat, era: nat)
    ensures EraSpan(NewSpans(w), era).Some? <==> w <= era
    ensures w <= era ==> EraSpan(NewSpans(w), era).value.index == 0
    ensures Earliest(NewSpans(w)) == 0 && NewSpans(w).lastNonzeroSlash == 0
  {
    var spans := AllSpans(NewSpans(w));
    assert spans == [SlashingSpan(0, w, None)];
    assert FirstContaining(spans[1..], era).None?;
  }

  // ---- ending a span

  lemma EndSpanGeometry(s: Spans, now: nat)
    requires Geometry(s)
    ensures Geometry(EndedSpan(s, now))
    ensures FirstStart(EndedSpan(s, now)) == FirstStart(s) && Earliest(EndedSpan(s, now)) == Earliest(s)
  {
    var r := EndedSpan(s, now);
    if r != s { assert r.prior[1..] == s.prior; }
  }

  /** Ending the current span re-labels no era up to now; the eras after now get a fresh index. */
  lemma EndSpanKeepsEras(s: Spans, now: nat, era: nat)
    ensures var r := EndedSpan(s, now);
            && (era <= now && EraSpan(s, era).Some? ==>
                  EraSpan(r, era).Some? && EraSpan(r, era).value.index == EraSpan(s, era).value.index)
            && (era <= now && EraSpan(s, era).None? ==> EraSpan(r, era).None?)
            && (r != s && now < era ==> EraSpan(r, era).Some? && EraSpan(r, era).value.index == s.index + 1)
  {
    var r := EndedSpan(s, now);
    if r != s {
      assert r.prior[1..] == s.prior;
      var rest := PriorSpans(s.prior, s.lastStart, s.index);
      assert AllSpans(s)[1..] == rest;
      assert AllSpans(r)[1..] == PriorSpans(r.prior, now + 1, s.index + 1);
      assert AllSpans(r)[1..][1..] == rest;
      assert AllSpans(r)[1] == SlashingSpan(s.index, s.lastStart, Some(now + 1 - s.lastStart));
      if era <= now {
        assert FirstContaining(AllSpans(r), era) == FirstContaining(AllSpans(r)[1..], era);
      }
    }
  }

  // ---- pruning

  /** The spans kept are exactly those not wholly before the window. */
  lemma {:induction false} KeepCountExact(lengths: seq<nat>, end: int, index: int, w: nat, k: nat)
    requires k < |lengths|
    ensures PriorSpans(lengths, end, index)[k].EndedBy(w) <==> KeepCount(lengths, end, w) <= k
  {
    PriorSpanAt(lengths, end, index, k);
    TotalSplit(lengths, k);
    if end > w && k > 0 {
      KeepCountExact(lengths[1..], end - lengths[0], index - 1, w, k - 1);
    } else {
      assert lengths[..0] == [];
    }
  }

  lemma {:induction false} PriorPrefix(lengths: seq<nat>, end: int, index: int, k: nat)
    requires k <= |lengths|
    ensures PriorSpans(lengths[..k], end, index) == PriorSpans(lengths, end, index)[..k]
  {
    if k > 0 {
      assert lengths[..k][1..] == lengths[1..][..k - 1];
      PriorPrefix(lengths[1..], end - lengths[0], index - 1, k - 1);
    }
  }

  lemma PruneLists(s: Spans, w: nat)
    ensures var keep := KeepCount(s.prior, s.lastStart, w);
            && (s.lastStart <= w ==> keep == 0)
            && AllSpans(PrunedSpans(s, w))
               == [SlashingSpan(s.index, Max(s.lastStart, w), None)] + AllSpans(s)[1..keep + 1]
  {
    var keep := KeepCount(s.prior, s.lastStart, w);
    assert AllSpans(s)[1..] == PriorSpans(s.prior, s.lastStart, s.index);
    PriorPrefix(s.prior, s.lastStart, s.index, keep);
    assert AllSpans(s)[1..keep + 1] == AllSpans(s)[1..][..keep];
    assert s.prior[..0] == [];
  }

  lemma PruneGeometry(s: Spans, w: nat)
    requires Geometry(s) && FirstStart(s) <= w
    ensures Geometry(PrunedSpans(s, w)) && FirstStart(PrunedSpans(s, w)) <= w
    ensures s.lastStart <= w ==> PrunedSpans(s, w).prior == [] && PrunedSpans(s, w).lastStart == w
    ensures w < s.lastStart ==> PrunedSpans(s, w).lastStart == s.lastStart
    ensures PrunedSpans(s, w).index == s.index && PrunedSpans(s, w).lastNonzeroSlash == s.lastNonzeroSlash
  {
    var keep := KeepCount(s.prior, s.lastStart, w);
    TotalPrefix(s.prior, keep);
    if keep < |s.prior| {
      KeepCountExact(s.prior, s.lastStart, s.index, w, keep);
      PriorSpanAt(s.prior, s.lastStart, s.index, keep);
      TotalSplit(s.prior, keep);
    } else {
      assert s.prior[..keep] == s.prior;
    }
    assert s.prior[..0] == [];
    PruneLists(s, w);
  }

  /** Pruning against w re-labels no era of the window. */
  lemma PruneKeepsEras(s: Spans, w: nat, era: nat)
    requires FirstStart(s) <= w <= era
    ensures EraSpan(s, era).Some? && EraSpan(PrunedSpans(s, w), era).Some?
    ensures EraSpan(PrunedSpans(s, w), era).value.index == EraSpan(s, era).value.index
  {
    var r := PrunedSpans(s, w);
    var keep := KeepCount(s.prior, s.lastStart, w);
    CoveredExactlyOnce(s, era);
    assert AllSpans(s)[1..] == PriorSpans(s.prior, s.lastStart, s.index);
    var k :| LiesIn(s, era, k) && AllSpans(s)[k] == EraSpan(s, era).value;
    PruneLists(s, w);
    if k > 0 {
      assert AllSpans(s)[k] == PriorSpans(s.prior, s.lastStart, s.index)[k - 1];
      KeepCountExact(s.prior, s.lastStart, s.index, w, k - 1);
      assert AllSpans(r)[k] == AllSpans(s)[k];
      SpansDescend(r, 0, k);
    }
    FindIsComplete(AllSpans(r), era);
    var j :| 0 <= j < |AllSpans(r)| && AllSpans(r)[j] == EraSpan(r, era).value && AllSpans(r)[j].ContainsEra(era);
    if j < k { SpansDescend(r, j, k); }
    if k < j { SpansDescend(r, k, j); }
  }

  /** The returned range holds exactly the live indices that stop being live, and these are the
      indices of the spans that ended by the window's start. */
  lemma PruneRangeExact(s: Spans, w: nat, i: int)
    ensures (PrunedRange(s, w).Some? && PrunedRange(s, w).value.0 <= i < PrunedRange(s, w).value.1)
       <==> (Earliest(s) <= i <= s.index && !(Earliest(PrunedSpans(s, w)) <= i <= s.index))
    ensures (PrunedRange(s, w).Some? && PrunedRange(s, w).value.0 <= i < PrunedRange(s, w).value.1)
       <==> exists span :: span in AllSpans(s) && span.index == i && span.EndedBy(w)
  {
    var spans := AllSpans(s);
    var dropped := PrunedRange(s, w).Some? && PrunedRange(s, w).value.0 <= i < PrunedRange(s, w).value.1;
    assert spans[1..] == PriorSpans(s.prior, s.lastStart, s.index);
    if dropped {
      var k := s.index - 1 - i;
      PriorSpanAt(s.prior, s.lastStart, s.index, k);
      KeepCountExact(s.prior, s.lastStart, s.index, w, k);
      assert spans[k + 1] in spans && spans[k + 1].index == i && spans[k + 1].EndedBy(w);
    }
    if span :| span in spans && span.index == i && span.EndedBy(w) {
      var k :| 0 <= k < |spans| && spans[k] == span;
      PriorSpanAt(s.prior, s.lastStart, s.index, k - 1);
      KeepCountExact(s.prior, s.lastStart, s.index, w, k - 1);
      assert dropped;
    }
  }

  // ---- the record as it is edited in place

  class SlashingSpans {
    var spanIndex: nat
    var lastStart: nat
    var lastNonzeroSlash: nat
    var prior: seq<nat>

    function Value(): Spans
      reads this
    {
      Spans(spanIndex, lastStart, lastNonzeroSlash, prior)
    }

    constructor (s: Spans)
      ensures Value() == s
    {
      spanIndex, lastStart, lastNonzeroSlash, prior := s.index, s.lastStart, s.lastNonzeroSlash, s.prior;
    }

    constructor New(windowStart: nat)
      ensures Value() == NewSpans(windowStart) && Geometry(Value()) && FirstStart(Value()) == windowStart
    {
      spanIndex, lastStart, lastNonzeroSlash, prior := 0, windowStart, 0, [];
    }

    /** Starts a new span at the era after now; false means nothing changed. */
    method EndSpan(now: nat) returns (started: bool)
      modifies this
      ensures Value() == EndedSpan(old(Value()), now)
      ensures started <==> Value() != old(Value())
    {
      var nextStart := now + 1;
      if nextStart <= lastStart {
        return false;
      }
      var lastLength := nextStart - lastStart;
      prior := [lastLength] + prior;
      lastStart := nextStart;
      spanIndex := spanIndex + 1;
      return true;
    }

    /** The spans in reverse order. Starts and indices are unsigned, so the record must be well formed. */
    method Iter() returns (spans: seq<SlashingSpan>)
      requires Geometry(Value())
      ensures spans == AllSpans(Value())
    {
      var start: nat := lastStart;
      var index: nat := spanIndex;
      spans := [SlashingSpan(index, start, None)];
      var k := 0;
      assert prior[0..] == prior;
      while k < |prior|
        invariant 0 <= k <= |prior|
        invariant start == lastStart - Total(prior[..k]) && index == spanIndex - k
        invariant spans + PriorSpans(prior[k..], start, index) == AllSpans(Value())
      {
        TotalSplit(prior, k);
        TotalPrefix(prior, k + 1);
        start := start - prior[k];
        index := index - 1;
        assert prior[k..][1..] == prior[k + 1..];
        spans := spans + [SlashingSpan(index, start, Some(prior[k]))];
        k := k + 1;
      }
      assert prior[k..] == [];
    }

    /** Drops the spans that ended by the window's start and returns their indices. */
    method Prune(windowStart: nat) returns (pruned: Option<(int, int)>)
      requires Geometry(Value())
      modifies this
      ensures Value() == PrunedSpans(old(Value()), windowStart)
      ensures pruned == PrunedRange(old(Value()), windowStart)
    {
      var spans := Iter();
      var o := 0;
      assert spans[1..] == PriorSpans(prior, lastStart, spanIndex);
      while o < |prior| && !spans[o + 1].EndedBy(windowStart)
        invariant 0 <= o <= |prior| && Value() == old(Value())
        invariant o <= KeepCount(prior, lastStart, windowStart)
      {
        assert spans[o + 1] == spans[1..][o];
        KeepCountExact(prior, lastStart, spanIndex, windowStart, o);
        o := o + 1;
      }
      if o < |prior| {
        assert spans[o + 1] == spans[1..][o];
        KeepCountExact(prior, lastStart, spanIndex, windowStart, o);
      }
      var earliest := spanIndex - |prior|;
      pruned := None;
      if o < |prior| {
        prior := prior[..o];
        pruned := Some((earliest, spanIndex - |prior|));
      }
      lastStart := Max(lastStart, windowStart);
    }
  }
}
