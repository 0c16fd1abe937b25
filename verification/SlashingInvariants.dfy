/** What every sequence of reports and clears keeps: span geometry, no orphaned records, and charges
    that are the maximum within each span, summed across spans. */
module SlashingInvariants {
  import opened Arith
  import opened Options
  import opened SpanGeometry
  import opened Slashing

  ghost predicate FreshStash(world: World, n: AccountId) {
    && (forall i :: (n, i) !in world.st.records)
    && (forall i :: Peak(world.log, n, i) == 0 && PaidFor(world.log, n, i) == 0)
    && Issued(world.log, n) == 0
  }

  /** The record `s` of stash n agrees with the stored span records and with the history. */
  ghost predicate Agrees(records: Records, log: seq<Entry>, n: AccountId, s: Spans) {
    && (forall i :: (n, i) in records ==> Earliest(s) <= i <= s.index)
    && (forall i :: Earliest(s) <= i <= s.index ==> RecordOf(records, n, i) == SpanRecord(Peak(log, n, i), PaidFor(log, n, i)))
    && (forall i :: s.index < i ==> Peak(log, n, i) == 0 && PaidFor(log, n, i) == 0)
    && Issued(log, n) == SumPeaks(log, n, s.index + 1)
  }

  ghost predicate Shaped(s: Spans, windowStart: nat) {
    Geometry(s) && FirstStart(s) <= windowStart
  }

  ghost predicate StashInv(world: World, n: AccountId, windowStart: nat) {
    if n in world.st.spans then
      Shaped(world.st.spans[n], windowStart) && Agrees(world.st.records, world.log, n, world.st.spans[n])
    else
      FreshStash(world, n)
  }

  ghost predicate Inv(world: World, windowStart: nat) {
    forall n :: StashInv(world, n, windowStart)
  }

  // ---- history lemmas

  lemma AppendOther(log: seq<Entry>, e: Entry, n: AccountId)
    requires e.stash != n
    ensures forall i :: Peak(log + [e], n, i) == Peak(log, n, i)
    ensures forall i :: PaidFor(log + [e], n, i) == PaidFor(log, n, i)
    ensures Issued(log + [e], n) == Issued(log, n)
  {
    assert (log + [e])[..|log + [e]| - 1] == log;
  }

  lemma AppendCharge(log: seq<Entry>, n: AccountId, i: int, amount: nat, issued: nat, paid: nat)
    ensures var log' := log + [Charge(n, i, amount, issued, paid)];
            && (forall j :: Peak(log', n, j) == if j == i then Max(amount, Peak(log, n, j)) else Peak(log, n, j))
            && (forall j :: PaidFor(log', n, j) == PaidFor(log, n, j) + if j == i then paid else 0)
            && Issued(log', n) == Issued(log, n) + issued
            && PaidTotal(log') == PaidTotal(log) + paid
  {
    var log' := log + [Charge(n, i, amount, issued, paid)];
    assert log'[..|log'| - 1] == log;
  }

  lemma AppendReset(log: seq<Entry>, n: AccountId)
    ensures forall i :: Peak(log + [Reset(n)], n, i) == 0 && PaidFor(log + [Reset(n)], n, i) == 0
    ensures Issued(log + [Reset(n)], n) == 0
  {
  }

  lemma {:induction false} SumPeaksCharge(log: seq<Entry>, n: AccountId, i: int, amount: nat, issued: nat, paid: nat,
                                          k: int)
    requires 0 <= i
    ensures SumPeaks(log + [Charge(n, i, amount, issued, paid)], n, k)
         == SumPeaks(log, n, k) + if i < k then Monus(amount, Peak(log, n, i)) else 0
    decreases k
  {
    AppendCharge(log, n, i, amount, issued, paid);
    if k > 0 { SumPeaksCharge(log, n, i, amount, issued, paid, k - 1); }
  }

  lemma {:induction false} SumPeaksTail(log: seq<Entry>, n: AccountId, k: int, m: int)
    requires k <= m && forall i :: k <= i ==> Peak(log, n, i) == 0
    ensures SumPeaks(log, n, m) == SumPeaks(log, n, k)
    decreases m - k
  {
    if k < m { SumPeaksTail(log, n, k, m - 1); }
  }

  lemma {:induction false} SumPeaksOther(log: seq<Entry>, e: Entry, n: AccountId, k: int)
    requires e.stash != n
    ensures SumPeaks(log + [e], n, k) == SumPeaks(log, n, k)
    decreases k
  {
    AppendOther(log, e, n);
    if k > 0 { SumPeaksOther(log, e, n, k - 1); }
  }

  /** Spans and records of stash n are the same in both states. */
  ghost predicate SameFor(st: State, st': State, n: AccountId) {
    && (n in st.spans <==> n in st'.spans)
    && (n in st.spans ==> st'.spans[n] == st.spans[n])
    && (forall i :: (n, i) in st.records <==> (n, i) in st'.records)
    && (forall i :: (n, i) in st.records ==> st'.records[(n, i)] == st.records[(n, i)])
  }

  lemma SameStashKept(world: World, st: State, n: AccountId, w: nat, w': nat)
    requires StashInv(world, n, w) && w <= w' && SameFor(world.st, st, n)
    ensures StashInv(World(st, world.log), n, w')
  {
  }

  lemma OtherAgrees(records: Records, records': Records, log: seq<Entry>, e: Entry, n: AccountId, s: Spans)
    requires Agrees(records, log, n, s) && e.stash != n
    requires forall i :: (n, i) in records <==> (n, i) in records'
    requires forall i :: (n, i) in records ==> records'[(n, i)] == records[(n, i)]
    ensures Agrees(records', log + [e], n, s)
  {
    AppendOther(log, e, n);
    SumPeaksOther(log, e, n, s.index + 1);
    forall i
      ensures RecordOf(records', n, i) == RecordOf(records, n, i)
    {
    }
  }

  /** What a step does to one stash leaves the others' part of the invariant alone. */
  lemma OtherStashKept(world: World, st: State, e: Entry, n: AccountId, w: nat, w': nat)
    requires StashInv(world, n, w) && w <= w' && SameFor(world.st, st, n) && e.stash != n
    ensures StashInv(World(st, world.log + [e]), n, w')
  {
    if n in world.st.spans {
      OtherAgrees(world.st.records, st.records, world.log, e, n, world.st.spans[n]);
    } else {
      AppendOther(world.log, e, n);
    }
  }

  // ---- one touch

  lemma FetchedInv(world: World, stash: AccountId, w: nat, w': nat)
    requires StashInv(world, stash, w) && w <= w'
    ensures Shaped(Fetched(world.st, stash, w'), w')
    ensures Agrees(world.st.records, world.log, stash, Fetched(world.st, stash, w'))
  {
    if stash !in world.st.spans {
      SumPeaksTail(world.log, stash, 0, 1);
      assert NewSpans(w').prior == [];
    }
  }

  lemma EndedAgrees(records: Records, log: seq<Entry>, stash: AccountId, s: Spans, now: nat)
    requires Geometry(s) && Agrees(records, log, stash, s)
    ensures Agrees(records, log, stash, EndedSpan(s, now))
  {
    EndSpanGeometry(s, now);
    if EndedSpan(s, now) != s { SumPeaksTail(log, stash, s.index + 1, s.index + 2); }
  }

  lemma PrunedAgrees(records: Records, log: seq<Entry>, stash: AccountId, s: Spans, w: nat)
    requires Agrees(records, log, stash, s)
    ensures Agrees(WithoutRange(records, stash, PrunedRange(s, w)), log, stash, PrunedSpans(s, w))
  {
    var pruned := PrunedSpans(s, w);
    var records' := WithoutRange(records, stash, PrunedRange(s, w));
    forall i
      ensures (stash, i) in records' ==> Earliest(pruned) <= i <= pruned.index
      ensures Earliest(pruned) <= i <= pruned.index ==> RecordOf(records', stash, i) == RecordOf(records, stash, i)
    {
      PruneRangeExact(s, w, i);
    }
  }

  /** Ending the hit span and pruning keep agreement. */
  lemma FinishedAgrees(st: State, log: seq<Entry>, stash: AccountId, s: Spans, target: int, now: nat, w: nat,
                       changed: bool)
    requires Shaped(s, w) && Agrees(st.records, log, stash, s)
    requires stash in st.spans && (changed || st.spans[stash] == s)
    ensures var st' := Finished(st, stash, s, target, now, w, changed);
            && stash in st'.spans && Shaped(st'.spans[stash], w)
            && Agrees(st'.records, log, stash, st'.spans[stash])
            && Earliest(s) <= Earliest(st'.spans[stash])
  {
    EndSpanGeometry(s, now);
    EndedAgrees(st.records, log, stash, s, now);
    var ended := if target == s.index then EndedSpan(s, now) else s;
    PruneGeometry(ended, w);
    PrunedAgrees(st.records, log, stash, ended, w);
  }

  lemma FinishedFrame(st: State, stash: AccountId, s: Spans, target: int, now: nat, w: nat, changed: bool)
    ensures var st' := Finished(st, stash, s, target, now, w, changed);
            && (forall n :: n != stash ==> SameFor(st, st', n))
            && st'.validatorSlash == st.validatorSlash && st'.nominatorSlash == st.nominatorSlash
  {
  }

  /** Writing the new record and logging the charge keep agreement. */
  lemma ChargedAgrees(st: State, log: seq<Entry>, stash: AccountId, s: Spans, i: int, rec: SpanRecord, slash: nat,
                      paid: nat)
    requires Agrees(st.records, log, stash, s) && 0 <= Earliest(s) <= i <= s.index
    requires var was := RecordOf(st.records, stash, i);
             rec == SpanRecord(Max(was.slashed, slash), was.paidOut + paid)
    ensures Agrees(WithRecord(st, stash, i, rec).records,
                   log + [Charge(stash, i, slash, Monus(slash, RecordOf(st.records, stash, i).slashed), paid)], stash, s)
  {
    var issued := Monus(slash, RecordOf(st.records, stash, i).slashed);
    var records' := WithRecord(st, stash, i, rec).records;
    AppendCharge(log, stash, i, slash, issued, paid);
    SumPeaksCharge(log, stash, i, slash, issued, paid, s.index + 1);
    assert RecordOf(records', stash, i) == rec;
    forall j | j != i
      ensures RecordOf(records', stash, j) == RecordOf(st.records, stash, j)
    {
    }
  }

  /** The span a presented slash is compared with. */
  function TargetSpan(world: World, r: Report, stash: AccountId): int {
    var span := EraSpan(Fetched(world.st, stash, r.windowStart), r.slashEra);
    if span.Some? then span.value.index else -1
  }

  /** One presented slash hits exactly one live span and charges what it exceeds the span's peak by. */
  lemma TouchCharges(mul: (nat, nat) -> nat, world: World, r: Report, stash: AccountId, slash: nat, w: nat)
    requires StashInv(world, stash, w) && w <= r.windowStart <= r.slashEra
    ensures var t := Touch(mul, world, r, stash, slash);
            var i := TargetSpan(world, r, stash);
            && t.issued == Monus(slash, Peak(world.log, stash, i))
            && t.paid == Reward(mul, r.rewardProportion, SpanRecord(Peak(world.log, stash, i), PaidFor(world.log, stash, i)), slash)
            && t.world.log == world.log + [Charge(stash, i, slash, t.issued, t.paid)]
            && 0 <= Earliest(Fetched(world.st, stash, r.windowStart)) <= i
            && stash in t.world.st.spans
            && Earliest(Fetched(world.st, stash, r.windowStart)) <= Earliest(t.world.st.spans[stash])
            && StashInv(t.world, stash, r.windowStart)
  {
    var s := Fetched(world.st, stash, r.windowStart);
    FetchedInv(world, stash, w, r.windowStart);
    CoveredExactlyOnce(s, r.slashEra);
    var i := EraSpan(s, r.slashEra).value.index;
    var st := WithFetched(world.st, stash, r.windowStart);
    var rec := RecordOf(st.records, stash, i);
    var rec' := Compared(mul, r.rewardProportion, rec, slash);
    var paid := Reward(mul, r.rewardProportion, rec, slash);
    ChargedAgrees(st, world.log, stash, s, i, rec', slash, paid);
    var written := WithRecord(st, stash, i, rec');
    var stamped := Stamped(s, rec, r.slashEra, slash);
    var log' := world.log + [Charge(stash, i, slash, Monus(slash, rec.slashed), paid)];
    assert Agrees(written.records, log', stash, stamped);
    FinishedAgrees(written, log', stash, stamped, i, r.now, r.windowStart, rec' != rec);
  }

  lemma TouchFrame(mul: (nat, nat) -> nat, world: World, r: Report, stash: AccountId, slash: nat)
    ensures var t := Touch(mul, world, r, stash, slash);
            && (forall n :: n != stash ==> SameFor(world.st, t.world.st, n))
            && t.world.st.validatorSlash == world.st.validatorSlash
            && t.world.st.nominatorSlash == world.st.nominatorSlash
  {
    var s := Fetched(world.st, stash, r.windowStart);
    if EraSpan(s, r.slashEra).Some? {
      var i := EraSpan(s, r.slashEra).value.index;
      var st := WithFetched(world.st, stash, r.windowStart);
      var rec := RecordOf(st.records, stash, i);
      var rec' := Compared(mul, r.rewardProportion, rec, slash);
      var written := WithRecord(st, stash, i, rec');
      FinishedFrame(written, stash, Stamped(s, rec, r.slashEra, slash), i, r.now, r.windowStart, rec' != rec);
    }
  }

  lemma TouchInv(mul: (nat, nat) -> nat, world: World, r: Report, stash: AccountId, slash: nat, w: nat)
    requires Inv(world, w) && w <= r.windowStart <= r.slashEra
    ensures Inv(Touch(mul, world, r, stash, slash).world, r.windowStart)
  {
    assert StashInv(world, stash, w);
    TouchCharges(mul, world, r, stash, slash, w);
    TouchFrame(mul, world, r, stash, slash);
    var t := Touch(mul, world, r, stash, slash);
    forall n
      ensures StashInv(t.world, n, r.windowStart)
    {
      assert StashInv(world, n, w);
      if n != stash {
        OtherStashKept(world, t.world.st, Charge(stash, TargetSpan(world, r, stash), slash, t.issued, t.paid), n, w, r.windowStart);
      }
    }
  }

  /** Every era of the window can be looked up: neither the record nor the lookup fails. */
  lemma TouchReady(world: World, r: Report, stash: AccountId, w: nat)
    requires Inv(world, w) && w <= r.windowStart <= r.slashEra
    ensures Geometry(Fetched(world.st, stash, r.windowStart))
    ensures EraSpan(Fetched(world.st, stash, r.windowStart), r.slashEra).Some?
  {
    assert StashInv(world, stash, w);
    FetchedInv(world, stash, w, r.windowStart);
    CoveredExactlyOnce(Fetched(world.st, stash, r.windowStart), r.slashEra);
  }

  lemma KickedOutInv(world: World, r: Report, w: nat)
    requires Inv(world, w) && w <= r.windowStart <= r.slashEra
    ensures Inv(World(KickedOut(world.st, r), world.log), r.windowStart)
  {
    var s := Fetched(world.st, r.stash, r.windowStart);
    assert StashInv(world, r.stash, w);
    FetchedInv(world, r.stash, w, r.windowStart);
    CoveredExactlyOnce(s, r.slashEra);
    var st := WithFetched(world.st, r.stash, r.windowStart);
    var i := EraSpan(s, r.slashEra).value.index;
    FinishedAgrees(st, world.log, r.stash, s, i, r.now, r.windowStart, false);
    FinishedFrame(st, r.stash, s, i, r.now, r.windowStart, false);
    var world' := World(KickedOut(world.st, r), world.log);
    forall n
      ensures StashInv(world', n, r.windowStart)
    {
      assert StashInv(world, n, w);
      if n != r.stash { SameStashKept(world, world'.st, n, w, r.windowStart); }
    }
  }

  // ---- one report

  /** The invariant speaks of spans, records and history only. */
  lemma InvReads(world: World, st: State, w: nat, w': nat)
    requires Inv(world, w) && w <= w' && st.spans == world.st.spans && st.records == world.st.records
    ensures Inv(World(st, world.log), w')
  {
    forall n
      ensures StashInv(World(st, world.log), n, w')
    {
      assert StashInv(world, n, w);
    }
  }

  lemma {:induction false} SlashNominatorsInv(
      mul: (nat, nat) -> nat, world: World, r: Report, prior: Perbill, others: seq<Individual>)
    requires Inv(world, r.windowStart) && r.windowStart <= r.slashEra
    ensures Inv(SlashNominators(mul, world, r, prior, others).world, r.windowStart)
  {
    if others != [] {
      var before := SlashNominators(mul, world, r, prior, others[..|others| - 1]);
      SlashNominatorsInv(mul, world, r, prior, others[..|others| - 1]);
      var last := others[|others| - 1];
      var slash := RaisedEraSlash(mul, before.world.st, r, prior, last);
      var st := WithNominatorSlash(before.world.st, r.slashEra, last.who, slash);
      InvReads(before.world, st, r.windowStart, r.windowStart);
      TouchInv(mul, World(st, before.world.log), r, last.who, slash, r.windowStart);
    }
  }

  lemma ComputeSlashInv(mul: (nat, nat) -> nat, world: World, r: Report, w: nat)
    requires Inv(world, w) && w <= r.windowStart <= r.slashEra
    ensures Inv(ComputeSlash(mul, world, r).world, r.windowStart)
  {
    var own := mul(r.slash, r.exposure.own);
    var prior := PriorSlash(world.st, r.slashEra, r.stash);
    KickedOutInv(world, r, w);
    InvReads(world, world.st, w, r.windowStart);
    var st := WithValidatorSlash(world.st, r, own);
    InvReads(world, st, w, w);
    TouchInv(mul, World(st, world.log), r, r.stash, own, w);
    var t := Touch(mul, World(st, world.log), r, r.stash, own);
    SlashNominatorsInv(mul, t.world, r, prior, r.exposure.others);
  }

  // ---- clearing

  lemma LiveIndexListed(s: Spans, i: int)
    requires Earliest(s) <= i <= s.index
    ensures Listed(AllSpans(s), i)
  {
    var j := s.index - i;
    if j > 0 {
      PriorSpanAt(s.prior, s.lastStart, s.index, j - 1);
      assert AllSpans(s)[j] == PriorSpans(s.prior, s.lastStart, s.index)[j - 1];
    }
    assert AllSpans(s)[j].index == i;
  }

  /** Clearing a dead account succeeds exactly when enough spans are allowed for, and then leaves no
      record of any of its spans. */
  lemma ClearLeavesNoOrphan(world: World, stash: AccountId, count: nat, w: nat)
    requires Inv(world, w)
    ensures var r := StashCleared(world, stash, count);
            && (r.Ok? <==> (stash in world.st.spans ==> count >= 1 + |world.st.spans[stash].prior|))
            && (r.Ok? ==>
                  && r.value.st.spans == world.st.spans - {stash}
                  && r.value.st.validatorSlash == world.st.validatorSlash
                  && r.value.st.nominatorSlash == world.st.nominatorSlash
                  && (forall i :: (stash, i) !in r.value.st.records)
                  && (forall k :: k in world.st.records && k.0 != stash ==>
                        k in r.value.st.records && r.value.st.records[k] == world.st.records[k])
                  && Inv(r.value, w))
  {
    var r := StashCleared(world, stash, count);
    assert StashInv(world, stash, w);
    if r.Ok? && stash in world.st.spans {
      var s := world.st.spans[stash];
      forall i
        ensures (stash, i) !in r.value.st.records
      {
        if (stash, i) in world.st.records { LiveIndexListed(s, i); }
      }
      AppendReset(world.log, stash);
      forall n
        ensures StashInv(r.value, n, w)
      {
        assert StashInv(world, n, w);
        if n != stash { OtherStashKept(world, r.value.st, Reset(stash), n, w, w); }
      }
    }
  }

  // ---- every run

  lemma {:induction false} RunInv(mul: (nat, nat) -> nat, start: nat, ops: seq<Op>)
    requires Legal(start, ops)
    ensures Inv(Run(mul, EMPTY, ops), Window(start, ops))
  {
    if ops == [] {
      forall n
        ensures StashInv(EMPTY, n, start)
      {
      }
    } else {
      var before := ops[..|ops| - 1];
      RunInv(mul, start, before);
      var world := Run(mul, EMPTY, before);
      var w := Window(start, before);
      match ops[|ops| - 1]
      case Slash(r) => ComputeSlashInv(mul, world, r, w);
      case ClearEra(era) => InvReads(world, EraCleared(world.st, era), w, w);
      case ClearStash(stash, count) => ClearLeavesNoOrphan(world, stash, count, w);
    }
  }

  /** Maximum within a span, sum across spans: over any run, what a stash was charged since its metadata
      was last cleared is the sum, over every span index there ever was, of the largest slash presented
      to that span. Spans that were pruned count too. */
  lemma MaxWithinSumAcross(mul: (nat, nat) -> nat, start: nat, ops: seq<Op>, n: AccountId, k: int)
    requires Legal(start, ops)
    requires var st := Run(mul, EMPTY, ops).st; n in st.spans ==> st.spans[n].index < k
    ensures var log := Run(mul, EMPTY, ops).log; Issued(log, n) == SumPeaks(log, n, k)
  {
    var world := Run(mul, EMPTY, ops);
    RunInv(mul, start, ops);
    assert StashInv(world, n, Window(start, ops));
    if n in world.st.spans {
      SumPeaksTail(world.log, n, world.st.spans[n].index + 1, k);
    } else if k > 0 {
      SumPeaksTail(world.log, n, 0, k);
    }
  }

  /** In every reachable state the spans of a stash are well formed, every era of the window lies in
      exactly one of them, and no record is outside the live indices. */
  lemma ReachableGeometry(mul: (nat, nat) -> nat, start: nat, ops: seq<Op>, n: AccountId, era: nat)
    requires Legal(start, ops)
    requires n in Run(mul, EMPTY, ops).st.spans && Window(start, ops) <= era
    ensures var s := Run(mul, EMPTY, ops).st.spans[n];
            && Geometry(s)
            && (exists k :: LiesIn(s, era, k))
            && (forall j, k :: LiesIn(s, era, j) && LiesIn(s, era, k) ==> j == k)
            && (forall i :: (n, i) in Run(mul, EMPTY, ops).st.records ==> Earliest(s) <= i <= s.index)
  {
    RunInv(mul, start, ops);
    var world := Run(mul, EMPTY, ops);
    assert StashInv(world, n, Window(start, ops));
    CoveredExactlyOnce(world.st.spans[n], era);
  }

  // ---- what a report returns

  /** What an accepted report leads to: the validator is slashed first, then the nominators. */
  ghost predicate AcceptedAs(mul: (nat, nat) -> nat, world: World, r: Report, world': World, u: UnappliedSlash) {
    var own := mul(r.slash, r.exposure.own);
    var t := Touch(mul, World(WithValidatorSlash(world.st, r, own), world.log), r, r.stash, own);
    var o := SlashNominators(mul, t.world, r, PriorSlash(world.st, r.slashEra, r.stash), r.exposure.others);
    world' == o.world && u == UnappliedSlash(r.stash, t.issued, o.slashed, [], t.paid + o.payout)
  }

  lemma AcceptedOutcome(mul: (nat, nat) -> nat, world: World, r: Report, world': World, u: UnappliedSlash)
    requires mul(r.slash, r.exposure.total) != 0 && r.slash > PriorSlash(world.st, r.slashEra, r.stash)
    requires AcceptedAs(mul, world, r, world', u)
    ensures ComputeSlash(mul, world, r) == Outcome(world', Some(u))
  {
  }

  /** What an unapplied slash takes from a stash. */
  function ChargedTo(u: UnappliedSlash, n: AccountId): nat {
    (if u.validator == n then u.own else 0) + ChargedIn(u.others, n)
  }

  function ChargedIn(others: seq<(AccountId, nat)>, n: AccountId): nat {
    if others == [] then 0
    else ChargedIn(others[..|others| - 1], n)
         + if others[|others| - 1].0 == n then others[|others| - 1].1 else 0
  }

  /** A touch adds its charge to the stash's account in the history and to nobody else's. */
  lemma TouchIssues(mul: (nat, nat) -> nat, world: World, r: Report, stash: AccountId, slash: nat, w: nat, n: AccountId)
    requires Inv(world, w) && w <= r.windowStart <= r.slashEra
    ensures var t := Touch(mul, world, r, stash, slash);
            && Issued(t.world.log, n) == Issued(world.log, n) + (if n == stash then t.issued else 0)
            && PaidTotal(t.world.log) == PaidTotal(world.log) + t.paid
  {
    assert StashInv(world, stash, w);
    TouchCharges(mul, world, r, stash, slash, w);
    var t := Touch(mul, world, r, stash, slash);
    var i := TargetSpan(world, r, stash);
    AppendCharge(world.log, stash, i, slash, t.issued, t.paid);
    if n != stash { AppendOther(world.log, Charge(stash, i, slash, t.issued, t.paid), n); }
  }

  lemma {:induction false} NominatorsReturnCharges(
      mul: (nat, nat) -> nat, world: World, r: Report, prior: Perbill, others: seq<Individual>, n: AccountId)
    requires Inv(world, r.windowStart) && r.windowStart <= r.slashEra
    ensures var o := SlashNominators(mul, world, r, prior, others);
            && Issued(o.world.log, n) == Issued(world.log, n) + ChargedIn(o.slashed, n)
            && PaidTotal(o.world.log) == PaidTotal(world.log) + o.payout
  {
    if others != [] {
      var before := SlashNominators(mul, world, r, prior, others[..|others| - 1]);
      NominatorsReturnCharges(mul, world, r, prior, others[..|others| - 1], n);
      SlashNominatorsInv(mul, world, r, prior, others[..|others| - 1]);
      var last := others[|others| - 1];
      var slash := RaisedEraSlash(mul, before.world.st, r, prior, last);
      var st := WithNominatorSlash(before.world.st, r.slashEra, last.who, slash);
      InvReads(before.world, st, r.windowStart, r.windowStart);
      TouchIssues(mul, World(st, before.world.log), r, last.who, slash, r.windowStart, n);
      var o := SlashNominators(mul, world, r, prior, others);
      assert o.slashed[..|o.slashed| - 1] == before.slashed;
    }
  }

  lemma AcceptedCharges(mul: (nat, nat) -> nat, world: World, r: Report, prior: Perbill, w: nat, n: AccountId)
    requires Inv(world, w) && w <= r.windowStart <= r.slashEra
    ensures var own := mul(r.slash, r.exposure.own);
            var t := Touch(mul, World(WithValidatorSlash(world.st, r, own), world.log), r, r.stash, own);
            var o := SlashNominators(mul, t.world, r, prior, r.exposure.others);
            && Issued(o.world.log, n)
               == Issued(world.log, n) + (if r.stash == n then t.issued else 0) + ChargedIn(o.slashed, n)
            && PaidTotal(o.world.log) == PaidTotal(world.log) + t.paid + o.payout
  {
    var own := mul(r.slash, r.exposure.own);
    var world1 := World(WithValidatorSlash(world.st, r, own), world.log);
    InvReads(world, world1.st, w, w);
    TouchIssues(mul, world1, r, r.stash, own, w, n);
    TouchInv(mul, world1, r, r.stash, own, w);
    NominatorsReturnCharges(mul, Touch(mul, world1, r, r.stash, own).world, r, prior, r.exposure.others, n);
  }

  /** The unapplied slash handed back holds exactly what the report charged to each stash and set aside as
      reward; without one the report did neither. */
  lemma ReportReturnsCharges(mul: (nat, nat) -> nat, world: World, r: Report, w: nat, n: AccountId)
    requires Inv(world, w) && w <= r.windowStart <= r.slashEra
    ensures var o := ComputeSlash(mul, world, r);
            && Issued(o.world.log, n)
               == Issued(world.log, n) + (if o.unapplied.Some? then ChargedTo(o.unapplied.value, n) else 0)
            && PaidTotal(o.world.log)
               == PaidTotal(world.log) + (if o.unapplied.Some? then o.unapplied.value.payout else 0)
  {
    AcceptedCharges(mul, world, r, PriorSlash(world.st, r.slashEra, r.stash), w, n);
  }

  // ---- what a report does to the spans

  /** A hit on the ongoing span ends it: from now on only eras after `now` fall in the ongoing span. A hit on an
      older span leaves the ongoing one as it is, but for the window. */
  lemma FinishedEndsHitSpan(st: State, stash: AccountId, s: Spans, target: int, now: nat, w: nat, changed: bool)
    requires stash in st.spans && (changed || st.spans[stash] == s)
    ensures var s' := Finished(st, stash, s, target, now, w, changed).spans[stash];
            && (target == s.index ==> now < s'.lastStart && s'.index == if s.lastStart <= now then s.index + 1 else s.index)
            && (target != s.index ==> s'.index == s.index && s'.lastStart == if changed then Max(s.lastStart, w) else s.lastStart)
            && s'.lastNonzeroSlash == s.lastNonzeroSlash
  {
  }

  /** A slash that hits the ongoing span ends it, and a slash that is charged moves the era of the last
      nonzero slash up to its own. A slash of an older span that is neither charged nor paid for changes nothing. */
  lemma TouchEndsHitSpan(mul: (nat, nat) -> nat, world: World, r: Report, stash: AccountId, slash: nat, w: nat)
    requires StashInv(world, stash, w) && w <= r.windowStart <= r.slashEra
    ensures var s := Fetched(world.st, stash, r.windowStart);
            var t := Touch(mul, world, r, stash, slash);
            stash in t.world.st.spans
            && (var s' := t.world.st.spans[stash];
                && (TargetSpan(world, r, stash) == s.index ==>
                      r.now < s'.lastStart && s'.index == if s.lastStart <= r.now then s.index + 1 else s.index)
                && (TargetSpan(world, r, stash) != s.index ==> s'.index == s.index)
                && s'.lastNonzeroSlash
                   == (if t.issued > 0 then Max(s.lastNonzeroSlash, r.slashEra) else s.lastNonzeroSlash)
                && (TargetSpan(world, r, stash) != s.index && t.issued == 0 && t.paid == 0 ==>
                      s' == s && t.world.st.records == world.st.records)
                && (TargetSpan(world, r, stash) != s.index && (t.issued > 0 || t.paid > 0) ==>
                      s'.lastStart == Max(s.lastStart, r.windowStart)))
  {
    var s := Fetched(world.st, stash, r.windowStart);
    FetchedInv(world, stash, w, r.windowStart);
    CoveredExactlyOnce(s, r.slashEra);
    var i := EraSpan(s, r.slashEra).value.index;
    var st := WithFetched(world.st, stash, r.windowStart);
    var rec := RecordOf(st.records, stash, i);
    var rec' := Compared(mul, r.rewardProportion, rec, slash);
    FinishedEndsHitSpan(WithRecord(st, stash, i, rec'), stash, Stamped(s, rec, r.slashEra, slash), i, r.now, r.windowStart,
                        rec' != rec);
  }

  /** A report too small to slash anything still ends the validator's span if the offence is in it. */
  lemma KickedOutEndsHitSpan(world: World, r: Report, w: nat)
    requires StashInv(world, r.stash, w) && w <= r.windowStart <= r.slashEra
    ensures var s := Fetched(world.st, r.stash, r.windowStart);
            var st := KickedOut(world.st, r);
            && r.stash in st.spans
            && (TargetSpan(world, r, r.stash) == s.index ==> r.now < st.spans[r.stash].lastStart)
            && (TargetSpan(world, r, r.stash) != s.index ==> st.spans[r.stash] == s && st.records == world.st.records)
  {
    var s := Fetched(world.st, r.stash, r.windowStart);
    FetchedInv(world, r.stash, w, r.windowStart);
    CoveredExactlyOnce(s, r.slashEra);
    FinishedEndsHitSpan(WithFetched(world.st, r.stash, r.windowStart), r.stash, s, EraSpan(s, r.slashEra).value.index,
                        r.now, r.windowStart, false);
  }

  // ---- a pruned span is gone for good

  /** From position `from` of the history on, stash n is charged for spans from `low` on only. */
  ghost predicate ChargedFrom(log: seq<Entry>, from: nat, n: AccountId, low: int) {
    forall k :: from <= k < |log| && log[k].Charge? && log[k].stash == n ==> low <= log[k].span
  }

  /** Between two worlds stash n keeps its record, its earliest live span does not move back, and nothing
      before it is charged. */
  ghost predicate Forward(world: World, world': World, n: AccountId, low: int) {
    && |world.log| <= |world'.log|
    && (n in world.st.spans && low <= Earliest(world.st.spans[n]) ==>
          n in world'.st.spans && Earliest(world.st.spans[n]) <= Earliest(world'.st.spans[n])
          && ChargedFrom(world'.log, |world.log|, n, low))
    && world.log <= world'.log
  }

  lemma ForwardChains(a: World, b: World, c: World, n: AccountId, low: int)
    requires Forward(a, b, n, low) && Forward(b, c, n, low)
    ensures Forward(a, c, n, low)
  {
    if n in a.st.spans && low <= Earliest(a.st.spans[n]) {
      forall k | |a.log| <= k < |c.log| && c.log[k].Charge? && c.log[k].stash == n
        ensures low <= c.log[k].span
      {
        if k < |b.log| { assert b.log[k] == c.log[k]; }
      }
    }
  }

  lemma TouchForward(mul: (nat, nat) -> nat, world: World, r: Report, stash: AccountId, slash: nat, w: nat,
                     n: AccountId, low: int)
    requires Inv(world, w) && w <= r.windowStart <= r.slashEra
    ensures Forward(world, Touch(mul, world, r, stash, slash).world, n, low)
  {
    assert StashInv(world, stash, w);
    TouchCharges(mul, world, r, stash, slash, w);
    TouchFrame(mul, world, r, stash, slash);
    assert n != stash ==> SameFor(world.st, Touch(mul, world, r, stash, slash).world.st, n);
  }

  lemma {:induction false} NominatorsForward(
      mul: (nat, nat) -> nat, world: World, r: Report, prior: Perbill, others: seq<Individual>, n: AccountId, low: int)
    requires Inv(world, r.windowStart) && r.windowStart <= r.slashEra
    ensures Forward(world, SlashNominators(mul, world, r, prior, others).world, n, low)
  {
    if others != [] {
      var before := SlashNominators(mul, world, r, prior, others[..|others| - 1]).world;
      NominatorsForward(mul, world, r, prior, others[..|others| - 1], n, low);
      SlashNominatorsInv(mul, world, r, prior, others[..|others| - 1]);
      var last := others[|others| - 1];
      var slash := RaisedEraSlash(mul, before.st, r, prior, last);
      var raised := World(WithNominatorSlash(before.st, r.slashEra, last.who, slash), before.log);
      InvReads(before, raised.st, r.windowStart, r.windowStart);
      TouchForward(mul, raised, r, last.who, slash, r.windowStart, n, low);
      var after := SlashNominators(mul, world, r, prior, others).world;
      assert Forward(before, after, n, low);
      ForwardChains(world, before, after, n, low);
    }
  }

  lemma ReportForward(mul: (nat, nat) -> nat, world: World, r: Report, w: nat, n: AccountId, low: int)
    requires Inv(world, w) && w <= r.windowStart <= r.slashEra
    ensures Forward(world, ComputeSlash(mul, world, r).world, n, low)
  {
    var own := mul(r.slash, r.exposure.own);
    var prior := PriorSlash(world.st, r.slashEra, r.stash);
    if mul(r.slash, r.exposure.total) == 0 {
      KickedOutForward(world, r, w, n, low);
    } else if r.slash > prior {
      var world1 := World(WithValidatorSlash(world.st, r, own), world.log);
      InvReads(world, world1.st, w, w);
      TouchForward(mul, world1, r, r.stash, own, w, n, low);
      TouchInv(mul, world1, r, r.stash, own, w);
      var t := Touch(mul, world1, r, r.stash, own).world;
      NominatorsForward(mul, t, r, prior, r.exposure.others, n, low);
      ForwardChains(world1, t, SlashNominators(mul, t, r, prior, r.exposure.others).world, n, low);
    }
  }

  lemma KickedOutForward(world: World, r: Report, w: nat, n: AccountId, low: int)
    requires Inv(world, w) && w <= r.windowStart <= r.slashEra
    ensures Forward(world, World(KickedOut(world.st, r), world.log), n, low)
  {
    var s := Fetched(world.st, r.stash, r.windowStart);
    assert StashInv(world, r.stash, w);
    FetchedInv(world, r.stash, w, r.windowStart);
    CoveredExactlyOnce(s, r.slashEra);
    var st := WithFetched(world.st, r.stash, r.windowStart);
    var i := EraSpan(s, r.slashEra).value.index;
    FinishedAgrees(st, world.log, r.stash, s, i, r.now, r.windowStart, false);
    FinishedFrame(st, r.stash, s, i, r.now, r.windowStart, false);
    assert n != r.stash ==> SameFor(st, KickedOut(world.st, r), n);
  }

  /** No step clears the metadata of stash n. */
  ghost predicate NeverCleared(ops: seq<Op>, n: AccountId) {
    forall k :: 0 <= k < |ops| && ops[k].ClearStash? ==> ops[k].stash != n
  }

  /** A span index that has been pruned is never charged again while the stash's metadata is not cleared: after
      `ops`, whatever steps follow, stash n is charged only for spans from its earliest live one on. */
  lemma {:induction false} PrunedNeverChargedAgain(mul: (nat, nat) -> nat, start: nat, ops: seq<Op>, more: seq<Op>,
                                                   n: AccountId)
    requires Legal(start, ops + more) && NeverCleared(more, n)
    requires n in Run(mul, EMPTY, ops).st.spans
    ensures var world, world' := Run(mul, EMPTY, ops), Run(mul, EMPTY, ops + more);
            && n in world'.st.spans && world.log <= world'.log
            && ChargedFrom(world'.log, |world.log|, n, Earliest(world.st.spans[n]))
            && Forward(world, world', n, Earliest(world.st.spans[n]))
    decreases |more|
  {
    var world := Run(mul, EMPTY, ops);
    var low := Earliest(world.st.spans[n]);
    if more == [] {
      assert ops + more == ops;
    } else {
      var init, op := more[..|more| - 1], more[|more| - 1];
      assert (ops + more)[..|ops + more| - 1] == ops + init;
      PrunedNeverChargedAgain(mul, start, ops, init, n);
      RunInv(mul, start, ops + init);
      var before := Run(mul, EMPTY, ops + init);
      StepForward(mul, before, op, Window(start, ops + init), n, low);
      ForwardChains(world, before, Run(mul, EMPTY, ops + more), n, low);
    }
  }

  lemma StepForward(mul: (nat, nat) -> nat, world: World, op: Op, w: nat, n: AccountId, low: int)
    requires Inv(world, w) && (op.Slash? ==> w <= op.report.windowStart <= op.report.slashEra)
    requires op.ClearStash? ==> op.stash != n
    ensures Forward(world, Step(mul, world, op), n, low)
  {
    if op.Slash? { ReportForward(mul, world, op.report, w, n, low); }
  }
}
