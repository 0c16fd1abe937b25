/**
 Reports handled at one `now` and one window start charge every stash the same total in whatever order,
 and however often, they arrive.
 */
module OrderIndependence {
  import opened Arith
  import opened Options
  import opened PerThings
  import opened Sums
  import opened SpanGeometry
  import opened Slashing
  import opened SlashingInvariants

  /** The exposure of a validator in an era. */
  type Exposures = (nat, AccountId) -> Exposure

  /** Reports of one moment that agree on who backed whom. */
  ghost predicate SameMoment(exposures: Exposures, reports: seq<Report>, w: nat, now: nat) {
    forall k :: 0 <= k < |reports| ==> FitsMoment(exposures, reports[k], w, now)
  }

  ghost predicate FitsMoment(exposures: Exposures, r: Report, w: nat, now: nat) {
    && r.windowStart == w && r.now == now && w <= r.slashEra <= now
    && r.exposure == exposures(r.slashEra, r.stash)
  }

  function Handled(mul: (nat, nat) -> nat, world: World, reports: seq<Report>): World {
    if reports == [] then world
    else ComputeSlash(mul, Handled(mul, world, reports[..|reports| - 1]), reports[|reports| - 1]).world
  }

  /** What the unapplied slashes returned for the reports take from a stash, in all. */
  function TotalCharged(mul: (nat, nat) -> nat, world: World, reports: seq<Report>, n: AccountId): nat {
    if reports == [] then 0
    else
      var o := ComputeSlash(mul, Handled(mul, world, reports[..|reports| - 1]), reports[|reports| - 1]);
      TotalCharged(mul, world, reports[..|reports| - 1], n)
        + if o.unapplied.Some? then ChargedTo(o.unapplied.value, n) else 0
  }

  // ---- the largest fraction reported

  predicate Effective(mul: (nat, nat) -> nat, r: Report, e: nat, v: AccountId) {
    r.slashEra == e && r.stash == v && mul(r.slash, r.exposure.total) != 0
  }

  /** The largest effective fraction reported for a validator in an era, at least what was known before. */
  function MaxFraction(mul: (nat, nat) -> nat, st: State, reports: seq<Report>, e: nat, v: AccountId): Perbill {
    if reports == [] then PriorSlash(st, e, v)
    else
      var before := MaxFraction(mul, st, reports[..|reports| - 1], e, v);
      var r := reports[|reports| - 1];
      if Effective(mul, r, e, v) && r.slash > before then r.slash else before
  }

  lemma {:induction false} MaxFractionBounds(mul: (nat, nat) -> nat, st: State, reports: seq<Report>, e: nat,
                                             v: AccountId)
    ensures PriorSlash(st, e, v) <= MaxFraction(mul, st, reports, e, v)
    ensures forall r :: r in reports && Effective(mul, r, e, v) ==> r.slash <= MaxFraction(mul, st, reports, e, v)
    ensures MaxFraction(mul, st, reports, e, v) == PriorSlash(st, e, v)
         || exists r :: r in reports && Effective(mul, r, e, v) && r.slash == MaxFraction(mul, st, reports, e, v)
  {
    if reports != [] {
      var before, last := reports[..|reports| - 1], reports[|reports| - 1];
      MaxFractionBounds(mul, st, before, e, v);
      assert reports == before + [last];
      if r :| r in before && Effective(mul, r, e, v) && r.slash == MaxFraction(mul, st, before, e, v) {
        assert r in reports;
      }
      assert last in reports;
    }
  }

  lemma MaxFractionOfSet(mul: (nat, nat) -> nat, st: State, reports: seq<Report>, reports': seq<Report>, e: nat,
                         v: AccountId)
    requires forall r :: r in reports ==> r in reports'
    ensures MaxFraction(mul, st, reports, e, v) <= MaxFraction(mul, st, reports', e, v)
  {
    MaxFractionBounds(mul, st, reports, e, v);
    MaxFractionBounds(mul, st, reports', e, v);
  }

  // ---- telescoping of the nominators' era slashes

  /** What a fraction takes from the exposure of nominator n. */
  function Share(mul: (nat, nat) -> nat, others: seq<Individual>, n: AccountId, p: Perbill): nat {
    if others == [] then 0
    else
      var last := others[|others| - 1];
      Share(mul, others[..|others| - 1], n, p) + if last.who == n then mul(p, last.value) else 0
  }

  lemma {:induction false} ShareMono(mul: (nat, nat) -> nat, others: seq<Individual>, n: AccountId, p: Perbill,
                                     q: Perbill)
    requires IsProduct(BILLION, mul) && p <= q
    ensures Share(mul, others, n, p) <= Share(mul, others, n, q)
  {
    if others != [] { ShareMono(mul, others[..|others| - 1], n, p, q); }
  }

  /** One accepted report raises the era slash by the difference of the shares, and only in its era. */
  lemma {:induction false} NominatorsTelescope(
      mul: (nat, nat) -> nat, world: World, r: Report, prior: Perbill, others: seq<Individual>, e: nat, n: AccountId)
    requires IsProduct(BILLION, mul) && prior <= r.slash
    ensures var st := SlashNominators(mul, world, r, prior, others).world.st;
            && st.validatorSlash == world.st.validatorSlash
            && EraSlashOf(st, e, n) - EraSlashOf(world.st, e, n)
               == if e == r.slashEra then Share(mul, others, n, r.slash) - Share(mul, others, n, prior) else 0
  {
    if others != [] {
      var before := SlashNominators(mul, world, r, prior, others[..|others| - 1]);
      NominatorsTelescope(mul, world, r, prior, others[..|others| - 1], e, n);
      var last := others[|others| - 1];
      var slash := RaisedEraSlash(mul, before.world.st, r, prior, last);
      var st := WithNominatorSlash(before.world.st, r.slashEra, last.who, slash);
      TouchFrame(mul, World(st, before.world.log), r, last.who, slash);
      assert mul(prior, last.value) <= mul(r.slash, last.value);
    }
  }

  lemma KickedOutFrame(st: State, r: Report)
    ensures KickedOut(st, r).validatorSlash == st.validatorSlash
    ensures KickedOut(st, r).nominatorSlash == st.nominatorSlash
  {
  }

  /** The effect of one report on the per-era maxima. */
  lemma ReportMaxima(mul: (nat, nat) -> nat, world: World, r: Report, e: nat, v: AccountId, n: AccountId)
    requires IsProduct(BILLION, mul)
    ensures var st := ComputeSlash(mul, world, r).world.st;
            var prior := PriorSlash(world.st, r.slashEra, r.stash);
            && PriorSlash(st, e, v)
               == (if Effective(mul, r, e, v) && r.slash > PriorSlash(world.st, e, v) then r.slash
                   else PriorSlash(world.st, e, v))
            && EraSlashOf(st, e, n) - EraSlashOf(world.st, e, n)
               == if Effective(mul, r, e, r.stash) && r.slash > prior
                  then Share(mul, r.exposure.others, n, r.slash) - Share(mul, r.exposure.others, n, prior)
                  else 0
  {
    var own := mul(r.slash, r.exposure.own);
    var prior := PriorSlash(world.st, r.slashEra, r.stash);
    KickedOutFrame(world.st, r);
    if mul(r.slash, r.exposure.total) != 0 && r.slash > prior {
      var world1 := World(WithValidatorSlash(world.st, r, own), world.log);
      TouchFrame(mul, world1, r, r.stash, own);
      var t := Touch(mul, world1, r, r.stash, own);
      NominatorsTelescope(mul, t.world, r, prior, r.exposure.others, e, n);
    }
  }

  /** What validator v's reports add to the era slash of n. */
  function Gain(mul: (nat, nat) -> nat, exposures: Exposures, st: State, reports: seq<Report>,
                e: nat, n: AccountId, v: AccountId): int {
    Share(mul, exposures(e, v).others, n, MaxFraction(mul, st, reports, e, v))
      - Share(mul, exposures(e, v).others, n, PriorSlash(st, e, v))
  }

  ghost function Gains(mul: (nat, nat) -> nat, exposures: Exposures, st: State, reports: seq<Report>,
                       validators: set<AccountId>, e: nat, n: AccountId): int {
    SumSet(validators, (v: nat) => Gain(mul, exposures, st, reports, e, n, v))
  }

  ghost predicate Covers(validators: set<AccountId>, reports: seq<Report>) {
    forall k :: 0 <= k < |reports| ==> reports[k].stash in validators
  }

  /** After any reports, the validators' recorded fractions are the largest reported ones, and the era slash
      of a nominator telescopes to the sum over validators of the largest fraction's share of its exposure. */
  lemma {:induction false} EraSlashTelescopes(
      mul: (nat, nat) -> nat, exposures: Exposures, world: World, reports: seq<Report>, w: nat, now: nat,
      validators: set<AccountId>, e: nat, n: AccountId)
    requires IsProduct(BILLION, mul) && SameMoment(exposures, reports, w, now) && Covers(validators, reports)
    ensures var st := Handled(mul, world, reports).st;
            && (forall v :: PriorSlash(st, e, v) == MaxFraction(mul, world.st, reports, e, v))
            && EraSlashOf(st, e, n)
               == EraSlashOf(world.st, e, n) + Gains(mul, exposures, world.st, reports, validators, e, n)
  {
    var f := (v: nat) => Gain(mul, exposures, world.st, reports, e, n, v);
    if reports == [] {
      SumSetZero(validators, f);
    } else {
      var before, r := reports[..|reports| - 1], reports[|reports| - 1];
      EraSlashTelescopes(mul, exposures, world, before, w, now, validators, e, n);
      var world1 := Handled(mul, world, before);
      forall v
        ensures PriorSlash(Handled(mul, world, reports).st, e, v) == MaxFraction(mul, world.st, reports, e, v)
      {
        ReportMaxima(mul, world1, r, e, v, n);
      }
      ReportMaxima(mul, world1, r, e, r.stash, n);
      assert FitsMoment(exposures, r, w, now);
      var g := (v: nat) => Gain(mul, exposures, world.st, before, e, n, v);
      SumSetUpdate(validators, g, f, r.stash);
    }
  }

  // ---- the span of an era does not move

  /** The index of the span that era e of stash n counts towards. */
  function SpanOf(st: State, w: nat, n: AccountId, e: nat): int {
    var span := EraSpan(Fetched(st, n, w), e);
    if span.Some? then span.value.index else -1
  }

  ghost predicate SameSpans(st: State, st': State, w: nat, now: nat) {
    forall n, e :: w <= e <= now ==> SpanOf(st', w, n, e) == SpanOf(st, w, n, e)
  }

  lemma FinishedKeepsSpans(st: State, stash: AccountId, s: Spans, target: int, w: nat, now: nat, changed: bool, e: nat)
    requires Shaped(s, w) && w <= e <= now
    requires stash in st.spans && (changed || st.spans[stash] == s)
    ensures var st' := Finished(st, stash, s, target, now, w, changed);
            && stash in st'.spans
            && EraSpan(s, e).Some? && EraSpan(st'.spans[stash], e).Some?
            && EraSpan(st'.spans[stash], e).value.index == EraSpan(s, e).value.index
  {
    CoveredExactlyOnce(s, e);
    EndSpanGeometry(s, now);
    EndSpanKeepsEras(s, now, e);
    var ended := if target == s.index then EndedSpan(s, now) else s;
    PruneKeepsEras(ended, w, e);
  }

  lemma TouchKeepsSpans(mul: (nat, nat) -> nat, world: World, r: Report, stash: AccountId, slash: nat)
    requires Inv(world, r.windowStart) && r.windowStart <= r.slashEra <= r.now
    ensures SameSpans(world.st, Touch(mul, world, r, stash, slash).world.st, r.windowStart, r.now)
  {
    var s := Fetched(world.st, stash, r.windowStart);
    assert StashInv(world, stash, r.windowStart);
    FetchedInv(world, stash, r.windowStart, r.windowStart);
    CoveredExactlyOnce(s, r.slashEra);
    var i := EraSpan(s, r.slashEra).value.index;
    var st := WithFetched(world.st, stash, r.windowStart);
    var rec := RecordOf(st.records, stash, i);
    var rec' := Compared(mul, r.rewardProportion, rec, slash);
    var written := WithRecord(st, stash, i, rec');
    var stamped := Stamped(s, rec, r.slashEra, slash);
    var t := Touch(mul, world, r, stash, slash);
    TouchFrame(mul, world, r, stash, slash);
    forall n, e | r.windowStart <= e <= r.now
      ensures SpanOf(t.world.st, r.windowStart, n, e) == SpanOf(world.st, r.windowStart, n, e)
    {
      if n == stash {
        FinishedKeepsSpans(written, stash, stamped, i, r.windowStart, r.now, rec' != rec, e);
      } else {
        assert SameFor(world.st, t.world.st, n);
      }
    }
  }

  lemma KickedOutKeepsSpans(world: World, r: Report)
    requires Inv(world, r.windowStart) && r.windowStart <= r.slashEra <= r.now
    ensures SameSpans(world.st, KickedOut(world.st, r), r.windowStart, r.now)
  {
    var s := Fetched(world.st, r.stash, r.windowStart);
    assert StashInv(world, r.stash, r.windowStart);
    FetchedInv(world, r.stash, r.windowStart, r.windowStart);
    CoveredExactlyOnce(s, r.slashEra);
    var st := WithFetched(world.st, r.stash, r.windowStart);
    var i := EraSpan(s, r.slashEra).value.index;
    FinishedFrame(st, r.stash, s, i, r.now, r.windowStart, false);
    forall n, e | r.windowStart <= e <= r.now
      ensures SpanOf(KickedOut(world.st, r), r.windowStart, n, e) == SpanOf(world.st, r.windowStart, n, e)
    {
      if n == r.stash {
        FinishedKeepsSpans(st, r.stash, s, i, r.windowStart, r.now, false, e);
      } else {
        assert SameFor(st, KickedOut(world.st, r), n);
      }
    }
  }

  // ---- what a report does to the peaks

  /** The peak of (n, i) either stays or comes from an amount of at most `bound` presented to span `at`. */
  predicate PeakStep(log: seq<Entry>, log': seq<Entry>, n: AccountId, i: int, hit: bool, at: int, bound: nat) {
    && Peak(log, n, i) <= Peak(log', n, i)
    && (Peak(log', n, i) != Peak(log, n, i) ==> hit && i == at && Peak(log', n, i) <= bound)
  }

  lemma TouchPeak(mul: (nat, nat) -> nat, world: World, r: Report, stash: AccountId, slash: nat, n: AccountId, i: int)
    requires Inv(world, r.windowStart) && r.windowStart <= r.slashEra
    ensures var t := Touch(mul, world, r, stash, slash);
            var at := SpanOf(world.st, r.windowStart, stash, r.slashEra);
            Peak(t.world.log, n, i)
              == if n == stash && i == at then Max(slash, Peak(world.log, n, i)) else Peak(world.log, n, i)
  {
    assert StashInv(world, stash, r.windowStart);
    TouchCharges(mul, world, r, stash, slash, r.windowStart);
    var t := Touch(mul, world, r, stash, slash);
    AppendCharge(world.log, stash, TargetSpan(world, r, stash), slash, t.issued, t.paid);
    if n != stash { AppendOther(world.log, Charge(stash, TargetSpan(world, r, stash), slash, t.issued, t.paid), n); }
  }

  predicate Backs(others: seq<Individual>, n: AccountId) {
    exists k :: 0 <= k < |others| && others[k].who == n
  }

  lemma BacksLast(others: seq<Individual>, n: AccountId)
    requires others != []
    ensures Backs(others, n) <==> Backs(others[..|others| - 1], n) || others[|others| - 1].who == n
  {
    var init := others[..|others| - 1];
    if Backs(others, n) {
      var k :| 0 <= k < |others| && others[k].who == n;
      if k < |others| - 1 { assert init[k].who == n; }
    }
    if Backs(init, n) {
      var k :| 0 <= k < |init| && init[k].who == n;
      assert others[k].who == n;
    }
  }

  /** One nominator: its raised era slash is presented to the span of the era. */
  lemma NominatorTouchedPeak(
      mul: (nat, nat) -> nat, world: World, r: Report, prior: Perbill, nominator: Individual, n: AccountId, i: int)
    requires Inv(world, r.windowStart) && r.windowStart <= r.slashEra <= r.now
    ensures var t := NominatorTouched(mul, world, r, prior, nominator).world;
            && Inv(t, r.windowStart)
            && SameSpans(world.st, t.st, r.windowStart, r.now)
            && (n != nominator.who ==> EraSlashOf(t.st, r.slashEra, n) == EraSlashOf(world.st, r.slashEra, n))
            && EraSlashOf(world.st, r.slashEra, n) <= EraSlashOf(t.st, r.slashEra, n)
            && Peak(t.log, n, i)
               == if n == nominator.who && i == SpanOf(world.st, r.windowStart, n, r.slashEra)
                  then Max(EraSlashOf(t.st, r.slashEra, n), Peak(world.log, n, i)) else Peak(world.log, n, i)
  {
    var slash := RaisedEraSlash(mul, world.st, r, prior, nominator);
    var raised := World(WithNominatorSlash(world.st, r.slashEra, nominator.who, slash), world.log);
    InvReads(world, raised.st, r.windowStart, r.windowStart);
    TouchInv(mul, raised, r, nominator.who, slash, r.windowStart);
    TouchKeepsSpans(mul, raised, r, nominator.who, slash);
    TouchFrame(mul, raised, r, nominator.who, slash);
    TouchPeak(mul, raised, r, nominator.who, slash, n, i);
    forall m, e | r.windowStart <= e <= r.now
      ensures SpanOf(raised.st, r.windowStart, m, e) == SpanOf(world.st, r.windowStart, m, e)
    {
    }
  }

  /** The nominators' part of a report: each backer's final era slash is presented, and nothing larger is. */
  lemma {:induction false} NominatorsPeak(
      mul: (nat, nat) -> nat, world: World, r: Report, prior: Perbill, others: seq<Individual>, n: AccountId, i: int)
    requires Inv(world, r.windowStart) && r.windowStart <= r.slashEra <= r.now
    ensures var o := SlashNominators(mul, world, r, prior, others).world;
            var at := SpanOf(world.st, r.windowStart, n, r.slashEra);
            && Inv(o, r.windowStart)
            && SameSpans(world.st, o.st, r.windowStart, r.now)
            && EraSlashOf(world.st, r.slashEra, n) <= EraSlashOf(o.st, r.slashEra, n)
            && PeakStep(world.log, o.log, n, i, Backs(others, n), at, EraSlashOf(o.st, r.slashEra, n))
            && (Backs(others, n) && i == at ==> EraSlashOf(o.st, r.slashEra, n) <= Peak(o.log, n, i))
  {
    if others != [] {
      var before := SlashNominators(mul, world, r, prior, others[..|others| - 1]).world;
      NominatorsPeak(mul, world, r, prior, others[..|others| - 1], n, i);
      var last := others[|others| - 1];
      NominatorTouchedPeak(mul, before, r, prior, last, n, i);
      assert SlashNominators(mul, world, r, prior, others).world == NominatorTouched(mul, before, r, prior, last).world;
      assert SpanOf(before.st, r.windowStart, n, r.slashEra) == SpanOf(world.st, r.windowStart, n, r.slashEra);
      BacksLast(others, n);
    }
  }

  // ---- whole reports

  /** The report is a new maximum for its era and validator. */
  predicate Accepted(mul: (nat, nat) -> nat, st: State, r: Report) {
    mul(r.slash, r.exposure.total) != 0 && r.slash > PriorSlash(st, r.slashEra, r.stash)
  }

  lemma ReportKeepsSpans(mul: (nat, nat) -> nat, world: World, r: Report)
    requires Inv(world, r.windowStart) && r.windowStart <= r.slashEra <= r.now
    ensures Inv(ComputeSlash(mul, world, r).world, r.windowStart)
    ensures SameSpans(world.st, ComputeSlash(mul, world, r).world.st, r.windowStart, r.now)
    ensures !Accepted(mul, world.st, r) ==> ComputeSlash(mul, world, r).world.log == world.log
  {
    ComputeSlashInv(mul, world, r, r.windowStart);
    if mul(r.slash, r.exposure.total) == 0 {
      KickedOutKeepsSpans(world, r);
    } else if Accepted(mul, world.st, r) {
      AcceptedReport(mul, world, r, r.stash, 0);
    }
  }

  lemma ValidatorTouched(mul: (nat, nat) -> nat, world: World, r: Report)
    requires Inv(world, r.windowStart) && r.windowStart <= r.slashEra <= r.now
    ensures var own := mul(r.slash, r.exposure.own);
            var world1 := World(WithValidatorSlash(world.st, r, own), world.log);
            var t := Touch(mul, world1, r, r.stash, own).world;
            && Inv(world1, r.windowStart) && Inv(t, r.windowStart)
            && SameSpans(world.st, world1.st, r.windowStart, r.now)
            && SameSpans(world.st, t.st, r.windowStart, r.now)
  {
    var own := mul(r.slash, r.exposure.own);
    var world1 := World(WithValidatorSlash(world.st, r, own), world.log);
    InvReads(world, world1.st, r.windowStart, r.windowStart);
    TouchInv(mul, world1, r, r.stash, own, r.windowStart);
    TouchKeepsSpans(mul, world1, r, r.stash, own);
    var t := Touch(mul, world1, r, r.stash, own).world;
    forall n, e | r.windowStart <= e <= r.now
      ensures SpanOf(world1.st, r.windowStart, n, e) == SpanOf(world.st, r.windowStart, n, e)
      ensures SpanOf(t.st, r.windowStart, n, e) == SpanOf(world.st, r.windowStart, n, e)
    {
      assert SpanOf(t.st, r.windowStart, n, e) == SpanOf(world1.st, r.windowStart, n, e);
    }
  }

  /** An accepted report presents the validator's own slash and each backer's era slash, and a peak that
      moves is due to one of the two. */
  lemma AcceptedReport(mul: (nat, nat) -> nat, world: World, r: Report, n: AccountId, i: int)
    requires Inv(world, r.windowStart) && r.windowStart <= r.slashEra <= r.now && Accepted(mul, world.st, r)
    ensures var world' := ComputeSlash(mul, world, r).world;
            var at := SpanOf(world.st, r.windowStart, n, r.slashEra);
            var own := mul(r.slash, r.exposure.own);
            var backs := Backs(r.exposure.others, n);
            && SameSpans(world.st, world'.st, r.windowStart, r.now)
            && EraSlashOf(world.st, r.slashEra, n) <= EraSlashOf(world'.st, r.slashEra, n)
            && Peak(world.log, n, i) <= Peak(world'.log, n, i)
            && (n == r.stash && i == at ==> own <= Peak(world'.log, n, i))
            && (backs && i == at ==> EraSlashOf(world'.st, r.slashEra, n) <= Peak(world'.log, n, i))
            && (Peak(world'.log, n, i) == Peak(world.log, n, i)
                || (n == r.stash && i == at && Peak(world'.log, n, i) <= own)
                || (backs && i == at && Peak(world'.log, n, i) <= EraSlashOf(world'.st, r.slashEra, n)))
  {
    var own := mul(r.slash, r.exposure.own);
    var prior := PriorSlash(world.st, r.slashEra, r.stash);
    var world1 := World(WithValidatorSlash(world.st, r, own), world.log);
    ValidatorTouched(mul, world, r);
    TouchPeak(mul, world1, r, r.stash, own, n, i);
    TouchFrame(mul, world1, r, r.stash, own);
    var t := Touch(mul, world1, r, r.stash, own).world;
    NominatorsPeak(mul, t, r, prior, r.exposure.others, n, i);
    var o := SlashNominators(mul, t, r, prior, r.exposure.others).world;
    assert ComputeSlash(mul, world, r).world == o;
    assert SpanOf(world1.st, r.windowStart, n, r.slashEra) == SpanOf(world.st, r.windowStart, n, r.slashEra);
    assert SpanOf(t.st, r.windowStart, n, r.slashEra) == SpanOf(world.st, r.windowStart, n, r.slashEra);
    forall m, e | r.windowStart <= e <= r.now
      ensures SpanOf(o.st, r.windowStart, m, e) == SpanOf(world.st, r.windowStart, m, e)
    {
      assert SpanOf(o.st, r.windowStart, m, e) == SpanOf(t.st, r.windowStart, m, e);
    }
  }

  lemma {:induction false} HandledInv(
      mul: (nat, nat) -> nat, exposures: Exposures, world: World, reports: seq<Report>, w: nat, now: nat)
    requires SameMoment(exposures, reports, w, now) && Inv(world, w)
    ensures Inv(Handled(mul, world, reports), w)
    ensures SameSpans(world.st, Handled(mul, world, reports).st, w, now)
  {
    if reports != [] {
      var before, r := reports[..|reports| - 1], reports[|reports| - 1];
      HandledInv(mul, exposures, world, before, w, now);
      assert FitsMoment(exposures, r, w, now);
      var world1 := Handled(mul, world, before);
      ReportKeepsSpans(mul, world1, r);
      var world2 := Handled(mul, world, reports);
      forall n, e | w <= e <= now
        ensures SpanOf(world2.st, w, n, e) == SpanOf(world.st, w, n, e)
      {
        assert SpanOf(world2.st, w, n, e) == SpanOf(world1.st, w, n, e);
      }
    }
  }

  // ---- what is due

  /** Some report raised the fraction known for validator v in era e. */
  predicate Raised(mul: (nat, nat) -> nat, st: State, reports: seq<Report>, e: nat, v: AccountId) {
    MaxFraction(mul, st, reports, e, v) > PriorSlash(st, e, v)
  }

  /** Some validator that n backed in era e had its fraction raised. */
  ghost predicate BackedRaise(
      mul: (nat, nat) -> nat, exposures: Exposures, st: State, reports: seq<Report>, e: nat, n: AccountId) {
    exists v :: Raised(mul, st, reports, e, v) && Backs(exposures(e, v).others, n)
  }

  function OwnDue(mul: (nat, nat) -> nat, exposures: Exposures, st: State, reports: seq<Report>, e: nat,
                  n: AccountId): nat {
    mul(MaxFraction(mul, st, reports, e, n), exposures(e, n).own)
  }

  lemma {:induction false} ShareZero(mul: (nat, nat) -> nat, others: seq<Individual>, n: AccountId, p: Perbill)
    requires !Backs(others, n)
    ensures Share(mul, others, n, p) == 0
  {
    if others != [] {
      BacksLast(others, n);
      ShareZero(mul, others[..|others| - 1], n, p);
    }
  }

  /** How the largest fractions and era slashes move when one more report is handled. */
  lemma OneMore(mul: (nat, nat) -> nat, exposures: Exposures, world: World, reports: seq<Report>, w: nat, now: nat,
                e: nat, v: AccountId, n: AccountId)
    requires IsProduct(BILLION, mul) && SameMoment(exposures, reports, w, now) && reports != []
    ensures var before, r := reports[..|reports| - 1], reports[|reports| - 1];
            var world1, world2 := Handled(mul, world, before), Handled(mul, world, reports);
            var accepted := Accepted(mul, world1.st, r);
            && FitsMoment(exposures, r, w, now) && SameMoment(exposures, before, w, now)
            && MaxFraction(mul, world.st, before, e, v) <= MaxFraction(mul, world.st, reports, e, v)
            && (accepted && e == r.slashEra && v == r.stash ==>
                  MaxFraction(mul, world.st, reports, e, v) == r.slash && Raised(mul, world.st, reports, e, v))
            && (!(accepted && e == r.slashEra && v == r.stash) ==>
                  MaxFraction(mul, world.st, reports, e, v) == MaxFraction(mul, world.st, before, e, v))
            && EraSlashOf(world1.st, e, n) <= EraSlashOf(world2.st, e, n)
            && (!(accepted && e == r.slashEra && Backs(r.exposure.others, n)) ==>
                  EraSlashOf(world2.st, e, n) == EraSlashOf(world1.st, e, n))
  {
    var before, r := reports[..|reports| - 1], reports[|reports| - 1];
    var world1 := Handled(mul, world, before);
    assert FitsMoment(exposures, r, w, now);
    forall k | 0 <= k < |before|
      ensures FitsMoment(exposures, before[k], w, now)
    {
      assert FitsMoment(exposures, reports[k], w, now);
    }
    var validators := set k | 0 <= k < |before| :: before[k].stash;
    EraSlashTelescopes(mul, exposures, world, before, w, now, validators, e, n);
    ReportMaxima(mul, world1, r, e, v, n);
    MaxFractionBounds(mul, world.st, before, e, v);
    var prior := PriorSlash(world1.st, r.slashEra, r.stash);
    if r.slash > prior { ShareMono(mul, r.exposure.others, n, prior, r.slash); }
    if !Backs(r.exposure.others, n) {
      ShareZero(mul, r.exposure.others, n, prior);
      ShareZero(mul, r.exposure.others, n, r.slash);
    }
  }

  lemma {:induction false} HandledPeakGrows(
      mul: (nat, nat) -> nat, exposures: Exposures, world: World, reports: seq<Report>, w: nat, now: nat, n: AccountId, i: int)
    requires SameMoment(exposures, reports, w, now) && Inv(world, w)
    ensures Peak(world.log, n, i) <= Peak(Handled(mul, world, reports).log, n, i)
  {
    if reports != [] {
      var before, r := reports[..|reports| - 1], reports[|reports| - 1];
      HandledPeakGrows(mul, exposures, world, before, w, now, n, i);
      HandledInv(mul, exposures, world, before, w, now);
      assert FitsMoment(exposures, r, w, now);
      var world1 := Handled(mul, world, before);
      ReportKeepsSpans(mul, world1, r);
      if Accepted(mul, world1.st, r) { AcceptedReport(mul, world1, r, n, i); }
    }
  }

  /** Everything due for an era has been presented to the era's span. */
  lemma {:induction false} DueIsPresented(
      mul: (nat, nat) -> nat, exposures: Exposures, world: World, reports: seq<Report>, w: nat, now: nat,
      n: AccountId, e: nat)
    requires IsProduct(BILLION, mul) && SameMoment(exposures, reports, w, now) && Inv(world, w) && w <= e <= now
    ensures var world2 := Handled(mul, world, reports);
            var peak := Peak(world2.log, n, SpanOf(world.st, w, n, e));
            && (Raised(mul, world.st, reports, e, n) ==> OwnDue(mul, exposures, world.st, reports, e, n) <= peak)
            && (BackedRaise(mul, exposures, world.st, reports, e, n) ==> EraSlashOf(world2.st, e, n) <= peak)
  {
    if reports != [] {
      var before, r := reports[..|reports| - 1], reports[|reports| - 1];
      var world1, world2 := Handled(mul, world, before), Handled(mul, world, reports);
      var at := SpanOf(world.st, w, n, e);
      OneMore(mul, exposures, world, reports, w, now, e, n, n);
      HandledInv(mul, exposures, world, before, w, now);
      DueIsPresented(mul, exposures, world, before, w, now, n, e);
      ReportKeepsSpans(mul, world1, r);
      assert SpanOf(world1.st, w, n, e) == at;
      if Accepted(mul, world1.st, r) { AcceptedReport(mul, world1, r, n, at); }
      if BackedRaise(mul, exposures, world.st, reports, e, n) {
        var v :| Raised(mul, world.st, reports, e, v) && Backs(exposures(e, v).others, n);
        OneMore(mul, exposures, world, reports, w, now, e, v, n);
      }
    }
  }

  /** Era e accounts for the peak of stash n. */
  ghost predicate Accounts(mul: (nat, nat) -> nat, exposures: Exposures, st: State, reports: seq<Report>,
                           w: nat, n: AccountId, i: int, e: nat, eraSlash: nat, peak: nat) {
    && SpanOf(st, w, n, e) == i
    && (|| (Raised(mul, st, reports, e, n) && peak <= OwnDue(mul, exposures, st, reports, e, n))
        || (BackedRaise(mul, exposures, st, reports, e, n) && peak <= eraSlash))
  }

  /** A peak that moved is accounted for by what is due for some era of its span. */
  lemma {:induction false} PeakIsDue(
      mul: (nat, nat) -> nat, exposures: Exposures, world: World, reports: seq<Report>, w: nat, now: nat,
      n: AccountId, i: int) returns (e: nat)
    requires IsProduct(BILLION, mul) && SameMoment(exposures, reports, w, now) && Inv(world, w)
    ensures var world2 := Handled(mul, world, reports);
            Peak(world2.log, n, i) != Peak(world.log, n, i) ==>
              w <= e <= now
              && Accounts(mul, exposures, world.st, reports, w, n, i, e, EraSlashOf(world2.st, e, n), Peak(world2.log, n, i))
  {
    e := w;
    if reports != [] {
      var before, r := reports[..|reports| - 1], reports[|reports| - 1];
      var world1, world2 := Handled(mul, world, before), Handled(mul, world, reports);
      HandledInv(mul, exposures, world, before, w, now);
      e := PeakIsDue(mul, exposures, world, before, w, now, n, i);
      assert FitsMoment(exposures, r, w, now);
      ReportKeepsSpans(mul, world1, r);
      if Peak(world2.log, n, i) == Peak(world1.log, n, i) {
        if Peak(world2.log, n, i) != Peak(world.log, n, i) {
          OneMore(mul, exposures, world, reports, w, now, e, n, n);
          assert OwnDue(mul, exposures, world.st, before, e, n) <= OwnDue(mul, exposures, world.st, reports, e, n);
          if BackedRaise(mul, exposures, world.st, before, e, n) {
            var v :| Raised(mul, world.st, before, e, v) && Backs(exposures(e, v).others, n);
            OneMore(mul, exposures, world, reports, w, now, e, v, n);
            assert Raised(mul, world.st, reports, e, v);
          }
        }
      } else {
        e := r.slashEra;
        AcceptedReport(mul, world1, r, n, i);
        assert SpanOf(world1.st, w, n, e) == SpanOf(world.st, w, n, e);
        OneMore(mul, exposures, world, reports, w, now, e, r.stash, n);
        assert Raised(mul, world.st, reports, e, r.stash);
      }
    }
  }

  // ---- the same reports in another order

  lemma GainsOfSet(mul: (nat, nat) -> nat, exposures: Exposures, st: State, reports: seq<Report>, reports': seq<Report>,
                   validators: set<AccountId>, e: nat, n: AccountId)
    requires forall r :: r in reports <==> r in reports'
    ensures Gains(mul, exposures, st, reports, validators, e, n) == Gains(mul, exposures, st, reports', validators, e, n)
  {
    forall v
      ensures MaxFraction(mul, st, reports, e, v) == MaxFraction(mul, st, reports', e, v)
    {
      MaxFractionOfSet(mul, st, reports, reports', e, v);
      MaxFractionOfSet(mul, st, reports', reports, e, v);
    }
    SumSetSame(validators, (v: nat) => Gain(mul, exposures, st, reports, e, n, v),
               (v: nat) => Gain(mul, exposures, st, reports', e, n, v));
  }

  /** The per-era maxima do not depend on the order of the reports. */
  lemma SameMaxima(mul: (nat, nat) -> nat, exposures: Exposures, world: World, reports: seq<Report>,
                   reports': seq<Report>,
                   w: nat, now: nat, e: nat, n: AccountId)
    requires IsProduct(BILLION, mul) && SameMoment(exposures, reports, w, now)
    requires SameMoment(exposures, reports', w, now)
    requires forall r :: r in reports <==> r in reports'
    ensures EraSlashOf(Handled(mul, world, reports).st, e, n) == EraSlashOf(Handled(mul, world, reports').st, e, n)
    ensures forall v :: MaxFraction(mul, world.st, reports, e, v) == MaxFraction(mul, world.st, reports', e, v)
  {
    var validators := set r | r in reports :: r.stash;
    forall k | 0 <= k < |reports'|
      ensures reports'[k].stash in validators
    {
      assert reports'[k] in reports;
    }
    EraSlashTelescopes(mul, exposures, world, reports, w, now, validators, e, n);
    EraSlashTelescopes(mul, exposures, world, reports', w, now, validators, e, n);
    GainsOfSet(mul, exposures, world.st, reports, reports', validators, e, n);
    forall v
      ensures MaxFraction(mul, world.st, reports, e, v) == MaxFraction(mul, world.st, reports', e, v)
    {
      MaxFractionOfSet(mul, world.st, reports, reports', e, v);
      MaxFractionOfSet(mul, world.st, reports', reports, e, v);
    }
  }

  lemma PeakOfSet(mul: (nat, nat) -> nat, exposures: Exposures, world: World, reports: seq<Report>,
                  reports': seq<Report>,
                  w: nat, now: nat, n: AccountId, i: int)
    requires IsProduct(BILLION, mul) && SameMoment(exposures, reports, w, now)
    requires SameMoment(exposures, reports', w, now)
    requires (forall r :: r in reports <==> r in reports') && Inv(world, w)
    ensures Peak(Handled(mul, world, reports).log, n, i) <= Peak(Handled(mul, world, reports').log, n, i)
  {
    HandledPeakGrows(mul, exposures, world, reports', w, now, n, i);
    var e := PeakIsDue(mul, exposures, world, reports, w, now, n, i);
    if Peak(Handled(mul, world, reports).log, n, i) != Peak(world.log, n, i) {
      SameMaxima(mul, exposures, world, reports, reports', w, now, e, n);
      DueIsPresented(mul, exposures, world, reports', w, now, n, e);
      if BackedRaise(mul, exposures, world.st, reports, e, n) {
        var v :| Raised(mul, world.st, reports, e, v) && Backs(exposures(e, v).others, n);
        assert Raised(mul, world.st, reports', e, v);
      }
    }
  }

  lemma {:induction false} SumPeaksSame(log: seq<Entry>, log': seq<Entry>, n: AccountId, k: int)
    requires forall i :: Peak(log, n, i) == Peak(log', n, i)
    ensures SumPeaks(log, n, k) == SumPeaks(log', n, k)
    decreases k
  {
    if k > 0 { SumPeaksSame(log, log', n, k - 1); }
  }

  lemma IssuedIsSum(world: World, n: AccountId, w: nat, k: int)
    requires Inv(world, w) && (n in world.st.spans ==> world.st.spans[n].index < k)
    ensures Issued(world.log, n) == SumPeaks(world.log, n, k)
  {
    assert StashInv(world, n, w);
    if n in world.st.spans {
      SumPeaksTail(world.log, n, world.st.spans[n].index + 1, k);
    } else if k > 0 {
      SumPeaksTail(world.log, n, 0, k);
    }
  }

  lemma {:induction false} TotalIsIssued(
      mul: (nat, nat) -> nat, exposures: Exposures, world: World, reports: seq<Report>, w: nat, now: nat, n: AccountId)
    requires SameMoment(exposures, reports, w, now) && Inv(world, w)
    ensures TotalCharged(mul, world, reports, n) == Issued(Handled(mul, world, reports).log, n) - Issued(world.log, n)
  {
    if reports != [] {
      var before, r := reports[..|reports| - 1], reports[|reports| - 1];
      TotalIsIssued(mul, exposures, world, before, w, now, n);
      HandledInv(mul, exposures, world, before, w, now);
      assert FitsMoment(exposures, r, w, now);
      ReportReturnsCharges(mul, Handled(mul, world, before), r, w, n);
    }
  }

  lemma OrderDoesNotMatterFrom(
      mul: (nat, nat) -> nat, exposures: Exposures, world: World, reports: seq<Report>, reports': seq<Report>,
      w: nat, now: nat, n: AccountId)
    requires IsProduct(BILLION, mul) && SameMoment(exposures, reports, w, now)
    requires SameMoment(exposures, reports', w, now)
    requires (forall r :: r in reports <==> r in reports') && Inv(world, w)
    ensures TotalCharged(mul, world, reports, n) == TotalCharged(mul, world, reports', n)
  {
    var a, b := Handled(mul, world, reports), Handled(mul, world, reports');
    HandledInv(mul, exposures, world, reports, w, now);
    HandledInv(mul, exposures, world, reports', w, now);
    TotalIsIssued(mul, exposures, world, reports, w, now, n);
    TotalIsIssued(mul, exposures, world, reports', w, now, n);
    var k := 1 + (if n in a.st.spans then a.st.spans[n].index else 0)
               + (if n in b.st.spans then b.st.spans[n].index else 0);
    IssuedIsSum(a, n, w, k);
    IssuedIsSum(b, n, w, k);
    forall i
      ensures Peak(a.log, n, i) == Peak(b.log, n, i)
    {
      PeakOfSet(mul, exposures, world, reports, reports', w, now, n, i);
      PeakOfSet(mul, exposures, world, reports', reports, w, now, n, i);
    }
    SumPeaksSame(a.log, b.log, n, k);
  }

  /** Order independence: from any reachable state, two lists with the same reports, in any order and with
      any repetitions, take the same total from every stash. */
  lemma OrderDoesNotMatter(
      mul: (nat, nat) -> nat, exposures: Exposures, start: nat, ops: seq<Op>, reports: seq<Report>, reports': seq<Report>,
      w: nat, now: nat, n: AccountId)
    requires IsProduct(BILLION, mul) && Legal(start, ops) && Window(start, ops) <= w
    requires SameMoment(exposures, reports, w, now) && SameMoment(exposures, reports', w, now)
    requires forall r :: r in reports <==> r in reports'
    ensures var world := Run(mul, EMPTY, ops);
            TotalCharged(mul, world, reports, n) == TotalCharged(mul, world, reports', n)
  {
    var world := Run(mul, EMPTY, ops);
    RunInv(mul, start, ops);
    InvReads(world, world.st, Window(start, ops), w);
    OrderDoesNotMatterFrom(mul, exposures, world, reports, reports', w, now, n);
  }
}
