/**
 What one report adds to the history, read off the report and the state before it: which slashes it presents to
 whom, what each is charged and paid, and what it hands back.
 */
module ReportTranscript {
  import opened Arith
  import opened Options
  import opened PerThings
  import opened SpanGeometry
  import opened Slashing
  import opened SlashingInvariants
  import opened SlashRewards
  import opened OrderIndependence

  /** Charge k of the history follows from the entries before it: what exceeds the span's largest slash is charged,
      nothing is paid for less than the largest slash, and otherwise half of what its reward leaves unpaid. */
  ghost predicate FollowsHistory(mul: (nat, nat) -> nat, proportion: Perbill, log: seq<Entry>, k: nat)
    requires k < |log|
  {
    log[k].Charge? &&
    var peak, paid := Peak(log[..k], log[k].stash, log[k].span), PaidFor(log[..k], log[k].stash, log[k].span);
    && log[k].issued == (if log[k].amount > peak then log[k].amount - peak else 0)
    && (log[k].amount < peak ==> log[k].paid == 0)
    && (peak <= log[k].amount ==> Abs(2 * log[k].paid - Monus(mul(proportion, log[k].amount), paid)) <= 2)
  }

  /** The entries from position `from` on follow from the history. */
  ghost predicate FollowFrom(mul: (nat, nat) -> nat, proportion: Perbill, log: seq<Entry>, from: nat) {
    forall k :: from <= k < |log| ==> FollowsHistory(mul, proportion, log, k)
  }

  lemma FollowChains(mul: (nat, nat) -> nat, proportion: Perbill, log: seq<Entry>, log': seq<Entry>, from: nat)
    requires log <= log' && FollowFrom(mul, proportion, log, from) && FollowFrom(mul, proportion, log', |log|)
    ensures FollowFrom(mul, proportion, log', from)
  {
    forall k | from <= k < |log'|
      ensures FollowsHistory(mul, proportion, log', k)
    {
      if k < |log| {
        assert log'[..k] == log[..k];
        assert FollowsHistory(mul, proportion, log, k);
      }
    }
  }

  /** One presented slash adds one charge that follows from the history. */
  lemma TouchFollows(mul: (nat, nat) -> nat, world: World, r: Report, stash: AccountId, slash: nat, w: nat)
    requires WithinOne(BILLION, mul) && Inv(world, w) && w <= r.windowStart <= r.slashEra
    ensures var t := Touch(mul, world, r, stash, slash);
            && t.world.log
               == world.log + [Charge(stash, SpanOf(world.st, r.windowStart, stash, r.slashEra), slash, t.issued, t.paid)]
            && FollowFrom(mul, r.rewardProportion, t.world.log, |world.log|)
  {
    assert StashInv(world, stash, w);
    TouchCharges(mul, world, r, stash, slash, w);
    var t, i := Touch(mul, world, r, stash, slash), TargetSpan(world, r, stash);
    assert t.world.log[..|world.log|] == world.log;
    var rec := SpanRecord(Peak(world.log, stash, i), PaidFor(world.log, stash, i));
    if rec.slashed <= slash { RewardIsHalfTheGap(mul, r.rewardProportion, rec, slash); }
    assert FollowsHistory(mul, r.rewardProportion, t.world.log, |world.log|);
  }

  /** Entry e presents to nominator k its era slash so far, raised by what the new fraction adds to the old one in
      its listings up to k, and is what the nominator is charged. */
  ghost predicate ForNominator(mul: (nat, nat) -> nat, st: State, r: Report, prior: Perbill, others: seq<Individual>,
                               k: nat, e: Entry, slashed: (AccountId, nat))
    requires k < |others|
  {
    var n := others[k].who;
    && e.Charge? && e.stash == n && slashed == (n, e.issued)
    && e.amount == EraSlashOf(st, r.slashEra, n) + Share(mul, others[..k + 1], n, r.slash)
                   - Share(mul, others[..k + 1], n, prior)
    && (r.slashEra <= r.now ==> e.span == SpanOf(st, r.windowStart, n, r.slashEra))
  }

  /** The nominators are slashed one after the other, each for its own listing. */
  ghost predicate ForNominators(mul: (nat, nat) -> nat, st: State, r: Report, prior: Perbill, others: seq<Individual>,
                                entries: seq<Entry>, slashed: seq<(AccountId, nat)>) {
    && |entries| == |others| == |slashed|
    && forall k :: 0 <= k < |others| ==> ForNominator(mul, st, r, prior, others, k, entries[k], slashed[k])
  }

  lemma OneMoreNominator(
      mul: (nat, nat) -> nat, st: State, r: Report, prior: Perbill, others: seq<Individual>, entries: seq<Entry>,
      slashed: seq<(AccountId, nat)>, e: Entry, last: (AccountId, nat))
    requires others != [] && ForNominators(mul, st, r, prior, others[..|others| - 1], entries, slashed)
    requires ForNominator(mul, st, r, prior, others, |others| - 1, e, last)
    ensures ForNominators(mul, st, r, prior, others, entries + [e], slashed + [last])
  {
    var init := others[..|others| - 1];
    forall k | 0 <= k < |others|
      ensures ForNominator(mul, st, r, prior, others, k, (entries + [e])[k], (slashed + [last])[k])
    {
      if k < |init| {
        assert init[..k + 1] == others[..k + 1];
        assert ForNominator(mul, st, r, prior, init, k, entries[k], slashed[k]);
      }
    }
  }

  /** The last nominator is presented its era slash, raised by its own listing. */
  lemma LastNominator(mul: (nat, nat) -> nat, world: World, r: Report, prior: Perbill, others: seq<Individual>)
    requires IsProduct(BILLION, mul) && WithinOne(BILLION, mul) && prior <= r.slash && others != []
    requires Inv(world, r.windowStart) && r.windowStart <= r.slashEra
    ensures var before := SlashNominators(mul, world, r, prior, others[..|others| - 1]).world;
            var t := NominatorTouched(mul, before, r, prior, others[|others| - 1]);
            && |t.world.log| == |before.log| + 1 && before.log <= t.world.log
            && FollowFrom(mul, r.rewardProportion, t.world.log, |before.log|)
            && ForNominator(mul, world.st, r, prior, others, |others| - 1, t.world.log[|before.log|],
                            (others[|others| - 1].who, t.issued))
  {
    var init, last := others[..|others| - 1], others[|others| - 1];
    var before := SlashNominators(mul, world, r, prior, init).world;
    SlashNominatorsInv(mul, world, r, prior, init);
    NominatorsTelescope(mul, world, r, prior, init, r.slashEra, last.who);
    assert mul(prior, last.value) <= mul(r.slash, last.value);
    assert others[..|others|] == others;
    var slash := RaisedEraSlash(mul, before.st, r, prior, last);
    var raised := World(WithNominatorSlash(before.st, r.slashEra, last.who, slash), before.log);
    InvReads(before, raised.st, r.windowStart, r.windowStart);
    TouchFollows(mul, raised, r, last.who, slash, r.windowStart);
    if r.slashEra <= r.now {
      NominatorsPeak(mul, world, r, prior, init, last.who, 0);
      assert SpanOf(before.st, r.windowStart, last.who, r.slashEra) == SpanOf(world.st, r.windowStart, last.who, r.slashEra);
    }
  }

  /** The history before, with the nominators but the last, and with the last. */
  lemma EntriesChain(
      mul: (nat, nat) -> nat, st: State, r: Report, prior: Perbill, others: seq<Individual>, log: seq<Entry>,
      log1: seq<Entry>, slashed: seq<(AccountId, nat)>, log2: seq<Entry>, last: (AccountId, nat))
    requires others != [] && log <= log1 <= log2 && |log2| == |log1| + 1
    requires FollowFrom(mul, r.rewardProportion, log1, |log|) && FollowFrom(mul, r.rewardProportion, log2, |log1|)
    requires ForNominators(mul, st, r, prior, others[..|others| - 1], log1[|log|..], slashed)
    requires ForNominator(mul, st, r, prior, others, |others| - 1, log2[|log1|], last)
    ensures FollowFrom(mul, r.rewardProportion, log2, |log|)
    ensures ForNominators(mul, st, r, prior, others, log2[|log|..], slashed + [last])
  {
    FollowChains(mul, r.rewardProportion, log1, log2, |log|);
    OneMoreNominator(mul, st, r, prior, others, log1[|log|..], slashed, log2[|log1|], last);
    assert log2[|log|..] == log1[|log|..] + [log2[|log1|]];
  }

  lemma {:induction false} NominatorsTranscript(
      mul: (nat, nat) -> nat, world: World, r: Report, prior: Perbill, others: seq<Individual>)
    requires IsProduct(BILLION, mul) && WithinOne(BILLION, mul) && prior <= r.slash
    requires Inv(world, r.windowStart) && r.windowStart <= r.slashEra
    ensures var o := SlashNominators(mul, world, r, prior, others);
            && world.log <= o.world.log
            && FollowFrom(mul, r.rewardProportion, o.world.log, |world.log|)
            && ForNominators(mul, world.st, r, prior, others, o.world.log[|world.log|..], o.slashed)
  {
    if others == [] {
      assert world.log[|world.log|..] == [];
    } else {
      var init, last := others[..|others| - 1], others[|others| - 1];
      NominatorsTranscript(mul, world, r, prior, init);
      LastNominator(mul, world, r, prior, others);
      var before := SlashNominators(mul, world, r, prior, init);
      var t := NominatorTouched(mul, before.world, r, prior, last);
      EntriesChain(mul, world.st, r, prior, others, world.log, before.world.log, before.slashed, t.world.log,
                   (last.who, t.issued));
      LastSlashed(mul, world, r, prior, others, before, t);
    }
  }

  lemma LastSlashed(mul: (nat, nat) -> nat, world: World, r: Report, prior: Perbill, others: seq<Individual>,
                    before: Nominated, t: Touched)
    requires others != [] && before == SlashNominators(mul, world, r, prior, others[..|others| - 1])
    requires t == NominatorTouched(mul, before.world, r, prior, others[|others| - 1])
    ensures var o := SlashNominators(mul, world, r, prior, others);
            o.world == t.world && o.slashed == before.slashed + [(others[|others| - 1].who, t.issued)]
  {
  }

  // ---- whole reports

  /** The fraction recorded for the validator in the era of the report. */
  function KnownFraction(st: State, r: Report): Perbill {
    if (r.slashEra, r.stash) in st.validatorSlash then st.validatorSlash[(r.slashEra, r.stash)].0 else 0
  }

  /** Every charge a report adds follows from the history before it. */
  lemma ReportFollowsHistory(mul: (nat, nat) -> nat, world: World, r: Report, w: nat)
    requires IsProduct(BILLION, mul) && WithinOne(BILLION, mul)
    requires Inv(world, w) && w <= r.windowStart <= r.slashEra
    ensures var log' := ComputeSlash(mul, world, r).world.log;
            && world.log <= log'
            && (forall k :: |world.log| <= k < |log'| ==> FollowsHistory(mul, r.rewardProportion, log', k))
  {
    if mul(r.slash, r.exposure.total) != 0 && r.slash > KnownFraction(world.st, r) {
      var world', u := AcceptedReturns(mul, world, r);
      AcceptedTranscript(mul, world, r, w, world', u);
    }
  }

  /** The entries of an accepted report, and the unapplied slash it returns: the validator's share of its own stake,
      then each nominator's raised era slash; each charge is returned under its stash, in order, to no reporter. */
  ghost predicate Presents(mul: (nat, nat) -> nat, st: State, r: Report, first: Entry, rest: seq<Entry>,
                           u: UnappliedSlash) {
    && first.Charge? && first.stash == u.validator == r.stash && first.issued == u.own
    && first.amount == mul(r.slash, r.exposure.own)
    && first.span == SpanOf(st, r.windowStart, r.stash, r.slashEra)
    && ForNominators(mul, st, r, KnownFraction(st, r), r.exposure.others, rest, u.others)
    && u.reporters == []
  }

  lemma AcceptedTranscript(mul: (nat, nat) -> nat, world: World, r: Report, w: nat, world': World, u: UnappliedSlash)
    requires IsProduct(BILLION, mul) && WithinOne(BILLION, mul)
    requires Inv(world, w) && w <= r.windowStart <= r.slashEra
    requires r.slash > KnownFraction(world.st, r) && AcceptedAs(mul, world, r, world', u)
    ensures |world.log| < |world'.log| && world.log <= world'.log
    ensures FollowFrom(mul, r.rewardProportion, world'.log, |world.log|)
    ensures Presents(mul, world.st, r, world'.log[|world.log|], world'.log[|world.log| + 1..], u)
    ensures world'.st.validatorSlash
         == world.st.validatorSlash[(r.slashEra, r.stash) := (r.slash, mul(r.slash, r.exposure.own))]
  {
    var own := mul(r.slash, r.exposure.own);
    var world1 := World(WithValidatorSlash(world.st, r, own), world.log);
    InvReads(world, world1.st, w, w);
    TouchFollows(mul, world1, r, r.stash, own, w);
    TouchInv(mul, world1, r, r.stash, own, w);
    TouchFrame(mul, world1, r, r.stash, own);
    SpansAfterValidator(mul, world, r, w);
    var t := Touch(mul, world1, r, r.stash, own);
    NominatorsPart(mul, t.world, world.st, r, KnownFraction(world.st, r));
    FollowChains(mul, r.rewardProportion, t.world.log, world'.log, |world.log|);
    assert world'.log[|world.log|] == t.world.log[|world.log|];
    assert world'.log[|world.log| + 1..] == world'.log[|t.world.log|..];
  }

  lemma AcceptedReturns(mul: (nat, nat) -> nat, world: World, r: Report) returns (world': World, u: UnappliedSlash)
    requires mul(r.slash, r.exposure.total) != 0 && r.slash > KnownFraction(world.st, r)
    ensures AcceptedAs(mul, world, r, world', u) && ComputeSlash(mul, world, r) == Outcome(world', Some(u))
  {
    var own := mul(r.slash, r.exposure.own);
    var t := Touch(mul, World(WithValidatorSlash(world.st, r, own), world.log), r, r.stash, own);
    var o := SlashNominators(mul, t.world, r, PriorSlash(world.st, r.slashEra, r.stash), r.exposure.others);
    world', u := o.world, UnappliedSlash(r.stash, t.issued, o.slashed, [], t.paid + o.payout);
    AcceptedOutcome(mul, world, r, world', u);
  }

  /** The nominators' entries, read off an earlier state with the same era slashes and spans. */
  lemma NominatorsPart(mul: (nat, nat) -> nat, world: World, st: State, r: Report, prior: Perbill)
    requires IsProduct(BILLION, mul) && WithinOne(BILLION, mul) && prior <= r.slash
    requires Inv(world, r.windowStart) && r.windowStart <= r.slashEra
    requires world.st.nominatorSlash == st.nominatorSlash
    requires r.slashEra <= r.now ==>
               forall n :: SpanOf(world.st, r.windowStart, n, r.slashEra) == SpanOf(st, r.windowStart, n, r.slashEra)
    ensures var o := SlashNominators(mul, world, r, prior, r.exposure.others);
            && world.log <= o.world.log
            && FollowFrom(mul, r.rewardProportion, o.world.log, |world.log|)
            && ForNominators(mul, st, r, prior, r.exposure.others, o.world.log[|world.log|..], o.slashed)
            && o.world.st.validatorSlash == world.st.validatorSlash
  {
    var o := SlashNominators(mul, world, r, prior, r.exposure.others);
    NominatorsTranscript(mul, world, r, prior, r.exposure.others);
    NominatorsTelescope(mul, world, r, prior, r.exposure.others, r.slashEra, r.stash);
    SameNominators(mul, world.st, st, r, prior, o.world.log[|world.log|..], o.slashed);
  }

  /** The validator's touch moves no era up to now to another span. */
  lemma SpansAfterValidator(mul: (nat, nat) -> nat, world: World, r: Report, w: nat)
    requires Inv(world, w) && w <= r.windowStart <= r.slashEra
    ensures var own := mul(r.slash, r.exposure.own);
            var t := Touch(mul, World(WithValidatorSlash(world.st, r, own), world.log), r, r.stash, own).world;
            && t.st.nominatorSlash == world.st.nominatorSlash
            && (r.slashEra <= r.now ==>
                  forall n :: SpanOf(t.st, r.windowStart, n, r.slashEra) == SpanOf(world.st, r.windowStart, n, r.slashEra))
  {
    var own := mul(r.slash, r.exposure.own);
    var world1 := World(WithValidatorSlash(world.st, r, own), world.log);
    TouchFrame(mul, world1, r, r.stash, own);
    if r.slashEra <= r.now {
      InvReads(world, world.st, w, r.windowStart);
      ValidatorTouched(mul, world, r);
    }
  }

  lemma SameNominators(mul: (nat, nat) -> nat, st: State, st': State, r: Report, prior: Perbill,
                       entries: seq<Entry>, slashed: seq<(AccountId, nat)>)
    requires ForNominators(mul, st, r, prior, r.exposure.others, entries, slashed)
    requires st.nominatorSlash == st'.nominatorSlash
    requires r.slashEra <= r.now ==>
               forall n :: SpanOf(st, r.windowStart, n, r.slashEra) == SpanOf(st', r.windowStart, n, r.slashEra)
    ensures ForNominators(mul, st', r, prior, r.exposure.others, entries, slashed)
  {
    var others := r.exposure.others;
    forall k | 0 <= k < |others|
      ensures ForNominator(mul, st', r, prior, others, k, entries[k], slashed[k])
    {
      assert ForNominator(mul, st, r, prior, others, k, entries[k], slashed[k]);
    }
  }

  /** A report is accepted exactly when its fraction takes something and is larger than the one known for the
      validator and era. It then records its fraction and presents the validator's share and each nominator's raised
      era slash; otherwise it charges and returns nothing, and one that takes something changes nothing. */
  lemma ReportPresents(mul: (nat, nat) -> nat, world: World, r: Report, w: nat)
    requires IsProduct(BILLION, mul) && WithinOne(BILLION, mul)
    requires Inv(world, w) && w <= r.windowStart <= r.slashEra
    ensures var o := ComputeSlash(mul, world, r);
            var known := KnownFraction(world.st, r);
            && (o.unapplied.Some? <==> mul(r.slash, r.exposure.total) != 0 && r.slash > known)
            && (o.unapplied.None? ==>
                  && o.world.log == world.log
                  && o.world.st.validatorSlash == world.st.validatorSlash
                  && o.world.st.nominatorSlash == world.st.nominatorSlash
                  && (mul(r.slash, r.exposure.total) != 0 ==> o.world == world))
            && (o.unapplied.Some? ==>
                  && |world.log| < |o.world.log| && world.log <= o.world.log
                  && Presents(mul, world.st, r, o.world.log[|world.log|], o.world.log[|world.log| + 1..], o.unapplied.value)
                  && o.world.st.validatorSlash
                     == world.st.validatorSlash[(r.slashEra, r.stash) := (r.slash, mul(r.slash, r.exposure.own))])
  {
    if mul(r.slash, r.exposure.total) != 0 && r.slash > KnownFraction(world.st, r) {
      var world', u := AcceptedReturns(mul, world, r);
      AcceptedTranscript(mul, world, r, w, world', u);
    } else {
      KickedOutFrame(world.st, r);
    }
  }

  /** A slash that comes for an era whose maxima were cleared counts from zero again; other eras, all spans and all
      records are as before. */
  lemma ClearedEraIsForgotten(st: State, era: nat, e: nat, n: AccountId)
    ensures var st' := EraCleared(st, era);
            && st'.spans == st.spans && st'.records == st.records
            && ((e, n) in st'.validatorSlash <==> e != era && (e, n) in st.validatorSlash)
            && ((e, n) in st'.nominatorSlash <==> e != era && (e, n) in st.nominatorSlash)
            && ((e, n) in st'.validatorSlash ==> st'.validatorSlash[(e, n)] == st.validatorSlash[(e, n)])
            && ((e, n) in st'.nominatorSlash ==> st'.nominatorSlash[(e, n)] == st.nominatorSlash[(e, n)])
  {
  }
}
