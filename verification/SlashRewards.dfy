/** The reward set aside for a span: half of what is outstanding at each report, and never more in all than the
    reward proportion of the span's largest slash. */
module SlashRewards {
  import opened Arith
  import opened PerThings
  import opened Slashing
  import opened SlashingInvariants

  /** Each report of at least the span's maximum sets aside half of what its reward leaves unpaid, up to rounding. */
  lemma RewardIsHalfTheGap(mul: (nat, nat) -> nat, proportion: Perbill, rec: SpanRecord, slash: nat)
    requires WithinOne(BILLION, mul) && rec.slashed <= slash
    ensures Abs(2 * Reward(mul, proportion, rec, slash) - Monus(mul(proportion, slash), rec.paidOut)) <= 2
  {
    var gap := Monus(mul(proportion, slash), rec.paidOut);
    assert Abs(BILLION * mul(REWARD_F1, gap) - REWARD_F1 * gap) <= BILLION;
  }

  lemma ComparedBounded(mul: (nat, nat) -> nat, proportion: Perbill, rec: SpanRecord, slash: nat)
    requires IsProduct(BILLION, mul) && rec.paidOut <= mul(proportion, rec.slashed)
    ensures Compared(mul, proportion, rec, slash).paidOut <= mul(proportion, Compared(mul, proportion, rec, slash).slashed)
  {
    assert mul(REWARD_F1, Monus(mul(proportion, slash), rec.paidOut)) <= Monus(mul(proportion, slash), rec.paidOut);
    if rec.slashed <= slash { assert mul(proportion, rec.slashed) <= mul(proportion, slash); }
  }

  /** For every span of every stash, pruned ones included, the reward set aside is within the proportion. */
  ghost predicate PaidBounded(mul: (nat, nat) -> nat, proportion: Perbill, log: seq<Entry>) {
    forall n, i :: PaidFor(log, n, i) <= mul(proportion, Peak(log, n, i))
  }

  lemma TouchBounded(mul: (nat, nat) -> nat, world: World, r: Report, stash: AccountId, slash: nat, w: nat)
    requires IsProduct(BILLION, mul) && PaidBounded(mul, r.rewardProportion, world.log)
    requires Inv(world, w) && w <= r.windowStart <= r.slashEra
    ensures PaidBounded(mul, r.rewardProportion, Touch(mul, world, r, stash, slash).world.log)
  {
    assert StashInv(world, stash, w);
    TouchCharges(mul, world, r, stash, slash, w);
    var t, i := Touch(mul, world, r, stash, slash), TargetSpan(world, r, stash);
    AppendCharge(world.log, stash, i, slash, t.issued, t.paid);
    ComparedBounded(mul, r.rewardProportion, SpanRecord(Peak(world.log, stash, i), PaidFor(world.log, stash, i)), slash);
    forall n, j
      ensures PaidFor(t.world.log, n, j) <= mul(r.rewardProportion, Peak(t.world.log, n, j))
    {
      assert PaidFor(world.log, n, j) <= mul(r.rewardProportion, Peak(world.log, n, j));
      if n != stash { AppendOther(world.log, Charge(stash, i, slash, t.issued, t.paid), n); }
    }
  }

  lemma {:induction false} NominatorsBounded(
      mul: (nat, nat) -> nat, world: World, r: Report, prior: Perbill, others: seq<Individual>)
    requires IsProduct(BILLION, mul) && PaidBounded(mul, r.rewardProportion, world.log)
    requires Inv(world, r.windowStart) && r.windowStart <= r.slashEra
    ensures PaidBounded(mul, r.rewardProportion, SlashNominators(mul, world, r, prior, others).world.log)
  {
    if others != [] {
      var before := SlashNominators(mul, world, r, prior, others[..|others| - 1]).world;
      NominatorsBounded(mul, world, r, prior, others[..|others| - 1]);
      SlashNominatorsInv(mul, world, r, prior, others[..|others| - 1]);
      var last := others[|others| - 1];
      var slash := RaisedEraSlash(mul, before.st, r, prior, last);
      var raised := World(WithNominatorSlash(before.st, r.slashEra, last.who, slash), before.log);
      InvReads(before, raised.st, r.windowStart, r.windowStart);
      TouchBounded(mul, raised, r, last.who, slash, r.windowStart);
    }
  }

  lemma ReportBounded(mul: (nat, nat) -> nat, world: World, r: Report, w: nat)
    requires IsProduct(BILLION, mul) && PaidBounded(mul, r.rewardProportion, world.log)
    requires Inv(world, w) && w <= r.windowStart <= r.slashEra
    ensures PaidBounded(mul, r.rewardProportion, ComputeSlash(mul, world, r).world.log)
  {
    var own := mul(r.slash, r.exposure.own);
    var prior := PriorSlash(world.st, r.slashEra, r.stash);
    if mul(r.slash, r.exposure.total) != 0 && r.slash > prior {
      var world1 := World(WithValidatorSlash(world.st, r, own), world.log);
      InvReads(world, world1.st, w, w);
      TouchBounded(mul, world1, r, r.stash, own, w);
      TouchInv(mul, world1, r, r.stash, own, w);
      NominatorsBounded(mul, Touch(mul, world1, r, r.stash, own).world, r, prior, r.exposure.others);
    }
  }

  lemma ClearBounded(mul: (nat, nat) -> nat, proportion: Perbill, log: seq<Entry>, stash: AccountId)
    requires PaidBounded(mul, proportion, log)
    ensures PaidBounded(mul, proportion, log + [Reset(stash)])
  {
    AppendReset(log, stash);
    forall n, i
      ensures PaidFor(log + [Reset(stash)], n, i) <= mul(proportion, Peak(log + [Reset(stash)], n, i))
    {
      assert PaidFor(log, n, i) <= mul(proportion, Peak(log, n, i));
      if n != stash { AppendOther(log, Reset(stash), n); }
    }
  }

  ghost predicate SameProportion(proportion: Perbill, ops: seq<Op>) {
    forall k :: 0 <= k < |ops| && ops[k].Slash? ==> ops[k].report.rewardProportion == proportion
  }

  /** Over any run with one reward proportion, the reward set aside for a span, live or pruned, is at most that
      proportion of the largest slash presented to it. */
  lemma {:induction false} RewardWithinPeak(mul: (nat, nat) -> nat, proportion: Perbill, start: nat, ops: seq<Op>)
    requires IsProduct(BILLION, mul) && SameProportion(proportion, ops) && Legal(start, ops)
    ensures PaidBounded(mul, proportion, Run(mul, EMPTY, ops).log)
  {
    if ops != [] {
      var before, op := ops[..|ops| - 1], ops[|ops| - 1];
      RewardWithinPeak(mul, proportion, start, before);
      RunInv(mul, start, before);
      var world := Run(mul, EMPTY, before);
      match op
      case Slash(r) => ReportBounded(mul, world, r, Window(start, before));
      case ClearEra(_) =>
      case ClearStash(stash, _) => ClearBounded(mul, proportion, world.log, stash);
    }
  }
}
