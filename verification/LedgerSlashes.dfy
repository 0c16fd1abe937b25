/** A slash of a ledger, told by the arguments of the call and the ledgers before and after it. */
module LedgerSlashes {
  import opened Arith
  import opened PerThings
  import opened Ledgers

  /** The balance of the chunks that unlock at the era or later. */
  function SumFrom(chunks: seq<UnlockChunk>, era: nat): nat {
    if chunks == [] then 0
    else
      var last := chunks[|chunks| - 1];
      SumFrom(chunks[..|chunks| - 1], era) + if last.era >= era then last.value else 0
  }

  /** How many they are. */
  function CountFrom(chunks: seq<UnlockChunk>, era: nat): nat {
    if chunks == [] then 0
    else CountFrom(chunks[..|chunks| - 1], era) + if chunks[|chunks| - 1].era >= era then 1 else 0
  }

  /** What was at stake: the active balance and the chunks that unlock at the era or later. */
  function AtStake(l: Ledger, era: nat): nat { l.active + SumFrom(l.unlocking, era) }

  /** The library's ratio of a smaller to a larger balance is one of its fractions, within one part. */
  ghost predicate IsRatio(fromRational: (nat, nat) -> nat) {
    forall a: nat, b: nat :: 0 < a <= b ==>
      fromRational(a, b) <= QUINTILLION && Abs(fromRational(a, b) * b - QUINTILLION * a) <= b
  }

  // ---- the affected chunks are those that unlock late enough

  lemma {:induction false} LateSuffix(chunks: seq<UnlockChunk>, era: nat, start: nat, j: nat)
    requires start <= j <= |chunks|
    requires forall k :: 0 <= k < start ==> chunks[k].era < era
    requires forall k :: start <= k < |chunks| ==> era <= chunks[k].era
    ensures SumFrom(chunks[..j], era) == Sum(chunks[start..j]) && CountFrom(chunks[..j], era) == j - start
  {
    if j > start {
      LateSuffix(chunks, era, start, j - 1);
      assert chunks[..j][..j - 1] == chunks[..j - 1] && chunks[start..j][..j - 1 - start] == chunks[start..j - 1];
    } else {
      assert chunks[start..j] == [];
      NoneLate(chunks, era, start);
    }
  }

  lemma {:induction false} NoneLate(chunks: seq<UnlockChunk>, era: nat, start: nat)
    requires start <= |chunks| && forall k :: 0 <= k < start ==> chunks[k].era < era
    ensures SumFrom(chunks[..start], era) == 0 && CountFrom(chunks[..start], era) == 0
  {
    if start > 0 {
      NoneLate(chunks, era, start - 1);
      assert chunks[..start][..start - 1] == chunks[..start - 1];
    }
  }

  lemma {:induction false} SumFromNonZero(chunks: seq<UnlockChunk>, era: nat)
    ensures SumFrom(NonZero(chunks), era) == SumFrom(chunks, era)
  {
    if chunks != [] {
      var r, last := NonZero(chunks[..|chunks| - 1]), chunks[|chunks| - 1];
      SumFromNonZero(chunks[..|chunks| - 1], era);
      assert (r + [last])[..|r + [last]| - 1] == r;
    }
  }

  lemma LateOnes(chunks: seq<UnlockChunk>, era: nat, start: nat)
    requires start <= |chunks|
    requires forall k :: 0 <= k < start ==> chunks[k].era < era
    requires forall k :: start <= k < |chunks| ==> era <= chunks[k].era
    ensures SumFrom(chunks, era) == Sum(chunks[start..]) && CountFrom(chunks, era) == |chunks| - start
  {
    LateSuffix(chunks, era, start, |chunks|);
    assert chunks[..|chunks|] == chunks && chunks[start..|chunks|] == chunks[start..];
  }

  /** The chunks from the start index on are the late ones, also when values have changed. */
  lemma LateFrom(chunks: seq<UnlockChunk>, after: seq<UnlockChunk>, era: nat)
    requires EraSorted(chunks) && |after| == |chunks|
    requires forall k :: 0 <= k < |chunks| ==> after[k].era == chunks[k].era
    ensures var start := AffectedStart(chunks, era);
            && SumFrom(after, era) == Sum(after[start..])
            && CountFrom(chunks, era) == |chunks| - start
  {
    var start := AffectedStart(chunks, era);
    AffectedStartExact(chunks, era);
    LateOnes(chunks, era, start);
    LateOnes(after, era, start);
  }

  lemma SameEras(l: Ledger, s: SlashInput)
    ensures var r := ChunksAfter(l, s);
            forall k :: 0 <= k < |r| ==> r[k].era == l.unlocking[k].era && r[k].value <= l.unlocking[k].value
  {
    SlashedFromShrinks(l.unlocking, AffectedStart(l.unlocking, s.unlockEra), 0,
                       Monus(s.amount, Cut(RuleFor(l, s), l.active, s.amount)), RuleFor(l, s));
  }

  lemma AtStakeIsAffected(l: Ledger, s: SlashInput)
    requires EraSorted(l.unlocking) && s.amount != 0
    ensures Affected(l, s.unlockEra) == AtStake(l, s.unlockEra)
    ensures AffectedCount(l, s) == 1 + CountFrom(l.unlocking, s.unlockEra)
    ensures AffectedTaken(l, s) == AtStake(l, s.unlockEra) - AtStake(Slashed(l, s), s.unlockEra)
  {
    SameEras(l, s);
    LateFrom(l.unlocking, l.unlocking, s.unlockEra);
    LateFrom(l.unlocking, ChunksAfter(l, s), s.unlockEra);
    SumFromNonZero(ChunksAfter(l, s), s.unlockEra);
  }

  // ---- how much is lost

  /** A slash of less than what was at stake takes that amount from it, up to a unit per target, one more for every
      quintillion at stake, and on the upper side the dust, less than a minimum balance per target. A slash of at least
      what was at stake leaves nothing of it and takes the amount, as far as there is that much, and less than a
      minimum balance more. */
  lemma StakeLosesAmount(l: Ledger, amount: nat, minimum: nat, slashEra: nat, bondingDuration: nat,
                         mul: (nat, nat) -> nat, fromRational: (nat, nat) -> nat)
    requires IsProduct(QUINTILLION, mul) && WithinOne(QUINTILLION, mul) && IsRatio(fromRational)
    requires Consistent(l) && EraSorted(l.unlocking)
    ensures var era := slashEra + 1 + bondingDuration;
            var l' := AfterSlash(l, amount, minimum, slashEra, bondingDuration, mul, fromRational);
            var staked, targets := AtStake(l, era), 1 + CountFrom(l.unlocking, era);
            var lost := staked - AtStake(l', era);
            && (amount == 0 ==> l' == l)
            && (0 < amount < staked ==>
                  && QUINTILLION * (amount - lost) <= QUINTILLION * targets + staked
                  && QUINTILLION * (lost - amount - targets * Monus(minimum, 1)) <= QUINTILLION * targets + staked)
            && (0 < amount && staked <= amount ==>
                  && AtStake(l', era) == 0
                  && Min(amount, l.total) <= l.total - l'.total <= Min(l.total, amount + Max(minimum, 1) - 1))
  {
    if amount != 0 {
      RatioNear(fromRational, amount, Affected(l, slashEra + 1 + bondingDuration));
      StakeLoses(l, InputOf(l, amount, minimum, slashEra + 1 + bondingDuration, mul, fromRational));
    }
  }

  lemma StakeLoses(l: Ledger, s: SlashInput)
    requires IsProduct(QUINTILLION, s.mul) && WithinOne(QUINTILLION, s.mul) && s.amount != 0
    requires Consistent(l) && EraSorted(l.unlocking)
    requires s.amount <= Affected(l, s.unlockEra) ==>
      s.ratio <= QUINTILLION
      && Abs(s.ratio * Affected(l, s.unlockEra) - QUINTILLION * s.amount) <= Affected(l, s.unlockEra)
    ensures var staked, targets := AtStake(l, s.unlockEra), 1 + CountFrom(l.unlocking, s.unlockEra);
            var lost, fall := staked - AtStake(Slashed(l, s), s.unlockEra), l.total - Slashed(l, s).total;
            && (s.amount < staked ==>
                  && QUINTILLION * (s.amount - lost) <= QUINTILLION * targets + staked
                  && QUINTILLION * (lost - s.amount - targets * Monus(s.minimum, 1)) <= QUINTILLION * targets + staked)
            && (staked <= s.amount ==>
                  AtStake(Slashed(l, s), s.unlockEra) == 0
                  && Min(s.amount, l.total) <= fall <= Min(l.total, s.amount + Max(s.minimum, 1) - 1))
  {
    AtStakeIsAffected(l, s);
    if s.amount < AtStake(l, s.unlockEra) { ProportionalStake(l, s); } else { GreedyStake(l, s); }
  }

  lemma RatioNear(fromRational: (nat, nat) -> nat, a: nat, b: nat)
    requires IsRatio(fromRational) && 0 < a
    ensures a <= b ==> fromRational(a, b) <= QUINTILLION && Abs(fromRational(a, b) * b - QUINTILLION * a) <= b
  {
  }

  lemma ProportionalStake(l: Ledger, s: SlashInput)
    requires IsProduct(QUINTILLION, s.mul) && WithinOne(QUINTILLION, s.mul) && s.ratio <= QUINTILLION
    requires Consistent(l) && EraSorted(l.unlocking) && Proportional(l, s)
    requires Abs(s.ratio * Affected(l, s.unlockEra) - QUINTILLION * s.amount) <= Affected(l, s.unlockEra)
    ensures var staked, targets := AtStake(l, s.unlockEra), 1 + CountFrom(l.unlocking, s.unlockEra);
            var lost := staked - AtStake(Slashed(l, s), s.unlockEra);
            && QUINTILLION * (s.amount - lost) <= QUINTILLION * targets + staked
            && QUINTILLION * (lost - s.amount - targets * Monus(s.minimum, 1)) <= QUINTILLION * targets + staked
  {
    AtStakeIsAffected(l, s);
    ProportionalSlashBound(l, s);
    LessDust(AffectedTaken(l, s), Prefix(Dust(l, s), AffectedCount(l, s)), AffectedCount(l, s) * Monus(s.minimum, 1), s.amount,
             QUINTILLION * AffectedCount(l, s) + Affected(l, s.unlockEra));
  }

  lemma LessDust(taken: int, dust: int, most: int, amount: int, error: int)
    requires QUINTILLION * (taken - dust - amount) <= error && dust <= most
    ensures QUINTILLION * (taken - amount - most) <= error
  {
  }

  lemma GreedyStake(l: Ledger, s: SlashInput)
    requires Consistent(l) && EraSorted(l.unlocking) && s.amount != 0 && Affected(l, s.unlockEra) <= s.amount
    ensures AtStake(Slashed(l, s), s.unlockEra) == 0
    ensures Min(s.amount, l.total) <= l.total - Slashed(l, s).total <= Min(l.total, s.amount + Max(s.minimum, 1) - 1)
  {
    GreedySlashBound(l, s);
    GreedyEmptiesStake(l, s);
  }

  /** Greedy cuts leave nothing of what was at stake: either they pass on to older chunks, or all of it is needed. */
  lemma GreedyEmptiesStake(l: Ledger, s: SlashInput)
    requires Consistent(l) && EraSorted(l.unlocking) && s.amount != 0 && Affected(l, s.unlockEra) <= s.amount
    ensures AtStake(Slashed(l, s), s.unlockEra) == 0
  {
    var after, start := ChunksAfter(l, s), AffectedStart(l.unlocking, s.unlockEra);
    GreedySlashBound(l, s);
    SameEras(l, s);
    LateFrom(l.unlocking, after, s.unlockEra);
    SumFromNonZero(after, s.unlockEra);
    if i: nat :| i < start && after[i] != l.unlocking[i] {
      AllZero(after[start..]);
    } else {
      TotalAfter(l, s);
      OlderKept(l, after, start);
    }
  }

  /** With the older chunks as they were, the total drops by what was at stake. */
  lemma OlderKept(l: Ledger, after: seq<UnlockChunk>, start: nat)
    requires Consistent(l) && start <= |l.unlocking| == |after|
    requires forall i :: 0 <= i < start ==> after[i] == l.unlocking[i]
    ensures l.total - Sum(after) == l.active + Sum(l.unlocking[start..]) - Sum(after[start..])
    ensures l.active + Sum(l.unlocking[start..]) <= l.total
  {
    SumSplit(l.unlocking, start);
    SumSplit(after, start);
    assert after[..start] == l.unlocking[..start];
  }

  lemma {:induction false} AllZero(chunks: seq<UnlockChunk>)
    requires forall k :: 0 <= k < |chunks| ==> chunks[k].value == 0
    ensures Sum(chunks) == 0
  {
    if chunks != [] { AllZero(chunks[..|chunks| - 1]); }
  }

  // ---- what each target loses

  /** One target of value v loses v - v'. Nothing when nothing remains of the amount. Otherwise the ratio's share of it, or
      in a slash of everything at stake the remainder, and what is left too if that is less than the minimum. */
  predicate Cuts(v: nat, v': nat, remaining: int, proportional: bool, share: nat, minimum: nat) {
    var asked := if proportional then Min(share, v) else Min(remaining, v);
    v' == if remaining <= 0 then v else if v - asked < minimum then 0 else v - asked
  }

  /** What the targets that come before chunk j have lost: the active balance, then the late chunks from the oldest on,
      then the others from the newest on. */
  function LostBefore(active: nat, active': nat, chunks: seq<UnlockChunk>, after: seq<UnlockChunk>, era: nat,
                      j: nat): int
    requires j < |chunks| == |after|
  {
    active - active' +
    if chunks[j].era >= era then SumFrom(chunks[..j], era) - SumFrom(after[..j], era)
    else Sum(chunks[j + 1..]) - Sum(after[j + 1..])
  }

  /** What positions k..p of the order lose. */
  function LostBetween(chunks: seq<UnlockChunk>, r: seq<UnlockChunk>, start: nat, k: nat, p: nat): int
    requires start <= |chunks| == |r|
  {
    Rest(chunks, start, k) - Rest(chunks, start, p) - (Rest(r, start, k) - Rest(r, start, p))
  }

  /** One cut, and what it leaves for later positions. */
  lemma FirstLoss(chunks: seq<UnlockChunk>, start: nat, k: nat, remaining: nat, rule: Rule)
      returns (next: seq<UnlockChunk>, cut: nat)
    requires start <= |chunks| && k < |chunks| && remaining != 0
    ensures var i := Priority(|chunks|, start, k);
            && cut == Cut(rule, chunks[i].value, remaining)
            && next == chunks[i := chunks[i].(value := chunks[i].value - cut)]
            && SlashedFrom(chunks, start, k, remaining, rule) == SlashedFrom(next, start, k + 1, Monus(remaining, cut), rule)
            && SlashedFrom(chunks, start, k, remaining, rule)[i].value == chunks[i].value - cut
  {
    var i := Priority(|chunks|, start, k);
    cut := Cut(rule, chunks[i].value, remaining);
    next := chunks[i := chunks[i].(value := chunks[i].value - cut)];
    SlashedFromKept(next, start, k + 1, Monus(remaining, cut), rule, k);
  }

  /** What comes before a later position is the cut and what comes before it in the rest. */
  lemma LostAfterFirst(chunks: seq<UnlockChunk>, start: nat, k: nat, p: nat, cut: nat, r: seq<UnlockChunk>)
    requires start <= |chunks| == |r| && k < p < |chunks| && cut <= chunks[Priority(|chunks|, start, k)].value
    requires r[Priority(|chunks|, start, k)].value == chunks[Priority(|chunks|, start, k)].value - cut
    ensures var i := Priority(|chunks|, start, k);
            var next := chunks[i := chunks[i].(value := chunks[i].value - cut)];
            && LostBetween(chunks, r, start, k, p) == cut + LostBetween(next, r, start, k + 1, p)
            && next[Priority(|chunks|, start, p)] == chunks[Priority(|chunks|, start, p)]
  {
    var i := Priority(|chunks|, start, k);
    var c := chunks[i].(value := chunks[i].value - cut);
    PriorityInjective(|chunks|, start, k, p);
    RestUpdate(chunks, start, k, k + 1, c);
    RestUpdate(chunks, start, k, p, c);
  }

  lemma {:induction false} LossAt(chunks: seq<UnlockChunk>, start: nat, k: nat, remaining: nat, rule: Rule, p: nat)
    requires start <= |chunks| && k <= p < |chunks|
    ensures var r := SlashedFrom(chunks, start, k, remaining, rule);
            var i, lost := Priority(|chunks|, start, p), LostBetween(chunks, r, start, k, p);
            && 0 <= lost
            && Cuts(chunks[i].value, r[i].value, remaining - lost, rule.proportional, rule.mul(rule.ratio, chunks[i].value),
                    rule.minimum)
    decreases p - k
  {
    if remaining != 0 {
      var next, cut := FirstLoss(chunks, start, k, remaining, rule);
      if k < p {
        LostAfterFirst(chunks, start, k, p, cut, SlashedFrom(chunks, start, k, remaining, rule));
        LossAt(next, start, k + 1, Monus(remaining, cut), rule, p);
      }
    }
  }

  /** The position of chunk j in the order, and what comes before it. */
  lemma LostBeforeIs(active: nat, active': nat, chunks: seq<UnlockChunk>, after: seq<UnlockChunk>, era: nat,
                     j: nat) returns (p: nat)
    requires EraSorted(chunks) && j < |chunks| == |after|
    requires forall k :: 0 <= k < |chunks| ==> after[k].era == chunks[k].era
    ensures p < |chunks| && Priority(|chunks|, AffectedStart(chunks, era), p) == j
    ensures LostBefore(active, active', chunks, after, era, j)
         == active - active' + LostBetween(chunks, after, AffectedStart(chunks, era), 0, p)
  {
    var start := AffectedStart(chunks, era);
    AffectedStartExact(chunks, era);
    p := if start <= j then j - start else |chunks| - 1 - j;
    BeforeIs(chunks, era, start, j, p);
    BeforeIs(after, era, start, j, p);
  }

  /** The balance that comes before chunk j in the order. */
  lemma BeforeIs(chunks: seq<UnlockChunk>, era: nat, start: nat, j: nat, p: nat)
    requires start <= |chunks| && j < |chunks| && p == if start <= j then j - start else |chunks| - 1 - j
    requires forall k :: 0 <= k < start ==> chunks[k].era < era
    requires forall k :: start <= k < |chunks| ==> era <= chunks[k].era
    ensures Rest(chunks, start, 0) - Rest(chunks, start, p)
         == if chunks[j].era >= era then SumFrom(chunks[..j], era) else Sum(chunks[j + 1..])
  {
    RestBefore(chunks, start, j, p);
    if start <= j { LateSuffix(chunks, era, start, j); }
  }

  lemma RestBefore(chunks: seq<UnlockChunk>, start: nat, j: nat, p: nat)
    requires start <= |chunks| && j < |chunks| && p == if start <= j then j - start else |chunks| - 1 - j
    ensures Rest(chunks, start, 0) - Rest(chunks, start, p)
         == if start <= j then Sum(chunks[start..j]) else Sum(chunks[j + 1..])
  {
    RestIsSum(chunks, start, 0);
    SumSplit(chunks, start);
    if start <= j { RestBeforeLate(chunks, start, j); } else { RestBeforeOlder(chunks, start, j); }
  }

  lemma Slices(chunks: seq<UnlockChunk>, start: nat, j: nat)
    requires start <= j <= |chunks|
    ensures chunks[start..][..j - start] == chunks[start..j]
    ensures chunks[start..][j - start..] == chunks[j..]
  {
  }

  lemma RestBeforeLate(chunks: seq<UnlockChunk>, start: nat, j: nat)
    requires start <= j < |chunks|
    ensures Rest(chunks, start, j - start) == Sum(chunks[start..]) - Sum(chunks[start..j]) + Sum(chunks[..start])
  {
    RestIsSum(chunks, start, j - start);
    SumSplit(chunks[start..], j - start);
    Slices(chunks, start, j);
    assert start + (j - start) == j;
  }

  lemma RestBeforeOlder(chunks: seq<UnlockChunk>, start: nat, j: nat)
    requires j < start <= |chunks|
    ensures Rest(chunks, start, |chunks| - 1 - j) == Sum(chunks) - Sum(chunks[j + 1..])
  {
    RestIsSum(chunks, start, |chunks| - 1 - j);
    SumSplit(chunks, j + 1);
  }

  /** Chunk j keeps its era and loses what follows from the losses of the targets before it. */
  ghost predicate ChunkCut(l: Ledger, active': nat, after: seq<UnlockChunk>, amount: nat, minimum: nat, era: nat,
                           proportional: bool, ratio: nat, mul: (nat, nat) -> nat, j: nat)
    requires j < |l.unlocking| == |after|
  {
    && after[j].era == l.unlocking[j].era
    && Cuts(l.unlocking[j].value, after[j].value, amount - LostBefore(l.active, active', l.unlocking, after, era, j),
            proportional, mul(ratio, l.unlocking[j].value), minimum)
  }

  /** So does every target; the chunks that end at zero are dropped. */
  ghost predicate EachLoses(l: Ledger, l': Ledger, after: seq<UnlockChunk>, amount: nat, minimum: nat, era: nat,
                            proportional: bool, ratio: nat, mul: (nat, nat) -> nat) {
    && l'.unlocking == NonZero(after) && |after| == |l.unlocking|
    && Cuts(l.active, l'.active, amount, proportional, mul(ratio, l.active), minimum)
    && forall j :: 0 <= j < |after| ==> ChunkCut(l, l'.active, after, amount, minimum, era, proportional, ratio, mul, j)
  }

  /** What is taken from each target follows from what the targets before it lost. The chunks that end at zero are
      dropped, the others keep their order and their eras. */
  lemma EachTargetLoses(l: Ledger, amount: nat, minimum: nat, slashEra: nat, bondingDuration: nat,
                        mul: (nat, nat) -> nat, fromRational: (nat, nat) -> nat) returns (after: seq<UnlockChunk>)
    requires Consistent(l) && EraSorted(l.unlocking) && amount != 0
    ensures var era := slashEra + 1 + bondingDuration;
            var l' := AfterSlash(l, amount, minimum, slashEra, bondingDuration, mul, fromRational);
            EachLoses(l, l', after, amount, minimum, era, amount < AtStake(l, era), fromRational(amount, AtStake(l, era)), mul)
  {
    var s := InputOf(l, amount, minimum, slashEra + 1 + bondingDuration, mul, fromRational);
    AtStakeIsAffected(l, s);
    after := ChunksAfter(l, s);
    TargetsLose(l, s, Slashed(l, s), after, amount < AtStake(l, s.unlockEra));
  }

  lemma TargetsLose(l: Ledger, s: SlashInput, l': Ledger, after: seq<UnlockChunk>, proportional: bool)
    requires EraSorted(l.unlocking) && s.amount != 0 && l' == Slashed(l, s) && after == ChunksAfter(l, s)
    requires proportional == (s.amount < Affected(l, s.unlockEra))
    ensures EachLoses(l, l', after, s.amount, s.minimum, s.unlockEra, proportional, s.ratio, s.mul)
  {
    SameEras(l, s);
    forall j | 0 <= j < |after|
      ensures ChunkCut(l, l'.active, after, s.amount, s.minimum, s.unlockEra, proportional, s.ratio, s.mul, j)
    {
      ChunkLoses(l, s, j);
    }
  }

  lemma ChunkLoses(l: Ledger, s: SlashInput, j: nat)
    requires EraSorted(l.unlocking) && s.amount != 0 && j < |l.unlocking|
    ensures Cuts(l.unlocking[j].value, ChunksAfter(l, s)[j].value,
                 s.amount - LostBefore(l.active, Slashed(l, s).active, l.unlocking, ChunksAfter(l, s), s.unlockEra, j),
                 s.amount < Affected(l, s.unlockEra), s.mul(s.ratio, l.unlocking[j].value), s.minimum)
  {
    var start, rule := AffectedStart(l.unlocking, s.unlockEra), RuleFor(l, s);
    SameEras(l, s);
    var p := LostBeforeIs(l.active, Slashed(l, s).active, l.unlocking, ChunksAfter(l, s), s.unlockEra, j);
    LossAt(l.unlocking, start, 0, Monus(s.amount, Cut(rule, l.active, s.amount)), rule, p);
  }

  // ---- withdrawing

  lemma {:induction false} UnexpiredIsLate(chunks: seq<UnlockChunk>, era: nat)
    ensures Sum(Unexpired(chunks, era)) == SumFrom(chunks, era + 1)
  {
    if chunks != [] {
      UnexpiredIsLate(chunks[..|chunks| - 1], era);
      SumAppend(Unexpired(chunks[..|chunks| - 1], era), chunks[|chunks| - 1]);
    }
  }

  /** Withdrawing leaves the active balance and exactly the chunks that unlock after the era. */
  lemma WithdrawalLeavesLater(l: Ledger, era: nat)
    requires Consistent(l)
    ensures var l' := Consolidated(l, era);
            && l'.active == l.active && l'.total == l.active + SumFrom(l.unlocking, era + 1)
            && (forall c :: c in l'.unlocking <==> c in l.unlocking && c.era > era)
  {
    UnexpiredIsLate(l.unlocking, era);
    UnexpiredSum(l.unlocking, era);
    UnexpiredExact(l.unlocking, era);
  }
}
