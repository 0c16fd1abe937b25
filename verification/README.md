# Staking, slashing, rewards and bridge: a verified model

This project models the deterministic cores of a Substrate chain's staking and rewards and proves what they keep:

- **NPoS slashing.** Per stash a list of contiguous slashing spans, per span the largest slash and the reward set
  aside, per era the maxima of validators and nominators. `SpanGeometry` holds the spans, `Slashing` what a report
  does to the stored metadata (with a history of the slashes presented), `SlashingInvariants`, `SlashRewards`,
  `OrderIndependence` and `ReportTranscript` the theorems, `SlashingPallet` the operations that edit the storage in
  place. `ReportTranscript` says what a report presents, charges and sets aside by the history before it alone.
- **The staking ledger** (`Ledgers`): withdrawing, rebonding and slashing of active and unlocking funds;
  `LedgerSlashes` says what a slash takes, by the arguments of the call; and applying a computed slash to ledgers,
  balances and reporters (`ApplySlash`).
- **Reward arithmetic**: the share pool with borrowed virtual rewards (`RewardPool`, `RewardPoolRuns`,
  `RewardPoolCalls`, `RewardPoolPallet`), the integer logarithm (`Log2`), the sampler of the reward curve
  (`CurvePoints`) and the alternating Taylor series of the inflation (`InflationSeries`). `Log2Accuracy` and
  `InflationAccuracy` say how close the two series come to the logarithm and the exponential, `LogarithmPowers` and
  `InflationLaw` the same in whole powers, without either; `CurveShape` says how the points of the curve are chosen,
  `CurveSegments` and `InflationRange` what follows for the number of segments and the range of the inflation.
- **The bridge** (`Claims`): minting, claiming and burning with limits and fees.

Each component has functions on values that say what a step does, classes or loop methods proved to compute exactly
those functions, and lemmas about the functions over all inputs or all sequences of steps. `Arith`, `Sums`,
`Balances`, `Options` and `PerThings` are shared, and so are, by the modules on accuracy, `Reals`, `Harmonics` (sums of
reciprocals, the reference for the logarithm), `Artanh` (its series), `Powers`, `PowerLaws` (powers and sums of
reciprocals), `Exponentials` (the exponential of such a sum, and the constant ln 2) and `InflationAlgebra`.

Assumptions about libraries that are not part of this model:

- `Perbill` and `Perquintill` times a balance is a parameter `mul`. Where a lemma needs it, `IsProduct` says that it
  is monotone and never exceeds the balance, and `WithinOne` that it is within one unit of the exact product.
  `NearestIsProduct` shows that rounding to the nearest unit meets both. `Perquintill::from_rational` is a parameter
  too; `IsRatio` says that its result is within one part of the exact ratio.
- `FixedU128` has 18 decimals; `checked_from_rational` and `checked_mul_int` round down and fail on overflow of 128 bits.
- The long division of `BigUint` is floor division when the dividend has more limbs than the divisor, and so are
  `div_unit` and the ratio of two fractions.
- A report concerns an era of the bonding window, and the window only moves forward (`Legal`); `now` is free except
  where a lemma fixes it.
- Accounts are numbers, and dispatches are atomic: a failing call leaves no trace.

Where the code does not do what its documentation or the obvious reading promises:

- `frame/staking/src/lib.rs:531-533` says a slash can grow by dust. A proportional slash also grows by rounding:
  every share is rounded by itself, the share of the target at which the amount is reached is taken in full, and a
  remainder left by rounding goes on to older chunks at the full ratio. `ProportionalGrowsIff` says exactly when a
  slash takes more than the amount, `ProportionalGrowsBeyondDustIff` exactly when it takes more than the amount and
  all the dust it swept, and `ProportionalSpillsIff` exactly when an older chunk is reached; all three are for any
  minimum balance. `ProportionalSlashCanRoundUp` is a slash of three that takes four from the affected targets,
  `ProportionalSlashCanOvershoot` a slash of one that takes a thousand from an older chunk.
- `modules/reward-pool/src/lib.rs:185-187` writes off borrowed rewards without touching the pool's totals.
  `ConservationBreaksIff` says exactly which calls break the conservation law. From then on total rewards exceed
  useable plus borrowed ones, for good, and a last holder cannot take all shares out. `DebtIsWrittenOff` is such a run.
- `modules/reward-pool/src/lib.rs:250-251` mints the accrued reward as a signed 128-bit amount that saturates, while
  the pool counts all of it. `SubAccountFollows` says exactly when a call keeps the two in step and `RunSubAccount`
  when a run does; after the run of `MintCanSaturate` they differ, and the last holder's transfers fail.
- Both together decide whether the last holder can leave: `LastHolderLeavesIff` says exactly when, for any run and
  block. The read-only estimate of `modules/reward-pool/src/lib.rs:382-404` ignores the sub-account;
  `PreviewIsRemoval` says exactly when it promises what a removal cannot pay.
- `frame/staking/reward-curve/src/lib.rs:302` subtracts without a check. The loop is modelled on every input that
  parses, with `None` where that subtraction goes below zero. `PointsFailIff` says exactly when that happens in
  terms of the points computed with signed numbers: the first drop exceeds the maximum inflation, or a step other
  than the last more than halves the inflation. Whether a step does depends on where the rounded logarithm puts the
  visited points, so the condition is on those points and not a comparison of the five inputs. Two comparisons
  decide one way each, `SampleableSucceeds` and `LongSegmentFails`; `UnsampleableCanSucceed` and
  `UnsampleableCanFail` are inputs between them, one for each outcome.
- `frame/staking/reward-curve/src/lib.rs:291-292` says the number of segments stays within the maximal piece count.
  `PieceCountIsExceeded` is an input with three segments where two are allowed. What holds for every input that
  parses is `SegmentsWithinPieces`: at most two and a half times the maximal piece count, and hardly more than
  twice where the longest segment is long. A step is as long as the curve allows up to one unit of inflation,
  so it can be little more than half a longest segment, but two in a row are nearly one. `FlatCurveKeepsPieceCount`
  is a condition on the input under which the promise holds. No condition for exactly when it holds is given: how many
  steps there are depends on where the rounded logarithm puts each point.

## Model

| member | source | states |
|---|---|---|
| SpanGeometry.CoveredExactlyOnce | frame/staking/src/slashing.rs:85-89 | every era from the first covered one on lies in exactly one span, the one that is looked up, and its index is live |
| SpanGeometry.SpansDescend | frame/staking/src/slashing.rs:137-151 | the listed spans are contiguous and disjoint, with indices counting down |
| SpanGeometry.NewSpansCover | frame/staking/src/slashing.rs:106-119 | a new record covers exactly the eras from the window's start on, in span 0 |
| SpanGeometry.EndSpanGeometry | frame/staking/src/slashing.rs:124-135 | ending a span keeps the record well formed, its first era and its earliest index |
| SpanGeometry.EndSpanKeepsEras | frame/staking/src/slashing.rs:121-135 | ending a span re-labels no era up to now, covered or not; later eras get the next index |
| SpanGeometry.PruneGeometry | frame/staking/src/slashing.rs:162-181 | pruning keeps the record well formed and covering the window |
| SpanGeometry.PruneKeepsEras | frame/staking/src/slashing.rs:158-181 | pruning against a window re-labels no era of the window |
| SpanGeometry.PruneRangeExact | frame/staking/src/slashing.rs:160-177 | the returned range is exactly the indices that stop being live, and exactly the spans that ended by the window's start |
| SpanGeometry.SlashingSpans.EndSpan | frame/staking/src/slashing.rs:124-135 | edits the record to the ended one; the result says whether anything changed |
| SpanGeometry.SlashingSpans.Iter | frame/staking/src/slashing.rs:138-151 | lists all spans, with no unsigned underflow on well-formed records |
| SpanGeometry.SlashingSpans.Prune | frame/staking/src/slashing.rs:162-181 | edits the record to the pruned one and returns the dropped range |
| SlashingInvariants.RunInv | frame/staking/src/slashing.rs:227-301 | after any sequence of reports and clears every stash's spans are well formed, its records are live and hold the largest slash and the reward of their span, and its charges add up |
| SlashingInvariants.MaxWithinSumAcross | frame/staking/src/slashing.rs:26-42 | over any run, what a stash was charged since its last clear is the sum, over all span indices, pruned ones too, of the largest slash presented to the span |
| SlashingInvariants.ReachableGeometry | frame/staking/src/slashing.rs:91-104 | in every reachable state each era of the window lies in exactly one span of a stash, and no record is outside the live indices |
| SlashingInvariants.TouchCharges | frame/staking/src/slashing.rs:496-538 | a presented slash hits one live span and charges exactly what it exceeds the span's largest slash by |
| SlashingInvariants.TouchEndsHitSpan | frame/staking/src/slashing.rs:275-285 | a slash in the ongoing span ends it, one in an older span does not; the era of the last nonzero slash moves only when something is charged |
| SlashingInvariants.KickedOutEndsHitSpan | frame/staking/src/slashing.rs:305-324 | a report too small to slash ends the ongoing span if the offence is in it, and otherwise changes nothing |
| SlashingInvariants.PrunedNeverChargedAgain | frame/staking/src/slashing.rs:541-556 | after any steps that do not clear a stash, it is never charged for a span before its earliest live one |
| SlashingInvariants.ClearLeavesNoOrphan | frame/staking/src/slashing.rs:567-593 | clearing succeeds exactly when enough spans are allowed for, leaves no record of the stash and keeps those of others |
| SlashingInvariants.ReportReturnsCharges | frame/staking/src/slashing.rs:288-300 | the unapplied slash returned holds exactly what was charged to each stash and set aside as reward |
| ReportTranscript.ReportFollowsHistory | frame/staking/src/slashing.rs:505-538 | every charge a report adds takes what exceeds the span's largest slash presented before, and sets aside nothing if it is below that, else half of what the proportion of it has not paid yet, within one |
| ReportTranscript.ReportPresents | frame/staking/src/slashing.rs:227-301 | a report is accepted exactly when its fraction takes something and is larger than the known one; then it presents the validator's share and each nominator's raised era slash in order and returns those charges, else it charges nothing |
| ReportTranscript.ClearedEraIsForgotten | frame/staking/src/slashing.rs:559-564 | after clearing an era its maxima are gone and those of other eras, spans and records are kept |
| SlashRewards.RewardWithinPeak | frame/staking/src/slashing.rs:511-530 | with one reward proportion, the reward set aside for any span never exceeds that proportion of its largest slash |
| SlashRewards.RewardIsHalfTheGap | frame/staking/src/slashing.rs:69-71 | each report of at least the maximum sets aside half of what is still unpaid, up to rounding |
| OrderIndependence.EraSlashTelescopes | frame/staking/src/slashing.rs:385-399 | the era slash of a nominator is the sum over validators of the largest reported fraction's share of its exposure |
| OrderIndependence.DueIsPresented | frame/staking/src/slashing.rs:401-418 | everything due for an era, as validator or nominator, has been presented to the era's span |
| OrderIndependence.PeakIsDue | frame/staking/src/slashing.rs:506-518 | a span's largest slash that moved is accounted for by what is due for one era of the span |
| OrderIndependence.OrderDoesNotMatter | frame/staking/src/slashing.rs:26-32 | from any reachable state, the same reports in any order and with any repetitions take the same total from every stash |
| SlashingPallet.Pallet.ComputeSlash | frame/staking/src/slashing.rs:227-301 | the storage and the result are those of the functional step, and the invariant is kept |
| SlashingPallet.Pallet.SlashNominators | frame/staking/src/slashing.rs:371-424 | nominators are slashed in order, each charge returned, payouts summed |
| SlashingPallet.Pallet.KickOutIfRecent | frame/staking/src/slashing.rs:305-324 | no charge; the span ends if the offence is recent |
| SlashingPallet.Pallet.ClearStashMetadata | frame/staking/src/slashing.rs:567-593 | on success no span record of the stash is left; on failure nothing changes |
| SlashingPallet.Pallet.ClearEraMetadata | frame/staking/src/slashing.rs:559-564 | the maxima of the era are gone, nothing else |
| SlashingPallet.InspectingSpans.FetchSpans | frame/staking/src/slashing.rs:445-468 | reads the record of a stash or stores a new one |
| SlashingPallet.InspectingSpans.CompareAndUpdateSpanSlash | frame/staking/src/slashing.rs:496-538 | charges the difference to the maximum, sets the reward aside, marks the record as modified exactly when it is |
| SlashingPallet.InspectingSpans.FindEraSpan | frame/staking/src/slashing.rs:488-490 | the first listed span that contains the era |
| SlashingPallet.InspectingSpans.Drop | frame/staking/src/slashing.rs:541-556 | a modified record is pruned and stored and the dropped spans' entries are removed |
| Ledgers.ConsolidateTwice | frame/staking/src/lib.rs:476-502 | withdrawing at an era and later at another is withdrawing at the later one |
| Ledgers.ConsolidateKeeps | frame/staking/src/lib.rs:474-502 | withdrawing lowers the total by exactly what expired and keeps the ledger consistent and sorted |
| Ledgers.TakenIsPrefix | frame/staking/src/lib.rs:507-529 | rebonding takes exactly the smaller of the value and everything, newest first, and leaves a prefix with at most its last chunk reduced |
| Ledgers.RebondCommutesWithConsolidate | frame/staking/src/lib.rs:504-529 | rebonding no more than the unexpired funds commutes with withdrawing the expired ones |
| Ledgers.RunKeepsLedger | frame/staking/src/lib.rs:445-456 | any sequence of withdrawals, rebonds and slashes keeps total equal to active plus unlocking and the chunks sorted |
| Ledgers.SlashKeeps | frame/staking/src/lib.rs:586-622 | a slash keeps the ledger consistent and sorted, leaves no zero chunk, and leaves active at zero or at least the minimum |
| Ledgers.GreedySlashBound | frame/staking/src/lib.rs:559-623 | a slash of at least the affected balance takes at least the smaller of amount and total and less than one minimum balance more; older chunks change only when all affected ones end at zero |
| Ledgers.GreedyOrder | frame/staking/src/lib.rs:607-618 | while something of a target is left, no later target is reached by greedy cuts |
| Ledgers.ProportionalSlashBound | frame/staking/src/lib.rs:585-618 | what the affected targets lose, less the dust swept there, differs from the amount by at most a unit per target plus the affected balance times the ratio's error; the dust is less than a minimum balance per target |
| Ledgers.ProportionalTaken | frame/staking/src/lib.rs:585-618 | a proportional slash takes the cuts of the targets in order up to the first at which they reach the amount, and no others |
| Ledgers.ProportionalGrowsIff | frame/staking/src/lib.rs:531-533 | for any minimum balance a proportional slash takes more than the amount exactly when some cut, in the order of slashing, takes the sum from below the amount to above it |
| Ledgers.ProportionalGrowsBeyondDustIff | frame/staking/src/lib.rs:531-533 | it takes more than the amount and all swept dust exactly when, the cuts so far being short of the amount, the shares up to the next target alone exceed it |
| Ledgers.ProportionalSlashCanRoundUp | frame/staking/src/lib.rs:531-533 | a slash of three that takes four, with no dust and no older chunk |
| Ledgers.ProportionalSpillsIff | frame/staking/src/lib.rs:606-618 | for any minimum balance a proportional slash reaches older chunks exactly when the cuts of the affected targets fall short of the amount and an older chunk has a cut |
| Ledgers.ProportionalSlashCanOvershoot | frame/staking/src/lib.rs:531-533 | a slash of one unit, rounded to nearest, that takes a thousand |
| Ledgers.AffectedStartExact | frame/staking/src/lib.rs:561-566 | the affected chunks are those unbonded after the slash |
| LedgerSlashes.StakeLosesAmount | frame/staking/src/lib.rs:541-623 | for any product and ratio within one unit: a slash of less than what is at stake, active plus chunks unlocking from the era on, takes the amount from it up to one unit per target, one per quintillion at stake, and dust; a larger one leaves nothing of it and takes the amount as far as there is that much, less than a minimum balance over |
| LedgerSlashes.EachTargetLoses | frame/staking/src/lib.rs:559-623 | what each target loses, from what the targets before it lost: nothing once the amount is reached, else its share, or what remains of the amount, and all of it if dust would be left; targets are active first, then chunks from the first affected to the newest, then older ones backwards |
| LedgerSlashes.WithdrawalLeavesLater | frame/staking/src/lib.rs:474-502 | withdrawing keeps the active balance and exactly the chunks that unlock after the era |
| Ledgers.StakingLedger.ConsolidateUnlocked | frame/staking/src/lib.rs:476-502 | the loop computes the withdrawn ledger |
| Ledgers.StakingLedger.Rebond | frame/staking/src/lib.rs:507-529 | the loop computes the rebonded ledger and returns the amount moved |
| Ledgers.StakingLedger.SlashOutOf | frame/staking/src/lib.rs:586-601 | cuts one target, dust included, and keeps the running total and remainder |
| Ledgers.StakingLedger.Slash | frame/staking/src/lib.rs:541-623 | the loops compute the slashed ledger and return the drop of the total |
| ApplySlash.ApplySlashConserves | frame/staking/src/slashing.rs:634-660 | what leaves the stashes goes to reporters or the handler, rewards stay within the payout less what was missing, ledgers lose exactly what was collected or missing |
| ApplySlash.ApplySlashTakes | frame/staking/src/slashing.rs:598-692 | a stash listed once with a ledger of its own, the validator by its own part and each other by its own, has the ledger slashed by that value for the era of the offence and its balance lowered by the drop as far as it goes; any other stash keeps both; every reporter gets one even share per listing |
| ApplySlash.SeizeToOnly | frame/staking/src/slashing.rs:610-630 | only the slashed stash's balance and ledger change; what the balance cannot cover is missing |
| ApplySlash.PayReportersConserves | frame/staking/src/slashing.rs:663-692 | the rewards and what the handler gets make up the imbalance, within the payout |
| ApplySlash.PaidEachShare | frame/staking/src/slashing.rs:679-687 | each reporter gets the even share, nobody else gets anything |
| ApplySlash.Staking.DoSlash | frame/staking/src/slashing.rs:598-631 | takes a slash from one stash and lowers the payout by what is missing |
| ApplySlash.Staking.ApplySlash | frame/staking/src/slashing.rs:634-660 | validator first, then nominators, then reporters, as the functional step |
| ApplySlash.Staking.PayReporters | frame/staking/src/slashing.rs:663-692 | the loop pays even shares and hands over the rest |
| RewardPool.ScaledBounds | modules/reward-pool/src/lib.rs:226-229 | two roundings never exceed the exact product and lose less than 1 + y/10^18 |
| RewardPool.OnlyAddingCanLowerPrice | modules/reward-pool/src/lib.rs:147-210 | removing shares, claiming and accruing never lower the price of a share |
| RewardPool.AddingRoundsPrice | modules/reward-pool/src/lib.rs:315-331 | adding shares never raises the price and lowers it by rounding only |
| RewardPool.NewcomerGainsNothing | modules/reward-pool/src/lib.rs:300-310 | adding and removing shares at one block gains less than 1 + amount/10^18 |
| RewardPool.RemovalPays | modules/reward-pool/src/lib.rs:351-374 | a removal pays nothing or more than the existential reward, touches one account, and clears the debt of an account that leaves |
| RewardPool.ClaimedOnce | modules/reward-pool/src/lib.rs:406-449 | after a claim nothing is left to claim at the same block |
| RewardPoolCalls.WorthIsPart | modules/reward-pool/src/lib.rs:212-240 | what shares are worth is their part of the total rewards, short of it by less than 1 + rewards/10^18 |
| RewardPoolCalls.ClaimPays | modules/reward-pool/src/lib.rs:406-449 | after any run a claim pays exactly what the shares are worth above the debt, which grows by the payment; what is below the existential reward stays; when and how it fails; nothing else changes |
| RewardPoolCalls.ClaimingTwice | modules/reward-pool/src/lib.rs:406-449 | claiming early and again later pays what the later claim pays alone, less at most what is too small to send |
| RewardPoolCalls.RemovalPaysWorth | modules/reward-pool/src/lib.rs:147-210 | after any run removing shares pays what they are worth less their part of the debt, if that exceeds the existential reward; when and how it fails; nothing else changes |
| RewardPoolCalls.AddingBorrowsPrice | modules/reward-pool/src/lib.rs:310-348 | after any run adding shares raises total rewards and the account's debt by the same price of the shares and pays nothing; when it fails |
| RewardPoolRuns.CallKeepsAccounts | modules/reward-pool/src/lib.rs:42-60 | every call keeps total rewards equal to useable plus borrowed plus what was written off so far, and shares add up |
| RewardPoolRuns.ConservationBreaksIff | modules/reward-pool/src/lib.rs:147-194 | a call breaks conservation exactly when the pool can be brought up to date and the call removes shares that carry a debt and are worth no more above it than the existential and the useable rewards |
| RewardPoolRuns.RunKeepsAccounts | modules/reward-pool/src/lib.rs:42-69 | the same over any sequence of calls |
| RewardPoolRuns.RunIsSolvent | modules/reward-pool/src/lib.rs:178-194 | conservation is an equality exactly on the runs that write nothing off, and there the useable rewards cover all outstanding claims |
| RewardPoolRuns.LastHolderLeavesIff | modules/reward-pool/src/lib.rs:176-194 | after any run an account with all the shares can take them out, or claim, at a block exactly when the pool can be brought up to date, nothing was ever written off, and the useable rewards are covered by the sub-account or too small to send; which error it gets otherwise |
| RewardPoolRuns.DebtIsWrittenOff | modules/reward-pool/src/lib.rs:185-187 | a run of three calls that writes off a debt, after which the last holder can neither leave nor claim |
| RewardPoolRuns.SubAccountFollows | modules/reward-pool/src/lib.rs:242-258 | the sub-account moves with the useable rewards exactly when the accrued reward fits a signed 128-bit amount |
| RewardPoolRuns.RunSubAccount | modules/reward-pool/src/lib.rs:52-55 | over any run the sub-account holds at most the useable rewards, and exactly those if and only if every accrual fits |
| RewardPoolRuns.MintCanSaturate | modules/reward-pool/src/lib.rs:250-251 | a run of two calls after which one more is useable than the sub-account holds, and the last holder's transfer fails though nothing was written off |
| RewardPoolRuns.PreviewIsRemoval | modules/reward-pool/src/lib.rs:382-404 | the read-only estimate is what removing all shares at that block pays, except exactly where it exceeds the up-to-date sub-account and the transfer fails |
| RewardPoolRuns.AccrualIsTicking | modules/incentives/src/lib.rs:139-157 | accruing once for many blocks is adding the rate at each block while there are shares |
| RewardPoolRuns.LazyIsEager | modules/reward-pool/src/lib.rs:269-297 | for any update points of any run, the pool brought up to date is the pool that ticked every block |
| RewardPoolPallet.Pallet.UpdatePoolReward | modules/reward-pool/src/lib.rs:242-258 | stores the accrued pool and mints the reward |
| RewardPoolPallet.Pallet.AddShare | modules/reward-pool/src/lib.rs:310-348 | the functional call, with its errors and roll-back |
| RewardPoolPallet.Pallet.RemoveShare | modules/reward-pool/src/lib.rs:351-374 | the functional call, with its errors and roll-back |
| RewardPoolPallet.Pallet.ClaimRewards | modules/reward-pool/src/lib.rs:406-449 | the functional call, with its errors and roll-back |
| Log2.RatioMonotone | frame/staking/reward-curve/src/log.rs:32-70 | a larger ratio never has a smaller logarithm, in spite of truncation |
| Log2.MonotoneAndAntitone | frame/staking/reward-curve/src/log.rs:25-32 | monotone in p, antitone in q |
| Log2.LogarithmAt | frame/staking/reward-curve/src/log.rs:45-57 | for the octave n the result is n million plus the series of the rest, in [n, n+1) million |
| Log2.ScaleInvariant | frame/staking/reward-curve/src/log.rs:27-31 | only the ratio counts |
| Log2.DoublingAddsOne | frame/staking/reward-curve/src/log.rs:27-31 | doubling p adds exactly one million |
| Log2.ProductsFit | frame/staking/reward-curve/src/log.rs:9-23 | no product of the terms leaves 128 bits |
| Log2.TaylorTerm | frame/staking/reward-curve/src/log.rs:9-23 | the loop computes the truncated term |
| Log2.Log2 | frame/staking/reward-curve/src/log.rs:32-70 | both loops terminate and compute the logarithm; two zeros give zero |
| Log2Accuracy.LogarithmIsAccurate | frame/staking/reward-curve/src/log.rs:25-31 | for every ratio up to a million the result is at most 7 millionths below the base-2 logarithm and not above it, where ln is the sum of reciprocals in n steps, up to 1/n, for every fine enough n |
| Log2Accuracy.LogarithmNearlyConvex | frame/staking/reward-curve/src/log.rs:25-31 | the same step down from a smaller number raises the result by as much, up to 14 millionths |
| LogarithmPowers.LogarithmByPowers | frame/staking/reward-curve/src/log.rs:25-31 | the same by whole powers alone: with L the result and M a million, 2^L q^M <= p^M <= 2^(L+7) q^M |
| InflationSeries.DivByStrippedIsFloor | frame/staking/reward-fn/src/lib.rs:193-224 | the division by limb counts, scaled up and down, is floor division |
| InflationSeries.ScaledIsLonger | frame/staking/reward-fn/src/lib.rs:209-214 | the scaled dividend has more limbs than the divisor |
| InflationSeries.NextTermExact | frame/staking/reward-fn/src/lib.rs:163-188 | three rounded divisions are one by k times the squared accuracy |
| InflationSeries.ComputeTaylorSeriePart | frame/staking/reward-fn/src/lib.rs:119-161 | the sign-and-magnitude loop returns the positive part of the exact alternating sum |
| InflationSeries.ResultInRange | frame/staking/reward-fn/src/lib.rs:91-100 | when the first ratio is at most one the result lies within one term of the accuracy, so the fallback is unreachable |
| InflationSeries.FalloffEndsTheLoop | frame/staking/reward-fn/src/lib.rs:129-134 | with a falloff of at least one percent the loop ends on a zero term, at any stake |
| InflationSeries.LibraryAccuraciesSupported | frame/staking/reward-fn/src/lib.rs:65-100 | in Percent, PerU16, Permill, Perbill and Perquintill a falloff of one percent bounds the exponent by 70 |
| InflationAccuracy.SeriesIsExponential | frame/staking/reward-fn/src/lib.rs:114-119 | for exponents up to 70 the rounded, cancelling series differs from the accuracy divided by e^z by at most 150 units, one for every second term, and less than one more |
| Exponentials.ConstantIsLn2 | frame/staking/reward-fn/src/lib.rs:74-79 | the constant divided by 10^18 is at most 10^-18 below and at most one step above the sum of reciprocals from n + 1 to 2n, for every n |
| InflationLaw.InflationIsPower | frame/staking/reward-fn/src/lib.rs:30-101 | past the ideal stake, for every fraction a/b, with e the excess and d the falloff: where 2^e a^d <= b^d the inflation is at least accuracy times a/b less 151 units, and where 2^e a^d >= b^d at most that plus 154 units; so it is accuracy * 2^(-e/d) within these units, for every supported accuracy |
| InflationLaw.FalloffHalves | frame/staking/reward-fn/src/lib.rs:30-53 | at k falloffs past the ideal stake the inflation is the accuracy halved k times, within the same units |
| InflationLaw.InflationElsewhere | frame/staking/reward-fn/src/lib.rs:54-63 | below the ideal stake it is the ratio of the stakes, rounded down; for a falloff of less than one percent it is zero |
| InflationRange.FallbackUnreachable | frame/staking/reward-fn/src/lib.rs:91-100 | so the result is a valid fraction at any such exponent, for every accuracy from Percent on |
| InflationRange.InflationIsSeries | frame/staking/reward-fn/src/lib.rs:65-100 | with a falloff of at least one percent no stake reaches the out-of-range fallback, in Percent, PerU16, Permill, Perbill or Perquintill |
| InflationSeries.ComputeInflation | frame/staking/reward-fn/src/lib.rs:54-101 | computes the inflation that these lemmas are about, a fraction in every case |
| CurvePoints.OppositeAntitone | frame/staking/reward-curve/src/lib.rs:270-283 | lower inflation is reached at no lower a stake, within 32 bits |
| LogarithmPowers.OppositeOnCurve | frame/staking/reward-curve/src/lib.rs:270-283 | the computed stake lies on the curve min + (max - min) 2^((ideal - x) / d), at most eight millionths short: with X for the stake past the ideal one, ((max - min) / (y - min))^d lies between 2^X and 2^(X + 8) |
| CurveShape.ClosingOnChord | frame/staking/reward-curve/src/lib.rs:312-327 | the closing point is the height of the chord at full stake, rounded down |
| CurveShape.PointsAreGreedy | frame/staking/reward-curve/src/lib.rs:286-337 | for every input that parses each point is reached by the largest drop, not above the last one, that keeps both sides within the longest segment, the last one is on the chord at full stake, and the longest segment is the way divided among all pieces but one |
| CurvePoints.SampledShape | frame/staking/reward-curve/src/lib.rs:299-337 | along any falling curve the intended points never go back in stake, always fall, end at full stake, and only a last drop to the minimum may be long |
| CurvePoints.PointsShape | frame/staking/reward-curve/src/lib.rs:286-337 | the same for the reward curve from the ideal stake on, for every input that parses |
| CurvePoints.WalkFailsIff | frame/staking/reward-curve/src/lib.rs:301-333 | the unsigned loop gives the intended points, and falls below zero exactly when the first drop is too large or an intended step but the last more than halves the inflation |
| CurvePoints.PointsFailIff | frame/staking/reward-curve/src/lib.rs:286-337 | the same condition for the reward curve, for every input that parses |
| CurvePoints.SampleableSucceeds | frame/staking/reward-curve/src/lib.rs:293-302 | a longest segment of at most the minimum inflation plus one is enough to succeed |
| CurvePoints.LongSegmentFails | frame/staking/reward-curve/src/lib.rs:293-302 | a longest segment above the maximum inflation always fails |
| CurvePoints.UnsampleableCanSucceed | frame/staking/reward-curve/src/lib.rs:293-302 | between the two an input that succeeds |
| CurvePoints.UnsampleableCanFail | frame/staking/reward-curve/src/lib.rs:293-302 | and one that fails at its second point |
| CurvePoints.SegmentsBound | frame/staking/reward-curve/src/lib.rs:299-336 | each point past the ideal stake is at least one unit of inflation lower, so there are at most as many as units to fall |
| CurveSegments.StepsFitOnWay | frame/staking/reward-curve/src/lib.rs:289-297 | half the steps, each as long as the longest segment less twelve units, fit between the ideal stake and full stake |
| CurveSegments.SegmentsWithinPieces | frame/staking/reward-curve/src/lib.rs:289-297 | for every input that parses there are at most two and a half times as many segments as the maximal piece count, and at most twice as many and one where the longest segment is 13 times the piece count |
| CurveSegments.FlatCurveKeepsPieceCount | frame/staking/reward-curve/src/lib.rs:289-297 | a curve that falls by less than the maximal piece count keeps to it |
| CurvePoints.PieceCountIsExceeded | frame/staking/reward-curve/src/lib.rs:291-292 | an input with more segments than the maximal piece count, and with exactly as many as that bound |
| CurvePoints.FirstStepCanUnderflow | frame/staking/reward-curve/src/lib.rs:293-302 | an accepted input that fails at the first step |
| CurvePoints.ComputeOppositeAfterXIdeal | frame/staking/reward-curve/src/lib.rs:273-283 | computes the stake for an inflation by the integer logarithm |
| CurvePoints.ComputePoints | frame/staking/reward-curve/src/lib.rs:286-337 | on every input that parses the greedy loop terminates, with the intended points or at the failing subtraction |
| Claims.RunConserves | modules/claims/src/lib.rs:439-583 | over any run each transaction is credited at most once and for its recorded amount, credits add up to claimed entries, limits account for what was minted since they were set, issuance moves by credits and fees less burns |
| Claims.OnlyBridgeMints | modules/claims/src/lib.rs:448-470 | every claim a run adds was recorded in it by the network's bridge account, within the limit and for the value less the fee of that moment |
| Claims.OnlySignerClaims | modules/claims/src/lib.rs:485-508 | over any run a recorded claim keeps its address and amount, and if it becomes claimed a step claimed it by that address's signature over the receiver, who got the amount |
| Claims.ClaimLife | modules/claims/src/lib.rs:439-583 | whatever a run records for a transaction was minted for the address the bridge named, and was paid, if at all, in a later step to an account that address had signed for, or was minted and sent in one step |
| Claims.MintSucceedsIff | modules/claims/src/lib.rs:439-583 | minting, sent or not, succeeds exactly for the bridge of the network, a new transaction, a value within the limit and above the fee |
| Claims.MintEffect | modules/claims/src/lib.rs:439-583 | it records the address the bridge named and the value less the fee, or has it sent at once; the limit falls by as much and the fee account gets the fee; nothing else changes |
| Claims.ClaimEffect | modules/claims/src/lib.rs:485-508 | claiming succeeds exactly for a recorded, unclaimed transaction signed by its address for the receiver, who gets the amount; nothing else changes |
| Claims.BurnEffect | modules/claims/src/lib.rs:510-534 | burning succeeds exactly when the fee leaves something and the account keeps the minimum balance; it takes the amount and the fee account gets the fee; nothing else changes |
| Claims.Pallet.DoMintClaim | modules/claims/src/lib.rs:439-483 | the functional step, with its errors in order |
| Claims.Pallet.DoClaim | modules/claims/src/lib.rs:485-508 | the functional step, with its errors in order |
| Claims.Pallet.DoBurn | modules/claims/src/lib.rs:510-534 | the functional step, with its errors in order |
| Claims.Pallet.DoMintAndSendClaim | modules/claims/src/lib.rs:536-583 | the functional step, with its errors in order |

## Left out

- Log2: a zero q below p, which runs into the source's own assertion on n, is excluded by the precondition.
- InflationIsPower: its units allow for one rounding in every second of up to 300 terms, whatever the exponent; for Percent, whose accuracy is 100, they are more than the whole, and only the range and the law below the ideal stake say something.
- ComputeInflation: the division of two fractions and of ln 2 by the accuracy round down; their library code is not part of this model.
- Integer widths of eras, span indices and balances in slashing, the ledger and the bridge: these are unbounded here, and saturation or wrap-around at the top of the type is not modelled.
- Existential deposits on crediting and transferring: a credit below it to a dead account is lost in the library, and here it is not.
- The offending-validators list, chilling, disabling and forced eras: effects outside the slashing metadata.
- The hook that reports slashed chunks to other pallets, and the bound on the number of unlocking chunks.
- Pool identifiers: one pool is modelled, since the storage of different pools does not meet; the symmetric pair key and the pool listing would add only easy members.
- Message construction, hashing and signature recovery in the bridge: recovery is a parameter; unsigned validation repeats the checks of claiming.
- Root-only setters of the bridge are steps without their origin check.
- Elections, bonding calls, migrations, weights, code generation from the curve, the EVM and the node.
