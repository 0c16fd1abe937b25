/**
 What a slash report does to the stored slashing metadata, as functions on values, with a history of
 the slashes presented. The methods of SlashingPallet are proved against these functions.
 */
module Slashing {
  import opened Arith
  import opened Options
  import opened SpanGeometry

  type AccountId = nat

  const BILLION: nat := 1_000_000_000

  /** A fraction in parts per billion. */
  type Perbill = p: nat | p <= 1_000_000_000

  const REWARD_F1: Perbill := 500_000_000

  /** The largest slash of a span and the reward already paid for it. */
  datatype SpanRecord = SpanRecord(slashed: nat, paidOut: nat)

  type Records = map<(AccountId, int), SpanRecord>

  datatype State = State(
    spans: map<AccountId, Spans>,
    records: Records,
    validatorSlash: map<(nat, AccountId), (Perbill, nat)>,
    nominatorSlash: map<(nat, AccountId), nat>)

  datatype Individual = Individual(who: AccountId, value: nat)

  datatype Exposure = Exposure(total: nat, own: nat, others: seq<Individual>)

  datatype Report = Report(
    stash: AccountId,
    slash: Perbill,
    exposure: Exposure,
    slashEra: nat,
    windowStart: nat,
    now: nat,
    rewardProportion: Perbill)

  datatype UnappliedSlash = UnappliedSlash(
    validator: AccountId,
    own: nat,
    others: seq<(AccountId, nat)>,
    reporters: seq<AccountId>,
    payout: nat)

  /** History: `amount` was presented to a span of a stash, `issued` was charged and `paid` set aside as
      reward; or the stash's metadata was cleared. */
  datatype Entry =
    | Charge(stash: AccountId, span: int, amount: nat, issued: nat, paid: nat)
    | Reset(stash: AccountId)

  datatype World = World(st: State, log: seq<Entry>)

  // ---- one stash

  function RecordOf(records: Records, stash: AccountId, i: int): SpanRecord {
    if (stash, i) in records then records[(stash, i)] else SpanRecord(0, 0)
  }

  function Fetched(st: State, stash: AccountId, windowStart: nat): Spans {
    if stash in st.spans then st.spans[stash] else NewSpans(windowStart)
  }

  function WithFetched(st: State, stash: AccountId, windowStart: nat): State {
    st.(spans := st.spans[stash := Fetched(st, stash, windowStart)])
  }

  /** The reward for a slash that is at least the span's maximum. */
  function Reward(mul: (nat, nat) -> nat, proportion: Perbill, rec: SpanRecord, slash: nat): nat {
    if rec.slashed <= slash then mul(REWARD_F1, Monus(mul(proportion, slash), rec.paidOut)) else 0
  }

  function Compared(mul: (nat, nat) -> nat, proportion: Perbill, rec: SpanRecord, slash: nat): SpanRecord {
    SpanRecord(Max(rec.slashed, slash), rec.paidOut + Reward(mul, proportion, rec, slash))
  }

  function Stamped(s: Spans, rec: SpanRecord, era: nat, slash: nat): Spans {
    if rec.slashed < slash then s.(lastNonzeroSlash := Max(s.lastNonzeroSlash, era)) else s
  }

  function WithRecord(st: State, stash: AccountId, i: int, rec: SpanRecord): State {
    if rec == RecordOf(st.records, stash, i) then st else st.(records := st.records[(stash, i) := rec])
  }

  function WithoutRange(records: Records, stash: AccountId, range: Option<(int, int)>): Records {
    map k | k in records && !(k.0 == stash && range.Some? && range.value.0 <= k.1 < range.value.1) :: records[k]
  }

  /** Closing a modified record: prune it against the window and write it back. */
  function Dropped(st: State, stash: AccountId, s: Spans, windowStart: nat): State {
    st.(spans := st.spans[stash := PrunedSpans(s, windowStart)],
        records := WithoutRange(st.records, stash, PrunedRange(s, windowStart)))
  }

  /** Ends the span when it is the current one that was hit, then closes the record. */
  function Finished(st: State, stash: AccountId, s: Spans, target: int, now: nat, windowStart: nat,
                    changed: bool): State {
    var ended := if target == s.index then EndedSpan(s, now) else s;
    if changed || ended != s then Dropped(st, stash, ended, windowStart) else st
  }

  datatype Touched = Touched(world: World, issued: nat, paid: nat)

  /** Presents a slash to one stash: compare with the span's maximum, charge the difference, end the span. */
  function Touch(mul: (nat, nat) -> nat, world: World, r: Report, stash: AccountId, slash: nat): Touched {
    var s := Fetched(world.st, stash, r.windowStart);
    var st := WithFetched(world.st, stash, r.windowStart);
    match EraSpan(s, r.slashEra)
    case None => Touched(World(st, world.log), 0, 0)
    case Some(span) =>
      var rec := RecordOf(st.records, stash, span.index);
      var rec' := Compared(mul, r.rewardProportion, rec, slash);
      var st' := Finished(WithRecord(st, stash, span.index, rec'), stash, Stamped(s, rec, r.slashEra, slash),
                          span.index, r.now, r.windowStart, rec' != rec);
      var issued, paid := Monus(slash, rec.slashed), Reward(mul, r.rewardProportion, rec, slash);
      Touched(World(st', world.log + [Charge(stash, span.index, slash, issued, paid)]), issued, paid)
  }

  // ---- one report

  function EraSlashOf(st: State, era: nat, who: AccountId): nat {
    if (era, who) in st.nominatorSlash then st.nominatorSlash[(era, who)] else 0
  }

  function PriorSlash(st: State, era: nat, validator: AccountId): Perbill {
    if (era, validator) in st.validatorSlash then st.validatorSlash[(era, validator)].0 else 0
  }

  /** The era slash of a nominator grows by what the new fraction adds to the old one. */
  function RaisedEraSlash(mul: (nat, nat) -> nat, st: State, r: Report, prior: Perbill, nominator: Individual): nat {
    EraSlashOf(st, r.slashEra, nominator.who)
      + Monus(mul(r.slash, nominator.value), mul(prior, nominator.value))
  }

  function WithNominatorSlash(st: State, era: nat, who: AccountId, slash: nat): State {
    st.(nominatorSlash := st.nominatorSlash[(era, who) := slash])
  }

  function NominatorTouched(mul: (nat, nat) -> nat, world: World, r: Report, prior: Perbill,
                            nominator: Individual): Touched {
    var slash := RaisedEraSlash(mul, world.st, r, prior, nominator);
    Touch(mul, World(WithNominatorSlash(world.st, r.slashEra, nominator.who, slash), world.log), r, nominator.who, slash)
  }

  datatype Nominated = Nominated(world: World, slashed: seq<(AccountId, nat)>, payout: nat)

  function SlashNominators(mul: (nat, nat) -> nat, world: World, r: Report, prior: Perbill,
                           others: seq<Individual>): Nominated {
    if others == [] then Nominated(world, [], 0)
    else
      var last := others[|others| - 1];
      var before := SlashNominators(mul, world, r, prior, others[..|others| - 1]);
      var t := NominatorTouched(mul, before.world, r, prior, last);
      Nominated(t.world, before.slashed + [(last.who, t.issued)], before.payout + t.paid)
  }

  /** Ends the validator's current span if the offence is in it; no slash. */
  function KickedOut(st: State, r: Report): State {
    var s := Fetched(st, r.stash, r.windowStart);
    var fetched := WithFetched(st, r.stash, r.windowStart);
    match EraSpan(s, r.slashEra)
    case None => fetched
    case Some(span) => Finished(fetched, r.stash, s, span.index, r.now, r.windowStart, false)
  }

  function WithValidatorSlash(st: State, r: Report, own: nat): State {
    st.(validatorSlash := st.validatorSlash[(r.slashEra, r.stash) := (r.slash, own)])
  }

  datatype Outcome = Outcome(world: World, unapplied: Option<UnappliedSlash>)

  function ComputeSlash(mul: (nat, nat) -> nat, world: World, r: Report): Outcome {
    var own := mul(r.slash, r.exposure.own);
    var prior := PriorSlash(world.st, r.slashEra, r.stash);
    if mul(r.slash, r.exposure.total) == 0 then
      Outcome(World(KickedOut(world.st, r), world.log), None)
    else if r.slash <= prior then
      Outcome(world, None)
    else
      var t := Touch(mul, World(WithValidatorSlash(world.st, r, own), world.log), r, r.stash, own);
      var o := SlashNominators(mul, t.world, r, prior, r.exposure.others);
      Outcome(o.world, Some(UnappliedSlash(r.stash, t.issued, o.slashed, [], t.paid + o.payout)))
  }

  // ---- clearing

  function EraCleared(st: State, era: nat): State {
    st.(validatorSlash := map k | k in st.validatorSlash && k.0 != era :: st.validatorSlash[k],
        nominatorSlash := map k | k in st.nominatorSlash && k.0 != era :: st.nominatorSlash[k])
  }

  predicate Listed(spans: seq<SlashingSpan>, i: int) {
    exists j :: 0 <= j < |spans| && spans[j].index == i
  }

  /** Removes the entries of the listed spans of a stash. */
  function WithoutSpans(records: Records, stash: AccountId, spans: seq<SlashingSpan>): Records {
    map k | k in records && !(k.0 == stash && Listed(spans, k.1)) :: records[k]
  }

  datatype ClearError = IncorrectSlashingSpans

  function StashCleared(world: World, stash: AccountId, spanCount: nat): Result<World, ClearError> {
    if stash !in world.st.spans then Ok(world)
    else
      var spans := AllSpans(world.st.spans[stash]);
      if spanCount < |spans| then Err(IncorrectSlashingSpans)
      else
        Ok(World(world.st.(spans := world.st.spans - {stash},
                           records := WithoutSpans(world.st.records, stash, spans)),
                 world.log + [Reset(stash)]))
  }

  // ---- whole runs

  datatype Op = Slash(report: Report) | ClearEra(era: nat) | ClearStash(stash: AccountId, spanCount: nat)

  function Step(mul: (nat, nat) -> nat, world: World, op: Op): World {
    match op
    case Slash(r) => ComputeSlash(mul, world, r).world
    case ClearEra(era) => World(EraCleared(world.st, era), world.log)
    case ClearStash(stash, count) =>
      var r := StashCleared(world, stash, count);
      if r.Ok? then r.value else world
  }

  function Run(mul: (nat, nat) -> nat, world: World, ops: seq<Op>): World {
    if ops == [] then world else Step(mul, Run(mul, world, ops[..|ops| - 1]), ops[|ops| - 1])
  }

  const EMPTY: World := World(State(map[], map[], map[], map[]), [])

  /** The start of the bonding window after some steps. */
  function Window(start: nat, ops: seq<Op>): nat {
    if ops == [] then start
    else if ops[|ops| - 1].Slash? then ops[|ops| - 1].report.windowStart
    else Window(start, ops[..|ops| - 1])
  }

  /** Reports concern eras of the window, and the window only moves forward. */
  ghost predicate Legal(start: nat, ops: seq<Op>) {
    ops != [] ==>
      && Legal(start, ops[..|ops| - 1])
      && (ops[|ops| - 1].Slash? ==>
            Window(start, ops[..|ops| - 1]) <= ops[|ops| - 1].report.windowStart <= ops[|ops| - 1].report.slashEra)
  }

  // ---- reading the history

  /** The largest slash presented to a span since the stash was last cleared. */
  function Peak(log: seq<Entry>, n: AccountId, i: int): nat {
    if log == [] then 0
    else
      var before := log[..|log| - 1];
      match log[|log| - 1]
      case Reset(m) => if m == n then 0 else Peak(before, n, i)
      case Charge(m, j, amount, _, _) =>
        if m == n && j == i then Max(amount, Peak(before, n, i)) else Peak(before, n, i)
  }

  /** The reward set aside for a span since the stash was last cleared. */
  function PaidFor(log: seq<Entry>, n: AccountId, i: int): nat {
    if log == [] then 0
    else
      var before := log[..|log| - 1];
      match log[|log| - 1]
      case Reset(m) => if m == n then 0 else PaidFor(before, n, i)
      case Charge(m, j, _, _, paid) => PaidFor(before, n, i) + if m == n && j == i then paid else 0
  }

  /** All rewards ever set aside. */
  function PaidTotal(log: seq<Entry>): nat {
    if log == [] then 0
    else
      PaidTotal(log[..|log| - 1]) + if log[|log| - 1].Charge? then log[|log| - 1].paid else 0
  }

  /** Everything charged to a stash since it was last cleared. */
  function Issued(log: seq<Entry>, n: AccountId): nat {
    if log == [] then 0
    else
      var before := log[..|log| - 1];
      match log[|log| - 1]
      case Reset(m) => if m == n then 0 else Issued(before, n)
      case Charge(m, _, _, issued, _) => Issued(before, n) + if m == n then issued else 0
  }

  /** The sum of the largest slashes of spans 0..k. */
  function SumPeaks(log: seq<Entry>, n: AccountId, k: int): nat {
    if k <= 0 then 0 else SumPeaks(log, n, k - 1) + Peak(log, n, k - 1)
  }
}
