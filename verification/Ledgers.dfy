/** The ledger of a bonded stash: withdrawing, rebonding and slashing of active and unlocking funds. */
module Ledgers {
  import opened Arith
  import opened PerThings

  datatype UnlockChunk = UnlockChunk(value: nat, era: nat)

  datatype Ledger = Ledger(total: nat, active: nat, unlocking: seq<UnlockChunk>)

  function Sum(chunks: seq<UnlockChunk>): nat {
    if chunks == [] then 0 else Sum(chunks[..|chunks| - 1]) + chunks[|chunks| - 1].value
  }

  /** The total is the active balance plus everything that is unlocking. */
  ghost predicate Consistent(l: Ledger) {
    l.total == l.active + Sum(l.unlocking)
  }

  ghost predicate EraSorted(chunks: seq<UnlockChunk>) {
    forall j, k :: 0 <= j < k < |chunks| ==> chunks[j].era <= chunks[k].era
  }

  // ---- withdrawing unlocked chunks

  function Unexpired(chunks: seq<UnlockChunk>, era: nat): seq<UnlockChunk> {
    if chunks == [] then []
    else
      var last := chunks[|chunks| - 1];
      var r := Unexpired(chunks[..|chunks| - 1], era);
      if last.era > era then r + [last] else r
  }

  function Consolidated(l: Ledger, era: nat): Ledger {
    var kept := Unexpired(l.unlocking, era);
    Ledger(Monus(l.total, Monus(Sum(l.unlocking), Sum(kept))), l.active, kept)
  }

  lemma SumAppend(chunks: seq<UnlockChunk>, c: UnlockChunk)
    ensures Sum(chunks + [c]) == Sum(chunks) + c.value
  {
    assert (chunks + [c])[..|chunks + [c]| - 1] == chunks;
  }

  lemma {:induction false} UnexpiredSum(chunks: seq<UnlockChunk>, era: nat)
    ensures Sum(Unexpired(chunks, era)) <= Sum(chunks)
  {
    if chunks != [] {
      var init, last := chunks[..|chunks| - 1], chunks[|chunks| - 1];
      UnexpiredSum(init, era);
      SumAppend(Unexpired(init, era), last);
    }
  }

  /** Exactly the chunks of a later era stay. */
  lemma {:induction false} UnexpiredExact(chunks: seq<UnlockChunk>, era: nat)
    ensures forall c :: c in Unexpired(chunks, era) <==> c in chunks && c.era > era
  {
    if chunks != [] {
      UnexpiredExact(chunks[..|chunks| - 1], era);
      assert chunks == chunks[..|chunks| - 1] + [chunks[|chunks| - 1]];
    }
  }

  lemma {:induction false} UnexpiredSorted(chunks: seq<UnlockChunk>, era: nat)
    requires EraSorted(chunks)
    ensures EraSorted(Unexpired(chunks, era))
  {
    if chunks != [] {
      var init, last := chunks[..|chunks| - 1], chunks[|chunks| - 1];
      UnexpiredSorted(init, era);
      UnexpiredExact(init, era);
      forall c | c in Unexpired(init, era)
        ensures c.era <= last.era
      {
        var k :| 0 <= k < |init| && init[k] == c;
        assert chunks[k] == c;
      }
    }
  }

  lemma {:induction false} UnexpiredTwice(chunks: seq<UnlockChunk>, e1: nat, e2: nat)
    requires e1 <= e2
    ensures Unexpired(Unexpired(chunks, e1), e2) == Unexpired(chunks, e2)
  {
    if chunks != [] {
      var init, last := chunks[..|chunks| - 1], chunks[|chunks| - 1];
      UnexpiredTwice(init, e1, e2);
      var r := Unexpired(init, e1);
      if last.era > e1 { assert (r + [last])[..|r + [last]| - 1] == r; }
    }
  }

  /** Withdrawing keeps the ledger consistent and sorted and lowers the total by what expired, nothing more. */
  lemma ConsolidateKeeps(l: Ledger, era: nat)
    requires Consistent(l)
    ensures Consistent(Consolidated(l, era))
    ensures Consolidated(l, era).total == l.total - (Sum(l.unlocking) - Sum(Unexpired(l.unlocking, era)))
    ensures EraSorted(l.unlocking) ==> EraSorted(Consolidated(l, era).unlocking)
  {
    UnexpiredSum(l.unlocking, era);
    if EraSorted(l.unlocking) { UnexpiredSorted(l.unlocking, era); }
  }

  /** Withdrawing at e1 and later at e2 is withdrawing at e2. */
  lemma ConsolidateTwice(l: Ledger, e1: nat, e2: nat)
    requires Consistent(l) && e1 <= e2
    ensures Consolidated(Consolidated(l, e1), e2) == Consolidated(l, e2)
  {
    UnexpiredTwice(l.unlocking, e1, e2);
    UnexpiredSum(l.unlocking, e1);
    UnexpiredSum(l.unlocking, e2);
    UnexpiredSum(Unexpired(l.unlocking, e1), e2);
  }

  // ---- rebonding

  /** What is left of the chunks after `value` is taken, newest first. */
  function Taken(chunks: seq<UnlockChunk>, value: nat): seq<UnlockChunk> {
    if chunks == [] then []
    else
      var init, last := chunks[..|chunks| - 1], chunks[|chunks| - 1];
      if last.value < value then Taken(init, value - last.value)
      else if last.value == value then init
      else init + [UnlockChunk(last.value - value, last.era)]
  }

  function Rebonded(l: Ledger, value: nat): Ledger {
    Ledger(l.total, l.active + Min(value, Sum(l.unlocking)), Taken(l.unlocking, value))
  }

  /** Newest first: a prefix is left, of which only the last chunk may be smaller than it was, and
      exactly min(value, everything) is gone. */
  lemma {:induction false} TakenIsPrefix(chunks: seq<UnlockChunk>, value: nat)
    ensures var r := Taken(chunks, value);
            && Sum(r) == Monus(Sum(chunks), value)
            && |r| <= |chunks|
            && (forall k :: 0 <= k < |r| - 1 ==> r[k] == chunks[k])
            && (r != [] ==> r[|r| - 1].era == chunks[|r| - 1].era && r[|r| - 1].value <= chunks[|r| - 1].value)
            && (r != [] && r[|r| - 1].value == 0 ==> chunks[|r| - 1].value == 0)
  {
    if chunks != [] {
      var init, last := chunks[..|chunks| - 1], chunks[|chunks| - 1];
      if last.value < value { TakenIsPrefix(init, value - last.value); }
      if last.value > value { SumAppend(init, UnlockChunk(last.value - value, last.era)); }
    }
  }

  /** Rebonding moves min(value, unlocking) to the active balance and keeps the ledger consistent and sorted. */
  lemma RebondKeeps(l: Ledger, value: nat)
    requires Consistent(l)
    ensures Consistent(Rebonded(l, value)) && Rebonded(l, value).total == l.total
    ensures EraSorted(l.unlocking) ==> EraSorted(Rebonded(l, value).unlocking)
  {
    TakenIsPrefix(l.unlocking, value);
  }

  lemma UnexpiredAppend(chunks: seq<UnlockChunk>, c: UnlockChunk, era: nat)
    ensures Unexpired(chunks + [c], era) == if c.era > era then Unexpired(chunks, era) + [c] else Unexpired(chunks, era)
  {
    assert (chunks + [c])[..|chunks + [c]| - 1] == chunks;
  }

  lemma TakenAppend(chunks: seq<UnlockChunk>, c: UnlockChunk, value: nat)
    ensures Taken(chunks + [c], value)
         == if c.value < value then Taken(chunks, value - c.value)
            else if c.value == value then chunks
            else chunks + [UnlockChunk(c.value - value, c.era)]
  {
    assert (chunks + [c])[..|chunks + [c]| - 1] == chunks;
  }

  /** When the newest chunk has expired, all have. */
  lemma {:induction false} AllExpired(chunks: seq<UnlockChunk>, era: nat)
    requires EraSorted(chunks) && chunks != [] && chunks[|chunks| - 1].era <= era
    ensures Unexpired(chunks, era) == [] && ExpiredFirst(chunks, era)
  {
    if |chunks| > 1 { AllExpired(chunks[..|chunks| - 1], era); }
  }

  /** All expired chunks come before the unexpired ones. */
  predicate ExpiredFirst(chunks: seq<UnlockChunk>, era: nat) {
    chunks == [] ||
    (ExpiredFirst(chunks[..|chunks| - 1], era) && (chunks[|chunks| - 1].era <= era ==> Unexpired(chunks, era) == []))
  }

  lemma {:induction false} SortedExpiredFirst(chunks: seq<UnlockChunk>, era: nat)
    requires EraSorted(chunks)
    ensures ExpiredFirst(chunks, era)
  {
    if chunks != [] {
      SortedExpiredFirst(chunks[..|chunks| - 1], era);
      if chunks[|chunks| - 1].era <= era { AllExpired(chunks, era); }
    }
  }

  lemma {:induction false} TakenCommutes(chunks: seq<UnlockChunk>, value: nat, era: nat)
    requires ExpiredFirst(chunks, era) && value <= Sum(Unexpired(chunks, era))
    ensures Unexpired(Taken(chunks, value), era) == Taken(Unexpired(chunks, era), value)
  {
    if chunks != [] {
      var init, last := chunks[..|chunks| - 1], chunks[|chunks| - 1];
      if last.era <= era {
        if last.value > 0 { assert init + [last] == chunks; }
      } else {
        var u := Unexpired(init, era);
        SumAppend(u, last);
        TakenAppend(u, last, value);
        if last.value < value {
          TakenCommutes(init, value - last.value, era);
        } else if last.value > value {
          UnexpiredAppend(init, UnlockChunk(last.value - value, last.era), era);
        }
      }
    }
  }

  /** Rebonding no more than the unexpired funds commutes with withdrawing the expired ones. */
  lemma RebondCommutesWithConsolidate(l: Ledger, value: nat, era: nat)
    requires Consistent(l) && EraSorted(l.unlocking) && value <= Sum(Unexpired(l.unlocking, era))
    ensures Consolidated(Rebonded(l, value), era) == Rebonded(Consolidated(l, era), value)
  {
    SortedExpiredFirst(l.unlocking, era);
    TakenCommutes(l.unlocking, value, era);
    TakenIsPrefix(l.unlocking, value);
    TakenIsPrefix(Unexpired(l.unlocking, era), value);
    UnexpiredSum(l.unlocking, era);
    UnexpiredSum(Taken(l.unlocking, value), era);
  }

  // ---- slashing

  /** How much is cut from one target. `proportional` when the slash is below the affected balance: then
      the cut is ratio * target, otherwise whatever is still to be slashed. */
  datatype Rule = Rule(proportional: bool, ratio: nat, mul: (nat, nat) -> nat, minimum: nat)

  const QUINTILLION: nat := 1_000_000_000_000_000_000

  /** What is taken from a target, dust included. */
  function Cut(rule: Rule, target: nat, remaining: nat): (r: nat)
    ensures r <= target
  {
    var asked := Min(if rule.proportional then rule.mul(rule.ratio, target) else remaining, target);
    if target - asked < rule.minimum then target else asked
  }

  /** Position k in the order in which chunks are slashed: the affected ones from `start` on, then the
      older ones, newest first. */
  function Priority(count: nat, start: nat, k: nat): (i: nat)
    requires start <= count && k < count
    ensures i < count && (k < count - start <==> start <= i)
  {
    if k < count - start then start + k else count - 1 - k
  }

  lemma PriorityInjective(count: nat, start: nat, j: nat, k: nat)
    requires start <= count && j < count && k < count && j != k
    ensures Priority(count, start, j) != Priority(count, start, k)
  {
  }

  /** Slashing the chunks from position k of the order on, until nothing remains to be slashed. */
  function SlashedFrom(chunks: seq<UnlockChunk>, start: nat, k: nat, remaining: nat, rule: Rule): (r: seq<UnlockChunk>)
    requires start <= |chunks|
    ensures |r| == |chunks|
    decreases |chunks| - k
  {
    if k >= |chunks| || remaining == 0 then chunks
    else
      var i := Priority(|chunks|, start, k);
      var cut := Cut(rule, chunks[i].value, remaining);
      SlashedFrom(chunks[i := chunks[i].(value := chunks[i].value - cut)], start, k + 1, Monus(remaining, cut), rule)
  }

  function NonZero(chunks: seq<UnlockChunk>): seq<UnlockChunk> {
    if chunks == [] then []
    else
      var last := chunks[|chunks| - 1];
      var r := NonZero(chunks[..|chunks| - 1]);
      if last.value != 0 then r + [last] else r
  }

  lemma {:induction false} NonZeroExact(chunks: seq<UnlockChunk>)
    ensures forall c :: c in NonZero(chunks) <==> c in chunks && c.value != 0
  {
    if chunks != [] {
      NonZeroExact(chunks[..|chunks| - 1]);
      assert chunks == chunks[..|chunks| - 1] + [chunks[|chunks| - 1]];
    }
  }

  /** The first chunk that was unbonded after the slash, given the unlocking era of such chunks. */
  function AffectedStart(chunks: seq<UnlockChunk>, unlockEra: nat): (start: nat)
    ensures start <= |chunks|
  {
    if chunks == [] || chunks[0].era >= unlockEra then 0 else 1 + AffectedStart(chunks[1..], unlockEra)
  }

  /** Everything before the index was unbonded earlier; on sorted chunks everything from it on was not. */
  lemma {:induction false} AffectedStartExact(chunks: seq<UnlockChunk>, unlockEra: nat)
    ensures var start := AffectedStart(chunks, unlockEra);
            && (forall k :: 0 <= k < start ==> chunks[k].era < unlockEra)
            && (start < |chunks| ==> unlockEra <= chunks[start].era)
            && (EraSorted(chunks) ==> forall k :: start <= k < |chunks| ==> unlockEra <= chunks[k].era)
  {
    if chunks != [] && chunks[0].era < unlockEra {
      AffectedStartExact(chunks[1..], unlockEra);
      forall k | 0 < k < AffectedStart(chunks, unlockEra)
        ensures chunks[k].era < unlockEra
      {
        assert chunks[k] == chunks[1..][k - 1];
      }
    }
  }

  function Affected(l: Ledger, unlockEra: nat): nat {
    l.active + Sum(l.unlocking[AffectedStart(l.unlocking, unlockEra)..])
  }

  /** The inputs of a slash: the amount, the smallest balance worth keeping, the era from which chunks are
      affected, and the library's ratio of the amount to the affected balance. */
  datatype SlashInput = SlashInput(amount: nat, minimum: nat, unlockEra: nat, ratio: nat, mul: (nat, nat) -> nat)

  function RuleFor(l: Ledger, s: SlashInput): Rule {
    Rule(s.amount < Affected(l, s.unlockEra), s.ratio, s.mul, s.minimum)
  }

  function ChunksAfter(l: Ledger, s: SlashInput): (r: seq<UnlockChunk>)
    ensures |r| == |l.unlocking|
  {
    var rule := RuleFor(l, s);
    SlashedFrom(l.unlocking, AffectedStart(l.unlocking, s.unlockEra), 0, Monus(s.amount, Cut(rule, l.active, s.amount)), rule)
  }

  function Slashed(l: Ledger, s: SlashInput): Ledger {
    if s.amount == 0 then l
    else
      var active := l.active - Cut(RuleFor(l, s), l.active, s.amount);
      var chunks := ChunksAfter(l, s);
      Ledger(Monus(l.total, (l.active - active) + Monus(Sum(l.unlocking), Sum(chunks))), active, NonZero(chunks))
  }

  function InputOf(l: Ledger, amount: nat, minimum: nat, unlockEra: nat, mul: (nat, nat) -> nat,
                   fromRational: (nat, nat) -> nat): SlashInput {
    SlashInput(amount, minimum, unlockEra, fromRational(amount, Affected(l, unlockEra)), mul)
  }

  /** The ledger after a slash for an offence of `slashEra`: chunks unbonded later unlock a bonding duration later. */
  function AfterSlash(l: Ledger, amount: nat, minimum: nat, slashEra: nat, bondingDuration: nat, mul: (nat, nat) -> nat,
                      fromRational: (nat, nat) -> nat): Ledger {
    Slashed(l, InputOf(l, amount, minimum, slashEra + 1 + bondingDuration, mul, fromRational))
  }

  // ---- sums over chunks

  lemma {:induction false} SumUpdate(chunks: seq<UnlockChunk>, i: nat, value: nat)
    requires i < |chunks|
    ensures Sum(chunks[i := chunks[i].(value := value)]) == Sum(chunks) - chunks[i].value + value
  {
    var c' := chunks[i].(value := value);
    var init := chunks[..|chunks| - 1];
    if i == |chunks| - 1 {
      assert chunks[i := c'][..|chunks| - 1] == init;
    } else {
      assert chunks[i := c'][..|chunks| - 1] == init[i := c'];
      SumUpdate(init, i, value);
    }
  }

  lemma {:induction false} SumNonZero(chunks: seq<UnlockChunk>)
    ensures Sum(NonZero(chunks)) == Sum(chunks)
  {
    if chunks != [] {
      var init, last := chunks[..|chunks| - 1], chunks[|chunks| - 1];
      SumNonZero(init);
      SumAppend(NonZero(init), last);
    }
  }

  lemma {:induction false} NonZeroSorted(chunks: seq<UnlockChunk>)
    requires EraSorted(chunks)
    ensures EraSorted(NonZero(chunks))
  {
    if chunks != [] {
      var init, last := chunks[..|chunks| - 1], chunks[|chunks| - 1];
      NonZeroSorted(init);
      NonZeroExact(init);
      forall c | c in NonZero(init)
        ensures c.era <= last.era
      {
        var k :| 0 <= k < |init| && init[k] == c;
        assert chunks[k] == c;
      }
    }
  }

  lemma {:induction false} SlashedFromSum(chunks: seq<UnlockChunk>, start: nat, k: nat, remaining: nat, rule: Rule)
    requires start <= |chunks|
    ensures Sum(SlashedFrom(chunks, start, k, remaining, rule)) <= Sum(chunks)
    decreases |chunks| - k
  {
    if k < |chunks| && remaining != 0 {
      var i := Priority(|chunks|, start, k);
      var cut := Cut(rule, chunks[i].value, remaining);
      SumUpdate(chunks, i, chunks[i].value - cut);
      SlashedFromSum(chunks[i := chunks[i].(value := chunks[i].value - cut)], start, k + 1, Monus(remaining, cut), rule);
    }
  }

  lemma {:induction false} SlashedFromValues(chunks: seq<UnlockChunk>, start: nat, k: nat, remaining: nat, rule: Rule,
                                             i: nat)
    requires start <= |chunks| && i < |chunks|
    ensures var r := SlashedFrom(chunks, start, k, remaining, rule);
            r[i].era == chunks[i].era && r[i].value <= chunks[i].value
    decreases |chunks| - k
  {
    if k < |chunks| && remaining != 0 {
      var p := Priority(|chunks|, start, k);
      var cut := Cut(rule, chunks[p].value, remaining);
      SlashedFromValues(chunks[p := chunks[p].(value := chunks[p].value - cut)], start, k + 1, Monus(remaining, cut), rule, i);
    }
  }

  lemma {:induction false} SlashedFromKept(chunks: seq<UnlockChunk>, start: nat, k: nat, remaining: nat, rule: Rule,
                                           j: nat)
    requires start <= |chunks| && j < k && j < |chunks|
    ensures SlashedFrom(chunks, start, k, remaining, rule)[Priority(|chunks|, start, j)] == chunks[Priority(|chunks|, start, j)]
    decreases |chunks| - k
  {
    if k < |chunks| && remaining != 0 {
      var p := Priority(|chunks|, start, k);
      var cut := Cut(rule, chunks[p].value, remaining);
      PriorityInjective(|chunks|, start, j, k);
      SlashedFromKept(chunks[p := chunks[p].(value := chunks[p].value - cut)], start, k + 1, Monus(remaining, cut), rule, j);
    }
  }

  /** Slashing chunks only lowers values; eras stay, and positions before k are not touched. */
  lemma SlashedFromShrinks(chunks: seq<UnlockChunk>, start: nat, k: nat, remaining: nat, rule: Rule)
    requires start <= |chunks|
    ensures var r := SlashedFrom(chunks, start, k, remaining, rule);
            && Sum(r) <= Sum(chunks)
            && (forall i :: 0 <= i < |chunks| ==> r[i].era == chunks[i].era && r[i].value <= chunks[i].value)
            && (forall j :: 0 <= j < k && j < |chunks| ==>
                  r[Priority(|chunks|, start, j)] == chunks[Priority(|chunks|, start, j)])
  {
    var r := SlashedFrom(chunks, start, k, remaining, rule);
    SlashedFromSum(chunks, start, k, remaining, rule);
    forall i | 0 <= i < |chunks|
      ensures r[i].era == chunks[i].era && r[i].value <= chunks[i].value
    {
      SlashedFromValues(chunks, start, k, remaining, rule, i);
    }
    forall j | 0 <= j < k && j < |chunks|
      ensures r[Priority(|chunks|, start, j)] == chunks[Priority(|chunks|, start, j)]
    {
      SlashedFromKept(chunks, start, k, remaining, rule, j);
    }
  }

  /** Slashing keeps the ledger consistent and sorted, leaves no zero chunk, takes exactly what the total
      drops by, and leaves the active balance at zero or at least the minimum. */
  lemma SlashKeeps(l: Ledger, s: SlashInput)
    requires Consistent(l)
    ensures var r := Slashed(l, s);
            && Consistent(r) && r.total <= l.total
            && (EraSorted(l.unlocking) ==> EraSorted(r.unlocking))
            && (s.amount != 0 ==> (forall c :: c in r.unlocking ==> c.value != 0)
                                  && (r.active == 0 || s.minimum <= r.active))
            && r.active <= l.active && Sum(r.unlocking) <= Sum(l.unlocking)
  {
    if s.amount != 0 {
      var rule := RuleFor(l, s);
      var chunks := ChunksAfter(l, s);
      SlashedFromShrinks(l.unlocking, AffectedStart(l.unlocking, s.unlockEra), 0,
                         Monus(s.amount, Cut(rule, l.active, s.amount)), rule);
      SumNonZero(chunks);
      NonZeroExact(chunks);
      if EraSorted(l.unlocking) {
        assert EraSorted(chunks);
        NonZeroSorted(chunks);
      }
    }
  }

  // ---- greedy slashing

  /** The values still to come in the slashing order. */
  function Rest(chunks: seq<UnlockChunk>, start: nat, k: nat): nat
    requires start <= |chunks|
    decreases |chunks| - k
  {
    if k >= |chunks| then 0 else chunks[Priority(|chunks|, start, k)].value + Rest(chunks, start, k + 1)
  }

  lemma {:induction false} RestUpdate(chunks: seq<UnlockChunk>, start: nat, j: nat, k: nat, c: UnlockChunk)
    requires start <= |chunks| && j < k && j < |chunks|
    ensures Rest(chunks[Priority(|chunks|, start, j) := c], start, k) == Rest(chunks, start, k)
    decreases |chunks| - k
  {
    if k < |chunks| {
      PriorityInjective(|chunks|, start, j, k);
      RestUpdate(chunks, start, j, k + 1, c);
    }
  }

  lemma {:induction false} SumSplit(chunks: seq<UnlockChunk>, m: nat)
    requires m <= |chunks|
    ensures Sum(chunks) == Sum(chunks[..m]) + Sum(chunks[m..])
  {
    if m == |chunks| {
      assert chunks[..m] == chunks;
    } else {
      var init := chunks[..|chunks| - 1];
      SumSplit(init, m);
      assert init[..m] == chunks[..m];
      assert chunks[m..][..|chunks[m..]| - 1] == init[m..];
    }
  }

  lemma {:induction false} SumFirst(chunks: seq<UnlockChunk>)
    requires chunks != []
    ensures Sum(chunks) == chunks[0].value + Sum(chunks[1..])
  {
    SumSplit(chunks, 1);
    assert chunks[..1][..0] == [];
  }

  /** In the order of slashing the affected chunks come first and everything comes once. */
  lemma {:induction false} RestIsSum(chunks: seq<UnlockChunk>, start: nat, k: nat)
    requires start <= |chunks| && k <= |chunks|
    ensures k <= |chunks| - start ==> Rest(chunks, start, k) == Sum(chunks[start + k..]) + Sum(chunks[..start])
    ensures k >= |chunks| - start ==> Rest(chunks, start, k) == Sum(chunks[..|chunks| - k])
    decreases |chunks| - k
  {
    if k < |chunks| {
      RestIsSum(chunks, start, k + 1);
      if k < |chunks| - start {
        SumFirst(chunks[start + k..]);
        assert chunks[start + k..][1..] == chunks[start + k + 1..];
      } else {
        var p := chunks[..|chunks| - k];
        assert p[..|p| - 1] == chunks[..|chunks| - k - 1];
      }
    }
    if k == |chunks| - start { assert chunks[start + k..] == []; }
  }

  /** Greedy cuts take at least what remains or everything, and overshoot by less than a minimum balance. */
  lemma {:induction false} GreedyFrom(chunks: seq<UnlockChunk>, start: nat, k: nat, remaining: nat, rule: Rule)
    requires start <= |chunks| && !rule.proportional
    ensures var taken := Sum(chunks) - Sum(SlashedFrom(chunks, start, k, remaining, rule));
            var rest := Rest(chunks, start, k);
            && Min(remaining, rest) <= taken <= rest
            && (0 < remaining ==> taken <= remaining + Max(rule.minimum, 1) - 1)
            && (0 == remaining ==> taken == 0)
    decreases |chunks| - k
  {
    if k < |chunks| && remaining != 0 {
      var i := Priority(|chunks|, start, k);
      var cut := Cut(rule, chunks[i].value, remaining);
      var c := chunks[i].(value := chunks[i].value - cut);
      SumUpdate(chunks, i, chunks[i].value - cut);
      RestUpdate(chunks, start, k, k + 1, c);
      GreedyFrom(chunks[i := c], start, k + 1, Monus(remaining, cut), rule);
    }
  }

  /** While something of position j is left, later positions are not reached by greedy cuts. */
  lemma {:induction false} GreedyOrder(chunks: seq<UnlockChunk>, start: nat, k: nat, remaining: nat, rule: Rule, i: nat,
                                       j: nat)
    requires start <= |chunks| && !rule.proportional && k <= i < j < |chunks|
    ensures var r := SlashedFrom(chunks, start, k, remaining, rule);
            r[Priority(|chunks|, start, j)] != chunks[Priority(|chunks|, start, j)] ==> r[Priority(|chunks|, start, i)].value == 0
    decreases |chunks| - k
  {
    if remaining != 0 {
      var p := Priority(|chunks|, start, k);
      var cut := Cut(rule, chunks[p].value, remaining);
      var next := chunks[p := chunks[p].(value := chunks[p].value - cut)];
      PriorityInjective(|chunks|, start, k, j);
      SlashedFromShrinks(next, start, k + 1, Monus(remaining, cut), rule);
      if k < i {
        PriorityInjective(|chunks|, start, k, i);
        GreedyOrder(next, start, k + 1, Monus(remaining, cut), rule, i, j);
      }
    }
  }

  lemma GreedyOlderOnlyAfterAffected(l: Ledger, s: SlashInput, i: nat, j: nat)
    requires s.amount != 0 && Affected(l, s.unlockEra) <= s.amount
    requires i < AffectedStart(l.unlocking, s.unlockEra) <= j < |l.unlocking|
    requires ChunksAfter(l, s)[i] != l.unlocking[i]
    ensures ChunksAfter(l, s)[j].value == 0
  {
    var chunks := l.unlocking;
    var start := AffectedStart(chunks, s.unlockEra);
    var rule := RuleFor(l, s);
    var remaining := Monus(s.amount, Cut(rule, l.active, s.amount));
    GreedyOrder(chunks, start, 0, remaining, rule, j - start, |chunks| - 1 - i);
    assert Priority(|chunks|, start, j - start) == j && Priority(|chunks|, start, |chunks| - 1 - i) == i;
  }

  lemma GreedyAmount(l: Ledger, s: SlashInput)
    requires Consistent(l) && s.amount != 0 && Affected(l, s.unlockEra) <= s.amount
    ensures var taken := l.active + Sum(l.unlocking) - Sum(ChunksAfter(l, s));
            && Cut(RuleFor(l, s), l.active, s.amount) == l.active
            && Min(s.amount, l.total) <= taken <= Min(l.total, s.amount + Max(s.minimum, 1) - 1)
  {
    var rule := RuleFor(l, s);
    var start := AffectedStart(l.unlocking, s.unlockEra);
    SumSplit(l.unlocking, start);
    GreedyFrom(l.unlocking, start, 0, Monus(s.amount, l.active), rule);
    RestIsSum(l.unlocking, start, 0);
  }

  /** A slash of at least the affected balance empties the active balance, takes at least
      min(amount, total) and less than one minimum balance more; a chunk older than the affected ones loses
      something only if every affected chunk ends at zero. */
  lemma GreedySlashBound(l: Ledger, s: SlashInput)
    requires Consistent(l) && s.amount != 0 && Affected(l, s.unlockEra) <= s.amount
    ensures Min(s.amount, l.total) <= l.total - Slashed(l, s).total
    ensures l.total - Slashed(l, s).total <= Min(l.total, s.amount + Max(s.minimum, 1) - 1)
    ensures Slashed(l, s).active == 0
    ensures forall i: nat, j: nat :: i < AffectedStart(l.unlocking, s.unlockEra) <= j < |l.unlocking| ==>
              (ChunksAfter(l, s)[i] != l.unlocking[i] ==> ChunksAfter(l, s)[j].value == 0)
  {
    SlashKeeps(l, s);
    SumNonZero(ChunksAfter(l, s));
    GreedyAmount(l, s);
    forall i: nat, j: nat | i < AffectedStart(l.unlocking, s.unlockEra) <= j < |l.unlocking|
      ensures ChunksAfter(l, s)[i] != l.unlocking[i] ==> ChunksAfter(l, s)[j].value == 0
    {
      if ChunksAfter(l, s)[i] != l.unlocking[i] { GreedyOlderOnlyAfterAffected(l, s, i, j); }
    }
  }

  // ---- proportional slashing

  /** The ratio's share of a balance, at most all of it. */
  function ShareOf(rule: Rule, value: nat): nat { Min(rule.mul(rule.ratio, value), value) }

  /** What a proportional rule takes from a balance, dust included, however much remains to be slashed. */
  function CutOf(rule: Rule, value: nat): (r: nat)
    requires rule.proportional
    ensures ShareOf(rule, value) <= r <= value && r - ShareOf(rule, value) <= Monus(rule.minimum, 1)
    ensures forall remaining :: Cut(rule, value, remaining) == r
  {
    Cut(rule, value, 0)
  }

  /** All balances in the order in which they are slashed: the active one, then the chunks. */
  function Targets(active: nat, chunks: seq<UnlockChunk>, start: nat): (r: seq<nat>)
    requires start <= |chunks|
    ensures |r| == |chunks| + 1
  {
    [active] + seq(|chunks|, k requires 0 <= k < |chunks| => chunks[Priority(|chunks|, start, k)].value)
  }

  function TargetsOf(l: Ledger, s: SlashInput): (r: seq<nat>)
    ensures |r| == |l.unlocking| + 1
  {
    Targets(l.active, l.unlocking, AffectedStart(l.unlocking, s.unlockEra))
  }

  /** The number of affected targets; they come first. */
  function AffectedCount(l: Ledger, s: SlashInput): (n: nat)
    ensures n <= |l.unlocking| + 1
  {
    1 + |l.unlocking| - AffectedStart(l.unlocking, s.unlockEra)
  }

  /** A slash of less than the affected balance. */
  predicate Proportional(l: Ledger, s: SlashInput) {
    0 < s.amount < Affected(l, s.unlockEra)
  }

  /** The cut and the share of every target, each computed from the ledger as it is before the slash. */
  function Cuts(l: Ledger, s: SlashInput): (r: seq<nat>)
    requires Proportional(l, s)
    ensures |r| == |l.unlocking| + 1
  {
    var targets := TargetsOf(l, s);
    seq(|targets|, k requires 0 <= k < |targets| => CutOf(RuleFor(l, s), targets[k]))
  }

  function Shares(l: Ledger, s: SlashInput): (r: seq<nat>)
    ensures |r| == |l.unlocking| + 1
  {
    var targets := TargetsOf(l, s);
    seq(|targets|, k requires 0 <= k < |targets| => ShareOf(RuleFor(l, s), targets[k]))
  }

  /** What every target loses. */
  function Losses(l: Ledger, s: SlashInput): (r: seq<nat>)
    ensures |r| == |l.unlocking| + 1
  {
    var before := TargetsOf(l, s);
    var after := Targets(Slashed(l, s).active, ChunksAfter(l, s), AffectedStart(l.unlocking, s.unlockEra));
    seq(|before|, k requires 0 <= k < |before| => Monus(before[k], after[k]))
  }

  /** What every target loses beyond its share: the dust swept from it. */
  function Dust(l: Ledger, s: SlashInput): (r: seq<nat>)
    ensures |r| == |l.unlocking| + 1
  {
    var losses, shares := Losses(l, s), Shares(l, s);
    seq(|losses|, k requires 0 <= k < |losses| => Monus(losses[k], shares[k]))
  }

  /** The sum of the first m numbers. */
  function Prefix(a: seq<nat>, m: nat): nat
    requires m <= |a|
  {
    if m == 0 then 0 else Prefix(a, m - 1) + a[m - 1]
  }

  lemma {:induction false} PrefixMono(a: seq<nat>, i: nat, j: nat)
    requires i <= j <= |a|
    ensures Prefix(a, i) <= Prefix(a, j)
  {
    if i < j { PrefixMono(a, i, j - 1); }
  }

  lemma {:induction false} PrefixBelow(a: seq<nat>, b: seq<nat>, m: nat)
    requires m <= |a| == |b| && forall k :: 0 <= k < |a| ==> a[k] <= b[k]
    ensures Prefix(a, m) <= Prefix(b, m)
  {
    if m > 0 { PrefixBelow(a, b, m - 1); }
  }

  lemma {:induction false} PrefixAtMost(a: seq<nat>, bound: nat, m: nat)
    requires m <= |a| && forall k :: 0 <= k < |a| ==> a[k] <= bound
    ensures Prefix(a, m) <= m * bound
  {
    if m > 0 {
      PrefixAtMost(a, bound, m - 1);
      MulPlusOne(m - 1, bound);
    }
  }

  lemma {:induction false} PrefixDifference(a: seq<nat>, b: seq<nat>, c: seq<nat>, m: nat)
    requires m <= |a| == |b| == |c| && forall k :: 0 <= k < |a| ==> a[k] == b[k] + c[k]
    ensures Prefix(a, m) == Prefix(b, m) + Prefix(c, m)
  {
    if m > 0 { PrefixDifference(a, b, c, m - 1); }
  }

  /** b agrees with a up to m and is zero from there on. */
  ghost predicate Until(a: seq<nat>, b: seq<nat>, m: nat) {
    |a| == |b| && forall k :: 0 <= k < |a| ==> b[k] == if k < m then a[k] else 0
  }

  lemma {:induction false} PrefixUntil(a: seq<nat>, b: seq<nat>, m: nat, n: nat)
    requires Until(a, b, m) && n <= |a|
    ensures Prefix(b, n) == Prefix(a, Min(n, m))
  {
    if n > 0 { PrefixUntil(a, b, m, n - 1); }
  }

  /** How many targets are cut: from the k-th on, until the cuts reach the amount. */
  function Stop(cuts: seq<nat>, amount: nat, k: nat): (m: nat)
    requires k <= |cuts|
    ensures k <= m <= |cuts|
    decreases |cuts| - k
  {
    if k == |cuts| || amount <= Prefix(cuts, k) then k else Stop(cuts, amount, k + 1)
  }

  /** Up to there the cuts fall short of the amount, and there they do not unless all are made. */
  lemma {:induction false} StopExact(cuts: seq<nat>, amount: nat, k: nat)
    requires k <= |cuts|
    ensures var m := Stop(cuts, amount, k);
            && (forall j :: k <= j < m ==> Prefix(cuts, j) < amount)
            && (m == |cuts| || amount <= Prefix(cuts, m))
    decreases |cuts| - k
  {
    if k < |cuts| && Prefix(cuts, k) < amount { StopExact(cuts, amount, k + 1); }
  }

  /** From position k of the order on, the chunks lose exactly the cuts before the stop. */
  ghost predicate CutFrom(chunks: seq<UnlockChunk>, r: seq<UnlockChunk>, start: nat, k: nat, cuts: seq<nat>, stop: nat)
    requires start <= |chunks| == |r| && |cuts| == |chunks| + 1
  {
    forall j :: k <= j < |chunks| ==>
      r[Priority(|chunks|, start, j)].value
      == chunks[Priority(|chunks|, start, j)].value - if j + 1 < stop then cuts[j + 1] else 0
  }

  ghost predicate CutsFrom(chunks: seq<UnlockChunk>, start: nat, k: nat, rule: Rule, cuts: seq<nat>)
    requires start <= |chunks| && rule.proportional && |cuts| == |chunks| + 1
  {
    forall j :: k <= j < |chunks| ==> cuts[j + 1] == CutOf(rule, chunks[Priority(|chunks|, start, j)].value)
  }

  lemma CutOne(chunks: seq<UnlockChunk>, r: seq<UnlockChunk>, start: nat, k: nat, cuts: seq<nat>, stop: nat)
    requires start <= |chunks| == |r| && |cuts| == |chunks| + 1 && k < |chunks| && k + 1 < stop
    requires cuts[k + 1] <= chunks[Priority(|chunks|, start, k)].value
    requires var i := Priority(|chunks|, start, k);
             var next := chunks[i := chunks[i].(value := chunks[i].value - cuts[k + 1])];
             r[i] == next[i] && CutFrom(next, r, start, k + 1, cuts, stop)
    ensures CutFrom(chunks, r, start, k, cuts, stop)
  {
    var i := Priority(|chunks|, start, k);
    var next := chunks[i := chunks[i].(value := chunks[i].value - cuts[k + 1])];
    forall j | k < j < |chunks|
      ensures next[Priority(|chunks|, start, j)] == chunks[Priority(|chunks|, start, j)]
    {
      PriorityInjective(|chunks|, start, k, j);
    }
  }

  lemma CutsOfRest(chunks: seq<UnlockChunk>, start: nat, k: nat, rule: Rule, cuts: seq<nat>, c: UnlockChunk)
    requires start <= |chunks| && rule.proportional && |cuts| == |chunks| + 1 && k < |chunks|
    requires CutsFrom(chunks, start, k, rule, cuts)
    ensures CutsFrom(chunks[Priority(|chunks|, start, k) := c], start, k + 1, rule, cuts)
  {
    forall j | k < j < |chunks|
      ensures Priority(|chunks|, start, k) != Priority(|chunks|, start, j)
    {
      PriorityInjective(|chunks|, start, k, j);
    }
  }

  /** One round of the loop under a proportional rule. */
  lemma OneCut(chunks: seq<UnlockChunk>, start: nat, k: nat, amount: nat, rule: Rule, cuts: seq<nat>)
      returns (next: seq<UnlockChunk>, r: seq<UnlockChunk>)
    requires start <= |chunks| && k < |chunks| && rule.proportional && |cuts| == |chunks| + 1
    requires cuts[k + 1] == CutOf(rule, chunks[Priority(|chunks|, start, k)].value) && Prefix(cuts, k + 1) < amount
    ensures var i := Priority(|chunks|, start, k); next == chunks[i := chunks[i].(value := chunks[i].value - cuts[k + 1])]
    ensures r == SlashedFrom(next, start, k + 1, Monus(amount, Prefix(cuts, k + 2)), rule)
    ensures r == SlashedFrom(chunks, start, k, Monus(amount, Prefix(cuts, k + 1)), rule)
    ensures r[Priority(|chunks|, start, k)] == next[Priority(|chunks|, start, k)]
  {
    var i := Priority(|chunks|, start, k);
    var remaining := Monus(amount, Prefix(cuts, k + 1));
    assert Cut(rule, chunks[i].value, remaining) == cuts[k + 1];
    next := chunks[i := chunks[i].(value := chunks[i].value - cuts[k + 1])];
    assert Prefix(cuts, k + 2) == Prefix(cuts, k + 1) + cuts[k + 1];
    r := SlashedFrom(next, start, k + 1, Monus(remaining, cuts[k + 1]), rule);
    SlashedFromShrinks(next, start, k + 1, Monus(remaining, cuts[k + 1]), rule);
  }

  /** The loop over the chunks makes exactly the cuts before the stop. */
  lemma {:induction false} ProportionalFrom(chunks: seq<UnlockChunk>, start: nat, k: nat, amount: nat, rule: Rule,
                                            cuts: seq<nat>)
    requires start <= |chunks| && k <= |chunks| && rule.proportional && |cuts| == |chunks| + 1
    requires CutsFrom(chunks, start, k, rule, cuts)
    ensures CutFrom(chunks, SlashedFrom(chunks, start, k, Monus(amount, Prefix(cuts, k + 1)), rule), start, k, cuts,
                    Stop(cuts, amount, k + 1))
    decreases |chunks| - k
  {
    if k < |chunks| && Prefix(cuts, k + 1) < amount {
      var next, r := OneCut(chunks, start, k, amount, rule, cuts);
      CutsOfRest(chunks, start, k, rule, cuts, next[Priority(|chunks|, start, k)]);
      ProportionalFrom(next, start, k + 1, amount, rule, cuts);
      CutOne(chunks, r, start, k, cuts, Stop(cuts, amount, k + 1));
    } else {
      StopExact(cuts, amount, k + 1);
    }
  }

  lemma TargetsShrink(l: Ledger, s: SlashInput)
    requires s.amount != 0
    ensures var before := TargetsOf(l, s);
            var after := Targets(Slashed(l, s).active, ChunksAfter(l, s), AffectedStart(l.unlocking, s.unlockEra));
            forall k :: 0 <= k < |before| ==> before[k] == after[k] + Losses(l, s)[k]
  {
    SlashedFromShrinks(l.unlocking, AffectedStart(l.unlocking, s.unlockEra), 0,
                       Monus(s.amount, Cut(RuleFor(l, s), l.active, s.amount)), RuleFor(l, s));
  }

  lemma CutsOfChunks(l: Ledger, s: SlashInput)
    requires Proportional(l, s)
    ensures CutsFrom(l.unlocking, AffectedStart(l.unlocking, s.unlockEra), 0, RuleFor(l, s), Cuts(l, s))
    ensures Prefix(Cuts(l, s), 1) == Cuts(l, s)[0] == Cut(RuleFor(l, s), l.active, s.amount)
  {
    var targets, start := TargetsOf(l, s), AffectedStart(l.unlocking, s.unlockEra);
    forall k | 0 <= k < |l.unlocking|
      ensures targets[k + 1] == l.unlocking[Priority(|l.unlocking|, start, k)].value
    {
    }
    assert Cuts(l, s)[0] == CutOf(RuleFor(l, s), l.active);
  }

  lemma ProportionalChunks(l: Ledger, s: SlashInput)
    requires Proportional(l, s)
    ensures var start := AffectedStart(l.unlocking, s.unlockEra);
            CutFrom(l.unlocking, ChunksAfter(l, s), start, 0, Cuts(l, s), Stop(Cuts(l, s), s.amount, 0))
    ensures Cuts(l, s)[0] == Cut(RuleFor(l, s), l.active, s.amount) && 0 < Stop(Cuts(l, s), s.amount, 0)
  {
    CutsOfChunks(l, s);
    ProportionalFrom(l.unlocking, AffectedStart(l.unlocking, s.unlockEra), 0, s.amount, RuleFor(l, s), Cuts(l, s));
  }

  lemma LossByCut(active: nat, active': nat, chunks: seq<UnlockChunk>, r: seq<UnlockChunk>, start: nat, k: nat,
                  cuts: seq<nat>, stop: nat)
    requires start <= |chunks| == |r| && |cuts| == |chunks| + 1 && k < |chunks|
    requires CutFrom(chunks, r, start, 0, cuts, stop)
    ensures Monus(Targets(active, chunks, start)[k + 1], Targets(active', r, start)[k + 1])
         == if k + 1 < stop then cuts[k + 1] else 0
  {
    var i := Priority(|chunks|, start, k);
    assert r[i].value == chunks[i].value - if k + 1 < stop then cuts[k + 1] else 0;
  }

  lemma LossesAre(l: Ledger, s: SlashInput, after: seq<nat>, k: nat)
    requires k <= |l.unlocking|
    requires after == Targets(Slashed(l, s).active, ChunksAfter(l, s), AffectedStart(l.unlocking, s.unlockEra))
    ensures Losses(l, s)[k] == Monus(TargetsOf(l, s)[k], after[k])
  {
  }

  lemma ActiveLoss(l: Ledger, s: SlashInput)
    requires s.amount != 0
    ensures Losses(l, s)[0] == Cut(RuleFor(l, s), l.active, s.amount)
  {
  }

  /** A proportional slash takes from each target before the stop exactly its cut, from later ones nothing. */
  lemma ProportionalLosses(l: Ledger, s: SlashInput)
    requires Proportional(l, s)
    ensures Until(Cuts(l, s), Losses(l, s), Stop(Cuts(l, s), s.amount, 0))
  {
    var cuts, losses, stop, start := Cuts(l, s), Losses(l, s), Stop(Cuts(l, s), s.amount, 0), AffectedStart(l.unlocking, s.unlockEra);
    var active', r := Slashed(l, s).active, ChunksAfter(l, s);
    ProportionalChunks(l, s);
    forall k | 0 <= k < |losses|
      ensures losses[k] == if k < stop then cuts[k] else 0
    {
      if k > 0 {
        LossByCut(l.active, active', l.unlocking, r, start, k - 1, cuts, stop);
        LossesAre(l, s, Targets(active', r, start), k);
      } else {
        ActiveLoss(l, s);
      }
    }
  }

  lemma {:induction false} TargetsSum(active: nat, chunks: seq<UnlockChunk>, start: nat, k: nat)
    requires start <= |chunks| && k <= |chunks|
    ensures Prefix(Targets(active, chunks, start), k + 1) + Rest(chunks, start, k) == active + Sum(chunks)
  {
    var targets := Targets(active, chunks, start);
    if k == 0 {
      RestIsSum(chunks, start, 0);
      SumSplit(chunks, start);
      assert Prefix(targets, 1) == Prefix(targets, 0) + targets[0];
    } else {
      TargetsSum(active, chunks, start, k - 1);
      assert targets[k] == chunks[Priority(|chunks|, start, k - 1)].value;
    }
  }

  lemma TargetsTotal(active: nat, chunks: seq<UnlockChunk>, start: nat)
    requires start <= |chunks|
    ensures Prefix(Targets(active, chunks, start), |chunks| + 1) == active + Sum(chunks)
  {
    TargetsSum(active, chunks, start, |chunks|);
  }

  /** The affected targets come first. */
  lemma TargetsAffected(active: nat, chunks: seq<UnlockChunk>, start: nat)
    requires start <= |chunks|
    ensures Prefix(Targets(active, chunks, start), 1 + |chunks| - start) == active + Sum(chunks[start..])
  {
    TargetsSum(active, chunks, start, |chunks| - start);
    RestIsSum(chunks, start, |chunks| - start);
    SumSplit(chunks, start);
  }

  /** What a slash takes from the active balance and the affected chunks. */
  function AffectedTaken(l: Ledger, s: SlashInput): int {
    var start := AffectedStart(l.unlocking, s.unlockEra);
    l.active - Slashed(l, s).active + Sum(l.unlocking[start..]) - Sum(ChunksAfter(l, s)[start..])
  }

  lemma LossesPrefix(l: Ledger, s: SlashInput, m: nat)
    requires s.amount != 0 && m <= |l.unlocking| + 1
    ensures var after := Targets(Slashed(l, s).active, ChunksAfter(l, s), AffectedStart(l.unlocking, s.unlockEra));
            Prefix(TargetsOf(l, s), m) == Prefix(after, m) + Prefix(Losses(l, s), m)
  {
    var after := Targets(Slashed(l, s).active, ChunksAfter(l, s), AffectedStart(l.unlocking, s.unlockEra));
    TargetsShrink(l, s);
    PrefixDifference(TargetsOf(l, s), after, Losses(l, s), m);
  }

  lemma TotalLost(l: Ledger, s: SlashInput)
    requires Consistent(l) && s.amount != 0
    ensures Prefix(Losses(l, s), |l.unlocking| + 1) == l.total - Slashed(l, s).total
  {
    TotalAfter(l, s);
    TargetsTotal(l.active, l.unlocking, AffectedStart(l.unlocking, s.unlockEra));
    TargetsTotal(Slashed(l, s).active, ChunksAfter(l, s), AffectedStart(l.unlocking, s.unlockEra));
    LossesPrefix(l, s, |l.unlocking| + 1);
  }

  lemma AffectedLost(l: Ledger, s: SlashInput)
    requires s.amount != 0
    ensures Prefix(Losses(l, s), AffectedCount(l, s)) == AffectedTaken(l, s)
  {
    TargetsAffected(l.active, l.unlocking, AffectedStart(l.unlocking, s.unlockEra));
    TargetsAffected(Slashed(l, s).active, ChunksAfter(l, s), AffectedStart(l.unlocking, s.unlockEra));
    LossesPrefix(l, s, AffectedCount(l, s));
  }

  /** The losses add up to what the total drops by, and those of the affected targets to what is taken there. */
  lemma LossesTotal(l: Ledger, s: SlashInput)
    requires Consistent(l) && s.amount != 0
    ensures Prefix(Losses(l, s), |l.unlocking| + 1) == l.total - Slashed(l, s).total
    ensures Prefix(Losses(l, s), AffectedCount(l, s)) == AffectedTaken(l, s)
  {
    TotalLost(l, s);
    AffectedLost(l, s);
  }

  lemma TotalAfter(l: Ledger, s: SlashInput)
    requires Consistent(l) && s.amount != 0
    ensures Slashed(l, s).total == Slashed(l, s).active + Sum(ChunksAfter(l, s))
  {
    SlashKeeps(l, s);
    SumNonZero(ChunksAfter(l, s));
  }

  /** A proportional slash takes the cuts of the targets up to the stop. */
  lemma ProportionalTaken(l: Ledger, s: SlashInput)
    requires Consistent(l) && Proportional(l, s)
    ensures var cuts, m := Cuts(l, s), Stop(Cuts(l, s), s.amount, 0);
            && l.total - Slashed(l, s).total == Prefix(cuts, m)
            && AffectedTaken(l, s) == Prefix(cuts, Min(AffectedCount(l, s), m))
  {
    var cuts, losses, m := Cuts(l, s), Losses(l, s), Stop(Cuts(l, s), s.amount, 0);
    LossesTotal(l, s);
    ProportionalLosses(l, s);
    StopExact(cuts, s.amount, 0);
    PrefixUntil(cuts, losses, m, |losses|);
    PrefixUntil(cuts, losses, m, AffectedCount(l, s));
  }

  /** The dust swept is what the cuts up to the stop exceed the shares by. */
  lemma DustTotal(l: Ledger, s: SlashInput, n: nat)
    requires Proportional(l, s) && n <= |l.unlocking| + 1
    ensures var m := Min(n, Stop(Cuts(l, s), s.amount, 0));
            m <= |l.unlocking| + 1 && Prefix(Cuts(l, s), m) == Prefix(Shares(l, s), m) + Prefix(Dust(l, s), n)
    ensures forall k :: 0 <= k < |Dust(l, s)| ==> Dust(l, s)[k] <= Monus(s.minimum, 1)
  {
    var cuts, shares, m := Cuts(l, s), Shares(l, s), Stop(Cuts(l, s), s.amount, 0);
    var dust := seq(|cuts|, k requires 0 <= k < |cuts| => Monus(cuts[k], shares[k]));
    ProportionalLosses(l, s);
    StopExact(cuts, s.amount, 0);
    PrefixDifference(cuts, shares, dust, Min(n, m));
    PrefixUntil(dust, Dust(l, s), m, n);
  }

  /** A target that is still to be cut when the cuts fall short, and the last one if its cut makes up for it. */
  lemma StopAt(cuts: seq<nat>, amount: nat, k: nat)
    requires k < |cuts| && Prefix(cuts, k) < amount
    ensures k < Stop(cuts, amount, 0)
    ensures amount <= Prefix(cuts, k + 1) ==> Stop(cuts, amount, 0) == k + 1
  {
    var m := Stop(cuts, amount, 0);
    StopExact(cuts, amount, 0);
    if m <= k { PrefixMono(cuts, m, k); }
    if k + 1 < m { PrefixMono(cuts, k + 1, m - 1); }
  }

  /** The first k cuts fall short of the amount, and the first k + 1 parts of cuts go beyond it. */
  predicate Oversteps(cuts: seq<nat>, parts: seq<nat>, amount: nat, k: nat) {
    k < |cuts| == |parts| && Prefix(cuts, k) < amount < Prefix(parts, k + 1)
  }

  lemma OverstepsAtStop(cuts: seq<nat>, parts: seq<nat>, amount: nat)
    requires 0 < amount && |cuts| == |parts| && forall k :: 0 <= k < |cuts| ==> parts[k] <= cuts[k]
    ensures amount < Prefix(parts, Stop(cuts, amount, 0)) <==> exists k :: Oversteps(cuts, parts, amount, k)
  {
    var m := Stop(cuts, amount, 0);
    StopExact(cuts, amount, 0);
    if amount < Prefix(parts, m) { assert Oversteps(cuts, parts, amount, m - 1); }
    if k: nat :| Oversteps(cuts, parts, amount, k) {
      PrefixBelow(parts, cuts, k + 1);
      StopAt(cuts, amount, k);
    }
  }

  /** A proportional slash takes more than the amount exactly when, going through the targets in order, the
      cuts made so far fall short of it and the next cut goes beyond it. */
  lemma ProportionalGrowsIff(l: Ledger, s: SlashInput)
    requires Consistent(l) && Proportional(l, s)
    ensures s.amount < l.total - Slashed(l, s).total <==> exists k :: Oversteps(Cuts(l, s), Cuts(l, s), s.amount, k)
  {
    ProportionalTaken(l, s);
    OverstepsAtStop(Cuts(l, s), Cuts(l, s), s.amount);
  }

  /** The promise that a slash grows only by swept dust fails exactly when, with the cuts made so far still
      short of the amount, the shares alone, with no dust in them, go beyond it at the next target. */
  lemma ProportionalGrowsBeyondDustIff(l: Ledger, s: SlashInput)
    requires Consistent(l) && Proportional(l, s)
    ensures s.amount + Prefix(Dust(l, s), |Dust(l, s)|) < l.total - Slashed(l, s).total
       <==> exists k :: Oversteps(Cuts(l, s), Shares(l, s), s.amount, k)
  {
    ProportionalTaken(l, s);
    DustTotal(l, s, |l.unlocking| + 1);
    OverstepsAtStop(Cuts(l, s), Shares(l, s), s.amount);
  }

  // ---- what the affected targets lose

  ghost predicate NearExact(shares: seq<nat>, targets: seq<nat>, ratio: nat) {
    |shares| == |targets| && forall k :: 0 <= k < |shares| ==> Abs(QUINTILLION * shares[k] - ratio * targets[k]) <= QUINTILLION
  }

  /** Rounding errors of the shares add up. */
  lemma {:induction false} SharesNearExact(shares: seq<nat>, targets: seq<nat>, ratio: nat, m: nat)
    requires NearExact(shares, targets, ratio) && m <= |shares|
    ensures Abs(QUINTILLION * Prefix(shares, m) - ratio * Prefix(targets, m)) <= QUINTILLION * m
  {
    if m > 0 {
      SharesNearExact(shares, targets, ratio, m - 1);
      MulDistrib(ratio, Prefix(targets, m - 1), targets[m - 1]);
      NearAdd(Prefix(shares, m - 1), ratio * Prefix(targets, m - 1), shares[m - 1], ratio * targets[m - 1], m - 1);
    }
  }

  lemma NearAdd(a: int, x: int, b: int, y: int, n: int)
    requires Abs(QUINTILLION * a - x) <= QUINTILLION * n && Abs(QUINTILLION * b - y) <= QUINTILLION
    ensures Abs(QUINTILLION * (a + b) - (x + y)) <= QUINTILLION * (n + 1)
  {
  }

  lemma SharesAreNear(l: Ledger, s: SlashInput)
    requires IsProduct(QUINTILLION, s.mul) && WithinOne(QUINTILLION, s.mul) && s.ratio <= QUINTILLION
    ensures NearExact(Shares(l, s), TargetsOf(l, s), s.ratio)
  {
    forall v: nat
      ensures ShareOf(RuleFor(l, s), v) == s.mul(s.ratio, v)
      ensures Abs(QUINTILLION * s.mul(s.ratio, v) - s.ratio * v) <= QUINTILLION
    {
    }
  }

  lemma AffectedIsPrefix(l: Ledger, s: SlashInput)
    ensures Prefix(TargetsOf(l, s), AffectedCount(l, s)) == Affected(l, s.unlockEra)
  {
    TargetsAffected(l.active, l.unlocking, AffectedStart(l.unlocking, s.unlockEra));
  }

  lemma AffectedSharesNear(l: Ledger, s: SlashInput)
    requires NearExact(Shares(l, s), TargetsOf(l, s), s.ratio)
    ensures Abs(QUINTILLION * Prefix(Shares(l, s), AffectedCount(l, s)) - s.ratio * Affected(l, s.unlockEra))
         <= QUINTILLION * AffectedCount(l, s)
  {
    AffectedIsPrefix(l, s);
    SharesNearExact(Shares(l, s), TargetsOf(l, s), s.ratio, AffectedCount(l, s));
  }

  lemma DustAtMost(l: Ledger, s: SlashInput)
    requires Proportional(l, s)
    ensures Prefix(Dust(l, s), AffectedCount(l, s)) <= AffectedCount(l, s) * Monus(s.minimum, 1)
  {
    DustTotal(l, s, 0);
    PrefixAtMost(Dust(l, s), Monus(s.minimum, 1), AffectedCount(l, s));
  }

  /** A slash below the affected balance takes from the affected targets the amount asked for, up to one
      unit per target and the affected balance times the ratio's error, and the dust that it sweeps there,
      which is less than a minimum balance per target; this holds also when the loop stops early. */
  lemma ProportionalSlashBound(l: Ledger, s: SlashInput)
    requires IsProduct(QUINTILLION, s.mul) && WithinOne(QUINTILLION, s.mul) && s.ratio <= QUINTILLION
    requires Consistent(l) && Proportional(l, s)
    ensures var targets, dust := AffectedCount(l, s), Prefix(Dust(l, s), AffectedCount(l, s));
            var error := QUINTILLION * targets + Abs(s.ratio * Affected(l, s.unlockEra) - QUINTILLION * s.amount);
            && QUINTILLION * (s.amount - AffectedTaken(l, s)) <= error
            && QUINTILLION * (AffectedTaken(l, s) - dust - s.amount) <= error
            && dust <= targets * Monus(s.minimum, 1)
  {
    SharesAreNear(l, s);
    AffectedSharesNear(l, s);
    AffectedTakenNear(l, s);
    DustAtMost(l, s);
    NearAmount(AffectedTaken(l, s), Prefix(Dust(l, s), AffectedCount(l, s)), Prefix(Shares(l, s), AffectedCount(l, s)),
               s.amount, s.ratio * Affected(l, s.unlockEra), AffectedCount(l, s));
  }

  /** Without its dust, what is taken from the affected targets is at most their shares; it is short of them
      only if it reaches the amount. */
  lemma AffectedTakenNear(l: Ledger, s: SlashInput)
    requires Consistent(l) && Proportional(l, s)
    ensures var taken, shares := AffectedTaken(l, s), Prefix(Shares(l, s), AffectedCount(l, s));
            taken - Prefix(Dust(l, s), AffectedCount(l, s)) <= shares && (shares <= taken || s.amount <= taken)
  {
    var cuts, shares, n, m := Cuts(l, s), Shares(l, s), AffectedCount(l, s), Stop(Cuts(l, s), s.amount, 0);
    ProportionalTaken(l, s);
    StopExact(cuts, s.amount, 0);
    DustTotal(l, s, n);
    PrefixBelow(shares, cuts, n);
    PrefixMono(shares, Min(n, m), n);
  }

  lemma NearAmount(taken: int, dust: int, shares: int, amount: int, exact: int, n: int)
    requires taken - dust <= shares && (shares <= taken || amount <= taken)
    requires Abs(QUINTILLION * shares - exact) <= QUINTILLION * n
    ensures QUINTILLION * (amount - taken) <= QUINTILLION * n + Abs(exact - QUINTILLION * amount)
    ensures QUINTILLION * (taken - dust - amount) <= QUINTILLION * n + Abs(exact - QUINTILLION * amount)
  {
  }

  // ---- when older chunks are reached

  /** Some chunk older than the affected ones changes. */
  predicate Spills(l: Ledger, s: SlashInput) {
    exists i :: 0 <= i < AffectedStart(l.unlocking, s.unlockEra) && ChunksAfter(l, s)[i] != l.unlocking[i]
  }

  lemma SpillsByLosses(l: Ledger, s: SlashInput)
    requires s.amount != 0
    ensures Spills(l, s) <==> exists k :: AffectedCount(l, s) <= k < |Losses(l, s)| && Losses(l, s)[k] != 0
  {
    var chunks, start, r := l.unlocking, AffectedStart(l.unlocking, s.unlockEra), ChunksAfter(l, s);
    SlashedFromShrinks(chunks, start, 0, Monus(s.amount, Cut(RuleFor(l, s), l.active, s.amount)), RuleFor(l, s));
    forall k | AffectedCount(l, s) <= k < |Losses(l, s)|
      ensures Losses(l, s)[k] != 0 <==> r[|chunks| - k] != chunks[|chunks| - k]
    {
      assert Priority(|chunks|, start, k - 1) == |chunks| - k;
    }
    if Spills(l, s) {
      var i :| 0 <= i < start && r[i] != chunks[i];
      assert Losses(l, s)[|chunks| - i] != 0;
    }
  }

  /** The first nonzero number from n on adds to a prefix as long as n. */
  lemma {:induction false} FirstNonZero(a: seq<nat>, n: nat, k: nat) returns (j: nat)
    requires n <= k < |a| && a[k] != 0
    ensures n <= j <= k && a[j] != 0 && Prefix(a, j) == Prefix(a, n)
    decreases k - n
  {
    if a[n] != 0 { j := n; } else { j := FirstNonZero(a, n + 1, k); }
  }

  /** A slash below the affected balance reaches chunks older than the affected ones exactly when the cuts of
      the affected targets fall short of the amount and some older chunk has a nonzero cut. */
  lemma ProportionalSpillsIff(l: Ledger, s: SlashInput)
    requires Proportional(l, s)
    ensures Spills(l, s) <==> Prefix(Cuts(l, s), AffectedCount(l, s)) < s.amount
                              && exists k :: AffectedCount(l, s) <= k < |Cuts(l, s)| && Cuts(l, s)[k] != 0
  {
    var cuts, losses, n, m := Cuts(l, s), Losses(l, s), AffectedCount(l, s), Stop(Cuts(l, s), s.amount, 0);
    SpillsByLosses(l, s);
    ProportionalLosses(l, s);
    StopExact(cuts, s.amount, 0);
    if k :| n <= k < |losses| && losses[k] != 0 {
      PrefixMono(cuts, n, m - 1);
      assert cuts[k] != 0;
    }
    if k :| Prefix(cuts, n) < s.amount && n <= k < |cuts| && cuts[k] != 0 {
      var j := FirstNonZero(cuts, n, k);
      StopAt(cuts, s.amount, j);
      assert losses[j] != 0;
    }
  }

  const NEAREST: (nat, nat) -> nat := (p, x) => Nearest(QUINTILLION, p, x)

  const ROUNDING_LEDGER: Ledger := Ledger(5, 1, [UnlockChunk(1, 9), UnlockChunk(3, 9)])

  const ROUNDING_SLASH: SlashInput := SlashInput(3, 0, 5, 600_000_000_000_000_000, NEAREST)

  lemma RoundingCuts()
    ensures Consistent(ROUNDING_LEDGER) && Proportional(ROUNDING_LEDGER, ROUNDING_SLASH)
    ensures Cuts(ROUNDING_LEDGER, ROUNDING_SLASH) == [1, 1, 2]
    ensures AffectedCount(ROUNDING_LEDGER, ROUNDING_SLASH) == 3
  {
    var c := ROUNDING_LEDGER.unlocking;
    assert AffectedStart(c, 5) == 0 && c[0..] == c;
    SumOfTwo(c);
    assert TargetsOf(ROUNDING_LEDGER, ROUNDING_SLASH) == [1, 1, 3];
    assert NEAREST(600_000_000_000_000_000, 1) == 1 && NEAREST(600_000_000_000_000_000, 3) == 2;
  }

  /** Rounding alone makes a slash grow, with no dust and no older chunk: three units slashed from 1, 1 and 3
      round to shares of 1, 1 and 2. */
  lemma ProportionalSlashCanRoundUp()
    ensures var l, s := ROUNDING_LEDGER, ROUNDING_SLASH;
            && Consistent(l) && Proportional(l, s) && l.total - Slashed(l, s).total == 4 > s.amount
            && Prefix(Dust(l, s), |Dust(l, s)|) == 0 && !Spills(l, s)
  {
    RoundingCuts();
    TakenByThreeCuts(ROUNDING_LEDGER, ROUNDING_SLASH);
  }

  lemma TakenByThreeCuts(l: Ledger, s: SlashInput)
    requires Consistent(l) && Proportional(l, s) && s.minimum == 0 && AffectedCount(l, s) == 3
    requires |l.unlocking| == 2 && Cuts(l, s)[0] + Cuts(l, s)[1] < s.amount
    ensures l.total - Slashed(l, s).total == Cuts(l, s)[0] + Cuts(l, s)[1] + Cuts(l, s)[2]
    ensures Prefix(Dust(l, s), 3) == 0 && !Spills(l, s)
  {
    var cuts := Cuts(l, s);
    assert Prefix(cuts, 3) == cuts[0] + cuts[1] + cuts[2] && Prefix(cuts, 2) == cuts[0] + cuts[1] by {
      assert Prefix(cuts, 1) == cuts[0];
    }
    ProportionalTaken(l, s);
    StopAt(cuts, s.amount, 2);
    DustTotal(l, s, 3);
    PrefixAtMost(Dust(l, s), 0, 3);
  }

  /** It does happen: one unit slashed from three affected units rounds to nothing for each of them, and a
      third of an older chunk of 3000 is taken instead. */
  lemma ProportionalSlashCanOvershoot()
    ensures var mul := (p: nat, x: nat) => Nearest(QUINTILLION, p, x);
            var l := Ledger(3003, 1, [UnlockChunk(3000, 1), UnlockChunk(1, 9), UnlockChunk(1, 9)]);
            var s := SlashInput(1, 0, 5, 333_333_333_333_333_333, mul);
            && Consistent(l) && s.amount < Affected(l, s.unlockEra)
            && l.total - Slashed(l, s).total == 1000
  {
    var mul := (p: nat, x: nat) => Nearest(QUINTILLION, p, x);
    var c := [UnlockChunk(3000, 1), UnlockChunk(1, 9), UnlockChunk(1, 9)];
    var l := Ledger(3003, 1, c);
    var s := SlashInput(1, 0, 5, 333_333_333_333_333_333, mul);
    var rule := Rule(true, s.ratio, mul, 0);
    assert c[1..][0].era == 9;
    assert AffectedStart(c, 5) == 1;
    SumOfThree(c);
    SumOfTwo(c[1..]);
    assert RuleFor(l, s) == rule;
    assert Cut(rule, 1, 1) == 0;
    assert Cut(rule, 3000, 1) == 1000;
    assert c[1 := c[1].(value := 1)] == c && c[2 := c[2].(value := 1)] == c;
    var d := c[0 := UnlockChunk(2000, 1)];
    assert SlashedFrom(c, 1, 2, 1, rule) == SlashedFrom(d, 1, 3, 0, rule) == d;
    assert SlashedFrom(c, 1, 1, 1, rule) == d;
    assert ChunksAfter(l, s) == d;
    SumOfThree(d);
  }

  lemma SumOfThree(c: seq<UnlockChunk>)
    requires |c| == 3
    ensures Sum(c) == c[0].value + c[1].value + c[2].value
  {
    SumFirst(c);
    SumOfTwo(c[1..]);
  }

  lemma SumOfTwo(c: seq<UnlockChunk>)
    requires |c| == 2
    ensures Sum(c) == c[0].value + c[1].value
  {
    SumFirst(c);
    SumFirst(c[1..]);
    assert c[1..][1..] == [];
  }

  // ---- any sequence of operations

  datatype LedgerOp = ConsolidateOp(era: nat) | RebondOp(value: nat) | SlashOp(input: SlashInput)

  function LedgerStep(l: Ledger, op: LedgerOp): Ledger {
    match op
    case ConsolidateOp(era) => Consolidated(l, era)
    case RebondOp(value) => Rebonded(l, value)
    case SlashOp(input) => Slashed(l, input)
  }

  function LedgerRun(l: Ledger, ops: seq<LedgerOp>): Ledger {
    if ops == [] then l else LedgerStep(LedgerRun(l, ops[..|ops| - 1]), ops[|ops| - 1])
  }

  /** Any sequence of withdrawals, rebonds and slashes keeps the total equal to active plus unlocking, so
      that no subtraction from it ever saturates, keeps the chunks sorted by era, and never raises the total. */
  lemma {:induction false} RunKeepsLedger(l: Ledger, ops: seq<LedgerOp>)
    requires Consistent(l) && EraSorted(l.unlocking)
    ensures var r := LedgerRun(l, ops); Consistent(r) && EraSorted(r.unlocking) && r.total <= l.total
  {
    if ops != [] {
      RunKeepsLedger(l, ops[..|ops| - 1]);
      var before := LedgerRun(l, ops[..|ops| - 1]);
      match ops[|ops| - 1]
      case ConsolidateOp(era) => ConsolidateKeeps(before, era); UnexpiredSum(before.unlocking, era);
      case RebondOp(value) => RebondKeeps(before, value);
      case SlashOp(input) => SlashKeeps(before, input);
    }
  }

  // ---- the ledger as it is edited in place

  /** The ledger after a slash, from the one with all chunks still there. */
  lemma SlashedBy(l: Ledger, s: SlashInput, r: Ledger)
    requires s.amount != 0 && r.active == l.active - Cut(RuleFor(l, s), l.active, s.amount)
    requires r.unlocking == ChunksAfter(l, s)
    requires r.total == Monus(Monus(l.total, l.active - r.active), Monus(Sum(l.unlocking), Sum(r.unlocking)))
    ensures Slashed(l, s) == r.(unlocking := NonZero(r.unlocking))
  {
  }

  lemma AfterSlashIs(l: Ledger, amount: nat, minimum: nat, slashEra: nat, bondingDuration: nat, mul: (nat, nat) -> nat,
                     fromRational: (nat, nat) -> nat, r: Ledger)
    requires r == Slashed(l, InputOf(l, amount, minimum, slashEra + 1 + bondingDuration, mul, fromRational))
    ensures r == AfterSlash(l, amount, minimum, slashEra, bondingDuration, mul, fromRational)
  {
  }

  /** One more chunk looked at when withdrawing. */
  lemma ConsolidateStep(chunks: seq<UnlockChunk>, k: nat, era: nat, total: nat)
    requires k < |chunks|
    ensures var kept, kept' := Unexpired(chunks[..k], era), Unexpired(chunks[..k + 1], era);
            && kept' == (if chunks[k].era > era then kept + [chunks[k]] else kept)
            && Monus(total, Monus(Sum(chunks[..k + 1]), Sum(kept')))
               == (var before := Monus(total, Monus(Sum(chunks[..k]), Sum(kept)));
                   if chunks[k].era > era then before else Monus(before, chunks[k].value))
  {
    assert chunks[..k + 1] == chunks[..k] + [chunks[k]];
    SumAppend(chunks[..k], chunks[k]);
    UnexpiredAppend(chunks[..k], chunks[k], era);
    UnexpiredSum(chunks[..k], era);
    SumAppend(Unexpired(chunks[..k], era), chunks[k]);
  }

  class StakingLedger {
    var total: nat
    var active: nat
    var unlocking: seq<UnlockChunk>

    function Value(): Ledger
      reads this
    {
      Ledger(total, active, unlocking)
    }

    constructor (l: Ledger)
      ensures Value() == l
    {
      total, active, unlocking := l.total, l.active, l.unlocking;
    }

    /** Drops the chunks that are old enough and takes their balance out of the total. */
    method ConsolidateUnlocked(currentEra: nat)
      modifies this
      ensures Value() == Consolidated(old(Value()), currentEra)
    {
      var chunks, kept := unlocking, [];
      var k := 0;
      while k < |chunks|
        invariant 0 <= k <= |chunks| && active == old(active)
        invariant kept == Unexpired(chunks[..k], currentEra)
        invariant total == Monus(old(total), Monus(Sum(chunks[..k]), Sum(kept)))
      {
        var chunk := chunks[k];
        ConsolidateStep(chunks, k, currentEra, old(total));
        if chunk.era > currentEra {
          kept := kept + [chunk];
        } else {
          total := Monus(total, chunk.value);
        }
        k := k + 1;
      }
      assert chunks[..k] == chunks;
      unlocking := kept;
    }

    /** Moves up to `value` of unlocking funds back to the active balance, newest chunk first. */
    method Rebond(value: nat) returns (unlockingBalance: nat)
      modifies this`active, this`unlocking
      ensures Value() == Rebonded(old(Value()), value)
      ensures unlockingBalance == Min(value, Sum(old(unlocking)))
    {
      unlockingBalance := 0;
      while unlocking != []
        invariant unlockingBalance < value || (unlockingBalance == value == 0 && unlocking == old(unlocking))
        invariant active == old(active) + unlockingBalance
        invariant Sum(old(unlocking)) == unlockingBalance + Sum(unlocking)
        invariant Taken(unlocking, value - unlockingBalance) == Taken(old(unlocking), value)
        decreases |unlocking|
      {
        var last := unlocking[|unlocking| - 1];
        if unlockingBalance + last.value <= value {
          unlockingBalance := unlockingBalance + last.value;
          active := active + last.value;
          unlocking := unlocking[..|unlocking| - 1];
        } else {
          var diff := value - unlockingBalance;
          unlockingBalance := unlockingBalance + diff;
          active := active + diff;
          SumUpdate(unlocking, |unlocking| - 1, last.value - diff);
          unlocking := unlocking[|unlocking| - 1 := last.(value := last.value - diff)];
        }
        if unlockingBalance >= value {
          break;
        }
      }
    }

    /** Slashes one target; what is left of it goes too if it is dust. */
    method SlashOutOf(target: nat, slashRemaining: nat, rule: Rule) returns (target': nat, slashRemaining': nat)
      modifies this`total
      ensures target' == target - Cut(rule, target, slashRemaining)
      ensures slashRemaining' == Monus(slashRemaining, target - target')
      ensures total == Monus(old(total), target - target')
    {
      var slashFromTarget := Min(if rule.proportional then rule.mul(rule.ratio, target) else slashRemaining, target);
      target' := target - slashFromTarget;
      if target' < rule.minimum {
        slashFromTarget := target' + slashFromTarget;
        target' := 0;
      }
      total := Monus(total, slashFromTarget);
      slashRemaining' := Monus(slashRemaining, slashFromTarget);
    }

    /** The index of the first affected chunk. */
    method AffectedIndex(unlockEra: nat) returns (start: nat)
      ensures start == AffectedStart(unlocking, unlockEra)
    {
      start := 0;
      assert unlocking[0..] == unlocking;
      while start < |unlocking| && unlocking[start].era < unlockEra
        invariant 0 <= start <= |unlocking|
        invariant AffectedStart(unlocking, unlockEra) == start + AffectedStart(unlocking[start..], unlockEra)
      {
        assert unlocking[start..][1..] == unlocking[start + 1..];
        start := start + 1;
      }
    }

    /** The active balance and that of the chunks from `start` on. */
    method BalanceFrom(start: nat) returns (affectedBalance: nat)
      requires start <= |unlocking|
      ensures affectedBalance == active + Sum(unlocking[start..])
    {
      affectedBalance := active;
      var i := start;
      while i < |unlocking|
        invariant start <= i <= |unlocking|
        invariant affectedBalance + Sum(unlocking[i..]) == active + Sum(unlocking[start..])
      {
        SumFirst(unlocking[i..]);
        assert unlocking[i..][1..] == unlocking[i + 1..];
        affectedBalance := affectedBalance + unlocking[i].value;
        i := i + 1;
      }
    }

    /** Slashes the chunks in order until nothing remains to be slashed. */
    method SlashChunks(start: nat, remaining: nat, rule: Rule)
      requires start <= |unlocking|
      modifies this`total, this`unlocking
      ensures unlocking == SlashedFrom(old(unlocking), start, 0, remaining, rule)
      ensures total == Monus(old(total), Monus(Sum(old(unlocking)), Sum(unlocking)))
    {
      var remainingSlash := remaining;
      var k := 0;
      while k < |unlocking|
        invariant 0 <= k <= |unlocking| == |old(unlocking)|
        invariant Sum(unlocking) <= Sum(old(unlocking))
        invariant total == Monus(old(total), Sum(old(unlocking)) - Sum(unlocking))
        invariant SlashedFrom(unlocking, start, k, remainingSlash, rule)
               == SlashedFrom(old(unlocking), start, 0, remaining, rule)
      {
        if remainingSlash == 0 {
          break;
        }
        var i := Priority(|unlocking|, start, k);
        var value;
        value, remainingSlash := SlashOutOf(unlocking[i].value, remainingSlash, rule);
        SumUpdate(unlocking, i, value);
        unlocking := unlocking[i := unlocking[i].(value := value)];
        k := k + 1;
      }
    }

    /** Slashes the active balance, then the chunks unbonded after the slash, then older ones; returns
        what was taken in all. `fromRational` is the library's ratio of two balances. */
    method Slash(slashAmount: nat, minimumBalance: nat, slashEra: nat, bondingDuration: nat,
                 mul: (nat, nat) -> nat, fromRational: (nat, nat) -> nat) returns (slashed: nat)
      modifies this
      ensures Value() == AfterSlash(old(Value()), slashAmount, minimumBalance, slashEra, bondingDuration, mul, fromRational)
      ensures slashed == Monus(old(total), total)
    {
      if slashAmount == 0 {
        return 0;
      }
      var remainingSlash := slashAmount;
      var preSlashTotal := total;
      var eraAfterSlash := slashEra + 1;
      var chunkUnlockEra := eraAfterSlash + bondingDuration;
      var start := AffectedIndex(chunkUnlockEra);
      var affectedBalance := BalanceFrom(start);
      var ratio := fromRational(slashAmount, affectedBalance);
      var rule := Rule(slashAmount < affectedBalance, ratio, mul, minimumBalance);
      ghost var before, input := Value(), InputOf(Value(), slashAmount, minimumBalance, chunkUnlockEra, mul, fromRational);
      assert rule == RuleFor(before, input);
      active, remainingSlash := SlashOutOf(active, remainingSlash, rule);
      SlashChunks(start, remainingSlash, rule);
      SlashedBy(before, input, Value());
      unlocking := NonZero(unlocking);
      AfterSlashIs(before, slashAmount, minimumBalance, slashEra, bondingDuration, mul, fromRational, Value());
      slashed := Monus(preSlashTotal, total);
    }
  }
}
