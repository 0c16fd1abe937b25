/** Applying a computed slash: taking the funds, capping the reward, paying the reporters. */
module ApplySlash {
  import opened Arith
  import opened Sums
  import opened Balances
  import opened Ledgers
  import S = Slashing

  type AccountId = nat

  /** What the runtime provides: the library's fraction arithmetic and two parameters. */
  datatype Env = Env(mul: (nat, nat) -> nat, fromRational: (nat, nat) -> nat, minimumBalance: nat, bondingDuration: nat)

  datatype Funds = Funds(free: Free, ledgers: map<AccountId, Ledger>)

  datatype Seized = Seized(funds: Funds, collected: nat, missing: nat)

  function SlashedLedger(env: Env, l: Ledger, value: nat, era: nat): Ledger {
    AfterSlash(l, value, env.minimumBalance, era, env.bondingDuration, env.mul, env.fromRational)
  }

  /** Takes from the stash's balance what its ledger loses when it becomes l'. */
  function SeizeTo(funds: Funds, stash: AccountId, controller: AccountId, l': Ledger): Seized
    requires controller in funds.ledgers
  {
    var due := Monus(funds.ledgers[controller].total, l'.total);
    if due == 0 then Seized(funds, 0, 0)
    else
      var taken := Min(due, BalanceOf(funds.free, stash));
      Seized(Funds(Withdrawn(funds.free, stash, taken), funds.ledgers[controller := l']), taken, due - taken)
  }

  /** Slashes one stash: the ledger says how much, the balance says how much of that is there. */
  function Seize(env: Env, bonded: map<AccountId, AccountId>, funds: Funds, stash: AccountId, value: nat, era: nat)
    : Seized
  {
    if stash !in bonded || bonded[stash] !in funds.ledgers then Seized(funds, 0, 0)
    else SeizeTo(funds, stash, bonded[stash], SlashedLedger(env, funds.ledgers[bonded[stash]], value, era))
  }

  function SeizeAll(env: Env, bonded: map<AccountId, AccountId>, funds: Funds, items: seq<(AccountId, nat)>, era: nat)
    : Seized
  {
    if items == [] then Seized(funds, 0, 0)
    else
      var before := SeizeAll(env, bonded, funds, items[..|items| - 1], era);
      var last := items[|items| - 1];
      var s := Seize(env, bonded, before.funds, last.0, last.1, era);
      Seized(s.funds, before.collected + s.collected, before.missing + s.missing)
  }

  function PaidEach(free: Free, reporters: seq<AccountId>, each: nat): Free {
    if reporters == [] then free
    else Deposited(PaidEach(free, reporters[..|reporters| - 1], each), reporters[|reporters| - 1], each)
  }

  datatype Payment = Payment(free: Free, handler: nat)

  function RewardEach(payout: nat, imbalance: nat, reporters: seq<AccountId>): nat {
    if reporters == [] then 0
    else
      DivNonneg(Min(payout, imbalance), |reporters|);
      Min(payout, imbalance) / |reporters|
  }

  /** The reporters share the payout evenly, the rest goes to the handler of slashed funds. */
  function PaidReporters(free: Free, payout: nat, imbalance: nat, reporters: seq<AccountId>): Payment {
    if payout == 0 || reporters == [] then Payment(free, imbalance)
    else
      var each := RewardEach(payout, imbalance, reporters);
      Payment(PaidEach(free, reporters, each), Monus(imbalance, each * |reporters|))
  }

  datatype Applied = Applied(funds: Funds, handler: nat)

  function Items(u: S.UnappliedSlash): seq<(AccountId, nat)> {
    [(u.validator, u.own)] + u.others
  }

  function AppliedSlash(env: Env, bonded: map<AccountId, AccountId>, funds: Funds, u: S.UnappliedSlash, era: nat)
    : Applied
  {
    var s := SeizeAll(env, bonded, funds, Items(u), era);
    var payment := PaidReporters(s.funds.free, Monus(u.payout, s.missing), s.collected, u.reporters);
    Applied(Funds(payment.free, s.funds.ledgers), payment.handler)
  }

  // ---- where the money goes

  function LedgerTotal(ledgers: map<AccountId, Ledger>, controller: AccountId): nat {
    if controller in ledgers then ledgers[controller].total else 0
  }

  /** Everything accounted for in the ledgers. */
  ghost function Staked(ledgers: map<AccountId, Ledger>): int {
    SumSet(ledgers.Keys, (c: nat) => LedgerTotal(ledgers, c))
  }

  lemma StakedUpdate(ledgers: map<AccountId, Ledger>, controller: AccountId, l: Ledger)
    requires controller in ledgers
    ensures Staked(ledgers[controller := l]) == Staked(ledgers) - ledgers[controller].total + l.total
  {
    var ledgers' := ledgers[controller := l];
    assert ledgers'.Keys == ledgers.Keys;
    SumSetUpdate(ledgers.Keys, (c: nat) => LedgerTotal(ledgers, c), (c: nat) => LedgerTotal(ledgers', c), controller);
  }

  ghost predicate AllConsistent(ledgers: map<AccountId, Ledger>) {
    forall c :: c in ledgers ==> Consistent(ledgers[c])
  }

  lemma SeizeToConserves(funds: Funds, stash: AccountId, controller: AccountId, l': Ledger)
    requires controller in funds.ledgers
    ensures var s := SeizeTo(funds, stash, controller, l');
            && Total(s.funds.free) == Total(funds.free) - s.collected
            && Staked(s.funds.ledgers) == Staked(funds.ledgers) - s.collected - s.missing
  {
    var due := Monus(funds.ledgers[controller].total, l'.total);
    var taken := Min(due, BalanceOf(funds.free, stash));
    TotalUpdate(funds.free, stash, Monus(BalanceOf(funds.free, stash), taken));
    StakedUpdate(funds.ledgers, controller, l');
  }

  /** Only the stash's balance and its controller's ledger change, the balance by what is collected. */
  lemma SeizeToOnly(funds: Funds, stash: AccountId, controller: AccountId, l': Ledger, a: AccountId)
    requires controller in funds.ledgers
    ensures var s := SeizeTo(funds, stash, controller, l');
            && BalanceOf(s.funds.free, a) == BalanceOf(funds.free, a) - (if a == stash then s.collected else 0)
            && s.collected + s.missing == Monus(funds.ledgers[controller].total, l'.total)
            && (s.missing > 0 ==> BalanceOf(s.funds.free, stash) == 0)
            && (a != controller && a in funds.ledgers ==> a in s.funds.ledgers && s.funds.ledgers[a] == funds.ledgers[a])
            && (s.collected + s.missing > 0 ==> s.funds.ledgers[controller] == l')
  {
  }

  /** What is collected comes out of the stash's balance, and what the ledgers lose is collected or missing. */
  lemma SeizeConserves(env: Env, bonded: map<AccountId, AccountId>, funds: Funds, stash: AccountId, value: nat,
                       era: nat)
    ensures var s := Seize(env, bonded, funds, stash, value, era);
            && Total(s.funds.free) == Total(funds.free) - s.collected
            && Staked(s.funds.ledgers) == Staked(funds.ledgers) - s.collected - s.missing
  {
    if stash in bonded && bonded[stash] in funds.ledgers {
      SeizeToConserves(funds, stash, bonded[stash], SlashedLedger(env, funds.ledgers[bonded[stash]], value, era));
    }
  }

  lemma SlashedLedgerConsistent(env: Env, l: Ledger, value: nat, era: nat)
    requires Consistent(l)
    ensures Consistent(SlashedLedger(env, l, value, era))
  {
    SlashKeeps(l, InputOf(l, value, env.minimumBalance, era + 1 + env.bondingDuration, env.mul, env.fromRational));
  }

  lemma SeizeKeepsConsistent(env: Env, bonded: map<AccountId, AccountId>, funds: Funds, stash: AccountId, value: nat,
                             era: nat)
    requires AllConsistent(funds.ledgers)
    ensures AllConsistent(Seize(env, bonded, funds, stash, value, era).funds.ledgers)
  {
    if stash in bonded && bonded[stash] in funds.ledgers {
      SlashedLedgerConsistent(env, funds.ledgers[bonded[stash]], value, era);
    }
  }

  lemma {:induction false} SeizeAllConserves(
      env: Env, bonded: map<AccountId, AccountId>, funds: Funds, items: seq<(AccountId, nat)>, era: nat)
    ensures var s := SeizeAll(env, bonded, funds, items, era);
            && Total(s.funds.free) == Total(funds.free) - s.collected
            && Staked(s.funds.ledgers) == Staked(funds.ledgers) - s.collected - s.missing
            && (AllConsistent(funds.ledgers) ==> AllConsistent(s.funds.ledgers))
  {
    if items != [] {
      var last := items[|items| - 1];
      var before := SeizeAll(env, bonded, funds, items[..|items| - 1], era);
      SeizeAllConserves(env, bonded, funds, items[..|items| - 1], era);
      SeizeConserves(env, bonded, before.funds, last.0, last.1, era);
      if AllConsistent(before.funds.ledgers) {
        SeizeKeepsConsistent(env, bonded, before.funds, last.0, last.1, era);
      }
    }
  }

  lemma {:induction false} PaidEachTotal(free: Free, reporters: seq<AccountId>, each: nat)
    ensures Total(PaidEach(free, reporters, each)) == Total(free) + each * |reporters|
  {
    if reporters != [] {
      var before := PaidEach(free, reporters[..|reporters| - 1], each);
      var last := reporters[|reporters| - 1];
      PaidEachTotal(free, reporters[..|reporters| - 1], each);
      TotalUpdate(before, last, BalanceOf(before, last) + each);
      MulDistrib(each, |reporters| - 1, 1);
    }
  }

  function Occurrences(reporters: seq<AccountId>, a: AccountId): nat {
    if reporters == [] then 0
    else Occurrences(reporters[..|reporters| - 1], a) + if reporters[|reporters| - 1] == a then 1 else 0
  }

  /** Every reporter gets the even share once for each time it is listed; nobody else gets anything. */
  lemma {:induction false} PaidEachShare(free: Free, reporters: seq<AccountId>, each: nat, a: AccountId)
    ensures BalanceOf(PaidEach(free, reporters, each), a) == BalanceOf(free, a) + each * Occurrences(reporters, a)
  {
    if reporters != [] {
      PaidEachShare(free, reporters[..|reporters| - 1], each, a);
      MulDistrib(each, Occurrences(reporters[..|reporters| - 1], a), 1);
    }
  }

  /** The reporters' rewards and what the handler gets make up the imbalance; the rewards stay within the payout. */
  lemma PayReportersConserves(free: Free, payout: nat, imbalance: nat, reporters: seq<AccountId>)
    ensures var p := PaidReporters(free, payout, imbalance, reporters);
            var rewards := RewardEach(payout, imbalance, reporters) * |reporters|;
            && Total(p.free) == Total(free) + rewards
            && rewards + p.handler == imbalance
            && rewards <= payout
            && (reporters != [] ==> Min(payout, imbalance) - rewards < |reporters|)
  {
    var each := RewardEach(payout, imbalance, reporters);
    PaidEachTotal(free, reporters, each);
    if reporters != [] {
      DivBounds(Min(payout, imbalance), |reporters|);
      if payout == 0 { DivUnique(0, |reporters|, 0); }
    }
  }

  /** Applying a slash neither creates nor destroys funds: what leaves the stashes goes to the reporters or
      the handler, the rewards stay within the payout less what was missing, and the ledgers lose exactly
      what was collected or missing. */
  lemma ApplySlashConserves(env: Env, bonded: map<AccountId, AccountId>, funds: Funds, u: S.UnappliedSlash, era: nat)
    ensures var r := AppliedSlash(env, bonded, funds, u, era);
            var s := SeizeAll(env, bonded, funds, Items(u), era);
            && Total(r.funds.free) + r.handler == Total(funds.free)
            && r.handler <= s.collected
            && s.collected - r.handler <= Monus(u.payout, s.missing)
            && Staked(r.funds.ledgers) == Staked(funds.ledgers) - s.collected - s.missing
            && (AllConsistent(funds.ledgers) ==> AllConsistent(r.funds.ledgers))
  {
    var s := SeizeAll(env, bonded, funds, Items(u), era);
    SeizeAllConserves(env, bonded, funds, Items(u), era);
    PayReportersConserves(s.funds.free, Monus(u.payout, s.missing), s.collected, u.reporters);
  }

  // ---- whose funds

  /** The slash has one listing of stash n, of v: as the validator with its own slash, or as a nominator. */
  ghost predicate ListedOnce(u: S.UnappliedSlash, n: AccountId, v: nat) {
    if u.validator == n then v == u.own && NotAmong(u.others, n)
    else exists k :: OnlyAt(u.others, n, v, k)
  }

  ghost predicate NotAmong(items: seq<(AccountId, nat)>, n: AccountId) {
    forall k :: 0 <= k < |items| ==> items[k].0 != n
  }

  ghost predicate OnlyAt(items: seq<(AccountId, nat)>, n: AccountId, v: nat, k: int) {
    && 0 <= k < |items| && items[k] == (n, v)
    && forall j :: 0 <= j < |items| && j != k ==> items[j].0 != n
  }

  /** The stash is bonded to a controller that has a ledger and that no other stash is bonded to. */
  ghost predicate OwnLedger(bonded: map<AccountId, AccountId>, funds: Funds, n: AccountId) {
    && n in bonded && bonded[n] in funds.ledgers
    && forall m :: m in bonded && m != n ==> bonded[m] != bonded[n]
  }

  /** Ledger and balance of stash n are as before. */
  ghost predicate Untouched(bonded: map<AccountId, AccountId>, funds: Funds, funds': Funds, n: AccountId)
    requires OwnLedger(bonded, funds, n)
  {
    && bonded[n] in funds'.ledgers && funds'.ledgers[bonded[n]] == funds.ledgers[bonded[n]]
    && BalanceOf(funds'.free, n) == BalanceOf(funds.free, n)
  }

  /** The ledger of stash n is slashed by v, and the balance falls by what the ledger lost, as far as it goes. */
  ghost predicate SlashedBy(env: Env, bonded: map<AccountId, AccountId>, funds: Funds, funds': Funds, n: AccountId,
                            v: nat, era: nat)
    requires OwnLedger(bonded, funds, n)
  {
    var l := funds.ledgers[bonded[n]];
    var l' := AfterSlash(l, v, env.minimumBalance, era, env.bondingDuration, env.mul, env.fromRational);
    && bonded[n] in funds'.ledgers && funds'.ledgers[bonded[n]] == (if l'.total < l.total then l' else l)
    && BalanceOf(funds'.free, n) == Monus(BalanceOf(funds.free, n), Monus(l.total, l'.total))
  }

  lemma SeizeUntouched(env: Env, bonded: map<AccountId, AccountId>, funds: Funds, stash: AccountId, value: nat,
                       era: nat, n: AccountId)
    requires OwnLedger(bonded, funds, n) && stash != n
    ensures Untouched(bonded, funds, Seize(env, bonded, funds, stash, value, era).funds, n)
  {
    if stash in bonded && bonded[stash] in funds.ledgers {
      var l' := SlashedLedger(env, funds.ledgers[bonded[stash]], value, era);
      SeizeToOnly(funds, stash, bonded[stash], l', n);
      SeizeToOnly(funds, stash, bonded[stash], l', bonded[n]);
    }
  }

  lemma {:induction false} UnlistedUntouched(
      env: Env, bonded: map<AccountId, AccountId>, funds: Funds, items: seq<(AccountId, nat)>, era: nat, n: AccountId)
    requires OwnLedger(bonded, funds, n) && NotAmong(items, n)
    ensures Untouched(bonded, funds, SeizeAll(env, bonded, funds, items, era).funds, n)
  {
    if items != [] {
      var init, last := items[..|items| - 1], items[|items| - 1];
      UnlistedUntouched(env, bonded, funds, init, era, n);
      SeizeUntouched(env, bonded, SeizeAll(env, bonded, funds, init, era).funds, last.0, last.1, era, n);
    }
  }

  lemma {:induction false} ListedSlashed(
      env: Env, bonded: map<AccountId, AccountId>, funds: Funds, items: seq<(AccountId, nat)>, era: nat, n: AccountId,
      v: nat, k: nat)
    requires OwnLedger(bonded, funds, n) && OnlyAt(items, n, v, k)
    ensures SlashedBy(env, bonded, funds, SeizeAll(env, bonded, funds, items, era).funds, n, v, era)
  {
    var init, last := items[..|items| - 1], items[|items| - 1];
    var before := SeizeAll(env, bonded, funds, init, era).funds;
    if k == |init| {
      UnlistedUntouched(env, bonded, funds, init, era, n);
      SeizeToOnly(before, n, bonded[n], SlashedLedger(env, before.ledgers[bonded[n]], v, era), n);
    } else {
      ListedSlashed(env, bonded, funds, init, era, n, v, k);
      SeizeUntouched(env, bonded, before, last.0, last.1, era, n);
    }
  }

  /** Without a ledger there is nothing to do, listed or not. */
  lemma {:induction false} NoLedgerKeeps(
      env: Env, bonded: map<AccountId, AccountId>, funds: Funds, items: seq<(AccountId, nat)>, era: nat, n: AccountId)
    requires n !in bonded || bonded[n] !in funds.ledgers
    ensures var s := SeizeAll(env, bonded, funds, items, era);
            BalanceOf(s.funds.free, n) == BalanceOf(funds.free, n) && s.funds.ledgers.Keys == funds.ledgers.Keys
  {
    if items != [] {
      var last := items[|items| - 1];
      var before := SeizeAll(env, bonded, funds, items[..|items| - 1], era).funds;
      NoLedgerKeeps(env, bonded, funds, items[..|items| - 1], era, n);
      if last.0 in bonded && bonded[last.0] in before.ledgers {
        SeizeToOnly(before, last.0, bonded[last.0], SlashedLedger(env, before.ledgers[bonded[last.0]], last.1, era), n);
      }
    }
  }

  lemma StashSeized(env: Env, bonded: map<AccountId, AccountId>, funds: Funds, u: S.UnappliedSlash, era: nat,
                    n: AccountId, v: nat)
    requires OwnLedger(bonded, funds, n)
    ensures var funds' := SeizeAll(env, bonded, funds, Items(u), era).funds;
            && (ListedOnce(u, n, v) ==> SlashedBy(env, bonded, funds, funds', n, v, era))
            && (u.validator != n && NotAmong(u.others, n) ==> Untouched(bonded, funds, funds', n))
  {
    var items := Items(u);
    if ListedOnce(u, n, v) {
      if u.validator == n {
        assert OnlyAt(items, n, v, 0);
        ListedSlashed(env, bonded, funds, items, era, n, v, 0);
      } else {
        var k :| OnlyAt(u.others, n, v, k);
        assert OnlyAt(items, n, v, k + 1);
        ListedSlashed(env, bonded, funds, items, era, n, v, k + 1);
      }
    } else if u.validator != n && NotAmong(u.others, n) {
      UnlistedUntouched(env, bonded, funds, items, era, n);
    }
  }

  /** The even share of the reporters and what the handler gets, when the ledgers lost `collected + missing`. */
  ghost predicate Shares(u: S.UnappliedSlash, collected: nat, missing: nat, each: nat, handler: nat) {
    var rewards := Min(Monus(u.payout, missing), collected);
    && handler + each * |u.reporters| == collected
    && (if u.reporters == [] then each == 0 else each * |u.reporters| <= rewards < (each + 1) * |u.reporters|)
  }

  /** Whose funds a slash takes, and how much: a stash that is listed once and does not share its ledger has its ledger
      slashed by the listed value for the era of the offence, and its balance falls by what the ledger lost, as far as
      it goes; a stash that is not listed, or that has no ledger, keeps both. Every reporter then gets the same share,
      once for each time it is listed, of the payout less what balances could not cover, or of what was collected if
      that is less. */
  lemma ApplySlashTakes(env: Env, bonded: map<AccountId, AccountId>, funds: Funds, u: S.UnappliedSlash, era: nat)
      returns (seized: Funds, collected: nat, missing: nat, each: nat)
    ensures var r := AppliedSlash(env, bonded, funds, u, era);
            && (forall n, v :: OwnLedger(bonded, funds, n) && ListedOnce(u, n, v) ==>
                  SlashedBy(env, bonded, funds, seized, n, v, era))
            && (forall n :: OwnLedger(bonded, funds, n) && u.validator != n && NotAmong(u.others, n) ==>
                  Untouched(bonded, funds, seized, n))
            && (forall n :: n !in bonded || bonded[n] !in funds.ledgers ==>
                  BalanceOf(seized.free, n) == BalanceOf(funds.free, n))
            && Total(seized.free) == Total(funds.free) - collected
            && Staked(seized.ledgers) == Staked(funds.ledgers) - collected - missing
            && r.funds.ledgers == seized.ledgers
            && (forall n :: BalanceOf(r.funds.free, n) == BalanceOf(seized.free, n) + each * Occurrences(u.reporters, n))
            && Shares(u, collected, missing, each, r.handler)
  {
    var s := SeizeAll(env, bonded, funds, Items(u), era);
    seized, collected, missing := s.funds, s.collected, s.missing;
    SeizeAllConserves(env, bonded, funds, Items(u), era);
    forall n, v | OwnLedger(bonded, funds, n) && ListedOnce(u, n, v)
      ensures SlashedBy(env, bonded, funds, seized, n, v, era)
    {
      StashSeized(env, bonded, funds, u, era, n, v);
    }
    forall n | OwnLedger(bonded, funds, n) && u.validator != n && NotAmong(u.others, n)
      ensures Untouched(bonded, funds, seized, n)
    {
      StashSeized(env, bonded, funds, u, era, n, 0);
    }
    forall n | n !in bonded || bonded[n] !in funds.ledgers
      ensures BalanceOf(seized.free, n) == BalanceOf(funds.free, n)
    {
      NoLedgerKeeps(env, bonded, funds, Items(u), era, n);
    }
    each := RewardEach(Monus(u.payout, missing), collected, u.reporters);
    PaidShares(seized.free, u, collected, missing, each);
  }

  lemma PaidShares(free: Free, u: S.UnappliedSlash, collected: nat, missing: nat, each: nat)
    requires each == RewardEach(Monus(u.payout, missing), collected, u.reporters)
    ensures var p := PaidReporters(free, Monus(u.payout, missing), collected, u.reporters);
            && Shares(u, collected, missing, each, p.handler)
            && forall n :: BalanceOf(p.free, n) == BalanceOf(free, n) + each * Occurrences(u.reporters, n)
  {
    var payout := Monus(u.payout, missing);
    PayReportersConserves(free, payout, collected, u.reporters);
    if u.reporters != [] {
      DivBounds(Min(payout, collected), |u.reporters|);
      MulPlusOne(each, |u.reporters|);
      if payout == 0 { DivUnique(0, |u.reporters|, 0); }
    }
    forall n
      ensures BalanceOf(PaidEach(free, u.reporters, each), n) == BalanceOf(free, n) + each * Occurrences(u.reporters, n)
    {
      PaidEachShare(free, u.reporters, each, n);
    }
    if payout == 0 || u.reporters == [] {
      assert forall n :: each * Occurrences(u.reporters, n) == 0;
    }
  }

  // ---- the storage as it is edited in place

  class Staking {
    const env: Env
    var bonded: map<AccountId, AccountId>
    var ledgers: map<AccountId, Ledger>
    var free: Free
    /** What the handler of slashed funds has received. */
    var handled: nat

    function FundsNow(): Funds
      reads this
    {
      Funds(free, ledgers)
    }

    constructor (env: Env, bonded: map<AccountId, AccountId>, funds: Funds)
      ensures this.env == env && this.bonded == bonded && FundsNow() == funds && handled == 0
    {
      this.env, this.bonded, ledgers, free, handled := env, bonded, funds.ledgers, funds.free, 0;
    }

    /** The ledger of a controller after a slash, and how much its total drops. */
    method SlashLedger(controller: AccountId, value: nat, slashEra: nat) returns (l: Ledger, taken: nat)
      requires controller in ledgers
      ensures l == SlashedLedger(env, ledgers[controller], value, slashEra)
      ensures taken == Monus(ledgers[controller].total, l.total)
    {
      var ledger := new StakingLedger(ledgers[controller]);
      taken := ledger.Slash(value, env.minimumBalance, slashEra, env.bondingDuration, env.mul, env.fromRational);
      l := ledger.Value();
    }

    /** Takes what a ledger lost out of the stash's balance; what is missing lowers the reward payout. */
    method Settle(stash: AccountId, controller: AccountId, l: Ledger, taken: nat, rewardPayout: nat,
                  slashedImbalance: nat)
      returns (rewardPayout': nat, slashedImbalance': nat)
      requires controller in ledgers && taken == Monus(ledgers[controller].total, l.total)
      modifies this`ledgers, this`free
      ensures var s := SeizeTo(old(FundsNow()), stash, controller, l);
              && FundsNow() == s.funds
              && rewardPayout' == Monus(rewardPayout, s.missing)
              && slashedImbalance' == slashedImbalance + s.collected
    {
      rewardPayout', slashedImbalance' := rewardPayout, slashedImbalance;
      if taken != 0 {
        var imbalance := Min(taken, BalanceOf(free, stash));
        var missing := taken - imbalance;
        free := Withdrawn(free, stash, imbalance);
        slashedImbalance' := slashedImbalance' + imbalance;
        if missing != 0 {
          rewardPayout' := Monus(rewardPayout', missing);
        }
        ledgers := ledgers[controller := l];
      }
    }

    /** Takes a slash from one stash; without a controller or a ledger there is nothing to do. */
    method DoSlash(stash: AccountId, value: nat, slashEra: nat, rewardPayout: nat, slashedImbalance: nat)
      returns (rewardPayout': nat, slashedImbalance': nat)
      modifies this`ledgers, this`free
      ensures var s := Seize(env, bonded, old(FundsNow()), stash, value, slashEra);
              && FundsNow() == s.funds
              && rewardPayout' == Monus(rewardPayout, s.missing)
              && slashedImbalance' == slashedImbalance + s.collected
    {
      if stash !in bonded || bonded[stash] !in ledgers {
        return rewardPayout, slashedImbalance;
      }
      var controller := bonded[stash];
      var l, taken := SlashLedger(controller, value, slashEra);
      rewardPayout', slashedImbalance' := Settle(stash, controller, l, taken, rewardPayout, slashedImbalance);
    }

    /** Takes the slashes of a list of stashes, in order. */
    method SlashItems(items: seq<(AccountId, nat)>, slashEra: nat, payout: nat)
      returns (rewardPayout: nat, slashedImbalance: nat)
      modifies this`ledgers, this`free
      ensures var s := SeizeAll(env, bonded, old(FundsNow()), items, slashEra);
              && FundsNow() == s.funds
              && rewardPayout == Monus(payout, s.missing)
              && slashedImbalance == s.collected
    {
      rewardPayout, slashedImbalance := payout, 0;
      var k := 0;
      while k < |items|
        invariant 0 <= k <= |items|
        invariant var s := SeizeAll(env, bonded, old(FundsNow()), items[..k], slashEra);
                  && FundsNow() == s.funds
                  && rewardPayout == Monus(payout, s.missing)
                  && slashedImbalance == s.collected
      {
        assert items[..k + 1][..k] == items[..k];
        rewardPayout, slashedImbalance := DoSlash(items[k].0, items[k].1, slashEra, rewardPayout, slashedImbalance);
        k := k + 1;
      }
      assert items[..k] == items;
    }

    /** Applies an unapplied slash: the validator first, then the nominators, then the reporters are paid. */
    method ApplySlash(u: S.UnappliedSlash, slashEra: nat)
      modifies this`ledgers, this`free, this`handled
      ensures var r := AppliedSlash(env, bonded, old(FundsNow()), u, slashEra);
              FundsNow() == r.funds && handled == old(handled) + r.handler
    {
      var rewardPayout, slashedImbalance := SlashItems(Items(u), slashEra, u.payout);
      PayReporters(rewardPayout, slashedImbalance, u.reporters);
    }

    /** Pays the reporters out of the slashed imbalance, an even share each. */
    method PayReporters(rewardPayout: nat, slashedImbalance: nat, reporters: seq<AccountId>)
      modifies this`free, this`handled
      ensures var p := PaidReporters(old(free), rewardPayout, slashedImbalance, reporters);
              free == p.free && handled == old(handled) + p.handler
    {
      if rewardPayout == 0 || reporters == [] {
        handled := handled + slashedImbalance;
        return;
      }
      var payout := Min(rewardPayout, slashedImbalance);
      var valueSlashed := slashedImbalance - payout;
      var perReporter := payout / |reporters|;
      DivBounds(payout, |reporters|);
      DivNonneg(payout, |reporters|);
      var whole := payout;
      var k := 0;
      while k < |reporters|
        invariant 0 <= k <= |reporters| && handled == old(handled)
        invariant payout == whole - perReporter * k
        invariant free == PaidEach(old(free), reporters[..k], perReporter)
      {
        assert reporters[..k + 1][..k] == reporters[..k];
        MulMono(k + 1, |reporters|, perReporter);
        MulDistrib(perReporter, k, 1);
        payout := payout - perReporter;
        free := Deposited(free, reporters[k], perReporter);
        k := k + 1;
      }
      assert reporters[..k] == reporters;
      valueSlashed := valueSlashed + payout;
      handled := handled + valueSlashed;
    }
  }
}
