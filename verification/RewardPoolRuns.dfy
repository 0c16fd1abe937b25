/** The reward pool over whole runs: where shares and rewards go, and lazy against per-block accrual. */
module RewardPoolRuns {
  import opened Arith
  import opened Options
  import opened Sums
  import opened Balances
  import opened RewardPool

  // ---- sums over the accounts

  function SharesOf(accounts: map<AccountId, AccountInfo>): Free {
    map a | a in accounts :: accounts[a].shares
  }

  function BorrowedOf(accounts: map<AccountId, AccountInfo>): Free {
    map a | a in accounts :: accounts[a].borrowed
  }

  ghost function TotalBorrowed(pool: Pool): int { Total(BorrowedOf(pool.accounts)) }

  lemma AccountsUpdate(accounts: map<AccountId, AccountInfo>, who: AccountId, account: AccountInfo)
    ensures Total(SharesOf(accounts[who := account]))
         == Total(SharesOf(accounts)) - BalanceOf(SharesOf(accounts), who) + account.shares
    ensures Total(BorrowedOf(accounts[who := account]))
         == Total(BorrowedOf(accounts)) - BalanceOf(BorrowedOf(accounts), who) + account.borrowed
  {
    assert SharesOf(accounts[who := account]) == SharesOf(accounts)[who := account.shares];
    assert BorrowedOf(accounts[who := account]) == BorrowedOf(accounts)[who := account.borrowed];
    TotalUpdate(SharesOf(accounts), who, account.shares);
    TotalUpdate(BorrowedOf(accounts), who, account.borrowed);
  }

  // ---- accounting

  /** The shares add up, and nothing is promised that is neither useable nor borrowed. `leak` is what
      total rewards exceed the useable and borrowed ones by. */
  ghost predicate Accounts(pool: Pool, leak: nat) {
    && pool.info.totalShares == Total(SharesOf(pool.accounts))
    && pool.info.totalRewards == pool.info.useable + TotalBorrowed(pool) + leak
  }

  /** The debt repaid by removing shares, and what those shares are worth before it is taken off. */
  function Repaid(account: AccountInfo, amount: nat): nat
    requires 0 < account.shares
  {
    Scaled(amount, account.borrowed, account.shares)
  }

  /** The guard of the branch that pays nothing: what the removed shares are worth, less the debt they repay,
      is not above the existential reward. */
  predicate TooSmall(env: Env, info: PoolInfo, account: AccountInfo, amount: nat)
    requires 0 < account.shares && 0 < info.totalShares
  {
    Scaled(amount, info.totalRewards, info.totalShares) <= Repaid(account, amount) + env.existential
  }

  /** The debt a call writes off: that of a removal of shares that is too small to pay. */
  function WrittenOff(env: Env, pool: Pool, call: Call, now: nat): nat {
    if call.RemoveShare? && CallAt(env, pool, call, now).Ok? then
      var info, account := Accrued(env, pool, now).value.info, AccountOf(pool, call.who);
      if TooSmall(env, info, account, call.amount) then Repaid(account, call.amount) else 0
    else 0
  }

  /** Every call keeps the accounting, with what small removals write off counted. */
  lemma CallKeepsAccounts(env: Env, pool: Pool, call: Call, now: nat, leak: nat)
    requires Accounts(pool, leak)
    ensures Accounts(PoolAfter(env, pool, call, now), leak + WrittenOff(env, pool, call, now))
  {
    if CallAt(env, pool, call, now).Ok? {
      var p := Accrued(env, pool, now).value;
      AccrualKeepsPrice(env, pool, now);
      var after := CallAt(env, pool, call, now).value.pool;
      AccountsUpdate(p.accounts, call.who, AccountOf(after, call.who));
      if call.ClaimRewards? {
        assert after.accounts == p.accounts || after.accounts == p.accounts[call.who := AccountOf(after, call.who)];
      }
    }
  }

  /** The shares can be removed and carry a debt, which they are worth by no more than the existential and the
      useable rewards. */
  predicate LosesDebt(env: Env, info: PoolInfo, account: AccountInfo, amount: nat) {
    && 0 < amount <= account.shares && amount <= info.totalShares
    && var worth, repaid := Scaled(amount, info.totalRewards, info.totalShares), Repaid(account, amount);
       0 < repaid <= worth <= U128_MAX && worth - repaid <= env.existential && worth - repaid <= info.useable
  }

  lemma PartIsLess(x: nat, y: nat, d: nat)
    requires 0 < d && x <= d
    ensures Floor(x * SCALE, d) <= SCALE && Scaled(x, y, d) <= y
  {
    ScaledBounds(x, y, d);
    MulMono(x, d, y);
    if y < Scaled(x, y, d) {
      MulMono(y + 1, Scaled(x, y, d), d);
      MulPlus(y, 1, d);
    }
    MulMono(x, d, SCALE);
    DivMono(x * SCALE, d * SCALE, d);
    DivUnique(SCALE * d, d, SCALE);
  }

  lemma SmallRemoval(env: Env, info: PoolInfo, account: AccountInfo, amount: nat)
    ensures LosesDebt(env, info, account, amount)
       <==> RewardsByAccountShares(env, info, account, amount).Ok? && TooSmall(env, info, account, amount)
            && Repaid(account, amount) != 0
    ensures LosesDebt(env, info, account, amount) ==> RewardsByAccountShares(env, info, account, amount).value.reward == 0
  {
    if 0 < amount <= account.shares && amount <= info.totalShares {
      PartIsLess(amount, info.totalRewards, info.totalShares);
      PartIsLess(amount, account.borrowed, account.shares);
    }
  }

  /** A call breaks the conservation law exactly when the pool can be brought up to date and the call removes
      shares that carry a debt and are not worth enough more to be paid for. */
  lemma ConservationBreaksIff(env: Env, pool: Pool, call: Call, now: nat, leak: nat)
    requires Accounts(pool, leak)
    ensures !Accounts(PoolAfter(env, pool, call, now), leak)
       <==> call.RemoveShare? && Accrued(env, pool, now).Ok?
            && LosesDebt(env, Accrued(env, pool, now).value.info, AccountOf(pool, call.who), call.amount)
  {
    CallKeepsAccounts(env, pool, call, now, leak);
    if call.RemoveShare? && Accrued(env, pool, now).Ok? {
      SmallRemoval(env, Accrued(env, pool, now).value.info, AccountOf(pool, call.who), call.amount);
    }
  }

  // ---- outstanding claims

  /** What the shares of an account are worth before what it borrowed is taken off. */
  function Worth(info: PoolInfo, shares: nat): nat {
    if info.totalShares == 0 || shares == 0 then 0 else Scaled(shares, info.totalRewards, info.totalShares)
  }

  ghost function OutstandingClaims(pool: Pool): int {
    SumSet(pool.accounts.Keys, (a: nat) => Worth(pool.info, BalanceOf(SharesOf(pool.accounts), a)))
      - TotalBorrowed(pool)
  }

  lemma {:induction false} SumSetScaled(s: set<nat>, f: nat -> int, g: nat -> int, c: int, d: int)
    requires forall x :: x in s ==> f(x) * c <= d * g(x)
    ensures SumSet(s, f) * c <= d * SumSet(s, g)
    decreases s
  {
    if s != {} {
      var x :| x in s;
      SumSetRemove(s, f, x);
      SumSetRemove(s, g, x);
      SumSetScaled(s - {x}, f, g, c, d);
      MulPlus(f(x), SumSet(s - {x}, f), c);
      MulDistrib(d, g(x), SumSet(s - {x}, g));
    }
  }

  lemma WorthIsCovered(info: PoolInfo, shares: Free)
    requires info.totalShares == Total(shares)
    ensures SumSet(shares.Keys, (a: nat) => Worth(info, BalanceOf(shares, a))) <= info.totalRewards
  {
    var keys := shares.Keys;
    var f, g := (a: nat) => Worth(info, BalanceOf(shares, a)), (a: nat) => BalanceOf(shares, a);
    if info.totalShares == 0 {
      SumSetZero(keys, f);
    } else {
      forall a | a in keys
        ensures f(a) * info.totalShares <= info.totalRewards * g(a)
      {
        if g(a) != 0 { ScaledBounds(g(a), info.totalRewards, info.totalShares); }
      }
      SumSetScaled(keys, f, g, info.totalShares, info.totalRewards);
      TotalOver(shares, keys);
      CancelShares(SumSet(keys, f), info.totalRewards, info.totalShares, SumSet(keys, g));
    }
  }

  lemma CancelShares(worth: int, rewards: nat, total: nat, sum: int)
    requires worth * total <= rewards * sum && sum == total && 0 < total
    ensures worth <= rewards
  {
    if worth > rewards {
      MulMono(rewards + 1, worth, total);
      MulPlus(rewards, 1, total);
    }
  }

  /** All outstanding claims together, debts counted, are covered by the useable rewards and the leak; so
      without small removals the pool can pay everyone. */
  lemma ClaimsAreCovered(pool: Pool, leak: nat)
    requires Accounts(pool, leak)
    ensures OutstandingClaims(pool) <= pool.info.useable + leak
  {
    var shares := SharesOf(pool.accounts);
    WorthIsCovered(pool.info, shares);
    assert shares.Keys == pool.accounts.Keys;
    SumSetSame(shares.Keys, (a: nat) => Worth(pool.info, BalanceOf(shares, a)),
               (a: nat) => Worth(pool.info, BalanceOf(SharesOf(pool.accounts), a)));
  }

  // ---- runs

  datatype Event = Event(call: Call, block: nat)

  const EMPTY_POOL: Pool := Pool(PoolInfo(0, 0, 0, 0), map[], 0)

  function PoolRun(env: Env, events: seq<Event>): Pool {
    if events == [] then EMPTY_POOL
    else
      var e := events[|events| - 1];
      PoolAfter(env, PoolRun(env, events[..|events| - 1]), e.call, e.block)
  }

  /** Everything written off by small removals over a run. */
  function TotalWrittenOff(env: Env, events: seq<Event>): nat {
    if events == [] then 0
    else
      var before, e := events[..|events| - 1], events[|events| - 1];
      TotalWrittenOff(env, before) + WrittenOff(env, PoolRun(env, before), e.call, e.block)
  }

  /** Over any run of calls by anyone, the shares add up and total rewards are the useable ones, the borrowed
      ones and what small removals wrote off; hence never less than useable plus borrowed. */
  lemma {:induction false} RunKeepsAccounts(env: Env, events: seq<Event>)
    ensures Accounts(PoolRun(env, events), TotalWrittenOff(env, events))
  {
    if events == [] {
      assert SharesOf(EMPTY_POOL.accounts) == map[] && BorrowedOf(EMPTY_POOL.accounts) == map[];
    } else {
      var before, e := events[..|events| - 1], events[|events| - 1];
      RunKeepsAccounts(env, before);
      CallKeepsAccounts(env, PoolRun(env, before), e.call, e.block, TotalWrittenOff(env, before));
    }
  }

  /** The conservation law as an equality, and enough useable rewards for all outstanding claims. */
  ghost predicate Solvent(pool: Pool) {
    && pool.info.totalRewards == pool.info.useable + TotalBorrowed(pool)
    && OutstandingClaims(pool) <= pool.info.useable
  }

  lemma NoLeakIsSolvent(pool: Pool)
    requires Accounts(pool, 0)
    ensures Solvent(pool)
  {
    ClaimsAreCovered(pool, 0);
  }

  /** The conservation law is an equality exactly on the runs that write nothing off, and then the pool
      covers all claims. */
  lemma RunIsSolvent(env: Env, events: seq<Event>)
    ensures var pool := PoolRun(env, events);
            && (pool.info.totalRewards == pool.info.useable + TotalBorrowed(pool) <==> TotalWrittenOff(env, events) == 0)
            && (TotalWrittenOff(env, events) == 0 ==> Solvent(pool))
  {
    RunKeepsAccounts(env, events);
    if TotalWrittenOff(env, events) == 0 { NoLeakIsSolvent(PoolRun(env, events)); }
  }

  // ---- the last holder

  /** Amounts fit their type, and an account without shares has no debt. */
  ghost predicate Settled(pool: Pool) {
    && pool.info.totalRewards <= U128_MAX
    && forall a :: a in pool.accounts ==>
         pool.accounts[a].borrowed <= U128_MAX && (pool.accounts[a].shares == 0 ==> pool.accounts[a].borrowed == 0)
  }

  lemma CallKeepsSettled(env: Env, pool: Pool, call: Call, now: nat)
    requires Settled(pool)
    ensures Settled(PoolAfter(env, pool, call, now))
  {
    if CallAt(env, pool, call, now).Ok? {
      var p := Accrued(env, pool, now).value;
      if call.RemoveShare? { RemovalPays(env, p, call.who, call.amount); }
    }
  }

  lemma {:induction false} RunKeepsSettled(env: Env, events: seq<Event>)
    ensures Settled(PoolRun(env, events))
  {
    if events != [] {
      var before, e := events[..|events| - 1], events[|events| - 1];
      RunKeepsSettled(env, before);
      CallKeepsSettled(env, PoolRun(env, before), e.call, e.block);
    }
  }

  /** One account holds all the shares; then it also has all the debt. */
  predicate LastHolder(pool: Pool, who: AccountId) {
    0 < pool.info.totalShares == AccountOf(pool, who).shares
  }

  lemma LastHolderOwesAll(pool: Pool, who: AccountId, leak: nat)
    requires Accounts(pool, leak) && Settled(pool) && LastHolder(pool, who)
    ensures TotalBorrowed(pool) == AccountOf(pool, who).borrowed
  {
    var shares, borrowed := SharesOf(pool.accounts), BorrowedOf(pool.accounts);
    var others := pool.accounts.Keys - {who};
    var f, g := (a: nat) => BalanceOf(shares, a), (a: nat) => BalanceOf(borrowed, a);
    TotalOver(shares, pool.accounts.Keys);
    TotalOver(borrowed, pool.accounts.Keys);
    SumSetRemove(pool.accounts.Keys, f, who);
    SumSetRemove(pool.accounts.Keys, g, who);
    forall a | a in others
      ensures g(a) == 0
    {
      SumSetRemove(others, f, a);
      SumSetNonNegative(others - {a}, f);
    }
    SumSetZero(others, g);
  }

  lemma SumSetNonNegative(s: set<nat>, f: nat -> int)
    requires forall x :: x in s ==> 0 <= f(x)
    ensures 0 <= SumSet(s, f)
  {
    SumSetZero(s, x => 0);
    SumSetMono(s, x => 0, f);
  }

  lemma WholeIsExact(x: nat, y: nat)
    requires 0 < x
    ensures Floor(x * SCALE, x) == SCALE && Scaled(x, y, x) == y
  {
    DivUnique(x * SCALE, x, SCALE);
    DivUnique(SCALE * y, SCALE, y);
  }

  /** What the last holder gets from an up-to-date pool, by its useable rewards and what was written off. */
  lemma LastHolderOn(env: Env, p: Pool, who: AccountId, leak: nat)
    requires LastHolder(p, who) && p.info.totalRewards == p.info.useable + AccountOf(p, who).borrowed + leak
    requires p.info.totalRewards <= U128_MAX
    ensures var removal, claim, info := Removed(env, p, who, p.info.totalShares), Claimed(env, p, who), p.info;
            && (removal.Ok? <==> leak == 0 && (info.useable <= env.existential || info.useable <= p.sub))
            && (removal == Err(RewardCaculationError) <==> 0 < leak)
            && (claim.Ok? <==> info.useable + leak < env.existential || (leak == 0 && info.useable <= p.sub))
            && (claim == Err(RewardCaculationError) <==> 0 < leak && env.existential <= info.useable + leak)
            && (removal.Ok? || removal.error in {RewardCaculationError, TransferFailed})
            && (claim.Ok? || claim.error in {RewardCaculationError, TransferFailed})
  {
    var account := AccountOf(p, who);
    WholeIsExact(account.shares, p.info.totalRewards);
    WholeIsExact(account.shares, account.borrowed);
  }

  /** After any run an account that holds all the shares can take them out at a block exactly when the pool can be
      brought up to date, no debt was ever written off, and the useable rewards are covered by the sub-account
      or too small to send. With a debt written off the calculation fails; with a short sub-account the transfer
      does. A claim succeeds on the same terms, or when there is less than the existential reward to claim. */
  lemma LastHolderLeavesIff(env: Env, events: seq<Event>, who: AccountId, now: nat)
    requires LastHolder(PoolRun(env, events), who)
    ensures var pool, leak := PoolRun(env, events), TotalWrittenOff(env, events);
            var removal := CallAt(env, pool, RemoveShare(who, pool.info.totalShares), now);
            var claim := CallAt(env, pool, ClaimRewards(who), now);
            match Accrued(env, pool, now)
            case Err(_) => removal.Err? && claim.Err?
            case Ok(p) =>
              && (removal.Ok? <==> leak == 0 && (p.info.useable <= env.existential || p.info.useable <= p.sub))
              && (claim.Ok? <==> p.info.useable + leak < env.existential || (leak == 0 && p.info.useable <= p.sub))
              && (removal == Err(RewardCaculationError) <==> 0 < leak)
              && (claim == Err(RewardCaculationError) <==> 0 < leak && env.existential <= p.info.useable + leak)
              && (removal.Ok? || removal.error in {RewardCaculationError, TransferFailed})
              && (claim.Ok? || claim.error in {RewardCaculationError, TransferFailed})
  {
    var pool, leak := PoolRun(env, events), TotalWrittenOff(env, events);
    RunKeepsAccounts(env, events);
    RunKeepsSettled(env, events);
    LastHolderOwesAll(pool, who, leak);
    if Accrued(env, pool, now).Ok? {
      AccrualKeepsPrice(env, pool, now);
      LastHolderOn(env, Accrued(env, pool, now).value, who, leak);
    }
  }

  const SMALL_ENV: Env := Env(10, Some(1))

  const BEFORE_LEAVING: Pool :=
    Pool(PoolInfo(105, 105, 100, 100), map[1 := AccountInfo(100, 0), 2 := AccountInfo(5, 5)], 100)

  lemma RunStep(env: Env, events: seq<Event>, e: Event)
    ensures PoolRun(env, events + [e]) == PoolAfter(env, PoolRun(env, events), e.call, e.block)
    ensures TotalWrittenOff(env, events + [e])
         == TotalWrittenOff(env, events) + WrittenOff(env, PoolRun(env, events), e.call, e.block)
  {
    assert (events + [e])[..|events + [e]| - 1] == events;
  }

  lemma FirstJoins(env: Env, who: AccountId, amount: nat)
    requires 0 < amount <= U128_MAX
    ensures PoolAfter(env, EMPTY_POOL, AddShare(who, amount), 0)
         == Pool(PoolInfo(amount, 0, 0, 0), map[who := AccountInfo(amount, 0)], 0)
  {
    DivUnique(0, SCALE, 0);
  }

  lemma SecondJoins()
    ensures PoolAfter(SMALL_ENV, Pool(PoolInfo(100, 0, 0, 0), map[1 := AccountInfo(100, 0)], 0), AddShare(2, 5), 100)
         == BEFORE_LEAVING
  {
    assert FromRational(100, 100) == Some(SCALE) && MulInt(SCALE, 5) == Some(5);
  }

  lemma SecondLeaves()
    ensures CallAt(SMALL_ENV, BEFORE_LEAVING, RemoveShare(2, 5), 105)
         == Ok(Done(Pool(PoolInfo(100, 110, 105, 105), map[1 := AccountInfo(100, 0), 2 := AccountInfo(0, 0)], 105), 0, 0))
    ensures WrittenOff(SMALL_ENV, BEFORE_LEAVING, RemoveShare(2, 5), 105) == 5
  {
    var p := Pool(PoolInfo(105, 110, 105, 105), BEFORE_LEAVING.accounts, 105);
    assert Accrued(SMALL_ENV, BEFORE_LEAVING, 105) == Ok(p);
    assert FromRational(5, 105) == Some(47_619_047_619_047_619) && MulInt(47_619_047_619_047_619, 110) == Some(5);
    assert FromRational(5, 5) == Some(SCALE) && MulInt(SCALE, 5) == Some(5);
    assert RewardsByAccountShares(SMALL_ENV, p.info, AccountInfo(5, 5), 5)
        == Ok(Removal(PoolInfo(100, 110, 105, 105), AccountInfo(0, 0), 0));
    assert Scaled(5, 5, 5) == 5 && Scaled(5, 110, 105) == 5;
    assert p.accounts[2 := AccountInfo(0, 0)] == map[1 := AccountInfo(100, 0), 2 := AccountInfo(0, 0)];
  }

  lemma ThreeCalls(env: Env, e1: Event, e2: Event, e3: Event, p1: Pool, p2: Pool)
    requires p1 == PoolAfter(env, EMPTY_POOL, e1.call, e1.block) && e1.call.AddShare?
    requires p2 == PoolAfter(env, p1, e2.call, e2.block) && e2.call.AddShare?
    ensures PoolRun(env, [e1, e2, e3]) == PoolAfter(env, p2, e3.call, e3.block)
    ensures TotalWrittenOff(env, [e1, e2, e3]) == WrittenOff(env, p2, e3.call, e3.block)
  {
    RunStep(env, [], e1);
    RunStep(env, [e1], e2);
    RunStep(env, [e1, e2], e3);
    assert [] + [e1] == [e1] && [e1] + [e2] == [e1, e2] && [e1, e2] + [e3] == [e1, e2, e3];
  }

  lemma DebtRun(env: Env, e1: Event, e2: Event, e3: Event)
    requires env == SMALL_ENV
    requires e1 == Event(AddShare(1, 100), 0) && e2 == Event(AddShare(2, 5), 100) && e3 == Event(RemoveShare(2, 5), 105)
    ensures PoolRun(env, [e1, e2, e3])
         == Pool(PoolInfo(100, 110, 105, 105), map[1 := AccountInfo(100, 0), 2 := AccountInfo(0, 0)], 105)
    ensures TotalWrittenOff(env, [e1, e2, e3]) == 5
  {
    FirstJoins(env, 1, 100);
    SecondJoins();
    SecondLeaves();
    ThreeCalls(env, e1, e2, e3, Pool(PoolInfo(100, 0, 0, 0), map[1 := AccountInfo(100, 0)], 0), BEFORE_LEAVING);
  }

  lemma HolderNow(env: Env, events: seq<Event>, who: AccountId)
    requires LastHolder(PoolRun(env, events), who) && env.existential <= PoolRun(env, events).info.useable
    ensures var pool := PoolRun(env, events);
            var removal := CallAt(env, pool, RemoveShare(who, pool.info.totalShares), pool.info.lastUpdateBlock);
            var claim := CallAt(env, pool, ClaimRewards(who), pool.info.lastUpdateBlock);
            && (0 < TotalWrittenOff(env, events) ==> removal == claim == Err(RewardCaculationError))
            && (TotalWrittenOff(env, events) == 0 && pool.sub < pool.info.useable && env.existential < pool.info.useable
                ==> removal == claim == Err(TransferFailed))
  {
    LastHolderLeavesIff(env, events, who, PoolRun(env, events).info.lastUpdateBlock);
  }

  /** Two accounts, of which the second leaves with a debt of 5 written off: the first can neither take its
      shares out nor claim. */
  lemma DebtIsWrittenOff(env: Env, e1: Event, e2: Event, e3: Event)
    requires env == Env(10, Some(1))
    requires e1 == Event(AddShare(1, 100), 0) && e2 == Event(AddShare(2, 5), 100) && e3 == Event(RemoveShare(2, 5), 105)
    ensures var pool := PoolRun(env, [e1, e2, e3]);
            && pool.info == PoolInfo(100, 110, 105, 105) && TotalWrittenOff(env, [e1, e2, e3]) == 5
            && CallAt(env, pool, RemoveShare(1, 100), 105) == Err(RewardCaculationError)
            && CallAt(env, pool, ClaimRewards(1), 105) == Err(RewardCaculationError)
  {
    DebtRun(env, e1, e2, e3);
    HolderNow(env, [e1, e2, e3], 1);
  }

  // ---- the sub-account

  /** The rewards accrued by a call fit the signed amount they are minted with. */
  predicate MintFits(env: Env, pool: Pool, now: nat) {
    CalculateReward(env.rate, pool.info.totalShares, pool.info.lastUpdateBlock, now) <= I128_MAX
  }

  /** Whatever a run's successful calls accrued was minted in full. */
  ghost predicate AllMintsFit(env: Env, events: seq<Event>) {
    events != [] ==>
      var pool, e := PoolRun(env, events[..|events| - 1]), events[|events| - 1];
      && AllMintsFit(env, events[..|events| - 1])
      && (CallAt(env, pool, e.call, e.block).Ok? ==> MintFits(env, pool, e.block))
  }

  /** The sub-account moves with the useable rewards exactly when the mint fits the signed amount; a call that
      accrues more leaves it short. */
  lemma SubAccountFollows(env: Env, pool: Pool, call: Call, now: nat)
    requires CallAt(env, pool, call, now).Ok?
    ensures var after := PoolAfter(env, pool, call, now);
            && after.sub - pool.sub <= after.info.useable - pool.info.useable
            && (after.sub - pool.sub == after.info.useable - pool.info.useable <==> MintFits(env, pool, now))
  {
  }

  /** Over any run the sub-account holds at most the useable rewards, and exactly those if and only if every
      mint fits. */
  lemma {:induction false} RunSubAccount(env: Env, events: seq<Event>)
    ensures PoolRun(env, events).sub <= PoolRun(env, events).info.useable
    ensures PoolRun(env, events).sub == PoolRun(env, events).info.useable <==> AllMintsFit(env, events)
  {
    if events != [] {
      var before, e := events[..|events| - 1], events[|events| - 1];
      RunSubAccount(env, before);
      if CallAt(env, PoolRun(env, before), e.call, e.block).Ok? {
        SubAccountFollows(env, PoolRun(env, before), e.call, e.block);
      }
    }
  }

  const RICH_ENV: Env := Env(0, Some(I128_MAX + 1))

  const HALF_LEFT: nat := (I128_MAX + 1) / 2

  lemma HalfLeaves()
    ensures var before := Pool(PoolInfo(2, 0, 0, 0), map[1 := AccountInfo(2, 0)], 0);
            var after := Pool(PoolInfo(1, HALF_LEFT, HALF_LEFT, 1), map[1 := AccountInfo(1, 0)], HALF_LEFT - 1);
            PoolAfter(RICH_ENV, before, RemoveShare(1, 1), 1) == after
            && WrittenOff(RICH_ENV, before, RemoveShare(1, 1), 1) == 0
  {
    var before := Pool(PoolInfo(2, 0, 0, 0), map[1 := AccountInfo(2, 0)], 0);
    var p := Pool(PoolInfo(2, I128_MAX + 1, I128_MAX + 1, 1), before.accounts, I128_MAX);
    assert Accrued(RICH_ENV, before, 1) == Ok(p);
    assert FromRational(1, 2) == Some(SCALE / 2);
    assert MulInt(SCALE / 2, I128_MAX + 1) == Some(HALF_LEFT) && MulInt(SCALE / 2, 0) == Some(0);
    assert p.accounts[1 := AccountInfo(1, 0)] == map[1 := AccountInfo(1, 0)];
  }

  lemma TwoCalls(env: Env, e1: Event, e2: Event, p1: Pool)
    requires p1 == PoolAfter(env, EMPTY_POOL, e1.call, e1.block) && e1.call.AddShare?
    ensures PoolRun(env, [e1, e2]) == PoolAfter(env, p1, e2.call, e2.block)
    ensures TotalWrittenOff(env, [e1, e2]) == WrittenOff(env, p1, e2.call, e2.block)
  {
    RunStep(env, [], e1);
    RunStep(env, [e1], e2);
    assert [] + [e1] == [e1] && [e1] + [e2] == [e1, e2];
  }

  lemma HalfRun(env: Env, e1: Event, e2: Event)
    requires env == RICH_ENV && e1 == Event(AddShare(1, 2), 0) && e2 == Event(RemoveShare(1, 1), 1)
    ensures PoolRun(env, [e1, e2]) == Pool(PoolInfo(1, HALF_LEFT, HALF_LEFT, 1), map[1 := AccountInfo(1, 0)], HALF_LEFT - 1)
    ensures TotalWrittenOff(env, [e1, e2]) == 0
  {
    FirstJoins(env, 1, 2);
    HalfLeaves();
    TwoCalls(env, e1, e2, Pool(PoolInfo(2, 0, 0, 0), map[1 := AccountInfo(2, 0)], 0));
  }

  /** A reward of 2^127 accrued at once is minted one unit short: when the holder of two shares has taken one
      out, what is left useable is one more than the sub-account holds, and the other share cannot be taken out
      nor its reward claimed, though nothing was written off. */
  lemma MintCanSaturate(env: Env, e1: Event, e2: Event)
    requires env == Env(0, Some(I128_MAX + 1))
    requires e1 == Event(AddShare(1, 2), 0) && e2 == Event(RemoveShare(1, 1), 1)
    ensures var pool := PoolRun(env, [e1, e2]);
            && pool.info.useable == pool.sub + 1 && TotalWrittenOff(env, [e1, e2]) == 0
            && CallAt(env, pool, RemoveShare(1, 1), 1) == Err(TransferFailed)
            && CallAt(env, pool, ClaimRewards(1), 1) == Err(TransferFailed)
  {
    HalfRun(env, e1, e2);
    HolderNow(env, [e1, e2], 1);
  }

  /** The read-only estimate is what removing all shares at that block pays, zero where that fails, except
      exactly where the estimate is more than the sub-account holds once it is up to date: then the transfer
      fails. */
  lemma PreviewIsRemoval(env: Env, pool: Pool, who: AccountId, now: nat)
    ensures var r := CallAt(env, pool, RemoveShare(who, AccountOf(pool, who).shares), now);
            var estimate, accrued := AccumulatedRewards(env, pool, who, now), Accrued(env, pool, now);
            && (estimate != (if r.Ok? then r.value.reward else 0) <==> accrued.Ok? && accrued.value.sub < estimate)
            && (accrued.Ok? && accrued.value.sub < estimate ==> r == Err(TransferFailed))
  {
  }

  // ---- lazy and per-block accrual

  /** No amount leaves its type when the pool is brought up to date. */
  predicate NoOverflow(env: Env, pool: Pool, now: nat) {
    && pool.info.useable <= pool.info.totalRewards
    && pool.info.totalRewards + (if env.rate.Some? then env.rate.value * Monus(now, pool.info.lastUpdateBlock) else 0)
       <= I128_MAX
  }

  function UpToDate(env: Env, pool: Pool, now: nat): Pool {
    var r := Accrued(env, pool, now);
    if r.Ok? then r.value else pool
  }

  /** One block: the pool's rate is added while there are shares. */
  function Tick(env: Env, pool: Pool): Pool {
    var gained := if pool.info.totalShares > 0 && env.rate.Some? then env.rate.value else 0;
    Pool(PoolInfo(pool.info.totalShares, pool.info.totalRewards + gained, pool.info.useable + gained,
                  pool.info.lastUpdateBlock + 1), pool.accounts, pool.sub + gained)
  }

  function Ticks(env: Env, pool: Pool, now: nat): Pool
    decreases Monus(now, pool.info.lastUpdateBlock)
  {
    if now <= pool.info.lastUpdateBlock then pool else Ticks(env, Tick(env, pool), now)
  }

  lemma OneTick(env: Env, pool: Pool, now: nat)
    requires NoOverflow(env, pool, now) && pool.info.lastUpdateBlock < now
    ensures NoOverflow(env, Tick(env, pool), now)
    ensures UpToDate(env, Tick(env, pool), now) == UpToDate(env, pool, now)
  {
    if env.rate.Some? {
      var r, n := env.rate.value, now - pool.info.lastUpdateBlock;
      MulDistrib(r, n - 1, 1);
      MulMono(0, n - 1, r);
    }
  }

  /** Accruing once for many blocks is ticking every one of them. */
  lemma {:induction false} AccrualIsTicking(env: Env, pool: Pool, now: nat)
    requires NoOverflow(env, pool, now)
    ensures UpToDate(env, pool, now) == Ticks(env, pool, now)
    decreases Monus(now, pool.info.lastUpdateBlock)
  {
    if pool.info.lastUpdateBlock < now {
      OneTick(env, pool, now);
      AccrualIsTicking(env, Tick(env, pool), now);
    }
  }

  lemma {:induction false} TicksSplit(env: Env, pool: Pool, b: nat, now: nat)
    requires b <= now
    ensures Ticks(env, Ticks(env, pool, b), now) == Ticks(env, pool, now)
    decreases Monus(b, pool.info.lastUpdateBlock)
  {
    if pool.info.lastUpdateBlock < b { TicksSplit(env, Tick(env, pool), b, now); }
  }

  lemma {:induction false} TicksReach(env: Env, pool: Pool, now: nat)
    ensures Ticks(env, pool, now).info.lastUpdateBlock == Max(pool.info.lastUpdateBlock, now)
    decreases Monus(now, pool.info.lastUpdateBlock)
  {
    if pool.info.lastUpdateBlock < now { TicksReach(env, Tick(env, pool), now); }
  }

  /** The reference: every block ticks, and calls act on the pool as it is. */
  function EagerRun(env: Env, events: seq<Event>): Pool {
    if events == [] then EMPTY_POOL
    else
      var e := events[|events| - 1];
      var pool := Ticks(env, EagerRun(env, events[..|events| - 1]), e.block);
      var r := if e.call.AddShare? && e.call.amount == 0 then Err(InvalidAmount) else CallOn(env, pool, e.call);
      if r.Ok? then r.value.pool else pool
  }

  /** Blocks do not run backwards and no amount leaves its type. */
  ghost predicate Smooth(env: Env, events: seq<Event>, now: nat) {
    && NoOverflow(env, PoolRun(env, events), now)
    && PoolRun(env, events).info.lastUpdateBlock <= now
    && (events != [] ==> events[|events| - 1].block <= now
                         && Smooth(env, events[..|events| - 1], events[|events| - 1].block))
  }

  /** Lazy accrual refines per-block accrual: whatever the update points of a run are, bringing the pool up to
      date gives the pool that ticked every block. */
  lemma {:induction false} LazyIsEager(env: Env, events: seq<Event>, now: nat)
    requires Smooth(env, events, now)
    ensures Ticks(env, EagerRun(env, events), now) == UpToDate(env, PoolRun(env, events), now)
  {
    var pool := PoolRun(env, events);
    AccrualIsTicking(env, pool, now);
    if events != [] {
      var before, e := events[..|events| - 1], events[|events| - 1];
      var earlier := PoolRun(env, before);
      LazyIsEager(env, before, e.block);
      AccrualIsTicking(env, earlier, e.block);
      TicksReach(env, earlier, e.block);
      AccruesOk(env, earlier, e.block);
      assert Ticks(env, EagerRun(env, before), e.block) == UpToDate(env, earlier, e.block);
      if !CallAt(env, earlier, e.call, e.block).Ok? {
        TicksSplit(env, earlier, e.block, now);
      }
    }
  }

  lemma AccruesOk(env: Env, pool: Pool, now: nat)
    requires NoOverflow(env, pool, now)
    ensures Accrued(env, pool, now).Ok? && Accrued(env, pool, now).value == UpToDate(env, pool, now)
  {
  }
}
