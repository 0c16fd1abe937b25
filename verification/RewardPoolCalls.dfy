/**
 What each call of the reward pool pays, owes and refuses after any run, said by the shares, the debt of the
 account and the price of a share alone.
 */
module RewardPoolCalls {
  import opened Arith
  import opened Options
  import opened Sums
  import opened Balances
  import opened RewardPool
  import opened RewardPoolRuns

  /** Amounts of the pool and of the account fit their type, and the account's shares are shares of the pool. */
  ghost predicate Fits(pool: Pool, who: AccountId) {
    && pool.info.totalRewards <= U128_MAX
    && AccountOf(pool, who).borrowed <= U128_MAX
    && AccountOf(pool, who).shares <= pool.info.totalShares
  }

  lemma SharesWithinTotal(pool: Pool, who: AccountId, leak: nat)
    requires Accounts(pool, leak)
    ensures AccountOf(pool, who).shares <= pool.info.totalShares
  {
    var shares := SharesOf(pool.accounts);
    if who in pool.accounts {
      var f := (a: nat) => BalanceOf(shares, a);
      TotalOver(shares, pool.accounts.Keys);
      SumSetRemove(pool.accounts.Keys, f, who);
      SumSetNonNegative(pool.accounts.Keys - {who}, f);
    }
  }

  lemma AccrualKeepsFits(env: Env, pool: Pool, who: AccountId, now: nat)
    requires Fits(pool, who) && Accrued(env, pool, now).Ok?
    ensures Fits(Accrued(env, pool, now).value, who)
  {
  }

  lemma SettledFits(pool: Pool, who: AccountId, leak: nat)
    requires Settled(pool) && Accounts(pool, leak)
    ensures Fits(pool, who)
  {
    SharesWithinTotal(pool, who, leak);
  }

  /** After any run the pool fits whoever calls, also once it is brought up to date. */
  lemma RunFits(env: Env, events: seq<Event>, who: AccountId, now: nat)
    requires Accrued(env, PoolRun(env, events), now).Ok?
    ensures Fits(Accrued(env, PoolRun(env, events), now).value, who)
  {
    RunKeepsAccounts(env, events);
    RunKeepsSettled(env, events);
    SettledFits(PoolRun(env, events), who, TotalWrittenOff(env, events));
    AccrualKeepsFits(env, PoolRun(env, events), who, now);
  }

  /** What shares are worth is their part of the total rewards, short of it by less than 1 + rewards/10^18. */
  lemma WorthIsPart(info: PoolInfo, shares: nat)
    requires shares <= info.totalShares
    ensures var worth := Worth(info, shares);
            && worth <= info.totalRewards
            && worth * info.totalShares <= shares * info.totalRewards
            && (shares * info.totalRewards) * SCALE
               <= (worth * info.totalShares) * SCALE + info.totalShares * (info.totalRewards + SCALE)
  {
    if 0 < shares {
      PartIsLess(shares, info.totalRewards, info.totalShares);
      ScaledBounds(shares, info.totalRewards, info.totalShares);
      MulDistrib(info.totalShares, info.totalRewards, SCALE);
    }
  }

  /** Nobody else's account, and nothing but the named parts of the pool, differs. */
  ghost predicate OnlyAccount(p: Pool, q: Pool, who: AccountId, account: AccountInfo) {
    && AccountOf(q, who) == account
    && (forall a :: a != who ==> AccountOf(q, a) == AccountOf(p, a))
    && q.info.lastUpdateBlock == p.info.lastUpdateBlock
  }

  // ---- claiming

  /** A claim as a caller sees it: when it succeeds and why it fails, what it pays and what it leaves. */
  ghost predicate ClaimIs(env: Env, p: Pool, who: AccountId, r: Result<Done, Error>) {
    var account := AccountOf(p, who);
    var worth := Worth(p.info, account.shares);
    var due := worth - account.borrowed;
    if account.shares == 0 || 0 <= due < env.existential then r == Ok(Done(p, 0, 0))
    else if due < 0 || p.info.useable < due then r == Err(RewardCaculationError)
    else if p.sub < due then r == Err(TransferFailed)
    else
      && r.Ok? && r.value.reward == r.value.returned == due
      && var q := r.value.pool;
         && OnlyAccount(p, q, who, AccountInfo(account.shares, account.borrowed + due))
         && q.info.totalShares == p.info.totalShares && q.info.totalRewards == p.info.totalRewards
         && q.info.useable + due == p.info.useable && q.sub + due == p.sub
  }

  lemma ClaimOn(env: Env, p: Pool, who: AccountId)
    requires Fits(p, who)
    ensures ClaimIs(env, p, who, Claimed(env, p, who))
  {
    if AccountOf(p, who).shares > 0 { PartIsLess(AccountOf(p, who).shares, p.info.totalRewards, p.info.totalShares); }
  }

  /** After any run, a claim at a block pays what the account's shares are worth above its debt, neither more nor
      less, and the debt grows by the payment; what is below the existential reward stays in the pool. */
  lemma ClaimPays(env: Env, events: seq<Event>, who: AccountId, now: nat)
    ensures var pool := PoolRun(env, events);
            var r := CallAt(env, pool, ClaimRewards(who), now);
            match Accrued(env, pool, now)
            case Err(e) => r == Err(e)
            case Ok(p) => ClaimIs(env, p, who, r)
  {
    if Accrued(env, PoolRun(env, events), now).Ok? {
      RunFits(env, events, who, now);
      ClaimOn(env, Accrued(env, PoolRun(env, events), now).value, who);
    }
  }

  /** The rewards that blocks add to a pool. */
  function Gain(env: Env, info: PoolInfo, now: nat): nat {
    if info.totalShares == 0 || env.rate.None? then 0 else env.rate.value * Monus(now, info.lastUpdateBlock)
  }

  lemma AccruedGain(env: Env, pool: Pool, now: nat)
    requires NoOverflow(env, pool, now) && pool.info.lastUpdateBlock <= now
    ensures Accrued(env, pool, now).Ok?
    ensures var p := Accrued(env, pool, now).value;
            && p.info.totalShares == pool.info.totalShares && p.info.lastUpdateBlock == now
            && p.info.totalRewards == pool.info.totalRewards + Gain(env, pool.info, now)
            && p.accounts == pool.accounts && p.info.useable <= p.info.totalRewards <= U128_MAX
  {
  }

  /** A pool that has accrued up to `now` accrues the rest later. */
  lemma GainAdds(env: Env, pool: Pool, q: Pool, later: nat)
    requires NoOverflow(env, pool, later) && pool.info.lastUpdateBlock <= q.info.lastUpdateBlock <= later
    requires q.info.totalShares == pool.info.totalShares && q.info.useable <= q.info.totalRewards
    requires q.info.totalRewards == pool.info.totalRewards + Gain(env, pool.info, q.info.lastUpdateBlock)
    ensures NoOverflow(env, pool, q.info.lastUpdateBlock) && NoOverflow(env, q, later)
    ensures pool.info.totalRewards + Gain(env, pool.info, later) == q.info.totalRewards + Gain(env, q.info, later)
  {
    if env.rate.Some? {
      var rate, elapsed, rest := env.rate.value, q.info.lastUpdateBlock - pool.info.lastUpdateBlock,
                                 later - q.info.lastUpdateBlock;
      MulDistrib(rate, elapsed, rest);
      MulMono(0, elapsed, rate);
      MulMono(0, rest, rate);
    }
  }

  lemma NoOverflowEarlier(env: Env, pool: Pool, now: nat, later: nat)
    requires NoOverflow(env, pool, later) && now <= later
    ensures NoOverflow(env, pool, now)
  {
    if env.rate.Some? {
      MulMono(Monus(now, pool.info.lastUpdateBlock), Monus(later, pool.info.lastUpdateBlock), env.rate.value);
    }
  }

  lemma WorthGrows(info: PoolInfo, later: PoolInfo, shares: nat)
    requires info.totalShares == later.totalShares && info.totalRewards <= later.totalRewards
    ensures Worth(info, shares) <= Worth(later, shares)
  {
    if 0 < info.totalShares {
      var f := Floor(shares * SCALE, info.totalShares);
      MulMono(info.totalRewards, later.totalRewards, f);
      DivMono(f * info.totalRewards, f * later.totalRewards, SCALE);
    }
  }

  /** What a claim pays of what is due. */
  function Sent(env: Env, due: int): int { if due < env.existential then 0 else due }

  /** What an account may claim at a block. */
  function Due(env: Env, pool: Pool, who: AccountId, now: nat): int {
    Worth(pool.info.(totalRewards := pool.info.totalRewards + Gain(env, pool.info, now)), AccountOf(pool, who).shares)
      - AccountOf(pool, who).borrowed
  }

  /** The claim pays what is due at the block, and adds it to the debt. */
  ghost predicate Sends(env: Env, pool: Pool, who: AccountId, now: nat, d: Done) {
    var account, info := AccountOf(pool, who), d.pool.info;
    && d.reward == Sent(env, Due(env, pool, who, now))
    && AccountOf(d.pool, who) == AccountInfo(account.shares, account.borrowed + d.reward)
    && info.totalShares == pool.info.totalShares && info.lastUpdateBlock == now
    && info.totalRewards == pool.info.totalRewards + Gain(env, pool.info, now) && info.useable <= info.totalRewards
  }

  lemma ClaimSends(env: Env, pool: Pool, who: AccountId, now: nat)
    requires Fits(pool, who) && NoOverflow(env, pool, now) && pool.info.lastUpdateBlock <= now
    requires CallAt(env, pool, ClaimRewards(who), now).Ok? && 0 < AccountOf(pool, who).shares
    ensures var d := CallAt(env, pool, ClaimRewards(who), now).value;
            Sends(env, pool, who, now, d) && Fits(d.pool, who)
  {
    AccruedGain(env, pool, now);
    var p := Accrued(env, pool, now).value;
    ClaimOn(env, p, who);
    WorthIsPart(p.info, AccountOf(p, who).shares);
    WorthGrows(p.info, pool.info.(totalRewards := p.info.totalRewards), AccountOf(p, who).shares);
    WorthGrows(pool.info.(totalRewards := p.info.totalRewards), p.info, AccountOf(p, who).shares);
  }

  lemma SentTwice(env: Env, pool: Pool, who: AccountId, now: nat, later: nat, first: Done, second: Done, once: Done)
    requires Sends(env, pool, who, now, first) && Sends(env, first.pool, who, later, second)
    requires Sends(env, pool, who, later, once)
    requires pool.info.totalRewards + Gain(env, pool.info, later)
          == first.pool.info.totalRewards + Gain(env, first.pool.info, later)
    ensures var lost := once.reward - (first.reward + second.reward);
            0 <= lost && (lost == 0 || (lost < env.existential && second.reward == 0))
  {
    var shares := AccountOf(pool, who).shares;
    var total := pool.info.totalRewards + Gain(env, pool.info, later);
    WorthGrows(first.pool.info, pool.info.(totalRewards := total), shares);
    WorthGrows(first.pool.info.(totalRewards := total), pool.info.(totalRewards := total), shares);
    WorthGrows(pool.info.(totalRewards := total), first.pool.info.(totalRewards := total), shares);
    WorthGrows(pool.info.(totalRewards := first.pool.info.totalRewards), first.pool.info, shares);
    WorthGrows(first.pool.info, pool.info.(totalRewards := first.pool.info.totalRewards), shares);
  }

  /** Claiming early changes nothing in the end: what a claim at a block and another one at a later block pay is
      what the later one pays alone, less at most what is too small to send. */
  lemma ClaimingTwice(env: Env, pool: Pool, who: AccountId, now: nat, later: nat)
    requires Fits(pool, who) && NoOverflow(env, pool, later) && pool.info.lastUpdateBlock <= now <= later
    requires CallAt(env, pool, ClaimRewards(who), now).Ok? && CallAt(env, pool, ClaimRewards(who), later).Ok?
    requires CallAt(env, PoolAfter(env, pool, ClaimRewards(who), now), ClaimRewards(who), later).Ok?
    ensures var first, once := CallAt(env, pool, ClaimRewards(who), now), CallAt(env, pool, ClaimRewards(who), later);
            var second := CallAt(env, first.value.pool, ClaimRewards(who), later);
            var lost := once.value.reward - (first.value.reward + second.value.reward);
            0 <= lost && (lost == 0 || (lost < env.existential && second.value.reward == 0))
  {
    var q := PoolAfter(env, pool, ClaimRewards(who), now);
    if AccountOf(pool, who).shares == 0 {
      ClaimNothing(env, pool, who, now);
      ClaimNothing(env, pool, who, later);
      ClaimNothing(env, q, who, later);
    } else {
      NoOverflowEarlier(env, pool, now, later);
      ClaimSends(env, pool, who, now);
      ClaimSends(env, pool, who, later);
      GainAdds(env, pool, q, later);
      ClaimSends(env, q, who, later);
      SentTwice(env, pool, who, now, later, CallAt(env, pool, ClaimRewards(who), now).value,
                CallAt(env, q, ClaimRewards(who), later).value, CallAt(env, pool, ClaimRewards(who), later).value);
    }
  }

  lemma ClaimNothing(env: Env, pool: Pool, who: AccountId, now: nat)
    requires AccountOf(pool, who).shares == 0 && CallAt(env, pool, ClaimRewards(who), now).Ok?
    ensures CallAt(env, pool, ClaimRewards(who), now).value.reward == 0
    ensures AccountOf(PoolAfter(env, pool, ClaimRewards(who), now), who).shares == 0
  {
  }

  // ---- removing

  /** A removal as a caller sees it. Of `worth` the part `repaid` of the debt is withheld; the rest is paid if it
      exceeds the existential reward, and otherwise stays in the totals. */
  ghost predicate RemovalIs(env: Env, p: Pool, who: AccountId, amount: nat, r: Result<Done, Error>) {
    var account := AccountOf(p, who);
    if amount == 0 || account.shares < amount then r == Err(InsufficientShares)
    else
      var worth, repaid := Worth(p.info, amount), Repaid(account, amount);
      var due := worth - repaid;
      if due < 0 || p.info.useable < due then r == Err(RewardCaculationError)
      else if env.existential < due && p.sub < due then r == Err(TransferFailed)
      else
        var paid := if env.existential < due then due else 0;
        && r.Ok? && r.value.reward == paid && r.value.returned == account.shares - amount
        && repaid <= account.borrowed
        && var q := r.value.pool;
           && OnlyAccount(p, q, who, AccountInfo(account.shares - amount, account.borrowed - repaid))
           && q.info.totalShares + amount == p.info.totalShares
           && q.info.totalRewards + (if paid == 0 then 0 else worth) == p.info.totalRewards
           && q.info.useable + paid == p.info.useable && q.sub + paid == p.sub
  }

  lemma RemovalOn(env: Env, p: Pool, who: AccountId, amount: nat)
    requires Fits(p, who)
    ensures RemovalIs(env, p, who, amount, Removed(env, p, who, amount))
  {
    var account := AccountOf(p, who);
    if 0 < amount <= account.shares {
      PartIsLess(amount, p.info.totalRewards, p.info.totalShares);
      PartIsLess(amount, account.borrowed, account.shares);
    }
  }

  /** After any run, removing shares at a block pays what they are worth less the part of the debt they carry. */
  lemma RemovalPaysWorth(env: Env, events: seq<Event>, who: AccountId, amount: nat, now: nat)
    ensures var pool := PoolRun(env, events);
            var r := CallAt(env, pool, RemoveShare(who, amount), now);
            match Accrued(env, pool, now)
            case Err(e) => r == Err(e)
            case Ok(p) => RemovalIs(env, p, who, amount, r)
  {
    if Accrued(env, PoolRun(env, events), now).Ok? {
      RunFits(env, events, who, now);
      RemovalOn(env, Accrued(env, PoolRun(env, events), now).value, who, amount);
    }
  }

  // ---- adding

  /** Adding as a caller sees it: the pool and the account grow by the shares and by the same virtual reward,
      `amount` times the price of a share, and no payment is made. */
  ghost predicate AdditionIs(p: Pool, who: AccountId, amount: nat, r: Result<Done, Error>) {
    var account, info := AccountOf(p, who), p.info;
    var virtual := if info.totalShares == 0 then 0 else Scaled(info.totalRewards, amount, info.totalShares);
    if (0 < info.totalShares && Floor(info.totalRewards * SCALE, info.totalShares) > U128_MAX)
       || info.totalShares + amount > U128_MAX || info.totalRewards + virtual > U128_MAX
       || account.borrowed + virtual > U128_MAX then r == Err(RewardCaculationError)
    else
      && r.Ok? && r.value.reward == 0 && r.value.returned == account.shares + amount
      && var q := r.value.pool;
         && OnlyAccount(p, q, who, AccountInfo(account.shares + amount, account.borrowed + virtual))
         && q.info.totalShares == info.totalShares + amount && q.info.totalRewards == info.totalRewards + virtual
         && q.info.useable == info.useable && q.sub == p.sub
  }

  lemma AdditionOn(p: Pool, who: AccountId, amount: nat)
    requires Fits(p, who)
    ensures AdditionIs(p, who, amount, Added(p, who, amount))
  {
    DivUnique(0, SCALE, 0);
  }

  /** After any run, adding shares at a block borrows their price and nothing else; adding none is refused. */
  lemma AddingBorrowsPrice(env: Env, events: seq<Event>, who: AccountId, amount: nat, now: nat)
    ensures var pool := PoolRun(env, events);
            var r := CallAt(env, pool, AddShare(who, amount), now);
            if amount == 0 then r == Err(InvalidAmount)
            else
              match Accrued(env, pool, now)
              case Err(e) => r == Err(e)
              case Ok(p) => AdditionIs(p, who, amount, r)
  {
    if Accrued(env, PoolRun(env, events), now).Ok? {
      RunFits(env, events, who, now);
      AdditionOn(Accrued(env, PoolRun(env, events), now).value, who, amount);
    }
  }
}
