/**
 The share pool: accounts add and remove shares, rewards accrue per block, and a "borrowed" virtual reward
 keeps latecomers from sharing what accrued before them. One pool; the storage maps of different pools
 do not meet. A failing call leaves no trace, since calls run inside a transaction.
 */
module RewardPool {
  import opened Arith
  import opened Options

  type AccountId = nat

  const U128_MAX: nat := 0xFFFF_FFFF_FFFF_FFFF_FFFF_FFFF_FFFF_FFFF
  const I128_MAX: nat := 0x7FFF_FFFF_FFFF_FFFF_FFFF_FFFF_FFFF_FFFF
  const SCALE: nat := 1_000_000_000_000_000_000

  datatype Error = RewardCaculationError | InsufficientShares | InvalidAmount | TransferFailed

  datatype PoolInfo = PoolInfo(totalShares: nat, totalRewards: nat, useable: nat, lastUpdateBlock: nat)

  datatype AccountInfo = AccountInfo(shares: nat, borrowed: nat)

  /** `sub` is the balance of the pool's sub-account. */
  datatype Pool = Pool(info: PoolInfo, accounts: map<AccountId, AccountInfo>, sub: nat)

  /** The smallest reward worth sending, and the pool's reward per block if it has one. */
  datatype Env = Env(existential: nat, rate: Option<nat>)

  // ---- fixed-point numbers with 18 decimals

  function FromRational(n: nat, d: nat): Option<nat> {
    if d == 0 then None
    else if Floor(n * SCALE, d) > U128_MAX then None
    else Some(Floor(n * SCALE, d))
  }

  function MulInt(f: nat, x: nat): Option<nat> {
    if Floor(f * x, SCALE) > U128_MAX then None else Some(Floor(f * x, SCALE))
  }

  /** x/d as a fixed-point number times y, both steps rounded down. */
  function Scaled(x: nat, y: nat, d: nat): nat
    requires 0 < d
  {
    Floor(Floor(x * SCALE, d) * y, SCALE)
  }

  /** The two roundings never exceed the exact product and lose less than 1 + y/10^18. */
  lemma ScaledBounds(x: nat, y: nat, d: nat)
    requires 0 < d
    ensures Scaled(x, y, d) * d <= x * y
    ensures (x * y) * SCALE < Scaled(x, y, d) * d * SCALE + d * y + SCALE * d
  {
    var f := Floor(x * SCALE, d);
    var v := Floor(f * y, SCALE);
    DivBounds(x * SCALE, d);
    DivBounds(f * y, SCALE);
    // v * SCALE <= f * y < v * SCALE + SCALE and f * d <= x * SCALE < f * d + d
    MulMono(v * SCALE, f * y, d);
    MulMono(f * d, x * SCALE, y);
    MulSwap(f, y, d);
    MulSwap(v, SCALE, d);
    MulSwap(x, SCALE, y);
    if v * d > x * y { MulMono(x * y + 1, v * d, SCALE); }
    MulMono(x * SCALE, f * d + d, y);
    MulPlus(f * d, d, y);
    MulMono(f * y + 1, v * SCALE + SCALE, d);
    MulPlus(f * y, 1, d);
    MulPlus(v * SCALE, SCALE, d);
  }

  lemma MulPlus(a: int, b: int, c: int)
    ensures (a + b) * c == a * c + b * c
  {
  }

  // ---- accrual

  /** The reward of a pool between two blocks: none without shares or without a rate. */
  function CalculateReward(rate: Option<nat>, totalShare: nat, lastUpdateBlock: nat, now: nat): nat {
    if totalShare == 0 then 0
    else if rate.None? || lastUpdateBlock >= now then 0
    else if rate.value == 0 then 0
    else Min(rate.value * (now - lastUpdateBlock), U128_MAX)
  }

  function AccruedInfo(env: Env, info: PoolInfo, now: nat): Result<(PoolInfo, nat), Error> {
    if now <= info.lastUpdateBlock then Ok((info, 0))
    else
      var reward := CalculateReward(env.rate, info.totalShares, info.lastUpdateBlock, now);
      if reward == 0 then Ok((info.(lastUpdateBlock := now), 0))
      else if info.totalRewards + reward > U128_MAX then Err(RewardCaculationError)
      else if info.useable + reward > U128_MAX then Err(RewardCaculationError)
      else Ok((info.(lastUpdateBlock := now, totalRewards := info.totalRewards + reward,
                     useable := info.useable + reward), reward))
  }

  /** The accrued reward is minted to the sub-account as a signed amount, which saturates. */
  function Accrued(env: Env, pool: Pool, now: nat): Result<Pool, Error> {
    match AccruedInfo(env, pool.info, now)
    case Err(e) => Err(e)
    case Ok((info, change)) => Ok(pool.(info := info, sub := pool.sub + Min(change, I128_MAX)))
  }

  // ---- shares to rewards

  function CalcRewardByShares(info: PoolInfo, amount: nat): Result<nat, Error> {
    if info.totalShares == 0 || amount == 0 then Ok(0)
    else if amount > info.totalShares then Err(InsufficientShares)
    else
      match FromRational(amount, info.totalShares)
      case None => Err(RewardCaculationError)
      case Some(ratio) =>
        match MulInt(ratio, info.totalRewards)
        case None => Err(RewardCaculationError)
        case Some(reward) =>
          if reward > info.totalRewards then Err(RewardCaculationError) else Ok(reward)
  }

  datatype Removal = Removal(info: PoolInfo, account: AccountInfo, reward: nat)

  /** What removing `amount` shares does to the pool and the account, and what it pays. */
  function RewardsByAccountShares(env: Env, info: PoolInfo, account: AccountInfo, amount: nat): Result<Removal, Error> {
    if amount == 0 || info.totalShares < amount || account.shares < amount then Err(InsufficientShares)
    else
      match CalcRewardByShares(info, amount)
      case Err(e) => Err(e)
      case Ok(withVirtual) =>
        match FromRational(amount, account.shares)
        case None => Err(RewardCaculationError)
        case Some(ratio) =>
          match MulInt(ratio, account.borrowed)
          case None => Err(RewardCaculationError)
          case Some(repaid) =>
            if account.borrowed < repaid || withVirtual < repaid then Err(RewardCaculationError)
            else
              var left := AccountInfo(account.shares - amount, account.borrowed - repaid);
              var reward := withVirtual - repaid;
              if reward > info.useable then Err(RewardCaculationError)
              else if reward <= env.existential then
                Ok(Removal(info.(totalShares := info.totalShares - amount), left, 0))
              else if info.totalRewards < withVirtual then Err(RewardCaculationError)
              else
                Ok(Removal(info.(totalShares := info.totalShares - amount, totalRewards := info.totalRewards - withVirtual,
                                 useable := info.useable - reward), left, reward))
  }

  // ---- the calls, on a pool that is up to date

  datatype Call =
    | AddShare(who: AccountId, amount: nat)
    | RemoveShare(who: AccountId, amount: nat)
    | ClaimRewards(who: AccountId)

  /** The pool after a call and what the call returns: the account's shares, or the reward paid. */
  datatype Done = Done(pool: Pool, returned: nat, reward: nat)

  function AccountOf(pool: Pool, who: AccountId): AccountInfo {
    if who in pool.accounts then pool.accounts[who] else AccountInfo(0, 0)
  }

  function VirtualReward(info: PoolInfo, amount: nat): Option<nat> {
    if info.totalShares == 0 then MulInt(0, amount)
    else
      var price := FromRational(info.totalRewards, info.totalShares);
      if price.None? then None else MulInt(price.value, amount)
  }

  function Added(pool: Pool, who: AccountId, amount: nat): Result<Done, Error> {
    var account := AccountOf(pool, who);
    match VirtualReward(pool.info, amount)
    case None => Err(RewardCaculationError)
    case Some(borrow) =>
      if pool.info.totalShares + amount > U128_MAX || pool.info.totalRewards + borrow > U128_MAX
         || account.shares + amount > U128_MAX || account.borrowed + borrow > U128_MAX then Err(RewardCaculationError)
      else
        var info := pool.info.(totalShares := pool.info.totalShares + amount, totalRewards := pool.info.totalRewards + borrow);
        var account' := AccountInfo(account.shares + amount, account.borrowed + borrow);
        Ok(Done(pool.(info := info, accounts := pool.accounts[who := account']), account'.shares, 0))
  }

  function Removed(env: Env, pool: Pool, who: AccountId, amount: nat): Result<Done, Error> {
    var account := AccountOf(pool, who);
    if account.shares < amount then Err(InsufficientShares)
    else
      match RewardsByAccountShares(env, pool.info, account, amount)
      case Err(e) => Err(e)
      case Ok(r) =>
        if pool.sub < r.reward then Err(TransferFailed)
        else Ok(Done(Pool(r.info, pool.accounts[who := r.account], pool.sub - r.reward), r.account.shares, r.reward))
  }

  function Claimed(env: Env, pool: Pool, who: AccountId): Result<Done, Error> {
    var account := AccountOf(pool, who);
    if account.shares == 0 then Ok(Done(pool, 0, 0))
    else
      match CalcRewardByShares(pool.info, account.shares)
      case Err(e) => Err(e)
      case Ok(withVirtual) =>
        if withVirtual < account.borrowed then Err(RewardCaculationError)
        else
          var reward := withVirtual - account.borrowed;
          if reward < env.existential then Ok(Done(pool, 0, 0))
          else if pool.info.useable < reward then Err(RewardCaculationError)
          else if pool.sub < reward then Err(TransferFailed)
          else
            Ok(Done(Pool(pool.info.(useable := pool.info.useable - reward),
                         pool.accounts[who := account.(borrowed := withVirtual)], pool.sub - reward), reward, reward))
  }

  function CallOn(env: Env, pool: Pool, call: Call): Result<Done, Error> {
    match call
    case AddShare(who, amount) => Added(pool, who, amount)
    case RemoveShare(who, amount) => Removed(env, pool, who, amount)
    case ClaimRewards(who) => Claimed(env, pool, who)
  }

  /** A call at a block: bring the pool up to date, then act on it. Adding nothing is refused first. */
  function CallAt(env: Env, pool: Pool, call: Call, now: nat): Result<Done, Error> {
    if call.AddShare? && call.amount == 0 then Err(InvalidAmount)
    else
      match Accrued(env, pool, now)
      case Err(e) => Err(e)
      case Ok(current) => CallOn(env, current, call)
  }

  function PoolAfter(env: Env, pool: Pool, call: Call, now: nat): Pool {
    var r := CallAt(env, pool, call, now);
    if r.Ok? then r.value.pool else pool
  }

  /** The read-only estimate of the reward an account has accumulated. */
  function AccumulatedRewards(env: Env, pool: Pool, who: AccountId, now: nat): nat {
    var account := AccountOf(pool, who);
    if account.shares == 0 then 0
    else
      match AccruedInfo(env, pool.info, now)
      case Err(_) => 0
      case Ok((info, _)) =>
        match RewardsByAccountShares(env, info, account, account.shares)
        case Err(_) => 0
        case Ok(r) => r.reward
  }

  // ---- the price of a share, totalRewards / totalShares

  /** The price does not fall from a to b. */
  predicate PriceKept(a: PoolInfo, b: PoolInfo) {
    a.totalRewards * b.totalShares <= b.totalRewards * a.totalShares
  }

  lemma AccrualKeepsPrice(env: Env, pool: Pool, now: nat)
    requires Accrued(env, pool, now).Ok?
    ensures var p := Accrued(env, pool, now).value;
            && PriceKept(pool.info, p.info) && p.info.totalShares == pool.info.totalShares
            && pool.info.totalRewards <= p.info.totalRewards && p.accounts == pool.accounts
            && p.info.totalRewards - pool.info.totalRewards == p.info.useable - pool.info.useable
  {
    MulMono(pool.info.totalRewards, Accrued(env, pool, now).value.info.totalRewards, pool.info.totalShares);
  }

  lemma RemovalKeepsPrice(env: Env, pool: Pool, who: AccountId, amount: nat)
    requires Removed(env, pool, who, amount).Ok?
    ensures PriceKept(pool.info, Removed(env, pool, who, amount).value.pool.info)
  {
    var info := pool.info;
    var r := Removed(env, pool, who, amount).value.pool.info;
    ScaledBounds(amount, info.totalRewards, info.totalShares);
    var w := Scaled(amount, info.totalRewards, info.totalShares);
    MulDistrib(info.totalRewards, info.totalShares - amount, amount);
    MulPlus(info.totalRewards - w, w, info.totalShares);
    assert info.totalRewards * (info.totalShares - amount) <= (info.totalRewards - w) * info.totalShares;
    MulMono(info.totalRewards - w, r.totalRewards, info.totalShares);
  }

  /** Removing shares, claiming and accruing never lower the price. */
  lemma OnlyAddingCanLowerPrice(env: Env, pool: Pool, call: Call, now: nat)
    requires !call.AddShare?
    ensures PriceKept(pool.info, PoolAfter(env, pool, call, now).info)
  {
    if CallAt(env, pool, call, now).Ok? {
      var p := Accrued(env, pool, now).value;
      AccrualKeepsPrice(env, pool, now);
      if call.RemoveShare? {
        RemovalKeepsPrice(env, p, call.who, call.amount);
        var r := CallAt(env, pool, call, now).value.pool;
        MulMono(pool.info.totalRewards, p.info.totalRewards, r.info.totalShares);
      }
    }
  }

  /** Adding shares never raises the price, and lowers it by rounding only: the virtual reward is less than
      1 + amount/10^18 short of the exact one. */
  lemma AddingRoundsPrice(pool: Pool, who: AccountId, amount: nat)
    requires pool.info.totalShares > 0 && Added(pool, who, amount).Ok?
    ensures var a, b := pool.info, Added(pool, who, amount).value.pool.info;
            && PriceKept(b, a)
            && (a.totalRewards * b.totalShares - b.totalRewards * a.totalShares) * SCALE
               < a.totalShares * (SCALE + amount)
  {
    var a := pool.info;
    var v := Scaled(a.totalRewards, amount, a.totalShares);
    ScaledBounds(a.totalRewards, amount, a.totalShares);
    MulDistrib(a.totalRewards, a.totalShares, amount);
    MulPlus(a.totalRewards, v, a.totalShares);
    MulDistrib(a.totalShares, SCALE, amount);
    var exact := a.totalRewards * amount;
    var lost := exact - v * a.totalShares;
    assert a.totalRewards * (a.totalShares + amount) - (a.totalRewards + v) * a.totalShares == lost;
    assert lost * SCALE == exact * SCALE - v * a.totalShares * SCALE;
  }

  lemma NewcomerBound(S: nat, R: nat, a: nat, v: nat, w: nat)
    requires 0 < S && v * S <= R * a && w * (S + a) <= a * (R + v)
    requires (R * a) * SCALE < v * S * SCALE + S * a + SCALE * S
    ensures v <= w ==> (w - v) * SCALE < SCALE + a
  {
    // w is at most the exact value of the added shares: w * S <= R * a
    if w * S > R * a {
      MulDistrib(a, R, v);
      MulDistrib(w, S, a);
      MulMono(R * a + 1, w * S, S + a);
      MulPlus(R * a, 1, S + a);
      MulSwap(w, S, S + a);
      MulMono(w * (S + a), a * (R + v), S);
      MulSwap(w, S + a, S);
      MulPlus(a * R, a * v, S);
      MulSwap(a, v, S);
      MulMono(v * S, R * a, a);
      MulDistrib(R * a, S, a);
      assert false;
    }
    if v <= w {
      MulPlus(w - v, v, S);
      MulMono((w - v) * S, R * a - v * S, SCALE);
      MulSwap(w - v, S, SCALE);
      MulDistrib(S, SCALE, a);
      MulPlus(R * a - v * S, v * S, SCALE);
      assert ((w - v) * SCALE) * S < (SCALE + a) * S;
      MulCancel((w - v) * SCALE, SCALE + a, S);
    }
  }

  /** An account without shares that adds some and removes them at the same block gains less than
      1 + amount/10^18. */
  lemma NewcomerGainsNothing(env: Env, pool: Pool, who: AccountId, amount: nat)
    requires pool.info.totalShares > 0 && AccountOf(pool, who) == AccountInfo(0, 0)
    requires Added(pool, who, amount).Ok? && Removed(env, Added(pool, who, amount).value.pool, who, amount).Ok?
    ensures Removed(env, Added(pool, who, amount).value.pool, who, amount).value.reward * SCALE < SCALE + amount
  {
    var a, p := pool.info, Added(pool, who, amount).value.pool;
    var v := Scaled(a.totalRewards, amount, a.totalShares);
    ScaledBounds(a.totalRewards, amount, a.totalShares);
    assert AccountOf(p, who) == AccountInfo(amount, v);
    var w := Scaled(amount, p.info.totalRewards, p.info.totalShares);
    ScaledBounds(amount, p.info.totalRewards, p.info.totalShares);
    DivUnique(amount * SCALE, amount, SCALE);
    DivUnique(SCALE * v, SCALE, v);
    NewcomerBound(a.totalShares, a.totalRewards, amount, v, w);
  }

  // ---- what the account gets

  /** A removal pays nothing or more than the existential reward, and only the account's own entry changes; one
      of all shares leaves no debt behind. */
  lemma RemovalPays(env: Env, pool: Pool, who: AccountId, amount: nat)
    requires Removed(env, pool, who, amount).Ok?
    ensures var d, account := Removed(env, pool, who, amount).value, AccountOf(pool, who);
            && (d.reward == 0 || env.existential < d.reward)
            && AccountOf(d.pool, who).shares == d.returned == account.shares - amount
            && AccountOf(d.pool, who).borrowed <= account.borrowed
            && (amount == account.shares ==> AccountOf(d.pool, who) == AccountInfo(0, 0))
            && (forall a :: a != who ==> AccountOf(d.pool, a) == AccountOf(pool, a))
  {
    var account := AccountOf(pool, who);
    if amount == account.shares {
      DivUnique(amount * SCALE, amount, SCALE);
      DivUnique(SCALE * account.borrowed, SCALE, account.borrowed);
    }
  }

  /** Once claimed, nothing is left to claim at the same block. */
  lemma ClaimedOnce(env: Env, pool: Pool, who: AccountId)
    requires Claimed(env, pool, who).Ok? && Claimed(env, pool, who).value.reward > 0
    ensures var p := Claimed(env, pool, who).value.pool;
            && Claimed(env, p, who).Ok? && Claimed(env, p, who).value.reward == 0
            && p.info.totalRewards == pool.info.totalRewards && p.info.totalShares == pool.info.totalShares
            && AccountOf(p, who).shares == AccountOf(pool, who).shares
            && (forall a :: a != who ==> AccountOf(p, a) == AccountOf(pool, a))
  {
    var p := Claimed(env, pool, who).value.pool;
    assert CalcRewardByShares(p.info, AccountOf(p, who).shares) == CalcRewardByShares(pool.info, AccountOf(pool, who).shares);
  }
}
