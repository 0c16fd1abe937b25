/** The reward pool's storage and the calls that edit it, each proved against RewardPool.CallAt. */
module RewardPoolPallet {
  import opened Arith
  import opened Options
  import opened RewardPool

  class Pallet {
    const env: Env
    var info: PoolInfo
    var accountData: map<AccountId, AccountInfo>
    var subAccount: nat

    function Value(): Pool
      reads this
    {
      Pool(info, accountData, subAccount)
    }

    constructor (env: Env, pool: Pool)
      ensures this.env == env && Value() == pool
    {
      this.env, info, accountData, subAccount := env, pool.info, pool.accounts, pool.sub;
    }

    /** Undoes what a failing call has written. */
    method RollBack(saved: Pool)
      modifies this
      ensures Value() == saved
    {
      info, accountData, subAccount := saved.info, saved.accounts, saved.sub;
    }

    /** Brings the pool up to the current block. */
    method UpdatePoolReward(now: nat) returns (result: Result<PoolInfo, Error>)
      modifies this`info, this`subAccount
      ensures match Accrued(env, old(Value()), now)
              case Ok(p) => result == Ok(p.info) && Value() == p
              case Err(e) => result == Err(e) && Value() == old(Value())
    {
      var accrued := AccruedInfo(env, info, now);
      if accrued.Err? {
        return Err(accrued.error);
      }
      var poolInfo, balanceChange := accrued.value.0, accrued.value.1;
      if balanceChange != 0 {
        subAccount := subAccount + Min(balanceChange, I128_MAX);
      }
      info := poolInfo;
      return Ok(poolInfo);
    }

    method AddShare(who: AccountId, amount: nat, now: nat) returns (result: Result<nat, Error>)
      modifies this
      ensures Value() == PoolAfter(env, old(Value()), Call.AddShare(who, amount), now)
      ensures match CallAt(env, old(Value()), Call.AddShare(who, amount), now)
              case Ok(d) => result == Ok(d.returned)
              case Err(e) => result == Err(e)
    {
      var saved := Value();
      if amount == 0 {
        return Err(InvalidAmount);
      }
      var updated := UpdatePoolReward(now);
      if updated.Err? {
        return Err(updated.error);
      }
      var poolInfo := updated.value;
      var price := Some(0);
      if poolInfo.totalShares != 0 {
        price := FromRational(poolInfo.totalRewards, poolInfo.totalShares);
      }
      var virtualReward: Option<nat> := None;
      if price.Some? {
        virtualReward := MulInt(price.value, amount);
      }
      if virtualReward.None?
         || poolInfo.totalShares + amount > U128_MAX || poolInfo.totalRewards + virtualReward.value > U128_MAX {
        RollBack(saved);
        return Err(RewardCaculationError);
      }
      poolInfo := poolInfo.(totalShares := poolInfo.totalShares + amount);
      poolInfo := poolInfo.(totalRewards := poolInfo.totalRewards + virtualReward.value);
      info := poolInfo;
      var data := if who in accountData then accountData[who] else AccountInfo(0, 0);
      if data.shares + amount > U128_MAX || data.borrowed + virtualReward.value > U128_MAX {
        RollBack(saved);
        return Err(RewardCaculationError);
      }
      data := data.(shares := data.shares + amount);
      data := data.(borrowed := data.borrowed + virtualReward.value);
      accountData := accountData[who := data];
      return Ok(data.shares);
    }

    method RemoveShare(who: AccountId, amount: nat, now: nat) returns (result: Result<nat, Error>)
      modifies this
      ensures Value() == PoolAfter(env, old(Value()), Call.RemoveShare(who, amount), now)
      ensures match CallAt(env, old(Value()), Call.RemoveShare(who, amount), now)
              case Ok(d) => result == Ok(d.returned)
              case Err(e) => result == Err(e)
    {
      var saved := Value();
      var updated := UpdatePoolReward(now);
      if updated.Err? {
        return Err(updated.error);
      }
      var account := if who in accountData then accountData[who] else AccountInfo(0, 0);
      if account.shares < amount {
        RollBack(saved);
        return Err(InsufficientShares);
      }
      var removal := RewardsByAccountShares(env, updated.value, account, amount);
      if removal.Err? {
        RollBack(saved);
        return Err(removal.error);
      }
      info := removal.value.info;
      accountData := accountData[who := removal.value.account];
      if subAccount < removal.value.reward {
        RollBack(saved);
        return Err(TransferFailed);
      }
      subAccount := subAccount - removal.value.reward;
      return Ok(removal.value.account.shares);
    }

    method ClaimRewards(who: AccountId, now: nat) returns (result: Result<nat, Error>)
      modifies this
      ensures Value() == PoolAfter(env, old(Value()), Call.ClaimRewards(who), now)
      ensures match CallAt(env, old(Value()), Call.ClaimRewards(who), now)
              case Ok(d) => result == Ok(d.returned)
              case Err(e) => result == Err(e)
    {
      var saved := Value();
      var updated := UpdatePoolReward(now);
      if updated.Err? {
        return Err(updated.error);
      }
      var account := if who in accountData then accountData[who] else AccountInfo(0, 0);
      if account.shares == 0 {
        return Ok(0);
      }
      var withVirtual := CalcRewardByShares(updated.value, account.shares);
      if withVirtual.Err? {
        RollBack(saved);
        return Err(withVirtual.error);
      }
      if withVirtual.value < account.borrowed {
        RollBack(saved);
        return Err(RewardCaculationError);
      }
      var actualReward := withVirtual.value - account.borrowed;
      if actualReward < env.existential {
        return Ok(0);
      }
      if updated.value.useable < actualReward {
        RollBack(saved);
        return Err(RewardCaculationError);
      }
      if subAccount < actualReward {
        RollBack(saved);
        return Err(TransferFailed);
      }
      subAccount := subAccount - actualReward;
      info := info.(useable := updated.value.useable - actualReward);
      accountData := accountData[who := account.(borrowed := withVirtual.value)];
      return Ok(actualReward);
    }
  }
}
