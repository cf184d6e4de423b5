/** The unstake-request instruction: moves part of a staker's active stake
    into a new linear-unlock request. Unlike the deposit and cancel
    instructions it does not check the pause flag. */
module UnstakeRequestHandler {
  import opened Numeric
  import opened Errors
  import opened UserStakeState
  import opened StakeVaultState
  import opened Helpers

  /** The request created at `now` for `amount`: nothing claimed yet, unlocking
      over the vault's vesting period, read as a signed value. */
  function NewRequest(amount: U64, now: I64, vestingPeriodSeconds: int): (r: UnstakeRequest)
    ensures r.totalAmount == amount && r.claimedAmount == 0 && r.startTimestamp == now
    ensures I64_MIN <= vestingPeriodSeconds <= I64_MAX ==> r.endTimestamp == now + vestingPeriodSeconds
  {
    UnstakeRequest(amount, 0, now, now + WrapI64(vestingPeriodSeconds))
  }

  /** Every checked step after the guards succeeds: the refresh and the three
      vault counter updates. */
  predicate LockFits(stats: StakeStats, collective: U64, rewards: UserRewardState, active: U64, rpt: U128, amount: U64)
  {
    && RefreshedRewards(rewards, active, rpt).Ok?
    && amount <= stats.activeAmount
    && stats.unstakingAmount + amount <= U64_MAX
    && collective + 1 <= U64_MAX
  }

  /** `unstake_request::handler`. `now` is the clock. */
  method Handler(vault: StakeVault, user: UserStake, amount: U64, now: I64) returns (outcome: Outcome)
    requires user.Valid()
    modifies vault`stakeStats, vault`collectiveUnstakeRequestsCount
    modifies user`requestCount, user.requests, user`activeStakeAmount, user`lastUpdateTimestamp, user`rewardState
    ensures user.Valid()
    ensures !vault.permissions.allowWithdrawals ==> outcome == Fail(WithdrawalsDisabled)
    ensures vault.permissions.allowWithdrawals && (amount == 0 || amount > old(user.activeStakeAmount)) ==>
              outcome == Fail(InvalidAmount)
    ensures (vault.permissions.allowWithdrawals && 0 < amount <= old(user.activeStakeAmount)
             && old(user.requestCount) == MAX_UNSTAKE_REQUESTS) ==> outcome == Fail(MaxUnstakeRequestsReached)
    ensures outcome == Pass <==>
              && vault.permissions.allowWithdrawals && 0 < amount <= old(user.activeStakeAmount)
              && old(user.requestCount) < MAX_UNSTAKE_REQUESTS
              && LockFits(old(vault.stakeStats), old(vault.collectiveUnstakeRequestsCount), old(user.rewardState),
                          old(user.activeStakeAmount), vault.rewardState.rewardPerTokenStaked, amount)
    ensures outcome.Fail? ==> unchanged(vault`stakeStats, vault`collectiveUnstakeRequestsCount, user.requests)
    ensures outcome.Fail? ==> unchanged(user`requestCount, user`activeStakeAmount, user`lastUpdateTimestamp, user`rewardState)
    ensures outcome == Pass ==> LockApplied(vault, user, amount, now)
    ensures old(Conserved(vault.stakeStats)) ==> Conserved(vault.stakeStats)
  {
    if !vault.permissions.allowWithdrawals {
      return Fail(WithdrawalsDisabled);
    }
    if !(amount > 0 && amount <= user.activeStakeAmount) {
      return Fail(InvalidAmount);
    }
    if !(user.requestCount < MAX_UNSTAKE_REQUESTS) {
      return Fail(MaxUnstakeRequestsReached);
    }
    outcome := Lock(vault, user, amount, now);
  }

  /** The state after a successful request: the new request appended, the
      amount moved from active to unstaking on both accounts, one more request
      counted, and the snapshot re-based on the smaller stake. */
  twostate predicate LockApplied(vault: StakeVault, user: UserStake, amount: U64, now: I64)
    reads vault, user, user.requests
  {
    && user.Valid() && old(user.Valid())
    && user.Requests() == old(user.Requests()) + [NewRequest(amount, now, vault.vestingPeriodSeconds)]
    && user.activeStakeAmount + amount == old(user.activeStakeAmount)
    && user.lastUpdateTimestamp == now
    && vault.stakeStats.activeAmount + amount == old(vault.stakeStats.activeAmount)
    && vault.stakeStats.unstakingAmount == old(vault.stakeStats.unstakingAmount) + amount
    && vault.stakeStats.totalStaked == old(vault.stakeStats.totalStaked)
    && vault.stakeStats.totalVested == old(vault.stakeStats.totalVested)
    && vault.collectiveUnstakeRequestsCount == old(vault.collectiveUnstakeRequestsCount) + 1
    && RefreshedRewards(old(user.rewardState), old(user.activeStakeAmount), vault.rewardState.rewardPerTokenStaked).Ok?
    && var refreshed := RefreshedRewards(old(user.rewardState), old(user.activeStakeAmount),
                                         vault.rewardState.rewardPerTokenStaked).value;
       ResnapshotRewards(refreshed, user.activeStakeAmount, vault.rewardState.rewardPerTokenStaked).Ok?
       && user.rewardState == ResnapshotRewards(refreshed, user.activeStakeAmount,
                                                vault.rewardState.rewardPerTokenStaked).value
  }

  /** The part of the instruction after validation. The subtraction from the
      staker's active stake cannot fail (the amount was checked against it),
      and neither can the resnapshot: a smaller stake's watermark exists
      whenever the larger one's did. */
  method Lock(vault: StakeVault, user: UserStake, amount: U64, now: I64) returns (outcome: Outcome)
    requires user.Valid() && 0 < amount <= user.activeStakeAmount && user.requestCount < MAX_UNSTAKE_REQUESTS
    modifies vault`stakeStats, vault`collectiveUnstakeRequestsCount
    modifies user`requestCount, user.requests, user`activeStakeAmount, user`lastUpdateTimestamp, user`rewardState
    ensures user.Valid()
    ensures outcome == Pass <==>
              LockFits(old(vault.stakeStats), old(vault.collectiveUnstakeRequestsCount), old(user.rewardState),
                       old(user.activeStakeAmount), vault.rewardState.rewardPerTokenStaked, amount)
    ensures outcome.Fail? ==> outcome.error == MathOverflow
    ensures outcome.Fail? ==> unchanged(vault`stakeStats, vault`collectiveUnstakeRequestsCount, user.requests)
    ensures outcome.Fail? ==> unchanged(user`requestCount, user`activeStakeAmount, user`lastUpdateTimestamp, user`rewardState)
    ensures outcome == Pass ==> LockApplied(vault, user, amount, now)
  {
    var savedRewards := user.rewardState;
    outcome := RefreshUserRewards(user, vault);
    if outcome.Fail? {
      return;
    }
    var vaultActive := CheckedSubU64(vault.stakeStats.activeAmount, amount);
    var unstaking := CheckedAddU64(vault.stakeStats.unstakingAmount, amount);
    var collective := CheckedAddU64(vault.collectiveUnstakeRequestsCount, 1);
    if vaultActive.None? || unstaking.None? || collective.None? {
      user.rewardState := savedRewards;
      return Fail(MathOverflow);
    }

    user.PushRequest(NewRequest(amount, now, vault.vestingPeriodSeconds));
    user.activeStakeAmount := user.activeStakeAmount - amount;
    user.lastUpdateTimestamp := now;
    vault.stakeStats := vault.stakeStats.(activeAmount := vaultActive.value, unstakingAmount := unstaking.value);
    vault.collectiveUnstakeRequestsCount := collective.value;

    WatermarkDefinedBelow(user.activeStakeAmount, old(user.activeStakeAmount), vault.rewardState.rewardPerTokenStaked);
    outcome := UpdateRewardSnapshotAfterStakeChange(user, vault);
  }
}
