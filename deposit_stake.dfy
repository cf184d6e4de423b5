/** The deposit-stake instruction: validates, reconciles the staker's
    rewards at the old stake, credits the deposit to the vault and the staker,
    and re-bases the reward snapshot on the new stake. */
module DepositStake {
  import opened Numeric
  import opened Errors
  import opened UserStakeState
  import opened StakeVaultState
  import opened Helpers

  /** Every checked step after the guards succeeds: the refresh, the four
      counter additions and the resnapshot at the new stake. */
  predicate DepositFits(stats: StakeStats, staked: U64, active: U64, rewards: UserRewardState, rpt: U128, amount: U64)
  {
    && RefreshedRewards(rewards, active, rpt).Ok?
    && stats.totalStaked + amount <= U64_MAX
    && stats.activeAmount + amount <= U64_MAX
    && staked + amount <= U64_MAX
    && active + amount <= U64_MAX
    && Watermark(active + amount, rpt).Some?
  }

  /** `deposit_stake::handler`. `owner` is the signer and `now` the clock;
      `transferOk` says whether the token program accepts the transfer of
      `amount` from the staker's token account into the vault's. */
  method Handler(vault: StakeVault, user: UserStake, owner: Pubkey, amount: U64, now: I64, transferOk: bool)
    returns (outcome: Outcome)
    modifies vault`stakeStats
    modifies user`owner, user`isInitialized, user`lastUpdateTimestamp, user`stakedAmount, user`activeStakeAmount, user`rewardState
    ensures amount == 0 ==> outcome == Fail(InvalidAmount)
    ensures amount > 0 && vault.isPaused ==> outcome == Fail(VaultPaused)
    ensures amount > 0 && !vault.isPaused && !vault.permissions.allowDeposits ==> outcome == Fail(DepositsNotAllowed)
    ensures amount > 0 && !vault.isPaused && vault.permissions.allowDeposits && !transferOk
            && RefreshedRewards(old(user.rewardState), old(user.activeStakeAmount), vault.rewardState.rewardPerTokenStaked).Ok?
            ==> outcome == Fail(TokenTransferFailed)
    ensures outcome == Pass <==>
              && amount > 0 && !vault.isPaused && vault.permissions.allowDeposits && transferOk
              && DepositFits(old(vault.stakeStats), old(user.stakedAmount), old(user.activeStakeAmount),
                             old(user.rewardState), vault.rewardState.rewardPerTokenStaked, amount)
    ensures outcome.Fail? ==> unchanged(vault`stakeStats, user`owner, user`isInitialized, user`lastUpdateTimestamp)
    ensures outcome.Fail? ==> unchanged(user`stakedAmount, user`activeStakeAmount, user`rewardState)
    ensures outcome == Pass ==>
              && vault.stakeStats == old(vault.stakeStats).(totalStaked := old(vault.stakeStats.totalStaked) + amount,
                                                          activeAmount := old(vault.stakeStats.activeAmount) + amount)
              && user.stakedAmount == old(user.stakedAmount) + amount
              && user.activeStakeAmount == old(user.activeStakeAmount) + amount
              && user.owner == owner && user.isInitialized && user.lastUpdateTimestamp == now
              && var refreshed := RefreshedRewards(old(user.rewardState), old(user.activeStakeAmount),
                                                   vault.rewardState.rewardPerTokenStaked).value;
                 user.rewardState == ResnapshotRewards(refreshed, user.activeStakeAmount,
                                                       vault.rewardState.rewardPerTokenStaked).value
    ensures old(Conserved(vault.stakeStats)) ==> Conserved(vault.stakeStats)
  {
    if amount == 0 {
      return Fail(InvalidAmount);
    }
    if vault.isPaused {
      return Fail(VaultPaused);
    }
    if !vault.permissions.allowDeposits {
      return Fail(DepositsNotAllowed);
    }
    outcome := Credit(vault, user, owner, amount, now, transferOk);
  }

  /** The part of the instruction after validation: refresh, the transfer,
      the checked counter updates and the resnapshot. A refused transfer
      fails with `TokenTransferFailed`, any other failure is `MathOverflow`,
      and either leaves both accounts as they were. */
  method Credit(vault: StakeVault, user: UserStake, owner: Pubkey, amount: U64, now: I64, transferOk: bool)
    returns (outcome: Outcome)
    modifies vault`stakeStats
    modifies user`owner, user`isInitialized, user`lastUpdateTimestamp, user`stakedAmount, user`activeStakeAmount, user`rewardState
    ensures outcome == Pass <==>
              transferOk
              && DepositFits(old(vault.stakeStats), old(user.stakedAmount), old(user.activeStakeAmount),
                             old(user.rewardState), vault.rewardState.rewardPerTokenStaked, amount)
    ensures outcome == Fail(TokenTransferFailed) <==>
              !transferOk
              && RefreshedRewards(old(user.rewardState), old(user.activeStakeAmount), vault.rewardState.rewardPerTokenStaked).Ok?
    ensures outcome.Fail? ==> outcome.error in {MathOverflow, TokenTransferFailed}
    ensures outcome.Fail? ==> unchanged(vault`stakeStats, user`owner, user`isInitialized, user`lastUpdateTimestamp)
    ensures outcome.Fail? ==> unchanged(user`stakedAmount, user`activeStakeAmount, user`rewardState)
    ensures outcome == Pass ==>
              && vault.stakeStats == old(vault.stakeStats).(totalStaked := old(vault.stakeStats.totalStaked) + amount,
                                                          activeAmount := old(vault.stakeStats.activeAmount) + amount)
              && user.stakedAmount == old(user.stakedAmount) + amount
              && user.activeStakeAmount == old(user.activeStakeAmount) + amount
              && user.owner == owner && user.isInitialized && user.lastUpdateTimestamp == now
              && var refreshed := RefreshedRewards(old(user.rewardState), old(user.activeStakeAmount),
                                                   vault.rewardState.rewardPerTokenStaked).value;
                 user.rewardState == ResnapshotRewards(refreshed, user.activeStakeAmount,
                                                       vault.rewardState.rewardPerTokenStaked).value
  {
    var savedRewards := user.rewardState;

    outcome := RefreshUserRewards(user, vault);
    if outcome.Fail? {
      return;
    }
    if !transferOk {
      user.rewardState := savedRewards;
      return Fail(TokenTransferFailed);
    }

    var totalStaked := CheckedAddU64(vault.stakeStats.totalStaked, amount);
    var activeAmount := CheckedAddU64(vault.stakeStats.activeAmount, amount);
    var staked := CheckedAddU64(user.stakedAmount, amount);
    var active := CheckedAddU64(user.activeStakeAmount, amount);
    if totalStaked.None? || activeAmount.None? || staked.None? || active.None? {
      user.rewardState := savedRewards;
      return Fail(MathOverflow);
    }
    outcome := Commit(vault, user, owner, amount, now, savedRewards);
  }

  /** The writes after the checked additions succeeded, then the resnapshot at
      the new stake; when the resnapshot overflows, every field goes back,
      the reward state to `savedRewards`. */
  method Commit(vault: StakeVault, user: UserStake, owner: Pubkey, amount: U64, now: I64, savedRewards: UserRewardState)
    returns (outcome: Outcome)
    requires vault.stakeStats.totalStaked + amount <= U64_MAX && vault.stakeStats.activeAmount + amount <= U64_MAX
    requires user.stakedAmount + amount <= U64_MAX && user.activeStakeAmount + amount <= U64_MAX
    modifies vault`stakeStats
    modifies user`owner, user`isInitialized, user`lastUpdateTimestamp, user`stakedAmount, user`activeStakeAmount, user`rewardState
    ensures outcome == Pass <==> Watermark(old(user.activeStakeAmount) + amount, vault.rewardState.rewardPerTokenStaked).Some?
    ensures outcome.Fail? ==> outcome.error == MathOverflow && user.rewardState == savedRewards
    ensures outcome.Fail? ==> unchanged(vault`stakeStats, user`owner, user`isInitialized, user`lastUpdateTimestamp)
    ensures outcome.Fail? ==> unchanged(user`stakedAmount, user`activeStakeAmount)
    ensures outcome == Pass ==>
              && vault.stakeStats == old(vault.stakeStats).(totalStaked := old(vault.stakeStats.totalStaked) + amount,
                                                          activeAmount := old(vault.stakeStats.activeAmount) + amount)
              && user.stakedAmount == old(user.stakedAmount) + amount
              && user.activeStakeAmount == old(user.activeStakeAmount) + amount
              && user.owner == owner && user.isInitialized && user.lastUpdateTimestamp == now
              && user.rewardState == ResnapshotRewards(old(user.rewardState), user.activeStakeAmount,
                                                       vault.rewardState.rewardPerTokenStaked).value
  {
    var savedStats := vault.stakeStats;
    var savedOwner, savedInitialized, savedTimestamp := user.owner, user.isInitialized, user.lastUpdateTimestamp;
    var savedStaked, savedActive := user.stakedAmount, user.activeStakeAmount;
    vault.stakeStats := vault.stakeStats.(totalStaked := vault.stakeStats.totalStaked + amount,
                                          activeAmount := vault.stakeStats.activeAmount + amount);
    user.owner, user.isInitialized, user.lastUpdateTimestamp := owner, true, now;
    user.stakedAmount, user.activeStakeAmount := user.stakedAmount + amount, user.activeStakeAmount + amount;

    outcome := UpdateRewardSnapshotAfterStakeChange(user, vault);
    if outcome.Fail? {
      vault.stakeStats, user.rewardState := savedStats, savedRewards;
      user.owner, user.isInitialized, user.lastUpdateTimestamp := savedOwner, savedInitialized, savedTimestamp;
      user.stakedAmount, user.activeStakeAmount := savedStaked, savedActive;
    }
  }
}
