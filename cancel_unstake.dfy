/** The cancel-unstake instruction: returns what is still unclaimed in one
    unstake request to the staker's active stake and removes the request. */
module CancelUnstake {
  import opened Numeric
  import opened Errors
  import opened UserStakeState
  import opened StakeVaultState
  import opened Helpers

  /** Every checked step after the amount checks succeeds: the two additions
      to the active stake, the subtraction from the vault's unstaking amount
      and the resnapshot at the larger stake. */
  predicate ReleaseFits(stats: StakeStats, active: U64, rpt: U128, remaining: U64)
  {
    && active + remaining <= U64_MAX
    && stats.activeAmount + remaining <= U64_MAX
    && remaining <= stats.unstakingAmount
    && Watermark(active + remaining, rpt).Some?
  }

  /** `cancel_unstake::handler`. `owner` is the signer and `now` the clock. */
  method Handler(vault: StakeVault, user: UserStake, owner: Pubkey, index: nat, now: I64) returns (outcome: Outcome)
    requires user.Valid()
    modifies vault`stakeStats
    modifies user`requestCount, user.requests, user`activeStakeAmount, user`lastUpdateTimestamp, user`rewardState
    ensures user.Valid()
    ensures user.owner != owner ==> outcome == Fail(Unauthorized)
    ensures user.owner == owner && index >= old(user.requestCount) ==> outcome == Fail(InvalidRequestIndex)
    ensures user.owner == owner && index < old(user.requestCount) && vault.isPaused ==> outcome == Fail(VaultPaused)
    ensures outcome == Pass <==>
              && user.owner == owner && index < old(user.requestCount) && !vault.isPaused
              && RefreshedRewards(old(user.rewardState), old(user.activeStakeAmount), vault.rewardState.rewardPerTokenStaked).Ok?
              && var r := old(user.requests[index]);
                 r.claimedAmount < r.totalAmount
                 && ReleaseFits(old(vault.stakeStats), old(user.activeStakeAmount), vault.rewardState.rewardPerTokenStaked,
                                r.totalAmount - r.claimedAmount)
    ensures outcome == Fail(NoAmountToCancel) <==>
              && user.owner == owner && index < old(user.requestCount) && !vault.isPaused
              && RefreshedRewards(old(user.rewardState), old(user.activeStakeAmount), vault.rewardState.rewardPerTokenStaked).Ok?
              && old(user.requests[index]).claimedAmount == old(user.requests[index]).totalAmount
    ensures outcome.Fail? ==> unchanged(vault`stakeStats, user.requests)
    ensures outcome.Fail? ==> unchanged(user`requestCount, user`activeStakeAmount, user`lastUpdateTimestamp, user`rewardState)
    ensures outcome == Pass ==> ReleaseApplied(vault, user, index, now)
    ensures old(Conserved(vault.stakeStats)) ==> Conserved(vault.stakeStats)
  {
    if user.owner != owner {
      return Fail(Unauthorized);
    }
    if index >= user.requestCount {
      return Fail(InvalidRequestIndex);
    }
    if vault.isPaused {
      return Fail(VaultPaused);
    }
    outcome := Release(vault, user, index, now);
  }

  /** The state after a successful cancel: the request removed with the others
      kept in order, its unclaimed remainder moved from unstaking back to
      active on both accounts, and the snapshot re-based on the larger
      stake. */
  twostate predicate ReleaseApplied(vault: StakeVault, user: UserStake, index: nat, now: I64)
    reads vault, user, user.requests
  {
    && user.Valid() && old(user.Valid()) && index < old(user.requestCount)
    && var r := old(user.Requests())[index];
       && r.claimedAmount < r.totalAmount
       && var remaining := r.totalAmount - r.claimedAmount;
          && user.Requests() == old(user.Requests())[..index] + old(user.Requests())[index + 1..]
          && user.activeStakeAmount == old(user.activeStakeAmount) + remaining
          && user.lastUpdateTimestamp == now
          && vault.stakeStats.activeAmount == old(vault.stakeStats.activeAmount) + remaining
          && vault.stakeStats.unstakingAmount + remaining == old(vault.stakeStats.unstakingAmount)
          && vault.stakeStats.totalStaked == old(vault.stakeStats.totalStaked)
          && vault.stakeStats.totalVested == old(vault.stakeStats.totalVested)
          && RefreshedRewards(old(user.rewardState), old(user.activeStakeAmount), vault.rewardState.rewardPerTokenStaked).Ok?
          && var refreshed := RefreshedRewards(old(user.rewardState), old(user.activeStakeAmount),
                                               vault.rewardState.rewardPerTokenStaked).value;
             ResnapshotRewards(refreshed, user.activeStakeAmount, vault.rewardState.rewardPerTokenStaked).Ok?
             && user.rewardState == ResnapshotRewards(refreshed, user.activeStakeAmount,
                                                      vault.rewardState.rewardPerTokenStaked).value
  }

  /** The part of the instruction after validation. The checked steps are
      evaluated before anything is written, so a failure needs only the
      refreshed reward state put back. */
  method Release(vault: StakeVault, user: UserStake, index: nat, now: I64) returns (outcome: Outcome)
    requires user.Valid() && index < user.requestCount
    modifies vault`stakeStats
    modifies user`requestCount, user.requests, user`activeStakeAmount, user`lastUpdateTimestamp, user`rewardState
    ensures user.Valid()
    ensures outcome == Pass <==>
              && RefreshedRewards(old(user.rewardState), old(user.activeStakeAmount), vault.rewardState.rewardPerTokenStaked).Ok?
              && var r := old(user.requests[index]);
                 r.claimedAmount < r.totalAmount
                 && ReleaseFits(old(vault.stakeStats), old(user.activeStakeAmount), vault.rewardState.rewardPerTokenStaked,
                                r.totalAmount - r.claimedAmount)
    ensures outcome == Fail(NoAmountToCancel) <==>
              && RefreshedRewards(old(user.rewardState), old(user.activeStakeAmount), vault.rewardState.rewardPerTokenStaked).Ok?
              && old(user.requests[index]).claimedAmount == old(user.requests[index]).totalAmount
    ensures outcome.Fail? ==> outcome.error in {MathOverflow, NoAmountToCancel}
    ensures outcome.Fail? ==> unchanged(vault`stakeStats, user.requests)
    ensures outcome.Fail? ==> unchanged(user`requestCount, user`activeStakeAmount, user`lastUpdateTimestamp, user`rewardState)
    ensures outcome == Pass ==> ReleaseApplied(vault, user, index, now)
  {
    var savedRewards := user.rewardState;
    outcome := RefreshUserRewards(user, vault);
    if outcome.Fail? {
      return;
    }
    var request := user.requests[index];
    var remaining := CheckedSubU64(request.totalAmount, request.claimedAmount);
    if remaining.None? {
      user.rewardState := savedRewards;
      return Fail(MathOverflow);
    }
    if remaining.value == 0 {
      user.rewardState := savedRewards;
      return Fail(NoAmountToCancel);
    }
    var active := CheckedAddU64(user.activeStakeAmount, remaining.value);
    var vaultActive := CheckedAddU64(vault.stakeStats.activeAmount, remaining.value);
    var unstaking := CheckedSubU64(vault.stakeStats.unstakingAmount, remaining.value);
    if active.None? || vaultActive.None? || unstaking.None?
       || CheckedMulU128(active.value, vault.rewardState.rewardPerTokenStaked).None? {
      user.rewardState := savedRewards;
      return Fail(MathOverflow);
    }

    user.activeStakeAmount := active.value;
    vault.stakeStats := vault.stakeStats.(activeAmount := vaultActive.value, unstakingAmount := unstaking.value);
    user.RemoveRequest(index);
    outcome := UpdateRewardSnapshotAfterStakeChange(user, vault);
    user.lastUpdateTimestamp := now;
  }
}
