/** Instruction sequences: what one instruction guarantees about the next
    when nothing else runs in between. */
module Scenarios {
  import opened Numeric
  import opened Errors
  import opened UserStakeState
  import opened StakeVaultState
  import opened Helpers
  import UnstakeRequestHandler
  import CancelUnstake
  import ClaimVested
  import CollectRewards
  import DepositRewards
  import DepositStake
  import AdminInstructions

  /** Claiming twice at the same moment, with the token program behaving the
      same both times, never pays twice: after a successful claim the second
      finds nothing, and after a failed one the second fails the same way. */
  method ClaimTwice(vault: StakeVault, user: UserStake, now: I64, transferOk: bool) returns (first: Outcome, second: Outcome)
    requires user.Valid()
    modifies vault`stakeStats
    modifies user.requests, user`requestCount, user`vestedStakeAmount, user`stakedAmount, user`lastUpdateTimestamp
    ensures first == Pass ==> second == Fail(NoClaimableAmount)
    ensures second.Fail?
  {
    first := ClaimVested.Handler(vault, user, now, transferOk);
    if first == Pass {
      ClaimedSlotsHoldNothing(user.requests[..], user.requestCount, now);
    } else {
      assert user.Requests() == old(user.Requests());
    }
    second := ClaimVested.Handler(vault, user, now, transferOk);
  }

  /** The collection's used slots have nothing to claim when the whole array
      has nothing to claim. */
  lemma ClaimedSlotsHoldNothing(slots: seq<UnstakeRequest>, n: nat, now: I64)
    requires n <= |slots| && SumClaimable(slots, now) == 0
    ensures SumClaimable(slots[..n], now) == 0
  {
    SumClaimableOfPrefix(slots, n, now);
  }

  /** Collecting twice at the same moment, with the token program behaving the
      same both times, never pays twice: after a successful collect, with the
      accumulator unchanged, the second finds nothing. */
  method CollectTwice(vault: StakeVault, user: UserStake, owner: Pubkey, now: I64, transferOk: bool)
    returns (first: Outcome, second: Outcome)
    modifies vault`rewardState, user`rewardState, user`lastUpdateTimestamp
    ensures first == Pass ==> second == Fail(NoRewardsToClaim)
    ensures second.Fail?
  {
    first := CollectRewards.Handler(vault, user, owner, now, transferOk);
    if first == Pass {
      ghost var r := RefreshedRewards(old(user.rewardState), user.activeStakeAmount,
                                      old(vault.rewardState.rewardPerTokenStaked));
      CollectRewards.NothingToCollectTwice(old(user.rewardState), user.activeStakeAmount,
                                           vault.rewardState.rewardPerTokenStaked);
      assert user.rewardState == CollectRewards.PaidOut(r.value);
    }
    second := CollectRewards.Handler(vault, user, owner, now, transferOk);
  }

  /** An unstake request cancelled straight away, by its owner and with the
      vault unpaused, leaves the staker's requests, active stake and the vault
      ledger as they were; only the reward reconciliation at the old stake
      remains, and the vault's request counter, which cancelling does not
      decrement. */
  method UnstakeThenCancel(vault: StakeVault, user: UserStake, owner: Pubkey, amount: U64, now: I64)
    returns (first: Outcome, second: Outcome)
    requires user.Valid() && user.owner == owner && !vault.isPaused
    modifies vault`stakeStats, vault`collectiveUnstakeRequestsCount
    modifies user`requestCount, user.requests, user`activeStakeAmount, user`lastUpdateTimestamp, user`rewardState
    ensures user.Valid()
    ensures first == Pass ==> second == Pass
    ensures first == Pass ==>
              && user.Requests() == old(user.Requests())
              && user.activeStakeAmount == old(user.activeStakeAmount)
              && vault.stakeStats == old(vault.stakeStats)
              && vault.collectiveUnstakeRequestsCount == old(vault.collectiveUnstakeRequestsCount) + 1
              && RefreshedRewards(old(user.rewardState), old(user.activeStakeAmount),
                                  vault.rewardState.rewardPerTokenStaked)
                 == Ok(user.rewardState)
  {
    first := UnstakeRequestHandler.Handler(vault, user, amount, now);
    if first.Fail? {
      second := first;
      return;
    }
    ghost var requests, active, stats := user.Requests(), user.activeStakeAmount, vault.stakeStats;
    ghost var rewards := user.rewardState;
    var index := user.requestCount - 1;
    ghost var rpt := vault.rewardState.rewardPerTokenStaked;
    RoundTripFits(old(user.rewardState), old(user.activeStakeAmount), rpt, amount);
    assert requests[index] == UnstakeRequestHandler.NewRequest(amount, now, vault.vestingPeriodSeconds);
    second := CancelUnstake.Handler(vault, user, owner, index, now);
    assert requests[..index] == old(user.Requests());
  }

  /** The reward steps of an unstake of `amount` followed by its cancel: the
      refresh and resnapshot at the reduced stake, then the refresh and
      resnapshot at the restored stake, all succeed and end where a single
      refresh at the original stake ends. */
  lemma RoundTripFits(state: UserRewardState, active: U64, rpt: U128, amount: U64)
    requires 0 < amount <= active && RefreshedRewards(state, active, rpt).Ok?
    ensures Watermark(active, rpt).Some?
    ensures var refreshed := RefreshedRewards(state, active, rpt).value;
            && ResnapshotRewards(refreshed, active - amount, rpt).Ok?
            && var locked := ResnapshotRewards(refreshed, active - amount, rpt).value;
               && RefreshedRewards(locked, active - amount, rpt) == Ok(locked)
               && ResnapshotRewards(locked, active, rpt) == Ok(refreshed)
  {
    var refreshed := RefreshedRewards(state, active, rpt).value;
    WatermarkDefinedBelow(active - amount, active, rpt);
    var locked := ResnapshotRewards(refreshed, active - amount, rpt).value;
    if active - amount == 0 {
      RefreshWithoutStake(locked, rpt);
    } else {
      ResnapshotThenRefresh(refreshed, active - amount, rpt, rpt);
    }
  }

  /** Two reward deposits by the admin, both transfers accepted, add up in
      the pending rewards. */
  method DepositRewardsTwice(vault: StakeVault, admin: Pubkey, a: U64, b: U64, transferOk: bool)
    returns (first: Outcome, second: Outcome)
    modifies vault`rewardState
    ensures admin == vault.admin && a > 0 && b > 0 && transferOk
            && old(vault.rewardState.pendingRewards) + a + b <= U128_MAX ==>
              first == Pass && second == Pass
    ensures first == Pass && second == Pass ==>
              old(vault.rewardState.pendingRewards) + a + b <= U128_MAX &&
              vault.rewardState == old(vault.rewardState).(pendingRewards := old(vault.rewardState.pendingRewards) + a + b)
  {
    first := DepositRewards.Handler(vault, admin, a, transferOk);
    second := DepositRewards.Handler(vault, admin, b, transferOk);
  }

  /** Two stake deposits accumulate: when both succeed, the vault's total and
      active amounts and the staker's staked and active amounts have each
      grown by their sum. */
  method DepositStakeTwice(vault: StakeVault, user: UserStake, owner: Pubkey, a: U64, b: U64, now: I64, transferOk: bool)
    returns (first: Outcome, second: Outcome)
    modifies vault`stakeStats
    modifies user`owner, user`isInitialized, user`lastUpdateTimestamp, user`stakedAmount, user`activeStakeAmount, user`rewardState
    ensures first == Pass && second == Pass ==>
              && vault.stakeStats.totalStaked == old(vault.stakeStats.totalStaked) + a + b
              && vault.stakeStats.activeAmount == old(vault.stakeStats.activeAmount) + a + b
              && vault.stakeStats.unstakingAmount == old(vault.stakeStats.unstakingAmount)
              && user.stakedAmount == old(user.stakedAmount) + a + b
              && user.activeStakeAmount == old(user.activeStakeAmount) + a + b
    ensures old(Conserved(vault.stakeStats)) ==> Conserved(vault.stakeStats)
  {
    first := DepositStake.Handler(vault, user, owner, a, now, transferOk);
    second := DepositStake.Handler(vault, user, owner, b, now, transferOk);
  }

  /** Pausing then unpausing, both by the admin, succeeds from an unpaused
      vault and leaves it unpaused. */
  method PauseThenUnpause(vault: StakeVault, admin: Pubkey) returns (first: Outcome, second: Outcome)
    modifies vault`isPaused
    ensures admin == vault.admin && !old(vault.isPaused) ==> first == Pass && second == Pass
    ensures first == Pass && second == Pass ==> vault.isPaused == old(vault.isPaused) == false
  {
    first := AdminInstructions.Pause(vault, admin);
    second := AdminInstructions.Unpause(vault, admin);
  }
}
