/** The collect-rewards instruction: reconciles the staker's rewards with the
    accumulator, then pays out everything unclaimed and records it as claimed
    on both accounts. It reads neither the pause flag nor the stake ledger. */
module CollectRewards {
  import opened Numeric
  import opened Errors
  import opened UserStakeState
  import opened StakeVaultState
  import opened Helpers

  /** Both claimed totals can absorb a payout of everything unclaimed in
      `rewards`. */
  predicate PayoutFits(rewards: UserRewardState, vaultClaimed: U128)
  {
    && rewards.totalClaimed + rewards.unclaimedRewards <= U64_MAX
    && vaultClaimed + rewards.unclaimedRewards <= U128_MAX
  }

  /** The staker's reward state after paying out `rewards`: nothing unclaimed,
      and the payout added to what it has claimed. */
  function PaidOut(rewards: UserRewardState): (p: UserRewardState)
    requires rewards.totalClaimed + rewards.unclaimedRewards <= U64_MAX
    ensures p.unclaimedRewards == 0
    ensures p.totalClaimed == rewards.totalClaimed + rewards.unclaimedRewards
    ensures p.rewardSnapshot == rewards.rewardSnapshot
  {
    rewards.(totalClaimed := rewards.totalClaimed + rewards.unclaimedRewards, unclaimedRewards := 0)
  }

  /** `collect_rewards::handler`. `owner` is the signer and `now` the clock;
      `transferOk` says whether the token program accepts the transfer of the
      payout from the vault's token account to the staker's. */
  method Handler(vault: StakeVault, user: UserStake, owner: Pubkey, now: I64, transferOk: bool) returns (outcome: Outcome)
    modifies vault`rewardState, user`rewardState, user`lastUpdateTimestamp
    ensures user.owner != owner ==> outcome == Fail(Unauthorized)
    ensures var r := RefreshedRewards(old(user.rewardState), user.activeStakeAmount,
                                      old(vault.rewardState.rewardPerTokenStaked));
            && (user.owner == owner && r.Err? ==> outcome == Fail(MathOverflow))
            && (user.owner == owner && r.Ok? && r.value.unclaimedRewards == 0 ==> outcome == Fail(NoRewardsToClaim))
            && (user.owner == owner && r.Ok? && r.value.unclaimedRewards > 0 && !transferOk ==>
                  outcome == Fail(TokenTransferFailed))
            && (outcome == Pass <==>
                  user.owner == owner && r.Ok? && r.value.unclaimedRewards > 0 && transferOk
                  && PayoutFits(r.value, old(vault.rewardState.totalClaimed)))
    ensures outcome.Fail? ==> unchanged(vault`rewardState, user`rewardState, user`lastUpdateTimestamp)
    ensures outcome == Pass ==> CollectApplied(vault, user, now)
  {
    if user.owner != owner {
      return Fail(Unauthorized);
    }
    outcome := Pay(vault, user, now, transferOk);
  }

  /** The state after a successful collect: the refreshed rewards paid out in
      full, the vault's claimed total raised by the same payout and the
      accumulator untouched. */
  twostate predicate CollectApplied(vault: StakeVault, user: UserStake, now: I64)
    reads vault, user
  {
    var r := RefreshedRewards(old(user.rewardState), user.activeStakeAmount, old(vault.rewardState.rewardPerTokenStaked));
    && r.Ok? && PayoutFits(r.value, old(vault.rewardState.totalClaimed))
    && var paid := r.value.unclaimedRewards;
       && paid > 0
       && user.rewardState == PaidOut(r.value)
       && vault.rewardState == old(vault.rewardState).(totalClaimed := old(vault.rewardState.totalClaimed) + paid)
       && user.lastUpdateTimestamp == now
  }

  /** The part of the instruction after the signer check. The two checked
      additions are evaluated before anything is written, so a failure needs
      only the refreshed reward state put back. */
  method Pay(vault: StakeVault, user: UserStake, now: I64, transferOk: bool) returns (outcome: Outcome)
    modifies vault`rewardState, user`rewardState, user`lastUpdateTimestamp
    ensures var r := RefreshedRewards(old(user.rewardState), user.activeStakeAmount,
                                      old(vault.rewardState.rewardPerTokenStaked));
            && (r.Err? ==> outcome == Fail(MathOverflow))
            && (r.Ok? && r.value.unclaimedRewards == 0 ==> outcome == Fail(NoRewardsToClaim))
            && (r.Ok? && r.value.unclaimedRewards > 0 && !transferOk ==> outcome == Fail(TokenTransferFailed))
            && (outcome == Pass <==>
                  r.Ok? && r.value.unclaimedRewards > 0 && transferOk && PayoutFits(r.value, old(vault.rewardState.totalClaimed)))
    ensures outcome.Fail? ==> unchanged(vault`rewardState, user`rewardState, user`lastUpdateTimestamp)
    ensures outcome == Pass ==> CollectApplied(vault, user, now)
  {
    var savedRewards := user.rewardState;
    outcome := RefreshUserRewards(user, vault);
    if outcome.Fail? {
      return;
    }
    var rewards := user.rewardState.unclaimedRewards;
    if rewards == 0 {
      user.rewardState := savedRewards;
      return Fail(NoRewardsToClaim);
    }
    if !transferOk {
      user.rewardState := savedRewards;
      return Fail(TokenTransferFailed);
    }
    var userClaimed := CheckedAddU64(user.rewardState.totalClaimed, rewards);
    var vaultClaimed := CheckedAddU128(vault.rewardState.totalClaimed, rewards);
    if userClaimed.None? || vaultClaimed.None? {
      user.rewardState := savedRewards;
      return Fail(MathOverflow);
    }
    user.rewardState := user.rewardState.(totalClaimed := userClaimed.value);
    user.rewardState := user.rewardState.(unclaimedRewards := 0);
    user.lastUpdateTimestamp := now;
    vault.rewardState := vault.rewardState.(totalClaimed := vaultClaimed.value);
  }

  /** With no distribution and no stake change in between, a second collect
      finds nothing: refreshing the paid-out state succeeds, credits nothing
      and leaves nothing unclaimed. */
  lemma NothingToCollectTwice(state: UserRewardState, stake: U64, rpt: U128)
    requires RefreshedRewards(state, stake, rpt).Ok?
    requires RefreshedRewards(state, stake, rpt).value.totalClaimed
             + RefreshedRewards(state, stake, rpt).value.unclaimedRewards <= U64_MAX
    ensures var paid := PaidOut(RefreshedRewards(state, stake, rpt).value);
            RefreshedRewards(paid, stake, rpt) == Ok(paid)
  {
    var s := RefreshedRewards(state, stake, rpt).value;
    assert s.rewardSnapshot == Watermark(stake, rpt).value;
    TruncateIsIdentityBelowU64(0);
  }
}
