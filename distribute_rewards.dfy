/** The distribute-rewards instruction: anyone may move the pending rewards
    into the accumulator, which then grows by the pending amount per active
    token, scaled by `PRECISION` and rounded down. */
module DistributeRewards {
  import opened Numeric
  import opened Errors
  import opened Constants
  import opened StakeVaultState

  /** `pending * PRECISION / active`: what each active token earns from a
      distribution of `pending`, scaled and rounded down. */
  function RewardIncrement(pending: U128, active: U64): nat
    requires active > 0
  {
    pending * PRECISION / active
  }

  /** The increment is the largest value whose payout over the active stake
      does not exceed the pending rewards. */
  lemma IncrementBounds(pending: U128, active: U64)
    requires active > 0
    ensures RewardIncrement(pending, active) * active <= pending * PRECISION
    ensures pending * PRECISION < (RewardIncrement(pending, active) + 1) * active
  {
    var inc := RewardIncrement(pending, active);
    var scaled := pending * PRECISION;
    assert scaled == inc * active + scaled % active;
  }

  /** Every checked step succeeds: the scaled product and the two
      accumulations. */
  predicate DistributionFits(rewards: VaultRewardState, active: U64)
    requires active > 0
  {
    && rewards.pendingRewards * PRECISION <= U128_MAX
    && rewards.rewardPerTokenStaked + RewardIncrement(rewards.pendingRewards, active) <= U128_MAX
    && rewards.totalDistributed + rewards.pendingRewards <= U128_MAX
  }

  /** `distribute_rewards::handler`. Takes no signer check: anyone can call it. */
  method Handler(vault: StakeVault) returns (outcome: Outcome)
    modifies vault`rewardState
    ensures old(vault.rewardState.pendingRewards) == 0 ==> outcome == Fail(NoPendingRewards)
    ensures old(vault.rewardState.pendingRewards) > 0 && vault.stakeStats.activeAmount == 0 ==>
              outcome == Fail(NoActiveStake)
    ensures old(vault.rewardState.pendingRewards) > 0 && vault.stakeStats.activeAmount > 0 && vault.isPaused ==>
              outcome == Fail(VaultPaused)
    ensures outcome == Pass <==>
              && old(vault.rewardState.pendingRewards) > 0 && vault.stakeStats.activeAmount > 0 && !vault.isPaused
              && DistributionFits(old(vault.rewardState), vault.stakeStats.activeAmount)
    ensures outcome.Fail? ==> outcome.error in {NoPendingRewards, NoActiveStake, VaultPaused, MathOverflow}
    ensures outcome.Fail? ==> unchanged(vault`rewardState)
    ensures outcome == Pass ==>
              var before := old(vault.rewardState);
              && vault.rewardState.rewardPerTokenStaked
                 == before.rewardPerTokenStaked + RewardIncrement(before.pendingRewards, vault.stakeStats.activeAmount)
              && vault.rewardState.totalDistributed == before.totalDistributed + before.pendingRewards
              && vault.rewardState.pendingRewards == 0
              && vault.rewardState.totalClaimed == before.totalClaimed
    ensures vault.rewardState.rewardPerTokenStaked >= old(vault.rewardState.rewardPerTokenStaked)
  {
    var pending := vault.rewardState.pendingRewards;
    var totalActive := vault.stakeStats.activeAmount;
    if pending == 0 {
      return Fail(NoPendingRewards);
    }
    if totalActive == 0 {
      return Fail(NoActiveStake);
    }
    if vault.isPaused {
      return Fail(VaultPaused);
    }
    var increment := ScaledIncrement(pending, totalActive);
    if increment.None? {
      return Fail(MathOverflow);
    }
    var rpt := CheckedAddU128(vault.rewardState.rewardPerTokenStaked, increment.value);
    var distributed := CheckedAddU128(vault.rewardState.totalDistributed, pending);
    if rpt.None? || distributed.None? {
      return Fail(MathOverflow);
    }
    vault.rewardState := vault.rewardState.(rewardPerTokenStaked := rpt.value, totalDistributed := distributed.value,
                                            pendingRewards := 0);
    outcome := Pass;
  }

  /** The checked scaling and the division of the handler: the increment, or
      nothing when the scaled pending amount overflows a u128. */
  method ScaledIncrement(pending: U128, active: U64) returns (increment: Option<nat>)
    requires active > 0
    ensures increment.Some? <==> pending * PRECISION <= U128_MAX
    ensures increment.Some? ==> increment.value == RewardIncrement(pending, active)
  {
    var scaled := CheckedMulU128(pending, PRECISION);
    if scaled.None? {
      return None;
    }
    return Some(scaled.value / active);
  }

  /** Total stake held by a set of stakers. */
  function SumStakes(stakes: seq<U64>): nat
  {
    if stakes == [] then 0 else SumStakes(stakes[..|stakes| - 1]) + stakes[|stakes| - 1]
  }

  /** What the stakers are owed from an accumulator increment of `inc`, each
      share rounded down. */
  function SumShares(stakes: seq<U64>, inc: nat): nat
  {
    if stakes == [] then 0
    else SumShares(stakes[..|stakes| - 1], inc) + stakes[|stakes| - 1] * inc / PRECISION
  }

  /** Rounding each share down never pays out more than the unrounded total. */
  lemma {:induction false} SharesWithinScaledTotal(stakes: seq<U64>, inc: nat)
    ensures SumShares(stakes, inc) * PRECISION <= SumStakes(stakes) * inc
  {
    if stakes != [] {
      var init := stakes[..|stakes| - 1];
      var last := stakes[|stakes| - 1];
      SharesWithinScaledTotal(init, inc);
      assert (last * inc / PRECISION) * PRECISION <= last * inc;
      assert (SumStakes(init) + last) * inc == SumStakes(init) * inc + last * inc;
    }
  }

  /** Stakers whose stakes make up the active amount are owed, in total, no
      more than the rewards that were distributed. */
  lemma DistributionNeverOverpays(stakes: seq<U64>, pending: U128, active: U64)
    requires active > 0 && SumStakes(stakes) == active
    ensures SumShares(stakes, RewardIncrement(pending, active)) <= pending
  {
    var inc := RewardIncrement(pending, active);
    SharesWithinScaledTotal(stakes, inc);
    IncrementBounds(pending, active);
    assert SumShares(stakes, inc) * PRECISION <= pending * PRECISION;
  }

  /** 100 tokens distributed over stakes of 60 and 40 raise the accumulator by
      one token per token, and owe the stakers exactly 60 and 40. */
  lemma DistributionScenario()
    ensures RewardIncrement(100, 100) == PRECISION
    ensures SumShares([60], PRECISION) == 60
    ensures SumShares([60, 40], PRECISION) == 100
  {
    assert [60, 40][..1] == [60];
    assert [60][..0] == [];
  }
}
