/** Reward reconciliation between a staker and the vault's accumulator.

    A staker's accrued-reward "watermark" is `stake * rewardPerTokenStaked /
    PRECISION`. The snapshot records the watermark at the last
    reconciliation; `refresh` credits the growth since then and moves the
    snapshot up, and the resnapshot after a stake change re-bases the
    snapshot on the new stake so that the change earns nothing
    retroactively. */
module Helpers {
  import opened Numeric
  import opened Errors
  import opened Constants
  import opened UserStakeState
  import opened StakeVaultState

  /** `stake * rpt / PRECISION` with a checked u128 product. */
  function Watermark(stake: U64, rpt: U128): (w: Option<U128>)
    ensures w.Some? <==> stake * rpt <= U128_MAX
  {
    match CheckedMulU128(stake, rpt)
    case None => None
    case Some(p) => Some(p / PRECISION)
  }

  /** The watermark is the scaled product rounded down. */
  lemma WatermarkIsFloor(stake: U64, rpt: U128)
    requires Watermark(stake, rpt).Some?
    ensures var w := Watermark(stake, rpt).value;
            w * PRECISION <= stake * rpt < (w + 1) * PRECISION
  {
  }

  /** The watermark grows with the accumulator. */
  lemma WatermarkMonotone(stake: U64, r1: U128, r2: U128)
    requires r1 <= r2 && Watermark(stake, r2).Some?
    ensures Watermark(stake, r1).Some?
    ensures Watermark(stake, r1).value <= Watermark(stake, r2).value
  {
    MulLeft(r1, r2, stake);
    DivMonotone(stake * r1, stake * r2, PRECISION);
  }

  /** A smaller stake's watermark exists whenever a larger one's does. */
  lemma WatermarkDefinedBelow(small: U64, large: U64, rpt: U128)
    requires small <= large && Watermark(large, rpt).Some?
    ensures Watermark(small, rpt).Some?
  {
    MulLeft(small, large, rpt);
  }

  /** The reward state after `refresh_user_rewards`, or its error. */
  function RefreshedRewards(state: UserRewardState, stake: U64, rpt: U128): (r: Result<UserRewardState>)
    ensures r.Err? ==> r.error == MathOverflow
    ensures r.Ok? ==> r.value.totalClaimed == state.totalClaimed
    ensures r.Ok? ==> r.value.unclaimedRewards >= state.unclaimedRewards
  {
    match Watermark(stake, rpt)
    case None => Err(MathOverflow)
    case Some(w) =>
      if stake == 0 then Ok(state.(rewardSnapshot := w))
      else
        var credit := TruncateU64(SaturatingSub(w, state.rewardSnapshot));
        match CheckedAddU64(state.unclaimedRewards, credit)
        case None => Err(MathOverflow)
        case Some(u) => Ok(state.(unclaimedRewards := u, rewardSnapshot := w))
  }

  /** The reward state after `update_reward_snapshot_after_stake_change`, or
      its error. */
  function ResnapshotRewards(state: UserRewardState, stake: U64, rpt: U128): (r: Result<UserRewardState>)
    ensures r.Err? <==> Watermark(stake, rpt).None?
    ensures r.Err? ==> r.error == MathOverflow
    ensures r.Ok? ==> r.value.unclaimedRewards == state.unclaimedRewards && r.value.totalClaimed == state.totalClaimed
    ensures r.Ok? ==> r.value.rewardSnapshot == Watermark(stake, rpt).value
  {
    match Watermark(stake, rpt)
    case None => Err(MathOverflow)
    case Some(w) => Ok(state.(rewardSnapshot := w))
  }

  /** A staker without stake accrues nothing: refresh always succeeds, moves
      the snapshot to zero and leaves the unclaimed rewards alone. */
  lemma RefreshWithoutStake(state: UserRewardState, rpt: U128)
    ensures RefreshedRewards(state, 0, rpt) == Ok(state.(rewardSnapshot := 0))
  {
    assert Watermark(0, rpt) == Some(0);
  }

  /** With stake, refresh fails exactly when the watermark or the new unclaimed
      total overflows; otherwise it credits the watermark's growth since the
      snapshot (when that growth fits in a u64) and moves the snapshot to the
      watermark. */
  lemma RefreshCreditsAccrual(state: UserRewardState, stake: U64, rpt: U128)
    requires stake > 0 && Watermark(stake, rpt).Some?
    requires SaturatingSub(Watermark(stake, rpt).value, state.rewardSnapshot) <= U64_MAX
    ensures var w := Watermark(stake, rpt).value;
            var accrued := SaturatingSub(w, state.rewardSnapshot);
            && (RefreshedRewards(state, stake, rpt).Ok? <==> state.unclaimedRewards + accrued <= U64_MAX)
            && (RefreshedRewards(state, stake, rpt).Ok? ==>
                  RefreshedRewards(state, stake, rpt).value
                  == state.(unclaimedRewards := state.unclaimedRewards + accrued, rewardSnapshot := w))
  {
  }

  /** A refresh straight after a successful refresh credits nothing and
      changes nothing. */
  lemma RefreshIsIdempotent(state: UserRewardState, stake: U64, rpt: U128)
    requires RefreshedRewards(state, stake, rpt).Ok?
    ensures RefreshedRewards(RefreshedRewards(state, stake, rpt).value, stake, rpt)
            == RefreshedRewards(state, stake, rpt)
  {
    var s := RefreshedRewards(state, stake, rpt).value;
    assert s.rewardSnapshot == Watermark(stake, rpt).value;
  }

  /** After a resnapshot, a later refresh at the same stake credits exactly
      the watermark's growth from the accumulator value of the resnapshot:
      nothing earned before the stake change is counted at the new stake. */
  lemma ResnapshotThenRefresh(state: UserRewardState, stake: U64, r1: U128, r2: U128)
    requires stake > 0 && r1 <= r2 && Watermark(stake, r2).Some?
    ensures Watermark(stake, r1).Some? && Watermark(stake, r1).value <= Watermark(stake, r2).value
    ensures var growth := Watermark(stake, r2).value - Watermark(stake, r1).value;
            state.unclaimedRewards + growth <= U64_MAX ==>
              RefreshedRewards(ResnapshotRewards(state, stake, r1).value, stake, r2)
              == Ok(state.(unclaimedRewards := state.unclaimedRewards + growth,
                           rewardSnapshot := Watermark(stake, r2).value))
  {
    WatermarkMonotone(stake, r1, r2);
    var w1 := Watermark(stake, r1).value;
    var w2 := Watermark(stake, r2).value;
    var s := ResnapshotRewards(state, stake, r1).value;
    assert s == state.(rewardSnapshot := w1);
    assert SaturatingSub(w2, w1) == w2 - w1;
    if w2 - w1 <= U64_MAX {
      TruncateIsIdentityBelowU64(w2 - w1);
    }
  }

  /** The `as u64` cast of the credit keeps only its low 64 bits: a staker of
      2^63 tokens whose watermark grows by 2^65 is credited nothing. */
  lemma RefreshTruncatesLargeCredit()
    ensures var state := UserRewardState(0, 0, 0);
            var stake := 0x8000_0000_0000_0000;
            var rpt := 4 * PRECISION;
            && Watermark(stake, rpt) == Some(4 * stake)
            && RefreshedRewards(state, stake, rpt) == Ok(UserRewardState(4 * stake, 0, 0))
  {
    var stake := 0x8000_0000_0000_0000;
    assert stake * (4 * PRECISION) / PRECISION == 4 * stake;
  }

  /** One token of reward per staked token, from a zero snapshot, credits a
      staker of 60 exactly 60. */
  lemma RefreshScenarioSixty(unclaimed: U64)
    requires unclaimed + 60 <= U64_MAX
    ensures RefreshedRewards(UserRewardState(0, unclaimed, 0), 60, PRECISION)
            == Ok(UserRewardState(60, unclaimed + 60, 0))
  {
    assert 60 * PRECISION / PRECISION == 60;
  }

  /** `refresh_user_rewards`: reconciles the staker's reward state with the
      vault's accumulator. Only the staker's reward state changes, and only on
      success. */
  method RefreshUserRewards(user: UserStake, vault: StakeVault) returns (outcome: Outcome)
    modifies user`rewardState
    ensures var r := RefreshedRewards(old(user.rewardState), user.activeStakeAmount, vault.rewardState.rewardPerTokenStaked);
            && (outcome == Pass <==> r.Ok?)
            && (r.Ok? ==> user.rewardState == r.value)
            && (r.Err? ==> outcome == Fail(MathOverflow) && user.rewardState == old(user.rewardState))
  {
    var rpt := vault.rewardState.rewardPerTokenStaked;
    var product := CheckedMulU128(user.activeStakeAmount, rpt);
    if product.None? {
      return Fail(MathOverflow);
    }
    var watermark := product.value / PRECISION;
    if user.activeStakeAmount == 0 {
      user.rewardState := user.rewardState.(rewardSnapshot := watermark);
      return Pass;
    }
    var credit := TruncateU64(SaturatingSub(watermark, user.rewardState.rewardSnapshot));
    var unclaimed := CheckedAddU64(user.rewardState.unclaimedRewards, credit);
    if unclaimed.None? {
      return Fail(MathOverflow);
    }
    user.rewardState := user.rewardState.(unclaimedRewards := unclaimed.value);
    user.rewardState := user.rewardState.(rewardSnapshot := watermark);
    return Pass;
  }

  /** `update_reward_snapshot_after_stake_change`: re-bases the snapshot on the
      staker's current stake. */
  method UpdateRewardSnapshotAfterStakeChange(user: UserStake, vault: StakeVault) returns (outcome: Outcome)
    modifies user`rewardState
    ensures var r := ResnapshotRewards(old(user.rewardState), user.activeStakeAmount, vault.rewardState.rewardPerTokenStaked);
            && (outcome == Pass <==> r.Ok?)
            && (r.Ok? ==> user.rewardState == r.value)
            && (r.Err? ==> outcome == Fail(MathOverflow) && user.rewardState == old(user.rewardState))
  {
    var product := CheckedMulU128(user.activeStakeAmount, vault.rewardState.rewardPerTokenStaked);
    if product.None? {
      return Fail(MathOverflow);
    }
    user.rewardState := user.rewardState.(rewardSnapshot := product.value / PRECISION);
    return Pass;
  }
}
