/** The vault account: one record per program holding the admin, the pause
    flag, the permissions, the vesting period, the stake ledger and the
    reward accumulator. */
module StakeVaultState {
  import opened Numeric

  datatype StakePermissions = StakePermissions(allowDeposits: bool, allowWithdrawals: bool)

  /** The vault-wide stake ledger. `activeAmount` earns rewards,
      `unstakingAmount` is locked in unstake requests, `totalStaked` is what
      the vault still owes its stakers and `totalVested` is what it has paid
      out of unstake requests. */
  datatype StakeStats = StakeStats(
    activeAmount: U64,
    unstakingAmount: U64,
    totalStaked: U64,
    totalVested: U64)

  /** The vault-wide reward accumulator. `rewardPerTokenStaked` is scaled by
      `PRECISION`. */
  datatype VaultRewardState = VaultRewardState(
    pendingRewards: U128,
    rewardPerTokenStaked: U128,
    totalDistributed: U128,
    totalClaimed: U128)

  /** The ledger invariant every stake instruction keeps: what the vault owes
      is exactly what is active plus what is unstaking. */
  predicate Conserved(s: StakeStats)
  {
    s.activeAmount + s.unstakingAmount == s.totalStaked
  }

  class StakeVault {
    var isInitialized: bool
    var admin: Pubkey
    var isPaused: bool
    var permissions: StakePermissions
    /** Seconds of linear unlock given to each new unstake request. The
        creating instruction stores a signed value and the update instruction
        an unsigned one, so the field holds either range. */
    var vestingPeriodSeconds: int
    var stakeStats: StakeStats
    var rewardState: VaultRewardState
    var collectiveUnstakeRequestsCount: U64

    /** A zero-filled account, as the host creates it. */
    constructor ()
      ensures !isInitialized && admin == 0 && !isPaused
      ensures permissions == StakePermissions(false, false)
      ensures vestingPeriodSeconds == 0
      ensures stakeStats == StakeStats(0, 0, 0, 0)
      ensures rewardState == VaultRewardState(0, 0, 0, 0)
      ensures collectiveUnstakeRequestsCount == 0
    {
      isInitialized, admin, isPaused := false, 0, false;
      permissions := StakePermissions(false, false);
      vestingPeriodSeconds := 0;
      stakeStats := StakeStats(0, 0, 0, 0);
      rewardState := VaultRewardState(0, 0, 0, 0);
      collectiveUnstakeRequestsCount := 0;
    }
  }
}
