/** The initialize instruction: creates the vault record, owned by the
    signer, with both permissions granted, the given or default vesting
    period, and an empty ledger and accumulator. */
module Initialize {
  import opened Numeric
  import opened Constants
  import opened StakeVaultState

  /** The vesting period a new vault starts with: the given one, stored
      without validation, or 30 days. */
  function InitialVestingPeriod(vestingPeriod: Option<I64>): (period: int)
    ensures vestingPeriod.Some? ==> period == vestingPeriod.value
    ensures vestingPeriod.None? ==> period == DEFAULT_VESTING_PERIOD == 2_592_000
  {
    if vestingPeriod.Some? then vestingPeriod.value else DEFAULT_VESTING_PERIOD
  }

  /** `initialize::handler`. `admin` is the signer; `vestingPeriod` is the
      optional signed period. The host creates the account zero-filled, which
      the constructor models. */
  method Handler(admin: Pubkey, vestingPeriod: Option<I64>) returns (vault: StakeVault)
    ensures fresh(vault)
    ensures vault.isInitialized && vault.admin == admin && !vault.isPaused
    ensures vault.permissions == StakePermissions(true, true)
    ensures vault.vestingPeriodSeconds == InitialVestingPeriod(vestingPeriod)
    ensures vault.stakeStats == StakeStats(0, 0, 0, 0)
    ensures vault.rewardState == VaultRewardState(0, 0, 0, 0)
    ensures vault.collectiveUnstakeRequestsCount == 0
  {
    vault := new StakeVault();
    vault.isInitialized := true;
    vault.admin := admin;
    vault.permissions := StakePermissions(true, true);
    vault.vestingPeriodSeconds := InitialVestingPeriod(vestingPeriod);
  }
}
