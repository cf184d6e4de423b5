/** The deposit-rewards instruction: the admin adds tokens to the rewards
    waiting to be distributed. */
module DepositRewards {
  import opened Numeric
  import opened Errors
  import opened StakeVaultState

  /** `deposit_rewards::handler`. `admin` is the signer; `transferOk` says
      whether the token program accepts the transfer of `amount` from the
      admin's token account into the vault's. */
  method Handler(vault: StakeVault, admin: Pubkey, amount: U64, transferOk: bool) returns (outcome: Outcome)
    modifies vault`rewardState
    ensures admin != vault.admin ==> outcome == Fail(Unauthorized)
    ensures admin == vault.admin && amount == 0 ==> outcome == Fail(InvalidAmount)
    ensures admin == vault.admin && amount > 0 && !transferOk ==> outcome == Fail(TokenTransferFailed)
    ensures admin == vault.admin && amount > 0 && transferOk && old(vault.rewardState.pendingRewards) + amount > U128_MAX ==>
              outcome == Fail(MathOverflow)
    ensures outcome == Pass <==>
              admin == vault.admin && amount > 0 && transferOk && old(vault.rewardState.pendingRewards) + amount <= U128_MAX
    ensures outcome.Fail? ==> unchanged(vault`rewardState)
    ensures outcome == Pass ==>
              vault.rewardState == old(vault.rewardState).(pendingRewards := old(vault.rewardState.pendingRewards) + amount)
  {
    if admin != vault.admin {
      return Fail(Unauthorized);
    }
    if amount == 0 {
      return Fail(InvalidAmount);
    }
    if !transferOk {
      return Fail(TokenTransferFailed);
    }
    var pending := CheckedAddU128(vault.rewardState.pendingRewards, amount);
    if pending.None? {
      return Fail(MathOverflow);
    }
    vault.rewardState := vault.rewardState.(pendingRewards := pending.value);
    outcome := Pass;
  }
}
