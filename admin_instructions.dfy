/** The admin instructions: pause and unpause, the vesting period, the
    deposit and withdrawal permissions, and the emergency withdrawal from the
    vault's token account. Every one of them first requires the signer to be
    the vault's admin. */
module AdminInstructions {
  import opened Numeric
  import opened Errors
  import opened StakeVaultState

  /** `pause_handler`. `admin` is the signer. */
  method Pause(vault: StakeVault, admin: Pubkey) returns (outcome: Outcome)
    modifies vault`isPaused
    ensures admin != vault.admin ==> outcome == Fail(Unauthorized)
    ensures admin == vault.admin && old(vault.isPaused) ==> outcome == Fail(VaultAlreadyPaused)
    ensures outcome == Pass <==> admin == vault.admin && !old(vault.isPaused)
    ensures admin == vault.admin ==> vault.isPaused
    ensures outcome.Fail? ==> unchanged(vault`isPaused)
  {
    if admin != vault.admin {
      return Fail(Unauthorized);
    }
    if vault.isPaused {
      return Fail(VaultAlreadyPaused);
    }
    vault.isPaused := true;
    outcome := Pass;
  }

  /** `unpause_handler`. `admin` is the signer. */
  method Unpause(vault: StakeVault, admin: Pubkey) returns (outcome: Outcome)
    modifies vault`isPaused
    ensures admin != vault.admin ==> outcome == Fail(Unauthorized)
    ensures admin == vault.admin && !old(vault.isPaused) ==> outcome == Fail(NotPaused)
    ensures outcome == Pass <==> admin == vault.admin && old(vault.isPaused)
    ensures admin == vault.admin ==> !vault.isPaused
    ensures outcome.Fail? ==> unchanged(vault`isPaused)
  {
    if admin != vault.admin {
      return Fail(Unauthorized);
    }
    if !vault.isPaused {
      return Fail(NotPaused);
    }
    vault.isPaused := false;
    outcome := Pass;
  }

  /** `update_vesting_period_handler`. `admin` is the signer; the new period
      is an unsigned 64-bit value. */
  method UpdateVestingPeriod(vault: StakeVault, admin: Pubkey, newPeriod: U64) returns (outcome: Outcome)
    modifies vault`vestingPeriodSeconds
    ensures admin != vault.admin ==> outcome == Fail(Unauthorized)
    ensures admin == vault.admin && newPeriod == 0 ==> outcome == Fail(InvalidVestingPeriod)
    ensures outcome == Pass <==> admin == vault.admin && newPeriod > 0
    ensures outcome == Pass ==> vault.vestingPeriodSeconds == newPeriod
    ensures outcome.Fail? ==> unchanged(vault`vestingPeriodSeconds)
  {
    if admin != vault.admin {
      return Fail(Unauthorized);
    }
    if newPeriod == 0 {
      return Fail(InvalidVestingPeriod);
    }
    vault.vestingPeriodSeconds := newPeriod;
    outcome := Pass;
  }

  /** The permissions after an update: a flag given a value takes it, a flag
      given none keeps its old value. */
  function UpdatedPermissions(p: StakePermissions, allowDeposits: Option<bool>, allowWithdrawals: Option<bool>)
    : (q: StakePermissions)
    ensures q.allowDeposits == if allowDeposits.Some? then allowDeposits.value else p.allowDeposits
    ensures q.allowWithdrawals == if allowWithdrawals.Some? then allowWithdrawals.value else p.allowWithdrawals
  {
    var withDeposits := match allowDeposits
      case Some(b) => p.(allowDeposits := b)
      case None => p;
    match allowWithdrawals
    case Some(b) => withDeposits.(allowWithdrawals := b)
    case None => withDeposits
  }

  /** An update with neither flag given changes nothing, and applying the same
      update twice is the same as applying it once. */
  lemma UpdatedPermissionsLaws(p: StakePermissions, allowDeposits: Option<bool>, allowWithdrawals: Option<bool>)
    ensures UpdatedPermissions(p, None, None) == p
    ensures var q := UpdatedPermissions(p, allowDeposits, allowWithdrawals);
            UpdatedPermissions(q, allowDeposits, allowWithdrawals) == q
  {
  }

  /** `update_permissions_handler`. `admin` is the signer. */
  method UpdatePermissions(vault: StakeVault, admin: Pubkey, allowDeposits: Option<bool>, allowWithdrawals: Option<bool>)
    returns (outcome: Outcome)
    modifies vault`permissions
    ensures outcome == Pass <==> admin == vault.admin
    ensures outcome.Fail? ==> outcome == Fail(Unauthorized) && unchanged(vault`permissions)
    ensures outcome == Pass ==> vault.permissions == UpdatedPermissions(old(vault.permissions), allowDeposits, allowWithdrawals)
  {
    if admin != vault.admin {
      return Fail(Unauthorized);
    }
    if allowDeposits.Some? {
      vault.permissions := vault.permissions.(allowDeposits := allowDeposits.value);
    }
    if allowWithdrawals.Some? {
      vault.permissions := vault.permissions.(allowWithdrawals := allowWithdrawals.value);
    }
    outcome := Pass;
  }

  /** The amount an emergency withdrawal moves: a request of 0 means the whole
      balance. */
  function WithdrawAmount(requested: U64, balance: U64): (w: U64)
    ensures requested == 0 ==> w == balance
    ensures requested > 0 ==> w == requested
  {
    if requested == 0 then balance else requested
  }

  /** `emergency_withdraw_handler`, on the vault token account's balance.
      `admin` is the signer and `tokenOwner` the owner of the receiving token
      account; `transferOk` says whether the token program accepts a transfer
      the balance covers (it may still refuse one, for a frozen account).
      Returns the outcome and the vault token account's balance afterwards;
      the vault record itself is not written. */
  method EmergencyWithdraw(vault: StakeVault, admin: Pubkey, tokenOwner: Pubkey, requested: U64, balance: U64,
                           transferOk: bool)
    returns (outcome: Outcome, newBalance: U64)
    ensures admin != vault.admin ==> outcome == Fail(Unauthorized)
    ensures admin == vault.admin && tokenOwner != admin ==> outcome == Fail(Unauthorized)
    ensures admin == vault.admin && tokenOwner == admin && !vault.isPaused ==> outcome == Fail(VaultNotPaused)
    ensures admin == vault.admin && tokenOwner == admin && vault.isPaused && WithdrawAmount(requested, balance) == 0 ==>
              outcome == Fail(InvalidAmount)
    ensures admin == vault.admin && tokenOwner == admin && vault.isPaused && WithdrawAmount(requested, balance) > balance ==>
              outcome == Fail(InsufficientVaultBalance)
    ensures admin == vault.admin && tokenOwner == admin && vault.isPaused
            && 0 < WithdrawAmount(requested, balance) <= balance && !transferOk ==>
              outcome == Fail(TokenTransferFailed)
    ensures outcome == Pass <==>
              admin == vault.admin && tokenOwner == admin && vault.isPaused
              && 0 < WithdrawAmount(requested, balance) <= balance && transferOk
    ensures outcome == Pass ==> newBalance == balance - WithdrawAmount(requested, balance)
    ensures outcome.Fail? ==> newBalance == balance
  {
    newBalance := balance;
    if admin != vault.admin {
      return Fail(Unauthorized), newBalance;
    }
    if tokenOwner != admin {
      return Fail(Unauthorized), newBalance;
    }
    if !vault.isPaused {
      return Fail(VaultNotPaused), newBalance;
    }
    var amount := if requested == 0 then balance else requested;
    if amount == 0 {
      return Fail(InvalidAmount), newBalance;
    }
    if amount > balance {
      return Fail(InsufficientVaultBalance), newBalance;
    }
    if !transferOk {
      return Fail(TokenTransferFailed), newBalance;
    }
    newBalance := balance - amount;
    outcome := Pass;
  }
}
