/** The program's error codes and the two shapes an instruction's result
    takes. An instruction either succeeds or fails with one code; a failed
    instruction leaves every account as it was. */
module Errors {

  datatype ErrorCode =
    | DepositsDisabled
    | WithdrawalsDisabled
    | InvalidAmount
    | InsufficientBalance
    | MaxUnstakeRequestsReached
    | NoVestedTokens
    | InvalidUnstakeRequestId
    | MathOverflow
    | Unauthorized
    | NoRewardsToClaim
    | NoActiveStake
    | NoPendingRewards
    | DepositsNotAllowed
    | NoClaimableAmount
    | InvalidRequestIndex
    | NoAmountToCancel
    | NumericalOverflow
    | VaultPaused
    | VaultAlreadyPaused
    | NotPaused
    | VaultNotPaused
    | InvalidVestingPeriod
    | InsufficientVaultBalance
    /** Not one of the program's own codes: the token program refused a
        transfer the instruction asked for (too low a balance, a frozen
        account, a wrong authority), which fails the instruction as a whole. */
    | TokenTransferFailed

  /** The result of an instruction that returns nothing on success. */
  datatype Outcome = Pass | Fail(error: ErrorCode)

  /** The result of a computation that returns a value on success. */
  datatype Result<T> = Ok(value: T) | Err(error: ErrorCode)
}
