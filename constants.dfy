/** Program-wide constants. */
module Constants {

  /** Fixed-point scale of the reward accumulator (10^12). */
  const PRECISION: int := 1_000_000_000_000

  /** Vesting period used when the vault is created without one: 30 days. */
  const DEFAULT_VESTING_PERIOD: int := 30 * 24 * 60 * 60
}
