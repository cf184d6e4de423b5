# Linear-vesting staking vault — Dafny model

This project models the accounting core of the `linear-staking` Solana program.
Stakers deposit tokens into a vault and earn rewards from a reward-per-token
accumulator. They withdraw through unstake requests, which unlock linearly over
the vault's vesting period. The model covers:

- **Unstake requests and the request slots** (`UserStakeState`):
  - the piecewise-linear unlock of each request, and what it has left to claim;
  - the folds over the five request slots;
  - the `UserStake` account as a class over a fixed array of
    `MAX_UNSTAKE_REQUESTS = 5` slots plus a count;
  - the in-place swap-with-last compaction `cleanup_claimed_requests`.
- **Reward reconciliation** (`Helpers`): the watermark
  `stake * reward_per_token_staked / PRECISION`, `refresh_user_rewards`, and the
  resnapshot after a stake change. These are methods on the account, each
  specified by a pure function.
- **The stake-ledger instructions**, each a method over the `StakeVault` and
  `UserStake` objects that keeps the handler's guard order and error codes:
  - `DepositStake`;
  - `UnstakeRequestHandler` (the unstake-request instruction);
  - `CancelUnstake`;
  - `ClaimVested`.
- **The reward instructions**: `DepositRewards`, `DistributeRewards` and
  `CollectRewards`.
- **The administrative instructions** (`AdminInstructions`, `Initialize`).
- **Two-instruction sequences** (`Scenarios`): claiming or collecting twice;
  unstaking then cancelling; repeated deposits; pause then unpause.

How failures work:

- Every instruction returns `Pass` or `Fail(error)`. On failure the accounts
  are left exactly as they were, as the host's transaction rollback leaves them.
  Where the Rust handler writes before it fails, the model puts the saved
  values back.
- Checked, saturating and truncating integer operations are written out over
  the u64, u128 and i64 ranges (`Numeric`).

The stake ledger:

- The vault's stake ledger keeps `active + unstaking == total_staked`
  (`StakeVaultState.Conserved`).
- Every stake instruction is proved to preserve it.

The account records:

- The handlers read and write fields that the struct definitions in
  `state/user_stake.rs` and `state/stake_vault.rs` do not declare. Examples are
  `staked_amount`, `reward_state`, `is_paused`, `unstaking_amount` and
  `total_vested`.
- The model uses one record per account, holding the union of the fields the
  handlers use.
- The vault's vesting period is one field. `initialize` writes it as
  `vesting_period: i64`, while the update instruction and the unstake
  instruction use `vesting_period_seconds: u64`. The model's field therefore
  holds either range.
- The handlers treat the requests as a list (`push`, `remove`, `len`), while the
  account declares a fixed array. The model keeps the array with a count:
  - push writes slot `count`;
  - remove shifts the later slots down and clears the slot that falls out of
    use.
- A request's end time: the code is not consistent about it.
  - The struct declares `start_timestamp` and `end_timestamp`
    (`state/user_stake.rs:11-13`), and `get_vested_amount` reads the stored
    end.
  - The unstake instruction pushes a request with only `start_time`, and
    computes `now + vesting_period_seconds as i64` just for its event
    (`unstake_request.rs:67-71, 102`).
  - The claim instruction reads the vault's current `vesting_period_seconds`
    and passes it to `claimable_amount(current_time, vesting_period)`
    (`claim_vested.rs:67-71`), a method the struct does not define. So in the
    claim handler the end of an open request follows the vault's current
    period.
  - The model fixes the end when the request is created, and every claim uses
    that stored end (see "Left out").

Where the documentation and the code disagree, the model follows the code:

- `initialize` stores any supplied vesting period without checking it.
- The ledger identity kept by the code is `active + unstaking == total_staked`.
  `total_vested` is not part of it.

## Model

| member | source | states |
|---|---|---|
| UserStakeState.IsEmpty | programs/linear-staking/src/state/user_stake.rs:53-55 | a slot is unused when its total is 0; the cleared (default) slot is unused |
| UserStakeState.IsFullyClaimed | programs/linear-staking/src/state/user_stake.rs:57-60 | a used slot whose claimed amount covers its total; no unused slot is fully claimed |
| UserStakeState.SumPendingUnlock | programs/linear-staking/src/state/user_stake.rs:91-96 | the sum over the slots of `total.saturating_sub(claimed)`, as an unbounded sum (see "Left out"); ClaimableWithinPendingUnlock and ClaimableAfterEveryEnd relate it to SumClaimable |
| UserStakeState.SumClaimable | programs/linear-staking/src/state/user_stake.rs:98-104 | the sum over the slots of their claimable amounts at `now`, as an unbounded sum (see "Left out"); the lemmas below bound it and relate it to the claim instruction |
| UserStakeState.InterpolationIsExact | programs/linear-staking/src/state/user_stake.rs:34-41 | strictly inside the window the u128 product `total * elapsed` does not overflow and the duration is positive, so the `unwrap_or(0)` fallback is unreachable |
| UserStakeState.VestedAmount | programs/linear-staking/src/state/user_stake.rs:19-44 | the unlocked amount never exceeds the total; 0 for an empty request; the whole total from the end time on; 0 up to the start time; the three checks apply in that order |
| UserStakeState.VestedInsideWindow | programs/linear-staking/src/state/user_stake.rs:34-41 | strictly inside the window the unlocked amount is ⌊total·(now−start)/(end−start)⌋ and is below the total |
| UserStakeState.ShareFitsU64 | programs/linear-staking/src/state/user_stake.rs:38-41 | the floor of a proper fraction of a u64 total is below that total, so the `as u64` cast loses nothing |
| UserStakeState.VestedIsTruncatedShare | programs/linear-staking/src/state/user_stake.rs:38-41 | inside the window the checked product succeeds and the result is the cast of the quotient |
| UserStakeState.VestedIsMonotone | programs/linear-staking/src/state/user_stake.rs:19-44 | for a fixed request the unlocked amount never decreases as time passes |
| UserStakeState.ClaimableAmount | programs/linear-staking/src/state/user_stake.rs:47-50 | the claimable amount is at most the unlocked amount; it is 0 exactly when the claimed amount already covers the unlocked amount; otherwise claimed + claimable equals the unlocked amount; and claimed ≤ total implies claimed + claimable ≤ total |
| UserStakeState.ClaimableWithinPendingUnlock | programs/linear-staking/src/state/user_stake.rs:91-104 | the total claimable over the slots never exceeds the total still in linear unlock |
| UserStakeState.ClaimableAfterEveryEnd | programs/linear-staking/src/state/user_stake.rs:91-104 | once every window has ended, the total claimable equals the total still in linear unlock |
| UserStakeState.SumClaimableIgnoresEmptyTail | programs/linear-staking/src/state/user_stake.rs:99-104 | the claimable total over all five slots equals the total over the used prefix when the rest are empty |
| UserStakeState.SumClaimableOfPrefix | programs/linear-staking/src/state/user_stake.rs:99-104 | a prefix of the slots never has more to claim than all of them |
| UserStakeState.FindEmptySlot | programs/linear-staking/src/state/user_stake.rs:107-109 | returns the lowest index of an empty slot, and `None` exactly when no slot is empty |
| UserStakeState.OutstandingMultiplicity | programs/linear-staking/src/state/user_stake.rs:112-129 | the requests that survive compaction keep every occurrence of each request that is not fully claimed, and none of the fully claimed ones |
| UserStakeState.OutstandingLength | programs/linear-staking/src/state/user_stake.rs:112-129 | the surviving requests and the fully claimed ones together account for every request |
| UserStakeState.OutstandingOfUnclaimed | programs/linear-staking/src/state/user_stake.rs:112-129 | a collection without fully claimed requests survives compaction unchanged |
| UserStakeState.CompactedIsOutstanding | programs/linear-staking/src/state/user_stake.rs:112-129 | a collection that differs from the original only by fully claimed requests, and holds none itself, is the surviving multiset; it is shorter by the number of fully claimed requests |
| UserStakeState.UserStake.constructor | programs/linear-staking/src/state/user_stake.rs:68-85 | a fresh account is zero-filled, with an empty request collection |
| UserStakeState.UserStake.PushRequest | programs/linear-staking/src/instructions/unstake_request.rs:67-71 | appends the request at the end of the collection and keeps the unused slots empty |
| UserStakeState.UserStake.RemoveRequest | programs/linear-staking/src/instructions/cancel_unstake.rs:94 | removes the request at the index; the others keep their order and the unused slots stay empty |
| UserStakeState.UserStake.RestoreRequests | programs/linear-staking/src/instructions/claim_vested.rs:70-84 | puts every slot back to the saved contents, as the host's rollback does after a failed claim |
| UserStakeState.UserStake.CleanupClaimedRequests | programs/linear-staking/src/state/user_stake.rs:112-129 | afterwards no used slot holds a fully claimed request; the count has dropped by exactly the number of fully claimed requests; the used slots hold the multiset of the others; vacated slots are cleared and slots beyond the old count are untouched |
| UserStakeState.UserStake.RemoveBySwap | programs/linear-staking/src/state/user_stake.rs:115-123 | one removal step: the last used request moves into slot `i`, the last slot is cleared and the count drops by one |
| UserStakeState.SwapClearFacts | programs/linear-staking/src/state/user_stake.rs:117-123 | swapping slot `i` with the last used slot and clearing the last one removes exactly `a[i]` from the used multiset, and leaves the slots before `i` and after the last one as they were |
| UserStakeState.CleanupRemoveStep | programs/linear-staking/src/state/user_stake.rs:115-124 | removing a fully claimed request by swap keeps the loop invariant without advancing `i` |
| UserStakeState.CleanupKeepStep | programs/linear-staking/src/state/user_stake.rs:125-127 | keeping a request that is not fully claimed keeps the loop invariant at `i + 1` |
| UserStakeState.CleanupFinish | programs/linear-staking/src/state/user_stake.rs:112-129 | when the loop ends, the invariant implies the compaction postcondition |
| StakeVaultState.Conserved | programs/linear-staking/src/state/stake_vault.rs:9-15 | the ledger identity `active + unstaking == total_staked`, which the deposit, unstake, cancel and claim handlers each preserve (their last ensures clause) |
| StakeVaultState.StakeVault.constructor | programs/linear-staking/src/state/stake_vault.rs:17-42 | a zero-filled vault account, as the host allocates it before `initialize` writes it: not initialized, unpaused, no permissions, a zero vesting period, ledger, accumulator and request counter |
| Helpers.Watermark | programs/linear-staking/src/instructions/helpers.rs:19-23 | the watermark exists exactly when `stake * rpt` fits in a u128 |
| Helpers.WatermarkIsFloor | programs/linear-staking/src/instructions/helpers.rs:19-23 | the watermark is `stake * rpt / PRECISION` rounded down |
| Helpers.WatermarkMonotone | programs/linear-staking/src/instructions/helpers.rs:19-23 | the watermark does not decrease as the accumulator grows |
| Helpers.WatermarkDefinedBelow | programs/linear-staking/src/instructions/helpers.rs:59-63 | if a larger stake's watermark exists, so does a smaller stake's |
| Helpers.RefreshedRewards | programs/linear-staking/src/instructions/helpers.rs:11-48 | the only error is `MathOverflow`; the claimed total is untouched and the unclaimed rewards never decrease |
| Helpers.ResnapshotRewards | programs/linear-staking/src/instructions/helpers.rs:52-68 | fails exactly when the watermark at the new stake overflows, with `MathOverflow`; otherwise the snapshot becomes the watermark at the new stake and the unclaimed and claimed totals are kept |
| Helpers.RefreshWithoutStake | programs/linear-staking/src/instructions/helpers.rs:25-30 | with zero stake, refresh succeeds, sets the snapshot to 0 and keeps the unclaimed rewards |
| Helpers.RefreshCreditsAccrual | programs/linear-staking/src/instructions/helpers.rs:32-45 | with stake, and when the watermark's growth since the snapshot fits in a u64, refresh succeeds exactly when the unclaimed rewards plus that growth fit in a u64; it then adds that growth and moves the snapshot to the watermark |
| Helpers.RefreshIsIdempotent | programs/linear-staking/src/instructions/helpers.rs:34-45 | a second refresh with nothing changed in between credits nothing and changes nothing |
| Helpers.ResnapshotThenRefresh | programs/linear-staking/src/instructions/helpers.rs:52-68 | after a resnapshot, a later refresh at the same stake credits only the watermark's growth since the resnapshot |
| Helpers.RefreshTruncatesLargeCredit | programs/linear-staking/src/instructions/helpers.rs:34-35 | the `as u64` cast keeps the low 64 bits: a credit of 2^65 is recorded as 0 |
| Helpers.RefreshScenarioSixty | programs/linear-staking/src/instructions/helpers.rs:19-42 | at one token of reward per token, from a zero snapshot, a stake of 60 is credited exactly 60 |
| Helpers.RefreshUserRewards | programs/linear-staking/src/instructions/helpers.rs:11-48 | succeeds exactly when the reference refresh does and then writes its result; on failure it returns `MathOverflow` and leaves the reward state as it was; only the reward state may change |
| Helpers.UpdateRewardSnapshotAfterStakeChange | programs/linear-staking/src/instructions/helpers.rs:52-68 | succeeds exactly when the reference resnapshot does and then writes its result; otherwise it fails with `MathOverflow` and changes nothing |
| DepositStake.Handler | programs/linear-staking/src/instructions/deposit_stake.rs:64-132 | guards in order `InvalidAmount`, `VaultPaused`, `DepositsNotAllowed`; after a successful refresh, a refused token transfer fails with `TokenTransferFailed`; succeeds exactly when the transfer is accepted and every checked step fits; on success the vault's total and active amounts and the staker's staked and active amounts each grow by the deposit, accrual at the old stake is credited and the snapshot is re-based on the new stake; on failure nothing changes; the ledger identity is preserved |
| DepositStake.Credit | programs/linear-staking/src/instructions/deposit_stake.rs:79-122 | refresh, the token transfer, the four checked additions and the resnapshot: succeeds exactly when the transfer is accepted and all fit; `TokenTransferFailed` exactly when the refresh succeeds and the transfer is refused; any other failure is `MathOverflow`; a failure changes nothing |
| DepositStake.Commit | programs/linear-staking/src/instructions/deposit_stake.rs:94-122 | after the additions succeed: the writes, then the resnapshot; a resnapshot overflow puts every field back |
| UnstakeRequestHandler.NewRequest | programs/linear-staking/src/instructions/unstake_request.rs:67-71 | the new request holds the amount, has nothing claimed, starts now, and ends one vesting period later (see unstake_request.rs:102) |
| UnstakeRequestHandler.Handler | programs/linear-staking/src/instructions/unstake_request.rs:43-113 | guards in order `WithdrawalsDisabled`, `InvalidAmount` (zero or above the active stake), `MaxUnstakeRequestsReached`; no pause check; on success the new request is appended, the staker's and vault's active amounts fall by the amount, unstaking rises by it, `total_staked` is unchanged, the vault's request counter grows by one, and the rewards are refreshed and then resnapshotted; on failure nothing changes; the ledger identity is preserved |
| UnstakeRequestHandler.Lock | programs/linear-staking/src/instructions/unstake_request.rs:63-100 | the part after the guards: succeeds exactly when the refresh and the vault counter steps fit, and then gives the state described for the handler |
| CancelUnstake.Handler | programs/linear-staking/src/instructions/cancel_unstake.rs:43-109 | owner check (`Unauthorized`, from the account constraint at line 27), then `InvalidRequestIndex`, then `VaultPaused`; `NoAmountToCancel` exactly when the request is fully claimed; on success the remainder moves from unstaking back to active on both accounts, the request is removed with the others kept in order, and the snapshot is re-based; on failure nothing changes; the ledger identity is preserved |
| CancelUnstake.Release | programs/linear-staking/src/instructions/cancel_unstake.rs:60-99 | the part after the guards: refresh, remainder, checked moves, removal and resnapshot; all-or-nothing |
| ClaimVested.Claimed | programs/linear-staking/src/instructions/claim_vested.rs:70-81 | a claimed slot has its claimable amount added to what it has paid out; it keeps claimed ≤ total and has nothing left to claim at the same moment |
| ClaimVested.ClaimAll | programs/linear-staking/src/instructions/claim_vested.rs:70-82 | every slot is claimed independently of the others |
| ClaimVested.ClaimStep | programs/linear-staking/src/instructions/claim_vested.rs:70-82 | one loop step extends the claimed prefix by one slot and the running total by that slot's claimable amount |
| ClaimVested.ClaimedEmpty | programs/linear-staking/src/instructions/claim_vested.rs:70-82 | an empty slot stays empty through a claim |
| ClaimVested.ClaimAllPrefix | programs/linear-staking/src/instructions/claim_vested.rs:70-82 | claiming every slot and then taking the used prefix is the same as claiming the prefix |
| ClaimVested.NothingClaimableMeansNoChange | programs/linear-staking/src/instructions/claim_vested.rs:70-84 | when nothing is claimable, the loop leaves every slot as it was |
| ClaimVested.NothingLeftAfterClaim | programs/linear-staking/src/instructions/claim_vested.rs:70-84 | after the loop nothing more is claimable at the same moment |
| ClaimVested.SumClaimableZero | programs/linear-staking/src/instructions/claim_vested.rs:84 | slots that each have nothing to claim add up to nothing |
| ClaimVested.NothingLeftInOutstanding | programs/linear-staking/src/instructions/claim_vested.rs:133 | the requests kept by the cleanup, in any order, have nothing more to claim |
| ClaimVested.ClaimAfterEveryEndClearsAll | programs/linear-staking/src/instructions/claim_vested.rs:70-133 | a claim at or after every request's end fully claims every request, so the cleanup removes them all |
| ClaimVested.ClaimEach | programs/linear-staking/src/instructions/claim_vested.rs:70-82 | the loop succeeds exactly when the claimable total fits in a u64, and then returns that total and leaves every slot claimed; when a running total overflows it fails and puts the slots back |
| ClaimVested.ClaimSlot | programs/linear-staking/src/instructions/claim_vested.rs:71-77 | returns the slot's claimable amount and writes the claimed slot, touching no other slot |
| ClaimVested.ClaimThenCompact | programs/linear-staking/src/instructions/claim_vested.rs:70-133 | the claim followed by the cleanup leaves exactly the claimed requests that are not fully claimed, one fewer for each fully claimed one, and nothing left to claim at the same moment |
| ClaimVested.Handler | programs/linear-staking/src/instructions/claim_vested.rs:62-143 | `MathOverflow` when the claimable total exceeds u64, `NoClaimableAmount` exactly when it is 0, then `TokenTransferFailed` when the token transfer is refused, any other failure `MathOverflow`; success exactly when the total is positive, the transfer is accepted and the counter moves fit; on success every slot is claimed and compacted, vault `unstaking_amount` and `total_staked` fall by the total and `total_vested` rises by it, and the staker's vested amount rises and staked amount falls by it; on failure nothing changes; the ledger identity is preserved |
| ClaimVested.Payout | programs/linear-staking/src/instructions/claim_vested.rs:84-134 | the counter moves, then the cleanup and the timestamp; on an overflow the slots are put back |
| ClaimVested.Settle | programs/linear-staking/src/instructions/claim_vested.rs:104-131 | the five checked counter moves, all-or-nothing |
| CollectRewards.PaidOut | programs/linear-staking/src/instructions/collect_rewards.rs:93-99 | a payout leaves nothing unclaimed and adds the payout to the claimed total |
| CollectRewards.Handler | programs/linear-staking/src/instructions/collect_rewards.rs:63-117 | owner check (`Unauthorized`, account constraint at line 22); then the refresh, whose only error is `MathOverflow`; `NoRewardsToClaim` when nothing is unclaimed after it; `TokenTransferFailed` when the token transfer of the payout is refused; success exactly when the transfer is accepted and both claimed totals can take the payout; on success the staker's and vault's claimed totals rise by the payout, nothing is left unclaimed, and the accumulator and stakes are untouched; on failure nothing changes |
| CollectRewards.Pay | programs/linear-staking/src/instructions/collect_rewards.rs:69-107 | the part after the owner check, with the same outcome and state as the handler |
| CollectRewards.NothingToCollectTwice | programs/linear-staking/src/instructions/collect_rewards.rs:69-73 | refreshing a paid-out state at the same stake and accumulator succeeds and credits nothing, so a second collect finds nothing |
| DepositRewards.Handler | programs/linear-staking/src/instructions/deposit_rewards.rs:52-86 | `Unauthorized` before `InvalidAmount`, then `TokenTransferFailed` when the token transfer is refused, then `MathOverflow` when the u128 sum overflows; on success only `pending_rewards` changes, growing by the amount |
| DistributeRewards.RewardIncrement | programs/linear-staking/src/instructions/distribute_rewards.rs:47-51 | the per-token increment `pending * PRECISION / active`, rounded down; IncrementBounds characterises it as the largest value whose payout over the active stake stays within the scaled pending amount |
| DistributeRewards.IncrementBounds | programs/linear-staking/src/instructions/distribute_rewards.rs:47-51 | the increment times the active stake is at most `pending * PRECISION` and within one active stake of it |
| DistributeRewards.ScaledIncrement | programs/linear-staking/src/instructions/distribute_rewards.rs:47-51 | fails exactly when `pending * PRECISION` overflows a u128, and otherwise gives the floor of `pending * PRECISION / active` |
| DistributeRewards.Handler | programs/linear-staking/src/instructions/distribute_rewards.rs:30-79 | errors in order `NoPendingRewards`, `NoActiveStake`, `VaultPaused`, then `MathOverflow`; on success the accumulator grows by the increment, `total_distributed` by `pending`, and `pending_rewards` becomes 0; the accumulator never decreases; on failure nothing changes |
| DistributeRewards.SharesWithinScaledTotal | programs/linear-staking/src/instructions/distribute_rewards.rs:47-58 | rounding each staker's share down never pays out more than the unrounded total |
| DistributeRewards.DistributionNeverOverpays | programs/linear-staking/src/instructions/distribute_rewards.rs:47-51 | stakers whose stakes sum to the active amount are owed at most the distributed amount in total |
| DistributeRewards.DistributionScenario | programs/linear-staking/src/instructions/distribute_rewards.rs:47-58 | 100 distributed over stakes of 60 and 40 owes them exactly 60 and 40 |
| AdminInstructions.Pause | programs/linear-staking/src/instructions/admin_instructions.rs:27-38 | `Unauthorized` for a non-admin (constraint at line 15), else `VaultAlreadyPaused` if paused; succeeds exactly when the admin pauses an unpaused vault, which is then paused; on failure nothing changes |
| AdminInstructions.Unpause | programs/linear-staking/src/instructions/admin_instructions.rs:56-66 | `Unauthorized` for a non-admin (constraint at line 44), else `NotPaused` if not paused; succeeds exactly when the admin unpauses a paused vault, which is then unpaused |
| AdminInstructions.UpdateVestingPeriod | programs/linear-staking/src/instructions/admin_instructions.rs:89-104 | `Unauthorized` (constraint at line 72), then `InvalidVestingPeriod` on 0; on success the new period is stored |
| AdminInstructions.UpdatedPermissions | programs/linear-staking/src/instructions/admin_instructions.rs:226-234 | a flag given a value takes it, and a flag given none keeps its old value |
| AdminInstructions.UpdatedPermissionsLaws | programs/linear-staking/src/instructions/admin_instructions.rs:226-234 | an update with neither flag given is a no-op, and applying an update twice is the same as once |
| AdminInstructions.UpdatePermissions | programs/linear-staking/src/instructions/admin_instructions.rs:220-236 | `Unauthorized` for a non-admin (constraint at line 202); otherwise the permissions become the updated permissions |
| AdminInstructions.WithdrawAmount | programs/linear-staking/src/instructions/admin_instructions.rs:164-169 | a request of 0 means the whole balance; any other request is taken as is |
| AdminInstructions.EmergencyWithdraw | programs/linear-staking/src/instructions/admin_instructions.rs:155-193 | guards in order: `Unauthorized` for a non-admin (line 110), `Unauthorized` for a receiving account the admin does not own (line 130), `VaultNotPaused`, `InvalidAmount`, `InsufficientVaultBalance`, then `TokenTransferFailed` when the token program refuses the transfer; on success the vault balance falls by exactly the resolved amount; on failure it is unchanged; the vault record is not written |
| Initialize.InitialVestingPeriod | programs/linear-staking/src/instructions/initialize.rs:67 | the supplied period, unvalidated, or 30 days (2,592,000 s) when none is given |
| Initialize.Handler | programs/linear-staking/src/instructions/initialize.rs:53-72 | the new vault is initialized, owned by the signer, unpaused, with both permissions granted, the initial vesting period, and a zero stake ledger and reward accumulator |
| Scenarios.ClaimTwice | programs/linear-staking/src/instructions/claim_vested.rs:70-84 | a second claim at the same moment, with the token program behaving the same, always fails, and after a successful first claim it fails with `NoClaimableAmount` |
| Scenarios.ClaimedSlotsHoldNothing | programs/linear-staking/src/instructions/claim_vested.rs:84 | when the five slots have nothing to claim, neither does the used prefix |
| Scenarios.CollectTwice | programs/linear-staking/src/instructions/collect_rewards.rs:69-73 | a second collect at the same moment, with the token program behaving the same, always fails, and after a successful first collect it fails with `NoRewardsToClaim` |
| Scenarios.UnstakeThenCancel | programs/linear-staking/src/instructions/cancel_unstake.rs:75-97 | cancelling a fresh unstake request succeeds whenever creating it did; it restores the staker's requests and active stake and the vault ledger; it leaves only the refresh at the original stake and the vault's request counter one higher |
| Scenarios.RoundTripFits | programs/linear-staking/src/instructions/helpers.rs:11-68 | the reward steps of an unstake followed by its cancel all succeed, and end where a single refresh at the original stake ends |
| Scenarios.DepositRewardsTwice | programs/linear-staking/src/instructions/deposit_rewards.rs:73-77 | two admin reward deposits both succeed when their transfers are accepted and their sum fits, and then add up in `pending_rewards` |
| Scenarios.DepositStakeTwice | programs/linear-staking/src/instructions/deposit_stake.rs:94-119 | two successful stake deposits add up in the vault's and the staker's amounts; the ledger identity is preserved |
| Scenarios.PauseThenUnpause | programs/linear-staking/src/instructions/admin_instructions.rs:27-66 | from an unpaused vault, the admin's pause and unpause both succeed and leave the vault unpaused |

## Left out

**Host and runtime**

- Account plumbing is not modelled: account contexts, PDA seeds and bumps,
  `init_if_needed`, account sizing, and the `stake_vault` and `bump` fields that
  `deposit_stake` writes. These handle addressing only.
- Ownership that is enforced only by the PDA seeds (claim, unstake) is not
  modelled as a check. Only the explicit `owner` and `admin` constraints are
  modelled, as `Unauthorized` guards.
- SPL token transfers are modelled only by whether they succeed. Each
  instruction that transfers tokens (deposit stake, claim vested, collect
  rewards, deposit rewards, emergency withdraw) takes a `transferOk` flag,
  checked where the handler calls `transfer`. A refused transfer fails the
  instruction with `TokenTransferFailed` and rolls back every earlier write.
  The token accounts' balances are not modelled, except the vault's in the
  emergency withdrawal, which takes it as a parameter and returns the new one.
- `TokenTransferFailed` is not one of the program's error codes. It stands
  for whatever error the token program returns.
- Events (`emit_cpi!`) and `msg!` are left out, as logging only.
- The clock is a parameter `now`.
- Failure is modelled as the handler leaving every account unchanged. This is
  what the host's transaction rollback gives.
- Where a handler writes a field and a later checked step then fails, the
  model evaluates the checked steps first, or restores the saved values.
  The observable outcome is the same.

- UnstakeRequestHandler.NewRequest: stores the end time
  `now + vesting_period_seconds as i64` in the request. ClaimVested.Claimed
  then uses that stored end through VestedAmount. The claim handler in
  `claim_vested.rs:67-71` instead derives the schedule from the vault's
  current period, so there an `update_vesting_period` also moves the end of
  every open request. The model does not capture that: a period change
  affects only requests created after it.

**Integer ranges**

- UserStakeState.VestedAmount: computes `now - start` and `end - start` as
  exact integers. The i64 subtraction would overflow only for timestamps more
  than 2^63 seconds apart, which the model does not exclude.
- UnstakeRequestHandler.NewRequest: applies the `as i64` cast of the period
  (wrap-around), but adds it to `now` exactly. The i64 overflow of that
  addition is not modelled.
- UserStakeState.SumClaimable: a natural-number sum. The u64 overflow of
  Rust's `.sum()` in `get_total_claimable` is not modelled; in debug builds
  that overflow panics.
- UserStakeState.SumPendingUnlock: the same, for `get_total_pending_unlock`.

**Weaker or narrower contracts**

- Initialize.Handler: states the zero ledger, not `Conserved` for it. The
  identity holds for the zero ledger immediately.
- DistributeRewards.DistributionNeverOverpays: bounds the sum of
  ⌊stake·increment/PRECISION⌋ over the stakers. A staker's actual credit is a
  difference of two rounded watermarks, and can exceed that share by one
  unit of rounding.

**Files outside the core**

- `lib.rs`, `instructions/mod.rs` and `events.rs` are not part of this model.
  They hold dispatch, re-exports and event types only.
- `error.rs` is used only as the error datatype.
