/** The claim-vested instruction: pays out, across all request slots,
    everything unlocked and not yet claimed at `now`, moves that amount out
    of the vault's unstaking and owed totals, and drops the requests that are
    now fully claimed. It reads neither the pause flag nor the reward
    accumulator. */
module ClaimVested {
  import opened Numeric
  import opened Errors
  import opened UserStakeState
  import opened StakeVaultState

  /** A slot after its claim at `now`: its claimable amount is added to what
      it has paid out. */
  function Claimed(r: UnstakeRequest, now: I64): (c: UnstakeRequest)
    ensures c.claimedAmount == r.claimedAmount + ClaimableAmount(r, now)
    ensures c.totalAmount == r.totalAmount && c.startTimestamp == r.startTimestamp && c.endTimestamp == r.endTimestamp
    ensures r.claimedAmount <= r.totalAmount ==> c.claimedAmount <= c.totalAmount
    ensures ClaimableAmount(c, now) == 0
  {
    var claimable := ClaimableAmount(r, now);
    if claimable > 0 then r.(claimedAmount := r.claimedAmount + claimable) else r
  }

  /** Every slot after its claim at `now`. */
  function ClaimAll(slots: seq<UnstakeRequest>, now: I64): (c: seq<UnstakeRequest>)
    ensures |c| == |slots|
    ensures forall k :: 0 <= k < |slots| ==> c[k] == Claimed(slots[k], now)
  {
    seq(|slots|, k requires 0 <= k < |slots| => Claimed(slots[k], now))
  }

  /** One more step of the claim loop: claiming slot `k` extends the claimed
      prefix by one, and leaves the slots alone when it has nothing to
      claim. */
  lemma ClaimStep(saved: seq<UnstakeRequest>, cur: seq<UnstakeRequest>, k: nat, now: I64)
    requires k < |saved| && cur == ClaimAll(saved[..k], now) + saved[k..]
    ensures cur[k] == saved[k]
    ensures cur[k := Claimed(saved[k], now)] == ClaimAll(saved[..k + 1], now) + saved[k + 1..]
    ensures ClaimableAmount(saved[k], now) == 0 ==> cur == ClaimAll(saved[..k + 1], now) + saved[k + 1..]
    ensures SumClaimable(saved[..k + 1], now) == SumClaimable(saved[..k], now) + ClaimableAmount(saved[k], now)
  {
    assert saved[..k + 1][..k] == saved[..k];
  }

  /** An empty slot has nothing to claim and stays empty. */
  lemma ClaimedEmpty(now: I64)
    ensures Claimed(EmptyRequest, now) == EmptyRequest
  {
  }

  /** Claiming slot by slot and truncating commute. */
  lemma ClaimAllPrefix(slots: seq<UnstakeRequest>, n: nat, now: I64)
    requires n <= |slots|
    ensures ClaimAll(slots, now)[..n] == ClaimAll(slots[..n], now)
  {
  }

  /** If nothing was claimable in any slot, the claim changes nothing. */
  lemma {:induction false} NothingClaimableMeansNoChange(slots: seq<UnstakeRequest>, now: I64)
    requires SumClaimable(slots, now) == 0
    ensures ClaimAll(slots, now) == slots
  {
    if slots != [] {
      var init := slots[..|slots| - 1];
      NothingClaimableMeansNoChange(init, now);
      assert slots == init + [slots[|slots| - 1]];
    }
  }

  /** After a claim, nothing more is claimable at the same moment. */
  lemma {:induction false} NothingLeftAfterClaim(slots: seq<UnstakeRequest>, now: I64)
    ensures SumClaimable(ClaimAll(slots, now), now) == 0
  {
    if slots != [] {
      var c := ClaimAll(slots, now);
      NothingLeftAfterClaim(slots[..|slots| - 1], now);
      assert c[..|c| - 1] == ClaimAll(slots[..|slots| - 1], now);
    }
  }

  /** Slots that each have nothing to claim sum to nothing. */
  lemma {:induction false} SumClaimableZero(slots: seq<UnstakeRequest>, now: I64)
    requires forall k :: 0 <= k < |slots| ==> ClaimableAmount(slots[k], now) == 0
    ensures SumClaimable(slots, now) == 0
  {
    if slots != [] {
      SumClaimableZero(slots[..|slots| - 1], now);
    }
  }

  /** Whatever is kept out of a claim has nothing more to claim at the same
      moment, in whatever order it is kept. */
  lemma NothingLeftInOutstanding(before: seq<UnstakeRequest>, after: seq<UnstakeRequest>, now: I64)
    requires multiset(after) == multiset(Outstanding(ClaimAll(before, now)))
    ensures SumClaimable(after, now) == 0
  {
    var claimed := ClaimAll(before, now);
    forall k | 0 <= k < |after|
      ensures ClaimableAmount(after[k], now) == 0
    {
      var x := after[k];
      assert x in multiset(after);
      OutstandingMultiplicity(claimed, x);
      assert x in multiset(claimed);
      var j :| 0 <= j < |claimed| && claimed[j] == x;
    }
    SumClaimableZero(after, now);
  }

  /** Claiming at or after the end of every window pays each request out in
      full, so every request with an amount becomes fully claimed. */
  lemma {:induction false} ClaimAfterEveryEndClearsAll(slots: seq<UnstakeRequest>, now: I64)
    requires forall k :: 0 <= k < |slots| ==>
               slots[k].totalAmount > 0 && slots[k].claimedAmount <= slots[k].totalAmount && slots[k].endTimestamp <= now
    ensures Outstanding(ClaimAll(slots, now)) == []
    ensures CountFullyClaimed(ClaimAll(slots, now)) == |slots|
  {
    if slots != [] {
      ClaimAfterEveryEndClearsAll(slots[1..], now);
      var c := ClaimAll(slots, now);
      assert c[1..] == ClaimAll(slots[1..], now);
      assert IsFullyClaimed(c[0]);
    }
  }

  /** The claim loop over every slot, `claimable_amount` per slot and a
      running checked total. It succeeds exactly when the total fits in a
      u64; then every slot is claimed and the total is returned. When the
      running total overflows, the slots are put back. */
  method ClaimEach(user: UserStake, now: I64) returns (ok: bool, total: U64)
    modifies user.requests
    ensures ok <==> SumClaimable(old(user.requests[..]), now) <= U64_MAX
    ensures ok ==> user.requests[..] == ClaimAll(old(user.requests[..]), now)
    ensures ok ==> total == SumClaimable(old(user.requests[..]), now)
    ensures !ok ==> user.requests[..] == old(user.requests[..])
  {
    var saved := user.requests[..];
    total := 0;
    var k := 0;
    while k < user.requests.Length
      invariant k <= user.requests.Length == |saved|
      invariant user.requests[..] == ClaimAll(saved[..k], now) + saved[k..]
      invariant total == SumClaimable(saved[..k], now)
    {
      ghost var cur := user.requests[..];
      ClaimStep(saved, cur, k, now);
      var claimable := ClaimSlot(user, k, now);
      if total + claimable > U64_MAX {
        SumClaimableOfPrefix(saved, k + 1, now);
        user.RestoreRequests(saved);
        return false, 0;
      }
      total := total + claimable;
      k := k + 1;
    }
    assert saved[..k] == saved;
    ok := true;
  }

  /** One iteration of the claim loop: slot `k` pays out what it has
      claimable, which is returned. The addition to the claimed amount cannot
      overflow, since the result is at most the vested amount. */
  method ClaimSlot(user: UserStake, k: nat, now: I64) returns (claimable: U64)
    requires k < user.requests.Length
    modifies user.requests
    ensures claimable == ClaimableAmount(old(user.requests[k]), now)
    ensures user.requests[..] == old(user.requests[..])[k := Claimed(old(user.requests[k]), now)]
  {
    claimable := ClaimableAmount(user.requests[k], now);
    if claimable > 0 {
      user.requests[k] := user.requests[k].(claimedAmount := user.requests[k].claimedAmount + claimable);
    }
  }

  /** The vault and staker counters can absorb a claim of `amount`. */
  predicate SettleFits(stats: StakeStats, vested: U64, staked: U64, amount: U64)
  {
    && amount <= stats.unstakingAmount
    && amount <= stats.totalStaked
    && stats.totalVested + amount <= U64_MAX
    && vested + amount <= U64_MAX
    && amount <= staked
  }

  /** `after`, with `m` slots in use, is what a claim at `now` leaves of the
      slot array `before` with `n` in use: the used slots hold exactly the
      claimed requests that are not fully claimed (in some order), one fewer
      for each fully claimed one, the other slots are clear, and nothing is
      left to claim at the same moment. */
  ghost predicate SlotsClaimed(before: seq<UnstakeRequest>, n: nat, after: seq<UnstakeRequest>, m: nat, now: I64)
  {
    && |before| == |after| == MAX_UNSTAKE_REQUESTS && n <= MAX_UNSTAKE_REQUESTS
    && var claimed := ClaimAll(before[..n], now);
       && m == n - CountFullyClaimed(claimed)
       && m <= MAX_UNSTAKE_REQUESTS
       && multiset(after[..m]) == multiset(Outstanding(claimed))
       && (forall k :: 0 <= k < m ==> !IsFullyClaimed(after[k]))
       && (forall k :: m <= k < MAX_UNSTAKE_REQUESTS ==> after[k] == EmptyRequest)
       && SumClaimable(after, now) == 0
  }

  /** A claim of every slot followed by the compaction of the used ones: the
      used slots then hold exactly the claimed requests that are not fully
      claimed, one fewer for each fully claimed one, the rest are clear, and
      nothing is left to claim at the same moment. */
  lemma ClaimThenCompact(saved: seq<UnstakeRequest>, count: nat, after: seq<UnstakeRequest>, m: nat, now: I64)
    requires |saved| == MAX_UNSTAKE_REQUESTS && count <= MAX_UNSTAKE_REQUESTS
    requires forall k :: count <= k < MAX_UNSTAKE_REQUESTS ==> saved[k] == EmptyRequest
    requires Compacted(ClaimAll(saved, now), after, count, m)
    ensures SlotsClaimed(saved, count, after, m, now)
  {
    ClaimAllPrefix(saved, count, now);
    ClaimedEmpty(now);
    NothingLeftInOutstanding(saved[..count], after[..m], now);
    SumClaimableIgnoresEmptyTail(after, m, now);
  }

  /** `claim_vested::handler`. `now` is the clock; `transferOk` says whether
      the token program accepts the transfer of the claimed total from the
      vault's token account to the staker's. */
  method Handler(vault: StakeVault, user: UserStake, now: I64, transferOk: bool) returns (outcome: Outcome)
    requires user.Valid()
    modifies vault`stakeStats
    modifies user.requests, user`requestCount, user`vestedStakeAmount, user`stakedAmount, user`lastUpdateTimestamp
    ensures user.Valid()
    ensures var sum := SumClaimable(old(user.Requests()), now);
            && (sum > U64_MAX ==> outcome == Fail(MathOverflow))
            && (sum == 0 ==> outcome == Fail(NoClaimableAmount))
            && (0 < sum <= U64_MAX && !transferOk ==> outcome == Fail(TokenTransferFailed))
            && (outcome == Pass <==>
                  0 < sum <= U64_MAX && transferOk
                  && SettleFits(old(vault.stakeStats), old(user.vestedStakeAmount), old(user.stakedAmount), sum))
    ensures outcome.Fail? ==> outcome.error in {MathOverflow, NoClaimableAmount, TokenTransferFailed}
    ensures outcome == Fail(NoClaimableAmount) <==> SumClaimable(old(user.Requests()), now) == 0
    ensures outcome.Fail? ==> user.requests[..] == old(user.requests[..])
    ensures outcome.Fail? ==> unchanged(vault`stakeStats, user`requestCount, user`vestedStakeAmount, user`stakedAmount,
                                        user`lastUpdateTimestamp)
    ensures outcome == Pass ==> ClaimApplied(vault, user, now)
    ensures old(Conserved(vault.stakeStats)) ==> Conserved(vault.stakeStats)
  {
    var saved := user.requests[..];
    var count := user.requestCount;
    assert saved[..count] == user.Requests();
    SumClaimableIgnoresEmptyTail(saved, count, now);

    var ok, total := ClaimEach(user, now);
    if !ok {
      return Fail(MathOverflow);
    }
    if total == 0 {
      user.RestoreRequests(saved);
      return Fail(NoClaimableAmount);
    }
    if !transferOk {
      user.RestoreRequests(saved);
      return Fail(TokenTransferFailed);
    }
    outcome := Payout(vault, user, saved, count, total, now);
  }

  /** The part of the instruction after the claim loop found `total` to pay:
      the counter updates, then the compaction of the claimed slots. When a
      counter update fails the slots are put back to `saved`. */
  method Payout(vault: StakeVault, user: UserStake, saved: seq<UnstakeRequest>, count: nat, total: U64, now: I64)
      returns (outcome: Outcome)
    requires user.requests.Length == |saved| == MAX_UNSTAKE_REQUESTS && user.requestCount == count <= MAX_UNSTAKE_REQUESTS
    requires forall k :: count <= k < MAX_UNSTAKE_REQUESTS ==> saved[k] == EmptyRequest
    requires user.requests[..] == ClaimAll(saved, now)
    modifies vault`stakeStats
    modifies user.requests, user`requestCount, user`vestedStakeAmount, user`stakedAmount, user`lastUpdateTimestamp
    ensures outcome == Pass <==>
              SettleFits(old(vault.stakeStats), old(user.vestedStakeAmount), old(user.stakedAmount), total)
    ensures outcome.Fail? ==> outcome == Fail(MathOverflow) && user.requests[..] == saved
    ensures outcome.Fail? ==> unchanged(vault`stakeStats, user`requestCount, user`vestedStakeAmount, user`stakedAmount,
                                        user`lastUpdateTimestamp)
    ensures outcome == Pass ==>
              && vault.stakeStats.activeAmount == old(vault.stakeStats.activeAmount)
              && vault.stakeStats.unstakingAmount + total == old(vault.stakeStats.unstakingAmount)
              && vault.stakeStats.totalStaked + total == old(vault.stakeStats.totalStaked)
              && vault.stakeStats.totalVested == old(vault.stakeStats.totalVested) + total
              && user.vestedStakeAmount == old(user.vestedStakeAmount) + total
              && user.stakedAmount + total == old(user.stakedAmount)
              && user.lastUpdateTimestamp == now
    ensures outcome == Pass ==> user.Valid() && SlotsClaimed(saved, count, user.requests[..], user.requestCount, now)
  {
    outcome := Settle(vault, user, total);
    if outcome.Fail? {
      user.RestoreRequests(saved);
      return;
    }
    user.CleanupClaimedRequests();
    ClaimThenCompact(saved, count, user.requests[..], user.requestCount, now);
    user.lastUpdateTimestamp := now;
  }

  /** The counter updates of a claim of `amount`, all checked before any is
      written: out of the vault's unstaking and owed totals into its vested
      total, and from the staker's stake into its vested amount. */
  method Settle(vault: StakeVault, user: UserStake, amount: U64) returns (outcome: Outcome)
    modifies vault`stakeStats, user`vestedStakeAmount, user`stakedAmount
    ensures outcome == Pass <==>
              SettleFits(old(vault.stakeStats), old(user.vestedStakeAmount), old(user.stakedAmount), amount)
    ensures outcome.Fail? ==> outcome == Fail(MathOverflow)
    ensures outcome.Fail? ==> unchanged(vault`stakeStats, user`vestedStakeAmount, user`stakedAmount)
    ensures outcome == Pass ==>
              && vault.stakeStats.activeAmount == old(vault.stakeStats.activeAmount)
              && vault.stakeStats.unstakingAmount + amount == old(vault.stakeStats.unstakingAmount)
              && vault.stakeStats.totalStaked + amount == old(vault.stakeStats.totalStaked)
              && vault.stakeStats.totalVested == old(vault.stakeStats.totalVested) + amount
              && user.vestedStakeAmount == old(user.vestedStakeAmount) + amount
              && user.stakedAmount + amount == old(user.stakedAmount)
  {
    var unstaking := CheckedSubU64(vault.stakeStats.unstakingAmount, amount);
    var totalStaked := CheckedSubU64(vault.stakeStats.totalStaked, amount);
    var totalVested := CheckedAddU64(vault.stakeStats.totalVested, amount);
    var vested := CheckedAddU64(user.vestedStakeAmount, amount);
    var staked := CheckedSubU64(user.stakedAmount, amount);
    if unstaking.None? || totalStaked.None? || totalVested.None? || vested.None? || staked.None? {
      return Fail(MathOverflow);
    }
    vault.stakeStats := vault.stakeStats.(unstakingAmount := unstaking.value, totalStaked := totalStaked.value,
                                          totalVested := totalVested.value);
    user.vestedStakeAmount, user.stakedAmount := vested.value, staked.value;
    outcome := Pass;
  }

  /** The state after a successful claim of `sum`: every request claimed and
      the fully claimed ones removed, nothing left claimable at `now`, and
      `sum` moved out of the vault's unstaking and owed totals into its vested
      total and from the staker's stake into its vested amount. */
  twostate predicate ClaimApplied(vault: StakeVault, user: UserStake, now: I64)
    reads vault, user, user.requests
  {
    && user.Valid() && old(user.Valid())
    && SlotsClaimed(old(user.requests[..]), old(user.requestCount), user.requests[..], user.requestCount, now)
    && var sum := SumClaimable(old(user.Requests()), now);
       && vault.stakeStats.activeAmount == old(vault.stakeStats.activeAmount)
       && vault.stakeStats.unstakingAmount + sum == old(vault.stakeStats.unstakingAmount)
       && vault.stakeStats.totalStaked + sum == old(vault.stakeStats.totalStaked)
       && vault.stakeStats.totalVested == old(vault.stakeStats.totalVested) + sum
       && user.vestedStakeAmount == old(user.vestedStakeAmount) + sum
       && user.stakedAmount + sum == old(user.stakedAmount)
       && user.lastUpdateTimestamp == now
  }
}
