/** A staker's record: the linear-vesting unlock of each unstake request, the
    folds over the fixed array of request slots, and the `UserStake` account
    whose request slots, stake amounts and reward state the instructions update
    in place. */
module UserStakeState {
  import opened Numeric

  /** Maximum number of concurrent unstake requests per user. */
  const MAX_UNSTAKE_REQUESTS: nat := 5

  /** One unstake request. In this model `endTimestamp` is fixed when the
      request is created (start plus the vault's vesting period at that
      moment), so a later change of the vesting period does not move it; the
      claim instruction's source derives the schedule from the vault's current
      period instead. */
  datatype UnstakeRequest = UnstakeRequest(
    totalAmount: U64,
    claimedAmount: U64,
    startTimestamp: I64,
    endTimestamp: int)

  /** The default value of a slot: all fields zero. */
  const EmptyRequest: UnstakeRequest := UnstakeRequest(0, 0, 0, 0)

  /** A slot is unused when it holds nothing; a cleared slot is one. */
  predicate IsEmpty(r: UnstakeRequest): (empty: bool)
    ensures r == EmptyRequest ==> empty
  {
    r.totalAmount == 0
  }

  /** A used slot whose amount has been paid out completely; an unused slot
      never is one. */
  predicate IsFullyClaimed(r: UnstakeRequest): (done: bool)
    ensures done ==> !IsEmpty(r)
  {
    r.totalAmount > 0 && r.claimedAmount >= r.totalAmount
  }

  /** Inside the vesting window the program's u128 product `total * elapsed`
      cannot overflow and the divisor is positive, so the `unwrap_or(0)`
      fallback is never taken. */
  lemma {:induction false} InterpolationIsExact(r: UnstakeRequest, now: I64)
    requires r.totalAmount > 0 && r.startTimestamp < now < r.endTimestamp
    ensures CheckedMulU128(r.totalAmount, now - r.startTimestamp).Some?
    ensures r.endTimestamp - r.startTimestamp > 0
  {
    ProductOfU64sFitsU128(r.totalAmount, now - r.startTimestamp);
  }

  /** The amount of `r` unlocked at `now`: nothing for an empty slot,
      everything from the end of the window, nothing up to its start, and the
      floor of the linear share in between. */
  function VestedAmount(r: UnstakeRequest, now: I64): (v: U64)
    ensures v <= r.totalAmount
    ensures r.totalAmount == 0 ==> v == 0
    ensures r.totalAmount > 0 && now >= r.endTimestamp ==> v == r.totalAmount
    ensures r.totalAmount > 0 && now < r.endTimestamp && now <= r.startTimestamp ==> v == 0
  {
    if r.totalAmount == 0 then 0
    else if now >= r.endTimestamp then r.totalAmount
    else if now <= r.startTimestamp then 0
    else
      var elapsed: U128 := now - r.startTimestamp;
      var duration := r.endTimestamp - r.startTimestamp;
      InterpolationIsExact(r, now);
      ShareFitsU64(r.totalAmount, elapsed, duration);
      var vested := match CheckedMulU128(r.totalAmount, elapsed)
                    case Some(p) => p / duration
                    case None => 0;
      TruncateU64(vested)
  }

  /** Strictly inside the window the unlocked amount is the floor of the
      elapsed share of the total, and some of the total is still locked. */
  lemma VestedInsideWindow(r: UnstakeRequest, now: I64)
    requires r.totalAmount > 0 && r.startTimestamp < now < r.endTimestamp
    ensures VestedAmount(r, now) == r.totalAmount * (now - r.startTimestamp) / (r.endTimestamp - r.startTimestamp)
    ensures VestedAmount(r, now) < r.totalAmount
  {
    VestedIsTruncatedShare(r, now);
    ShareFitsU64(r.totalAmount, now - r.startTimestamp, r.endTimestamp - r.startTimestamp);
  }

  /** The floor of a proper fraction of a u64 total is below the total, so
      the `as u64` cast keeps it. */
  lemma ShareFitsU64(total: U64, elapsed: nat, duration: nat)
    requires 0 < total && 0 < elapsed < duration
    ensures total * elapsed / duration < total
    ensures TruncateU64(total * elapsed / duration) == total * elapsed / duration
  {
    MulBelow(elapsed, duration, total);
    DivBelow(total * elapsed, total, duration);
    TruncateIsIdentityBelowU64(total * elapsed / duration);
  }

  /** Inside the window the checked product succeeds, so the unlocked amount
      is the truncated quotient. */
  lemma VestedIsTruncatedShare(r: UnstakeRequest, now: I64)
    requires r.totalAmount > 0 && r.startTimestamp < now < r.endTimestamp
    ensures r.totalAmount * (now - r.startTimestamp) <= U128_MAX
    ensures VestedAmount(r, now) == TruncateU64(r.totalAmount * (now - r.startTimestamp) / (r.endTimestamp - r.startTimestamp))
  {
    InterpolationIsExact(r, now);
    assert CheckedMulU128(r.totalAmount, now - r.startTimestamp) == Some(r.totalAmount * (now - r.startTimestamp));
  }

  /** For a fixed request, the unlocked amount never decreases as time passes. */
  lemma {:induction false} VestedIsMonotone(r: UnstakeRequest, t1: I64, t2: I64)
    requires t1 <= t2
    ensures VestedAmount(r, t1) <= VestedAmount(r, t2)
  {
    if r.totalAmount > 0 && r.startTimestamp < t1 && t2 < r.endTimestamp {
      VestedInsideWindow(r, t1);
      VestedInsideWindow(r, t2);
      var duration := r.endTimestamp - r.startTimestamp;
      MulLeft(t1 - r.startTimestamp, t2 - r.startTimestamp, r.totalAmount);
      DivMonotone(r.totalAmount * (t1 - r.startTimestamp), r.totalAmount * (t2 - r.startTimestamp), duration);
    }
  }

  /** The amount of `r` unlocked but not yet paid out, saturating at zero. */
  function ClaimableAmount(r: UnstakeRequest, now: I64): (c: U64)
    ensures c <= VestedAmount(r, now)
    ensures c == 0 <==> VestedAmount(r, now) <= r.claimedAmount
    ensures c > 0 ==> r.claimedAmount + c == VestedAmount(r, now)
    ensures r.claimedAmount <= r.totalAmount ==> r.claimedAmount + c <= r.totalAmount
  {
    SaturatingSub(VestedAmount(r, now), r.claimedAmount)
  }

  /** Sum of `total - claimed` (saturating) over the slots. */
  function SumPendingUnlock(slots: seq<UnstakeRequest>): nat
  {
    if slots == [] then 0
    else
      var last := slots[|slots| - 1];
      SumPendingUnlock(slots[..|slots| - 1]) + SaturatingSub(last.totalAmount, last.claimedAmount)
  }

  /** Sum of the per-slot claimable amounts at `now`. */
  function SumClaimable(slots: seq<UnstakeRequest>, now: I64): nat
  {
    if slots == [] then 0
    else SumClaimable(slots[..|slots| - 1], now) + ClaimableAmount(slots[|slots| - 1], now)
  }

  /** What can be claimed now never exceeds what is still locked or unclaimed. */
  lemma {:induction false} ClaimableWithinPendingUnlock(slots: seq<UnstakeRequest>, now: I64)
    ensures SumClaimable(slots, now) <= SumPendingUnlock(slots)
  {
    if slots != [] {
      ClaimableWithinPendingUnlock(slots[..|slots| - 1], now);
    }
  }

  /** Once every window has ended, everything outstanding is claimable. */
  lemma {:induction false} ClaimableAfterEveryEnd(slots: seq<UnstakeRequest>, now: I64)
    requires forall k :: 0 <= k < |slots| ==> slots[k].endTimestamp <= now
    ensures SumClaimable(slots, now) == SumPendingUnlock(slots)
  {
    if slots != [] {
      ClaimableAfterEveryEnd(slots[..|slots| - 1], now);
    }
  }

  /** Empty slots after position `n` add nothing to the claimable total, so the
      fold over all slots equals the fold over the used prefix. */
  lemma {:induction false} SumClaimableIgnoresEmptyTail(slots: seq<UnstakeRequest>, n: nat, now: I64)
    requires n <= |slots|
    requires forall k :: n <= k < |slots| ==> slots[k] == EmptyRequest
    ensures SumClaimable(slots, now) == SumClaimable(slots[..n], now)
  {
    if |slots| > n {
      assert slots[..|slots| - 1][..n] == slots[..n];
      SumClaimableIgnoresEmptyTail(slots[..|slots| - 1], n, now);
    } else {
      assert slots[..n] == slots;
    }
  }

  /** A prefix of the slots never has more to claim than all of them. */
  lemma {:induction false} SumClaimableOfPrefix(slots: seq<UnstakeRequest>, k: nat, now: I64)
    requires k <= |slots|
    ensures SumClaimable(slots[..k], now) <= SumClaimable(slots, now)
  {
    if k < |slots| {
      assert slots[..|slots| - 1][..k] == slots[..k];
      SumClaimableOfPrefix(slots[..|slots| - 1], k, now);
    } else {
      assert slots[..k] == slots;
    }
  }

  /** The lowest index of an empty slot, if there is one. */
  function FindEmptySlot(slots: seq<UnstakeRequest>): (r: Option<nat>)
    ensures r.Some? ==> r.value < |slots| && IsEmpty(slots[r.value])
    ensures r.Some? ==> forall j :: 0 <= j < r.value ==> !IsEmpty(slots[j])
    ensures r.None? <==> forall j :: 0 <= j < |slots| ==> !IsEmpty(slots[j])
  {
    if slots == [] then None
    else if IsEmpty(slots[0]) then Some(0)
    else
      match FindEmptySlot(slots[1..])
      case None => None
      case Some(i) => Some(i + 1)
  }

  /** The requests of `s` that are not fully claimed, in order. */
  function Outstanding(s: seq<UnstakeRequest>): seq<UnstakeRequest>
  {
    if s == [] then []
    else if IsFullyClaimed(s[0]) then Outstanding(s[1..])
    else [s[0]] + Outstanding(s[1..])
  }

  /** The number of fully claimed requests in `s`. */
  function CountFullyClaimed(s: seq<UnstakeRequest>): nat
  {
    if s == [] then 0
    else (if IsFullyClaimed(s[0]) then 1 else 0) + CountFullyClaimed(s[1..])
  }

  /** `Outstanding` keeps every occurrence of each request that is not fully
      claimed and drops every fully claimed one. */
  lemma {:induction false} OutstandingMultiplicity(s: seq<UnstakeRequest>, x: UnstakeRequest)
    ensures multiset(Outstanding(s))[x] == if IsFullyClaimed(x) then 0 else multiset(s)[x]
  {
    if s != [] {
      OutstandingMultiplicity(s[1..], x);
      assert s == [s[0]] + s[1..];
    }
  }

  /** `Outstanding` and `CountFullyClaimed` split `s` between them. */
  lemma {:induction false} OutstandingLength(s: seq<UnstakeRequest>)
    ensures |Outstanding(s)| + CountFullyClaimed(s) == |s|
  {
    if s != [] {
      OutstandingLength(s[1..]);
    }
  }

  /** A sequence with no fully claimed request is its own `Outstanding`. */
  lemma {:induction false} OutstandingOfUnclaimed(s: seq<UnstakeRequest>)
    requires forall k :: 0 <= k < |s| ==> !IsFullyClaimed(s[k])
    ensures Outstanding(s) == s
  {
    if s != [] {
      OutstandingOfUnclaimed(s[1..]);
    }
  }

  /** The reward bookkeeping of one staker. */
  datatype UserRewardState = UserRewardState(
    rewardSnapshot: U128,
    unclaimedRewards: U64,
    totalClaimed: U64)

  /** A staker's account. The request collection is the first `requestCount`
      slots of a fixed array of `MAX_UNSTAKE_REQUESTS`; the slots after it are
      empty. */
  class UserStake {
    var owner: Pubkey
    var isInitialized: bool
    var stakedAmount: U64
    var activeStakeAmount: U64
    var vestedStakeAmount: U64
    var requestCount: nat
    const requests: array<UnstakeRequest>
    var rewardState: UserRewardState
    var lastUpdateTimestamp: I64

    ghost predicate Valid()
      reads this, requests
    {
      && requests.Length == MAX_UNSTAKE_REQUESTS
      && requestCount <= MAX_UNSTAKE_REQUESTS
      && forall k :: requestCount <= k < MAX_UNSTAKE_REQUESTS ==> requests[k] == EmptyRequest
    }

    /** The request collection, in slot order. */
    ghost function Requests(): seq<UnstakeRequest>
      reads this, requests
      requires Valid()
    {
      requests[..requestCount]
    }

    /** A zero-filled account, as the host creates it. */
    constructor ()
      ensures Valid() && fresh(requests)
      ensures Requests() == []
      ensures owner == 0 && !isInitialized
      ensures stakedAmount == 0 && activeStakeAmount == 0 && vestedStakeAmount == 0
      ensures rewardState == UserRewardState(0, 0, 0) && lastUpdateTimestamp == 0
    {
      owner, isInitialized := 0, false;
      stakedAmount, activeStakeAmount, vestedStakeAmount := 0, 0, 0;
      requestCount := 0;
      requests := new UnstakeRequest[MAX_UNSTAKE_REQUESTS](_ => EmptyRequest);
      rewardState := UserRewardState(0, 0, 0);
      lastUpdateTimestamp := 0;
    }

    /** Appends a request in slot `requestCount`. */
    method PushRequest(request: UnstakeRequest)
      requires Valid() && requestCount < MAX_UNSTAKE_REQUESTS
      modifies this`requestCount, requests
      ensures Valid()
      ensures Requests() == old(Requests()) + [request]
    {
      requests[requestCount] := request;
      requestCount := requestCount + 1;
    }

    /** Removes the request at `index`, shifting the later ones down and
        clearing the slot that falls out of use. */
    method RemoveRequest(index: nat)
      requires Valid() && index < requestCount
      modifies this`requestCount, requests
      ensures Valid()
      ensures Requests() == old(Requests())[..index] + old(Requests())[index + 1..]
    {
      var k := index;
      while k + 1 < requestCount
        invariant requests.Length == MAX_UNSTAKE_REQUESTS && requestCount == old(requestCount)
        invariant index <= k < requestCount
        invariant forall j :: 0 <= j < index ==> requests[j] == old(requests[j])
        invariant forall j :: index <= j < k ==> requests[j] == old(requests[j + 1])
        invariant forall j :: k <= j < MAX_UNSTAKE_REQUESTS ==> requests[j] == old(requests[j])
      {
        requests[k] := requests[k + 1];
        k := k + 1;
      }
      requests[k] := EmptyRequest;
      requestCount := requestCount - 1;
    }

    /** Puts every slot back to `saved`; the host does this to the account
        when an instruction fails. */
    method RestoreRequests(saved: seq<UnstakeRequest>)
      requires |saved| == requests.Length
      modifies requests
      ensures requests[..] == saved
    {
      forall k | 0 <= k < requests.Length {
        requests[k] := saved[k];
      }
    }

    /** Removes every fully claimed request from the collection: each is
        replaced by the last request, whose slot is then cleared. */
    method CleanupClaimedRequests()
      requires requests.Length == MAX_UNSTAKE_REQUESTS && requestCount <= MAX_UNSTAKE_REQUESTS
      modifies this`requestCount, requests
      ensures Compacted(old(requests[..]), requests[..], old(requestCount), requestCount)
    {
      ghost var before := requests[..requestCount];
      ghost var orig := requests[..];
      ghost var removed: multiset<UnstakeRequest> := multiset{};
      ghost var cur := requests[..];
      var i := 0;
      while i < requestCount
        invariant requests.Length == MAX_UNSTAKE_REQUESTS && requests[..] == cur
        invariant CleanupInvariant(cur, i, requestCount, removed, before, orig, old(requestCount))
      {
        if IsFullyClaimed(requests[i]) {
          CleanupRemoveStep(cur, i, requestCount, removed, before, orig, old(requestCount));
          removed := removed + multiset{cur[i]};
          RemoveBySwap(i);
          cur := SwapClear(cur, i, requestCount);
        } else {
          CleanupKeepStep(cur, i, requestCount, removed, before, orig, old(requestCount));
          i := i + 1;
        }
      }
      CleanupFinish(cur, requestCount, removed, before, orig, old(requestCount));
    }

    /** Moves the last request into slot `i`, clears the last slot and
        shortens the collection by one. */
    method RemoveBySwap(i: nat)
      requires requests.Length == MAX_UNSTAKE_REQUESTS && i < requestCount <= MAX_UNSTAKE_REQUESTS
      modifies this`requestCount, requests
      ensures requestCount == old(requestCount) - 1
      ensures requests[..] == SwapClear(old(requests[..]), i, requestCount)
    {
      var last := requestCount - 1;
      if i != last {
        requests[i], requests[last] := requests[last], requests[i];
      }
      requests[last] := EmptyRequest;
      requestCount := last;
    }
  }

  /** `after` is the slot array `before` with its first `n` slots compacted to
      `m`: the used slots hold exactly the requests among the first `n` that
      are not fully claimed, one fewer for each fully claimed one, the slots
      that fell out of use are cleared and the slots from `n` on are
      untouched. */
  ghost predicate Compacted(before: seq<UnstakeRequest>, after: seq<UnstakeRequest>, n: nat, m: nat)
  {
    && |after| == |before| == MAX_UNSTAKE_REQUESTS
    && m <= n <= MAX_UNSTAKE_REQUESTS
    && n - m == CountFullyClaimed(before[..n])
    && (forall k :: 0 <= k < m ==> !IsFullyClaimed(after[k]))
    && multiset(after[..m]) == multiset(Outstanding(before[..n]))
    && (forall k :: m <= k < n ==> after[k] == EmptyRequest)
    && (forall k :: n <= k < MAX_UNSTAKE_REQUESTS ==> after[k] == before[k])
  }

  /** What the compaction loop keeps: the slots below `i` hold no fully
      claimed request, the used slots and the removed requests together are
      the requests at the start, every removed request is fully claimed, and
      the slots from `n` on are cleared up to the original count and
      untouched beyond it. */
  ghost predicate CleanupInvariant(cur: seq<UnstakeRequest>, i: nat, n: nat, removed: multiset<UnstakeRequest>,
                                   before: seq<UnstakeRequest>, orig: seq<UnstakeRequest>, oldCount: nat)
  {
    && |cur| == |orig| == MAX_UNSTAKE_REQUESTS
    && i <= n <= oldCount <= MAX_UNSTAKE_REQUESTS
    && before == orig[..oldCount]
    && (forall k :: 0 <= k < i ==> !IsFullyClaimed(cur[k]))
    && multiset(cur[..n]) + removed == multiset(before)
    && (forall x :: x in removed ==> IsFullyClaimed(x))
    && (forall k :: n <= k < MAX_UNSTAKE_REQUESTS ==> cur[k] == if k < oldCount then EmptyRequest else orig[k])
  }

  /** Removing the fully claimed request at `i` keeps the compaction invariant. */
  lemma CleanupRemoveStep(cur: seq<UnstakeRequest>, i: nat, n: nat, removed: multiset<UnstakeRequest>,
                          before: seq<UnstakeRequest>, orig: seq<UnstakeRequest>, oldCount: nat)
    requires CleanupInvariant(cur, i, n, removed, before, orig, oldCount)
    requires i < n && IsFullyClaimed(cur[i])
    ensures CleanupInvariant(SwapClear(cur, i, n - 1), i, n - 1, removed + multiset{cur[i]}, before, orig, oldCount)
  {
    var next := SwapClear(cur, i, n - 1);
    SwapClearFacts(cur, i, n - 1);
    assert multiset(next[..n - 1]) + (removed + multiset{cur[i]}) == multiset(before) by {
      assert cur[..n] == cur[..n - 1 + 1];
      MoveToRemoved(multiset(cur[..n]), multiset(next[..n - 1]), cur[i], removed, multiset(before));
    }
    assert forall x :: x in removed + multiset{cur[i]} ==> IsFullyClaimed(x);
    assert forall k :: 0 <= k < i ==> !IsFullyClaimed(next[k]);
    forall k | n - 1 <= k < MAX_UNSTAKE_REQUESTS
      ensures next[k] == if k < oldCount then EmptyRequest else orig[k]
    {
      if k > n - 1 {
        assert next[k] == cur[k];
      }
    }
  }

  /** Keeping the request at `i`, which is not fully claimed, keeps the
      compaction invariant. */
  lemma CleanupKeepStep(cur: seq<UnstakeRequest>, i: nat, n: nat, removed: multiset<UnstakeRequest>,
                        before: seq<UnstakeRequest>, orig: seq<UnstakeRequest>, oldCount: nat)
    requires CleanupInvariant(cur, i, n, removed, before, orig, oldCount)
    requires i < n && !IsFullyClaimed(cur[i])
    ensures CleanupInvariant(cur, i + 1, n, removed, before, orig, oldCount)
  {
  }

  /** When the loop ends, the used slots are exactly the outstanding requests. */
  lemma CleanupFinish(cur: seq<UnstakeRequest>, n: nat, removed: multiset<UnstakeRequest>,
                      before: seq<UnstakeRequest>, orig: seq<UnstakeRequest>, oldCount: nat)
    requires CleanupInvariant(cur, n, n, removed, before, orig, oldCount)
    ensures Compacted(orig, cur, oldCount, n)
  {
    CompactedIsOutstanding(before, cur[..n], removed);
  }

  /** A compaction of `before` that holds no fully claimed request, and
      differs from it only by fully claimed ones, is exactly the outstanding
      requests, shorter by the number of fully claimed ones. */
  lemma CompactedIsOutstanding(before: seq<UnstakeRequest>, after: seq<UnstakeRequest>, removed: multiset<UnstakeRequest>)
    requires forall k :: 0 <= k < |after| ==> !IsFullyClaimed(after[k])
    requires multiset(after) + removed == multiset(before)
    requires forall x :: x in removed ==> IsFullyClaimed(x)
    ensures multiset(after) == multiset(Outstanding(before))
    ensures |before| - |after| == CountFullyClaimed(before)
  {
    forall x
      ensures multiset(after)[x] == multiset(Outstanding(before))[x]
    {
      OutstandingMultiplicity(before, x);
      if IsFullyClaimed(x) {
        assert x !in multiset(after);
      } else {
        assert x !in removed;
      }
    }
    assert multiset(after) == multiset(Outstanding(before));
    assert |after| == |multiset(after)| == |multiset(Outstanding(before))| == |Outstanding(before)|;
    OutstandingLength(before);
  }

  /** Bookkeeping for one removal: the element leaves the collection and joins
      the removed ones. */
  lemma MoveToRemoved<T>(m: multiset<T>, m': multiset<T>, x: T, removed: multiset<T>, total: multiset<T>)
    requires m + removed == total && m == m' + multiset{x}
    ensures m' + (removed + multiset{x}) == total
  {
  }

  /** Slots after swapping slot `i` with slot `last` and clearing `last`. */
  function SwapClear(a: seq<UnstakeRequest>, i: nat, last: nat): seq<UnstakeRequest>
    requires i <= last < |a|
  {
    (if i == last then a else a[i := a[last]][last := a[i]])[last := EmptyRequest]
  }

  /** Swapping with the last used slot and clearing it removes exactly one
      occurrence of `a[i]` from the used prefix and touches nothing else. */
  lemma SwapClearFacts(a: seq<UnstakeRequest>, i: nat, last: nat)
    requires i <= last < |a|
    ensures multiset(a[..last + 1]) == multiset(SwapClear(a, i, last)[..last]) + multiset{a[i]}
    ensures forall k :: 0 <= k < i ==> SwapClear(a, i, last)[k] == a[k]
    ensures forall k :: last < k < |a| ==> SwapClear(a, i, last)[k] == a[k]
    ensures SwapClear(a, i, last)[last] == EmptyRequest
  {
    var b := SwapClear(a, i, last);
    assert a[..last + 1] == a[..last] + [a[last]];
    if i < last {
      assert b[..last] == a[..last][i := a[last]];
    } else {
      assert b[..last] == a[..last];
    }
  }
}
