/** The uploader's retry policy: an operation is invoked, and on failure retried
    up to three more times after an exponentially growing delay; the last
    failure is rethrown unchanged.

    The operation is abstract: `op(k)` is what its invocation number `k + 1`
    (that is, the one made with `retryCount == k`) resolves or throws. Delays are
    returned in milliseconds instead of being waited out. */
module RetryPolicy {
  import opened Outcomes

  /** Retries after the first invocation. */
  const MaxRetries: nat := 3
  /** Invocations at most. */
  const MaxAttempts: nat := MaxRetries + 1
  /** The delay before the first retry, in milliseconds. */
  const BaseDelay: nat := 1000

  function Pow2(k: nat): nat {
    if k == 0 then 1 else 2 * Pow2(k - 1)
  }

  /** The wait after the failure of the attempt made with `retryCount`. */
  function Backoff(retryCount: nat): nat {
    BaseDelay * Pow2(retryCount)
  }

  /** What one run of the policy did: its final outcome, how many times it
      invoked the operation, and the delays it waited, in order. */
  datatype RetryRun<+T, +E> = RetryRun(result: Outcome<T, E>, invocations: nat, delays: seq<nat>)

  /** The policy entered with `retryCount` attempts already failed. */
  function RetryFrom<T, E>(op: nat -> Outcome<T, E>, retryCount: nat): (run: RetryRun<T, E>)
    requires retryCount <= MaxRetries
    // at least one and at most the remaining invocations are made
    ensures 1 <= run.invocations <= MaxAttempts - retryCount
    // one delay between consecutive invocations, growing exponentially
    ensures |run.delays| == run.invocations - 1
    ensures forall j :: 0 <= j < |run.delays| ==> run.delays[j] == Backoff(retryCount + j)
    // every invocation but the last failed ...
    ensures forall k :: retryCount <= k < retryCount + run.invocations - 1 ==> op(k).Failure?
    // ... and the last one's outcome is returned unchanged
    ensures run.result == op(retryCount + run.invocations - 1)
    // a failure is returned only once all attempts are spent
    ensures run.result.Failure? ==> retryCount + run.invocations == MaxAttempts
    decreases MaxRetries - retryCount
  {
    match op(retryCount)
    case Success(v) => RetryRun(Success(v), 1, [])
    case Failure(e) =>
      if retryCount < MaxRetries then
        var rest := RetryFrom(op, retryCount + 1);
        RetryRun(rest.result, rest.invocations + 1, [Backoff(retryCount)] + rest.delays)
      else
        RetryRun(Failure(e), 1, [])
  }

  /** The policy as the uploader calls it, with no failures yet. */
  function Retry<T, E>(op: nat -> Outcome<T, E>): (run: RetryRun<T, E>)
    ensures 1 <= run.invocations <= MaxAttempts
    ensures run.result == op(run.invocations - 1)
    ensures forall k :: 0 <= k < run.invocations - 1 ==> op(k).Failure?
    ensures run.result.Failure? ==> run.invocations == MaxAttempts
  {
    RetryFrom(op, 0)
  }

  /** An operation that fails `k` times and then succeeds yields that success
      after exactly `k + 1` invocations. */
  lemma RetryReturnsFirstSuccess<T, E>(op: nat -> Outcome<T, E>, k: nat)
    requires k < MaxAttempts
    requires forall j :: 0 <= j < k ==> op(j).Failure?
    requires op(k).Success?
    ensures Retry(op).result == op(k)
    ensures Retry(op).invocations == k + 1
  {
  }

  /** An operation that fails on all four attempts has its fourth error
      rethrown, is invoked exactly four times, and waits 1 s, 2 s and 4 s,
      7 s in all. */
  lemma RetryExhausted<T, E>(op: nat -> Outcome<T, E>)
    requires forall j :: 0 <= j < MaxAttempts ==> op(j).Failure?
    ensures Retry(op).result == op(MaxRetries)
    ensures Retry(op).invocations == MaxAttempts
    ensures Retry(op).delays == [1000, 2000, 4000]
    ensures TotalDelay(Retry(op).delays) == 7000
  {
    var run := Retry(op);
    assert Backoff(0) == 1000 && Backoff(1) == 2000 && Backoff(2) == 4000;
    assert run.delays == [1000, 2000, 4000];
    assert TotalDelay([4000]) == 4000 + TotalDelay([]);
    assert TotalDelay([2000, 4000]) == 2000 + TotalDelay([4000]);
    assert TotalDelay([1000, 2000, 4000]) == 1000 + TotalDelay([2000, 4000]);
  }

  function TotalDelay(delays: seq<nat>): nat {
    if |delays| == 0 then 0 else delays[0] + TotalDelay(delays[1..])
  }

  lemma {:induction false} TotalDelayFrom<T, E>(op: nat -> Outcome<T, E>, retryCount: nat)
    requires retryCount <= MaxRetries
    ensures var run := RetryFrom(op, retryCount);
      TotalDelay(run.delays) + BaseDelay * Pow2(retryCount) == BaseDelay * Pow2(retryCount + run.invocations - 1)
    decreases MaxRetries - retryCount
  {
    var run := RetryFrom(op, retryCount);
    if op(retryCount).Failure? && retryCount < MaxRetries {
      var rest := RetryFrom(op, retryCount + 1);
      TotalDelayFrom(op, retryCount + 1);
      DelayStep(retryCount, run.delays, run.invocations, rest.delays, rest.invocations);
    } else {
      assert run.delays == [];
    }
  }

  /** One backoff in front of a run entered one failure later: if the later
      run waited from `2^(retryCount+1)` up to its last power, the whole run
      waited from `2^retryCount` up to the same power. */
  lemma DelayStep(retryCount: nat, delays: seq<nat>, invocations: nat, restDelays: seq<nat>, restInvocations: nat)
    requires restInvocations >= 1
    requires delays == [Backoff(retryCount)] + restDelays && invocations == restInvocations + 1
    requires TotalDelay(restDelays) + BaseDelay * Pow2(retryCount + 1) == BaseDelay * Pow2(retryCount + restInvocations)
    ensures TotalDelay(delays) + BaseDelay * Pow2(retryCount) == BaseDelay * Pow2(retryCount + invocations - 1)
  {
  }

  /** After `k = invocations - 1` retries (so `k <= 3`) the policy has waited
      `1000 * (2^k - 1)` ms in all; four failed attempts wait 7000 ms. */
  lemma RetryTotalDelay<T, E>(op: nat -> Outcome<T, E>)
    ensures TotalDelay(Retry(op).delays) == BaseDelay * (Pow2(Retry(op).invocations - 1) - 1)
  {
    TotalDelayFrom(op, 0);
  }

  lemma {:induction false} RetryFromOnlyReadsAttempts<T, E>(op: nat -> Outcome<T, E>, op': nat -> Outcome<T, E>, retryCount: nat)
    requires retryCount <= MaxRetries
    requires forall k :: retryCount <= k < MaxAttempts ==> op(k) == op'(k)
    ensures RetryFrom(op, retryCount) == RetryFrom(op', retryCount)
    decreases MaxRetries - retryCount
  {
    assert op(retryCount) == op'(retryCount);
    if retryCount < MaxRetries {
      RetryFromOnlyReadsAttempts(op, op', retryCount + 1);
    }
  }

  /** The policy never makes a fifth invocation: what the operation would do
      after its fourth has no bearing on the run. */
  lemma RetryOnlyReadsFourAttempts<T, E>(op: nat -> Outcome<T, E>, op': nat -> Outcome<T, E>)
    requires forall k :: 0 <= k < MaxAttempts ==> op(k) == op'(k)
    ensures Retry(op) == Retry(op')
  {
    RetryFromOnlyReadsAttempts(op, op', 0);
  }
}
