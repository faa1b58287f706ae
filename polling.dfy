/** The run loop: polling is restarted for ever, and after each crash the
    loop sleeps `backoff` seconds, a delay that starts at 1 and doubles up
    to a cap of 60. The outcomes of the polling calls are the loop's input,
    and a finite prefix of the endless loop is modelled. */
module Polling {

  const InitialBackoff: int := 1
  const MaxBackoff: int := 60

  /** How one call of the polling client ended. */
  datatype PollOutcome = Returned | Crashed

  function Pow2(k: nat): (r: nat)
    ensures r >= 1
  {
    if k == 0 then 1 else 2 * Pow2(k - 1)
  }

  /** `min(backoff * 2, 60)`: the delay for the next crash. */
  function NextBackoff(backoff: int): (r: int)
    ensures r <= MaxBackoff
    ensures InitialBackoff <= backoff <= MaxBackoff ==> backoff <= r
  {
    if backoff * 2 < MaxBackoff then backoff * 2 else MaxBackoff
  }

  /** The delay in force after k crashes. */
  function BackoffAfter(k: nat): (r: int)
    ensures InitialBackoff <= r <= MaxBackoff
  {
    if k == 0 then InitialBackoff else NextBackoff(BackoffAfter(k - 1))
  }

  /** After k crashes the delay is min(2^k, 60). */
  lemma {:induction false} BackoffClosedForm(k: nat)
    ensures BackoffAfter(k) == if Pow2(k) < MaxBackoff then Pow2(k) else MaxBackoff
  {
    if k > 0 {
      BackoffClosedForm(k - 1);
    }
  }

  /** The delay never decreases from one crash to a later one. */
  lemma {:induction false} BackoffMonotone(j: nat, k: nat)
    requires j <= k
    ensures BackoffAfter(j) <= BackoffAfter(k)
    decreases k - j
  {
    if j < k {
      BackoffMonotone(j, k - 1);
    }
  }

  /** The number of crashes among the outcomes. */
  function CrashCount(outcomes: seq<PollOutcome>): (n: nat)
    ensures n <= |outcomes|
  {
    if outcomes == [] then 0
    else CrashCount(outcomes[..|outcomes| - 1]) + (if outcomes[|outcomes| - 1] == Crashed then 1 else 0)
  }

  /** The run loop over the given polling outcomes: returns the sleeps it
      performs, in order, and the delay in force at the end. The k-th sleep
      lasts min(2^k, 60) seconds; a normal return of the polling call
      neither sleeps nor resets the delay. */
  method RunLoop(outcomes: seq<PollOutcome>) returns (sleeps: seq<int>, backoff: int)
    ensures |sleeps| == CrashCount(outcomes)
    ensures forall k :: 0 <= k < |sleeps| ==> sleeps[k] == BackoffAfter(k)
    ensures forall k :: 0 <= k < |sleeps| ==>
      sleeps[k] == if Pow2(k) < MaxBackoff then Pow2(k) else MaxBackoff
    ensures forall k :: 0 <= k < |sleeps| ==> InitialBackoff <= sleeps[k] <= MaxBackoff
    ensures forall j, k :: 0 <= j <= k < |sleeps| ==> sleeps[j] <= sleeps[k]
    ensures backoff == BackoffAfter(|sleeps|)
  {
    sleeps := [];
    backoff := InitialBackoff;
    for i := 0 to |outcomes|
      invariant |sleeps| == CrashCount(outcomes[..i])
      invariant forall k :: 0 <= k < |sleeps| ==> sleeps[k] == BackoffAfter(k)
      invariant backoff == BackoffAfter(|sleeps|)
    {
      assert outcomes[..i + 1][..i] == outcomes[..i];
      if outcomes[i] == Crashed {
        sleeps := sleeps + [backoff];
        backoff := NextBackoff(backoff);
      }
    }
    assert outcomes[..|outcomes|] == outcomes;
    forall k | 0 <= k < |sleeps| {
      BackoffClosedForm(k);
    }
    forall j, k | 0 <= j <= k < |sleeps| {
      BackoffMonotone(j, k);
    }
  }
}
