/** `src/reliability/retry.ts`: attempts with exponential backoff. */
module Retry {

  /** `Transient` is an error whose message names a network failure or a timeout. */
  datatype Error = TimedOut | Transient | ToolError | CircuitOpen | Other

  datatype Attempt = Done(value: string) | Failed(error: Error)

  datatype Last = NoError | LastError(error: Error)
  datatype Result = Returned(value: string) | Thrown(error: Error) | Exhausted(attempts: int, last: Last)

  predicate IsRetryable(e: Error) { e == TimedOut || e == Transient }

  /** Whether the loop ends with this attempt whatever the budget. */
  predicate Final(a: Attempt) { a.Done? || (a.error != TimedOut && a.error != Transient) }

  function Min(a: int, b: int): int { if a < b then a else b }

  function Pow2(i: nat): nat { if i == 0 then 1 else 2 * Pow2(i - 1) }

  /** The sleep before attempt `i + 2`. */
  function Delay(first: int, limit: int, i: nat): int {
    if i == 0 then first else Min(Delay(first, limit, i - 1) * 2, limit)
  }

  /** The first sleep is not capped; later ones double up to the limit. */
  lemma {:induction false} DelayDoubles(first: int, limit: int, i: nat)
    requires limit >= 0
    ensures Delay(first, limit, i)
         == if i == 0 then first else if first * Pow2(i) <= limit then first * Pow2(i) else limit
  {
    if i == 0 {
    } else {
      DelayDoubles(first, limit, i - 1);
      assert first * Pow2(i) == 2 * (first * Pow2(i - 1));
      assert i == 1 ==> Pow2(0) == 1;
      if i > 1 && first * Pow2(i - 1) > limit { assert 2 * limit >= limit; }
    }
  }

  /** What `withRetry` does when its attempts turn out like `fn(1)`, `fn(2)`, …: it makes `calls` of them. */
  ghost predicate Follows(fn: nat -> Attempt, retries: int, calls: nat, r: Result) {
    if retries < 0 then calls == 0 && r == Exhausted(retries + 1, NoError)
    else
      && 1 <= calls <= retries + 1
      && (forall i | 1 <= i < calls :: !Final(fn(i)))
      && (match fn(calls)
          case Done(v) => r == Returned(v)
          case Failed(e) =>
            if e == TimedOut || e == Transient then calls == retries + 1 && r == Exhausted(calls, LastError(e))
            else r == Thrown(e))
  }

  /** The behaviour is determined: no other number of attempts and no other result fits. */
  lemma FollowsUnique(fn: nat -> Attempt, retries: int, n: nat, r: Result, m: nat, q: Result)
    requires Follows(fn, retries, n, r) && Follows(fn, retries, m, q)
    ensures n == m && r == q
  {
    assert retries >= 0 ==> (Final(fn(n)) || n == retries + 1) && (Final(fn(m)) || m == retries + 1);
  }

  method WithRetry(fn: nat -> Attempt, retries: int, retryDelayMs: int, retryMaxDelayMs: int)
    returns (r: Result, calls: nat, sleeps: seq<int>)
    ensures Follows(fn, retries, calls, r)
    ensures |sleeps| == if calls == 0 then 0 else calls - 1
    ensures forall i | 0 <= i < |sleeps| :: sleeps[i] == Delay(retryDelayMs, retryMaxDelayMs, i)
  {
    var lastError := NoError;
    var delay := retryDelayMs;
    var maxAttempts := retries + 1;
    calls, sleeps := 0, [];
    var attempt := 1;
    while attempt <= maxAttempts
      invariant calls == attempt - 1 == |sleeps|
      invariant 1 <= attempt && (attempt <= maxAttempts || attempt == 1)
      invariant forall i | 1 <= i <= calls :: !Final(fn(i))
      invariant delay == Delay(retryDelayMs, retryMaxDelayMs, |sleeps|)
      invariant forall i | 0 <= i < |sleeps| :: sleeps[i] == Delay(retryDelayMs, retryMaxDelayMs, i)
      invariant calls == 0 ==> lastError == NoError
      decreases maxAttempts - attempt
    {
      calls := calls + 1;
      match fn(calls) {
        case Done(v) => return Returned(v), calls, sleeps;
        case Failed(err) =>
          lastError := LastError(err);
          if !IsRetryable(err) { return Thrown(err), calls, sleeps; }
          if attempt == maxAttempts { break; }
          sleeps := sleeps + [delay];
          delay := Min(delay * 2, retryMaxDelayMs);
      }
      attempt := attempt + 1;
    }
    r := Exhausted(maxAttempts, lastError);
  }
}
