/** The retry wrapper of db/db.ts around a SQLite client: what is asked, how often, and how long is waited. */
module BusyRetry {

  datatype Outcome<T> =
    | Returned(value: T)
    | Busy
    | Failed

  const MAX_RETRIES := 4

  /** 50 << attempt */
  function Backoff(attempt: nat): (ms: nat)
    ensures ms >= 50
  {
    if attempt == 0 then 50 else 2 * Backoff(attempt - 1)
  }

  /** The waiting time, without jitter, before the n-th retry has begun. */
  function Waited(n: nat): nat {
    if n == 0 then 0 else Waited(n - 1) + Backoff(n - 1)
  }

  lemma {:induction false} WaitedDoubles(n: nat)
    ensures Waited(n) == Backoff(n) - 50
  {
    if n > 0 {
      WaitedDoubles(n - 1);
      assert Backoff(n) == 2 * Backoff(n - 1);
    }
  }

  /**
   * Call number n of the operation has the outcome call(n); jitter(n) is added to the
   * wait behind it.  The result is that of the first call that is not busy, or of the
   * last one allowed.
   */
  method Retry<T>(call: nat -> Outcome<T>, jitter: nat -> real, maxRetries: nat)
    returns (result: Outcome<T>, calls: nat, waited: real)
    requires forall n :: 0.0 <= jitter(n) < 30.0
    ensures 1 <= calls <= maxRetries + 1
    ensures result == call(calls - 1) && forall n: nat :: n < calls - 1 ==> call(n).Busy?
    ensures result.Busy? ==> calls == maxRetries + 1
    ensures Waited(calls - 1) as real <= waited <= Waited(calls - 1) as real + 30.0 * (calls - 1) as real
  {
    var attempt := 0;
    waited := 0.0;
    while true
      invariant attempt <= maxRetries
      invariant forall n: nat :: n < attempt ==> call(n).Busy?
      invariant Waited(attempt) as real <= waited <= Waited(attempt) as real + 30.0 * attempt as real
      decreases maxRetries - attempt
    {
      result := call(attempt);
      if !result.Busy? || attempt >= maxRetries {
        calls := attempt + 1;
        return;
      }
      waited := waited + Backoff(attempt) as real + jitter(attempt);
      attempt := attempt + 1;
    }
  }

  /** With the default, five calls and at most 870 milliseconds of waiting. */
  lemma DefaultBounds(calls: nat, waited: real)
    requires 1 <= calls <= MAX_RETRIES + 1
    requires waited <= Waited(calls - 1) as real + 30.0 * (calls - 1) as real
    ensures calls <= 5 && waited <= 870.0
  {
    WaitedGrows(calls - 1, MAX_RETRIES);
    WaitedDoubles(MAX_RETRIES);
    assert Backoff(4) == 800 by { assert Backoff(2) == 200; }
  }

  lemma {:induction false} WaitedGrows(m: nat, n: nat)
    requires m <= n
    ensures Waited(m) <= Waited(n)
  {
    if m < n {
      WaitedGrows(m, n - 1);
    }
  }
}
