/** The bounded retry around the remote "list devices" call
    (`getAllRetry`). The remote call is an oracle: `call(i)` is what the
    `i`-th attempt (counting from 0) yields. */
module Retry {

  /** What one attempt of the remote call yields. */
  datatype Attempt<T, E> = Success(value: T) | Failure(error: E)

  /** What `getAllRetry` does: return a value, throw an error, or fall off
      the end of the function and return `undefined`. */
  datatype Outcome<T, E> = Returned(value: T) | Thrown(error: E) | Undefined

  /** The outcome and the total number of calls made when the loop is
      entered with counter `i`, for `n` permitted attempts. */
  function RetryFrom<T, E>(i: nat, n: int, call: nat -> Attempt<T, E>): (r: (Outcome<T, E>, nat))
    ensures r.0.Undefined? <==> i >= n
    ensures r.0.Undefined? ==> r.1 == i
    ensures !r.0.Undefined? ==> i < r.1 <= n
    decreases n - i
  {
    if i >= n then (Undefined, i)
    else match call(i)
      case Success(v) => (Returned(v), i + 1)
      case Failure(e) => if i + 1 == n then (Thrown(e), i + 1) else RetryFrom(i + 1, n, call)
  }

  /** The outcome of `getAllRetry(n, ...)` and how many calls it makes. */
  function Retry<T, E>(n: int, call: nat -> Attempt<T, E>): (r: (Outcome<T, E>, nat))
    ensures r.0.Undefined? <==> n <= 0
    ensures r.0.Undefined? ==> r.1 == 0
    ensures !r.0.Undefined? ==> 1 <= r.1 <= n
  {
    RetryFrom(0, n, call)
  }

  /** The retry loop itself: one call per iteration, return on the first
      success, rethrow the error of the last permitted attempt. */
  method GetAllRetry<T, E>(n: int, call: nat -> Attempt<T, E>) returns (outcome: Outcome<T, E>, calls: nat)
    ensures (outcome, calls) == Retry(n, call)
    ensures n <= 0 ==> outcome == Undefined && calls == 0
    ensures n > 0 ==> 1 <= calls <= n && !outcome.Undefined?
    ensures forall j :: 0 <= j < calls - 1 ==> call(j).Failure?
    ensures outcome.Returned? ==> call(calls - 1) == Success(outcome.value)
    ensures outcome.Thrown? ==> calls == n && call(calls - 1) == Failure(outcome.error)
  {
    var i := 0;
    while i < n
      invariant 0 <= i && (i < n || i == 0)
      invariant forall j :: 0 <= j < i ==> call(j).Failure?
      invariant RetryFrom(i, n, call) == Retry(n, call)
      decreases n - i
    {
      var attempt := call(i);
      match attempt {
        case Success(v) =>
          return Returned(v), i + 1;
        case Failure(e) =>
          if i + 1 == n {
            return Thrown(e), i + 1;
          }
      }
      i := i + 1;
    }
    return Undefined, i;
  }

  lemma {:induction false} FailuresThenSuccessFrom<T, E>(i: nat, n: int, call: nat -> Attempt<T, E>, k: nat)
    requires i <= k < n
    requires forall j :: i <= j < k ==> call(j).Failure?
    requires call(k).Success?
    ensures RetryFrom(i, n, call) == (Returned(call(k).value), k + 1)
    decreases k - i
  {
    if i < k {
      FailuresThenSuccessFrom(i + 1, n, call, k);
    }
  }

  /** When the first `k` attempts fail and attempt `k` (with `k < n`)
      succeeds, exactly `k + 1` calls are made and that success is returned. */
  lemma FailuresThenSuccess<T, E>(n: int, call: nat -> Attempt<T, E>, k: nat)
    requires k < n
    requires forall j :: 0 <= j < k ==> call(j).Failure?
    requires call(k).Success?
    ensures Retry(n, call) == (Returned(call(k).value), k + 1)
  {
    FailuresThenSuccessFrom(0, n, call, k);
  }

  lemma {:induction false} AllFailFrom<T, E>(i: nat, n: int, call: nat -> Attempt<T, E>)
    requires i < n
    requires forall j :: i <= j < n ==> call(j).Failure?
    ensures RetryFrom(i, n, call) == (Thrown(call(n - 1).error), n)
    decreases n - i
  {
    if i + 1 < n {
      AllFailFrom(i + 1, n, call);
    }
  }

  /** When every one of the `n >= 1` attempts fails, exactly `n` calls are
      made and the error of the last one is rethrown unchanged. */
  lemma AllFail<T, E>(n: int, call: nat -> Attempt<T, E>)
    requires n >= 1
    requires forall j :: 0 <= j < n ==> call(j).Failure?
    ensures Retry(n, call) == (Thrown(call(n - 1).error), n)
  {
    AllFailFrom(0, n, call);
  }

  lemma {:induction false} OutcomeFrom<T, E>(i: nat, n: int, call: nat -> Attempt<T, E>)
    requires i < n
    ensures var (outcome, calls) := RetryFrom(i, n, call);
      && i < calls <= n
      && (forall j :: i <= j < calls - 1 ==> call(j).Failure?)
      && (outcome.Returned? <==> call(calls - 1).Success?)
      && (outcome.Returned? ==> outcome.value == call(calls - 1).value)
      && (outcome.Thrown? <==> !outcome.Returned?)
      && (outcome.Thrown? ==> calls == n && outcome.error == call(n - 1).error)
    decreases n - i
  {
    if call(i).Failure? && i + 1 < n {
      OutcomeFrom(i + 1, n, call);
    }
  }

  /** For `n >= 1` the call either succeeds within the `n` attempts, and the
      first success is returned after the failures before it, or all `n`
      attempts fail and the last error is thrown; `undefined` is never
      returned. */
  lemma RetryOutcome<T, E>(n: int, call: nat -> Attempt<T, E>)
    requires n >= 1
    ensures var (outcome, calls) := Retry(n, call);
      && 1 <= calls <= n
      && (forall j :: 0 <= j < calls - 1 ==> call(j).Failure?)
      && (outcome.Returned? <==> call(calls - 1).Success?)
      && (outcome.Returned? ==> outcome.value == call(calls - 1).value)
      && (outcome.Thrown? <==> !outcome.Returned?)
      && (outcome.Thrown? ==> calls == n && outcome.error == call(n - 1).error)
  {
    OutcomeFrom(0, n, call);
  }
}
