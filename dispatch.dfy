/**
 * The model-call policy shared by `QuestionProcessor.process_question_chunk`
 * and `DiagnosticProcessor.diagnose`: up to `max_retries` attempts, a wait of
 * `retry_base_delay * 2 ** (attempt - 1)` after every failed attempt but the
 * last, the first successful value returned at once, and None once every
 * attempt has failed. The model call itself is a parameter: attempt `k`
 * (counted from 1) either succeeds with a value or fails.
 *
 * Also the concurrency cap both processors compute in `__init__`.
 */
module Dispatch {
  import opened Wrappers

  /** What one attempt came to: a parsed and validated value, or an exception. */
  datatype Outcome<T> = Success(value: T) | Failure

  /** The LLM settings of the configuration, with their defaults. */
  const DefaultMaxConcurrentRequests: int := 10
  const DefaultRequestsPerMinute: int := 50
  const DefaultMaxRetries: int := 3
  const DefaultRetryBaseDelay: real := 2.0

  // ---------------------------------------------------------------------------
  // Concurrency cap
  // ---------------------------------------------------------------------------

  /** Python's `x or default` for an optional integer: None and 0 both give the default. */
  function OrDefault(x: Option<int>, default: int): (r: int)
    ensures x.Some? && x.value != 0 ==> r == x.value
    ensures x.None? || x.value == 0 ==> r == default
  {
    if x.Some? && x.value != 0 then x.value else default
  }

  /**
   * `rpm = requests_per_minute or CONFIG.llm.requests_per_minute` and
   * `concurrency = max_concurrent_requests or min(CONFIG.llm.max_concurrent_requests, rpm)`:
   * an explicit non-zero cap is taken as given; otherwise the concurrency is
   * the smaller of the configured cap and the effective rate.
   */
  function Concurrency(requestsPerMinute: Option<int>, maxConcurrentRequests: Option<int>,
                       configRpm: int, configMax: int): (c: int)
    ensures maxConcurrentRequests.Some? && maxConcurrentRequests.value != 0 ==> c == maxConcurrentRequests.value
    ensures maxConcurrentRequests.None? || maxConcurrentRequests.value == 0 ==>
      var rpm := OrDefault(requestsPerMinute, configRpm);
      c <= configMax && c <= rpm && (c == configMax || c == rpm)
  {
    var rpm := OrDefault(requestsPerMinute, configRpm);
    OrDefault(maxConcurrentRequests, Min(configMax, rpm))
  }

  function Min(a: int, b: int): (r: int)
    ensures r <= a && r <= b && (r == a || r == b)
  {
    if a <= b then a else b
  }

  /** With nothing passed in, the defaults give 10 concurrent requests. */
  lemma DefaultConcurrency()
    ensures Concurrency(None, None, DefaultRequestsPerMinute, DefaultMaxConcurrentRequests) == 10
  {
  }

  // ---------------------------------------------------------------------------
  // Retry with exponential backoff
  // ---------------------------------------------------------------------------

  function Pow2(k: nat): (r: nat)
    ensures r >= 1
  {
    if k == 0 then 1 else 2 * Pow2(k - 1)
  }

  /** `retry_base_delay * (2 ** (attempt - 1))`, the wait after failed attempt `k + 1`. */
  function Wait(base: real, k: nat): real {
    base * (Pow2(k) as real)
  }

  /** The waits after failed attempts `1 .. n`: `base * 2 ** (k - 1)` for attempt `k`. */
  function Backoff(base: real, n: nat): (r: seq<real>)
    ensures |r| == n && forall k :: 0 <= k < n ==> r[k] == Wait(base, k)
  {
    if n == 0 then [] else Backoff(base, n - 1) + [Wait(base, n - 1)]
  }

  /** The first attempt from `from` up to `maxRetries` that succeeds. */
  function FirstSuccess<T>(call: nat -> Outcome<T>, from: nat, maxRetries: int): (r: Option<nat>)
    ensures r.Some? ==> from <= r.value <= maxRetries && call(r.value).Success?
    decreases maxRetries - from + 1
  {
    if from > maxRetries then None
    else if call(from).Success? then Some(from)
    else FirstSuccess(call, from + 1, maxRetries)
  }

  /** Every attempt before the first success (or every attempt, if none succeeds) failed. */
  lemma {:induction false} FirstSuccessIsFirst<T>(call: nat -> Outcome<T>, from: nat, maxRetries: int)
    ensures FirstSuccess(call, from, maxRetries).None? ==>
      forall k :: from <= k <= maxRetries ==> call(k).Failure?
    ensures FirstSuccess(call, from, maxRetries).Some? ==>
      forall k :: from <= k < FirstSuccess(call, from, maxRetries).value ==> call(k).Failure?
    decreases maxRetries - from + 1
  {
    if from <= maxRetries && call(from).Failure? {
      FirstSuccessIsFirst(call, from + 1, maxRetries);
    }
  }

  /** What the loop returns: the value of the first successful attempt, if any. */
  function RetryResult<T>(call: nat -> Outcome<T>, maxRetries: int): Option<T> {
    match FirstSuccess(call, 1, maxRetries)
    case Some(k) => Some(call(k).value)
    case None => None
  }

  /** How many model calls the loop makes. */
  function AttemptsMade<T>(call: nat -> Outcome<T>, maxRetries: int): nat {
    match FirstSuccess(call, 1, maxRetries)
    case Some(k) => k
    case None => if maxRetries > 0 then maxRetries else 0
  }

  /**
   * The retry loop. `attempts` counts the model calls and `delays` records
   * each `asyncio.sleep`, in order; there is one wait between consecutive
   * attempts and none after the last.
   */
  method RetryWithBackoff<T>(maxRetries: int, baseDelay: real, call: nat -> Outcome<T>)
    returns (result: Option<T>, attempts: nat, delays: seq<real>)
    ensures result == RetryResult(call, maxRetries)
    ensures attempts == AttemptsMade(call, maxRetries)
    ensures delays == Backoff(baseDelay, if attempts == 0 then 0 else attempts - 1)
  {
    result, attempts, delays := None, 0, [];
    var attempt := 1;
    while attempt <= maxRetries
      invariant 1 <= attempt && attempts == attempt - 1
      invariant attempt == 1 || attempt <= maxRetries
      invariant FirstSuccess(call, 1, maxRetries) == FirstSuccess(call, attempt, maxRetries)
      invariant delays == Backoff(baseDelay, attempt - 1)
      decreases maxRetries - attempt
    {
      var outcome := call(attempt);
      attempts := attempts + 1;
      if outcome.Success? {
        result := Some(outcome.value);
        return;
      }
      if attempt < maxRetries {
        delays := delays + [Wait(baseDelay, attempt - 1)];
      } else {
        assert FirstSuccess(call, attempt + 1, maxRetries).None?;
        return;
      }
      attempt := attempt + 1;
    }
  }

  /**
   * The loop makes at most `max_retries` calls, and it returns a value exactly
   * when one of them succeeds: then it is the value of the first success,
   * which is the last call made.
   */
  lemma RetryOutcome<T>(call: nat -> Outcome<T>, maxRetries: int)
    ensures AttemptsMade(call, maxRetries) <= (if maxRetries > 0 then maxRetries else 0)
    ensures RetryResult(call, maxRetries).Some? <==> exists k :: 1 <= k <= maxRetries && call(k).Success?
    ensures RetryResult(call, maxRetries).Some? ==>
      call(AttemptsMade(call, maxRetries)) == Success(RetryResult(call, maxRetries).value)
    ensures forall k :: 1 <= k < AttemptsMade(call, maxRetries) ==> call(k).Failure?
  {
    FirstSuccessIsFirst(call, 1, maxRetries);
  }

  /** When every attempt fails, all `max_retries` of them are made before giving up. */
  lemma RetryExhausted<T>(call: nat -> Outcome<T>, maxRetries: int)
    requires forall k :: 1 <= k <= maxRetries ==> call(k).Failure?
    ensures RetryResult(call, maxRetries).None?
    ensures AttemptsMade(call, maxRetries) == (if maxRetries > 0 then maxRetries else 0)
  {
    assert FirstSuccess(call, 1, maxRetries).None?;
  }

  function Sum(xs: seq<real>): real {
    if xs == [] then 0.0 else Sum(xs[..|xs| - 1]) + xs[|xs| - 1]
  }

  lemma SumSnoc(xs: seq<real>, x: real)
    ensures Sum(xs + [x]) == Sum(xs) + x
  {
    assert (xs + [x])[..|xs|] == xs;
  }

  /** Each wait doubles the one before it. */
  lemma WaitDoubles(base: real, k: nat)
    ensures Wait(base, k + 1) == 2.0 * Wait(base, k)
  {
    var p := Pow2(k) as real;
    assert Pow2(k + 1) as real == 2.0 * p;
  }

  /** The waits add up to `base * (2 ** n - 1)`, i.e. the next wait minus `base`. */
  lemma {:induction false} BackoffTotal(base: real, n: nat)
    ensures Sum(Backoff(base, n)) == Wait(base, n) - base
  {
    if n > 0 {
      BackoffTotal(base, n - 1);
      var prev := Backoff(base, n - 1);
      var w := Wait(base, n - 1);
      assert Backoff(base, n) == prev + [w];
      SumSnoc(prev, w);
      WaitDoubles(base, n - 1);
    }
  }
}
