/** Calling a model with a few quick retries on transient failures. */
module Retry {
  /** What one call may come to; a ServerError is any 5xx. */
  datatype Outcome<T> = Value(value: T) | ServerError | ApiError(code: int) | OtherError

  datatype Result<T> = Returned(value: T) | Raised(error: Outcome<T>) | Nothing

  predicate Transient<T>(o: Outcome<T>) {
    o.ServerError? || (o.ApiError? && o.code in {429, 503})
  }

  function Delivered<T>(o: Outcome<T>): Result<T> {
    if o.Value? then Returned(o.value) else Raised(o)
  }

  /** What is slept over `n` retries: the k-th waits k times the base delay. */
  function Slept(baseDelay: real, n: nat): real {
    if n == 0 then 0.0 else Slept(baseDelay, n - 1) + baseDelay * n as real
  }

  /** What is slept between `calls` calls. */
  function SleptOver(baseDelay: real, calls: nat): real {
    if calls == 0 then 0.0 else Slept(baseDelay, calls - 1)
  }

  /** What the first `n` calls come to. */
  function FirstCalls<T>(outcomes: nat -> Outcome<T>, n: nat): (made: seq<Outcome<T>>)
    ensures |made| == n && forall k: nat | k < n :: made[k] == outcomes(k)
  {
    seq(n, k requires 0 <= k < n => outcomes(k))
  }

  /** These are all the calls made: up to the first outcome that is not transient, within the budget. */
  predicate CallsMade<T>(made: seq<Outcome<T>>, maxRetries: int) {
    && |made| <= maxRetries + 1
    && (forall k | 0 <= k < |made| - 1 :: Transient(made[k]))
    && (|made| < maxRetries + 1 ==> made != [] && !Transient(made[|made| - 1]))
  }

  lemma CallsStop<T>(outcomes: nat -> Outcome<T>, m: nat, n: nat)
    requires m > 0 && !Transient(outcomes(m - 1)) && forall k: nat | k < n - 1 :: Transient(outcomes(k))
    ensures n <= m
  {
  }

  lemma AllButLastAreTransient<T>(outcomes: nat -> Outcome<T>, maxRetries: int, n: nat)
    requires CallsMade(FirstCalls(outcomes, n), maxRetries)
    ensures forall k: nat | k < n - 1 :: Transient(outcomes(k))
    ensures n < maxRetries + 1 ==> n > 0 && !Transient(outcomes(n - 1))
  {
    forall k: nat | k < n - 1
      ensures Transient(outcomes(k))
    {
      assert FirstCalls(outcomes, n)[k] == outcomes(k);
    }
  }

  /** The number of calls is determined by the outcomes and the budget. */
  lemma CallsMadeOnce<T>(outcomes: nat -> Outcome<T>, maxRetries: int, m: nat, n: nat)
    requires CallsMade(FirstCalls(outcomes, m), maxRetries) && CallsMade(FirstCalls(outcomes, n), maxRetries)
    ensures m == n
  {
    AllButLastAreTransient(outcomes, maxRetries, m);
    AllButLastAreTransient(outcomes, maxRetries, n);
    if m < maxRetries + 1 {
      CallsStop(outcomes, m, n);
    }
    if n < maxRetries + 1 {
      CallsStop(outcomes, n, m);
    }
  }

  /** A failure on the side of the server, or one of the codes for "too many requests" and "unavailable". */
  predicate WorthRetrying<T>(o: Outcome<T>) {
    o == ServerError || o == ApiError(429) || o == ApiError(503)
  }

  /** A call is made again exactly after such a failure, as long as there are retries left. */
  lemma RetriedExactlyAfter<T>(made: seq<Outcome<T>>, maxRetries: nat)
    ensures CallsMade(made, maxRetries)
            <==> && 0 < |made| <= maxRetries + 1
                 && (forall k | 0 <= k < |made| - 1 :: WorthRetrying(made[k]))
                 && (WorthRetrying(made[|made| - 1]) ==> |made| == maxRetries + 1)
  {
    assert forall o: Outcome<T> :: Transient(o) <==> WorthRetrying(o);
  }

  /** `outcomes(k)` is what the k-th call would come to. */
  method CallWithRetry<T>(outcomes: nat -> Outcome<T>, maxRetries: int, baseDelay: real)
    returns (result: Result<T>, calls: nat, slept: real)
    ensures maxRetries < 0 ==> result == Nothing && calls == 0 && slept == 0.0
    ensures maxRetries >= 0 ==>
              && calls > 0 && CallsMade(FirstCalls(outcomes, calls), maxRetries)
              && (if outcomes(calls - 1).Value? then result == Returned(outcomes(calls - 1).value)
                  else result == Raised(outcomes(calls - 1)))
              && slept == SleptOver(baseDelay, calls)
  {
    var attempt := 0;
    var lastError := Nothing;
    calls, slept := 0, 0.0;
    while attempt < maxRetries + 1
      invariant calls == attempt && attempt <= if maxRetries >= 0 then maxRetries else 0
      invariant forall k | 0 <= k < attempt :: Transient(outcomes(k))
      invariant maxRetries < 0 ==> lastError == Nothing && slept == 0.0
      invariant slept == Slept(baseDelay, attempt)
    {
      var outcome := outcomes(attempt);
      calls := calls + 1;
      if !Transient(outcome) {
        return Delivered(outcome), calls, slept;
      }
      lastError := Delivered(outcome);
      if attempt >= maxRetries {
        break;
      }
      slept := slept + baseDelay * (attempt + 1) as real;
      attempt := attempt + 1;
    }
    result := lastError;
  }

  lemma {:induction false} SleptInTotal(baseDelay: real, n: nat)
    ensures 2.0 * Slept(baseDelay, n) == baseDelay * (n * (n + 1)) as real
  {
    if n > 0 {
      SleptInTotal(baseDelay, n - 1);
      assert n * (n + 1) == (n - 1) * n + 2 * n;
      assert (n * (n + 1)) as real == ((n - 1) * n) as real + 2.0 * n as real;
      assert baseDelay * (((n - 1) * n) as real + 2.0 * n as real) == baseDelay * ((n - 1) * n) as real + 2.0 * (baseDelay * n as real);
    }
  }

  lemma Monotone(x: real, a: nat, b: nat)
    requires x >= 0.0 && a <= b
    ensures x * a as real <= x * b as real
  {
  }

  /** With m retries to spend, at most m + 1 calls are made and at most base·m(m + 1)/2 is slept. */
  lemma RetryBudget<T>(made: seq<Outcome<T>>, maxRetries: nat, baseDelay: real)
    requires CallsMade(made, maxRetries) && baseDelay >= 0.0
    ensures |made| <= maxRetries + 1
    ensures 2.0 * SleptOver(baseDelay, |made|) <= baseDelay * (maxRetries * (maxRetries + 1)) as real
  {
    if made != [] {
      var k := |made| - 1;
      SleptInTotal(baseDelay, k);
      assert k * (k + 1) <= maxRetries * (maxRetries + 1);
      Monotone(baseDelay, k * (k + 1), maxRetries * (maxRetries + 1));
    }
  }
}
