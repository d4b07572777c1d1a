/**
 Bounded retries of provider calls, which failures of the ModelArk data plane they replay, and what a
 billed call costs in the end.

 The operation's behaviour on each attempt, the random jitter, and where the caller is cancelled are
 arguments. Delays are exact.
 */
module Retry {
  import opened Prelude
  import Budget

  /** The Retry-After of an error answer: absent or no number; a number of seconds; infinite; or not a number. */
  datatype RetryAfter = Unspecified | Seconds(seconds: real) | Endless | NotANumber

  /** What the error record accepts: no negative delays. */
  predicate Acceptable(r: RetryAfter) {
    !r.NotANumber? && (r.Seconds? ==> r.seconds >= 0.0)
  }

  datatype ErrorFields = ErrorFields(retryable: bool, ambiguous: bool, retryAfter: RetryAfter)

  type ProviderError = e: ErrorFields | Acceptable(e.retryAfter) witness ErrorFields(false, false, Unspecified)

  /** How one call of the operation ended; `Raised` is any other exception. */
  datatype Attempt<T> = Returned(value: T) | Failed(error: ProviderError) | Raised | Cancelled

  datatype RetryPolicy = RetryPolicy(maxAttempts: int, baseDelay: real, maxDelay: real, jitterRatio: real)

  /** What the policy's constructor checks. */
  predicate Valid(policy: RetryPolicy) {
    policy.maxAttempts >= 1 && policy.baseDelay >= 0.0 && policy.maxDelay >= 0.0 && 0.0 <= policy.jitterRatio <= 1.0
  }

  /** Constructing a policy refuses exactly the ones with no attempt, a negative delay, or jitter outside [0, 1]. */
  method MakePolicy(maxAttempts: int, baseDelay: real, maxDelay: real, jitterRatio: real) returns (policy: Option<RetryPolicy>)
    ensures policy.None? <==> maxAttempts < 1 || baseDelay < 0.0 || maxDelay < 0.0 || jitterRatio < 0.0 || jitterRatio > 1.0
    ensures policy.Some? ==> Valid(policy.value) && policy.value == RetryPolicy(maxAttempts, baseDelay, maxDelay, jitterRatio)
  {
    if maxAttempts < 1 || baseDelay < 0.0 || maxDelay < 0.0 || !(0.0 <= jitterRatio <= 1.0) {
      return None;
    }
    policy := Some(RetryPolicy(maxAttempts, baseDelay, maxDelay, jitterRatio));
  }

  function Min(x: real, y: real): real {
    if x <= y then x else y
  }

  function Pow2(n: nat): real {
    if n == 0 then 1.0 else 2.0 * Pow2(n - 1)
  }

  function Doubled(policy: RetryPolicy, times: nat): real {
    policy.baseDelay * Pow2(times)
  }

  function Jittered(base: real, ratio: real, random: real): real {
    base + base * ratio * (random * 2.0 - 1.0)
  }

  /** The pause after failed attempt number `attempt`; `random` is in [0, 1). */
  function Delay(policy: RetryPolicy, attempt: nat, error: ProviderError, random: real): real
    requires attempt >= 1
  {
    match error.retryAfter {
      case Seconds(seconds) => Min(seconds, policy.maxDelay)
      case Endless => policy.maxDelay
      case Unspecified =>
        var base := Min(Doubled(policy, attempt - 1), policy.maxDelay);
        var delay := Jittered(base, policy.jitterRatio, random);
        if delay >= 0.0 then delay else 0.0
    }
  }

  /** A failure that another attempt may follow. */
  predicate Replayable<T>(a: Attempt<T>) {
    a.Failed? && a.error.retryable && !a.error.ambiguous
  }

  function Sum(delays: seq<real>): real {
    if delays == [] then 0.0 else Sum(delays[..|delays| - 1]) + delays[|delays| - 1]
  }

  /** The last of `calls` attempts is followed by another one unless the caller is cancelled. */
  predicate GoesOn<T>(operation: nat -> Attempt<T>, policy: RetryPolicy, calls: nat) {
    Replayable(operation(calls)) && calls < policy.maxAttempts
  }

  /**
   What a retried call may do: every attempt but the last failed replayably and its pause was not
   cancelled; the last one ended it, or a cancelled pause did.
   */
  ghost predicate RetryRun<T>(operation: nat -> Attempt<T>, policy: RetryPolicy, cancelled: nat -> bool, calls: nat, result: Attempt<T>) {
    && 1 <= calls <= policy.maxAttempts
    && (forall k | 1 <= k < calls :: Replayable(operation(k)) && !cancelled(k))
    && (if GoesOn(operation, policy, calls) then cancelled(calls) && result == Cancelled else result == operation(calls))
  }

  /** That says exactly how often the operation is called and what comes back. */
  lemma RetryRunIsUnique<T>(operation: nat -> Attempt<T>, policy: RetryPolicy, cancelled: nat -> bool,
                            calls: nat, result: Attempt<T>, calls': nat, result': Attempt<T>)
    requires RetryRun(operation, policy, cancelled, calls, result) && RetryRun(operation, policy, cancelled, calls', result')
    ensures calls == calls' && result == result'
  {
    assert calls < calls' ==> Replayable(operation(calls)) && !cancelled(calls);
    assert calls' < calls ==> Replayable(operation(calls')) && !cancelled(calls');
  }

  /** Doubling from the base delay on, up to the maximum. */
  ghost function Backoff(policy: RetryPolicy, attempt: nat): real
    requires attempt >= 1
  {
    if attempt == 1 then Min(policy.baseDelay, policy.maxDelay)
    else Min(2.0 * Backoff(policy, attempt - 1), policy.maxDelay)
  }

  /** From `base` less the jitter to `base` plus the jitter, as `random` goes from zero to one. */
  function Spread(base: real, ratio: real, random: real): real {
    base * (1.0 - ratio + 2.0 * ratio * random)
  }

  /**
   What a pause has to be: the time that the provider asked for, up to the maximum; or, if it did not
   ask, the backoff, spread evenly by the jitter.
   */
  ghost predicate Paused(policy: RetryPolicy, requested: RetryAfter, attempt: nat, random: real, pause: real)
    requires attempt >= 1
  {
    match requested {
      case Seconds(s) => pause == Min(s, policy.maxDelay)
      case Endless => pause == policy.maxDelay
      case Unspecified =>
        0.0 <= random < 1.0 ==> pause == Spread(Backoff(policy, attempt), policy.jitterRatio, random)
      case NotANumber => false
    }
  }

  lemma DoublesEveryTime(policy: RetryPolicy, n: nat)
    ensures Doubled(policy, 0) == policy.baseDelay
    ensures Doubled(policy, n + 1) == 2.0 * Doubled(policy, n)
  {
    var power := Pow2(n);
    assert policy.baseDelay * (2.0 * power) == 2.0 * (policy.baseDelay * power);
  }

  lemma {:induction false} BackoffNonNegative(policy: RetryPolicy, attempt: nat)
    requires Valid(policy) && attempt >= 1
    ensures 0.0 <= Backoff(policy, attempt) <= policy.maxDelay
  {
    if attempt == 1 {
    } else {
      BackoffNonNegative(policy, attempt - 1);
    }
  }

  lemma {:induction false} BackoffIsPower(policy: RetryPolicy, attempt: nat)
    requires Valid(policy) && attempt >= 1
    ensures Backoff(policy, attempt) == Min(Doubled(policy, attempt - 1), policy.maxDelay)
  {
    hide Doubled;
    if attempt == 1 {
      DoublesEveryTime(policy, 0);
    } else {
      BackoffIsPower(policy, attempt - 1);
      DoublesEveryTime(policy, attempt - 2);
    }
  }

  lemma ProductNonNegative(x: real, y: real)
    requires x >= 0.0 && y >= 0.0
    ensures x * y >= 0.0
  {
  }

  lemma SpreadEvenly(base: real, ratio: real, random: real)
    requires base >= 0.0 && 0.0 <= ratio <= 1.0 && 0.0 <= random < 1.0
    ensures Jittered(base, ratio, random) == Spread(base, ratio, random)
    ensures base * (1.0 - ratio) <= Spread(base, ratio, random) <= base * (1.0 + ratio)
    ensures Spread(base, ratio, random) >= 0.0
  {
    ProductNonNegative(ratio, random);
    ProductNonNegative(ratio, 1.0 - random);
    ProductNonNegative(base, 2.0 * ratio * random);
    ProductNonNegative(base, 2.0 * ratio * (1.0 - random));
    ProductNonNegative(base, 1.0 - ratio);
    assert base * (1.0 + ratio) == base * (1.0 - ratio + 2.0 * ratio * random) + base * (2.0 * ratio * (1.0 - random));
    assert base * (1.0 - ratio + 2.0 * ratio * random) == base * (1.0 - ratio) + base * (2.0 * ratio * random);
  }

  lemma DelayIsExact(policy: RetryPolicy, attempt: nat, error: ProviderError, random: real)
    requires Valid(policy) && attempt >= 1
    ensures Paused(policy, error.retryAfter, attempt, random, Delay(policy, attempt, error, random))
  {
    if error.retryAfter.Unspecified? && 0.0 <= random < 1.0 {
      hide Jittered, Backoff, Doubled, Spread;
      BackoffIsPower(policy, attempt);
      BackoffNonNegative(policy, attempt);
      SpreadEvenly(Backoff(policy, attempt), policy.jitterRatio, random);
    }
  }

  /** Retries as `RetryRun` says, pausing after every attempt but the last. `cancelled` tells which pauses are cancelled. */
  method CallWithRetry<T>(operation: nat -> Attempt<T>, policy: RetryPolicy, random: nat -> real, cancelled: nat -> bool)
    returns (result: Attempt<T>, calls: nat, sleeps: seq<real>)
    requires Valid(policy)
    ensures RetryRun(operation, policy, cancelled, calls, result)
    ensures |sleeps| == calls - 1
    ensures forall k | 1 <= k < calls :: operation(k).Failed? && operation(k).error.retryable && !operation(k).error.ambiguous
    ensures forall k | 1 <= k < calls :: Paused(policy, operation(k).error.retryAfter, k, random(k), sleeps[k - 1])
    ensures forall k | 1 <= k < calls && operation(k).error.retryAfter.Seconds? ::
              var s := operation(k).error.retryAfter.seconds;
              sleeps[k - 1] == if s <= policy.maxDelay then s else policy.maxDelay
    ensures forall k | 1 <= k < calls && operation(k).error.retryAfter.Endless? :: sleeps[k - 1] == policy.maxDelay
  {
    sleeps := [];
    var attempt: nat := 1;
    while true
      invariant 1 <= attempt <= policy.maxAttempts && |sleeps| == attempt - 1
      invariant forall k | 1 <= k < attempt :: Replayable(operation(k)) && !cancelled(k)
      invariant forall k | 1 <= k < attempt :: Paused(policy, operation(k).error.retryAfter, k, random(k), sleeps[k - 1])
      decreases policy.maxAttempts - attempt
    {
      result := operation(attempt);
      if !result.Failed? {
        return result, attempt, sleeps;
      }
      var error := result.error;
      if !(error.retryable && !error.ambiguous && attempt < policy.maxAttempts) {
        return result, attempt, sleeps;
      }
      var delay := Delay(policy, attempt, error, random(attempt));
      DelayIsExact(policy, attempt, error, random(attempt));
      if cancelled(attempt) {
        return Cancelled, attempt, sleeps;
      }
      sleeps := sleeps + [delay];
      attempt := attempt + 1;
    }
  }

  /** The maximum delay with full jitter. */
  function LongestDelay(policy: RetryPolicy): real {
    policy.maxDelay * (1.0 + policy.jitterRatio)
  }

  lemma LongestIsLongest(policy: RetryPolicy, base: real)
    requires Valid(policy) && 0.0 <= base <= policy.maxDelay
    ensures base * (1.0 + policy.jitterRatio) <= LongestDelay(policy) && policy.maxDelay <= LongestDelay(policy)
  {
    ProductNonNegative(policy.maxDelay - base, 1.0 + policy.jitterRatio);
    ProductNonNegative(policy.maxDelay, policy.jitterRatio);
  }

  /**
   The bounds of one pause: a requested one is the requested time exactly, up to the maximum; another one
   lies within the jitter around the backoff; none is negative or longer than the maximum with full jitter.
   */
  lemma DelayIsBounded(policy: RetryPolicy, requested: RetryAfter, attempt: nat, random: real, pause: real)
    requires Valid(policy) && attempt >= 1 && 0.0 <= random < 1.0 && Acceptable(requested)
    requires Paused(policy, requested, attempt, random, pause)
    ensures requested.Seconds? && requested.seconds <= policy.maxDelay ==> pause == requested.seconds
    ensures requested.Seconds? && requested.seconds > policy.maxDelay ==> pause == policy.maxDelay
    ensures requested.Unspecified? ==>
      Backoff(policy, attempt) * (1.0 - policy.jitterRatio) <= pause <= Backoff(policy, attempt) * (1.0 + policy.jitterRatio)
    ensures 0.0 <= pause <= LongestDelay(policy)
  {
    hide Backoff, LongestDelay, Jittered, Spread;
    BackoffNonNegative(policy, attempt);
    SpreadEvenly(Backoff(policy, attempt), policy.jitterRatio, random);
    LongestIsLongest(policy, Backoff(policy, attempt));
  }

  /** Without jitter and without requests, the first pause is the base delay and each one is twice the one before, up to the maximum. */
  lemma PausesDouble<T>(operation: nat -> Attempt<T>, policy: RetryPolicy, random: nat -> real, calls: nat, sleeps: seq<real>)
    requires Valid(policy) && policy.jitterRatio == 0.0 && |sleeps| == calls - 1
    requires forall k | 1 <= k < calls ::
               && operation(k).Failed? && operation(k).error.retryAfter.Unspecified? && 0.0 <= random(k) < 1.0
               && Paused(policy, operation(k).error.retryAfter, k, random(k), sleeps[k - 1])
    ensures calls > 1 ==> sleeps[0] == Min(policy.baseDelay, policy.maxDelay)
    ensures forall i | 1 <= i < |sleeps| :: sleeps[i] == Min(2.0 * sleeps[i - 1], policy.maxDelay)
  {
    forall i | 0 <= i < |sleeps| ensures sleeps[i] == Backoff(policy, i + 1) {
      var k := i + 1;
      assert Paused(policy, operation(k).error.retryAfter, k, random(k), sleeps[k - 1]);
    }
  }

  lemma {:induction false} SumIsBounded(delays: seq<real>, bound: real)
    requires forall d <- delays :: 0.0 <= d <= bound
    ensures 0.0 <= Sum(delays) <= |delays| as real * bound
  {
    if delays == [] {
    } else {
      var n := |delays| - 1;
      assert delays[n] in delays && forall d <- delays[..n] :: d in delays;
      SumIsBounded(delays[..n], bound);
      assert |delays| as real * bound == n as real * bound + bound;
    }
  }

  lemma LongestDelayNonNegative(policy: RetryPolicy)
    requires Valid(policy)
    ensures LongestDelay(policy) >= 0.0
  {
    ProductNonNegative(policy.maxDelay, policy.jitterRatio);
  }

  lemma MoreOf(few: nat, many: nat, x: real)
    requires few <= many && x >= 0.0
    ensures few as real * x <= many as real * x
  {
    ProductNonNegative((many - few) as real, x);
  }

  /** All pauses of one retried call together, given what `CallWithRetry` says of each. */
  lemma TotalSleepIsBounded<T>(operation: nat -> Attempt<T>, policy: RetryPolicy, random: nat -> real, calls: nat, sleeps: seq<real>)
    requires Valid(policy) && 1 <= calls <= policy.maxAttempts && |sleeps| == calls - 1
    requires forall k | 1 <= k < calls :: operation(k).Failed? && 0.0 <= random(k) < 1.0
    requires forall k | 1 <= k < calls :: Paused(policy, operation(k).error.retryAfter, k, random(k), sleeps[k - 1])
    ensures 0.0 <= Sum(sleeps) <= (policy.maxAttempts - 1) as real * LongestDelay(policy)
  {
    hide Paused, LongestDelay;
    var bound := LongestDelay(policy);
    forall d <- sleeps ensures 0.0 <= d <= bound {
      var i :| 0 <= i < |sleeps| && sleeps[i] == d;
      var k := i + 1;
      assert Paused(policy, operation(k).error.retryAfter, k, random(k), sleeps[k - 1]);
      DelayIsBounded(policy, operation(k).error.retryAfter, k, random(k), sleeps[k - 1]);
    }
    SumIsBounded(sleeps, bound);
    LongestDelayNonNegative(policy);
    MoreOf(|sleeps|, policy.maxAttempts - 1, bound);
  }

  // ---------------------------------------------------------------------
  // ModelArk
  // ---------------------------------------------------------------------

  /** A JSON value: a text, an object, or a number, a truth value, null or an array. */
  datatype Json = Text(text: string) | Object(fields: map<string, Json>) | OtherJson

  /** The body of an error answer; bytes in no encoding that JSON allows are `Undecodable`. */
  datatype ErrorBody = JsonBody(json: Json) | NotJson | Undecodable

  /** Where the code looks for the message of an error. */
  function ErrorObject(json: Json): Json {
    match json {
      case Object(fields) => if "error" in fields then fields["error"] else json
      case _ => Object(map[])
    }
  }

  /** Whether an error record can be made of the body: the message it carries, if it carries one, is a text. */
  predicate Readable(body: ErrorBody) {
    match body {
      case NotJson => true
      case Undecodable => false
      case JsonBody(json) =>
        var error := ErrorObject(json);
        error.Object? && "message" in error.fields ==> error.fields["message"].Text?
    }
  }

  /** What the service makes of a body on the success path; one that does not look at the body always parses it. */
  datatype Body<T> = Parsed(value: T) | Unparsable | WrongShape

  /** What one HTTP exchange did. Whether a request that got no answer had been sent is known to nobody here. */
  datatype Wire<T> =
    | Accepted(body: Body<T>)                                          // status below 400
    | Refused(status: nat, error: ErrorBody, retryAfter: RetryAfter)   // status 400 and above
    | Garbled(status: nat)                                             // the content encoding is broken
    | TimedOut(sent: bool)
    | ConnectFailed
    | TransportFailed(sent: bool)
    | Interrupted(sent: bool)                                          // the caller is cancelled

  const MUTATIONS: set<string> := {"generate_image", "create_task", "delete_task", "chat_completion"}

  /** The normalized error of an error answer, or the exception that normalizing it raises. */
  function NormalizeError<T>(operation: string, status: nat, body: ErrorBody, retryAfter: RetryAfter): Attempt<T> {
    if !Readable(body) || !Acceptable(retryAfter) then Raised
    else Failed(ErrorFields(status == 429 || status >= 500, operation in MUTATIONS && status >= 500, retryAfter))
  }

  /**
   Exactly what keeps an error answer from becoming an error record: a body that cannot be decoded; a JSON
   object whose message - that of its `error` object, if it has one, else its own - is not a text; or a
   Retry-After that is negative or not a number.
   */
  lemma AnswerRaisesExactly<T>(operation: string, status: nat, body: ErrorBody, retryAfter: RetryAfter)
    ensures NormalizeError<T>(operation, status, body, retryAfter) == Raised <==>
            || body == Undecodable
            || (body.JsonBody? && body.json.Object? && "error" in body.json.fields && body.json.fields["error"].Object?
                && "message" in body.json.fields["error"].fields && !body.json.fields["error"].fields["message"].Text?)
            || (body.JsonBody? && body.json.Object? && "error" !in body.json.fields
                && "message" in body.json.fields && !body.json.fields["message"].Text?)
            || retryAfter == NotANumber || (retryAfter.Seconds? && retryAfter.seconds < 0.0)
  {
  }

  function Normalize<T>(operation: string, wire: Wire<T>): Attempt<T> {
    match wire {
      case Accepted(Parsed(value)) => Returned(value)
      case Accepted(Unparsable) => Failed(ErrorFields(false, false, Unspecified))
      case Accepted(WrongShape) => Raised
      case Refused(status, body, retryAfter) => NormalizeError(operation, status, body, retryAfter)
      case Garbled(_) => Raised
      case TimedOut(_) => Failed(ErrorFields(false, true, Unspecified))
      case ConnectFailed => Failed(ErrorFields(true, false, Unspecified))
      case TransportFailed(_) => Failed(ErrorFields(true, false, Unspecified))
      case Interrupted(_) => Cancelled
    }
  }

  function Attempts<T>(operation: string, wires: nat -> Wire<T>): nat -> Attempt<T> {
    (k: nat) => Normalize(operation, wires(k))
  }

  /** Exactly the exchanges after which the operation is sent again. */
  predicate SentAgain<T>(operation: string, wire: Wire<T>) {
    match wire {
      case Refused(status, body, retryAfter) =>
        Readable(body) && Acceptable(retryAfter) && (status == 429 || (status >= 500 && operation !in MUTATIONS))
      case ConnectFailed => true
      case TransportFailed(_) => true
      case _ => false
    }
  }

  lemma ReplayableMeansSentAgain<T>(operation: string, wire: Wire<T>)
    ensures Replayable(Normalize(operation, wire)) <==> SentAgain(operation, wire)
  {
  }

  /** The error of an answer keeps its Retry-After; the other errors ask for nothing. */
  lemma RequestIsKept<T>(operation: string, wire: Wire<T>)
    requires Normalize(operation, wire).Failed?
    ensures Normalize(operation, wire).error.retryAfter == if wire.Refused? then wire.retryAfter else Unspecified
  {
  }

  /** The provider may have carried the operation out: it was sent, and no answer rules that out. */
  predicate MayHaveExecuted<T>(wire: Wire<T>) {
    match wire {
      case Accepted(_) => true
      case Refused(status, _, _) => status >= 500
      case Garbled(status) => status < 400 || status >= 500
      case ConnectFailed => false
      case _ => wire.sent
    }
  }

  /** Some of the first `calls` exchanges may have been carried out. */
  ghost predicate SomeExecuted<T>(wires: nat -> Wire<T>, calls: nat) {
    exists k | 1 <= k <= calls :: MayHaveExecuted(wires(k))
  }

  /**
   A ModelArk operation under retry: no timeout and no accepted request is ever followed by another
   send, and for a mutation no 5xx answer either. A send follows exactly the exchanges that
   `SentAgain` lists, up to the attempt limit and the caller's cancellation; before it, the caller pauses
   as long as the answer's Retry-After asks for.
   */
  method CallModelArk<T>(operation: string, wires: nat -> Wire<T>, policy: RetryPolicy, random: nat -> real, cancelled: nat -> bool)
    returns (result: Attempt<T>, calls: nat, sleeps: seq<real>)
    requires Valid(policy)
    ensures RetryRun(Attempts(operation, wires), policy, cancelled, calls, result)
    ensures |sleeps| == calls - 1
    ensures forall k | 1 <= k < calls ::
              Paused(policy, if wires(k).Refused? then wires(k).retryAfter else Unspecified, k, random(k), sleeps[k - 1])
    ensures forall k | 1 <= k < calls :: SentAgain(operation, wires(k)) && !wires(k).TimedOut? && !wires(k).Accepted?
    ensures operation in MUTATIONS ==> forall k | 1 <= k < calls :: wires(k).Refused? ==> wires(k).status == 429
    ensures calls == policy.maxAttempts || cancelled(calls) || !SentAgain(operation, wires(calls))
  {
    hide Paused;
    var attempts := Attempts(operation, wires);
    result, calls, sleeps := CallWithRetry(attempts, policy, random, cancelled);
    forall k | 1 <= k <= calls ensures Replayable(attempts(k)) <==> SentAgain(operation, wires(k)) {
      ReplayableMeansSentAgain(operation, wires(k));
    }
    forall k | 1 <= k < calls
      ensures Paused(policy, if wires(k).Refused? then wires(k).retryAfter else Unspecified, k, random(k), sleeps[k - 1])
    {
      assert Replayable(attempts(k));
      RequestIsKept(operation, wires(k));
    }
  }

  /**
   "Never send a mutation twice when the first may have been carried out" holds but for one exchange:
   a connection that breaks after the request was sent is reported as retryable and unambiguous.
   */
  lemma MutationReplayIsSafeExcept<T>(operation: string, wire: Wire<T>)
    requires operation in MUTATIONS
    ensures SentAgain(operation, wire) && MayHaveExecuted(wire) <==> wire == TransportFailed(true)
  {
  }

  // ---------------------------------------------------------------------
  // What a billed mutation costs
  // ---------------------------------------------------------------------

  /** How a billed call's body ends when the retried call ended like this. */
  function Ending<T>(attempt: Attempt<T>): Budget.Ending {
    match attempt {
      case Returned(_) => Budget.Succeeded
      case Failed(error) => if error.ambiguous then Budget.AmbiguousError else Budget.OtherProviderError
      case Raised => Budget.OtherException
      case Cancelled => Budget.Cancelled
    }
  }

  /** The last exchanges that charge a mutation: success, a timeout, and a 5xx answer that can be made into an error record. */
  predicate Charges<T>(wire: Wire<T>) {
    match wire {
      case Accepted(body) => body.Parsed?
      case Refused(status, body, retryAfter) => status >= 500 && Readable(body) && Acceptable(retryAfter)
      case TimedOut(_) => true
      case _ => false
    }
  }

  /** The exchanges of one mutation, retried to its end. */
  ghost predicate MutationRun<T>(operation: string, wires: nat -> Wire<T>, policy: RetryPolicy, cancelled: nat -> bool,
                                 calls: nat, result: Attempt<T>) {
    operation in MUTATIONS && RetryRun(Attempts(operation, wires), policy, cancelled, calls, result)
  }

  /** The whole history of a mutation that may have been executed: a broken connection on the way, or the last exchange. */
  lemma WhatMayHaveExecuted<T>(operation: string, wires: nat -> Wire<T>, policy: RetryPolicy, cancelled: nat -> bool,
                               calls: nat, result: Attempt<T>)
    requires MutationRun(operation, wires, policy, cancelled, calls, result)
    ensures SomeExecuted(wires, calls) <==>
            MayHaveExecuted(wires(calls)) || exists k | 1 <= k < calls :: wires(k) == TransportFailed(true)
    ensures forall k | 1 <= k < calls :: MayHaveExecuted(wires(k)) <==> wires(k) == TransportFailed(true)
  {
    var attempts := Attempts(operation, wires);
    forall k | 1 <= k < calls ensures MayHaveExecuted(wires(k)) <==> wires(k) == TransportFailed(true) {
      assert Replayable(attempts(k));
      ReplayableMeansSentAgain(operation, wires(k));
      MutationReplayIsSafeExcept(operation, wires(k));
    }
    if SomeExecuted(wires, calls) {
      var k :| 1 <= k <= calls && MayHaveExecuted(wires(k));
      assert k < calls ==> wires(k) == TransportFailed(true);
    }
  }

  /** The caller was cancelled, inside the last exchange or in the pause after it. */
  predicate WasCancelled<T>(operation: string, wires: nat -> Wire<T>, policy: RetryPolicy, calls: nat) {
    wires(calls).Interrupted? || GoesOn(Attempts(operation, wires), policy, calls)
  }

  /** The last exchange alone decides the settlement. */
  lemma WhatIsSettled<T>(operation: string, wires: nat -> Wire<T>, policy: RetryPolicy, cancelled: nat -> bool,
                         calls: nat, result: Attempt<T>)
    requires MutationRun(operation, wires, policy, cancelled, calls, result)
    ensures Budget.Settlement(Ending(result)) ==
            if WasCancelled(operation, wires, policy, calls) then None
            else if Charges(wires(calls)) then Some(Budget.Committed) else Some(Budget.Released)
  {
    var attempts := Attempts(operation, wires);
    assert attempts(calls) == Normalize(operation, wires(calls));
  }

  /**
   The last exchanges that may have been carried out and do not charge: a connection that broke after
   sending, an accepted request with an unusable body, a 5xx answer that no error record can be made of,
   and a garbled answer other than a 4xx.
   */
  predicate LosesExecution<T>(wire: Wire<T>) {
    match wire {
      case Accepted(body) => body.Unparsable? || body.WrongShape?
      case Refused(status, error, retryAfter) => status >= 500 && !(Readable(error) && Acceptable(retryAfter))
      case Garbled(status) => status < 400 || status >= 500
      case TransportFailed(sent) => sent
      case _ => false
    }
  }

  /**
   Over all the exchanges of a retried mutation: its reservation is released although it may have been
   carried out exactly when the caller was not cancelled, and the last exchange loses an execution, or
   does not charge after a connection on the way broke after sending.
   */
  lemma ReleasedThoughExecuted<T>(operation: string, wires: nat -> Wire<T>, policy: RetryPolicy, cancelled: nat -> bool,
                                  calls: nat, result: Attempt<T>)
    requires MutationRun(operation, wires, policy, cancelled, calls, result)
    ensures Budget.Settlement(Ending(result)) == Some(Budget.Released) && SomeExecuted(wires, calls) <==>
            && !WasCancelled(operation, wires, policy, calls)
            && (LosesExecution(wires(calls))
                || (!Charges(wires(calls)) && exists k | 1 <= k < calls :: wires(k) == TransportFailed(true)))
  {
    WhatMayHaveExecuted(operation, wires, policy, cancelled, calls, result);
    WhatIsSettled(operation, wires, policy, cancelled, calls, result);
  }

  /** It happens: the connection breaks after sending, and the second attempt is turned down. */
  lemma BrokenConnectionGoesUncharged<T>(operation: string, wires: nat -> Wire<T>, policy: RetryPolicy, cancelled: nat -> bool)
    requires operation in MUTATIONS && policy.maxAttempts >= 2 && !cancelled(1)
    requires wires(1) == TransportFailed(true) && wires(2) == Refused(400, NotJson, Unspecified)
    ensures var result := Normalize(operation, wires(2));
            && MutationRun(operation, wires, policy, cancelled, 2, result)
            && Budget.Settlement(Ending(result)) == Some(Budget.Released) && SomeExecuted(wires, 2)
  {
    var attempts := Attempts(operation, wires);
    assert Replayable(attempts(1)) && !Replayable(attempts(2));
    assert MayHaveExecuted(wires(1));
  }

  /** It is charged although it cannot have been carried out exactly when its last request timed out before it was sent, and none before it was sent in vain. */
  lemma ChargedThoughNotExecuted<T>(operation: string, wires: nat -> Wire<T>, policy: RetryPolicy, cancelled: nat -> bool,
                                    calls: nat, result: Attempt<T>)
    requires MutationRun(operation, wires, policy, cancelled, calls, result)
    ensures Budget.Settlement(Ending(result)) == Some(Budget.Committed) && !SomeExecuted(wires, calls) <==>
            wires(calls) == TimedOut(false) && forall k | 1 <= k < calls :: wires(k) != TransportFailed(true)
  {
    WhatMayHaveExecuted(operation, wires, policy, cancelled, calls, result);
    WhatIsSettled(operation, wires, policy, cancelled, calls, result);
  }

  /**
   A billed, retried mutation against the ledger: the row it leaves, and exactly when that row is
   released although some exchange may have been carried out.
   */
  method BilledMutation<T>(ledger: Budget.BudgetLedger, owner: Principal, product: string, amount: Budget.Amount, day: int,
                           operation: string, wires: nat -> Wire<T>, policy: RetryPolicy, random: nat -> real,
                           cancelled: nat -> bool, settles: bool)
    returns (calls: nat)
    requires ledger.Valid() && Valid(policy) && operation in MUTATIONS
    modifies ledger
    ensures ledger.Valid()
    ensures calls == 0 <==>
      ledger.limit.Some? && var scope := Budget.Scope(day, owner.Identity());
                            old(Budget.Total(ledger.rows, scope, Budget.Reserved) + Budget.Total(ledger.rows, scope, Budget.Committed)) + amount
                            > ledger.limit.value
    ensures calls == 0 ==> ledger.rows == old(ledger.rows)
    ensures calls > 0 ==>
      && |ledger.rows| == |old(ledger.rows)| + 1 && ledger.rows[..|old(ledger.rows)|] == old(ledger.rows)
      && var row := ledger.rows[|old(ledger.rows)|];
      && row.amount == amount && row.owner == owner.Identity() && row.day == day
      && (row.status == Budget.Released && SomeExecuted(wires, calls) <==>
            && settles && !WasCancelled(operation, wires, policy, calls)
            && (LosesExecution(wires(calls))
                || (!Charges(wires(calls)) && exists k | 1 <= k < calls :: wires(k) == TransportFailed(true))))
  {
    hide Charges, LosesExecution, WasCancelled, SomeExecuted, Budget.Usage, Budget.WithStatus;
    ghost var before := ledger.rows;
    var id := ledger.Reserve(owner, product, amount, day);
    if id.None? {
      return 0;
    }
    ghost var reserved := ledger.rows[|before|];
    var result: Attempt<T>;
    var sleeps;
    result, calls, sleeps := CallModelArk(operation, wires, policy, random, cancelled);
    ReleasedThoughExecuted(operation, wires, policy, cancelled, calls, result);
    Budget.SettleReserved(before, reserved, Ending(result), settles);
    Budget.SettleCall(ledger, id.value, Ending(result), settles);
    assert ledger.rows[..|before|] == before;
  }
}
