/** The retry loop of _Execute, driven by an arbitrary environment. */
module Execute {
  import opened Words

  datatype State = Retry | Finished | Error | Expired | RetryWithAnotherNode

  /** Everything the environment decides in one attempt; errors are opaque numbers. */
  datatype Observation = Observation(
    elapsed: int,                // time.Since(startTime) when the attempt is about to start
    batched: bool,               // isBatchedAndNotBatchTransaction
    nodeFound: bool,             // the node is known to the network
    healthy: bool,
    channelError: Option<nat>,
    callError: Option<nat>,      // gRPC error
    retryable: bool,             // what the retry handler says about callError
    state: State,                // shouldRetry
    status: nat,                 // mapStatusError
    regenerated: bool)           // regenerateID

  datatype Config = Config(maxAttempts: int, minBackoff: int, maxBackoff: int, timeout: int, isTransaction: bool)

  datatype Event = Advance(attempt: nat) | Sleep(attempt: nat, delay: int)

  datatype Outcome =
    | TimedOut | BatchedError | InvalidNode
    | CallFailed(error: nat)
    | StatusFailed(error: nat)
    | Mapped(attempt: nat)
    | Exhausted(latest: Option<nat>)  // None: the generic error

  // ---------------------------------------------------------------- reading one observation

  /** The attempt got as far as a healthy node. */
  predicate Runs(o: Observation) { !o.batched && o.nodeFound && o.healthy }

  predicate Answered(o: Observation) { Runs(o) && o.channelError.None? && o.callError.None? }

  /** Channel failure, gRPC error, or an answer that asks for another node. */
  predicate MovesOn(o: Observation)
  {
    Runs(o) && (o.channelError.Some? || o.callError.Some? || o.state.RetryWithAnotherNode?)
  }

  /** The failure the attempt records for the final report. */
  function Failure(o: Observation): Option<nat>
  {
    if !Runs(o) then None
    else if o.channelError.Some? then o.channelError
    else if o.callError.Some? then o.callError
    else if o.state.Retry? || o.state.RetryWithAnotherNode? then Some(o.status)
    else None
  }

  /** Attempts before which the loop waits: an unhealthy node, or an answer to retry. */
  predicate Waits(o: Observation)
  {
    (!o.batched && o.nodeFound && !o.healthy) || (Answered(o) && o.state.Retry?)
  }

  /** Whether another attempt follows. */
  predicate GoesOn(o: Observation, isTransaction: bool)
  {
    || (!o.batched && o.nodeFound && !o.healthy)
    || (Runs(o) && o.channelError.Some?)
    || (Runs(o) && o.channelError.None? && o.callError.Some? && o.retryable)
    || (Answered(o) && (o.state.Retry? || o.state.RetryWithAnotherNode? || (o.state.Expired? && isTransaction && o.regenerated)))
  }

  /** The most recent failure among the first `n` attempts. */
  function LatestFailure(env: nat -> Observation, n: nat): Option<nat>
  {
    if n == 0 then None
    else if Failure(env(n - 1)).Some? then Failure(env(n - 1))
    else LatestFailure(env, n - 1)
  }

  // ---------------------------------------------------------------- backoff

  /** The delay in force at attempt `k`. */
  function Backoff(min: int, max: int, k: nat): int
  {
    if k == 0 then min
    else if Backoff(min, max, k - 1) <= max then 2 * Backoff(min, max, k - 1)
    else Backoff(min, max, k - 1)
  }

  /** The first exponent at which doubling passes the maximum. */
  function FirstAbove(min: int, max: int): (j: nat)
    requires min > 0
    decreases if min > max then 0 else max - min + 1
  {
    if min > max then 0 else 1 + FirstAbove(2 * min, max)
  }

  function Doubled(min: int, j: nat): int { if j == 0 then min else 2 * Doubled(min, j - 1) }

  lemma {:induction false} DoubledIsPower(min: int, j: nat)
    ensures Doubled(min, j) == min * Pow2(j)
  {
    if j > 0 {
      DoubledIsPower(min, j - 1);
      assert min * (2 * Pow2(j - 1)) == 2 * (min * Pow2(j - 1));
    }
  }

  lemma {:induction false} DoubledShift(min: int, j: nat)
    ensures Doubled(2 * min, j) == Doubled(min, j + 1)
  {
    if j > 0 { DoubledShift(min, j - 1); }
  }

  lemma {:induction false} FirstAboveIsFirst(min: int, max: int)
    requires min > 0
    ensures Doubled(min, FirstAbove(min, max)) > max
    ensures forall j: nat :: j < FirstAbove(min, max) ==> Doubled(min, j) <= max
    decreases if min > max then 0 else max - min + 1
  {
    if min <= max {
      FirstAboveIsFirst(2 * min, max);
      DoubledShift(min, FirstAbove(2 * min, max));
      forall j: nat | j < FirstAbove(min, max) ensures Doubled(min, j) <= max {
        if j > 0 { DoubledShift(min, j - 1); }
      }
    }
  }

  /** The delay is the minimum doubled once per attempt, until it first exceeds the maximum. */
  lemma BackoffClosedForm(min: int, max: int, k: nat)
    requires min > 0
    ensures var j := FirstAbove(min, max); Backoff(min, max, k) == min * Pow2(if k < j then k else j)
  {
    var j := FirstAbove(min, max);
    BackoffDoubles(min, max, k);
    DoubledIsPower(min, if k < j then k else j);
  }

  lemma {:induction false} BackoffDoubles(min: int, max: int, k: nat)
    requires min > 0
    ensures var j := FirstAbove(min, max); Backoff(min, max, k) == Doubled(min, if k < j then k else j)
  {
    hide FirstAbove;
    FirstAboveIsFirst(min, max);
    if k > 0 { BackoffDoubles(min, max, k - 1); }
  }

  lemma {:induction false} BackoffBound(min: int, max: int, k: nat)
    requires 0 <= min <= max
    ensures 0 <= Backoff(min, max, k) <= 2 * max
    ensures k > 0 ==> Backoff(min, max, k - 1) <= Backoff(min, max, k)
  {
    if k > 0 { BackoffBound(min, max, k - 1); }
  }

  // ---------------------------------------------------------------- the run

  function Count(log: seq<Event>, e: Event): nat
  {
    if log == [] then 0 else Count(log[..|log| - 1], e) + if log[|log| - 1] == e then 1 else 0
  }

  function Slept(log: seq<Event>): int
  {
    if log == [] then 0
    else Slept(log[..|log| - 1]) + (if log[|log| - 1].Sleep? then log[|log| - 1].delay else 0)
  }

  /** What the log of a run of `n` attempts contains: one Advance per attempt that moves on, one Sleep of the
      attempt's backoff per attempt that waits, and nothing else. */
  ghost predicate Logged(cfg: Config, env: nat -> Observation, n: nat, log: seq<Event>)
  {
    && (forall k: nat :: Count(log, Advance(k)) == if k < n && MovesOn(env(k)) then 1 else 0)
    && (forall k: nat, d :: Count(log, Sleep(k, d))
                    == if k < n && Waits(env(k)) && d == Backoff(cfg.minBackoff, cfg.maxBackoff, k) then 1 else 0)
  }

  /** Why the run ended after `n` attempts, the last of which may have decided it. */
  ghost predicate EndsWith(cfg: Config, env: nat -> Observation, n: nat, out: Outcome)
  {
    match out
    case TimedOut =>
      && n < cfg.maxAttempts && env(n).elapsed >= cfg.timeout
      && (n > 0 ==> GoesOn(env(n - 1), cfg.isTransaction))
    case Exhausted(e) =>
      && n >= cfg.maxAttempts && e == LatestFailure(env, n)
      && (n > 0 ==> GoesOn(env(n - 1), cfg.isTransaction))
    case BatchedError => n > 0 && env(n - 1).batched
    case InvalidNode => n > 0 && !env(n - 1).batched && !env(n - 1).nodeFound
    case CallFailed(e) => n > 0 && var o := env(n - 1); Runs(o) && o.channelError.None? && o.callError == Some(e) && !o.retryable
    case StatusFailed(e) =>
      n > 0 && var o := env(n - 1);
      Answered(o) && o.status == e && (o.state.Error? || (o.state.Expired? && !(cfg.isTransaction && o.regenerated)))
    case Mapped(k) => n > 0 && k == n - 1 && Answered(env(k)) && env(k).state.Finished?
  }

  /** A run of `n` attempts ending in `out`: no attempt starts after the time budget or beyond the limit, and
      every attempt but the last one goes on. */
  ghost predicate IsRun(cfg: Config, env: nat -> Observation, n: nat, out: Outcome)
  {
    && (n > 0 ==> n <= cfg.maxAttempts)
    && (forall k :: 0 <= k < n ==> env(k).elapsed < cfg.timeout)
    && (forall k :: 0 <= k < n - 1 ==> GoesOn(env(k), cfg.isTransaction))
    && EndsWith(cfg, env, n, out)
  }

  /** The description leaves no choice: for each environment there is at most one run. */
  lemma RunUnique(cfg: Config, env: nat -> Observation, m: nat, a: Outcome, n: nat, b: Outcome)
    requires IsRun(cfg, env, m, a) && IsRun(cfg, env, n, b)
    ensures m == n && a == b
  {
    NotShorter(cfg, env, m, a, n, b);
    NotShorter(cfg, env, n, b, m, a);
  }

  lemma NotShorter(cfg: Config, env: nat -> Observation, m: nat, a: Outcome, n: nat, b: Outcome)
    requires IsRun(cfg, env, m, a) && IsRun(cfg, env, n, b)
    ensures m >= n
  {
    assert m < n ==> env(m).elapsed < cfg.timeout;
    assert 0 < m < n ==> GoesOn(env(m - 1), cfg.isTransaction);
  }

  /** _Execute, promised on the fields of the observations. */
  method Run(cfg: Config, env: nat -> Observation) returns (out: Outcome, log: seq<Event>, attempts: nat)
    ensures IsRun(cfg, env, attempts, out)
    ensures log == RunLog(cfg, env, attempts) && Logged(cfg, env, attempts, log)
    // the request is advanced exactly once per channel failure, gRPC error or answer that asks for another node
    ensures forall k: nat ::
              var o := env(k);
              Count(log, Advance(k))
              == if k < attempts && !o.batched && o.nodeFound && o.healthy
                    && (o.channelError.Some? || o.callError.Some? || o.state.RetryWithAnotherNode?) then 1 else 0
    // and the loop sleeps exactly once per unhealthy node or answer to retry
    ensures forall k: nat, d ::
              var o := env(k);
              Count(log, Sleep(k, d))
              == if k < attempts && !o.batched && o.nodeFound
                    && (!o.healthy || (o.channelError.None? && o.callError.None? && o.state.Retry?))
                    && d == Backoff(cfg.minBackoff, cfg.maxBackoff, k) then 1 else 0
    // attempts are made in time, and every one but the last leaves room for another
    ensures forall k :: 0 <= k < attempts ==> env(k).elapsed < cfg.timeout && k < cfg.maxAttempts
    ensures forall k :: 0 <= k < attempts - 1 ==> OnlyRetry(cfg, env(k))
    // the outcome is what the last observation says
    ensures out.Mapped? <==> attempts > 0 && Replied(env(attempts - 1)) && env(attempts - 1).state.Finished?
    ensures out.Mapped? ==> out.attempt == attempts - 1
    ensures (out.TimedOut? || out.Exhausted?) && attempts > 0 ==> OnlyRetry(cfg, env(attempts - 1))
    ensures out.BatchedError? <==> attempts > 0 && env(attempts - 1).batched
    ensures out.InvalidNode? <==> attempts > 0 && !env(attempts - 1).batched && !env(attempts - 1).nodeFound
    ensures out.TimedOut? ==> attempts < cfg.maxAttempts && env(attempts).elapsed >= cfg.timeout
    ensures out.Exhausted? ==> attempts >= cfg.maxAttempts && ReportsLatest(env, attempts, out.latest)
    ensures out.CallFailed? <==>
      attempts > 0 && var o := env(attempts - 1);
      !o.batched && o.nodeFound && o.healthy && o.channelError == None && o.callError != None && !o.retryable
    ensures out.CallFailed? ==> env(attempts - 1).callError == Some(out.error)
    ensures out.StatusFailed? <==>
      attempts > 0 && var o := env(attempts - 1);
      Replied(o) && (o.state == Error || (o.state == Expired && !(cfg.isTransaction && o.regenerated)))
    ensures out.StatusFailed? ==> env(attempts - 1).status == out.error
  {
    out, log, attempts := RunLoop(cfg, env);
    LogOnFields(cfg, env, attempts, log);
    OutcomeOnFields(cfg, env, attempts, out);
  }

  /** The call went through: a healthy node, a channel and no gRPC error. */
  predicate Replied(o: Observation)
  {
    !o.batched && o.nodeFound && o.healthy && o.channelError == None && o.callError == None
  }

  /** The five ways to get another attempt. */
  predicate OnlyRetry(cfg: Config, o: Observation)
  {
    && !o.batched && o.nodeFound
    && (|| !o.healthy
        || o.channelError != None
        || (o.callError != None && o.retryable)
        || (o.callError == None && (o.state == Retry || o.state == RetryWithAnotherNode))
        || (o.callError == None && o.state == Expired && cfg.isTransaction && o.regenerated))
  }

  /** The error an attempt leaves behind: that of the channel, of the call, or of an answer to retry. */
  predicate LeavesError(o: Observation, e: nat)
  {
    && !o.batched && o.nodeFound && o.healthy
    && (if o.channelError != None then o.channelError == Some(e)
        else if o.callError != None then o.callError == Some(e)
        else (o.state == Retry || o.state == RetryWithAnotherNode) && o.status == e)
  }

  /** `latest` is the error of the last attempt that left one, or none if none did. */
  ghost predicate ReportsLatest(env: nat -> Observation, n: nat, latest: Option<nat>)
  {
    if latest == None then forall k, e: nat :: 0 <= k < n ==> !LeavesError(env(k), e)
    else exists k :: 0 <= k < n && LeavesError(env(k), latest.value) && forall j, e: nat :: k < j < n ==> !LeavesError(env(j), e)
  }

  lemma LogOnFields(cfg: Config, env: nat -> Observation, n: nat, log: seq<Event>)
    requires Logged(cfg, env, n, log)
    ensures forall k: nat ::
              var o := env(k);
              Count(log, Advance(k))
              == if k < n && !o.batched && o.nodeFound && o.healthy
                    && (o.channelError.Some? || o.callError.Some? || o.state.RetryWithAnotherNode?) then 1 else 0
    ensures forall k: nat, d ::
              var o := env(k);
              Count(log, Sleep(k, d))
              == if k < n && !o.batched && o.nodeFound
                    && (!o.healthy || (o.channelError.None? && o.callError.None? && o.state.Retry?))
                    && d == Backoff(cfg.minBackoff, cfg.maxBackoff, k) then 1 else 0
  {
    hide Count, Backoff;
  }

  lemma OutcomeOnFields(cfg: Config, env: nat -> Observation, n: nat, out: Outcome)
    requires IsRun(cfg, env, n, out)
    ensures forall k :: 0 <= k < n ==> env(k).elapsed < cfg.timeout && k < cfg.maxAttempts
    ensures forall k :: 0 <= k < n - 1 ==> OnlyRetry(cfg, env(k))
    ensures out.Mapped? <==> n > 0 && Replied(env(n - 1)) && env(n - 1).state.Finished?
    ensures out.Mapped? ==> out.attempt == n - 1
    ensures (out.TimedOut? || out.Exhausted?) && n > 0 ==> OnlyRetry(cfg, env(n - 1))
    ensures out.BatchedError? <==> n > 0 && env(n - 1).batched
    ensures out.InvalidNode? <==> n > 0 && !env(n - 1).batched && !env(n - 1).nodeFound
    ensures out.TimedOut? ==> n < cfg.maxAttempts && env(n).elapsed >= cfg.timeout
    ensures out.Exhausted? ==> n >= cfg.maxAttempts && ReportsLatest(env, n, out.latest)
    ensures out.CallFailed? <==>
      n > 0 && var o := env(n - 1);
      !o.batched && o.nodeFound && o.healthy && o.channelError == None && o.callError != None && !o.retryable
    ensures out.CallFailed? ==> env(n - 1).callError == Some(out.error)
    ensures out.StatusFailed? <==>
      n > 0 && var o := env(n - 1);
      Replied(o) && (o.state == Error || (o.state == Expired && !(cfg.isTransaction && o.regenerated)))
    ensures out.StatusFailed? ==> env(n - 1).status == out.error
  {
    hide LatestFailure;
    LatestIs(env, n);
  }

  lemma {:induction false} LatestIs(env: nat -> Observation, n: nat)
    ensures ReportsLatest(env, n, LatestFailure(env, n))
  {
    if n > 0 {
      var o := env(n - 1);
      LatestIs(env, n - 1);
      FailureIs(o);
      hide Failure, LeavesError;
      if Failure(o).None? && LatestFailure(env, n - 1).Some? {
        var k :| 0 <= k < n - 1 && LeavesError(env(k), LatestFailure(env, n - 1).value) && forall j, e: nat :: k < j < n - 1 ==> !LeavesError(env(j), e);
        assert forall j, e: nat :: k < j < n ==> !LeavesError(env(j), e);
      }
    }
  }

  lemma FailureIs(o: Observation)
    ensures forall e: nat :: LeavesError(o, e) <==> Failure(o) == Some(e)
  {
  }

  method RunLoop(cfg: Config, env: nat -> Observation) returns (out: Outcome, log: seq<Event>, attempts: nat)
    ensures IsRun(cfg, env, attempts, out)
    ensures log == RunLog(cfg, env, attempts) && Logged(cfg, env, attempts, log)
  {
    hide Backoff, Logged, Count;
    var currentBackoff := cfg.minBackoff;
    var errPersistent: Option<nat> := None;
    log, attempts := [], 0;
    NothingLogged(cfg, env);
    while attempts < cfg.maxAttempts
      invariant attempts > 0 ==> attempts <= cfg.maxAttempts
      invariant forall k :: 0 <= k < attempts ==> env(k).elapsed < cfg.timeout && GoesOn(env(k), cfg.isTransaction)
      invariant attempts > 0 ==> currentBackoff == Backoff(cfg.minBackoff, cfg.maxBackoff, attempts - 1)
      invariant attempts == 0 ==> currentBackoff == cfg.minBackoff
      invariant errPersistent == LatestFailure(env, attempts)
      invariant log == RunLog(cfg, env, attempts) && Logged(cfg, env, attempts, log)
    {
      var o := env(attempts);
      if o.elapsed >= cfg.timeout { return TimedOut, log, attempts; }
      BackoffStep(cfg.minBackoff, cfg.maxBackoff, attempts);
      if attempts > 0 && currentBackoff <= cfg.maxBackoff { currentBackoff := currentBackoff * 2; }
      LogStep(cfg, env, attempts, log);
      attempts := attempts + 1;
      if o.batched { return BatchedError, log, attempts; }
      if !o.nodeFound { return InvalidNode, log, attempts; }
      if !o.healthy {
        log := log + [Sleep(attempts - 1, currentBackoff)];
        continue;
      }
      if o.channelError.Some? {
        log := log + [Advance(attempts - 1)];
        errPersistent := o.channelError;
        continue;
      }
      if o.callError.Some? {
        log := log + [Advance(attempts - 1)];
        errPersistent := o.callError;
        if o.retryable { continue; }
        return CallFailed(o.callError.value), log, attempts;
      }
      match o.state {
        case Retry =>
          errPersistent := Some(o.status);
          log := log + [Sleep(attempts - 1, currentBackoff)];
        case Expired =>
          if !(cfg.isTransaction && o.regenerated) { return StatusFailed(o.status), log, attempts; }
        case Error => return StatusFailed(o.status), log, attempts;
        case Finished => return Mapped(attempts - 1), log, attempts;
        case RetryWithAnotherNode =>
          errPersistent := Some(o.status);
          log := log + [Advance(attempts - 1)];
      }
    }
    return Exhausted(errPersistent), log, attempts;
  }

  lemma BackoffStep(min: int, max: int, k: nat)
    ensures Backoff(min, max, 0) == min
    ensures k > 0 ==> var b := Backoff(min, max, k - 1); Backoff(min, max, k) == if b <= max then 2 * b else b
  {
  }

  lemma NothingLogged(cfg: Config, env: nat -> Observation)
    ensures Logged(cfg, env, 0, [])
  {
  }

  lemma LogStep(cfg: Config, env: nat -> Observation, n: nat, log: seq<Event>)
    requires Logged(cfg, env, n, log)
    ensures Logged(cfg, env, n + 1, log + Happening(cfg, env, n))
  {
    hide Backoff, Count, MovesOn, Waits;
    var next := log + Happening(cfg, env, n);
    Exclusive(env(n));
    forall e ensures Count(next, e) == Count(log, e) + if e in Happening(cfg, env, n) then 1 else 0 {
      CountAfter(log, Happening(cfg, env, n), e);
    }
  }

  /** What attempt `n` adds to the log. */
  ghost function Happening(cfg: Config, env: nat -> Observation, n: nat): (es: seq<Event>)
    ensures |es| <= 1
  {
    if MovesOn(env(n)) then [Advance(n)]
    else if Waits(env(n)) then [Sleep(n, Backoff(cfg.minBackoff, cfg.maxBackoff, n))]
    else []
  }

  lemma Exclusive(o: Observation)
    ensures !(MovesOn(o) && Waits(o))
  {
  }

  lemma CountAfter(log: seq<Event>, es: seq<Event>, e: Event)
    requires |es| <= 1
    ensures Count(log + es, e) == Count(log, e) + if e in es then 1 else 0
  {
    if es == [] { assert log + es == log; } else { assert (log + es)[..|log|] == log; }
  }

  // ---------------------------------------------------------------- consequences

  /** Total sleeping time is at most twice the maximum backoff per attempt. */
  lemma {:induction false} SleepBound(cfg: Config, env: nat -> Observation, n: nat, log: seq<Event>)
    requires 0 <= cfg.minBackoff <= cfg.maxBackoff && log == RunLog(cfg, env, n)
    ensures Logged(cfg, env, n, log) && 0 <= Slept(log) <= n * (2 * cfg.maxBackoff)
  {
    hide Backoff, Count, Logged, MovesOn, Waits, Slept;
    NothingLogged(cfg, env);
    NothingSlept();
    if n > 0 {
      var before, es := RunLog(cfg, env, n - 1), Happening(cfg, env, n - 1);
      SleepBound(cfg, env, n - 1, before);
      LogStep(cfg, env, n - 1, before);
      BackoffBound(cfg.minBackoff, cfg.maxBackoff, n - 1);
      SleptAfter(before, es);
      OneMore(n, 2 * cfg.maxBackoff);
    }
  }

  lemma NothingSlept()
    ensures Slept([]) == 0
  {
  }

  lemma OneMore(n: nat, b: int)
    requires n > 0
    ensures n * b == (n - 1) * b + b
  {
  }

  ghost function RunLog(cfg: Config, env: nat -> Observation, n: nat): seq<Event>
  {
    if n == 0 then [] else RunLog(cfg, env, n - 1) + Happening(cfg, env, n - 1)
  }

  /** How often the request was advanced. */
  function Advances(log: seq<Event>): nat
  {
    if log == [] then 0 else Advances(log[..|log| - 1]) + if log[|log| - 1].Advance? then 1 else 0
  }

  lemma AdvancesStep(cfg: Config, env: nat -> Observation, n: nat)
    ensures Advances(RunLog(cfg, env, 0)) == 0
    ensures Advances(RunLog(cfg, env, n + 1)) == Advances(RunLog(cfg, env, n)) + if MovesOn(env(n)) then 1 else 0
  {
    hide Backoff, MovesOn, Waits;
    var log, es := RunLog(cfg, env, n), Happening(cfg, env, n);
    if es == [] { assert log + es == log; } else { assert (log + es)[..|log|] == log; }
  }

  lemma SleptAfter(log: seq<Event>, es: seq<Event>)
    requires |es| <= 1
    ensures Slept(log + es) == Slept(log) + if es != [] && es[0].Sleep? then es[0].delay else 0
  {
    if es == [] { assert log + es == log; } else { assert (log + es)[..|log|] == log; }
  }
}
