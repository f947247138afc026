/** ExecuteWithResilience of go/resilience.go: the retry loop that asks the breaker once, calls the
    backend up to maxRetries+1 times and reports every attempt to the breaker and to the metrics.
    What an attempt returns, when it ends and whether the caller's context is done while the loop
    waits to retry, and the jitter it then draws, are inputs: `env(i)` describes attempt number i,
    counted from 1. */
module GoExecutor {
  import opened Wrappers
  import opened Words
  import opened GoBackoff
  import opened GoBreaker

  datatype Reply<+T> = Ok(value: T) | Err(error: string)

  datatype Attempt<+T> = Attempt(reply: Reply<T>, endedAt: Time, cancelled: bool, draw: Draw)

  function Draws<T>(env: nat -> Attempt<T>): nat -> Draw {
    (i: nat) => env(i).draw
  }

  /** Exhausted(None) is the error returned when the loop body never ran. */
  datatype Outcome<+T> = Returned(value: T) | Rejected | Cancelled | Exhausted(lastErr: Option<string>)

  /** What one execute does: the events it adds to the breaker's history, the number of backend
      calls, and what the caller gets. */
  datatype Execution<+T> = Execution(events: seq<Event>, attempts: nat, outcome: Outcome<T>)

  /** Go's conversion of an int64 product. */
  function ToInt64(n: int): (r: int)
    ensures -MAX_INT64 - 1 <= r <= MAX_INT64
    ensures -MAX_INT64 - 1 <= n <= MAX_INT64 ==> r == n
  {
    (n + MAX_INT64 + 1) % (2 * (MAX_INT64 + 1)) - (MAX_INT64 + 1)
  }

  /** The loop bound maxRetries+1; the int64 addition wraps around at the largest value. */
  function LastAttempt(maxRetries: int): int {
    if maxRetries == MAX_INT64 then -MAX_INT64 - 1 else maxRetries + 1
  }

  /** Attempts i, i+1, ... of the loop, after the events and the last error so far. */
  function Attempts<T>(last: int, env: nat -> Attempt<T>, i: nat, events: seq<Event>, err: Option<string>): Execution<T>
    requires i >= 1
    decreases last - i
  {
    if i > last then Execution(events, i - 1, Exhausted(err))
    else
      match env(i).reply
      case Ok(v) => Execution(events + [Succeeded], i, Returned(v))
      case Err(e) =>
        var failed := events + [Failed(env(i).endedAt)];
        if i < last && env(i).cancelled then Execution(failed, i, Cancelled)
        else Attempts(last, env, i + 1, failed, Some(e))
  }

  lemma OneAttempt<T>(last: int, env: nat -> Attempt<T>, i: nat, events: seq<Event>, err: Option<string>)
    requires 1 <= i <= last
    ensures var a, x := env(i), Attempts(last, env, i, events, err);
            if a.reply.Ok? then x == Execution(events + [Succeeded], i, Returned(a.reply.value))
            else if i < last && a.cancelled then x == Execution(events + [Failed(a.endedAt)], i, Cancelled)
            else x == Attempts(last, env, i + 1, events + [Failed(a.endedAt)], Some(a.reply.error))
  {
  }

  lemma NoMoreAttempts<T>(last: int, env: nat -> Attempt<T>, i: nat, events: seq<Event>, err: Option<string>)
    requires i >= 1 && i > last
    ensures Attempts(last, env, i, events, err) == Execution(events, i - 1, Exhausted(err))
  {
  }

  /** The event attempt `a` leaves in the breaker's history. */
  function Reported<T>(a: Attempt<T>): Event {
    if a.reply.Ok? then Succeeded else Failed(a.endedAt)
  }

  /** Attempt j sends the loop round again. */
  predicate GoesOn<T>(last: int, env: nat -> Attempt<T>, j: nat) {
    env(j).reply.Err? && j < last && !env(j).cancelled
  }

  /** How the execute that stopped at attempt n ends. */
  ghost predicate EndsWith<T>(last: int, env: nat -> Attempt<T>, n: nat, out: Outcome<T>) {
    match env(n).reply
    case Ok(v) => out == Returned(v)
    case Err(e) => out == if n < last then Cancelled else Exhausted(Some(e))
  }

  /** From position n on, the events are those of the attempts from i on. */
  predicate ReportsFrom<T>(env: nat -> Attempt<T>, i: nat, events: seq<Event>, n: nat) {
    forall k | n <= k < |events| :: events[k] == Reported(env(i + (k - n)))
  }

  lemma {:induction false} AttemptsMeaning<T>(last: int, env: nat -> Attempt<T>, i: nat, events: seq<Event>, err: Option<string>)
    requires 1 <= i <= last
    ensures var x := Attempts(last, env, i, events, err);
            && i <= x.attempts <= last
            && (forall j | i <= j < x.attempts :: GoesOn(last, env, j))
            && !GoesOn(last, env, x.attempts)
            && EndsWith(last, env, x.attempts, x.outcome)
            && |x.events| == |events| + x.attempts - i + 1
            && x.events[..|events|] == events
            && ReportsFrom(env, i, x.events, |events|)
    decreases last - i
  {
    if GoesOn(last, env, i) {
      var e := env(i).reply.error;
      var failed := events + [Failed(env(i).endedAt)];
      AttemptsMeaning(last, env, i + 1, failed, Some(e));
      var x := Attempts(last, env, i, events, err);
      assert x == Attempts(last, env, i + 1, failed, Some(e));
      assert x.events[..|events|] == x.events[..|failed|][..|events|];
      assert x.events[|events|] == x.events[..|failed|][|events|];
    }
  }

  /** x stops at the first attempt that does not send the loop round again, reports every attempt
      in order, and returns what that attempt gave. */
  ghost predicate StopsAtFirst<T>(last: int, now: Time, env: nat -> Attempt<T>, x: Execution<T>) {
    && 1 <= x.attempts <= last
    && (forall j | 1 <= j < x.attempts :: GoesOn(last, env, j))
    && !GoesOn(last, env, x.attempts)
    && EndsWith(last, env, x.attempts, x.outcome)
    && |x.events| == x.attempts + 1
    && x.events[0] == Asked(now)
    && forall j | 1 <= j <= x.attempts :: x.events[j] == Reported(env(j))
  }

  lemma LoopStopsAtFirst<T>(last: int, now: Time, env: nat -> Attempt<T>)
    requires last >= 1
    ensures StopsAtFirst(last, now, env, Attempts(last, env, 1, [Asked(now)], None))
  {
    var first := [Asked(now)];
    hide Attempts, GoesOn, EndsWith, Reported, StopsAtFirst, ReportsFrom;
    AttemptsMeaning(last, env, 1, first, None);
    FirstOfOne(last, now, env, Attempts(last, env, 1, first, None), first);
  }

  lemma FirstOfOne<T>(last: int, now: Time, env: nat -> Attempt<T>, x: Execution<T>, first: seq<Event>)
    requires first == [Asked(now)] && 1 <= x.attempts <= last
    requires forall j | 1 <= j < x.attempts :: GoesOn(last, env, j)
    requires !GoesOn(last, env, x.attempts) && EndsWith(last, env, x.attempts, x.outcome)
    requires |x.events| == x.attempts + 1 && x.events[..1] == first
    requires ReportsFrom(env, 1, x.events, 1)
    ensures StopsAtFirst(last, now, env, x)
  {
    hide GoesOn, EndsWith, Reported;
    assert x.events[0] == x.events[..1][0];
    forall j | 1 <= j <= x.attempts ensures x.events[j] == Reported(env(j)) {
      assert 1 + (j - 1) == j;
    }
  }

  /** One execute by a breaker with history h, asked at time now. */
  function Execute<T>(l: Limits, last: int, h: seq<Event>, now: Time, env: nat -> Attempt<T>): Execution<T> {
    if Admits(l, Run(l, h), now) then Attempts(last, env, 1, [Asked(now)], None)
    else Execution([Asked(now)], 0, Rejected)
  }

  /** How an execute that was admitted ends after `calls` backend calls. */
  ghost predicate EndsInNumbers<T>(maxRetries: int, env: nat -> Attempt<T>, calls: nat, out: Outcome<T>) {
    && 1 <= calls <= maxRetries + 1
    && (forall j | 1 <= j < calls :: env(j).reply.Err? && !env(j).cancelled)
    && match out
       case Returned(v) => env(calls).reply == Reply.Ok(v)
       case Cancelled => env(calls).reply.Err? && env(calls).cancelled && calls <= maxRetries
       case Exhausted(e) => env(calls).reply.Err? && calls == maxRetries + 1 && e == Some(env(calls).reply.error)
       case Rejected => false
  }

  /** An execute in numbers: refused while the circuit is Open and the reset timeout has not passed; else
      at most maxRetries+1 calls, ended by a success, by a caller that gives up while waiting to retry,
      or by the last call; and no call at all if maxRetries+1 wraps around. */
  lemma ExecuteInNumbers<T>(l: Limits, maxRetries: int, h: seq<Event>, now: Time, env: nat -> Attempt<T>)
    requires 1 <= maxRetries <= MAX_INT64
    ensures var b, x := Run(l, h), Execute(l, LastAttempt(maxRetries), h, now, env);
            if b.state.Open? && now - b.lastFailure < l.reset then x.outcome == Rejected && x.attempts == 0
            else if maxRetries == MAX_INT64 then x.outcome == Exhausted(None) && x.attempts == 0
            else EndsInNumbers(maxRetries, env, x.attempts, x.outcome)
  {
    var b := Run(l, h);
    assert Admits(l, b, now) <==> !(b.state.Open? && now - b.lastFailure < l.reset);
    hide Run, Admits, Attempts;
    if maxRetries < MAX_INT64 {
      LoopStopsAtFirst(maxRetries + 1, now, env);
      StopsInNumbers(maxRetries, now, env, Attempts(maxRetries + 1, env, 1, [Asked(now)], None));
      hide EndsInNumbers;
    }
  }

  lemma StopsInNumbers<T>(maxRetries: int, now: Time, env: nat -> Attempt<T>, x: Execution<T>)
    requires StopsAtFirst(maxRetries + 1, now, env, x)
    ensures EndsInNumbers(maxRetries, env, x.attempts, x.outcome)
  {
    forall j | 1 <= j < x.attempts ensures env(j).reply.Err? && !env(j).cancelled {
      assert GoesOn(maxRetries + 1, env, j);
    }
  }

  /** The values of the shared Prometheus counters, with what really happened beside them. */
  datatype Counts = Counts(retriesTotal: int, operationDurations: int, errorsTotal: int,
                           failedAttempts: int, exhausted: int, succeeded: int)
  {
    function Add(retries: int, failed: int, gaveUp: int, ok: int): Counts {
      Counts(retriesTotal + retries, operationDurations + failed + ok, errorsTotal + failed,
             failedAttempts + failed, exhausted + gaveUp, succeeded + ok)
    }

    /** After an execute that made `calls` backend calls and gave its caller `out`: every call but a
        last one that was not cancelled is counted as a retry. */
    function Executed<T>(out: Outcome<T>, calls: int): Counts {
      Add(if out.Cancelled? || calls == 0 then calls else calls - 1,
          if out.Returned? then calls - 1 else calls,
          if out.Exhausted? then 1 else 0,
          if out.Returned? then 1 else 0)
    }

    /** Every failed attempt was retried (or cancelled while waiting to be) or ended an exhausted
        execute; every observed duration belongs to a counted error or to a successful execute. */
    predicate Balanced() {
      && failedAttempts == retriesTotal + exhausted
      && operationDurations == errorsTotal + succeeded
    }
  }

  class Metrics {
    var circuitBreakerState: int
    var retriesTotal: int
    var operationDurations: int
    var errorsTotal: int
    ghost var failedAttempts: int
    ghost var exhausted: int
    ghost var succeeded: int

    ghost function Read(): Counts
      reads this
    {
      Counts(retriesTotal, operationDurations, errorsTotal, failedAttempts, exhausted, succeeded)
    }

    constructor ()
      ensures Read() == Counts(0, 0, 0, 0, 0, 0)
    {
      circuitBreakerState := 0;
      retriesTotal, operationDurations, errorsTotal := 0, 0, 0;
      failedAttempts, exhausted, succeeded := 0, 0, 0;
    }

    /** The instrumented store around one backend call. */
    method Observe(failed: bool)
      modifies this
      ensures circuitBreakerState == old(circuitBreakerState)
      ensures Read() == old(Read()).Add(0, if failed then 1 else 0, 0, if failed then 0 else 1)
    {
      operationDurations := operationDurations + 1;
      if failed {
        errorsTotal := errorsTotal + 1;
        failedAttempts := failedAttempts + 1;
      } else {
        succeeded := succeeded + 1;
      }
    }
  }

  /** The executor together with the instrumented store it wraps. Without metrics the executor counts no
      retries and sets no gauge, while the instrumented store falls back on the default metrics. */
  class ResilientExecutor {
    const cb: CircuitBreaker
    const metrics: Metrics?
    const observed: Metrics
    const maxRetries: int
    const baseBackoff: int
    const operationTimeout: int

    ghost predicate Valid()
      reads cb
    {
      cb.Valid() && 1 <= maxRetries <= MAX_INT64 && (metrics != null ==> observed == metrics)
    }

    constructor (maxRetries: int, baseBackoffMs: int, threshold: int, resetSeconds: int, timeoutSeconds: int,
                 metrics: Metrics?, defaultMetrics: Metrics)
      requires maxRetries <= MAX_INT64
      ensures Valid() && cb.history == [] && fresh(cb)
      ensures cb.Limit() == NewLimits(threshold, ToInt64((if resetSeconds <= 0 then 30 else resetSeconds) * 1_000_000_000))
      ensures this.metrics == metrics && observed == if metrics == null then defaultMetrics else metrics
      ensures this.maxRetries == if maxRetries <= 0 then 3 else maxRetries
      ensures baseBackoff == ToInt64((if baseBackoffMs <= 0 then 100 else baseBackoffMs) * 1_000_000)
      ensures operationTimeout == ToInt64((if timeoutSeconds <= 0 then 5 else timeoutSeconds) * 1_000_000_000)
      ensures 1 <= threshold < TWO31 ==> cb.failureThreshold == threshold
      ensures threshold <= 0 ==> cb.failureThreshold == 5
      ensures 1 <= resetSeconds <= 9_223_372_036 ==> cb.resetTimeout == resetSeconds * 1_000_000_000
      ensures resetSeconds <= 0 ==> cb.resetTimeout == 30_000_000_000
      ensures 1 <= baseBackoffMs <= 9_223_372_036_854 ==> baseBackoff == baseBackoffMs * 1_000_000
      ensures baseBackoffMs <= 0 ==> baseBackoff == 100_000_000
      ensures 1 <= timeoutSeconds <= 9_223_372_036 ==> operationTimeout == timeoutSeconds * 1_000_000_000
      ensures timeoutSeconds <= 0 ==> operationTimeout == 5_000_000_000
    {
      var retries, base, t, s, timeout := maxRetries, baseBackoffMs, threshold, resetSeconds, timeoutSeconds;
      if retries <= 0 { retries := 3; }
      if base <= 0 { base := 100; }
      if t <= 0 { t := 5; }
      if s <= 0 { s := 30; }
      if timeout <= 0 { timeout := 5; }
      this.cb := new CircuitBreaker(t, ToInt64(s * 1_000_000_000));
      this.metrics := metrics;
      this.observed := if metrics == null then defaultMetrics else metrics;
      this.maxRetries := retries;
      this.baseBackoff := ToInt64(base * 1_000_000);
      this.operationTimeout := ToInt64(timeout * 1_000_000_000);
    }

    /** The state of the breaker as the gauge shows it. */
    ghost function CurrentCode(): int
      reads cb
    {
      Code(Run(cb.Limit(), cb.history).state)
    }

    /** What one finished attempt reports: to the instrumented store, to the breaker, to the gauge and,
        when the loop will go round again, to the retry counter. */
    method Report(ok: bool, at: Time, retried: bool)
      requires Valid()
      modifies cb, observed
      ensures Valid() && cb.history == old(cb.history) + [if ok then Succeeded else Failed(at)]
      ensures observed.Read() ==
              old(observed.Read()).Add(if retried && metrics != null then 1 else 0, if ok then 0 else 1, 0, if ok then 1 else 0)
      ensures metrics != null ==> metrics.circuitBreakerState == CurrentCode()
    {
      hide Run;
      observed.Observe(!ok);
      if ok {
        cb.OnSuccess();
      } else {
        cb.OnFailure(at);
      }
      if metrics != null {
        var code := cb.StateCode();
        metrics.circuitBreakerState := code;
        if retried {
          metrics.retriesTotal := metrics.retriesTotal + 1;
        }
      }
    }

    /** The retry loop of an execute that was admitted with history h. */
    method RetryLoop<T>(now: Time, env: nat -> Attempt<T>, ghost h: seq<Event>)
      returns (out: Outcome<T>, calls: nat, slept: nat)
      requires Valid() && cb.history == h + [Asked(now)]
      modifies cb, observed
      ensures Valid()
      ensures var x := Attempts(LastAttempt(maxRetries), env, 1, [Asked(now)], None);
              cb.history == h + x.events && out == x.outcome && calls == x.attempts
      ensures slept == TotalWait(baseBackoff, Draws(env), if calls == 0 then 0 else calls - 1)
      ensures var counts := old(observed.Read()).Executed(out, calls);
              observed.Read() == if metrics == null then counts.(retriesTotal := old(observed.Read()).retriesTotal) else counts
      ensures metrics != null ==>
                metrics.circuitBreakerState == if calls == 0 then old(metrics.circuitBreakerState) else CurrentCode()
    {
      hide Run, Wait, TotalWait, CurrentCode, Admits, Attempts;
      ghost var counts := observed.Read();
      NoWait(baseBackoff, Draws(env));
      calls, slept := 0, 0;
      var last := LastAttempt(maxRetries);
      var lastErr: Option<string> := None;
      var attempt := 1;
      ghost var events := [Asked(now)];
      while attempt <= last
        invariant Valid() && cb.history == h + events
        invariant attempt >= 1 && calls == attempt - 1
        invariant attempt <= last + 1 || (attempt == 1 && maxRetries == MAX_INT64)
        invariant Attempts(last, env, attempt, events, lastErr) == Attempts(last, env, 1, [Asked(now)], None)
        invariant slept == TotalWait(baseBackoff, Draws(env), Retried(calls, last))
        invariant observed.Read() == counts.Add(if metrics == null then 0 else Retried(calls, last), calls, 0, 0)
        invariant metrics != null ==>
                    metrics.circuitBreakerState == if calls == 0 then old(metrics.circuitBreakerState) else CurrentCode()
        decreases last - attempt
      {
        var a := env(attempt);
        OneAttempt(last, env, attempt, events, lastErr);
        calls := calls + 1;
        var retried := a.reply.Err? && attempt <= maxRetries;
        Report(a.reply.Ok?, a.endedAt, retried);
        events := events + [if a.reply.Ok? then Succeeded else Failed(a.endedAt)];
        if a.reply.Ok? {
          return Returned(a.reply.value), calls, slept;
        }
        lastErr := Some(a.reply.error);
        if retried {
          if a.cancelled {
            return Cancelled, calls, slept;
          }
          OneMoreWait(baseBackoff, Draws(env), attempt);
          slept := slept + Wait(baseBackoff, attempt, a.draw);
        }
        attempt := attempt + 1;
      }
      NoMoreAttempts(last, env, attempt, events, lastErr);
      observed.exhausted := observed.exhausted + 1;
      return Exhausted(lastErr), calls, slept;
    }

    /** Refused exactly while the circuit is Open and the reset timeout has not passed since the last
        failure. Else the backend is called at most maxRetries+1 times, until a call succeeds, the
        caller gives up while waiting, or the calls are used up; only a maxRetries+1 that wraps around
        allows no call at all. Every call is observed, every failed one counted, every one that was
        followed by a wait counted as a retry. The waits that ran to their end are summed up in
        `slept`. */
    method ExecuteWithResilience<T>(now: Time, env: nat -> Attempt<T>) returns (out: Outcome<T>, calls: nat, slept: nat)
      requires Valid()
      modifies cb, observed
      ensures Valid()
      ensures var x := Execute(cb.Limit(), LastAttempt(maxRetries), old(cb.history), now, env);
              && cb.history == old(cb.history) + x.events
              && out == x.outcome && calls == x.attempts
      ensures slept == TotalWait(baseBackoff, Draws(env), if calls == 0 then 0 else calls - 1)
      ensures var counts := old(observed.Read()).Executed(out, calls);
              observed.Read() == if metrics == null then counts.(retriesTotal := old(observed.Read()).retriesTotal) else counts
      ensures metrics != null ==>
                metrics.circuitBreakerState == if calls == 0 then old(metrics.circuitBreakerState) else CurrentCode()
      ensures out.Rejected? <==> old(cb.state.Open? && now - cb.lastFailureTime < cb.resetTimeout)
      ensures out.Rejected? || maxRetries == MAX_INT64 ==> calls == 0
      ensures !out.Rejected? && maxRetries < MAX_INT64 ==>
                && 1 <= calls <= maxRetries + 1
                && (forall j | 1 <= j < calls :: env(j).reply.Err? && !env(j).cancelled)
                && (out.Returned? ==> env(calls).reply == Reply.Ok(out.value))
                && (out.Cancelled? ==> env(calls).reply.Err? && env(calls).cancelled && calls <= maxRetries)
                && (out.Exhausted? ==>
                      env(calls).reply.Err? && calls == maxRetries + 1 && out.lastErr == Some(env(calls).reply.error))
      ensures observed.operationDurations == old(observed.operationDurations) + calls
      ensures observed.errorsTotal == old(observed.errorsTotal) + if out.Returned? then calls - 1 else calls
      ensures metrics != null ==>
                metrics.retriesTotal == old(metrics.retriesTotal) + if out.Cancelled? || calls == 0 then calls else calls - 1
    {
      ExecuteInNumbers(cb.Limit(), maxRetries, cb.history, now, env);
      hide Run, TotalWait, CurrentCode, Attempts, LastAttempt;
      ghost var h := cb.history;
      NoWait(baseBackoff, Draws(env));
      var admitted := cb.CanExecute(now);
      if !admitted {
        return Rejected, 0, 0;
      }
      out, calls, slept := RetryLoop(now, env, h);
    }
  }

  /** The calls that were followed by a wait, after the first ones of a loop that goes on. */
  function Retried(calls: nat, last: int): nat {
    if calls == last && calls > 0 then calls - 1 else calls
  }

  lemma NoWait(base: int, draws: nat -> Draw)
    ensures TotalWait(base, draws, 0) == 0
  {
  }

  lemma OneMoreWait(base: int, draws: nat -> Draw, n: nat)
    requires n >= 1
    ensures TotalWait(base, draws, n) == TotalWait(base, draws, n - 1) + Wait(base, n, draws(n))
  {
  }
}
