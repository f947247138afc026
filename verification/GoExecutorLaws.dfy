/** What ExecuteWithResilience guarantees over one execute, for the breaker and the metrics over whole runs. */
module GoExecutorLaws {
  import opened Wrappers
  import opened Words
  import opened GoBackoff
  import opened GoBreaker
  import opened GoExecutor

  /** An execute is refused, adding only the question to the history, exactly when the breaker does
      not admit it; an admitted one stops at the first attempt that succeeds, is cancelled while
      waiting to retry or is the last allowed. The loop never runs when maxRetries+1 wraps around. */
  lemma ExecuteMeaning<T>(l: Limits, last: int, h: seq<Event>, now: Time, env: nat -> Attempt<T>)
    ensures var x := Execute(l, last, h, now, env);
            if !Admits(l, Run(l, h), now) then x == Execution([Asked(now)], 0, Rejected)
            else if last < 1 then x == Execution([Asked(now)], 0, Exhausted(None))
            else StopsAtFirst(last, now, env, x)
  {
    hide Run, StopsAtFirst;
    if last >= 1 {
      LoopStopsAtFirst(last, now, env);
    }
  }

  lemma RunAppend(l: Limits, h: seq<Event>, e: Event)
    ensures Run(l, h + [e]) == Step(l, Run(l, h), e)
  {
    assert (h + [e])[..|h|] == h;
  }

  lemma RunOfLast(l: Limits, h: seq<Event>)
    requires h != []
    ensures Run(l, h) == Step(l, Run(l, h[..|h| - 1]), h[|h| - 1])
  {
  }

  /** With no cancellation, an admitted execute calls the backend min(k, maxRetries+1) times, where
      k is the first attempt that succeeds, and returns that success or else the last error; a
      success leaves the breaker Closed with its counter at zero. */
  lemma FirstSuccess<T>(l: Limits, maxRetries: int, h: seq<Event>, now: Time, env: nat -> Attempt<T>, k: nat)
    requires 1 <= maxRetries < MAX_INT64
    requires !(Run(l, h).state.Open? && now - Run(l, h).lastFailure < l.reset)
    requires forall i: nat :: !env(i).cancelled
    requires 1 <= k && forall i | 1 <= i < k :: env(i).reply.Err?
    requires k <= maxRetries + 1 ==> env(k).reply.Ok?
    ensures var x := Execute(l, LastAttempt(maxRetries), h, now, env);
            && x.attempts == (if k <= maxRetries + 1 then k else maxRetries + 1)
            && (k <= maxRetries + 1 ==> x.outcome == Returned(env(k).reply.value)
                                        && Run(l, h + x.events).state == Closed
                                        && Run(l, h + x.events).failures == 0)
            && (k > maxRetries + 1 ==> x.outcome == Exhausted(Some(env(maxRetries + 1).reply.error)))
  {
    var last := maxRetries + 1;
    ExecuteInNumbers(l, maxRetries, h, now, env);
    ExecuteMeaning(l, last, h, now, env);
    var x := Execute(l, last, h, now, env);
    assert k < x.attempts ==> env(k).reply.Ok?;
    if k <= last {
      RunOfLast(l, h + x.events);
    }
  }

  // ---------- Sequential runs of executes ----------

  datatype Call<+T> = Call(askedAt: Time, env: nat -> Attempt<T>)

  /** The breaker's history after a sequential run of executes. */
  function History<T>(l: Limits, last: int, cs: seq<Call<T>>): seq<Event> {
    if cs == [] then []
    else
      var h := History(l, last, cs[..|cs| - 1]);
      var c := cs[|cs| - 1];
      h + Execute(l, last, h, c.askedAt, c.env).events
  }

  // ---------- The circuit between executes ----------

  /** A loop that never runs leaves no trace in the breaker. */
  lemma {:induction false} LoopNeverRuns<T>(l: Limits, last: int, cs: seq<Call<T>>)
    requires last < 1
    ensures Run(l, History(l, last, cs)) == FRESH
  {
    if cs != [] {
      var g, c := History(l, last, cs[..|cs| - 1]), cs[|cs| - 1];
      LoopNeverRuns(l, last, cs[..|cs| - 1]);
      ExecuteMeaning(l, last, g, c.askedAt, c.env);
      RunAppend(l, g, Asked(c.askedAt));
    }
  }

  /** Between sequential executes the breaker is never HalfOpen: a probe always ends Closed or Open as
      long as its counter has not wrapped around, or if even the least int32 meets the threshold. */
  lemma {:induction false} NeverHalfOpenBetweenExecutes<T>(l: Limits, last: int, cs: seq<Call<T>>)
    requires l.threshold < TWO31
    requires last < 1 || l.threshold <= -TWO31 || TrailingFailures(History(l, last, cs)) < TWO31
    ensures !Run(l, History(l, last, cs)).state.HalfOpen?
  {
    if last < 1 {
      LoopNeverRuns(l, last, cs);
    } else if cs != [] {
      var c, h := cs[|cs| - 1], History(l, last, cs);
      var g := History(l, last, cs[..|cs| - 1]);
      ExecuteMeaning(l, last, g, c.askedAt, c.env);
      RunOfLast(l, h);
      if Admits(l, Run(l, g), c.askedAt) {
        EndsClosedOrOpen(l, h);
      } else {
        RunAppend(l, g, Asked(c.askedAt));
      }
    }
  }

  lemma EndsClosedOrOpen(l: Limits, h: seq<Event>)
    requires l.threshold < TWO31 && h != [] && !h[|h| - 1].Asked?
    requires l.threshold <= -TWO31 || TrailingFailures(h) < TWO31
    ensures !Run(l, h).state.HalfOpen?
  {
    RunOfLast(l, h);
    if h[|h| - 1].Failed? {
      if l.threshold <= -TWO31 {
        CounterIsTrailingRun(l, h);
      } else {
        OpenUntilProbed(l, h);
        ClosedBelowThreshold(l, h);
        assert forall k :: LateAsk(l, h, k) ==> k < |h| - 1;
        assert !ProbedSinceFailure(l, h);
      }
    }
  }

  /** An execute that fails at time `at` on every attempt; `quits` cancels it while it waits. */
  function Failing(at: Time, quits: bool): Call<()> {
    Call(at, _ => Attempt(Err("backend down"), at, quits, Draw(1.0, 0)))
  }

  lemma FailedOnce(l: Limits, last: int, h: seq<Event>, at: Time)
    requires last >= 1 && Admits(l, Run(l, h), at)
    ensures Execute(l, last, h, at, Failing(at, true).env).events == [Asked(at), Failed(at)]
  {
    hide Run, Admits;
  }

  /** One more execute that fails once. */
  lemma OneMoreFailure(l: Limits, last: int, before: seq<Call<()>>, at: Time)
    requires last >= 1 && Admits(l, Run(l, History(l, last, before)), at)
    ensures Run(l, History(l, last, before + [Failing(at, true)])) ==
            Step(l, Step(l, Run(l, History(l, last, before)), Asked(at)), Failed(at))
  {
    var g, cs := History(l, last, before), before + [Failing(at, true)];
    assert cs[..|cs| - 1] == before && cs[|cs| - 1] == Failing(at, true);
    assert History(l, last, cs) == g + Execute(l, last, g, at, Failing(at, true).env).events by { hide Run, Execute, Admits; }
    hide Run, History, Execute, Step, Admits;
    FailedOnce(l, last, g, at);
    assert g + [Asked(at), Failed(at)] == g + [Asked(at)] + [Failed(at)];
    RunAppend(l, g, Asked(at));
    RunAppend(l, g + [Asked(at)], Failed(at));
  }

  /** Where the breaker stands after n failures in a row, each asked as soon as it admits one. */
  predicate AfterFailing(l: Limits, b: Breaker, n: nat) {
    && b.failures == ToInt32(n)
    && b.state == if n < Effective(l) then Closed else if n < TWO31 then Open else HalfOpen
  }

  lemma OneMoreOnBreaker(l: Limits, b: Breaker, n: nat, at: Time)
    requires 1 <= n <= TWO31 && -TWO31 < l.threshold < TWO31 && AfterFailing(l, b, n - 1)
    requires b.state.Open? ==> Elapsed(l, b, at)
    ensures Admits(l, b, at) && AfterFailing(l, Step(l, Step(l, b, Asked(at)), Failed(at)), n)
  {
    Int32Step(n - 1);
    assert n == TWO31 ==> ToInt32(n) == -TWO31;
    hide NextInt32, ToInt32;
  }

  lemma {:induction false} FailingRun(l: Limits, last: int, n: nat) returns (cs: seq<Call<()>>)
    requires last >= 1 && n <= TWO31 && -TWO31 < l.threshold < TWO31
    ensures AfterFailing(l, Run(l, History(l, last, cs)), n)
  {
    if n == 0 {
      cs := [];
    } else {
      var before := FailingRun(l, last, n - 1);
      var b := Run(l, History(l, last, before));
      var at := b.lastFailure + l.reset;
      OneMoreOnBreaker(l, b, n, at);
      hide AfterFailing, Run, History, Step, Admits;
      OneMoreFailure(l, last, before, at);
      cs := before + [Failing(at, true)];
    }
  }

  /** Whether a HalfOpen circuit can be left behind depends on the configuration alone: it cannot if and
      only if the loop never runs or the threshold is the least int32, which every failure meets. */
  lemma NeverHalfOpenIff(l: Limits, last: int)
    requires l.threshold < TWO31
    ensures (forall cs: seq<Call<()>> :: !Run(l, History(l, last, cs)).state.HalfOpen?) <==> last < 1 || l.threshold <= -TWO31
  {
    hide Run, History;
    if last < 1 || l.threshold <= -TWO31 {
      forall cs: seq<Call<()>> ensures !Run(l, History(l, last, cs)).state.HalfOpen? {
        NeverHalfOpenBetweenExecutes(l, last, cs);
      }
    } else {
      var cs := FailingRun(l, last, TWO31);
    }
  }

  // ---------- Metrics over any set of executes ----------

  /** x is what some execute does: any executor, breaker history, time and backend. */
  ghost predicate Genuine<T(!new)>(x: Execution<T>) {
    exists l, last, h, now, env :: x == Execute<T>(l, last, h, now, env)
  }

  /** The counters after a set of executes, in any order (every counter only adds). */
  function AfterAll<T>(xs: seq<Execution<T>>): Counts {
    if xs == [] then Counts(0, 0, 0, 0, 0, 0)
    else
      var x := xs[|xs| - 1];
      AfterAll(xs[..|xs| - 1]).Executed(x.outcome, x.attempts)
  }

  /** Executes that gave up without calling the backend, because maxRetries+1 wrapped around. */
  ghost function NeverRan<T>(xs: seq<Execution<T>>): nat {
    if xs == [] then 0
    else NeverRan(xs[..|xs| - 1]) + if xs[|xs| - 1].outcome == Exhausted(None) then 1 else 0
  }

  lemma ExecuteIsAccounted<T>(l: Limits, last: int, h: seq<Event>, now: Time, env: nat -> Attempt<T>, c: Counts)
    ensures var x := Execute(l, last, h, now, env);
            var after := c.Executed(x.outcome, x.attempts);
            && after.operationDurations - c.operationDurations
               == (after.errorsTotal - c.errorsTotal) + (after.succeeded - c.succeeded)
            && (after.failedAttempts - c.failedAttempts) + (if x.outcome == Exhausted(None) then 1 else 0)
               == (after.retriesTotal - c.retriesTotal) + (after.exhausted - c.exhausted)
            && after.errorsTotal - c.errorsTotal == after.failedAttempts - c.failedAttempts
            && (x.outcome == Exhausted(None) <==> Admits(l, Run(l, h), now) && last < 1)
  {
    ExecuteMeaning(l, last, h, now, env);
  }

  /** Conservation: over any set of executes every observed duration is a counted error or a
      success, and every failed attempt is a counted retry or ends an exhausted execute; the only
      executes that break the second balance are those whose retry loop never ran. */
  lemma {:induction false} MetricsAreConserved<T(!new)>(xs: seq<Execution<T>>)
    requires forall i | 0 <= i < |xs| :: Genuine(xs[i])
    ensures var c := AfterAll(xs);
            && c.operationDurations == c.errorsTotal + c.succeeded
            && c.failedAttempts + NeverRan(xs) == c.retriesTotal + c.exhausted
            && (c.Balanced() <==> NeverRan(xs) == 0)
            && c.errorsTotal == c.failedAttempts
  {
    if xs != [] {
      var before, x := xs[..|xs| - 1], xs[|xs| - 1];
      MetricsAreConserved(before);
      assert Genuine(x);
      var l, last, h, now, env :| x == Execute<T>(l, last, h, now, env);
      ExecuteIsAccounted(l, last, h, now, env, AfterAll(before));
    }
  }
}
