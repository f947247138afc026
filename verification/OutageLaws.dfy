/** How many backend calls a sequential run of ExecuteWithResilience makes while the backend is down. */
module OutageLaws {
  import opened Wrappers
  import opened Words
  import opened GoBreaker
  import opened GoExecutor
  import opened GoExecutorLaws

  /** Backend calls: every event but the questions. */
  function Calls(h: seq<Event>): nat {
    if h == [] then 0
    else Calls(h[..|h| - 1]) + if h[|h| - 1].Asked? then 0 else 1
  }

  /** No backend call succeeded. */
  predicate Outage(h: seq<Event>) {
    forall i | 0 <= i < |h| :: !h[i].Succeeded?
  }

  /** The clock readings of an outage never go back. */
  predicate Monotone(h: seq<Event>)
    requires Outage(h)
  {
    forall i, j | 0 <= i < j < |h| :: h[i].at <= h[j].at
  }

  /** When the circuit first opened. */
  function FirstOpened(l: Limits, h: seq<Event>): Option<Time>
    requires Outage(h)
  {
    if h == [] then None
    else
      var g := h[..|h| - 1];
      if FirstOpened(l, g).Some? then FirstOpened(l, g)
      else if Run(l, h).state.Open? then Some(h[|h| - 1].at)
      else None
  }

  /** The most backend calls an outage allows by time `now`: before the first opening, the rest of
      the execute that opened the circuit, and one full execute per reset timeout since. */
  function LoadBound(l: Limits, maxRetries: int, openedAt: Time, now: Time): int
    requires l.reset > 0
  {
    Effective(l) + maxRetries + (maxRetries + 1) * ((now - openedAt) / l.reset)
  }

  lemma {:induction false} CallsOfExecution(events: seq<Event>)
    requires events != [] && events[0].Asked?
    requires forall j | 1 <= j < |events| :: !events[j].Asked?
    ensures Calls(events) == |events| - 1
  {
    if |events| > 1 {
      CallsOfExecution(events[..|events| - 1]);
    }
  }

  lemma {:induction false} CallsAppend(a: seq<Event>, b: seq<Event>)
    ensures Calls(a + b) == Calls(a) + Calls(b)
  {
    if b == [] {
      assert a + b == a;
    } else {
      CallsAppend(a, b[..|b| - 1]);
      assert (a + b)[..|a + b| - 1] == a + b[..|b| - 1];
    }
  }

  lemma {:induction false} OutageCallsAreFailures(h: seq<Event>)
    requires Outage(h)
    ensures Calls(h) == TrailingFailures(h)
  {
    if h != [] {
      OutageCallsAreFailures(h[..|h| - 1]);
    }
  }

  /** In an outage the circuit has opened exactly when the failures reached the threshold, and it
      opened at one of them. */
  lemma {:induction false} OpenedIffTripped(l: Limits, h: seq<Event>) returns (i: int)
    requires l.threshold < TWO31 && Outage(h)
    ensures FirstOpened(l, h).Some? <==> TrailingFailures(h) >= Effective(l)
    ensures FirstOpened(l, h).Some? ==>
              0 <= i < |h| && h[i].Failed? && h[i].at == FirstOpened(l, h).value
  {
    i := 0;
    if h != [] {
      var g := h[..|h| - 1];
      i := OpenedIffTripped(l, g);
      RunOfLast(l, h);
      CounterIsTrailingRun(l, g);
      ClosedBelowThreshold(l, g);
      ClosedBelowThreshold(l, h);
      if FirstOpened(l, g).None? {
        i := |h| - 1;
      }
    }
  }

  lemma FloorCounts(k: nat, reset: Time, elapsed: Time, perProbe: nat)
    requires reset > 0 && k * reset <= elapsed
    ensures k <= elapsed / reset
    ensures perProbe * k <= perProbe * (elapsed / reset)
  {
    var q := elapsed / reset;
    assert q + 1 <= k ==> (q + 1) * reset <= k * reset;
  }

  lemma ExactQuotient(n: nat, reset: Time)
    requires reset > 0
    ensures n * reset / reset == n
  {
    var q := n * reset / reset;
    FloorCounts(n, reset, n * reset, 1);
    assert n + 1 <= q ==> (n + 1) * reset <= q * reset;
  }

  lemma FloorMonotone(reset: Time, a: Time, b: Time, perProbe: nat)
    requires reset > 0 && a <= b
    ensures a / reset <= b / reset
    ensures perProbe * (a / reset) <= perProbe * (b / reset)
  {
    var p, q := a / reset, b / reset;
    assert q + 1 <= p ==> (q + 1) * reset <= p * reset;
    assert p <= q;
  }

  /** The state of an outage after k admitted probes. */
  ghost predicate Probed(l: Limits, maxRetries: int, h: seq<Event>, k: nat)
    requires Outage(h)
  {
    match FirstOpened(l, h)
    case None => Calls(h) < Effective(l)
    case Some(t0) =>
      && h != []
      && Run(l, h).state.Open?
      && Calls(h) <= Effective(l) + maxRetries + (maxRetries + 1) * k
      && t0 + k * l.reset <= Run(l, h).lastFailure <= h[|h| - 1].at
  }

  /** Every probe of k reset timeouts finds a counter that one more failure does not wrap. */
  predicate CounterHolds(l: Limits, maxRetries: int, k: int) {
    k == 0 || Effective(l) + (maxRetries + 1) * k < TWO31
  }

  /** The calls stay below the 2^31 failures an int32 can count, or no probe can meet the wrap. */
  ghost predicate Countable(l: Limits, maxRetries: int, h: seq<Event>)
    requires Outage(h) && l.reset > 0
  {
    || Calls(h) < TWO31
    || (FirstOpened(l, h).Some? && h != [] &&
        CounterHolds(l, maxRetries, (h[|h| - 1].at - FirstOpened(l, h).value) / l.reset))
  }

  lemma {:induction false} OpenedStays(l: Limits, g: seq<Event>, events: seq<Event>)
    requires Outage(g + events) && Outage(g) && FirstOpened(l, g).Some?
    ensures FirstOpened(l, g + events) == FirstOpened(l, g)
  {
    var h := g + events;
    if events == [] {
      assert h == g;
    } else {
      assert h[..|h| - 1] == g + events[..|events| - 1];
      OpenedStays(l, g, events[..|events| - 1]);
    }
  }

  lemma LastStep(l: Limits, g: seq<Event>, events: seq<Event>)
    requires events != []
    ensures var h := g + events;
            && h[..|h| - 1] == g + events[..|events| - 1]
            && Run(l, h) == Step(l, Run(l, g + events[..|events| - 1]), events[|events| - 1])
  {
    var h := g + events;
    assert h[..|h| - 1] == g + events[..|events| - 1];
  }

  lemma FirstOpenedStep(l: Limits, h: seq<Event>)
    requires Outage(h) && h != []
    ensures var g := h[..|h| - 1];
            FirstOpened(l, h) ==
            if FirstOpened(l, g).Some? then FirstOpened(l, g) else if Run(l, h).state.Open? then Some(h[|h| - 1].at) else None
  {
  }

  lemma FailureKeepsOpen(l: Limits, b: Breaker, e: Event)
    requires b.state.Open? && e.Failed?
    ensures Step(l, b, e).state.Open?
  {
  }

  /** The execute in which the circuit first opens leaves it Open. */
  lemma {:induction false} OpenedWithin(l: Limits, g: seq<Event>, events: seq<Event>)
    requires events != [] && forall j | 1 <= j < |events| :: events[j].Failed?
    requires Outage(g) && Outage(g + events) && FirstOpened(l, g).None? && FirstOpened(l, g + events).Some?
    ensures Run(l, g + events).state.Open?
  {
    hide Run, FirstOpened, Step;
    var h, before := g + events, events[..|events| - 1];
    LastStep(l, g, events);
    FirstOpenedStep(l, h);
    if before == [] {
      assert g + before == g;
    } else {
      assert forall i | 0 <= i < |g + before| :: (g + before)[i] == h[i];
      if FirstOpened(l, g + before).Some? {
        OpenedWithin(l, g, before);
        FailureKeepsOpen(l, Run(l, g + before), events[|events| - 1]);
      }
    }
  }

  /** A probe whose first failure the counter can count leaves the circuit Open. */
  lemma {:induction false} ProbeReopens(l: Limits, g: seq<Event>, events: seq<Event>)
    requires |events| >= 2 && events[0].Asked? && forall j | 1 <= j < |events| :: events[j].Failed?
    requires Effective(l) <= TrailingFailures(g) < TWO31 - 1
    ensures Run(l, g + events).state.Open?
  {
    LastStep(l, g, events);
    var before := events[..|events| - 1];
    if |events| == 2 {
      LastStep(l, g, before);
      assert g + before[..0] == g;
      CounterIsTrailingRun(l, g);
    } else {
      ProbeReopens(l, g, before);
    }
  }

  lemma ProbedByFirst(l: Limits, maxRetries: int, g: seq<Event>, events: seq<Event>)
    requires l.threshold < TWO31 && maxRetries >= 0
    requires 2 <= |events| <= maxRetries + 2 && events[0].Asked? && forall j | 1 <= j < |events| :: events[j].Failed?
    requires Outage(g) && Outage(g + events) && Monotone(g + events)
    requires Probed(l, maxRetries, g, 0) && FirstOpened(l, g).None?
    ensures Probed(l, maxRetries, g + events, 0)
  {
    var h := g + events;
    CallsOfExecution(events);
    CallsAppend(g, events);
    OutageCallsAreFailures(h);
    var i := OpenedIffTripped(l, h);
    LastStep(l, g, events);
    if FirstOpened(l, h).Some? {
      OpenedWithin(l, g, events);
      assert h[i].at <= h[|h| - 1].at;
    }
  }

  lemma CountsNextFailure(l: Limits, maxRetries: int, calls: int, k: nat, periods: int)
    requires maxRetries >= 0 && calls <= Effective(l) + maxRetries + (maxRetries + 1) * k
    requires k + 1 <= periods && CounterHolds(l, maxRetries, periods)
    ensures calls + 1 < TWO31
  {
    var r := maxRetries + 1;
    assert r * (k + 1) == r * k + r;
    assert r * (k + 1) <= r * periods;
  }

  lemma ProbedByProbe(l: Limits, maxRetries: int, g: seq<Event>, events: seq<Event>, k: nat)
    requires l.threshold < TWO31 && l.reset > 0 && maxRetries >= 0
    requires 2 <= |events| <= maxRetries + 2 && events[0].Asked? && forall j | 1 <= j < |events| :: events[j].Failed?
    requires Outage(g) && Outage(g + events) && Monotone(g + events)
    requires Probed(l, maxRetries, g, k) && FirstOpened(l, g).Some?
    requires Admits(l, Run(l, g), events[0].at)
    requires Countable(l, maxRetries, g + events)
    ensures Probed(l, maxRetries, g + events, k + 1)
  {
    var h := g + events;
    var t0 := FirstOpened(l, g).value;
    OpenedStays(l, g, events);
    CallsOfExecution(events);
    CallsAppend(g, events);
    OutageCallsAreFailures(g);
    LastStep(l, g, events);
    var i := OpenedIffTripped(l, g);
    assert h[|g|] == events[0] && h[|h| - 1] == events[|events| - 1] && h[|g|].at <= h[|h| - 1].at;
    assert (k + 1) * l.reset == k * l.reset + l.reset;
    assert (maxRetries + 1) * (k + 1) == (maxRetries + 1) * k + maxRetries + 1;
    FloorCounts(k + 1, l.reset, h[|h| - 1].at - t0, maxRetries + 1);
    if Calls(h) >= TWO31 {
      CountsNextFailure(l, maxRetries, Calls(g), k, (h[|h| - 1].at - t0) / l.reset);
    }
    ProbeReopens(l, g, events);
  }

  lemma ProbedByAdmitted(l: Limits, maxRetries: int, g: seq<Event>, events: seq<Event>, k: nat) returns (k': nat)
    requires l.threshold < TWO31 && l.reset > 0 && maxRetries >= 0
    requires 2 <= |events| <= maxRetries + 2 && events[0].Asked? && forall j | 1 <= j < |events| :: events[j].Failed?
    requires Outage(g) && Outage(g + events) && Monotone(g + events)
    requires Probed(l, maxRetries, g, k)
    requires Admits(l, Run(l, g), events[0].at)
    requires Countable(l, maxRetries, g + events)
    ensures Probed(l, maxRetries, g + events, k')
  {
    if FirstOpened(l, g).None? {
      k' := 0;
      ProbedByFirst(l, maxRetries, g, events);
    } else {
      k' := k + 1;
      ProbedByProbe(l, maxRetries, g, events, k);
    }
  }

  lemma ProbedByRefused(l: Limits, maxRetries: int, g: seq<Event>, now: Time, k: nat)
    requires Outage(g) && Outage(g + [Asked(now)]) && Monotone(g + [Asked(now)])
    requires Probed(l, maxRetries, g, k)
    requires !Admits(l, Run(l, g), now)
    ensures Probed(l, maxRetries, g + [Asked(now)], k)
  {
    var h := g + [Asked(now)];
    assert h[..|h| - 1] == g;
    if FirstOpened(l, g).Some? {
      assert h[|g| - 1].at <= h[|g|].at;
    }
  }

  lemma CountableBefore(l: Limits, maxRetries: int, g: seq<Event>, events: seq<Event>)
    requires Outage(g) && Outage(g + events) && Monotone(g + events) && l.reset > 0 && maxRetries >= 0
    requires l.threshold < TWO31 && Countable(l, maxRetries, g + events)
    ensures Countable(l, maxRetries, g)
  {
    var h := g + events;
    CallsAppend(g, events);
    OutageCallsAreFailures(g);
    var i := OpenedIffTripped(l, g);
    if FirstOpened(l, g).Some? {
      OpenedStays(l, g, events);
      assert forall j | 0 <= j < |g| :: g[j] == h[j];
      assert g[i].at <= g[|g| - 1].at <= h[|h| - 1].at;
      var t0 := FirstOpened(l, g).value;
      FloorMonotone(l.reset, g[|g| - 1].at - t0, h[|h| - 1].at - t0, maxRetries + 1);
      FloorCounts(0, l.reset, g[|g| - 1].at - t0, 0);
    }
  }

  lemma OutageStep<T>(l: Limits, maxRetries: int, g: seq<Event>, c: Call<T>, k: nat) returns (k': nat)
    requires l.threshold < TWO31 && l.reset > 0 && maxRetries >= 0
    requires var h := g + Execute(l, maxRetries + 1, g, c.askedAt, c.env).events;
             Outage(g) && Outage(h) && Monotone(h) && Countable(l, maxRetries, h)
    requires Probed(l, maxRetries, g, k)
    ensures Probed(l, maxRetries, g + Execute(l, maxRetries + 1, g, c.askedAt, c.env).events, k')
  {
    var events := Execute(l, maxRetries + 1, g, c.askedAt, c.env).events;
    ExecuteMeaning(l, maxRetries + 1, g, c.askedAt, c.env);
    hide Run, Execute, FirstOpened, Calls, LoadBound, Probed, Countable, Monotone;
    var h := g + events;
    assert forall j | 0 <= j < |events| :: events[j] == h[|g| + j];
    if Admits(l, Run(l, g), c.askedAt) {
      k' := ProbedByAdmitted(l, maxRetries, g, events, k);
    } else {
      ProbedByRefused(l, maxRetries, g, c.askedAt, k);
      k' := k;
    }
  }

  lemma {:induction false} OutageRun<T>(l: Limits, maxRetries: int, cs: seq<Call<T>>) returns (k: nat)
    requires l.threshold < TWO31 && l.reset > 0 && maxRetries >= 0
    requires Outage(History(l, maxRetries + 1, cs)) && Monotone(History(l, maxRetries + 1, cs))
    requires Countable(l, maxRetries, History(l, maxRetries + 1, cs))
    ensures Probed(l, maxRetries, History(l, maxRetries + 1, cs), k)
  {
    if cs == [] {
      k := 0;
    } else {
      var c, h := cs[|cs| - 1], History(l, maxRetries + 1, cs);
      var g := History(l, maxRetries + 1, cs[..|cs| - 1]);
      var events := Execute(l, maxRetries + 1, g, c.askedAt, c.env).events;
      assert h == g + events;
      hide Run, Execute, FirstOpened, Calls, LoadBound, Probed, Countable, History;
      assert forall i | 0 <= i < |g| :: g[i] == h[i];
      CountableBefore(l, maxRetries, g, events);
      k := OutageRun(l, maxRetries, cs[..|cs| - 1]);
      k := OutageStep(l, maxRetries, g, c, k);
    }
  }

  /** Outage load bound: in a sequential run of executes against a backend that always fails, the
      backend sees fewer calls than the threshold until the circuit opens, and from then on at most
      threshold + maxRetries + (maxRetries+1) * floor(elapsed / reset) calls, counting the retries
      after the opening and however the callers cancel, as long as no probe can meet a counter about
      to wrap around. */
  lemma OutageLoadBound<T>(l: Limits, maxRetries: int, cs: seq<Call<T>>)
    requires l.threshold < TWO31 && l.reset > 0 && maxRetries >= 0
    requires Outage(History(l, maxRetries + 1, cs)) && Monotone(History(l, maxRetries + 1, cs))
    requires Countable(l, maxRetries, History(l, maxRetries + 1, cs))
    ensures var h := History(l, maxRetries + 1, cs);
            match FirstOpened(l, h)
            case None => Calls(h) < Effective(l)
            case Some(t0) => h != [] && Calls(h) <= LoadBound(l, maxRetries, t0, h[|h| - 1].at)
  {
    var h := History(l, maxRetries + 1, cs);
    var k := OutageRun(l, maxRetries, cs);
    if FirstOpened(l, h).Some? {
      FloorCounts(k, l.reset, h[|h| - 1].at - FirstOpened(l, h).value, maxRetries + 1);
    }
  }

  /** The bound for the executes of ExecuteWithResilience, in numbers: threshold - 1 calls while the
      circuit never opened, then threshold + maxRetries and maxRetries+1 more per reset timeout. */
  lemma OutageOfExecutes<T>(l: Limits, maxRetries: int, cs: seq<Call<T>>)
    requires 1 <= l.threshold < TWO31 && l.reset > 0 && 1 <= maxRetries < MAX_INT64
    requires var h := History(l, LastAttempt(maxRetries), cs);
             Outage(h) && Monotone(h) && Countable(l, maxRetries, h)
    ensures var h := History(l, LastAttempt(maxRetries), cs);
            match FirstOpened(l, h)
            case None => Calls(h) <= l.threshold - 1
            case Some(t0) =>
              h != [] && Calls(h) <= l.threshold + maxRetries + (maxRetries + 1) * ((h[|h| - 1].at - t0) / l.reset)
  {
    assert LastAttempt(maxRetries) == maxRetries + 1;
    OutageLoadBound(l, maxRetries, cs);
  }

  // ---------- The bound is reached ----------

  /** m executes cancelled after one attempt, then n full ones, one reset timeout apart. */
  function WorstRun(reset: Time, m: nat, n: nat): seq<Call<()>> {
    if n > 0 then WorstRun(reset, m, n - 1) + [Failing((n - 1) * reset, false)]
    else if m > 0 then WorstRun(reset, m - 1, 0) + [Failing(0, true)]
    else []
  }

  /** All clock readings of an outage lie between zero and `last`. */
  ghost predicate Within(h: seq<Event>, last: Time)
    requires Outage(h)
  {
    forall i | 0 <= i < |h| :: 0 <= h[i].at <= last
  }

  lemma FailingEvents(l: Limits, last: int, h: seq<Event>, at: Time, quits: bool)
    requires last >= 2 && Admits(l, Run(l, h), at)
    ensures var c := Failing(at, quits);
            var events := Execute(l, last, h, at, c.env).events;
            && |events| == (if quits then 2 else last + 1)
            && events[0] == Asked(at)
            && forall j | 1 <= j < |events| :: events[j] == Failed(at)
  {
    var c := Failing(at, quits);
    ExecuteMeaning(l, last, h, at, c.env);
    var x := Execute(l, last, h, at, c.env);
    assert forall j: nat | 1 <= j < last :: GoesOn(last, c.env, j) <==> !quits;
    forall j | 1 <= j <= x.attempts ensures x.events[j] == Failed(at) {
      assert x.events[j] == Reported(c.env(j));
    }
  }

  /** Appending one failing execute to an outage. */
  lemma FailingAppended(l: Limits, last: int, g: seq<Event>, at: Time, quits: bool, n: nat) returns (h: seq<Event>)
    requires last >= 2 && at >= 0 && Admits(l, Run(l, g), at)
    requires Outage(g) && Monotone(g) && Within(g, at) && n == (if quits then 1 else last)
    ensures h == g + Execute(l, last, g, at, Failing(at, quits).env).events
    ensures Outage(h) && Monotone(h) && Within(h, at)
    ensures Calls(h) == TrailingFailures(h) == Calls(g) + n
    ensures h != [] && h[|h| - 1] == Failed(at)
  {
    FailingEvents(l, last, g, at, quits);
    var events := Execute(l, last, g, at, Failing(at, quits).env).events;
    hide Run, Execute, Calls, Admits, TrailingFailures;
    h := g + events;
    CallsOfExecution(events);
    CallsAppend(g, events);
    forall i | 0 <= i < |h|
      ensures !h[i].Succeeded? && (i >= |g| ==> h[i].at == at) && (i < |g| ==> h[i] == g[i])
    {
      if i >= |g| { assert h[i] == events[i - |g|]; }
    }
    OutageCallsAreFailures(h);
  }

  lemma {:induction false} QuitsStayClosed(l: Limits, last: int, m: nat)
    requires last >= 2 && m < Effective(l) && l.threshold < TWO31 && l.reset > 0
    ensures var h := History(l, last, WorstRun(l.reset, m, 0));
            && Outage(h) && Monotone(h) && Within(h, 0)
            && Calls(h) == TrailingFailures(h) == m
            && Run(l, h).state.Closed?
  {
    if m > 0 {
      QuitsStayClosed(l, last, m - 1);
      var cs := WorstRun(l.reset, m, 0);
      assert cs[..|cs| - 1] == WorstRun(l.reset, m - 1, 0);
      var h := FailingAppended(l, last, History(l, last, WorstRun(l.reset, m - 1, 0)), 0, true, 1);
      assert h == History(l, last, cs);
    }
    ClosedBelowThreshold(l, History(l, last, WorstRun(l.reset, m, 0)));
  }

  /** The outage has made `calls` calls, the last one failing at time `at`, and opened at zero. */
  ghost predicate Worst(l: Limits, h: seq<Event>, at: Time, calls: int) {
    && Outage(h) && Monotone(h) && Within(h, at)
    && Calls(h) == TrailingFailures(h) == calls
    && h != [] && h[|h| - 1] == Failed(at)
    && Run(l, h).state.Open? && Run(l, h).lastFailure == at
    && FirstOpened(l, h) == Some(0)
  }

  lemma FirstFullExecute(l: Limits, last: int, g: seq<Event>)
    requires l.threshold < TWO31 && last >= 2
    requires Outage(g) && Monotone(g) && Within(g, 0)
    requires Calls(g) == TrailingFailures(g) == Effective(l) - 1
    ensures Worst(l, g + Execute(l, last, g, 0, Failing(0, false).env).events, 0, Effective(l) - 1 + last)
  {
    ClosedBelowThreshold(l, g);
    var events := Execute(l, last, g, 0, Failing(0, false).env).events;
    FailingEvents(l, last, g, 0, false);
    var h := FailingAppended(l, last, g, 0, false, last);
    var i := OpenedIffTripped(l, g);
    i := OpenedIffTripped(l, h);
    LastStep(l, g, events);
    OpenedWithin(l, g, events);
  }

  lemma NextFullExecute(l: Limits, last: int, g: seq<Event>, at: Time, calls: int)
    requires Effective(l) <= calls < TWO31 - 1 && last >= 2
    requires at >= 0 && l.reset > 0 && Worst(l, g, at, calls)
    ensures Worst(l, g + Execute(l, last, g, at + l.reset, Failing(at + l.reset, false).env).events,
                  at + l.reset, calls + last)
  {
    var events := Execute(l, last, g, at + l.reset, Failing(at + l.reset, false).env).events;
    FailingEvents(l, last, g, at + l.reset, false);
    var h := FailingAppended(l, last, g, at + l.reset, false, last);
    OpenedStays(l, g, events);
    LastStep(l, g, events);
    ProbeReopens(l, g, events);
  }

  lemma NextMultiple(a: int, n: int)
    ensures a * n == a * (n - 1) + a && n * a == (n - 1) * a + a
  {
  }

  /** The calls of the worst outage with n probes. */
  function MostCalls(l: Limits, maxRetries: nat, n: nat): int {
    Effective(l) + maxRetries + (maxRetries + 1) * n
  }

  lemma OneMoreProbe(l: Limits, maxRetries: nat, n: nat)
    requires n >= 1 && l.reset > 0
    ensures MostCalls(l, maxRetries, n) == MostCalls(l, maxRetries, n - 1) + maxRetries + 1
    ensures MostCalls(l, maxRetries, n - 1) >= Effective(l)
    ensures CounterHolds(l, maxRetries, n) ==> MostCalls(l, maxRetries, n - 1) < TWO31 - 1 && CounterHolds(l, maxRetries, n - 1)
    ensures n * l.reset == (n - 1) * l.reset + l.reset && (n - 1) * l.reset >= 0
  {
    NextMultiple(maxRetries + 1, n);
    NextMultiple(l.reset, n);
    NotNegative(n - 1, l.reset);
    NotNegative(maxRetries + 1, n - 1);
  }

  lemma NotNegative(a: int, b: int)
    requires a >= 0 && b >= 0
    ensures a * b >= 0
  {
  }

  lemma WorstRunGrows(l: Limits, last: int, m: nat, n: nat)
    ensures var g := History(l, last, WorstRun(l.reset, m, n));
            History(l, last, WorstRun(l.reset, m, n + 1)) ==
            g + Execute(l, last, g, n * l.reset, Failing(n * l.reset, false).env).events
  {
    var cs := WorstRun(l.reset, m, n + 1);
    assert cs[..|cs| - 1] == WorstRun(l.reset, m, n);
    hide Execute;
  }

  lemma {:induction false} ProbesReachBound(l: Limits, maxRetries: int, n: nat)
    requires l.reset > 0 && l.threshold < TWO31 && maxRetries >= 1 && CounterHolds(l, maxRetries, n)
    ensures Worst(l, History(l, maxRetries + 1, WorstRun(l.reset, Effective(l) - 1, n + 1)),
                  n * l.reset, MostCalls(l, maxRetries, n))
  {
    var last, m := maxRetries + 1, Effective(l) - 1;
    WorstRunGrows(l, last, m, n);
    var g := History(l, last, WorstRun(l.reset, m, n));
    hide Worst, Run, Execute, History, Calls, TrailingFailures, FirstOpened, WorstRun, Failing;
    if n == 0 {
      QuitsStayClosed(l, last, m);
      FirstFullExecute(l, last, g);
    } else {
      OneMoreProbe(l, maxRetries, n);
      hide Effective, MostCalls, CounterHolds;
      ProbesReachBound(l, maxRetries, n - 1);
      NextProbe(l, last, g, (n - 1) * l.reset, MostCalls(l, maxRetries, n - 1), n * l.reset, MostCalls(l, maxRetries, n));
    }
  }

  lemma NextProbe(l: Limits, last: int, g: seq<Event>, at: Time, calls: int, next: Time, more: int)
    requires Effective(l) <= calls < TWO31 - 1 && last >= 2 && more == calls + last
    requires at >= 0 && l.reset > 0 && Worst(l, g, at, calls) && next == at + l.reset
    ensures Worst(l, g + Execute(l, last, g, next, Failing(next, false).env).events, next, more)
  {
    NextFullExecute(l, last, g, at, calls);
  }

  /** The bound cannot be lowered: for every number n of reset timeouts for which it holds, some outage
      makes exactly the calls it allows. */
  lemma OutageLoadBoundIsReached(l: Limits, maxRetries: int, n: nat) returns (cs: seq<Call<()>>)
    requires l.reset > 0 && l.threshold < TWO31 && maxRetries >= 1 && CounterHolds(l, maxRetries, n)
    ensures var h := History(l, maxRetries + 1, cs);
            && Outage(h) && Monotone(h) && h != []
            && FirstOpened(l, h) == Some(0) && h[|h| - 1].at == n * l.reset
            && Calls(h) == LoadBound(l, maxRetries, 0, n * l.reset)
  {
    cs := WorstRun(l.reset, Effective(l) - 1, n + 1);
    ProbesReachBound(l, maxRetries, n);
    hide Run, Execute, History, Calls, TrailingFailures, FirstOpened, WorstRun;
    ExactQuotient(n, l.reset);
  }

  // ---------- When the bound is lost ----------

  /** The outage has made `calls` calls, the last one failing at time `at`, opened at zero and has not
      closed since. */
  ghost predicate Over(l: Limits, h: seq<Event>, at: Time, calls: int) {
    && Outage(h) && Monotone(h) && Within(h, at)
    && Calls(h) == TrailingFailures(h) == calls
    && h != [] && h[|h| - 1] == Failed(at)
    && !Run(l, h).state.Closed? && Run(l, h).lastFailure == at
    && FirstOpened(l, h) == Some(0)
  }

  lemma {:induction false} NeverCloses(l: Limits, g: seq<Event>, events: seq<Event>)
    requires !Run(l, g).state.Closed? && forall j | 0 <= j < |events| :: !events[j].Succeeded?
    ensures !Run(l, g + events).state.Closed?
  {
    if events == [] {
      assert g + events == g;
    } else {
      LastStep(l, g, events);
      NeverCloses(l, g, events[..|events| - 1]);
    }
  }

  /** One more execute, whatever the counter. */
  lemma OverNext(l: Limits, last: int, g: seq<Event>, at: Time, calls: int, next: Time, quits: bool, n: nat)
    requires last >= 2 && 0 <= at <= next && Over(l, g, at, calls) && Admits(l, Run(l, g), next)
    requires n == (if quits then 1 else last)
    ensures Over(l, g + Execute(l, last, g, next, Failing(next, quits).env).events, next, calls + n)
  {
    var events := Execute(l, last, g, next, Failing(next, quits).env).events;
    FailingEvents(l, last, g, next, quits);
    assert Within(g, next);
    var h := FailingAppended(l, last, g, next, quits, n);
    OpenedStays(l, g, events);
    LastStep(l, g, events);
    NeverCloses(l, g, events);
  }

  /** A probe that meets the wrap: its one failure leaves the circuit HalfOpen. */
  lemma WrapsHalfOpen(l: Limits, last: int, g: seq<Event>, at: Time, calls: int)
    requires l.threshold >= 1 && l.reset > 0 && last >= 2 && at >= 0
    requires Worst(l, g, at, calls) && TWO31 - 1 <= calls < 2 * TWO31 - 1
    ensures var h := g + Execute(l, last, g, at + l.reset, Failing(at + l.reset, true).env).events;
            Over(l, h, at + l.reset, calls + 1) && Run(l, h).state.HalfOpen?
  {
    hide Run, TrailingFailures, FirstOpened, Calls, Execute, Monotone, Within;
    assert Over(l, g, at, calls);
    OverNext(l, last, g, at, calls, at + l.reset, true, 1);
    FailedOnce(l, last, g, at + l.reset);
    hide Over, Worst;
    WrapStaysHalfOpen(l, g, at + l.reset);
  }

  lemma WrapStaysHalfOpen(l: Limits, g: seq<Event>, next: Time)
    requires l.threshold >= 1 && Run(l, g).state.Open? && Elapsed(l, Run(l, g), next)
    requires TWO31 - 1 <= TrailingFailures(g) < 2 * TWO31 - 1
    ensures Run(l, g + [Asked(next), Failed(next)]).state.HalfOpen?
  {
    var n := TrailingFailures(g);
    CounterIsTrailingRun(l, g);
    Int32Step(n);
    assert ToInt32(n + 1) == n + 1 - TWO32;
    assert g + [Asked(next), Failed(next)] == g + [Asked(next)] + [Failed(next)];
    RunAppend(l, g, Asked(next));
    RunAppend(l, g + [Asked(next)], Failed(next));
    hide Run, TrailingFailures, ToInt32, NextInt32;
  }

  /** The first number of reset timeouts whose last probe can meet the wrap. */
  lemma FirstWrap(l: Limits, maxRetries: int, k: nat) returns (m: nat)
    requires maxRetries >= 1 && !CounterHolds(l, maxRetries, k)
    ensures 1 <= m <= k && !CounterHolds(l, maxRetries, m) && CounterHolds(l, maxRetries, m - 1)
  {
    if CounterHolds(l, maxRetries, k - 1) {
      m := k;
    } else {
      m := FirstWrap(l, maxRetries, k - 1);
    }
  }

  lemma CallsAtWrap(l: Limits, maxRetries: nat, m: nat)
    requires 1 <= l.threshold < TWO31 && 1 <= maxRetries < TWO31 && m >= 1
    requires !CounterHolds(l, maxRetries, m) && CounterHolds(l, maxRetries, m - 1)
    ensures TWO31 - 1 <= MostCalls(l, maxRetries, m - 1) < 2 * TWO31 - 1
  {
    NextMultiple(maxRetries + 1, m);
  }

  /** The worst outage up to the wrap, then one execute that its caller gives up after one attempt, and
      a full execute at the same moment. */
  lemma OverloadStarts(l: Limits, maxRetries: nat, m: nat) returns (cs: seq<Call<()>>)
    requires 1 <= l.threshold < TWO31 && l.reset > 0 && 1 <= maxRetries < TWO31 && m >= 1
    requires !CounterHolds(l, maxRetries, m) && CounterHolds(l, maxRetries, m - 1)
    ensures Over(l, History(l, maxRetries + 1, cs), m * l.reset, MostCalls(l, maxRetries, m) + 1)
  {
    var last, calls := maxRetries + 1, MostCalls(l, maxRetries, m - 1);
    OneMoreProbe(l, maxRetries, m);
    CallsAtWrap(l, maxRetries, m);
    ProbesReachBound(l, maxRetries, m - 1);
    cs := WorstRun(l.reset, Effective(l) - 1, m);
    cs := WrappedAndFull(l, last, cs, (m - 1) * l.reset, calls, m * l.reset);
    hide Over, Worst, History, Effective;
  }

  lemma WrappedAndFull(l: Limits, last: int, cs: seq<Call<()>>, at: Time, calls: int, next: Time)
    returns (more: seq<Call<()>>)
    requires l.threshold >= 1 && l.reset > 0 && last >= 2 && at >= 0 && next == at + l.reset
    requires Worst(l, History(l, last, cs), at, calls) && TWO31 - 1 <= calls < 2 * TWO31 - 1
    ensures Over(l, History(l, last, more), next, calls + 1 + last)
  {
    hide Worst, Over, Run, Execute, History;
    more := Wrapped(l, last, cs, at, calls);
    AdmitsHalfOpen(l, Run(l, History(l, last, more)), next);
    more := OneMoreOver(l, last, more, next, calls + 1, next);
  }

  lemma Wrapped(l: Limits, last: int, cs: seq<Call<()>>, at: Time, calls: int) returns (more: seq<Call<()>>)
    requires l.threshold >= 1 && l.reset > 0 && last >= 2 && at >= 0
    requires Worst(l, History(l, last, cs), at, calls) && TWO31 - 1 <= calls < 2 * TWO31 - 1
    ensures Over(l, History(l, last, more), at + l.reset, calls + 1) && Run(l, History(l, last, more)).state.HalfOpen?
  {
    hide Worst, Over, Run, Execute, History;
    WrapsHalfOpen(l, last, History(l, last, cs), at, calls);
    OneMoreFailing(l, last, cs, at + l.reset, true);
    more := cs + [Failing(at + l.reset, true)];
  }

  /** One more full execute. */
  lemma OneMoreOver(l: Limits, last: int, cs: seq<Call<()>>, at: Time, calls: int, next: Time) returns (more: seq<Call<()>>)
    requires last >= 2 && 0 <= at <= next && Over(l, History(l, last, cs), at, calls)
    requires Admits(l, Run(l, History(l, last, cs)), next)
    ensures Over(l, History(l, last, more), next, calls + last)
  {
    hide Over, Run, Execute, History, Admits;
    OverNext(l, last, History(l, last, cs), at, calls, next, false, last);
    OneMoreFailing(l, last, cs, next, false);
    more := cs + [Failing(next, false)];
  }

  /** From the wrap on, a full execute after every further reset timeout. */
  lemma {:induction false} Overload(l: Limits, maxRetries: nat, m: nat, k: nat) returns (cs: seq<Call<()>>)
    requires 1 <= l.threshold < TWO31 && l.reset > 0 && 1 <= maxRetries < TWO31 && 1 <= m <= k
    requires !CounterHolds(l, maxRetries, m) && CounterHolds(l, maxRetries, m - 1)
    ensures Over(l, History(l, maxRetries + 1, cs), k * l.reset, MostCalls(l, maxRetries, k) + 1)
    decreases k
  {
    if k == m {
      cs := OverloadStarts(l, maxRetries, m);
    } else {
      cs := Overload(l, maxRetries, m, k - 1);
      OneMoreProbe(l, maxRetries, k);
      var at, next, calls := (k - 1) * l.reset, k * l.reset, MostCalls(l, maxRetries, k - 1) + 1;
      AdmitsLater(l, maxRetries + 1, cs, at, calls, next);
      hide Over, Run, Execute, History, MostCalls, Effective, CounterHolds, Admits;
      cs := OneMoreOver(l, maxRetries + 1, cs, at, calls, next);
    }
  }

  lemma AdmitsLater(l: Limits, last: int, cs: seq<Call<()>>, at: Time, calls: int, next: Time)
    requires Over(l, History(l, last, cs), at, calls) && next == at + l.reset
    ensures Admits(l, Run(l, History(l, last, cs)), next)
  {
    hide Run, History, FirstOpened, Calls, TrailingFailures;
  }

  lemma AdmitsHalfOpen(l: Limits, b: Breaker, now: Time)
    requires b.state.HalfOpen?
    ensures Admits(l, b, now)
  {
  }

  lemma OneMoreFailing(l: Limits, last: int, cs: seq<Call<()>>, at: Time, quits: bool)
    ensures History(l, last, cs + [Failing(at, quits)]) ==
            History(l, last, cs) + Execute(l, last, History(l, last, cs), at, Failing(at, quits).env).events
  {
    assert (cs + [Failing(at, quits)])[..|cs|] == cs;
    hide Execute;
  }

  /** An outage that opened the circuit and has lasted k whole reset timeouts since. */
  ghost predicate Lasts<T>(l: Limits, maxRetries: int, cs: seq<Call<T>>, k: nat)
    requires l.reset > 0
  {
    var h := History(l, maxRetries + 1, cs);
    && Outage(h) && Monotone(h) && h != [] && FirstOpened(l, h).Some?
    && (h[|h| - 1].at - FirstOpened(l, h).value) / l.reset == k
  }

  /** The exact reach of the bound: every outage that has lasted k whole reset timeouts respects it if and
      only if k is zero or threshold + (maxRetries+1) * k is below 2^31. */
  lemma OutageLoadBoundIff(l: Limits, maxRetries: nat, k: nat)
    requires 1 <= l.threshold < TWO31 && l.reset > 0 && 1 <= maxRetries < TWO31
    ensures (forall cs: seq<Call<()>> | Lasts(l, maxRetries, cs, k) ::
               Calls(History(l, maxRetries + 1, cs)) <= l.threshold + maxRetries + (maxRetries + 1) * k) <==>
            k == 0 || l.threshold + (maxRetries + 1) * k < TWO31
  {
    hide History, Outage, Monotone, FirstOpened, Calls;
    if CounterHolds(l, maxRetries, k) {
      forall cs: seq<Call<()>> | Lasts(l, maxRetries, cs, k)
        ensures Calls(History(l, maxRetries + 1, cs)) <= l.threshold + maxRetries + (maxRetries + 1) * k
      {
        OutageLoadBound(l, maxRetries, cs);
      }
    } else {
      var m := FirstWrap(l, maxRetries, k);
      var cs := Overload(l, maxRetries, m, k);
      assert Lasts(l, maxRetries, cs, k) by { ExactQuotient(k, l.reset); }
    }
  }
}
