/** How many backend calls a sequential run of the Rust execute makes while the backend is down. */
module RustOutageLaws {
  import opened Wrappers
  import opened Words
  import opened RustBreaker
  import opened RustExecutor
  import opened RustExecutorLaws

  /** No attempt is ever acknowledged. */
  predicate Failing(calls: seq<Request>) {
    forall i | 0 <= i < |calls| :: calls[i].attempts >= 1 && !calls[i].env(calls[i].attempts).acked
  }

  /** The clock readings of one execute never go back. */
  predicate Ordered(x: Request) {
    && x.now <= x.env(1).endedAt
    && forall i, j | 1 <= i <= j <= x.attempts :: x.env(i).endedAt <= x.env(j).endedAt
  }

  /** The backend calls of a run. */
  function CallsMade(c: Config, calls: seq<Request>): nat
    requires Failing(calls)
  {
    if calls == [] then 0
    else
      var before, x := calls[..|calls| - 1], calls[|calls| - 1];
      CallsMade(c, before) + if Admits(c, AfterCalls(c, before), x.now) then x.attempts else 0
  }

  lemma {:induction false} AllCallsFailed(c: Config, calls: seq<Request>)
    requires Failing(calls)
    ensures CallsMade(c, calls) == Trailing(c, calls)
  {
    if calls != [] {
      AllCallsFailed(c, calls[..|calls| - 1]);
    }
  }

  /** The last clock reading of a run. */
  function LastReading(c: Config, calls: seq<Request>): Time
    requires Failing(calls) && calls != []
  {
    var x := calls[|calls| - 1];
    if Admits(c, AfterCalls(c, calls[..|calls| - 1]), x.now) then x.env(x.attempts).endedAt else x.now
  }

  /** Nor do those of the whole run. */
  predicate InOrder(c: Config, calls: seq<Request>)
    requires Failing(calls)
  {
    calls != [] ==>
      var before, x := calls[..|calls| - 1], calls[|calls| - 1];
      && InOrder(c, before) && Ordered(x)
      && (before != [] ==> LastReading(c, before) <= x.now)
  }

  /** When the failure came that first opened the circuit. */
  function OpenedAt(c: Config, calls: seq<Request>): Option<Time>
    requires Failing(calls)
  {
    if calls == [] then None
    else
      var before, x := calls[..|calls| - 1], calls[|calls| - 1];
      var missing := Effective(c) - Trailing(c, before);
      if OpenedAt(c, before).Some? then OpenedAt(c, before)
      else if Admits(c, AfterCalls(c, before), x.now) && 1 <= missing <= x.attempts then Some(x.env(missing).endedAt)
      else None
  }

  /** The state of an outage after k admitted probes. */
  ghost predicate Probed(c: Config, maxRetries: U32, calls: seq<Request>, k: nat)
    requires Failing(calls)
  {
    var b := AfterCalls(c, calls);
    match OpenedAt(c, calls)
    case None => b.circuit.Closed? && Trailing(c, calls) < Effective(c)
    case Some(t0) =>
      && calls != [] && b.circuit.Open? && b.last.Some?
      && Effective(c) <= Trailing(c, calls) <= Effective(c) + maxRetries + (maxRetries + 1) * k
      && t0 + k * c.reset <= b.last.value <= LastReading(c, calls)
  }

  /** The counter either has not wrapped around or cannot harm. */
  predicate Countable(c: Config, maxRetries: U32, failures: nat) {
    AlwaysTrips(c, maxRetries) || failures < TWO32
  }

  lemma FirstOpening(c: Config, maxRetries: U32, before: seq<Request>, x: Request)
    requires Genuine(maxRetries, before + [x]) && Failing(before + [x]) && InOrder(c, before + [x]) && Failing(before)
    requires Probed(c, maxRetries, before, 0) && OpenedAt(c, before).None?
    ensures Probed(c, maxRetries, before + [x], 0)
  {
    var calls := before + [x];
    assert calls[..|before|] == before && calls[|before|] == x;
    assert forall i | 0 <= i < |before| :: before[i] == calls[i];
    var b := AfterCalls(c, before);
    OneMoreCall(c, before, x);
    CounterIsTrailing(c, maxRetries, before);
    CountsTogether(Trailing(c, before), 0);
    assert StopsAt(maxRetries, x.env, x.attempts);
    FailuresExactly(c, AfterAsk(c, b, x.now), x.env, x.attempts);
    BelowIff(c, b.count, x.attempts);
    hide AfterFailures, Below, AfterCalls, Trailing;
    assert AfterAsk(c, b, x.now) == b;
  }

  lemma NextProbe(c: Config, maxRetries: U32, before: seq<Request>, x: Request, k: nat)
    requires Genuine(maxRetries, before + [x]) && Failing(before + [x]) && InOrder(c, before + [x]) && Failing(before)
    requires Probed(c, maxRetries, before, k) && OpenedAt(c, before).Some?
    requires Admits(c, AfterCalls(c, before), x.now)
    requires Countable(c, maxRetries, Trailing(c, before + [x]))
    ensures Probed(c, maxRetries, before + [x], k + 1)
  {
    var calls := before + [x];
    assert calls[..|before|] == before && calls[|before|] == x;
    var b := AfterCalls(c, before);
    OneMoreCall(c, before, x);
    CounterIsTrailing(c, maxRetries, before);
    assert StopsAt(maxRetries, x.env, x.attempts);
    FailuresExactly(c, AfterAsk(c, b, x.now), x.env, x.attempts);
    NeverHalfOpenBetweenExecutes(c, maxRetries, calls);
    hide AfterFailures, Below, AfterCalls, Trailing;
    assert (k + 1) * c.reset == k * c.reset + c.reset;
    assert (maxRetries + 1) * (k + 1) == (maxRetries + 1) * k + maxRetries + 1;
  }

  lemma RefusedProbe(c: Config, maxRetries: U32, before: seq<Request>, x: Request, k: nat)
    requires Failing(before + [x]) && InOrder(c, before + [x]) && Failing(before)
    requires Probed(c, maxRetries, before, k) && !Admits(c, AfterCalls(c, before), x.now)
    ensures Probed(c, maxRetries, before + [x], k)
  {
    var calls := before + [x];
    assert calls[..|before|] == before && calls[|before|] == x;
    OneMoreCall(c, before, x);
    hide AfterCalls, AfterFailures;
  }

  lemma {:induction false} OutageRun(c: Config, maxRetries: U32, calls: seq<Request>) returns (k: nat)
    requires Genuine(maxRetries, calls) && Failing(calls) && InOrder(c, calls)
    requires Countable(c, maxRetries, Trailing(c, calls))
    ensures Probed(c, maxRetries, calls, k)
  {
    if calls == [] {
      k := 0;
    } else {
      var before, x := calls[..|calls| - 1], calls[|calls| - 1];
      assert calls == before + [x];
      k := OutageRun(c, maxRetries, before);
      hide Probed, AfterCalls;
      if !Admits(c, AfterCalls(c, before), x.now) {
        RefusedProbe(c, maxRetries, before, x, k);
      } else if OpenedAt(c, before).None? {
        k := StartOver(c, maxRetries, before, k);
        FirstOpening(c, maxRetries, before, x);
      } else {
        NextProbe(c, maxRetries, before, x, k);
        k := k + 1;
      }
    }
  }

  lemma StartOver(c: Config, maxRetries: U32, calls: seq<Request>, k: nat) returns (zero: nat)
    requires Failing(calls) && Probed(c, maxRetries, calls, k) && OpenedAt(c, calls).None?
    ensures zero == 0 && Probed(c, maxRetries, calls, 0)
  {
    zero := 0;
  }

  /** Outage load bound: in a sequential run of executes whose attempts all fail, the backend sees fewer
      calls than the threshold until the circuit opens, and from then on at most
      threshold + maxRetries + (maxRetries+1) * floor(elapsed / reset), as long as the counter has not
      wrapped around, and for ever in a configuration in which every failed execute meets the
      threshold. A threshold of zero acts as one. */
  lemma OutageLoadBound(c: Config, maxRetries: U32, calls: seq<Request>)
    requires c.reset > 0
    requires Genuine(maxRetries, calls) && Failing(calls) && InOrder(c, calls)
    requires AlwaysTrips(c, maxRetries) || CallsMade(c, calls) < TWO32
    ensures var first := if c.threshold == 0 then 1 else c.threshold;
            match OpenedAt(c, calls)
            case None => CallsMade(c, calls) < first && AfterCalls(c, calls).circuit.Closed?
            case Some(t0) =>
              && calls != [] && AfterCalls(c, calls).circuit.Open?
              && first <= CallsMade(c, calls)
              && CallsMade(c, calls) <= first + maxRetries + (maxRetries + 1) * ((LastReading(c, calls) - t0) / c.reset)
  {
    AllCallsFailed(c, calls);
    var k := OutageRun(c, maxRetries, calls);
    if OpenedAt(c, calls).Some? {
      Floor(k, c.reset, LastReading(c, calls) - OpenedAt(c, calls).value, maxRetries + 1);
    }
    hide AfterCalls, Trailing, CallsMade, OpenedAt, LastReading;
  }

  lemma Floor(k: nat, reset: Time, elapsed: Time, perProbe: nat)
    requires reset > 0 && k * reset <= elapsed
    ensures perProbe * k <= perProbe * (elapsed / reset)
  {
    var q := elapsed / reset;
    assert q + 1 <= k ==> (q + 1) * reset <= k * reset;
  }

  // ---------- When the bound is lost ----------

  /** n paced executes have made `total` calls, and the circuit opened in number f. */
  ghost predicate Opened(c: Config, m: nat, calls: seq<Request>, n: nat, total: nat, f: nat)
    requires Failing(calls)
  {
    && InOrder(c, calls) && CallsMade(c, calls) == total
    && (n == 0 ==> calls == []) && (n > 0 ==> calls != [] && LastReading(c, calls) == (n - 1) * c.reset)
    && (OpenedAt(c, calls).Some? <==> total >= Effective(c))
    && (OpenedAt(c, calls).Some? ==>
          1 <= f <= n && f * m >= Effective(c) && OpenedAt(c, calls).value == (f - 1) * c.reset)
  }

  lemma {:induction false} PacedOutage(c: Config, maxRetries: U32, n: nat, total: nat) returns (f: nat)
    requires maxRetries + 1 < TWO32 && c.reset > 0 && total == n * (maxRetries + 1)
    ensures Failing(Paced(c.reset, maxRetries + 1, n))
    ensures Opened(c, maxRetries + 1, Paced(c.reset, maxRetries + 1, n), n, total, f)
    decreases n
  {
    if n == 0 {
      f := 0;
    } else {
      NextMultiple(n - 1, maxRetries + 1);
      f := PacedOutage(c, maxRetries, n - 1, total - (maxRetries + 1));
      f := OneMorePacedOutage(c, maxRetries, n - 1, total - (maxRetries + 1), f);
    }
  }

  lemma OneMorePacedOutage(c: Config, maxRetries: U32, n: nat, total: nat, f: nat) returns (f': nat)
    requires maxRetries + 1 < TWO32 && c.reset > 0 && total == n * (maxRetries + 1)
    requires Failing(Paced(c.reset, maxRetries + 1, n))
    requires Opened(c, maxRetries + 1, Paced(c.reset, maxRetries + 1, n), n, total, f)
    ensures Failing(Paced(c.reset, maxRetries + 1, n + 1))
    ensures Opened(c, maxRetries + 1, Paced(c.reset, maxRetries + 1, n + 1), n + 1, total + maxRetries + 1, f')
  {
    PacedAsk(c, maxRetries, n);
    var before, x := Paced(c.reset, maxRetries + 1, n), FailingRequest(n * c.reset, maxRetries + 1);
    assert Paced(c.reset, maxRetries + 1, n + 1) == before + [x];
    f' := OneMoreOpened(c, maxRetries + 1, before, x, n, total, f);
    hide *;
  }

  lemma PacedAsk(c: Config, maxRetries: U32, n: nat)
    requires maxRetries + 1 < TWO32
    ensures var calls := Paced(c.reset, maxRetries + 1, n);
            Trailing(c, calls) == n * (maxRetries + 1) && Admits(c, AfterCalls(c, calls), n * c.reset)
  {
    PacedRun(c, maxRetries, n);
    OneMorePaced(c, maxRetries, n);
    hide AfterCalls, Trailing, Genuine, Below, Paced, Admits;
  }

  /** What one more failing execute adds to a run. */
  lemma OneMoreReading(c: Config, before: seq<Request>, x: Request)
    requires Failing(before) && x.attempts >= 1 && !x.env(x.attempts).acked && Admits(c, AfterCalls(c, before), x.now)
    ensures var calls := before + [x];
            && Failing(calls)
            && CallsMade(c, calls) == CallsMade(c, before) + x.attempts
            && LastReading(c, calls) == x.env(x.attempts).endedAt
            && (InOrder(c, before) && Ordered(x) && (before != [] ==> LastReading(c, before) <= x.now) ==> InOrder(c, calls))
  {
    hide AfterCalls, Admits, Ordered;
    var calls := before + [x];
    assert calls[..|before|] == before && calls[|before|] == x;
    assert forall i | 0 <= i < |before| :: calls[i] == before[i];
  }

  lemma LastOpening(c: Config, calls: seq<Request>)
    requires Failing(calls) && calls != []
    ensures var before, x := calls[..|calls| - 1], calls[|calls| - 1];
            var missing := Effective(c) - Trailing(c, before);
            OpenedAt(c, calls) ==
            if OpenedAt(c, before).Some? then OpenedAt(c, before)
            else if Admits(c, AfterCalls(c, before), x.now) && 1 <= missing <= x.attempts then Some(x.env(missing).endedAt)
            else None
  {
    hide AfterCalls, Admits, Effective, Trailing;
  }

  lemma OneMoreOpening(c: Config, before: seq<Request>, x: Request)
    requires Failing(before) && Failing(before + [x]) && x.attempts >= 1 && Admits(c, AfterCalls(c, before), x.now)
    ensures OpenedAt(c, before + [x]) ==
            var missing := Effective(c) - Trailing(c, before);
            if OpenedAt(c, before).Some? then OpenedAt(c, before)
            else if 1 <= missing <= x.attempts then Some(x.env(missing).endedAt) else None
  {
    hide *;
    var calls := before + [x];
    LastOpening(c, calls);
    assert calls[..|calls| - 1] == before && calls[|calls| - 1] == x;
  }

  lemma OneMoreOpened(c: Config, m: nat, before: seq<Request>, x: Request, n: nat, total: nat, f: nat) returns (f': nat)
    requires m >= 1 && c.reset > 0 && Failing(before) && Opened(c, m, before, n, total, f)
    requires Trailing(c, before) == total == n * m
    requires x == FailingRequest(n * c.reset, m) && Admits(c, AfterCalls(c, before), x.now)
    ensures Failing(before + [x])
    ensures Opened(c, m, before + [x], n + 1, total + m, f')
  {
    f' := if OpenedAt(c, before).Some? then f else n + 1;
    NextMultiple(n, m);
    NextMultiple(n - 1, c.reset);
    RequestFacts(n * c.reset, m);
    hide FailingRequest;
    OneMoreReading(c, before, x);
    OneMoreOpening(c, before, x);
    hide AfterCalls, Admits, Effective, Trailing, InOrder, OpenedAt, LastReading, CallsMade, Failing, Ordered;
  }

  lemma NextMultiple(n: int, m: int)
    ensures (n + 1) * m == n * m + m
  {
  }

  lemma RequestFacts(at: Time, m: nat)
    requires m >= 1
    ensures var x := FailingRequest(at, m);
            x.now == at && x.attempts == m && Ordered(x) && forall i: nat :: x.env(i).endedAt == at && !x.env(i).acked
  {
  }

  /** In a configuration that does not always trip some outage goes over the bound: a run of failing
      executes that wraps the counter leaves the circuit HalfOpen, and one more comes at once. */
  lemma BoundIsLost(c: Config, maxRetries: U32) returns (calls: seq<Request>)
    requires c.reset > 0 && !AlwaysTrips(c, maxRetries)
    ensures Genuine(maxRetries, calls) && Failing(calls) && InOrder(c, calls)
    ensures OpenedAt(c, calls).Some? && calls != []
    ensures CallsMade(c, calls) >
            c.threshold + maxRetries + (maxRetries + 1) * ((LastReading(c, calls) - OpenedAt(c, calls).value) / c.reset)
  {
    var k := WrappedCounterStaysHalfOpen(c, maxRetries);
    var m, n := maxRetries + 1, k + 1;
    var paced := Paced(c.reset, m, n);
    var f := PacedOutage(c, maxRetries, n, n * m);
    var x := FailingRequest(k * c.reset, m);
    calls := paced + [x];
    AtOnce(c, m, paced, x, n, f);
    assert StopsAt(maxRetries, x.env, x.attempts);
    assert Genuine(maxRetries, calls);
    hide AfterCalls, Opened, InOrder, OpenedAt, LastReading, CallsMade, Genuine;
    OverBound(m, c.threshold, c.reset, n, f);
  }

  lemma AtOnce(c: Config, m: nat, paced: seq<Request>, x: Request, n: nat, f: nat)
    requires n >= 1 && m >= 1 && c.reset > 0 && Failing(paced) && Opened(c, m, paced, n, n * m, f) && n * m >= Effective(c)
    requires x == FailingRequest((n - 1) * c.reset, m) && AfterCalls(c, paced).circuit.HalfOpen?
    ensures var calls := paced + [x];
            && Failing(calls) && InOrder(c, calls) && CallsMade(c, calls) == n * m + m
            && LastReading(c, calls) == (n - 1) * c.reset
            && 1 <= f <= n && f * m >= Effective(c) && OpenedAt(c, calls) == Some((f - 1) * c.reset)
  {
    OneMoreReading(c, paced, x);
    OneMoreOpening(c, paced, x);
    hide AfterCalls, Effective, Trailing, InOrder, OpenedAt, LastReading, CallsMade;
  }

  lemma OverBound(m: nat, threshold: nat, reset: Time, n: nat, f: nat)
    requires m >= 1 && reset > 0 && 1 <= f <= n && f * m >= threshold
    ensures n * m + m > threshold + m - 1 + m * (((n - 1) * reset - (f - 1) * reset) / reset)
  {
    assert (n - 1) * reset - (f - 1) * reset == (n - f) * reset;
    Exactly(n - f, reset);
    assert m * (n - f) == n * m - f * m;
  }

  lemma Exactly(k: nat, reset: Time)
    requires reset > 0
    ensures k * reset / reset == k
  {
    var q := k * reset / reset;
    assert k + 1 <= q ==> (k + 1) * reset <= q * reset;
    assert q + 1 <= k ==> (q + 1) * reset <= k * reset;
  }

  /** An outage that has opened the circuit. */
  ghost predicate OpenOutage(c: Config, maxRetries: U32, calls: seq<Request>) {
    Genuine(maxRetries, calls) && Failing(calls) && InOrder(c, calls) && calls != [] && OpenedAt(c, calls).Some?
  }

  /** The exact condition on the configuration: every outage that opened the circuit respects the bound,
      however long it lasts, if and only if the threshold is at most max_retries, or is max_retries + 1
      and even. */
  lemma OutageLoadBoundIff(c: Config, maxRetries: U32)
    requires c.reset > 0 && c.threshold >= 1
    ensures (forall calls | OpenOutage(c, maxRetries, calls) ::
               CallsMade(c, calls) <= c.threshold + maxRetries
                 + (maxRetries + 1) * ((LastReading(c, calls) - OpenedAt(c, calls).value) / c.reset)) <==>
            c.threshold <= maxRetries || (c.threshold == maxRetries + 1 && c.threshold % 2 == 0)
  {
    if AlwaysTrips(c, maxRetries) {
      forall calls | OpenOutage(c, maxRetries, calls)
        ensures CallsMade(c, calls) <= c.threshold + maxRetries
                  + (maxRetries + 1) * ((LastReading(c, calls) - OpenedAt(c, calls).value) / c.reset)
      {
        OutageLoadBound(c, maxRetries, calls);
        hide AfterCalls, OpenedAt, LastReading, CallsMade, Genuine, InOrder;
      }
    } else {
      var calls := BoundIsLost(c, maxRetries);
      hide AfterCalls, OpenedAt, LastReading, CallsMade, Genuine, InOrder;
      assert OpenOutage(c, maxRetries, calls);
    }
  }
}
