/** The Go circuit breaker (go/resilience.go). Every method runs under one mutex, so a run of the
    breaker is a sequence of events, and the breaker is a class whose methods append one event each.
    The module proves what the fields mean in terms of that sequence alone. */
module GoBreaker {
  import opened Words

  /** Readings of the monotonic clock and durations, in nanoseconds. */
  type Time = int


  /** Go's conversion to int32. */
  function ToInt32(n: int): (r: int)
    ensures -TWO31 <= r < TWO31
    ensures -TWO31 <= n < TWO31 ==> r == n
  {
    (n + TWO31) % TWO32 - TWO31
  }

  /** The conversion keeps the value modulo 2^32. */
  lemma ToInt32Wraps(n: int)
    ensures (n - ToInt32(n)) % TWO32 == 0
  {
    var q := (n + TWO31) / TWO32;
    assert n - ToInt32(n) == TWO32 * q;
  }

  /** Adding one to an int32, with its wrap-around. */
  function NextInt32(n: int): int {
    if n == TWO31 - 1 then -TWO31 else n + 1
  }

  lemma Int32Step(n: int)
    ensures NextInt32(ToInt32(n)) == ToInt32(n + 1)
  {
  }

  datatype CircuitState = Closed | Open | HalfOpen

  /** The code of a state in the metrics. */
  function Code(s: CircuitState): int {
    match s
    case Closed => 0
    case Open => 1
    case HalfOpen => 2
  }

  datatype Limits = Limits(threshold: int, reset: Time)

  /** The mutable fields of the breaker. */
  datatype Breaker = Breaker(state: CircuitState, failures: int, lastFailure: Time)

  const FRESH := Breaker(Closed, 0, 0)

  /** One call of a breaker method, with the clock reading the call made. */
  datatype Event = Asked(at: Time) | Succeeded | Failed(at: Time)

  /** The number of failures in a row from which the breaker trips: a threshold that the conversion
      to int32 made zero or negative acts as one. */
  function Effective(l: Limits): (t: int)
  {
    if l.threshold < 1 then 1 else l.threshold
  }

  predicate Elapsed(l: Limits, b: Breaker, now: Time) {
    now - b.lastFailure >= l.reset
  }

  predicate Admits(l: Limits, b: Breaker, now: Time) {
    b.state.Open? ==> Elapsed(l, b, now)
  }

  function Step(l: Limits, b: Breaker, e: Event): Breaker {
    match e
    case Asked(now) => if b.state.Open? && Elapsed(l, b, now) then b.(state := HalfOpen) else b
    case Succeeded => b.(state := Closed, failures := 0)
    case Failed(now) =>
      var failures := NextInt32(b.failures);
      Breaker(if failures >= l.threshold then Open else b.state, failures, now)
  }

  function Run(l: Limits, h: seq<Event>): Breaker {
    if h == [] then FRESH else Step(l, Run(l, h[..|h| - 1]), h[|h| - 1])
  }

  /** NewCircuitBreaker: defaults for non-positive arguments, then the conversion to int32. */
  function NewLimits(threshold: int, reset: Time): Limits {
    Limits(ToInt32(if threshold <= 0 then 5 else threshold),
           if reset <= 0 then 30_000_000_000 else reset)
  }

  class CircuitBreaker {
    var state: CircuitState
    var consecutiveFailures: int
    var lastFailureTime: Time
    const failureThreshold: int
    const resetTimeout: Time
    ghost var history: seq<Event>

    ghost function Limit(): Limits {
      Limits(failureThreshold, resetTimeout)
    }

    ghost function Fields(): Breaker
      reads this
    {
      Breaker(state, consecutiveFailures, lastFailureTime)
    }

    ghost predicate Valid()
      reads this
    {
      Fields() == Run(Limit(), history)
    }

    constructor (threshold: int, reset: Time)
      ensures Valid() && history == []
      ensures Limit() == NewLimits(threshold, reset)
      ensures state.Closed? && consecutiveFailures == 0
      ensures resetTimeout == if reset <= 0 then 30_000_000_000 else reset
      ensures threshold <= 0 ==> failureThreshold == 5
      ensures 1 <= threshold < TWO31 ==> failureThreshold == threshold
      ensures threshold >= TWO31 ==> (threshold - failureThreshold) % TWO32 == 0 && -TWO31 <= failureThreshold < TWO31
    {
      ToInt32Wraps(threshold);
      var t, r := threshold, reset;
      if t <= 0 { t := 5; }
      if r <= 0 { r := 30_000_000_000; }
      state, consecutiveFailures, lastFailureTime := Closed, 0, 0;
      failureThreshold, resetTimeout := ToInt32(t), r;
      history := [];
    }

    method CanExecute(now: Time) returns (ok: bool)
      requires Valid()
      modifies this
      ensures Valid() && history == old(history) + [Asked(now)]
      ensures ok <==> old(state.Open? ==> now - lastFailureTime >= resetTimeout)
      ensures state == (if old(state).Open? && ok then HalfOpen else old(state))
      ensures consecutiveFailures == old(consecutiveFailures) && lastFailureTime == old(lastFailureTime)
      ensures ok == old(Admits(Limit(), Fields(), now))
    {
      match state {
        case Closed =>
          ok := true;
        case Open =>
          ok := now - lastFailureTime >= resetTimeout;
          if ok {
            state := HalfOpen;
          }
        case HalfOpen =>
          ok := true;
      }
      history := history + [Asked(now)];
    }

    method OnSuccess()
      requires Valid()
      modifies this
      ensures Valid() && history == old(history) + [Succeeded]
      ensures state.Closed? && consecutiveFailures == 0 && lastFailureTime == old(lastFailureTime)
    {
      consecutiveFailures := 0;
      state := Closed;
      history := history + [Succeeded];
    }

    method OnFailure(now: Time)
      requires Valid()
      modifies this
      ensures Valid() && history == old(history) + [Failed(now)]
      ensures consecutiveFailures == if old(consecutiveFailures) == TWO31 - 1 then -TWO31 else old(consecutiveFailures) + 1
      ensures lastFailureTime == now
      ensures state == if consecutiveFailures >= failureThreshold then Open else old(state)
    {
      lastFailureTime := now;
      consecutiveFailures := NextInt32(consecutiveFailures);
      if consecutiveFailures >= failureThreshold {
        state := Open;
      }
      history := history + [Failed(now)];
    }

    /** The gauge tells the three states apart: it is the code of the state of the history. */
    method StateCode() returns (code: int)
      requires Valid()
      ensures code == Code(Run(Limit(), history).state)
      ensures code == if state.Closed? then 0 else if state.Open? then 1 else 2
    {
      match state {
        case Closed =>
          code := 0;
        case Open =>
          code := 1;
        case HalfOpen =>
          code := 2;
      }
    }
  }

  // ---------- What the fields mean, read off the history alone ----------

  /** Failures since the last success. */
  function TrailingFailures(h: seq<Event>): nat {
    if h == [] then 0
    else match h[|h| - 1]
      case Succeeded => 0
      case Failed(_) => TrailingFailures(h[..|h| - 1]) + 1
      case Asked(_) => TrailingFailures(h[..|h| - 1])
  }

  /** Index i holds the last failure among the first k events. */
  ghost predicate LastFailure(h: seq<Event>, i: int, k: int) {
    && 0 <= i < k <= |h|
    && h[i].Failed?
    && forall j | i < j < k :: !h[j].Failed?
  }

  /** Event k is a CanExecute made at least the reset timeout after the failure before it. */
  ghost predicate LateAsk(l: Limits, h: seq<Event>, k: int) {
    && 0 <= k < |h|
    && h[k].Asked?
    && exists i :: LastFailure(h, i, k) && h[k].at - h[i].at >= l.reset
  }

  /** Event k is a failure that found the (wrapping) counter at or above the threshold. */
  ghost predicate Trips(l: Limits, h: seq<Event>, k: int) {
    && 0 <= k < |h|
    && h[k].Failed?
    && ToInt32(TrailingFailures(h[..k + 1])) >= l.threshold
  }

  /** A late CanExecute that no failure that trips comes after. */
  ghost predicate ProbedSinceTrip(l: Limits, h: seq<Event>) {
    exists k :: LateAsk(l, h, k) && forall j | k < j < |h| :: !Trips(l, h, j)
  }

  /** A late CanExecute that no failure at all comes after. */
  ghost predicate ProbedSinceFailure(l: Limits, h: seq<Event>) {
    exists k :: LateAsk(l, h, k) && forall j | k < j < |h| :: !h[j].Failed?
  }

  lemma PrefixKeepsMeaning(l: Limits, g: seq<Event>, e: Event)
    ensures forall i, k :: k <= |g| ==> (LastFailure(g + [e], i, k) <==> LastFailure(g, i, k))
    ensures forall k :: k < |g| ==> (LateAsk(l, g + [e], k) <==> LateAsk(l, g, k))
    ensures forall k :: k < |g| ==> (Trips(l, g + [e], k) <==> Trips(l, g, k))
  {
    var h := g + [e];
    forall i, k | k <= |g|
      ensures LastFailure(h, i, k) <==> LastFailure(g, i, k)
    {
      if LastFailure(h, i, k) {
        forall j | i < j < k ensures !g[j].Failed? { assert h[j] == g[j]; }
      }
    }
    forall k | 0 <= k < |g| ensures Trips(l, h, k) <==> Trips(l, g, k) {
      assert h[..k + 1] == g[..k + 1];
    }
    forall k | k < |g| ensures LateAsk(l, h, k) <==> LateAsk(l, g, k) {
      if LateAsk(l, h, k) {
        var i :| LastFailure(h, i, k) && h[k].at - h[i].at >= l.reset;
        assert LastFailure(g, i, k);
      }
      if LateAsk(l, g, k) {
        var i :| LastFailure(g, i, k) && g[k].at - g[i].at >= l.reset;
        assert LastFailure(h, i, k);
      }
    }
  }

  lemma {:induction false} RunHasLastFailure(h: seq<Event>) returns (i: int)
    requires TrailingFailures(h) > 0
    ensures LastFailure(h, i, |h|) && TrailingFailures(h[..i + 1]) == TrailingFailures(h)
  {
    var g, e := h[..|h| - 1], h[|h| - 1];
    if e.Failed? {
      i := |h| - 1;
      assert h[..i + 1] == h;
    } else {
      i := RunHasLastFailure(g);
      assert h[..i + 1] == g[..i + 1];
      forall j | i < j < |h| ensures !h[j].Failed? {
        if j < |g| { assert h[j] == g[j]; }
      }
    }
  }

  /** How one more event changes whether the circuit was probed since it last tripped. */
  lemma ProbeStep(l: Limits, g: seq<Event>, e: Event)
    ensures var h := g + [e];
            ProbedSinceTrip(l, h) <==>
            (ProbedSinceTrip(l, g) && !Trips(l, h, |g|)) || LateAsk(l, h, |g|)
  {
    var h := g + [e];
    PrefixKeepsMeaning(l, g, e);
    if ProbedSinceTrip(l, g) && !Trips(l, h, |g|) {
      var k :| LateAsk(l, g, k) && forall j | k < j < |g| :: !Trips(l, g, j);
      assert LateAsk(l, h, k) && forall j | k < j < |h| :: !Trips(l, h, j);
    }
    if ProbedSinceTrip(l, h) && !LateAsk(l, h, |g|) {
      var k :| LateAsk(l, h, k) && forall j | k < j < |h| :: !Trips(l, h, j);
      assert LateAsk(l, g, k) && forall j | k < j < |g| :: !Trips(l, g, j);
    }
  }

  lemma {:induction false} CounterIsTrailingRun(l: Limits, h: seq<Event>)
    ensures Run(l, h).failures == ToInt32(TrailingFailures(h))
  {
    if h != [] {
      CounterIsTrailingRun(l, h[..|h| - 1]);
      Int32Step(TrailingFailures(h[..|h| - 1]));
    }
  }

  lemma {:induction false} ClosedBelowThreshold(l: Limits, h: seq<Event>)
    requires l.threshold < TWO31
    ensures Run(l, h).state.Closed? <==> TrailingFailures(h) < Effective(l)
  {
    CounterIsTrailingRun(l, h);
    if h != [] {
      ClosedBelowThreshold(l, h[..|h| - 1]);
    }
  }

  lemma {:induction false} StampIsLastFailure(l: Limits, h: seq<Event>, i: int)
    requires LastFailure(h, i, |h|)
    ensures Run(l, h).lastFailure == h[i].at
  {
    var g, e := h[..|h| - 1], h[|h| - 1];
    if !e.Failed? {
      assert forall j | 0 <= j < |g| :: h[j] == g[j];
      StampIsLastFailure(l, g, i);
    }
  }

  lemma LateAskIsElapsed(l: Limits, g: seq<Event>, now: Time)
    requires TrailingFailures(g) > 0
    ensures LateAsk(l, g + [Asked(now)], |g|) <==> Elapsed(l, Run(l, g), now)
  {
    var h := g + [Asked(now)];
    PrefixKeepsMeaning(l, g, Asked(now));
    var i := RunHasLastFailure(g);
    assert LastFailure(h, i, |g|);
    StampIsLastFailure(l, g, i);
    if LateAsk(l, h, |g|) {
      var j :| LastFailure(h, j, |g|) && h[|g|].at - h[j].at >= l.reset;
      assert LastFailure(g, j, |g|);
      StampIsLastFailure(l, g, j);
    }
  }

  /** The breaker is a function of its history: the counter is the trailing run of failures (as an
      int32), the circuit is Closed exactly while that run is shorter than the threshold, and a
      circuit that is not Closed is HalfOpen exactly when a late CanExecute followed the last trip. */
  lemma {:induction false} BreakerIsItsHistory(l: Limits, h: seq<Event>)
    requires l.threshold < TWO31
    ensures Run(l, h).failures == ToInt32(TrailingFailures(h))
    ensures Run(l, h).state.Closed? <==> TrailingFailures(h) < Effective(l)
    ensures Run(l, h).state.HalfOpen? <==> TrailingFailures(h) >= Effective(l) && ProbedSinceTrip(l, h)
  {
    CounterIsTrailingRun(l, h);
    ClosedBelowThreshold(l, h);
    if TrailingFailures(h) >= Effective(l) {
      var g, e := h[..|h| - 1], h[|h| - 1];
      assert h == g + [e] && h[..|g| + 1] == h;
      BreakerIsItsHistory(l, g);
      ProbeStep(l, g, e);
      match e {
        case Asked(now) => LateAskIsElapsed(l, g, now);
        case Succeeded =>
        case Failed(now) => HalfOpenAfterFailure(l, g, now);
      }
    }
  }

  lemma HalfOpenAfterFailure(l: Limits, g: seq<Event>, now: Time)
    requires l.threshold < TWO31
    ensures var h := g + [Failed(now)];
            Trips(l, h, |g|) <==> NextInt32(Run(l, g).failures) >= l.threshold
    ensures TrailingFailures(g) < Effective(l) <= TrailingFailures(g + [Failed(now)])
            ==> Trips(l, g + [Failed(now)], |g|)
  {
    var h := g + [Failed(now)];
    assert h[..|g| + 1] == h && h[..|g|] == g;
    CounterIsTrailingRun(l, g);
    Int32Step(TrailingFailures(g));
    assert TrailingFailures(h) == TrailingFailures(g) + 1;
  }

  /** While the counter has not wrapped, "since the last trip" is "since the last failure": the
      circuit is Open exactly when it has tripped and was not probed after its last failure. */
  lemma OpenUntilProbed(l: Limits, h: seq<Event>)
    requires l.threshold < TWO31
    requires TrailingFailures(h) < TWO31
    ensures Run(l, h).state.Open? <==> TrailingFailures(h) >= Effective(l) && !ProbedSinceFailure(l, h)
  {
    BreakerIsItsHistory(l, h);
    if TrailingFailures(h) >= Effective(l) {
      var last := RunHasLastFailure(h);
      assert Trips(l, h, last);
      if ProbedSinceTrip(l, h) {
        var k :| LateAsk(l, h, k) && forall j | k < j < |h| :: !Trips(l, h, j);
        assert last <= k;
      }
      if ProbedSinceFailure(l, h) {
        var k :| LateAsk(l, h, k) && forall j | k < j < |h| :: !h[j].Failed?;
        assert forall j | k < j < |h| :: !Trips(l, h, j);
      }
    }
  }

  lemma {:induction false} FailuresInARow(n: nat, at: Time)
    ensures TrailingFailures(seq(n, _ => Failed(at))) == n
  {
    if n > 0 {
      FailuresInARow(n - 1, at);
      assert seq(n, _ => Failed(at))[..n - 1] == seq(n - 1, _ => Failed(at));
    }
  }

  /** OpenUntilProbed needs its bound: the failure that wraps the counter to a negative number does
      not re-open a HalfOpen circuit, so the circuit keeps admitting calls after a failed probe. */
  lemma WrappedCounterStaysHalfOpen(l: Limits)
    requires 1 <= l.threshold < TWO31
    ensures var h := seq(TWO31 - 1, _ => Failed(0)) + [Asked(l.reset), Failed(l.reset)];
            && TrailingFailures(h) == TWO31
            && !ProbedSinceFailure(l, h)
            && Run(l, h).state.HalfOpen?
  {
    var f := seq(TWO31 - 1, _ => Failed(0));
    var p := f + [Asked(l.reset)];
    var h := p + [Failed(l.reset)];
    assert h == f + [Asked(l.reset), Failed(l.reset)];
    FailuresInARow(TWO31 - 1, 0);
    assert p[..|f|] == f && h[..|p|] == p && h[..|h|] == h;
    assert LastFailure(p, |f| - 1, |f|);
    assert LateAsk(l, p, |f|);
    ProbeStep(l, f, Asked(l.reset));
    ProbeStep(l, p, Failed(l.reset));
    BreakerIsItsHistory(l, h);
    forall k | LateAsk(l, h, k) ensures h[|h| - 1].Failed? && k < |h| - 1 { }
  }
}
