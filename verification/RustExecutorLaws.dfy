/** What the breaker of rust/src/resilience.rs is between the executes of a sequential run, the
    wrap-around of its u32 counter included. */
module RustExecutorLaws {
  import opened Wrappers
  import opened Words
  import opened Backoff
  import opened RustBreaker
  import opened RustExecutor

  /** One call of execute in a sequential run, and the attempt it stops at if it is admitted. */
  datatype Request = Request(now: Time, env: Script, attempts: nat)

  ghost predicate Genuine(maxRetries: U32, calls: seq<Request>) {
    forall i | 0 <= i < |calls| :: StopsAt(maxRetries, calls[i].env, calls[i].attempts)
  }

  function AfterCalls(c: Config, calls: seq<Request>): Breaker
    requires forall i | 0 <= i < |calls| :: calls[i].attempts >= 1
  {
    if calls == [] then Breaker(Closed, 0, None)
    else
      var x := calls[|calls| - 1];
      AfterExecute(c, AfterCalls(c, calls[..|calls| - 1]), x.now, x.env, x.attempts)
  }

  /** Failed attempts since the last successful execute. */
  function Trailing(c: Config, calls: seq<Request>): nat
    requires forall i | 0 <= i < |calls| :: calls[i].attempts >= 1
  {
    if calls == [] then 0
    else
      var before, x := calls[..|calls| - 1], calls[|calls| - 1];
      if !Admits(c, AfterCalls(c, before), x.now) then Trailing(c, before)
      else if x.env(x.attempts).acked then 0
      else Trailing(c, before) + x.attempts
  }

  // ---------- One execute ----------

  /** The counter j failures after it was k. */
  function CountAfter(k: nat, j: nat): nat {
    (k + j) % TWO32
  }

  /** None of the next n failures meets the threshold. */
  ghost predicate Below(c: Config, k: nat, n: nat) {
    forall j | 1 <= j <= n :: CountAfter(k, j) < c.threshold
  }

  lemma {:induction false} FailuresExactly(c: Config, b: Breaker, env: Script, n: nat)
    requires b.count < TWO32
    ensures var a := AfterFailures(c, b, env, n);
            && a.count == CountAfter(b.count, n)
            && a.circuit == (if Below(c, b.count, n) then b.circuit else Open)
            && (n > 0 ==> a.last == Some(env(n).endedAt))
  {
    NextCount(b.count);
    if n > 0 {
      FailuresExactly(c, b, env, n - 1);
      NextCount(b.count + n - 1);
      assert CountAfter(b.count, n) == (CountAfter(b.count, n - 1) + 1) % TWO32;
      assert Below(c, b.count, n) <==> Below(c, b.count, n - 1) && CountAfter(b.count, n) < c.threshold;
      hide Below, CountAfter;
    }
  }

  lemma CountIs(k: nat, j: nat)
    requires k < TWO32 && j < TWO32
    ensures CountAfter(k, j) == if k + j < TWO32 then k + j else k + j - TWO32
  {
    if k + j < TWO32 {
      NextCount(k + j);
    } else {
      assert k + j == TWO32 + (k + j - TWO32);
    }
  }

  /** A stretch of the counter stays below the threshold only short of it or right behind the wrap. */
  lemma BelowIff(c: Config, k: nat, n: nat)
    requires k < TWO32 && 1 <= n < TWO32
    ensures Below(c, k, n) <==> k + n < c.threshold || (k == TWO32 - 1 && n <= c.threshold)
  {
    hide CountAfter;
    forall j | 1 <= j <= n ensures CountAfter(k, j) == if k + j < TWO32 then k + j else k + j - TWO32 {
      CountIs(k, j);
    }
    assert CountAfter(k, n) == if k + n < TWO32 then k + n else k + n - TWO32;
    if k < TWO32 - 1 && k + n >= TWO32 {
      assert CountAfter(k, TWO32 - 1 - k) == TWO32 - 1;
    }
    if k == TWO32 - 1 && n > c.threshold {
      assert CountAfter(k, c.threshold + 1) == c.threshold;
    }
  }

  /** When one execute leaves the circuit HalfOpen. */
  lemma ExecuteLeavesHalfOpenIff(c: Config, maxRetries: U32, b: Breaker, x: Request)
    requires StopsAt(maxRetries, x.env, x.attempts) && b.count < TWO32
    ensures var a := AfterExecute(c, b, x.now, x.env, x.attempts);
            a.circuit.HalfOpen? <==>
            if Admits(c, b, x.now) then
              && !b.circuit.Closed? && !x.env(x.attempts).acked
              && (b.count + maxRetries + 1 < c.threshold || (b.count == TWO32 - 1 && maxRetries + 1 <= c.threshold))
            else b.circuit.HalfOpen?
  {
    if Admits(c, b, x.now) && !x.env(x.attempts).acked {
      FailuresExactly(c, AfterAsk(c, b, x.now), x.env, x.attempts);
      BelowIff(c, b.count, x.attempts);
    }
    hide Below, AfterFailures;
  }

  // ---------- Sequential runs ----------

  lemma CountsTogether(m: nat, n: nat)
    ensures CountAfter(m % TWO32, n) == (m + n) % TWO32
    ensures m < TWO32 ==> m % TWO32 == m
  {
    var q, r := m / TWO32, m % TWO32;
    assert m + n == TWO32 * q + (r + n);
    var p := (r + n) / TWO32;
    assert m + n == TWO32 * (q + p) + (r + n) % TWO32;
  }

  /** The counter is the number of failures since the last success, as a u32. */
  lemma {:induction false} CounterIsTrailing(c: Config, maxRetries: U32, calls: seq<Request>)
    requires Genuine(maxRetries, calls)
    ensures AfterCalls(c, calls).count == Trailing(c, calls) % TWO32
  {
    if calls != [] {
      var before, x := calls[..|calls| - 1], calls[|calls| - 1];
      CounterIsTrailing(c, maxRetries, before);
      var b := AfterCalls(c, before);
      assert StopsAt(maxRetries, x.env, x.attempts);
      CountsTogether(Trailing(c, before), x.attempts);
      if Admits(c, b, x.now) && !x.env(x.attempts).acked {
        FailuresExactly(c, AfterAsk(c, b, x.now), x.env, x.attempts);
      }
      hide AfterFailures, StopsAt, CountAfter;
    }
  }

  lemma EvenRemainder(k: nat)
    requires k % 2 == 0
    ensures (k % TWO32) % 2 == 0
  {
    var q := k / TWO32;
    assert k == 2 * (0x8000_0000 * q) + k % TWO32;
  }

  /** An even number of attempts keeps the number of failures even. */
  lemma {:induction false} TrailingIsEven(c: Config, maxRetries: U32, calls: seq<Request>)
    requires Genuine(maxRetries, calls) && maxRetries % 2 == 1
    ensures Trailing(c, calls) % 2 == 0
  {
    if calls != [] {
      var before, x := calls[..|calls| - 1], calls[|calls| - 1];
      TrailingIsEven(c, maxRetries, before);
      assert StopsAt(maxRetries, x.env, x.attempts);
      assert x.env(x.attempts).acked || x.attempts == maxRetries + 1;
      hide AfterCalls, Admits, StopsAt, Genuine;
      EvenSum(Trailing(c, before), maxRetries + 1);
    }
  }

  lemma EvenSum(a: nat, b: nat)
    requires a % 2 == 0 && b % 2 == 0
    ensures (a + b) % 2 == 0
  {
  }

  lemma CounterStaysEven(c: Config, maxRetries: U32, calls: seq<Request>)
    requires Genuine(maxRetries, calls) && maxRetries % 2 == 1
    ensures AfterCalls(c, calls).count % 2 == 0
  {
    CounterIsTrailing(c, maxRetries, calls);
    TrailingIsEven(c, maxRetries, calls);
    EvenRemainder(Trailing(c, calls));
  }

  /** Configurations in which every failed execute meets the threshold, wherever the counter stands. */
  predicate AlwaysTrips(c: Config, maxRetries: U32) {
    c.threshold <= maxRetries || (c.threshold == maxRetries + 1 && maxRetries % 2 == 1)
  }

  /** Between sequential executes the circuit is never HalfOpen: in a configuration that always trips
      after any run, and in the others as long as the counter has not wrapped around. */
  lemma {:induction false} NeverHalfOpenBetweenExecutes(c: Config, maxRetries: U32, calls: seq<Request>)
    requires Genuine(maxRetries, calls)
    ensures AlwaysTrips(c, maxRetries) || Trailing(c, calls) < TWO32 ==> !AfterCalls(c, calls).circuit.HalfOpen?
    ensures Trailing(c, calls) < TWO32 && AfterCalls(c, calls).circuit.Open? ==> AfterCalls(c, calls).count >= c.threshold
  {
    if calls != [] {
      var before, x := calls[..|calls| - 1], calls[|calls| - 1];
      var b := AfterCalls(c, before);
      NeverHalfOpenBetweenExecutes(c, maxRetries, before);
      CounterIsTrailing(c, maxRetries, before);
      CounterIsTrailing(c, maxRetries, calls);
      CountsTogether(Trailing(c, before), x.attempts);
      CountsTogether(Trailing(c, calls), 0);
      if maxRetries % 2 == 1 {
        CounterStaysEven(c, maxRetries, before);
      }
      assert StopsAt(maxRetries, x.env, x.attempts);
      ExecuteLeavesHalfOpenIff(c, maxRetries, b, x);
      if Admits(c, b, x.now) && !x.env(x.attempts).acked {
        FailuresExactly(c, AfterAsk(c, b, x.now), x.env, x.attempts);
        BelowIff(c, b.count, x.attempts);
      }
      hide AfterFailures, CountAfter, Below;
    }
  }

  // ---------- Where it is lost ----------

  /** An execute whose attempts all fail at the time it was asked. */
  function FailingRequest(at: Time, attempts: nat): Request {
    Request(at, (i: nat) => Attempt(false, false, "backend down", at), attempts)
  }

  /** n failing executes of m attempts, each a reset timeout after the one before. */
  function Paced(reset: Time, m: nat, n: nat): (calls: seq<Request>)
    ensures forall i | 0 <= i < |calls| :: calls[i].attempts == m
  {
    if n == 0 then [] else Paced(reset, m, n - 1) + [FailingRequest((n - 1) * reset, m)]
  }

  lemma OneMoreCall(c: Config, calls: seq<Request>, x: Request)
    requires forall i | 0 <= i < |calls| :: calls[i].attempts >= 1
    requires x.attempts >= 1
    ensures AfterCalls(c, calls + [x]) == AfterExecute(c, AfterCalls(c, calls), x.now, x.env, x.attempts)
    ensures Admits(c, AfterCalls(c, calls), x.now) && !x.env(x.attempts).acked ==>
              Trailing(c, calls + [x]) == Trailing(c, calls) + x.attempts
  {
    assert (calls + [x])[..|calls|] == calls;
  }

  /** One more failing execute, asked as soon as an Open circuit admits it. */
  lemma OneMorePaced(c: Config, maxRetries: U32, n: nat)
    requires maxRetries + 1 < TWO32 && Genuine(maxRetries, Paced(c.reset, maxRetries + 1, n))
    requires var b := AfterCalls(c, Paced(c.reset, maxRetries + 1, n));
             if n == 0 then b.circuit.Closed? else b.last == Some((n - 1) * c.reset)
    ensures Genuine(maxRetries, Paced(c.reset, maxRetries + 1, n + 1))
    ensures var calls, more := Paced(c.reset, maxRetries + 1, n), Paced(c.reset, maxRetries + 1, n + 1);
            var b, a := AfterCalls(c, calls), AfterCalls(c, more);
            && Trailing(c, more) == Trailing(c, calls) + maxRetries + 1
            && a.last == Some(n * c.reset)
            && Admits(c, b, n * c.reset)
            && a.circuit == (if !Below(c, b.count, maxRetries + 1) then Open
                             else if b.circuit.Open? then HalfOpen else b.circuit)
  {
    var calls := Paced(c.reset, maxRetries + 1, n);
    var b, x := AfterCalls(c, calls), FailingRequest(n * c.reset, maxRetries + 1);
    assert n > 0 ==> n * c.reset == (n - 1) * c.reset + c.reset;
    OneMoreCall(c, calls, x);
    CounterIsTrailing(c, maxRetries, calls);
    FailuresExactly(c, AfterAsk(c, b, x.now), x.env, x.attempts);
    assert StopsAt(maxRetries, x.env, x.attempts);
    hide AfterCalls, Trailing, AfterFailures, Below, StopsAt;
  }

  /** The breaker after n paced executes of `total` failures. */
  ghost predicate PacedState(c: Config, maxRetries: U32, n: nat, total: nat) {
    var calls := Paced(c.reset, maxRetries + 1, n);
    var b := AfterCalls(c, calls);
    && Genuine(maxRetries, calls) && Trailing(c, calls) == total
    && (if n == 0 then b.circuit.Closed? else b.last == Some((n - 1) * c.reset))
    && (total >= Effective(c) ==> !b.circuit.Closed?)
  }

  lemma PacedStep(c: Config, maxRetries: U32, n: nat, total: nat)
    requires maxRetries + 1 < TWO32 && PacedState(c, maxRetries, n, total)
    ensures PacedState(c, maxRetries, n + 1, total + maxRetries + 1)
  {
    OneMorePaced(c, maxRetries, n);
    var before := Paced(c.reset, maxRetries + 1, n);
    CounterIsTrailing(c, maxRetries, before);
    CountsTogether(total, 0);
    BelowIff(c, AfterCalls(c, before).count, maxRetries + 1);
    hide AfterCalls, Trailing, Genuine, Below, CountAfter, Paced, Admits;
  }

  /** n failing executes open the circuit once the failures reach the threshold, and never close it. */
  lemma {:induction false} PacedRun(c: Config, maxRetries: U32, n: nat)
    requires maxRetries + 1 < TWO32
    ensures PacedState(c, maxRetries, n, n * (maxRetries + 1))
  {
    if n > 0 {
      PacedRun(c, maxRetries, n - 1);
      var total := (n - 1) * (maxRetries + 1);
      assert n * (maxRetries + 1) == total + maxRetries + 1;
      hide PacedState;
      PacedStep(c, maxRetries, n - 1, total);
    }
  }

  /** An odd number has an inverse modulo every power of two. */
  lemma Inverse(m: nat, j: nat) returns (x: nat, q: nat)
    requires m % 2 == 1
    ensures x * m == 1 + Pow2(j) * q
  {
    if j == 0 {
      x, q := 1, m - 1;
    } else {
      x, q := Inverse(m, j - 1);
      var p := Pow2(j - 1);
      assert Pow2(j) == 2 * p;
      hide Pow2;
      x, q := Lifted(x, q, m, p);
    }
  }

  lemma Lifted(x: nat, q: nat, m: nat, p: nat) returns (x': nat, q': nat)
    requires m % 2 == 1 && x * m == 1 + p * q
    ensures x' * m == 1 + (2 * p) * q'
  {
    if q % 2 == 0 {
      LiftedEven(x, q, m, p);
      return x, q / 2;
    } else {
      LiftedOdd(x, q, m, p);
      return x + p, (q + m) / 2;
    }
  }

  lemma LiftedEven(x: nat, q: nat, m: nat, p: nat)
    requires q % 2 == 0 && x * m == 1 + p * q
    ensures x * m == 1 + (2 * p) * (q / 2)
  {
    Halved(p, q);
  }

  lemma LiftedOdd(x: nat, q: nat, m: nat, p: nat)
    requires q % 2 == 1 && m % 2 == 1 && x * m == 1 + p * q
    ensures (x + p) * m == 1 + (2 * p) * ((q + m) / 2)
  {
    Distributed(x, p, m, q);
    Halved(p, q + m);
  }

  lemma Halved(p: nat, q: nat)
    requires q % 2 == 0
    ensures p * q == (2 * p) * (q / 2)
  {
    var h := q / 2;
    assert q == 2 * h;
    assert p * (2 * h) == (2 * p) * h;
  }

  lemma Distributed(x: nat, p: nat, m: nat, q: nat)
    requires x * m == 1 + p * q
    ensures (x + p) * m == 1 + p * (q + m)
  {
    assert (x + p) * m == x * m + p * m && p * (q + m) == p * q + p * m;
  }

  lemma Pow2Of32()
    ensures Pow2(32) == TWO32
  {
    assert Pow2(8) == 0x100;
    assert Pow2(16) == 0x1_0000;
    assert Pow2(24) == 0x100_0000;
  }

  /** Some number of executes of m failures, m odd, brings the counter right before the wrap. */
  lemma BeforeTheWrap(m: nat) returns (n: nat)
    requires m % 2 == 1
    ensures n >= 1 && (n * m) % TWO32 == TWO32 - 1
  {
    var x, q := Inverse(m, 32);
    Pow2Of32();
    hide Pow2;
    n := x * (TWO32 - 1);
    Regrouped(x, m);
    JustBelow(n * m, x * m, q);
    assert n == 0 ==> n * m == 0;
  }

  lemma JustBelow(a: nat, y: nat, q: nat)
    requires y == 1 + TWO32 * q && a == y * (TWO32 - 1)
    ensures a % TWO32 == TWO32 - 1
  {
    assert a == TWO32 * (y - q - 1) + (TWO32 - 1);
  }

  lemma Regrouped(x: nat, m: nat)
    ensures (x * (TWO32 - 1)) * m == (x * m) * (TWO32 - 1)
  {
    var y := x * m;
    assert (x * (TWO32 - 1)) * m == TWO32 * y - y;
  }

  /** In every configuration that does not always trip, some run of failing executes, a reset timeout
      apart, leaves the circuit HalfOpen, admitting every caller although the backend has only failed. */
  lemma WrappedCounterStaysHalfOpen(c: Config, maxRetries: U32) returns (n: nat)
    requires !AlwaysTrips(c, maxRetries)
    ensures var calls := Paced(c.reset, maxRetries + 1, n + 1);
            Genuine(maxRetries, calls) && AfterCalls(c, calls).circuit.HalfOpen?
    ensures (n + 1) * (maxRetries + 1) >= Effective(c)
  {
    n := WrapPoint(c, maxRetries);
    PacedCount(c, maxRetries, n);
    OneMorePaced(c, maxRetries, n);
    NeverClosed(c, maxRetries, n);
    NeverClosed(c, maxRetries, n + 1);
    MeetsWrap(c, maxRetries, n * (maxRetries + 1));
    hide AfterCalls, Trailing, Below, Paced, Effective, Admits, Genuine;
  }

  /** Right after the wrap, or right before it, the failures of one execute stay below the threshold. */
  lemma MeetsWrap(c: Config, maxRetries: U32, total: nat)
    requires !AlwaysTrips(c, maxRetries)
    requires total % TWO32 == if c.threshold == maxRetries + 1 then TWO32 - 1 else 0
    ensures Below(c, total % TWO32, maxRetries + 1)
  {
    BelowIff(c, total % TWO32, maxRetries + 1);
  }

  /** A number of executes that brings the counter to the wrap, the circuit having opened before. */
  lemma WrapPoint(c: Config, maxRetries: U32) returns (n: nat)
    requires !AlwaysTrips(c, maxRetries)
    ensures n >= 1 && n * (maxRetries + 1) >= Effective(c) && (n + 1) * (maxRetries + 1) >= Effective(c)
    ensures (n * (maxRetries + 1)) % TWO32 == if c.threshold == maxRetries + 1 then TWO32 - 1 else 0
  {
    n := TWO32;
    if c.threshold == maxRetries + 1 {
      n := BeforeTheWrap(maxRetries + 1);
    } else {
      WholeTurns(maxRetries + 1);
    }
    Multiples(n, maxRetries + 1);
  }

  lemma WholeTurns(m: nat)
    ensures (TWO32 * m) % TWO32 == 0
  {
  }

  lemma Multiples(n: nat, m: nat)
    requires n >= 1 && m >= 1
    ensures n * m >= n && n * m >= m && (n + 1) * m >= n * m
  {
  }

  lemma PacedCount(c: Config, maxRetries: U32, n: nat)
    requires maxRetries + 1 < TWO32 && n >= 1
    ensures var calls := Paced(c.reset, maxRetries + 1, n);
            && Genuine(maxRetries, calls)
            && AfterCalls(c, calls).count == (n * (maxRetries + 1)) % TWO32
            && AfterCalls(c, calls).last == Some((n - 1) * c.reset)
  {
    PacedRun(c, maxRetries, n);
    hide AfterCalls, Trailing, Genuine, Paced;
    CounterIsTrailing(c, maxRetries, Paced(c.reset, maxRetries + 1, n));
  }

  lemma NeverClosed(c: Config, maxRetries: U32, n: nat)
    requires maxRetries + 1 < TWO32 && n * (maxRetries + 1) >= Effective(c)
    ensures !AfterCalls(c, Paced(c.reset, maxRetries + 1, n)).circuit.Closed?
  {
    PacedRun(c, maxRetries, n);
  }

  /** The exact condition, on the configuration alone: between sequential executes the circuit is never
      HalfOpen if and only if the threshold is at most max_retries, or is max_retries + 1 and even. */
  lemma NeverHalfOpenIff(c: Config, maxRetries: U32)
    ensures (forall calls | Genuine(maxRetries, calls) :: !AfterCalls(c, calls).circuit.HalfOpen?) <==>
            c.threshold <= maxRetries || (c.threshold == maxRetries + 1 && c.threshold % 2 == 0)
  {
    if AlwaysTrips(c, maxRetries) {
      forall calls | Genuine(maxRetries, calls) ensures !AfterCalls(c, calls).circuit.HalfOpen? {
        NeverHalfOpenBetweenExecutes(c, maxRetries, calls);
      }
    } else {
      var n := WrappedCounterStaysHalfOpen(c, maxRetries);
    }
  }
}
