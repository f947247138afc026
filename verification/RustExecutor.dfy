/** ResilientExecutor::execute (rust/src/resilience.rs:118-173) retrying an operation on a store it is
    the only writer of. An attempt may take effect and still report an error or time out (its
    acknowledgement is lost); it may also fail without taking effect. */
module RustExecutor {
  import opened Wrappers
  import opened Words
  import opened RustBreaker
  import opened Backoff

  /** What happens to attempt number i: whether it is acknowledged, whether it takes effect when it
      is not, the error it then reports, and when on_failure reads the clock. */
  datatype Attempt = Attempt(acked: bool, effect: bool, error: string, endedAt: Time)

  type Script = nat -> Attempt

  datatype Outcome<+R> = Ok(value: R) | Rejected | Err(error: string)

  predicate TakesEffect(a: Attempt) {
    a.acked || a.effect
  }

  /** How many of the first n attempts took effect. */
  function Effects(env: Script, n: nat): nat {
    if n == 0 then 0 else Effects(env, n - 1) + if TakesEffect(env(n)) then 1 else 0
  }

  /** The store after k applications of an operation. */
  function Applied<S, R>(op: S -> (S, R), s: S, k: nat): S {
    if k == 0 then s else op(Applied(op, s, k - 1)).0
  }

  /** The breaker after the failures of attempts 1 to n. */
  function AfterFailures(c: Config, b: Breaker, env: Script, n: nat): Breaker {
    if n == 0 then b else AfterFailure(c, AfterFailures(c, b, env, n - 1), env(n).endedAt)
  }

  /** The retry loop stops after attempt n: the first that is acknowledged, or the one that brings the
      counter above maxRetries. A u32 counter never exceeds the largest u32. */
  predicate StopsAt(maxRetries: U32, env: Script, n: nat) {
    && n >= 1 && (forall i | 1 <= i < n :: !env(i).acked)
    && (env(n).acked || n == maxRetries + 1 < TWO32)
    && (maxRetries + 1 < TWO32 ==> n <= maxRetries + 1)
  }

  /** The retry loop stops at all. */
  ghost predicate Stops(maxRetries: U32, env: Script) {
    maxRetries + 1 < TWO32 || exists i :: i >= 1 && env(i).acked
  }

  /** The outcome of an admitted execute that stopped after attempt n. */
  function Result<S, R>(op: S -> (S, R), s: S, env: Script, n: nat): Outcome<R>
    requires n >= 1
  {
    if env(n).acked then Ok(op(Applied(op, s, Effects(env, n - 1))).1) else Err(env(n).error)
  }

  /** The breaker after one execute that, if admitted, stopped after attempt n. */
  function AfterExecute(c: Config, b: Breaker, now: Time, env: Script, n: nat): Breaker
    requires n >= 1
  {
    if !Admits(c, b, now) then b
    else if env(n).acked then AfterSuccess(AfterFailures(c, AfterAsk(c, b, now), env, n - 1))
    else AfterFailures(c, AfterAsk(c, b, now), env, n)
  }

  lemma CountsOn(n: nat)
    ensures Counted(0) == 0 && Counted(n + 1) == (Counted(n) + 1) % TWO32
    ensures n + 1 < TWO32 ==> (Counted(n) + 1) % TWO32 == n + 1
  {
    NextCount(n);
    NextCount(n + 1);
  }

  /** Where an execute stands after n failed attempts. */
  ghost predicate Underway<S, R>(c: Config, asked: Breaker, op: S -> (S, R), s: S, env: Script,
                                n: nat, contents: S, b: Breaker)
  {
    contents == Applied(op, s, Effects(env, n)) && b == AfterFailures(c, asked, env, n)
  }

  lemma StartsUnderway<S, R>(c: Config, asked: Breaker, op: S -> (S, R), s: S, env: Script)
    ensures Underway(c, asked, op, s, env, 0, s, asked)
  {
  }

  lemma StaysUnderway<S, R>(c: Config, asked: Breaker, op: S -> (S, R), s: S, env: Script,
                           n: nat, contents: S, b: Breaker)
    requires n >= 1 && Underway(c, asked, op, s, env, n - 1, contents, b)
    ensures Underway(c, asked, op, s, env, n, if TakesEffect(env(n)) then op(contents).0 else contents,
                     AfterFailure(c, b, env(n).endedAt))
  {
    hide AfterFailure;
  }

  lemma Succeeds<S, R>(c: Config, start: Breaker, now: Time, op: S -> (S, R), s: S, env: Script,
                      n: nat, contents: S, b: Breaker)
    requires n >= 1 && env(n).acked && Admits(c, start, now)
    requires Underway(c, AfterAsk(c, start, now), op, s, env, n - 1, contents, b)
    ensures op(contents).0 == Applied(op, s, Effects(env, n))
    ensures Result(op, s, env, n) == Ok(op(contents).1)
    ensures AfterExecute(c, start, now, env, n) == AfterSuccess(b)
    ensures AfterSuccess(b).circuit.Closed? && AfterSuccess(b).count == 0
    ensures AfterSuccess(b).last == if n == 1 then start.last else Some(env(n - 1).endedAt)
  {
    assert AfterAsk(c, start, now).last == start.last;
    if n > 1 {
      FailuresCount(c, AfterAsk(c, start, now), env, n - 1);
    }
    hide AfterAsk, Admits;
  }

  lemma GivesUp<S, R>(c: Config, start: Breaker, now: Time, op: S -> (S, R), s: S, env: Script,
                     n: nat, contents: S, b: Breaker)
    requires n >= 1 && !env(n).acked && Admits(c, start, now)
    requires Underway(c, AfterAsk(c, start, now), op, s, env, n, contents, b)
    ensures contents == Applied(op, s, Effects(env, n))
    ensures Result(op, s, env, n) == Err(env(n).error)
    ensures AfterExecute(c, start, now, env, n) == b
    ensures b.count == (start.count + n) % TWO32 && b.last == Some(env(n).endedAt)
  {
    FailuresCount(c, AfterAsk(c, start, now), env, n);
    assert AfterAsk(c, start, now).count == start.count;
    hide AfterSuccess, AfterAsk, Admits;
  }

  lemma {:induction false} FailuresCount(c: Config, b: Breaker, env: Script, n: nat)
    requires n >= 1
    ensures var a := AfterFailures(c, b, env, n);
            a.count == (b.count + n) % TWO32 && a.last == Some(env(n).endedAt)
  {
    if n == 1 {
      assert AfterFailures(c, b, env, 0) == b;
    } else {
      FailuresCount(c, b, env, n - 1);
      NextCount(b.count + n - 1);
    }
  }

  lemma AdmittedWhen(c: Config, b: Breaker, now: Time)
    ensures Admits(c, b, now) <==> !(b.circuit.Open? && (b.last.None? || now < b.last.value + c.reset))
  {
  }

  lemma EffectOf(a: Attempt)
    ensures TakesEffect(a) <==> a.acked || a.effect
  {
  }

  /** `last` is the attempt after which the loop stops at the latest. */
  ghost predicate StopsBy(maxRetries: U32, env: Script, last: nat) {
    if maxRetries + 1 < TWO32 then last == maxRetries + 1 else last >= 1 && env(last).acked
  }

  ghost function LastStop(maxRetries: U32, env: Script): (last: nat)
    requires Stops(maxRetries, env)
    ensures StopsBy(maxRetries, env, last) && last >= 1
  {
    if maxRetries + 1 < TWO32 then maxRetries + 1
    else var last :| last >= 1 && env(last).acked; last
  }

  /** The test on the counter, after n attempts that were not acknowledged but for the last. */
  lemma StopsHere(maxRetries: U32, env: Script, n: nat, last: nat)
    requires StopsBy(maxRetries, env, last) && 1 <= n <= last && forall i | 1 <= i < n :: !env(i).acked
    ensures env(n).acked || Counted(n) > maxRetries ==> StopsAt(maxRetries, env, n)
    ensures !env(n).acked && Counted(n) <= maxRetries ==> n < last
  {
    if maxRetries + 1 < TWO32 {
      assert n < TWO32;
    }
  }

  /** The backend: an operation on it is one atomic change of its contents. */
  class Store<S> {
    var contents: S

    constructor (s: S)
      ensures contents == s
    {
      contents := s;
    }

    method Apply<R>(op: S -> (S, R)) returns (r: R)
      modifies this
      ensures (contents, r) == op(old(contents))
    {
      var next := op(contents);
      contents, r := next.0, next.1;
    }

    /** One attempt at the operation, and what it answers if it is acknowledged. */
    method Try<R>(op: S -> (S, R), a: Attempt) returns (r: Option<R>)
      modifies this
      ensures a.acked || a.effect ==> contents == op(old(contents)).0
      ensures !a.acked && !a.effect ==> contents == old(contents)
      ensures r == if a.acked then Some(op(old(contents)).1) else None
    {
      r := None;
      if TakesEffect(a) {
        var value := Apply(op);
        if a.acked {
          r := Some(value);
        }
      }
    }
  }

  class ResilientExecutor {
    const config: Config
    const maxRetries: U32
    const baseBackoff: nat
    var breaker: Breaker

    constructor (config: Config, maxRetries: U32, baseBackoff: nat)
      ensures this.config == config && this.maxRetries == maxRetries && this.baseBackoff == baseBackoff
      ensures breaker == Breaker(Closed, 0, None)
    {
      this.config, this.maxRetries, this.baseBackoff := config, maxRetries, baseBackoff;
      breaker := Breaker(Closed, 0, None);
    }

    /** For every script on which the loop stops: an execute is refused, and does nothing, exactly while
        the circuit is Open and the reset timeout has not passed since the last failure. Else it stops
        at its first acknowledged attempt or after maxRetries+1, the store has had every effective
        attempt applied, acknowledged or not, and a success closes the circuit while a failure leaves
        its attempts on the counter. */
    method Execute<S, R>(store: Store<S>, op: S -> (S, R), now: Time, env: Script)
      returns (out: Outcome<R>, attempts: nat, slept: nat)
      requires Stops(maxRetries, env)
      requires store as object != this
      modifies this, store
      ensures out.Rejected? <==>
                old(breaker.circuit.Open? && (breaker.last.None? || now < breaker.last.value + config.reset))
      ensures out.Rejected? ==> attempts == 0 && slept == 0 && breaker == old(breaker) && store.contents == old(store.contents)
      ensures !out.Rejected? ==>
                && StopsAt(maxRetries, env, attempts)
                && store.contents == Applied(op, old(store.contents), Effects(env, attempts))
                && slept == TotalSleep(baseBackoff, attempts - 1)
                && out == Result(op, old(store.contents), env, attempts)
                && breaker == AfterExecute(config, old(breaker), now, env, attempts)
      ensures !out.Rejected? ==>
                && 1 <= attempts && (maxRetries + 1 < TWO32 ==> attempts <= maxRetries + 1)
                && (forall i | 1 <= i < attempts :: !env(i).acked)
                && (out.Ok? <==> env(attempts).acked)
      ensures out.Ok? ==>
                && breaker.circuit.Closed? && breaker.count == 0
                && breaker.last == if attempts == 1 then old(breaker.last) else Some(env(attempts - 1).endedAt)
      ensures out.Err? ==>
                && attempts == maxRetries + 1 && out.error == env(attempts).error
                && breaker.count == (old(breaker.count) + attempts) % TWO32 && breaker.last == Some(env(attempts).endedAt)
    {
      hide AfterFailure, AfterAsk, AfterSuccess, AfterExecute, Result, Admits, Delay, Counted, StopsAt, StopsBy, Underway;
      hide Applied, Effects, TakesEffect;
      AdmittedWhen(config, breaker, now);
      attempts, slept := 0, 0;
      if !Admits(config, breaker, now) {
        return Rejected, 0, 0;
      }
      ghost var start, s, last := breaker, store.contents, LastStop(maxRetries, env);
      breaker := AfterAsk(config, breaker, now);
      var attempt: U32 := 0;
      CountsOn(0);
      StartsUnderway(config, breaker, op, s, env);
      while true
        invariant attempts < last && attempt == Counted(attempts)
        invariant forall i | 1 <= i <= attempts :: !env(i).acked
        invariant Underway(config, AfterAsk(config, start, now), op, s, env, attempts, store.contents, breaker)
        invariant slept == TotalSleep(baseBackoff, attempts)
        decreases last - attempts
      {
        CountsOn(attempts);
        attempts := attempts + 1;
        attempt := (attempt + 1) % TWO32;
        var a := env(attempts);
        StopsHere(maxRetries, env, attempts, last);
        ghost var before := store.contents;
        var answer := store.Try(op, a);
        EffectOf(a);
        if answer.Some? {
          Succeeds(config, start, now, op, s, env, attempts, before, breaker);
          breaker := AfterSuccess(breaker);
          return Ok(answer.value), attempts, slept;
        }
        StaysUnderway(config, AfterAsk(config, start, now), op, s, env, attempts, before, breaker);
        breaker := AfterFailure(config, breaker, a.endedAt);
        if attempt > maxRetries {
          GivesUp(config, start, now, op, s, env, attempts, store.contents, breaker);
          return Err(a.error), attempts, slept;
        }
        slept := slept + Delay(baseBackoff, attempt);
      }
    }

    /** What a caller of an idempotent operation can rely on, lost acknowledgements or not: the store is
        left unchanged or has the operation applied exactly once, unchanged after a refusal, applied
        after a success; and the value is that of the application or of a repetition. */
    method ExecuteIdempotent<S(!new), R(!new)>(store: Store<S>, op: S -> (S, R), now: Time, env: Script)
      returns (out: Outcome<R>)
      requires Stops(maxRetries, env) && Idempotent(op)
      requires store as object != this
      modifies this, store
      ensures store.contents == old(store.contents) || store.contents == op(old(store.contents)).0
      ensures out.Rejected? ==> store.contents == old(store.contents)
      ensures out.Ok? ==> store.contents == op(old(store.contents)).0
      ensures out.Ok? ==> out.value == op(old(store.contents)).1 || out.value == op(op(old(store.contents)).0).1
    {
      ghost var s := store.contents;
      var attempts, slept;
      out, attempts, slept := Execute(store, op, now, env);
      if !out.Rejected? {
        RetryIsExactlyOnce(op, s, env, attempts);
      }
    }
  }

  // ---------- Where the loop stops ----------

  /** The loop stops at one attempt at most, and it stops unless maxRetries is the largest u32 and no
      attempt is ever acknowledged. */
  lemma StopsIff(maxRetries: U32, env: Script)
    ensures (exists n :: StopsAt(maxRetries, env, n)) <==> Stops(maxRetries, env)
    ensures forall m, n :: StopsAt(maxRetries, env, m) && StopsAt(maxRetries, env, n) ==> m == n
  {
    if Stops(maxRetries, env) {
      var n := FirstStop(maxRetries, env, 1, LastStop(maxRetries, env));
    }
  }

  lemma FirstStop(maxRetries: U32, env: Script, i: nat, last: nat) returns (n: nat)
    requires 1 <= i <= last && forall j | 1 <= j < i :: !env(j).acked
    requires StopsBy(maxRetries, env, last)
    ensures StopsAt(maxRetries, env, n)
    decreases last - i
  {
    if env(i).acked || i == last {
      n := i;
    } else {
      n := FirstStop(maxRetries, env, i + 1, last);
    }
  }

  // ---------- Lost acknowledgements ----------

  /** Applying the operation again changes nothing more. */
  ghost predicate Idempotent<S(!new), R(!new)>(op: S -> (S, R)) {
    forall s :: op(op(s).0).0 == op(s).0
  }

  lemma {:induction false} RepeatsChangeNothing<S(!new), R(!new)>(op: S -> (S, R), s: S, k: nat)
    requires Idempotent(op)
    ensures Applied(op, s, k) == if k == 0 then s else op(s).0
  {
    if k > 1 {
      RepeatsChangeNothing(op, s, k - 1);
    }
  }

  /** Lost acknowledgements are harmless to the store when the operation is idempotent: it is left
      unchanged or has the operation applied exactly once, and exactly once after a success; the
      value returned is that of the first application unless an earlier attempt took effect, and
      then it is the value of a repetition. */
  lemma RetryIsExactlyOnce<S(!new), R(!new)>(op: S -> (S, R), s: S, env: Script, attempts: nat)
    requires Idempotent(op) && attempts >= 1
    ensures var after := Applied(op, s, Effects(env, attempts));
            && after == (if Effects(env, attempts) == 0 then s else op(s).0)
            && (env(attempts).acked ==> after == op(s).0)
    ensures env(attempts).acked ==>
              Result(op, s, env, attempts) == Ok(if Effects(env, attempts - 1) == 0 then op(s).1 else op(op(s).0).1)
  {
    RepeatsChangeNothing(op, s, Effects(env, attempts));
    RepeatsChangeNothing(op, s, Effects(env, attempts - 1));
  }

  /** The attempts that took effect are those acknowledged and those whose acknowledgement was lost. */
  lemma {:induction false} EffectsAreCounted(env: Script, n: nat)
    ensures Effects(env, n) == |set i | 1 <= i <= n && (env(i).acked || env(i).effect)|
  {
    if n > 0 {
      EffectsAreCounted(env, n - 1);
      var before := set i | 1 <= i <= n - 1 && (env(i).acked || env(i).effect);
      var now := set i | 1 <= i <= n && (env(i).acked || env(i).effect);
      assert now == if env(n).acked || env(n).effect then before + {n} else before;
    }
  }

  /** An operation that is not idempotent shows every application: a counter grows by one for each
      effective attempt. */
  lemma {:induction false} EveryEffectCounts(start: int, k: nat)
    ensures Applied((s: int) => (s + 1, ()), start, k) == start + k
  {
    if k > 0 {
      EveryEffectCounts(start, k - 1);
    }
  }

  // ---------- The key-value store (rust/src/kv.rs:40-70) ----------

  type Key = string
  type Bytes = seq<bv8>
  type Kv = map<Key, Bytes>

  function Setting(key: Key, value: Bytes): Kv -> (Kv, ()) {
    (s: Kv) => (s[key := value], ())
  }

  function Deleting(key: Key): Kv -> (Kv, ()) {
    (s: Kv) => (s - {key}, ())
  }

  function SettingIfNotExists(key: Key, value: Bytes): Kv -> (Kv, bool) {
    (s: Kv) => if key in s then (s, false) else (s[key := value], true)
  }

  lemma KvWritesAreIdempotent(key: Key, value: Bytes)
    ensures Idempotent(Setting(key, value)) && Idempotent(Deleting(key)) && Idempotent(SettingIfNotExists(key, value))
  {
    var set', del := Setting(key, value), Deleting(key);
    forall s: Kv ensures set'(set'(s).0).0 == set'(s).0 {
      assert s[key := value][key := value] == s[key := value];
    }
    forall s: Kv ensures del(del(s).0).0 == del(s).0 {
      assert s - {key} - {key} == s - {key};
    }
  }

  /** A retried set_if_not_exists that reports true found the key absent at the start; it reports
      true exactly when the key was absent and no earlier attempt took effect unacknowledged. Either
      way the key is present when it reports success. */
  lemma SetIfNotExistsRetried(key: Key, value: Bytes, s: Kv, env: Script, attempts: nat)
    requires attempts >= 1 && env(attempts).acked
    ensures var op := SettingIfNotExists(key, value);
            && Result(op, s, env, attempts).Ok?
            && (Result(op, s, env, attempts).value <==> key !in s && Effects(env, attempts - 1) == 0)
            && Applied(op, s, Effects(env, attempts)) == (if key in s then s else s[key := value])
  {
    KvWritesAreIdempotent(key, value);
    RetryIsExactlyOnce(SettingIfNotExists(key, value), s, env, attempts);
  }

  /** A lost acknowledgement shows in the answer: the first attempt creates the key and times out, the
      second is acknowledged and reports false, although the key was absent. */
  lemma CreatedButFalse(key: Key, value: Bytes, s: Kv, now: Time)
    requires key !in s
    ensures var env := (i: nat) => Attempt(i == 2, i == 1, "operation timed out", now);
            && StopsAt(1, env, 2)
            && Result(SettingIfNotExists(key, value), s, env, 2) == Ok(false)
            && Applied(SettingIfNotExists(key, value), s, Effects(env, 2)) == s[key := value]
  {
    var env := (i: nat) => Attempt(i == 2, i == 1, "operation timed out", now);
    SetIfNotExistsRetried(key, value, s, env, 2);
    assert Effects(env, 0) == 0;
    assert Effects(env, 1) == 1;
  }

  /** The retrying wrapper (rust/src/resilience.rs:190-243) around the store. */
  class ResilientKvStore {
    const inner: Store<Kv>
    const executor: ResilientExecutor

    constructor (inner: Store<Kv>, executor: ResilientExecutor)
      ensures this.inner == inner && this.executor == executor
    {
      this.inner, this.executor := inner, executor;
    }

    method Set(key: Key, value: Bytes, now: Time, env: Script) returns (out: Outcome<()>)
      requires Stops(executor.maxRetries, env)
      modifies executor, inner
      ensures inner.contents == old(inner.contents) || inner.contents == old(inner.contents)[key := value]
      ensures out.Ok? ==> inner.contents == old(inner.contents)[key := value]
      ensures out.Rejected? ==> inner.contents == old(inner.contents)
    {
      KvWritesAreIdempotent(key, value);
      out := executor.ExecuteIdempotent(inner, Setting(key, value), now, env);
    }

    method Delete(key: Key, now: Time, env: Script) returns (out: Outcome<()>)
      requires Stops(executor.maxRetries, env)
      modifies executor, inner
      ensures inner.contents == old(inner.contents) || inner.contents == old(inner.contents) - {key}
      ensures out.Ok? ==> key !in inner.contents && inner.contents == old(inner.contents) - {key}
      ensures out.Rejected? ==> inner.contents == old(inner.contents)
    {
      KvWritesAreIdempotent(key, []);
      out := executor.ExecuteIdempotent(inner, Deleting(key), now, env);
    }

    /** A success that reports true found the key absent; after any success the key is present, with the
        value it had or, if it was absent, with this one. */
    method SetIfNotExists(key: Key, value: Bytes, now: Time, env: Script) returns (out: Outcome<bool>)
      requires Stops(executor.maxRetries, env)
      modifies executor, inner
      ensures out == Outcome.Ok(true) ==> key !in old(inner.contents)
      ensures inner.contents == old(inner.contents) || (key !in old(inner.contents) && inner.contents == old(inner.contents)[key := value])
      ensures out.Ok? ==> key in inner.contents
      ensures out.Rejected? ==> inner.contents == old(inner.contents)
    {
      KvWritesAreIdempotent(key, value);
      out := executor.ExecuteIdempotent(inner, SettingIfNotExists(key, value), now, env);
    }
  }
}
