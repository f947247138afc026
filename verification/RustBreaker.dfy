/** The Rust circuit breaker (rust/src/resilience.rs) under any number of interleaved tasks. Its state
    and its last failure time sit behind two fair read-write locks and its counter is an atomic, so a
    call is several steps, and between two steps any other task may run. A task's program counter
    says where it is; the comments name the source lines. Overflow of the u32 counter wraps, as in a
    release build. */
module RustBreaker {
  import opened Wrappers
  import opened Words

  type TaskId = nat
  type Time = int

  datatype CircuitState = Closed | Open | HalfOpen

  /** failure_threshold is not normalised, so it may be zero. */
  datatype Config = Config(threshold: U32, reset: Time)

  /** A fair lock: waiters are served in the order they came. */
  datatype RwLock = RwLock(writer: Option<TaskId>, readers: set<TaskId>, queue: seq<TaskId>)
  {
    function Enqueue(t: TaskId): RwLock {
      this.(queue := queue + [t])
    }

    predicate CanWrite(t: TaskId) {
      queue != [] && queue[0] == t && writer.None? && readers == {}
    }

    predicate CanRead(t: TaskId) {
      queue != [] && queue[0] == t && writer.None?
    }

    function Write(t: TaskId): RwLock
      requires CanWrite(t)
    {
      RwLock(Some(t), {}, queue[1..])
    }

    function Read(t: TaskId): RwLock
      requires CanRead(t)
    {
      RwLock(None, readers + {t}, queue[1..])
    }

    function EndWrite(): RwLock {
      this.(writer := None)
    }

    function EndRead(t: TaskId): RwLock {
      this.(readers := readers - {t})
    }
  }

  const FREE := RwLock(None, {}, [])

  datatype Operation = Ask | Succeed | Fail | Code

  datatype Pc =
    | Idle
    | AskQueued            // can_execute, waiting to write the state (line 46)
    | AskState             // at the match (47)
    | AskTimeQueued        // saw Open, waiting to read the time (50)
    | AskTime              // at the comparison (51-57)
    | AskLeave(ok: bool)   // dropping the state guard
    | SucceedQueued        // on_success, waiting to write the state (64)
    | SucceedState         // storing zero (65)
    | SucceedReset         // closing (66)
    | FailCounted(n: nat)       // on_failure after fetch_add (70)
    | FailTimeQueued(n: nat)    // waiting to write the time (71)
    | FailTime(n: nat)          // storing the time (72)
    | FailStamped(n: nat)       // at the comparison (74), still holding the time
    | FailStateQueued(n: nat)   // waiting to write the state (75)
    | FailState(n: nat)         // opening (76)
    | FailLeave                 // dropping the time guard
    | CodeQueued           // current_state_code, waiting to read the state (81)
    | CodeState            // reading it (82-86)

  /** What a finished can_execute or current_state_code returns. */
  datatype Answer = Admitted | Refused | Shown(code: int)

  /** `failures` and `successes` count the calls of on_failure and on_success made so far; `answers`
      holds the last answer each task got. */
  datatype State = State(circuit: CircuitState, count: nat, last: Option<Time>,
                         stateLock: RwLock, timeLock: RwLock, pcs: map<TaskId, Pc>,
                         now: Time, failures: nat, successes: nat, answers: map<TaskId, Answer>)

  function Init(now: Time): State {
    State(Closed, 0, None, FREE, FREE, map[], now, 0, 0, map[])
  }

  function At(s: State, t: TaskId): Pc {
    if t in s.pcs then s.pcs[t] else Idle
  }

  function Goto(s: State, t: TaskId, pc: Pc): State {
    s.(pcs := s.pcs[t := pc])
  }

  /** A task begins a call. */
  function Begin(s: State, t: TaskId, op: Operation): State {
    match op
    case Ask => Goto(s, t, AskQueued).(stateLock := s.stateLock.Enqueue(t))
    case Succeed => Goto(s, t, SucceedQueued).(stateLock := s.stateLock.Enqueue(t), successes := s.successes + 1)
    case Fail =>
      var n := (s.count + 1) % TWO32;
      Goto(s, t, FailCounted(n)).(count := n, failures := s.failures + 1)
    case Code => Goto(s, t, CodeQueued).(stateLock := s.stateLock.Enqueue(t))
  }

  function ResumeAsk(c: Config, s: State, t: TaskId): Option<State>
    requires At(s, t).AskQueued? || At(s, t).AskState? || At(s, t).AskTimeQueued? || At(s, t).AskTime? || At(s, t).AskLeave?
  {
    match At(s, t)
    case AskQueued =>
      if s.stateLock.CanWrite(t) then Some(Goto(s, t, AskState).(stateLock := s.stateLock.Write(t))) else None
    case AskState =>
      if s.circuit.Open? then Some(Goto(s, t, AskTimeQueued).(timeLock := s.timeLock.Enqueue(t)))
      else Some(Goto(s, t, Idle).(stateLock := s.stateLock.EndWrite(), answers := s.answers[t := Admitted]))
    case AskTimeQueued =>
      if s.timeLock.CanRead(t) then Some(Goto(s, t, AskTime).(timeLock := s.timeLock.Read(t))) else None
    case AskTime =>
      var ok := s.last.Some? && s.now - s.last.value >= c.reset;
      Some(Goto(s, t, AskLeave(ok)).(circuit := if ok then HalfOpen else s.circuit, timeLock := s.timeLock.EndRead(t)))
    case AskLeave(ok) =>
      Some(Goto(s, t, Idle).(stateLock := s.stateLock.EndWrite(), answers := s.answers[t := if ok then Admitted else Refused]))
  }

  function ResumeSucceed(s: State, t: TaskId): Option<State>
    requires At(s, t).SucceedQueued? || At(s, t).SucceedState? || At(s, t).SucceedReset?
  {
    match At(s, t)
    case SucceedQueued =>
      if s.stateLock.CanWrite(t) then Some(Goto(s, t, SucceedState).(stateLock := s.stateLock.Write(t))) else None
    case SucceedState => Some(Goto(s, t, SucceedReset).(count := 0))
    case SucceedReset => Some(Goto(s, t, Idle).(circuit := Closed, stateLock := s.stateLock.EndWrite()))
  }

  predicate Failing(pc: Pc) {
    || pc.FailCounted? || pc.FailTimeQueued? || pc.FailTime? || pc.FailStamped?
    || pc.FailStateQueued? || pc.FailState? || pc.FailLeave?
  }

  function ResumeFail(c: Config, s: State, t: TaskId): Option<State>
    requires Failing(At(s, t))
  {
    match At(s, t)
    case FailCounted(n) => Some(Goto(s, t, FailTimeQueued(n)).(timeLock := s.timeLock.Enqueue(t)))
    case FailTimeQueued(n) =>
      if s.timeLock.CanWrite(t) then Some(Goto(s, t, FailTime(n)).(timeLock := s.timeLock.Write(t))) else None
    case FailTime(n) => Some(Goto(s, t, FailStamped(n)).(last := Some(s.now)))
    case FailStamped(n) =>
      if n >= c.threshold then Some(Goto(s, t, FailStateQueued(n)).(stateLock := s.stateLock.Enqueue(t)))
      else Some(Goto(s, t, Idle).(timeLock := s.timeLock.EndWrite()))
    case FailStateQueued(n) =>
      if s.stateLock.CanWrite(t) then Some(Goto(s, t, FailState(n)).(stateLock := s.stateLock.Write(t))) else None
    case FailState(_) => Some(Goto(s, t, FailLeave).(circuit := Open, stateLock := s.stateLock.EndWrite()))
    case FailLeave => Some(Goto(s, t, Idle).(timeLock := s.timeLock.EndWrite()))
  }

  /** The next step of the call a task is in: None when it has none or must wait for a lock. */
  function Resume(c: Config, s: State, t: TaskId): Option<State> {
    match At(s, t)
    case Idle => None
    case AskQueued | AskState | AskTimeQueued | AskTime | AskLeave(_) => ResumeAsk(c, s, t)
    case SucceedQueued | SucceedState | SucceedReset => ResumeSucceed(s, t)
    case CodeQueued =>
      if s.stateLock.CanRead(t) then Some(Goto(s, t, CodeState).(stateLock := s.stateLock.Read(t))) else None
    case CodeState =>
      var code := match s.circuit case Closed => 0 case Open => 1 case HalfOpen => 2;
      Some(Goto(s, t, Idle).(stateLock := s.stateLock.EndRead(t), answers := s.answers[t := Shown(code)]))
    case _ => ResumeFail(c, s, t)
  }

  datatype Action = Call(t: TaskId, op: Operation) | Run(t: TaskId) | Tick(d: nat)

  function Next(c: Config, s: State, a: Action): Option<State> {
    match a
    case Call(t, op) => if At(s, t).Idle? then Some(Begin(s, t, op)) else None
    case Run(t) => Resume(c, s, t)
    case Tick(d) => Some(s.(now := s.now + d))
  }

  /** The state after a run of actions, if all of them can be taken. */
  function Execute(c: Config, s: State, actions: seq<Action>): Option<State> {
    if actions == [] then Some(s)
    else
      var before := Execute(c, s, actions[..|actions| - 1]);
      if before.None? then None else Next(c, before.value, actions[|actions| - 1])
  }

  ghost predicate Reachable(c: Config, s: State) {
    exists now, actions :: Execute(c, Init(now), actions) == Some(s)
  }

  // ---------- The invariant ----------

  datatype Lock = StateLock | TimeLock

  datatype Role = Out | Waiting | Writing | Reading

  /** What a task at `pc` is to a lock. */
  function RoleAt(l: Lock, pc: Pc): Role {
    match l
    case StateLock =>
      if pc.AskQueued? || pc.SucceedQueued? || pc.FailStateQueued? || pc.CodeQueued? then Waiting
      else if pc.AskState? || pc.AskTimeQueued? || pc.AskTime? || pc.AskLeave?
              || pc.SucceedState? || pc.SucceedReset? || pc.FailState? then Writing
      else if pc.CodeState? then Reading
      else Out
    case TimeLock =>
      if pc.AskTimeQueued? || pc.FailTimeQueued? then Waiting
      else if pc.FailTime? || pc.FailStamped? || pc.FailStateQueued? || pc.FailState? || pc.FailLeave? then Writing
      else if pc.AskTime? then Reading
      else Out
  }

  function TheLock(l: Lock, s: State): RwLock {
    match l case StateLock => s.stateLock case TimeLock => s.timeLock
  }

  predicate NoDuplicates(q: seq<TaskId>) {
    forall i, j | 0 <= i < j < |q| :: q[i] != q[j]
  }

  /** The lock's fields say exactly which tasks wait for it, write under it and read under it. */
  ghost predicate Tracked(l: Lock, s: State) {
    var k := TheLock(l, s);
    && NoDuplicates(k.queue)
    && (k.writer.Some? ==> k.readers == {})
    && forall t: TaskId ::
         && (t in k.queue <==> RoleAt(l, At(s, t)) == Waiting)
         && (k.writer == Some(t) <==> RoleAt(l, At(s, t)) == Writing)
         && (t in k.readers <==> RoleAt(l, At(s, t)) == Reading)
  }

  predicate TouchesTime(pc: Pc) {
    pc.FailStamped? || pc.FailStateQueued? || pc.FailState? || pc.FailLeave?
  }

  /** The facts about task t's own position. */
  ghost predicate GoodPlace(c: Config, s: State, t: TaskId) {
    && (TouchesTime(At(s, t)) ==> s.last.Some?)
    && (At(s, t).AskTimeQueued? || At(s, t).AskTime? ==> s.circuit.Open?)
    && (At(s, t).FailStateQueued? || At(s, t).FailState? ==> At(s, t).n >= c.threshold)
    && (!s.circuit.Closed? ==> s.last.Some?)
  }

  ghost predicate Inv(c: Config, s: State) {
    && Tracked(StateLock, s)
    && Tracked(TimeLock, s)
    && forall t: TaskId :: GoodPlace(c, s, t)
  }

  /** The ways one step of task t may change a lock, with the change of its role. */
  predicate LockStep(t: TaskId, k: RwLock, from: Role, k': RwLock, to: Role) {
    || (k' == k && to == from)
    || (k' == k.Enqueue(t) && from == Out && to == Waiting)
    || (k.CanWrite(t) && k' == k.Write(t) && to == Writing)
    || (k.CanRead(t) && k' == k.Read(t) && to == Reading)
    || (k' == k.EndWrite() && from == Writing && to == Out)
    || (k' == k.EndRead(t) && from == Reading && to == Out)
  }

  /** Task t moved to pc' and nobody else moved. */
  ghost predicate Moved(s: State, t: TaskId, pc': Pc, s': State) {
    && At(s', t) == pc'
    && forall u: TaskId | u != t :: At(s', u) == At(s, u)
  }

  lemma TrackedAfterWrite(l: Lock, s: State, t: TaskId, s': State)
    requires Tracked(l, s) && Moved(s, t, At(s', t), s') && RoleAt(l, At(s', t)) == Writing
    requires var k := TheLock(l, s); k.CanWrite(t) && TheLock(l, s') == k.Write(t)
    ensures Tracked(l, s')
  {
    hide RoleAt;
    var k := TheLock(l, s);
    assert k.queue == [k.queue[0]] + k.queue[1..];
  }

  lemma TrackedAfterRead(l: Lock, s: State, t: TaskId, s': State)
    requires Tracked(l, s) && Moved(s, t, At(s', t), s') && RoleAt(l, At(s', t)) == Reading
    requires var k := TheLock(l, s); k.CanRead(t) && TheLock(l, s') == k.Read(t)
    ensures Tracked(l, s')
  {
    hide RoleAt;
    var k := TheLock(l, s);
    assert k.queue == [k.queue[0]] + k.queue[1..];
  }

  lemma TrackedAfterEnqueue(l: Lock, s: State, t: TaskId, s': State)
    requires Tracked(l, s) && Moved(s, t, At(s', t), s')
    requires RoleAt(l, At(s, t)) == Out && RoleAt(l, At(s', t)) == Waiting && TheLock(l, s') == TheLock(l, s).Enqueue(t)
    ensures Tracked(l, s')
  {
    hide RoleAt;
    var k, k' := TheLock(l, s), TheLock(l, s');
    assert k'.queue[|k.queue|] == t;
  }

  lemma TrackedAfterEnd(l: Lock, s: State, t: TaskId, s': State)
    requires Tracked(l, s) && Moved(s, t, At(s', t), s') && RoleAt(l, At(s', t)) == Out
    requires var k, k', from := TheLock(l, s), TheLock(l, s'), RoleAt(l, At(s, t));
             (k' == k.EndWrite() && from == Writing) || (k' == k.EndRead(t) && from == Reading)
    ensures Tracked(l, s')
  {
    hide RoleAt;
  }

  lemma TrackedKept(l: Lock, s: State, t: TaskId, pc': Pc, s': State)
    requires Tracked(l, s) && Moved(s, t, pc', s')
    requires LockStep(t, TheLock(l, s), RoleAt(l, At(s, t)), TheLock(l, s'), RoleAt(l, pc'))
    ensures Tracked(l, s')
  {
    var k, k', from, to := TheLock(l, s), TheLock(l, s'), RoleAt(l, At(s, t)), RoleAt(l, pc');
    if k.CanWrite(t) && k' == k.Write(t) && to == Writing {
      TrackedAfterWrite(l, s, t, s');
    } else if k.CanRead(t) && k' == k.Read(t) && to == Reading {
      TrackedAfterRead(l, s, t, s');
    } else if k' == k.Enqueue(t) && from == Out && to == Waiting {
      TrackedAfterEnqueue(l, s, t, s');
    } else if to == Out && from != to {
      TrackedAfterEnd(l, s, t, s');
    } else {
      hide RoleAt, RwLock.CanWrite, RwLock.CanRead;
    }
  }

  /** One step of task t from s to s' changes each lock in one of the allowed ways, and writes the
      circuit only under the state lock. */
  ghost predicate GoodStep(c: Config, s: State, t: TaskId, s': State) {
    var pc, pc' := At(s, t), At(s', t);
    && Moved(s, t, pc', s')
    && LockStep(t, s.stateLock, RoleAt(StateLock, pc), s'.stateLock, RoleAt(StateLock, pc'))
    && LockStep(t, s.timeLock, RoleAt(TimeLock, pc), s'.timeLock, RoleAt(TimeLock, pc'))
    && (s'.circuit != s.circuit ==> RoleAt(StateLock, pc) == Writing)
    && (s.last.Some? ==> s'.last.Some?)
  }

  lemma AskStepIsGood(c: Config, s: State, t: TaskId)
    requires ResumeAsk.requires(c, s, t) && ResumeAsk(c, s, t).Some? && GoodPlace(c, s, t)
    ensures GoodStep(c, s, t, ResumeAsk(c, s, t).value) && GoodPlace(c, ResumeAsk(c, s, t).value, t)
  {
    hide RwLock.Enqueue, RwLock.CanWrite, RwLock.CanRead, RwLock.Write, RwLock.Read, RwLock.EndWrite, RwLock.EndRead;
  }

  lemma FailStepIsGood(c: Config, s: State, t: TaskId)
    requires Failing(At(s, t)) && ResumeFail(c, s, t).Some? && GoodPlace(c, s, t)
    ensures GoodStep(c, s, t, ResumeFail(c, s, t).value) && GoodPlace(c, ResumeFail(c, s, t).value, t)
  {
    hide RwLock.Enqueue, RwLock.CanWrite, RwLock.CanRead, RwLock.Write, RwLock.Read, RwLock.EndWrite, RwLock.EndRead;
    match At(s, t)
    case FailCounted(_) =>
    case FailTimeQueued(_) =>
    case FailTime(_) =>
    case FailStamped(_) =>
    case FailStateQueued(_) =>
    case FailState(_) =>
    case FailLeave =>
  }

  lemma RunStepIsGood(c: Config, s: State, t: TaskId)
    requires Resume(c, s, t).Some? && GoodPlace(c, s, t)
    ensures GoodStep(c, s, t, Resume(c, s, t).value) && GoodPlace(c, Resume(c, s, t).value, t)
  {
    hide ResumeAsk, ResumeFail;
    hide RwLock.Enqueue, RwLock.CanWrite, RwLock.CanRead, RwLock.Write, RwLock.Read, RwLock.EndWrite, RwLock.EndRead;
    if ResumeAsk.requires(c, s, t) {
      AskStepIsGood(c, s, t);
    } else if Failing(At(s, t)) {
      FailStepIsGood(c, s, t);
    }
  }

  lemma InvAfterRun(c: Config, s: State, t: TaskId)
    requires Inv(c, s) && Resume(c, s, t).Some?
    ensures Inv(c, Resume(c, s, t).value)
  {
    var s' := Resume(c, s, t).value;
    RunStepIsGood(c, s, t);
    hide Resume, LockStep;
    TrackedKept(StateLock, s, t, At(s', t), s');
    TrackedKept(TimeLock, s, t, At(s', t), s');
    forall u: TaskId ensures GoodPlace(c, s', u) {
      assert GoodPlace(c, s, u);
      if u != t && s'.circuit != s.circuit {
        assert RoleAt(StateLock, At(s, u)) != Writing;
      }
    }
  }

  lemma InvAfterCall(c: Config, s: State, t: TaskId, op: Operation)
    requires Inv(c, s) && At(s, t).Idle?
    ensures Inv(c, Begin(s, t, op))
  {
    var s' := Begin(s, t, op);
    assert forall u | u != t :: At(s', u) == At(s, u);
    TrackedKept(StateLock, s, t, At(s', t), s');
    TrackedKept(TimeLock, s, t, At(s', t), s');
    hide Tracked;
    forall u: TaskId ensures GoodPlace(c, s', u) { assert GoodPlace(c, s, u); }
  }

  lemma InvKept(c: Config, s: State, a: Action)
    requires Inv(c, s) && Next(c, s, a).Some?
    ensures Inv(c, Next(c, s, a).value)
  {
    hide Resume, Begin;
    match a {
      case Call(t, op) => InvAfterCall(c, s, t, op);
      case Run(t) => InvAfterRun(c, s, t);
      case Tick(_) =>
        var s' := Next(c, s, a).value;
        assert forall t :: At(s', t) == At(s, t);
        forall t: TaskId ensures GoodPlace(c, s', t) { assert GoodPlace(c, s, t); }
    }
  }

  lemma {:induction false} InvReached(c: Config, now: Time, actions: seq<Action>)
    requires Execute(c, Init(now), actions).Some?
    ensures Inv(c, Execute(c, Init(now), actions).value)
  {
    if actions != [] {
      InvReached(c, now, actions[..|actions| - 1]);
      InvKept(c, Execute(c, Init(now), actions[..|actions| - 1]).value, actions[|actions| - 1]);
    }
  }

  /** In every reachable state a circuit that is not Closed has a last failure time. */
  lemma OpenHasFailureTime(c: Config, s: State)
    requires Reachable(c, s)
    ensures !s.circuit.Closed? ==> s.last.Some?
    ensures Inv(c, s)
  {
    var now, actions :| Execute(c, Init(now), actions) == Some(s);
    InvReached(c, now, actions);
    assert GoodPlace(c, s, 0);
  }

  /** The task is inside the section in which can_execute, on_success or on_failure holds the state. */
  predicate HoldsState(pc: Pc) {
    || pc.AskState? || pc.AskTimeQueued? || pc.AskTime? || pc.AskLeave?
    || pc.SucceedState? || pc.SucceedReset? || pc.FailState?
  }

  /** The task is inside the section in which on_failure holds the time. */
  predicate HoldsTime(pc: Pc) {
    pc.FailTime? || pc.FailStamped? || pc.FailStateQueued? || pc.FailState? || pc.FailLeave?
  }

  /** Mutual exclusion, in every reachable state: while one task holds the state nobody else holds or reads
      it, and while one holds the time nobody else holds or reads that. */
  lemma SectionsExclude(c: Config, s: State, t: TaskId, u: TaskId)
    requires Reachable(c, s) && t != u
    ensures HoldsState(At(s, t)) ==> !HoldsState(At(s, u)) && !At(s, u).CodeState?
    ensures HoldsTime(At(s, t)) ==> !HoldsTime(At(s, u)) && !At(s, u).AskTime?
  {
    OpenHasFailureTime(c, s);
    assert Tracked(StateLock, s) && Tracked(TimeLock, s);
  }

  /** First come, first served: a task that waits for the state gets it only if it is the one that has
      waited longest, and any other keeps waiting in its order. */
  lemma FirstComeFirstServed(c: Config, s: State, t: TaskId, s': State)
    requires Reachable(c, s) && Resume(c, s, t) == Some(s')
    requires At(s, t).AskQueued? || At(s, t).SucceedQueued? || At(s, t).FailStateQueued? || At(s, t).CodeQueued?
    ensures s.stateLock.queue == [t] + s'.stateLock.queue
    ensures HoldsState(At(s', t)) || At(s', t).CodeState?
    ensures forall u: TaskId :: !HoldsState(At(s, u)) && (HoldsState(At(s', t)) ==> !At(s, u).CodeState?)
  {
    OpenHasFailureTime(c, s);
    assert Tracked(StateLock, s);
  }

  // ---------- Progress ----------

  /** Task a holds the state and waits for the time, task f holds the time and waits for the state. */
  ghost predicate Wedged(c: Config, s: State, a: TaskId, f: TaskId) {
    && At(s, a) == AskTimeQueued && s.stateLock.writer == Some(a)
    && At(s, f).FailStateQueued? && At(s, f).n >= c.threshold && s.timeLock.writer == Some(f)
    && s.circuit.Open?
  }

  lemma BlockedByHolder(c: Config, s: State, l: Lock, t: TaskId) returns (w: TaskId)
    requires Inv(c, s) && RoleAt(l, At(s, t)) == Waiting
    requires forall u :: Resume(c, s, u).None?
    ensures TheLock(l, s).writer == Some(w) && RoleAt(l, At(s, w)) == Writing
  {
    var k := TheLock(l, s);
    assert t in k.queue;
    var head := k.queue[0];
    assert head in k.queue;
    assert RoleAt(l, At(s, head)) == Waiting;
    assert Resume(c, s, head).None?;
    forall r: TaskId ensures r !in k.readers {
      assert Resume(c, s, r).None?;
    }
    assert k.writer.Some?;
    w := k.writer.value;
  }

  /** Progress for any number of tasks: a reachable state in which some call is unfinished and no
      unfinished call can take a step is one in which a can_execute holds the state lock and waits
      for the time lock, and an on_failure that reached the threshold holds the time lock and waits
      for the state lock, with the circuit Open. */
  lemma StuckOnlyWhenWedged(c: Config, s: State, t: TaskId) returns (a: TaskId, f: TaskId)
    requires Reachable(c, s)
    requires !At(s, t).Idle? && forall u :: Resume(c, s, u).None?
    ensures Wedged(c, s, a, f)
  {
    OpenHasFailureTime(c, s);
    assert Resume(c, s, t).None?;
    if RoleAt(StateLock, At(s, t)) == Waiting {
      a := BlockedByHolder(c, s, StateLock, t);
      assert Resume(c, s, a).None?;
      f := BlockedByHolder(c, s, TimeLock, a);
      assert Resume(c, s, f).None?;
    } else {
      f := BlockedByHolder(c, s, TimeLock, t);
      assert Resume(c, s, f).None?;
      a := BlockedByHolder(c, s, StateLock, f);
      assert Resume(c, s, a).None?;
    }
    assert GoodPlace(c, s, a) && GoodPlace(c, s, f);
  }

  /** While the circuit is not Open, some unfinished call can always take a step. */
  lemma ProgressUnlessOpen(c: Config, s: State, t: TaskId)
    requires Reachable(c, s) && !At(s, t).Idle? && !s.circuit.Open?
    ensures exists u :: Resume(c, s, u).Some?
  {
    if forall u :: Resume(c, s, u).None? {
      var a, f := StuckOnlyWhenWedged(c, s, t);
    }
  }

  lemma WedgeKept(c: Config, s: State, a: TaskId, f: TaskId, action: Action)
    requires Inv(c, s) && Wedged(c, s, a, f) && Next(c, s, action).Some?
    ensures Wedged(c, Next(c, s, action).value, a, f)
  {
    if action.Run? {
      var t := action.t;
      assert RoleAt(StateLock, At(s, t)) == Writing ==> t == a;
      assert RoleAt(TimeLock, At(s, t)) == Writing ==> t == f;
    }
  }

  /** The wedge is for ever: after any further run of actions the same two tasks are where they
      were, the circuit is Open, and no other task reads or writes the state. */
  lemma {:induction false} WedgeIsPermanent(c: Config, s: State, a: TaskId, f: TaskId, actions: seq<Action>)
    requires Inv(c, s) && Wedged(c, s, a, f) && Execute(c, s, actions).Some?
    ensures var s' := Execute(c, s, actions).value;
            && Inv(c, s') && Wedged(c, s', a, f)
            && forall t: TaskId | t != a :: RoleAt(StateLock, At(s', t)) == Out || RoleAt(StateLock, At(s', t)) == Waiting
  {
    if actions != [] {
      var before := Execute(c, s, actions[..|actions| - 1]).value;
      WedgeIsPermanent(c, s, a, f, actions[..|actions| - 1]);
      InvKept(c, before, actions[|actions| - 1]);
      WedgeKept(c, before, a, f, actions[|actions| - 1]);
    }
  }

  // ---------- One task alone ----------

  /** The breaker as one caller sees it when no other call overlaps. */
  datatype Breaker = Breaker(circuit: CircuitState, count: nat, last: Option<Time>)

  function Seen(s: State): Breaker {
    Breaker(s.circuit, s.count, s.last)
  }

  predicate Elapsed(c: Config, b: Breaker, now: Time) {
    b.last.Some? && now - b.last.value >= c.reset
  }

  predicate Admits(c: Config, b: Breaker, now: Time) {
    b.circuit.Open? ==> Elapsed(c, b, now)
  }

  function AfterAsk(c: Config, b: Breaker, now: Time): Breaker {
    if b.circuit.Open? && Elapsed(c, b, now) then b.(circuit := HalfOpen) else b
  }

  function AfterSuccess(b: Breaker): Breaker {
    b.(circuit := Closed, count := 0)
  }

  function AfterFailure(c: Config, b: Breaker, now: Time): Breaker {
    var n := (b.count + 1) % TWO32;
    Breaker(if n >= c.threshold then Open else b.circuit, n, Some(now))
  }

  /** Failures needed to open the circuit: a threshold of zero acts as one. */
  function Effective(c: Config): nat {
    if c.threshold == 0 then 1 else c.threshold
  }

  ghost predicate Quiet(s: State) {
    && s.stateLock == FREE && s.timeLock == FREE
    && forall t: TaskId :: At(s, t).Idle?
  }

  lemma ReachNext(c: Config, s: State, a: Action) returns (s': State)
    requires Reachable(c, s) && Next(c, s, a).Some?
    ensures Reachable(c, s') && Next(c, s, a) == Some(s')
  {
    s' := Next(c, s, a).value;
    var now, actions :| Execute(c, Init(now), actions) == Some(s);
    assert (actions + [a])[..|actions|] == actions;
    assert Execute(c, Init(now), actions + [a]) == Some(s');
  }

  lemma FailToStamp(c: Config, s: State, t: TaskId) returns (s': State)
    requires Reachable(c, s) && Quiet(s)
    ensures Reachable(c, s') && s'.now == s.now && s'.stateLock == FREE && s'.timeLock == RwLock(Some(t), {}, [])
    ensures s'.answers == s.answers
    ensures Seen(s') == Breaker(s.circuit, (s.count + 1) % TWO32, Some(s.now))
    ensures Moved(s, t, FailStamped((s.count + 1) % TWO32), s')
  {
    hide Reachable;
    s' := ReachNext(c, s, Call(t, Fail));
    s' := ReachNext(c, s', Run(t));
    s' := ReachNext(c, s', Run(t));
    s' := ReachNext(c, s', Run(t));
  }

  lemma StampToOpen(c: Config, s: State, t: TaskId, n: nat) returns (s': State)
    requires Reachable(c, s) && At(s, t) == FailStamped(n) && n >= c.threshold
    requires s.stateLock == FREE && s.timeLock == RwLock(Some(t), {}, [])
    ensures Reachable(c, s') && s'.now == s.now && s'.stateLock == FREE && s'.timeLock == s.timeLock
    ensures s'.answers == s.answers
    ensures Seen(s') == Breaker(Open, s.count, s.last) && Moved(s, t, FailLeave, s')
  {
    hide Reachable;
    s' := ReachNext(c, s, Run(t));
    s' := ReachNext(c, s', Run(t));
    s' := ReachNext(c, s', Run(t));
  }

  /** Run alone, the steps of on_failure count one failure at this moment and open the circuit if the
      count reaches the threshold. */
  lemma FailAlone(c: Config, s: State, t: TaskId) returns (s': State)
    requires Reachable(c, s) && Quiet(s)
    ensures Reachable(c, s') && Quiet(s') && s'.now == s.now && s'.answers == s.answers
    ensures s'.count == (s.count + 1) % TWO32 && s'.last == Some(s.now)
    ensures s'.circuit == if (s.count + 1) % TWO32 >= c.threshold then Open else s.circuit
    ensures Seen(s') == AfterFailure(c, Seen(s), s.now)
  {
    var stamped := FailToStamp(c, s, t);
    hide Reachable;
    var done := stamped;
    if stamped.count >= c.threshold {
      done := StampToOpen(c, stamped, t, stamped.count);
    }
    s' := ReachNext(c, done, Run(t));
    assert At(s', t).Idle?;
    assert forall u: TaskId | u != t :: At(s', u) == At(done, u) == At(stamped, u) == At(s, u);
  }

  /** Up to the look at the state. */
  lemma AskToState(c: Config, s: State, t: TaskId) returns (s': State)
    requires Reachable(c, s) && Quiet(s)
    ensures Reachable(c, s') && s'.now == s.now && s'.answers == s.answers && Seen(s') == Seen(s)
    ensures s'.stateLock == RwLock(Some(t), {}, []) && s'.timeLock == FREE && Moved(s, t, AskState, s')
  {
    hide Reachable;
    s' := ReachNext(c, s, Call(t, Ask));
    s' := ReachNext(c, s', Run(t));
  }

  lemma AskOpenAlone(c: Config, s: State, t: TaskId) returns (s': State)
    requires Reachable(c, s) && At(s, t) == AskState && s.circuit.Open? && s.last.Some?
    requires s.stateLock == RwLock(Some(t), {}, []) && s.timeLock == FREE
    ensures var late := s.now >= s.last.value + c.reset;
            && Reachable(c, s') && s'.now == s.now && s'.stateLock == FREE && s'.timeLock == FREE && Moved(s, t, Idle, s')
            && Seen(s') == Breaker(if late then HalfOpen else Open, s.count, s.last)
            && s'.answers == s.answers[t := if late then Admitted else Refused]
  {
    hide Reachable;
    s' := ReachNext(c, s, Run(t));
    s' := ReachNext(c, s', Run(t));
    s' := ReachNext(c, s', Run(t));
    s' := ReachNext(c, s', Run(t));
  }

  /** Run alone, the steps of can_execute refuse an Open circuit until the reset timeout has passed since
      the last failure, and from then on admit it and leave it HalfOpen; any other circuit is admitted
      and left as it is. */
  lemma AskAlone(c: Config, s: State, t: TaskId) returns (s': State)
    requires Reachable(c, s) && Quiet(s)
    ensures Reachable(c, s') && Quiet(s') && s'.now == s.now && s'.count == s.count && s'.last == s.last
    ensures s.circuit.Open? ==> s.last.Some?
    ensures s.circuit.Open? && s.now < s.last.value + c.reset ==> s'.circuit.Open? && s'.answers == s.answers[t := Refused]
    ensures s.circuit.Open? && s.now >= s.last.value + c.reset ==> s'.circuit.HalfOpen? && s'.answers == s.answers[t := Admitted]
    ensures !s.circuit.Open? ==> s'.circuit == s.circuit && s'.answers == s.answers[t := Admitted]
    ensures Seen(s') == AfterAsk(c, Seen(s), s.now)
  {
    OpenHasFailureTime(c, s);
    s' := AskToState(c, s, t);
    var asking := s';
    hide Reachable;
    if s.circuit.Open? {
      s' := AskOpenAlone(c, s', t);
    } else {
      s' := ReachNext(c, s', Run(t));
    }
    forall u: TaskId ensures At(s', u).Idle? {
      assert u != t ==> At(s', u) == At(asking, u) == At(s, u);
    }
  }

  /** Run alone, the steps of current_state_code answer the code of the state and change nothing. */
  lemma CodeAlone(c: Config, s: State, t: TaskId) returns (s': State)
    requires Reachable(c, s) && Quiet(s)
    ensures Reachable(c, s') && Quiet(s') && Seen(s') == Seen(s)
    ensures t in s'.answers && s'.answers[t] == Shown(if s.circuit.Closed? then 0 else if s.circuit.Open? then 1 else 2)
  {
    hide Reachable;
    s' := ReachNext(c, s, Call(t, Code));
    s' := ReachNext(c, s', Run(t));
    s' := ReachNext(c, s', Run(t));
    assert forall u: TaskId | u != t :: At(s', u) == At(s, u);
  }

  /** However the other tasks interleave, a can_execute that looks at the time of an Open circuit decides
      by the time since the last failure. */
  lemma AskDecides(c: Config, s: State, t: TaskId)
    requires Reachable(c, s) && At(s, t).AskTime?
    ensures s.circuit.Open? && s.last.Some?
    ensures var s' := Resume(c, s, t).value;
            if s.now < s.last.value + c.reset then At(s', t) == AskLeave(false) && s'.circuit.Open?
            else At(s', t) == AskLeave(true) && s'.circuit.HalfOpen?
  {
    OpenHasFailureTime(c, s);
    assert GoodPlace(c, s, t);
  }

  /** Run alone, the steps of on_success close the circuit and reset the counter. */
  lemma SucceedAlone(c: Config, s: State, t: TaskId) returns (s': State)
    requires Reachable(c, s) && Quiet(s)
    ensures Reachable(c, s') && Quiet(s') && s'.now == s.now && s'.answers == s.answers
    ensures s'.circuit.Closed? && s'.count == 0 && s'.last == s.last
    ensures Seen(s') == AfterSuccess(Seen(s))
  {
    hide Reachable;
    s' := ReachNext(c, s, Call(t, Succeed));
    s' := ReachNext(c, s', Run(t));
    s' := ReachNext(c, s', Run(t));
    s' := ReachNext(c, s', Run(t));
    assert forall u: TaskId | u != t :: At(s', u) == At(s, u);
  }

  // ---------- The wedge is reachable ----------

  lemma NextCount(n: nat)
    ensures (n % TWO32 + 1) % TWO32 == (n + 1) % TWO32
    ensures n < TWO32 ==> n % TWO32 == n
  {
    var q, m := n / TWO32, n % TWO32;
    assert n + 1 == TWO32 * q + (m + 1);
    if m + 1 == TWO32 {
      assert n + 1 == TWO32 * (q + 1);
    }
  }

  lemma {:induction false} FailuresAlone(c: Config, n: nat) returns (s: State)
    ensures Reachable(c, s) && Quiet(s) && s.count == n % TWO32
    ensures n >= Effective(c) ==> s.circuit.Open?
  {
    if n == 0 {
      s := Init(0);
      assert Execute(c, Init(0), []) == Some(s);
    } else {
      s := FailuresAlone(c, n - 1);
      NextCount(n - 1);
      NextCount(n);
      s := FailAlone(c, s, 0);
      hide Reachable, Quiet;
    }
  }

  lemma AskerHoldsState(c: Config, s: State) returns (s': State)
    requires Reachable(c, s) && Quiet(s) && s.circuit.Open?
    ensures Reachable(c, s') && s'.stateLock == RwLock(Some(1), {}, []) && s'.timeLock == FREE
    ensures At(s', 1) == AskState && At(s', 2).Idle? && s'.circuit.Open? && s'.count == s.count
  {
    assert At(s, 1).Idle? && At(s, 2).Idle?;
    hide Reachable;
    s' := ReachNext(c, s, Call(1, Ask));
    s' := ReachNext(c, s', Run(1));
  }

  lemma FailerHoldsTime(c: Config, s: State) returns (s': State)
    requires Reachable(c, s) && s.stateLock == RwLock(Some(1), {}, []) && s.timeLock == FREE
    requires At(s, 1) == AskState && At(s, 2).Idle? && s.circuit.Open? && c.threshold <= s.count + 1 < TWO32
    ensures Reachable(c, s') && s'.stateLock == s.stateLock && s'.timeLock == RwLock(Some(2), {}, [])
    ensures At(s', 1) == AskState && At(s', 2) == FailStamped(s.count + 1) && s'.circuit.Open?
  {
    hide Reachable;
    s' := ReachNext(c, s, Call(2, Fail));
    s' := ReachNext(c, s', Run(2));
    s' := ReachNext(c, s', Run(2));
    s' := ReachNext(c, s', Run(2));
  }

  /** No configuration is free of the wedge: whatever the threshold, three tasks can reach it. As many
      failures as open the circuit are enough, and one more meets the threshold again; only for the
      largest threshold the counter must first go once around, for one more would wrap it to zero. */
  lemma WedgeIsReachable(c: Config) returns (s: State)
    ensures Reachable(c, s) && Wedged(c, s, 1, 2)
  {
    s := FailuresAlone(c, if c.threshold + 1 < TWO32 then Effective(c) else TWO32 + c.threshold - 1);
    s := AskerHoldsState(c, s);
    s := FailerHoldsTime(c, s);
    hide Reachable;
    s := ReachNext(c, s, Run(2));
    s := ReachNext(c, s, Run(1));
  }

  // ---------- Runs without a success ----------

  /** The number an on_failure in flight will compare with the threshold, before it opens. */
  predicate WillOpen(c: Config, pc: Pc) {
    match pc
    case FailCounted(n) => n >= c.threshold
    case FailTimeQueued(n) => n >= c.threshold
    case FailTime(n) => n >= c.threshold
    case FailStamped(n) => n >= c.threshold
    case FailStateQueued(_) => true
    case FailState(_) => true
    case _ => false
  }

  predicate Succeeding(pc: Pc) {
    pc.SucceedQueued? || pc.SucceedState? || pc.SucceedReset?
  }

  ghost predicate FailureInv(c: Config, s: State) {
    && s.count == s.failures % TWO32
    && (!s.circuit.Closed? ==> s.failures >= Effective(c))
    && (s.failures >= Effective(c) && s.circuit.Closed? ==> exists t :: WillOpen(c, At(s, t)))
    && forall t: TaskId :: !Succeeding(At(s, t)) && (WillOpen(c, At(s, t)) ==> s.failures >= Effective(c))
  }

  lemma FailureInvAfterFail(c: Config, s: State, t: TaskId)
    requires FailureInv(c, s) && At(s, t).Idle?
    ensures FailureInv(c, Begin(s, t, Fail))
  {
    var s' := Begin(s, t, Fail);
    NextCount(s.failures);
    assert s'.count == s'.failures % TWO32;
    NextCount(s'.failures);
    assert forall u | u != t :: At(s', u) == At(s, u);
    if s.failures < Effective(c) <= s'.failures {
      assert s'.count == s'.failures;
      assert WillOpen(c, At(s', t));
    } else if s.failures >= Effective(c) && s.circuit.Closed? {
      var u :| WillOpen(c, At(s, u));
      assert WillOpen(c, At(s', u));
    }
  }

  lemma FailureInvAfterRun(c: Config, s: State, t: TaskId)
    requires Inv(c, s) && FailureInv(c, s) && Resume(c, s, t).Some?
    ensures FailureInv(c, Resume(c, s, t).value)
  {
    hide Tracked;
    hide RwLock.Enqueue, RwLock.CanWrite, RwLock.CanRead, RwLock.Write, RwLock.Read, RwLock.EndWrite, RwLock.EndRead;
    var s' := Resume(c, s, t).value;
    assert GoodPlace(c, s, t) && !Succeeding(At(s, t));
    assert !Succeeding(At(s', t)) && (WillOpen(c, At(s', t)) ==> WillOpen(c, At(s, t)));
    assert WillOpen(c, At(s, t)) ==> s.failures >= Effective(c);
    assert forall u | u != t :: At(s', u) == At(s, u);
    if s'.failures >= Effective(c) && s'.circuit.Closed? {
      var u :| WillOpen(c, At(s, u));
      assert WillOpen(c, At(s', u));
    }
  }

  lemma {:induction false} FailureInvReached(c: Config, now: Time, actions: seq<Action>)
    requires Execute(c, Init(now), actions).Some? && Execute(c, Init(now), actions).value.successes == 0
    ensures FailureInv(c, Execute(c, Init(now), actions).value)
  {
    if actions != [] {
      var before, a := Execute(c, Init(now), actions[..|actions| - 1]).value, actions[|actions| - 1];
      InvReached(c, now, actions[..|actions| - 1]);
      FailureInvReached(c, now, actions[..|actions| - 1]);
      match a {
        case Call(t, op) =>
          if op.Fail? {
            FailureInvAfterFail(c, before, t);
          } else {
            FailureInvElsewhere(c, before, a);
          }
        case Run(t) => FailureInvAfterRun(c, before, t);
        case Tick(_) => FailureInvElsewhere(c, before, a);
      }
    }
  }

  lemma FailureInvElsewhere(c: Config, s: State, a: Action)
    requires FailureInv(c, s) && Next(c, s, a).Some?
    requires a.Tick? || (a.Call? && (a.op.Ask? || a.op.Code?))
    ensures FailureInv(c, Next(c, s, a).value)
  {
    var s' := Next(c, s, a).value;
    forall u: TaskId ensures WillOpen(c, At(s', u)) == WillOpen(c, At(s, u)) && !Succeeding(At(s', u)) {
      assert !Succeeding(At(s, u));
    }
    if s.failures >= Effective(c) && s.circuit.Closed? {
      var u :| WillOpen(c, At(s, u));
      assert WillOpen(c, At(s', u));
    }
  }

  /** How often an operation was called in a run. */
  function TimesCalled(op: Operation, actions: seq<Action>): nat {
    if actions == [] then 0
    else
      var a := actions[|actions| - 1];
      TimesCalled(op, actions[..|actions| - 1]) + if a.Call? && a.op == op then 1 else 0
  }

  /** How much the clock advanced. */
  function Elapsing(actions: seq<Action>): nat {
    if actions == [] then 0
    else
      var a := actions[|actions| - 1];
      Elapsing(actions[..|actions| - 1]) + if a.Tick? then a.d else 0
  }

  lemma {:induction false} RunCounts(c: Config, now: Time, actions: seq<Action>)
    requires Execute(c, Init(now), actions).Some?
    ensures var s := Execute(c, Init(now), actions).value;
            && s.failures == TimesCalled(Fail, actions)
            && s.successes == TimesCalled(Succeed, actions)
            && s.now == now + Elapsing(actions)
  {
    if actions != [] {
      var before, a := actions[..|actions| - 1], actions[|actions| - 1];
      RunCounts(c, now, before);
      StepCounts(c, Execute(c, Init(now), before).value, a);
      hide Next;
    }
  }

  lemma StepCounts(c: Config, s: State, a: Action)
    requires Next(c, s, a).Some?
    ensures var s' := Next(c, s, a).value;
            && s'.failures == s.failures + (if a.Call? && a.op == Fail then 1 else 0)
            && s'.successes == s.successes + (if a.Call? && a.op == Succeed then 1 else 0)
            && s'.now == s.now + (if a.Tick? then a.d else 0)
  {
    hide RwLock.CanRead, RwLock.CanWrite, RwLock.Enqueue;
  }

  /** In a run with no on_success, whenever no on_failure is in flight the circuit is Closed exactly
      if fewer failures were recorded than the threshold (or than one, for a threshold of zero),
      however the calls interleaved. */
  lemma ClosedIffFewFailures(c: Config, now: Time, actions: seq<Action>)
    requires Execute(c, Init(now), actions).Some? && TimesCalled(Succeed, actions) == 0
    requires forall t :: !Failing(At(Execute(c, Init(now), actions).value, t))
    ensures Execute(c, Init(now), actions).value.circuit.Closed? <==>
            TimesCalled(Fail, actions) < if c.threshold == 0 then 1 else c.threshold
  {
    RunCounts(c, now, actions);
    FailureInvReached(c, now, actions);
    var s := Execute(c, Init(now), actions).value;
    assert forall t :: !Failing(At(s, t)) ==> !WillOpen(c, At(s, t));
  }
}
