/** Schema migration (go/postgres.go:71-130, rust/src/relational.rs:133-164): each migrator checks a
    version outside any transaction, then runs the migration and records the version inside one, with
    the version as primary key. Any number of migrators run the same list at once; any of their calls
    may fail, a commit may take effect and still report failure, and a failed migrator starts over.
    Assumed of the database: a transaction commits atomically or not at all, and a commit that would
    repeat a recorded version is refused. */
module Migrations {

  type Version = string

  datatype Migration = Migration(version: Version, upSql: string)

  /** The committed state: what was recorded, and the migrations that took effect, in order. */
  datatype Db = Db(versions: set<Version>, log: seq<Migration>)

  function VersionsOf(ms: seq<Migration>): set<Version> {
    set m | m in ms :: m.version
  }

  /** What the list still has to apply: in list order, the first migration of each version that is not
      recorded yet. */
  function Pending(ms: seq<Migration>, applied: set<Version>): seq<Migration> {
    if ms == [] then []
    else if ms[0].version in applied then Pending(ms[1..], applied)
    else [ms[0]] + Pending(ms[1..], applied + {ms[0].version})
  }

  /** The database after some more migrations committed. */
  function Extended(db: Db, done: seq<Migration>): Db {
    Db(db.versions + VersionsOf(done), db.log + done)
  }

  /** The database after the first k pending migrations. */
  function Advanced(db: Db, ms: seq<Migration>, k: nat): Db
    requires k <= |Pending(ms, db.versions)|
  {
    Extended(db, Pending(ms, db.versions)[..k])
  }

  // ---------- The pending list ----------

  lemma VersionsAppend(a: seq<Migration>, b: seq<Migration>)
    ensures VersionsOf(a + b) == VersionsOf(a) + VersionsOf(b)
  {
    forall v ensures v in VersionsOf(a + b) <==> v in VersionsOf(a) + VersionsOf(b) {
      if v in VersionsOf(a) {
        var m :| m in a && m.version == v;
        assert m in a + b;
      }
      if v in VersionsOf(b) {
        var m :| m in b && m.version == v;
        assert m in a + b;
      }
    }
  }

  lemma VersionsHead(ms: seq<Migration>)
    requires ms != []
    ensures VersionsOf(ms) == {ms[0].version} + VersionsOf(ms[1..])
  {
    assert ms == [ms[0]] + ms[1..];
    VersionsAppend([ms[0]], ms[1..]);
  }

  lemma {:induction false} PendingIsNew(ms: seq<Migration>, applied: set<Version>)
    ensures forall m | m in Pending(ms, applied) :: m.version !in applied && m in ms
  {
    if ms != [] {
      if ms[0].version in applied {
        PendingIsNew(ms[1..], applied);
      } else {
        PendingIsNew(ms[1..], applied + {ms[0].version});
      }
    }
  }

  predicate Distinct(ms: seq<Migration>) {
    forall i, j | 0 <= i < j < |ms| :: ms[i].version != ms[j].version
  }

  lemma {:induction false} PendingIsDistinct(ms: seq<Migration>, applied: set<Version>)
    ensures Distinct(Pending(ms, applied))
  {
    if ms != [] {
      if ms[0].version in applied {
        PendingIsDistinct(ms[1..], applied);
      } else {
        var next := applied + {ms[0].version};
        PendingIsDistinct(ms[1..], next);
        PendingIsNew(ms[1..], next);
        var rest := Pending(ms[1..], next);
        var p := Pending(ms, applied);
        assert p == [ms[0]] + rest;
        forall i, j | 0 <= i < j < |p| ensures p[i].version != p[j].version {
          assert p[j] == rest[j - 1] && rest[j - 1] in rest;
          if i > 0 {
            assert rest[i - 1].version != rest[j - 1].version;
          }
        }
      }
    }
  }

  lemma {:induction false} PendingCovers(ms: seq<Migration>, applied: set<Version>)
    ensures applied + VersionsOf(Pending(ms, applied)) == applied + VersionsOf(ms)
  {
    if ms != [] {
      hide VersionsOf;
      VersionsHead(ms);
      if ms[0].version in applied {
        PendingCovers(ms[1..], applied);
      } else {
        var next := applied + {ms[0].version};
        var rest := Pending(ms[1..], next);
        PendingCovers(ms[1..], next);
        VersionsHead([ms[0]] + rest);
        assert ([ms[0]] + rest)[1..] == rest;
        assert applied + ({ms[0].version} + VersionsOf(rest)) == next + VersionsOf(rest);
        assert next + VersionsOf(ms[1..]) == applied + VersionsOf(ms);
      }
    }
  }

  /** No pending migration is recorded yet, no two share a version, and together with the recorded
      versions they cover the list. */
  lemma PendingIsFresh(ms: seq<Migration>, applied: set<Version>)
    ensures var p := Pending(ms, applied);
            && (forall i | 0 <= i < |p| :: p[i].version !in applied && p[i] in ms)
            && Distinct(p)
            && applied + VersionsOf(p) == applied + VersionsOf(ms)
  {
    hide Pending, VersionsOf;
    PendingIsNew(ms, applied);
    PendingIsDistinct(ms, applied);
    PendingCovers(ms, applied);
    var p := Pending(ms, applied);
    assert forall i | 0 <= i < |p| :: p[i] in p;
  }

  lemma {:induction false} PendingAppend(a: seq<Migration>, b: seq<Migration>, applied: set<Version>)
    ensures Pending(a + b, applied) == Pending(a, applied) + Pending(b, applied + VersionsOf(a))
  {
    if a == [] {
      assert a + b == b;
      assert applied + VersionsOf([]) == applied;
    } else {
      VersionsHead(a);
      assert (a + b)[0] == a[0] && (a + b)[1..] == a[1..] + b;
      if a[0].version in applied {
        PendingAppend(a[1..], b, applied);
        assert applied + VersionsOf(a[1..]) == applied + VersionsOf(a);
      } else {
        PendingAppend(a[1..], b, applied + {a[0].version});
        assert applied + {a[0].version} + VersionsOf(a[1..]) == applied + VersionsOf(a);
      }
    }
  }

  /** The migrations still pending are not among the versions done. */
  lemma LaterIsNotDone(p: seq<Migration>, k: nat)
    requires k <= |p| && Distinct(p)
    ensures k < |p| ==> p[k].version !in VersionsOf(p[..k])
    ensures forall j | 0 <= j < k :: p[j].version in VersionsOf(p[..k])
  {
    assert forall j | 0 <= j < k :: p[j] in p[..k];
    assert forall m | m in p[..k] :: exists j :: 0 <= j < k && p[j] == m;
  }

  /** A migrator that found everything before position i recorded, and i not, is about to apply exactly
      the next pending migration. */
  lemma NextIsPending(db: Db, ms: seq<Migration>, k: nat, i: nat)
    requires k <= |Pending(ms, db.versions)| && i < |ms|
    requires VersionsOf(ms[..i]) <= Advanced(db, ms, k).versions
    requires ms[i].version !in Advanced(db, ms, k).versions
    ensures k < |Pending(ms, db.versions)| && Pending(ms, db.versions)[k] == ms[i]
  {
    var a, p, before := db.versions, Pending(ms, db.versions), Pending(ms[..i], db.versions);
    var n, done := |before|, VersionsOf(p[..k]);
    assert VersionsOf(ms[..i]) <= a + done && ms[i].version !in a + done;
    hide Pending, VersionsOf, Advanced;
    PendingIsFresh(ms, a);
    PendingAround(ms, a, i);
    LaterIsNotDone(p, k);
    BeforeIsDone(ms[..i], a, done);
    assert forall j | 0 <= j < n :: p[j] == before[j];
    assert k >= n;
    assert ms[i].version !in a + VersionsOf(ms[..i]);
    assert p[n] == ms[i];
  }

  lemma BeforeIsDone(ms: seq<Migration>, applied: set<Version>, done: set<Version>)
    requires VersionsOf(ms) <= applied + done
    ensures var p := Pending(ms, applied); forall j | 0 <= j < |p| :: p[j].version in done
  {
    hide Pending, VersionsOf;
    PendingIsFresh(ms, applied);
    var p := Pending(ms, applied);
    forall j | 0 <= j < |p| ensures p[j].version in done {
      InVersions(p, j);
      assert p[j].version in applied + VersionsOf(ms);
    }
  }

  lemma InVersions(ms: seq<Migration>, j: nat)
    requires j < |ms|
    ensures ms[j].version in VersionsOf(ms)
  {
    assert ms[j] in ms;
  }

  lemma PendingAround(ms: seq<Migration>, a: set<Version>, i: nat)
    requires i < |ms|
    ensures Pending(ms[..i], a) <= Pending(ms, a)
    ensures ms[i].version !in a + VersionsOf(ms[..i]) ==>
              |Pending(ms[..i], a)| < |Pending(ms, a)| && Pending(ms, a)[|Pending(ms[..i], a)|] == ms[i]
  {
    assert ms == ms[..i] + ms[i..];
    PendingAppend(ms[..i], ms[i..], a);
  }

  /** Once everything in the list is recorded nothing is pending. */
  lemma AllRecorded(db: Db, ms: seq<Migration>, k: nat)
    requires k <= |Pending(ms, db.versions)|
    requires VersionsOf(ms) <= Advanced(db, ms, k).versions
    ensures k == |Pending(ms, db.versions)|
  {
    var p := Pending(ms, db.versions);
    PendingIsFresh(ms, db.versions);
    LaterIsNotDone(p, k);
    hide Pending, VersionsOf;
    var done := VersionsOf(p[..k]);
    forall j | 0 <= j < |p| ensures p[j].version in done {
      InVersions(p, j);
      assert p[j].version in db.versions + VersionsOf(p);
      assert p[j].version in db.versions + VersionsOf(ms);
    }
  }

  lemma AdvanceOne(db: Db, ms: seq<Migration>, k: nat)
    requires k < |Pending(ms, db.versions)|
    ensures var d, m := Advanced(db, ms, k), Pending(ms, db.versions)[k];
            Advanced(db, ms, k + 1) == Db(d.versions + {m.version}, d.log + [m])
  {
    var p := Pending(ms, db.versions);
    assert p[..k + 1] == p[..k] + [p[k]];
    ExtendAgain(db, p[..k], [p[k]]);
    assert VersionsOf([p[k]]) == {p[k].version};
  }

  lemma ExtendAgain(db: Db, a: seq<Migration>, b: seq<Migration>)
    ensures Extended(Extended(db, a), b) == Extended(db, a + b)
  {
    VersionsAppend(a, b);
    assert db.log + a + b == db.log + (a + b);
  }

  // ---------- The protocol ----------

  type Migrator = nat

  /** Where a migrator is in the list: before the table exists, checking entry i, inside a transaction
      for entry i, or finished. */
  datatype Pc = Idle | Checking(i: nat) | Began(i: nat) | Ran(i: nat) | Recorded(i: nat) | Succeeded

  datatype State = State(db: Db, pcs: map<Migrator, Pc>)

  /** Fail stands for any reported failure before a commit took effect (and for the migrator dying);
      CommitLost is a commit that took effect but reported failure. */
  datatype Action = Start(p: Migrator) | Step(p: Migrator) | Commit(p: Migrator) | CommitLost(p: Migrator) | Fail(p: Migrator)

  function At(s: State, p: Migrator): Pc {
    if p in s.pcs then s.pcs[p] else Idle
  }

  function Goto(s: State, p: Migrator, pc: Pc): State {
    s.(pcs := s.pcs[p := pc])
  }

  function Committed(db: Db, m: Migration): Db {
    Db(db.versions + {m.version}, db.log + [m])
  }

  predicate CanCommit(ms: seq<Migration>, s: State, p: Migrator) {
    At(s, p).Recorded? && At(s, p).i < |ms| && ms[At(s, p).i].version !in s.db.versions
  }

  function Next(ms: seq<Migration>, s: State, a: Action): (r: State) {
    var pc := At(s, a.p);
    match a
    case Start(p) => if pc.Idle? || pc.Succeeded? then Goto(s, p, Checking(0)) else s
    case Fail(p) => Goto(s, p, Idle)
    case Commit(p) =>
      if CanCommit(ms, s, p) then Goto(s, p, Checking(pc.i + 1)).(db := Committed(s.db, ms[pc.i])) else s
    case CommitLost(p) =>
      if CanCommit(ms, s, p) then Goto(s, p, Idle).(db := Committed(s.db, ms[pc.i])) else s
    case Step(p) =>
      match pc
      case Checking(i) =>
        if i >= |ms| then Goto(s, p, Succeeded)
        else if ms[i].version in s.db.versions then Goto(s, p, Checking(i + 1))
        else Goto(s, p, Began(i))
      case Began(i) => Goto(s, p, Ran(i))
      case Ran(i) => Goto(s, p, Recorded(i))
      case _ => s
  }

  function Run(ms: seq<Migration>, db: Db, actions: seq<Action>): State {
    if actions == [] then State(db, map[])
    else Next(ms, Run(ms, db, actions[..|actions| - 1]), actions[|actions| - 1])
  }

  /** How far down the list a migrator has seen everything recorded. */
  function Behind(ms: seq<Migration>, pc: Pc): nat {
    match pc
    case Idle => 0
    case Checking(i) => i
    case Began(i) => i
    case Ran(i) => i
    case Recorded(i) => i
    case Succeeded => |ms|
  }

  ghost predicate InPlace(ms: seq<Migration>, pc: Pc, versions: set<Version>) {
    && Behind(ms, pc) <= |ms|
    && VersionsOf(ms[..Behind(ms, pc)]) <= versions
    && (pc.Began? || pc.Ran? || pc.Recorded? ==> pc.i < |ms|)
  }

  /** The database is the initial one advanced by k pending migrations, and every migrator has left
      only recorded versions behind it. */
  ghost predicate Inv(ms: seq<Migration>, db: Db, s: State, k: nat) {
    && k <= |Pending(ms, db.versions)|
    && s.db == Advanced(db, ms, k)
    && forall p: Migrator :: InPlace(ms, At(s, p), s.db.versions)
  }

  lemma VersionsOneMore(ms: seq<Migration>, i: nat)
    requires i < |ms|
    ensures VersionsOf(ms[..i + 1]) == VersionsOf(ms[..i]) + {ms[i].version}
  {
    assert ms[..i + 1] == ms[..i] + [ms[i]];
    VersionsAppend(ms[..i], [ms[i]]);
  }

  lemma MoveKeepsInv(ms: seq<Migration>, db: Db, s: State, k: nat, p: Migrator, pc': Pc, s': State, k': nat)
    requires Inv(ms, db, s, k)
    requires k' <= |Pending(ms, db.versions)| && s'.db == Advanced(db, ms, k') && s.db.versions <= s'.db.versions
    requires At(s', p) == pc' && forall q | q != p :: At(s', q) == At(s, q)
    requires InPlace(ms, pc', s'.db.versions)
    ensures Inv(ms, db, s', k')
  {
    forall q: Migrator ensures InPlace(ms, At(s', q), s'.db.versions) {
      assert InPlace(ms, At(s, q), s.db.versions);
    }
  }

  lemma CommitKeepsInv(ms: seq<Migration>, db: Db, s: State, k: nat, p: Migrator, pc': Pc)
    requires Inv(ms, db, s, k) && CanCommit(ms, s, p)
    requires pc' == Idle || pc' == Checking(At(s, p).i + 1)
    ensures Inv(ms, db, Goto(s, p, pc').(db := Committed(s.db, ms[At(s, p).i])), k + 1)
  {
    var i := At(s, p).i;
    assert InPlace(ms, At(s, p), s.db.versions);
    NextIsPending(db, ms, k, i);
    AdvanceOne(db, ms, k);
    VersionsOneMore(ms, i);
    hide Pending, VersionsOf, Advanced;
    assert VersionsOf(ms[..0]) <= s.db.versions by { NoVersions(ms); }
    MoveKeepsInv(ms, db, s, k, p, pc', Goto(s, p, pc').(db := Committed(s.db, ms[i])), k + 1);
  }

  lemma NoVersions(ms: seq<Migration>)
    ensures VersionsOf(ms[..0]) == {}
  {
  }

  lemma InvKept(ms: seq<Migration>, db: Db, s: State, k: nat, a: Action) returns (k': nat)
    requires Inv(ms, db, s, k)
    ensures Inv(ms, db, Next(ms, s, a), k') && k <= k' <= k + 1
  {
    k' := k;
    var pc, p, s' := At(s, a.p), a.p, Next(ms, s, a);
    assert InPlace(ms, pc, s.db.versions);
    NoVersions(ms);
    if (a.Commit? || a.CommitLost?) && CanCommit(ms, s, p) {
      CommitKeepsInv(ms, db, s, k, p, if a.Commit? then Checking(pc.i + 1) else Idle);
      k' := k + 1;
    } else {
      if a.Step? && pc.Checking? && pc.i < |ms| {
        VersionsOneMore(ms, pc.i);
      }
      hide Pending, VersionsOf, Advanced;
      assert ms[..|ms|] == ms;
      MoveKeepsInv(ms, db, s, k, p, At(s', p), s', k);
    }
  }

  /** Migration safety: whatever the migrators do, however often they retry and whichever commits lose
      their acknowledgement, the committed log is the initial log followed by a prefix of the pending
      migrations, and a migrator that succeeds leaves nothing pending. */
  lemma {:induction false} MigrationsCommitInOrder(ms: seq<Migration>, db: Db, actions: seq<Action>) returns (k: nat)
    ensures Inv(ms, db, Run(ms, db, actions), k)
    ensures k <= |Pending(ms, db.versions)|
    ensures Run(ms, db, actions).db.log == db.log + Pending(ms, db.versions)[..k]
    ensures Run(ms, db, actions).db.versions == db.versions + VersionsOf(Pending(ms, db.versions)[..k])
    ensures (exists p :: At(Run(ms, db, actions), p).Succeeded?) ==> k == |Pending(ms, db.versions)|
  {
    var s := Run(ms, db, actions);
    if actions == [] {
      k := 0;
      assert Pending(ms, db.versions)[..0] == [];
      NoVersions(ms);
      assert forall p :: InPlace(ms, At(s, p), s.db.versions);
    } else {
      k := MigrationsCommitInOrder(ms, db, actions[..|actions| - 1]);
      k := InvKept(ms, db, Run(ms, db, actions[..|actions| - 1]), k, actions[|actions| - 1]);
    }
    if p :| At(s, p).Succeeded? {
      assert ms[..|ms|] == ms;
      assert InPlace(ms, At(s, p), s.db.versions);
      AllRecorded(db, ms, k);
    }
  }

  /** No version is committed twice: beyond the initial log every version appears once and was not
      recorded before. */
  lemma NothingCommitsTwice(ms: seq<Migration>, db: Db, actions: seq<Action>)
    ensures var log := Run(ms, db, actions).db.log;
            && db.log <= log
            && (forall i | |db.log| <= i < |log| :: log[i].version !in db.versions)
            && forall i, j | |db.log| <= i < j < |log| :: log[i].version != log[j].version
  {
    var k := MigrationsCommitInOrder(ms, db, actions);
    PendingIsFresh(ms, db.versions);
  }

  /** The database changes only in a commit of a version that is not recorded yet: it records the version
      and appends its migration, whether or not the migrator learns of it. */
  lemma OnlyCommitsCount(ms: seq<Migration>, s: State, a: Action)
    ensures var s', pc := Next(ms, s, a), At(s, a.p);
            if (a.Commit? || a.CommitLost?) && pc.Recorded? && pc.i < |ms| && ms[pc.i].version !in s.db.versions then
              && s'.db.log == s.db.log + [ms[pc.i]]
              && s'.db.versions == s.db.versions + {ms[pc.i].version}
              && At(s', a.p) == if a.Commit? then Checking(pc.i + 1) else Idle
            else s'.db == s.db
    ensures forall q | q != a.p :: At(Next(ms, s, a), q) == At(s, q)
  {
  }

  // ---------- A migrator left alone ----------

  /** p is inside a transaction for a version that somebody else has recorded since: its commit will be
      refused. */
  predicate Doomed(ms: seq<Migration>, s: State, p: Migrator) {
    var pc := At(s, p);
    (pc.Began? || pc.Ran? || pc.Recorded?) && pc.i < |ms| && ms[pc.i].version in s.db.versions
  }

  /** What p does next while nothing fails. */
  function OwnAction(s: State, p: Migrator): Action {
    match At(s, p)
    case Idle => Start(p)
    case Recorded(_) => Commit(p)
    case _ => Step(p)
  }

  /** The most actions p needs to reach the end of the list. */
  function Left(ms: seq<Migration>, pc: Pc): int {
    match pc
    case Idle => 4 * |ms| + 2
    case Checking(i) => 4 * (|ms| - i) + 1
    case Began(i) => 4 * (|ms| - i)
    case Ran(i) => 4 * (|ms| - i) - 1
    case Recorded(i) => 4 * (|ms| - i) - 2
    case Succeeded => 0
  }

  lemma OwnProgress(ms: seq<Migration>, s: State, p: Migrator)
    requires InPlace(ms, At(s, p), s.db.versions) && !Doomed(ms, s, p) && !At(s, p).Succeeded?
    ensures var s' := Next(ms, s, OwnAction(s, p));
            && 0 <= Left(ms, At(s', p)) < Left(ms, At(s, p))
            && !Doomed(ms, s', p)
  {
    hide VersionsOf;
  }

  lemma RunOneMore(ms: seq<Migration>, db: Db, actions: seq<Action>, a: Action)
    ensures Run(ms, db, actions + [a]) == Next(ms, Run(ms, db, actions), a)
  {
    assert (actions + [a])[..|actions|] == actions;
  }

  /** All actions are p's and none is a failure of any kind. */
  predicate Faultless(actions: seq<Action>, p: Migrator) {
    forall j | 0 <= j < |actions| :: actions[j].p == p && !actions[j].Fail? && !actions[j].CommitLost?
  }

  lemma OwnStep(ms: seq<Migration>, db: Db, actions: seq<Action>, p: Migrator)
    requires !Doomed(ms, Run(ms, db, actions), p) && !At(Run(ms, db, actions), p).Succeeded?
    ensures var s, s' := Run(ms, db, actions), Run(ms, db, actions + [OwnAction(Run(ms, db, actions), p)]);
            && !Doomed(ms, s', p)
            && 0 <= Left(ms, At(s', p)) < Left(ms, At(s, p)) <= 4 * |ms| + 2
  {
    var s := Run(ms, db, actions);
    var k := MigrationsCommitInOrder(ms, db, actions);
    assert InPlace(ms, At(s, p), s.db.versions);
    hide Pending, VersionsOf, Run, Next, Doomed;
    OwnProgress(ms, s, p);
    RunOneMore(ms, db, actions, OwnAction(s, p));
  }

  lemma {:induction false} AloneSucceeds(ms: seq<Migration>, db: Db, actions: seq<Action>, p: Migrator)
    returns (more: seq<Action>)
    requires !Doomed(ms, Run(ms, db, actions), p)
    ensures Faultless(more, p) && At(Run(ms, db, actions + more), p) == Succeeded
    ensures |more| <= Left(ms, At(Run(ms, db, actions), p)) <= 4 * |ms| + 2
    decreases Left(ms, At(Run(ms, db, actions), p))
  {
    hide Run, Doomed, Left, At, Faultless, OwnAction;
    if At(Run(ms, db, actions), p).Succeeded? {
      more := [];
      NothingToDo(ms, db, actions, p);
    } else {
      var a := OwnAction(Run(ms, db, actions), p);
      OwnStep(ms, db, actions, p);
      var rest := AloneSucceeds(ms, db, actions + [a], p);
      more := [a] + rest;
      assert actions + more == actions + [a] + rest;
      FaultlessHead(Run(ms, db, actions), rest, p);
    }
  }

  lemma NothingToDo(ms: seq<Migration>, db: Db, actions: seq<Action>, p: Migrator)
    requires At(Run(ms, db, actions), p).Succeeded?
    ensures Faultless([], p) && Left(ms, At(Run(ms, db, actions), p)) == 0
    ensures At(Run(ms, db, actions + []), p) == Succeeded
  {
    assert actions + [] == actions;
  }

  lemma FaultlessHead(s: State, rest: seq<Action>, p: Migrator)
    requires Faultless(rest, p)
    ensures Faultless([OwnAction(s, p)] + rest, p)
  {
    hide At;
  }

  lemma {:induction false} DoomedStays(ms: seq<Migration>, db: Db, actions: seq<Action>, more: seq<Action>, p: Migrator)
    requires Doomed(ms, Run(ms, db, actions), p) && Fail(p) !in more
    ensures Doomed(ms, Run(ms, db, actions + more), p)
  {
    if more == [] {
      assert actions + more == actions;
    } else {
      var before, a := more[..|more| - 1], more[|more| - 1];
      DoomedStays(ms, db, actions, before, p);
      assert actions + more == actions + before + [a];
      RunOneMore(ms, db, actions + before, a);
    }
  }

  /** Progress: from every reachable state a migrator left alone succeeds, without a fault and within
      4 actions a migration and 2 more, if and only if no other migrator has recorded the version of the
      transaction it is in. */
  lemma SucceedsAloneIff(ms: seq<Migration>, db: Db, actions: seq<Action>, p: Migrator)
    ensures (exists more :: Faultless(more, p) && |more| <= 4 * |ms| + 2
                            && At(Run(ms, db, actions + more), p) == Succeeded) <==>
            !Doomed(ms, Run(ms, db, actions), p)
  {
    if !Doomed(ms, Run(ms, db, actions), p) {
      var more := AloneSucceeds(ms, db, actions, p);
    } else {
      forall more | Faultless(more, p) ensures At(Run(ms, db, actions + more), p) != Succeeded {
        DoomedStays(ms, db, actions, more, p);
      }
    }
  }

  /** From every reachable state any migrator can finish the list: if its own transaction can no longer
      commit it reports that failure and starts over, and then everything pending is committed. */
  lemma AnyMigratorCanFinish(ms: seq<Migration>, db: Db, actions: seq<Action>, p: Migrator) returns (more: seq<Action>)
    ensures Faultless(more, p) || (more != [] && more[0] == Fail(p) && Faultless(more[1..], p))
    ensures var s := Run(ms, db, actions + more);
            At(s, p) == Succeeded && s.db.log == db.log + Pending(ms, db.versions)
  {
    var begun := actions;
    if Doomed(ms, Run(ms, db, actions), p) {
      begun := actions + [Fail(p)];
      RunOneMore(ms, db, actions, Fail(p));
    }
    more := AloneSucceeds(ms, db, begun, p);
    var k := MigrationsCommitInOrder(ms, db, begun + more);
    if begun != actions {
      assert begun + more == actions + ([Fail(p)] + more);
      more := [Fail(p)] + more;
    }
    hide Run;
    assert Pending(ms, db.versions)[..k] == Pending(ms, db.versions);
  }
}
