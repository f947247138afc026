/** One call of Migrate (go/postgres.go:71-130, rust/src/relational.rs:133-164) as the loop it is,
    against a database that other migrators of the same list keep advancing between its statements. */
module Migrator {
  import opened Migrations

  /** How a statement ends for the caller. Lost is a commit that took effect and reported failure; for
      any other statement it is a failure. */
  datatype Fault = Fine | Fails | Lost

  /** Before a statement, the other migrators commit the next `rivals` pending migrations (or as many as
      are left). */
  datatype Moment = Moment(rivals: nat, fault: Fault)

  lemma {:induction false} PendingAfter(ms: seq<Migration>, a: set<Version>, k: nat)
    requires k <= |Pending(ms, a)|
    ensures Pending(ms, a + VersionsOf(Pending(ms, a)[..k])) == Pending(ms, a)[k..]
  {
    if k == 0 {
      assert a + VersionsOf(Pending(ms, a)[..0]) == a;
    } else if ms[0].version in a {
      PendingAfter(ms[1..], a, k);
    } else {
      var next, p := a + {ms[0].version}, Pending(ms, a);
      var rest := Pending(ms[1..], next);
      PendingAfter(ms[1..], next, k - 1);
      assert p[..k] == [ms[0]] + rest[..k - 1];
      VersionsHead(p[..k]);
      assert p[..k][1..] == rest[..k - 1];
      assert a + VersionsOf(p[..k]) == next + VersionsOf(rest[..k - 1]);
      assert p[k..] == rest[k - 1..];
    }
  }

  /** Advancing an advanced database continues where it stopped: so a retry, or another migrator, never
      repeats what is committed. */
  lemma AdvanceAgain(db: Db, ms: seq<Migration>, k: nat, n: nat)
    requires k <= |Pending(ms, db.versions)| && n <= |Pending(ms, Advanced(db, ms, k).versions)|
    ensures k + n <= |Pending(ms, db.versions)|
    ensures Advanced(Advanced(db, ms, k), ms, n) == Advanced(db, ms, k + n)
  {
    var p := Pending(ms, db.versions);
    PendingAfter(ms, db.versions, k);
    assert Advanced(db, ms, k).versions == db.versions + VersionsOf(p[..k]);
    hide Pending, VersionsOf, Extended;
    SplitPrefix(p, k, n);
    ExtendAgain(db, p[..k], p[k..][..n]);
  }

  lemma SplitPrefix(p: seq<Migration>, k: nat, n: nat)
    requires k + n <= |p|
    ensures p[..k + n] == p[..k] + p[k..][..n]
  {
  }

  /** How many migrations the others are about to commit at moments a up to b. */
  function Rivals(env: nat -> Moment, a: nat, b: nat): nat {
    if b <= a then 0 else Rivals(env, a, b - 1) + env(b - 1).rivals
  }

  class Database {
    var committed: Db

    constructor (db: Db)
      ensures committed == db
    {
      committed := db;
    }

    /** What the other migrators do meanwhile. */
    method Meanwhile(ms: seq<Migration>, rivals: nat, ghost start: Db, ghost k: nat) returns (ghost k': nat)
      requires k <= |Pending(ms, start.versions)| && committed == Advanced(start, ms, k)
      modifies this
      ensures k <= k' <= |Pending(ms, start.versions)| && committed == Advanced(start, ms, k')
      ensures old(committed).versions <= committed.versions
      ensures k' == if k + rivals <= |Pending(ms, start.versions)| then k + rivals else |Pending(ms, start.versions)|
    {
      PendingAfter(ms, start.versions, k);
      var left := |Pending(ms, committed.versions)|;
      var n := if rivals <= left then rivals else left;
      AdvanceAgain(start, ms, k, n);
      committed := Advanced(committed, ms, n);
      k' := k + n;
    }
  }

  /** Once a rival has committed anything, the version that was next is recorded. */
  lemma RivalRecordsNext(db: Db, ms: seq<Migration>, k: nat, k': nat, i: nat)
    requires k < k' <= |Pending(ms, db.versions)| && i < |ms| && Pending(ms, db.versions)[k] == ms[i]
    ensures ms[i].version in Advanced(db, ms, k').versions
  {
    hide Pending;
    var p := Pending(ms, db.versions);
    assert p[..k'][k] == ms[i];
    InVersions(p[..k'], k);
  }

  /** The body of one migration: begin, run up_sql, insert the version, commit. The transaction's
      writes reach the database only in the commit, and a version that is already recorded is refused.
      It succeeds exactly if none of its four calls fails and no rival commits during them; its commit
      takes effect exactly if only the acknowledgement is lost or nothing goes wrong at all. */
  method Transaction(database: Database, ms: seq<Migration>, i: nat, env: nat -> Moment, step: nat, ghost start: Db, ghost k: nat)
    returns (ok: bool, step': nat, ghost k': nat)
    requires i < |ms| && k <= |Pending(ms, start.versions)| && database.committed == Advanced(start, ms, k)
    requires VersionsOf(ms[..i]) <= database.committed.versions
    requires ms[i].version !in database.committed.versions
    modifies database
    ensures k <= k' <= |Pending(ms, start.versions)| && database.committed == Advanced(start, ms, k')
    ensures old(database.committed).versions <= database.committed.versions
    ensures step < step' <= step + 4 && (ok ==> step' == step + 4)
    ensures ok <==> forall j | step <= j < step + 4 :: env(j).fault.Fine? && env(j).rivals == 0
    ensures !ok ==> !env(step' - 1).fault.Fine? || exists j :: step <= j < step' && env(j).rivals > 0
    ensures ok ==> ms[i].version in database.committed.versions && k' == k + 1
    ensures (forall j | step <= j < step + 3 :: env(j).fault.Fine?) && (forall j | step <= j < step + 4 :: env(j).rivals == 0) ==>
              database.committed.log ==
              old(database.committed).log + if env(step + 3).fault.Fails? then [] else [ms[i]]
    ensures (exists j :: step <= j < step' && (env(j).fault.Fails? || env(j).rivals > 0)) ==>
              var n := |Pending(ms, start.versions)|;
              k' == if k + Rivals(env, step, step') <= n then k + Rivals(env, step, step') else n
  {
    hide Pending, VersionsOf, Advanced, Extended;
    k', step' := k, step;
    var statements := ["BEGIN", ms[i].upSql, "INSERT"];
    NextIsPending(start, ms, k, i);
    ghost var n := |Pending(ms, start.versions)|;
    for s := 0 to |statements|
      invariant k <= k' <= n && database.committed == Advanced(start, ms, k')
      invariant old(database.committed).versions <= database.committed.versions
      invariant step' == step + s && forall j | step <= j < step' :: env(j).fault.Fine?
      invariant k' == if k + Rivals(env, step, step') <= n then k + Rivals(env, step, step') else n
      invariant k' == k <==> forall j | step <= j < step' :: env(j).rivals == 0
      invariant k' == k ==> database.committed == old(database.committed)
      invariant s == 3 ==> k' == k
    {
      k' := database.Meanwhile(ms, env(step').rivals, start, k');
      var fault := env(step').fault;
      step' := step' + 1;
      if k' > k { RivalRecordsNext(start, ms, k, k', i); }
      if !fault.Fine? || (s == 2 && ms[i].version in database.committed.versions) {
        return false, step', k';
      }
    }
    k' := database.Meanwhile(ms, env(step').rivals, start, k');
    var fault := env(step').fault;
    step' := step' + 1;
    if k' > k { RivalRecordsNext(start, ms, k, k', i); }
    if fault.Fails? || ms[i].version in database.committed.versions {
      return false, step', k';
    }
    AdvanceOne(start, ms, k');
    database.committed := Committed(database.committed, ms[i]);
    k' := k' + 1;
    ok := fault.Fine?;
  }

  /** However its statements fail and whatever its rivals commit, Migrate leaves the database advanced by
      some number of pending migrations, never fewer than before, and by all of them when it succeeds.
      When it fails, the last of its `steps` calls failed, or a rival committed while the transaction that
      began at call `began` was under way; left alone on a sound database it succeeds. */
  method Migrate(database: Database, ms: seq<Migration>, env: nat -> Moment, ghost start: Db, ghost k: nat)
    returns (ok: bool, ghost steps: nat, ghost began: nat, ghost k': nat)
    requires k <= |Pending(ms, start.versions)| && database.committed == Advanced(start, ms, k)
    modifies database
    ensures k <= k' <= |Pending(ms, start.versions)| && database.committed == Advanced(start, ms, k')
    ensures ok ==> k' == |Pending(ms, start.versions)|
    ensures 1 <= steps <= 1 + 5 * |ms|
    ensures ok ==> forall j | 0 <= j < steps :: env(j).fault.Fine?
    ensures !ok ==>
              || !env(steps - 1).fault.Fine?
              || (began < steps <= began + 4 && exists j :: began <= j < steps && env(j).rivals > 0)
    ensures (forall j: nat :: env(j).fault.Fine? && env(j).rivals == 0) ==> ok && k' == |Pending(ms, start.versions)|
  {
    NoVersions(ms);
    hide Pending, VersionsOf, Advanced, Extended, Rivals;
    var step: nat := 1;
    began := 0;
    k' := database.Meanwhile(ms, env(0).rivals, start, k);
    if !env(0).fault.Fine? {
      return false, step, began, k';
    }
    for i := 0 to |ms|
      invariant k <= k' <= |Pending(ms, start.versions)| && database.committed == Advanced(start, ms, k')
      invariant VersionsOf(ms[..i]) <= database.committed.versions
      invariant 1 <= step <= 1 + 5 * i && forall j | 0 <= j < step :: env(j).fault.Fine?
    {
      k' := database.Meanwhile(ms, env(step).rivals, start, k');
      var fault := env(step).fault;
      step := step + 1;
      if !fault.Fine? {
        return false, step, began, k';
      }
      VersionsOneMore(ms, i);
      var exists' := ms[i].version in database.committed.versions;
      if !exists' {
        var applied;
        began := step;
        applied, step, k' := Transaction(database, ms, i, env, step, start, k');
        if !applied {
          return false, step, began, k';
        }
      }
    }
    assert ms[..|ms|] == ms;
    AllRecorded(start, ms, k');
    return true, step, began, k';
  }
}
