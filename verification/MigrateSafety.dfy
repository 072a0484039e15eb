/**
 Exactly once, in order, or not at all: what the committed database looks like
 in every run of the migration protocol.
 */
module MigrateSafety {
  import opened Prelude
  import opened MigrateModel

  // The first `n` steps are in: every one of them is recorded, and the schema
  // is what they make of the original when each missing one is applied once.
  ghost predicate UpTo<S, Q>(e: Engine<S, Q>, steps: seq<Migration<Q>>, schema: S, already: set<int>, db: Db<S>, n: nat)
  {
    && n <= |steps|
    && db.recorded == already + Versions(steps[..n])
    && db.commits == OutstandingVersions(steps[..n], already)
    && Outstanding(e, steps[..n], already, schema) == Some(db.schema)
  }

  ghost predicate Migrated<S, Q>(e: Engine<S, Q>, steps: seq<Migration<Q>>, schema: S, already: set<int>, db: Db<S>) {
    exists n: nat :: UpTo(e, steps, schema, already, db, n)
  }

  // A transaction's working copy, between statements and inside one.
  ghost predicate TxSound<S, Q>(e: Engine<S, Q>, steps: seq<Migration<Q>>, db: Db<S>, tx: Tx<S>) {
    && tx.at < |steps| && tx.next <= |steps[tx.at].statements|
    && var done := Applied(e, steps[tx.at].statements[..tx.next], db.schema);
       match tx.phase
       case Between => done == Some(tx.work)
       case Settled => done == Some(tx.work)
       case Trying(save) => done == Some(save) && tx.work == save && tx.next < |steps[tx.at].statements|
       case Broken(save) => done == Some(save) && tx.next < |steps[tx.at].statements|
                            && e.exec(steps[tx.at].statements[tx.next], save).Failed?
                            && e.exec(steps[tx.at].statements[tx.next], save).benign
  }

  // What an instance knows is still true while it holds the lock.
  ghost predicate InstanceSound<S, Q>(e: Engine<S, Q>, steps: seq<Migration<Q>>, db: Db<S>, me: Instance<S>) {
    match me
    case Looping(applied, at) => at <= |steps| && db.recorded == applied + Versions(steps[..at])
    case Stepping(applied, tx) =>
      TxSound(e, steps, db, tx) && steps[tx.at].version !in applied && db.recorded == applied + Versions(steps[..tx.at])
    case Recorded(applied, tx) =>
      TxSound(e, steps, db, tx) && steps[tx.at].version !in applied && db.recorded == applied + Versions(steps[..tx.at])
      && tx.phase.Between? && tx.next == |steps[tx.at].statements|
    case Returning(ok) => ok ==> Versions(steps) <= db.recorded
    case Returned(ok) => ok ==> Versions(steps) <= db.recorded
    case _ => true
  }

  ghost predicate Sound<S, Q>(e: Engine<S, Q>, steps: seq<Migration<Q>>, schema: S, already: set<int>, s: Sys<S>) {
    && Migrated(e, steps, schema, already, s.db)
    && (forall p :: p in s.instances && HoldsLock(s.instances[p]) ==> s.lock == Some(p))
    && (forall p :: p in s.instances ==> InstanceSound(e, steps, s.db, s.instances[p]))
  }

  /******* The committing step *******/

  lemma {:induction false} VersionsMore<Q>(steps: seq<Migration<Q>>, n: nat)
    requires n < |steps|
    ensures Versions(steps[..n + 1]) == Versions(steps[..n]) + {steps[n].version}
  {
    var a, b := steps[..n + 1], steps[..n];
    forall v | v in Versions(b) ensures v in Versions(a) {
      var i :| 0 <= i < |b| && b[i].version == v;
      assert a[i].version == v;
    }
    assert a[n].version == steps[n].version;
    forall v | v in Versions(a) ensures v in Versions(b) + {steps[n].version} {
      var i :| 0 <= i < |a| && a[i].version == v;
      if i < n { assert b[i].version == v; }
    }
  }

  lemma {:induction false} OutstandingMore<S, Q>(e: Engine<S, Q>, steps: seq<Migration<Q>>, already: set<int>,
                                                 schema: S, n: nat)
    requires n < |steps|
    ensures var before := Outstanding(e, steps[..n], already, schema);
            Outstanding(e, steps[..n + 1], already, schema) ==
              if steps[n].version in already || before.None? then before
              else Applied(e, steps[n].statements, before.value)
    ensures OutstandingVersions(steps[..n + 1], already) ==
            OutstandingVersions(steps[..n], already) + if steps[n].version in already then [] else [steps[n].version]
  {
    assert steps[..n + 1][..n] == steps[..n];
  }

  lemma {:induction false} NotAmongEarlier<Q>(steps: seq<Migration<Q>>, n: nat, m: nat)
    requires Ascending(steps) && n <= m < |steps|
    ensures steps[m].version !in Versions(steps[..n])
  {
  }

  lemma {:induction false} AmongFirst<Q>(steps: seq<Migration<Q>>, n: nat, m: nat)
    requires m < n <= |steps|
    ensures steps[m].version in Versions(steps[..n])
  {
    assert steps[..n][m] == steps[m];
  }

  // Steps that are all recorded already count as done.
  lemma {:induction false} CatchUp<S, Q>(e: Engine<S, Q>, steps: seq<Migration<Q>>, schema: S, already: set<int>,
                                         db: Db<S>, n: nat, m: nat)
    requires Ascending(steps) && UpTo(e, steps, schema, already, db, n) && n <= m <= |steps|
    requires Versions(steps[..m]) <= db.recorded
    ensures UpTo(e, steps, schema, already, db, m)
    decreases m - n
  {
    if n < m {
      AmongFirst(steps, m, n);
      NotAmongEarlier(steps, n, n);
      VersionsMore(steps, n);
      OutstandingMore(e, steps, already, schema, n);
      assert steps[n].version in already;
      hide Outstanding, OutstandingVersions;
      CatchUp(e, steps, schema, already, db, n + 1, m);
    }
  }

  lemma {:induction false} CommitAdvances<S, Q>(e: Engine<S, Q>, steps: seq<Migration<Q>>, schema: S,
                                                already: set<int>, db: Db<S>, tx: Tx<S>)
    requires Ascending(steps) && Migrated(e, steps, schema, already, db) && tx.at < |steps|
    requires Versions(steps[..tx.at]) <= db.recorded && steps[tx.at].version !in db.recorded
    requires Applied(e, steps[tx.at].statements, db.schema) == Some(tx.work)
    ensures UpTo(e, steps, schema, already, Committed(steps, db, tx), tx.at + 1)
  {
    var n: nat :| UpTo(e, steps, schema, already, db, n);
    if tx.at < n { AmongFirst(steps, n, tx.at); }
    CatchUp(e, steps, schema, already, db, n, tx.at);
    VersionsMore(steps, tx.at);
    OutstandingMore(e, steps, already, schema, tx.at);
    hide Outstanding, OutstandingVersions, Versions, Applied;
  }

  /******* Every step keeps it *******/

  // Nothing an instance does before it commits touches what the others know.
  lemma {:induction false} MoveKeeps<S, Q>(e: Engine<S, Q>, steps: seq<Migration<Q>>, schema: S, already: set<int>,
                                           s: Sys<S>, lock: Option<nat>, who: nat, me: Instance<S>)
    requires Sound(e, steps, schema, already, s) && InstanceSound(e, steps, s.db, me)
    requires HoldsLock(me) ==> lock == Some(who)
    requires lock == s.lock || (s.lock == None && lock == Some(who)) || lock == LockAfter(s.lock, who)
    ensures Sound(e, steps, schema, already, Moved(s.(lock := lock), who, me))
  {
    hide Migrated, InstanceSound;
    var s' := Moved(s.(lock := lock), who, me);
    forall p | p in s'.instances && HoldsLock(s'.instances[p]) ensures s'.lock == Some(p) {
      if p != who { assert s.lock == Some(p); }
    }
  }

  lemma {:induction false} StatementSettles<S, Q>(e: Engine<S, Q>, statements: seq<Q>, schema: S, n: nat)
    requires n < |statements| && Applied(e, statements[..n], schema).Some?
    ensures var before := Applied(e, statements[..n], schema);
            Applied(e, statements[..n + 1], schema) ==
              match e.exec(statements[n], before.value)
              case Done(after) => Some(after)
              case Failed(true, _) => before
              case Failed(false, _) => None
  {
    assert statements[..n + 1][..n] == statements[..n];
  }

  // The instance after its own step, as long as the database did not change.
  lemma {:induction false} InstanceKeeps<S, Q>(e: Engine<S, Q>, steps: seq<Migration<Q>>, s: Sys<S>, step: Step)
    requires InstanceSound(e, steps, s.db, StateOf(s, step.who)) && Enabled(steps, s, step)
    requires step.action.Skip? || step.action.Begin? || step.action.Savepoint? || step.action.Execute?
          || step.action.RollbackTo? || step.action.ReleaseSavepoint? || step.action.Record?
    ensures InstanceSound(e, steps, s.db, StateOf(Next(e, steps, s, step), step.who))
    ensures HoldsLock(StateOf(s, step.who))
  {
    var me := StateOf(s, step.who);
    match step.action
    case Skip => VersionsMore(steps, me.at); hide Applied, Versions;
    case Begin => assert Applied(e, steps[me.at].statements[..0], s.db.schema) == Some(s.db.schema); hide Versions;
    case Savepoint => hide Applied, Versions;
    case Execute => StatementSettles(e, steps[me.tx.at].statements, s.db.schema, me.tx.next); hide Applied, Versions;
    case RollbackTo => StatementSettles(e, steps[me.tx.at].statements, s.db.schema, me.tx.next); hide Applied, Versions;
    case ReleaseSavepoint => hide Applied, Versions;
    case Record => hide Applied, Versions;
  }

  // Who is not in the loop does not notice that more is recorded.
  lemma {:induction false} BystanderKeeps<S, Q>(e: Engine<S, Q>, steps: seq<Migration<Q>>, db: Db<S>, after: Db<S>,
                                                me: Instance<S>)
    requires !HoldsLock(me) && InstanceSound(e, steps, db, me) && db.recorded <= after.recorded
    ensures InstanceSound(e, steps, after, me)
  {
    hide Versions, TxSound;
  }

  lemma {:induction false} CommitterKeeps<S, Q>(e: Engine<S, Q>, steps: seq<Migration<Q>>, schema: S,
                                                already: set<int>, db: Db<S>, was: Instance<S>)
    requires Ascending(steps) && Migrated(e, steps, schema, already, db) && was.Recorded?
             && InstanceSound(e, steps, db, was)
    ensures Migrated(e, steps, schema, already, Committed(steps, db, was.tx))
    ensures InstanceSound(e, steps, Committed(steps, db, was.tx), Looping(was.applied, was.tx.at + 1))
  {
    var tx, after := was.tx, Committed(steps, db, was.tx);
    assert steps[tx.at].statements[..tx.next] == steps[tx.at].statements;
    assert after.recorded == db.recorded + {steps[tx.at].version};
    hide Versions, Applied, UpTo, Committed, Ascending;
    NotAmongEarlier(steps, tx.at, tx.at);
    CommitAdvances(e, steps, schema, already, db, tx);
    VersionsMore(steps, tx.at);
    assert after.recorded == was.applied + Versions(steps[..tx.at + 1]);
  }

  // A commit changes the database under everyone's feet; only its holder is in the loop.
  lemma {:induction false} CommitKeeps<S, Q>(e: Engine<S, Q>, steps: seq<Migration<Q>>, schema: S, already: set<int>,
                                             s: Sys<S>, who: nat, me: Instance<S>)
    requires Ascending(steps) && Sound(e, steps, schema, already, s) && StateOf(s, who).Recorded?
             && StateOf(s, who).tx.at < |steps|
    requires me == Looping(StateOf(s, who).applied, StateOf(s, who).tx.at + 1) || me == Returning(false)
    ensures Sound(e, steps, schema, already, Moved(s.(db := Committed(steps, s.db, StateOf(s, who).tx)), who, me))
  {
    var was := StateOf(s, who);
    assert who in s.instances && InstanceSound(e, steps, s.db, was);
    assert InstanceSound(e, steps, Committed(steps, s.db, was.tx), Returning(false));
    hide InstanceSound, Migrated;
    CommitterKeeps(e, steps, schema, already, s.db, was);
    var s' := Moved(s.(db := Committed(steps, s.db, was.tx)), who, me);
    forall p | p in s'.instances ensures InstanceSound(e, steps, s'.db, s'.instances[p]) {
      if p != who {
        assert !HoldsLock(s.instances[p]);
        BystanderKeeps(e, steps, s.db, s'.db, s.instances[p]);
      }
    }
  }

  lemma {:induction false} StepKeeps<S, Q>(e: Engine<S, Q>, steps: seq<Migration<Q>>, schema: S, already: set<int>,
                                           s: Sys<S>, step: Step)
    requires Ascending(steps) && Sound(e, steps, schema, already, s) && Enabled(steps, s, step)
    ensures Sound(e, steps, schema, already, Next(e, steps, s, step))
  {
    var me := StateOf(s, step.who);
    assert InstanceSound(e, steps, s.db, me);
    match step.action
    case Acquire => hide Versions; MoveKeeps(e, steps, schema, already, s, Some(step.who), step.who, Locked);
    case ReadApplied =>
      assert Versions(steps[..0]) == {};
      MoveKeeps(e, steps, schema, already, s, s.lock, step.who, Looping(s.db.recorded, 0));
    case Commit => CommitKeeps(e, steps, schema, already, s, step.who, Looping(me.applied, me.tx.at + 1));
    case CommitUnknown => CommitKeeps(e, steps, schema, already, s, step.who, Returning(false));
    case Finish =>
      assert steps[..me.at] == steps;
      MoveKeeps(e, steps, schema, already, s, s.lock, step.who, Returning(true));
    case Fail => hide Versions; MoveKeeps(e, steps, schema, already, s, s.lock, step.who, Returning(false));
    case Unlock => hide Versions; MoveKeeps(e, steps, schema, already, s, LockAfter(s.lock, step.who), step.who,
                                            Returned(me.ok));
    case Crash => hide Versions; MoveKeeps(e, steps, schema, already, s, LockAfter(s.lock, step.who), step.who, Idle);
    case _ =>
      InstanceKeeps(e, steps, s, step);
      hide InstanceSound, Migrated;
      MoveKeeps(e, steps, schema, already, s, s.lock, step.who, StateOf(Next(e, steps, s, step), step.who));
  }

  lemma {:induction false} RunKeeps<S, Q>(e: Engine<S, Q>, steps: seq<Migration<Q>>, schema: S, already: set<int>,
                                          run: seq<Step>)
    requires Ascending(steps) && EnabledRun(e, steps, Start(schema, already), run)
    ensures Sound(e, steps, schema, already, Run(e, steps, Start(schema, already), run))
  {
    var s := Start(schema, already);
    if run == [] {
      assert steps[..0] == [];
      assert UpTo(e, steps, schema, already, s.db, 0);
    } else {
      var before := run[..|run| - 1];
      RunKeeps(e, steps, schema, already, before);
      StepKeeps(e, steps, schema, already, Run(e, steps, s, before), run[|run| - 1]);
    }
  }

  /******* The theorems *******/

  ghost predicate StrictlyAscending(vs: seq<int>) { forall i, j :: 0 <= i < j < |vs| ==> vs[i] < vs[j] }

  lemma {:induction false} EarlierIsLess<Q>(steps: seq<Migration<Q>>, n: nat, v: int)
    requires Ascending(steps) && n < |steps| && v in Versions(steps[..n])
    ensures v < steps[n].version
  {
    var i :| 0 <= i < n && steps[..n][i].version == v;
    assert steps[i].version < steps[n].version;
  }

  lemma {:induction false} CommitsInOrder<Q>(steps: seq<Migration<Q>>, already: set<int>)
    requires Ascending(steps)
    ensures StrictlyAscending(OutstandingVersions(steps, already))
    ensures forall v :: v in OutstandingVersions(steps, already) <==> v in Versions(steps) && v !in already
  {
    if steps == [] {
    } else {
      var n := |steps| - 1;
      CommitsInOrder(steps[..n], already);
      assert steps[..n + 1] == steps;
      VersionsMore(steps, n);
      var before, last := OutstandingVersions(steps[..n], already), steps[n].version;
      assert OutstandingVersions(steps, already) == before + if last in already then [] else [last];
      hide Versions, OutstandingVersions;
      forall i | 0 <= i < |before| ensures before[i] < last {
        assert before[i] in before;
        EarlierIsLess(steps, n, before[i]);
      }
    }
  }

  /**
   Exactly once, in ascending order, whatever the interleaving and whoever
   dies: in every run the committed schema is what the recorded steps make of
   the original one, each applied once, in order, benign failures skipped; the
   recorded versions are the original ones and a prefix of the list; and no
   version is ever committed twice.
   */
  lemma {:induction false} MigrationIsExactlyOnce<S, Q>(e: Engine<S, Q>, steps: seq<Migration<Q>>, schema: S,
                                                        already: set<int>, run: seq<Step>)
    requires Ascending(steps) && EnabledRun(e, steps, Start(schema, already), run)
    ensures var db := Run(e, steps, Start(schema, already), run).db;
            && StrictlyAscending(db.commits)
            && (forall v :: v in db.commits ==> v !in already)
            && (forall v :: v in db.recorded <==> v in already || v in db.commits)
            && exists n: nat :: n <= |steps|
                 && db.recorded == already + Versions(steps[..n])
                 && Outstanding(e, steps[..n], already, schema) == Some(db.schema)
  {
    RunKeeps(e, steps, schema, already, run);
    var db := Run(e, steps, Start(schema, already), run).db;
    hide Run, EnabledRun;
    var n: nat :| UpTo(e, steps, schema, already, db, n);
    CommitsInOrder(steps[..n], already);
    hide Versions, OutstandingVersions, Outstanding;
  }

  // While one instance is anywhere between taking and releasing the lock, no other is.
  lemma {:induction false} OneAtATime<S, Q>(e: Engine<S, Q>, steps: seq<Migration<Q>>, schema: S, already: set<int>,
                                            run: seq<Step>, p: nat, q: nat)
    requires Ascending(steps) && EnabledRun(e, steps, Start(schema, already), run)
    requires HoldsLock(StateOf(Run(e, steps, Start(schema, already), run), p))
    requires HoldsLock(StateOf(Run(e, steps, Start(schema, already), run), q))
    ensures p == q
  {
    RunKeeps(e, steps, schema, already, run);
    hide Run, EnabledRun, Migrated, InstanceSound;
  }

  // A run that returned nil found or left every step recorded, and the schema
  // is then what the whole list makes of the original.
  lemma {:induction false} NilMeansUpToDate<S, Q>(e: Engine<S, Q>, steps: seq<Migration<Q>>, schema: S,
                                                  already: set<int>, run: seq<Step>, p: nat)
    requires Ascending(steps) && EnabledRun(e, steps, Start(schema, already), run)
    requires StateOf(Run(e, steps, Start(schema, already), run), p) == Returned(true)
    ensures var db := Run(e, steps, Start(schema, already), run).db;
            Versions(steps) <= db.recorded && Outstanding(e, steps, already, schema) == Some(db.schema)
  {
    RunKeeps(e, steps, schema, already, run);
    var s := Run(e, steps, Start(schema, already), run);
    hide Run, EnabledRun;
    assert p in s.instances && InstanceSound(e, steps, s.db, s.instances[p]);
    var n: nat :| UpTo(e, steps, schema, already, s.db, n);
    assert steps[..|steps|] == steps;
    hide Versions, Outstanding, OutstandingVersions;
    CatchUp(e, steps, schema, already, s.db, n, |steps|);
  }

  lemma {:induction false} IdleStep<S, Q>(e: Engine<S, Q>, steps: seq<Migration<Q>>, schema: S, already: set<int>,
                                          s: Sys<S>, step: Step)
    requires Ascending(steps) && Sound(e, steps, schema, already, s) && Enabled(steps, s, step)
    requires Versions(steps) <= s.db.recorded
    ensures Next(e, steps, s, step).db == s.db
  {
    if step.action.Commit? || step.action.CommitUnknown? {
      var me := StateOf(s, step.who);
      assert InstanceSound(e, steps, s.db, me);
      NotAmongEarlier(steps, me.tx.at, me.tx.at);
      assert steps[..|steps|] == steps;
      AmongFirst(steps, |steps|, me.tx.at);
    }
  }

  // Once every step is recorded, nothing any instance does changes the database.
  lemma {:induction false} NothingMoreToDo<S, Q>(e: Engine<S, Q>, steps: seq<Migration<Q>>, schema: S,
                                                 already: set<int>, run: seq<Step>, i: nat)
    requires Ascending(steps) && EnabledRun(e, steps, Start(schema, already), run) && i <= |run|
    requires EnabledRun(e, steps, Start(schema, already), run[..i])
    requires Versions(steps) <= Run(e, steps, Start(schema, already), run[..i]).db.recorded
    ensures Run(e, steps, Start(schema, already), run).db == Run(e, steps, Start(schema, already), run[..i]).db
    decreases |run|
  {
    if i < |run| {
      var before := run[..|run| - 1];
      assert before[..i] == run[..i];
      NothingMoreToDo(e, steps, schema, already, before, i);
      RunKeeps(e, steps, schema, already, before);
      IdleStep(e, steps, schema, already, Run(e, steps, Start(schema, already), before), run[|run| - 1]);
    } else {
      assert run[..i] == run;
    }
  }
}
