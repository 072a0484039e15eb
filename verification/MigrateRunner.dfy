/**
 The migration runner as one instance executes it. Which database calls fail is not up to the runner: every call may,
 unless the database is `calm`.
 */
module MigrateRunner {
  import opened Prelude
  import opened MigrateModel
  import MigrateSafety

  /******* One instance *******/

  class Database<S, Q> {
    const engine: Engine<S, Q>
    var schema: S
    var recorded: set<int>
    ghost var commits: seq<int>

    ghost function Committed(): Db<S>
      reads this
    {
      Db(schema, recorded, commits)
    }

    constructor (engine: Engine<S, Q>, schema: S, recorded: set<int>)
      ensures this.engine == engine && Committed() == Db(schema, recorded, [])
    {
      this.engine, this.schema, this.recorded, this.commits := engine, schema, recorded, [];
    }

    // Runs a step's statements on a transaction's working copy, each behind a
    // savepoint, so that a benign failure is undone on its own.
    method Apply(statements: seq<Q>, start: S, calm: bool) returns (r: Option<S>)
      ensures r.Some? || calm ==> r == Applied(engine, statements, start)
    {
      var work := start;
      for i := 0 to |statements|
        invariant Applied(engine, statements[..i], start) == Some(work)
      {
        var answered: bool := *;
        if !calm && !answered {
          return None;
        }
        var savepoint := work;
        MigrateSafety.StatementSettles(engine, statements, start, i);
        match engine.exec(statements[i], work) {
          case Done(after) =>
            work := after;
          case Failed(benign, dirty) =>
            work := dirty;
            if !benign {
              StaysFailed(engine, statements, start, i + 1);
              return None;
            }
            work := savepoint;
        }
      }
      assert statements[..|statements|] == statements;
      r := Some(work);
    }

    // One step and its record, in one transaction: both happen, or neither. A
    // failure after the commit was sent may mean either.
    method ApplyAndRecord(m: Migration<Q>, calm: bool) returns (ok: bool)
      modifies this
      ensures calm ==> (ok <==> Applied(engine, m.statements, old(schema)).Some? && m.version !in old(recorded))
      ensures ok ==> Committed() != old(Committed())
      ensures Committed() == old(Committed())
              || (&& Applied(engine, m.statements, old(schema)) == Some(schema)
                  && recorded == old(recorded) + {m.version} && m.version !in old(recorded)
                     && commits == old(commits) + [m.version])
    {
      var begun: bool := *;
      if !calm && !begun {
        return false;
      }
      var work := Apply(m.statements, schema, calm);
      if work.None? {
        return false;
      }
      // The version is a primary key: recording it twice is refused.
      var inserted: bool := *;
      if (!calm && !inserted) || m.version in recorded {
        return false;
      }
      var committed: bool := *;
      if !calm && !committed {
        return false;
      }
      schema, recorded, commits := work.value, recorded + {m.version}, commits + [m.version];
      var told: bool := *;
      ok := calm || told;
    }

    // Applies, in order, the steps the database has not seen. Whatever fails,
    // what is committed is the outstanding steps up to some place.
    method Migrate(steps: seq<Migration<Q>>, calm: bool) returns (ok: bool)
      requires Ascending(steps)
      modifies this
      ensures calm ==> (ok <==> Outstanding(engine, steps, old(recorded), old(schema)).Some?)
      ensures ok ==> DoneTo(engine, steps, old(Committed()), |steps|, Committed())
      ensures exists n :: DoneTo(engine, steps, old(Committed()), n, Committed())
    {
      var applied := recorded;
      ghost var before := Committed();
      NothingDone(engine, steps, before);
      for i := 0 to |steps|
        invariant DoneTo(engine, steps, before, i, Committed())
      {
        ghost var here := Committed();
        hide DoneTo;
        if steps[i].version in applied {
          SkipDone(engine, steps, before, i, here);
          continue;
        }
        var done := ApplyAndRecord(steps[i], calm);
        if Committed() != here { StepDone(engine, steps, before, i, here, Committed()); }
        if !done {
          if calm { NotDone(engine, steps, before, i, here); }
          return false;
        }
      }
      ok := true;
      if calm { AllDone(engine, steps, before, Committed()); }
    }
  }

  /******* How far it got *******/

  // The first n steps are recorded, and those that were not are applied.
  ghost predicate DoneTo<S, Q>(e: Engine<S, Q>, steps: seq<Migration<Q>>, before: Db<S>, n: int, db: Db<S>) {
    && 0 <= n <= |steps|
    && db.recorded == before.recorded + Versions(steps[..n])
    && db.commits == before.commits + OutstandingVersions(steps[..n], before.recorded)
    && Outstanding(e, steps[..n], before.recorded, before.schema) == Some(db.schema)
  }

  lemma {:induction false} NothingDone<S, Q>(e: Engine<S, Q>, steps: seq<Migration<Q>>, db: Db<S>)
    ensures DoneTo(e, steps, db, 0, db)
  {
    assert steps[..0] == [] && db.commits + [] == db.commits;
  }

  lemma {:induction false} SkipDone<S, Q>(e: Engine<S, Q>, steps: seq<Migration<Q>>, before: Db<S>, i: nat, db: Db<S>)
    requires i < |steps| && DoneTo(e, steps, before, i, db) && steps[i].version in before.recorded
    ensures DoneTo(e, steps, before, i + 1, db)
  {
    MigrateSafety.VersionsMore(steps, i);
    MigrateSafety.OutstandingMore(e, steps, before.recorded, before.schema, i);
    hide Versions, Outstanding, OutstandingVersions, Applied;
  }

  lemma {:induction false} StepDone<S, Q>(e: Engine<S, Q>, steps: seq<Migration<Q>>, before: Db<S>, i: nat, db: Db<S>,
                                          after: Db<S>)
    requires i < |steps| && DoneTo(e, steps, before, i, db) && steps[i].version !in before.recorded
    requires Applied(e, steps[i].statements, db.schema) == Some(after.schema)
    requires after.recorded == db.recorded + {steps[i].version} && after.commits == db.commits + [steps[i].version]
    ensures DoneTo(e, steps, before, i + 1, after)
  {
    MigrateSafety.VersionsMore(steps, i);
    MigrateSafety.OutstandingMore(e, steps, before.recorded, before.schema, i);
    hide Versions, Outstanding, OutstandingVersions, Applied;
  }

  lemma {:induction false} NotDone<S, Q>(e: Engine<S, Q>, steps: seq<Migration<Q>>, before: Db<S>, i: nat, db: Db<S>)
    requires Ascending(steps) && i < |steps| && DoneTo(e, steps, before, i, db) && steps[i].version !in before.recorded
    requires !(Applied(e, steps[i].statements, db.schema).Some? && steps[i].version !in db.recorded)
    ensures Outstanding(e, steps, before.recorded, before.schema).None?
  {
    MigrateSafety.NotAmongEarlier(steps, i, i);
    MigrateSafety.OutstandingMore(e, steps, before.recorded, before.schema, i);
    hide Versions, Outstanding, OutstandingVersions, Applied;
    StaysStuck(e, steps, before.recorded, before.schema, i + 1);
  }

  lemma {:induction false} AllDone<S, Q>(e: Engine<S, Q>, steps: seq<Migration<Q>>, before: Db<S>, db: Db<S>)
    requires DoneTo(e, steps, before, |steps|, db)
    ensures Outstanding(e, steps, before.recorded, before.schema) == Some(db.schema) && Versions(steps) <= db.recorded
  {
    assert steps[..|steps|] == steps;
  }

  lemma {:induction false} StaysFailed<S, Q>(e: Engine<S, Q>, statements: seq<Q>, start: S, i: nat)
    requires i <= |statements| && Applied(e, statements[..i], start).None?
    ensures Applied(e, statements, start).None?
    decreases |statements| - i
  {
    if i < |statements| {
      assert statements[..i + 1][..i] == statements[..i];
      StaysFailed(e, statements, start, i + 1);
    } else {
      assert statements[..i] == statements;
    }
  }

  lemma {:induction false} StaysStuck<S, Q>(e: Engine<S, Q>, steps: seq<Migration<Q>>, already: set<int>, schema: S,
                                            i: nat)
    requires i <= |steps| && Outstanding(e, steps[..i], already, schema).None?
    ensures Outstanding(e, steps, already, schema).None?
    decreases |steps| - i
  {
    if i < |steps| {
      MigrateSafety.OutstandingMore(e, steps, already, schema, i);
      StaysStuck(e, steps, already, schema, i + 1);
    } else {
      assert steps[..i] == steps;
    }
  }
}
