/**
 Schema migration: an ordered list of steps, each a list of statements, applied
 by any number of instances starting at once. One session lock, one transaction
 per step, one savepoint per statement; every database call can fail and every
 instance can die between two calls.

 What a statement does to a schema is a parameter of the model.
 */
module MigrateModel {
  import opened Prelude

  // A failed statement leaves its transaction in some dirty state; a benign
  // failure says that the change is already in place.
  datatype Effect<S> = Done(schema: S) | Failed(benign: bool, dirty: S)

  datatype Migration<Q> = Migration(version: int, statements: seq<Q>)

  datatype Engine<!S, !Q> = Engine(exec: (Q, S) -> Effect<S>)

  /******* What the steps mean *******/

  // A step applied to a schema: statements in order, benign failures skipped
  // with no effect, any other failure failing the step.
  function Applied<S, Q>(e: Engine<S, Q>, statements: seq<Q>, schema: S): Option<S> {
    if statements == [] then Some(schema)
    else
      var before := Applied(e, statements[..|statements| - 1], schema);
      if before.None? then None
      else match e.exec(statements[|statements| - 1], before.value)
        case Done(after) => Some(after)
        case Failed(true, _) => before
        case Failed(false, _) => None
  }

  function Versions<Q>(steps: seq<Migration<Q>>): set<int> {
    set i | 0 <= i < |steps| :: steps[i].version
  }

  // The steps not in `already`, applied once each, in order.
  function Outstanding<S, Q>(e: Engine<S, Q>, steps: seq<Migration<Q>>, already: set<int>, schema: S): Option<S> {
    if steps == [] then Some(schema)
    else
      var before := Outstanding(e, steps[..|steps| - 1], already, schema);
      var last := steps[|steps| - 1];
      if last.version in already || before.None? then before else Applied(e, last.statements, before.value)
  }

  function OutstandingVersions<Q>(steps: seq<Migration<Q>>, already: set<int>): seq<int> {
    if steps == [] then []
    else
      var last := steps[|steps| - 1];
      OutstandingVersions(steps[..|steps| - 1], already) + if last.version in already then [] else [last.version]
  }

  ghost predicate Ascending<Q>(steps: seq<Migration<Q>>) {
    forall i, j :: 0 <= i < j < |steps| ==> steps[i].version < steps[j].version
  }

  /******* The protocol *******/

  // What is committed; `commits` is the history of recorded versions.
  datatype Db<S> = Db(schema: S, recorded: set<int>, commits: seq<int>)

  // Where the savepoint of the current statement stands. After an error
  // nothing but a rollback to it is accepted.
  datatype Phase<S> = Between | Trying(save: S) | Broken(save: S) | Settled

  // A transaction on step `at`: its working copy and the number of statements
  // whose outcome is settled.
  datatype Tx<S> = Tx(at: nat, next: nat, work: S, phase: Phase<S>)

  datatype Instance<S> =
    | Idle
    | Locked                                        // holds the lock, has read nothing
    | Looping(applied: set<int>, at: nat)           // between steps
    | Stepping(applied: set<int>, tx: Tx<S>)        // inside a step's transaction
    | Recorded(applied: set<int>, tx: Tx<S>)        // version inserted, not committed
    | Returning(ok: bool)                           // about to release the lock
    | Returned(ok: bool)

  datatype Sys<S> = Sys(db: Db<S>, lock: Option<nat>, instances: map<nat, Instance<S>>)

  datatype Action =
    | Acquire | ReadApplied | Skip | Begin | Savepoint | Execute | RollbackTo | ReleaseSavepoint
    | Record | Commit | CommitUnknown | Finish | Fail | Unlock | Crash

  datatype Step = Step(who: nat, action: Action)

  function StateOf<S>(s: Sys<S>, who: nat): Instance<S> {
    if who in s.instances then s.instances[who] else Idle
  }

  predicate HoldsLock<S>(i: Instance<S>) { !i.Idle? && !i.Returned? }

  predicate Pending<S, Q>(steps: seq<Migration<Q>>, tx: Tx<S>) {
    tx.at < |steps| && tx.next < |steps[tx.at].statements|
  }

  ghost predicate Enabled<S, Q>(steps: seq<Migration<Q>>, s: Sys<S>, step: Step) {
    var me := StateOf(s, step.who);
    match step.action
    case Acquire => (me.Idle? || me.Returned?) && s.lock == None
    case ReadApplied => me.Locked?
    case Skip => me.Looping? && me.at < |steps| && steps[me.at].version in me.applied
    case Begin => me.Looping? && me.at < |steps| && steps[me.at].version !in me.applied
    case Savepoint => me.Stepping? && me.tx.phase.Between? && Pending(steps, me.tx)
    case Execute => me.Stepping? && me.tx.phase.Trying? && Pending(steps, me.tx)
    case RollbackTo => me.Stepping? && me.tx.phase.Broken?
    case ReleaseSavepoint => me.Stepping? && me.tx.phase.Settled?
    case Record => me.Stepping? && me.tx.phase.Between? && me.tx.at < |steps|
      && me.tx.next == |steps[me.tx.at].statements|
                   && steps[me.tx.at].version !in s.db.recorded
    case Commit => me.Recorded? && me.tx.at < |steps|
    case CommitUnknown => me.Recorded? && me.tx.at < |steps|
    case Finish => me.Looping? && me.at >= |steps|
    case Fail => HoldsLock(me) && !me.Returning?
    case Unlock => me.Returning?
    case Crash => true
  }

  ghost function Moved<S>(s: Sys<S>, who: nat, me: Instance<S>): Sys<S> { s.(instances := s.instances[who := me]) }

  function Committed<S, Q>(steps: seq<Migration<Q>>, db: Db<S>, tx: Tx<S>): Db<S>
    requires tx.at < |steps|
  {
    Db(tx.work, db.recorded + {steps[tx.at].version}, db.commits + [steps[tx.at].version])
  }

  // A session that ends drops its lock and rolls back its transaction.
  function LockAfter(lock: Option<nat>, who: nat): Option<nat> { if lock == Some(who) then None else lock }

  ghost function Next<S, Q>(e: Engine<S, Q>, steps: seq<Migration<Q>>, s: Sys<S>, step: Step): Sys<S>
    requires Enabled(steps, s, step)
  {
    var who, me := step.who, StateOf(s, step.who);
    match step.action
    case Acquire => Moved(s.(lock := Some(who)), who, Locked)
    case ReadApplied => Moved(s, who, Looping(s.db.recorded, 0))
    case Skip => Moved(s, who, me.(at := me.at + 1))
    case Begin => Moved(s, who, Stepping(me.applied, Tx(me.at, 0, s.db.schema, Between)))
    case Savepoint => Moved(s, who, Stepping(me.applied, me.tx.(phase := Trying(me.tx.work))))
    case Execute =>
      (match e.exec(steps[me.tx.at].statements[me.tx.next], me.tx.work)
       case Done(after) =>
         Moved(s, who, Stepping(me.applied, me.tx.(work := after, next := me.tx.next + 1, phase := Settled)))
       case Failed(true, dirty) =>
         Moved(s, who, Stepping(me.applied, me.tx.(work := dirty, phase := Broken(me.tx.phase.save))))
       case Failed(false, dirty) => Moved(s, who, Returning(false)))
    case RollbackTo =>
      Moved(s, who, Stepping(me.applied, me.tx.(work := me.tx.phase.save, next := me.tx.next + 1, phase := Settled)))
    case ReleaseSavepoint => Moved(s, who, Stepping(me.applied, me.tx.(phase := Between)))
    case Record => Moved(s, who, Recorded(me.applied, me.tx))
    case Commit => Moved(s.(db := Committed(steps, s.db, me.tx)), who, Looping(me.applied, me.tx.at + 1))
    case CommitUnknown => Moved(s.(db := Committed(steps, s.db, me.tx)), who, Returning(false))
    case Finish => Moved(s, who, Returning(true))
    case Fail => Moved(s, who, Returning(false))
    case Unlock => Moved(s.(lock := LockAfter(s.lock, who)), who, Returned(me.ok))
    case Crash => Moved(s.(lock := LockAfter(s.lock, who)), who, Idle)
  }

  ghost predicate EnabledRun<S, Q>(e: Engine<S, Q>, steps: seq<Migration<Q>>, s: Sys<S>, run: seq<Step>)
    decreases |run|, 0
  {
    run != [] ==>
      && EnabledRun(e, steps, s, run[..|run| - 1])
      && Enabled(steps, Run(e, steps, s, run[..|run| - 1]), run[|run| - 1])
  }

  ghost function Run<S, Q>(e: Engine<S, Q>, steps: seq<Migration<Q>>, s: Sys<S>, run: seq<Step>): Sys<S>
    requires EnabledRun(e, steps, s, run)
    decreases |run|, 1
  {
    if run == [] then s else Next(e, steps, Run(e, steps, s, run[..|run| - 1]), run[|run| - 1])
  }

  // Nobody is running yet, against a database in any state.
  function Start<S>(schema: S, recorded: set<int>): Sys<S> {
    Sys(Db(schema, recorded, []), None, map[])
  }
}
