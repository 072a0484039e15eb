/**
 The review protocol over the SQL store, whose sweep is three statements with
 everyone else's steps in between: which of the promises of `ReviewSafety`
 survive that, which do not, and when all of them do.
 */
module SqlReview {
  import opened Prelude
  import opened ReviewModel
  import opened ReviewSafety

  // How far a sweep has got: it has selected what is due, or moved it as well.
  datatype Phase = Selected(ids: seq<string>) | Updated(ids: seq<string>)

  datatype SqlSys = SqlSys(sys: Sys, sweeps: map<nat, Phase>)

  datatype SqlStep =
    | Plain(step: Step)
    | Select(worker: nat, now: real, ids: seq<string>)
    | Update(worker: nat)
    | Read(worker: nat, due: seq<string>)
    | Abandon(worker: nat)

  predicate Expires(s: Sys, ids: seq<string>, id: string) { id in ids && id in s.store && s.store[id] == Pending }

  predicate Reads(s: Sys, ids: seq<string>, id: string) { id in ids && id in s.store && s.store[id] == Expired }

  // The rows an update moves.
  function Moved(s: Sys, ids: seq<string>): seq<string> {
    if ids == [] then []
    else
      var n := |ids| - 1;
      Moved(s, ids[..n]) + if ids[n] in s.store && s.store[ids[n]] == Pending then [ids[n]] else []
  }

  // Everything but the sweep is as before.
  ghost predicate SqlEnabled(s: SqlSys, step: SqlStep) {
    match step
    case Plain(p) => !p.Sweep? && Enabled(s.sys, p) && (p.ClaimRelease? || p.ClaimReject? ==> p.worker !in s.sweeps)
    case Select(w, now, ids) =>
      w !in s.sys.workers && w !in s.sweeps && Distinct(ids) && forall id :: id in ids ==> Due(s.sys, id, now)
    case Update(w) => w in s.sweeps && s.sweeps[w].Selected?
    case Read(w, due) =>
      && w in s.sweeps && s.sweeps[w].Updated? && w !in s.sys.workers && Distinct(due)
      && forall id :: id in due <==> Reads(s.sys, s.sweeps[w].ids, id)
    case Abandon(w) => w in s.sweeps
  }

  ghost function SqlNext(s: SqlSys, step: SqlStep): SqlSys
    requires SqlEnabled(s, step)
  {
    match step
    case Plain(p) => s.(sys := Next(s.sys, p))
    case Select(w, _, ids) => s.(sweeps := s.sweeps[w := Selected(ids)])
    case Update(w) =>
      var moved := Moved(s.sys, s.sweeps[w].ids);
      SqlSys(s.sys.(store := ClaimAll(s.sys.store, moved), log := s.sys.log + Claims(moved)),
             s.sweeps[w := Updated(s.sweeps[w].ids)])
    case Read(w, due) =>
      SqlSys(s.sys.(workers := s.sys.workers[w := SweepJobs(s.sys.config, due)]), s.sweeps - {w})
    case Abandon(w) => s.(sweeps := s.sweeps - {w})
  }

  ghost predicate SqlEnabledRun(s: SqlSys, steps: seq<SqlStep>)
    decreases |steps|
  {
    steps != [] ==> SqlEnabled(s, steps[0]) && SqlEnabledRun(SqlNext(s, steps[0]), steps[1..])
  }

  ghost function SqlRun(s: SqlSys, steps: seq<SqlStep>): SqlSys
    requires SqlEnabledRun(s, steps)
    decreases |steps|
  {
    if steps == [] then s else SqlRun(SqlNext(s, steps[0]), steps[1..])
  }

  function SqlStart(c: Config): SqlSys { SqlSys(Start(c), map[]) }

  /******* What an update moves *******/

  lemma {:induction false} DistinctMore(ids: seq<string>, id: string)
    requires Distinct(ids) && id !in ids
    ensures Distinct(ids + [id])
  {
  }

  lemma {:induction false} MovedIs(s: Sys, ids: seq<string>)
    requires Distinct(ids)
    ensures Distinct(Moved(s, ids)) && forall id :: id in Moved(s, ids) <==> Expires(s, ids, id)
  {
    if ids == [] {
    } else {
      var n := |ids| - 1;
      assert ids == ids[..n] + [ids[n]] && ids[n] !in ids[..n];
      MovedIs(s, ids[..n]);
      assert ids[n] !in Moved(s, ids[..n]);
      DistinctMore(Moved(s, ids[..n]), ids[n]);
      assert Moved(s, ids[..n]) + [] == Moved(s, ids[..n]);
    }
  }

  /******* The life of an expired message *******/

  // Nothing but discards and expiry announcements, in whatever number.
  ghost predicate ExpiryEvent(c: Config, r: Record, x: string, e: Event) {
    || (e.DiscardTried? && e.id == x && HasPayload(r, c.sweepOutbound))
    || (e == Told(x, Expired) && r.tenant != "")
  }

  ghost predicate ExpiryJobs(jobs: seq<Job>, x: string) {
    forall j :: j in jobs ==> j == Discard(x, Expired) || j == Announce(x, Expired)
  }

  ghost predicate ExpiredPast(c: Config, r: Record, x: string, past: seq<Event>) {
    past != [] && past[0] == Claimed(x, Expired) && forall i :: 0 < i < |past| ==> ExpiryEvent(c, r, x, past[i])
  }

  ghost predicate ExpiredLife(s: Sys, x: string) {
    && x in s.made && (x in s.store ==> s.store[x] == Expired)
    && ExpiredPast(s.config, s.made[x], x, About(s.log, x))
    && forall w :: w in s.workers ==> ExpiryJobs(JobsFor(s.workers[w], x), x)
  }

  // As under the store's contract, or expired.
  ghost predicate Kept(s: Sys, x: string) { Sound(s, x) || ExpiredLife(s, x) }

  lemma {:induction false} LawfulExpiry(c: Config, r: Record, x: string, past: seq<Event>, todo: seq<Job>)
    requires Lawful(c, r, x, past, todo) && past != [] && past[0] == Claimed(x, Expired)
    ensures ExpiredPast(c, r, x, past) && ExpiryJobs(todo, x)
  {
    assert DropLife(c, r, x, Expired, past, todo);
  }

  // A sound message whose claim is an expiry is living one.
  lemma {:induction false} SoundExpiry(s: Sys, x: string)
    requires Sound(s, x) && About(s.log, x) != [] && About(s.log, x)[0] == Claimed(x, Expired)
    ensures ExpiredLife(s, x)
  {
    var past := About(s.log, x);
    assert x in s.made;
    hide About, JobsFor, Lawful, ExpiredPast, ExpiryJobs;
    LawfulExpiry(s.config, s.made[x], x, past, []);
    forall w | w in s.workers ensures ExpiryJobs(JobsFor(s.workers[w], x), x) {
      LawfulExpiry(s.config, s.made[x], x, past, JobsFor(s.workers[w], x));
    }
  }

  /******* Steps *******/

  // A step that changes nothing about an expired message, or prunes it.
  lemma {:induction false} ExpiredElsewhere(s: Sys, s': Sys, x: string)
    requires ExpiredLife(s, x) && s'.config == s.config && x in s'.made && s'.made[x] == s.made[x]
    requires x in s'.store ==> x in s.store && s'.store[x] == s.store[x]
    requires About(s'.log, x) == About(s.log, x)
    requires forall w :: w in s'.workers ==>
      ExpiryJobs(JobsFor(s'.workers[w], x), x)
        || (w in s.workers && JobsFor(s'.workers[w], x) == JobsFor(s.workers[w], x))
    ensures ExpiredLife(s', x)
  {
    hide About, JobsFor, ExpiredPast, ExpiryJobs;
  }

  lemma {:induction false} PastMore(c: Config, r: Record, x: string, past: seq<Event>, more: seq<Event>)
    requires ExpiredPast(c, r, x, past) && forall i :: 0 <= i < |more| ==> ExpiryEvent(c, r, x, more[i])
    ensures ExpiredPast(c, r, x, past + more)
  {
    hide ExpiryEvent;
  }

  // What an expiry job does: it leaves the rest, and its event is an expiry's.
  lemma {:induction false} ExpiryJobDoes(s: Sys, jobs: seq<Job>, ok: bool, x: string)
    requires x in s.made && jobs != [] && (jobs[0] == Discard(x, Expired) || jobs[0] == Announce(x, Expired))
    ensures var o := Perform(s.config, s.made, jobs, ok);
            && o.rest == jobs[1..]
            && (o.events == [] || (|o.events| == 1 && o.events[0].id == x
                                   && ExpiryEvent(s.config, s.made[x], x, o.events[0])))
  {
  }

  lemma {:induction false} AboutOwn(events: seq<Event>, x: string)
    requires events == [] || (|events| == 1 && events[0].id == x)
    ensures About(events, x) == events
  {
    if events == [] {
    } else {
      AboutFew(events[0]);
      assert events == [events[0]];
    }
  }

  lemma {:induction false} FirstJobIs(jobs: seq<Job>, x: string)
    requires jobs != [] && jobs[0].id == x && ExpiryJobs(JobsFor(jobs, x), x)
    ensures jobs[0] == Discard(x, Expired) || jobs[0] == Announce(x, Expired)
    ensures ExpiryJobs(JobsFor(jobs[1..], x), x)
  {
    OneJob(jobs, x);
    assert JobsFor(jobs, x)[0] == jobs[0] && jobs[0] in JobsFor(jobs, x);
    assert JobsFor(jobs, x) == [jobs[0]] + JobsFor(jobs[1..], x);
    assert forall j :: j in JobsFor(jobs[1..], x) ==> j in JobsFor(jobs, x);
    hide JobsFor;
  }

  lemma {:induction false} ExpiredPerform(s: Sys, jobs: seq<Job>, ok: bool, x: string)
    requires x in s.made && jobs != [] && jobs[0].id == x && ExpiryJobs(JobsFor(jobs, x), x)
    ensures var o := Perform(s.config, s.made, jobs, ok);
            && ExpiryJobs(JobsFor(o.rest, x), x)
            && forall i :: 0 <= i < |About(o.events, x)| ==> ExpiryEvent(s.config, s.made[x], x, About(o.events, x)[i])
  {
    hide JobsFor, About, Perform, ExpiryEvent, ExpiryJobs;
    FirstJobIs(jobs, x);
    ExpiryJobDoes(s, jobs, ok, x);
    AboutOwn(Perform(s.config, s.made, jobs, ok).events, x);
  }

  lemma {:induction false} ExpiredWorks(s: Sys, w: nat, ok: bool, x: string)
    requires ExpiredLife(s, x) && Enabled(s, Work(w, ok))
    ensures ExpiredLife(Next(s, Work(w, ok)), x)
  {
    var s' := Next(s, Work(w, ok));
    var jobs := s.workers[w];
    var o := Perform(s.config, s.made, jobs, ok);
    AboutMore(s.log, o.events, x);
    hide JobsFor, About, Perform, ExpiredPast, ExpiryJobs;
    if jobs[0].id == x {
      ExpiredPerform(s, jobs, ok, x);
      PastMore(s.config, s.made[x], x, About(s.log, x), About(o.events, x));
    } else {
      PerformElsewhere(s, jobs, ok, x);
      assert About(s.log, x) + [] == About(s.log, x);
      ExpiredElsewhere(s, s', x);
    }
  }

  // Someone's claim on another message.
  lemma {:induction false} ExpiredClaims(s: Sys, step: Step, x: string)
    requires ExpiredLife(s, x) && Enabled(s, step) && (step.ClaimRelease? || step.ClaimReject?)
    ensures ExpiredLife(Next(s, step), x)
  {
    var s', id := Next(s, step), step.id;
    var claim := Claimed(id, if step.ClaimRelease? then Released else Rejected);
    assert id != x;
    assert s'.log == s.log + [claim];
    hide JobsFor, About, ExpiredPast, ExpiryJobs, RejectJobs;
    AboutMore(s.log, [claim], x);
    AboutFew(claim);
    assert About(s.log, x) + [] == About(s.log, x);
    JobsForOne(Deliver(id), x);
    RejectJobsFor(s.config, id, x);
    NoJobs(x);
    ExpiredElsewhere(s, s', x);
  }

  lemma {:induction false} ExpiredSteps(s: Sys, step: Step, x: string)
    requires ExpiredLife(s, x) && Enabled(s, step) && !step.Sweep?
    ensures ExpiredLife(Next(s, step), x)
  {
    if step.ClaimRelease? || step.ClaimReject? {
      ExpiredClaims(s, step, x);
    } else if step.Work? {
      ExpiredWorks(s, step.worker, step.ok, x);
    } else {
      hide JobsFor, About, ExpiredPast, ExpiryJobs, Perform;
      ExpiredElsewhere(s, Next(s, step), x);
    }
  }

  lemma {:induction false} NoJobs(x: string)
    ensures ExpiryJobs([], x)
  {
  }

  lemma {:induction false} PendingIsIdle(s: Sys, x: string)
    requires Sound(s, x) && x in s.store && s.store[x] == Pending
    ensures x in s.made && About(s.log, x) == [] && forall w :: w in s.workers ==> JobsFor(s.workers[w], x) == []
  {
    hide About, JobsFor;
    forall w | w in s.workers ensures JobsFor(s.workers[w], x) == [] {
      assert Lawful(s.config, s.made[x], x, [], JobsFor(s.workers[w], x));
    }
  }

  // An update gives what it moves the claim that starts an expiry.
  lemma {:induction false} UpdateMoves(s: Sys, s': Sys, ids: seq<string>, x: string)
    requires Sound(s, x) && Distinct(ids) && x in Moved(s, ids)
    requires s' == s.(store := ClaimAll(s.store, Moved(s, ids)), log := s.log + Claims(Moved(s, ids)))
    ensures ExpiredLife(s', x) && About(s'.log, x) == [Claimed(x, Expired)]
    ensures forall w :: w in s'.workers ==> JobsFor(s'.workers[w], x) == []
  {
    MovedIs(s, ids);
    var moved := Moved(s, ids);
    assert Expires(s, ids, x);
    hide About, JobsFor, Claims, Moved, Sound, Lawful;
    PendingIsIdle(s, x);
    AboutMore(s.log, Claims(moved), x);
    AboutClaims(moved, x);
    assert [] + [Claimed(x, Expired)] == [Claimed(x, Expired)];
    NoJobs(x);
  }

  lemma {:induction false} UpdateSpares(s: Sys, s': Sys, ids: seq<string>, x: string)
    requires Distinct(ids) && x !in Moved(s, ids)
    requires s' == s.(store := ClaimAll(s.store, Moved(s, ids)), log := s.log + Claims(Moved(s, ids)))
    ensures About(s'.log, x) == About(s.log, x) && (x in s'.store <==> x in s.store)
            && (x in s.store ==> s'.store[x] == s.store[x])
  {
    MovedIs(s, ids);
    AboutMore(s.log, Claims(Moved(s, ids)), x);
    AboutClaims(Moved(s, ids), x);
    hide About, Claims, Moved;
    assert About(s.log, x) + [] == About(s.log, x);
  }

  // What has been selected is named once.
  ghost predicate SelectedOnce(s: SqlSys) { forall w :: w in s.sweeps ==> Distinct(s.sweeps[w].ids) }

  lemma {:induction false} UpdateKeeps(s: SqlSys, w: nat, x: string)
    requires Kept(s.sys, x) && SelectedOnce(s) && SqlEnabled(s, Update(w))
    ensures Kept(SqlNext(s, Update(w)).sys, x)
  {
    var s', ids := SqlNext(s, Update(w)).sys, s.sweeps[w].ids;
    MovedIs(s.sys, ids);
    hide Sound, About, JobsFor, Claims, Moved, ExpiredLife;
    if x in Moved(s.sys, ids) {
      assert Sound(s.sys, x) by {
        if ExpiredLife(s.sys, x) { StoreExpired(s.sys, x); }
      }
      UpdateMoves(s.sys, s', ids, x);
    } else {
      UpdateSpares(s.sys, s', ids, x);
      if Sound(s.sys, x) {
        ElsewhereKeeps(s.sys, s', x);
      } else {
        StoreExpired(s.sys, x);
        ExpiredElsewhere(s.sys, s', x);
      }
    }
  }

  lemma {:induction false} StoreExpired(s: Sys, x: string)
    requires ExpiredLife(s, x)
    ensures x in s.made && (x in s.store ==> s.store[x] == Expired)
  {
  }

  lemma {:induction false} SweepIsExpiry(c: Config, due: seq<string>, x: string)
    requires Distinct(due)
    ensures ExpiryJobs(JobsFor(SweepJobs(c, due), x), x)
  {
    SweepAgenda(c, due, x);
    hide JobsFor, SweepJobs;
  }

  // What a sweep reads back is expired, whoever moved it.
  lemma {:induction false} ReadKeeps(s: SqlSys, w: nat, due: seq<string>, x: string)
    requires Kept(s.sys, x) && SqlEnabled(s, Read(w, due))
    ensures Kept(SqlNext(s, Read(w, due)).sys, x)
  {
    var s' := SqlNext(s, Read(w, due)).sys;
    if x in due {
      assert Reads(s.sys, s.sweeps[w].ids, x);
      if Sound(s.sys, x) {
        assert About(s.sys.log, x) != [] && About(s.sys.log, x)[0] == Claimed(x, Expired);
        SoundExpiry(s.sys, x);
      }
      SweepIsExpiry(s.sys.config, due, x);
      hide SweepJobs, About, JobsFor, ExpiredPast, ExpiryJobs;
      ExpiredElsewhere(s.sys, s', x);
    } else {
      SweepAgenda(s.sys.config, due, x);
      hide SweepJobs, About, JobsFor, Sound, ExpiredPast;
      if Sound(s.sys, x) {
        ElsewhereKeeps(s.sys, s', x);
      } else {
        ExpiredElsewhere(s.sys, s', x);
      }
    }
  }

  lemma {:induction false} SqlStepKeeps(s: SqlSys, step: SqlStep, x: string)
    requires Kept(s.sys, x) && SelectedOnce(s) && SqlEnabled(s, step)
    ensures Kept(SqlNext(s, step).sys, x) && SelectedOnce(SqlNext(s, step))
  {
    hide Sound, ExpiredLife, Next, Enabled, Moved;
    match step
    case Plain(p) => if Sound(s.sys, x) { StepKeeps(s.sys, p, x); } else { ExpiredSteps(s.sys, p, x); }
    case Select(_, _, _) =>
    case Update(w) => UpdateKeeps(s, w, x);
    case Read(w, due) => ReadKeeps(s, w, due, x);
    case Abandon(_) =>
  }

  lemma {:induction false} SqlRunKeeps(s: SqlSys, steps: seq<SqlStep>, x: string)
    requires Kept(s.sys, x) && SelectedOnce(s) && SqlEnabledRun(s, steps)
    ensures Kept(SqlRun(s, steps).sys, x) && SqlRun(s, steps).sys.config == s.sys.config
    decreases |steps|
  {
    if steps == [] {
    } else {
      var next := SqlNext(s, steps[0]);
      SqlStepKeeps(s, steps[0], x);
      assert next.sys.config == s.sys.config by { ConfigStays(s, steps[0]); }
      hide Kept, SelectedOnce, SqlNext;
      SqlRunKeeps(next, steps[1..], x);
    }
  }

  lemma {:induction false} ConfigStays(s: SqlSys, step: SqlStep)
    requires SqlEnabled(s, step)
    ensures SqlNext(s, step).sys.config == s.sys.config
  {
  }

  /******* What survives *******/

  // A discard or an announcement of an expired message may be one of several.
  ghost predicate Repeated(r: Record, before: seq<Event>, e: Event) {
    && before != [] && before[0] == Claimed(e.id, Expired)
    && ((e.DiscardTried? && r.action == Hold && r.direction == Outbound)
        || (e == Told(e.id, Expired) && r.tenant != ""))
  }

  lemma {:induction false} KeptIsJustified(c: Config, r: Record, x: string, past: seq<Event>, j: nat)
    requires (Lawful(c, r, x, past, []) || ExpiredPast(c, r, x, past)) && j < |past| && past[j].id == x
    ensures Justified(r, past[..j], past[j]) || Repeated(r, past[..j], past[j])
  {
    if Lawful(c, r, x, past, []) {
      LawfulIsJustified(c, r, x, past, j);
    } else if j > 0 {
      assert ExpiryEvent(c, r, x, past[j]) && past[..j][0] == past[0];
    } else {
      assert past[..0] == [];
    }
  }

  /**
   Safety over the SQL store. In every run, every event is justified as under
   the store's contract, or it is a discard or an announcement of an expiry that
   was claimed. So a message is decided once, released at most once and only if
   that was the decision, never both released and discarded, and its subscribers
   hear no outcome but the one decided: only an expiry may be discarded or told
   more than once.
   */
  lemma {:induction false} SqlReviewIsSafe(c: Config, steps: seq<SqlStep>, j: nat)
    requires SqlEnabledRun(SqlStart(c), steps) && j < |SqlRun(SqlStart(c), steps).sys.log|
    ensures var s := SqlRun(SqlStart(c), steps).sys;
            var x := s.log[j].id;
            x in s.made && (Justified(s.made[x], About(s.log[..j], x), s.log[j])
                            || Repeated(s.made[x], About(s.log[..j], x), s.log[j]))
  {
    var s := SqlRun(SqlStart(c), steps).sys;
    var x := s.log[j].id;
    SqlRunKeeps(SqlStart(c), steps, x);
    AboutAt(s.log, j);
    var past, before := About(s.log, x), About(s.log[..j], x);
    hide About, SqlRun, SqlEnabledRun, Lawful, ExpiredPast, Justified, Repeated;
    KeptIsJustified(s.config, s.made[x], x, past, |before|);
  }

  // The store agrees with the log as under the contract.
  lemma {:induction false} SqlStoreMatchesLog(c: Config, steps: seq<SqlStep>, x: string)
    requires SqlEnabledRun(SqlStart(c), steps) && x in SqlRun(SqlStart(c), steps).sys.store
    ensures var s := SqlRun(SqlStart(c), steps).sys;
            && x in s.made
            && (s.store[x] == Pending <==> About(s.log, x) == [])
            && (s.store[x].Terminal() ==> About(s.log, x)[0] == Claimed(x, s.store[x]))
  {
    SqlRunKeeps(SqlStart(c), steps, x);
    hide SqlRun, SqlEnabledRun, About, Lawful;
  }

  /******* What does not *******/

  lemma {:induction false} OneThen(s: SqlSys, step: SqlStep, rest: seq<SqlStep>)
    requires SqlEnabled(s, step) && SqlEnabledRun(SqlNext(s, step), rest)
    ensures SqlEnabledRun(s, [step] + rest) && SqlRun(s, [step] + rest) == SqlRun(SqlNext(s, step), rest)
  {
    assert ([step] + rest)[0] == step && ([step] + rest)[1..] == rest;
    hide SqlEnabled, SqlNext;
  }

  lemma {:induction false} RunThen(s: SqlSys, steps: seq<SqlStep>, rest: seq<SqlStep>)
    requires SqlEnabledRun(s, steps) && SqlEnabledRun(SqlRun(s, steps), rest)
    ensures SqlEnabledRun(s, steps + rest) && SqlRun(s, steps + rest) == SqlRun(SqlRun(s, steps), rest)
    decreases |steps|
  {
    hide SqlEnabled, SqlNext;
    if steps == [] {
      assert steps + rest == rest;
    } else {
      RunThen(SqlNext(s, steps[0]), steps[1..], rest);
      OneThen(s, steps[0], steps[1..] + rest);
      assert [steps[0]] + (steps[1..] + rest) == steps + rest;
    }
  }

  lemma {:induction false} TwoSteps(s: SqlSys, a: SqlStep, b: SqlStep)
    requires SqlEnabled(s, a) && SqlEnabled(SqlNext(s, a), b)
    ensures SqlEnabledRun(s, [a, b]) && SqlRun(s, [a, b]) == SqlNext(SqlNext(s, a), b)
  {
    assert SqlEnabledRun(SqlNext(SqlNext(s, a), b), []);
    OneThen(SqlNext(s, a), b, []);
    OneThen(s, a, [b] + []);
    assert [a] + ([b] + []) == [a, b];
    hide SqlEnabled, SqlNext;
  }

  // Two idle workers, and a message both may find due.
  ghost predicate BothMaySweep(s: SqlSys, v: nat, w: nat, now: real, x: string) {
    && v != w && v !in s.sys.workers && w !in s.sys.workers && v !in s.sweeps && w !in s.sweeps
    && Due(s.sys, x, now) && s.sys.config.sweepNotifier
    && HasPayload(s.sys.made[x], s.sys.config.sweepOutbound) && s.sys.made[x].tenant != ""
  }

  ghost function Marked(s: Sys, x: string): Sys {
    s.(store := s.store[x := Expired], log := s.log + [Claimed(x, Expired)])
  }

  lemma {:induction false} BothSelect(s: SqlSys, v: nat, w: nat, now: real, x: string)
    requires BothMaySweep(s, v, w, now, x)
    ensures var steps := [Select(v, now, [x]), Select(w, now, [x])];
            && SqlEnabledRun(s, steps)
            && SqlRun(s, steps) == SqlSys(s.sys, s.sweeps[v := Selected([x])][w := Selected([x])])
  {
    TwoSteps(s, Select(v, now, [x]), Select(w, now, [x]));
  }

  // The second update finds nothing to move.
  lemma {:induction false} BothUpdate(s: SqlSys, v: nat, w: nat, x: string)
    requires v != w && v in s.sweeps && w in s.sweeps && s.sweeps[v] == s.sweeps[w] == Selected([x])
    requires x in s.sys.store && s.sys.store[x] == Pending
    ensures var steps := [Update(v), Update(w)];
            && SqlEnabledRun(s, steps)
            && SqlRun(s, steps) == SqlSys(Marked(s.sys, x), s.sweeps[v := Updated([x])][w := Updated([x])])
  {
    var s1 := SqlNext(s, Update(v));
    UpdateOne(s, v, x);
    assert s1.sys == Marked(s.sys, x);
    UpdateNone(s1, w, x);
    TwoSteps(s, Update(v), Update(w));
  }

  lemma {:induction false} UpdateOne(s: SqlSys, w: nat, x: string)
    requires w in s.sweeps && s.sweeps[w] == Selected([x]) && x in s.sys.store && s.sys.store[x] == Pending
    ensures SqlNext(s, Update(w)) == SqlSys(Marked(s.sys, x), s.sweeps[w := Updated([x])])
  {
    assert [x][..0] == [];
    assert Moved(s.sys, [x]) == [x];
    assert ClaimAll(s.sys.store, [x]) == s.sys.store[x := Expired] && Claims([x]) == [Claimed(x, Expired)];
  }

  lemma {:induction false} UpdateNone(s: SqlSys, w: nat, x: string)
    requires w in s.sweeps && s.sweeps[w] == Selected([x]) && x in s.sys.store && s.sys.store[x] == Expired
    ensures SqlNext(s, Update(w)) == SqlSys(s.sys, s.sweeps[w := Updated([x])])
  {
    assert [x][..0] == [];
    assert Moved(s.sys, [x]) == [];
    assert ClaimAll(s.sys.store, []) == s.sys.store && Claims([]) == [] && s.sys.log + [] == s.sys.log;
  }

  lemma {:induction false} SweepOne(c: Config, x: string)
    requires c.sweepNotifier
    ensures SweepJobs(c, [x]) == [Discard(x, Expired), Announce(x, Expired)]
  {
  }

  lemma {:induction false} BothRead(s: SqlSys, v: nat, w: nat, x: string)
    requires v != w && v in s.sweeps && w in s.sweeps && s.sweeps[v] == s.sweeps[w] == Updated([x])
    requires v !in s.sys.workers && w !in s.sys.workers && x in s.sys.store && s.sys.store[x] == Expired
    requires s.sys.config.sweepNotifier
    ensures var steps, jobs := [Read(v, [x]), Read(w, [x])], [Discard(x, Expired), Announce(x, Expired)];
            && SqlEnabledRun(s, steps)
            && SqlRun(s, steps) == SqlSys(s.sys.(workers := s.sys.workers[v := jobs][w := jobs]), s.sweeps - {v} - {w})
  {
    SweepOne(s.sys.config, x);
    hide SweepJobs;
    TwoSteps(s, Read(v, [x]), Read(w, [x]));
  }

  lemma {:induction false} WorkOne(s: SqlSys, w: nat, ok: bool, e: Event, rest: seq<Job>)
    requires w in s.sys.workers && s.sys.workers[w] != []
    requires Perform(s.sys.config, s.sys.made, s.sys.workers[w], ok) == Outcome([e], rest)
    ensures SqlEnabled(s, Plain(Work(w, ok)))
    ensures SqlNext(s, Plain(Work(w, ok))) ==
            s.(sys := s.sys.(log := s.sys.log + [e], workers := s.sys.workers[w := rest]))
  {
    hide Perform;
  }

  lemma {:induction false} BothWork(s: SqlSys, v: nat, w: nat, ok: bool, e: Event, job: seq<Job>, rest: seq<Job>)
    requires v != w && v in s.sys.workers && w in s.sys.workers && s.sys.workers[v] == s.sys.workers[w] == job
             && job != []
    requires Perform(s.sys.config, s.sys.made, job, ok) == Outcome([e], rest)
    ensures var steps := [Plain(Work(v, ok)), Plain(Work(w, ok))];
            && SqlEnabledRun(s, steps)
            && SqlRun(s, steps) ==
                 s.(sys := s.sys.(log := s.sys.log + [e] + [e], workers := s.sys.workers[v := rest][w := rest]))
  {
    hide Perform, Next, Enabled;
    WorkOne(s, v, ok, e, rest);
    WorkOne(SqlNext(s, Plain(Work(v, ok))), w, ok, e, rest);
    TwoSteps(s, Plain(Work(v, ok)), Plain(Work(w, ok)));
  }

  function Sweeps(v: nat, w: nat, now: real, x: string): seq<SqlStep> {
    [Select(v, now, [x]), Select(w, now, [x])] + [Update(v), Update(w)] + [Read(v, [x]), Read(w, [x])]
  }

  lemma {:induction false} BothSweep(s: SqlSys, v: nat, w: nat, now: real, x: string)
    requires BothMaySweep(s, v, w, now, x)
    ensures var steps, jobs := Sweeps(v, w, now, x), [Discard(x, Expired), Announce(x, Expired)];
            && SqlEnabledRun(s, steps)
            && SqlRun(s, steps).sys == Marked(s.sys, x).(workers := s.sys.workers[v := jobs][w := jobs])
  {
    var a, b, c := [Select(v, now, [x]), Select(w, now, [x])], [Update(v), Update(w)], [Read(v, [x]), Read(w, [x])];
    BothSelect(s, v, w, now, x);
    var s1 := SqlRun(s, a);
    hide SqlRun, SqlEnabledRun;
    BothUpdate(s1, v, w, x);
    var s2 := SqlRun(s1, b);
    BothRead(s2, v, w, x);
    RunThen(s, a, b);
    RunThen(s, a + b, c);
  }

  /**
   Two sweeps that overlap discard a payload and announce an expiry twice: from
   any state, for any message that is due, with both collaborators configured.
   */
  lemma {:induction false} OverlappingSweepsRepeat(s: SqlSys, v: nat, w: nat, now: real, x: string, ok: bool)
    requires BothMaySweep(s, v, w, now, x)
    ensures var once := [Plain(Work(v, ok)), Plain(Work(w, ok))];
            var steps := Sweeps(v, w, now, x) + once + once;
            && SqlEnabledRun(s, steps)
            && SqlRun(s, steps).sys.log == s.sys.log + [Claimed(x, Expired)]
                 + [DiscardTried(x, ok)] + [DiscardTried(x, ok)] + [Told(x, Expired)] + [Told(x, Expired)]
  {
    var sweeps, once := Sweeps(v, w, now, x), [Plain(Work(v, ok)), Plain(Work(w, ok))];
    var jobs, rest := [Discard(x, Expired), Announce(x, Expired)], [Announce(x, Expired)];
    assert jobs[1..] == rest && rest[1..] == [];
    assert Perform(s.sys.config, s.sys.made, jobs, ok) == Outcome([DiscardTried(x, ok)], rest);
    assert Perform(s.sys.config, s.sys.made, rest, ok) == Outcome([Told(x, Expired)], []);
    BothSweep(s, v, w, now, x);
    hide SqlRun, SqlEnabledRun, Sweeps, Perform;
    var s1 := SqlRun(s, sweeps);
    BothWork(s1, v, w, ok, DiscardTried(x, ok), jobs, rest);
    var s2 := SqlRun(s1, once);
    BothWork(s2, v, w, ok, Told(x, Expired), rest, []);
    RunThen(s, sweeps, once);
    RunThen(s, sweeps + once, once);
  }

  /******* One sweep at a time *******/

  ghost predicate Alone(s: SqlSys) { forall v, w :: v in s.sweeps && w in s.sweeps ==> v == w }

  // No sweep starts before the one under way has read back what it moved.
  ghost predicate OneByOne(s: SqlSys, steps: seq<SqlStep>)
    requires SqlEnabledRun(s, steps)
    decreases |steps|
  {
    Alone(s) && (steps != [] ==> OneByOne(SqlNext(s, steps[0]), steps[1..]))
  }

  ghost predicate Expiring(s: Sys, x: string) { About(s.log, x) != [] && About(s.log, x)[0] == Claimed(x, Expired) }

  // Claimed, and no one is at work on it yet.
  ghost predicate JustClaimed(s: Sys, x: string) {
    About(s.log, x) == [Claimed(x, Expired)] && forall w :: w in s.workers ==> JobsFor(s.workers[w], x) == []
  }

  // What the sweep under way has selected it alone expires.
  ghost predicate Own(s: Sys, p: Phase, x: string) {
    x in p.ids && Expiring(s, x) ==> p.Updated? && JustClaimed(s, x)
  }

  ghost predicate Orderly(s: SqlSys, x: string) {
    Sound(s.sys, x) && forall w :: w in s.sweeps ==> Own(s.sys, s.sweeps[w], x)
  }

  // What a plain step adds to the history of a message that has none.
  lemma {:induction false} PlainBegins(s: Sys, step: Step, x: string)
    requires Sound(s, x) && Enabled(s, step) && !step.Sweep? && !Expiring(s, x)
    ensures !Expiring(Next(s, step), x)
  {
    var past, s' := About(s.log, x), Next(s, step);
    if step.ClaimRelease? || step.ClaimReject? {
      var claim := Claimed(step.id, if step.ClaimRelease? then Released else Rejected);
      AboutMore(s.log, [claim], x);
      AboutFew(claim);
    } else if step.Work? {
      var jobs := s.workers[step.worker];
      var o := Perform(s.config, s.made, jobs, step.ok);
      AboutMore(s.log, o.events, x);
      OneJob(jobs, x);
      if jobs[0].id != x {
        PerformElsewhere(s, jobs, step.ok, x);
      } else if past == [] {
        NothingPlanned(s, step.worker, x);
      }
    }
    hide About, JobsFor, Perform;
  }

  lemma {:induction false} NothingPlanned(s: Sys, w: nat, x: string)
    requires Sound(s, x) && About(s.log, x) == [] && w in s.workers
    ensures JobsFor(s.workers[w], x) == []
  {
    hide About, JobsFor;
    if x in s.made { assert Lawful(s.config, s.made[x], x, [], JobsFor(s.workers[w], x)); }
  }

  // No one else touches a message that a sweep has just claimed.
  lemma {:induction false} PlainLeaves(s: Sys, step: Step, x: string)
    requires Sound(s, x) && Enabled(s, step) && !step.Sweep? && JustClaimed(s, x)
    ensures JustClaimed(Next(s, step), x)
  {
    var past, s' := About(s.log, x), Next(s, step);
    assert past + [] == past;
    if step.ClaimRelease? || step.ClaimReject? {
      var claim := Claimed(step.id, if step.ClaimRelease? then Released else Rejected);
      assert step.id != x;
      AboutMore(s.log, [claim], x);
      AboutFew(claim);
      JobsForOne(Deliver(step.id), x);
      RejectJobsFor(s.config, step.id, x);
    } else if step.Work? {
      var jobs := s.workers[step.worker];
      OneJob(jobs, x);
      assert jobs[0].id != x;
      PerformElsewhere(s, jobs, step.ok, x);
      AboutMore(s.log, Perform(s.config, s.made, jobs, step.ok).events, x);
    }
    hide About, JobsFor, Perform, RejectJobs, Lawful;
  }

  lemma {:induction false} PlainOrderly(s: SqlSys, p: Step, x: string)
    requires Orderly(s, x) && SqlEnabled(s, Plain(p))
    ensures Orderly(SqlNext(s, Plain(p)), x)
  {
    hide Sound, Expiring, JustClaimed, Next, Enabled;
    StepKeeps(s.sys, p, x);
    if !Expiring(s.sys, x) { PlainBegins(s.sys, p, x); }
    if JustClaimed(s.sys, x) { PlainLeaves(s.sys, p, x); }
  }

  lemma {:induction false} SelectOrderly(s: SqlSys, w: nat, now: real, ids: seq<string>, x: string)
    requires Orderly(s, x) && SqlEnabled(s, Select(w, now, ids))
    ensures Orderly(SqlNext(s, Select(w, now, ids)), x)
  {
    assert x in ids ==> Due(s.sys, x, now);
    hide About, JobsFor, Lawful, JustClaimed;
  }

  // A message that a sweep has just claimed, before anyone works on it.
  lemma {:induction false} ClaimedIsSound(s: Sys, x: string)
    requires JustClaimed(s, x) && x in s.made && (x in s.store ==> s.store[x] == Expired)
    ensures Sound(s, x)
  {
    FreshDrop(s.config, s.made[x], x, Expired, [Discard(x, Expired)]);
    hide About, JobsFor, Lawful;
  }

  lemma {:induction false} UpdateOrderly(s: SqlSys, w: nat, x: string)
    requires Orderly(s, x) && Alone(s) && SelectedOnce(s) && SqlEnabled(s, Update(w))
    ensures Orderly(SqlNext(s, Update(w)), x)
  {
    var s', ids := SqlNext(s, Update(w)).sys, s.sweeps[w].ids;
    assert Own(s.sys, s.sweeps[w], x);
    MovedIs(s.sys, ids);
    hide Sound, About, JobsFor, Claims, Moved;
    if x in Moved(s.sys, ids) {
      UpdateMoves(s.sys, s', ids, x);
      assert JustClaimed(s', x);
      hide JustClaimed, ExpiredPast, ExpiryJobs;
      ClaimedIsSound(s', x);
    } else {
      UpdateSpares(s.sys, s', ids, x);
      ElsewhereKeeps(s.sys, s', x);
    }
  }

  lemma {:induction false} ReadOrderly(s: SqlSys, w: nat, due: seq<string>, x: string)
    requires Orderly(s, x) && Alone(s) && SqlEnabled(s, Read(w, due))
    ensures Orderly(SqlNext(s, Read(w, due)), x)
  {
    var s' := SqlNext(s, Read(w, due)).sys;
    assert Own(s.sys, s.sweeps[w], x);
    SweepAgenda(s.sys.config, due, x);
    hide SweepJobs, About, JobsFor;
    if x in due {
      assert Reads(s.sys, s.sweeps[w].ids, x);
      assert Expiring(s.sys, x) && JustClaimed(s.sys, x) && x in s.sys.made;
      FreshDrop(s.sys.config, s.sys.made[x], x, Expired, JobsFor(SweepJobs(s.sys.config, due), x));
      hide Lawful;
      assert Sound(s', x);
    } else {
      hide Sound;
      ElsewhereKeeps(s.sys, s', x);
    }
  }

  lemma {:induction false} StepOrderly(s: SqlSys, step: SqlStep, x: string)
    requires Orderly(s, x) && Alone(s) && SelectedOnce(s) && SqlEnabled(s, step)
    ensures Orderly(SqlNext(s, step), x) && SelectedOnce(SqlNext(s, step))
  {
    match step
    case Plain(p) => hide Sound, Own, Next, Enabled; PlainOrderly(s, p, x);
    case Select(w, now, ids) => hide Sound, Own; SelectOrderly(s, w, now, ids, x);
    case Update(w) => hide Sound, Own, Moved; UpdateOrderly(s, w, x);
    case Read(w, due) => hide Sound, Own; ReadOrderly(s, w, due, x);
    case Abandon(_) => hide Sound, Own;
  }

  lemma {:induction false} OrderlyRun(s: SqlSys, steps: seq<SqlStep>, x: string)
    requires Orderly(s, x) && SelectedOnce(s) && SqlEnabledRun(s, steps) && OneByOne(s, steps)
    ensures Sound(SqlRun(s, steps).sys, x)
    decreases |steps|
  {
    if steps == [] {
    } else {
      StepOrderly(s, steps[0], x);
      hide Orderly, SelectedOnce, SqlNext, Alone, Sound;
      OrderlyRun(SqlNext(s, steps[0]), steps[1..], x);
    }
  }

  /**
   With one sweep at a time every promise of the contract holds over the SQL
   store: nothing happens twice, whoever reviews and prunes in between.
   */
  lemma {:induction false} OneSweepAtATimeIsSafe(c: Config, steps: seq<SqlStep>, j: nat)
    requires SqlEnabledRun(SqlStart(c), steps) && OneByOne(SqlStart(c), steps)
             && j < |SqlRun(SqlStart(c), steps).sys.log|
    ensures var s := SqlRun(SqlStart(c), steps).sys;
            var x := s.log[j].id;
            x in s.made && Justified(s.made[x], About(s.log[..j], x), s.log[j])
  {
    var s := SqlRun(SqlStart(c), steps).sys;
    var x := s.log[j].id;
    OrderlyRun(SqlStart(c), steps, x);
    AboutAt(s.log, j);
    var past, before := About(s.log, x), About(s.log[..j], x);
    hide About, SqlRun, SqlEnabledRun, OneByOne, Lawful, Justified;
    LawfulIsJustified(s.config, s.made[x], x, past, |before|);
  }
}
