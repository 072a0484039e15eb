/**
 What a decision leads to, and not only what it rules out: when everyone who
 began has finished, the history of every decided message is exactly the one
 that its record and the deployment call for.
 */
module ReviewComplete {
  import opened Prelude
  import opened ReviewModel
  import opened ReviewSafety

  /******* The whole history of a message *******/

  // A retained payload of a hold goes the way it came, if someone is configured to move it.
  ghost predicate CanGo(c: Config, r: Record) {
    r.action == Hold && r.payload != ""
    && ((r.direction == Outbound && c.outbound) || (r.direction == Inbound && c.inbound))
  }

  // Only an outbound hold has a payload to discard.
  ghost predicate CanDrop(r: Record, configured: bool) {
    r.action == Hold && r.payload != "" && r.direction == Outbound && configured
  }

  // Released: a hold is tried, once, if it can go; what has gone, or never
  // waited, is announced.
  ghost predicate ReleasedFully(c: Config, r: Record, x: string, past: seq<Event>) {
    var claim := Claimed(x, Released);
    var told := if c.reviewNotifier then [Told(x, Released)] else [];
    if r.action != Hold then past == [claim] + told
    else if CanGo(c, r) then past == [claim, ReleaseTried(x, true)] + told || past == [claim, ReleaseTried(x, false)]
    else past == [claim]
  }

  // Rejected or expired: the payload is discarded if there is one, whether or
  // not that works out, and the outcome announced.
  ghost predicate DroppedFully(r: Record, x: string, status: Status, configured: bool, tells: bool, past: seq<Event>) {
    var claim := Claimed(x, status);
    var told := if tells then [Told(x, status)] else [];
    if CanDrop(r, configured)
    then past == [claim, DiscardTried(x, true)] + told || past == [claim, DiscardTried(x, false)] + told
    else past == [claim] + told
  }

  ghost predicate Full(c: Config, r: Record, x: string, past: seq<Event>) {
    || ReleasedFully(c, r, x, past)
    || DroppedFully(r, x, Rejected, c.outbound, c.reviewNotifier, past)
    || DroppedFully(r, x, Expired, c.sweepOutbound, c.sweepNotifier && r.tenant != "", past)
  }

  /******* An agenda that leads there *******/

  function Effort(todo: seq<Job>): nat {
    if todo == [] then 0 else (if todo[0].Deliver? then 2 else 1) + Effort(todo[1..])
  }

  lemma {:induction false} EffortFalls(c: Config, made: map<string, Record>, todo: seq<Job>, ok: bool)
    requires todo != []
    ensures Effort(Perform(c, made, todo, ok).rest) < Effort(todo)
  {
    var rest := todo[1..];
    assert [] + rest == rest;
    if todo[0].Deliver? && c.reviewNotifier {
      var after := AfterDelivery(c, todo[0].id);
      assert (after + rest)[1..] == rest && (after + rest)[0] == after[0];
    }
  }

  // However each job turns out, the history is whole when all are done.
  ghost predicate Completes(c: Config, r: Record, x: string, past: seq<Event>, todo: seq<Job>)
    decreases Effort(todo)
  {
    if todo == [] then Full(c, r, x, past)
    else forall ok: bool ::
           var o := Perform(c, map[x := r], todo, ok);
           EffortFalls(c, map[x := r], todo, ok);
           Completes(c, r, x, past + o.events, o.rest)
  }

  lemma {:induction false} CompletesMore(c: Config, r: Record, x: string, past: seq<Event>, todo: seq<Job>)
    requires todo != []
    requires forall ok: bool ::
               var o := Perform(c, map[x := r], todo, ok); Completes(c, r, x, past + o.events, o.rest)
    ensures Completes(c, r, x, past, todo)
  {
    hide Perform, Full;
  }

  lemma {:induction false} AnnounceCompletes(c: Config, r: Record, x: string, status: Status, past: seq<Event>)
    requires Full(c, r, x, if status == Expired && r.tenant == "" then past else past + [Told(x, status)])
    ensures Completes(c, r, x, past, [Announce(x, status)])
  {
    var todo := [Announce(x, status)];
    assert todo[1..] == [] && past + [] == past;
    hide Full;
    forall ok: bool ensures var o := Perform(c, map[x := r], todo, ok); Completes(c, r, x, past + o.events, o.rest) {
      var o := Perform(c, map[x := r], todo, ok);
      assert o.rest == [];
    }
    CompletesMore(c, r, x, past, todo);
  }

  lemma {:induction false} DoneCompletes(c: Config, r: Record, x: string, past: seq<Event>)
    ensures Completes(c, r, x, past, []) <==> Full(c, r, x, past)
  {
  }

  // What follows a delivery that went, or was not needed.
  lemma {:induction false} AfterDeliveryCompletes(c: Config, r: Record, x: string, past: seq<Event>)
    requires ReleasedFully(c, r, x, past + if c.reviewNotifier then [Told(x, Released)] else [])
    ensures Completes(c, r, x, past, AfterDelivery(c, x))
  {
    assert past + [] == past;
    hide ReleasedFully;
    if c.reviewNotifier { AnnounceCompletes(c, r, x, Released, past); } else { DoneCompletes(c, r, x, past); }
  }

  lemma {:induction false} DeliverCompletes(c: Config, r: Record, x: string)
    ensures Completes(c, r, x, [Claimed(x, Released)], [Deliver(x)])
  {
    var past, todo := [Claimed(x, Released)], [Deliver(x)];
    assert todo[1..] == [];
    forall ok: bool ensures var o := Perform(c, map[x := r], todo, ok); Completes(c, r, x, past + o.events, o.rest) {
      DeliverTurnsOut(c, r, x, ok);
    }
    CompletesMore(c, r, x, past, todo);
  }

  lemma {:induction false} DeliverTurnsOut(c: Config, r: Record, x: string, ok: bool)
    ensures var o := Perform(c, map[x := r], [Deliver(x)], ok);
            Completes(c, r, x, [Claimed(x, Released)] + o.events, o.rest)
  {
    var past, tried := [Claimed(x, Released)], [Claimed(x, Released), ReleaseTried(x, ok)];
    var o := Perform(c, map[x := r], [Deliver(x)], ok);
    assert [Deliver(x)][1..] == [];
    assert AfterDelivery(c, x) + [] == AfterDelivery(c, x);
    assert past + [ReleaseTried(x, ok)] == tried && past + [] == past && tried + [] == tried;
    hide Completes;
    if r.action != Hold {
      assert o == Outcome([], AfterDelivery(c, x));
      AfterDeliveryCompletes(c, r, x, past);
    } else if CanGo(c, r) {
      assert o == Outcome([ReleaseTried(x, ok)], if ok then AfterDelivery(c, x) else []);
      if ok { AfterDeliveryCompletes(c, r, x, tried); } else { DoneCompletes(c, r, x, tried); }
    } else {
      assert o == Outcome([], []);
      DoneCompletes(c, r, x, past);
    }
  }

  lemma {:induction false} DiscardCompletes(c: Config, r: Record, x: string, status: Status, announces: bool)
    requires status == Rejected || status == Expired
    requires announces == if status == Expired then c.sweepNotifier else c.reviewNotifier
    ensures Completes(c, r, x, [Claimed(x, status)],
                      [Discard(x, status)] + if announces then [Announce(x, status)] else [])
  {
    var past := [Claimed(x, status)];
    var rest := if announces then [Announce(x, status)] else [];
    var todo := [Discard(x, status)] + rest;
    assert todo[0] == Discard(x, status) && todo[1..] == rest;
    forall ok: bool ensures var o := Perform(c, map[x := r], todo, ok); Completes(c, r, x, past + o.events, o.rest) {
      DiscardTurnsOut(c, r, x, status, announces, ok);
      var o := Perform(c, map[x := r], todo, ok);
      assert o.rest == rest;
    }
    CompletesMore(c, r, x, past, todo);
  }

  lemma {:induction false} DiscardTurnsOut(c: Config, r: Record, x: string, status: Status, announces: bool, ok: bool)
    requires status == Rejected || status == Expired
    requires announces == if status == Expired then c.sweepNotifier else c.reviewNotifier
    ensures var dropped := CanDrop(r, if status == Expired then c.sweepOutbound else c.outbound);
            Completes(c, r, x, [Claimed(x, status)] + (if dropped then [DiscardTried(x, ok)] else []),
                      if announces then [Announce(x, status)] else [])
  {
    var configured := if status == Expired then c.sweepOutbound else c.outbound;
    var past := [Claimed(x, status)] + if CanDrop(r, configured) then [DiscardTried(x, ok)] else [];
    var tells := announces && (status == Expired ==> r.tenant != "");
    var whole := past + if tells then [Told(x, status)] else [];
    assert past + [] == past;
    assert [Claimed(x, status)] + [DiscardTried(x, ok)] == [Claimed(x, status), DiscardTried(x, ok)];
    assert [Claimed(x, status)] + [] == [Claimed(x, status)];
    assert DroppedFully(r, x, status, configured, tells, whole);
    assert Full(c, r, x, whole);
    hide Full, CanDrop, Completes;
    if announces { AnnounceCompletes(c, r, x, status, past); } else { DoneCompletes(c, r, x, past); }
  }

  /******* The invariant *******/

  // Whoever has jobs for the message will complete its history; if no one has,
  // it is complete, or nothing was decided.
  ghost predicate Owed(s: Sys, x: string) {
    x in s.made ==>
      && (forall w :: w in s.workers && JobsFor(s.workers[w], x) != [] ==>
            Completes(s.config, s.made[x], x, About(s.log, x), JobsFor(s.workers[w], x)))
      && ((forall w :: w in s.workers ==> JobsFor(s.workers[w], x) == []) ==>
            About(s.log, x) == [] || Full(s.config, s.made[x], x, About(s.log, x)))
  }

  // A worker that stops has nothing left to do.
  ghost predicate Patient(s: Sys, step: Step) {
    step.Stop? && step.worker in s.workers ==> s.workers[step.worker] == []
  }

  lemma {:induction false} OwedElsewhere(s: Sys, s': Sys, x: string)
    requires Owed(s, x) && s'.config == s.config && About(s'.log, x) == About(s.log, x)
    requires x in s'.made ==> x in s.made && s'.made[x] == s.made[x]
    requires forall w :: w in s'.workers ==>
               JobsFor(s'.workers[w], x) == []
                 || (w in s.workers && JobsFor(s'.workers[w], x) == JobsFor(s.workers[w], x))
    requires forall w :: w in s.workers && JobsFor(s.workers[w], x) != [] ==>
               w in s'.workers && JobsFor(s'.workers[w], x) == JobsFor(s.workers[w], x)
    ensures Owed(s', x)
  {
    hide JobsFor, About, Completes, Full;
  }

  lemma {:induction false} OwedClaim(s: Sys, s': Sys, x: string, w: nat, jobs: seq<Job>, status: Status)
    requires Sound(s, x) && x in s.store && s.store[x] == Pending && w !in s.workers
    requires s'.config == s.config && s'.made == s.made && s'.workers == s.workers[w := jobs]
    requires About(s'.log, x) == About(s.log, x) + [Claimed(x, status)]
    requires JobsFor(jobs, x) != [] && Completes(s.config, s.made[x], x, [Claimed(x, status)], JobsFor(jobs, x))
    ensures Owed(s', x)
  {
    assert About(s'.log, x) == [Claimed(x, status)];
    forall v | v in s.workers ensures JobsFor(s.workers[v], x) == [] {
      assert Lawful(s.config, s.made[x], x, [], JobsFor(s.workers[v], x));
    }
    hide Lawful, JobsFor, About, Completes, Full;
    assert w in s'.workers && s'.workers[w] == jobs;
    assert forall v :: v in s'.workers && v != w ==> v in s.workers && s'.workers[v] == s.workers[v];
  }

  // A new worker with nothing to do about the message.
  lemma {:induction false} OwedNewWorker(s: Sys, s': Sys, x: string, w: nat, jobs: seq<Job>)
    requires Owed(s, x) && w !in s.workers && JobsFor(jobs, x) == []
    requires s'.config == s.config && s'.made == s.made && s'.workers == s.workers[w := jobs]
    requires About(s'.log, x) == About(s.log, x)
    ensures Owed(s', x)
  {
    hide JobsFor, About, Completes, Full, Owed;
    OwedElsewhere(s, s', x);
  }

  lemma {:induction false} ClaimAbout(log: seq<Event>, id: string, status: Status, x: string)
    ensures id == x ==> About(log + [Claimed(id, status)], x) == About(log, x) + [Claimed(x, status)]
    ensures id != x ==> About(log + [Claimed(id, status)], x) == About(log, x)
  {
    AboutMore(log, [Claimed(id, status)], x);
    AboutFew(Claimed(id, status));
    hide About;
    assert About(log, x) + [] == About(log, x);
  }

  lemma {:induction false} OwedRelease(s: Sys, w: nat, tenant: string, id: string, x: string)
    requires Sound(s, x) && Owed(s, x) && Enabled(s, ClaimRelease(w, tenant, id))
    ensures Owed(Next(s, ClaimRelease(w, tenant, id)), x)
  {
    var s' := Next(s, ClaimRelease(w, tenant, id));
    hide JobsFor, About, Owed, Sound, Completes;
    ClaimAbout(s.log, id, Released, x);
    JobsForOne(Deliver(id), x);
    if id == x {
      DeliverCompletes(s.config, s.made[x], x);
      OwedClaim(s, s', x, w, [Deliver(x)], Released);
    } else {
      OwedNewWorker(s, s', x, w, [Deliver(id)]);
    }
  }

  lemma {:induction false} RejectCompletes(c: Config, r: Record, x: string)
    ensures JobsFor(RejectJobs(c, x), x) != []
    ensures Completes(c, r, x, [Claimed(x, Rejected)], JobsFor(RejectJobs(c, x), x))
  {
    hide JobsFor, Completes, RejectJobs;
    RejectJobsFor(c, x, x);
    DiscardCompletes(c, r, x, Rejected, c.reviewNotifier);
    assert JobsFor(RejectJobs(c, x), x) ==
           [Discard(x, Rejected)] + if c.reviewNotifier then [Announce(x, Rejected)] else [];
  }

  lemma {:induction false} OwedReject(s: Sys, w: nat, tenant: string, id: string, x: string)
    requires Sound(s, x) && Owed(s, x) && Enabled(s, ClaimReject(w, tenant, id))
    ensures Owed(Next(s, ClaimReject(w, tenant, id)), x)
  {
    var s' := Next(s, ClaimReject(w, tenant, id));
    hide JobsFor, About, Owed, Sound, Completes, RejectJobs;
    ClaimAbout(s.log, id, Rejected, x);
    if id == x {
      RejectCompletes(s.config, s.made[x], x);
      OwedClaim(s, s', x, w, RejectJobs(s.config, id), Rejected);
    } else {
      RejectJobsFor(s.config, id, x);
      OwedNewWorker(s, s', x, w, RejectJobs(s.config, id));
    }
  }

  lemma {:induction false} SweepCompletes(c: Config, r: Record, due: seq<string>, x: string)
    requires Distinct(due) && x in due
    ensures JobsFor(SweepJobs(c, due), x) != []
    ensures Completes(c, r, x, [Claimed(x, Expired)], JobsFor(SweepJobs(c, due), x))
  {
    hide JobsFor, Completes, SweepJobs, Distinct;
    SweepAgenda(c, due, x);
    DiscardCompletes(c, r, x, Expired, c.sweepNotifier);
    assert JobsFor(SweepJobs(c, due), x) ==
           [Discard(x, Expired)] + if c.sweepNotifier then [Announce(x, Expired)] else [];
  }

  lemma {:induction false} ClaimsAbout(log: seq<Event>, due: seq<string>, x: string)
    requires Distinct(due)
    ensures x in due ==> About(log + Claims(due), x) == About(log, x) + [Claimed(x, Expired)]
    ensures x !in due ==> About(log + Claims(due), x) == About(log, x)
  {
    AboutMore(log, Claims(due), x);
    AboutClaims(due, x);
    hide About, Claims, Distinct;
    assert About(log, x) + [] == About(log, x);
  }

  lemma {:induction false} OwedSweep(s: Sys, w: nat, now: real, due: seq<string>, x: string)
    requires Sound(s, x) && Owed(s, x) && Enabled(s, Sweep(w, now, due))
    ensures Owed(Next(s, Sweep(w, now, due)), x)
  {
    var s' := Next(s, Sweep(w, now, due));
    assert x in due ==> Due(s, x, now);
    hide JobsFor, About, Claims, Owed, Sound, Completes, Distinct, ClaimAll, SweepJobs;
    ClaimsAbout(s.log, due, x);
    if x in due {
      SweepCompletes(s.config, s.made[x], due, x);
      OwedClaim(s, s', x, w, SweepJobs(s.config, due), Expired);
    } else {
      SweepAgenda(s.config, due, x);
      OwedNewWorker(s, s', x, w, SweepJobs(s.config, due));
    }
  }

  // What one job does by itself: its events, and what it leads to.
  ghost function Doing(c: Config, r: Record, job: Job, ok: bool): Outcome { Perform(c, map[job.id := r], [job], ok) }

  lemma {:induction false} PerformSplits(c: Config, made: map<string, Record>, jobs: seq<Job>, ok: bool)
    requires jobs != [] && jobs[0].id in made
    ensures var one := Doing(c, made[jobs[0].id], jobs[0], ok);
            Perform(c, made, jobs, ok) == Outcome(one.events, one.rest + jobs[1..])
  {
    var rest := jobs[1..];
    assert [jobs[0]][1..] == [] && [] + rest == rest;
    hide HasPayload, DeliverPlan, AfterDelivery;
    var after := AfterDelivery(c, jobs[0].id);
    assert after + [] == after;
  }

  lemma {:induction false} AfterDeliveryIsItsOwn(c: Config, x: string)
    ensures JobsFor(AfterDelivery(c, x), x) == AfterDelivery(c, x)
  {
    JobsForOne(Announce(x, Released), x);
  }

  lemma {:induction false} DeliveringIsItsOwn(c: Config, r: Record, x: string, ok: bool)
    ensures var one := Doing(c, r, Deliver(x), ok);
            About(one.events, x) == one.events && JobsFor(one.rest, x) == one.rest
  {
    var one, after := Doing(c, r, Deliver(x), ok), AfterDelivery(c, x);
    assert [Deliver(x)][1..] == [] && after + [] == after;
    assert one.rest == [] || one.rest == after;
    assert one.events == [] || one.events == [ReleaseTried(x, ok)];
    hide Doing, AfterDelivery;
    AboutFew(ReleaseTried(x, ok));
    AfterDeliveryIsItsOwn(c, x);
    assert About([], x) == [] && JobsFor([], x) == [];
    hide About, JobsFor;
  }

  lemma {:induction false} DroppingIsItsOwn(c: Config, r: Record, job: Job, ok: bool)
    requires !job.Deliver?
    ensures var one := Doing(c, r, job, ok); About(one.events, job.id) == one.events && one.rest == []
  {
    var one, x := Doing(c, r, job, ok), job.id;
    assert [job][1..] == [];
    assert one.events == [] || (job.Discard? && one.events == [DiscardTried(x, ok)])
           || (job.Announce? && one.events == [Told(x, job.status)]);
    hide Doing;
    AboutFew(DiscardTried(x, ok));
    if job.Announce? { AboutFew(Told(x, job.status)); }
    assert About([], x) == [];
    hide About;
  }

  lemma {:induction false} DoingIsItsOwn(c: Config, r: Record, job: Job, ok: bool)
    ensures var one := Doing(c, r, job, ok);
            About(one.events, job.id) == one.events && JobsFor(one.rest, job.id) == one.rest
  {
    assert JobsFor([], job.id) == [];
    hide Doing, About, JobsFor;
    if job.Deliver? { DeliveringIsItsOwn(c, r, job.id, ok); } else { DroppingIsItsOwn(c, r, job, ok); }
  }

  // A job done among others is the job done alone.
  lemma {:induction false} PerformAlone(s: Sys, jobs: seq<Job>, ok: bool, x: string)
    requires jobs != [] && jobs[0].id == x && x in s.made
    ensures JobsFor(jobs, x) != []
    ensures var o := Perform(s.config, s.made, jobs, ok);
            Perform(s.config, map[x := s.made[x]], JobsFor(jobs, x), ok) ==
              Outcome(About(o.events, x), JobsFor(o.rest, x))
  {
    var rest, one := jobs[1..], Doing(s.config, s.made[x], jobs[0], ok);
    OneJob(jobs, x);
    assert JobsFor(jobs, x)[0] == jobs[0] && JobsFor(jobs, x)[1..] == JobsFor(rest, x);
    hide JobsFor, About, Perform, Doing;
    PerformSplits(s.config, s.made, jobs, ok);
    PerformSplits(s.config, map[x := s.made[x]], JobsFor(jobs, x), ok);
    DoingIsItsOwn(s.config, s.made[x], jobs[0], ok);
    JobsForMore(one.rest, rest, x);
  }

  lemma {:induction false} CompletesStep(c: Config, r: Record, x: string, past: seq<Event>, todo: seq<Job>, ok: bool)
    requires todo != [] && Completes(c, r, x, past, todo)
    ensures var o := Perform(c, map[x := r], todo, ok); Completes(c, r, x, past + o.events, o.rest)
  {
    hide Perform, Full;
  }

  lemma {:induction false} OwedWorkHere(s: Sys, s': Sys, w: nat, x: string)
    requires Sound(s, x) && x in s.made && w in s.workers && w in s'.workers && JobsFor(s.workers[w], x) != []
    requires s' == s.(log := s'.log, workers := s.workers[w := s'.workers[w]])
    requires Completes(s.config, s.made[x], x, About(s'.log, x), JobsFor(s'.workers[w], x))
    ensures Owed(s', x)
  {
    DoneCompletes(s.config, s.made[x], x, About(s'.log, x));
    hide JobsFor, About, Lawful, Completes, Full;
    assert forall v :: v in s.workers && v != w ==> JobsFor(s.workers[v], x) == [];
    assert w in s'.workers;
  }

  lemma {:induction false} OwedWork(s: Sys, w: nat, ok: bool, x: string)
    requires Sound(s, x) && Owed(s, x) && Enabled(s, Work(w, ok))
    ensures Owed(Next(s, Work(w, ok)), x)
  {
    var s' := Next(s, Work(w, ok));
    var jobs := s.workers[w];
    var o := Perform(s.config, s.made, jobs, ok);
    AboutMore(s.log, o.events, x);
    if jobs[0].id == x {
      assert x in s.made by { OneJob(jobs, x); }
      PerformAlone(s, jobs, ok, x);
      hide JobsFor, About, Sound, Completes, Perform, Full;
      CompletesStep(s.config, s.made[x], x, About(s.log, x), JobsFor(jobs, x), ok);
      OwedWorkHere(s, s', w, x);
    } else {
      PerformElsewhere(s, jobs, ok, x);
      assert About(s.log, x) + [] == About(s.log, x);
      hide JobsFor, About, Sound, Perform, Owed;
      OwedElsewhere(s, s', x);
    }
  }

  lemma {:induction false} OwedCreate(s: Sys, id: string, record: Record, x: string)
    requires Sound(s, x) && Owed(s, x) && Enabled(s, Create(id, record))
    ensures Owed(Next(s, Create(id, record)), x)
  {
    hide JobsFor, About, Lawful, Completes, Full;
  }

  lemma {:induction false} StepOwes(s: Sys, step: Step, x: string)
    requires Sound(s, x) && Owed(s, x) && Enabled(s, step) && Patient(s, step)
    ensures Owed(Next(s, step), x)
  {
    assert JobsFor([], x) == [];
    hide JobsFor, About, Sound, Completes, Full, Perform;
    match step
    case Create(id, record) => hide Owed; OwedCreate(s, id, record, x);
    case ClaimRelease(w, tenant, id) => hide Owed; OwedRelease(s, w, tenant, id, x);
    case ClaimReject(w, tenant, id) => hide Owed; OwedReject(s, w, tenant, id, x);
    case Sweep(w, now, due) => hide Owed; OwedSweep(s, w, now, due, x);
    case Work(w, ok) => hide Owed; OwedWork(s, w, ok, x);
    case Stop(w) => hide Owed; OwedElsewhere(s, Next(s, step), x);
    case Prune(ids) => hide Owed; OwedElsewhere(s, Next(s, step), x);
  }

  ghost predicate PatientRun(s: Sys, steps: seq<Step>)
    requires EnabledRun(s, steps)
  {
    steps != [] ==>
      && PatientRun(s, steps[..|steps| - 1])
      && Patient(Run(s, steps[..|steps| - 1]), steps[|steps| - 1])
  }

  lemma {:induction false} RunOwes(c: Config, steps: seq<Step>, x: string)
    requires EnabledRun(Start(c), steps) && PatientRun(Start(c), steps)
    ensures Owed(Run(Start(c), steps), x)
  {
    if steps == [] {
    } else {
      var before := steps[..|steps| - 1];
      RunOwes(c, before, x);
      RunKeeps(c, before, x);
      hide Sound, Owed, Next, Patient;
      StepOwes(Run(Start(c), before), steps[|steps| - 1], x);
    }
  }

  /**
   Every decision is carried out. In every run, with any interleaving of
   reviewers, sweeps and pruning and any failures, in which no one stops before
   they are done: once no one has work left on a message, either nothing was
   decided about it, or its whole history is the one its record and the
   deployment call for. A hold that can go has been tried; what has gone or
   never waited has been announced; a payload that can be discarded has been.
   */
  lemma {:induction false} DecisionsAreCarriedOut(c: Config, steps: seq<Step>, x: string)
    requires EnabledRun(Start(c), steps) && PatientRun(Start(c), steps)
    requires forall w :: w in Run(Start(c), steps).workers ==> JobsFor(Run(Start(c), steps).workers[w], x) == []
    ensures var s := Run(Start(c), steps);
            x in s.made ==> About(s.log, x) == [] || Full(c, s.made[x], x, About(s.log, x))
  {
    RunOwes(c, steps, x);
    RunConfig(c, steps);
    hide Run, EnabledRun, PatientRun, About, JobsFor, Completes, Full;
  }
}
