/**
 What holds of every message under every interleaving of reviewers, sweeps and
 pruning, whatever fails and whoever stops.
 */
module ReviewSafety {
  import opened Prelude
  import opened ReviewModel

  /******* The history and the agenda of one message *******/

  function About(log: seq<Event>, x: string): seq<Event> {
    if log == [] then []
    else About(log[..|log| - 1], x) + if log[|log| - 1].id == x then [log[|log| - 1]] else []
  }

  function JobsFor(jobs: seq<Job>, x: string): seq<Job> {
    if jobs == [] then [] else (if jobs[0].id == x then [jobs[0]] else []) + JobsFor(jobs[1..], x)
  }

  // A release: claimed, then tried at most once, then told only if it went.
  ghost predicate ReleaseLife(c: Config, r: Record, x: string, past: seq<Event>, todo: seq<Job>) {
    var claim, told := Claimed(x, Released), Told(x, Released);
    var announce := [Announce(x, Released)];
    || (past == [claim] && (todo == [] || todo == [Deliver(x)] || (todo == announce && r.action != Hold)))
    || (past == [claim, told] && todo == [] && r.action != Hold)
    || (DeliverPlan(c, r) == Try && past == [claim, ReleaseTried(x, false)] && todo == [])
    || (DeliverPlan(c, r) == Try && past == [claim, ReleaseTried(x, true)] && (todo == [] || todo == announce))
    || (DeliverPlan(c, r) == Try && past == [claim, ReleaseTried(x, true), told] && todo == [])
  }

  // A rejection or an expiry: claimed, payload discarded at most once, told at most once.
  ghost predicate DropLife(c: Config, r: Record, x: string, status: Status, past: seq<Event>, todo: seq<Job>) {
    var claim, told := Claimed(x, status), Told(x, status);
    var discard, announce := Discard(x, status), Announce(x, status);
    var payload := HasPayload(r, if status == Expired then c.sweepOutbound else c.outbound);
    var tells := status == Expired ==> r.tenant != "";
    || (past == [claim] && (todo == [] || todo == [discard, announce] || todo == [discard]
                            || (todo == [announce] && !payload)))
    || (past == [claim, told] && todo == [] && !payload && tells)
    || (payload && exists ok :: past == [claim, DiscardTried(x, ok)] && (todo == [] || todo == [announce]))
    || (payload && tells && exists ok :: past == [claim, DiscardTried(x, ok), told] && todo == [])
  }

  ghost predicate Lawful(c: Config, r: Record, x: string, past: seq<Event>, todo: seq<Job>) {
    || (past == [] && todo == [])
    || ReleaseLife(c, r, x, past, todo)
    || DropLife(c, r, x, Rejected, past, todo)
    || DropLife(c, r, x, Expired, past, todo)
  }

  // The invariant, message by message.
  ghost predicate Sound(s: Sys, x: string) {
    && (x in s.store ==> x in s.made)
    && (x !in s.made ==> About(s.log, x) == [] && forall w :: w in s.workers ==> JobsFor(s.workers[w], x) == [])
    && (x in s.made ==> Lawful(s.config, s.made[x], x, About(s.log, x), []))
    && (x in s.made ==> forall w :: w in s.workers ==>
        Lawful(s.config, s.made[x], x, About(s.log, x), JobsFor(s.workers[w], x)))
    && (forall v, w :: v in s.workers && w in s.workers && v != w ==>
        JobsFor(s.workers[v], x) == [] || JobsFor(s.workers[w], x) == [])
    && (x in s.store ==> if s.store[x] == Pending then About(s.log, x) == []
                         else About(s.log, x) != [] && About(s.log, x)[0] == Claimed(x, s.store[x]))
  }

  /******* Filters *******/

  lemma {:induction false} AboutMore(log: seq<Event>, more: seq<Event>, x: string)
    ensures About(log + more, x) == About(log, x) + About(more, x)
  {
    if more == [] {
      assert log + more == log;
    } else {
      var init, e := more[..|more| - 1], more[|more| - 1];
      AboutMore(log, init, x);
      assert (log + more)[..|log + more| - 1] == log + init;
    }
  }

  lemma {:induction false} AboutClaims(ids: seq<string>, x: string)
    requires Distinct(ids)
    ensures About(Claims(ids), x) == if x in ids then [Claimed(x, Expired)] else []
  {
    if ids == [] {
    } else {
      var init, last := ids[..|ids| - 1], ids[|ids| - 1];
      assert ids == init + [last] && Claims(ids)[..|ids| - 1] == Claims(init);
      AboutClaims(init, x);
    }
  }

  lemma {:induction false} JobsForMore(jobs: seq<Job>, more: seq<Job>, x: string)
    ensures JobsFor(jobs + more, x) == JobsFor(jobs, x) + JobsFor(more, x)
  {
    if jobs == [] {
      assert jobs + more == more;
    } else {
      var rest := jobs[1..];
      JobsForMore(rest, more, x);
      assert (jobs + more)[0] == jobs[0] && (jobs + more)[1..] == rest + more;
      var first := if jobs[0].id == x then [jobs[0]] else [];
      assert JobsFor(jobs + more, x) == first + JobsFor(rest + more, x) && JobsFor(jobs, x) == first + JobsFor(rest, x);
      hide JobsFor;
      assert first + (JobsFor(rest, x) + JobsFor(more, x)) == first + JobsFor(rest, x) + JobsFor(more, x);
    }
  }

  lemma {:induction false} SweepJobsFor(ids: seq<string>, x: string)
    requires Distinct(ids)
    ensures JobsFor(Discards(ids), x) == if x in ids then [Discard(x, Expired)] else []
    ensures JobsFor(Announces(ids), x) == if x in ids then [Announce(x, Expired)] else []
  {
    if ids == [] {
    } else {
      var first, rest := ids[0], ids[1..];
      assert ids == [first] + rest;
      assert Discards(ids)[1..] == Discards(rest) && Announces(ids)[1..] == Announces(rest);
      SweepJobsFor(rest, x);
    }
  }

  /******* Every step keeps it *******/

  lemma {:induction false} OneJob(jobs: seq<Job>, x: string)
    requires jobs != []
    ensures JobsFor(jobs, x) == (if jobs[0].id == x then [jobs[0]] else []) + JobsFor(jobs[1..], x)
    ensures jobs[0].id != x ==> JobsFor(jobs, x) == JobsFor(jobs[1..], x)
  {
  }

  // Doing a job of another message changes nothing here.
  lemma {:induction false} PerformElsewhere(s: Sys, jobs: seq<Job>, ok: bool, x: string)
    requires jobs != [] && jobs[0].id != x
    ensures var o := Perform(s.config, s.made, jobs, ok);
            About(o.events, x) == [] && JobsFor(o.rest, x) == JobsFor(jobs, x)
  {
    var o := Perform(s.config, s.made, jobs, ok);
    OneJob(jobs, x);
    JobsForMore(AfterDelivery(s.config, jobs[0].id), jobs[1..], x);
    assert [] + jobs[1..] == jobs[1..];
  }

  // What each kind of job says about the past, when it is next on the agenda.
  lemma {:induction false} DeliverIsNext(c: Config, r: Record, x: string, past: seq<Event>, rest: seq<Job>)
    requires Lawful(c, r, x, past, [Deliver(x)] + rest)
    ensures past == [Claimed(x, Released)] && rest == []
  {
    var todo := [Deliver(x)] + rest;
    assert todo[0] == Deliver(x) && todo[1..] == rest;
  }

  lemma {:induction false} DiscardIsNext(c: Config, r: Record, x: string, status: Status, past: seq<Event>,
                                         rest: seq<Job>)
    requires Lawful(c, r, x, past, [Discard(x, status)] + rest)
    ensures (status == Rejected || status == Expired) && past == [Claimed(x, status)]
    ensures rest == [] || rest == [Announce(x, status)]
  {
    var todo := [Discard(x, status)] + rest;
    assert todo[0] == Discard(x, status) && todo[1..] == rest;
  }

  lemma {:induction false} AnnounceIsNext(c: Config, r: Record, x: string, status: Status, past: seq<Event>,
                                          rest: seq<Job>)
    requires Lawful(c, r, x, past, [Announce(x, status)] + rest)
    ensures past != [] && past[0] == Claimed(x, status) && rest == []
    ensures Lawful(c, r, x, past, [Announce(x, status)])
  {
    var todo := [Announce(x, status)] + rest;
    assert todo[0] == Announce(x, status) && todo[1..] == rest;
    assert rest == [];
    assert todo == [Announce(x, status)];
  }

  lemma {:induction false} AnnounceLawful(c: Config, r: Record, x: string, status: Status, past: seq<Event>)
    requires Lawful(c, r, x, past, [Announce(x, status)])
    ensures Lawful(c, r, x, past, [])
    ensures !(status == Expired && r.tenant == "") ==> Lawful(c, r, x, past + [Told(x, status)], [])
  {
    var told := Told(x, status);
    assert [Announce(x, status)][0] == Announce(x, status);
    assert [Claimed(x, status)] + [told] == [Claimed(x, status), told];
    if |past| > 1 {
      var e := past[1];
      assert past == [Claimed(x, status), e];
      assert past + [told] == [Claimed(x, status), e, told];
    }
  }

  ghost predicate MovesOn(c: Config, r: Record, x: string, past: seq<Event>, o: Outcome) {
    && Lawful(c, r, x, past + About(o.events, x), JobsFor(o.rest, x))
    && Lawful(c, r, x, past + About(o.events, x), [])
    && past != []
  }

  lemma {:induction false} AboutFew(e: Event)
    ensures About([e], e.id) == [e]
    ensures forall x :: x != e.id ==> About([e], x) == []
  {
    assert [e][..0] == [];
    forall x | x != e.id ensures About([e], x) == [] { assert About([], x) == []; }
    assert About([], e.id) == [];
  }

  lemma {:induction false} PerformDeliver(s: Sys, jobs: seq<Job>, ok: bool, x: string, past: seq<Event>)
    requires jobs != [] && jobs[0] == Deliver(x) && x in s.made
    requires Lawful(s.config, s.made[x], x, past, JobsFor(jobs, x))
    ensures MovesOn(s.config, s.made[x], x, past, Perform(s.config, s.made, jobs, ok))
  {
    var c, r := s.config, s.made[x];
    var rest, after := jobs[1..], AfterDelivery(c, x);
    var o := Perform(c, s.made, jobs, ok);
    DeliverIsNext(c, r, x, past, JobsFor(rest, x));
    JobsForMore(after, rest, x);
    assert [] + rest == rest;
    assert JobsFor(after, x) == after by { if after != [] { assert after[1..] == []; } }
    assert after + [] == after;
    AboutFew(ReleaseTried(x, ok));
    assert past + [ReleaseTried(x, ok)] == [Claimed(x, Released), ReleaseTried(x, ok)];
    assert past + [] == past;
    assert JobsFor(o.rest, x) == [] || JobsFor(o.rest, x) == after;
    match DeliverPlan(c, r)
    case NotNeeded => assert About(o.events, x) == [];
    case Impossible => assert About(o.events, x) == [] && JobsFor(o.rest, x) == [];
    case Try => assert About(o.events, x) == [ReleaseTried(x, ok)] && (!ok ==> JobsFor(o.rest, x) == []);
    hide JobsFor, About, DropLife, Perform;
    assert ReleaseLife(c, r, x, past + About(o.events, x), JobsFor(o.rest, x));
  }

  lemma {:induction false} PerformDiscard(s: Sys, jobs: seq<Job>, ok: bool, x: string, status: Status, past: seq<Event>)
    requires jobs != [] && jobs[0] == Discard(x, status) && x in s.made
    requires Lawful(s.config, s.made[x], x, past, JobsFor(jobs, x))
    ensures MovesOn(s.config, s.made[x], x, past, Perform(s.config, s.made, jobs, ok))
  {
    DiscardIsNext(s.config, s.made[x], x, status, past, JobsFor(jobs[1..], x));
    AboutFew(DiscardTried(x, ok));
    assert past + [DiscardTried(x, ok)] == [Claimed(x, status), DiscardTried(x, ok)];
    assert past + [] == past;
    hide JobsFor, About, ReleaseLife;
    assert DropLife(s.config, s.made[x], x, status, past + About(Perform(s.config, s.made, jobs, ok).events, x),
                    JobsFor(jobs[1..], x));
  }

  lemma {:induction false} PerformAnnounce(s: Sys, jobs: seq<Job>, ok: bool, x: string, status: Status,
                                           past: seq<Event>)
    requires jobs != [] && jobs[0] == Announce(x, status) && x in s.made
    requires Lawful(s.config, s.made[x], x, past, JobsFor(jobs, x))
    ensures MovesOn(s.config, s.made[x], x, past, Perform(s.config, s.made, jobs, ok))
  {
    AnnounceIsNext(s.config, s.made[x], x, status, past, JobsFor(jobs[1..], x));
    AnnounceLawful(s.config, s.made[x], x, status, past);
    AboutFew(Told(x, status));
    assert past + [] == past;
    hide JobsFor, About, Lawful;
  }

  // Doing a job of this message moves its life one lawful step on.
  lemma {:induction false} PerformHere(s: Sys, jobs: seq<Job>, ok: bool, x: string, past: seq<Event>)
    requires jobs != [] && jobs[0].id == x && x in s.made
    requires Lawful(s.config, s.made[x], x, past, JobsFor(jobs, x))
    ensures MovesOn(s.config, s.made[x], x, past, Perform(s.config, s.made, jobs, ok))
  {
    hide JobsFor, About, Lawful, MovesOn, Perform;
    match jobs[0]
    case Deliver(_) => PerformDeliver(s, jobs, ok, x, past);
    case Discard(_, status) => PerformDiscard(s, jobs, ok, x, status, past);
    case Announce(_, status) => PerformAnnounce(s, jobs, ok, x, status, past);
  }

  /******* Steps *******/

  lemma {:induction false} JobsForOne(job: Job, x: string)
    ensures JobsFor([job], x) == if job.id == x then [job] else []
  {
    assert [job][1..] == [];
  }

  lemma {:induction false} RejectJobsFor(c: Config, id: string, x: string)
    ensures JobsFor(RejectJobs(c, id), x) ==
            if id != x then [] else if c.reviewNotifier then [Discard(x, Rejected), Announce(x, Rejected)]
            else [Discard(x, Rejected)]
  {
    JobsForOne(Discard(id, Rejected), x);
    JobsForOne(Announce(id, Rejected), x);
    JobsForMore([Discard(id, Rejected)], if c.reviewNotifier then [Announce(id, Rejected)] else [], x);
  }

  lemma {:induction false} FreshRelease(c: Config, r: Record, x: string)
    ensures Lawful(c, r, x, [Claimed(x, Released)], [Deliver(x)]) && Lawful(c, r, x, [Claimed(x, Released)], [])
  {
    hide DropLife;
  }

  lemma {:induction false} FreshDrop(c: Config, r: Record, x: string, status: Status, todo: seq<Job>)
    requires status == Rejected || status == Expired
    requires todo == [Discard(x, status)] || todo == [Discard(x, status), Announce(x, status)]
    ensures Lawful(c, r, x, [Claimed(x, status)], todo) && Lawful(c, r, x, [Claimed(x, status)], [])
  {
    hide ReleaseLife;
    assert DropLife(c, r, x, status, [Claimed(x, status)], todo);
    assert DropLife(c, r, x, status, [Claimed(x, status)], []);
  }

  // A claim gives the new worker an agenda that is lawful right after the claim.
  lemma {:induction false} ClaimKeeps(s: Sys, s': Sys, x: string, w: nat, jobs: seq<Job>, status: Status)
    requires Sound(s, x) && x in s.store && s.store[x] == Pending && w !in s.workers
    requires s'.config == s.config && s'.made == s.made && s'.workers == s.workers[w := jobs]
    requires x in s'.store && s'.store[x] == status && status != Pending
    requires About(s'.log, x) == About(s.log, x) + [Claimed(x, status)]
    requires Lawful(s.config, s.made[x], x, [Claimed(x, status)], JobsFor(jobs, x))
    requires Lawful(s.config, s.made[x], x, [Claimed(x, status)], [])
    ensures Sound(s', x)
  {
    assert About(s'.log, x) == [Claimed(x, status)];
    forall v | v in s.workers ensures JobsFor(s.workers[v], x) == [] {
      assert Lawful(s.config, s.made[x], x, [], JobsFor(s.workers[v], x));
    }
    hide Lawful, JobsFor, About;
  }

  // A step that neither mentions the message nor gives anyone a job for it.
  lemma {:induction false} ElsewhereKeeps(s: Sys, s': Sys, x: string)
    requires Sound(s, x)
    requires s'.config == s.config && About(s'.log, x) == About(s.log, x)
    requires (x in s'.made <==> x in s.made) && (x in s.made ==> s'.made[x] == s.made[x])
    requires x in s'.store ==> x in s.store && s'.store[x] == s.store[x]
    requires forall w :: w in s'.workers ==>
      JobsFor(s'.workers[w], x) == [] || (w in s.workers && JobsFor(s'.workers[w], x) == JobsFor(s.workers[w], x))
    ensures Sound(s', x)
  {
    hide Lawful, JobsFor, About;
  }

  lemma {:induction false} ReleaseKeeps(s: Sys, w: nat, tenant: string, id: string, x: string)
    requires Sound(s, x) && Enabled(s, ClaimRelease(w, tenant, id))
    ensures Sound(Next(s, ClaimRelease(w, tenant, id)), x)
  {
    var s' := Next(s, ClaimRelease(w, tenant, id));
    hide JobsFor, About, Lawful, RejectJobs;
    AboutMore(s.log, [Claimed(id, Released)], x);
    AboutFew(Claimed(id, Released));
    JobsForOne(Deliver(id), x);
    if id == x {
      FreshRelease(s.config, s.made[x], x);
      ClaimKeeps(s, s', x, w, [Deliver(x)], Released);
    } else {
      assert About(s.log, x) + [] == About(s.log, x);
      ElsewhereKeeps(s, s', x);
    }
  }

  lemma {:induction false} RejectKeeps(s: Sys, w: nat, tenant: string, id: string, x: string)
    requires Sound(s, x) && Enabled(s, ClaimReject(w, tenant, id))
    ensures Sound(Next(s, ClaimReject(w, tenant, id)), x)
  {
    var s' := Next(s, ClaimReject(w, tenant, id));
    hide JobsFor, About, Lawful, RejectJobs;
    AboutMore(s.log, [Claimed(id, Rejected)], x);
    AboutFew(Claimed(id, Rejected));
    RejectJobsFor(s.config, id, x);
    if id == x {
      FreshDrop(s.config, s.made[x], x, Rejected, JobsFor(RejectJobs(s.config, id), x));
      ClaimKeeps(s, s', x, w, RejectJobs(s.config, id), Rejected);
    } else {
      assert About(s.log, x) + [] == About(s.log, x);
      ElsewhereKeeps(s, s', x);
    }
  }

  lemma {:induction false} SweepAgenda(c: Config, due: seq<string>, x: string)
    requires Distinct(due)
    ensures JobsFor(SweepJobs(c, due), x) ==
            if x !in due then [] else if c.sweepNotifier then [Discard(x, Expired), Announce(x, Expired)]
            else [Discard(x, Expired)]
  {
    hide JobsFor, Discards, Announces;
    SweepJobsFor(due, x);
    JobsForMore(Discards(due), Announces(due), x);
    assert Discards(due) + [] == Discards(due);
  }

  lemma {:induction false} SweepKeeps(s: Sys, w: nat, now: real, due: seq<string>, x: string)
    requires Sound(s, x) && Enabled(s, Sweep(w, now, due))
    ensures Sound(Next(s, Sweep(w, now, due)), x)
  {
    var s' := Next(s, Sweep(w, now, due));
    hide JobsFor, About, Claims, Lawful;
    AboutMore(s.log, Claims(due), x);
    AboutClaims(due, x);
    SweepAgenda(s.config, due, x);
    hide SweepJobs;
    if x in due {
      assert Due(s, x, now);
      FreshDrop(s.config, s.made[x], x, Expired, JobsFor(SweepJobs(s.config, due), x));
      ClaimKeeps(s, s', x, w, SweepJobs(s.config, due), Expired);
    } else {
      assert About(s.log, x) + [] == About(s.log, x);
      ElsewhereKeeps(s, s', x);
    }
  }

  lemma {:induction false} WorkHereKeeps(s: Sys, s': Sys, w: nat, rest: seq<Job>, more: seq<Event>, x: string)
    requires Sound(s, x) && x in s.made && w in s.workers && JobsFor(s.workers[w], x) != [] && About(s.log, x) != []
    requires s' == s.(log := s'.log, workers := s.workers[w := rest]) && About(s'.log, x) == About(s.log, x) + more
    requires Lawful(s.config, s.made[x], x, About(s.log, x) + more, JobsFor(rest, x))
    requires Lawful(s.config, s.made[x], x, About(s.log, x) + more, [])
    ensures Sound(s', x)
  {
    hide JobsFor, About, Lawful;
    assert forall v :: v in s.workers && v != w ==> JobsFor(s.workers[v], x) == [];
  }

  lemma {:induction false} WorkKeeps(s: Sys, w: nat, ok: bool, x: string)
    requires Sound(s, x) && Enabled(s, Work(w, ok))
    ensures Sound(Next(s, Work(w, ok)), x)
  {
    var s' := Next(s, Work(w, ok));
    var jobs := s.workers[w];
    var o := Perform(s.config, s.made, jobs, ok);
    AboutMore(s.log, o.events, x);
    if jobs[0].id == x {
      assert x in s.made by { OneJob(jobs, x); }
      OneJob(jobs, x);
      PerformHere(s, jobs, ok, x, About(s.log, x));
      hide JobsFor, About, Lawful, Perform;
      WorkHereKeeps(s, s', w, o.rest, About(o.events, x), x);
    } else {
      PerformElsewhere(s, jobs, ok, x);
      assert About(s.log, x) + [] == About(s.log, x);
      hide JobsFor, About, Lawful, Perform;
      ElsewhereKeeps(s, s', x);
    }
  }

  lemma {:induction false} StepKeeps(s: Sys, step: Step, x: string)
    requires Sound(s, x) && Enabled(s, step)
    ensures Sound(Next(s, step), x)
  {
    hide JobsFor, About;
    match step
    case Create(id, record) => hide ReleaseLife, DropLife;
    case ClaimRelease(w, tenant, id) => ReleaseKeeps(s, w, tenant, id, x);
    case ClaimReject(w, tenant, id) => RejectKeeps(s, w, tenant, id, x);
    case Sweep(w, now, due) => SweepKeeps(s, w, now, due, x);
    case Work(w, ok) => WorkKeeps(s, w, ok, x);
    case Stop(w) => hide Lawful; ElsewhereKeeps(s, Next(s, step), x);
    case Prune(ids) => hide Lawful; ElsewhereKeeps(s, Next(s, step), x);
  }

  lemma {:induction false} RunKeeps(c: Config, steps: seq<Step>, x: string)
    requires EnabledRun(Start(c), steps)
    ensures Sound(Run(Start(c), steps), x)
  {
    if steps == [] {
    } else {
      RunKeeps(c, steps[..|steps| - 1], x);
      StepKeeps(Run(Start(c), steps[..|steps| - 1]), steps[|steps| - 1], x);
    }
  }

  /******* What that means for the log *******/

  lemma {:induction false} AboutAt(log: seq<Event>, j: nat)
    requires j < |log|
    ensures var x := log[j].id;
            var before := About(log[..j], x);
            |before| < |About(log, x)| && About(log, x)[|before|] == log[j] && About(log, x)[..|before|] == before
  {
    var x := log[j].id;
    assert log == log[..j] + [log[j]] + log[j + 1..];
    AboutMore(log[..j], [log[j]] + log[j + 1..], x);
    AboutMore([log[j]], log[j + 1..], x);
    AboutFew(log[j]);
    assert log[..j] + ([log[j]] + log[j + 1..]) == log;
  }

  // What must have happened to the message before an event, no more and no less.
  ghost predicate Justified(r: Record, before: seq<Event>, e: Event) {
    match e
    case Claimed(x, status) => before == [] && status.Terminal()
    case ReleaseTried(x, _) => before == [Claimed(x, Released)] && r.action == Hold
    case DiscardTried(x, _) =>
      (before == [Claimed(x, Rejected)] || before == [Claimed(x, Expired)]) && r.action == Hold
        && r.direction == Outbound
    case Told(x, status) =>
      && before != [] && before[0] == Claimed(x, status) && (forall b :: b in before ==> !b.Told?)
      && (status == Released ==>
            before == [Claimed(x, Released), ReleaseTried(x, true)]
              || (before == [Claimed(x, Released)] && r.action != Hold))
  }

  lemma {:induction false} LawfulIsJustified(c: Config, r: Record, x: string, past: seq<Event>, j: nat)
    requires Lawful(c, r, x, past, []) && j < |past|
    ensures Justified(r, past[..j], past[j])
  {
    if j == 0 { assert past[..0] == []; }
    else if j == 1 { assert past[..1] == [past[0]]; }
    else { assert past[..2] == [past[0], past[1]]; }
  }

  /**
   Safety of the review protocol. In every run, whatever happened before an
   event on the same message is exactly what justifies it: a message is decided
   once; a release is tried once and only after a RELEASED claim; a payload is
   discarded once and only after a REJECTED or EXPIRED one; subscribers hear at
   most one outcome, the one that was claimed, and of a release only once the
   message has gone.
   */
  lemma {:induction false} ReviewIsSafe(c: Config, steps: seq<Step>, j: nat)
    requires EnabledRun(Start(c), steps) && j < |Run(Start(c), steps).log|
    ensures var s := Run(Start(c), steps);
            var x := s.log[j].id;
            x in s.made && Justified(s.made[x], About(s.log[..j], x), s.log[j])
  {
    var s := Run(Start(c), steps);
    var x := s.log[j].id;
    RunKeeps(c, steps, x);
    AboutAt(s.log, j);
    var past, before := About(s.log, x), About(s.log[..j], x);
    hide About, Run, Lawful, Justified;
    LawfulIsJustified(c, s.made[x], x, past, |before|) by { RunConfig(c, steps); }
  }

  lemma {:induction false} RunConfig(c: Config, steps: seq<Step>)
    requires EnabledRun(Start(c), steps)
    ensures Run(Start(c), steps).config == c
  {
    if steps == [] {
    } else {
      RunConfig(c, steps[..|steps| - 1]);
    }
  }

  // The store never disagrees with the log: pending means undecided, and a
  // decided message carries the one decision that was claimed.
  lemma {:induction false} StoreMatchesLog(c: Config, steps: seq<Step>, x: string)
    requires EnabledRun(Start(c), steps) && x in Run(Start(c), steps).store
    ensures var s := Run(Start(c), steps);
            && x in s.made
            && (s.store[x] == Pending <==> About(s.log, x) == [])
            && (s.store[x].Terminal() ==> About(s.log, x)[0] == Claimed(x, s.store[x]))
  {
    RunKeeps(c, steps, x);
    hide Run, About, Lawful;
  }

  // A hold that nobody has decided about is still there to be decided.
  ghost predicate Waiting(s: Sys, x: string) {
    x in s.made && s.made[x].action == Hold && About(s.log, x) == [] ==> x in s.store && s.store[x] == Pending
  }

  // A step that leaves the message in place, or puts something on the log about it.
  lemma {:induction false} WaitingStays(s: Sys, s': Sys, more: seq<Event>, x: string)
    requires Waiting(s, x) && (x in s.store ==> x in s.made) && s'.made == s.made && s'.log == s.log + more
    requires About(more, x) == [] && x in s.store && s.store[x] == Pending && s.made[x].action == Hold ==>
               x in s'.store && s'.store[x] == Pending
    ensures Waiting(s', x)
  {
    AboutMore(s.log, more, x);
    hide About;
  }

  lemma {:induction false} ClaimLeavesWaiting(s: Sys, step: Step, x: string)
    requires Waiting(s, x) && (x in s.store ==> x in s.made) && Enabled(s, step)
    requires step.ClaimRelease? || step.ClaimReject?
    ensures Waiting(Next(s, step), x)
  {
    var claim := Claimed(step.id, if step.ClaimRelease? then Released else Rejected);
    AboutFew(claim);
    hide About, Waiting;
    WaitingStays(s, Next(s, step), [claim], x);
  }

  lemma {:induction false} SweepLeavesWaiting(s: Sys, w: nat, now: real, due: seq<string>, x: string)
    requires Waiting(s, x) && (x in s.store ==> x in s.made) && Enabled(s, Sweep(w, now, due))
    ensures Waiting(Next(s, Sweep(w, now, due)), x)
  {
    AboutClaims(due, x);
    hide About, Waiting, Claims, SweepJobs;
    WaitingStays(s, Next(s, Sweep(w, now, due)), Claims(due), x);
  }

  lemma {:induction false} StepLeavesWaiting(s: Sys, step: Step, x: string)
    requires Waiting(s, x) && (x in s.store ==> x in s.made) && Enabled(s, step)
    ensures Waiting(Next(s, step), x)
  {
    match step
    case Create(_, _) => hide About;
    case ClaimRelease(_, _, _) => hide Waiting; ClaimLeavesWaiting(s, step, x);
    case ClaimReject(_, _, _) => hide Waiting; ClaimLeavesWaiting(s, step, x);
    case Sweep(w, now, due) => hide Waiting; SweepLeavesWaiting(s, w, now, due, x);
    case Work(w, ok) =>
      var events := Perform(s.config, s.made, s.workers[w], ok).events;
      hide Waiting, Perform, About;
      WaitingStays(s, Next(s, step), events, x);
    case Stop(_) => hide About;
    case Prune(_) => hide About;
  }

  // Pruning never takes a hold away from its reviewers.
  lemma {:induction false} UndecidedHoldStays(c: Config, steps: seq<Step>, x: string)
    requires EnabledRun(Start(c), steps)
    ensures Waiting(Run(Start(c), steps), x)
  {
    if steps == [] {
    } else {
      UndecidedHoldStays(c, steps[..|steps| - 1], x);
      RunKeeps(c, steps[..|steps| - 1], x);
      hide Waiting, Next, Lawful, About, JobsFor;
      StepLeavesWaiting(Run(Start(c), steps[..|steps| - 1]), steps[|steps| - 1], x);
    }
  }

  ghost predicate SameKind(e: Event, f: Event) {
    (e.Claimed? && f.Claimed?) || (e.ReleaseTried? && f.ReleaseTried?) || (e.DiscardTried? && f.DiscardTried?)
      || (e.Told? && f.Told?)
  }

  // Nothing happens twice to a message, and its payload is never both released and discarded.
  lemma {:induction false} NothingTwice(c: Config, steps: seq<Step>, i: nat, j: nat)
    requires EnabledRun(Start(c), steps) && i < j < |Run(Start(c), steps).log|
    requires Run(Start(c), steps).log[i].id == Run(Start(c), steps).log[j].id
    ensures var log := Run(Start(c), steps).log;
            && !SameKind(log[i], log[j])
            && !(log[i].ReleaseTried? && log[j].DiscardTried?)
            && !(log[i].DiscardTried? && log[j].ReleaseTried?)
  {
    var log := Run(Start(c), steps).log;
    ReviewIsSafe(c, steps, i);
    ReviewIsSafe(c, steps, j);
    var r := Run(Start(c), steps).made[log[j].id];
    hide Run, EnabledRun;
    AboutAt(log[..j], i);
    assert log[..j][..i] == log[..i] && log[..j][i] == log[i];
    hide About;
    Exclusive(r, About(log[..i], log[i].id), log[i], About(log[..j], log[j].id), log[j]);
  }

  lemma {:induction false} Exclusive(r: Record, before: seq<Event>, e: Event, later: seq<Event>, f: Event)
    requires e.id == f.id && Justified(r, before, e) && Justified(r, later, f) && |before| < |later|
             && later[|before|] == e
    ensures !SameKind(e, f) && !(e.ReleaseTried? && f.DiscardTried?) && !(e.DiscardTried? && f.ReleaseTried?)
  {
    assert e in later;
  }
}
