/**
 The review queue's verbs as they run, on a store whose Review and Expire are
 single conditional writes. Whether a releaser succeeds is not up to the queue.
 Each method is shown to be a run of the state machine in ReviewModel.
 */
module ReviewQueue {
  import opened Prelude
  import opened ReviewModel
  import opened ReviewComplete

  datatype ReviewResult = Moved(record: Record) | NotFound | AlreadyReviewed | NotAnOutcome

  // What a reviewer is told.
  datatype Answer = Decided(record: Record) | NotDelivered(record: Record) | Refused(why: ReviewResult)

  lemma {:induction false} RunMore(s: Sys, steps: seq<Step>, step: Step)
    requires EnabledRun(s, steps) && Enabled(Run(s, steps), step)
    ensures EnabledRun(s, steps + [step]) && Run(s, steps + [step]) == Next(Run(s, steps), step)
  {
    assert (steps + [step])[..|steps|] == steps;
  }

  lemma {:induction false} RunNone(s: Sys)
    ensures EnabledRun(s, []) && Run(s, []) == s
  {
  }

  // What a sweep puts on the log: a discard for every outbound hold with a payload,
  // in order, and then an announcement for every message with a tenant.
  ghost function Discarded(made: map<string, Record>, configured: bool, due: seq<string>, oks: seq<bool>): seq<Event>
    requires |oks| >= |due| && forall id :: id in due ==> id in made
  {
    if due == [] then []
    else
      var n := |due| - 1;
      Discarded(made, configured, due[..n], oks)
        + if CanDrop(made[due[n]], configured) then [DiscardTried(due[n], oks[n])] else []
  }

  ghost function Announced(made: map<string, Record>, due: seq<string>): seq<Event>
    requires forall id :: id in due ==> id in made
  {
    if due == [] then []
    else
      var n := |due| - 1;
      Announced(made, due[..n]) + if made[due[n]].tenant != "" then [Told(due[n], Expired)] else []
  }

  class Queue {
    const config: Config
    var made: map<string, Record>
    var store: map<string, Status>
    var log: seq<Event>

    ghost predicate Valid()
      reads this
    {
      store.Keys <= made.Keys
    }

    // The machine's state with nobody else at work.
    ghost function State(): Sys
      reads this
    {
      Sys(config, made, store, map[], log)
    }

    constructor (config: Config)
      ensures Valid() && State() == Start(config)
    {
      this.config, made, store, log := config, map[], map[], [];
    }

    // Moves a pending message to a decision, in the write itself.
    method Review(tenant: string, id: string, status: Status) returns (r: ReviewResult)
      requires Valid()
      modifies this`store, this`log
      ensures Valid() && r.Moved? == (status.Terminal() && CanClaim(old(State()), tenant, id))
      ensures r.Moved? ==>
                r.record == made[id] && store == old(store)[id := status] && log == old(log) + [Claimed(id, status)]
      ensures !r.Moved? ==> store == old(store) && log == old(log)
      ensures r.NotAnOutcome? <==> !status.Terminal()
      ensures r.AlreadyReviewed? <==>
              status.Terminal() && id in store && made[id].tenant == tenant && old(store)[id].Terminal()
    {
      if !status.Terminal() {
        return NotAnOutcome;
      }
      if id !in store || made[id].tenant != tenant {
        return NotFound;
      }
      if store[id] != Pending {
        return AlreadyReviewed;
      }
      store := store[id := status];
      log := log + [Claimed(id, status)];
      r := Moved(made[id]);
    }

    // Moves the payload if there is one to move; false means it did not go.
    method TryDeliver(id: string, record: Record, ok: bool) returns (delivered: bool)
      requires id in made && record == made[id]
      modifies this`log
      ensures log == old(log) + Perform(config, made, [Deliver(id)], ok).events
      ensures log == old(log) + if CanGo(config, record) then [ReleaseTried(id, ok)] else []
      ensures delivered <==> DeliverPlan(config, record) == NotNeeded || (DeliverPlan(config, record) == Try && ok)
      ensures delivered <==> record.action != Hold || (CanGo(config, record) && ok)
    {
      if record.action != Hold {
        return true;
      }
      if record.payload == "" {
        return false;
      }
      match record.direction {
        case Outbound =>
          if !config.outbound {
            return false;
          }
          log := log + [ReleaseTried(id, ok)];
          delivered := ok;
        case Inbound =>
          if !config.inbound {
            return false;
          }
          log := log + [ReleaseTried(id, ok)];
          delivered := ok;
        case Other(_) =>
          delivered := false;
      }
    }

    // One worker is part way through its jobs, and no one else is at work.
    ghost predicate Working(s0: Sys, steps: seq<Step>, jobs: seq<Job>)
      reads this
    {
      EnabledRun(s0, steps) && Run(s0, steps) == State().(workers := map[0 := jobs])
    }

    lemma {:induction false} WorkStops(s0: Sys, steps: seq<Step>)
      requires Working(s0, steps, [])
      ensures EnabledRun(s0, steps + [Stop(0)]) && Run(s0, steps + [Stop(0)]) == State()
    {
      hide Run, EnabledRun;
      RunMore(s0, steps, Stop(0));
    }

    // Tells subscribers the outcome of a review, if there is a notifier.
    method Tell(id: string, status: Status, ghost s0: Sys, ghost steps: seq<Step>) returns (ghost more: seq<Step>)
      requires id in made && status != Expired
      requires Working(s0, steps, if config.reviewNotifier then [Announce(id, status)] else [])
      modifies this`log
      ensures EnabledRun(s0, more) && State() == Run(s0, more)
      ensures log == old(log) + if config.reviewNotifier then [Told(id, status)] else []
    {
      more := steps;
      hide Run, EnabledRun;
      if config.reviewNotifier {
        ghost var jobs := [Announce(id, status)];
        assert jobs[1..] == [];
        log := log + [Told(id, status)];
        RunMore(s0, more, Work(0, true));
        more := more + [Work(0, true)];
      }
      WorkStops(s0, more);
      more := more + [Stop(0)];
    }

    // The claim of a review, and the jobs that come with it.
    method Claim(tenant: string, id: string, status: Status) returns (claim: ReviewResult, ghost steps: seq<Step>)
      requires Valid() && (status == Released || status == Rejected)
      modifies this`store, this`log
      ensures Valid() && (claim.Moved? <==> id in old(store) && old(store)[id] == Pending && made[id].tenant == tenant)
      ensures !claim.Moved? ==> State() == old(State())
      ensures claim.Moved? ==>
                && claim.record == made[id] && store == old(store)[id := status]
                && log == old(log) + [Claimed(id, status)]
                && Working(old(State()), steps, if status == Released then [Deliver(id)] else RejectJobs(config, id))
    {
      ghost var s0 := State();
      RunNone(s0);
      hide Run, EnabledRun;
      claim := Review(tenant, id, status);
      steps := [];
      if claim.Moved? {
        ghost var step := if status == Released then ClaimRelease(0, tenant, id) else ClaimReject(0, tenant, id);
        RunMore(s0, [], step);
        steps := [step];
        assert [] + [step] == steps;
      }
    }

    // Moves the payload of a released message, as the worker that claimed it.
    method MovePayload(id: string, record: Record, ok: bool, ghost s0: Sys, ghost steps: seq<Step>)
      returns (delivered: bool, ghost more: seq<Step>)
      requires id in made && record == made[id] && Working(s0, steps, [Deliver(id)])
      modifies this`log
      ensures Working(s0, more, if delivered then AfterDelivery(config, id) else [])
      ensures log == old(log) + if CanGo(config, record) then [ReleaseTried(id, ok)] else []
      ensures delivered <==> record.action != Hold || (CanGo(config, record) && ok)
    {
      hide Run, EnabledRun;
      delivered := TryDeliver(id, record, ok);
      RunMore(s0, steps, Work(0, ok));
      more := steps + [Work(0, ok)];
      ghost var jobs := if delivered then AfterDelivery(config, id) else [];
      assert jobs + [] == jobs;
    }

    // Claim the status first, move the message second, announce it last.
    method Release(tenant: string, id: string, ok: bool) returns (r: Answer, ghost steps: seq<Step>)
      requires Valid()
      modifies this`store, this`log
      ensures Valid() && EnabledRun(old(State()), steps) && State() == Run(old(State()), steps)
      ensures !r.Refused? <==> id in old(store) && old(store)[id] == Pending && made[id].tenant == tenant
      ensures r.Refused? ==> State() == old(State())
      ensures !r.Refused? ==>
                var goes, waits := CanGo(config, made[id]), made[id].action == Hold;
                var gone := !waits || (goes && ok);
                && r == (if gone then Decided(made[id]) else NotDelivered(made[id]))
                && store == old(store)[id := Released]
                && log == old(log) + [Claimed(id, Released)] + (if goes then [ReleaseTried(id, ok)] else [])
                          + (if gone && config.reviewNotifier then [Told(id, Released)] else [])
    {
      ghost var s0 := State();
      RunNone(s0);
      var claim;
      claim, steps := Claim(tenant, id, Released);
      hide Run, EnabledRun, Working, CanGo;
      if !claim.Moved? {
        return Refused(claim), [];
      }
      var delivered;
      delivered, steps := MovePayload(id, claim.record, ok, s0, steps);
      if !delivered {
        WorkStops(s0, steps);
        return NotDelivered(claim.record), steps + [Stop(0)];
      }
      steps := Tell(id, Released, s0, steps);
      r := Decided(claim.record);
    }

    // Discards an outbound hold's payload; a failure changes no decision.
    method TryDiscard(id: string, record: Record, configured: bool, ok: bool)
      modifies this`log
      ensures log == old(log) + if HasPayload(record, configured) then [DiscardTried(id, ok)] else []
      ensures HasPayload(record, configured) <==> CanDrop(record, configured)
    {
      if record.action == Hold && record.payload != "" && record.direction == Outbound && configured {
        log := log + [DiscardTried(id, ok)];
      }
    }

    // Discards the payload of a rejected message, as the worker that claimed it.
    method DropPayload(id: string, record: Record, ok: bool, ghost s0: Sys, ghost steps: seq<Step>)
      returns (ghost more: seq<Step>)
      requires id in made && record == made[id] && Working(s0, steps, RejectJobs(config, id))
      modifies this`log
      ensures Working(s0, more, if config.reviewNotifier then [Announce(id, Rejected)] else [])
      ensures log == old(log) + if CanDrop(record, config.outbound) then [DiscardTried(id, ok)] else []
    {
      hide Run, EnabledRun;
      ghost var jobs := if config.reviewNotifier then [Announce(id, Rejected)] else [];
      assert RejectJobs(config, id)[0] == Discard(id, Rejected) && RejectJobs(config, id)[1..] == jobs;
      hide RejectJobs;
      TryDiscard(id, record, config.outbound, ok);
      RunMore(s0, steps, Work(0, ok));
      more := steps + [Work(0, ok)];
    }

    method Reject(tenant: string, id: string, ok: bool) returns (r: Answer, ghost steps: seq<Step>)
      requires Valid()
      modifies this`store, this`log
      ensures Valid() && EnabledRun(old(State()), steps) && State() == Run(old(State()), steps)
      ensures r.Decided? <==> id in old(store) && old(store)[id] == Pending && made[id].tenant == tenant
      ensures !r.NotDelivered? && (r.Refused? ==> State() == old(State()))
      ensures r.Decided? ==>
                && r.record == made[id] && store == old(store)[id := Rejected]
                && log == old(log) + [Claimed(id, Rejected)]
                          + (if CanDrop(made[id], config.outbound) then [DiscardTried(id, ok)] else [])
                          + (if config.reviewNotifier then [Told(id, Rejected)] else [])
    {
      ghost var s0 := State();
      RunNone(s0);
      var claim;
      claim, steps := Claim(tenant, id, Rejected);
      hide Run, EnabledRun, Working, CanDrop, RejectJobs;
      if !claim.Moved? {
        return Refused(claim), [];
      }
      steps := DropPayload(id, claim.record, ok, s0, steps);
      steps := Tell(id, Rejected, s0, steps);
      r := Decided(claim.record);
    }

    // Moves what is overdue out of PENDING, at most `limit` at a time.
    method ExpireDue(now: real, limit: nat) returns (due: seq<string>)
      requires Valid()
      modifies this`store, this`log
      ensures Valid() && Distinct(due) && |due| <= limit
      ensures forall id :: id in due ==> Due(old(State()), id, now)
      ensures |due| < limit ==> forall id :: Due(old(State()), id, now) ==> id in due
      ensures store == ClaimAll(old(store), due) && log == old(log) + Claims(due)
    {
      due := [];
      var todo := store.Keys;
      while todo != {} && |due| < limit
        invariant todo <= store.Keys && Distinct(due) && |due| <= limit
        invariant forall id :: id in due ==> Due(State(), id, now) && id !in todo
        invariant forall id :: Due(State(), id, now) ==> id in due || id in todo
        decreases todo
      {
        var id :| id in todo;
        todo := todo - {id};
        if Due(Sys(config, made, store, map[], log), id, now) {
          due := due + [id];
        }
      }
      store := ClaimAll(store, due);
      log := log + Claims(due);
    }

    method DiscardAll(due: seq<string>, oks: seq<bool>, ghost s0: Sys, ghost steps: seq<Step>, ghost tail: seq<Job>)
      returns (ghost more: seq<Step>)
      requires |oks| >= |due| && (forall id :: id in due ==> id in made) && Working(s0, steps, Discards(due) + tail)
      modifies this`log
      ensures Working(s0, more, tail) && log == old(log) + Discarded(made, config.sweepOutbound, due, oks)
    {
      more := steps;
      hide Run, EnabledRun;
      assert Discards(due)[0..] == Discards(due);
      for i := 0 to |due|
        invariant Working(s0, more, Discards(due)[i..] + tail)
        invariant log == old(log) + Discarded(made, config.sweepOutbound, due[..i], oks)
      {
        assert due[..i + 1][..i] == due[..i];
        ghost var jobs := Discards(due)[i..] + tail;
        assert jobs[0] == Discard(due[i], Expired) && jobs[1..] == Discards(due)[i + 1..] + tail;
        hide Discards;
        assert due[i] in made;
        TryDiscard(due[i], made[due[i]], config.sweepOutbound, oks[i]);
        RunMore(s0, more, Work(0, oks[i]));
        more := more + [Work(0, oks[i])];
      }
      assert Discards(due)[|due|..] + tail == tail && due[..|due|] == due;
    }

    method AnnounceAll(due: seq<string>, ghost s0: Sys, ghost steps: seq<Step>) returns (ghost more: seq<Step>)
      requires (forall id :: id in due ==> id in made) && Working(s0, steps, Announces(due))
      modifies this`log
      ensures Working(s0, more, []) && log == old(log) + Announced(made, due)
    {
      more := steps;
      hide Run, EnabledRun;
      assert Announces(due)[0..] == Announces(due);
      for i := 0 to |due|
        invariant Working(s0, more, Announces(due)[i..])
        invariant log == old(log) + Announced(made, due[..i])
      {
        assert due[..i + 1][..i] == due[..i];
        ghost var jobs := Announces(due)[i..];
        assert jobs[0] == Announce(due[i], Expired) && jobs[1..] == Announces(due)[i + 1..];
        hide Announces;
        assert due[i] in made;
        if made[due[i]].tenant != "" {
          log := log + [Told(due[i], Expired)];
        }
        RunMore(s0, more, Work(0, true));
        more := more + [Work(0, true)];
      }
      assert Announces(due)[|due|..] == [] && due[..|due|] == due;
    }

    // Claims what is due and plans the rest of the sweep.
    method StartSweep(now: real, limit: nat) returns (due: seq<string>, ghost steps: seq<Step>, ghost tail: seq<Job>)
      requires Valid()
      modifies this`store, this`log
      ensures Valid() && |due| <= limit && forall id :: id in due ==> id in made
      ensures tail == (if config.sweepNotifier then Announces(due) else [])
      ensures Working(old(State()), steps, Discards(due) + tail)
      ensures |due| < limit ==>
                forall id :: id in store && store[id] == Pending && made[id].expiresAt.Some? ==>
                  made[id].expiresAt.value > now
      ensures Distinct(due) && forall id :: id in due ==> Due(old(State()), id, now)
      ensures store == ClaimAll(old(store), due) && log == old(log) + Claims(due)
    {
      ghost var s0 := State();
      RunNone(s0);
      hide Run, EnabledRun;
      due := ExpireDue(now, limit);
      RunMore(s0, [], Sweep(0, now, due));
      steps := [Sweep(0, now, due)];
      assert [] + steps == steps;
      tail := if config.sweepNotifier then Announces(due) else [];
    }

    // One sweep: claim, then discard every payload, then tell about every message.
    method Expire(now: real, limit: nat, oks: seq<bool>)
      returns (count: nat, ghost due: seq<string>, ghost steps: seq<Step>)
      requires Valid() && |oks| >= limit
      modifies this`store, this`log
      ensures Valid() && EnabledRun(old(State()), steps) && State() == Run(old(State()), steps)
      ensures count <= limit
      ensures count < limit ==>
                forall id :: id in store && store[id] == Pending && made[id].expiresAt.Some? ==>
                  made[id].expiresAt.value > now
      ensures count == |due| && Distinct(due) && store == ClaimAll(old(store), due)
      ensures forall id :: id in due ==>
                && id in old(store) && old(store)[id] == Pending && id in made
                && made[id].expiresAt.Some? && made[id].expiresAt.value <= now
      ensures log == old(log) + Claims(due) + Discarded(made, config.sweepOutbound, due, oks)
                     + (if config.sweepNotifier then Announced(made, due) else [])
    {
      ghost var s0, tail := State(), [];
      var found;
      found, steps, tail := StartSweep(now, limit);
      due, count := found, |found|;
      hide Run, EnabledRun, Announces, Discards, Working, Claims, Discarded, Announced, ClaimAll;
      steps := DiscardAll(found, oks, s0, steps, tail);
      if config.sweepNotifier {
        steps := AnnounceAll(found, s0, steps);
      }
      WorkStops(s0, steps);
      steps := steps + [Stop(0)];
    }
  }
}
