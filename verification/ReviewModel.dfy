/**
 The review of filtered messages as a state machine. Reviewers and expiry
 sweeps run at the same time; each first claims a decision in the store, in one
 atomic step, and then works through what the decision obliges it to do: move
 or discard the payload, tell the subscribers. Any of that work may fail, and
 any worker may stop dead between two steps.
 */
module ReviewModel {
  import opened Prelude

  datatype Status = Pending | Released | Rejected | Expired {
    predicate Terminal() { !Pending? }
  }

  // The part of a filtered message that never changes once it is recorded.
  datatype Record = Record(tenant: string, direction: Direction, action: Action, payload: string,
                           expiresAt: Option<real>)

  // Which collaborators the deployment has configured.
  datatype Config = Config(outbound: bool, inbound: bool, sweepOutbound: bool, reviewNotifier: bool,
                           sweepNotifier: bool)

  // What a worker still has to do.
  datatype Job =
    | Deliver(id: string)
    | Discard(id: string, status: Status)
    | Announce(id: string, status: Status)

  datatype Event =
    | Claimed(id: string, status: Status)
    | ReleaseTried(id: string, ok: bool)
    | DiscardTried(id: string, ok: bool)
    | Told(id: string, status: Status)

  // `made` remembers every message ever recorded; `store` holds those not yet pruned.
  datatype Sys = Sys(config: Config, made: map<string, Record>, store: map<string, Status>,
                     workers: map<nat, seq<Job>>, log: seq<Event>)

  datatype Step =
    | Create(id: string, record: Record)
    | ClaimRelease(worker: nat, tenant: string, id: string)
    | ClaimReject(worker: nat, tenant: string, id: string)
    | Sweep(worker: nat, now: real, due: seq<string>)
    | Work(worker: nat, ok: bool)
    | Stop(worker: nat)
    | Prune(ids: set<string>)

  /******* The store's contract *******/

  predicate CanClaim(s: Sys, tenant: string, id: string) {
    id in s.store && s.store[id] == Pending && id in s.made && s.made[id].tenant == tenant
  }

  predicate Due(s: Sys, id: string, now: real) {
    && id in s.store && s.store[id] == Pending && id in s.made
    && s.made[id].expiresAt.Some? && s.made[id].expiresAt.value <= now
  }

  ghost predicate Distinct(ids: seq<string>) {
    forall i, j :: 0 <= i < j < |ids| ==> ids[i] != ids[j]
  }

  function ClaimAll(store: map<string, Status>, ids: seq<string>): map<string, Status> {
    map id | id in store :: if id in ids then Expired else store[id]
  }

  function Claims(ids: seq<string>): seq<Event> {
    seq(|ids|, i requires 0 <= i < |ids| => Claimed(ids[i], Expired))
  }

  function Discards(ids: seq<string>): seq<Job> {
    seq(|ids|, i requires 0 <= i < |ids| => Discard(ids[i], Expired))
  }

  function Announces(ids: seq<string>): seq<Job> {
    seq(|ids|, i requires 0 <= i < |ids| => Announce(ids[i], Expired))
  }

  /******* The work a decision obliges to *******/

  // An outbound hold with a retained payload, and someone to discard it.
  predicate HasPayload(r: Record, configured: bool) {
    r.action == Hold && r.payload != "" && r.direction == Outbound && configured
  }

  datatype Attempt = NotNeeded | Impossible | Try

  // deliver: only a hold waits for anything, and only a configured pipeline moves it.
  function DeliverPlan(c: Config, r: Record): Attempt {
    if r.action != Hold then NotNeeded
    else if r.payload == "" then Impossible
    else match r.direction
      case Outbound => if c.outbound then Try else Impossible
      case Inbound => if c.inbound then Try else Impossible
      case Other(_) => Impossible
  }

  function RejectJobs(c: Config, id: string): seq<Job> {
    [Discard(id, Rejected)] + if c.reviewNotifier then [Announce(id, Rejected)] else []
  }

  function AfterDelivery(c: Config, id: string): seq<Job> {
    if c.reviewNotifier then [Announce(id, Released)] else []
  }

  function SweepJobs(c: Config, due: seq<string>): seq<Job> {
    Discards(due) + if c.sweepNotifier then Announces(due) else []
  }

  datatype Outcome = Outcome(events: seq<Event>, rest: seq<Job>)

  // One job: what it puts on the log and what is left to do.
  function Perform(c: Config, made: map<string, Record>, jobs: seq<Job>, ok: bool): Outcome
    requires jobs != []
  {
    var job, rest := jobs[0], jobs[1..];
    if job.id !in made then Outcome([], rest)
    else
      var r := made[job.id];
      match job
      case Deliver(id) =>
        (match DeliverPlan(c, r)
         case NotNeeded => Outcome([], AfterDelivery(c, id) + rest)
         case Impossible => Outcome([], rest)
         case Try => Outcome([ReleaseTried(id, ok)], (if ok then AfterDelivery(c, id) else []) + rest))
      case Discard(id, status) =>
        var configured := if status == Expired then c.sweepOutbound else c.outbound;
        Outcome(if HasPayload(r, configured) then [DiscardTried(id, ok)] else [], rest)
      case Announce(id, status) =>
        // The sweep skips a message with no tenant rather than tell everyone.
        Outcome(if status == Expired && r.tenant == "" then [] else [Told(id, status)], rest)
  }

  /******* Steps *******/

  ghost predicate Enabled(s: Sys, step: Step) {
    match step
    case Create(id, _) => id !in s.made
    case ClaimRelease(w, tenant, id) => w !in s.workers && CanClaim(s, tenant, id)
    case ClaimReject(w, tenant, id) => w !in s.workers && CanClaim(s, tenant, id)
    case Sweep(w, now, due) => w !in s.workers && Distinct(due) && forall id :: id in due ==> Due(s, id, now)
    case Work(w, _) => w in s.workers && s.workers[w] != []
    case Stop(w) => w in s.workers
    case Prune(ids) =>
      forall id :: id in ids ==> id in s.store && id in s.made && (s.store[id].Terminal() || s.made[id].action != Hold)
  }

  ghost function Next(s: Sys, step: Step): Sys
    requires Enabled(s, step)
  {
    match step
    case Create(id, record) => s.(made := s.made[id := record], store := s.store[id := Pending])
    case ClaimRelease(w, _, id) =>
      s.(store := s.store[id := Released], log := s.log + [Claimed(id, Released)],
         workers := s.workers[w := [Deliver(id)]])
    case ClaimReject(w, _, id) =>
      s.(store := s.store[id := Rejected], log := s.log + [Claimed(id, Rejected)],
         workers := s.workers[w := RejectJobs(s.config, id)])
    case Sweep(w, _, due) =>
      s.(store := ClaimAll(s.store, due), log := s.log + Claims(due),
         workers := s.workers[w := SweepJobs(s.config, due)])
    case Work(w, ok) =>
      var o := Perform(s.config, s.made, s.workers[w], ok);
      s.(log := s.log + o.events, workers := s.workers[w := o.rest])
    case Stop(w) => s.(workers := s.workers - {w})
    case Prune(ids) => s.(store := s.store - ids)
  }

  ghost predicate EnabledRun(s: Sys, steps: seq<Step>)
    decreases |steps|, 0
  {
    steps != [] ==> EnabledRun(s, steps[..|steps| - 1]) && Enabled(Run(s, steps[..|steps| - 1]), steps[|steps| - 1])
  }

  ghost function Run(s: Sys, steps: seq<Step>): Sys
    requires EnabledRun(s, steps)
    decreases |steps|, 1
  {
    if steps == [] then s else Next(Run(s, steps[..|steps| - 1]), steps[|steps| - 1])
  }

  function Start(c: Config): Sys { Sys(c, map[], map[], map[], []) }
}
