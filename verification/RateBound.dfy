/**
 The ceiling the limiter exists for: however calls, reservations and
 cancellations are mixed, what one bucket has been charged and not given back
 never exceeds its first capacity plus what it earned since, each stretch of
 time at the rate in force when it was paid out.
 */
module RateBound {
  import opened RateModel
  import opened RateAccount

  /******* What a run has charged and granted *******/

  // The cost one call charges to `k`, negative when it gives a charge back.
  ghost function NetCharge(s: Sys, t: Tick, k: string): real
    requires t.WellFormed()
  {
    match t.op
    case Single(key, limit, cost) =>
      if key == k && !limit.Unlimited() && Allow(s.buckets, key, limit, cost, t.now, t.drops[0]).allowed
      then Want(cost) else 0.0
    case Ask(reqs, cost) =>
      if AllowAll(s.buckets, reqs, cost, t.now, t.drops).allowed then Billed(reqs, k, Want(cost)) else 0.0
    case Reserve(reqs, cost) => Billed(reqs, k, Want(cost))
    case Undo(j) => if j < |s.tickets| then -HeldFor(s.tickets[j], k) else 0.0
    case Forget(_) => 0.0
  }

  // The cost charged to `k` over a run and not cancelled.
  ghost function Uncancelled(s: Sys, ticks: seq<Tick>, k: string): real
    requires WellFormedRun(ticks)
  {
    if ticks == [] then 0.0
    else
      var before := ticks[..|ticks| - 1];
      Uncancelled(s, before, k) + NetCharge(Run(s, before), ticks[|ticks| - 1], k)
  }

  // Calls on `k` carry a cost their limit could hold, and `k` is neither
  // evicted nor forgotten.
  ghost predicate Steady(t: Tick, k: string) {
    && t.WellFormed()
    && NeverDropped(t.drops, k)
    && match t.op
       case Single(key, l, cost) => key == k && !l.Unlimited() ==> Want(cost) <= l.Capacity()
       case Ask(reqs, cost) => SteadyRequests(reqs, k, Want(cost))
       case Reserve(reqs, cost) => SteadyRequests(reqs, k, Want(cost))
       case Undo(_) => true
       case Forget(key) => key != k
  }

  ghost predicate SteadyRun(ticks: seq<Tick>, k: string) { forall t :: t in ticks ==> Steady(t, k) }

  function TickMeter(x: Meter, t: Tick, k: string): Meter {
    match t.op
    case Single(key, l, _) => if key == k && !l.Unlimited() then Metered(x, l, t.now) else x
    case Ask(reqs, _) => MeteredBy(x, reqs, k, t.now)
    case Reserve(reqs, _) => MeteredBy(x, reqs, k, t.now)
    case _ => x
  }

  function RunMeter(ticks: seq<Tick>, k: string): Meter {
    if ticks == [] then Unborn else TickMeter(RunMeter(ticks[..|ticks| - 1], k), ticks[|ticks| - 1], k)
  }

  /******* Whole runs *******/

  // Until it is addressed, `k` has no bucket, no charge and no reservation.
  ghost predicate Untouched(s: Sys, k: string) {
    && k !in s.buckets
    && forall j, h :: 0 <= j < |s.tickets| && h in s.tickets[j] ==> h.key != k
  }

  // The whole account: what was charged and not given back, against the meter.
  ghost predicate Ledger(s: Sys, k: string, x: Meter, spent: real) {
    Account(s.buckets, k, x, spent) && (k !in s.buckets ==> Untouched(s, k))
  }

  lemma {:induction false} HeldOnlyIfNamed(held: seq<Held>, k: string)
    requires forall h :: h in held ==> h.key != k
    ensures HeldFor(held, k) == 0.0
  {
    if held == [] {
    } else {
      HeldOnlyIfNamed(held[..|held| - 1], k);
    }
  }

  lemma {:induction false} ReserveAllElsewhere(m: Buckets, reqs: seq<Request>, want: real, now: real,
                                               drops: seq<set<string>>, k: string)
    requires |drops| == |reqs| && !Names(reqs, k)
    ensures forall h :: h in ReserveAll(m, reqs, want, now, drops).held ==> h.key != k
  {
    if reqs == [] {
    } else {
      var n := |reqs| - 1;
      NamesLast(reqs, k);
      ReserveAllElsewhere(m, reqs[..n], want, now, drops[..n], k);
      hide Names, Restores, DelayAfter, Debited, Lookup;
    }
  }

  lemma {:induction false} NothingAssessed(m: Buckets, k: string, want: real, x: Meter, spent: real)
    requires Account(m, k, x, spent)
    ensures Assessed(Unassessed(m), k, want, x, spent, 0.0)
  {
    hide Account;
  }

  lemma {:induction false} SingleIs(s: Sys, t: Tick, k: string, x: Meter)
    requires t.WellFormed() && t.op.Single? && !t.op.limit.Unlimited()
    ensures var a := Settle(AssessOne(Unassessed(s.buckets), t.op.key, t.op.limit, Want(t.op.cost), t.now, t.drops[0]));
            && Step(s, t) == s.(buckets := a.buckets)
            && NetCharge(s, t, k) == (if a.allowed then if t.op.key == k then Want(t.op.cost) else 0.0 else 0.0)
            && TickMeter(x, t, k) == if t.op.key == k then Metered(x, t.op.limit, t.now) else x
  {
    hide AssessOne, Settle, Metered;
  }

  lemma {:induction false} SteadySingle(t: Tick, k: string)
    requires t.op.Single? && Steady(t, k)
    ensures t.WellFormed() && k !in t.drops[0]
    ensures t.op.key == k && !t.op.limit.Unlimited() ==> Want(t.op.cost) <= t.op.limit.Capacity()
  {
    hide Want, Limit.Capacity;
    assert t.drops[0] in t.drops;
  }

  lemma {:induction false} AccountIsLedger(s: Sys, t: Tick, k: string, x: Meter, spent: real, y: Meter, after: real)
    requires t.WellFormed() && t.op.Single? && Ledger(s, k, x, spent) && Account(Step(s, t).buckets, k, y, after)
    requires k in s.buckets ==> k in Step(s, t).buckets
    ensures Ledger(Step(s, t), k, y, after)
  {
    hide Account, Allow;
  }

  lemma {:induction false} LimitedCharges(s: Sys, t: Tick, k: string, x: Meter, spent: real)
    requires t.WellFormed() && t.op.Single? && !t.op.limit.Unlimited() && k !in t.drops[0]
             && Account(s.buckets, k, x, spent)
    requires t.op.key == k ==> Want(t.op.cost) <= t.op.limit.Capacity()
    ensures Account(Step(s, t).buckets, k, TickMeter(x, t, k), spent + NetCharge(s, t, k))
    ensures k in s.buckets ==> k in Step(s, t).buckets
  {
    hide Account, AssessOne, Assessed, Settle, Metered, Limit.Capacity, Step, NetCharge, TickMeter, PendingFor, Holds;
    var key, l, want, drop := t.op.key, t.op.limit, Want(t.op.cost), t.drops[0];
    var none, y, bill := Unassessed(s.buckets), if key == k then Metered(x, l, t.now) else x,
        if key == k then want else 0.0;
    NothingAssessed(s.buckets, k, want, x, spent);
    AssessOneKeeps(none, key, l, want, t.now, drop, k, x, spent, 0.0);
    SettleCharges(AssessOne(none, key, l, want, t.now, drop), k, want, y, spent, bill);
    SingleIs(s, t, k, x);
  }

  lemma {:induction false} SingleCharges(s: Sys, t: Tick, k: string, x: Meter, spent: real)
    requires t.op.Single? && Steady(t, k) && Ledger(s, k, x, spent)
    ensures Ledger(Step(s, t), k, TickMeter(x, t, k), spent + NetCharge(s, t, k))
  {
    SteadySingle(t, k);
    hide Account, Steady, Limit.Capacity;
    if t.op.limit.Unlimited() {
    } else {
      hide Step, NetCharge, TickMeter, Untouched;
      LimitedCharges(s, t, k, x, spent);
      AccountIsLedger(s, t, k, x, spent, TickMeter(x, t, k), spent + NetCharge(s, t, k));
    }
  }

  lemma {:induction false} AskCharges(s: Sys, t: Tick, k: string, x: Meter, spent: real)
    requires t.op.Ask? && Steady(t, k) && Ledger(s, k, x, spent)
    ensures Ledger(Step(s, t), k, TickMeter(x, t, k), spent + NetCharge(s, t, k))
  {
    var reqs, want := t.op.reqs, Want(t.op.cost);
    hide Account, Assessed, AssessAll, Settle, MeteredBy, Billed;
    AssessAllKeeps(s.buckets, reqs, want, t.now, t.drops, k, x, spent);
    SettleCharges(AssessAll(s.buckets, reqs, want, t.now, t.drops), k, want, MeteredBy(x, reqs, k, t.now), spent,
                  Billed(reqs, k, want));
  }

  lemma {:induction false} ReserveCharges(s: Sys, t: Tick, k: string, x: Meter, spent: real)
    requires t.op.Reserve? && Steady(t, k) && Ledger(s, k, x, spent)
    ensures Ledger(Step(s, t), k, TickMeter(x, t, k), spent + NetCharge(s, t, k))
    ensures Addresses(t, k) ==> k in Step(s, t).buckets && Covers(DelayTold(s, t), Step(s, t).buckets[k])
  {
    var reqs, want := t.op.reqs, Want(t.op.cost);
    ReserveAllCharges(s.buckets, reqs, want, t.now, t.drops, k, x, spent);
    hide Account, ReserveAll, MeteredBy, Billed, Names, Covers;
    if !Names(reqs, k) { ReserveAllElsewhere(s.buckets, reqs, want, t.now, t.drops, k); }
  }

  lemma {:induction false} UndoCharges(s: Sys, t: Tick, k: string, x: Meter, spent: real)
    requires t.op.Undo? && Steady(t, k) && Ledger(s, k, x, spent)
    ensures Ledger(Step(s, t), k, TickMeter(x, t, k), spent + NetCharge(s, t, k))
  {
    var j := t.op.ticket;
    if j < |s.tickets| {
      if k in s.buckets {
        CancelCredits(s.buckets, s.tickets[j], k, x, spent);
      } else {
        HeldOnlyIfNamed(s.tickets[j], k);
      }
      hide Holds, Cancel, HeldFor;
    }
  }

  // One call moves the account by its net charge and the meter by its time.
  lemma {:induction false} StepCharges(s: Sys, t: Tick, k: string, x: Meter, spent: real)
    requires Steady(t, k) && Ledger(s, k, x, spent)
    ensures Ledger(Step(s, t), k, TickMeter(x, t, k), spent + NetCharge(s, t, k))
  {
    match t.op
    case Single(_, _, _) => SingleCharges(s, t, k, x, spent);
    case Ask(_, _) => AskCharges(s, t, k, x, spent);
    case Reserve(_, _) => ReserveCharges(s, t, k, x, spent);
    case Undo(_) => UndoCharges(s, t, k, x, spent);
    case Forget(_) => hide Holds;
  }

  ghost predicate Addresses(t: Tick, k: string) {
    match t.op
    case Single(key, limit, _) => key == k && !limit.Unlimited()
    case Ask(reqs, _) => Names(reqs, k)
    case Reserve(reqs, _) => Names(reqs, k)
    case _ => false
  }

  /**
   The rate bound over every run. Start from any limiter that holds nothing for
   `k`; let any calls follow, in which `k` is asked for under limits that may
   change from call to call, with costs the limit of the call could hold, and
   is neither evicted nor forgotten. Then the uncancelled cost plus the balance
   is at most what the meter grants. The clock may even step back.
   */
  lemma {:induction false} RateBoundOverRuns(s: Sys, ticks: seq<Tick>, k: string)
    requires Untouched(s, k) && SteadyRun(ticks, k)
    ensures WellFormedRun(ticks)
    ensures Ledger(Run(s, ticks), k, RunMeter(ticks, k), Uncancelled(s, ticks, k))
  {
    assert WellFormedRun(ticks) by {
      forall t | t in ticks ensures t.WellFormed() { assert Steady(t, k); }
    }
    if ticks == [] {
    } else {
      var before, last := ticks[..|ticks| - 1], ticks[|ticks| - 1];
      assert ticks == before + [last];
      RateBoundOverRuns(s, before, k);
      hide Ledger, Steady, Step, NetCharge, TickMeter;
      StepCharges(Run(s, before), last, k, RunMeter(before, k), Uncancelled(s, before, k));
    }
  }

  // The delay a reserving call reports.
  ghost function DelayTold(s: Sys, t: Tick): real
    requires t.WellFormed() && t.op.Reserve?
  {
    ReserveAll(s.buckets, t.op.reqs, Want(t.op.cost), t.now, t.drops).delay
  }

  ghost function LastTick(ticks: seq<Tick>): Tick
    requires ticks != []
  {
    ticks[|ticks| - 1]
  }

  /**
   What a reservation's delay is worth, under limits that may have changed.
   When the last call of the run reserves on `k`, everything charged so far and
   not cancelled fits in what the meter grants by then and, at the rate then in
   force, over the delay.
   */
  lemma {:induction false} ReservedSendFitsMeter(s: Sys, ticks: seq<Tick>, k: string)
    requires Untouched(s, k) && SteadyRun(ticks, k)
    requires ticks != [] && LastTick(ticks).op.Reserve? && Addresses(LastTick(ticks), k)
    ensures WellFormedRun(ticks) && LastTick(ticks).WellFormed() && RunMeter(ticks, k).Running?
    ensures var delay := DelayTold(Run(s, ticks[..|ticks| - 1]), LastTick(ticks));
            Uncancelled(s, ticks, k) <= RunMeter(ticks, k).granted + delay * RunMeter(ticks, k).limit.PerSec()
  {
    RateBoundOverRuns(s, ticks, k);
    var before, last := ticks[..|ticks| - 1], LastTick(ticks);
    assert ticks == before + [last];
    RateBoundOverRuns(s, before, k);
    ReserveCharges(Run(s, before), last, k, RunMeter(before, k), Uncancelled(s, before, k));
    assert Run(s, ticks) == Step(Run(s, before), last);
    var b := Run(s, ticks).buckets[k];
    hide Run, RunMeter, Uncancelled, Step, DelayTold, Limit.PerSec, Limit.Capacity;
    assert Holds(b, RunMeter(ticks, k), Uncancelled(s, ticks, k));
  }

  /******* Under one limit *******/

  // What a bucket created at `born` may have handed out by `at`.
  function Allowance(limit: Limit, born: real, at: real): real {
    limit.Capacity() + limit.PerSec() * (at - born)
  }

  lemma {:induction false} AllowanceGrows(limit: Limit, born: real, from: real, to: real)
    requires !limit.Unlimited()
    ensures Allowance(limit, born, to) == Allowance(limit, born, from) + (to - from) * limit.PerSec()
    ensures Allowance(limit, born, born) == limit.Capacity()
    ensures from <= to ==> Allowance(limit, born, from) <= Allowance(limit, born, to)
  {
    var rate := limit.PerSec();
    assert rate * (to - born) == rate * (from - born) + (to - from) * rate;
    if from <= to { assert (to - from) * rate >= 0.0; }
  }

  // Whatever asks for `k` names this limit.
  ghost predicate Fixed(t: Tick, k: string, limit: Limit) {
    match t.op
    case Single(key, l, _) => key == k && !l.Unlimited() ==> l == limit
    case Ask(reqs, _) => FixedRequests(reqs, k, limit)
    case Reserve(reqs, _) => FixedRequests(reqs, k, limit)
    case _ => true
  }

  ghost predicate FixedRequests(reqs: seq<Request>, k: string, limit: Limit) {
    forall r :: r in reqs && r.Charges() && r.key == k ==> r.limit == limit
  }

  ghost predicate FixedRun(ticks: seq<Tick>, k: string, limit: Limit) { forall t :: t in ticks ==> Fixed(t, k, limit) }

  // When the bucket of `k` was created: at the first call that addresses it.
  ghost predicate BornAt(ticks: seq<Tick>, k: string, born: real) {
    exists i :: 0 <= i < |ticks| && Addresses(ticks[i], k) && ticks[i].now == born
      && forall j :: 0 <= j < i ==> !Addresses(ticks[j], k)
  }

  ghost predicate Unaddressed(ticks: seq<Tick>, k: string) { forall t :: t in ticks ==> !Addresses(t, k) }

  // A meter that has run under one limit since `born`.
  ghost predicate SteadyMeter(x: Meter, limit: Limit, born: real) {
    x.Running? && x.limit == limit && born <= x.refilled && x.granted == Allowance(limit, born, x.refilled)
  }

  lemma {:induction false} MeteredSteadily(x: Meter, limit: Limit, born: real, now: real)
    requires !limit.Unlimited() && ((x.Unborn? && born == now) || SteadyMeter(x, limit, born))
    ensures SteadyMeter(Metered(x, limit, now), limit, born)
  {
    match x
    case Unborn => AllowanceGrows(limit, born, now, now);
    case Running(_, at, _) => AllowanceGrows(limit, born, at, now);
    hide Limit.Capacity, Limit.PerSec, Allowance;
  }

  lemma {:induction false} RequestsMeterSteadily(x: Meter, reqs: seq<Request>, k: string, limit: Limit, born: real,
                                                 now: real)
    requires !limit.Unlimited() && FixedRequests(reqs, k, limit)
    requires (x.Unborn? && born == now) || SteadyMeter(x, limit, born)
    ensures var y := MeteredBy(x, reqs, k, now); y == x || SteadyMeter(y, limit, born)
    ensures Names(reqs, k) ==> SteadyMeter(MeteredBy(x, reqs, k, now), limit, born)
  {
    if reqs == [] {
    } else {
      var n := |reqs| - 1;
      assert reqs[n] in reqs;
      RequestsMeterSteadily(x, reqs[..n], k, limit, born, now);
      NamesLast(reqs, k);
      hide SteadyMeter, Metered, Names;
      if reqs[n].Charges() && reqs[n].key == k { MeteredSteadily(MeteredBy(x, reqs[..n], k, now), limit, born, now); }
    }
  }

  lemma {:induction false} TickMetersSteadily(x: Meter, t: Tick, k: string, limit: Limit, born: real)
    requires !limit.Unlimited() && Fixed(t, k, limit)
    requires SteadyMeter(x, limit, born) || (x.Unborn? && born == t.now && Addresses(t, k))
    ensures SteadyMeter(TickMeter(x, t, k), limit, born)
  {
    match t.op
    case Single(key, l, _) => if key == k && !l.Unlimited() { MeteredSteadily(x, limit, born, t.now); }
    case Ask(reqs, _) => RequestsMeterSteadily(x, reqs, k, limit, born, t.now);
    case Reserve(reqs, _) => RequestsMeterSteadily(x, reqs, k, limit, born, t.now);
    case _ =>
  }

  lemma {:induction false} UnaddressedUnborn(ticks: seq<Tick>, k: string)
    requires Unaddressed(ticks, k)
    ensures RunMeter(ticks, k) == Unborn
  {
    if ticks == [] {
    } else {
      var last := ticks[|ticks| - 1];
      UnaddressedUnborn(ticks[..|ticks| - 1], k);
      if last.op.Ask? || last.op.Reserve? { MeteredOnlyIfNamed(Unborn, last.op.reqs, k, last.now); }
      assert last in ticks;
    }
  }

  // Under one limit the meter is the allowance for the age of the bucket.
  lemma {:induction false} MeterIsAllowance(ticks: seq<Tick>, k: string, limit: Limit, born: real)
    requires !limit.Unlimited() && FixedRun(ticks, k, limit) && BornAt(ticks, k, born)
    ensures SteadyMeter(RunMeter(ticks, k), limit, born)
  {
    var before, last := ticks[..|ticks| - 1], ticks[|ticks| - 1];
    assert ticks == before + [last];
    var i :| 0 <= i < |ticks| && Addresses(ticks[i], k) && ticks[i].now == born
             && forall j :: 0 <= j < i ==> !Addresses(ticks[j], k);
    hide Addresses, SteadyMeter;
    if i == |ticks| - 1 {
      UnaddressedUnborn(before, k);
    } else {
      assert before[i] == ticks[i];
      assert BornAt(before, k, born);
      MeterIsAllowance(before, k, limit, born);
    }
    TickMetersSteadily(RunMeter(before, k), last, k, limit, born);
  }

  // The bound of one limit: uncancelled cost plus balance is at most the
  // capacity plus the rate times the age of the bucket.
  lemma {:induction false} RateBoundAtOneLimit(s: Sys, ticks: seq<Tick>, k: string, limit: Limit, born: real)
    requires !limit.Unlimited() && Untouched(s, k)
    requires SteadyRun(ticks, k) && FixedRun(ticks, k, limit) && BornAt(ticks, k, born)
    ensures WellFormedRun(ticks) && k in Run(s, ticks).buckets
    ensures var b := Run(s, ticks).buckets[k];
            b.perSec == limit.PerSec() && born <= b.refilled
              && Uncancelled(s, ticks, k) + b.tokens <= Allowance(limit, born, b.refilled)
  {
    RateBoundOverRuns(s, ticks, k);
    MeterIsAllowance(ticks, k, limit, born);
    hide Run, RunMeter, Uncancelled, Allowance, Limit.PerSec, Limit.Capacity;
  }

  /******* Under a clock that does not step back *******/

  lemma {:induction false} AssessAllClock(m: Buckets, reqs: seq<Request>, want: real, now: real,
                                          drops: seq<set<string>>)
    requires |drops| == |reqs| && RefilledBy(m, now)
    ensures RefilledBy(AssessAll(m, reqs, want, now, drops).buckets, now)
  {
    if reqs == [] {
    } else {
      AssessAllClock(m, reqs[..|reqs| - 1], want, now, drops[..|reqs| - 1]);
    }
  }

  lemma {:induction false} ApplyAllClock(m: Buckets, ps: seq<Pending>, now: real)
    requires (forall p :: p in ps ==> p.key in m) && RefilledBy(m, now)
    ensures RefilledBy(ApplyAll(m, ps), now)
  {
    if ps == [] {
    } else {
      ApplyAllClock(m, ps[..|ps| - 1], now);
    }
  }

  lemma {:induction false} ReserveAllClock(m: Buckets, reqs: seq<Request>, want: real, now: real,
                                           drops: seq<set<string>>)
    requires |drops| == |reqs| && RefilledBy(m, now)
    ensures RefilledBy(ReserveAll(m, reqs, want, now, drops).buckets, now)
  {
    if reqs == [] {
    } else {
      ReserveAllClock(m, reqs[..|reqs| - 1], want, now, drops[..|reqs| - 1]);
    }
  }

  lemma {:induction false} CancelClock(m: Buckets, held: seq<Held>, now: real)
    requires RefilledBy(m, now)
    ensures RefilledBy(Cancel(m, held), now)
  {
    if held == [] {
    } else {
      CancelClock(m, held[..|held| - 1], now);
    }
  }

  lemma {:induction false} StepClock(s: Sys, t: Tick)
    requires t.WellFormed() && RefilledBy(s.buckets, t.now)
    ensures RefilledBy(Step(s, t).buckets, t.now)
  {
    match t.op
    case Single(key, limit, cost) =>
      if !limit.Unlimited() {
        var a := AssessOne(Unassessed(s.buckets), key, limit, Want(cost), t.now, t.drops[0]);
        ApplyAllClock(a.buckets, a.pending, t.now);
      }
    case Ask(reqs, cost) =>
      var a := AssessAll(s.buckets, reqs, Want(cost), t.now, t.drops);
      AssessAllClock(s.buckets, reqs, Want(cost), t.now, t.drops);
      ApplyAllClock(a.buckets, a.pending, t.now);
    case Reserve(reqs, cost) => ReserveAllClock(s.buckets, reqs, Want(cost), t.now, t.drops);
    case Undo(j) => if j < |s.tickets| { CancelClock(s.buckets, s.tickets[j], t.now); }
    case Forget(_) =>
  }

  lemma {:induction false} RunClock(s: Sys, ticks: seq<Tick>)
    requires WellFormedRun(ticks) && Monotone(ticks) && ticks != []
    requires RefilledBy(s.buckets, ticks[0].now)
    ensures RefilledBy(Run(s, ticks).buckets, ticks[|ticks| - 1].now)
  {
    var before := ticks[..|ticks| - 1];
    if before == [] {
    } else {
      RunClock(s, before);
    }
    StepClock(Run(s, before), ticks[|ticks| - 1]);
  }

  // The bound in wall-clock terms, for a clock that does not step back.
  lemma {:induction false} RateBoundByClock(s: Sys, ticks: seq<Tick>, k: string, limit: Limit, born: real)
    requires !limit.Unlimited() && Untouched(s, k)
    requires SteadyRun(ticks, k) && FixedRun(ticks, k, limit) && BornAt(ticks, k, born) && Monotone(ticks)
    requires RefilledBy(s.buckets, ticks[0].now)
    ensures WellFormedRun(ticks) && k in Run(s, ticks).buckets
    ensures Uncancelled(s, ticks, k) <= Allowance(limit, born, LastTick(ticks).now) - Run(s, ticks).buckets[k].tokens
  {
    RateBoundAtOneLimit(s, ticks, k, limit, born);
    RunClock(s, ticks);
    AllowanceGrows(limit, born, Run(s, ticks).buckets[k].refilled, LastTick(ticks).now);
    hide Run, Uncancelled, Allowance;
  }

  lemma {:induction false} MeterBehindClock(s: Sys, ticks: seq<Tick>, k: string)
    requires Untouched(s, k) && SteadyRun(ticks, k) && Monotone(ticks) && ticks != []
             && RefilledBy(s.buckets, ticks[0].now)
    ensures RunMeter(ticks, k).Running? ==> RunMeter(ticks, k).refilled <= LastTick(ticks).now
  {
    RateBoundOverRuns(s, ticks, k);
    RunClock(s, ticks);
    hide Run, RunMeter, Uncancelled, Limit.PerSec, Limit.Capacity;
  }

  lemma {:induction false} PaceToSend(limit: Limit, born: real, at: real, now: real, delay: real, spent: real)
    requires !limit.Unlimited() && at <= now && spent <= Allowance(limit, born, at) + delay * limit.PerSec()
    ensures spent <= Allowance(limit, born, now + delay)
  {
    AllowanceGrows(limit, born, at, now);
    AllowanceGrows(limit, born, now, now + delay);
    hide Allowance, Limit.PerSec;
  }

  /**
   What a reservation's delay is worth under one limit. When its send goes out
   exactly when it was told to, everything charged so far and not cancelled
   fits in the capacity plus the rate times the time from creation to that send.
   */
  lemma {:induction false} ReservedSendStaysWithinRate(s: Sys, ticks: seq<Tick>, k: string, limit: Limit, born: real)
    requires !limit.Unlimited() && Untouched(s, k)
    requires SteadyRun(ticks, k) && FixedRun(ticks, k, limit) && BornAt(ticks, k, born) && Monotone(ticks)
    requires RefilledBy(s.buckets, ticks[0].now)
    requires LastTick(ticks).op.Reserve? && Addresses(LastTick(ticks), k)
    ensures WellFormedRun(ticks) && LastTick(ticks).WellFormed()
    ensures var sendAt := LastTick(ticks).now + DelayTold(Run(s, ticks[..|ticks| - 1]), LastTick(ticks));
            Uncancelled(s, ticks, k) <= Allowance(limit, born, sendAt)
  {
    assert ticks != [];
    hide Run, Uncancelled, Allowance, RunMeter, DelayTold, Limit.PerSec, SteadyRun, FixedRun, BornAt, Monotone,
         Addresses, Untouched;
    ReservedSendFitsMeter(s, ticks, k);
    MeterIsAllowance(ticks, k, limit, born);
    MeterBehindClock(s, ticks, k);
    PaceToSend(limit, born, RunMeter(ticks, k).refilled, LastTick(ticks).now,
               DelayTold(Run(s, ticks[..|ticks| - 1]), LastTick(ticks)), Uncancelled(s, ticks, k));
  }

  /******* Why costs must fit *******/

  ghost predicate Bounded(s: Sys, ticks: seq<Tick>, k: string)
    requires WellFormedRun(ticks)
  {
    Ledger(Run(s, ticks), k, RunMeter(ticks, k), Uncancelled(s, ticks, k))
  }

  // One call for `k` on an account that has spent all it was granted keeps
  // within the grant exactly when the cost fits the capacity.
  lemma {:induction false} OversizedCostBreaksBound(b: Bucket, x: Meter, want: real, spent: real)
    requires Holds(b, x, spent) && spent + b.tokens == x.granted && want >= 0.0
    ensures var d := Assess(b, want);
            Holds(Applied(b, d), x, spent + if d.Refuse? then 0.0 else want) <==> want <= x.limit.Capacity()
    ensures want > x.limit.Capacity() ==> (Holds(Applied(b, Assess(b, want)), x, spent) <==> b.tokens >= 0.0)
  {
    hide Limit.Capacity, WaitFor;
  }

  lemma {:induction false} FirstCall(s: Sys, k: string, limit: Limit, cost: int, now: real)
    requires !limit.Unlimited() && Untouched(s, k)
    ensures var t := Tick(Single(k, limit, cost), now, [{}]);
            var b := Refilled(Fresh(limit, now), now);
            && k in Step(s, t).buckets
            && Step(s, t).buckets[k] == Applied(b, Assess(b, Want(cost)))
            && NetCharge(s, t, k) == if Assess(b, Want(cost)).Refuse? then 0.0 else Want(cost)
  {
    var want := Want(cost);
    hide Limit.Capacity, Limit.PerSec, Fresh, Refilled, Assess, Want;
    var a := AssessOne(Unassessed(s.buckets), k, limit, want, now, {});
    assert a.pending[..0] == [] && ApplyAll(a.buckets, []) == a.buckets;
  }

  // The very first call of a limiter shows it: its run is bounded exactly when
  // its cost fits.
  lemma {:induction false} FirstCostDecides(s: Sys, k: string, limit: Limit, cost: int, now: real)
    requires !limit.Unlimited() && Untouched(s, k)
    ensures Bounded(s, [Tick(Single(k, limit, cost), now, [{}])], k) <==> Want(cost) <= limit.Capacity()
  {
    var t := Tick(Single(k, limit, cost), now, [{}]);
    FirstCall(s, k, limit, cost, now);
    FreshHolds(limit, now);
    var b, x := Refilled(Fresh(limit, now), now), Metered(Unborn, limit, now);
    assert b.tokens == x.granted;
    OversizedCostBreaksBound(b, x, Want(cost), 0.0);
    assert [t][..0] == [];
    assert Run(s, []) == s && Uncancelled(s, [], k) == 0.0 && RunMeter([], k) == Unborn;
    assert Run(s, [t]) == Step(s, t) && Uncancelled(s, [t], k) == NetCharge(s, t, k) && RunMeter([t], k) == x;
    hide Run, Uncancelled, RunMeter, Step, NetCharge, Holds, Fresh, Refilled, Assess;
  }

  // Every call for `k` names this limit and this cost.
  ghost predicate Charging(ticks: seq<Tick>, k: string, limit: Limit, cost: int) {
    forall t :: t in ticks ==>
      && t.WellFormed() && NeverDropped(t.drops, k) && Fixed(t, k, limit)
      && (Addresses(t, k) ==> t.op.cost == cost) && t.op != Forget(k)
  }

  ghost predicate AllBounded(k: string, limit: Limit, cost: int) {
    forall s, ticks :: Untouched(s, k) && Charging(ticks, k, limit, cost) ==>
      WellFormedRun(ticks) && Bounded(s, ticks, k)
  }

  lemma {:induction false} FittingIsBounded(k: string, limit: Limit, cost: int)
    requires Want(cost) <= limit.Capacity()
    ensures AllBounded(k, limit, cost)
  {
    hide Limit.Capacity, Want;
    forall s, ticks | Untouched(s, k) && Charging(ticks, k, limit, cost)
      ensures WellFormedRun(ticks) && Bounded(s, ticks, k)
    {
      hide Charging, Untouched, SteadyRun;
      FittingIsSteady(ticks, k, limit, cost);
      RateBoundOverRuns(s, ticks, k);
    }
  }

  lemma {:induction false} OversizedIsNot(k: string, limit: Limit, cost: int)
    requires !limit.Unlimited() && Want(cost) > limit.Capacity()
    ensures !AllBounded(k, limit, cost)
  {
    hide Limit.Capacity, Want, Bounded;
    var s, t := Sys(map[], []), Tick(Single(k, limit, cost), 0.0, [{}]);
    FirstCostDecides(s, k, limit, cost, 0.0);
    assert Untouched(s, k) && Charging([t], k, limit, cost) && WellFormedRun([t]) && !Bounded(s, [t], k);
  }

  /**
   The runs that charge one cost under one limit are all bounded if and only if
   the capacity could hold the cost.
   */
  lemma {:induction false} BoundedIffCostFits(k: string, limit: Limit, cost: int)
    requires !limit.Unlimited()
    ensures AllBounded(k, limit, cost) <==> Want(cost) <= limit.Capacity()
  {
    hide AllBounded, Want, Limit.Capacity;
    if Want(cost) <= limit.Capacity() { FittingIsBounded(k, limit, cost); } else { OversizedIsNot(k, limit, cost); }
  }

  lemma {:induction false} FittingIsSteady(ticks: seq<Tick>, k: string, limit: Limit, cost: int)
    requires Charging(ticks, k, limit, cost) && Want(cost) <= limit.Capacity()
    ensures SteadyRun(ticks, k)
  {
    hide Limit.Capacity, Want;
    forall t | t in ticks ensures Steady(t, k) {
      if t.op.Ask? || t.op.Reserve? {
        forall r | r in t.op.reqs && r.Charges() && r.key == k ensures Want(t.op.cost) <= r.limit.Capacity() {
          assert Names(t.op.reqs, k);
        }
      }
    }
  }
}
