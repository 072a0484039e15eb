/**
 The ceiling of `RateBound`, life by life. A bucket that was evicted or
 forgotten starts over when its key is next asked for, so a run is taken up
 from any point at which the key has no bucket. From there on the ceiling
 holds up to one thing: a reservation made in an earlier life and cancelled in
 this one pays its tokens into a bucket that was never charged for them.
 */
module RateLives {
  import opened RateModel
  import opened RateAccount
  import opened RateBound
  import RateSpare

  /******* One life of a bucket *******/

  // Gives up a reservation made before this life began: they are the first `n`.
  ghost predicate Stale(t: Tick, n: nat) { t.op.Undo? && t.op.ticket < n }

  // What one call charges to this life.
  ghost function LifeCharge(s: Sys, t: Tick, k: string, n: nat): real
    requires t.WellFormed()
  {
    if Stale(t, n) then 0.0 else NetCharge(s, t, k)
  }

  // What one call pays back to this life for a charge to an earlier one.
  ghost function Windfall(s: Sys, t: Tick, k: string, n: nat): real {
    if Stale(t, n) && t.op.ticket < |s.tickets| && k in s.buckets then HeldFor(s.tickets[t.op.ticket], k) else 0.0
  }

  // The cost charged since `s` and not cancelled.
  ghost function LifeSpent(s: Sys, ticks: seq<Tick>, k: string): real
    requires WellFormedRun(ticks)
  {
    if ticks == [] then 0.0
    else
      var before := ticks[..|ticks| - 1];
      LifeSpent(s, before, k) + LifeCharge(Run(s, before), ticks[|ticks| - 1], k, |s.tickets|)
  }

  ghost function Windfalls(s: Sys, ticks: seq<Tick>, k: string): real
    requires WellFormedRun(ticks)
  {
    if ticks == [] then 0.0
    else
      var before := ticks[..|ticks| - 1];
      Windfalls(s, before, k) + Windfall(Run(s, before), ticks[|ticks| - 1], k, |s.tickets|)
  }

  // The account of this life; until it is opened no reservation of this life
  // holds anything.
  ghost predicate LifeLedger(s: Sys, k: string, n: nat, x: Meter, spent: real) {
    && Account(s.buckets, k, x, spent)
    && (k !in s.buckets ==> forall j, h :: n <= j < |s.tickets| && h in s.tickets[j] ==> h.key != k)
  }

  lemma {:induction false} RunningStays(x: Meter, t: Tick, k: string)
    requires x.Running?
    ensures TickMeter(x, t, k).Running?
  {
    match t.op
    case Ask(reqs, _) => MeteredOnlyIfNamed(x, reqs, k, t.now);
    case Reserve(reqs, _) => MeteredOnlyIfNamed(x, reqs, k, t.now);
    case _ =>
  }

  // Only its cancellations look at the reservations a limiter has made.
  lemma {:induction false} TicketsUnread(s: Sys, t: Tick, k: string)
    requires t.WellFormed() && !t.op.Undo?
    ensures var bare := Sys(s.buckets, []);
            && Step(s, t).buckets == Step(bare, t).buckets && NetCharge(s, t, k) == NetCharge(bare, t, k)
            && Step(s, t).tickets == s.tickets + Step(bare, t).tickets
  {
    hide Allow, AllowAll, ReserveAll, Billed;
    if t.op.Reserve? {
      assert [] + [ReserveAll(s.buckets, t.op.reqs, Want(t.op.cost), t.now, t.drops).held] ==
             Step(Sys(s.buckets, []), t).tickets;
    }
  }

  lemma {:induction false} LifeCall(s: Sys, t: Tick, k: string, n: nat, x: Meter, spent: real)
    requires Steady(t, k) && !t.op.Undo? && LifeLedger(s, k, n, x, spent)
    ensures LifeLedger(Step(s, t), k, n, TickMeter(x, t, k), spent + NetCharge(s, t, k))
  {
    var bare := Sys(s.buckets, []);
    TicketsUnread(s, t, k);
    if x.Running? { RunningStays(x, t, k); }
    hide Steady, Step, NetCharge, TickMeter, Holds;
    StepCharges(bare, t, k, x, spent);
    assert k !in Step(s, t).buckets ==> k !in s.buckets;
  }

  lemma {:induction false} LifeUndo(s: Sys, t: Tick, k: string, n: nat, x: Meter, spent: real)
    requires t.WellFormed() && t.op.Undo? && LifeLedger(s, k, n, x, spent)
    ensures LifeLedger(Step(s, t), k, n, x, spent + LifeCharge(s, t, k, n) - Windfall(s, t, k, n))
  {
    var j := t.op.ticket;
    if j < |s.tickets| {
      if k in s.buckets {
        CancelCredits(s.buckets, s.tickets[j], k, x, spent);
      } else if j >= n {
        HeldOnlyIfNamed(s.tickets[j], k);
      }
      hide Holds, Cancel, HeldFor;
    }
  }

  lemma {:induction false} LifeStep(s: Sys, t: Tick, k: string, n: nat, x: Meter, spent: real)
    requires Steady(t, k) && LifeLedger(s, k, n, x, spent)
    ensures LifeLedger(Step(s, t), k, n, TickMeter(x, t, k), spent + LifeCharge(s, t, k, n) - Windfall(s, t, k, n))
  {
    hide LifeLedger, Step, NetCharge;
    if t.op.Undo? { LifeUndo(s, t, k, n, x, spent); } else { LifeCall(s, t, k, n, x, spent); }
  }

  lemma {:induction false} SteadyIsWellFormed(ticks: seq<Tick>, k: string)
    requires SteadyRun(ticks, k)
    ensures WellFormedRun(ticks)
  {
    forall t | t in ticks ensures t.WellFormed() { assert Steady(t, k); }
  }

  lemma {:induction false} LifeGoesOn(s: Sys, ticks: seq<Tick>, k: string)
    requires WellFormedRun(ticks) && ticks != []
    ensures var before, last := ticks[..|ticks| - 1], ticks[|ticks| - 1];
            && WellFormedRun(before) && last.WellFormed() && Run(s, ticks) == Step(Run(s, before), last)
            && RunMeter(ticks, k) == TickMeter(RunMeter(before, k), last, k)
            && LifeSpent(s, ticks, k) == LifeSpent(s, before, k) + LifeCharge(Run(s, before), last, k, |s.tickets|)
            && Windfalls(s, ticks, k) == Windfalls(s, before, k) + Windfall(Run(s, before), last, k, |s.tickets|)
  {
    hide Step, LifeCharge, Windfall, TickMeter;
  }

  /**
   The bound over every life. From any state in which `k` has no bucket, and as
   long as it is then neither evicted nor forgotten: what this life was charged
   and not given back, plus its balance, is at most what the meter grants plus
   what was paid back to it for earlier lives.
   */
  lemma {:induction false} LifeBound(s: Sys, ticks: seq<Tick>, k: string)
    requires k !in s.buckets && SteadyRun(ticks, k)
    ensures WellFormedRun(ticks)
    ensures LifeLedger(Run(s, ticks), k, |s.tickets|, RunMeter(ticks, k),
                       LifeSpent(s, ticks, k) - Windfalls(s, ticks, k))
  {
    SteadyIsWellFormed(ticks, k);
    if ticks == [] {
    } else {
      var before, last := ticks[..|ticks| - 1], ticks[|ticks| - 1];
      assert ticks == before + [last] && last in ticks && Steady(last, k);
      LifeBound(s, before, k);
      LifeGoesOn(s, ticks, k);
      hide *;
      LifeStep(Run(s, before), last, k, |s.tickets|, RunMeter(before, k),
               LifeSpent(s, before, k) - Windfalls(s, before, k));
    }
  }

  /******* When the ceiling is the one granted *******/

  ghost predicate LifeBounded(s: Sys, ticks: seq<Tick>, k: string)
    requires WellFormedRun(ticks)
  {
    Account(Run(s, ticks).buckets, k, RunMeter(ticks, k), LifeSpent(s, ticks, k))
  }

  ghost predicate NoneStale(ticks: seq<Tick>, n: nat) { forall t :: t in ticks ==> !Stale(t, n) }

  lemma {:induction false} NoWindfall(s: Sys, ticks: seq<Tick>, k: string)
    requires WellFormedRun(ticks) && NoneStale(ticks, |s.tickets|)
    ensures Windfalls(s, ticks, k) == 0.0
  {
    if ticks == [] {
    } else {
      var before, last := ticks[..|ticks| - 1], ticks[|ticks| - 1];
      assert ticks == before + [last];
      hide Run;
      NoWindfall(s, before, k);
    }
  }

  // A life in which no earlier life's reservation is cancelled keeps within
  // what it is granted, whatever happened before it.
  lemma {:induction false} BoundedUnlessStale(s: Sys, ticks: seq<Tick>, k: string)
    requires k !in s.buckets && SteadyRun(ticks, k) && NoneStale(ticks, |s.tickets|)
    ensures WellFormedRun(ticks) && LifeBounded(s, ticks, k)
  {
    SteadyIsWellFormed(ticks, k);
    LifeBound(s, ticks, k);
    NoWindfall(s, ticks, k);
    hide Run, RunMeter, LifeSpent, Windfalls, Account;
  }

  // No earlier reservation holds anything for `k` any more.
  ghost predicate NothingHeld(s: Sys, k: string) {
    forall j :: 0 <= j < |s.tickets| ==> HeldFor(s.tickets[j], k) == 0.0
  }

  // Every reservation of `s` is held as it was, or given up.
  ghost predicate HeldOrGivenUp(s: Sys, later: Sys) {
    |s.tickets| <= |later.tickets|
    && forall j :: 0 <= j < |s.tickets| ==> later.tickets[j] == s.tickets[j] || later.tickets[j] == []
  }

  lemma {:induction false} TicketsKept(s: Sys, ticks: seq<Tick>)
    requires WellFormedRun(ticks)
    ensures HeldOrGivenUp(s, Run(s, ticks))
  {
    if ticks == [] {
    } else {
      var before, last := ticks[..|ticks| - 1], ticks[|ticks| - 1];
      assert ticks == before + [last];
      TicketsKept(s, before);
      hide Cancel, Allow, AllowAll, ReserveAll;
    }
  }

  lemma {:induction false} NothingToGive(s: Sys, ticks: seq<Tick>, k: string)
    requires WellFormedRun(ticks) && NothingHeld(s, k)
    ensures Windfalls(s, ticks, k) == 0.0
  {
    if ticks == [] {
    } else {
      var before, last := ticks[..|ticks| - 1], ticks[|ticks| - 1];
      assert ticks == before + [last];
      TicketsKept(s, before);
      NothingToGive(s, before, k);
      assert HeldFor([], k) == 0.0;
      hide Run, HeldFor;
    }
  }

  /******* Why earlier reservations matter *******/

  ghost predicate AtLeastZero(s: Sys) {
    forall j, h :: 0 <= j < |s.tickets| && h in s.tickets[j] ==> h.restore >= 0.0
  }

  lemma {:induction false} ReservesAtLeastZero(m: Buckets, reqs: seq<Request>, want: real, now: real,
                                               drops: seq<set<string>>)
    requires |drops| == |reqs| && want >= 0.0
    ensures forall h :: h in ReserveAll(m, reqs, want, now, drops).held ==> h.restore >= 0.0
  {
    if reqs == [] {
    } else {
      var n := |reqs| - 1;
      ReservesAtLeastZero(m, reqs[..n], want, now, drops[..n]);
      hide Lookup, Refilled, DelayAfter, Debited;
    }
  }

  lemma {:induction false} RunAtLeastZero(s: Sys, ticks: seq<Tick>)
    requires WellFormedRun(ticks) && AtLeastZero(s)
    ensures AtLeastZero(Run(s, ticks))
  {
    if ticks == [] {
    } else {
      var before, t := ticks[..|ticks| - 1], ticks[|ticks| - 1];
      assert ticks == before + [t] && t in ticks;
      RunAtLeastZero(s, before);
      if t.op.Reserve? { ReservesAtLeastZero(Run(s, before).buckets, t.op.reqs, Want(t.op.cost), t.now, t.drops); }
      hide Run, Cancel, Allow, AllowAll, ReserveAll;
    }
  }

  // What a cancellation leaves: the balance and all that was held, capped.
  lemma {:induction false} CancelPays(m: Buckets, held: seq<Held>, k: string)
    requires k in m && m[k].tokens <= m[k].capacity && forall h :: h in held ==> h.restore >= 0.0
    ensures HeldFor(held, k) >= 0.0
    ensures Cancel(m, held)[k] == m[k].(tokens := Min(m[k].capacity, m[k].tokens + HeldFor(held, k)))
  {
    if held == [] {
    } else {
      var init, last := held[..|held| - 1], held[|held| - 1];
      assert last in held && held == init + [last];
      CancelPays(m, init, k);
    }
  }

  // All of a new bucket, and then an earlier reservation given up.
  function StaleRun(k: string, limit: Limit, now: real, j: nat): seq<Tick> {
    [Tick(Single(k, limit, RateSpare.WholeCost(limit)), now, [{}]), Tick(Undo(j), now, [])]
  }

  lemma {:induction false} WholeFirst(s: Sys, k: string, limit: Limit, now: real, j: nat)
    requires !limit.Unlimited() && k !in s.buckets
    ensures var t := StaleRun(k, limit, now, j)[0];
            && t.WellFormed() && k in Step(s, t).buckets && Step(s, t).tickets == s.tickets
            && Step(s, t).buckets[k] == Fresh(limit, now).(tokens := 0.0) && NetCharge(s, t, k) == limit.Capacity()
            && TickMeter(Unborn, t, k) == Running(limit.Capacity(), now, limit)
  {
    var t, cost := StaleRun(k, limit, now, j)[0], RateSpare.WholeCost(limit);
    assert Want(cost) == limit.Capacity();
    TicketsUnread(s, t, k);
    FirstCall(Sys(s.buckets, []), k, limit, cost, now);
    hide Limit.Capacity, Limit.PerSec, Want, Step, NetCharge;
  }

  lemma {:induction false} StaleRunIs(s: Sys, k: string, limit: Limit, now: real, j: nat)
    requires !limit.Unlimited() && k !in s.buckets
    ensures var ticks := StaleRun(k, limit, now, j);
            && SteadyRun(ticks, k) && WellFormedRun(ticks)
            && Run(s, ticks) == Step(Step(s, ticks[0]), ticks[1])
            && RunMeter(ticks, k) == TickMeter(Unborn, ticks[0], k)
            && LifeSpent(s, ticks, k) == NetCharge(s, ticks[0], k)
               + LifeCharge(Step(s, ticks[0]), ticks[1], k, |s.tickets|)
  {
    var ticks := StaleRun(k, limit, now, j);
    assert Want(RateSpare.WholeCost(limit)) == limit.Capacity();
    hide Limit.Capacity, Want;
    assert SteadyRun(ticks, k);
    assert ticks[..1][..0] == [] && ticks[..1][0] == ticks[0];
    hide Step, NetCharge, TickMeter;
    assert Run(s, ticks[..1]) == Step(s, ticks[0]);
    assert TickMeter(TickMeter(Unborn, ticks[0], k), ticks[1], k) ==
           TickMeter(Unborn, ticks[0], k) by { UndoMeters(ticks[1], k); }
    assert RunMeter(ticks[..1], k) == TickMeter(Unborn, ticks[0], k);
    assert LifeSpent(s, ticks[..1], k) == NetCharge(s, ticks[0], k);
  }

  lemma {:induction false} UndoMeters(t: Tick, k: string)
    requires t.op.Undo?
    ensures forall x :: TickMeter(x, t, k) == x
  {
  }

  lemma {:induction false} StaleBreaksBound(s: Sys, k: string, limit: Limit, now: real, j: nat)
    requires !limit.Unlimited() && k !in s.buckets && AtLeastZero(s) && j < |s.tickets|
             && HeldFor(s.tickets[j], k) != 0.0
    ensures var ticks := StaleRun(k, limit, now, j);
            SteadyRun(ticks, k) && WellFormedRun(ticks) && !LifeBounded(s, ticks, k)
  {
    var ticks := StaleRun(k, limit, now, j);
    assert ticks[1] == Tick(Undo(j), now, []);
    StaleRunIs(s, k, limit, now, j);
    WholeFirst(s, k, limit, now, j);
    var s1 := Step(s, ticks[0]);
    assert limit.Capacity() > 0.0 && s1.buckets[k].tokens == 0.0 && s1.buckets[k].capacity == limit.Capacity();
    CancelPays(s1.buckets, s.tickets[j], k);
    assert Step(s1, ticks[1]).buckets == Cancel(s1.buckets, s.tickets[j]);
    hide Run, Step, RunMeter, LifeSpent, NetCharge, Limit.Capacity, Cancel, HeldFor, Fresh;
    assert Run(s, ticks).buckets[k].tokens > 0.0;
  }

  ghost predicate AllLivesBounded(s: Sys, k: string) {
    forall ticks :: SteadyRun(ticks, k) ==> WellFormedRun(ticks) && LifeBounded(s, ticks, k)
  }

  lemma {:induction false} BoundedIfNothingHeld(s: Sys, k: string)
    requires k !in s.buckets && NothingHeld(s, k)
    ensures AllLivesBounded(s, k)
  {
    forall ticks | SteadyRun(ticks, k) ensures WellFormedRun(ticks) && LifeBounded(s, ticks, k) {
      hide Run, RunMeter, LifeSpent, Windfalls, Account, SteadyRun, NothingHeld;
      LifeBound(s, ticks, k);
      NothingToGive(s, ticks, k);
    }
  }

  /**
   Exactly when the ceiling holds for whatever follows, in every state that
   calls, evictions and `Forget` can reach and that has no bucket for `k`: when
   no reservation made so far and not given up still holds something for it.
   */
  lemma {:induction false} LivesBoundedIffNothingHeld(before: seq<Tick>, k: string)
    requires WellFormedRun(before) && k !in Run(RateSpare.EMPTY, before).buckets
    ensures AllLivesBounded(Run(RateSpare.EMPTY, before), k) <==> NothingHeld(Run(RateSpare.EMPTY, before), k)
  {
    var s := Run(RateSpare.EMPTY, before);
    RunAtLeastZero(RateSpare.EMPTY, before);
    hide Run, AtLeastZero, HeldFor, LifeBounded, SteadyRun;
    if NothingHeld(s, k) {
      BoundedIfNothingHeld(s, k);
    } else {
      var j :| 0 <= j < |s.tickets| && HeldFor(s.tickets[j], k) != 0.0;
      var limit := Limit(1, 0);
      StaleBreaksBound(s, k, limit, 0.0, j);
      assert SteadyRun(StaleRun(k, limit, 0.0, j), k);
    }
  }

  // Reserve all of a bucket, and forget it.
  function Forgotten(k: string, limit: Limit, now: real): seq<Tick> {
    [Tick(Reserve([Request(k, limit)], RateSpare.WholeCost(limit)), now, [{}]), Tick(Forget(k), now, [])]
  }

  lemma {:induction false} WholeReserved(k: string, limit: Limit, now: real)
    requires !limit.Unlimited() && k != ""
    ensures var t := Forgotten(k, limit, now)[0];
            && t.WellFormed() && Step(RateSpare.EMPTY, t).buckets.Keys == {k}
            && Step(RateSpare.EMPTY, t).tickets == [[Held(k, limit.Capacity())]]
  {
    var t, c := Forgotten(k, limit, now)[0], limit.Capacity();
    assert Want(t.op.cost) == c && |t.op.reqs| == |t.drops| == 1;
    var r := ReserveAll(map[], t.op.reqs, c, now, t.drops);
    hide Limit.PerSec, Limit.Capacity, Want;
    assert t.op.reqs[..0] == [] && t.drops[..0] == [];
    assert ReserveAll(map[], t.op.reqs[..0], c, now, t.drops[..0]) == Reserved(map[], 0.0, []);
    assert r == ReserveOne(Reserved(map[], 0.0, []), k, limit, c, now, t.drops[0]);
    assert r.buckets.Keys == {k} && r.held == [] + [Held(k, c)] == [Held(k, c)];
    hide ReserveAll;
    assert Step(RateSpare.EMPTY, t) == Sys(r.buckets, [] + [r.held]) && [] + [r.held] == [r.held];
  }

  lemma {:induction false} ForgottenLeaves(k: string, limit: Limit, now: real)
    requires !limit.Unlimited() && k != ""
    ensures var before := Forgotten(k, limit, now);
            WellFormedRun(before) && Run(RateSpare.EMPTY, before) == Sys(map[], [[Held(k, limit.Capacity())]])
  {
    var before := Forgotten(k, limit, now);
    WholeReserved(k, limit, now);
    hide Limit.Capacity, ReserveAll;
    assert before[..1][..0] == [] && before[..1][0] == before[0];
    assert Run(RateSpare.EMPTY, []) == RateSpare.EMPTY;
    var s1 := Step(RateSpare.EMPTY, before[0]);
    assert Run(RateSpare.EMPTY, before[..1]) == s1;
    assert s1.buckets - {k} == map[];
  }

  // The whole of a bucket, the earlier reservation given up, and the whole again.
  function TwiceRun(k: string, limit: Limit, now: real): seq<Tick> {
    StaleRun(k, limit, now, 0) + [Tick(Single(k, limit, RateSpare.WholeCost(limit)), now, [{}])]
  }

  lemma {:induction false} StaleRefills(k: string, limit: Limit, now: real)
    requires !limit.Unlimited()
    ensures var s, ticks := Sys(map[], [[Held(k, limit.Capacity())]]), StaleRun(k, limit, now, 0);
            && WellFormedRun(ticks) && LifeSpent(s, ticks, k) == limit.Capacity()
            && k in Run(s, ticks).buckets && Run(s, ticks).buckets[k] == Fresh(limit, now)
            && RunMeter(ticks, k) == Running(limit.Capacity(), now, limit)
  {
    var held := [Held(k, limit.Capacity())];
    var s, ticks := Sys(map[], [held]), StaleRun(k, limit, now, 0);
    assert limit.Capacity() > 0.0 && ticks[1] == Tick(Undo(0), now, []);
    StaleRunIs(s, k, limit, now, 0);
    WholeFirst(s, k, limit, now, 0);
    var s1 := Step(s, ticks[0]);
    assert held[..0] == [] && HeldFor(held, k) == limit.Capacity();
    CancelPays(s1.buckets, held, k);
    assert Step(s1, ticks[1]).buckets == Cancel(s1.buckets, held);
    hide Run, Step, RunMeter, LifeSpent, NetCharge, Limit.Capacity, Limit.PerSec, Cancel, HeldFor;
  }

  lemma {:induction false} WholeAgain(s: Sys, k: string, limit: Limit, now: real)
    requires !limit.Unlimited() && k in s.buckets && s.buckets[k] == Fresh(limit, now)
    ensures var t := Tick(Single(k, limit, RateSpare.WholeCost(limit)), now, [{}]);
            NetCharge(s, t, k) == limit.Capacity()
  {
    var cost := RateSpare.WholeCost(limit);
    assert Want(cost) == limit.Capacity();
    RateSpare.AllowIs(s.buckets, k, limit, cost, now, {});
    hide Allow, Want, Limit.Capacity, Limit.PerSec;
  }

  /**
   For every limit: reserve all of a bucket, forget it, and then ask for all of
   it, cancel and ask again, in one instant. The new bucket hands out twice the
   capacity it was granted.
   */
  lemma {:induction false} CancelledLateHandsOutTwice(k: string, limit: Limit, now: real)
    requires !limit.Unlimited() && k != ""
    ensures var before, ticks := Forgotten(k, limit, now), TwiceRun(k, limit, now);
            && WellFormedRun(before) && SteadyRun(ticks, k) && WellFormedRun(ticks)
            && var s := Run(RateSpare.EMPTY, before);
            && k !in s.buckets && LifeSpent(s, ticks, k) == 2.0 * limit.Capacity()
            && RunMeter(ticks, k) == Running(limit.Capacity(), now, limit)
  {
    var ticks, first, last := TwiceRun(k, limit, now), StaleRun(k, limit, now, 0),
        Tick(Single(k, limit, RateSpare.WholeCost(limit)), now, [{}]);
    ForgottenLeaves(k, limit, now);
    var s := Run(RateSpare.EMPTY, Forgotten(k, limit, now));
    StaleRefills(k, limit, now);
    StaleRunIs(s, k, limit, now, 0);
    WholeAgain(Run(s, first), k, limit, now);
    assert Want(RateSpare.WholeCost(limit)) == limit.Capacity() && |first| == 2;
    hide Run, NetCharge, StaleRun, Forgotten, Limit.Capacity, Want;
    assert ticks[..2] == first && ticks[2] == last && |ticks| == 3;
    assert Steady(last, k);
  }
}
