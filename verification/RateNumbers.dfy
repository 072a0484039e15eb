/**
 The limiter in the terms it is configured in: messages per minute, a burst, and
 seconds. Nothing here is said through the model's own rate or capacity.
 */
module RateNumbers {
  import opened RateModel
  import opened RateBound
  import RateSpare
  import Prelude

  lemma {:induction false} AMinuteIsSixtySeconds(x: real, perMinute: real)
    requires perMinute > 0.0
    ensures x * (perMinute / 60.0) == (perMinute / 60.0) * x == perMinute * x / 60.0
    ensures x / (perMinute / 60.0) == 60.0 * x / perMinute
  {
    var wait := x / (perMinute / 60.0);
    assert wait * (perMinute / 60.0) == x;
    assert wait * perMinute == 60.0 * x;
  }

  /******* What a bucket earns *******/

  // A bucket left alone for `d` seconds gains the rate's share of them, up to
  // its capacity.
  lemma {:induction false} EarnsPerMinute(b: Bucket, limit: Limit, d: real)
    requires limit.perMinute > 0 && d >= 0.0 && b.tokens <= b.capacity
    requires Rerated(b, limit) == b
    ensures var cap := if limit.burst > 0 then limit.burst as real else limit.perMinute as real;
            var gained := b.tokens + limit.perMinute as real * d / 60.0;
            Refilled(b, b.refilled + d).tokens == if gained > cap then cap else gained
  {
    AMinuteIsSixtySeconds(d, limit.perMinute as real);
    if d == 0.0 { assert limit.perMinute as real * d == 0.0; }
  }

  // What a bucket holds at `now` under a limit, in the limit's own numbers.
  function Balance(m: Buckets, key: string, limit: Limit, now: real): real {
    var cap := if limit.burst > 0 then limit.burst as real else limit.perMinute as real;
    if key !in m then cap
    else
      var elapsed := if now > m[key].refilled then now - m[key].refilled else 0.0;
      Min(cap, Min(cap, m[key].tokens) + limit.perMinute as real * elapsed / 60.0)
  }

  lemma {:induction false} BalanceIs(b: Bucket, limit: Limit, now: real)
    requires limit.perMinute > 0 && b.tokens <= b.capacity
    ensures var cap := if limit.burst > 0 then limit.burst as real else limit.perMinute as real;
            var elapsed := if now > b.refilled then now - b.refilled else 0.0;
            Refilled(Rerated(b, limit), now) ==
              Bucket(Min(cap, Min(cap, b.tokens) + limit.perMinute as real * elapsed / 60.0), cap,
                     limit.perMinute as real / 60.0, if now > b.refilled then now else b.refilled, now)
  {
    var elapsed := if now > b.refilled then now - b.refilled else 0.0;
    AMinuteIsSixtySeconds(elapsed, limit.perMinute as real);
    if elapsed == 0.0 { assert limit.perMinute as real * elapsed == 0.0; }
  }

  lemma {:induction false} FreshIs(limit: Limit, now: real)
    requires limit.perMinute > 0
    ensures var cap := if limit.burst > 0 then limit.burst as real else limit.perMinute as real;
            Refilled(Fresh(limit, now), now) == Bucket(cap, cap, limit.perMinute as real / 60.0, now, now)
  {
  }

  // The bucket a call finds: looked up, re-rated or new, and refilled.
  ghost function Ready(m: Buckets, key: string, limit: Limit, now: real): Bucket {
    Refilled(if key in m then Rerated(m[key], limit) else Fresh(limit, now), now)
  }

  lemma {:induction false} ReadyIs(m: Buckets, key: string, limit: Limit, now: real)
    requires limit.perMinute > 0 && (key in m ==> m[key].tokens <= m[key].capacity)
    ensures var b := Ready(m, key, limit, now);
            && b.tokens == Balance(m, key, limit, now) && b.perSec == limit.perMinute as real / 60.0 && b.seen == now
            && b.capacity == if limit.burst > 0 then limit.burst as real else limit.perMinute as real
  {
    if key in m { BalanceIs(m[key], limit, now); } else { FreshIs(limit, now); }
    hide Rerated, Fresh, Refilled, Min;
  }

  /******* One call *******/

  lemma {:induction false} VerdictIs(b: Bucket, want: real, perMinute: real)
    requires perMinute > 0.0 && b.perSec == perMinute / 60.0
    ensures Assess(b, want) == if want > b.capacity then Empty else if b.tokens >= want then Spend(want)
                               else Refuse(60.0 * (want - b.tokens) / perMinute)
  {
    AMinuteIsSixtySeconds(want - b.tokens, perMinute);
  }

  /**
   A whole call in numbers. It is admitted exactly when the balance covers the
   cost or the cost could never be covered; refused, it names the time in which
   the configured rate earns what is missing; it charges the cost, or all there
   is of an oversized one, to its own bucket and to no other.
   */
  lemma {:induction false} AllowInNumbers(m: Buckets, key: string, limit: Limit, cost: int, now: real,
                                          drop: set<string>)
    requires limit.perMinute > 0 && (key in m ==> m[key].tokens <= m[key].capacity)
    ensures var cap := if limit.burst > 0 then limit.burst as real else limit.perMinute as real;
            var want := if cost <= 0 then 1.0 else cost as real;
            var balance := Balance(m, key, limit, now);
            var a := Allow(m, key, limit, cost, now, drop);
            && (a.allowed <==> want > cap || balance >= want)
            && (!a.allowed ==> a.retryAfter == 60.0 * (want - balance) / limit.perMinute as real)
            && (a.allowed ==> a.retryAfter == 0.0)
            && key in a.buckets && a.buckets[key].capacity == cap && a.buckets[key].seen == now
            && a.buckets[key].tokens == (if want > cap then 0.0 else if a.allowed then balance - want else balance)
            && a.buckets == (if key in m then m else m - drop)[key := a.buckets[key]]
  {
    assert !limit.Unlimited() && Want(cost) == if cost <= 0 then 1.0 else cost as real;
    hide Allow, Rerated, Fresh, Refilled, Assess, Limit.PerSec, Limit.Capacity, Balance, Want;
    RateSpare.AllowIs(m, key, limit, cost, now, drop);
    ReadyIs(m, key, limit, now);
    VerdictIs(Ready(m, key, limit, now), Want(cost), limit.perMinute as real);
  }

  // Without a rate nothing is limited and nothing is kept.
  lemma {:induction false} UnlimitedInNumbers(m: Buckets, key: string, limit: Limit, cost: int, now: real,
                                              drop: set<string>)
    requires limit.perMinute <= 0
    ensures Allow(m, key, limit, cost, now, drop) == Answer(m, true, 0.0)
  {
  }

  // A refused call on an empty bucket waits sixty seconds for every
  // `perMinute` messages it asks for.
  lemma {:induction false} EmptyBucketWaits(m: Buckets, key: string, limit: Limit, cost: int, now: real)
    requires limit.perMinute > 0 && key in m && m[key].tokens == 0.0 <= m[key].capacity && m[key].refilled == now
    requires !Allow(m, key, limit, cost, now, {}).allowed
    ensures Allow(m, key, limit, cost, now, {}).retryAfter ==
            60.0 * (if cost <= 0 then 1.0 else cost as real) / limit.perMinute as real
  {
    AllowInNumbers(m, key, limit, cost, now, {});
    assert limit.perMinute as real * 0.0 / 60.0 == 0.0;
    hide Allow;
  }

  lemma {:induction false} NothingApplied(m: Buckets)
    ensures ApplyAll(m, []) == m
  {
  }

  // A list of one request: skipped without a key or a rate, otherwise as Allow.
  lemma {:induction false} OneRequestInNumbers(m: Buckets, q: Request, cost: int, now: real, drop: set<string>)
    ensures q.key == "" || q.limit.perMinute <= 0 ==>
              AllowAll(m, [q], cost, now, [drop]) == Answer(m, true, 0.0)
              && ReserveAll(m, [q], Want(cost), now, [drop]) == Reserved(m, 0.0, [])
    ensures q.key != "" && q.limit.perMinute > 0 ==>
              AllowAll(m, [q], cost, now, [drop]) == Allow(m, q.key, q.limit, cost, now, drop)
  {
    var reqs, drops := [q], [drop];
    assert reqs[..0] == [] && drops[..0] == [];
    hide AssessOne, Want, ReserveOne, ApplyAll;
    assert AssessAll(m, [], Want(cost), now, []) == Unassessed(m);
    assert AssessAll(m, reqs, Want(cost), now, drops) ==
           if q.Charges() then AssessOne(Unassessed(m), q.key, q.limit, Want(cost), now, drop) else Unassessed(m);
    assert ApplyAll(m, []) == m by { NothingApplied(m); }
  }

  // Nothing is evicted below the bound. At it every bucket seen longer ago than
  // the idle time goes, and at most one other, if those alone make no room.
  lemma {:induction false} EvictionInNumbers(m: Buckets, now: real, maxBuckets: int, idleTTL: real, drop: set<string>)
    requires EvictionDrops(m, now, maxBuckets, idleTTL, drop)
    ensures var idle := set k | k in m && now - m[k].seen > idleTTL;
            && (|m| < maxBuckets ==> drop == {})
            && (|m| >= maxBuckets > |m.Keys - idle| ==> drop == idle)
            && (|m.Keys - idle| >= maxBuckets ==> exists k :: drop == idle + {k})
  {
    assert IdleKeys(m, now, idleTTL) == set k | k in m && now - m[k].seen > idleTTL;
    Prelude.SubsetSize(m.Keys - IdleKeys(m, now, idleTTL), m.Keys);
    hide PickOldest, Enumerates;
  }

  /******* One reservation *******/

  lemma {:induction false} ReserveOneIs(m: Buckets, key: string, limit: Limit, want: real, now: real, drop: set<string>)
    requires !limit.Unlimited() && key != ""
    ensures ReserveAll(m, [Request(key, limit)], want, now, [drop]) ==
            ReserveOne(Reserved(m, 0.0, []), key, limit, want, now, drop)
  {
    var reqs, drops := [Request(key, limit)], [drop];
    assert reqs[..0] == [] && drops[..0] == [];
    hide ReserveOne;
  }

  // A reservation takes the cost whatever the balance, and is told the time in
  // which the configured rate earns what it then owes.
  lemma {:induction false} ReserveInNumbers(m: Buckets, key: string, limit: Limit, cost: int, now: real,
                                            drop: set<string>)
    requires limit.perMinute > 0 && key != "" && (key in m ==> m[key].tokens <= m[key].capacity)
    ensures var cap := if limit.burst > 0 then limit.burst as real else limit.perMinute as real;
            var want := if cost <= 0 then 1.0 else cost as real;
            var left := Balance(m, key, limit, now) - want;
            var r := ReserveAll(m, [Request(key, limit)], Want(cost), now, [drop]);
            && key in r.buckets
            && r.buckets[key].tokens == (if want > cap then 0.0 else left)
            && r.delay == (if want > cap || left >= 0.0 then 0.0 else 60.0 * -left / limit.perMinute as real)
            && |r.held| == 1 && r.held[0].key == key
            && r.held[0].restore == if want <= cap then want else Max(left + want, 0.0)
  {
    var want := Want(cost);
    ReserveOneIs(m, key, limit, want, now, drop);
    var b := Ready(m, key, limit, now);
    ReadyIs(m, key, limit, now);
    var perMinute := limit.perMinute as real;
    AMinuteIsSixtySeconds(want - b.tokens, perMinute);
    if b.tokens < want { assert (want - b.tokens) / (perMinute / 60.0) > 0.0; }
    assert [] + [Held(key, Restores(b, want))] == [Held(key, Restores(b, want))];
    hide ReserveAll, Rerated, Fresh, Refilled, Limit.PerSec, Limit.Capacity, Balance;
  }

  /******* Whole runs *******/

  // Every cost asked of `k` is one that its burst, or a minute's worth, covers.
  ghost predicate Covered(t: Tick, k: string, limit: Limit) {
    Addresses(t, k) ==>
      (if t.op.cost <= 0 then 1 else t.op.cost) <= if limit.burst > 0 then limit.burst else limit.perMinute
  }

  // Runs in which `k` has this limit, is asked for no more at once than it could
  // ever hold, and is neither evicted nor forgotten.
  ghost predicate Keeping(ticks: seq<Tick>, k: string, limit: Limit) {
    forall t :: t in ticks ==>
      && t.WellFormed() && (forall d :: d in t.drops ==> k !in d)
      && t.op != Forget(k) && Fixed(t, k, limit) && Covered(t, k, limit)
  }

  lemma {:induction false} KeepingIsSteady(ticks: seq<Tick>, k: string, limit: Limit)
    requires Keeping(ticks, k, limit)
    ensures SteadyRun(ticks, k) && FixedRun(ticks, k, limit)
  {
    forall t | t in ticks ensures Steady(t, k) && Fixed(t, k, limit) {
      if t.op.Ask? || t.op.Reserve? {
        forall r | r in t.op.reqs && r.Charges() && r.key == k ensures Want(t.op.cost) <= r.limit.Capacity() {
          assert Names(t.op.reqs, k);
        }
      }
    }
  }

  // The burst, or a minute's worth without one, and `perMinute` for every
  // sixty seconds.
  function Ceiling(limit: Limit, seconds: real): real {
    (if limit.burst > 0 then limit.burst as real else limit.perMinute as real)
    + limit.perMinute as real * seconds / 60.0
  }

  /**
   The ceiling as it is configured. However calls, reservations and
   cancellations are mixed, what was charged and not given back is at most the
   ceiling for the time since the first call, less what is left.
   */
  lemma {:induction false} BoundPerMinute(s: Sys, ticks: seq<Tick>, k: string, limit: Limit, born: real)
    requires limit.perMinute > 0 && Untouched(s, k) && Keeping(ticks, k, limit)
    requires BornAt(ticks, k, born) && Monotone(ticks) && RefilledBy(s.buckets, ticks[0].now)
    ensures WellFormedRun(ticks) && k in Run(s, ticks).buckets
    ensures Uncancelled(s, ticks, k) <= Ceiling(limit, LastTick(ticks).now - born) - Run(s, ticks).buckets[k].tokens
  {
    assert !limit.Unlimited() && ticks != [];
    hide *;
    KeepingIsSteady(ticks, k, limit);
    RateBoundByClock(s, ticks, k, limit, born);
    AllowanceIs(limit, born, LastTick(ticks).now);
  }

  lemma {:induction false} AllowanceIs(limit: Limit, born: real, at: real)
    requires limit.perMinute > 0
    ensures Allowance(limit, born, at) == Ceiling(limit, at - born)
  {
    AMinuteIsSixtySeconds(at - born, limit.perMinute as real);
  }
}
