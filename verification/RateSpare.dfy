/**
 When dropping a bucket goes unnoticed: by every call that can follow, exactly
 if by then waiting would have filled it anyway.
 */
module RateSpare {
  import opened RateModel
  import opened RateEviction

  /******* Idle buckets *******/

  // A full refill takes no longer than the idle time.
  ghost predicate Fits(limit: Limit, idleTTL: real) { limit.Capacity() <= idleTTL * limit.PerSec() }

  lemma {:induction false} DefaultBurstFits(limit: Limit, idleTTL: real)
    requires !limit.Unlimited() && limit.burst <= 0 && idleTTL >= 60.0
    ensures Fits(limit, idleTTL)
  {
    var rate := limit.perMinute as real / 60.0;
    assert rate * 60.0 == limit.perMinute as real;
    assert idleTTL * rate >= 60.0 * rate;
  }

  lemma {:induction false} EarnsMore(l: Limit, less: real, more: real)
    requires !l.Unlimited() && less <= more
    ensures Earned(less, l.PerSec()) <= Earned(more, l.PerSec())
  {
    assert l.PerSec() > 0.0;
  }

  // An idle bucket that is not in debt is spare for every limit that refills
  // within the idle time.
  lemma {:induction false} IdleIsFilled(b: Bucket, l: Limit, now: real, idleTTL: real)
    requires !l.Unlimited() && Fits(l, idleTTL) && idleTTL >= 0.0
    requires b.tokens >= 0.0 && b.capacity >= 0.0 && now - b.refilled > idleTTL
    ensures Filled(b, l, now)
  {
    EarnsMore(l, idleTTL, now - b.refilled);
    assert l.Capacity() >= 0.0;
    hide Limit.PerSec, Limit.Capacity;
  }

  // What may be dropped is spare.
  ghost predicate Gentle(p: Policy, asks: Asks) {
    match p
    case Bounded(_, _) => false
    case Harmless(idleTTL) => idleTTL >= 0.0 && forall k, l: Limit :: asks(k, l) && !l.Unlimited() ==> Fits(l, idleTTL)
    case Sparing(a) => forall k, l: Limit :: asks(k, l) ==> a(k, l)
  }

  lemma {:induction false} GentleDrops(p: Policy, asks: Asks, b: Bucket, key: string, now: real)
    requires Gentle(p, asks) && b.refilled == b.seen <= now && b.capacity >= 0.0
    requires MayDrop(p, map[key := b], now, {key})
    ensures Spare(b, key, now, asks) && b.seen < now
  {
    assert map[key := b][key] == b;
    if p.Harmless? {
      hide Filled, Fits;
      forall l: Limit | asks(key, l) && !l.Unlimited() ensures Filled(b, l, now) { IdleIsFilled(b, l, now, p.idleTTL); }
    }
  }

  lemma {:induction false} DropsOne(p: Policy, m: Buckets, now: real, drop: set<string>, k: string)
    requires !p.Bounded? && MayDrop(p, m, now, drop) && k in m && k in drop
    ensures MayDrop(p, map[k := m[k]], now, {k})
  {
    hide Spare, Idle;
  }

  /******* A spare bucket and a new one *******/

  lemma {:induction false} SpareIsFresh(b: Bucket, key: string, limit: Limit, now: real, asks: Asks)
    requires !limit.Unlimited() && asks(key, limit) && Spare(b, key, now, asks)
    ensures Refilled(Rerated(b, limit), now) == Fresh(limit, now)
  {
    assert Filled(b, limit, now);
    if b.refilled == now { assert Earned(0.0, limit.PerSec()) == 0.0; }
    hide Limit.PerSec, Limit.Capacity, Earned;
  }

  lemma {:induction false} SpareLater(b: Bucket, key: string, now: real, later: real, asks: Asks)
    requires Spare(b, key, now, asks) && now <= later
    ensures Spare(b, key, later, asks)
  {
    forall l: Limit | asks(key, l) && !l.Unlimited() ensures Filled(b, l, later) {
      assert Filled(b, l, now);
      EarnsMore(l, now - b.refilled, later - b.refilled);
    }
    hide Filled;
  }

  // Giving tokens back, up to the capacity, leaves it spare.
  lemma {:induction false} SpareAfterReturn(b: Bucket, key: string, now: real, restore: real, asks: Asks)
    requires Spare(b, key, now, asks) && restore >= 0.0
    ensures Spare(b.(tokens := Min(b.capacity, b.tokens + restore)), key, now, asks)
  {
    var c := b.(tokens := Min(b.capacity, b.tokens + restore));
    forall l: Limit | asks(key, l) && !l.Unlimited() ensures Filled(c, l, now) {
      assert Filled(b, l, now);
      hide Limit.Capacity, Limit.PerSec, Earned;
    }
    hide Filled;
  }

  /******* Two limiters, one without some spare buckets *******/

  // `a` is `b` without some spare buckets.
  ghost predicate Alike(a: Buckets, b: Buckets, now: real, asks: Asks) {
    && (forall k :: k in a ==> k in b && a[k] == b[k])
    && (forall k :: k in b && k !in a ==> Spare(b[k], k, now, asks))
  }

  ghost predicate Synced(m: Buckets, now: real) {
    forall k :: k in m ==> m[k].refilled == m[k].seen <= now && m[k].capacity >= 0.0
  }

  lemma {:induction false} NotBounded(p: Policy, asks: Asks)
    requires Gentle(p, asks)
    ensures !p.Bounded?
  {
  }

  // Dropping by a gentle policy, whatever the call has not used.
  lemma {:induction false} DropsAlike(a: Buckets, b: Buckets, key: string, now: real, asks: Asks, p: Policy,
                                      drop: set<string>)
    requires Gentle(p, asks) && Alike(a, b, now, asks) && Synced(b, now) && key !in a && MayCreate(p, a, key, now, drop)
    ensures Alike(a - drop, b, now, asks)
    ensures forall k :: k in a && a[k].seen == now ==> k !in drop
  {
    NotBounded(p, asks);
    hide Spare, Gentle;
    forall k | k in a && k in drop ensures Spare(a[k], k, now, asks) && a[k].seen < now {
      DropsOne(p, a, now, drop, k);
      GentleDrops(p, asks, a[k], k, now);
    }
  }

  // Changing one bucket alike in both.
  lemma {:induction false} UpdateAlike(a: Buckets, b: Buckets, key: string, c: Bucket, now: real, asks: Asks)
    requires Alike(a, b, now, asks) && Synced(b, now) && c.refilled == c.seen <= now && c.capacity >= 0.0
    ensures Alike(a[key := c], b[key := c], now, asks) && Synced(b[key := c], now)
  {
    hide Spare;
  }

  lemma {:induction false} RefilledAlike(a: Buckets, b: Buckets, key: string, limit: Limit, now: real, asks: Asks)
    requires !limit.Unlimited() && asks(key, limit) && Alike(a, b, now, asks) && Synced(b, now)
    ensures var x := Refilled(if key in a then Rerated(a[key], limit) else Fresh(limit, now), now);
            var y := Refilled(if key in b then Rerated(b[key], limit) else Fresh(limit, now), now);
            x == y && x.refilled == x.seen == now && x.capacity >= 0.0
  {
    assert limit.Capacity() >= 0.0;
    assert Refilled(Fresh(limit, now), now) == Fresh(limit, now);
    if key !in a && key in b { SpareIsFresh(b[key], key, limit, now, asks); }
    hide Spare, Limit.PerSec, Limit.Capacity, Earned;
  }

  lemma {:induction false} LookupAlike(a: Buckets, b: Buckets, key: string, limit: Limit, now: real, asks: Asks,
                                       p: Policy, drop: set<string>)
    requires !limit.Unlimited() && asks(key, limit) && Gentle(p, asks)
    requires Alike(a, b, now, asks) && Synced(b, now) && MayCreate(p, a, key, now, drop)
    ensures var x, y := Lookup(a, key, limit, now, drop), Lookup(b, key, limit, now, {});
            var c := Refilled(x[key], now);
            && c == Refilled(y[key], now) && c.seen == now
            && Alike(x[key := c], y[key := c], now, asks) && Synced(y[key := c], now)
            && forall k :: k in a && a[k].seen == now ==> k in x && x[key := c][k].seen == now
  {
    var x, y := Lookup(a, key, limit, now, drop), Lookup(b, key, limit, now, {});
    RefilledAlike(a, b, key, limit, now, asks);
    hide Spare, Limit.PerSec, Limit.Capacity, Gentle, Refilled, Rerated, Fresh;
    var c := Refilled(x[key], now);
    var rest := if key in a then a else a - drop;
    if key !in a { DropsAlike(a, b, key, now, asks, p, drop); }
    UpdateAlike(rest, b, key, c, now, asks);
    assert b - {} == b;
    assert x[key := c] == rest[key := c] && y[key := c] == b[key := c];
    hide Alike, Synced;
  }

  /******* Calls *******/

  // Two assessments that have answered alike so far.
  ghost predicate SameSoFar(a: Assessment, b: Assessment, now: real, asks: Asks) {
    && Alike(a.buckets, b.buckets, now, asks)
    && Synced(b.buckets, now)
    && b == Assessment(b.buckets, a.pending, a.allowed, a.retryAfter)
    && (forall p :: p in a.pending ==> p.key in a.buckets && a.buckets[p.key].seen == now)
  }

  // One assessment in which no decision is lost.
  lemma {:induction false} AssessOneIs(a: Assessment, key: string, limit: Limit, want: real, now: real,
                                       drop: set<string>)
    requires !limit.Unlimited()
    requires forall p :: p in a.pending ==> p.key in a.buckets && p.key in Lookup(a.buckets, key, limit, now, drop)
    ensures var x := Lookup(a.buckets, key, limit, now, drop);
            var b := Refilled(x[key], now);
            var d := Assess(b, want);
            AssessOne(a, key, limit, want, now, drop) ==
              Assessment(x[key := b], a.pending + [Pending(key, d)], a.allowed && !d.Refuse?,
                         if d.Refuse? then Max(a.retryAfter, d.retryAfter) else a.retryAfter)
  {
    hide Refilled, Assess, Lookup;
    AllSurvive(a.pending, Lookup(a.buckets, key, limit, now, drop));
  }

  lemma {:induction false} AssessOneAlike(a: Assessment, b: Assessment, key: string, limit: Limit, want: real,
                                          now: real, asks: Asks, p: Policy, drop: set<string>)
    requires !limit.Unlimited() && asks(key, limit) && Gentle(p, asks)
    requires SameSoFar(a, b, now, asks) && MayCreate(p, a.buckets, key, now, drop)
    ensures SameSoFar(AssessOne(a, key, limit, want, now, drop), AssessOne(b, key, limit, want, now, {}), now, asks)
  {
    assert forall q :: q in b.pending ==> q.key in b.buckets;
    assert forall k :: k in b.buckets ==> k in Lookup(b.buckets, key, limit, now, {});
    hide Alike, Synced, Gentle, Refilled, Assess, Lookup, AssessOne, MayCreate;
    LookupAlike(a.buckets, b.buckets, key, limit, now, asks, p, drop);
    AssessOneIs(a, key, limit, want, now, drop);
    AssessOneIs(b, key, limit, want, now, {});
  }

  ghost predicate AllAsked(reqs: seq<Request>, asks: Asks) {
    forall r :: r in reqs && r.Charges() ==> asks(r.key, r.limit)
  }

  lemma {:induction false} AssessAllAlike(x: Buckets, y: Buckets, reqs: seq<Request>, want: real, now: real,
                                          asks: Asks, p: Policy, drops: seq<set<string>>, none: seq<set<string>>)
    requires |drops| == |reqs| == |none| && NothingDropped(none) && AllAsked(reqs, asks) && Gentle(p, asks)
    requires Alike(x, y, now, asks) && Synced(y, now) && AssessDropsBy(p, x, reqs, want, now, drops)
    ensures SameSoFar(AssessAll(x, reqs, want, now, drops), AssessAll(y, reqs, want, now, none), now, asks)
  {
    hide Gentle;
    if reqs == [] {
      hide Alike, Synced;
    } else {
      var n := |reqs| - 1;
      var r := reqs[n];
      assert r in reqs;
      AssessAllAlike(x, y, reqs[..n], want, now, asks, p, drops[..n], none[..n]);
      var a, b := AssessAll(x, reqs[..n], want, now, drops[..n]), AssessAll(y, reqs[..n], want, now, none[..n]);
      assert none[n] == {};
      hide AssessOne, SameSoFar, MayCreate, Alike, Synced;
      if r.Charges() { AssessOneAlike(a, b, r.key, r.limit, want, now, asks, p, drops[n]); }
    }
  }

  lemma {:induction false} AppliedAlike(x: Buckets, y: Buckets, key: string, d: Decision, now: real, asks: Asks)
    requires Alike(x, y, now, asks) && Synced(y, now) && key in x
    ensures key in y
    ensures Alike(x[key := Applied(x[key], d)], y[key := Applied(y[key], d)], now, asks)
    ensures Synced(y[key := Applied(y[key], d)], now)
  {
    hide Spare;
    assert x[key] == y[key];
  }

  lemma {:induction false} ApplyAllAlike(x: Buckets, y: Buckets, ps: seq<Pending>, now: real, asks: Asks)
    requires (forall p :: p in ps ==> p.key in x) && Alike(x, y, now, asks) && Synced(y, now)
    ensures forall p :: p in ps ==> p.key in y
    ensures Alike(ApplyAll(x, ps), ApplyAll(y, ps), now, asks) && Synced(ApplyAll(y, ps), now)
  {
    assert forall p :: p in ps ==> p.key in y;
    hide Alike, Synced, Applied;
    if ps == [] {
    } else {
      var init, p := ps[..|ps| - 1], ps[|ps| - 1];
      ApplyAllAlike(x, y, init, now, asks);
      AppliedAlike(ApplyAll(x, init), ApplyAll(y, init), p.key, p.decision, now, asks);
    }
  }

  lemma {:induction false} SettleAlike(a: Assessment, b: Assessment, now: real, asks: Asks)
    requires SameSoFar(a, b, now, asks)
    ensures forall p :: p in b.pending ==> p.key in b.buckets
    ensures var x, y := Settle(a), Settle(b);
            x.allowed == y.allowed && x.retryAfter == y.retryAfter && Alike(x.buckets, y.buckets, now, asks)
              && Synced(y.buckets, now)
  {
    ApplyAllAlike(a.buckets, b.buckets, a.pending, now, asks);
    hide Alike, Synced;
  }

  ghost predicate AtLeastZero(held: seq<Held>) { forall h :: h in held ==> h.restore >= 0.0 }

  ghost predicate ReservedAlike(r: Reserved, q: Reserved, now: real, asks: Asks) {
    && Alike(r.buckets, q.buckets, now, asks)
    && Synced(q.buckets, now)
    && q == Reserved(q.buckets, r.delay, r.held)
    && AtLeastZero(r.held)
  }

  lemma {:induction false} ReserveOneAlike(r: Reserved, q: Reserved, key: string, limit: Limit, want: real, now: real,
                                           asks: Asks, p: Policy, drop: set<string>)
    requires !limit.Unlimited() && asks(key, limit) && Gentle(p, asks) && want >= 0.0
    requires ReservedAlike(r, q, now, asks) && MayCreate(p, r.buckets, key, now, drop)
    ensures ReservedAlike(ReserveOne(r, key, limit, want, now, drop), ReserveOne(q, key, limit, want, now, {}), now,
                          asks)
  {
    LookupAlike(r.buckets, q.buckets, key, limit, now, asks, p, drop);
    var x, y := Lookup(r.buckets, key, limit, now, drop), Lookup(q.buckets, key, limit, now, {});
    var b := Refilled(x[key], now);
    assert x[key := b][key] == b && b.refilled == b.seen == now && b.capacity >= 0.0;
    hide Alike, Synced, Lookup, Refilled, Limit.PerSec, Limit.Capacity, MayCreate, Gentle;
    var c := Debited(b, want);
    assert Restores(b, want) >= 0.0;
    UpdateAlike(x[key := b], y[key := b], key, c, now, asks);
    hide Debited, Restores, DelayAfter;
    assert x[key := b][key := c] == x[key := c] && y[key := b][key := c] == y[key := c];
  }

  lemma {:induction false} ReserveAllAlike(x: Buckets, y: Buckets, reqs: seq<Request>, want: real, now: real,
                                           asks: Asks, p: Policy, drops: seq<set<string>>, none: seq<set<string>>)
    requires |drops| == |reqs| == |none| && NothingDropped(none) && AllAsked(reqs, asks) && Gentle(p, asks)
             && want >= 0.0
    requires Alike(x, y, now, asks) && Synced(y, now) && ReserveDropsBy(p, x, reqs, want, now, drops)
    ensures ReservedAlike(ReserveAll(x, reqs, want, now, drops), ReserveAll(y, reqs, want, now, none), now, asks)
  {
    hide Gentle;
    if reqs == [] {
      hide Alike, Synced;
    } else {
      var n := |reqs| - 1;
      var r := reqs[n];
      assert r in reqs;
      ReserveAllAlike(x, y, reqs[..n], want, now, asks, p, drops[..n], none[..n]);
      var a, b := ReserveAll(x, reqs[..n], want, now, drops[..n]), ReserveAll(y, reqs[..n], want, now, none[..n]);
      assert none[n] == {};
      hide ReserveOne, ReservedAlike, MayCreate, Alike, Synced;
      if r.Charges() { ReserveOneAlike(a, b, r.key, r.limit, want, now, asks, p, drops[n]); }
    }
  }

  lemma {:induction false} ReturnedAlike(x: Buckets, y: Buckets, h: Held, now: real, asks: Asks)
    requires Alike(x, y, now, asks) && Synced(y, now) && h.restore >= 0.0
    ensures Alike(Returned(x, h), Returned(y, h), now, asks) && Synced(Returned(y, h), now)
  {
    if h.key in y && h.key !in x { SpareAfterReturn(y[h.key], h.key, now, h.restore, asks); }
    hide Spare;
  }

  lemma {:induction false} CancelAlike(x: Buckets, y: Buckets, held: seq<Held>, now: real, asks: Asks)
    requires Alike(x, y, now, asks) && Synced(y, now) && AtLeastZero(held)
    ensures Alike(Cancel(x, held), Cancel(y, held), now, asks) && Synced(Cancel(y, held), now)
  {
    hide Alike, Synced;
    if held == [] {
    } else {
      CancelAlike(x, y, held[..|held| - 1], now, asks);
      assert held[|held| - 1] in held;
      ReturnedAlike(Cancel(x, held[..|held| - 1]), Cancel(y, held[..|held| - 1]), held[|held| - 1], now, asks);
    }
  }

  /******* Whole runs *******/

  // What a call tells its caller.
  datatype Reply = Told(allowed: bool, retryAfter: real) | Wait(delay: real) | Quiet

  ghost function ReplyTo(s: Sys, t: Tick): Reply
    requires t.WellFormed()
  {
    match t.op
    case Single(key, limit, cost) =>
      var a := Allow(s.buckets, key, limit, cost, t.now, t.drops[0]);
      Told(a.allowed, a.retryAfter)
    case Ask(reqs, cost) =>
      var a := AllowAll(s.buckets, reqs, cost, t.now, t.drops);
      Told(a.allowed, a.retryAfter)
    case Reserve(reqs, cost) => Wait(ReserveAll(s.buckets, reqs, Want(cost), t.now, t.drops).delay)
    case _ => Quiet
  }

  ghost predicate TickAsks(t: Tick, asks: Asks) {
    match t.op
    case Single(key, limit, _) => !limit.Unlimited() ==> asks(key, limit)
    case Ask(reqs, _) => AllAsked(reqs, asks)
    case Reserve(reqs, _) => AllAsked(reqs, asks)
    case _ => true
  }

  // The same call, evicting nothing.
  ghost predicate SameCall(t: Tick, u: Tick) {
    t.WellFormed() && u.WellFormed() && t.op == u.op && t.now == u.now && NothingDropped(u.drops)
  }

  ghost predicate SysAlike(s: Sys, u: Sys, now: real, asks: Asks) {
    && Alike(s.buckets, u.buckets, now, asks)
    && Synced(u.buckets, now)
    && s.tickets == u.tickets
    && forall j :: 0 <= j < |s.tickets| ==> AtLeastZero(s.tickets[j])
  }

  lemma {:induction false} SingleAlike(s: Sys, u: Sys, t: Tick, plain: Tick, asks: Asks, p: Policy)
    requires SameCall(t, plain) && TickAsks(t, asks) && Gentle(p, asks) && t.op.Single?
    requires SysAlike(s, u, t.now, asks) && TickDropsBy(p, s.buckets, t)
    ensures ReplyTo(s, t) == ReplyTo(u, plain) && SysAlike(Step(s, t), Step(u, plain), t.now, asks)
  {
    var key, limit, want := t.op.key, t.op.limit, Want(t.op.cost);
    hide Alike, Synced, AssessOne, Settle, Gentle, MayCreate;
    if !limit.Unlimited() {
      var a, b := Unassessed(s.buckets), Unassessed(u.buckets);
      assert plain.drops[0] == {};
      AssessOneAlike(a, b, key, limit, want, t.now, asks, p, t.drops[0]);
      SettleAlike(AssessOne(a, key, limit, want, t.now, t.drops[0]), AssessOne(b, key, limit, want, t.now, {}), t.now,
                  asks);
    }
  }

  lemma {:induction false} StepAlike(s: Sys, u: Sys, t: Tick, plain: Tick, asks: Asks, p: Policy)
    requires SameCall(t, plain) && TickAsks(t, asks) && Gentle(p, asks)
    requires SysAlike(s, u, t.now, asks) && TickDropsBy(p, s.buckets, t)
    ensures ReplyTo(s, t) == ReplyTo(u, plain) && SysAlike(Step(s, t), Step(u, plain), t.now, asks)
  {
    match t.op
    case Single(_, _, _) => SingleAlike(s, u, t, plain, asks, p);
    case Ask(reqs, cost) =>
      hide Alike, Synced, AssessAll, Settle, Gentle;
      AssessAllAlike(s.buckets, u.buckets, reqs, Want(cost), t.now, asks, p, t.drops, plain.drops);
      SettleAlike(AssessAll(s.buckets, reqs, Want(cost), t.now, t.drops),
                  AssessAll(u.buckets, reqs, Want(cost), t.now, plain.drops), t.now, asks);
    case Reserve(reqs, cost) =>
      hide Alike, Synced, ReserveAll, Gentle;
      ReserveAllAlike(s.buckets, u.buckets, reqs, Want(cost), t.now, asks, p, t.drops, plain.drops);
    case Undo(j) =>
      hide Alike, Synced, Cancel, Gentle;
      if j < |s.tickets| { CancelAlike(s.buckets, u.buckets, s.tickets[j], t.now, asks); }
    case Forget(key) => hide Spare, Gentle;
  }

  lemma {:induction false} LaterAlike(s: Sys, u: Sys, now: real, later: real, asks: Asks)
    requires SysAlike(s, u, now, asks) && now <= later
    ensures SysAlike(s, u, later, asks)
  {
    forall k | k in u.buckets && k !in s.buckets ensures Spare(u.buckets[k], k, later, asks) {
      SpareLater(u.buckets[k], k, now, later, asks);
    }
    hide Spare;
  }

  ghost predicate SameCalls(ticks: seq<Tick>, plain: seq<Tick>) {
    |ticks| == |plain| && forall i :: 0 <= i < |ticks| ==> SameCall(ticks[i], plain[i])
  }

  // From `start` on, a clock that does not step back, asking as it may.
  ghost predicate Continues(ticks: seq<Tick>, start: real, asks: Asks) {
    && WellFormedRun(ticks) && Monotone(ticks)
    && forall i :: 0 <= i < |ticks| ==> start <= ticks[i].now && TickAsks(ticks[i], asks)
  }

  lemma {:induction false} PrefixDrops(p: Policy, s: Sys, ticks: seq<Tick>, n: nat)
    requires n <= |ticks| && WellFormedRun(ticks) && RunDropsBy(p, s, ticks)
    ensures WellFormedRun(ticks[..n]) && RunDropsBy(p, s, ticks[..n])
  {
    hide Run, TickDropsBy, Tick.WellFormed;
    var before := ticks[..n];
    forall i | 0 <= i < n ensures TickDropsBy(p, Run(s, before[..i]).buckets, before[i]) {
      assert before[..i] == ticks[..i] && before[i] == ticks[i];
    }
  }

  // Where the clock stands after the first `n` calls.
  ghost function ClockAt(ticks: seq<Tick>, start: real, n: nat): real
    requires n <= |ticks|
  {
    if n == 0 then start else ticks[n - 1].now
  }

  lemma {:induction false} RunAlike(s: Sys, u: Sys, ticks: seq<Tick>, plain: seq<Tick>, start: real, asks: Asks,
                                    p: Policy, n: nat)
    requires n <= |ticks| && SameCalls(ticks, plain) && Continues(ticks, start, asks) && WellFormedRun(plain)
             && Gentle(p, asks)
    requires SysAlike(s, u, start, asks) && RunDropsBy(p, s, ticks)
    ensures SysAlike(Run(s, ticks[..n]), Run(u, plain[..n]), ClockAt(ticks, start, n), asks)
  {
    if n == 0 {
      assert ticks[..0] == [] && plain[..0] == [];
    } else {
      var before, before' := ticks[..n - 1], plain[..n - 1];
      assert ticks[..n][..n - 1] == before && plain[..n][..n - 1] == before';
      assert Run(s, ticks[..n]) == Step(Run(s, before), ticks[n - 1])
             && Run(u, plain[..n]) == Step(Run(u, before'), plain[n - 1]);
      assert TickDropsBy(p, Run(s, before).buckets, ticks[n - 1]) && SameCall(ticks[n - 1], plain[n - 1])
             && TickAsks(ticks[n - 1], asks);
      assert ClockAt(ticks, start, n - 1) <= ticks[n - 1].now;
      hide Run, Step, TickDropsBy, SysAlike, TickAsks, Gentle, RunDropsBy, Continues, SameCalls, SameCall;
      RunAlike(s, u, ticks, plain, start, asks, p, n - 1);
      LaterAlike(Run(s, before), Run(u, before'), ClockAt(ticks, start, n - 1), ticks[n - 1].now, asks);
      StepAlike(Run(s, before), Run(u, before'), ticks[n - 1], plain[n - 1], asks, p);
    }
  }

  lemma {:induction false} RepliesAlike(s: Sys, u: Sys, ticks: seq<Tick>, plain: seq<Tick>, start: real, asks: Asks,
                                        p: Policy, i: nat)
    requires SameCalls(ticks, plain) && Continues(ticks, start, asks) && WellFormedRun(plain) && Gentle(p, asks)
    requires SysAlike(s, u, start, asks) && RunDropsBy(p, s, ticks) && i < |ticks|
    ensures ReplyTo(Run(s, ticks[..i]), ticks[i]) == ReplyTo(Run(u, plain[..i]), plain[i])
  {
    RunAlike(s, u, ticks, plain, start, asks, p, i);
    assert TickDropsBy(p, Run(s, ticks[..i]).buckets, ticks[i]) && SameCall(ticks[i], plain[i])
           && TickAsks(ticks[i], asks);
    assert ClockAt(ticks, start, i) <= ticks[i].now;
    hide Run, Step, TickDropsBy, SysAlike, TickAsks, Gentle, RunDropsBy, Continues, SameCalls, SameCall, ReplyTo;
    LaterAlike(Run(s, ticks[..i]), Run(u, plain[..i]), ClockAt(ticks, start, i), ticks[i].now, asks);
    StepAlike(Run(s, ticks[..i]), Run(u, plain[..i]), ticks[i], plain[i], asks, p);
  }

  // A limiter as its calls leave it.
  ghost predicate Settled(s: Sys, now: real) {
    Synced(s.buckets, now) && forall j :: 0 <= j < |s.tickets| ==> AtLeastZero(s.tickets[j])
  }

  /**
   Idle eviction is unobservable. Take any run under a clock that does not
   step back, in which every limit can refill within the idle time and every
   bucket dropped was idle and not in debt; and the same calls against a
   limiter that never evicts. Every call gets the same answer from both.
   */
  lemma {:induction false} IdleEvictionUnobservable(s: Sys, ticks: seq<Tick>, plain: seq<Tick>, start: real,
                                                    idleTTL: real, i: nat)
    requires SameCalls(ticks, plain) && Continues(ticks, start, (k, l) => Fits(l, idleTTL)) && WellFormedRun(plain)
    requires idleTTL >= 0.0 && Settled(s, start) && RunDropsBy(Harmless(idleTTL), s, ticks) && i < |ticks|
    ensures ReplyTo(Run(s, ticks[..i]), ticks[i]) == ReplyTo(Run(s, plain[..i]), plain[i])
  {
    hide Fits;
    RepliesAlike(s, s, ticks, plain, start, (k, l) => Fits(l, idleTTL), Harmless(idleTTL), i);
  }

  // So is dropping, at any time, buckets that are spare.
  lemma {:induction false} SpareEvictionUnobservable(s: Sys, ticks: seq<Tick>, plain: seq<Tick>, start: real,
                                                     asks: Asks, i: nat)
    requires SameCalls(ticks, plain) && Continues(ticks, start, asks) && WellFormedRun(plain)
    requires Settled(s, start) && RunDropsBy(Sparing(asks), s, ticks) && i < |ticks|
    ensures ReplyTo(Run(s, ticks[..i]), ticks[i]) == ReplyTo(Run(s, plain[..i]), plain[i])
  {
    RepliesAlike(s, s, ticks, plain, start, asks, Sparing(asks), i);
  }

  /******* When a drop is noticed *******/

  // What a single call tells and leaves depends on its own bucket only.
  lemma {:induction false} AllowIs(m: Buckets, key: string, limit: Limit, cost: int, now: real, drop: set<string>)
    requires !limit.Unlimited()
    ensures var a := Allow(m, key, limit, cost, now, drop);
            var rest := if key in m then m else m - drop;
            var b := Refilled(if key in m then Rerated(m[key], limit) else Fresh(limit, now), now);
            var d := Assess(b, Want(cost));
            && a.buckets == rest[key := Applied(b, d)]
            && a.allowed == !d.Refuse?
            && a.retryAfter == if d.Refuse? then d.retryAfter else 0.0
  {
    var want, x := Want(cost), Lookup(m, key, limit, now, drop);
    var b := Refilled(x[key], now);
    var d := Assess(b, want);
    if d.Refuse? { WaitIsPositive(b, want); }
    AssessOneIs(Unassessed(m), key, limit, want, now, drop);
    var ps := [Pending(key, d)];
    assert [] + ps == ps && ps[..0] == [];
    hide Refilled, Rerated, Fresh, Assess, AssessOne, Applied, Limit.Capacity, Limit.PerSec;
    var y := x[key := b];
    assert ApplyAll(y, []) == y;
    assert ApplyAll(y, ps) == y[key := Applied(b, d)];
  }

  // The largest cost a bucket of this limit could hold.
  function WholeCost(l: Limit): int { if l.burst > 0 then l.burst else l.perMinute }

  // A bucket that is not filled refuses it; a new one does not.
  lemma {:induction false} WholeCostTells(m: Buckets, key: string, limit: Limit, now: real, drop: set<string>)
    requires !limit.Unlimited()
    ensures key !in m ==> Allow(m, key, limit, WholeCost(limit), now, drop).allowed
    ensures key in m && m[key].refilled <= now && m[key].tokens <= m[key].capacity ==>
              (Allow(m, key, limit, WholeCost(limit), now, drop).allowed <==> Filled(m[key], limit, now))
  {
    AllowIs(m, key, limit, WholeCost(limit), now, drop);
    assert Want(WholeCost(limit)) == limit.Capacity();
    if key in m && m[key].refilled == now { assert Earned(0.0, limit.PerSec()) == 0.0; }
    hide Limit.Capacity, Limit.PerSec, Earned, Allow, WaitFor;
  }

  ghost predicate SameAnswer(a: Answer, b: Answer) { a.allowed == b.allowed && a.retryAfter == b.retryAfter }

  // Whatever the next call for the key costs, it is answered as if the bucket
  // had been dropped, exactly when the bucket is filled.
  lemma {:induction false} DropIsExact(m: Buckets, k: string, limit: Limit, now: real)
    requires !limit.Unlimited() && k in m && m[k].refilled <= now && m[k].tokens <= m[k].capacity
    ensures (forall cost: int :: SameAnswer(Allow(m, k, limit, cost, now, {}), Allow(m - {k}, k, limit, cost, now, {})))
            <==> Filled(m[k], limit, now)
  {
    if Filled(m[k], limit, now) {
      assert Spare(m[k], k, now, (key, l) => l == limit);
      SpareIsFresh(m[k], k, limit, now, (key, l) => l == limit);
      hide Filled, Allow;
      assert Refilled(Fresh(limit, now), now) == Fresh(limit, now);
      forall cost: int ensures SameAnswer(Allow(m, k, limit, cost, now, {}), Allow(m - {k}, k, limit, cost, now, {})) {
        AllowIs(m, k, limit, cost, now, {});
        AllowIs(m - {k}, k, limit, cost, now, {});
      }
    } else {
      hide Filled, Allow;
      WholeCostTells(m, k, limit, now, {});
      WholeCostTells(m - {k}, k, limit, now, {});
      assert !SameAnswer(Allow(m, k, limit, WholeCost(limit), now, {}),
                         Allow(m - {k}, k, limit, WholeCost(limit), now, {}));
    }
  }

  function Without(s: Sys, k: string): Sys { s.(buckets := s.buckets - {k}) }

  ghost predicate NothingEvicted(ticks: seq<Tick>) { forall i :: 0 <= i < |ticks| ==> NothingDropped(ticks[i].drops) }

  ghost predicate SameReplies(s: Sys, u: Sys, ticks: seq<Tick>)
    requires WellFormedRun(ticks)
  {
    forall i :: 0 <= i < |ticks| ==> ReplyTo(Run(s, ticks[..i]), ticks[i]) == ReplyTo(Run(u, ticks[..i]), ticks[i])
  }

  // No calls that can follow tell the limiter from one that lost the bucket.
  ghost predicate Unnoticed(s: Sys, k: string, now: real, asks: Asks) {
    forall ticks :: Continues(ticks, now, asks) && NothingEvicted(ticks) ==> SameReplies(Without(s, k), s, ticks)
  }

  lemma {:induction false} AssessesNothing(p: Policy, m: Buckets, reqs: seq<Request>, want: real, now: real,
                                           drops: seq<set<string>>)
    requires |drops| == |reqs| && NothingDropped(drops) && !p.Bounded?
    ensures AssessDropsBy(p, m, reqs, want, now, drops)
  {
    if reqs == [] {
    } else {
      AssessesNothing(p, m, reqs[..|reqs| - 1], want, now, drops[..|reqs| - 1]);
    }
  }

  lemma {:induction false} ReservesNothing(p: Policy, m: Buckets, reqs: seq<Request>, want: real, now: real,
                                           drops: seq<set<string>>)
    requires |drops| == |reqs| && NothingDropped(drops) && !p.Bounded?
    ensures ReserveDropsBy(p, m, reqs, want, now, drops)
  {
    if reqs == [] {
    } else {
      ReservesNothing(p, m, reqs[..|reqs| - 1], want, now, drops[..|reqs| - 1]);
    }
  }

  lemma {:induction false} DropsNothing(p: Policy, s: Sys, ticks: seq<Tick>)
    requires WellFormedRun(ticks) && NothingEvicted(ticks) && !p.Bounded?
    ensures RunDropsBy(p, s, ticks)
  {
    hide Run, AssessDropsBy, ReserveDropsBy;
    forall i | 0 <= i < |ticks| ensures TickDropsBy(p, Run(s, ticks[..i]).buckets, ticks[i]) {
      var m, t := Run(s, ticks[..i]).buckets, ticks[i];
      assert t in ticks && t.WellFormed();
      match t.op
      case Ask(reqs, cost) => AssessesNothing(p, m, reqs, Want(cost), t.now, t.drops);
      case Reserve(reqs, cost) => ReservesNothing(p, m, reqs, Want(cost), t.now, t.drops);
      case _ =>
    }
  }

  lemma {:induction false} SpareIsUnnoticed(s: Sys, k: string, now: real, asks: Asks)
    requires Settled(s, now) && k in s.buckets && Spare(s.buckets[k], k, now, asks)
    ensures Unnoticed(s, k, now, asks)
  {
    hide Spare;
    assert SysAlike(Without(s, k), s, now, asks);
    forall ticks | Continues(ticks, now, asks) && NothingEvicted(ticks) ensures SameReplies(Without(s, k), s, ticks) {
      DropsNothing(Sparing(asks), Without(s, k), ticks);
      assert SameCalls(ticks, ticks);
      hide Continues, NothingEvicted, SysAlike, Run, ReplyTo, SameCalls, RunDropsBy, Without;
      forall i | 0 <= i < |ticks|
        ensures ReplyTo(Run(Without(s, k), ticks[..i]), ticks[i]) == ReplyTo(Run(s, ticks[..i]), ticks[i])
      {
        RepliesAlike(Without(s, k), s, ticks, ticks, now, asks, Sparing(asks), i);
      }
    }
  }

  lemma {:induction false} UnfilledIsNoticed(s: Sys, k: string, limit: Limit, now: real, asks: Asks)
    requires k in s.buckets && s.buckets[k].refilled <= now && s.buckets[k].tokens <= s.buckets[k].capacity
    requires !limit.Unlimited() && asks(k, limit) && !Filled(s.buckets[k], limit, now)
    ensures !Unnoticed(s, k, now, asks)
  {
    var t := Tick(Single(k, limit, WholeCost(limit)), now, [{}]);
    WholeCostTells(s.buckets, k, limit, now, {});
    WholeCostTells(s.buckets - {k}, k, limit, now, {});
    hide Filled, Allow;
    assert [t][..0] == [] && Run(s, []) == s && Run(Without(s, k), []) == Without(s, k);
    assert Continues([t], now, asks) && NothingEvicted([t]);
    assert ReplyTo(Run(Without(s, k), [t][..0]), [t][0]) != ReplyTo(Run(s, [t][..0]), [t][0]);
    assert !SameReplies(Without(s, k), s, [t]);
  }

  /**
   Dropping a bucket goes unnoticed by every continuation that asks for its key
   under these limits, whatever else it calls, exactly when under each of them
   waiting would have filled the bucket by now.
   */
  lemma {:induction false} UnnoticedIffSpare(s: Sys, k: string, now: real, asks: Asks)
    requires Settled(s, now) && k in s.buckets && s.buckets[k].tokens <= s.buckets[k].capacity
    ensures Unnoticed(s, k, now, asks) <==> Spare(s.buckets[k], k, now, asks)
  {
    hide Filled, Unnoticed;
    if Spare(s.buckets[k], k, now, asks) {
      SpareIsUnnoticed(s, k, now, asks);
    } else {
      var limit: Limit :| asks(k, limit) && !limit.Unlimited() && !Filled(s.buckets[k], limit, now);
      UnfilledIsNoticed(s, k, limit, now, asks);
    }
  }

  /******* Every state a run can reach *******/

  // A bucket as the calls up to now leave it.
  ghost predicate Sane(b: Bucket, now: real) {
    b.refilled == b.seen <= now && 0.0 <= b.capacity && b.tokens <= b.capacity
  }

  ghost predicate AllSane(m: Buckets, now: real) { forall k :: k in m ==> Sane(m[k], now) }

  lemma {:induction false} SaneReady(m: Buckets, key: string, limit: Limit, now: real, drop: set<string>)
    requires !limit.Unlimited() && AllSane(m, now)
    ensures var x := Lookup(m, key, limit, now, drop); AllSane(x[key := Refilled(x[key], now)], now)
  {
    assert limit.Capacity() >= 0.0;
    hide Limit.Capacity, Limit.PerSec, Earned;
  }

  lemma {:induction false} SaneUpdate(m: Buckets, key: string, b: Bucket, now: real)
    requires AllSane(m, now) && Sane(b, now)
    ensures AllSane(m[key := b], now)
  {
    hide Sane;
  }

  // Only charges that are not negative are pending.
  ghost predicate Charges(ps: seq<Pending>) { forall p :: p in ps && p.decision.Spend? ==> p.decision.amount >= 0.0 }

  lemma {:induction false} SaneAssessOne(a: Assessment, key: string, limit: Limit, want: real, now: real,
                                         drop: set<string>)
    requires !limit.Unlimited() && want >= 0.0 && AllSane(a.buckets, now) && Charges(a.pending)
    requires forall p :: p in a.pending ==> p.key in a.buckets
    ensures var r := AssessOne(a, key, limit, want, now, drop); AllSane(r.buckets, now) && Charges(r.pending)
  {
    SaneReady(a.buckets, key, limit, now, drop);
    SurvivingWithin(a.pending, Lookup(a.buckets, key, limit, now, drop));
    hide AllSane, Lookup, Refilled, Surviving;
  }

  lemma {:induction false} SaneAssessAll(m: Buckets, reqs: seq<Request>, want: real, now: real, drops: seq<set<string>>)
    requires |drops| == |reqs| && want >= 0.0 && AllSane(m, now)
    ensures var r := AssessAll(m, reqs, want, now, drops); AllSane(r.buckets, now) && Charges(r.pending)
  {
    hide AllSane;
    if reqs == [] {
    } else {
      var n := |reqs| - 1;
      SaneAssessAll(m, reqs[..n], want, now, drops[..n]);
      hide AssessOne, Charges;
      if reqs[n].Charges() {
        SaneAssessOne(AssessAll(m, reqs[..n], want, now, drops[..n]), reqs[n].key, reqs[n].limit, want, now, drops[n]);
      }
    }
  }

  lemma {:induction false} SaneApplyAll(m: Buckets, ps: seq<Pending>, now: real)
    requires AllSane(m, now) && Charges(ps) && forall p :: p in ps ==> p.key in m
    ensures AllSane(ApplyAll(m, ps), now)
  {
    if ps == [] {
    } else {
      var init, p := ps[..|ps| - 1], ps[|ps| - 1];
      assert p in ps;
      SaneApplyAll(m, init, now);
      var r := ApplyAll(m, init);
      assert Sane(r[p.key], now);
      SaneUpdate(r, p.key, Applied(r[p.key], p.decision), now);
    }
  }

  lemma {:induction false} SaneSettle(a: Assessment, now: real)
    requires AllSane(a.buckets, now) && Charges(a.pending) && forall p :: p in a.pending ==> p.key in a.buckets
    ensures AllSane(Settle(a).buckets, now)
  {
    SaneApplyAll(a.buckets, a.pending, now);
    hide AllSane, Charges;
  }

  lemma {:induction false} SaneReserveAll(m: Buckets, reqs: seq<Request>, want: real, now: real,
                                          drops: seq<set<string>>)
    requires |drops| == |reqs| && want >= 0.0 && AllSane(m, now)
    ensures var r := ReserveAll(m, reqs, want, now, drops); AllSane(r.buckets, now) && AtLeastZero(r.held)
  {
    if reqs == [] {
    } else {
      var n := |reqs| - 1;
      var q := reqs[n];
      SaneReserveAll(m, reqs[..n], want, now, drops[..n]);
      var r := ReserveAll(m, reqs[..n], want, now, drops[..n]);
      if q.Charges() {
        SaneReady(r.buckets, q.key, q.limit, now, drops[n]);
        var x := Lookup(r.buckets, q.key, q.limit, now, drops[n]);
        var b := Refilled(x[q.key], now);
        assert Sane(x[q.key := b][q.key], now);
        SaneUpdate(x[q.key := b], q.key, Debited(b, want), now);
        hide AllSane, Lookup, Refilled, DelayAfter;
        assert x[q.key := b][q.key := Debited(b, want)] == x[q.key := Debited(b, want)];
        assert Restores(b, want) >= 0.0;
      }
    }
  }

  lemma {:induction false} SaneCancel(m: Buckets, held: seq<Held>, now: real)
    requires AllSane(m, now)
    ensures AllSane(Cancel(m, held), now)
  {
    if held == [] {
    } else {
      SaneCancel(m, held[..|held| - 1], now);
    }
  }

  // What holds of a limiter whose calls came at `now` or before.
  ghost predicate SysSane(s: Sys, now: real) {
    AllSane(s.buckets, now) && forall j :: 0 <= j < |s.tickets| ==> AtLeastZero(s.tickets[j])
  }

  lemma {:induction false} SaneStep(s: Sys, t: Tick)
    requires t.WellFormed() && SysSane(s, t.now)
    ensures SysSane(Step(s, t), t.now)
  {
    match t.op
    case Single(key, limit, cost) =>
      hide AllSane, AssessOne, Settle, AtLeastZero;
      if !limit.Unlimited() {
        SaneAssessOne(Unassessed(s.buckets), key, limit, Want(cost), t.now, t.drops[0]);
        SaneSettle(AssessOne(Unassessed(s.buckets), key, limit, Want(cost), t.now, t.drops[0]), t.now);
      }
    case Ask(reqs, cost) =>
      hide AllSane, AssessAll, Settle, AtLeastZero, Charges;
      SaneAssessAll(s.buckets, reqs, Want(cost), t.now, t.drops);
      SaneSettle(AssessAll(s.buckets, reqs, Want(cost), t.now, t.drops), t.now);
    case Reserve(reqs, cost) =>
      hide AllSane, ReserveAll, AtLeastZero;
      SaneReserveAll(s.buckets, reqs, Want(cost), t.now, t.drops);
    case Undo(j) =>
      hide AllSane, Cancel;
      if j < |s.tickets| { SaneCancel(s.buckets, s.tickets[j], t.now); }
    case Forget(_) => hide Sane, AtLeastZero;
  }

  lemma {:induction false} SaneLater(s: Sys, now: real, later: real)
    requires SysSane(s, now) && now <= later
    ensures SysSane(s, later) && Settled(s, later)
  {
    hide AtLeastZero;
  }

  const EMPTY: Sys := Sys(map[], [])

  lemma {:induction false} SaneRun(ticks: seq<Tick>, now: real)
    requires WellFormedRun(ticks) && Monotone(ticks) && forall i :: 0 <= i < |ticks| ==> ticks[i].now <= now
    ensures SysSane(Run(EMPTY, ticks), now) && Settled(Run(EMPTY, ticks), now)
  {
    if ticks == [] {
    } else {
      var n := |ticks| - 1;
      var before, t := ticks[..n], ticks[n];
      SaneRun(before, t.now);
      hide SysSane, Step, Settled, Tick.WellFormed;
      assert t in ticks;
      SaneStep(Run(EMPTY, before), t);
      SaneLater(Run(EMPTY, ticks), t.now, now);
    }
  }

  // In every state that calls and evictions of any kind can reach.
  lemma {:induction false} UnnoticedIffSpareAfterRun(ticks: seq<Tick>, k: string, now: real, asks: Asks)
    requires WellFormedRun(ticks) && Monotone(ticks) && forall i :: 0 <= i < |ticks| ==> ticks[i].now <= now
    requires k in Run(EMPTY, ticks).buckets
    ensures Unnoticed(Run(EMPTY, ticks), k, now, asks) <==> Spare(Run(EMPTY, ticks).buckets[k], k, now, asks)
  {
    SaneRun(ticks, now);
    hide Run, Spare, Unnoticed, AtLeastZero;
    assert Sane(Run(EMPTY, ticks).buckets[k], now);
    UnnoticedIffSpare(Run(EMPTY, ticks), k, now, asks);
  }

  /******* An eviction that is noticed *******/

  // A bucket from which the whole capacity was taken `n` times at once.
  function Debt(limit: Limit, now: real, n: nat): Bucket {
    Fresh(limit, now).(tokens := limit.Capacity() - n as real * limit.Capacity())
  }

  lemma {:induction false} DebtGrows(limit: Limit, now: real, n: nat)
    ensures Debited(Refilled(Rerated(Debt(limit, now, n), limit), now), limit.Capacity()) == Debt(limit, now, n + 1)
    ensures Debt(limit, now, 0) == Fresh(limit, now) == Rerated(Fresh(limit, now), limit)
  {
    var c := limit.Capacity();
    assert (n + 1) as real * c == n as real * c + c && 0.0 * c == 0.0;
    hide Limit.Capacity, Limit.PerSec, Earned;
  }

  lemma {:induction false} ReserveOnce(c: Reserved, r: Request, now: real, n: nat)
    requires r.Charges() && c.buckets == (if n == 0 then map[] else map[r.key := Debt(r.limit, now, n)])
    ensures ReserveOne(c, r.key, r.limit, r.limit.Capacity(), now, {}).buckets ==
            map[r.key := Debt(r.limit, now, n + 1)]
  {
    DebtGrows(r.limit, now, n);
    hide Debt, Debited, Refilled, Rerated, Fresh, DelayAfter, Restores, Limit.Capacity, Limit.PerSec;
    assert c.buckets - {} == c.buckets;
  }

  lemma {:induction false} ReserveRepeatedly(reqs: seq<Request>, r: Request, now: real, drops: seq<set<string>>)
    requires r.Charges() && |drops| == |reqs| && NothingDropped(drops) && forall i :: 0 <= i < |reqs| ==> reqs[i] == r
    ensures ReserveAll(map[], reqs, r.limit.Capacity(), now, drops).buckets ==
            if reqs == [] then map[] else map[r.key := Debt(r.limit, now, |reqs|)]
  {
    hide Debt, Limit.Capacity, ReserveOne;
    if reqs == [] {
    } else {
      var n := |reqs| - 1;
      ReserveRepeatedly(reqs[..n], r, now, drops[..n]);
      assert drops[n] == {} && reqs[n] == r;
      ReserveOnce(ReserveAll(map[], reqs[..n], r.limit.Capacity(), now, drops[..n]), r, now, n);
    }
  }

  // With room for one bucket, the first request finds it and the others the bucket.
  lemma {:induction false} ReserveDropsNothing(reqs: seq<Request>, r: Request, now: real, drops: seq<set<string>>,
                                               idleTTL: real)
    requires r.Charges() && |drops| == |reqs| && NothingDropped(drops) && forall i :: 0 <= i < |reqs| ==> reqs[i] == r
    ensures ReserveDropsBy(Bounded(1, idleTTL), map[], reqs, r.limit.Capacity(), now, drops)
  {
    hide Debt, Limit.Capacity, ReserveAll, IdleKeys;
    if reqs == [] {
    } else {
      var n := |reqs| - 1;
      ReserveDropsNothing(reqs[..n], r, now, drops[..n], idleTTL);
      ReserveRepeatedly(reqs[..n], r, now, drops[..n]);
      assert drops[n] == {};
    }
  }

  // Enough repeats to stay in debt for the whole wait.
  lemma {:induction false} EnoughDebt(limit: Limit, wait: real) returns (n: nat)
    requires !limit.Unlimited() && wait > 0.0
    ensures n >= 1 && n as real * limit.Capacity() > Earned(wait, limit.PerSec())
  {
    var c, e := limit.Capacity(), Earned(wait, limit.PerSec());
    assert c > 0.0 && limit.PerSec() > 0.0 && e > 0.0;
    var q := e / c;
    assert q * c == e && q > 0.0;
    n := q.Floor + 1;
    assert n as real > q;
    assert n as real * c > q * c;
  }

  function Repeated(r: Request, n: nat): (reqs: seq<Request>)
    ensures |reqs| == n && forall i :: 0 <= i < n ==> reqs[i] == r
  {
    seq(n, _ => r)
  }

  function Nones(n: nat): (drops: seq<set<string>>)
    ensures |drops| == n && NothingDropped(drops)
  {
    seq(n, _ => {})
  }

  // The two runs: reserve, and after the wait ask for another key, then for
  // the whole of this one.
  function DebtRun(k: string, j: string, limit: Limit, n: nat, wait: real, first: set<string>,
                   second: set<string>): seq<Tick>
  {
    [Tick(Reserve(Repeated(Request(k, limit), n), WholeCost(limit)), 0.0, Nones(n)),
     Tick(Single(j, limit, 1), wait, [first]),
     Tick(Single(k, limit, WholeCost(limit)), wait, [second])]
  }

  lemma {:induction false} DebtTicks(k: string, j: string, limit: Limit, n: nat, wait: real, first: set<string>,
                                     second: set<string>)
    ensures var ticks := DebtRun(k, j, limit, n, wait, first, second);
            && WellFormedRun(ticks) && WellFormedRun(ticks[..1]) && WellFormedRun(ticks[..2])
            && Run(EMPTY, ticks[..0]) == EMPTY
            && Run(EMPTY, ticks[..1]) == Step(EMPTY, ticks[0])
            && Run(EMPTY, ticks[..2]) == Step(Run(EMPTY, ticks[..1]), ticks[1])
  {
    var ticks := DebtRun(k, j, limit, n, wait, first, second);
    assert ticks[..0] == [] && ticks[..1][..0] == [] && ticks[..2][..1] == ticks[..1];
    hide Step;
  }

  lemma {:induction false} InDebt(k: string, j: string, limit: Limit, n: nat, wait: real, first: set<string>,
                                  second: set<string>)
    requires !limit.Unlimited() && k != "" && n >= 1
    ensures var t := DebtRun(k, j, limit, n, wait, first, second)[0];
            t.WellFormed() && Step(EMPTY, t).buckets == map[k := Debt(limit, 0.0, n)]
  {
    assert Want(WholeCost(limit)) == limit.Capacity();
    hide Debt, Limit.Capacity, ReserveAll, Want;
    ReserveRepeatedly(Repeated(Request(k, limit), n), Request(k, limit), 0.0, Nones(n));
  }

  // Asking for the other key: with the first bucket dropped, or beside it.
  lemma {:induction false} OtherKey(m: Buckets, j: string, limit: Limit, now: real, drop: set<string>)
    requires !limit.Unlimited() && j !in m
    ensures var after := Allow(m, j, limit, 1, now, drop).buckets;
            && j in after && after[j].seen == now && after.Keys == (m - drop).Keys + {j}
            && forall k :: k in m && k !in drop ==> after[k] == m[k]
  {
    AllowIs(m, j, limit, 1, now, drop);
    hide Allow, Fresh, Rerated, Limit.Capacity, Limit.PerSec;
  }

  lemma {:induction false} DebtStays(limit: Limit, n: nat, wait: real)
    requires !limit.Unlimited() && n >= 1 && wait > 0.0 && n as real * limit.Capacity() > Earned(wait, limit.PerSec())
    ensures var b := Debt(limit, 0.0, n);
            !Filled(b, limit, wait) && b.refilled <= wait && b.tokens <= b.capacity && b.seen == 0.0
  {
    var c := limit.Capacity();
    assert c > 0.0 && n as real * c >= c;
    hide Limit.Capacity, Limit.PerSec, Earned;
  }

  // Kept, the bucket refuses; dropped, it is new and admits.
  lemma {:induction false} KeptRefuses(k: string, j: string, limit: Limit, n: nat, wait: real)
    requires !limit.Unlimited() && k != "" && j != k && n >= 1 && wait > 0.0
    requires n as real * limit.Capacity() > Earned(wait, limit.PerSec())
    ensures var plain := DebtRun(k, j, limit, n, wait, {}, {});
            WellFormedRun(plain) && ReplyTo(Run(EMPTY, plain[..2]), plain[2]).Told?
              && !ReplyTo(Run(EMPTY, plain[..2]), plain[2]).allowed
  {
    DebtTicks(k, j, limit, n, wait, {}, {});
    InDebt(k, j, limit, n, wait, {}, {});
    DebtStays(limit, n, wait);
    hide Debt, Filled, Allow, Limit.Capacity, Limit.PerSec, Run;
    var m := map[k := Debt(limit, 0.0, n)];
    OtherKey(m, j, limit, wait, {});
    var after := Allow(m, j, limit, 1, wait, {}).buckets;
    assert k in after && after[k] == m[k];
    WholeCostTells(after, k, limit, wait, {});
  }

  lemma {:induction false} DroppedAdmits(k: string, j: string, limit: Limit, n: nat, wait: real)
    requires !limit.Unlimited() && k != "" && j != k && n >= 1
    ensures var ticks := DebtRun(k, j, limit, n, wait, {k}, {j});
            && WellFormedRun(ticks) && Run(EMPTY, ticks[..1]).buckets == map[k := Debt(limit, 0.0, n)]
            && Run(EMPTY, ticks[..2]).buckets.Keys == {j} && Run(EMPTY, ticks[..2]).buckets[j].seen == wait
            && ReplyTo(Run(EMPTY, ticks[..2]), ticks[2]).Told? && ReplyTo(Run(EMPTY, ticks[..2]), ticks[2]).allowed
  {
    DebtTicks(k, j, limit, n, wait, {k}, {j});
    InDebt(k, j, limit, n, wait, {k}, {j});
    hide Debt, Allow, Limit.Capacity, Limit.PerSec, Run;
    var m := map[k := Debt(limit, 0.0, n)];
    OtherKey(m, j, limit, wait, {k});
    var after := Allow(m, j, limit, 1, wait, {k}).buckets;
    assert after.Keys == {j};
    WholeCostTells(after, k, limit, wait, {j});
  }

  // Both evictions are the code's own: the idle bucket first, then the only one.
  lemma {:induction false} EvictsIdle(m: Buckets, k: string, idleTTL: real, now: real)
    requires m.Keys == {k} && Idle(m[k], now, idleTTL)
    ensures EvictionDrops(m, now, 1, idleTTL, {k})
  {
    assert IdleKeys(m, now, idleTTL) == {k} && |m| == |m.Keys| == 1 && m.Keys - {k} == {};
  }

  lemma {:induction false} EvictsOnly(m: Buckets, j: string, idleTTL: real, now: real)
    requires m.Keys == {j} && !Idle(m[j], now, idleTTL)
    ensures EvictionDrops(m, now, 1, idleTTL, {j})
  {
    assert IdleKeys(m, now, idleTTL) == {} && |m| == |m.Keys| == 1 && m.Keys - {} == {j};
    assert Enumerates([j], {j}) && PickOldest(m, [j]) == j;
    assert {} + {PickOldest(m, [j])} == {j};
  }

  lemma {:induction false} DebtEvicted(k: string, j: string, limit: Limit, n: nat, idleTTL: real, wait: real)
    requires !limit.Unlimited() && k != "" && j != k && n >= 1 && 0.0 <= idleTTL < wait
    ensures var ticks := DebtRun(k, j, limit, n, wait, {k}, {j});
            && WellFormedRun(ticks)
            && EvictionDrops(Run(EMPTY, ticks[..1]).buckets, wait, 1, idleTTL, {k})
            && EvictionDrops(Run(EMPTY, ticks[..2]).buckets, wait, 1, idleTTL, {j})
  {
    var ticks := DebtRun(k, j, limit, n, wait, {k}, {j});
    DroppedAdmits(k, j, limit, n, wait);
    assert Debt(limit, 0.0, n).seen == 0.0;
    hide Debt, Run, ReplyTo, EvictionDrops, DebtRun;
    EvictsIdle(Run(EMPTY, ticks[..1]).buckets, k, idleTTL, wait);
    EvictsOnly(Run(EMPTY, ticks[..2]).buckets, j, idleTTL, wait);
  }

  lemma {:induction false} DebtReserves(k: string, limit: Limit, n: nat, idleTTL: real)
    requires !limit.Unlimited() && k != ""
    ensures ReserveDropsBy(Bounded(1, idleTTL), map[], Repeated(Request(k, limit), n), Want(WholeCost(limit)), 0.0,
                           Nones(n))
  {
    assert Want(WholeCost(limit)) == limit.Capacity();
    hide ReserveDropsBy, Want, Limit.Capacity;
    ReserveDropsNothing(Repeated(Request(k, limit), n), Request(k, limit), 0.0, Nones(n), idleTTL);
  }

  lemma {:induction false} DebtRunEvicts(k: string, j: string, limit: Limit, n: nat, idleTTL: real, wait: real)
    requires !limit.Unlimited() && k != "" && j != k && n >= 1 && 0.0 <= idleTTL < wait
    ensures var ticks := DebtRun(k, j, limit, n, wait, {k}, {j});
            WellFormedRun(ticks) && RunDropsBy(Bounded(1, idleTTL), EMPTY, ticks)
  {
    var ticks := DebtRun(k, j, limit, n, wait, {k}, {j});
    assert |ticks| == 3 && ticks[0].op.Reserve? && ticks[1].op.Single? && ticks[2].op.Single?;
    DebtTicks(k, j, limit, n, wait, {k}, {j});
    hide Run, EvictionDrops, ReserveDropsBy, Want, WholeCost, Repeated, Nones, Limit.Unlimited;
    DebtReserves(k, limit, n, idleTTL);
    DebtEvicted(k, j, limit, n, idleTTL, wait);
    forall i | 0 <= i < |ticks| ensures TickDropsBy(Bounded(1, idleTTL), Run(EMPTY, ticks[..i]).buckets, ticks[i]) {
    }
  }

  lemma {:induction false} DebtRunsMatch(k: string, j: string, limit: Limit, n: nat, wait: real)
    requires wait >= 0.0
    ensures var ticks, plain := DebtRun(k, j, limit, n, wait, {k}, {j}), DebtRun(k, j, limit, n, wait, {}, {});
            SameCalls(ticks, plain) && Monotone(ticks)
  {
    hide Repeated, Nones, WholeCost;
  }

  /**
   A limiter with room for one bucket, from empty and evicting as the code
   does: the whole capacity is reserved `n` times, the bucket goes idle and is
   evicted. The next call for it is answered otherwise than by a limiter that
   never evicts, if by then less was earned than was taken: once is enough for
   a burst above the rate times the wait.
   */
  lemma {:induction false} EvictionIsNoticed(k: string, j: string, limit: Limit, n: nat, idleTTL: real, wait: real)
    requires !limit.Unlimited() && k != "" && j != k && 0.0 <= idleTTL < wait
    requires n >= 1 && n as real * limit.Capacity() > Earned(wait, limit.PerSec())
    ensures var ticks, plain := DebtRun(k, j, limit, n, wait, {k}, {j}), DebtRun(k, j, limit, n, wait, {}, {});
            && WellFormedRun(ticks) && WellFormedRun(plain) && SameCalls(ticks, plain) && Monotone(ticks)
            && RunDropsBy(Bounded(1, idleTTL), EMPTY, ticks)
            && ReplyTo(Run(EMPTY, ticks[..2]), ticks[2]) != ReplyTo(Run(EMPTY, plain[..2]), plain[2])
  {
    var ticks, plain := DebtRun(k, j, limit, n, wait, {k}, {j}), DebtRun(k, j, limit, n, wait, {}, {});
    DebtRunsMatch(k, j, limit, n, wait);
    assert |ticks| == |plain| == 3;
    hide DebtRun, RunDropsBy, Run, ReplyTo, SameCalls, Monotone, Limit.Capacity, Limit.PerSec, Earned, Debt;
    DebtRunEvicts(k, j, limit, n, idleTTL, wait);
    KeptRefuses(k, j, limit, n, wait);
    DroppedAdmits(k, j, limit, n, wait);
  }

  // For every limit, idle time and wait there is such a debt.
  lemma {:induction false} EvictionForgivesDebt(k: string, j: string, limit: Limit, idleTTL: real, wait: real)
    returns (n: nat)
    requires !limit.Unlimited() && k != "" && j != k && 0.0 <= idleTTL < wait
    ensures var ticks, plain := DebtRun(k, j, limit, n, wait, {k}, {j}), DebtRun(k, j, limit, n, wait, {}, {});
            && WellFormedRun(ticks) && WellFormedRun(plain) && RunDropsBy(Bounded(1, idleTTL), EMPTY, ticks)
            && ReplyTo(Run(EMPTY, ticks[..2]), ticks[2]) != ReplyTo(Run(EMPTY, plain[..2]), plain[2])
  {
    n := EnoughDebt(limit, wait);
    assert |DebtRun(k, j, limit, n, wait, {k}, {j})| == |DebtRun(k, j, limit, n, wait, {}, {})| == 3;
    hide *;
    EvictionIsNoticed(k, j, limit, n, idleTTL, wait);
  }
}
