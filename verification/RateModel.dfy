/**
 The send-rate limiter as a function on values: per-key token buckets, charged
 by single calls, by all-or-nothing calls and by reservations that may go into
 debt. Times are in seconds and balances in tokens, both exact.

 Which buckets an eviction drops depends on the iteration order of a hash map,
 so every call takes, request by request, the set of keys its eviction dropped;
 `EvictionDrops` says which sets the code can drop.
 */
module RateModel {

  datatype Limit = Limit(perMinute: int, burst: int) {
    predicate Unlimited() { perMinute <= 0 }

    // Without an explicit burst, one minute's worth may go at once.
    function Capacity(): real {
      if burst > 0 then burst as real else perMinute as real
    }

    function PerSec(): real { perMinute as real / 60.0 }
  }

  datatype Bucket = Bucket(tokens: real, capacity: real, perSec: real, refilled: real, seen: real)

  type Buckets = map<string, Bucket>

  datatype Request = Request(key: string, limit: Limit) {
    // An unlimited request and one without a key are skipped.
    predicate Charges() { !limit.Unlimited() && key != "" }
  }

  datatype Decision = Refuse(retryAfter: real) | Spend(amount: real) | Empty

  datatype Pending = Pending(key: string, decision: Decision)

  datatype Held = Held(key: string, restore: real)

  function Min(a: real, b: real): real { if a < b then a else b }

  function Max(a: real, b: real): real { if a > b then a else b }

  // A cost of zero or less is charged as one.
  function Want(cost: int): real { if cost <= 0 then 1.0 else cost as real }

  /******* One bucket *******/

  function Fresh(limit: Limit, now: real): Bucket {
    Bucket(limit.Capacity(), limit.Capacity(), limit.PerSec(), now, now)
  }

  // A changed limit takes effect at once; a lower capacity cuts the balance.
  function Rerated(b: Bucket, limit: Limit): Bucket {
    if b.perSec != limit.PerSec() || b.capacity != limit.Capacity()
    then b.(perSec := limit.PerSec(), capacity := limit.Capacity(), tokens := Min(b.tokens, limit.Capacity()))
    else b
  }

  function Earned(elapsed: real, perSec: real): real { elapsed * perSec }

  function Refilled(b: Bucket, now: real): (r: Bucket)
    ensures r.perSec == b.perSec && r.capacity == b.capacity && r.seen == now
  {
    if now - b.refilled > 0.0
    then b.(tokens := Min(b.capacity, b.tokens + Earned(now - b.refilled, b.perSec)), refilled := now, seen := now)
    else b.(seen := now)
  }

  // How long until `shortfall` tokens have been earned.
  function WaitFor(shortfall: real, perSec: real): real
    requires perSec != 0.0
  {
    shortfall / perSec
  }

  function Assess(b: Bucket, want: real): Decision
    requires b.perSec != 0.0
  {
    if want > b.capacity then Empty
    else if b.tokens >= want then Spend(want)
    else Refuse(WaitFor(want - b.tokens, b.perSec))
  }

  lemma {:induction false} WaitIsPositive(b: Bucket, want: real)
    requires b.perSec > 0.0 && Assess(b, want).Refuse?
    ensures Assess(b, want).retryAfter > 0.0
  {
    var gap := want - b.tokens;
    assert gap / b.perSec > 0.0;
  }

  function Applied(b: Bucket, d: Decision): Bucket {
    match d
    case Refuse(_) => b
    case Spend(amount) => b.(tokens := b.tokens - amount)
    case Empty => b.(tokens := 0.0)
  }

  /******* The bucket map *******/

  // The bucket of `key`, created (after an eviction of `drop`) or re-rated.
  function Lookup(m: Buckets, key: string, limit: Limit, now: real, drop: set<string>): (r: Buckets)
    ensures key in r && r[key].perSec == limit.PerSec() && r[key].capacity == limit.Capacity()
  {
    if key in m then m[key := Rerated(m[key], limit)] else (m - drop)[key := Fresh(limit, now)]
  }

  ghost predicate Idle(b: Bucket, now: real, idleTTL: real) { now - b.seen > idleTTL }

  // The search for the least recently seen bucket, over one iteration order.
  // The empty key doubles as "none chosen yet".
  function PickOldest(m: Buckets, order: seq<string>): (r: string)
    requires forall k :: k in order ==> k in m
    ensures order != [] ==> r in order
    ensures order == [] ==> r == ""
  {
    if order == [] then ""
    else
      var id := order[|order| - 1];
      var oldest := PickOldest(m, order[..|order| - 1]);
      if oldest == "" || m[id].seen < m[oldest].seen then id else oldest
  }

  ghost predicate NoRepeats(order: seq<string>) { forall i, j :: 0 <= i < j < |order| ==> order[i] != order[j] }

  ghost predicate Enumerates(order: seq<string>, keys: set<string>) {
    (forall k :: k in order <==> k in keys) && NoRepeats(order)
  }

  ghost function IdleKeys(m: Buckets, now: real, idleTTL: real): (r: set<string>)
    ensures r <= m.Keys
  {
    set k | k in m && Idle(m[k], now, idleTTL)
  }

  /**
   What evictIfNeeded may remove: nothing while there is room; every idle
   bucket otherwise; and one bucket more if that was not enough, the one its
   search picks in some iteration order.
   */
  ghost predicate EvictionDrops(m: Buckets, now: real, maxBuckets: int, idleTTL: real, drop: set<string>)
  {
    var idle := IdleKeys(m, now, idleTTL);
    if |m| < maxBuckets then drop == {}
    else if |m.Keys - idle| < maxBuckets then drop == idle
    else exists order :: Enumerates(order, m.Keys - idle) && drop == idle + {PickOldest(m, order)}
  }

  /******* AllowAll *******/

  datatype Assessment = Assessment(buckets: Buckets, pending: seq<Pending>, allowed: bool, retryAfter: real)

  // Decisions whose bucket is still in the map; a charge to an evicted bucket
  // changes nothing any later call can see.
  function Surviving(ps: seq<Pending>, m: Buckets): (r: seq<Pending>)
    ensures forall p :: p in r ==> p.key in m
  {
    if ps == [] then []
    else Surviving(ps[..|ps| - 1], m) + (if ps[|ps| - 1].key in m then [ps[|ps| - 1]] else [])
  }

  lemma {:induction false} SurvivingWithin(ps: seq<Pending>, m: Buckets)
    ensures forall p :: p in Surviving(ps, m) ==> p in ps
  {
    if ps == [] {
    } else {
      SurvivingWithin(ps[..|ps| - 1], m);
      assert ps[|ps| - 1] in ps;
    }
  }

  lemma {:induction false} AllSurvive(ps: seq<Pending>, m: Buckets)
    requires forall p :: p in ps ==> p.key in m
    ensures Surviving(ps, m) == ps
  {
    if ps == [] {
    } else {
      var init, last := ps[..|ps| - 1], ps[|ps| - 1];
      assert last in ps && ps == init + [last];
      AllSurvive(init, m);
    }
  }

  // Refill and assess one more bucket, charging nothing yet.
  function AssessOne(a: Assessment, key: string, limit: Limit, want: real, now: real,
                     drop: set<string>): (r: Assessment)
    requires !limit.Unlimited()
    requires forall p :: p in a.pending ==> p.key in a.buckets
    ensures forall p :: p in r.pending ==> p.key in r.buckets
    ensures key in r.buckets
  {
    var m := Lookup(a.buckets, key, limit, now, drop);
    var b := Refilled(m[key], now);
    var d := Assess(b, want);
    Assessment(m[key := b], Surviving(a.pending, m) + [Pending(key, d)], a.allowed && !d.Refuse?,
               if d.Refuse? then Max(a.retryAfter, d.retryAfter) else a.retryAfter)
  }

  function Unassessed(m: Buckets): Assessment { Assessment(m, [], true, 0.0) }

  function AssessAll(m: Buckets, reqs: seq<Request>, want: real, now: real, drops: seq<set<string>>): (r: Assessment)
    requires |drops| == |reqs|
    ensures forall p :: p in r.pending ==> p.key in r.buckets
  {
    if reqs == [] then Unassessed(m)
    else
      var n := |reqs| - 1;
      var a := AssessAll(m, reqs[..n], want, now, drops[..n]);
      if reqs[n].Charges() then AssessOne(a, reqs[n].key, reqs[n].limit, want, now, drops[n]) else a
  }

  function ApplyAll(m: Buckets, ps: seq<Pending>): (r: Buckets)
    requires forall p :: p in ps ==> p.key in m
    ensures r.Keys == m.Keys
  {
    if ps == [] then m
    else
      var p := ps[|ps| - 1];
      var r := ApplyAll(m, ps[..|ps| - 1]);
      r[p.key := Applied(r[p.key], p.decision)]
  }

  datatype Answer = Answer(buckets: Buckets, allowed: bool, retryAfter: real)

  // Either every verdict is carried out or none is.
  function Settle(a: Assessment): Answer
    requires forall p :: p in a.pending ==> p.key in a.buckets
  {
    if a.allowed then Answer(ApplyAll(a.buckets, a.pending), true, 0.0)
    else Answer(a.buckets, false, a.retryAfter)
  }

  function AllowAll(m: Buckets, reqs: seq<Request>, cost: int, now: real, drops: seq<set<string>>): Answer
    requires |drops| == |reqs|
  {
    Settle(AssessAll(m, reqs, Want(cost), now, drops))
  }

  // Allow charges one bucket; unlike AllowAll it accepts the empty key.
  function Allow(m: Buckets, key: string, limit: Limit, cost: int, now: real, drop: set<string>): Answer {
    if limit.Unlimited() then Answer(m, true, 0.0)
    else Settle(AssessOne(Unassessed(m), key, limit, Want(cost), now, drop))
  }

  /******* ReserveAll and Cancel *******/

  datatype Reserved = Reserved(buckets: Buckets, delay: real, held: seq<Held>)

  // A cost the bucket could never hold empties it; any other is deducted.
  function Debited(b: Bucket, want: real): Bucket {
    b.(tokens := if want > b.capacity then 0.0 else b.tokens - want)
  }

  // What cancelling gives back.
  function Restores(b: Bucket, want: real): real {
    if want > b.capacity then Max(b.tokens, 0.0) else want
  }

  function DelayAfter(delay: real, b: Bucket, want: real): real
    requires b.perSec != 0.0
  {
    if want > b.capacity || b.tokens - want >= 0.0 then delay
    else Max(delay, WaitFor(-(b.tokens - want), b.perSec))
  }

  function ReserveOne(r: Reserved, key: string, limit: Limit, want: real, now: real, drop: set<string>): Reserved
    requires !limit.Unlimited()
  {
    var m := Lookup(r.buckets, key, limit, now, drop);
    var b := Refilled(m[key], now);
    Reserved(m[key := Debited(b, want)], DelayAfter(r.delay, b, want), r.held + [Held(key, Restores(b, want))])
  }

  function ReserveAll(m: Buckets, reqs: seq<Request>, want: real, now: real, drops: seq<set<string>>): Reserved
    requires |drops| == |reqs|
  {
    if reqs == [] then Reserved(m, 0.0, [])
    else
      var n := |reqs| - 1;
      var r := ReserveAll(m, reqs[..n], want, now, drops[..n]);
      if reqs[n].Charges() then ReserveOne(r, reqs[n].key, reqs[n].limit, want, now, drops[n]) else r
  }

  // A bucket that is gone gets nothing back.
  function Returned(m: Buckets, h: Held): (r: Buckets)
    ensures r.Keys == m.Keys
  {
    if h.key in m then m[h.key := m[h.key].(tokens := Min(m[h.key].capacity, m[h.key].tokens + h.restore))] else m
  }

  function Cancel(m: Buckets, held: seq<Held>): (r: Buckets)
    ensures r.Keys == m.Keys
  {
    if held == [] then m else Returned(Cancel(m, held[..|held| - 1]), held[|held| - 1])
  }

  /******* Runs *******/

  datatype Op =
    | Single(key: string, limit: Limit, cost: int)
    | Ask(reqs: seq<Request>, cost: int)
    | Reserve(reqs: seq<Request>, cost: int)
    | Undo(ticket: nat)
    | Forget(key: string)

  // One locked call: what was asked, when, and what its evictions dropped.
  datatype Tick = Tick(op: Op, now: real, drops: seq<set<string>>) {
    ghost predicate WellFormed() {
      match op
      case Single(_, _, _) => |drops| == 1
      case Ask(reqs, _) => |drops| == |reqs|
      case Reserve(reqs, _) => |drops| == |reqs|
      case _ => drops == []
    }
  }

  // The buckets and, for every reservation made so far, what it still holds.
  datatype Sys = Sys(buckets: Buckets, tickets: seq<seq<Held>>)

  ghost function Step(s: Sys, t: Tick): Sys
    requires t.WellFormed()
  {
    match t.op
    case Single(key, limit, cost) => s.(buckets := Allow(s.buckets, key, limit, cost, t.now, t.drops[0]).buckets)
    case Ask(reqs, cost) => s.(buckets := AllowAll(s.buckets, reqs, cost, t.now, t.drops).buckets)
    case Reserve(reqs, cost) =>
      var r := ReserveAll(s.buckets, reqs, Want(cost), t.now, t.drops);
      Sys(r.buckets, s.tickets + [r.held])
    case Undo(j) =>
      if j < |s.tickets| then Sys(Cancel(s.buckets, s.tickets[j]), s.tickets[j := []]) else s
    case Forget(key) => s.(buckets := s.buckets - {key})
  }

  ghost predicate WellFormedRun(ticks: seq<Tick>) { forall t :: t in ticks ==> t.WellFormed() }

  ghost function Run(s: Sys, ticks: seq<Tick>): Sys
    requires WellFormedRun(ticks)
  {
    if ticks == [] then s else Step(Run(s, ticks[..|ticks| - 1]), ticks[|ticks| - 1])
  }

  ghost predicate Monotone(ticks: seq<Tick>) {
    forall i, j :: 0 <= i < j < |ticks| ==> ticks[i].now <= ticks[j].now
  }

  // No eviction took anything away.
  ghost predicate NothingDropped(drops: seq<set<string>>) { forall i :: 0 <= i < |drops| ==> drops[i] == {} }

  // Some request that charges names the key.
  ghost predicate Names(reqs: seq<Request>, k: string) { exists r :: r in reqs && r.Charges() && r.key == k }

  // What a list of requests bills to a key, once for each that names it.
  function Billed(reqs: seq<Request>, k: string, want: real): real {
    if reqs == [] then 0.0
    else
      var r := reqs[|reqs| - 1];
      Billed(reqs[..|reqs| - 1], k, want) + if r.Charges() && r.key == k then want else 0.0
  }

  lemma {:induction false} BilledMore(init: seq<Request>, r: Request, k: string, want: real)
    ensures Billed(init + [r], k, want) == Billed(init, k, want) + if r.Charges() && r.key == k then want else 0.0
  {
    assert (init + [r])[..|init|] == init;
  }

  lemma {:induction false} BilledOnlyIfNamed(reqs: seq<Request>, k: string, want: real)
    requires !Names(reqs, k)
    ensures Billed(reqs, k, want) == 0.0
  {
    if reqs == [] {
    } else {
      assert reqs == reqs[..|reqs| - 1] + [reqs[|reqs| - 1]];
      BilledOnlyIfNamed(reqs[..|reqs| - 1], k, want);
    }
  }

  // No bucket is refilled beyond the clock.
  ghost predicate RefilledBy(m: Buckets, now: real) { forall k :: k in m ==> m[k].refilled <= now }
}
