/**
 Keeping the bucket map bounded: what may be dropped, that it makes room, and
 which bucket has to go when every one is in use.
 */
module RateEviction {
  import Prelude
  import opened RateModel

  /******* What a run's evictions may drop *******/

  // Which limits a key will be asked for under.
  type Asks = (string, Limit) -> bool

  // By now the bucket would have been filled up to the limit.
  ghost predicate Filled(b: Bucket, l: Limit, now: real) {
    Min(Min(b.tokens, b.capacity), l.Capacity()) + Earned(now - b.refilled, l.PerSec()) >= l.Capacity()
  }

  // Under whatever limit its key is asked for next, a new bucket is as good.
  ghost predicate Spare(b: Bucket, key: string, now: real, asks: Asks) {
    && b.refilled <= now && (b.refilled < now || b.tokens <= b.capacity)
    && forall l: Limit :: asks(key, l) && !l.Unlimited() ==> Filled(b, l, now)
  }

  // Bounded: what the code drops. Harmless: idle buckets that are not in debt.
  // Sparing: spare buckets that the call itself has not used.
  datatype Policy =
    | Bounded(maxBuckets: int, idleTTL: real)
    | Harmless(idleTTL: real)
    | Sparing(asks: Asks)

  ghost predicate MayDrop(p: Policy, m: Buckets, now: real, drop: set<string>) {
    match p
    case Bounded(maxBuckets, idleTTL) => EvictionDrops(m, now, maxBuckets, idleTTL, drop)
    case Harmless(idleTTL) => forall k :: k in drop && k in m ==> Idle(m[k], now, idleTTL) && m[k].tokens >= 0.0
    case Sparing(asks) => forall k :: k in drop && k in m ==> Spare(m[k], k, now, asks) && m[k].seen < now
  }

  // Only a call that creates a bucket evicts.
  ghost predicate MayCreate(p: Policy, m: Buckets, key: string, now: real, drop: set<string>) {
    key !in m ==> MayDrop(p, m, now, drop)
  }

  ghost predicate AssessDropsBy(p: Policy, m: Buckets, reqs: seq<Request>, want: real, now: real,
                                drops: seq<set<string>>)
    requires |drops| == |reqs|
  {
    reqs != [] ==>
      var n := |reqs| - 1;
      && AssessDropsBy(p, m, reqs[..n], want, now, drops[..n])
      && (reqs[n].Charges() ==>
            MayCreate(p, AssessAll(m, reqs[..n], want, now, drops[..n]).buckets, reqs[n].key, now, drops[n]))
  }

  ghost predicate ReserveDropsBy(p: Policy, m: Buckets, reqs: seq<Request>, want: real, now: real,
                                 drops: seq<set<string>>)
    requires |drops| == |reqs|
  {
    reqs != [] ==>
      var n := |reqs| - 1;
      && ReserveDropsBy(p, m, reqs[..n], want, now, drops[..n])
      && (reqs[n].Charges() ==>
            MayCreate(p, ReserveAll(m, reqs[..n], want, now, drops[..n]).buckets, reqs[n].key, now, drops[n]))
  }

  ghost predicate TickDropsBy(p: Policy, m: Buckets, t: Tick)
    requires t.WellFormed()
  {
    match t.op
    case Single(key, limit, _) => !limit.Unlimited() ==> MayCreate(p, m, key, t.now, t.drops[0])
    case Ask(reqs, cost) => AssessDropsBy(p, m, reqs, Want(cost), t.now, t.drops)
    case Reserve(reqs, cost) => ReserveDropsBy(p, m, reqs, Want(cost), t.now, t.drops)
    case _ => true
  }

  ghost predicate RunDropsBy(p: Policy, s: Sys, ticks: seq<Tick>)
    requires WellFormedRun(ticks)
  {
    forall i :: 0 <= i < |ticks| ==> TickDropsBy(p, Run(s, ticks[..i]).buckets, ticks[i])
  }

  // One more request, for a caller that collects the drops as it goes.
  lemma {:induction false} AssessNext(p: Policy, m: Buckets, reqs: seq<Request>, i: nat, want: real, now: real,
                                      drops: seq<set<string>>, drop: set<string>)
    requires i < |reqs| && |drops| == i
    ensures var a := AssessAll(m, reqs[..i], want, now, drops);
            && AssessAll(m, reqs[..i + 1], want, now, drops + [drop]) ==
                 (if reqs[i].Charges() then AssessOne(a, reqs[i].key, reqs[i].limit, want, now, drop) else a)
            && (AssessDropsBy(p, m, reqs[..i + 1], want, now, drops + [drop]) <==>
                  AssessDropsBy(p, m, reqs[..i], want, now, drops)
                  && (reqs[i].Charges() ==> MayCreate(p, a.buckets, reqs[i].key, now, drop)))
  {
    assert reqs[..i + 1][..i] == reqs[..i] && (drops + [drop])[..i] == drops;
    hide AssessOne, MayCreate;
  }

  lemma {:induction false} ReserveNext(p: Policy, m: Buckets, reqs: seq<Request>, i: nat, want: real, now: real,
                                       drops: seq<set<string>>, drop: set<string>)
    requires i < |reqs| && |drops| == i
    ensures var r := ReserveAll(m, reqs[..i], want, now, drops);
            && ReserveAll(m, reqs[..i + 1], want, now, drops + [drop]) ==
                 (if reqs[i].Charges() then ReserveOne(r, reqs[i].key, reqs[i].limit, want, now, drop) else r)
            && (ReserveDropsBy(p, m, reqs[..i + 1], want, now, drops + [drop]) <==>
                  ReserveDropsBy(p, m, reqs[..i], want, now, drops)
                  && (reqs[i].Charges() ==> MayCreate(p, r.buckets, reqs[i].key, now, drop)))
  {
    assert reqs[..i + 1][..i] == reqs[..i] && (drops + [drop])[..i] == drops;
    hide ReserveOne, MayCreate;
  }

  /******* The map never outgrows its ceiling *******/

  lemma {:induction false} SmallerSet(a: set<string>, b: set<string>, gone: string)
    requires a <= b && gone in b && gone !in a
    ensures |a| < |b|
  {
    assert a <= b - {gone};
    Prelude.SubsetSize(a, b - {gone});
  }

  lemma {:induction false} EvictionMakesRoom(m: Buckets, now: real, maxBuckets: int, idleTTL: real, drop: set<string>)
    requires 1 <= maxBuckets && |m| <= maxBuckets && EvictionDrops(m, now, maxBuckets, idleTTL, drop)
    ensures |(m - drop).Keys| < maxBuckets
  {
    var idle := IdleKeys(m, now, idleTTL);
    var rest := m.Keys - idle;
    var kept := (m - drop).Keys;
    hide IdleKeys;
    assert kept == m.Keys - drop;
    if |m| < maxBuckets {
      Prelude.SubsetSize(kept, m.Keys);
    } else if |rest| < maxBuckets {
      assert kept == rest;
    } else {
      var order :| Enumerates(order, rest) && drop == idle + {PickOldest(m, order)};
      assert |rest| > 0;
      var some :| some in rest;
      assert some in order;
      SmallerSet(kept, rest, PickOldest(m, order));
      Prelude.SubsetSize(rest, m.Keys);
    }
  }

  lemma {:induction false} LookupBounded(m: Buckets, key: string, limit: Limit, now: real, maxBuckets: int,
                                         idleTTL: real, drop: set<string>)
    requires 1 <= maxBuckets && |m| <= maxBuckets && MayCreate(Bounded(maxBuckets, idleTTL), m, key, now, drop)
    ensures |Lookup(m, key, limit, now, drop).Keys| <= maxBuckets
  {
    LookupKeys(m, key, limit, now, drop);
    if key in m {
    } else {
      EvictionMakesRoom(m, now, maxBuckets, idleTTL, drop);
      hide *;
      SizePlusOne((m - drop).Keys, key);
    }
  }

  lemma {:induction false} LookupKeys(m: Buckets, key: string, limit: Limit, now: real, drop: set<string>)
    ensures Lookup(m, key, limit, now, drop).Keys == if key in m then m.Keys else (m - drop).Keys + {key}
  {
    hide Rerated, Fresh, Limit.PerSec, Limit.Capacity;
  }

  lemma {:induction false} SizePlusOne(a: set<string>, x: string)
    ensures |a + {x}| <= |a| + 1
  {
    if x in a { assert a + {x} == a; }
  }

  lemma {:induction false} AssessAllBounded(m: Buckets, reqs: seq<Request>, want: real, now: real,
                                            drops: seq<set<string>>, maxBuckets: int, idleTTL: real)
    requires |drops| == |reqs| && 1 <= maxBuckets && |m| <= maxBuckets
    requires AssessDropsBy(Bounded(maxBuckets, idleTTL), m, reqs, want, now, drops)
    ensures |AssessAll(m, reqs, want, now, drops).buckets.Keys| <= maxBuckets
  {
    if reqs == [] {
    } else {
      var n := |reqs| - 1;
      var r := reqs[n];
      AssessAllBounded(m, reqs[..n], want, now, drops[..n], maxBuckets, idleTTL);
      if r.Charges() {
        var a := AssessAll(m, reqs[..n], want, now, drops[..n]);
        LookupBounded(a.buckets, r.key, r.limit, now, maxBuckets, idleTTL, drops[n]);
        assert AssessAll(m, reqs, want, now, drops).buckets.Keys ==
               Lookup(a.buckets, r.key, r.limit, now, drops[n]).Keys;
      }
    }
  }

  lemma {:induction false} ReserveAllBounded(m: Buckets, reqs: seq<Request>, want: real, now: real,
                                             drops: seq<set<string>>, maxBuckets: int, idleTTL: real)
    requires |drops| == |reqs| && 1 <= maxBuckets && |m| <= maxBuckets
    requires ReserveDropsBy(Bounded(maxBuckets, idleTTL), m, reqs, want, now, drops)
    ensures |ReserveAll(m, reqs, want, now, drops).buckets.Keys| <= maxBuckets
  {
    if reqs == [] {
    } else {
      var n := |reqs| - 1;
      var r := reqs[n];
      ReserveAllBounded(m, reqs[..n], want, now, drops[..n], maxBuckets, idleTTL);
      if r.Charges() {
        var c := ReserveAll(m, reqs[..n], want, now, drops[..n]);
        LookupBounded(c.buckets, r.key, r.limit, now, maxBuckets, idleTTL, drops[n]);
        assert ReserveAll(m, reqs, want, now, drops).buckets.Keys ==
               Lookup(c.buckets, r.key, r.limit, now, drops[n]).Keys;
      }
    }
  }

  lemma {:induction false} AssessOneKeys(a: Assessment, key: string, limit: Limit, want: real, now: real,
                                         drop: set<string>)
    requires !limit.Unlimited() && forall p :: p in a.pending ==> p.key in a.buckets
    ensures AssessOne(a, key, limit, want, now, drop).buckets.Keys == Lookup(a.buckets, key, limit, now, drop).Keys
  {
    hide Lookup, Refilled, Assess, Surviving;
  }

  lemma {:induction false} StepBounded(s: Sys, t: Tick, maxBuckets: int, idleTTL: real)
    requires t.WellFormed() && 1 <= maxBuckets && |s.buckets| <= maxBuckets
    requires TickDropsBy(Bounded(maxBuckets, idleTTL), s.buckets, t)
    ensures |Step(s, t).buckets.Keys| <= maxBuckets
  {
    match t.op
    case Single(key, limit, cost) =>
      hide Lookup, AssessOne, EvictionDrops;
      if !limit.Unlimited() {
        LookupBounded(s.buckets, key, limit, t.now, maxBuckets, idleTTL, t.drops[0]);
        var a := AssessOne(Unassessed(s.buckets), key, limit, Want(cost), t.now, t.drops[0]);
        AssessOneKeys(Unassessed(s.buckets), key, limit, Want(cost), t.now, t.drops[0]);
        assert Step(s, t).buckets.Keys == a.buckets.Keys;
      }
    case Ask(reqs, cost) =>
      AssessAllBounded(s.buckets, reqs, Want(cost), t.now, t.drops, maxBuckets, idleTTL);
      hide AssessAll, AssessDropsBy;
      assert Step(s, t).buckets.Keys == AssessAll(s.buckets, reqs, Want(cost), t.now, t.drops).buckets.Keys;
    case Reserve(reqs, cost) =>
      ReserveAllBounded(s.buckets, reqs, Want(cost), t.now, t.drops, maxBuckets, idleTTL);
      hide ReserveAll, ReserveDropsBy;
    case Undo(j) =>
      assert Step(s, t).buckets.Keys == s.buckets.Keys;
    case Forget(key) =>
      assert Step(s, t).buckets.Keys == s.buckets.Keys - {key};
      Prelude.SubsetSize(s.buckets.Keys - {key}, s.buckets.Keys);
  }

  // In every run the map holds at most maxBuckets buckets.
  lemma {:induction false} BucketsBounded(s: Sys, ticks: seq<Tick>, maxBuckets: int, idleTTL: real)
    requires WellFormedRun(ticks) && 1 <= maxBuckets && |s.buckets| <= maxBuckets
    requires RunDropsBy(Bounded(maxBuckets, idleTTL), s, ticks)
    ensures |Run(s, ticks).buckets| <= maxBuckets
  {
    if ticks == [] {
    } else {
      var n := |ticks| - 1;
      var before := ticks[..n];
      assert forall i :: 0 <= i < n ==> before[..i] == ticks[..i] && before[i] == ticks[i];
      assert Run(s, ticks) == Step(Run(s, before), ticks[n]);
      assert ticks[..n] == before;
      hide Run, Step, TickDropsBy, Tick.WellFormed;
      BucketsBounded(s, before, maxBuckets, idleTTL);
      StepBounded(Run(s, before), ticks[n], maxBuckets, idleTTL);
    }
  }

  /******* When the forced victim is the least recently seen *******/

  ghost predicate LeastSeen(m: Buckets, order: seq<string>, r: string)
    requires forall k :: k in order ==> k in m
  {
    r in order && forall k :: k in order ==> m[r].seen <= m[k].seen
  }

  // The bucket of the empty key was seen before every other.
  ghost predicate EmptyLeast(m: Buckets, keys: set<string>)
    requires keys <= m.Keys
  {
    "" in keys && forall k :: k in keys && k != "" ==> m[""].seen < m[k].seen
  }

  function Keys(order: seq<string>): set<string> { set k | k in order }

  // What the search has found after a walk: the empty key only if the walk
  // ends there and it is least; another key that is least, or one found after
  // the empty key, which is least, was taken for nothing.
  ghost predicate Found(m: Buckets, order: seq<string>, r: string)
    requires order != [] && forall k :: k in order ==> k in m
  {
    if r == "" then EmptyLeast(m, Keys(order)) && order[|order| - 1] == ""
    else r in order && (LeastSeen(m, order, r) || (EmptyLeast(m, Keys(order)) && order[|order| - 1] != ""))
  }

  lemma {:induction false} FoundAfter(m: Buckets, init: seq<string>, x: string, r: string)
    requires init != [] && NoRepeats(init + [x]) && x in m && (forall k :: k in init ==> k in m) && Found(m, init, r)
    ensures r in init
    ensures Found(m, init + [x], if r == "" || m[x].seen < m[r].seen then x else r)
  {
    var order := init + [x];
    assert forall k :: k in order <==> k in init || k == x;
    assert x !in init by {
      forall i | 0 <= i < |init| ensures init[i] != x { assert order[i] != order[|init|]; }
    }
  }

  lemma {:induction false} SearchFinds(m: Buckets, order: seq<string>)
    requires order != [] && NoRepeats(order) && forall k :: k in order ==> k in m
    ensures Found(m, order, PickOldest(m, order))
  {
    var n := |order| - 1;
    if n == 0 {
      assert order[..0] == [] && order == [order[0]];
    } else {
      var init, x := order[..n], order[n];
      assert order == init + [x];
      SearchFinds(m, init);
      FoundAfter(m, init, x, PickOldest(m, init));
    }
  }

  // A walk finds a least recently seen bucket unless it comes, before its
  // end, to the empty key and that one was seen before every other.
  lemma {:induction false} OldestIsLeastSeen(m: Buckets, order: seq<string>)
    requires order != [] && NoRepeats(order) && forall k :: k in order ==> k in m
    ensures LeastSeen(m, order, PickOldest(m, order)) <==> !(EmptyLeast(m, Keys(order)) && order[|order| - 1] != "")
  {
    SearchFinds(m, order);
    hide PickOldest;
    assert order[|order| - 1] in order;
  }

  lemma {:induction false} SomeWalk(keys: set<string>) returns (order: seq<string>)
    ensures Enumerates(order, keys)
  {
    if keys == {} {
      order := [];
    } else {
      var k :| k in keys;
      var rest := SomeWalk(keys - {k});
      order := rest + [k];
    }
  }

  // Any map whose empty key was seen before every other has a walk that
  // sends another bucket away.
  lemma {:induction false} EmptyKeyMisleadsSearch(m: Buckets, keys: set<string>) returns (order: seq<string>)
    requires keys <= m.Keys && EmptyLeast(m, keys) && keys != {""}
    ensures Enumerates(order, keys) && !LeastSeen(m, order, PickOldest(m, order))
  {
    var rest := SomeWalk(keys - {""});
    assert rest != [] by {
      assert keys - {""} != {} by { assert keys == (keys - {""}) + {""}; }
      var other :| other in keys - {""};
      assert other in rest;
    }
    order := [""] + rest;
    assert order[|order| - 1] == rest[|rest| - 1] && rest[|rest| - 1] in rest;
    assert Keys(order) == keys;
    OldestIsLeastSeen(m, order);
  }

  // Every walk finds a least recently seen bucket exactly when the empty key
  // is not, among several, the one seen before every other.
  lemma {:induction false} EveryWalkIsRight(m: Buckets, keys: set<string>)
    requires keys <= m.Keys && keys != {}
    ensures (forall order :: Enumerates(order, keys) ==> LeastSeen(m, order, PickOldest(m, order)))
            <==> !(EmptyLeast(m, keys) && keys != {""})
  {
    if EmptyLeast(m, keys) && keys != {""} {
      var order := EmptyKeyMisleadsSearch(m, keys);
    } else {
      forall order | Enumerates(order, keys) ensures LeastSeen(m, order, PickOldest(m, order)) {
        assert Keys(order) == keys;
        var k :| k in keys;
        assert k in order;
        OldestIsLeastSeen(m, order);
        assert order[|order| - 1] in order;
      }
    }
  }
}
