/**
 The limiter as it runs: buckets are objects updated in place, found through a
 map that eviction shrinks. Each method is tied to the function in RateModel
 that says what it does; the clock reading is a parameter.
 */
module RateLimiter {
  import M = RateModel
  import E = RateEviction

  class Bucket {
    var tokens: real
    var capacity: real
    var perSec: real
    var refilled: real
    var seen: real

    ghost function View(): M.Bucket
      reads this
    {
      M.Bucket(tokens, capacity, perSec, refilled, seen)
    }

    constructor (capacity: real, perSec: real, now: real)
      ensures View() == M.Bucket(capacity, capacity, perSec, now, now)
    {
      this.tokens, this.capacity, this.perSec, this.refilled, this.seen := capacity, capacity, perSec, now, now;
    }

    method Rerate(limit: M.Limit)
      modifies this
      ensures View() == M.Rerated(old(View()), limit)
    {
      var perSec', capacity' := limit.PerSec(), limit.Capacity();
      if perSec != perSec' || capacity != capacity' {
        perSec := perSec';
        capacity := capacity';
        tokens := M.Min(tokens, capacity');
      }
    }

    method Refill(now: real)
      modifies this
      ensures View() == M.Refilled(old(View()), now)
    {
      if now - refilled > 0.0 {
        tokens := M.Min(capacity, tokens + M.Earned(now - refilled, perSec));
        refilled := now;
      }
      seen := now;
    }

    method Assess(want: real, now: real) returns (d: M.Decision)
      requires perSec != 0.0
      modifies this
      ensures View() == M.Refilled(old(View()), now)
      ensures d == M.Assess(View(), want)
    {
      Refill(now);
      if want > capacity {
        d := M.Empty;
      } else if tokens >= want {
        d := M.Spend(want);
      } else {
        d := M.Refuse(M.WaitFor(want - tokens, perSec));
      }
    }

    method Apply(d: M.Decision)
      modifies this
      ensures View() == M.Applied(old(View()), d)
    {
      match d
      case Refuse(_) =>
      case Spend(amount) => tokens := tokens - amount;
      case Empty => tokens := 0.0;
    }

    // Takes a cost at once, into debt if need be; `restore` is what giving it
    // back would return.
    method Debit(delay: real, want: real, now: real) returns (delay': real, restore: real)
      requires perSec != 0.0
      modifies this
      ensures var b := M.Refilled(old(View()), now);
              View() == M.Debited(b, want) && delay' == M.DelayAfter(delay, b, want) && restore == M.Restores(b, want)
    {
      Refill(now);
      hide M.Refilled, M.WaitFor;
      delay' := delay;
      if want > capacity {
        restore := M.Max(tokens, 0.0);
        tokens := 0.0;
        return;
      }
      tokens, restore := tokens - want, want;
      if tokens < 0.0 {
        var wait := M.WaitFor(-tokens, perSec);
        if wait > delay' {
          delay' := wait;
        }
      }
    }
  }

  // A bucket and what it would do; `key` is where it was found.
  datatype Slot = Slot(b: Bucket, d: M.Decision, ghost key: string)

  // The decisions whose bucket the map still holds.
  ghost function Live(slots: seq<Slot>, buckets: map<string, Bucket>): (r: seq<M.Pending>)
    ensures forall p :: p in r ==> p.key in buckets
  {
    if slots == [] then []
    else
      var s := slots[|slots| - 1];
      Live(slots[..|slots| - 1], buckets)
        + if s.key in buckets && buckets[s.key] == s.b then [M.Pending(s.key, s.d)] else []
  }

  // A bucket that is still in the map is still under the key it was found by.
  ghost predicate Rooted(slots: seq<Slot>, buckets: map<string, Bucket>) {
    forall i, k :: 0 <= i < |slots| && k in buckets && buckets[k] == slots[i].b ==> k == slots[i].key
  }

  // Looking up `key` keeps every other bucket that stays under its own key.
  ghost predicate Looked(before: map<string, Bucket>, after: map<string, Bucket>, key: string) {
    && key in after
    && (forall k :: k in after && k != key ==> k in before && after[k] == before[k])
    && (key in before ==> after[key] == before[key])
  }

  lemma {:induction false} LookedAfter(was: map<string, Bucket>, drop: set<string>, key: string, b: Bucket)
    requires key !in was
    ensures Looked(was, (was - drop)[key := b], key)
  {
  }

  lemma {:induction false} LookedValues(before: map<string, Bucket>, after: map<string, Bucket>, key: string)
    requires Looked(before, after, key)
    ensures after.Values <= before.Values + {after[key]}
    ensures key in before ==> after[key] in before.Values
  {
    forall b | b in after.Values ensures b in before.Values + {after[key]} {
      var k :| k in after && after[k] == b;
      if k != key { assert k in before && before[k] == b; }
    }
  }

  lemma {:induction false} RootedAfterLookup(slots: seq<Slot>, before: map<string, Bucket>, after: map<string, Bucket>,
                                             key: string)
    requires Rooted(slots, before) && Looked(before, after, key)
    requires key !in before ==> forall i :: 0 <= i < |slots| ==> slots[i].b != after[key]
    ensures Rooted(slots, after)
  {
  }

  lemma {:induction false} LiveAfterLookup(slots: seq<Slot>, before: map<string, Bucket>, after: map<string, Bucket>,
                                           key: string, m: M.Buckets)
    requires m.Keys == after.Keys && Looked(before, after, key)
    requires Rooted(slots, before)
    requires key !in before ==> forall i :: 0 <= i < |slots| ==> slots[i].b != after[key]
    ensures Live(slots, after) == M.Surviving(Live(slots, before), m)
  {
    if slots == [] {
    } else {
      var s, init := slots[|slots| - 1], slots[..|slots| - 1];
      LiveAfterLookup(init, before, after, key, m);
      var was := Live(init, before);
      if s.key in before && before[s.key] == s.b {
        var p := M.Pending(s.key, s.d);
        assert Live(slots, before) == was + [p];
        assert (was + [p])[..|was|] == was;
      } else {
        assert !(s.key in after && after[s.key] == s.b);
        assert Live(slots, before) == was + [] == was;
      }
    }
  }

  lemma {:induction false} AddSlot(slots: seq<Slot>, s: Slot, buckets: map<string, Bucket>)
    requires Rooted(slots, buckets) && s.key in buckets && buckets[s.key] == s.b
    requires forall k :: k in buckets && k != s.key ==> buckets[k] != s.b
    ensures Rooted(slots + [s], buckets)
    ensures Live(slots + [s], buckets) == Live(slots, buckets) + [M.Pending(s.key, s.d)]
  {
    assert (slots + [s])[..|slots|] == slots;
    assert Live(slots + [s], buckets) == Live(slots, buckets) + [M.Pending(s.key, s.d)];
    hide Live;
    forall i, k | 0 <= i < |slots + [s]| && k in buckets && buckets[k] == (slots + [s])[i].b
      ensures k == (slots + [s])[i].key
    {
      if i < |slots| { assert slots[i] == (slots + [s])[i]; }
    }
  }

  ghost function ViewOf(buckets: map<string, Bucket>): (v: M.Buckets)
    reads buckets.Values
    ensures v.Keys == buckets.Keys
  {
    map k | k in buckets :: buckets[k].View()
  }

  lemma {:induction false} ViewMinus(buckets: map<string, Bucket>, drop: set<string>)
    ensures ViewOf(buckets - drop) == ViewOf(buckets) - drop
  {
  }

  class Limiter {
    var buckets: map<string, Bucket>
    const maxBuckets: int
    const idleTTL: real

    // No two keys share a bucket.
    ghost predicate Valid()
      reads this
    {
      forall j, k :: j in buckets && k in buckets && j != k ==> buckets[j] != buckets[k]
    }

    ghost function View(): (v: M.Buckets)
      reads this, buckets.Values
      ensures v.Keys == buckets.Keys
    {
      ViewOf(buckets)
    }

    ghost function Policy(): E.Policy { E.Bounded(maxBuckets, idleTTL) }

    constructor (maxBuckets: int, idleTTL: real)
      ensures Valid() && View() == map[] && this.maxBuckets == maxBuckets && this.idleTTL == idleTTL
    {
      this.buckets, this.maxBuckets, this.idleTTL := map[], maxBuckets, idleTTL;
    }

    method DropIdle(now: real)
      modifies this`buckets
      ensures buckets == old(buckets) - M.IdleKeys(old(View()), now, idleTTL)
    {
      ghost var all, idle := buckets, M.IdleKeys(View(), now, idleTTL);
      var todo := buckets.Keys;
      while todo != {}
        invariant todo <= all.Keys
        invariant buckets == all - (idle - todo)
        decreases todo
      {
        var id :| id in todo;
        assert id in idle <==> now - all[id].seen > idleTTL;
        todo := todo - {id};
        if now - buckets[id].seen > idleTTL {
          buckets := buckets - {id};
        }
      }
    }

    // One search for the least recently seen bucket, in some order.
    method FindOldest() returns (oldest: string, ghost order: seq<string>)
      ensures M.Enumerates(order, buckets.Keys) && oldest == M.PickOldest(old(View()), order)
    {
      ghost var m := View();
      var oldestSeen := 0.0;
      oldest := "";
      var todo := buckets.Keys;
      order := [];
      while todo != {}
        invariant todo <= buckets.Keys
        invariant M.Enumerates(order, buckets.Keys - todo)
        invariant oldest == M.PickOldest(m, order)
        invariant oldest != "" ==> oldest in m && oldestSeen == m[oldest].seen
        decreases todo
      {
        var id :| id in todo;
        ghost var more := order + [id];
        assert more[..|order|] == order;
        Extends(order, buckets.Keys - todo, id);
        assert buckets.Keys - todo + {id} == buckets.Keys - (todo - {id});
        todo := todo - {id};
        if oldest == "" || buckets[id].seen < oldestSeen {
          oldest, oldestSeen := id, buckets[id].seen;
        }
        order := more;
      }
      assert buckets.Keys - todo == buckets.Keys;
    }

    // Idle buckets first, then the least recently seen if the map is still full.
    method EvictIfNeeded(now: real) returns (ghost drop: set<string>)
      modifies this`buckets
      ensures buckets == old(buckets) - drop
      ensures M.EvictionDrops(old(View()), now, maxBuckets, idleTTL, drop)
    {
      SameSize(buckets, View());
      if |buckets| < maxBuckets {
        drop := {};
        NoDropNeeded(buckets, {}, "");
        hide Limiter.View, M.IdleKeys;
      } else {
        drop := MakeRoom(now);
        hide *;
      }
    }

    method MakeRoom(now: real) returns (ghost drop: set<string>)
      requires |buckets| >= maxBuckets
      modifies this`buckets
      ensures buckets == old(buckets) - drop
      ensures M.EvictionDrops(old(View()), now, maxBuckets, idleTTL, drop)
    {
      ghost var m, all := View(), buckets;
      SameSize(all, m);
      DropIdle(now);
      drop := M.IdleKeys(m, now, idleTTL);
      assert View() == m - drop;
      SameSize(buckets, m - drop);
      hide *;
      if |buckets| < maxBuckets {
        IdleDrop(m, now, maxBuckets, idleTTL);
      } else {
        ghost var order;
        var oldest;
        oldest, order := FindOldest();
        ForcedDrop(m, now, maxBuckets, idleTTL, order);
        NoDropNeeded(all, drop, oldest);
        drop := drop + {oldest};
        buckets := buckets - {oldest};
      }
    }

    static lemma {:induction false} SameSize(b: map<string, Bucket>, m: M.Buckets)
      requires b.Keys == m.Keys
      ensures |b| == |m|
    {
      assert |b.Keys| == |m.Keys|;
    }

    static lemma {:induction false} NoDropNeeded(m: map<string, Bucket>, idle: set<string>, oldest: string)
      ensures (m - idle) - {oldest} == m - (idle + {oldest})
      ensures m - {} == m
    {
      var a, b := (m - idle) - {oldest}, m - (idle + {oldest});
      assert a.Keys == b.Keys;
      assert forall k :: k in a ==> a[k] == b[k];
    }

    static lemma {:induction false} IdleDrop(m: M.Buckets, now: real, maxBuckets: int, idleTTL: real)
      requires |m| >= maxBuckets && |m - M.IdleKeys(m, now, idleTTL)| < maxBuckets
      ensures M.EvictionDrops(m, now, maxBuckets, idleTTL, M.IdleKeys(m, now, idleTTL))
    {
      var idle := M.IdleKeys(m, now, idleTTL);
      assert (m - idle).Keys == m.Keys - idle;
      assert |m - idle| == |(m - idle).Keys|;
      hide M.IdleKeys;
    }

    static lemma {:induction false} ForcedDrop(m: M.Buckets, now: real, maxBuckets: int, idleTTL: real,
                                               order: seq<string>)
      requires |m| >= maxBuckets && |m - M.IdleKeys(m, now, idleTTL)| >= maxBuckets
      requires M.Enumerates(order, (m - M.IdleKeys(m, now, idleTTL)).Keys)
      ensures M.EvictionDrops(m, now, maxBuckets, idleTTL,
                              M.IdleKeys(m, now, idleTTL) + {M.PickOldest(m - M.IdleKeys(m, now, idleTTL), order)})
    {
      var idle := M.IdleKeys(m, now, idleTTL);
      assert (m - idle).Keys == m.Keys - idle;
      assert |m - idle| == |(m - idle).Keys|;
      SameOldest(m - idle, m, order);
      hide M.IdleKeys, M.PickOldest;
    }

    static lemma {:induction false} SameOldest(rest: M.Buckets, m: M.Buckets, order: seq<string>)
      requires forall k :: k in rest ==> k in m && rest[k] == m[k]
      requires forall k :: k in order ==> k in rest
      ensures M.PickOldest(rest, order) == M.PickOldest(m, order)
    {
      if order == [] {
      } else {
        SameOldest(rest, m, order[..|order| - 1]);
      }
    }

    static lemma {:induction false} Extends(order: seq<string>, keys: set<string>, id: string)
      requires M.Enumerates(order, keys) && id !in keys
      ensures M.Enumerates(order + [id], keys + {id})
    {
      var more := order + [id];
      forall i, j | 0 <= i < j < |more| ensures more[i] != more[j] {
        if j == |order| { assert order[i] in order; }
      }
    }

    // The bucket of `key`, created or re-rated as needed.
    method BucketFor(key: string, limit: M.Limit, now: real) returns (b: Bucket, ghost drop: set<string>)
      requires Valid()
      modifies this`buckets, if key in buckets then {buckets[key]} else {}
      ensures Valid() && key in buckets && b == buckets[key]
      ensures Looked(old(buckets), buckets, key)
      ensures key !in old(buckets) ==> fresh(b)
      ensures E.MayCreate(Policy(), old(View()), key, now, drop)
      ensures View() == M.Lookup(old(View()), key, limit, now, drop)
    {
      ghost var m := View();
      hide *;
      if key in buckets {
        drop := {};
        LookupFound(Policy(), m, key, limit, now);
        b := RerateIn(key, limit);
      } else {
        b, drop := Create(key, limit, now);
        LookupMade(this, m, key, limit, now, drop);
      }
    }

    static lemma {:induction false} LookupFound(p: E.Policy, m: M.Buckets, key: string, limit: M.Limit, now: real)
      requires key in m
      ensures M.Lookup(m, key, limit, now, {}) == m[key := M.Rerated(m[key], limit)] && E.MayCreate(p, m, key, now, {})
    {
      hide M.Rerated;
    }

    static lemma {:induction false} LookupMade(l: Limiter, m: M.Buckets, key: string, limit: M.Limit, now: real,
                                               drop: set<string>)
      requires key !in m && M.EvictionDrops(m, now, l.maxBuckets, l.idleTTL, drop)
      ensures M.Lookup(m, key, limit, now, drop) == (m - drop)[key := M.Fresh(limit, now)]
      ensures E.MayCreate(l.Policy(), m, key, now, drop)
    {
      hide M.EvictionDrops, M.Fresh;
    }

    method RerateIn(key: string, limit: M.Limit) returns (b: Bucket)
      requires Valid() && key in buckets
      modifies buckets[key]
      ensures Valid() && b == buckets[key] && Looked(old(buckets), buckets, key)
      ensures View() == old(View())[key := M.Rerated(old(View())[key], limit)]
    {
      b := buckets[key];
      b.Rerate(limit);
      hide M.Rerated;
    }

    method Create(key: string, limit: M.Limit, now: real) returns (b: Bucket, ghost drop: set<string>)
      requires Valid() && key !in buckets
      modifies this`buckets
      ensures Valid() && key in buckets && b == buckets[key] && fresh(b) && Looked(old(buckets), buckets, key)
      ensures M.EvictionDrops(old(View()), now, maxBuckets, idleTTL, drop)
      ensures View() == (old(View()) - drop)[key := M.Fresh(limit, now)]
    {
      ghost var was := buckets;
      drop := EvictIfNeeded(now);
      ViewMinus(was, drop);
      hide M.EvictionDrops, ViewOf, M.Fresh, Looked;
      b := Insert(key, limit, now);
      LookedAfter(was, drop, key, b);
    }

    method Insert(key: string, limit: M.Limit, now: real) returns (b: Bucket)
      requires Valid() && key !in buckets
      modifies this`buckets
      ensures Valid() && fresh(b) && buckets == old(buckets)[key := b]
      ensures View() == old(View())[key := M.Fresh(limit, now)]
    {
      b := new Bucket(limit.Capacity(), limit.PerSec(), now);
      assert b.View() == M.Fresh(limit, now);
      hide M.Limit.PerSec, M.Limit.Capacity, M.Fresh;
      buckets := buckets[key := b];
    }

    // Find the bucket, refill it and ask what it would do.
    method Consult(key: string, limit: M.Limit, want: real, now: real)
      returns (b: Bucket, d: M.Decision, ghost drop: set<string>)
      requires Valid() && !limit.Unlimited()
      modifies this`buckets, if key in buckets then {buckets[key]} else {}
      ensures Valid() && Looked(old(buckets), buckets, key) && b == buckets[key]
      ensures key !in old(buckets) ==> fresh(b)
      ensures E.MayCreate(Policy(), old(View()), key, now, drop)
      ensures var m := M.Lookup(old(View()), key, limit, now, drop);
              View() == m[key := M.Refilled(m[key], now)] && d == M.Assess(M.Refilled(m[key], now), want)
    {
      b, drop := BucketFor(key, limit, now);
      hide M.Lookup, M.Refilled, M.Assess, E.MayCreate;
      d := AssessIn(key, want, now);
    }

    method AssessIn(key: string, want: real, now: real) returns (d: M.Decision)
      requires Valid() && key in buckets && buckets[key].perSec != 0.0
      modifies buckets[key]
      ensures View() == old(View())[key := M.Refilled(old(View())[key], now)]
      ensures d == M.Assess(M.Refilled(old(View())[key], now), want)
    {
      d := buckets[key].Assess(want, now);
      hide M.Refilled, M.Assess;
    }

    method ApplySlot(s: Slot)
      requires Valid() && Rooted([s], buckets)
      modifies s.b
      ensures View() == if s.key in buckets && buckets[s.key] == s.b
                        then old(View())[s.key := M.Applied(old(View())[s.key], s.d)] else old(View())
    {
      assert [s][0] == s;
      s.b.Apply(s.d);
      hide M.Applied;
    }

    method ApplyAll(slots: seq<Slot>)
      requires Valid() && Rooted(slots, buckets)
      modifies set i | 0 <= i < |slots| :: slots[i].b
      ensures View() == M.ApplyAll(old(View()), Live(slots, buckets))
    {
      ghost var m := View();
      for j := 0 to |slots|
        invariant View() == M.ApplyAll(m, Live(slots[..j], buckets))
      {
        LiveNext(slots, j, buckets, m);
        assert Rooted([slots[j]], buckets);
        assert slots[j].b in set i | 0 <= i < |slots| :: slots[i].b;
        hide Limiter.View, Live, M.ApplyAll, M.Applied, Rooted;
        ApplySlot(slots[j]);
      }
      assert slots[..|slots|] == slots;
    }

    static lemma {:induction false} LiveNext(slots: seq<Slot>, j: nat, buckets: map<string, Bucket>, m: M.Buckets)
      requires j < |slots| && m.Keys == buckets.Keys
      ensures var s := slots[j];
              var r := M.ApplyAll(m, Live(slots[..j], buckets));
              M.ApplyAll(m, Live(slots[..j + 1], buckets)) ==
                if s.key in buckets && buckets[s.key] == s.b then r[s.key := M.Applied(r[s.key], s.d)] else r
    {
      var s, init := slots[j], Live(slots[..j], buckets);
      assert slots[..j + 1][..j] == slots[..j];
      if s.key in buckets && buckets[s.key] == s.b {
        var p := M.Pending(s.key, s.d);
        assert Live(slots[..j + 1], buckets) == init + [p];
        assert (init + [p])[..|init|] == init;
      } else {
        assert Live(slots[..j + 1], buckets) == init + [] == init;
      }
    }

    // The assessment `a` is where the buckets and the slots have got to.
    ghost predicate Tracks(slots: seq<Slot>, a: M.Assessment)
      reads this, buckets.Values
    {
      Valid() && Rooted(slots, buckets) && a.buckets == View() && a.pending == Live(slots, buckets)
    }

    static lemma {:induction false} SlotStep(slots: seq<Slot>, a: M.Assessment, before: map<string, Bucket>,
                                             after: map<string, Bucket>, req: M.Request, want: real, now: real,
                                             drop: set<string>, b: Bucket, d: M.Decision)
      requires req.Charges() && a.buckets.Keys == before.Keys && Rooted(slots, before)
               && a.pending == Live(slots, before)
      requires Looked(before, after, req.key) && after[req.key] == b
      requires forall k :: k in after && k != req.key ==> after[k] != b
      requires req.key !in before ==> forall i :: 0 <= i < |slots| ==> slots[i].b != b
      requires M.Lookup(a.buckets, req.key, req.limit, now, drop).Keys == after.Keys
      requires d == M.Assess(M.Refilled(M.Lookup(a.buckets, req.key, req.limit, now, drop)[req.key], now), want)
      ensures var a' := M.AssessOne(a, req.key, req.limit, want, now, drop);
              var more := slots + [Slot(b, d, req.key)];
              && Rooted(more, after) && a'.pending == Live(more, after)
              && a'.allowed == (a.allowed && !d.Refuse?)
              && a'.retryAfter == (if d.Refuse? then M.Max(a.retryAfter, d.retryAfter) else a.retryAfter)
    {
      RootedAfterLookup(slots, before, after, req.key);
      LiveAfterLookup(slots, before, after, req.key, M.Lookup(a.buckets, req.key, req.limit, now, drop));
      AddSlot(slots, Slot(b, d, req.key), after);
      hide Live, Rooted, M.Surviving, M.Refilled, M.Lookup, M.Assess;
    }

    method AssessSlot(slots: seq<Slot>, ghost a: M.Assessment, req: M.Request, want: real, now: real)
      returns (b: Bucket, d: M.Decision, ghost drop: set<string>)
      requires Tracks(slots, a) && req.Charges()
      modifies this`buckets, buckets.Values
      ensures E.MayCreate(Policy(), a.buckets, req.key, now, drop)
      ensures var a' := M.AssessOne(a, req.key, req.limit, want, now, drop);
              && Tracks(slots + [Slot(b, d, req.key)], a')
              && a'.allowed == (a.allowed && !d.Refuse?)
              && a'.retryAfter == (if d.Refuse? then M.Max(a.retryAfter, d.retryAfter) else a.retryAfter)
      ensures (b in old(buckets.Values) || fresh(b)) && buckets.Values <= old(buckets.Values) + {b}
    {
      ghost var before := buckets;
      b, d, drop := Consult(req.key, req.limit, want, now);
      hide Live, Rooted, M.Refilled, M.Lookup, M.Assess, E.MayCreate, Limiter.View;
      assert req.key !in before ==> forall i :: 0 <= i < |slots| ==> slots[i].b != b;
      LookedValues(before, buckets, req.key);
      SlotStep(slots, a, before, buckets, req, want, now, drop, b, d);
      hide Looked;
    }

    // The first phase: decide for every request, charge nothing.
    method AssessRequests(reqs: seq<M.Request>, want: real, now: real)
      returns (slots: seq<Slot>, allowed: bool, retryAfter: real, ghost drops: seq<set<string>>)
      requires Valid()
      modifies this`buckets, buckets.Values
      ensures fresh(buckets.Values - old(buckets.Values)) && |drops| == |reqs|
      ensures forall s :: s in slots ==> s.b in old(buckets.Values) || fresh(s.b)
      ensures var a := M.AssessAll(old(View()), reqs, want, now, drops);
              Tracks(slots, a) && a.allowed == allowed && a.retryAfter == retryAfter
      ensures E.AssessDropsBy(Policy(), old(View()), reqs, want, now, drops)
    {
      ghost var m := View();
      ghost var a := M.Unassessed(m);
      slots, allowed, retryAfter, drops := [], true, 0.0, [];
      assert reqs[..0] == [];
      for i := 0 to |reqs|
        invariant |drops| == i && fresh(buckets.Values - old(buckets.Values))
        invariant forall s :: s in slots ==> s.b in old(buckets.Values) || fresh(s.b)
        invariant a == M.AssessAll(m, reqs[..i], want, now, drops)
        invariant E.AssessDropsBy(Policy(), m, reqs[..i], want, now, drops)
        invariant Tracks(slots, a) && a.allowed == allowed && a.retryAfter == retryAfter
      {
        hide M.AssessAll, E.AssessDropsBy, M.AssessOne, E.MayCreate, Limiter.Tracks, Limiter.Valid, Limiter.View;
        var req := reqs[i];
        if req.limit.Unlimited() || req.key == "" {
          E.AssessNext(Policy(), m, reqs, i, want, now, drops, {});
          drops := drops + [{}];
          continue;
        }
        var b, d;
        ghost var drop;
        b, d, drop := AssessSlot(slots, a, req, want, now);
        slots := slots + [Slot(b, d, req.key)];
        E.AssessNext(Policy(), m, reqs, i, want, now, drops, drop);
        drops := drops + [drop];
        if d.Refuse? {
          allowed := false;
          if d.retryAfter > retryAfter {
            retryAfter := d.retryAfter;
          }
        }
        a := M.AssessOne(a, req.key, req.limit, want, now, drop);
      }
      assert reqs[..|reqs|] == reqs;
    }

    // Every bucket pays, or none does.
    method AllowAll(reqs: seq<M.Request>, cost: int, now: real)
      returns (allowed: bool, retryAfter: real, ghost drops: seq<set<string>>)
      requires Valid()
      modifies this`buckets, buckets.Values
      ensures Valid() && fresh(buckets.Values - old(buckets.Values)) && |drops| == |reqs|
      ensures M.Answer(View(), allowed, retryAfter) == M.AllowAll(old(View()), reqs, cost, now, drops)
      ensures E.AssessDropsBy(Policy(), old(View()), reqs, M.Want(cost), now, drops)
    {
      var slots;
      slots, allowed, retryAfter, drops := AssessRequests(reqs, M.Want(cost), now);
      hide M.AssessAll, E.AssessDropsBy, Live;
      if !allowed {
        return;
      }
      ApplyAll(slots);
      retryAfter := 0.0;
    }

    method Allow(key: string, limit: M.Limit, cost: int, now: real)
      returns (allowed: bool, retryAfter: real, ghost drop: set<string>)
      requires Valid()
      modifies this`buckets, buckets.Values
      ensures Valid() && fresh(buckets.Values - old(buckets.Values))
      ensures M.Answer(View(), allowed, retryAfter) == M.Allow(old(View()), key, limit, cost, now, drop)
      ensures !limit.Unlimited() ==> E.MayCreate(Policy(), old(View()), key, now, drop)
    {
      if limit.Unlimited() {
        return true, 0.0, {};
      }
      hide E.MayCreate, M.Allow, Limiter.Valid, Limiter.View;
      ghost var was := buckets;
      allowed, retryAfter, drop := AllowLimited(key, limit, cost, now);
      LookedValues(was, buckets, key);
      hide Looked;
    }

    method AllowLimited(key: string, limit: M.Limit, cost: int, now: real)
      returns (allowed: bool, retryAfter: real, ghost drop: set<string>)
      requires Valid() && !limit.Unlimited()
      modifies this`buckets, if key in buckets then {buckets[key]} else {}
      ensures Valid() && Looked(old(buckets), buckets, key)
      ensures key !in old(buckets) ==> fresh(buckets[key])
      ensures M.Answer(View(), allowed, retryAfter) == M.Allow(old(View()), key, limit, cost, now, drop)
      ensures E.MayCreate(Policy(), old(View()), key, now, drop)
    {
      hide E.MayCreate, M.Lookup, M.AssessOne, M.Settle, M.Refilled, M.Assess, M.Want, M.Applied, M.Allow;
      ghost var m := View();
      var b, d;
      b, d, drop := Consult(key, limit, M.Want(cost), now);
      AllowIs(m, key, limit, cost, now, drop, View(), d);
      ApplyHere(b, d, key);
      allowed := !d.Refuse?;
      retryAfter := if d.Refuse? then d.retryAfter else 0.0;
    }

    // Carries a verdict out on the bucket under the key.
    method ApplyHere(b: Bucket, d: M.Decision, ghost key: string)
      requires Valid() && key in buckets && buckets[key] == b
      modifies b
      ensures View() == old(View())[key := M.Applied(old(View())[key], d)]
    {
      ApplySlot(Slot(b, d, key));
    }

    static lemma {:induction false} AllowIs(m: M.Buckets, key: string, limit: M.Limit, cost: int, now: real,
                                            drop: set<string>, v: M.Buckets, d: M.Decision)
      requires !limit.Unlimited()
      requires var l := M.Lookup(m, key, limit, now, drop);
               v == l[key := M.Refilled(l[key], now)] && d == M.Assess(M.Refilled(l[key], now), M.Want(cost))
      ensures M.Allow(m, key, limit, cost, now, drop) ==
              M.Answer(v[key := M.Applied(v[key], d)], !d.Refuse?, if d.Refuse? then d.retryAfter else 0.0)
    {
      AllowIsSettle(m, key, limit, M.Want(cost), now, drop, v, d);
      hide M.AssessOne, M.Settle, M.Lookup, M.Refilled, M.Assess, M.Want, M.Applied;
    }

    static lemma {:induction false} AllowIsSettle(m: M.Buckets, key: string, limit: M.Limit, want: real, now: real,
                                                  drop: set<string>, v: M.Buckets, d: M.Decision)
      requires !limit.Unlimited()
      requires var l := M.Lookup(m, key, limit, now, drop);
               v == l[key := M.Refilled(l[key], now)] && d == M.Assess(M.Refilled(l[key], now), want)
      ensures var a := M.AssessOne(M.Unassessed(m), key, limit, want, now, drop);
              M.Settle(a) == M.Answer(v[key := M.Applied(v[key], d)], !d.Refuse?,
                                      if d.Refuse? then d.retryAfter else 0.0)
    {
      var l := M.Lookup(m, key, limit, now, drop);
      var b := M.Refilled(l[key], now);
      if d.Refuse? { M.WaitIsPositive(b, want); }
      var a := M.AssessOne(M.Unassessed(m), key, limit, want, now, drop);
      hide M.Lookup, M.Refilled, M.Assess;
      assert a.pending == [M.Pending(key, d)];
      assert M.ApplyAll(a.buckets, []) == a.buckets;
      if d.Refuse? { assert v[key := v[key]] == v; }
    }

    // Charge one bucket now, into debt if need be.
    method Draw(delay: real, held: seq<M.Held>, key: string, limit: M.Limit, want: real, now: real)
      returns (delay': real, held': seq<M.Held>, ghost drop: set<string>)
      requires Valid() && !limit.Unlimited()
      modifies this`buckets, buckets.Values
      ensures Valid() && fresh(buckets.Values - old(buckets.Values))
      ensures M.Reserved(View(), delay', held') ==
              M.ReserveOne(M.Reserved(old(View()), delay, held), key, limit, want, now, drop)
      ensures E.MayCreate(Policy(), old(View()), key, now, drop)
    {
      var b;
      b, drop := BucketFor(key, limit, now);
      hide M.Lookup, M.Refilled, M.Debited, M.DelayAfter, M.Restores, E.MayCreate;
      delay', held' := Charge(delay, held, key, want, now);
    }

    method Charge(delay: real, held: seq<M.Held>, key: string, want: real, now: real)
      returns (delay': real, held': seq<M.Held>)
      requires Valid() && key in buckets && buckets[key].perSec != 0.0
      modifies buckets[key]
      ensures var b := M.Refilled(old(View())[key], now);
              && View() == old(View())[key := M.Debited(b, want)]
              && delay' == M.DelayAfter(delay, b, want)
              && held' == held + [M.Held(key, M.Restores(b, want))]
    {
      hide M.Refilled, M.WaitFor, M.Debited, M.DelayAfter, M.Restores;
      var restore;
      delay', restore := buckets[key].Debit(delay, want, now);
      held' := held + [M.Held(key, restore)];
    }

    method ReserveAll(reqs: seq<M.Request>, cost: int, now: real)
      returns (r: Reservation, ghost drops: seq<set<string>>)
      requires Valid()
      modifies this`buckets, buckets.Values
      ensures Valid() && fresh(buckets.Values - old(buckets.Values)) && |drops| == |reqs|
      ensures fresh(r) && r.l == this
      ensures M.Reserved(View(), r.delay, r.held) == M.ReserveAll(old(View()), reqs, M.Want(cost), now, drops)
      ensures E.ReserveDropsBy(Policy(), old(View()), reqs, M.Want(cost), now, drops)
    {
      var want := M.Want(cost);
      ghost var m := View();
      var delay, held := 0.0, [];
      drops := [];
      for i := 0 to |reqs|
        invariant Valid() && fresh(buckets.Values - old(buckets.Values)) && |drops| == i
        invariant M.Reserved(View(), delay, held) == M.ReserveAll(m, reqs[..i], want, now, drops)
        invariant E.ReserveDropsBy(Policy(), m, reqs[..i], want, now, drops)
      {
        hide M.ReserveAll, E.ReserveDropsBy, M.ReserveOne, E.MayCreate, Limiter.View, Limiter.Valid;
        var req := reqs[i];
        if req.limit.Unlimited() || req.key == "" {
          E.ReserveNext(Policy(), m, reqs, i, want, now, drops, {});
          drops := drops + [{}];
          continue;
        }
        ghost var drop;
        delay, held, drop := Draw(delay, held, req.key, req.limit, want, now);
        E.ReserveNext(Policy(), m, reqs, i, want, now, drops, drop);
        drops := drops + [drop];
      }
      assert reqs[..|reqs|] == reqs;
      r := new Reservation(this, delay, held);
    }

    method Return(h: M.Held)
      requires Valid()
      modifies buckets.Values
      ensures View() == M.Returned(old(View()), h)
    {
      if h.key in buckets {
        var b := buckets[h.key];
        b.tokens := M.Min(b.capacity, b.tokens + h.restore);
      }
    }

    // Drops a tenant's state.
    method Forget(key: string)
      requires Valid()
      modifies this`buckets
      ensures Valid() && View() == old(View()) - {key}
    {
      buckets := buckets - {key};
    }
  }

  // A claim on future tokens, made by ReserveAll.
  class Reservation {
    const l: Limiter
    const delay: real
    var held: seq<M.Held>

    constructor (l: Limiter, delay: real, held: seq<M.Held>)
      ensures this.l == l && this.delay == delay && this.held == held
    {
      this.l, this.delay, this.held := l, delay, held;
    }

    // Pays back, to the buckets still there, whatever is held, and then holds nothing.
    method Cancel()
      requires l.Valid()
      modifies this`held, l.buckets.Values
      ensures l.Valid() && held == [] && l.View() == M.Cancel(old(l.View()), old(held))
    {
      ghost var m := l.View();
      for i := 0 to |held|
        invariant l.Valid() && held == old(held) && l.View() == M.Cancel(m, held[..i])
      {
        assert held[..i + 1][..i] == held[..i];
        hide Limiter.View, M.Returned;
        l.Return(held[i]);
      }
      assert held[..|held|] == held;
      held := [];
    }
  }
}
