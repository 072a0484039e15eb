/**
 Reservations on several buckets: how long they are told to wait, and what
 cancelling one at once leaves.
 */
module RateUndo {
  import opened RateModel
  import opened RateAccount
  import RateLives
  import RateNumbers

  /******* Reserving on one bucket among others *******/

  // Whatever asks for `k` in the list names this limit.
  ghost predicate OneLimitFor(reqs: seq<Request>, k: string, l: Limit) {
    forall r :: r in reqs && r.Charges() && r.key == k ==> r.limit == l
  }

  // The bucket of `k` once the list has been charged, each request that names it
  // for the whole cost.
  ghost predicate ChargedFor(m: Buckets, reqs: seq<Request>, l: Limit, want: real, now: real, k: string, r: Reserved) {
    var b := RateNumbers.Ready(m, k, l, now);
    && HeldFor(r.held, k) == Billed(reqs, k, want)
    && (if Names(reqs, k) then k in r.buckets && r.buckets[k] == b.(tokens := b.tokens - Billed(reqs, k, want))
        else (k in r.buckets <==> k in m) && (k in m ==> r.buckets[k] == m[k]))
  }

  lemma {:induction false} ReadyAgain(m: Buckets, k: string, l: Limit, now: real, paid: real)
    ensures var b := RateNumbers.Ready(m, k, l, now).(tokens := paid);
            paid <= b.capacity ==> Refilled(Rerated(b, l), now) == b
  {
    hide Limit.Capacity, Limit.PerSec, Earned;
  }

  lemma {:induction false} HeldMore(held: seq<Held>, h: Held, k: string)
    ensures HeldFor(held + [h], k) == HeldFor(held, k) + if h.key == k then h.restore else 0.0
  {
    assert (held + [h])[..|held|] == held;
  }

  lemma {:induction false} ReadyCapped(m: Buckets, k: string, l: Limit, now: real)
    requires !l.Unlimited() && (k in m ==> m[k].tokens <= m[k].capacity)
    ensures var b := RateNumbers.Ready(m, k, l, now);
            b.tokens <= b.capacity == l.Capacity() && b.perSec == l.PerSec() > 0.0
  {
    assert l.PerSec() > 0.0;
    hide Limit.Capacity, Limit.PerSec, Earned;
  }

  // What the next request for `k` finds.
  lemma {:induction false} FoundAgain(m: Buckets, init: seq<Request>, l: Limit, want: real, now: real, k: string,
                                      r: Reserved)
    requires !l.Unlimited() && ChargedFor(m, init, l, want, now, k, r) && Billed(init, k, want) >= 0.0
    requires k in m ==> m[k].tokens <= m[k].capacity
    ensures var b := RateNumbers.Ready(m, k, l, now);
            Refilled(Lookup(r.buckets, k, l, now, {})[k], now) == b.(tokens := b.tokens - Billed(init, k, want))
  {
    var b := RateNumbers.Ready(m, k, l, now);
    ReadyCapped(m, k, l, now);
    if Names(init, k) {
      ReadyAgain(m, k, l, now, b.tokens - Billed(init, k, want));
      hide Limit.Capacity, Limit.PerSec, Refilled, Rerated, Fresh, HeldFor, Billed, RateNumbers.Ready;
    } else {
      BilledOnlyIfNamed(init, k, want);
      hide Limit.Capacity, Limit.PerSec, Refilled, Rerated, Fresh, HeldFor, Billed;
      assert b.(tokens := b.tokens - 0.0) == b;
    }
  }

  lemma {:induction false} ReserveOneAt(r: Reserved, k: string, l: Limit, want: real, now: real, b: Bucket)
    requires !l.Unlimited() && b == Refilled(Lookup(r.buckets, k, l, now, {})[k], now) && want <= b.capacity
    ensures var s := ReserveOne(r, k, l, want, now, {});
            && k in s.buckets && s.buckets[k] == b.(tokens := b.tokens - want) && s.held == r.held + [Held(k, want)]
  {
    hide Refilled, DelayAfter, Lookup;
  }

  // One more request for `k` itself.
  lemma {:induction false} ChargedAgain(m: Buckets, init: seq<Request>, q: Request, want: real, now: real, k: string,
                                        r: Reserved)
    requires q.Charges() && q.key == k && 0.0 <= want <= q.limit.Capacity()
    requires ChargedFor(m, init, q.limit, want, now, k, r) && Billed(init, k, want) >= 0.0
    requires k in m ==> m[k].tokens <= m[k].capacity
    ensures ChargedFor(m, init + [q], q.limit, want, now, k, ReserveOne(r, k, q.limit, want, now, {}))
  {
    var l := q.limit;
    var b := RateNumbers.Ready(m, k, l, now);
    assert HeldFor(r.held, k) == Billed(init, k, want);
    hide Limit.Capacity, Limit.PerSec, Refilled, HeldFor, Billed, RateNumbers.Ready, ReserveOne, Names, Lookup;
    FoundAgain(m, init, l, want, now, k, r);
    ReadyCapped(m, k, l, now);
    ReserveOneAt(r, k, l, want, now, b.(tokens := b.tokens - Billed(init, k, want)));
    BilledMore(init, q, k, want);
    NamesMore(init, q, k);
    HeldMore(r.held, Held(k, want), k);
  }

  lemma {:induction false} NamesMore(init: seq<Request>, q: Request, k: string)
    ensures Names(init + [q], k) <==> Names(init, k) || (q.Charges() && q.key == k)
  {
    NamesLast(init + [q], k);
    assert (init + [q])[..|init|] == init;
  }

  // One more request for another key.
  lemma {:induction false} ChargedElsewhere(m: Buckets, init: seq<Request>, q: Request, l: Limit, want: real, now: real,
                                            drop: set<string>, k: string, r: Reserved)
    requires q.Charges() && q.key != k && drop == {} && ChargedFor(m, init, l, want, now, k, r)
    ensures ChargedFor(m, init + [q], l, want, now, k, ReserveOne(r, q.key, q.limit, want, now, drop))
  {
    var x := Lookup(r.buckets, q.key, q.limit, now, drop);
    BilledMore(init, q, k, want);
    NamesMore(init, q, k);
    assert r.buckets - {} == r.buckets;
    HeldMore(r.held, Held(q.key, Restores(Refilled(x[q.key], now), want)), k);
    hide Refilled, Rerated, Fresh, HeldFor, Billed, RateNumbers.Ready, DelayAfter, Restores, Debited, Names;
  }

  lemma {:induction false} BilledAtLeastZero(reqs: seq<Request>, k: string, want: real)
    requires want >= 0.0
    ensures Billed(reqs, k, want) >= 0.0
  {
    if reqs == [] {
    } else {
      BilledAtLeastZero(reqs[..|reqs| - 1], k, want);
    }
  }

  lemma {:induction false} ReserveCharges(m: Buckets, reqs: seq<Request>, l: Limit, want: real, now: real,
                                          drops: seq<set<string>>, k: string)
    requires |drops| == |reqs| && NothingDropped(drops) && OneLimitFor(reqs, k, l)
    requires !l.Unlimited() && 0.0 <= want <= l.Capacity() && (k in m ==> m[k].tokens <= m[k].capacity)
    ensures ChargedFor(m, reqs, l, want, now, k, ReserveAll(m, reqs, want, now, drops))
  {
    if reqs == [] {
      hide RateNumbers.Ready;
    } else {
      var n := |reqs| - 1;
      var init, q := reqs[..n], reqs[n];
      assert reqs == init + [q] && q in reqs && drops[n] == {};
      ReserveCharges(m, init, l, want, now, drops[..n], k);
      var r := ReserveAll(m, init, want, now, drops[..n]);
      assert ReserveAll(m, reqs, want, now, drops) ==
             if q.Charges() then ReserveOne(r, q.key, q.limit, want, now, drops[n]) else r;
      BilledAtLeastZero(init, k, want);
      hide ReserveAll, ReserveOne, ChargedFor, Billed, Limit.Capacity;
      if !q.Charges() {
        Uncharged(m, init, q, l, want, now, k, r);
      } else if q.key == k {
        assert q.limit == l;
        ChargedAgain(m, init, q, want, now, k, r);
      } else {
        ChargedElsewhere(m, init, q, l, want, now, drops[n], k, r);
      }
    }
  }

  lemma {:induction false} Uncharged(m: Buckets, init: seq<Request>, q: Request, l: Limit, want: real, now: real,
                                     k: string, r: Reserved)
    requires !q.Charges() && ChargedFor(m, init, l, want, now, k, r)
    ensures ChargedFor(m, init + [q], l, want, now, k, r)
  {
    BilledMore(init, q, k, want);
    NamesMore(init, q, k);
    hide Billed, Names, HeldFor, RateNumbers.Ready;
  }

  /**
   Cancelling a reservation at once undoes it. Whatever list of requests it was
   made for, if each could hold the cost: every bucket it charged is as if it had
   only been looked at, and every other as it was.
   */
  lemma {:induction false} CancelUndoesReserve(m: Buckets, reqs: seq<Request>, l: Limit, want: real, now: real,
                                               drops: seq<set<string>>, k: string)
    requires |drops| == |reqs| && NothingDropped(drops) && OneLimitFor(reqs, k, l)
    requires !l.Unlimited() && 0.0 <= want <= l.Capacity() && (k in m ==> m[k].tokens <= m[k].capacity)
    ensures var r := ReserveAll(m, reqs, want, now, drops);
            var after := Cancel(r.buckets, r.held);
            if Names(reqs, k) then k in after && after[k] == RateNumbers.Ready(m, k, l, now)
            else (k in after <==> k in m) && (k in m ==> after[k] == m[k])
  {
    var r := ReserveAll(m, reqs, want, now, drops);
    ReserveCharges(m, reqs, l, want, now, drops, k);
    RateLives.ReservesAtLeastZero(m, reqs, want, now, drops);
    BilledAtLeastZero(reqs, k, want);
    ReadyCapped(m, k, l, now);
    if !Names(reqs, k) { BilledOnlyIfNamed(reqs, k, want); }
    hide ReserveAll, Billed, HeldFor, RateNumbers.Ready, Names, Limit.Capacity, Limit.PerSec, Cancel;
    if k in r.buckets { RateLives.CancelPays(r.buckets, r.held, k); }
  }

  /******* How long to wait *******/

  // What one request alone has to wait for, in the numbers of its limit.
  ghost function WaitFor(m: Buckets, q: Request, want: real, now: real): real {
    var cap := if q.limit.burst > 0 then q.limit.burst as real else q.limit.perMinute as real;
    if q.key == "" || q.limit.perMinute <= 0 || want > cap
      || RateNumbers.Balance(m, q.key, q.limit, now) >= want then 0.0
    else 60.0 * (want - RateNumbers.Balance(m, q.key, q.limit, now)) / q.limit.perMinute as real
  }

  // No key is asked for twice.
  ghost predicate DistinctKeys(reqs: seq<Request>) {
    forall i, j :: 0 <= i < j < |reqs| && reqs[i].Charges() && reqs[j].Charges() ==> reqs[i].key != reqs[j].key
  }

  lemma {:induction false} DelayIs(m: Buckets, q: Request, want: real, now: real, delay: real)
    requires q.Charges() && delay >= 0.0 && (q.key in m ==> m[q.key].tokens <= m[q.key].capacity)
    ensures var b := RateNumbers.Ready(m, q.key, q.limit, now);
            b.perSec != 0.0 && DelayAfter(delay, b, want) == Max(delay, WaitFor(m, q, want, now)) >= 0.0
  {
    var b := RateNumbers.Ready(m, q.key, q.limit, now);
    RateNumbers.ReadyIs(m, q.key, q.limit, now);
    RateNumbers.AMinuteIsSixtySeconds(want - b.tokens, q.limit.perMinute as real);
    assert b.perSec > 0.0;
    if b.tokens < want { assert (want - b.tokens) / b.perSec > 0.0; }
    hide RateNumbers.Ready, RateNumbers.Balance;
  }

  lemma {:induction false} ReserveKeepsOthers(m: Buckets, reqs: seq<Request>, want: real, now: real,
                                              drops: seq<set<string>>, k: string)
    requires |drops| == |reqs| && NothingDropped(drops) && !Names(reqs, k)
    ensures var r := ReserveAll(m, reqs, want, now, drops);
            (k in r.buckets <==> k in m) && (k in m ==> r.buckets[k] == m[k])
  {
    if reqs == [] {
    } else {
      var n := |reqs| - 1;
      NamesLast(reqs, k);
      ReserveKeepsOthers(m, reqs[..n], want, now, drops[..n], k);
      var r := ReserveAll(m, reqs[..n], want, now, drops[..n]);
      assert drops[n] == {} && r.buckets - {} == r.buckets;
      hide Names, Refilled, Rerated, Fresh, Debited, DelayAfter, Restores;
    }
  }

  // The told delay is that of the request that has to wait longest.
  ghost predicate Longest(m: Buckets, reqs: seq<Request>, want: real, now: real, delay: real) {
    && delay >= 0.0
    && (forall q :: q in reqs ==> WaitFor(m, q, want, now) <= delay)
    && (delay == 0.0 || exists q :: q in reqs && WaitFor(m, q, want, now) == delay)
  }

  lemma {:induction false} LongestMore(m: Buckets, init: seq<Request>, q: Request, want: real, now: real, delay: real)
    requires Longest(m, init, want, now, delay)
    ensures Longest(m, init + [q], want, now, Max(delay, WaitFor(m, q, want, now)))
  {
    hide WaitFor;
    var reqs := init + [q];
    assert q in reqs;
    assert forall p :: p in init ==> p in reqs;
    if delay < WaitFor(m, q, want, now) || delay == 0.0 {
    } else {
      var p :| p in init && WaitFor(m, p, want, now) == delay;
      assert p in reqs;
    }
  }

  /**
   A reservation on distinct buckets is told to wait exactly as long as the one
   that needs longest to earn what it owes, and not at all if none owes.
   */
  lemma {:induction false} DelayIsLongest(m: Buckets, reqs: seq<Request>, want: real, now: real,
                                          drops: seq<set<string>>)
    requires |drops| == |reqs| && NothingDropped(drops) && DistinctKeys(reqs)
    requires forall k :: k in m ==> m[k].tokens <= m[k].capacity
    ensures Longest(m, reqs, want, now, ReserveAll(m, reqs, want, now, drops).delay)
  {
    if reqs == [] {
    } else {
      var n := |reqs| - 1;
      var init, q := reqs[..n], reqs[n];
      assert reqs == init + [q] && drops[n] == {};
      DelayIsLongest(m, init, want, now, drops[..n]);
      var r := ReserveAll(m, init, want, now, drops[..n]);
      LongestMore(m, init, q, want, now, r.delay);
      if q.Charges() {
        NotNamedBefore(reqs);
        ReserveKeepsOthers(m, init, want, now, drops[..n], q.key);
        LastDelay(m, r, q, want, now);
      } else {
        assert WaitFor(m, q, want, now) == 0.0;
      }
      hide Longest, WaitFor, ReserveOne;
    }
  }

  lemma {:induction false} NotNamedBefore(reqs: seq<Request>)
    requires reqs != [] && DistinctKeys(reqs) && reqs[|reqs| - 1].Charges()
    ensures !Names(reqs[..|reqs| - 1], reqs[|reqs| - 1].key)
  {
    var n := |reqs| - 1;
    forall p | p in reqs[..n] && p.Charges() ensures p.key != reqs[n].key {
      var i :| 0 <= i < n && reqs[..n][i] == p;
      assert reqs[i] == p;
    }
  }

  lemma {:induction false} LastDelay(m: Buckets, r: Reserved, q: Request, want: real, now: real)
    requires q.Charges() && r.delay >= 0.0 && (forall k :: k in m ==> m[k].tokens <= m[k].capacity)
    requires (q.key in r.buckets <==> q.key in m) && (q.key in m ==> r.buckets[q.key] == m[q.key])
    ensures ReserveOne(r, q.key, q.limit, want, now, {}).delay == Max(r.delay, WaitFor(m, q, want, now))
  {
    DelayIs(m, q, want, now, r.delay);
    hide WaitFor, Refilled, Rerated, Fresh, Debited, DelayAfter, Restores;
  }
}
