/**
 The account of one bucket: what it was granted, what it was charged, and that
 every way of charging it keeps the one within the other.
 */
module RateAccount {
  import opened RateModel

  /******* What is charged *******/

  function HeldFor(held: seq<Held>, k: string): real {
    if held == [] then 0.0
    else
      var h := held[|held| - 1];
      HeldFor(held[..|held| - 1], k) + if h.key == k then h.restore else 0.0
  }

  // Every charge to `k` is one that its limit, as named then, could hold.
  ghost predicate SteadyRequests(reqs: seq<Request>, k: string, want: real) {
    forall r :: r in reqs && r.Charges() && r.key == k ==> want <= r.limit.Capacity()
  }

  ghost predicate NeverDropped(drops: seq<set<string>>, k: string) { forall d :: d in drops ==> k !in d }

  lemma {:induction false} NamesLast(reqs: seq<Request>, k: string)
    requires reqs != []
    ensures var last := reqs[|reqs| - 1];
            Names(reqs, k) <==> Names(reqs[..|reqs| - 1], k) || (last.Charges() && last.key == k)
  {
    assert reqs == reqs[..|reqs| - 1] + [reqs[|reqs| - 1]];
  }

  /******* What is granted *******/

  // What a bucket may have handed out by the time it was last refilled, and
  // the limit it then had. It is read off the calls alone.
  datatype Meter = Unborn | Running(granted: real, refilled: real, limit: Limit)

  // The first call grants the capacity. Every later one grants the time since
  // the last refill at its own rate: a raised rate reaches back to it.
  function Metered(x: Meter, l: Limit, now: real): Meter {
    match x
    case Unborn => Running(l.Capacity(), now, l)
    case Running(granted, at, _) =>
      if now - at > 0.0 then Running(granted + Earned(now - at, l.PerSec()), now, l) else Running(granted, at, l)
  }

  function MeteredBy(x: Meter, reqs: seq<Request>, k: string, now: real): Meter {
    if reqs == [] then x
    else
      var r := reqs[|reqs| - 1];
      var before := MeteredBy(x, reqs[..|reqs| - 1], k, now);
      if r.Charges() && r.key == k then Metered(before, r.limit, now) else before
  }

  lemma {:induction false} MeteredOnlyIfNamed(x: Meter, reqs: seq<Request>, k: string, now: real)
    ensures !Names(reqs, k) ==> MeteredBy(x, reqs, k, now) == x
    ensures Names(reqs, k) ==> MeteredBy(x, reqs, k, now).Running?
  {
    if reqs == [] {
    } else {
      MeteredOnlyIfNamed(x, reqs[..|reqs| - 1], k, now);
      NamesLast(reqs, k);
    }
  }

  /******* The invariant of one bucket *******/

  ghost predicate Holds(b: Bucket, x: Meter, spent: real) {
    && x.Running? && !x.limit.Unlimited()
    && b.capacity == x.limit.Capacity()
    && b.perSec == x.limit.PerSec()
    && b.refilled == x.refilled
    && b.tokens <= b.capacity
    && spent + b.tokens <= x.granted
  }

  // The account of `k`: within what was granted, or not opened yet.
  ghost predicate Account(m: Buckets, k: string, x: Meter, spent: real) {
    if k in m then Holds(m[k], x, spent) else x.Unborn? && spent == 0.0
  }

  // Refilling under any limit, capped at its capacity, keeps within the grant.
  lemma {:induction false} RefillKeeps(b: Bucket, x: Meter, l: Limit, spent: real, now: real)
    requires !l.Unlimited() && Holds(b, x, spent)
    ensures Holds(Refilled(Rerated(b, l), now), Metered(x, l, now), spent)
  {
    var earned := Earned(now - b.refilled, l.PerSec());
    if now - b.refilled > 0.0 { assert earned >= 0.0 by { EarnedIsPositive(now - b.refilled, l); } }
    hide Earned, Limit.Capacity, Limit.PerSec;
  }

  lemma {:induction false} EarnedIsPositive(elapsed: real, l: Limit)
    requires elapsed > 0.0 && !l.Unlimited()
    ensures Earned(elapsed, l.PerSec()) >= 0.0
  {
    assert l.PerSec() > 0.0;
  }

  lemma {:induction false} FreshHolds(l: Limit, now: real)
    requires !l.Unlimited()
    ensures Holds(Refilled(Fresh(l, now), now), Metered(Unborn, l, now), 0.0)
  {
    hide Limit.Capacity, Limit.PerSec;
  }

  lemma {:induction false} LookupKeeps(m: Buckets, key: string, l: Limit, now: real, drop: set<string>, k: string,
                                       x: Meter, spent: real)
    requires !l.Unlimited() && Account(m, k, x, spent) && k !in drop
    ensures var r := Lookup(m, key, l, now, drop);
            && (k in r <==> k in m || key == k)
            && (key == k ==> Holds(Refilled(r[k], now), Metered(x, l, now), spent))
            && (key != k ==> Account(r, k, x, spent))
  {
    if key == k {
      if k in m { RefillKeeps(m[k], x, l, spent, now); } else { FreshHolds(l, now); }
    }
    hide Holds, Metered, Refilled, Rerated, Fresh;
  }

  /******* Charging calls *******/

  function PendingFor(ps: seq<Pending>, k: string, want: real): real {
    if ps == [] then 0.0
    else PendingFor(ps[..|ps| - 1], k, want) + if ps[|ps| - 1].key == k then want else 0.0
  }

  lemma {:induction false} SurvivingKeepsBill(ps: seq<Pending>, m: Buckets, k: string, want: real)
    requires k in m
    ensures PendingFor(Surviving(ps, m), k, want) == PendingFor(ps, k, want)
  {
    if ps == [] {
    } else {
      SurvivingKeepsBill(ps[..|ps| - 1], m, k, want);
      var p := ps[|ps| - 1];
      var init := Surviving(ps[..|ps| - 1], m);
      if p.key in m { assert (init + [p])[..|init|] == init; } else { assert init + [] == init; }
    }
  }

  lemma {:induction false} NothingPending(ps: seq<Pending>, k: string, want: real)
    requires forall p :: p in ps ==> p.key != k
    ensures PendingFor(ps, k, want) == 0.0
  {
    if ps == [] {
    } else {
      NothingPending(ps[..|ps| - 1], k, want);
    }
  }

  // What an assessment promises about `k` before anything is charged.
  ghost predicate Assessed(a: Assessment, k: string, want: real, x: Meter, spent: real, bill: real) {
    && (forall p :: p in a.pending ==> p.key in a.buckets)
    && Account(a.buckets, k, x, spent)
    && (a.allowed ==> forall p :: p in a.pending && p.key == k ==> p.decision == Spend(want))
    && PendingFor(a.pending, k, want) == bill
  }

  lemma {:induction false} AssessOneBills(a: Assessment, key: string, l: Limit, want: real, now: real,
                                          drop: set<string>, k: string, bill: real)
    requires !l.Unlimited() && k !in drop
    requires forall p :: p in a.pending ==> p.key in a.buckets
    requires PendingFor(a.pending, k, want) == bill
    ensures PendingFor(AssessOne(a, key, l, want, now, drop).pending, k, want) == bill + if key == k then want else 0.0
  {
    var m := Lookup(a.buckets, key, l, now, drop);
    var kept := Surviving(a.pending, m);
    SurvivingWithin(a.pending, m);
    if k in m {
      SurvivingKeepsBill(a.pending, m, k, want);
    } else {
      NothingPending(a.pending, k, want);
      NothingPending(kept, k, want);
    }
    hide Refilled, Rerated, Fresh;
    var last := Pending(key, Assess(Refilled(m[key], now), want));
    assert (kept + [last])[..|kept|] == kept;
  }

  // What is due so far stays due; the new verdict is a charge or a refusal.
  lemma {:induction false} AssessOneSpends(a: Assessment, key: string, l: Limit, want: real, now: real,
                                           drop: set<string>, k: string)
    requires !l.Unlimited() && forall p :: p in a.pending ==> p.key in a.buckets
    requires a.allowed ==> forall p :: p in a.pending && p.key == k ==> p.decision == Spend(want)
    requires key == k ==> want <= l.Capacity()
    ensures var a' := AssessOne(a, key, l, want, now, drop);
            a'.allowed ==> forall p :: p in a'.pending && p.key == k ==> p.decision == Spend(want)
  {
    SurvivingWithin(a.pending, Lookup(a.buckets, key, l, now, drop));
    hide Surviving, Refilled, Rerated, Fresh, Limit.Capacity, Limit.PerSec;
  }

  lemma {:induction false} AssessOneAccounts(a: Assessment, key: string, l: Limit, want: real, now: real,
                                             drop: set<string>, k: string, x: Meter, spent: real)
    requires !l.Unlimited() && forall p :: p in a.pending ==> p.key in a.buckets
    requires Account(a.buckets, k, x, spent) && k !in drop
    ensures var after := AssessOne(a, key, l, want, now, drop).buckets;
            && Account(after, k, if key == k then Metered(x, l, now) else x, spent)
            && (k in after <==> k in a.buckets || key == k)
  {
    LookupKeeps(a.buckets, key, l, now, drop, k, x, spent);
    hide Holds, Metered, Refilled, Rerated, Fresh, Surviving, Assess, Lookup;
  }

  lemma {:induction false} AssessOneKeeps(a: Assessment, key: string, l: Limit, want: real, now: real,
                                          drop: set<string>, k: string, x: Meter, spent: real, bill: real)
    requires !l.Unlimited() && Assessed(a, k, want, x, spent, bill)
    requires k !in drop && (key == k ==> want <= l.Capacity())
    ensures Assessed(AssessOne(a, key, l, want, now, drop), k, want, if key == k then Metered(x, l, now) else x, spent,
                     bill + if key == k then want else 0.0)
    ensures k in AssessOne(a, key, l, want, now, drop).buckets <==> k in a.buckets || key == k
  {
    hide Account, AssessOne, PendingFor, Limit.Capacity;
    AssessOneAccounts(a, key, l, want, now, drop, k, x, spent);
    AssessOneSpends(a, key, l, want, now, drop, k);
    AssessOneBills(a, key, l, want, now, drop, k, bill);
  }

  lemma {:induction false} SteadyLast(reqs: seq<Request>, drops: seq<set<string>>, k: string, want: real)
    requires |drops| == |reqs| && reqs != [] && SteadyRequests(reqs, k, want) && NeverDropped(drops, k)
    ensures var n := |reqs| - 1;
            && SteadyRequests(reqs[..n], k, want) && NeverDropped(drops[..n], k) && k !in drops[n]
            && (reqs[n].Charges() && reqs[n].key == k ==> want <= reqs[n].limit.Capacity())
  {
    hide Limit.Capacity;
    assert reqs[|reqs| - 1] in reqs && drops[|reqs| - 1] in drops;
  }

  lemma {:induction false} AssessAllLast(m: Buckets, reqs: seq<Request>, want: real, now: real, drops: seq<set<string>>)
    requires |drops| == |reqs| && reqs != []
    ensures var n := |reqs| - 1;
            var a := AssessAll(m, reqs[..n], want, now, drops[..n]);
            AssessAll(m, reqs, want, now, drops) ==
              if reqs[n].Charges() then AssessOne(a, reqs[n].key, reqs[n].limit, want, now, drops[n]) else a
  {
    hide AssessOne;
  }

  lemma {:induction false} BillAndMeterLast(x: Meter, reqs: seq<Request>, k: string, want: real, now: real)
    requires reqs != []
    ensures var n := |reqs| - 1;
            var mine := reqs[n].Charges() && reqs[n].key == k;
            && Billed(reqs, k, want) == Billed(reqs[..n], k, want) + (if mine then want else 0.0)
            && MeteredBy(x, reqs, k, now) ==
                 if mine then Metered(MeteredBy(x, reqs[..n], k, now), reqs[n].limit, now)
                 else MeteredBy(x, reqs[..n], k, now)
  {
    hide Metered;
  }

  lemma {:induction false} AssessAllKeeps(m: Buckets, reqs: seq<Request>, want: real, now: real,
                                          drops: seq<set<string>>, k: string, x: Meter, spent: real)
    requires |drops| == |reqs| && Account(m, k, x, spent)
    requires SteadyRequests(reqs, k, want) && NeverDropped(drops, k)
    ensures Assessed(AssessAll(m, reqs, want, now, drops), k, want, MeteredBy(x, reqs, k, now), spent,
                     Billed(reqs, k, want))
    ensures k in AssessAll(m, reqs, want, now, drops).buckets <==> k in m || Names(reqs, k)
  {
    if reqs == [] {
      hide Account;
    } else {
      hide Assessed, Account, Names, AssessOne, AssessAll, Metered, MeteredBy, Billed, Limit.Capacity, SteadyRequests,
           NeverDropped;
      var n := |reqs| - 1;
      var a, r := AssessAll(m, reqs[..n], want, now, drops[..n]), reqs[n];
      AssessAllLast(m, reqs, want, now, drops);
      SteadyLast(reqs, drops, k, want);
      AssessAllKeeps(m, reqs[..n], want, now, drops[..n], k, x, spent);
      NamesLast(reqs, k);
      BillAndMeterLast(x, reqs, k, want, now);
      if r.Charges() {
        AssessOneKeeps(a, r.key, r.limit, want, now, drops[n], k, MeteredBy(x, reqs[..n], k, now), spent,
                       Billed(reqs[..n], k, want));
      }
    }
  }

  lemma {:induction false} ApplyAllCharges(m: Buckets, ps: seq<Pending>, k: string, want: real, x: Meter, spent: real)
    requires want >= 0.0
    requires forall p :: p in ps ==> p.key in m
    requires forall p :: p in ps && p.key == k ==> p.decision == Spend(want)
    requires Account(m, k, x, spent)
    ensures Account(ApplyAll(m, ps), k, x, spent + PendingFor(ps, k, want))
  {
    if ps == [] {
    } else {
      ApplyAllCharges(m, ps[..|ps| - 1], k, want, x, spent);
    }
  }

  lemma {:induction false} SettleCharges(a: Assessment, k: string, want: real, x: Meter, spent: real, bill: real)
    requires want >= 0.0 && Assessed(a, k, want, x, spent, bill)
    ensures Account(Settle(a).buckets, k, x, spent + if Settle(a).allowed then bill else 0.0)
    ensures k in Settle(a).buckets <==> k in a.buckets
  {
    if a.allowed { ApplyAllCharges(a.buckets, a.pending, k, want, x, spent); }
    hide Account, PendingFor;
  }

  /******* Reservations *******/

  // The delay covers whatever debt the bucket is in: by then it is in credit.
  ghost predicate Covers(delay: real, b: Bucket) { b.tokens + delay * b.perSec >= 0.0 }

  // A reservation that charged `k` has a delay that covers it.
  ghost predicate Covered(r: Reserved, k: string, charged: bool) {
    r.delay >= 0.0 && (charged ==> k in r.buckets && r.buckets[k].perSec > 0.0 && Covers(r.delay, r.buckets[k]))
  }

  lemma {:induction false} LongerDelayCovers(delay: real, longer: real, b: Bucket)
    requires b.perSec > 0.0 && longer >= delay
    requires Covers(delay, b) || (b.tokens >= 0.0 && longer >= 0.0) || longer >= -b.tokens / b.perSec
    ensures Covers(longer, b)
  {
    if Covers(delay, b) {
      assert longer * b.perSec >= delay * b.perSec;
    } else if longer >= -b.tokens / b.perSec {
      assert longer * b.perSec >= (-b.tokens / b.perSec) * b.perSec == -b.tokens;
    }
  }

  lemma {:induction false} ReserveOneCovers(r: Reserved, key: string, l: Limit, want: real, now: real,
                                            drop: set<string>, k: string, charged: bool)
    requires !l.Unlimited() && want >= 0.0 && k !in drop
    requires Covered(r, k, charged) && (key == k ==> want <= l.Capacity())
    ensures Covered(ReserveOne(r, key, l, want, now, drop), k, charged || key == k)
  {
    var r' := ReserveOne(r, key, l, want, now, drop);
    hide Refilled, Rerated, Fresh, Covers;
    if key == k { LongerDelayCovers(r.delay, r'.delay, r'.buckets[k]); }
    else if charged { LongerDelayCovers(r.delay, r'.delay, r.buckets[k]); }
  }

  lemma {:induction false} DebitHolds(b: Bucket, x: Meter, want: real, spent: real)
    requires Holds(b, x, spent) && 0.0 <= want <= b.capacity
    ensures Holds(Debited(b, want), x, spent + want)
  {
  }

  lemma {:induction false} ReserveOneCharges(r: Reserved, key: string, l: Limit, want: real, now: real,
                                             drop: set<string>, k: string, x: Meter, spent: real)
    requires !l.Unlimited() && want >= 0.0 && Account(r.buckets, k, x, spent)
    requires k !in drop && (key == k ==> want <= l.Capacity())
    ensures var r' := ReserveOne(r, key, l, want, now, drop);
            && Account(r'.buckets, k, if key == k then Metered(x, l, now) else x,
                       spent + if key == k then want else 0.0)
            && (k in r'.buckets <==> k in r.buckets || key == k)
  {
    LookupKeeps(r.buckets, key, l, now, drop, k, x, spent);
    var m := Lookup(r.buckets, key, l, now, drop);
    if key == k { DebitHolds(Refilled(m[k], now), Metered(x, l, now), want, spent); }
    hide Holds, Metered, Refilled, Debited, DelayAfter, Restores, Lookup;
  }

  lemma {:induction false} ReserveAllCharges(m: Buckets, reqs: seq<Request>, want: real, now: real,
                                             drops: seq<set<string>>, k: string, x: Meter, spent: real)
    requires |drops| == |reqs| && want >= 0.0 && Account(m, k, x, spent)
    requires SteadyRequests(reqs, k, want) && NeverDropped(drops, k)
    ensures var r := ReserveAll(m, reqs, want, now, drops);
            && Account(r.buckets, k, MeteredBy(x, reqs, k, now), spent + Billed(reqs, k, want))
            && Covered(r, k, Names(reqs, k))
            && (k in r.buckets <==> k in m || Names(reqs, k))
  {
    if reqs == [] {
    } else {
      hide Account, Covered, Names, ReserveOne, Metered, MeteredBy, Billed, Limit.Capacity, SteadyRequests,
           NeverDropped;
      var n := |reqs| - 1;
      SteadyLast(reqs, drops, k, want);
      ReserveAllCharges(m, reqs[..n], want, now, drops[..n], k, x, spent);
      var r := ReserveAll(m, reqs[..n], want, now, drops[..n]);
      NamesLast(reqs, k);
      BillAndMeterLast(x, reqs, k, want, now);
      if reqs[n].Charges() {
        ReserveOneCharges(r, reqs[n].key, reqs[n].limit, want, now, drops[n], k, MeteredBy(x, reqs[..n], k, now),
                          spent + Billed(reqs[..n], k, want));
        ReserveOneCovers(r, reqs[n].key, reqs[n].limit, want, now, drops[n], k, Names(reqs[..n], k));
      }
    }
  }

  lemma {:induction false} CancelCredits(m: Buckets, held: seq<Held>, k: string, x: Meter, spent: real)
    requires k in m && Holds(m[k], x, spent)
    ensures Holds(Cancel(m, held)[k], x, spent - HeldFor(held, k))
  {
    if held == [] {
    } else {
      CancelCredits(m, held[..|held| - 1], k, x, spent);
    }
  }
}
