/**
 AllowAll as one decision over several buckets: every bucket pays or none
 does, and the time it tells a refused caller to come back is exact.
 */
module RateRetry {
  import opened RateModel

  // The bucket a request would be assessed on: created or re-rated, then refilled.
  function Ready(m: Buckets, r: Request, now: real): (b: Bucket)
    ensures b.perSec == r.limit.PerSec() && b.capacity == r.limit.Capacity()
  {
    Refilled(if r.key in m then Rerated(m[r.key], r.limit) else Fresh(r.limit, now), now)
  }

  function Verdict(m: Buckets, r: Request, want: real, now: real): Decision
    requires !r.limit.Unlimited()
  {
    Assess(Ready(m, r, now), want)
  }

  ghost predicate DistinctKeys(reqs: seq<Request>) {
    forall i, j :: 0 <= i < j < |reqs| && reqs[i].Charges() && reqs[j].Charges() ==> reqs[i].key != reqs[j].key
  }

  // A key may be named more than once, under one limit.
  ghost predicate OneLimitEach(reqs: seq<Request>) {
    forall q, r :: q in reqs && r in reqs && q.Charges() && r.Charges() && q.key == r.key ==> q.limit == r.limit
  }

  function NoDrops(n: nat): (d: seq<set<string>>)
    ensures |d| == n && forall i :: 0 <= i < n ==> d[i] == {}
  {
    seq(n, _ => {})
  }

  /******* What the first phase computes *******/

  // Every named bucket is the refilled one; every other bucket is untouched.
  ghost predicate OnlyRefilled(m: Buckets, reqs: seq<Request>, now: real, after: Buckets) {
    && (forall r :: r in reqs && r.Charges() ==> r.key in after && after[r.key] == Ready(m, r, now))
    && (forall k :: !Names(reqs, k) ==> (k in after <==> k in m) && (k in m ==> after[k] == m[k]))
  }

  ghost predicate AllAdmit(m: Buckets, reqs: seq<Request>, want: real, now: real) {
    forall r :: r in reqs && r.Charges() ==> !Verdict(m, r, want, now).Refuse?
  }

  // The longest wait any refusing bucket asks for, zero when none refuses.
  ghost predicate LongestWait(m: Buckets, reqs: seq<Request>, want: real, now: real, wait: real) {
    && (forall r :: r in reqs && r.Charges() && Verdict(m, r, want, now).Refuse? ==>
        Verdict(m, r, want, now).retryAfter <= wait)
    && (wait == 0.0 || exists r :: r in reqs && r.Charges() && Verdict(m, r, want, now) == Refuse(wait))
  }

  function Verdicts(m: Buckets, reqs: seq<Request>, want: real, now: real): seq<Pending> {
    if reqs == [] then []
    else
      var r := reqs[|reqs| - 1];
      Verdicts(m, reqs[..|reqs| - 1], want, now)
        + if r.Charges() then [Pending(r.key, Verdict(m, r, want, now))] else []
  }

  lemma {:induction false} NamesMore(init: seq<Request>, r: Request)
    requires r.Charges()
    ensures forall k :: Names(init + [r], k) <==> Names(init, k) || k == r.key
  {
    forall k | Names(init, k) ensures Names(init + [r], k) {
      var q :| q in init && q.Charges() && q.key == k;
      assert q in init + [r];
    }
    assert r in init + [r];
  }

  lemma {:induction false} NamesSame(init: seq<Request>, r: Request)
    requires !r.Charges()
    ensures forall k :: Names(init + [r], k) <==> Names(init, k)
  {
    forall k | Names(init, k) ensures Names(init + [r], k) {
      var q :| q in init && q.Charges() && q.key == k;
      assert q in init + [r];
    }
  }

  lemma {:induction false} OneLimitInit(init: seq<Request>, r: Request)
    requires OneLimitEach(init + [r])
    ensures OneLimitEach(init) && (r.Charges() ==> Repeats(init, r))
  {
    var all := init + [r];
    assert forall q :: q in init ==> q in all;
    assert r in all;
  }

  // A request named before is the same request.
  ghost predicate Repeats(init: seq<Request>, r: Request) {
    forall q :: q in init && q.Charges() && q.key == r.key ==> q == r
  }

  lemma {:induction false} RefilledMore(m: Buckets, init: seq<Request>, r: Request, now: real, before: Buckets)
    requires r.Charges() && Repeats(init, r) && OnlyRefilled(m, init, now, before)
    ensures OnlyRefilled(m, init + [r], now, before[r.key := Ready(m, r, now)])
  {
    hide Ready;
    NamesMore(init, r);
    hide Names;
  }

  // Assessing a bucket twice at one instant finds it as the first time left it.
  lemma {:induction false} ReadyTwice(m: Buckets, r: Request, now: real)
    ensures Refilled(Rerated(Ready(m, r, now), r.limit), now) == Ready(m, r, now)
  {
    hide Limit.PerSec, Limit.Capacity, Earned;
  }

  lemma {:induction false} FoundReady(m: Buckets, init: seq<Request>, r: Request, now: real, before: Buckets)
    requires r.Charges() && Repeats(init, r) && OnlyRefilled(m, init, now, before)
    ensures Refilled(Lookup(before, r.key, r.limit, now, {})[r.key], now) == Ready(m, r, now)
  {
    if Names(init, r.key) {
      var q :| q in init && q.Charges() && q.key == r.key;
      assert q == r;
      ReadyTwice(m, r, now);
    }
    hide Limit.PerSec, Limit.Capacity, Refilled, Rerated, Fresh;
  }

  lemma {:induction false} AssessOneShape(m: Buckets, init: seq<Request>, r: Request, a: Assessment, want: real,
                                          now: real)
    requires r.Charges() && Repeats(init, r)
    requires forall p :: p in a.pending ==> p.key in a.buckets
    requires OnlyRefilled(m, init, now, a.buckets)
    ensures var a' := AssessOne(a, r.key, r.limit, want, now, {});
            var v := Verdict(m, r, want, now);
            && OnlyRefilled(m, init + [r], now, a'.buckets)
            && a'.pending == a.pending + [Pending(r.key, v)]
            && a'.allowed == (a.allowed && !v.Refuse?)
            && a'.retryAfter == if v.Refuse? then Max(a.retryAfter, v.retryAfter) else a.retryAfter
  {
    var found := Lookup(a.buckets, r.key, r.limit, now, {});
    hide Limit.PerSec, Limit.Capacity, Assess, Refilled, Rerated, Fresh, Ready;
    FoundReady(m, init, r, now, a.buckets);
    RefilledMore(m, init, r, now, a.buckets);
    AllSurvive(a.pending, found);
    hide OnlyRefilled;
    assert found[r.key := Ready(m, r, now)] == a.buckets[r.key := Ready(m, r, now)];
  }

  ghost predicate Shape(m: Buckets, reqs: seq<Request>, want: real, now: real, a: Assessment) {
    && OnlyRefilled(m, reqs, now, a.buckets)
    && a.pending == Verdicts(m, reqs, want, now)
    && (a.allowed <==> AllAdmit(m, reqs, want, now))
    && a.retryAfter >= 0.0
    && LongestWait(m, reqs, want, now, a.retryAfter)
  }

  lemma {:induction false} LongestWaitMore(m: Buckets, init: seq<Request>, r: Request, want: real, now: real,
                                           wait: real)
    requires r.Charges() && wait >= 0.0 && LongestWait(m, init, want, now, wait)
    ensures var v := Verdict(m, r, want, now);
            var wait' := if v.Refuse? then Max(wait, v.retryAfter) else wait;
            wait' >= 0.0 && LongestWait(m, init + [r], want, now, wait')
  {
    var v := Verdict(m, r, want, now);
    var wait' := if v.Refuse? then Max(wait, v.retryAfter) else wait;
    if v.Refuse? { WaitIsPositive(Ready(m, r, now), want); }
    hide Verdict;
    if wait' != 0.0 {
      if wait' == wait {
        var q :| q in init && q.Charges() && Verdict(m, q, want, now) == Refuse(wait);
        assert q in init + [r];
      } else {
        assert r in init + [r];
      }
    }
  }

  lemma {:induction false} VerdictsMore(m: Buckets, init: seq<Request>, r: Request, want: real, now: real)
    ensures Verdicts(m, init + [r], want, now) ==
            Verdicts(m, init, want, now) + if r.Charges() then [Pending(r.key, Verdict(m, r, want, now))] else []
  {
    assert (init + [r])[..|init|] == init;
  }

  lemma {:induction false} ShapeMore(m: Buckets, init: seq<Request>, r: Request, want: real, now: real, a: Assessment)
    requires r.Charges() ==> Repeats(init, r)
    requires forall p :: p in a.pending ==> p.key in a.buckets
    requires Shape(m, init, want, now, a)
    ensures Shape(m, init + [r], want, now, if r.Charges() then AssessOne(a, r.key, r.limit, want, now, {}) else a)
  {
    VerdictsMore(m, init, r, want, now);
    if r.Charges() {
      AssessOneShape(m, init, r, a, want, now);
      LongestWaitMore(m, init, r, want, now, a.retryAfter);
      hide AssessOne, OnlyRefilled, Verdicts, LongestWait, Verdict;
    } else {
      ShapeSkips(m, init, r, want, now, a);
      hide *;
    }
  }

  lemma {:induction false} RefilledSkips(m: Buckets, init: seq<Request>, r: Request, now: real, after: Buckets)
    requires !r.Charges() && OnlyRefilled(m, init, now, after)
    ensures OnlyRefilled(m, init + [r], now, after)
  {
    NamesSame(init, r);
    hide Ready, Names;
  }

  lemma {:induction false} LongestWaitSkips(m: Buckets, init: seq<Request>, r: Request, want: real, now: real,
                                            wait: real)
    requires !r.Charges() && LongestWait(m, init, want, now, wait)
    ensures LongestWait(m, init + [r], want, now, wait)
    ensures AllAdmit(m, init + [r], want, now) <==> AllAdmit(m, init, want, now)
  {
    hide Verdict;
    if wait != 0.0 {
      var q :| q in init && q.Charges() && Verdict(m, q, want, now) == Refuse(wait);
      assert q in init + [r];
    }
    assert forall q :: q in init ==> q in init + [r];
  }

  lemma {:induction false} ShapeSkips(m: Buckets, init: seq<Request>, r: Request, want: real, now: real, a: Assessment)
    requires !r.Charges() && Shape(m, init, want, now, a)
    ensures Shape(m, init + [r], want, now, a)
  {
    VerdictsMore(m, init, r, want, now);
    RefilledSkips(m, init, r, now, a.buckets);
    LongestWaitSkips(m, init, r, want, now, a.retryAfter);
    hide OnlyRefilled, LongestWait, AllAdmit, Verdicts;
  }

  lemma {:induction false} AssessAllShape(m: Buckets, reqs: seq<Request>, want: real, now: real,
                                          drops: seq<set<string>>)
    requires |drops| == |reqs| && OneLimitEach(reqs) && NothingDropped(drops)
    ensures Shape(m, reqs, want, now, AssessAll(m, reqs, want, now, drops))
  {
    if reqs != [] {
      var n := |reqs| - 1;
      var a := AssessAll(m, reqs[..n], want, now, drops[..n]);
      AssessAllShape(m, reqs[..n], want, now, drops[..n]);
      assert reqs == reqs[..n] + [reqs[n]];
      OneLimitInit(reqs[..n], reqs[n]);
      hide Shape, AssessOne;
      ShapeMore(m, reqs[..n], reqs[n], want, now, a);
    } else {
      hide Verdict;
    }
  }

  /******* Every bucket pays, or none does *******/

  ghost predicate AllReady(m: Buckets, reqs: seq<Request>, now: real, start: Buckets) {
    forall r :: r in reqs && r.Charges() ==> r.key in start && start[r.key] == Ready(m, r, now)
  }

  // A bucket that has paid: emptied by a cost it could never hold, and
  // otherwise charged for every request that names it.
  function Paid(b: Bucket, want: real, bill: real): Bucket {
    b.(tokens := if want > b.capacity then 0.0 else b.tokens - bill)
  }

  // Every named bucket has paid its bill; the rest are as before.
  ghost predicate AllPaid(m: Buckets, reqs: seq<Request>, want: real, now: real, start: Buckets, after: Buckets) {
    && after.Keys == start.Keys
    && (forall r :: r in reqs && r.Charges() ==>
          r.key in after && after[r.key] == Paid(Ready(m, r, now), want, Billed(reqs, r.key, want)))
    && (forall k :: k in start && !Names(reqs, k) ==> after[k] == start[k])
  }

  lemma {:induction false} VerdictKeys(m: Buckets, reqs: seq<Request>, want: real, now: real)
    ensures forall p :: p in Verdicts(m, reqs, want, now) ==> Names(reqs, p.key)
  {
    if reqs == [] {
    } else {
      VerdictKeys(m, reqs[..|reqs| - 1], want, now);
      assert reqs == reqs[..|reqs| - 1] + [reqs[|reqs| - 1]];
    }
  }

  lemma {:induction false} PayOne(b: Bucket, want: real, bill: real, d: Decision, after: Bucket)
    requires b.perSec != 0.0 && d == Assess(b, want) && !d.Refuse?
    requires after == Paid(b, want, bill) || (bill == 0.0 && after == b)
    ensures Applied(after, d) == Paid(b, want, bill + want)
  {
  }

  lemma {:induction false} PayHere(m: Buckets, init: seq<Request>, r: Request, want: real, now: real, start: Buckets,
                                   after: Buckets)
    requires r.Charges() && Repeats(init, r) && r.key in start && start[r.key] == Ready(m, r, now)
    requires !Verdict(m, r, want, now).Refuse? && AllPaid(m, init, want, now, start, after)
    ensures Applied(after[r.key], Verdict(m, r, want, now)) ==
            Paid(Ready(m, r, now), want, Billed(init + [r], r.key, want))
  {
    BilledMore(init, r, r.key, want);
    if Names(init, r.key) {
      var q :| q in init && q.Charges() && q.key == r.key;
      assert q == r;
    } else {
      BilledOnlyIfNamed(init, r.key, want);
    }
    PayOne(Ready(m, r, now), want, Billed(init, r.key, want), Verdict(m, r, want, now), after[r.key]);
    hide Ready, Verdict, Applied, Billed, Paid;
  }

  lemma {:induction false} PayMore(m: Buckets, init: seq<Request>, r: Request, want: real, now: real, start: Buckets,
                                   after: Buckets)
    requires r.Charges() && Repeats(init, r) && r.key in start && start[r.key] == Ready(m, r, now)
    requires !Verdict(m, r, want, now).Refuse? && AllPaid(m, init, want, now, start, after)
    ensures AllPaid(m, init + [r], want, now, start, after[r.key := Applied(after[r.key], Verdict(m, r, want, now))])
  {
    hide Ready, Verdict, Applied, Billed, Paid;
    PayHere(m, init, r, want, now, start, after);
    NamesMore(init, r);
    hide Names;
    forall k | k != r.key ensures Billed(init + [r], k, want) == Billed(init, k, want) { BilledMore(init, r, k, want); }
    forall q | q in init + [r] && q.Charges() ensures q.key == r.key ==> q == r {
      assert q in init || q == r;
    }
  }

  lemma {:induction false} PaySkips(m: Buckets, init: seq<Request>, r: Request, want: real, now: real, start: Buckets,
                                    after: Buckets)
    requires !r.Charges() && AllPaid(m, init, want, now, start, after)
    ensures AllPaid(m, init + [r], want, now, start, after)
  {
    NamesSame(init, r);
    forall k ensures Billed(init + [r], k, want) == Billed(init, k, want) { BilledMore(init, r, k, want); }
    hide Ready, Verdict, Applied, Names, Billed, Paid;
  }

  lemma {:induction false} AdmitInit(m: Buckets, init: seq<Request>, r: Request, want: real, now: real)
    requires AllAdmit(m, init + [r], want, now)
    ensures AllAdmit(m, init, want, now) && (r.Charges() ==> !Verdict(m, r, want, now).Refuse?)
  {
    hide Verdict;
    assert r in init + [r] && forall q :: q in init ==> q in init + [r];
  }

  lemma {:induction false} PayAll(m: Buckets, reqs: seq<Request>, want: real, now: real, start: Buckets)
    requires OneLimitEach(reqs) && AllReady(m, reqs, now, start) && AllAdmit(m, reqs, want, now)
    ensures forall p :: p in Verdicts(m, reqs, want, now) ==> p.key in start
    ensures AllPaid(m, reqs, want, now, start, ApplyAll(start, Verdicts(m, reqs, want, now)))
  {
    VerdictKeys(m, reqs, want, now);
    if reqs == [] {
    } else {
      var n := |reqs| - 1;
      var init, r := reqs[..n], reqs[n];
      assert reqs == init + [r];
      OneLimitInit(init, r);
      AdmitInit(m, init, r, want, now);
      PayAll(m, init, want, now, start);
      VerdictsMore(m, init, r, want, now);
      var ps := Verdicts(m, init, want, now);
      var after := ApplyAll(start, ps);
      if r.Charges() {
        assert r in reqs;
        PayMore(m, init, r, want, now, start, after);
        hide AllPaid, Ready, Verdict, Applied, Verdicts, OneLimitEach, AllAdmit;
        assert (ps + [Pending(r.key, Verdict(m, r, want, now))])[..|ps|] == ps;
      } else {
        PaySkips(m, init, r, want, now, start, after);
        hide AllPaid, Ready, Verdict, Applied, Verdicts, OneLimitEach, AllAdmit;
        assert ps + [] == ps;
      }
    }
  }

  /**
   AllowAll with one limit for each key and nothing evicted. It admits exactly
   when every limited bucket would admit the cost once; then every one of them
   pays it once for each request that names it. When it refuses, the only
   change to any balance is the refill for the time that has passed.
   */
  lemma {:induction false} AllOrNothing(m: Buckets, reqs: seq<Request>, cost: int, now: real)
    requires OneLimitEach(reqs)
    ensures var a := AllowAll(m, reqs, cost, now, NoDrops(|reqs|));
            && (a.allowed <==> AllAdmit(m, reqs, Want(cost), now))
            && (!a.allowed ==> OnlyRefilled(m, reqs, now, a.buckets))
            && (a.allowed ==> forall r :: r in reqs && r.Charges() ==>
                  r.key in a.buckets && a.buckets[r.key] ==
                    Paid(Ready(m, r, now), Want(cost), Billed(reqs, r.key, Want(cost))))
            && (a.allowed ==> forall k :: !Names(reqs, k) ==>
                (k in a.buckets <==> k in m) && (k in m ==> a.buckets[k] == m[k]))
  {
    var want := Want(cost);
    AssessAllShape(m, reqs, want, now, NoDrops(|reqs|));
    var a := AssessAll(m, reqs, want, now, NoDrops(|reqs|));
    hide Ready, Verdict, Billed, Paid, Names, AssessAll, Verdicts;
    if a.allowed { PayAll(m, reqs, want, now, a.buckets); }
  }

  // Keys that are all distinct have one limit each, and are billed once.
  lemma {:induction false} DistinctBilledOnce(reqs: seq<Request>, r: Request, want: real)
    requires DistinctKeys(reqs) && r in reqs && r.Charges()
    ensures OneLimitEach(reqs) && Billed(reqs, r.key, want) == want
  {
    forall p, q | p in reqs && q in reqs && p.Charges() && q.Charges() && p.key == q.key ensures p.limit == q.limit {
      var i :| 0 <= i < |reqs| && reqs[i] == p;
      var j :| 0 <= j < |reqs| && reqs[j] == q;
      assert i == j;
    }
    var n := |reqs| - 1;
    var init, last := reqs[..n], reqs[n];
    assert reqs == init + [last];
    BilledMore(init, last, r.key, want);
    if r in init {
      DistinctBilledOnce(init, r, want);
      var i :| 0 <= i < n && reqs[i] == r;
    } else {
      forall q | q in init && q.Charges() ensures q.key != r.key {
        var i :| 0 <= i < n && reqs[i] == q;
        assert reqs[i].key != reqs[n].key;
      }
      BilledOnlyIfNamed(init, r.key, want);
    }
  }

  /**
   An admitted call leaves a bucket in debt exactly when it could hold the cost
   and is billed more than its refilled balance. Distinct keys never are: what
   is billed once was there.
   */
  lemma {:induction false} OverdrawnIffBilledMore(m: Buckets, reqs: seq<Request>, r: Request, cost: int, now: real)
    requires OneLimitEach(reqs) && r in reqs && r.Charges()
    requires AllowAll(m, reqs, cost, now, NoDrops(|reqs|)).allowed
    ensures var after := AllowAll(m, reqs, cost, now, NoDrops(|reqs|)).buckets;
            var bill := Billed(reqs, r.key, Want(cost));
            r.key in after && (after[r.key].tokens < 0.0 <==>
                               Want(cost) <= r.limit.Capacity() && bill > Ready(m, r, now).tokens)
  {
    AllOrNothing(m, reqs, cost, now);
    hide AllowAll, Ready, Billed, Verdict;
  }

  // With distinct keys no admitted call overdraws.
  lemma {:induction false} DistinctNeverOverdraw(m: Buckets, reqs: seq<Request>, r: Request, cost: int, now: real)
    requires DistinctKeys(reqs) && r in reqs && r.Charges()
    requires AllowAll(m, reqs, cost, now, NoDrops(|reqs|)).allowed
    ensures var after := AllowAll(m, reqs, cost, now, NoDrops(|reqs|)).buckets;
            r.key in after && after[r.key] == Applied(Ready(m, r, now), Verdict(m, r, Want(cost), now))
              && after[r.key].tokens >= 0.0
  {
    hide *;
    DistinctBilledOnce(reqs, r, Want(cost));
    AllOrNothing(m, reqs, cost, now);
    PaidOnce(m, reqs, r, Want(cost), now);
  }

  lemma {:induction false} PaidOnce(m: Buckets, reqs: seq<Request>, r: Request, want: real, now: real)
    requires r in reqs && r.Charges() && AllAdmit(m, reqs, want, now)
    ensures Paid(Ready(m, r, now), want, want) == Applied(Ready(m, r, now), Verdict(m, r, want, now))
    ensures Paid(Ready(m, r, now), want, want).tokens >= 0.0
  {
    assert !Verdict(m, r, want, now).Refuse?;
    hide Ready;
  }

  lemma {:induction false} BilledRepeatedly(reqs: seq<Request>, r: Request, want: real)
    requires r.Charges() && forall i :: 0 <= i < |reqs| ==> reqs[i] == r
    ensures Billed(reqs, r.key, want) == |reqs| as real * want
  {
    if reqs == [] {
    } else {
      var init := reqs[..|reqs| - 1];
      assert reqs == init + [r];
      BilledMore(init, r, r.key, want);
      BilledRepeatedly(init, r, want);
    }
  }

  lemma {:induction false} PaidTokens(b: Bucket, want: real, bill: real)
    requires want <= b.capacity
    ensures Paid(b, want, bill).tokens == b.tokens - bill
  {
  }

  lemma {:induction false} RepeatedAdmitted(m: Buckets, reqs: seq<Request>, r: Request, want: real, now: real)
    requires reqs != [] && r.Charges() && forall i :: 0 <= i < |reqs| ==> reqs[i] == r
    requires want <= Ready(m, r, now).tokens && want <= r.limit.Capacity()
    ensures r in reqs && OneLimitEach(reqs) && AllAdmit(m, reqs, want, now)
  {
    assert reqs[0] in reqs && !Verdict(m, r, want, now).Refuse?;
    hide Ready, Verdict;
  }

  // However often one request is repeated, a bucket that can pay for it once
  // admits the call and pays for each.
  lemma {:induction false} DuplicateKeysOverdraw(m: Buckets, reqs: seq<Request>, r: Request, cost: int, now: real)
    requires reqs != [] && r.Charges() && forall i :: 0 <= i < |reqs| ==> reqs[i] == r
    requires Want(cost) <= Ready(m, r, now).tokens && Want(cost) <= r.limit.Capacity()
    ensures var a := AllowAll(m, reqs, cost, now, NoDrops(|reqs|));
            a.allowed && r.key in a.buckets
              && a.buckets[r.key].tokens == Ready(m, r, now).tokens - |reqs| as real * Want(cost)
  {
    hide *;
    RepeatedAdmitted(m, reqs, r, Want(cost), now);
    AllOrNothing(m, reqs, cost, now);
    BilledRepeatedly(reqs, r, Want(cost));
    PaidTokens(Ready(m, r, now), Want(cost), Billed(reqs, r.key, Want(cost)));
  }

  /******* The retry time is exact *******/

  // One bucket, later: it refuses until its wait is over and not after, and
  // while it refuses it is waiting for the same instant.
  lemma {:induction false} VerdictLater(b: Bucket, want: real, now: real, t: real)
    requires b.perSec > 0.0 && b.refilled == now <= t
    ensures var v, v' := Assess(b, want), Assess(Refilled(b, t), want);
            && (v'.Refuse? <==> v.Refuse? && t - now < v.retryAfter)
            && (v'.Refuse? ==> v'.retryAfter == v.retryAfter - (t - now))
  {
    WaitElapses(b.tokens, want, b.perSec, t - now);
  }

  lemma {:induction false} WaitElapses(tokens: real, want: real, rate: real, elapsed: real)
    requires rate > 0.0
    ensures tokens + elapsed * rate < want <==> elapsed < (want - tokens) / rate
    ensures (want - (tokens + elapsed * rate)) / rate == (want - tokens) / rate - elapsed
  {
    var wait := (want - tokens) / rate;
    assert wait * rate == want - tokens;
    if elapsed < wait { assert elapsed * rate < wait * rate; } else { assert elapsed * rate >= wait * rate; }
    assert (wait - elapsed) * rate == want - (tokens + elapsed * rate);
  }

  lemma {:induction false} VerdictAfterRefusal(m: Buckets, after: Buckets, r: Request, want: real, now: real, t: real)
    requires r.Charges() && RefilledBy(m, now) && now <= t
    requires r.key in after && after[r.key] == Ready(m, r, now)
    ensures var v, v' := Verdict(m, r, want, now), Verdict(after, r, want, t);
            && (v'.Refuse? <==> v.Refuse? && t - now < v.retryAfter)
            && (v'.Refuse? ==> v'.retryAfter == v.retryAfter - (t - now))
  {
    assert after[r.key].refilled == now;
    assert Rerated(after[r.key], r.limit) == after[r.key];
    VerdictLater(after[r.key], want, now, t);
  }

  // Every bucket refuses at `t` exactly while the wait it announced lasts.
  ghost predicate Waiting(m: Buckets, after: Buckets, reqs: seq<Request>, want: real, now: real, t: real) {
    forall r :: r in reqs && r.Charges() ==>
      var v, v' := Verdict(m, r, want, now), Verdict(after, r, want, t);
      && (v'.Refuse? <==> v.Refuse? && t - now < v.retryAfter)
      && (v'.Refuse? ==> v'.retryAfter == v.retryAfter - (t - now))
  }

  lemma {:induction false} RefusedAreWaiting(m: Buckets, after: Buckets, reqs: seq<Request>, want: real, now: real,
                                             t: real)
    requires RefilledBy(m, now) && now <= t && OnlyRefilled(m, reqs, now, after)
    ensures Waiting(m, after, reqs, want, now, t)
  {
    hide Verdict, Ready;
    forall r | r in reqs && r.Charges()
      ensures var v, v' := Verdict(m, r, want, now), Verdict(after, r, want, t);
              && (v'.Refuse? <==> v.Refuse? && t - now < v.retryAfter)
              && (v'.Refuse? ==> v'.retryAfter == v.retryAfter - (t - now))
    {
      VerdictAfterRefusal(m, after, r, want, now, t);
    }
  }

  // So the longest wait of all is over exactly when its own bucket admits.
  lemma {:induction false} LongestIsOver(m: Buckets, after: Buckets, reqs: seq<Request>, want: real, now: real,
                                         t: real, d: real, d': real)
    requires Waiting(m, after, reqs, want, now, t) && now <= t && d > 0.0 && d' >= 0.0
    requires LongestWait(m, reqs, want, now, d) && LongestWait(after, reqs, want, t, d')
    ensures AllAdmit(after, reqs, want, t) <==> d <= t - now
    ensures !AllAdmit(after, reqs, want, t) ==> d' == d - (t - now)
  {
    hide Verdict;
    var last :| last in reqs && last.Charges() && Verdict(m, last, want, now) == Refuse(d);
    if t - now < d {
      assert Verdict(after, last, want, t) == Refuse(d - (t - now));
    }
  }

  lemma {:induction false} RefusalWaits(m: Buckets, reqs: seq<Request>, want: real, now: real, d: real)
    requires LongestWait(m, reqs, want, now, d) && !AllAdmit(m, reqs, want, now)
    ensures d > 0.0
  {
    var r :| r in reqs && r.Charges() && Verdict(m, r, want, now).Refuse?;
    WaitIsPositive(Ready(m, r, now), want);
    hide Ready;
  }

  /**
   After a refusal with retry time d and no other charges, the same call at any
   later instant is admitted if and only if d has passed; while it is still
   refused, it is told the same instant again.
   */
  lemma {:induction false} RetryTimeIsExact(m: Buckets, reqs: seq<Request>, cost: int, now: real, t: real)
    requires OneLimitEach(reqs) && RefilledBy(m, now) && now <= t
    requires !AllowAll(m, reqs, cost, now, NoDrops(|reqs|)).allowed
    ensures var refused := AllowAll(m, reqs, cost, now, NoDrops(|reqs|));
            var again := AllowAll(refused.buckets, reqs, cost, t, NoDrops(|reqs|));
            && refused.retryAfter > 0.0
            && (again.allowed <==> now + refused.retryAfter <= t)
            && (!again.allowed ==> t + again.retryAfter == now + refused.retryAfter)
  {
    var want, none := Want(cost), NoDrops(|reqs|);
    hide Verdict, AssessAll, OnlyRefilled, OneLimitEach, RefilledBy, LongestWait, AllAdmit, Verdicts, ApplyAll;
    var a := AssessAll(m, reqs, want, now, none);
    AssessAllShape(m, reqs, want, now, none);
    var b := AssessAll(a.buckets, reqs, want, t, none);
    AssessAllShape(a.buckets, reqs, want, t, none);
    RefusalWaits(m, reqs, want, now, a.retryAfter);
    RefusedAreWaiting(m, a.buckets, reqs, want, now, t);
    LongestIsOver(m, a.buckets, reqs, want, now, t, a.retryAfter, b.retryAfter);
  }

  /******* Polling *******/

  // The buckets after asking again at each of `times`.
  ghost function Poll(m: Buckets, reqs: seq<Request>, cost: int, times: seq<real>): Buckets
    decreases |times|
  {
    if times == [] then m
    else Poll(AllowAll(m, reqs, cost, times[0], NoDrops(|reqs|)).buckets, reqs, cost, times[1..])
  }

  ghost predicate Ordered(from: real, times: seq<real>) {
    && (forall i :: 0 <= i < |times| ==> from <= times[i])
    && (forall i, j :: 0 <= i < j < |times| ==> times[i] <= times[j])
  }

  lemma {:induction false} RefusalClock(m: Buckets, reqs: seq<Request>, cost: int, now: real)
    requires OneLimitEach(reqs) && RefilledBy(m, now)
    requires !AllowAll(m, reqs, cost, now, NoDrops(|reqs|)).allowed
    ensures RefilledBy(AllowAll(m, reqs, cost, now, NoDrops(|reqs|)).buckets, now)
  {
    AllOrNothing(m, reqs, cost, now);
    var after := AllowAll(m, reqs, cost, now, NoDrops(|reqs|)).buckets;
    forall k | k in after ensures after[k].refilled <= now {
      if Names(reqs, k) { var r :| r in reqs && r.Charges() && r.key == k; }
    }
  }

  /**
   Asking early costs nothing: however often a refused caller polls before its
   time, the call at any later instant is admitted if and only if the instant
   it was first told has come.
   */
  lemma {:induction false} PollingDoesNotPostpone(m: Buckets, reqs: seq<Request>, cost: int, now: real,
                                                  times: seq<real>, t: real)
    requires OneLimitEach(reqs) && RefilledBy(m, now) && Ordered(now, times) && now <= t
    requires forall i :: 0 <= i < |times| ==> times[i] <= t
    requires !AllowAll(m, reqs, cost, now, NoDrops(|reqs|)).allowed
    requires forall i :: 0 <= i < |times| ==> times[i] < now + AllowAll(m, reqs, cost, now, NoDrops(|reqs|)).retryAfter
    ensures var refused := AllowAll(m, reqs, cost, now, NoDrops(|reqs|));
            var later := AllowAll(Poll(refused.buckets, reqs, cost, times), reqs, cost, t, NoDrops(|reqs|));
            later.allowed <==> now + refused.retryAfter <= t
    decreases |times|
  {
    var refused := AllowAll(m, reqs, cost, now, NoDrops(|reqs|));
    if times == [] {
      RetryTimeIsExact(m, reqs, cost, now, t);
    } else {
      RetryTimeIsExact(m, reqs, cost, now, times[0]);
      RefusalClock(m, reqs, cost, now);
      hide AllowAll;
      PollingDoesNotPostpone(refused.buckets, reqs, cost, times[0], times[1..], t);
    }
  }
}
