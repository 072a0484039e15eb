/**
 The log store as it runs. An iterator sees the store as it was when it was
 opened; deletes collect in a batch that is committed every so often, and any
 check or commit may fail.
 */
module LogStoreRun {
  import opened Prelude
  import opened Decimal
  import opened LogStore

  /******* Deleting by key *******/

  function Without(db: seq<Pair>, keys: seq<string>): seq<Pair> {
    if db == [] then []
    else Without(db[..|db| - 1], keys) + if db[|db| - 1].key in keys then [] else [db[|db| - 1]]
  }

  function DoomedKeys(db: seq<Pair>, cutoff: int): seq<string> {
    if db == [] then []
    else DoomedKeys(db[..|db| - 1], cutoff) + if Doomed(db[|db| - 1].key, cutoff) then [db[|db| - 1].key] else []
  }

  lemma {:induction false} WithoutMore(a: seq<Pair>, b: seq<Pair>, keys: seq<string>)
    ensures Without(a + b, keys) == Without(a, keys) + Without(b, keys)
  {
    if b == [] {
      assert a + b == a;
    } else {
      WithoutMore(a, b[..|b| - 1], keys);
      assert (a + b)[..|a + b| - 1] == a + b[..|b| - 1];
    }
  }

  lemma {:induction false} KeptMore(a: seq<Pair>, b: seq<Pair>, cutoff: int)
    ensures Kept(a + b, cutoff) == Kept(a, cutoff) + Kept(b, cutoff)
  {
    hide Doomed;
    if b == [] {
      assert a + b == a;
    } else {
      var init, last := b[..|b| - 1], b[|b| - 1];
      KeptMore(a, init, cutoff);
      assert (a + b)[..|a + b| - 1] == a + init && (a + b)[|a + b| - 1] == last;
    }
  }

  lemma {:induction false} DoomedKeysNext(db: seq<Pair>, c: nat, i: nat, cutoff: int)
    requires c <= i < |db|
    ensures DoomedKeys(db[c..i + 1], cutoff) ==
            DoomedKeys(db[c..i], cutoff) + if Doomed(db[i].key, cutoff) then [db[i].key] else []
  {
    hide Doomed;
    assert db[c..i + 1][..i - c] == db[c..i];
  }

  lemma {:induction false} NothingToDelete(db: seq<Pair>, keys: seq<string>)
    requires forall i :: 0 <= i < |db| ==> db[i].key !in keys
    ensures Without(db, keys) == db
  {
    if db == [] {
    } else {
      NothingToDelete(db[..|db| - 1], keys);
    }
  }

  lemma {:induction false} NothingDoomed(db: seq<Pair>, cutoff: int)
    requires forall i :: 0 <= i < |db| ==> !Doomed(db[i].key, cutoff)
    ensures Kept(db, cutoff) == db
  {
    hide Doomed;
    if db == [] {
    } else {
      NothingDoomed(db[..|db| - 1], cutoff);
    }
  }

  lemma {:induction false} DoomedKeysExactly(db: seq<Pair>, cutoff: int)
    ensures forall k :: k in DoomedKeys(db, cutoff) <==>
            exists i :: 0 <= i < |db| && db[i].key == k && Doomed(k, cutoff)
  {
    hide Doomed;
    if db == [] {
    } else {
      var n := |db| - 1;
      DoomedKeysExactly(db[..n], cutoff);
      forall k
        ensures k in DoomedKeys(db, cutoff) <==> exists i :: 0 <= i < |db| && db[i].key == k && Doomed(k, cutoff)
      {
        if i :| 0 <= i < |db| && db[i].key == k && Doomed(k, cutoff) {
          if i < n { assert db[..n][i].key == k; }
        }
        if k in DoomedKeys(db[..n], cutoff) {
          var i :| 0 <= i < n && db[..n][i].key == k && Doomed(k, cutoff);
          assert db[i].key == k;
        }
      }
    }
  }

  lemma {:induction false} KeptWithin(db: seq<Pair>, cutoff: int)
    ensures forall i :: 0 <= i < |Kept(db, cutoff)| ==>
            !Doomed(Kept(db, cutoff)[i].key, cutoff) && Kept(db, cutoff)[i] in db
    ensures |Kept(db, cutoff)| + |DoomedKeys(db, cutoff)| == |db|
  {
    if db == [] {
    } else {
      KeptWithin(db[..|db| - 1], cutoff);
      assert db[|db| - 1] in db;
    }
  }

  lemma {:induction false} DistinctKeys(db: seq<Pair>, i: nat, j: nat)
    requires Ascending(db) && i < j < |db|
    ensures db[i].key != db[j].key
  {
    LessIrreflexive(db[i].key);
  }

  lemma {:induction false} DeletesAreKept(db: seq<Pair>, cutoff: int, keys: seq<string>)
    requires forall i :: 0 <= i < |db| ==> (db[i].key in keys <==> Doomed(db[i].key, cutoff))
    ensures Without(db, keys) == Kept(db, cutoff)
  {
    hide Doomed;
    if db == [] {
    } else {
      DeletesAreKept(db[..|db| - 1], cutoff, keys);
    }
  }

  // Committing the batch collected over snap[c..i] moves the frontier from c to i.
  lemma {:induction false} CommitMovesFrontier(snap: seq<Pair>, cutoff: int, c: nat, i: nat)
    requires Ascending(snap) && c <= i <= |snap|
    ensures Without(Kept(snap[..c], cutoff) + snap[c..], DoomedKeys(snap[c..i], cutoff)) ==
            Kept(snap[..i], cutoff) + snap[i..]
  {
    hide Kept, DoomedKeys, Doomed, Without;
    var keys := DoomedKeys(snap[c..i], cutoff);
    var done, mid, rest := Kept(snap[..c], cutoff), snap[c..i], snap[i..];
    BatchSparesTheRest(snap, cutoff, c, i);
    assert snap[c..] == mid + rest && snap[..c] + mid == snap[..i];
    WithoutMore(done, mid + rest, keys);
    WithoutMore(mid, rest, keys);
    KeptMore(snap[..c], mid, cutoff);
    assert done + (Kept(mid, cutoff) + rest) == done + Kept(mid, cutoff) + rest;
  }

  lemma {:induction false} BatchSparesTheRest(snap: seq<Pair>, cutoff: int, c: nat, i: nat)
    requires Ascending(snap) && c <= i <= |snap|
    ensures var keys := DoomedKeys(snap[c..i], cutoff);
            && Without(Kept(snap[..c], cutoff), keys) == Kept(snap[..c], cutoff)
            && Without(snap[c..i], keys) == Kept(snap[c..i], cutoff)
            && Without(snap[i..], keys) == snap[i..]
  {
    hide Kept, DoomedKeys, Doomed, Without;
    var done, mid, rest := Kept(snap[..c], cutoff), snap[c..i], snap[i..];
    var keys := DoomedKeys(mid, cutoff);
    DoomedKeysExactly(mid, cutoff);
    KeptWithin(snap[..c], cutoff);
    NothingToDelete(done, keys);
    DeletesAreKept(mid, cutoff, keys);
    forall j | 0 <= j < |rest| ensures rest[j].key !in keys {
      if m :| 0 <= m < |mid| && mid[m].key == rest[j].key {
        DistinctKeys(snap, c + m, i + j);
      }
    }
    NothingToDelete(rest, keys);
  }

  // Past the bound nothing is doomed.
  lemma {:induction false} BeyondBound(snap: seq<Pair>, cutoff: int, i: nat)
    requires Ascending(snap) && i <= |snap| && (i < |snap| ==> !Less(snap[i].key, Bound(cutoff)))
    ensures Kept(snap, cutoff) == Kept(snap[..i], cutoff) + snap[i..]
  {
    hide Doomed, Less, Bound, Kept, Ascending;
    var rest := snap[i..];
    forall j | 0 <= j < |rest| ensures !Doomed(rest[j].key, cutoff) { BeyondIsSafe(snap, cutoff, i, i + j); }
    NothingDoomed(rest, cutoff);
    KeptMore(snap[..i], rest, cutoff);
    assert snap[..i] + rest == snap;
  }

  lemma {:induction false} BeyondIsSafe(snap: seq<Pair>, cutoff: int, i: nat, j: nat)
    requires Ascending(snap) && i <= j < |snap| && !Less(snap[i].key, Bound(cutoff))
    ensures !Doomed(snap[j].key, cutoff)
  {
    hide Less, StampedBefore, Bound;
    if i < j && Less(snap[j].key, Bound(cutoff)) {
      LessTransitive(snap[i].key, snap[j].key, Bound(cutoff));
    }
  }

  // The page is what was read so far and what a scan from here would add.
  ghost predicate Scanning(c: Codec, tenant: string, db: seq<Pair>, pos: int, want: int, budget: nat, all: Listing,
                           entries: seq<Entry>, scanned: int)
    requires pos < |db| && scanned <= budget
  {
    var rest := Scan(c, tenant, db, pos, want - |entries|, budget - scanned);
    all == Listing(entries + rest.entries, if rest.pos >= 0 then db[rest.pos].key else "")
  }

  lemma {:induction false} ScanningStarts(c: Codec, db: seq<Pair>, want: int, token: string, tenant: string,
                                          budget: nat)
    ensures Scanning(c, tenant, db, StartAt(db, token), want, budget, List(c, db, want, token, tenant, budget), [], 0)
  {
    hide StartAt, Scan;
    var r := Scan(c, tenant, db, StartAt(db, token), want, budget);
    assert [] + r.entries == r.entries;
  }

  lemma {:induction false} ScanningNext(c: Codec, tenant: string, db: seq<Pair>, pos: int, want: int, budget: nat,
                                        all: Listing, entries: seq<Entry>, scanned: nat)
    requires 0 <= pos < |db| && |entries| < want && scanned < budget
             && Scanning(c, tenant, db, pos, want, budget, all, entries, scanned)
    ensures match Shown(c, tenant, db[pos].value)
            case None => Scanning(c, tenant, db, pos - 1, want, budget, all, entries, scanned + 1)
            case Some(e) => Scanning(c, tenant, db, pos - 1, want, budget, all, entries + [e], scanned + 1)
  {
    hide Shown;
    match Shown(c, tenant, db[pos].value)
    case None =>
    case Some(e) =>
      var r := Scan(c, tenant, db, pos - 1, want - |entries| - 1, budget - scanned - 1);
      assert entries + ([e] + r.entries) == (entries + [e]) + r.entries;
  }

  lemma {:induction false} ScanningStops(c: Codec, tenant: string, db: seq<Pair>, pos: int, want: int, budget: nat,
                                         all: Listing, entries: seq<Entry>, scanned: nat)
    requires -1 <= pos < |db| && scanned <= budget && (pos < 0 || |entries| >= want || scanned == budget)
    requires Scanning(c, tenant, db, pos, want, budget, all, entries, scanned)
    ensures all == Listing(entries, if pos >= 0 then db[pos].key else "")
  {
    assert entries + [] == entries;
  }

  /******* Truncation, part way *******/

  // Everything doomed before `c` is gone and nothing after it is; the batch
  // holds what is doomed between `c` and `i`.
  ghost predicate Progress(db: seq<Pair>, snap: seq<Pair>, cutoff: int, c: nat, i: nat, batch: seq<string>,
                           removed: nat)
  {
    && c <= i <= |snap|
    && db == Kept(snap[..c], cutoff) + snap[c..]
    && batch == DoomedKeys(snap[c..i], cutoff)
    && removed == |DoomedKeys(snap[0..i], cutoff)|
  }

  // Some prefix of the scan is done and the rest is untouched.
  ghost predicate Partial(before: seq<Pair>, after: seq<Pair>, cutoff: int) {
    exists c :: 0 <= c <= |before| && after == Kept(before[..c], cutoff) + before[c..]
  }

  lemma {:induction false} ProgressIsPartial(db: seq<Pair>, snap: seq<Pair>, cutoff: int, c: nat, i: nat,
                                             batch: seq<string>, removed: nat)
    requires Progress(db, snap, cutoff, c, i, batch, removed)
    ensures Partial(snap, db, cutoff)
  {
    hide Kept, DoomedKeys;
  }

  lemma {:induction false} ProgressStarts(db: seq<Pair>, cutoff: int)
    ensures Progress(db, db, cutoff, 0, 0, [], 0)
  {
    assert db[..0] == [] && db[0..] == db && db[0..0] == [];
    assert [] + db == db;
  }

  lemma {:induction false} ProgressVisits(db: seq<Pair>, snap: seq<Pair>, cutoff: int, c: nat, i: nat,
                                          batch: seq<string>, removed: nat)
    requires Progress(db, snap, cutoff, c, i, batch, removed) && i < |snap|
    ensures if Doomed(snap[i].key, cutoff) then Progress(db, snap, cutoff, c, i + 1, batch + [snap[i].key], removed + 1)
            else Progress(db, snap, cutoff, c, i + 1, batch, removed)
  {
    DoomedKeysNext(snap, c, i, cutoff);
    DoomedKeysNext(snap, 0, i, cutoff);
    hide Doomed, Kept, DoomedKeys;
  }

  lemma {:induction false} ProgressCommits(db: seq<Pair>, snap: seq<Pair>, cutoff: int, c: nat, i: nat,
                                           batch: seq<string>, removed: nat)
    requires Progress(db, snap, cutoff, c, i, batch, removed) && Ascending(snap)
    ensures Progress(Without(db, batch), snap, cutoff, i, i, [], removed)
  {
    CommitMovesFrontier(snap, cutoff, c, i);
    assert snap[i..i] == [];
    assert DoomedKeys(snap[i..i], cutoff) == [];
    hide Doomed, Kept, DoomedKeys, Without;
  }

  lemma {:induction false} ProgressEnds(db: seq<Pair>, snap: seq<Pair>, cutoff: int, i: nat, removed: nat)
    requires Progress(db, snap, cutoff, i, i, [], removed) && Ascending(snap)
    requires i < |snap| ==> !Less(snap[i].key, Bound(cutoff))
    ensures db == Kept(snap, cutoff) && removed == |snap| - |db|
  {
    BeyondBound(snap, cutoff, i);
    KeptWithin(snap[0..i], cutoff);
    assert snap[0..i] == snap[..i];
    hide Doomed, Kept, DoomedKeys;
  }

  class Store {
    var db: seq<Pair>
    const codec: Codec
    const listScanBudget: nat
    const batchSize: nat

    constructor (codec: Codec)
      ensures db == [] && this.codec == codec && listScanBudget == 20000 && batchSize == 1000
    {
      this.codec, db, listScanBudget, batchSize := codec, [], 20000, 1000;
    }

    // One page, newest first, and where to carry on.
    method ReadPage(pageSize: int, token: string, tenant: string) returns (entries: seq<Entry>, next: string)
      ensures Listing(entries, next) == List(codec, db, pageSize, token, tenant, listScanBudget)
    {
      hide StartAt, Shown, Scanning, List;
      var pos := StartAt(db, token);
      entries := [];
      var scanned := 0;
      ScanningStarts(codec, db, pageSize, token, tenant, listScanBudget);
      ghost var all := List(codec, db, pageSize, token, tenant, listScanBudget);
      while pos >= 0 && |entries| < pageSize && scanned < listScanBudget
        invariant -1 <= pos < |db| && scanned <= listScanBudget
        invariant Scanning(codec, tenant, db, pos, pageSize, listScanBudget, all, entries, scanned)
        decreases pos
      {
        ScanningNext(codec, tenant, db, pos, pageSize, listScanBudget, all, entries, scanned);
        scanned := scanned + 1;
        match Shown(codec, tenant, db[pos].value) {
          case None =>
          case Some(e) => entries := entries + [e];
        }
        pos := pos - 1;
      }
      ScanningStops(codec, tenant, db, pos, pageSize, listScanBudget, all, entries, scanned);
      next := if pos >= 0 then db[pos].key else "";
    }

    /**
     Removes the entries stamped before the cutoff. An error leaves some prefix
     of the scan deleted and nothing else touched; without one the store keeps
     exactly what the bounded scan keeps, and the count is what went. Reads and
     commits may fail, unless the storage is `calm`.
     */
    method TruncateBefore(cutoff: Option<int>, calm: bool) returns (removed: nat, ok: bool)
      requires Ascending(db)
      modifies this`db
      ensures calm && cutoff.Some? ==> ok
      ensures cutoff.None? ==> !ok && db == old(db) && removed == 0
      ensures cutoff.Some? ==> Partial(old(db), db, cutoff.value)
      ensures ok ==> cutoff.Some? && db == Kept(old(db), cutoff.value) && removed == |old(db)| - |db|
    {
      if cutoff.None? {
        return 0, false;
      }
      var snap, limit := db, cutoff.value;
      hide *;
      var batch, i;
      ghost var c;
      removed, batch, i, c, ok := DeleteInBatches(snap, limit, calm);
      ProgressIsPartial(db, snap, limit, c, i, batch, removed);
      if !ok {
        return;
      }
      ok := *;
      ok := ok || calm;
      if ok {
        ProgressCommits(db, snap, limit, c, i, batch, removed);
        db := Without(db, batch);
        ProgressIsPartial(db, snap, limit, i, i, [], removed);
        ProgressEnds(db, snap, limit, i, removed);
      }
    }

    // The scan: every full batch is committed, the last one is left to the caller.
    method DeleteInBatches(snap: seq<Pair>, limit: int, calm: bool)
      returns (removed: nat, batch: seq<string>, i: nat, ghost c: nat, ok: bool)
      requires Ascending(snap) && snap == db
      modifies this`db
      ensures calm ==> ok
      ensures Progress(db, snap, limit, c, i, batch, removed)
      ensures ok && i < |snap| ==> !Less(snap[i].key, Bound(limit))
    {
      removed, batch, i, c, ok := 0, [], 0, 0, true;
      ProgressStarts(snap, limit);
      hide Less, StampedBefore, Bound, Kept, DoomedKeys, Without, Ascending, Progress;
      while i < |snap| && Less(snap[i].key, Bound(limit))
        invariant Progress(db, snap, limit, c, i, batch, removed)
        decreases |snap| - i
      {
        ok := *;
        ok := ok || calm;
        if !ok {
          return;
        }
        ProgressVisits(db, snap, limit, c, i, batch, removed);
        if !StampedBefore(snap[i].key, limit) {
          i := i + 1;
          continue;
        }
        batch, removed, i := batch + [snap[i].key], removed + 1, i + 1;
        if |batch| < batchSize {
          continue;
        }
        ok := *;
        ok := ok || calm;
        if !ok {
          return;
        }
        ProgressCommits(db, snap, limit, c, i, batch, removed);
        db := Without(db, batch);
        batch, c := [], i;
      }
      ok := true;
    }
  }

  // A key stamped at or after the cutoff is never deleted, whether or not the call fails.
  lemma {:induction false} NothingRecentIsLost(snap: seq<Pair>, cutoff: int, c: nat, p: Pair)
    requires c <= |snap| && p in snap && (Stamp(p.key).None? || Stamp(p.key).value >= cutoff)
    ensures p in Kept(snap[..c], cutoff) + snap[c..]
  {
    var i :| 0 <= i < |snap| && snap[i] == p;
    if i < c {
      KeepsAt(snap[..c], cutoff, i);
    } else {
      assert snap[c..][i - c] == p;
    }
  }

  lemma {:induction false} KeepsAt(db: seq<Pair>, cutoff: int, i: nat)
    requires i < |db| && !Doomed(db[i].key, cutoff)
    ensures db[i] in Kept(db, cutoff)
  {
    if i < |db| - 1 { KeepsAt(db[..|db| - 1], cutoff, i); }
  }
}
