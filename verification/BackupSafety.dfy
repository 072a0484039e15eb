/**
 What every sequence of interrupted backup runs into one directory keeps, and
 when a run can be retried to completion.
 */
module BackupSafety {
  import opened BackupModel

  /******* Invariants *******/

  ghost predicate Kept(before: Files, files: Files) {
    forall n :: n in before ==> n in files && files[n] == before[n]
  }

  ghost predicate Free(before: Files, names: set<string>) {
    forall n :: n in names ==> n !in before
  }

  // The manifest names only entries that its own run finished.
  ghost predicate Vouched(files: Files) {
    && MANIFEST in files && files[MANIFEST].Listing?
    && forall n :: n in files[MANIFEST].stores ==> n in files && files[n] == Piece(files[MANIFEST].run, true)
  }

  // What holds of the directory after any run, cut off or not.
  ghost predicate Settled(before: Files, names: set<string>, files: Files) {
    && Kept(before, files)
    && (MARKER in files ==> Free(before, names))
    && (MARKER !in files && MANIFEST !in files ==> forall n :: n in names && n in files ==> n in before)
    && (MANIFEST in files && MANIFEST !in before ==> Free(before, names) && Vouched(files))
  }

  ghost predicate Wholes(files: Files, run: nat, listed: seq<string>) {
    forall n :: n in listed ==> n in files && files[n] == Piece(run, true)
  }

  ghost predicate ClaimingWell(names: set<string>, m: Machine, todo: seq<string>, resuming: bool) {
    && MANIFEST !in m.files
    && resuming == (MARKER in m.files)
    && (forall n :: n in todo ==> n in names)
    && (forall n :: n in names && n !in todo ==> n !in m.files)
  }

  ghost predicate CopyingWell(before: Files, names: set<string>, m: Machine, next: nat, started: bool,
                              listed: seq<string>)
  {
    && MANIFEST !in m.files && MARKER in m.files && Free(before, names)
    && next <= |m.plan|
    && (started ==> next < |m.plan| && m.plan[next].produces)
    && listed == Produced(m.plan[..next])
    && Wholes(m.files, m.run, listed)
    && forall j :: next <= j < |m.plan| && (j != next || !started) ==> m.plan[j].name !in m.files
  }

  ghost predicate RecordedWell(before: Files, names: set<string>, m: Machine, listed: seq<string>, whole: bool) {
    && MANIFEST !in before && Free(before, names)
    && listed == Produced(m.plan)
    && Wholes(m.files, m.run, listed)
    && MANIFEST in m.files && m.files[MANIFEST] == Listing(m.run, listed, whole)
  }

  ghost predicate PhaseWell(before: Files, names: set<string>, m: Machine) {
    match m.phase
    case Claiming(todo, resuming, _) => ClaimingWell(names, m, todo, resuming)
    case Copying(next, started, listed) => CopyingWell(before, names, m, next, started, listed)
    case Recording(listed) => RecordedWell(before, names, m, listed, false) && MARKER in m.files
    case Recorded(listed) => RecordedWell(before, names, m, listed, true) && MARKER in m.files
    case Done(listed) => RecordedWell(before, names, m, listed, true) && MARKER !in m.files
    case _ => true
  }

  ghost predicate Inv(before: Files, names: set<string>, m: Machine) {
    MARKER !in before && Fits(m.plan, names) && Settled(before, names, m.files) && PhaseWell(before, names, m)
  }

  /******* Each operation keeps them *******/

  lemma {:induction false} ClaimKeeps(before: Files, names: set<string>, m: Machine)
    requires Inv(before, names, m) && m.phase.Claiming?
    ensures Inv(before, names, Advance(m))
  {
    var todo := m.phase.todo;
    if todo == [] {
      ClaimEnds(before, names, m);
    } else {
      assert todo[0] in todo;
      assert forall n :: n in todo <==> n == todo[0] || n in todo[1..];
    }
  }

  lemma {:induction false} ClaimEnds(before: Files, names: set<string>, m: Machine)
    requires Inv(before, names, m) && m.phase.Claiming? && m.phase.todo == []
    ensures Inv(before, names, Advance(m))
  {
    assert m.plan[..0] == [];
  }

  lemma {:induction false} ProducedMore(plan: seq<Task>, i: nat)
    requires i < |plan|
    ensures Produced(plan[..i + 1]) ==
            if plan[i].produces then Produced(plan[..i]) + [plan[i].name] else Produced(plan[..i])
  {
    assert plan[..i + 1][..i] == plan[..i];
  }

  lemma {:induction false} ProducedBefore(plan: seq<Task>, i: nat, names: set<string>)
    requires i <= |plan| && Fits(plan, names)
    ensures forall n :: n in Produced(plan[..i]) ==> n in names
    ensures forall n, j :: n in Produced(plan[..i]) && i <= j < |plan| ==> n != plan[j].name
  {
    if i > 0 {
      ProducedBefore(plan, i - 1, names);
      ProducedMore(plan, i - 1);
      hide Produced;
    } else {
      assert plan[..0] == [];
    }
  }

  lemma {:induction false} CopySkips(before: Files, names: set<string>, m: Machine)
    requires Inv(before, names, m) && m.phase.Copying? && m.phase.next < |m.plan| && !m.plan[m.phase.next].produces
    ensures Inv(before, names, Advance(m))
  {
    ProducedMore(m.plan, m.phase.next);
    hide Produced, Wholes, Fits, Settled;
  }

  lemma {:induction false} CopyStarts(before: Files, names: set<string>, m: Machine)
    requires Inv(before, names, m) && m.phase.Copying? && m.phase.next < |m.plan|
    requires m.plan[m.phase.next].produces && !m.phase.started
    ensures Inv(before, names, Advance(m))
  {
    ProducedBefore(m.plan, m.phase.next, names);
    hide Produced;
  }

  lemma {:induction false} CopyEnds(before: Files, names: set<string>, m: Machine)
    requires Inv(before, names, m) && m.phase.Copying? && m.phase.next < |m.plan|
    requires m.plan[m.phase.next].produces && m.phase.started
    ensures Inv(before, names, Advance(m))
  {
    ProducedMore(m.plan, m.phase.next);
    ProducedBefore(m.plan, m.phase.next, names);
    hide Produced;
  }

  lemma {:induction false} ListingStarts(before: Files, names: set<string>, m: Machine)
    requires Inv(before, names, m) && m.phase.Copying? && m.phase.next == |m.plan|
    ensures Inv(before, names, Advance(m))
  {
    assert m.plan[..m.phase.next] == m.plan;
    ProducedBefore(m.plan, m.phase.next, names);
    hide Produced;
  }

  lemma {:induction false} CopyKeeps(before: Files, names: set<string>, m: Machine)
    requires Inv(before, names, m) && m.phase.Copying?
    ensures Inv(before, names, Advance(m))
  {
    var next := m.phase.next;
    assert next <= |m.plan|;
    hide Inv, Advance;
    if next == |m.plan| {
      ListingStarts(before, names, m);
    } else if !m.plan[next].produces {
      CopySkips(before, names, m);
    } else if m.phase.started {
      CopyEnds(before, names, m);
    } else {
      CopyStarts(before, names, m);
    }
  }

  lemma {:induction false} RecordKeeps(before: Files, names: set<string>, m: Machine)
    requires Inv(before, names, m) && (m.phase.Recording? || m.phase.Recorded?)
    ensures Inv(before, names, Advance(m))
  {
    assert m.plan[..|m.plan|] == m.plan;
    ProducedBefore(m.plan, |m.plan|, names);
    hide Produced;
  }

  lemma {:induction false} AdvanceKeeps(before: Files, names: set<string>, m: Machine)
    requires Inv(before, names, m)
    ensures Inv(before, names, Advance(m))
  {
    if m.phase.Claiming? {
      ClaimKeeps(before, names, m);
    } else if m.phase.Copying? {
      CopyKeeps(before, names, m);
    } else if m.phase.Recording? || m.phase.Recorded? {
      RecordKeeps(before, names, m);
    }
  }

  lemma {:induction false} AdvanceByKeeps(before: Files, names: set<string>, m: Machine, ops: nat)
    requires Inv(before, names, m)
    ensures Inv(before, names, AdvanceBy(m, ops))
  {
    hide Inv;
    if ops == 0 {
    } else {
      AdvanceByKeeps(before, names, m, ops - 1);
      AdvanceKeeps(before, names, AdvanceBy(m, ops - 1));
    }
  }

  lemma {:induction false} BeginKeeps(before: Files, names: set<string>, files: Files, run: nat, plan: seq<Task>,
                                      order: seq<string>)
    requires MARKER !in before && Settled(before, names, files) && Fits(plan, names) && Orders(order, names)
    ensures Inv(before, names, Begin(files, run, plan, order))
  {
  }

  // Over any sequence of runs, each cut off after any operation: nothing that
  // was there before the first is touched, and a manifest names only entries
  // that its own run finished.
  lemma {:induction false} BackupsAreSafe(before: Files, names: set<string>, attempts: seq<Attempt>)
    requires MARKER !in before
    requires forall i :: 0 <= i < |attempts| ==> Fits(attempts[i].plan, names) && Orders(attempts[i].order, names)
    ensures Settled(before, names, After(before, attempts))
    ensures Kept(before, After(before, attempts))
    ensures MANIFEST in After(before, attempts) && MANIFEST !in before ==> Vouched(After(before, attempts))
  {
    if attempts == [] {
    } else {
      var k := |attempts| - 1;
      var a, files := attempts[k], After(before, attempts[..k]);
      BackupsAreSafe(before, names, attempts[..k]);
      BeginKeeps(before, names, files, k, a.plan, a.order);
      AdvanceByKeeps(before, names, Begin(files, k, a.plan, a.order), a.ops);
    }
  }

  /******* Retrying *******/

  // Operations still to come, no more than this many.
  ghost function Work(m: Machine): nat {
    match m.phase
    case Claiming(todo, _, torn) => 2 * |todo| + 2 * |m.plan| + 4 - if torn && |todo| > 0 then 1 else 0
    case Copying(next, started, _) =>
      if next > |m.plan| then 0 else 2 * (|m.plan| - next) + 3 - if started && next < |m.plan| then 1 else 0
    case Recording(_) => 2
    case Recorded(_) => 1
    case _ => 0
  }

  // Nothing in the way of this run.
  ghost predicate Clear(before: Files, names: set<string>, m: Machine) {
    && Inv(before, names, m) && Free(before, names)
    && !m.phase.Refused? && !m.phase.Failed?
  }

  lemma {:induction false} ClearGoesOn(before: Files, names: set<string>, m: Machine)
    requires Clear(before, names, m) && !m.phase.Done?
    ensures Clear(before, names, Advance(m)) && Work(Advance(m)) < Work(m)
    ensures Advance(m).plan == m.plan && Advance(m).run == m.run
    ensures m.phase.Claiming? || m.phase.Copying? ==>
              Advance(m).phase.Claiming? || Advance(m).phase.Copying? || Advance(m).phase.Recording?
  {
    AdvanceKeeps(before, names, m);
    hide Produced, Wholes;
    if m.phase.Claiming? && m.phase.todo != [] { assert m.phase.todo[0] in m.phase.todo; }
  }

  lemma {:induction false} Onward(m: Machine, ops: nat)
    ensures AdvanceBy(m, ops + 1) == AdvanceBy(Advance(m), ops)
  {
    hide Advance;
    if ops == 0 {
    } else {
      Onward(m, ops - 1);
    }
  }

  lemma {:induction false} ClearFinishes(before: Files, names: set<string>, m: Machine) returns (ops: nat)
    requires Clear(before, names, m)
    ensures var d := AdvanceBy(m, ops); Clear(before, names, d) && d.phase.Done? && d.plan == m.plan && d.run == m.run
    decreases Work(m)
  {
    hide Clear, Advance, Work;
    if m.phase.Done? {
      ops := 0;
    } else {
      ClearGoesOn(before, names, m);
      var k := ClearFinishes(before, names, Advance(m));
      Onward(m, k);
      ops := k + 1;
    }
  }

  // The whole of a finished backup.
  ghost predicate Finished(files: Files, run: nat, plan: seq<Task>) {
    && MANIFEST in files && files[MANIFEST] == Listing(run, Produced(plan), true)
    && Wholes(files, run, Produced(plan)) && MARKER !in files
  }

  // What a caller can look up: no manifest, and the marker or none of the names.
  ghost predicate Ready(files: Files, names: set<string>) {
    MANIFEST !in files && (MARKER in files || forall n :: n in names ==> n !in files)
  }

  lemma {:induction false} ReadyIsSettled(files: Files, names: set<string>) returns (before: Files)
    requires Ready(files, names)
    ensures MARKER !in before && Free(before, names) && Settled(before, names, files)
  {
    before := map n | n in files && n != MARKER && n !in names :: files[n];
  }

  // A run that nothing cuts off completes, whatever the directory holds
  // besides, when it is ready.
  lemma {:induction false} RetryCompletes(files: Files, names: set<string>, run: nat, plan: seq<Task>,
                                          order: seq<string>) returns (ops: nat)
    requires Fits(plan, names) && Orders(order, names) && Ready(files, names)
    ensures Execute(files, run, Attempt(plan, order, ops)).phase == Done(Produced(plan))
    ensures Finished(Execute(files, run, Attempt(plan, order, ops)).files, run, plan)
  {
    var before := ReadyIsSettled(files, names);
    BeginKeeps(before, names, files, run, plan, order);
    ops := ClearFinishes(before, names, Begin(files, run, plan, order));
    hide AdvanceBy, Produced;
  }

  // Waiting in a claim that will be refused, or refused.
  ghost predicate Blocked(files: Files, m: Machine) {
    && m.files == files
    && (m.phase.Refused? ||
        (m.phase.Claiming? && !m.phase.resuming && exists n :: n in m.phase.todo && n in files))
  }

  lemma {:induction false} BlockedStays(files: Files, m: Machine, ops: nat)
    requires Blocked(files, m)
    ensures Blocked(files, AdvanceBy(m, ops))
  {
    if ops == 0 {
    } else {
      BlockedStays(files, m, ops - 1);
      var was := AdvanceBy(m, ops - 1);
      hide AdvanceBy;
      if was.phase.Claiming? {
        var todo := was.phase.todo;
        assert forall n :: n in todo <==> n == todo[0] || n in todo[1..];
      }
    }
  }

  // Otherwise it is refused and changes nothing, however far it gets.
  lemma {:induction false} RetryRefused(files: Files, names: set<string>, run: nat, a: Attempt)
    requires Orders(a.order, names) && !Ready(files, names)
    ensures Execute(files, run, a).files == files && !Execute(files, run, a).phase.Done?
  {
    var m := Begin(files, run, a.plan, a.order);
    if MANIFEST !in files {
      var n :| n in names && n in files;
      assert n in m.phase.todo;
    }
    BlockedStays(files, m, a.ops);
  }

  // Whether a run can complete shows in the directory before it starts.
  lemma {:induction false} CompletesIffReady(files: Files, names: set<string>, run: nat, plan: seq<Task>,
                                             order: seq<string>)
    requires Fits(plan, names) && Orders(order, names)
    ensures (exists ops: nat :: Execute(files, run, Attempt(plan, order, ops)).phase.Done?) <==> Ready(files, names)
  {
    if Ready(files, names) {
      var ops := RetryCompletes(files, names, run, plan, order);
      assert Execute(files, run, Attempt(plan, order, ops)).phase.Done?;
    } else {
      hide Execute, Ready;
      forall ops: nat ensures !Execute(files, run, Attempt(plan, order, ops)).phase.Done? {
        RetryRefused(files, names, run, Attempt(plan, order, ops));
      }
    }
  }

  // After any runs, the directory is ready exactly when there is no manifest
  // and none of the names was there before the first.
  lemma {:induction false} ReadyAfterRuns(before: Files, names: set<string>, files: Files)
    requires MARKER !in before && Settled(before, names, files)
    ensures Ready(files, names) <==> MANIFEST !in files && Free(before, names)
  {
  }

  // A run cut off while its manifest is being written leaves one that cannot
  // be read, and no later run can replace it: the condition above is needed.
  lemma {:induction false} TornManifestBlocksRetry(before: Files, names: set<string>, plan: seq<Task>,
                                                   order: seq<string>) returns (ops: nat)
    requires MARKER !in before && MANIFEST !in before && Free(before, names) && Fits(plan, names)
             && Orders(order, names)
    ensures var files := Execute(before, 0, Attempt(plan, order, ops)).files;
            && MANIFEST in files && files[MANIFEST] == Listing(0, Produced(plan), false)
            && forall run: nat, a: Attempt {:trigger Execute(files, run, a)} ::
                 Fits(a.plan, names) && Orders(a.order, names) ==> Execute(files, run, a).files == files
  {
    var m := Begin(before, 0, plan, order);
    BeginKeeps(before, names, before, 0, plan, order);
    ops := ClearRecords(before, names, m);
    var d := AdvanceBy(m, ops);
    var files := d.files;
    hide AdvanceBy, Produced, Fits, Orders, Execute;
    forall run: nat, a: Attempt | Fits(a.plan, names) && Orders(a.order, names)
      ensures Execute(files, run, a).files == files
    {
      RetryRefused(files, names, run, a);
    }
    assert Execute(before, 0, Attempt(plan, order, ops)) == d by { ExecuteIs(before, 0, plan, order, ops); }
  }

  lemma {:induction false} ExecuteIs(files: Files, run: nat, plan: seq<Task>, order: seq<string>, ops: nat)
    ensures Execute(files, run, Attempt(plan, order, ops)) == AdvanceBy(Begin(files, run, plan, order), ops)
  {
  }

  lemma {:induction false} ClearRecords(before: Files, names: set<string>, m: Machine) returns (ops: nat)
    requires Clear(before, names, m) && (m.phase.Claiming? || m.phase.Copying? || m.phase.Recording?)
    ensures var d := AdvanceBy(m, ops);
            Clear(before, names, d) && d.phase.Recording? && d.plan == m.plan && d.run == m.run
    decreases Work(m)
  {
    hide Clear, Advance, Work;
    if m.phase.Recording? {
      ops := 0;
    } else {
      ClearGoesOn(before, names, m);
      var k := ClearRecords(before, names, Advance(m));
      Onward(m, k);
      ops := k + 1;
    }
  }

  /******* Why the options must not change *******/

  ghost predicate Spared(files: Files, after: Files, n: string) {
    n in files ==> n in after && after[n] == files[n]
  }

  // With the marker down, an entry survives a run, wherever it is cut off,
  // exactly when it is not one of the run's names: whoever put it there.
  lemma {:induction false} ResumingClears(files: Files, run: nat, plan: seq<Task>, order: seq<string>, n: string)
    requires MARKER in files && MANIFEST !in files && n in files && n != MARKER && n != MANIFEST
    requires forall i :: 0 <= i < |plan| ==> plan[i].name in order
    ensures (forall ops: nat :: Spared(files, Execute(files, run, Attempt(plan, order, ops)).files, n)) <==> n !in order
  {
    var m := Begin(files, run, plan, order);
    if n in order {
      var ops := ClaimClears(m, n);
      assert !Spared(files, Execute(files, run, Attempt(plan, order, ops)).files, n);
    } else {
      forall ops: nat ensures Spared(files, Execute(files, run, Attempt(plan, order, ops)).files, n) {
        ElsewhereStays(m, n, ops);
      }
    }
  }

  // The run has no business with the entry.
  ghost predicate Elsewhere(m: Machine, n: string) {
    && n in m.files && n != MARKER && n != MANIFEST
    && (forall i :: 0 <= i < |m.plan| ==> m.plan[i].name != n)
    && (m.phase.Claiming? ==> n !in m.phase.todo)
  }

  lemma {:induction false} ElsewhereGoesOn(m: Machine, n: string)
    requires Elsewhere(m, n)
    ensures Elsewhere(Advance(m), n) && Advance(m).files[n] == m.files[n]
  {
    if m.phase.Claiming? && m.phase.todo != [] { assert m.phase.todo[0] in m.phase.todo; }
  }

  lemma {:induction false} ElsewhereStays(m: Machine, n: string, ops: nat)
    requires Elsewhere(m, n)
    ensures Elsewhere(AdvanceBy(m, ops), n) && AdvanceBy(m, ops).files[n] == m.files[n]
  {
    if ops == 0 {
    } else {
      ElsewhereStays(m, n, ops - 1);
      ElsewhereGoesOn(AdvanceBy(m, ops - 1), n);
    }
  }

  ghost predicate Removing(m: Machine, n: string) {
    m.phase.Claiming? && m.phase.resuming && (n in m.phase.todo || n !in m.files)
  }

  lemma {:induction false} RemovingGoesOn(m: Machine, n: string)
    requires Removing(m, n) && n in m.files
    ensures Removing(Advance(m), n) && Work(Advance(m)) < Work(m)
  {
    var todo := m.phase.todo;
    assert n == todo[0] || n in todo[1..];
  }

  lemma {:induction false} ClaimClears(m: Machine, n: string) returns (ops: nat)
    requires Removing(m, n)
    ensures n !in AdvanceBy(m, ops).files
    decreases Work(m)
  {
    hide Removing, Advance, Work;
    if n !in m.files {
      ops := 0;
    } else {
      RemovingGoesOn(m, n);
      var k := ClaimClears(Advance(m), n);
      Onward(m, k);
      ops := k + 1;
    }
  }

  /******* Snapshots *******/

  // Whatever the plan: the entry stands, and every task of this name that is
  // still to come is a snapshot.
  ghost predicate Stands(m: Machine, n: string, was: Content) {
    && n in m.files && m.files[n] == was && !m.phase.Claiming?
    && (m.phase.Copying? ==>
          && (forall i :: m.phase.next <= i < |m.plan| && m.plan[i].name == n ==> m.plan[i].kind == Snapshot)
          && (m.phase.started && m.phase.next < |m.plan| ==> m.plan[m.phase.next].name != n))
  }

  lemma {:induction false} SnapshotSpares(m: Machine, n: string, was: Content)
    requires Stands(m, n, was) && n != MARKER && n != MANIFEST
    ensures Stands(Advance(m), n, was)
  {
  }

  // Once copying has begun a snapshot writes over nothing, whatever else the plan
  // holds and however often it names the entry.
  lemma {:induction false} SnapshotsOverwriteNothing(m: Machine, n: string, was: Content, ops: nat)
    requires Stands(m, n, was) && n != MARKER && n != MANIFEST
    ensures n in AdvanceBy(m, ops).files && AdvanceBy(m, ops).files[n] == was && Stands(AdvanceBy(m, ops), n, was)
  {
    if ops == 0 {
    } else {
      SnapshotsOverwriteNothing(m, n, was, ops - 1);
      hide Stands, Advance;
      SnapshotSpares(AdvanceBy(m, ops - 1), n, was);
      StandsIs(AdvanceBy(m, ops), n, was);
    }
  }

  lemma {:induction false} StandsIs(m: Machine, n: string, was: Content)
    requires Stands(m, n, was)
    ensures n in m.files && m.files[n] == was
  {
  }
}
