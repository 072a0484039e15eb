/**
 The backup run as code over a directory, cut off after a given number of
 file operations, proved to do what the machine does.
 */
module BackupRun {
  import opened Prelude
  import opened BackupModel
  import opened BackupSafety

  lemma {:induction false} Halted(m: Machine, ops: nat)
    requires m.phase.Refused? || m.phase.Failed? || m.phase.Done?
    ensures AdvanceBy(m, ops) == m
  {
    if ops == 0 {
    } else {
      Halted(m, ops - 1);
    }
  }

  class OutDir {
    var files: Files

    // `m` is where the machine stands on entry and `n` on exit, with `left`
    // operations to spare.
    ghost predicate Tracks(m: Machine, ops: nat, n: Machine, left: nat)
      reads this
    {
      n.files == files && AdvanceBy(m, ops) == AdvanceBy(n, left) && n.run == m.run && n.plan == m.plan
    }

    method Claim(order: seq<string>, resuming: bool, ops: nat, ghost m: Machine)
      returns (ok: bool, left: nat, ghost n: Machine)
      requires m.files == files && m.phase == Claiming(order, resuming, false)
      modifies this
      ensures Tracks(m, ops, n, left)
      ensures if ok then n.phase == Copying(0, false, []) else n.phase.Refused? || (left == 0 && !n.phase.Done?)
    {
      hide AdvanceBy;
      ok, left, n := false, ops, m;
      var i := 0;
      assert order[0..] == order;
      while i < |order|
        invariant 0 <= i <= |order| && Tracks(m, ops, n, left) && n.phase == Claiming(order[i..], resuming, false)
      {
        if left == 0 { return; }
        var name := order[i];
        Onward(n, left - 1);
        assert order[i..][1..] == order[i + 1..];
        if name in files {
          if !resuming {
            n, left := Advance(n), left - 1;
            return;
          }
          files := files[name := Torn];
          n, left := Advance(n), left - 1;
          if left == 0 { return; }
          Onward(n, left - 1);
          files := files - {name};
        }
        n, left := Advance(n), left - 1;
        i := i + 1;
      }
      if left == 0 { return; }
      Onward(n, left - 1);
      files := files[MARKER := Mark];
      n, left, ok := Advance(n), left - 1, true;
    }

    method CopyAll(run: nat, plan: seq<Task>, ops: nat, ghost m: Machine)
      returns (ok: bool, listed: seq<string>, left: nat, ghost n: Machine)
      requires m.files == files && m.run == run && m.plan == plan && m.phase == Copying(0, false, [])
      modifies this
      ensures Tracks(m, ops, n, left)
      ensures if ok then n.phase == Copying(|plan|, false, listed) else n.phase.Failed? || (left == 0 && !n.phase.Done?)
    {
      hide AdvanceBy;
      ok, listed, left, n := false, [], ops, m;
      for i := 0 to |plan|
        invariant Tracks(m, ops, n, left) && n.phase == Copying(i, false, listed)
      {
        if left == 0 { return; }
        var t := plan[i];
        Onward(n, left - 1);
        if t.produces {
          if t.name in files && t.kind == Snapshot {
            n, left := Advance(n), left - 1;
            return;
          }
          files := files[t.name := Piece(run, false)];
          n, left := Advance(n), left - 1;
          if left == 0 { return; }
          Onward(n, left - 1);
          files := files[t.name := Piece(run, true)];
          listed := listed + [t.name];
        }
        n, left := Advance(n), left - 1;
      }
      ok := true;
    }

    method Record(run: nat, listed: seq<string>, ops: nat, ghost m: Machine)
      returns (ok: bool, left: nat, ghost n: Machine)
      requires m.files == files && m.run == run && m.phase == Copying(|m.plan|, false, listed)
      modifies this
      ensures Tracks(m, ops, n, left)
      ensures if ok then n.phase == Done(listed) else left == 0 && !n.phase.Done?
    {
      hide AdvanceBy;
      ok, left, n := false, ops, m;
      if left == 0 { return; }
      Onward(n, left - 1);
      files := files[MANIFEST := Listing(run, listed, false)];
      n, left := Advance(n), left - 1;
      if left == 0 { return; }
      Onward(n, left - 1);
      files := files[MANIFEST := Listing(run, listed, true)];
      n, left := Advance(n), left - 1;
      if left == 0 { return; }
      Onward(n, left - 1);
      files := files - {MARKER};
      n, left, ok := Advance(n), left - 1, true;
    }

    // A run answers with what its manifest lists, exactly when it got to the
    // end; and then every entry listed is whole and its own.
    method Run(run: nat, plan: seq<Task>, order: seq<string>, ops: nat) returns (r: Option<seq<string>>)
      modifies this
      ensures var m := Execute(old(files), run, Attempt(plan, order, ops));
              files == m.files && r == if m.phase.Done? then Some(m.phase.listed) else None
    {
      ghost var m := Begin(files, run, plan, order);
      r := None;
      if MANIFEST in files {
        Halted(m, ops);
        return;
      }
      hide AdvanceBy;
      assert AdvanceBy(m, 0) == m by { Standing(m); }
      ghost var n := m;
      var ok, left;
      ok, left, n := Claim(order, MARKER in files, ops, m);
      if !ok { Ending(n, left); return; }
      var listed;
      ok, listed, left, n := CopyAll(run, plan, left, n);
      if !ok { Ending(n, left); return; }
      ok, left, n := Record(run, listed, left, n);
      Ending(n, left);
      if ok { r := Some(listed); }
    }
  }

  lemma {:induction false} Standing(m: Machine)
    ensures AdvanceBy(m, 0) == m
  {
  }

  lemma {:induction false} Ending(m: Machine, left: nat)
    requires left == 0 || m.phase.Refused? || m.phase.Failed? || m.phase.Done?
    ensures AdvanceBy(m, left) == m
  {
    if left == 0 {
    } else {
      Halted(m, left);
    }
  }
}
