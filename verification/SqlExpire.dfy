/**
 The SQL store's Expire is three statements, not one: select what is due, move
 the selected rows that are still pending, read back the selected rows that are
 now expired. Its contract says it returns only the rows it moved itself. This
 is when that is true.
 */
module SqlExpire {
  import opened Prelude
  import opened ReviewModel

  datatype Row = Row(status: Status, action: Action)

  type Rows = map<string, Row>

  // A write by anyone else. A decision moves a row that is still pending; a
  // prune deletes a row that is decided, or was never a hold.
  datatype Write = Decide(id: string, status: Status) | Delete(id: string)

  predicate Prunable(r: Row) { r.status.Terminal() || r.action != Hold }

  function Applied(rows: Rows, w: Write): Rows {
    if w.id !in rows then rows
    else match w
      case Decide(id, status) => if rows[id].status == Pending then rows[id := Row(status, rows[id].action)] else rows
      case Delete(id) => if Prunable(rows[id]) then rows - {id} else rows
  }

  function Meanwhile(rows: Rows, writes: seq<Write>): Rows {
    if writes == [] then rows else Meanwhile(Applied(rows, writes[0]), writes[1..])
  }

  // UPDATE ... SET status = 'EXPIRED' WHERE status = 'PENDING' AND id IN (ids)
  function Update(rows: Rows, ids: set<string>): Rows {
    map id | id in rows :: if id in ids && rows[id].status == Pending then Row(Expired, rows[id].action) else rows[id]
  }

  function StillPending(rows: Rows, ids: set<string>): set<string> {
    set id | id in ids && id in rows && rows[id].status == Pending
  }

  // SELECT ... WHERE status = 'EXPIRED' AND id IN (ids)
  function ReadBack(rows: Rows, ids: set<string>): set<string> {
    set id | id in ids && id in rows && rows[id].status == Expired
  }

  /******* What the writes do to one row *******/

  // What decides a pending row: the first decision that names it.
  function FirstDecision(writes: seq<Write>, id: string): Option<Status> {
    if writes == [] then None
    else if writes[0].Decide? && writes[0].id == id then Some(writes[0].status)
    else FirstDecision(writes[1..], id)
  }

  // Some prune names the row when it can be pruned: from the start if it is
  // `loose`, otherwise once it has been decided.
  predicate Pruned(writes: seq<Write>, id: string, loose: bool) {
    writes != [] &&
    (if writes[0].id != id then Pruned(writes[1..], id, loose)
     else if writes[0].Delete? then loose || Pruned(writes[1..], id, loose)
     else Pruned(writes[1..], id, true))
  }

  ghost predicate Decisions(writes: seq<Write>) { forall w :: w in writes && w.Decide? ==> w.status.Terminal() }

  lemma {:induction false} PrunedAnyTime(writes: seq<Write>, id: string)
    ensures Pruned(writes, id, true) <==> Delete(id) in writes
  {
    if writes == [] {
    } else {
      PrunedAnyTime(writes[1..], id);
      assert writes == [writes[0]] + writes[1..];
    }
  }

  lemma {:induction false} StaysAway(rows: Rows, writes: seq<Write>, id: string)
    requires id !in rows
    ensures id !in Meanwhile(rows, writes)
  {
    if writes == [] {
    } else {
      StaysAway(Applied(rows, writes[0]), writes[1..], id);
    }
  }

  // Of several decisions on a pending row the first takes effect, and a prune
  // takes it away only once it may.
  lemma {:induction false} MeanwhileDecides(rows: Rows, writes: seq<Write>, id: string)
    requires Decisions(writes) && id in rows
    ensures id in Meanwhile(rows, writes) <==> !Pruned(writes, id, Prunable(rows[id]))
    ensures id in Meanwhile(rows, writes) ==>
              var first := FirstDecision(writes, id);
              var status := if rows[id].status == Pending && first.Some? then first.value else rows[id].status;
              Meanwhile(rows, writes)[id] == Row(status, rows[id].action)
  {
    if writes == [] {
    } else {
      var w, rest := writes[0], writes[1..];
      assert w in writes;
      var next := Applied(rows, w);
      if id in next { MeanwhileDecides(next, rest, id); } else { StaysAway(next, rest, id); }
    }
  }

  lemma {:induction false} FirstIsDecision(writes: seq<Write>, id: string)
    requires Decisions(writes)
    ensures FirstDecision(writes, id).Some? ==> FirstDecision(writes, id).value.Terminal()
  {
    if writes == [] {
    } else {
      assert writes[0] in writes;
      FirstIsDecision(writes[1..], id);
    }
  }

  /******* When the call reports its own rows *******/

  // Another sweep expired the row before the update, and it was still there to be read.
  ghost predicate Borrowed(rows: Rows, first: seq<Write>, second: seq<Write>, id: string) {
    id in rows && FirstDecision(first, id) == Some(Expired)
    && !Pruned(first, id, rows[id].action != Hold) && Delete(id) !in second
  }

  // The call moved the row, and a prune deleted it before it was read.
  ghost predicate Missed(rows: Rows, first: seq<Write>, second: seq<Write>, id: string) {
    id in rows && FirstDecision(first, id) == None
    && !Pruned(first, id, rows[id].action != Hold) && Delete(id) in second
  }

  lemma {:induction false} OneRow(rows: Rows, ids: set<string>, first: seq<Write>, second: seq<Write>, id: string)
    requires Decisions(first) && Decisions(second) && id in ids && id in rows && rows[id].status == Pending
    ensures var atUpdate := Meanwhile(rows, first);
            var end := Meanwhile(Update(atUpdate, ids), second);
            && (id in StillPending(atUpdate, ids) <==>
                  FirstDecision(first, id) == None && !Pruned(first, id, rows[id].action != Hold))
            && (id in ReadBack(end, ids) <==>
                  FirstDecision(first, id) in {None, Some(Expired)} && !Pruned(first, id, rows[id].action != Hold)
                    && Delete(id) !in second)
  {
    var atUpdate := Meanwhile(rows, first);
    var updated := Update(atUpdate, ids);
    MeanwhileDecides(rows, first, id);
    FirstIsDecision(first, id);
    PrunedAnyTime(second, id);
    hide Meanwhile, Pruned, FirstDecision;
    if id in updated { MeanwhileDecides(updated, second, id); } else { StaysAway(updated, second, id); }
  }

  /**
   The rows returned and not moved are those another sweep expired between the
   select and the update; the rows moved and not returned are those a prune
   deleted between the update and the read. So the call returns exactly the
   rows it moved if and only if there is neither.
   */
  lemma {:induction false} ReportsOwnRowsOnly(rows: Rows, ids: set<string>, first: seq<Write>, second: seq<Write>)
    requires Decisions(first) && Decisions(second)
    requires forall id :: id in ids ==> id in rows && rows[id].status == Pending
    ensures var atUpdate := Meanwhile(rows, first);
            var moved := StillPending(atUpdate, ids);
            var returned := ReadBack(Meanwhile(Update(atUpdate, ids), second), ids);
            && (forall id :: id in returned - moved <==> id in ids && Borrowed(rows, first, second, id))
            && (forall id :: id in moved - returned <==> id in ids && Missed(rows, first, second, id))
            && (returned == moved <==> forall id :: id in ids ==>
                !Borrowed(rows, first, second, id) && !Missed(rows, first, second, id))
  {
    var atUpdate := Meanwhile(rows, first);
    var moved, returned := StillPending(atUpdate, ids), ReadBack(Meanwhile(Update(atUpdate, ids), second), ids);
    forall id | id in ids
      ensures id in returned - moved <==> Borrowed(rows, first, second, id)
      ensures id in moved - returned <==> Missed(rows, first, second, id)
    {
      OneRow(rows, ids, first, second, id);
    }
    hide Borrowed, Missed, Meanwhile;
    assert returned == moved <==> returned - moved == {} && moved - returned == {} by {
      if returned - moved == {} && moved - returned == {} {
        assert forall id :: id in returned <==> id in moved;
      }
    }
  }

  /**
   Two sweeps that both select a row before either updates it both report it,
   so its payload is discarded twice and its subscribers are told twice.
   */
  lemma {:induction false} OverlappingSweepsBothReport(rows: Rows, mine: set<string>, theirs: set<string>, x: string)
    requires x in rows && rows[x].status == Pending && x in mine && x in theirs
    ensures x in ReadBack(Update(Update(rows, mine), theirs), mine)
    ensures x in ReadBack(Update(Update(rows, mine), theirs), theirs)
    ensures x !in StillPending(Update(rows, mine), theirs)
  {
    var once := Update(rows, mine);
    assert x in once && once[x].status == Expired;
    assert x in Update(once, theirs);
  }

  /**
   A prune between the update and the read takes away a row the call moved: its
   expiry is told to no one and its payload is discarded by no one.
   */
  lemma {:induction false} PruneHidesMovedRow(rows: Rows, ids: set<string>, x: string)
    requires x in rows && rows[x].status == Pending && x in ids
    ensures x in StillPending(Meanwhile(rows, []), ids)
    ensures x !in ReadBack(Meanwhile(Update(Meanwhile(rows, []), ids), [Delete(x)]), ids)
  {
    var updated := Update(rows, ids);
    assert x in updated && updated[x].status == Expired;
    assert [Delete(x)][1..] == [];
    assert Meanwhile(updated, [Delete(x)]) == Meanwhile(Applied(updated, Delete(x)), []);
  }
}
