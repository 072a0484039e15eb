/**
 The backup's output directory, one file operation at a time. A run may stop
 after any of them; the next run finds what it left.
 */
module BackupModel {

  const MARKER: string := ".backup-in-progress"
  const MANIFEST: string := "manifest.json"

  // Torn is what a removal that did not finish leaves.
  datatype Content =
    | Existing(id: int)
    | Mark
    | Torn
    | Piece(run: nat, whole: bool)
    | Listing(run: nat, stores: seq<string>, whole: bool)

  type Files = map<string, Content>

  // A snapshot refuses a destination that exists, a copy writes over it.
  datatype Kind = Snapshot | Copy

  // `produces` is false for a store that is not open and a directory that is missing.
  datatype Task = Task(name: string, kind: Kind, produces: bool)

  datatype Phase =
    | Claiming(todo: seq<string>, resuming: bool, torn: bool)
    | Copying(next: nat, started: bool, listed: seq<string>)
    | Recording(listed: seq<string>)
    | Recorded(listed: seq<string>)
    | Done(listed: seq<string>)
    | Refused
    | Failed

  datatype Machine = Machine(files: Files, run: nat, plan: seq<Task>, phase: Phase)

  // `order` lists the names in the order they are claimed in.
  function Begin(files: Files, run: nat, plan: seq<Task>, order: seq<string>): Machine {
    Machine(files, run, plan, if MANIFEST in files then Refused else Claiming(order, MARKER in files, false))
  }

  function ClaimNext(m: Machine, todo: seq<string>, resuming: bool, torn: bool): Machine {
    if todo == [] then Machine(m.files[MARKER := Mark], m.run, m.plan, Copying(0, false, []))
    else if todo[0] !in m.files then Machine(m.files, m.run, m.plan, Claiming(todo[1..], resuming, false))
    else if !resuming then Machine(m.files, m.run, m.plan, Refused)
    else if !torn then Machine(m.files[todo[0] := Torn], m.run, m.plan, Claiming(todo, resuming, true))
    else Machine(m.files - {todo[0]}, m.run, m.plan, Claiming(todo[1..], resuming, false))
  }

  function CopyNext(m: Machine, next: nat, started: bool, listed: seq<string>): Machine {
    if next >= |m.plan| then Machine(m.files[MANIFEST := Listing(m.run, listed, false)], m.run, m.plan,
                                     Recording(listed))
    else
      var t := m.plan[next];
      if !t.produces then Machine(m.files, m.run, m.plan, Copying(next + 1, false, listed))
      else if started then
        Machine(m.files[t.name := Piece(m.run, true)], m.run, m.plan, Copying(next + 1, false, listed + [t.name]))
      else if t.name in m.files && t.kind == Snapshot then Machine(m.files, m.run, m.plan, Failed)
      else Machine(m.files[t.name := Piece(m.run, false)], m.run, m.plan, Copying(next, true, listed))
  }

  function Advance(m: Machine): Machine {
    match m.phase
    case Claiming(todo, resuming, torn) => ClaimNext(m, todo, resuming, torn)
    case Copying(next, started, listed) => CopyNext(m, next, started, listed)
    case Recording(listed) => Machine(m.files[MANIFEST := Listing(m.run, listed, true)], m.run, m.plan,
                                      Recorded(listed))
    case Recorded(listed) => Machine(m.files - {MARKER}, m.run, m.plan, Done(listed))
    case _ => m
  }

  // The machine after at most `ops` operations.
  function AdvanceBy(m: Machine, ops: nat): Machine {
    if ops == 0 then m else Advance(AdvanceBy(m, ops - 1))
  }

  // A run that is cut off after `ops` operations.
  datatype Attempt = Attempt(plan: seq<Task>, order: seq<string>, ops: nat)

  function Execute(files: Files, run: nat, a: Attempt): Machine {
    AdvanceBy(Begin(files, run, a.plan, a.order), a.ops)
  }

  function After(files: Files, attempts: seq<Attempt>): Files {
    if attempts == [] then files
    else Execute(After(files, attempts[..|attempts| - 1]), |attempts| - 1, attempts[|attempts| - 1]).files
  }

  // The entries a plan writes, in order: what its manifest lists.
  function Produced(plan: seq<Task>): seq<string> {
    if plan == [] then []
    else
      var before, last := Produced(plan[..|plan| - 1]), plan[|plan| - 1];
      if last.produces then before + [last.name] else before
  }

  // A plan of a fixed set of options: these names, each once, none of them
  // one of the two that the protocol itself uses.
  ghost predicate Fits(plan: seq<Task>, names: set<string>) {
    && MARKER !in names && MANIFEST !in names
    && (forall i :: 0 <= i < |plan| ==> plan[i].name in names)
    && (forall i, j :: 0 <= i < j < |plan| ==> plan[i].name != plan[j].name)
  }

  ghost predicate Orders(order: seq<string>, names: set<string>) {
    forall n :: n in order <==> n in names
  }
}
