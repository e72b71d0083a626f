/** The undoable commands (src/UndoManager.cpp, src/UndoManager.h).

    A command is a tagged value holding what its C++ object holds: the
    arguments it was built with, the data it records while executing
    (`insertIndex`, the deleted activity, `wasExecuted`) and its
    description. Executing a command gives the updated command and list,
    or the list as it stood when an exception escaped; undoing a command
    never changes the command itself. */
module Commands {
  import opened Outcomes
  import opened Text
  import opened Activity
  import opened TaskManager
  import opened TimerCascade
  import opened Lists

  /** What each command class keeps besides its description. */
  datatype Op =
    | AddOp(name: string, start: string, hasStart: bool, length: int, rigid: bool, insertIndex: int)
    | DeleteOp(index: int, name: string, start: string, length: int, rigid: bool, fixed: bool, deleted: bool)
    | EditNameOp(index: int, oldName: string, newName: string, executed: bool)
    | EditStartOp(index: int, oldStart: string, newStart: string, oldFixed: bool, newFixed: bool, executed: bool)
    | EditLengthOp(index: int, oldLength: int, newLength: int, executed: bool)
    | ToggleFixedOp(index: int, oldFixed: bool, executed: bool)
    | ToggleRigidOp(index: int, oldRigid: bool, executed: bool)
    | MoveUpOp(index: int, wasFixed: bool, executed: bool)
    | MoveDownOp(index: int, wasFixed: bool, executed: bool)
    | StartTimerOp(records: seq<TaskState>, clock: string, executed: bool)

  /** A single command with its description, or a CommandGroup with its
      own description and its members in execution order. */
  datatype Command =
    | Leaf(op: Op, desc: string)
    | Group(members: seq<Command>, groupDesc: string)

  /** An execute that ran through: the command as it now stands and the
      new list. */
  datatype Done = Done(cmd: Command, tasks: seq<Act>)

  /** The `sizeof` of each command class and of one cascade record: fixed
      numbers of the build, so they are parameters of the model. */
  datatype Sizes = Sizes(
    add: nat, delete: nat, editName: nat, editStart: nat, editLength: nat,
    toggleFixed: nat, toggleRigid: nat, moveUp: nat, moveDown: nat,
    timer: nat, record: nat, group: nat)

  // ---------------------------------------------------------------------
  // What the user entered

  /** The part of an activity that the user sets and an undo is meant to
      bring back: name, length, rigid, and whether it is pinned, with the
      start text and minute when it is. `actual`, the freeze state and the
      start of a flexible activity are recomputed by the engine. */
  datatype Entry = Entry(name: string, length: int, rigid: bool, anchor: Option<(string, int)>)

  function EntryOf(a: Act): Entry
  {
    Entry(a.name, a.length, a.rigid, if a.fixed then Some((a.startStr, a.startInt)) else None)
  }

  function Entries(ts: seq<Act>): (r: seq<Entry>)
    ensures |r| == |ts| && forall i :: 0 <= i < |ts| ==> r[i] == EntryOf(ts[i])
  {
    seq(|ts|, i requires 0 <= i < |ts| => EntryOf(ts[i]))
  }

  /** The recalculation that follows every edit (calcActLen, then
      calcStartTimes) changes no entry. */
  lemma RecomputeKeepsEntries(ts: seq<Act>, dayLength: int)
    ensures Entries(Recompute(ts, dayLength)) == Entries(ts)
  {
    if |ts| > 0 {
      var c := CalcActLen(ts, dayLength).tasks;
      var r := CalcStartTimes(c);
      CalcActLenIdentity(ts, dayLength);
      CalcStartTimesChained(c);
      forall i | 0 <= i < |ts|
        ensures EntryOf(r[i]) == EntryOf(ts[i])
      {
        assert SameIdentity(c[i], ts[i]);
        assert ChainedStart(c, r, i);
      }
    }
  }

  /** Editing one activity and recalculating changes that entry only. */
  lemma RecomputedEdit(ts: seq<Act>, i: int, a: Act, dayLength: int)
    requires 0 <= i < |ts|
    ensures Entries(Recompute(ts[i := a], dayLength)) == Entries(ts)[i := EntryOf(a)]
  {
    RecomputeKeepsEntries(ts[i := a], dayLength);
  }

  // ---------------------------------------------------------------------
  // Constructors: the descriptions are fixed when the command is built

  function YesNo(b: bool): string { if b then "Yes" else "No" }

  /** AddTaskCommand with a start time. */
  function NewAdd(name: string, start: string, length: int, rigid: bool): Command
  {
    Leaf(AddOp(name, start, true, length, rigid, -1), "Add task '" + name + "'")
  }

  /** AddTaskCommand for a flexible activity. */
  function NewAddFlexible(name: string, length: int, rigid: bool): Command
  {
    Leaf(AddOp(name, "", false, length, rigid, -1), "Add task '" + name + "'")
  }

  function NewDelete(i: int): Command
  {
    Leaf(DeleteOp(i, "", "", 0, false, false, false), "Delete task")
  }

  function NewEditName(i: int, oldName: string, newName: string): Command
  {
    Leaf(EditNameOp(i, oldName, newName, false),
      "Changed task name from '" + oldName + "' to '" + newName + "'")
  }

  function NewEditStart(ts: seq<Act>, i: int, oldStart: string, newStart: string, oldFixed: bool, newFixed: bool): Command
  {
    var desc :=
      if 0 <= i < |ts| then
        var oldShown := if oldStart == "" then "flexible" else oldStart;
        var newShown := if newStart == "" then "flexible" else newStart;
        "Changed task '" + ts[i].name + "' start time from " + oldShown + " to " + newShown
      else "Changed task start time from '" + oldStart + "' to '" + newStart + "'";
    Leaf(EditStartOp(i, oldStart, newStart, oldFixed, newFixed, false), desc)
  }

  function NewEditLength(ts: seq<Act>, i: int, oldLength: int, newLength: int): Command
  {
    var desc :=
      if 0 <= i < |ts| then
        "Changed task '" + ts[i].name + "' length from " + IntToString(oldLength) + " to "
          + IntToString(newLength) + " minutes"
      else "Changed task length from " + IntToString(oldLength) + " to " + IntToString(newLength);
    Leaf(EditLengthOp(i, oldLength, newLength, false), desc)
  }

  function NewToggleFixed(ts: seq<Act>, i: int, oldFixed: bool): Command
  {
    var change := "fixed status from " + YesNo(oldFixed) + " to " + YesNo(!oldFixed);
    var desc := if 0 <= i < |ts| then "Toggled task '" + ts[i].name + "' " + change else "Toggled task " + change;
    Leaf(ToggleFixedOp(i, oldFixed, false), desc)
  }

  function NewToggleRigid(ts: seq<Act>, i: int, oldRigid: bool): Command
  {
    var change := "rigid status from " + YesNo(oldRigid) + " to " + YesNo(!oldRigid);
    var desc := if 0 <= i < |ts| then "Toggled task '" + ts[i].name + "' " + change else "Toggled task " + change;
    Leaf(ToggleRigidOp(i, oldRigid, false), desc)
  }

  function NewMoveUp(ts: seq<Act>, i: int, wasFixed: bool): Command
  {
    Leaf(MoveUpOp(i, wasFixed, false), if 0 <= i < |ts| then "Moved task '" + ts[i].name + "' up" else "Move task up")
  }

  function NewMoveDown(ts: seq<Act>, i: int, wasFixed: bool): Command
  {
    Leaf(MoveDownOp(i, wasFixed, false), if 0 <= i < |ts| then "Moved task '" + ts[i].name + "' down" else "Move task down")
  }

  /** StartTaskTimerCommand with the clock passed in as `now`: the clock
      text and the cascade records are taken when the command is built. */
  function NewStartTimer(ts: seq<Act>, i: int, now: int): Command
    requires 0 <= now < 1440
  {
    if 0 <= i < |ts| then
      var records := Cascade(ts, i, now);
      Leaf(StartTimerOp(records, ClockText(now), false), TimerDescription(ts[i].name, ClockText(now), |records|))
    else Leaf(StartTimerOp([], "", false), "Start task timer")
  }

  // ---------------------------------------------------------------------
  // Execute

  function Execute(c: Command, ts: seq<Act>, dayLength: int): (r: Attempt<Done, seq<Act>>)
    decreases c, 1
  {
    match c
    case Leaf(op, desc) => ExecuteOp(op, desc, ts, dayLength)
    case Group(ms, d) =>
      match ExecuteMembers(ms, 0, [], ts, dayLength)
      case Raised(p) => Raised(p)
      case Completed(x) => Completed(Done(Group(x.0, d), x.1))
  }

  /** CommandGroup::execute from member `k` on, with `done` the members
      before `k` as their execution left them: in order; an exception from
      a member leaves the list as that member left it. */
  function ExecuteMembers(ms: seq<Command>, k: nat, done: seq<Command>, ts: seq<Act>, dayLength: int)
    : (r: Attempt<(seq<Command>, seq<Act>), seq<Act>>)
    requires k <= |ms| && |done| == k
    ensures r.Completed? ==> |r.value.0| == |ms|
    decreases ms, |ms| - k
  {
    if k == |ms| then Completed((done, ts))
    else
      match Execute(ms[k], ts, dayLength)
      case Raised(p) => Raised(p)
      case Completed(d) => ExecuteMembers(ms, k + 1, done + [d.cmd], d.tasks, dayLength)
  }

  /** Each command class's execute(). */
  function ExecuteOp(op: Op, desc: string, ts: seq<Act>, dayLength: int): (r: Attempt<Done, seq<Act>>)
  {
    match op
    case AddOp(name, start, hasStart, length, rigid, _) => ExecuteAdd(name, start, hasStart, length, rigid, desc, ts)
    case DeleteOp(i, name, start, length, rigid, fixed, _) => ExecuteDelete(i, name, start, length, rigid, fixed, desc, ts)
    case EditNameOp(i, oldName, newName, _) => ExecuteEditName(op, i, newName, desc, ts, dayLength)
    case EditStartOp(i, _, newStart, _, _, _) => ExecuteEditStart(op, i, newStart, desc, ts, dayLength)
    case EditLengthOp(i, _, newLength, _) => ExecuteEditLength(op, i, newLength, desc, ts, dayLength)
    case ToggleFixedOp(i, _, _) => ExecuteToggleFixed(op, i, desc, ts, dayLength)
    case ToggleRigidOp(i, _, _) => ExecuteToggleRigid(op, i, desc, ts, dayLength)
    case MoveUpOp(i, wasFixed, _) => ExecuteMoveUp(op, i, wasFixed, desc, ts, dayLength)
    case MoveDownOp(i, wasFixed, _) => ExecuteMoveDown(op, i, wasFixed, desc, ts, dayLength)
    case StartTimerOp(records, clock, _) => ExecuteStartTimer(op, records, clock, desc, ts, dayLength)
  }

  /** `wasExecuted` set on a command whose execute ran. */
  function Executed(op: Op): Op
  {
    match op
    case EditNameOp(i, oldName, newName, _) => EditNameOp(i, oldName, newName, true)
    case EditStartOp(i, oldStart, newStart, oldFixed, newFixed, _) => EditStartOp(i, oldStart, newStart, oldFixed, newFixed, true)
    case EditLengthOp(i, oldLength, newLength, _) => EditLengthOp(i, oldLength, newLength, true)
    case ToggleFixedOp(i, oldFixed, _) => ToggleFixedOp(i, oldFixed, true)
    case ToggleRigidOp(i, oldRigid, _) => ToggleRigidOp(i, oldRigid, true)
    case MoveUpOp(i, wasFixed, _) => MoveUpOp(i, wasFixed, true)
    case MoveDownOp(i, wasFixed, _) => MoveDownOp(i, wasFixed, true)
    case StartTimerOp(records, clock, _) => StartTimerOp(records, clock, true)
    case _ => op
  }

  /** AddTaskCommand::execute: build the activity (which throws on a bad
      start text), append it and remember where it went. */
  function ExecuteAdd(name: string, start: string, hasStart: bool, length: int, rigid: bool, desc: string, ts: seq<Act>)
    : Attempt<Done, seq<Act>>
  {
    var made := if hasStart then NewFixed(name, start, length, rigid) else Ok(NewFlexible(name, length, rigid));
    match made
    case Err(_) => Raised(ts)
    case Ok(a) => Completed(Done(Leaf(AddOp(name, start, hasStart, length, rigid, |ts|), desc), AddTask(ts, a)))
  }

  /** DeleteTaskCommand::execute: record the activity and its name in the
      description, then delete it. */
  function ExecuteDelete(i: int, name: string, start: string, length: int, rigid: bool, fixed: bool, desc: string, ts: seq<Act>)
    : Attempt<Done, seq<Act>>
  {
    if 0 <= i < |ts| then
      var t := ts[i];
      var gone := DeleteTask(ts, i);
      Completed(Done(Leaf(DeleteOp(i, t.name, t.startStr, t.length, t.rigid, t.fixed, gone.done), "Delete task '" + t.name + "'"),
        gone.tasks))
    else Completed(Done(Leaf(DeleteOp(i, name, start, length, rigid, fixed, false), desc), ts))
  }

  function ExecuteEditName(op: Op, i: int, newName: string, desc: string, ts: seq<Act>, dayLength: int): Attempt<Done, seq<Act>>
  {
    if 0 <= i < |ts| then Completed(Done(Leaf(Executed(op), desc), Recompute(ts[i := SetName(ts[i], newName)], dayLength)))
    else Completed(Done(Leaf(op, desc), ts))
  }

  /** EditStartTimeCommand::execute: an empty text makes the activity
      flexible, any other pins it there (or throws). */
  function ExecuteEditStart(op: Op, i: int, newStart: string, desc: string, ts: seq<Act>, dayLength: int): Attempt<Done, seq<Act>>
  {
    if 0 <= i < |ts| then
      match SetState(ts[i], newStart, newStart != "")
      case Err(_) => Raised(ts)
      case Ok(a) => Completed(Done(Leaf(Executed(op), desc), Recompute(ts[i := a], dayLength)))
    else Completed(Done(Leaf(op, desc), ts))
  }

  function ExecuteEditLength(op: Op, i: int, newLength: int, desc: string, ts: seq<Act>, dayLength: int): Attempt<Done, seq<Act>>
  {
    if 0 <= i < |ts| then Completed(Done(Leaf(Executed(op), desc), Recompute(ts[i := SetLength(ts[i], newLength)], dayLength)))
    else Completed(Done(Leaf(op, desc), ts))
  }

  function ExecuteToggleFixed(op: Op, i: int, desc: string, ts: seq<Act>, dayLength: int): Attempt<Done, seq<Act>>
  {
    if 0 <= i < |ts| then Completed(Done(Leaf(Executed(op), desc), Recompute(ts[i := ToggleFixed(ts[i])], dayLength)))
    else Completed(Done(Leaf(op, desc), ts))
  }

  function ExecuteToggleRigid(op: Op, i: int, desc: string, ts: seq<Act>, dayLength: int): Attempt<Done, seq<Act>>
  {
    if 0 <= i < |ts| then Completed(Done(Leaf(Executed(op), desc), Recompute(ts[i := SetRigid(ts[i], !ts[i].rigid)], dayLength)))
    else Completed(Done(Leaf(op, desc), ts))
  }

  /** MoveTaskUpCommand::execute: unpin the activity, then move it. */
  function ExecuteMoveUp(op: Op, i: int, wasFixed: bool, desc: string, ts: seq<Act>, dayLength: int): Attempt<Done, seq<Act>>
  {
    if 0 < i < |ts| then
      var loose := ts[i := Unpinned(ts[i])];
      var moved := MoveTaskUp(loose, i);
      if moved.done then Completed(Done(Leaf(Executed(op), desc), Recompute(moved.tasks, dayLength)))
      else Completed(Done(Leaf(op, desc), loose))
    else Completed(Done(Leaf(op, desc), ts))
  }

  /** MoveTaskDownCommand::execute: unpin the activity, then move it. */
  function ExecuteMoveDown(op: Op, i: int, wasFixed: bool, desc: string, ts: seq<Act>, dayLength: int): Attempt<Done, seq<Act>>
  {
    if 0 <= i < |ts| - 1 then
      var loose := ts[i := Unpinned(ts[i])];
      var moved := MoveTaskDown(loose, i);
      if moved.done then Completed(Done(Leaf(Executed(op), desc), Recompute(moved.tasks, dayLength)))
      else Completed(Done(Leaf(op, desc), loose))
    else Completed(Done(Leaf(op, desc), ts))
  }

  /** StartTaskTimerCommand::execute: apply the recorded new states. */
  function ExecuteStartTimer(op: Op, records: seq<TaskState>, clock: string, desc: string, ts: seq<Act>, dayLength: int)
    : Attempt<Done, seq<Act>>
  {
    if |records| > 0 then
      match ApplyStates(ts, records, 0, true)
      case Raised(p) => Raised(p)
      case Completed(v) => Completed(Done(Leaf(Executed(op), desc), Recompute(v, dayLength)))
    else Completed(Done(Leaf(op, desc), ts))
  }

  /** `if (task.isFixed()) task.setFixed();` */
  function Unpinned(a: Act): (r: Act)
    ensures !r.fixed && r.(fixed := a.fixed) == a
  {
    if a.fixed then ToggleFixed(a) else a
  }

  /** `if (!task.isFixed()) task.setFixed();` */
  function Pinned(a: Act): (r: Act)
    ensures r.fixed && r.(fixed := a.fixed) == a
  {
    if !a.fixed then ToggleFixed(a) else a
  }

  // ---------------------------------------------------------------------
  // Undo

  function Revert(c: Command, ts: seq<Act>, dayLength: int): (r: Attempt<seq<Act>, seq<Act>>)
    decreases c, 1
  {
    match c
    case Leaf(op, _) => RevertOp(op, ts, dayLength)
    case Group(ms, _) => RevertMembers(ms, |ms|, ts, dayLength)
  }

  /** CommandGroup::undo over members `0..k`: the last one first. */
  function RevertMembers(ms: seq<Command>, k: nat, ts: seq<Act>, dayLength: int): (r: Attempt<seq<Act>, seq<Act>>)
    requires k <= |ms|
    decreases ms, k
  {
    if k == 0 then Completed(ts)
    else
      match Revert(ms[k - 1], ts, dayLength)
      case Raised(p) => Raised(p)
      case Completed(back) => RevertMembers(ms, k - 1, back, dayLength)
  }

  /** Each command class's undo(). */
  function RevertOp(op: Op, ts: seq<Act>, dayLength: int): (r: Attempt<seq<Act>, seq<Act>>)
  {
    match op
    case AddOp(_, _, _, _, _, at) => Completed(UndoAdd(at, ts))
    case DeleteOp(i, name, start, length, rigid, fixed, deleted) => Completed(UndoDelete(i, name, start, length, rigid, fixed, deleted, ts))
    case EditNameOp(i, oldName, _, executed) =>
      Completed(if executed && 0 <= i < |ts| then Recompute(ts[i := SetName(ts[i], oldName)], dayLength) else ts)
    case EditStartOp(i, oldStart, _, oldFixed, _, executed) => UndoEditStart(i, oldStart, oldFixed, executed, ts, dayLength)
    case EditLengthOp(i, oldLength, _, executed) =>
      Completed(if executed && 0 <= i < |ts| then Recompute(ts[i := SetLength(ts[i], oldLength)], dayLength) else ts)
    case ToggleFixedOp(i, oldFixed, executed) =>
      Completed(if executed && 0 <= i < |ts| then Recompute(ts[i := ts[i].(fixed := oldFixed)], dayLength) else ts)
    case ToggleRigidOp(i, oldRigid, executed) =>
      Completed(if executed && 0 <= i < |ts| then Recompute(ts[i := SetRigid(ts[i], oldRigid)], dayLength) else ts)
    case MoveUpOp(i, wasFixed, executed) => Completed(UndoMoveUp(i, wasFixed, executed, ts, dayLength))
    case MoveDownOp(i, wasFixed, executed) => Completed(UndoMoveDown(i, wasFixed, executed, ts, dayLength))
    case StartTimerOp(records, _, executed) => UndoStartTimer(records, executed, ts, dayLength)
  }

  /** AddTaskCommand::undo: delete what was appended. */
  function UndoAdd(at: int, ts: seq<Act>): seq<Act>
  {
    if 0 <= at < |ts| then DeleteTask(ts, at).tasks else ts
  }

  /** DeleteTaskCommand::undo: put a pinned activity back through
      insertFixedTask (whose failure is swallowed), any other one as a new
      flexible activity; no recalculation follows. */
  function UndoDelete(i: int, name: string, start: string, length: int, rigid: bool, fixed: bool, deleted: bool, ts: seq<Act>)
    : seq<Act>
  {
    if !deleted then ts
    else if fixed && start != "" then
      match InsertFixedTask(ts, i, name, start, length, rigid)
      case Err(_) => ts
      case Ok(back) => back
    else InsertTaskAt(ts, i, NewFlexible(name, length, rigid))
  }

  /** EditStartTimeCommand::undo: the old text and flag (or a throw). */
  function UndoEditStart(i: int, oldStart: string, oldFixed: bool, executed: bool, ts: seq<Act>, dayLength: int)
    : Attempt<seq<Act>, seq<Act>>
  {
    if executed && 0 <= i < |ts| then
      match SetState(ts[i], oldStart, oldFixed)
      case Err(_) => Raised(ts)
      case Ok(a) => Completed(Recompute(ts[i := a], dayLength))
    else Completed(ts)
  }

  /** MoveTaskUpCommand::undo: move back down, pin again if it was pinned. */
  function UndoMoveUp(i: int, wasFixed: bool, executed: bool, ts: seq<Act>, dayLength: int): seq<Act>
  {
    if executed && 0 < i < |ts| then
      var moved := MoveTaskDown(ts, i - 1);
      if moved.done then Recompute(Repinned(moved.tasks, i, wasFixed), dayLength) else ts
    else ts
  }

  /** MoveTaskDownCommand::undo: move back up, pin again if it was pinned. */
  function UndoMoveDown(i: int, wasFixed: bool, executed: bool, ts: seq<Act>, dayLength: int): seq<Act>
  {
    if executed && 0 <= i < |ts| - 1 then
      var moved := MoveTaskUp(ts, i + 1);
      if moved.done then Recompute(Repinned(moved.tasks, i, wasFixed), dayLength) else ts
    else ts
  }

  /** StartTaskTimerCommand::undo: apply the recorded old states. */
  function UndoStartTimer(records: seq<TaskState>, executed: bool, ts: seq<Act>, dayLength: int): Attempt<seq<Act>, seq<Act>>
  {
    if executed && |records| > 0 then
      match ApplyStates(ts, records, 0, false)
      case Raised(p) => Raised(p)
      case Completed(v) => Completed(Recompute(v, dayLength))
    else Completed(ts)
  }

  /** The undo of a move pins the activity again when it was pinned. */
  function Repinned(ts: seq<Act>, i: int, wasFixed: bool): (r: seq<Act>)
    requires 0 <= i < |ts|
    ensures |r| == |ts|
  {
    if wasFixed then ts[i := Pinned(ts[i])] else ts
  }

  // ---------------------------------------------------------------------
  // Description and footprint

  /** getDescription: a group of one shows its member's description, a
      larger group its own with the member count, an empty group its own. */
  function Description(c: Command): string
  {
    match c
    case Leaf(_, desc) => desc
    case Group(ms, d) =>
      if |ms| == 1 then Description(ms[0])
      else if |ms| > 1 then d + " (" + NatToString(|ms|) + " operations)"
      else d
  }

  /** getMemoryFootprint: the object itself plus the text it owns; a group
      adds its members' footprints. */
  function Footprint(c: Command, z: Sizes): nat
    decreases c, 1
  {
    match c
    case Leaf(op, _) =>
      (match op
       case AddOp(name, start, _, _, _, _) => z.add + |name| + |start|
       case DeleteOp(_, name, start, _, _, _, _) => z.delete + |name| + |start|
       case EditNameOp(_, oldName, newName, _) => z.editName + |oldName| + |newName|
       case EditStartOp(_, oldStart, newStart, _, _, _) => z.editStart + |oldStart| + |newStart|
       case EditLengthOp(_, _, _, _) => z.editLength
       case ToggleFixedOp(_, _, _) => z.toggleFixed
       case ToggleRigidOp(_, _, _) => z.toggleRigid
       case MoveUpOp(_, _, _) => z.moveUp
       case MoveDownOp(_, _, _) => z.moveDown
       case StartTimerOp(records, clock, _) => z.timer + |clock| + RecordsFootprint(records, z))
    case Group(ms, d) => z.group + |d| + MembersFootprint(ms, z)
  }

  function RecordsFootprint(rs: seq<TaskState>, z: Sizes): nat
  {
    if |rs| == 0 then 0
    else RecordsFootprint(rs[..|rs| - 1], z) + z.record + |rs[|rs| - 1].oldStart| + |rs[|rs| - 1].newStart|
  }

  function MembersFootprint(ms: seq<Command>, z: Sizes): nat
    decreases ms, 0
  {
    if |ms| == 0 then 0 else MembersFootprint(ms[..|ms| - 1], z) + Footprint(ms[|ms| - 1], z)
  }

  // ---------------------------------------------------------------------
  // Execute and undo, command by command

  /** Adding appends the new activity and remembers its position, and
      throws (changing nothing) exactly when a start text is given that
      `Act` rejects; undoing deletes that position again, which gives the
      list back as it was. */
  lemma AddRoundTrip(ts: seq<Act>, name: string, start: string, hasStart: bool, length: int, rigid: bool,
                     at: int, desc: string, dayLength: int)
    ensures var e := Execute(Leaf(AddOp(name, start, hasStart, length, rigid, at), desc), ts, dayLength);
      && (e.Raised? <==> hasStart && ParseTime(start).Err?)
      && (e.Raised? ==> e.partial == ts)
      && (e.Completed? ==>
            var mid := e.value.tasks;
            && |mid| == |ts| + 1 && mid[..|ts|] == ts
            && mid[|ts|].name == name && mid[|ts|].length == length && mid[|ts|].rigid == rigid
            && mid[|ts|].fixed == hasStart
            && Revert(e.value.cmd, mid, dayLength) == Completed(ts))
  {
    var e := Execute(Leaf(AddOp(name, start, hasStart, length, rigid, at), desc), ts, dayLength);
    if e.Completed? {
      var mid := e.value.tasks;
      assert DeleteTask(mid, |ts|).tasks == ts;
    }
  }

  /** Deleting removes position `i` and records the activity there; undoing
      puts an activity with the same entry back at `i`: a pinned one is
      rebuilt from its start text (so its minute must be the reading of
      that text), any other one is rebuilt as a flexible activity. */
  lemma DeleteRoundTrip(ts: seq<Act>, i: int, name: string, start: string, length: int, rigid: bool, fixed: bool,
                        deleted: bool, desc: string, dayLength: int)
    ensures var e := Execute(Leaf(DeleteOp(i, name, start, length, rigid, fixed, deleted), desc), ts, dayLength);
      && e.Completed?
      && e.value.tasks == DeleteTask(ts, i).tasks
      && Revert(e.value.cmd, e.value.tasks, dayLength).Completed?
      && (!(0 <= i < |ts|) ==> Revert(e.value.cmd, e.value.tasks, dayLength).value == ts)
      && (0 <= i < |ts| && (ts[i].fixed ==> Canonical(ts[i])) ==>
            Entries(Revert(e.value.cmd, e.value.tasks, dayLength).value) == Entries(ts))
  {
    var c := Leaf(DeleteOp(i, name, start, length, rigid, fixed, deleted), desc);
    if 0 <= i < |ts| {
      var t := ts[i];
      var mid := DeleteTask(ts, i).tasks;
      var c' := Leaf(DeleteOp(i, t.name, t.startStr, t.length, t.rigid, t.fixed, true), "Delete task '" + t.name + "'");
      assert Execute(c, ts, dayLength) == Completed(Done(c', mid));
      RestoreDeleted(ts, i, dayLength);
    } else {
      assert Execute(c, ts, dayLength) == Completed(Done(Leaf(DeleteOp(i, name, start, length, rigid, fixed, false), desc), ts));
    }
  }

  lemma RestoreDeleted(ts: seq<Act>, i: int, dayLength: int)
    requires 0 <= i < |ts|
    ensures var t := ts[i];
      var back := RevertOp(DeleteOp(i, t.name, t.startStr, t.length, t.rigid, t.fixed, true), DeleteTask(ts, i).tasks, dayLength);
      back.Completed? && ((t.fixed ==> Canonical(t)) ==> Entries(back.value) == Entries(ts))
  {
    var t := ts[i];
    if t.fixed && Canonical(t) {
      RestoreFixed(ts, i, dayLength);
    } else if !t.fixed {
      RestoreFlexible(ts, i, dayLength);
    }
  }

  lemma RestoreFixed(ts: seq<Act>, i: int, dayLength: int)
    requires 0 <= i < |ts| && ts[i].fixed && Canonical(ts[i])
    ensures var t := ts[i];
      var back := RevertOp(DeleteOp(i, t.name, t.startStr, t.length, t.rigid, t.fixed, true), DeleteTask(ts, i).tasks, dayLength);
      back.Completed? && Entries(back.value) == Entries(ts)
  {
    var t := ts[i];
    var mid := DeleteTask(ts, i).tasks;
    InsertUndoesDelete(ts, i);
    var a := RebuiltFixed(t);
    assert InsertFixedTask(mid, i, t.name, t.startStr, t.length, t.rigid) == Ok(InsertTaskAt(mid, i, a));
    SameEntriesAt(mid, i, a, t);
  }

  lemma RestoreFlexible(ts: seq<Act>, i: int, dayLength: int)
    requires 0 <= i < |ts| && !ts[i].fixed
    ensures var t := ts[i];
      var back := RevertOp(DeleteOp(i, t.name, t.startStr, t.length, t.rigid, t.fixed, true), DeleteTask(ts, i).tasks, dayLength);
      back.Completed? && Entries(back.value) == Entries(ts)
  {
    var t := ts[i];
    var mid := DeleteTask(ts, i).tasks;
    var a := NewFlexible(t.name, t.length, t.rigid);
    assert RevertOp(DeleteOp(i, t.name, t.startStr, t.length, t.rigid, t.fixed, true), mid, dayLength)
      == Completed(InsertTaskAt(mid, i, a));
    FlexibleEntries(ts, i);
  }

  lemma FlexibleEntries(ts: seq<Act>, i: int)
    requires 0 <= i < |ts| && !ts[i].fixed
    ensures var t := ts[i];
      Entries(InsertTaskAt(DeleteTask(ts, i).tasks, i, NewFlexible(t.name, t.length, t.rigid))) == Entries(ts)
  {
    var t := ts[i];
    var mid := DeleteTask(ts, i).tasks;
    InsertUndoesDelete(ts, i);
    var a := NewFlexible(t.name, t.length, t.rigid);
    assert EntryOf(a) == EntryOf(t);
    SameEntriesAt(mid, i, a, t);
  }

  /** A pinned activity whose minute is the reading of its text is rebuilt
      by the fixed constructor with the same entry. */
  lemma RebuiltFixed(t: Act) returns (a: Act)
    requires t.fixed && Canonical(t)
    ensures t.startStr != "" && NewFixed(t.name, t.startStr, t.length, t.rigid) == Ok(a)
    ensures EntryOf(a) == EntryOf(t)
  {
    assert ':' in t.startStr;
    a := NewFixed(t.name, t.startStr, t.length, t.rigid).value;
  }

  /** Inserting activities with the same entry gives lists with the same
      entries. */
  lemma SameEntriesAt(ts: seq<Act>, i: int, a: Act, b: Act)
    requires 0 <= i <= |ts| && EntryOf(a) == EntryOf(b)
    ensures Entries(InsertTaskAt(ts, i, a)) == Entries(InsertTaskAt(ts, i, b))
  {
    var x := Entries(InsertTaskAt(ts, i, a));
    var y := Entries(InsertTaskAt(ts, i, b));
    assert forall j :: 0 <= j < |x| ==> x[j] == y[j];
  }

  /** Renaming writes the new name and recalculates; undoing writes the
      recorded old name and recalculates, which gives back every entry
      when the old name was the name in the list. */
  lemma EditNameRoundTrip(ts: seq<Act>, i: int, oldName: string, newName: string, executed: bool, desc: string, dayLength: int)
    ensures var e := Execute(Leaf(EditNameOp(i, oldName, newName, executed), desc), ts, dayLength);
      && e.Completed? && Revert(e.value.cmd, e.value.tasks, dayLength).Completed?
      && var mid := e.value.tasks;
      && var back := Revert(e.value.cmd, mid, dayLength).value;
      && (0 <= i < |ts| ==>
            && Entries(mid) == Entries(ts)[i := EntryOf(ts[i]).(name := newName)]
            && Entries(back) == Entries(ts)[i := EntryOf(ts[i]).(name := oldName)]
            && (oldName == ts[i].name ==> Entries(back) == Entries(ts)))
      && (!(0 <= i < |ts|) ==> mid == ts && back == ts)
  {
    if 0 <= i < |ts| {
      var a := SetName(ts[i], newName);
      var mid := Recompute(ts[i := a], dayLength);
      EditNameSteps(ts, mid, i, oldName, newName, executed, desc, dayLength);
      RecomputedEdit(ts, i, a, dayLength);
      var b := SetName(mid[i], oldName);
      RecomputedEdit(mid, i, b, dayLength);
      assert EntryOf(mid[i]) == EntryOf(a);
      assert EntryOf(b) == EntryOf(ts[i]).(name := oldName);
      if oldName == ts[i].name {
        assert Entries(ts)[i := EntryOf(ts[i])] == Entries(ts);
      }
    }
  }

  lemma EditNameSteps(ts: seq<Act>, mid: seq<Act>, i: int, oldName: string, newName: string, executed: bool, desc: string, dayLength: int)
    requires 0 <= i < |ts| && 0 <= i < |mid|
    ensures Execute(Leaf(EditNameOp(i, oldName, newName, executed), desc), ts, dayLength)
         == Completed(Done(Leaf(EditNameOp(i, oldName, newName, true), desc), Recompute(ts[i := SetName(ts[i], newName)], dayLength)))
    ensures Revert(Leaf(EditNameOp(i, oldName, newName, true), desc), mid, dayLength) == Completed(Recompute(mid[i := SetName(mid[i], oldName)], dayLength))
  {
    EditNameForward(ts, i, oldName, newName, executed, desc, dayLength);
    EditNameBackward(mid, i, oldName, newName, desc, dayLength);
  }

  lemma EditNameForward(ts: seq<Act>, i: int, oldName: string, newName: string, executed: bool, desc: string, dayLength: int)
    requires 0 <= i < |ts|
    ensures Execute(Leaf(EditNameOp(i, oldName, newName, executed), desc), ts, dayLength)
         == Completed(Done(Leaf(EditNameOp(i, oldName, newName, true), desc), Recompute(ts[i := SetName(ts[i], newName)], dayLength)))
  {
    var op := EditNameOp(i, oldName, newName, executed);
    var r := Completed(Done(Leaf(Executed(op), desc), Recompute(ts[i := SetName(ts[i], newName)], dayLength)));
    assert ExecuteEditName(op, i, newName, desc, ts, dayLength) == r;
    assert Execute(Leaf(op, desc), ts, dayLength) == ExecuteOp(op, desc, ts, dayLength);
  }

  lemma EditNameBackward(mid: seq<Act>, i: int, oldName: string, newName: string, desc: string, dayLength: int)
    requires 0 <= i < |mid|
    ensures Revert(Leaf(EditNameOp(i, oldName, newName, true), desc), mid, dayLength) == Completed(Recompute(mid[i := SetName(mid[i], oldName)], dayLength))
  {
  }


  /** Changing the length writes the new length and recalculates; undoing
      writes the recorded old length back. */
  lemma EditLengthRoundTrip(ts: seq<Act>, i: int, oldLength: int, newLength: int, executed: bool, desc: string, dayLength: int)
    ensures var e := Execute(Leaf(EditLengthOp(i, oldLength, newLength, executed), desc), ts, dayLength);
      && e.Completed? && Revert(e.value.cmd, e.value.tasks, dayLength).Completed?
      && var mid := e.value.tasks;
      && var back := Revert(e.value.cmd, mid, dayLength).value;
      && (0 <= i < |ts| ==>
            && Entries(mid) == Entries(ts)[i := EntryOf(ts[i]).(length := newLength)]
            && Entries(back) == Entries(ts)[i := EntryOf(ts[i]).(length := oldLength)]
            && (oldLength == ts[i].length ==> Entries(back) == Entries(ts)))
      && (!(0 <= i < |ts|) ==> mid == ts && back == ts)
  {
    if 0 <= i < |ts| {
      var a := SetLength(ts[i], newLength);
      var mid := Recompute(ts[i := a], dayLength);
      EditLengthSteps(ts, mid, i, oldLength, newLength, executed, desc, dayLength);
      RecomputedEdit(ts, i, a, dayLength);
      var b := SetLength(mid[i], oldLength);
      RecomputedEdit(mid, i, b, dayLength);
      assert EntryOf(mid[i]) == EntryOf(a);
      assert EntryOf(b) == EntryOf(ts[i]).(length := oldLength);
      if oldLength == ts[i].length {
        assert Entries(ts)[i := EntryOf(ts[i])] == Entries(ts);
      }
    }
  }

  lemma EditLengthSteps(ts: seq<Act>, mid: seq<Act>, i: int, oldLength: int, newLength: int, executed: bool, desc: string, dayLength: int)
    requires 0 <= i < |ts| && 0 <= i < |mid|
    ensures Execute(Leaf(EditLengthOp(i, oldLength, newLength, executed), desc), ts, dayLength)
         == Completed(Done(Leaf(EditLengthOp(i, oldLength, newLength, true), desc), Recompute(ts[i := SetLength(ts[i], newLength)], dayLength)))
    ensures Revert(Leaf(EditLengthOp(i, oldLength, newLength, true), desc), mid, dayLength) == Completed(Recompute(mid[i := SetLength(mid[i], oldLength)], dayLength))
  {
    EditLengthForward(ts, i, oldLength, newLength, executed, desc, dayLength);
    EditLengthBackward(mid, i, oldLength, newLength, desc, dayLength);
  }

  lemma EditLengthForward(ts: seq<Act>, i: int, oldLength: int, newLength: int, executed: bool, desc: string, dayLength: int)
    requires 0 <= i < |ts|
    ensures Execute(Leaf(EditLengthOp(i, oldLength, newLength, executed), desc), ts, dayLength)
         == Completed(Done(Leaf(EditLengthOp(i, oldLength, newLength, true), desc), Recompute(ts[i := SetLength(ts[i], newLength)], dayLength)))
  {
    var op := EditLengthOp(i, oldLength, newLength, executed);
    var r := Completed(Done(Leaf(Executed(op), desc), Recompute(ts[i := SetLength(ts[i], newLength)], dayLength)));
    assert ExecuteEditLength(op, i, newLength, desc, ts, dayLength) == r;
    assert Execute(Leaf(op, desc), ts, dayLength) == ExecuteOp(op, desc, ts, dayLength);
  }

  lemma EditLengthBackward(mid: seq<Act>, i: int, oldLength: int, newLength: int, desc: string, dayLength: int)
    requires 0 <= i < |mid|
    ensures Revert(Leaf(EditLengthOp(i, oldLength, newLength, true), desc), mid, dayLength) == Completed(Recompute(mid[i := SetLength(mid[i], oldLength)], dayLength))
  {
  }


  /** Toggling rigid flips the flag and recalculates; undoing sets the
      recorded old flag. */
  lemma ToggleRigidRoundTrip(ts: seq<Act>, i: int, oldRigid: bool, executed: bool, desc: string, dayLength: int)
    ensures var e := Execute(Leaf(ToggleRigidOp(i, oldRigid, executed), desc), ts, dayLength);
      && e.Completed? && Revert(e.value.cmd, e.value.tasks, dayLength).Completed?
      && var mid := e.value.tasks;
      && var back := Revert(e.value.cmd, mid, dayLength).value;
      && (0 <= i < |ts| ==>
            && Entries(mid) == Entries(ts)[i := EntryOf(ts[i]).(rigid := !ts[i].rigid)]
            && Entries(back) == Entries(ts)[i := EntryOf(ts[i]).(rigid := oldRigid)]
            && (oldRigid == ts[i].rigid ==> Entries(back) == Entries(ts)))
      && (!(0 <= i < |ts|) ==> mid == ts && back == ts)
  {
    if 0 <= i < |ts| {
      var a := SetRigid(ts[i], !ts[i].rigid);
      var mid := Recompute(ts[i := a], dayLength);
      ToggleRigidSteps(ts, mid, i, oldRigid, executed, desc, dayLength);
      RecomputedEdit(ts, i, a, dayLength);
      var b := SetRigid(mid[i], oldRigid);
      RecomputedEdit(mid, i, b, dayLength);
      assert EntryOf(mid[i]) == EntryOf(a);
      assert EntryOf(b) == EntryOf(ts[i]).(rigid := oldRigid);
      if oldRigid == ts[i].rigid {
        assert Entries(ts)[i := EntryOf(ts[i])] == Entries(ts);
      }
    }
  }

  lemma ToggleRigidSteps(ts: seq<Act>, mid: seq<Act>, i: int, oldRigid: bool, executed: bool, desc: string, dayLength: int)
    requires 0 <= i < |ts| && 0 <= i < |mid|
    ensures Execute(Leaf(ToggleRigidOp(i, oldRigid, executed), desc), ts, dayLength)
         == Completed(Done(Leaf(ToggleRigidOp(i, oldRigid, true), desc), Recompute(ts[i := SetRigid(ts[i], !ts[i].rigid)], dayLength)))
    ensures Revert(Leaf(ToggleRigidOp(i, oldRigid, true), desc), mid, dayLength) == Completed(Recompute(mid[i := SetRigid(mid[i], oldRigid)], dayLength))
  {
    ToggleRigidForward(ts, i, oldRigid, executed, desc, dayLength);
    ToggleRigidBackward(mid, i, oldRigid, desc, dayLength);
  }

  lemma ToggleRigidForward(ts: seq<Act>, i: int, oldRigid: bool, executed: bool, desc: string, dayLength: int)
    requires 0 <= i < |ts|
    ensures Execute(Leaf(ToggleRigidOp(i, oldRigid, executed), desc), ts, dayLength)
         == Completed(Done(Leaf(ToggleRigidOp(i, oldRigid, true), desc), Recompute(ts[i := SetRigid(ts[i], !ts[i].rigid)], dayLength)))
  {
    var op := ToggleRigidOp(i, oldRigid, executed);
    var r := Completed(Done(Leaf(Executed(op), desc), Recompute(ts[i := SetRigid(ts[i], !ts[i].rigid)], dayLength)));
    assert ExecuteToggleRigid(op, i, desc, ts, dayLength) == r;
    assert Execute(Leaf(op, desc), ts, dayLength) == ExecuteOp(op, desc, ts, dayLength);
  }

  lemma ToggleRigidBackward(mid: seq<Act>, i: int, oldRigid: bool, desc: string, dayLength: int)
    requires 0 <= i < |mid|
    ensures Revert(Leaf(ToggleRigidOp(i, oldRigid, true), desc), mid, dayLength) == Completed(Recompute(mid[i := SetRigid(mid[i], oldRigid)], dayLength))
  {
  }


  /** Toggling fixed flips the flag and recalculates; undoing sets the
      recorded old flag on the activity as the recalculation left it. So
      un-pinning is undone exactly, but undoing the un-pinning of a pinned
      activity pins it at the start the recalculation gave it, not at its
      old start. */
  lemma ToggleFixedRoundTrip(ts: seq<Act>, i: int, oldFixed: bool, executed: bool, desc: string, dayLength: int)
    ensures var e := Execute(Leaf(ToggleFixedOp(i, oldFixed, executed), desc), ts, dayLength);
      && e.Completed? && Revert(e.value.cmd, e.value.tasks, dayLength).Completed?
      && var mid := e.value.tasks;
      && var back := Revert(e.value.cmd, mid, dayLength).value;
      && (0 <= i < |ts| ==>
            && Entries(mid) == Entries(ts)[i := EntryOf(ToggleFixed(ts[i]))]
            && (!oldFixed ==> Entries(back) == Entries(ts)[i := EntryOf(ts[i]).(anchor := None)])
            && (oldFixed ==> Entries(back) == Entries(ts)[i := EntryOf(ts[i]).(anchor := Some((mid[i].startStr, mid[i].startInt)))])
            && (oldFixed == ts[i].fixed && !ts[i].fixed ==> Entries(back) == Entries(ts)))
      && (!(0 <= i < |ts|) ==> mid == ts && back == ts)
  {
    if 0 <= i < |ts| {
      var a := ToggleFixed(ts[i]);
      var mid := Recompute(ts[i := a], dayLength);
      ToggleFixedSteps(ts, mid, i, oldFixed, executed, desc, dayLength);
      RecomputedEdit(ts, i, a, dayLength);
      var b := mid[i].(fixed := oldFixed);
      RecomputedEdit(mid, i, b, dayLength);
      assert EntryOf(mid[i]) == EntryOf(a);
      if oldFixed == ts[i].fixed && !ts[i].fixed {
        assert Entries(ts)[i := EntryOf(ts[i])] == Entries(ts);
      }
    }
  }

  lemma ToggleFixedSteps(ts: seq<Act>, mid: seq<Act>, i: int, oldFixed: bool, executed: bool, desc: string, dayLength: int)
    requires 0 <= i < |ts| && 0 <= i < |mid|
    ensures Execute(Leaf(ToggleFixedOp(i, oldFixed, executed), desc), ts, dayLength)
         == Completed(Done(Leaf(ToggleFixedOp(i, oldFixed, true), desc), Recompute(ts[i := ToggleFixed(ts[i])], dayLength)))
    ensures Revert(Leaf(ToggleFixedOp(i, oldFixed, true), desc), mid, dayLength) == Completed(Recompute(mid[i := mid[i].(fixed := oldFixed)], dayLength))
  {
    ToggleFixedForward(ts, i, oldFixed, executed, desc, dayLength);
    ToggleFixedBackward(mid, i, oldFixed, desc, dayLength);
  }

  lemma ToggleFixedForward(ts: seq<Act>, i: int, oldFixed: bool, executed: bool, desc: string, dayLength: int)
    requires 0 <= i < |ts|
    ensures Execute(Leaf(ToggleFixedOp(i, oldFixed, executed), desc), ts, dayLength)
         == Completed(Done(Leaf(ToggleFixedOp(i, oldFixed, true), desc), Recompute(ts[i := ToggleFixed(ts[i])], dayLength)))
  {
    var op := ToggleFixedOp(i, oldFixed, executed);
    var r := Completed(Done(Leaf(Executed(op), desc), Recompute(ts[i := ToggleFixed(ts[i])], dayLength)));
    assert ExecuteToggleFixed(op, i, desc, ts, dayLength) == r;
    assert Execute(Leaf(op, desc), ts, dayLength) == ExecuteOp(op, desc, ts, dayLength);
  }

  lemma ToggleFixedBackward(mid: seq<Act>, i: int, oldFixed: bool, desc: string, dayLength: int)
    requires 0 <= i < |mid|
    ensures Revert(Leaf(ToggleFixedOp(i, oldFixed, true), desc), mid, dayLength) == Completed(Recompute(mid[i := mid[i].(fixed := oldFixed)], dayLength))
  {
  }

  /** The entry of an activity put into a state: pinned at the given text
      when one is given and `fixed` asks for it, flexible when not. */
  function StateEntry(a: Act, start: string, fixed: bool): Entry
    requires start != "" ==> ParseTime(start).Ok?
  {
    Entry(a.name, a.length, a.rigid,
      if !fixed then None
      else if start == "" then Some((a.startStr, a.startInt))
      else Some((start, ParseTime(start).value)))
  }

  lemma SetStateEntry(a: Act, start: string, fixed: bool)
    requires SetState(a, start, fixed).Ok?
    ensures EntryOf(SetState(a, start, fixed).value) == StateEntry(a, start, fixed)
  {
  }

  /** Editing the start pins the activity at the new text, or makes it
      flexible for an empty text, and throws (changing nothing) on a text
      `Act` rejects. */
  lemma EditStartExecute(ts: seq<Act>, i: int, oldStart: string, newStart: string, oldFixed: bool, newFixed: bool,
                         executed: bool, desc: string, dayLength: int)
    requires 0 <= i < |ts|
    ensures var e := Execute(Leaf(EditStartOp(i, oldStart, newStart, oldFixed, newFixed, executed), desc), ts, dayLength);
      && (e.Raised? <==> newStart != "" && ParseTime(newStart).Err?)
      && (e.Raised? ==> e.partial == ts)
      && (e.Completed? ==>
            && e.value.cmd == Leaf(EditStartOp(i, oldStart, newStart, oldFixed, newFixed, true), desc)
            && Entries(e.value.tasks) == Entries(ts)[i := StateEntry(ts[i], newStart, newStart != "")])
  {
    if SetState(ts[i], newStart, newStart != "").Ok? {
      var a := EditStartForward(ts, i, oldStart, newStart, oldFixed, newFixed, executed, desc, dayLength);
      SetStateEntry(ts[i], newStart, newStart != "");
      RecomputedEdit(ts, i, a, dayLength);
    } else {
      var op := EditStartOp(i, oldStart, newStart, oldFixed, newFixed, executed);
      assert ExecuteEditStart(op, i, newStart, desc, ts, dayLength) == Raised(ts);
    }
  }

  /** A start edit whose new state `Act` accepts: the activity in that state,
      then the recalculation. */
  lemma EditStartForward(ts: seq<Act>, i: int, oldStart: string, newStart: string, oldFixed: bool, newFixed: bool,
                         executed: bool, desc: string, dayLength: int) returns (a: Act)
    requires 0 <= i < |ts| && SetState(ts[i], newStart, newStart != "").Ok?
    ensures SetState(ts[i], newStart, newStart != "") == Ok(a)
    ensures Execute(Leaf(EditStartOp(i, oldStart, newStart, oldFixed, newFixed, executed), desc), ts, dayLength)
         == Completed(Done(Leaf(EditStartOp(i, oldStart, newStart, oldFixed, newFixed, true), desc), Recompute(ts[i := a], dayLength)))
  {
    a := SetState(ts[i], newStart, newStart != "").value;
    var op := EditStartOp(i, oldStart, newStart, oldFixed, newFixed, executed);
    assert ExecuteEditStart(op, i, newStart, desc, ts, dayLength)
        == Completed(Done(Leaf(Executed(op), desc), Recompute(ts[i := a], dayLength)));
    assert Execute(Leaf(op, desc), ts, dayLength) == ExecuteOp(op, desc, ts, dayLength);
  }

  /** Undoing a start edit whose old state `Act` accepts. */
  lemma EditStartBackward(ts: seq<Act>, i: int, oldStart: string, newStart: string, oldFixed: bool, newFixed: bool,
                          desc: string, dayLength: int) returns (b: Act)
    requires 0 <= i < |ts| && SetState(ts[i], oldStart, oldFixed).Ok?
    ensures SetState(ts[i], oldStart, oldFixed) == Ok(b)
    ensures Revert(Leaf(EditStartOp(i, oldStart, newStart, oldFixed, newFixed, true), desc), ts, dayLength)
         == Completed(Recompute(ts[i := b], dayLength))
  {
    b := SetState(ts[i], oldStart, oldFixed).value;
    var op := EditStartOp(i, oldStart, newStart, oldFixed, newFixed, true);
    UndoEditStartOk(ts, i, oldStart, oldFixed, b, dayLength);
    assert RevertOp(op, ts, dayLength) == UndoEditStart(i, oldStart, oldFixed, true, ts, dayLength);
    RevertLeaf(op, desc, ts, dayLength);
  }

  lemma UndoEditStartOk(ts: seq<Act>, i: int, oldStart: string, oldFixed: bool, b: Act, dayLength: int)
    requires 0 <= i < |ts| && SetState(ts[i], oldStart, oldFixed) == Ok(b)
    ensures UndoEditStart(i, oldStart, oldFixed, true, ts, dayLength) == Completed(Recompute(ts[i := b], dayLength))
  {
  }

  lemma RevertLeaf(op: Op, desc: string, ts: seq<Act>, dayLength: int)
    ensures Revert(Leaf(op, desc), ts, dayLength) == RevertOp(op, ts, dayLength)
  {
  }

  /** Undoing a start edit puts back the recorded old text and flag, and
      throws (changing nothing) on an old text `Act` rejects. */
  lemma EditStartRevert(ts: seq<Act>, i: int, oldStart: string, newStart: string, oldFixed: bool, newFixed: bool,
                        desc: string, dayLength: int)
    requires 0 <= i < |ts|
    ensures var r := Revert(Leaf(EditStartOp(i, oldStart, newStart, oldFixed, newFixed, true), desc), ts, dayLength);
      && (r.Raised? <==> oldStart != "" && ParseTime(oldStart).Err?)
      && (r.Raised? ==> r.partial == ts)
      && (r.Completed? ==> Entries(r.value) == Entries(ts)[i := StateEntry(ts[i], oldStart, oldFixed)])
  {
    if SetState(ts[i], oldStart, oldFixed).Ok? {
      var b := EditStartBackward(ts, i, oldStart, newStart, oldFixed, newFixed, desc, dayLength);
      RecomputedEdit(ts, i, b, dayLength);
      SetStateEntry(ts[i], oldStart, oldFixed);
    } else {
      EditStartRevertRaises(ts, i, oldStart, newStart, oldFixed, newFixed, desc, dayLength);
    }
  }

  /** Undoing a start edit whose old state `Act` rejects. */
  lemma EditStartRevertRaises(ts: seq<Act>, i: int, oldStart: string, newStart: string, oldFixed: bool, newFixed: bool,
                              desc: string, dayLength: int)
    requires 0 <= i < |ts| && SetState(ts[i], oldStart, oldFixed).Err?
    ensures Revert(Leaf(EditStartOp(i, oldStart, newStart, oldFixed, newFixed, true), desc), ts, dayLength) == Raised(ts)
  {
    var op := EditStartOp(i, oldStart, newStart, oldFixed, newFixed, true);
    assert UndoEditStart(i, oldStart, oldFixed, true, ts, dayLength) == Raised(ts);
    assert RevertOp(op, ts, dayLength) == UndoEditStart(i, oldStart, oldFixed, true, ts, dayLength);
    assert Revert(Leaf(op, desc), ts, dayLength) == RevertOp(op, ts, dayLength);
  }

  /** When the recorded old text and flag are the activity's own and its
      minute is the reading of its text, undo after a successful start
      edit gives back every entry. */
  lemma EditStartRoundTrip(ts: seq<Act>, i: int, newStart: string, newFixed: bool, executed: bool, desc: string, dayLength: int)
    requires 0 <= i < |ts| && Restorable(ts[i])
    requires newStart != "" ==> ParseTime(newStart).Ok?
    ensures var e := Execute(Leaf(EditStartOp(i, ts[i].startStr, newStart, ts[i].fixed, newFixed, executed), desc), ts, dayLength);
      && e.Completed? && Revert(e.value.cmd, e.value.tasks, dayLength).Completed?
      && Entries(Revert(e.value.cmd, e.value.tasks, dayLength).value) == Entries(ts)
  {
    var t := ts[i];
    var a := EditStartForward(ts, i, t.startStr, newStart, t.fixed, newFixed, executed, desc, dayLength);
    var mid := Recompute(ts[i := a], dayLength);
    RecomputedEdit(ts, i, a, dayLength);
    forall k | 0 <= k < |ts| && k != i
      ensures EntryOf(mid[k]) == EntryOf(ts[k])
    {
      assert Entries(mid)[k] == Entries(ts)[k];
    }
    assert EntryOf(mid[i]) == EntryOf(a);
    EditStartUndone(ts, mid, i, newStart, newFixed, desc, dayLength);
  }

  /** The undo half of EditStartRoundTrip, on any list whose entries other
      than `i` are those of `ts` and whose activity `i` has the name, length
      and rigidity of `ts[i]`. */
  lemma EditStartUndone(ts: seq<Act>, mid: seq<Act>, i: int, newStart: string, newFixed: bool, desc: string, dayLength: int)
    requires 0 <= i < |ts| == |mid| && Restorable(ts[i])
    requires forall k :: 0 <= k < |ts| && k != i ==> EntryOf(mid[k]) == EntryOf(ts[k])
    requires mid[i].name == ts[i].name && mid[i].length == ts[i].length && mid[i].rigid == ts[i].rigid
    ensures var r := Revert(Leaf(EditStartOp(i, ts[i].startStr, newStart, ts[i].fixed, newFixed, true), desc), mid, dayLength);
      r.Completed? && Entries(r.value) == Entries(ts)
  {
    var t := ts[i];
    var b := RestoredEntry(t, mid[i]);
    var b' := EditStartBackward(mid, i, t.startStr, newStart, t.fixed, newFixed, desc, dayLength);
    EntriesReassembled(ts, mid, i, b, dayLength);
  }

  /** Putting one activity back with the entry `ts[i]` had, into a list
      that agrees with `ts` elsewhere, and recalculating, gives back the
      entries of `ts`. */
  lemma EntriesReassembled(ts: seq<Act>, mid: seq<Act>, i: int, b: Act, dayLength: int)
    requires 0 <= i < |ts| == |mid| && EntryOf(b) == EntryOf(ts[i])
    requires forall k :: 0 <= k < |ts| && k != i ==> EntryOf(mid[k]) == EntryOf(ts[k])
    ensures Entries(Recompute(mid[i := b], dayLength)) == Entries(ts)
  {
    RecomputedEdit(mid, i, b, dayLength);
    assert Entries(mid)[i := EntryOf(b)] == Entries(ts);
  }

  /** An activity whose start text parses, and whose minute is the reading
      of that text when it is pinned: the state an undo puts back from the
      recorded text and flag has the same entry. Every activity the
      constructors and `setStartTime` make is one; one placed past
      midnight by the engine and then pinned is not (NotRestorablePastMidnight). */
  predicate Restorable(a: Act)
  {
    WellFormed(a) && (a.fixed ==> Canonical(a))
  }

  lemma CanonicalRestorable(a: Act)
    requires Canonical(a)
    ensures Restorable(a)
  {
  }

  /** The activity's own start text and flag, put back on an activity with
      its name, length and rigidity, give back its entry. */
  lemma RestoredEntry(t: Act, m: Act) returns (b: Act)
    requires Restorable(t)
    requires m.name == t.name && m.length == t.length && m.rigid == t.rigid
    ensures SetState(m, t.startStr, t.fixed) == Ok(b)
    ensures EntryOf(b) == EntryOf(t)
  {
    StartRestores(t, m);
    b := SetState(m, t.startStr, t.fixed).value;
    SetStateEntry(m, t.startStr, t.fixed);
  }

  lemma StartRestores(t: Act, m: Act)
    requires Restorable(t)
    requires m.name == t.name && m.length == t.length && m.rigid == t.rigid
    ensures SetState(m, t.startStr, t.fixed).Ok?
    ensures StateEntry(m, t.startStr, t.fixed) == EntryOf(t)
  {
    assert ':' in t.startStr;
  }

  /** An activity the engine starts past midnight and the user then pins
      keeps the unwrapped minute, which its start text cannot give back. */
  lemma NotRestorablePastMidnight(a: Act, m: int)
    requires m >= 1440
    ensures !Restorable(ToggleFixed(SetStartTimeInt(a.(fixed := false), m)))
  {
  }

  /** Moving up unpins the activity and swaps it with its predecessor; the
      move always happens for an index past the first. */
  lemma MoveUpExecute(ts: seq<Act>, i: int, wasFixed: bool, executed: bool, desc: string, dayLength: int)
    requires 0 < i < |ts|
    ensures var e := Execute(Leaf(MoveUpOp(i, wasFixed, executed), desc), ts, dayLength);
      && e.Completed? && e.value.cmd == Leaf(MoveUpOp(i, wasFixed, true), desc)
      && Entries(e.value.tasks) == Swap(Entries(ts), i, i - 1)[i - 1 := EntryOf(Unpinned(ts[i]))]
  {
    var loose := ts[i := Unpinned(ts[i])];
    var moved := MoveTaskUp(loose, i);
    assert moved.done;
    var mid := Recompute(moved.tasks, dayLength);
    assert ExecuteOp(MoveUpOp(i, wasFixed, executed), desc, ts, dayLength)
        == Completed(Done(Leaf(MoveUpOp(i, wasFixed, true), desc), mid));
    RecomputeKeepsEntries(moved.tasks, dayLength);
    SwapUpdated(ts, i, i - 1, Unpinned(ts[i]));
  }

  /** The entries of a list with activity `i` replaced and then swapped
      with `j`. */
  lemma SwapUpdated(ts: seq<Act>, i: nat, j: nat, a: Act)
    requires i < |ts| && j < |ts| && i != j
    ensures Entries(Swap(ts[i := a], i, j)) == Swap(Entries(ts), i, j)[j := EntryOf(a)]
  {
    var l := Entries(Swap(ts[i := a], i, j));
    var r := Swap(Entries(ts), i, j)[j := EntryOf(a)];
    forall k | 0 <= k < |ts|
      ensures l[k] == r[k]
    {
    }
    assert l == r;
  }

  /** The entries of a list with `i` and `j` swapped and the activity now
      at `j` pinned again when it was pinned. */
  lemma RepinnedEntries(ts: seq<Act>, i: nat, j: nat, wasFixed: bool)
    requires i < |ts| && j < |ts| && i != j
    ensures Entries(Repinned(Swap(ts, i, j), j, wasFixed)) == Swap(Entries(ts), i, j)[j := EntryOf(if wasFixed then Pinned(ts[i]) else ts[i])]
  {
    var l := Entries(Repinned(Swap(ts, i, j), j, wasFixed));
    var r := Swap(Entries(ts), i, j)[j := EntryOf(if wasFixed then Pinned(ts[i]) else ts[i])];
    forall k | 0 <= k < |ts|
      ensures l[k] == r[k]
    {
    }
    assert l == r;
  }

  /** Undoing a move up swaps the activity back down and pins it again,
      where it now stands, when it had been pinned. */
  lemma MoveUpRevert(ts: seq<Act>, i: int, wasFixed: bool, desc: string, dayLength: int)
    requires 0 < i < |ts|
    ensures var r := Revert(Leaf(MoveUpOp(i, wasFixed, true), desc), ts, dayLength);
      && r.Completed?
      && Entries(r.value) == Swap(Entries(ts), i - 1, i)[i := EntryOf(if wasFixed then Pinned(ts[i - 1]) else ts[i - 1])]
  {
    var back := Repinned(Swap(ts, i - 1, i), i, wasFixed);
    MoveUpReverts(ts, i, wasFixed, desc, dayLength);
    RecomputeKeepsEntries(back, dayLength);
    RepinnedEntries(ts, i - 1, i, wasFixed);
  }

  lemma MoveUpReverts(ts: seq<Act>, i: int, wasFixed: bool, desc: string, dayLength: int)
    requires 0 < i < |ts|
    ensures Revert(Leaf(MoveUpOp(i, wasFixed, true), desc), ts, dayLength)
         == Completed(Recompute(Repinned(Swap(ts, i - 1, i), i, wasFixed), dayLength))
  {
    UndoMoveUpSwaps(ts, i, wasFixed, dayLength);
  }

  lemma UndoMoveUpSwaps(ts: seq<Act>, i: int, wasFixed: bool, dayLength: int)
    requires 0 < i < |ts|
    ensures UndoMoveUp(i, wasFixed, true, ts, dayLength) == Recompute(Repinned(Swap(ts, i - 1, i), i, wasFixed), dayLength)
  {
    assert MoveTaskDown(ts, i - 1) == Change(true, Swap(ts, i - 1, i));
  }

  /** Move up and undo: every other activity is as it was, and the moved
      one comes back with its name, length and rigidity; when it was
      pinned it is pinned again at the start it had one place up, so the
      list comes back whole exactly when it was not pinned. */
  lemma MoveUpRoundTrip(ts: seq<Act>, i: int, executed: bool, desc: string, dayLength: int)
    requires 0 < i < |ts|
    ensures var e := Execute(Leaf(MoveUpOp(i, ts[i].fixed, executed), desc), ts, dayLength);
      && e.Completed? && Revert(e.value.cmd, e.value.tasks, dayLength).Completed?
      && var mid, back := e.value.tasks, Revert(e.value.cmd, e.value.tasks, dayLength).value;
      && |back| == |ts|
      && (forall k :: 0 <= k < |ts| && k != i ==> EntryOf(back[k]) == EntryOf(ts[k]))
      && EntryOf(back[i]) == EntryOf(ts[i]).(anchor := if ts[i].fixed then Some((mid[i - 1].startStr, mid[i - 1].startInt)) else None)
      && (!ts[i].fixed ==> Entries(back) == Entries(ts))
  {
    var t := ts[i];
    MoveUpExecute(ts, i, t.fixed, executed, desc, dayLength);
    var e := Execute(Leaf(MoveUpOp(i, t.fixed, executed), desc), ts, dayLength);
    var mid := e.value.tasks;
    MoveUpRevert(mid, i, t.fixed, desc, dayLength);
    var back := Revert(e.value.cmd, mid, dayLength).value;
    assert Entries(back)[i] == EntryOf(if t.fixed then Pinned(mid[i - 1]) else mid[i - 1]);
    assert Entries(mid)[i - 1] == EntryOf(Unpinned(t));
    forall k | 0 <= k < |ts| && k != i
      ensures EntryOf(back[k]) == EntryOf(ts[k])
    {
      assert Entries(back)[k] == Entries(ts)[k];
    }
    if !t.fixed {
      assert Entries(back) == Entries(ts);
    }
  }

  /** Moving down unpins the activity and swaps it with its successor; the
      move always happens for an index before the last. */
  lemma MoveDownExecute(ts: seq<Act>, i: int, wasFixed: bool, executed: bool, desc: string, dayLength: int)
    requires 0 <= i < |ts| - 1
    ensures var e := Execute(Leaf(MoveDownOp(i, wasFixed, executed), desc), ts, dayLength);
      && e.Completed? && e.value.cmd == Leaf(MoveDownOp(i, wasFixed, true), desc)
      && Entries(e.value.tasks) == Swap(Entries(ts), i, i + 1)[i + 1 := EntryOf(Unpinned(ts[i]))]
  {
    var loose := ts[i := Unpinned(ts[i])];
    var moved := MoveTaskDown(loose, i);
    assert moved.done;
    var mid := Recompute(moved.tasks, dayLength);
    assert ExecuteOp(MoveDownOp(i, wasFixed, executed), desc, ts, dayLength)
        == Completed(Done(Leaf(MoveDownOp(i, wasFixed, true), desc), mid));
    RecomputeKeepsEntries(moved.tasks, dayLength);
    SwapUpdated(ts, i, i + 1, Unpinned(ts[i]));
  }

  /** Undoing a move down swaps the activity back up and pins it again,
      where it now stands, when it had been pinned. */
  lemma MoveDownRevert(ts: seq<Act>, i: int, wasFixed: bool, desc: string, dayLength: int)
    requires 0 <= i < |ts| - 1
    ensures var r := Revert(Leaf(MoveDownOp(i, wasFixed, true), desc), ts, dayLength);
      && r.Completed?
      && Entries(r.value) == Swap(Entries(ts), i + 1, i)[i := EntryOf(if wasFixed then Pinned(ts[i + 1]) else ts[i + 1])]
  {
    var back := Repinned(Swap(ts, i + 1, i), i, wasFixed);
    MoveDownReverts(ts, i, wasFixed, desc, dayLength);
    RecomputeKeepsEntries(back, dayLength);
    RepinnedEntries(ts, i + 1, i, wasFixed);
  }

  lemma MoveDownReverts(ts: seq<Act>, i: int, wasFixed: bool, desc: string, dayLength: int)
    requires 0 <= i < |ts| - 1
    ensures Revert(Leaf(MoveDownOp(i, wasFixed, true), desc), ts, dayLength)
         == Completed(Recompute(Repinned(Swap(ts, i + 1, i), i, wasFixed), dayLength))
  {
    UndoMoveDownSwaps(ts, i, wasFixed, dayLength);
  }

  lemma UndoMoveDownSwaps(ts: seq<Act>, i: int, wasFixed: bool, dayLength: int)
    requires 0 <= i < |ts| - 1
    ensures UndoMoveDown(i, wasFixed, true, ts, dayLength) == Recompute(Repinned(Swap(ts, i + 1, i), i, wasFixed), dayLength)
  {
    assert MoveTaskUp(ts, i + 1) == Change(true, Swap(ts, i + 1, i));
  }

  /** Move down and undo: the mirror image of MoveUpRoundTrip. */
  lemma MoveDownRoundTrip(ts: seq<Act>, i: int, executed: bool, desc: string, dayLength: int)
    requires 0 <= i < |ts| - 1
    ensures var e := Execute(Leaf(MoveDownOp(i, ts[i].fixed, executed), desc), ts, dayLength);
      && e.Completed? && Revert(e.value.cmd, e.value.tasks, dayLength).Completed?
      && var mid, back := e.value.tasks, Revert(e.value.cmd, e.value.tasks, dayLength).value;
      && |back| == |ts|
      && (forall k :: 0 <= k < |ts| && k != i ==> EntryOf(back[k]) == EntryOf(ts[k]))
      && EntryOf(back[i]) == EntryOf(ts[i]).(anchor := if ts[i].fixed then Some((mid[i + 1].startStr, mid[i + 1].startInt)) else None)
      && (!ts[i].fixed ==> Entries(back) == Entries(ts))
  {
    var t := ts[i];
    MoveDownExecute(ts, i, t.fixed, executed, desc, dayLength);
    var e := Execute(Leaf(MoveDownOp(i, t.fixed, executed), desc), ts, dayLength);
    var mid := e.value.tasks;
    MoveDownRevert(mid, i, t.fixed, desc, dayLength);
    var back := Revert(e.value.cmd, mid, dayLength).value;
    assert Entries(back)[i] == EntryOf(if t.fixed then Pinned(mid[i + 1]) else mid[i + 1]);
    assert Entries(mid)[i + 1] == EntryOf(Unpinned(t));
    forall k | 0 <= k < |ts| && k != i
      ensures EntryOf(back[k]) == EntryOf(ts[k])
    {
      assert Entries(back)[k] == Entries(ts)[k];
    }
    if !t.fixed {
      assert Entries(back) == Entries(ts);
    }
  }

  // ---------------------------------------------------------------------
  // Timer start

  /** Starting the timer with the records of the cascade from `i` never
      throws and pins the activity at the clock text of `now`; undoing it
      then gives back every entry, provided every activity can be put back
      from its start text and flag (Restorable). */
  lemma StartTimerRoundTrip(ts: seq<Act>, i: int, now: int, rs: seq<TaskState>, clock: string, desc: string, dayLength: int)
    requires 0 <= now < 1440 && 0 <= i < |ts| && rs == Cascade(ts, i, now) && clock == ClockText(now)
    requires forall j :: 0 <= j < |ts| ==> Restorable(ts[j])
    ensures var e := Execute(Leaf(StartTimerOp(rs, clock, false), desc), ts, dayLength);
      && e.Completed? && Revert(e.value.cmd, e.value.tasks, dayLength).Completed?
      && |e.value.tasks| == |ts| && EntryOf(e.value.tasks[i]).anchor == Some((clock, now))
      && Entries(Revert(e.value.cmd, e.value.tasks, dayLength).value) == Entries(ts)
  {
    CascadeApplies(ts, i, now, rs, clock);
    CascadeRecorded(ts, i, now, rs);
    ClockTextParsesWithin(now);
    TimerRoundTrip(ts, rs, i, clock, now, desc, dayLength);
  }

  lemma CascadeApplies(ts: seq<Act>, i: int, now: int, rs: seq<TaskState>, clock: string)
    requires 0 <= now < 1440 && 0 <= i < |ts| && rs == Cascade(ts, i, now) && clock == ClockText(now)
    ensures ApplyStates(ts, rs, 0, true).Completed?
    ensures |rs| > 0 && rs[0].index == i && rs[0].newStart == clock && rs[0].newFixed
  {
    CascadeFirst(ts, i, now);
    CascadeExecutes(ts, i, now);
  }

  lemma CascadeRecorded(ts: seq<Act>, i: int, now: int, rs: seq<TaskState>)
    requires 0 <= now < 1440 && rs == Cascade(ts, i, now)
    requires forall j :: 0 <= j < |ts| ==> Restorable(ts[j])
    ensures Recorded(rs, ts)
  {
    CascadeShape(ts, i, now);
    if 0 <= i {
      ShapeRecorded(rs, ts, i);
    } else {
      assert rs == [];
    }
  }

  lemma ShapeRecorded(rs: seq<TaskState>, ts: seq<Act>, k: int)
    requires k >= 0
    requires forall j :: 0 <= j < |rs| ==> k <= rs[j].index < |ts|
    requires forall j, j' :: 0 <= j < j' < |rs| ==> rs[j].index < rs[j'].index
    requires forall j :: 0 <= j < |rs| ==> rs[j].oldStart == ts[rs[j].index].startStr && rs[j].oldFixed == ts[rs[j].index].fixed
    requires forall j :: 0 <= j < |ts| ==> Restorable(ts[j])
    ensures Recorded(rs, ts)
  {
    forall x | 0 <= x < |rs|
      ensures Restorable(ts[rs[x].index])
    {
      var j := rs[x].index;
      assert Restorable(ts[j]);
    }
  }

  /** Records in order, inside the list, each with the old start and flag
      of the activity it names, which can be put back from them. */
  predicate Recorded(rs: seq<TaskState>, ts: seq<Act>)
  {
    && Ordered(rs, |ts|)
    && (forall x :: 0 <= x < |rs| ==>
          rs[x].oldStart == ts[rs[x].index].startStr && rs[x].oldFixed == ts[rs[x].index].fixed)
    && (forall x :: 0 <= x < |rs| ==> Restorable(ts[rs[x].index]))
  }

  lemma RecordedStartsParse(rs: seq<TaskState>, ts: seq<Act>)
    requires Recorded(rs, ts)
    ensures TargetsParse(rs, 0, false)
  {
    forall x | 0 <= x < |rs|
      ensures Target(rs[x], false).0 == "" || ParseTime(Target(rs[x], false).0).Ok?
    {
      assert Restorable(ts[rs[x].index]);
    }
  }

  /** The same for any records that describe the list, apply, and start
      with the activity pinned at a clock text that parses. */
  lemma TimerRoundTrip(ts: seq<Act>, rs: seq<TaskState>, i: int, clock: string, now: int, desc: string, dayLength: int)
    requires 0 <= i < |ts| && ParseTime(clock) == Ok(now)
    requires Recorded(rs, ts) && ApplyStates(ts, rs, 0, true).Completed?
    requires |rs| > 0 && rs[0].index == i && rs[0].newStart == clock && rs[0].newFixed
    ensures var e := Execute(Leaf(StartTimerOp(rs, clock, false), desc), ts, dayLength);
      && e.Completed? && Revert(e.value.cmd, e.value.tasks, dayLength).Completed?
      && |e.value.tasks| == |ts| && EntryOf(e.value.tasks[i]).anchor == Some((clock, now))
      && Entries(Revert(e.value.cmd, e.value.tasks, dayLength).value) == Entries(ts)
  {
    TimerPinsTarget(ts, rs, i, clock, now, dayLength);
    var back := TimerReverts(ts, rs, dayLength);
    TimerSteps(ts, rs, clock, desc, dayLength);
  }

  /** The execute and undo of a timer command whose records all apply. */
  lemma TimerSteps(ts: seq<Act>, rs: seq<TaskState>, clock: string, desc: string, dayLength: int)
    requires |rs| > 0 && ApplyStates(ts, rs, 0, true).Completed?
    ensures var mid := Recompute(ApplyStates(ts, rs, 0, true).value, dayLength);
      && Execute(Leaf(StartTimerOp(rs, clock, false), desc), ts, dayLength)
           == Completed(Done(Leaf(StartTimerOp(rs, clock, true), desc), mid))
      && Revert(Leaf(StartTimerOp(rs, clock, true), desc), mid, dayLength) == UndoStartTimer(rs, true, mid, dayLength)
  {
    TimerExecuteStep(ts, rs, ApplyStates(ts, rs, 0, true).value, clock, desc, dayLength);
    TimerRevertStep(Recompute(ApplyStates(ts, rs, 0, true).value, dayLength), rs, clock, desc, dayLength);
  }

  lemma TimerExecuteStep(ts: seq<Act>, rs: seq<TaskState>, v: seq<Act>, clock: string, desc: string, dayLength: int)
    requires |rs| > 0 && ApplyStates(ts, rs, 0, true) == Completed(v)
    ensures Execute(Leaf(StartTimerOp(rs, clock, false), desc), ts, dayLength)
         == Completed(Done(Leaf(StartTimerOp(rs, clock, true), desc), Recompute(v, dayLength)))
  {
    var op := StartTimerOp(rs, clock, false);
    assert ExecuteStartTimer(op, rs, clock, desc, ts, dayLength) == Completed(Done(Leaf(Executed(op), desc), Recompute(v, dayLength)));
    assert Execute(Leaf(op, desc), ts, dayLength) == ExecuteOp(op, desc, ts, dayLength);
  }

  lemma TimerRevertStep(mid: seq<Act>, rs: seq<TaskState>, clock: string, desc: string, dayLength: int)
    ensures Revert(Leaf(StartTimerOp(rs, clock, true), desc), mid, dayLength) == UndoStartTimer(rs, true, mid, dayLength)
  {
  }

  /** The first record pins the target at the clock text of `now`, and the
      recalculation keeps that entry. */
  lemma TimerPinsTarget(ts: seq<Act>, rs: seq<TaskState>, i: int, clock: string, now: int, dayLength: int)
    requires 0 <= i < |ts| && ParseTime(clock) == Ok(now)
    requires Ordered(rs, |ts|) && ApplyStates(ts, rs, 0, true).Completed?
    requires |rs| > 0 && rs[0].index == i && rs[0].newStart == clock && rs[0].newFixed
    ensures EntryOf(Recompute(ApplyStates(ts, rs, 0, true).value, dayLength)[i]).anchor == Some((clock, now))
  {
    var v := ApplyStates(ts, rs, 0, true).value;
    ApplyStatesAt(ts, rs, 0, true, i);
    assert RecordFor(rs, 0, i) == Some(0);
    SetStateEntry(ts[i], clock, true);
    assert EntryOf(v[i]) == StateEntry(ts[i], clock, true);
    RecomputeKeepsEntries(v, dayLength);
    assert Entries(Recompute(v, dayLength))[i] == Entries(v)[i];
  }

  /** The undo loop run on the recalculated list completes and gives back
      the entries the records were taken from. */
  lemma TimerReverts(ts: seq<Act>, rs: seq<TaskState>, dayLength: int) returns (back: seq<Act>)
    requires |rs| > 0 && Recorded(rs, ts) && ApplyStates(ts, rs, 0, true).Completed?
    ensures var mid := Recompute(ApplyStates(ts, rs, 0, true).value, dayLength);
      && ApplyStates(mid, rs, 0, false) == Completed(back)
      && UndoStartTimer(rs, true, mid, dayLength) == Completed(Recompute(back, dayLength))
      && Entries(Recompute(back, dayLength)) == Entries(ts)
  {
    var v := ApplyStates(ts, rs, 0, true).value;
    var mid := Recompute(v, dayLength);
    RecordedStartsParse(rs, ts);
    ApplyCompletes(mid, rs, 0, false);
    back := ApplyStates(mid, rs, 0, false).value;
    RecomputeKeepsEntries(v, dayLength);
    TimerEntriesBack(ts, rs, v, mid);
    RecomputeKeepsEntries(back, dayLength);
  }

  lemma TimerEntriesBack(ts: seq<Act>, rs: seq<TaskState>, v: seq<Act>, mid: seq<Act>)
    requires Recorded(rs, ts)
    requires ApplyStates(ts, rs, 0, true) == Completed(v)
    requires Entries(mid) == Entries(v)
    requires ApplyStates(mid, rs, 0, false).Completed?
    ensures Entries(ApplyStates(mid, rs, 0, false).value) == Entries(ts)
  {
    var back := ApplyStates(mid, rs, 0, false).value;
    forall k | 0 <= k < |ts|
      ensures EntryOf(back[k]) == EntryOf(ts[k])
    {
      assert Entries(mid)[k] == Entries(v)[k];
      TimerRevertsAt(ts, rs, v, mid, k);
    }
    assert Entries(back) == Entries(ts);
  }

  lemma TimerRevertsAt(ts: seq<Act>, rs: seq<TaskState>, v: seq<Act>, mid: seq<Act>, k: int)
    requires Recorded(rs, ts) && 0 <= k < |ts|
    requires ApplyStates(ts, rs, 0, true) == Completed(v)
    requires |mid| == |v| && EntryOf(mid[k]) == EntryOf(v[k])
    requires ApplyStates(mid, rs, 0, false).Completed?
    ensures EntryOf(ApplyStates(mid, rs, 0, false).value[k]) == EntryOf(ts[k])
  {
    ApplyStatesAt(ts, rs, 0, true, k);
    ApplyStatesAt(mid, rs, 0, false, k);
    match RecordFor(rs, 0, k)
    case None =>
    case Some(p) =>
      StartRestores(ts[k], mid[k]);
      SetStateEntry(mid[k], ts[k].startStr, ts[k].fixed);
  }

  // ---------------------------------------------------------------------
  // Command groups

  /** A two-member group runs its first member, then its second on what
      the first left, and keeps both as they came out. */
  lemma GroupExecutesInOrder(a: Command, b: Command, d: string, ts: seq<Act>, dayLength: int, x: Done, y: Done)
    requires Execute(a, ts, dayLength) == Completed(x)
    requires Execute(b, x.tasks, dayLength) == Completed(y)
    ensures Execute(Group([a, b], d), ts, dayLength) == Completed(Done(Group([x.cmd, y.cmd], d), y.tasks))
  {
    var ms := [a, b];
    assert ms[0] == a && ms[1] == b;
    assert [x.cmd] + [y.cmd] == [x.cmd, y.cmd];
    assert [] + [x.cmd] == [x.cmd];
    assert ExecuteMembers(ms, 2, [x.cmd, y.cmd], y.tasks, dayLength) == Completed(([x.cmd, y.cmd], y.tasks));
    assert ExecuteMembers(ms, 1, [x.cmd], x.tasks, dayLength) == Completed(([x.cmd, y.cmd], y.tasks));
    assert ExecuteMembers(ms, 0, [], ts, dayLength) == Completed(([x.cmd, y.cmd], y.tasks));
  }

  /** A two-member group is undone second member first. */
  lemma GroupRevertsInReverse(a: Command, b: Command, d: string, ts: seq<Act>, dayLength: int)
    requires Revert(b, ts, dayLength).Completed?
    ensures Revert(Group([a, b], d), ts, dayLength) == Revert(a, Revert(b, ts, dayLength).value, dayLength)
  {
    var back := Revert(b, ts, dayLength).value;
    assert RevertMembers([a, b], 1, back, dayLength) == match Revert(a, back, dayLength)
      case Raised(p) => Raised(p)
      case Completed(x) => RevertMembers([a, b], 0, x, dayLength);
  }

  /** Member by member from `k`: each one runs through and its undo gives
      back exactly the list it ran on. */
  predicate EachRevertible(ms: seq<Command>, k: nat, ts: seq<Act>, dayLength: int)
    requires k <= |ms|
    decreases |ms| - k
  {
    k == |ms| ||
      (var e := Execute(ms[k], ts, dayLength);
       && e.Completed?
       && Revert(e.value.cmd, e.value.tasks, dayLength) == Completed(ts)
       && EachRevertible(ms, k + 1, e.value.tasks, dayLength))
  }

  /** A group is undone as one unit: when every member's undo gives back
      exactly what that member ran on, undoing the executed group gives
      back exactly the list the group ran on. */
  lemma GroupRoundTrip(ms: seq<Command>, d: string, ts: seq<Act>, dayLength: int)
    requires EachRevertible(ms, 0, ts, dayLength)
    ensures var e := Execute(Group(ms, d), ts, dayLength);
      e.Completed? && Revert(e.value.cmd, e.value.tasks, dayLength) == Completed(ts)
  {
    MembersRoundTrip(ms, 0, [], ts, ts, dayLength);
  }

  lemma {:induction false} MembersRoundTrip(ms: seq<Command>, k: nat, done: seq<Command>, ts: seq<Act>, ts0: seq<Act>, dayLength: int)
    requires k <= |ms| && |done| == k
    requires EachRevertible(ms, k, ts, dayLength)
    requires RevertMembers(done, k, ts, dayLength) == Completed(ts0)
    ensures var r := ExecuteMembers(ms, k, done, ts, dayLength);
      r.Completed? && RevertMembers(r.value.0, |ms|, r.value.1, dayLength) == Completed(ts0)
    decreases |ms| - k
  {
    if k < |ms| {
      var e := Execute(ms[k], ts, dayLength).value;
      var done' := done + [e.cmd];
      RevertMembersPrefix(done', done, k, ts, dayLength);
      assert RevertMembers(done', k + 1, e.tasks, dayLength) == RevertMembers(done', k, ts, dayLength);
      MembersRoundTrip(ms, k + 1, done', e.tasks, ts0, dayLength);
    }
  }

  /** Undoing the first `k` members reads only those members. */
  lemma {:induction false} RevertMembersPrefix(ms: seq<Command>, ns: seq<Command>, k: nat, ts: seq<Act>, dayLength: int)
    requires k <= |ms| && k <= |ns| && ms[..k] == ns[..k]
    ensures RevertMembers(ms, k, ts, dayLength) == RevertMembers(ns, k, ts, dayLength)
    decreases k
  {
    if k > 0 {
      assert ms[k - 1] == ms[..k][k - 1] == ns[k - 1];
      assert ms[..k - 1] == ms[..k][..k - 1];
      assert ns[..k - 1] == ns[..k][..k - 1];
      match Revert(ms[k - 1], ts, dayLength)
      case Raised(_) =>
      case Completed(back) => RevertMembersPrefix(ms, ns, k - 1, back, dayLength);
    }
  }

  // ---------------------------------------------------------------------
  // Undo read at the level of entries

  /** The undo of these command kinds reads nothing of the list but its
      entries. Left out are the flag flip and the moves (which pin again
      at the start the engine computed), the timer (which writes back
      recorded states), and a start edit whose undo re-pins without a
      text (which keeps whatever start the activity has). */
  predicate OpEntryFaithful(op: Op)
  {
    || op.AddOp? || op.DeleteOp? || op.EditNameOp? || op.EditLengthOp? || op.ToggleRigidOp?
    || (op.EditStartOp? && (op.oldStart != "" || !op.oldFixed))
  }

  predicate EntryFaithful(c: Command)
    decreases c
  {
    match c
    case Leaf(op, _) => OpEntryFaithful(op)
    case Group(ms, _) => forall k | 0 <= k < |ms| :: EntryFaithful(ms[k])
  }

  /** Two undo outcomes agree on whether they threw and on the entries of
      the list each left behind. */
  predicate SameEntriesOutcome(x: Attempt<seq<Act>, seq<Act>>, y: Attempt<seq<Act>, seq<Act>>)
  {
    && x.Completed? == y.Completed?
    && (x.Completed? ==> Entries(x.value) == Entries(y.value))
    && (x.Raised? ==> Entries(x.partial) == Entries(y.partial))
  }

  lemma EntriesAfterDelete(u: seq<Act>, v: seq<Act>, i: int)
    requires Entries(u) == Entries(v)
    ensures Entries(DeleteTask(u, i).tasks) == Entries(DeleteTask(v, i).tasks)
  {
    var x := Entries(DeleteTask(u, i).tasks);
    var y := Entries(DeleteTask(v, i).tasks);
    assert forall j :: 0 <= j < |u| ==> EntryOf(u[j]) == Entries(u)[j] == EntryOf(v[j]);
    assert forall j :: 0 <= j < |x| ==> x[j] == y[j];
  }

  lemma EntriesAfterInsert(u: seq<Act>, v: seq<Act>, i: int, a: Act, b: Act)
    requires Entries(u) == Entries(v) && EntryOf(a) == EntryOf(b)
    ensures Entries(InsertTaskAt(u, i, a)) == Entries(InsertTaskAt(v, i, b))
  {
    var x := Entries(InsertTaskAt(u, i, a));
    var y := Entries(InsertTaskAt(v, i, b));
    assert forall j :: 0 <= j < |u| ==> EntryOf(u[j]) == Entries(u)[j] == EntryOf(v[j]);
    assert forall j :: 0 <= j < |x| ==> x[j] == y[j];
  }

  lemma EntriesAfterEdit(u: seq<Act>, v: seq<Act>, i: int, a: Act, b: Act, dayLength: int)
    requires Entries(u) == Entries(v) && 0 <= i < |u| && EntryOf(a) == EntryOf(b)
    ensures Entries(Recompute(u[i := a], dayLength)) == Entries(Recompute(v[i := b], dayLength))
  {
    RecomputedEdit(u, i, a, dayLength);
    RecomputedEdit(v, i, b, dayLength);
  }

  /** Undoing one command of these kinds on two lists with the same
      entries gives the same outcome, entry for entry. */
  lemma RevertOpOnEntries(op: Op, u: seq<Act>, v: seq<Act>, dayLength: int)
    requires OpEntryFaithful(op) && Entries(u) == Entries(v)
    ensures SameEntriesOutcome(RevertOp(op, u, dayLength), RevertOp(op, v, dayLength))
  {
    match op
    case AddOp(_, _, _, _, _, at) =>
      assert UndoAdd(at, u) == DeleteTask(u, at).tasks && UndoAdd(at, v) == DeleteTask(v, at).tasks;
      EntriesAfterDelete(u, v, at);
    case DeleteOp(i, name, start, length, rigid, fixed, deleted) =>
      if deleted && fixed && start != "" {
        if ParseTime(start).Ok? {
          var a := NewFixed(name, start, length, rigid).value;
          EntriesAfterInsert(u, v, i, a, a);
        }
      } else if deleted {
        var a := NewFlexible(name, length, rigid);
        EntriesAfterInsert(u, v, i, a, a);
      }
    case EditNameOp(i, oldName, _, executed) =>
      if executed && 0 <= i < |u| {
        assert EntryOf(u[i]) == Entries(u)[i] == EntryOf(v[i]);
        EntriesAfterEdit(u, v, i, SetName(u[i], oldName), SetName(v[i], oldName), dayLength);
      }
    case EditLengthOp(i, oldLength, _, executed) =>
      if executed && 0 <= i < |u| {
        assert EntryOf(u[i]) == Entries(u)[i] == EntryOf(v[i]);
        EntriesAfterEdit(u, v, i, SetLength(u[i], oldLength), SetLength(v[i], oldLength), dayLength);
      }
    case ToggleRigidOp(i, oldRigid, executed) =>
      if executed && 0 <= i < |u| {
        assert EntryOf(u[i]) == Entries(u)[i] == EntryOf(v[i]);
        EntriesAfterEdit(u, v, i, SetRigid(u[i], oldRigid), SetRigid(v[i], oldRigid), dayLength);
      }
    case EditStartOp(i, oldStart, _, oldFixed, _, executed) =>
      UndoEditStartOnEntries(i, oldStart, oldFixed, executed, u, v, dayLength);
  }

  lemma UndoEditStartOnEntries(i: int, oldStart: string, oldFixed: bool, executed: bool, u: seq<Act>, v: seq<Act>, dayLength: int)
    requires oldStart != "" || !oldFixed
    requires Entries(u) == Entries(v)
    ensures SameEntriesOutcome(UndoEditStart(i, oldStart, oldFixed, executed, u, dayLength),
                               UndoEditStart(i, oldStart, oldFixed, executed, v, dayLength))
  {
    if executed && 0 <= i < |u| && SetState(u[i], oldStart, oldFixed).Ok? {
      assert EntryOf(u[i]) == Entries(u)[i] == EntryOf(v[i]);
      var a := SetState(u[i], oldStart, oldFixed).value;
      var b := SetState(v[i], oldStart, oldFixed).value;
      SetStateEntry(u[i], oldStart, oldFixed);
      SetStateEntry(v[i], oldStart, oldFixed);
      EntriesAfterEdit(u, v, i, a, b, dayLength);
    }
  }

  /** The same for a whole command, groups included. */
  lemma {:induction false} RevertOnEntries(c: Command, u: seq<Act>, v: seq<Act>, dayLength: int)
    requires EntryFaithful(c) && Entries(u) == Entries(v)
    ensures SameEntriesOutcome(Revert(c, u, dayLength), Revert(c, v, dayLength))
    decreases c, 1
  {
    match c
    case Leaf(op, _) => RevertOpOnEntries(op, u, v, dayLength);
    case Group(ms, _) => RevertMembersOnEntries(ms, |ms|, u, v, dayLength);
  }

  lemma {:induction false} RevertMembersOnEntries(ms: seq<Command>, k: nat, u: seq<Act>, v: seq<Act>, dayLength: int)
    requires k <= |ms| && (forall j | 0 <= j < k :: EntryFaithful(ms[j])) && Entries(u) == Entries(v)
    ensures SameEntriesOutcome(RevertMembers(ms, k, u, dayLength), RevertMembers(ms, k, v, dayLength))
    decreases ms, k
  {
    if k > 0 {
      RevertOnEntries(ms[k - 1], u, v, dayLength);
      var x := Revert(ms[k - 1], u, dayLength);
      var y := Revert(ms[k - 1], v, dayLength);
      if x.Completed? {
        RevertMembersOnEntries(ms, k - 1, x.value, y.value, dayLength);
      }
    }
  }

  /** Executing keeps a command's kind, so it stays faithful to entries. */
  lemma {:induction false} ExecuteKeepsFaithful(c: Command, ts: seq<Act>, dayLength: int)
    requires EntryFaithful(c) && Execute(c, ts, dayLength).Completed?
    ensures EntryFaithful(Execute(c, ts, dayLength).value.cmd)
    decreases c, 1
  {
    match c
    case Leaf(op, desc) =>
    case Group(ms, d) => MembersKeepFaithful(ms, 0, [], ts, dayLength);
  }

  lemma {:induction false} MembersKeepFaithful(ms: seq<Command>, k: nat, done: seq<Command>, ts: seq<Act>, dayLength: int)
    requires k <= |ms| && |done| == k
    requires (forall j | 0 <= j < |ms| :: EntryFaithful(ms[j])) && (forall j | 0 <= j < k :: EntryFaithful(done[j]))
    requires ExecuteMembers(ms, k, done, ts, dayLength).Completed?
    ensures var r := ExecuteMembers(ms, k, done, ts, dayLength).value.0;
      forall j | 0 <= j < |r| :: EntryFaithful(r[j])
    decreases ms, |ms| - k
  {
    if k < |ms| {
      ExecuteKeepsFaithful(ms[k], ts, dayLength);
      var e := Execute(ms[k], ts, dayLength).value;
      MembersKeepFaithful(ms, k + 1, done + [e.cmd], e.tasks, dayLength);
    }
  }

  /** Member by member from `k`: each one is of a kind whose undo reads
      only entries, runs through, and its undo gives back the entries of
      the list it ran on. */
  predicate EachRestoresEntries(ms: seq<Command>, k: nat, ts: seq<Act>, dayLength: int)
    requires k <= |ms|
    decreases |ms| - k
  {
    k == |ms| ||
      (var e := Execute(ms[k], ts, dayLength);
       && EntryFaithful(ms[k])
       && e.Completed?
       && Revert(e.value.cmd, e.value.tasks, dayLength).Completed?
       && Entries(Revert(e.value.cmd, e.value.tasks, dayLength).value) == Entries(ts)
       && EachRestoresEntries(ms, k + 1, e.value.tasks, dayLength))
  }

  /** A group of deletes and edits is undone as one unit: when each
      member's undo gives back the entries of the list that member ran on,
      undoing the executed group gives back the entries of the list the
      group ran on, although the later members' undos now run on lists
      that agree with their own only entry for entry. */
  lemma GroupRestoresEntries(ms: seq<Command>, d: string, ts: seq<Act>, dayLength: int)
    requires EachRestoresEntries(ms, 0, ts, dayLength)
    ensures var e := Execute(Group(ms, d), ts, dayLength);
      && e.Completed?
      && Revert(e.value.cmd, e.value.tasks, dayLength).Completed?
      && Entries(Revert(e.value.cmd, e.value.tasks, dayLength).value) == Entries(ts)
  {
    MembersRestoreEntries(ms, 0, [], ts, ts, dayLength);
  }

  lemma {:induction false} MembersRestoreEntries(ms: seq<Command>, k: nat, done: seq<Command>, ts: seq<Act>, ts0: seq<Act>,
                                                 dayLength: int)
    requires k <= |ms| && |done| == k
    requires forall j | 0 <= j < k :: EntryFaithful(done[j])
    requires EachRestoresEntries(ms, k, ts, dayLength)
    requires RevertMembers(done, k, ts, dayLength).Completed?
    requires Entries(RevertMembers(done, k, ts, dayLength).value) == Entries(ts0)
    ensures var r := ExecuteMembers(ms, k, done, ts, dayLength);
      && r.Completed?
      && RevertMembers(r.value.0, |ms|, r.value.1, dayLength).Completed?
      && Entries(RevertMembers(r.value.0, |ms|, r.value.1, dayLength).value) == Entries(ts0)
    decreases |ms| - k
  {
    if k < |ms| {
      var e := Execute(ms[k], ts, dayLength).value;
      ExecuteKeepsFaithful(ms[k], ts, dayLength);
      var done' := done + [e.cmd];
      var back := Revert(e.cmd, e.tasks, dayLength).value;
      assert done'[k] == e.cmd;
      assert RevertMembers(done', k + 1, e.tasks, dayLength) == RevertMembers(done', k, back, dayLength);
      RevertMembersPrefix(done', done, k, back, dayLength);
      RevertMembersOnEntries(done, k, back, ts, dayLength);
      MembersRestoreEntries(ms, k + 1, done', e.tasks, ts0, dayLength);
    }
  }

  /** updateTask called again with the activity's old name, start text (or
      "" when it was flexible), length and rigid flag undoes an updateTask
      at the same position, both when that one ran through and when it
      threw part-way, after writing name, length and rigid: the entries
      come back, provided a pinned activity's minute is the reading of its
      text. */
  lemma UpdateTaskUndone(ts: seq<Act>, i: int, name: string, start: string, length: int, rigid: bool)
    requires 0 <= i < |ts| && (ts[i].fixed ==> Canonical(ts[i]))
    ensures var a := ts[i];
      var u := UpdateTask(ts, i, name, start, length, rigid);
      var mid := if u.Completed? then u.value else u.partial;
      var back := UpdateTask(mid, i, a.name, if a.fixed then a.startStr else "", a.length, a.rigid);
      && |mid| == |ts|
      && back.Completed?
      && Entries(back.value) == Entries(ts)
  {
    var a := ts[i];
    var u := UpdateTask(ts, i, name, start, length, rigid);
    var mid := if u.Completed? then u.value else u.partial;
    assert mid == ts[i := mid[i]];
    var b := UpdateRestores(mid, i, a);
    assert mid[i := b] == ts[i := b];
    EntriesAfterRestore(ts, i, b);
  }

  /** The second updateTask writes an activity with the old entry. */
  lemma UpdateRestores(mid: seq<Act>, i: int, a: Act) returns (b: Act)
    requires 0 <= i < |mid| && (a.fixed ==> Canonical(a))
    ensures UpdateTask(mid, i, a.name, if a.fixed then a.startStr else "", a.length, a.rigid) == Completed(mid[i := b])
    ensures EntryOf(b) == EntryOf(a)
  {
    var base := mid[i].(name := a.name, length := a.length, rigid := a.rigid);
    if a.fixed {
      assert ':' in a.startStr;
      b := base.(startInt := a.startInt, startStr := a.startStr, fixed := true);
    } else {
      b := base.(fixed := false);
    }
  }

  lemma EntriesAfterRestore(ts: seq<Act>, i: int, b: Act)
    requires 0 <= i < |ts| && EntryOf(b) == EntryOf(ts[i])
    ensures Entries(ts[i := b]) == Entries(ts)
  {
    assert forall j :: 0 <= j < |ts| ==> Entries(ts[i := b])[j] == Entries(ts)[j];
  }

  /** A group of one shows its member's description; a larger group shows
      its own followed by the member count in decimal and " operations"
      in parentheses; an empty group shows its own. */
  lemma GroupDescription(ms: seq<Command>, d: string)
    ensures |ms| == 1 ==> Description(Group(ms, d)) == Description(ms[0])
    ensures |ms| == 0 ==> Description(Group(ms, d)) == d
    ensures |ms| > 1 ==> (exists n: string ::
      AllDigits(n) && DigitsValue(n) == |ms| && Description(Group(ms, d)) == d + " (" + n + " operations)")
  {
    if |ms| > 1 {
      NatToStringDigits(|ms|);
      var n := NatToString(|ms|);
      assert Description(Group(ms, d)) == d + " (" + n + " operations)";
    }
  }

  /** The timer description mentions the subsequent activities only when
      some were moved, and then with their number. */
  lemma TimerDescriptionCount(name: string, clock: string, records: nat)
    ensures var head := "Started timer for task '" + name + "' at " + clock;
      && (records <= 1 ==> TimerDescription(name, clock, records) == head)
      && (records > 1 ==> (exists n: string ::
            (AllDigits(n) && DigitsValue(n) == records - 1
             && TimerDescription(name, clock, records) == head + " (updated " + n + " subsequent tasks)")))
  {
    if records > 1 {
      NatToStringDigits(records - 1);
    }
  }

  /** A group's footprint is its own size and description on top of every
      member's footprint, so it is at least that of each member. */
  lemma GroupFootprint(ms: seq<Command>, d: string, z: Sizes)
    ensures Footprint(Group(ms, d), z) == z.group + |d| + MembersFootprint(ms, z)
    ensures forall i :: 0 <= i < |ms| ==> Footprint(ms[i], z) <= MembersFootprint(ms, z)
  {
    forall i | 0 <= i < |ms|
      ensures Footprint(ms[i], z) <= MembersFootprint(ms, z)
    {
      MemberFootprintBound(ms, i, z);
    }
  }

  lemma {:induction false} MemberFootprintBound(ms: seq<Command>, i: int, z: Sizes)
    requires 0 <= i < |ms|
    ensures Footprint(ms[i], z) <= MembersFootprint(ms, z)
    decreases |ms|
  {
    if i < |ms| - 1 {
      var init := ms[..|ms| - 1];
      assert ms[i] == init[i];
      MemberFootprintBound(init, i, z);
    }
  }

  /** The sum of footprints read from the front: the first one plus the
      rest, and the sum over two stacks joined is the sum of the two. */
  lemma {:induction false} MembersFootprintFront(ms: seq<Command>, z: Sizes)
    requires |ms| > 0
    ensures MembersFootprint(ms, z) == Footprint(ms[0], z) + MembersFootprint(ms[1..], z)
    decreases |ms|
  {
    if |ms| > 1 {
      var init := ms[..|ms| - 1];
      MembersFootprintFront(init, z);
      assert init[1..] == ms[1..][..|ms[1..]| - 1];
      assert init[0] == ms[0];
    } else {
      assert ms[1..] == [];
    }
  }

  lemma MembersFootprintPush(ms: seq<Command>, c: Command, z: Sizes)
    ensures MembersFootprint(ms + [c], z) == MembersFootprint(ms, z) + Footprint(c, z)
  {
    assert (ms + [c])[..|ms|] == ms;
  }
}
