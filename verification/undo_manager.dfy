/** The undo manager (src/UndoManager.cpp, src/UndoManager.h) and the
    TaskManager calls that drive it (src/TaskManager.cpp).

    The manager owns two stacks of commands, the last element being the
    top, a running count of the bytes the undo stack holds, and the group
    being collected between startCommandGroup and endCommandGroup. Every
    call that reaches a command takes the list it works on and gives back
    the list it leaves; an exception out of a command is `raised`, with the
    list as the command left it and the stacks as they stood at the throw. */
module UndoManager {
  import opened Outcomes
  import opened Activity
  import opened TaskManager
  import opened Commands

  const MAX_UNDO_HISTORY: nat := 100
  const MAX_MEMORY_USAGE: nat := 1048576

  /** A CommandGroup being collected: its description and the members
      executed so far, in order. */
  datatype OpenGroup = OpenGroup(desc: string, members: seq<Command>)

  /** `group` is `Some` exactly while `groupingEnabled && currentGroup`. */
  datatype Manager = Manager(undo: seq<Command>, redo: seq<Command>, memory: int, group: Option<OpenGroup>)

  /** What a manager call leaves: the manager, the list, and whether an
      exception escaped. */
  datatype Step = Step(manager: Manager, tasks: seq<Act>, raised: bool)

  function NewManager(): (m: Manager)
    ensures m.undo == [] && m.redo == [] && m.group.None?
  {
    Manager([], [], 0, None)
  }

  // ---------------------------------------------------------------------
  // Bytes held by a stack

  /** The footprints of a stack's commands, oldest first. */
  function Weights(cs: seq<Command>, w: Command -> nat): (fs: seq<nat>)
    ensures |fs| == |cs| && forall i :: 0 <= i < |cs| ==> fs[i] == w(cs[i])
  {
    if |cs| == 0 then [] else [w(cs[0])] + Weights(cs[1..], w)
  }

  function Sum(fs: seq<nat>): nat
  {
    if |fs| == 0 then 0 else fs[0] + Sum(fs[1..])
  }

  /** What the commands of a stack hold, by getMemoryFootprint. */
  function Bytes(cs: seq<Command>, w: Command -> nat): nat
  {
    Sum(Weights(cs, w))
  }

  lemma {:induction false} SumAppend(a: seq<nat>, b: seq<nat>)
    ensures Sum(a + b) == Sum(a) + Sum(b)
    decreases |a|
  {
    if |a| > 0 {
      assert (a + b)[1..] == a[1..] + b;
      SumAppend(a[1..], b);
    } else {
      assert a + b == b;
    }
  }

  /** A stack's bytes, its top split off. */
  lemma BytesPush(cs: seq<Command>, c: Command, w: Command -> nat)
    ensures Bytes(cs + [c], w) == Bytes(cs, w) + w(c)
  {
    assert Weights(cs + [c], w) == Weights(cs, w) + [w(c)];
    SumAppend(Weights(cs, w), [w(c)]);
  }

  lemma WeightsSuffix(cs: seq<Command>, k: nat, w: Command -> nat)
    requires k <= |cs|
    ensures Weights(cs[k..], w) == Weights(cs, w)[k..]
  {
  }

  /** A non-empty stack weighs at least its top. */
  lemma BytesTop(cs: seq<Command>, w: Command -> nat)
    requires |cs| > 0
    ensures Bytes(cs, w) >= w(cs[|cs| - 1])
  {
    var n := |cs| - 1;
    assert cs == cs[..n] + [cs[n]];
    BytesPush(cs[..n], cs[n], w);
  }

  /** getMemoryFootprint of each command class, with the build's `sizeof`s. */
  function FootprintOf(z: Sizes): Command -> nat
  {
    c => Footprint(c, z)
  }

  /** A stack holds what a CommandGroup of the same commands counts for
      its members. */
  lemma {:induction false} BytesMembers(cs: seq<Command>, z: Sizes)
    ensures Bytes(cs, FootprintOf(z)) == MembersFootprint(cs, z)
    decreases |cs|
  {
    if |cs| > 0 {
      var n := |cs| - 1;
      assert cs == cs[..n] + [cs[n]];
      BytesPush(cs[..n], cs[n], FootprintOf(z));
      BytesMembers(cs[..n], z);
    }
  }

  /** The bookkeeping the manager keeps: `currentMemoryUsage` is what the
      undo stack holds, and the two stacks together hold at most
      MAX_UNDO_HISTORY commands. */
  predicate Valid(m: Manager, w: Command -> nat)
  {
    m.memory == Bytes(m.undo, w) && |m.undo| + |m.redo| <= MAX_UNDO_HISTORY
  }

  lemma NewManagerValid(w: Command -> nat)
    ensures Valid(NewManager(), w) && !CanUndo(NewManager()) && !CanRedo(NewManager())
  {
  }

  // ---------------------------------------------------------------------
  // enforceMemoryLimits, on the footprints of the two stacks

  /** The sum of `fs[k..j]`: what dropping those commands takes off. */
  function Dropped(fs: seq<nat>, k: nat, j: nat): nat
    requires k <= j <= |fs|
    decreases j - k
  {
    if k == j then 0 else fs[k] + Dropped(fs, k + 1, j)
  }

  lemma DroppedStep(fs: seq<nat>, k: nat, j: nat)
    requires k < |fs| && k + 1 <= j <= |fs|
    ensures Dropped(fs, k, j) == fs[k] + Dropped(fs, k + 1, j)
  {
  }

  /** A suffix's sum, split at `j`. */
  lemma {:induction false} DroppedSum(fs: seq<nat>, k: nat, j: nat)
    requires k <= j <= |fs|
    ensures Sum(fs[k..]) == Dropped(fs, k, j) + Sum(fs[j..])
    decreases j - k
  {
    if k < j {
      assert fs[k..][1..] == fs[k + 1..];
      DroppedSum(fs, k + 1, j);
    }
  }

  /** Whether the first loop of enforceMemoryLimits goes on once it has
      dropped the commands before `j`, having started at `k` with `total`. */
  predicate UndoOver(fs: seq<nat>, k: nat, j: nat, total: int)
    requires k <= j <= |fs|
  {
    |fs| - j > MAX_UNDO_HISTORY || total - Dropped(fs, k, j) > MAX_MEMORY_USAGE
  }

  /** Where the first loop of enforceMemoryLimits ends: how many undo
      commands it dropped, and `currentMemoryUsage` and the total after. */
  datatype UndoLoop = UndoLoop(count: nat, memory: int, total: int)

  /** Where the second loop ends: how many redo commands it dropped, and
      the total after. */
  datatype RedoLoop = RedoLoop(count: nat, total: int)

  /** The first loop over the undo stack's footprints `fs`: drop the oldest
      command while the stack is over MAX_UNDO_HISTORY or the total over
      MAX_MEMORY_USAGE, taking its footprint off both counters. What the
      counters and the stopping point satisfy is EvictUndoSpec. */
  function EvictUndo(fs: seq<nat>, k: nat, memory: int, total: int): (r: UndoLoop)
    requires k <= |fs|
    ensures k <= r.count <= |fs| && |fs| - r.count <= MAX_UNDO_HISTORY
    decreases |fs| - k
  {
    if (|fs| - k > MAX_UNDO_HISTORY || total > MAX_MEMORY_USAGE) && |fs| - k > 0 then
      EvictUndo(fs, k + 1, memory - fs[k], total - fs[k])
    else UndoLoop(k, memory, total)
  }

  /** Both counters lose what was dropped; the loop stops at the first
      position within both limits, or with the stack empty, and it was over
      a limit just before its last drop. */
  lemma {:induction false} EvictUndoSpec(fs: seq<nat>, k: nat, memory: int, total: int)
    requires k <= |fs|
    ensures var r := EvictUndo(fs, k, memory, total);
      && r.memory == memory - Dropped(fs, k, r.count) && r.total == total - Dropped(fs, k, r.count)
      && (r.count > k ==> UndoOver(fs, k, r.count - 1, total))
      && (r.count == |fs| || !UndoOver(fs, k, r.count, total))
    decreases |fs| - k
  {
    if (|fs| - k > MAX_UNDO_HISTORY || total > MAX_MEMORY_USAGE) && |fs| - k > 0 {
      var r := EvictUndo(fs, k + 1, memory - fs[k], total - fs[k]);
      EvictUndoSpec(fs, k + 1, memory - fs[k], total - fs[k]);
      DroppedStep(fs, k, r.count);
      if r.count > k + 1 {
        DroppedStep(fs, k, r.count - 1);
      }
    }
  }

  /** The second loop, over the redo stack's footprints: while the total is
      still over MAX_MEMORY_USAGE, drop the oldest command. */
  function EvictRedo(fs: seq<nat>, k: nat, total: int): (r: RedoLoop)
    requires k <= |fs|
    ensures k <= r.count <= |fs|
    decreases |fs| - k
  {
    if total > MAX_MEMORY_USAGE && |fs| - k > 0 then
      EvictRedo(fs, k + 1, total - fs[k])
    else RedoLoop(k, total)
  }

  /** The total loses what was dropped; the loop stops within the limit or
      with the stack empty, and it was over the limit just before its last
      drop. */
  lemma {:induction false} EvictRedoSpec(fs: seq<nat>, k: nat, total: int)
    requires k <= |fs|
    ensures var r := EvictRedo(fs, k, total);
      && r.total == total - Dropped(fs, k, r.count)
      && (r.count > k ==> total - Dropped(fs, k, r.count - 1) > MAX_MEMORY_USAGE)
      && (r.count == |fs| || r.total <= MAX_MEMORY_USAGE)
    decreases |fs| - k
  {
    if total > MAX_MEMORY_USAGE && |fs| - k > 0 {
      var r := EvictRedo(fs, k + 1, total - fs[k]);
      EvictRedoSpec(fs, k + 1, total - fs[k]);
      DroppedStep(fs, k, r.count);
      if r.count > k + 1 {
        DroppedStep(fs, k, r.count - 1);
      }
    }
  }

  /** enforceMemoryLimits: the total counts the redo stack too; the oldest
      undo commands go first, and redo commands only once the undo stack
      alone could not bring the total within the limit. */
  function Enforce(m: Manager, w: Command -> nat): (r: Manager)
    ensures r.group == m.group
    ensures |r.undo| <= MAX_UNDO_HISTORY
  {
    var u := EvictUndo(Weights(m.undo, w), 0, m.memory, m.memory + Bytes(m.redo, w));
    var d := EvictRedo(Weights(m.redo, w), 0, u.total);
    m.(undo := m.undo[u.count..], redo := m.redo[d.count..], memory := u.memory)
  }

  /** Only the oldest commands of each stack are dropped, and redo
      commands only once the undo stack is empty. */
  lemma EnforceDropsOldest(m: Manager, w: Command -> nat)
    ensures var r := Enforce(m, w);
      && |r.undo| <= |m.undo| && r.undo == m.undo[|m.undo| - |r.undo|..]
      && |r.redo| <= |m.redo| && r.redo == m.redo[|m.redo| - |r.redo|..]
      && (|r.redo| < |m.redo| ==> r.undo == [])
  {
    var u, d := EnforceUnfolds(m, w);
    EvictUndoSpec(Weights(m.undo, w), 0, m.memory, m.memory + Bytes(m.redo, w));
    if u.count < |m.undo| {
      EvictRedoNone(Weights(m.redo, w), u.total);
    }
  }

  lemma EnforceUnfolds(m: Manager, w: Command -> nat) returns (u: UndoLoop, d: RedoLoop)
    ensures u == EvictUndo(Weights(m.undo, w), 0, m.memory, m.memory + Bytes(m.redo, w))
    ensures d == EvictRedo(Weights(m.redo, w), 0, u.total)
    ensures Enforce(m, w) == m.(undo := m.undo[u.count..], redo := m.redo[d.count..], memory := u.memory)
  {
    u := EvictUndo(Weights(m.undo, w), 0, m.memory, m.memory + Bytes(m.redo, w));
    d := EvictRedo(Weights(m.redo, w), 0, u.total);
  }

  /** What is left of a stack after its oldest `k` commands are dropped
      holds the stack's bytes less the dropped ones. */
  lemma BytesAfter(cs: seq<Command>, k: nat, w: Command -> nat)
    requires k <= |cs|
    ensures Bytes(cs[k..], w) == Bytes(cs, w) - Dropped(Weights(cs, w), 0, k)
  {
    WeightsSuffix(cs, k, w);
    DroppedSum(Weights(cs, w), 0, k);
    assert Weights(cs, w)[0..] == Weights(cs, w);
  }

  /** A redo loop started within the limit drops nothing. */
  lemma EvictRedoNone(fs: seq<nat>, total: int)
    requires total <= MAX_MEMORY_USAGE
    ensures EvictRedo(fs, 0, total).count == 0
  {
  }

  /** With the count right on entry, the count is right on exit, and the
      two stacks fit in MAX_MEMORY_USAGE unless both are emptied. */
  lemma EnforceAccounts(m: Manager, w: Command -> nat)
    requires m.memory == Bytes(m.undo, w)
    ensures var r := Enforce(m, w);
      && r.memory == Bytes(r.undo, w)
      && (Bytes(r.undo, w) + Bytes(r.redo, w) <= MAX_MEMORY_USAGE || (r.undo == [] && r.redo == []))
  {
    var u, d := EnforceUnfolds(m, w);
    EvictUndoSpec(Weights(m.undo, w), 0, m.memory, m.memory + Bytes(m.redo, w));
    EvictRedoSpec(Weights(m.redo, w), 0, u.total);
    BytesAfter(m.undo, u.count, w);
    BytesAfter(m.redo, d.count, w);
    if u.count < |m.undo| {
      EvictRedoNone(Weights(m.redo, w), u.total);
    }
  }

  /** An undo loop started within both limits drops nothing. */
  lemma EvictUndoNone(fs: seq<nat>, memory: int, total: int)
    requires |fs| <= MAX_UNDO_HISTORY && total <= MAX_MEMORY_USAGE
    ensures EvictUndo(fs, 0, memory, total) == UndoLoop(0, memory, total)
  {
  }

  /** A manager within both limits loses nothing. */
  lemma EnforceWithinLimits(m: Manager, w: Command -> nat)
    requires m.memory == Bytes(m.undo, w)
    requires |m.undo| <= MAX_UNDO_HISTORY && Bytes(m.undo, w) + Bytes(m.redo, w) <= MAX_MEMORY_USAGE
    ensures Enforce(m, w) == m
  {
    var u, d := EnforceUnfolds(m, w);
    var total := m.memory + Bytes(m.redo, w);
    EvictUndoNone(Weights(m.undo, w), m.memory, total);
    EvictRedoNone(Weights(m.redo, w), total);
    assert m.undo[0..] == m.undo && m.redo[0..] == m.redo;
  }

  /** Each dropped command was needed: with the last undo command dropped
      kept, a limit would be broken, and with the last redo command dropped
      kept, the redo stack alone would be over MAX_MEMORY_USAGE. */
  lemma EnforceMinimal(m: Manager, w: Command -> nat)
    requires m.memory == Bytes(m.undo, w)
    ensures var r := Enforce(m, w);
      && (|r.undo| < |m.undo| ==>
            var kept := m.undo[|m.undo| - |r.undo| - 1..];
            |kept| > MAX_UNDO_HISTORY || Bytes(kept, w) + Bytes(m.redo, w) > MAX_MEMORY_USAGE)
      && (|r.redo| < |m.redo| ==> Bytes(m.redo[|m.redo| - |r.redo| - 1..], w) > MAX_MEMORY_USAGE)
  {
    var u, d := EnforceUnfolds(m, w);
    var r := Enforce(m, w);
    assert |r.undo| == |m.undo| - u.count && |r.redo| == |m.redo| - d.count;
    if u.count > 0 {
      LastDroppedUndo(m, w, u);
      assert |m.undo| - |r.undo| - 1 == u.count - 1;
    }
    if d.count > 0 {
      LastDroppedRedo(m, w, u, d);
      assert |m.redo| - |r.redo| - 1 == d.count - 1;
    }
  }

  lemma LastDroppedUndo(m: Manager, w: Command -> nat, u: UndoLoop)
    requires m.memory == Bytes(m.undo, w)
    requires u == EvictUndo(Weights(m.undo, w), 0, m.memory, m.memory + Bytes(m.redo, w)) && u.count > 0
    ensures var kept := m.undo[u.count - 1..];
      |kept| > MAX_UNDO_HISTORY || Bytes(kept, w) + Bytes(m.redo, w) > MAX_MEMORY_USAGE
  {
    var total := m.memory + Bytes(m.redo, w);
    EvictUndoSpec(Weights(m.undo, w), 0, m.memory, total);
    assert UndoOver(Weights(m.undo, w), 0, u.count - 1, total);
    BytesAfter(m.undo, u.count - 1, w);
  }

  lemma LastDroppedRedo(m: Manager, w: Command -> nat, u: UndoLoop, d: RedoLoop)
    requires m.memory == Bytes(m.undo, w)
    requires u == EvictUndo(Weights(m.undo, w), 0, m.memory, m.memory + Bytes(m.redo, w))
    requires d == EvictRedo(Weights(m.redo, w), 0, u.total) && d.count > 0
    ensures Bytes(m.redo[d.count - 1..], w) > MAX_MEMORY_USAGE
  {
    EvictUndoSpec(Weights(m.undo, w), 0, m.memory, m.memory + Bytes(m.redo, w));
    EvictRedoSpec(Weights(m.redo, w), 0, u.total);
    assert u.total - Dropped(Weights(m.redo, w), 0, d.count - 1) > MAX_MEMORY_USAGE;
    BytesAfter(m.redo, d.count - 1, w);
    BytesAfter(m.undo, u.count, w);
    if u.count < |m.undo| {
      EvictRedoNone(Weights(m.redo, w), u.total);
    }
  }

  // ---------------------------------------------------------------------
  // The manager's calls

  /** executeCommand: run the command; while a group is open it joins the
      group, otherwise it is pushed (clearing redo, adding its footprint)
      and the limits are enforced. A command whose execute throws is
      neither kept nor recorded. */
  function ExecuteCommand(m: Manager, c: Command, ts: seq<Act>, dayLength: int, w: Command -> nat): (r: Step)
    ensures r.raised <==> Execute(c, ts, dayLength).Raised?
    ensures r.raised ==> r.manager == m && r.tasks == Execute(c, ts, dayLength).partial
    ensures !r.raised ==> r.tasks == Execute(c, ts, dayLength).value.tasks && r.manager.group.Some? == m.group.Some?
    ensures !r.raised && m.group.Some? ==>
      && r.manager.(group := m.group) == m
      && r.manager.group == Some(m.group.value.(members := m.group.value.members + [Execute(c, ts, dayLength).value.cmd]))
    ensures !r.raised && m.group.None? ==>
      && r.manager == Push(m, Execute(c, ts, dayLength).value.cmd, w)
      && r.manager.redo == [] && |r.manager.undo| <= MAX_UNDO_HISTORY
  {
    match Execute(c, ts, dayLength)
    case Raised(p) => Step(m, p, true)
    case Completed(d) =>
      match m.group
      case Some(g) => Step(m.(group := Some(g.(members := g.members + [d.cmd]))), d.tasks, false)
      case None => Step(Push(m, d.cmd, w), d.tasks, false)
  }

  /** Clear redo, push a command with its footprint, enforce the limits:
      what both executeCommand and endCommandGroup do with a command. */
  function Push(m: Manager, c: Command, w: Command -> nat): (r: Manager)
    ensures r.redo == [] && r.group == m.group
    ensures |r.undo| <= MAX_UNDO_HISTORY
  {
    Enforce(Manager(m.undo + [c], [], m.memory + w(c), m.group), w)
  }

  /** Pushing keeps the bookkeeping, drops only the oldest commands, and
      nothing at all while the stack stays within both limits. */
  lemma PushKeeps(m: Manager, c: Command, w: Command -> nat)
    requires Valid(m, w)
    ensures var r := Push(m, c, w);
      && Valid(r, w)
      && |r.undo| <= |m.undo| + 1 && r.undo == (m.undo + [c])[|m.undo| + 1 - |r.undo|..]
      && (|m.undo| < MAX_UNDO_HISTORY && Bytes(m.undo, w) + w(c) <= MAX_MEMORY_USAGE ==>
            r.undo == m.undo + [c])
  {
    var pushed := Pushed(m, c, w);
    EnforceAccounts(pushed, w);
    EnforceDropsOldest(pushed, w);
    if |m.undo| < MAX_UNDO_HISTORY && Bytes(m.undo, w) + w(c) <= MAX_MEMORY_USAGE {
      EnforceWithinLimits(pushed, w);
    }
  }

  /** The manager Push hands to enforceMemoryLimits. */
  lemma Pushed(m: Manager, c: Command, w: Command -> nat) returns (pushed: Manager)
    requires Valid(m, w)
    ensures pushed.undo == m.undo + [c] && pushed.redo == [] && pushed.group == m.group
    ensures pushed.memory == Bytes(pushed.undo, w) && Bytes(pushed.redo, w) == 0
    ensures Bytes(pushed.undo, w) == Bytes(m.undo, w) + w(c)
    ensures Push(m, c, w) == Enforce(pushed, w)
  {
    pushed := Manager(m.undo + [c], [], m.memory + w(c), m.group);
    BytesPush(m.undo, c, w);
    assert Weights(pushed.redo, w) == [];
  }

  /** A pushed command stays on top exactly when it alone is within
      MAX_MEMORY_USAGE. */
  lemma PushKeepsTop(m: Manager, c: Command, w: Command -> nat)
    requires Valid(m, w)
    ensures var r := Push(m, c, w);
      w(c) <= MAX_MEMORY_USAGE <==> |r.undo| > 0 && r.undo[|r.undo| - 1] == c
  {
    var pushed := Pushed(m, c, w);
    var r := Enforce(pushed, w);
    if |r.undo| == 0 {
      PushDroppedAll(pushed, c, w);
    } else {
      EnforceDropsOldest(pushed, w);
      EnforceAccounts(pushed, w);
      assert r.undo[|r.undo| - 1] == pushed.undo[|m.undo|];
      BytesTop(r.undo, w);
    }
  }

  /** Enforcing drops a pushed command only when it alone is over
      MAX_MEMORY_USAGE. */
  lemma PushDroppedAll(pushed: Manager, c: Command, w: Command -> nat)
    requires pushed.memory == Bytes(pushed.undo, w) && pushed.redo == []
    requires |pushed.undo| > 0 && pushed.undo[|pushed.undo| - 1] == c
    requires Enforce(pushed, w).undo == []
    ensures w(c) > MAX_MEMORY_USAGE
  {
    EnforceMinimal(pushed, w);
    var n := |pushed.undo|;
    assert |pushed.undo| - |Enforce(pushed, w).undo| - 1 == n - 1;
    assert pushed.undo[n - 1..] == [c];
    assert Weights([c], w) == [w(c)];
    assert [w(c)][1..] == [];
    assert Bytes([c], w) == w(c);
    assert Bytes(pushed.redo, w) == 0;
  }

  function CanUndo(m: Manager): bool { |m.undo| > 0 }

  function CanRedo(m: Manager): bool { |m.redo| > 0 }

  /** undo: with nothing to undo, nothing happens; otherwise the top
      command is popped and its footprint taken off before its undo runs;
      if the undo throws the command is lost, otherwise it goes on top of
      the redo stack. */
  function Undo(m: Manager, ts: seq<Act>, dayLength: int, w: Command -> nat): (r: Step)
    ensures !CanUndo(m) ==> r == Step(m, ts, false)
    ensures CanUndo(m) ==>
      var c := m.undo[|m.undo| - 1];
      && r.manager.undo == m.undo[..|m.undo| - 1]
      && r.manager.memory == m.memory - w(c)
      && r.manager.group == m.group
      && (r.raised <==> Revert(c, ts, dayLength).Raised?)
      && (r.raised ==> r.manager.redo == m.redo && r.tasks == Revert(c, ts, dayLength).partial)
      && (!r.raised ==> r.manager.redo == m.redo + [c] && r.tasks == Revert(c, ts, dayLength).value)
  {
    if !CanUndo(m) then Step(m, ts, false)
    else
      var c := m.undo[|m.undo| - 1];
      var popped := m.(undo := m.undo[..|m.undo| - 1], memory := m.memory - w(c));
      match Revert(c, ts, dayLength)
      case Raised(p) => Step(popped, p, true)
      case Completed(back) => Step(popped.(redo := m.redo + [c]), back, false)
  }

  /** redo: with nothing to redo, nothing happens; otherwise the top redo
      command is popped and executed again; if that throws it is lost,
      otherwise it goes back on the undo stack with its footprint, and no
      limit is enforced. */
  function Redo(m: Manager, ts: seq<Act>, dayLength: int, w: Command -> nat): (r: Step)
    ensures !CanRedo(m) ==> r == Step(m, ts, false)
    ensures CanRedo(m) ==>
      var c := m.redo[|m.redo| - 1];
      && r.manager.redo == m.redo[..|m.redo| - 1]
      && r.manager.group == m.group
      && (r.raised <==> Execute(c, ts, dayLength).Raised?)
      && (r.raised ==> r.manager.undo == m.undo && r.manager.memory == m.memory && r.tasks == Execute(c, ts, dayLength).partial)
      && (!r.raised ==>
            var d := Execute(c, ts, dayLength).value;
            r.manager.undo == m.undo + [d.cmd] && r.manager.memory == m.memory + w(d.cmd) && r.tasks == d.tasks)
  {
    if !CanRedo(m) then Step(m, ts, false)
    else
      var c := m.redo[|m.redo| - 1];
      var popped := m.(redo := m.redo[..|m.redo| - 1]);
      match Execute(c, ts, dayLength)
      case Raised(p) => Step(popped, p, true)
      case Completed(d) => Step(popped.(undo := m.undo + [d.cmd], memory := m.memory + w(d.cmd)), d.tasks, false)
  }

  /** getLastUndoDescription / getLastRedoDescription: the top command's
      description, or the empty string. */
  function LastUndoDescription(m: Manager): (r: string)
    ensures !CanUndo(m) ==> r == ""
  {
    if CanUndo(m) then Description(m.undo[|m.undo| - 1]) else ""
  }

  function LastRedoDescription(m: Manager): (r: string)
    ensures !CanRedo(m) ==> r == ""
  {
    if CanRedo(m) then Description(m.redo[|m.redo| - 1]) else ""
  }

  function IsGrouping(m: Manager): bool { m.group.Some? }

  /** endCommandGroup: outside a group nothing happens; an empty group is
      dropped; a non-empty one becomes a CommandGroup that is pushed like a
      single command. Either way grouping ends. */
  function EndGroup(m: Manager, w: Command -> nat): (r: Manager)
    ensures m.group.None? ==> r == m
    ensures m.group.Some? && |m.group.value.members| == 0 ==> r == m.(group := None)
    ensures !IsGrouping(r)
  {
    match m.group
    case None => m
    case Some(g) =>
      if |g.members| > 0 then Push(m.(group := None), Group(g.members, g.desc), w)
      else m.(group := None)
  }

  /** startCommandGroup: a non-empty open group is first ended (and
      pushed); then a new empty group opens. An empty open group is
      replaced. */
  function StartGroup(m: Manager, desc: string, w: Command -> nat): (r: Manager)
    ensures r.group == Some(OpenGroup(desc, []))
    ensures !(m.group.Some? && |m.group.value.members| > 0) ==> r == m.(group := Some(OpenGroup(desc, [])))
    ensures m.group.Some? && |m.group.value.members| > 0 ==>
      r == EndGroup(m, w).(group := Some(OpenGroup(desc, [])))
  {
    var ended := if m.group.Some? && |m.group.value.members| > 0 then EndGroup(m, w) else m;
    ended.(group := Some(OpenGroup(desc, [])))
  }

  // ---------------------------------------------------------------------
  // What the calls keep

  /** Every call keeps the bookkeeping: the byte count is the undo stack's
      footprint (so the unsigned counter never wraps), and the stacks hold
      at most MAX_UNDO_HISTORY commands between them, so the undo stack
      never grows past it, though redo enforces no limit. */
  lemma ExecuteCommandValid(m: Manager, c: Command, ts: seq<Act>, dayLength: int, w: Command -> nat)
    requires Valid(m, w)
    ensures Valid(ExecuteCommand(m, c, ts, dayLength, w).manager, w)
  {
    match Execute(c, ts, dayLength)
    case Raised(_) =>
    case Completed(d) =>
      if m.group.None? {
        PushKeeps(m, d.cmd, w);
      }
  }

  lemma UndoValid(m: Manager, ts: seq<Act>, dayLength: int, w: Command -> nat)
    requires Valid(m, w)
    ensures Valid(Undo(m, ts, dayLength, w).manager, w)
  {
    if CanUndo(m) {
      var n := |m.undo| - 1;
      assert m.undo == m.undo[..n] + [m.undo[n]];
      BytesPush(m.undo[..n], m.undo[n], w);
    }
  }

  lemma RedoValid(m: Manager, ts: seq<Act>, dayLength: int, w: Command -> nat)
    requires Valid(m, w)
    ensures Valid(Redo(m, ts, dayLength, w).manager, w)
  {
    if CanRedo(m) {
      match Execute(m.redo[|m.redo| - 1], ts, dayLength)
      case Raised(_) =>
      case Completed(d) => BytesPush(m.undo, d.cmd, w);
    }
  }

  lemma GroupCallsValid(m: Manager, desc: string, w: Command -> nat)
    requires Valid(m, w)
    ensures Valid(EndGroup(m, w), w) && Valid(StartGroup(m, desc, w), w)
  {
    if m.group.Some? && |m.group.value.members| > 0 {
      PushKeeps(m.(group := None), Group(m.group.value.members, m.group.value.desc), w);
    }
  }

  /** Undo then redo of a command whose undo and re-execution run through
      leaves the manager as it was, but for the top of the undo stack,
      which is the command as its re-execution left it; the redo stack is
      back exactly. */
  lemma UndoThenRedo(m: Manager, ts: seq<Act>, dayLength: int, w: Command -> nat, back: seq<Act>, d: Done)
    requires CanUndo(m)
    requires Revert(m.undo[|m.undo| - 1], ts, dayLength) == Completed(back)
    requires Execute(m.undo[|m.undo| - 1], back, dayLength) == Completed(d)
    ensures var s := Undo(m, ts, dayLength, w);
      var t := Redo(s.manager, s.tasks, dayLength, w);
      && !s.raised && !t.raised && t.tasks == d.tasks
      && t.manager == m.(undo := m.undo[..|m.undo| - 1] + [d.cmd],
                         memory := m.memory - w(m.undo[|m.undo| - 1]) + w(d.cmd))
      && (d.cmd == m.undo[|m.undo| - 1] ==> t.manager == m)
  {
    var c := m.undo[|m.undo| - 1];
    var popped := m.(undo := m.undo[..|m.undo| - 1], memory := m.memory - w(c));
    UndoCompleted(m, ts, dayLength, w, back);
    RedoCompleted(popped.(redo := m.redo + [c]), back, dayLength, w, d);
    assert (m.redo + [c])[..|m.redo|] == m.redo;
    var s := Undo(m, ts, dayLength, w);
    assert s == Step(popped.(redo := m.redo + [c]), back, false);
    var t := Redo(s.manager, s.tasks, dayLength, w);
    assert t.manager == m.(undo := popped.undo + [d.cmd], memory := popped.memory + w(d.cmd));
    if d.cmd == c {
      assert popped.undo + [c] == m.undo;
    }
  }

  /** An undo that runs through, in one piece. */
  lemma UndoCompleted(m: Manager, ts: seq<Act>, dayLength: int, w: Command -> nat, back: seq<Act>)
    requires CanUndo(m) && Revert(m.undo[|m.undo| - 1], ts, dayLength) == Completed(back)
    ensures var c := m.undo[|m.undo| - 1];
      Undo(m, ts, dayLength, w) == Step(m.(undo := m.undo[..|m.undo| - 1], redo := m.redo + [c], memory := m.memory - w(c)), back, false)
  {
  }

  /** A redo that runs through, in one piece. */
  lemma RedoCompleted(m: Manager, ts: seq<Act>, dayLength: int, w: Command -> nat, d: Done)
    requires CanRedo(m) && Execute(m.redo[|m.redo| - 1], ts, dayLength) == Completed(d)
    ensures Redo(m, ts, dayLength, w) == Step(m.(undo := m.undo + [d.cmd], redo := m.redo[..|m.redo| - 1], memory := m.memory + w(d.cmd)), d.tasks, false)
  {
  }

  /** Redo then undo: the redo stack is back but for its top, which is the
      command as its re-execution left it, and the byte count is back. */
  lemma RedoThenUndo(m: Manager, ts: seq<Act>, dayLength: int, w: Command -> nat, d: Done, back: seq<Act>)
    requires CanRedo(m)
    requires Execute(m.redo[|m.redo| - 1], ts, dayLength) == Completed(d)
    requires Revert(d.cmd, d.tasks, dayLength) == Completed(back)
    ensures var s := Redo(m, ts, dayLength, w);
      var t := Undo(s.manager, s.tasks, dayLength, w);
      && !s.raised && !t.raised && t.tasks == back
      && t.manager == m.(redo := m.redo[..|m.redo| - 1] + [d.cmd])
  {
    var s := Redo(m, ts, dayLength, w);
    assert s.manager.undo[|s.manager.undo| - 1] == d.cmd;
    assert s.manager.undo[..|s.manager.undo| - 1] == m.undo;
  }

  /** What the menus show: after an undo that runs through, the next redo
      is described as the undone command was. */
  lemma UndoDescribesRedo(m: Manager, ts: seq<Act>, dayLength: int, w: Command -> nat)
    requires CanUndo(m) && Revert(m.undo[|m.undo| - 1], ts, dayLength).Completed?
    ensures var s := Undo(m, ts, dayLength, w);
      CanRedo(s.manager) && LastRedoDescription(s.manager) == LastUndoDescription(m)
  {
  }

  /** While a group is open, commands run on the list but the stacks and
      the byte count do not move: the group collects them in order. */
  lemma GroupCollects(g0: Manager, a: Command, b: Command, desc: string, ts: seq<Act>, dayLength: int, w: Command -> nat, x: Done, y: Done)
    requires g0.group == Some(OpenGroup(desc, []))
    requires Execute(a, ts, dayLength) == Completed(x) && Execute(b, x.tasks, dayLength) == Completed(y)
    ensures var s1 := ExecuteCommand(g0, a, ts, dayLength, w);
      var s2 := ExecuteCommand(s1.manager, b, s1.tasks, dayLength, w);
      && !s2.raised && s2.tasks == y.tasks
      && s2.manager == g0.(group := Some(OpenGroup(desc, [x.cmd, y.cmd])))
  {
    var s1 := ExecuteCommand(g0, a, ts, dayLength, w);
    assert [] + [x.cmd] == [x.cmd];
    assert s1.manager == g0.(group := Some(OpenGroup(desc, [x.cmd])));
    assert [x.cmd] + [y.cmd] == [x.cmd, y.cmd];
  }

  /** Ending a group of two pushes them as one command, which stays on top
      when it fits in MAX_MEMORY_USAGE. */
  lemma GroupEnds(s: Manager, members: seq<Command>, desc: string, w: Command -> nat)
    requires Valid(s, w) && s.group == Some(OpenGroup(desc, members)) && |members| > 0
    requires w(Group(members, desc)) <= MAX_MEMORY_USAGE
    ensures var e := EndGroup(s, w);
      && Valid(e, w) && e.redo == [] && !IsGrouping(e)
      && |e.undo| > 0 && e.undo[|e.undo| - 1] == Group(members, desc)
  {
    var open := s.(group := None);
    assert Valid(open, w);
    PushKeeps(open, Group(members, desc), w);
    PushKeepsTop(open, Group(members, desc), w);
  }

  /** Undoing a two-member group whose members' undos give back the lists
      they ran on gives back the list the group started on. */
  lemma GroupUndone(e: Manager, x: Done, y: Done, desc: string, ts: seq<Act>, dayLength: int, w: Command -> nat)
    requires |e.undo| > 0 && e.undo[|e.undo| - 1] == Group([x.cmd, y.cmd], desc) && e.redo == []
    requires Revert(y.cmd, y.tasks, dayLength) == Completed(x.tasks) && Revert(x.cmd, x.tasks, dayLength) == Completed(ts)
    ensures var u := Undo(e, y.tasks, dayLength, w);
      !u.raised && u.tasks == ts && u.manager.redo == [Group([x.cmd, y.cmd], desc)]
  {
    GroupRevertsInReverse(x.cmd, y.cmd, desc, y.tasks, dayLength);
  }

  /** The three together: a group of two opened on a valid manager, ended,
      and undone gives back the list it started on, with the group ready to
      redo. */
  lemma GroupedPair(m: Manager, a: Command, b: Command, desc: string, ts: seq<Act>, dayLength: int, w: Command -> nat, x: Done, y: Done)
    requires Valid(m, w)
    requires Execute(a, ts, dayLength) == Completed(x) && Execute(b, x.tasks, dayLength) == Completed(y)
    requires Revert(y.cmd, y.tasks, dayLength) == Completed(x.tasks) && Revert(x.cmd, x.tasks, dayLength) == Completed(ts)
    requires w(Group([x.cmd, y.cmd], desc)) <= MAX_MEMORY_USAGE
    ensures var g0 := StartGroup(m, desc, w);
      var s1 := ExecuteCommand(g0, a, ts, dayLength, w);
      var s2 := ExecuteCommand(s1.manager, b, s1.tasks, dayLength, w);
      var u := Undo(EndGroup(s2.manager, w), y.tasks, dayLength, w);
      !u.raised && u.tasks == ts && u.manager.redo == [Group([x.cmd, y.cmd], desc)]
  {
    var g0 := StartGroup(m, desc, w);
    GroupCallsValid(m, desc, w);
    GroupCollects(g0, a, b, desc, ts, dayLength, w, x, y);
    var s1 := ExecuteCommand(g0, a, ts, dayLength, w);
    var s2 := ExecuteCommand(s1.manager, b, s1.tasks, dayLength, w);
    GroupEnds(s2.manager, [x.cmd, y.cmd], desc, w);
    GroupUndone(EndGroup(s2.manager, w), x, y, desc, ts, dayLength, w);
  }

  // ---------------------------------------------------------------------
  // TaskManager::undo / redo

  /** TaskManager::undo as written: the manager's undo, then calcActLen and
      calcStartTimes on whatever list it left. An exception skips the
      recalculation. calcActLen on an empty list runs its first loop to
      `size() - 1`, which wraps, and reads past the end: undefined (`None`). */
  function TaskUndoAsWritten(m: Manager, ts: seq<Act>, dayLength: int, z: Sizes): (r: Option<Step>)
    ensures var s := Undo(m, ts, dayLength, FootprintOf(z));
      r.None? <==> !s.raised && |s.tasks| == 0
  {
    Recalculated(Undo(m, ts, dayLength, FootprintOf(z)), dayLength)
  }

  function TaskRedoAsWritten(m: Manager, ts: seq<Act>, dayLength: int, z: Sizes): (r: Option<Step>)
    ensures var s := Redo(m, ts, dayLength, FootprintOf(z));
      r.None? <==> !s.raised && |s.tasks| == 0
  {
    Recalculated(Redo(m, ts, dayLength, FootprintOf(z)), dayLength)
  }

  function Recalculated(s: Step, dayLength: int): (r: Option<Step>)
    ensures r.None? <==> !s.raised && |s.tasks| == 0
  {
    if s.raised then Some(s)
    else if |s.tasks| == 0 then None
    else Some(s.(tasks := CalcStartTimes(CalcActLen(s.tasks, dayLength).tasks)))
  }

  /** TaskManager::undo and redo as evidently intended: the recalculation
      leaves an empty list alone. The recalculation changes no entry. */
  function TaskUndo(m: Manager, ts: seq<Act>, dayLength: int, z: Sizes): (r: Step)
    ensures var s := Undo(m, ts, dayLength, FootprintOf(z));
      && r.manager == s.manager && r.raised == s.raised
      && (s.raised ==> r.tasks == s.tasks)
      && Entries(r.tasks) == Entries(s.tasks)
  {
    Recomputed(Undo(m, ts, dayLength, FootprintOf(z)), dayLength)
  }

  function TaskRedo(m: Manager, ts: seq<Act>, dayLength: int, z: Sizes): (r: Step)
    ensures var s := Redo(m, ts, dayLength, FootprintOf(z));
      && r.manager == s.manager && r.raised == s.raised
      && (s.raised ==> r.tasks == s.tasks)
      && Entries(r.tasks) == Entries(s.tasks)
  {
    Recomputed(Redo(m, ts, dayLength, FootprintOf(z)), dayLength)
  }

  function Recomputed(s: Step, dayLength: int): (r: Step)
    ensures r.manager == s.manager && r.raised == s.raised
    ensures s.raised ==> r.tasks == s.tasks
    ensures Entries(r.tasks) == Entries(s.tasks)
  {
    RecomputeKeepsEntries(s.tasks, dayLength);
    if s.raised then s else s.(tasks := Recompute(s.tasks, dayLength))
  }

  /** The intended wrappers do what the written ones do whenever those are
      defined. */
  lemma TaskWrappersAgree(s: Step, dayLength: int)
    ensures Recalculated(s, dayLength).Some? ==> Recalculated(s, dayLength) == Some(Recomputed(s, dayLength))
  {
  }

  /** The written wrapper reaches the undefined case on the first thing a
      user can undo: adding one flexible activity to an empty day. */
  lemma UndoFirstAddAsWritten(name: string, length: int, rigid: bool, dayLength: int, z: Sizes)
    requires z.add + |name| <= MAX_MEMORY_USAGE
    ensures var s := ExecuteCommand(NewManager(), NewAddFlexible(name, length, rigid), [], dayLength, FootprintOf(z));
      && !s.raised && |s.tasks| == 1
      && TaskUndoAsWritten(s.manager, s.tasks, dayLength, z).None?
      && TaskUndo(s.manager, s.tasks, dayLength, z).tasks == []
  {
    var w := FootprintOf(z);
    var c := NewAddFlexible(name, length, rigid);
    var a := NewFlexible(name, length, rigid);
    var done := Leaf(AddOp(name, "", false, length, rigid, 0), "Add task '" + name + "'");
    AddFirst(name, length, rigid, dayLength);
    assert w(done) <= MAX_MEMORY_USAGE;
    PushKeeps(NewManager(), done, w);
    PushKeepsTop(NewManager(), done, w);
    var s := ExecuteCommand(NewManager(), c, [], dayLength, w);
    assert s.manager.undo == [done];
    UndoAddFirst(name, length, rigid, dayLength);
  }

  lemma AddFirst(name: string, length: int, rigid: bool, dayLength: int)
    ensures Execute(NewAddFlexible(name, length, rigid), [], dayLength)
         == Completed(Done(Leaf(AddOp(name, "", false, length, rigid, 0), "Add task '" + name + "'"), [NewFlexible(name, length, rigid)]))
  {
    var c := NewAddFlexible(name, length, rigid);
    assert ExecuteOp(c.op, c.desc, [], dayLength) == ExecuteAdd(name, "", false, length, rigid, c.desc, []);
  }

  lemma UndoAddFirst(name: string, length: int, rigid: bool, dayLength: int)
    ensures Revert(Leaf(AddOp(name, "", false, length, rigid, 0), "Add task '" + name + "'"), [NewFlexible(name, length, rigid)], dayLength)
         == Completed([])
  {
    var op := AddOp(name, "", false, length, rigid, 0);
    assert RevertOp(op, [NewFlexible(name, length, rigid)], dayLength) == Completed(UndoAdd(0, [NewFlexible(name, length, rigid)]));
  }
}
