/** The schedule engine of src/TaskManager.cpp: the list of activities, the
    two recalculation passes (`calcActLen`, `calcStartTimes`) and the list
    primitives. The list is an immutable sequence; every operation returns
    the new list. */
module TaskManager {
  import opened Outcomes
  import opened CppArith
  import opened Activity
  import opened Lists

  /** One conflict reported by `calcActLen`: task `index` starts after its
      fixed successor. The warning text quotes both names and start texts. */
  datatype Conflict = Conflict(index: nat, name: string, start: string, nextName: string, nextStart: string)

  function Message(c: Conflict): string
  {
    "Time conflict: Task '" + c.name + "' (starts " + c.start + ") conflicts with '"
      + c.nextName + "' (starts " + c.nextStart + "). ActLength set to 0."
  }

  /** What `calcActLen(hasWarnings)` leaves behind: the new list, the
      returned warnings and the `hasWarnings` out-parameter. */
  datatype Recalc = Recalc(tasks: seq<Act>, warnings: seq<Conflict>, hasWarnings: bool)

  /** The fields no recalculation touches. */
  predicate SameIdentity(a: Act, b: Act)
  {
    a.name == b.name && a.startInt == b.startInt && a.startStr == b.startStr
    && a.length == b.length && a.rigid == b.rigid && a.fixed == b.fixed
  }

  /** Task `i` is followed by a fixed task. */
  predicate FixedSuccessor(ts: seq<Act>, i: int)
  {
    0 <= i && i + 1 < |ts| && ts[i + 1].fixed
  }

  /** Task `i` is followed by a fixed task that starts earlier. */
  predicate ConflictAt(ts: seq<Act>, i: int)
  {
    FixedSuccessor(ts, i) && ts[i + 1].startInt < ts[i].startInt
  }

  function ConflictOf(ts: seq<Act>, i: nat): Conflict
    requires i + 1 < |ts|
  {
    Conflict(i, ts[i].name, ts[i].startStr, ts[i + 1].name, ts[i + 1].startStr)
  }

  /** `ws` lists the conflicts of `ts` at positions below `n`: one entry
      per conflicting position, in list order, and nothing else. */
  predicate ConflictsBefore(ws: seq<Conflict>, ts: seq<Act>, n: int)
  {
    (forall k | 0 <= k < |ws| ::
      ws[k].index < n && ws[k].index + 1 < |ts|
      && ConflictAt(ts, ws[k].index) && ws[k] == ConflictOf(ts, ws[k].index))
    && (forall k, l | 0 <= k < l < |ws| :: ws[k].index < ws[l].index)
    && (forall i | 0 <= i < n && i < |ts| && ConflictAt(ts, i) ::
          exists k :: 0 <= k < |ws| && ws[k].index == i)
  }

  /** `ws` is exactly the warning list for `ts`. */
  predicate ListsConflicts(ws: seq<Conflict>, ts: seq<Act>)
  {
    ConflictsBefore(ws, ts, |ts|)
  }

  /** Conflicts depend only on the fields a recalculation keeps. */
  lemma ConflictsFollowIdentity(ws: seq<Conflict>, ts: seq<Act>, ts': seq<Act>, n: int)
    requires |ts| == |ts'|
    requires forall j | 0 <= j < |ts| :: SameIdentity(ts[j], ts'[j])
    ensures ConflictsBefore(ws, ts, n) <==> ConflictsBefore(ws, ts', n)
  {
    assert forall j | 0 <= j < |ts| :: ConflictAt(ts, j) == ConflictAt(ts', j);
    assert forall j | 0 <= j < |ts| - 1 :: ConflictOf(ts, j) == ConflictOf(ts', j);
  }

  /** One more position of the freeze loop extends the conflict list. */
  lemma ConflictsStep(ws: seq<Conflict>, ts: seq<Act>, i: nat)
    requires i + 1 < |ts|
    requires ConflictsBefore(ws, ts, i)
    ensures ConflictsBefore(ws + ConflictsAt(ts, i), ts, i + 1)
  {
    if ConflictAt(ts, i) {
      var ws' := ws + [ConflictOf(ts, i)];
      assert ws'[|ws|] == ConflictOf(ts, i);
      assert forall k | 0 <= k < |ws| :: ws'[k] == ws[k];
    } else {
      assert ws + ConflictsAt(ts, i) == ws;
    }
  }

  /** One step of the freeze pass: the gap to the next fixed start, cut at
      0, becomes both the actual and the frozen length, and `frozen` flips. */
  function Freeze(a: Act, nextStart: int): (r: Act)
    ensures r.frozen != a.frozen
    ensures r.actual == r.frozenLength >= 0
    ensures nextStart >= a.startInt ==> r.actual == nextStart - a.startInt
    ensures nextStart < a.startInt ==> r.actual == 0
    ensures r.(actual := a.actual, frozenLength := a.frozenLength, frozen := a.frozen) == a
  {
    var gap := nextStart - a.startInt;
    var len := if gap < 0 then 0 else gap;
    ToggleFrozen(SetFrozenLen(SetActLen(a, len), len))
  }

  /** What the freeze pass does to task `i`, in terms of the list it starts
      from: each step reads task `i + 1`, which the pass has not touched
      yet. */
  function FrozenAt(ts: seq<Act>, i: nat): Act
    requires i < |ts|
  {
    if FixedSuccessor(ts, i) then Freeze(ts[i], ts[i + 1].startInt) else ts[i]
  }

  function FreezeAll(ts: seq<Act>): (r: seq<Act>)
    ensures |r| == |ts|
    ensures forall i | 0 <= i < |ts| :: r[i] == FrozenAt(ts, i)
  {
    seq(|ts|, i requires 0 <= i < |ts| => FrozenAt(ts, i))
  }

  /** The conflict the freeze loop reports at position `i`, if any. */
  function ConflictsAt(ts: seq<Act>, i: nat): (r: seq<Conflict>)
    requires i + 1 < |ts|
  {
    if ConflictAt(ts, i) then [ConflictOf(ts, i)] else []
  }

  /** The first loop of `calcActLen`, in place: position `i` is rewritten
      (it stays as it is when task `i + 1` is not fixed) while later
      positions still hold their old values, and the conflict at `i` is
      appended to `ws`. */
  function FreezeLoop(ts: seq<Act>, i: nat, ws: seq<Conflict>): (r: (seq<Act>, seq<Conflict>))
    ensures |r.0| == |ts|
    decreases |ts| - i
  {
    if i + 1 >= |ts| then (ts, ws)
    else FreezeLoop(ts[i := FrozenAt(ts, i)], i + 1, ws + ConflictsAt(ts, i))
  }

  /** `r` keeps the positions below `i` and holds the pointwise freeze of
      `ts` from `i` on. */
  predicate FrozenFrom(ts: seq<Act>, i: nat, r: seq<Act>)
  {
    |r| == |ts|
    && (forall j | 0 <= j < |ts| && j < i :: r[j] == ts[j])
    && (forall j | i <= j < |ts| :: r[j] == FrozenAt(ts, j))
  }

  /** The in-place loop computes the pointwise freeze of the list it was
      given, and collects exactly its conflicts. */
  lemma {:induction false} FreezeLoopSpec(ts: seq<Act>, i: nat, ws: seq<Conflict>)
    requires ConflictsBefore(ws, ts, i)
    ensures FrozenFrom(ts, i, FreezeLoop(ts, i, ws).0)
    ensures ListsConflicts(FreezeLoop(ts, i, ws).1, ts)
    decreases |ts| - i
  {
    if i + 1 >= |ts| {
      LastPositionsClean(ws, ts, i);
    } else {
      var ws' := ws + ConflictsAt(ts, i);
      var ts' := ts[i := FrozenAt(ts, i)];
      FreezeStepBefore(ts, i, ws, ws', ts');
      FreezeLoopSpec(ts', i + 1, ws');
      FreezeStepAfter(ts, i, ts', FreezeLoop(ts', i + 1, ws'));
    }
  }

  /** Before the recursive step: the conflicts so far carry over to the
      rewritten list. */
  lemma FreezeStepBefore(ts: seq<Act>, i: nat, ws: seq<Conflict>, ws': seq<Conflict>, ts': seq<Act>)
    requires i + 1 < |ts|
    requires ConflictsBefore(ws, ts, i)
    requires ws' == ws + ConflictsAt(ts, i)
    requires ts' == ts[i := FrozenAt(ts, i)]
    ensures ConflictsBefore(ws', ts', i + 1)
  {
    ConflictsStep(ws, ts, i);
    ConflictsFollowIdentity(ws', ts, ts', i + 1);
  }

  /** After the recursive step: what the loop computed from the rewritten
      list is what it promises about the original one. */
  lemma FreezeStepAfter(ts: seq<Act>, i: nat, ts': seq<Act>, r: (seq<Act>, seq<Conflict>))
    requires i + 1 < |ts|
    requires ts' == ts[i := FrozenAt(ts, i)]
    requires FrozenFrom(ts', i + 1, r.0) && ListsConflicts(r.1, ts')
    ensures FrozenFrom(ts, i, r.0) && ListsConflicts(r.1, ts)
  {
    ConflictsFollowIdentity(r.1, ts, ts', |ts|);
    FreezeStepResult(ts, ts', i, r.0);
  }

  /** The last task has no successor, so it cannot conflict. */
  lemma LastPositionsClean(ws: seq<Conflict>, ts: seq<Act>, i: nat)
    requires i + 1 >= |ts|
    requires ConflictsBefore(ws, ts, i)
    ensures ListsConflicts(ws, ts)
  {
  }

  /** Rewriting position `i` leaves later positions of the pass alone. */
  lemma FreezeStepResult(ts: seq<Act>, ts': seq<Act>, i: nat, r: seq<Act>)
    requires i + 1 < |ts|
    requires ts' == ts[i := FrozenAt(ts, i)]
    requires FrozenFrom(ts', i + 1, r)
    ensures FrozenFrom(ts, i, r)
  {
    forall j | i < j < |ts|
      ensures FrozenAt(ts', j) == FrozenAt(ts, j)
    {
      assert ts'[j] == ts[j];
      assert j + 1 < |ts| ==> ts'[j + 1] == ts[j + 1];
    }
  }

  /** The share one task adds to the rigid total: its length when rigid,
      its current actual when frozen. */
  function RigidShare(a: Act): int
  {
    if a.rigid then a.length else if a.frozen then a.actual else 0
  }

  /** The share one task adds to the flexible total. */
  function FlexShare(a: Act): int
  {
    if a.rigid || a.frozen then 0 else a.length
  }

  function RigidTotal(ts: seq<Act>): int
  {
    if |ts| == 0 then 0 else RigidShare(ts[0]) + RigidTotal(ts[1..])
  }

  function FlexTotal(ts: seq<Act>): int
  {
    if |ts| == 0 then 0 else FlexShare(ts[0]) + FlexTotal(ts[1..])
  }

  /** The `double` ratio of `calcActLen` kept exact as `num / den`. */
  datatype Ratio = Ratio(num: int, den: int)

  /** (dayLength - rigid total) / flexible total, or 1 when there is no
      positive flexible total. */
  function ShareRatio(ts: seq<Act>, dayLength: int): (q: Ratio)
    ensures q.den > 0
  {
    var flex := FlexTotal(ts);
    if flex > 0 then Ratio(dayLength - RigidTotal(ts), flex) else Ratio(1, 1)
  }

  /** The last loop of `calcActLen`: `setActLen(ratio)` on every task. */
  function Assign(ts: seq<Act>, q: Ratio): (r: seq<Act>)
    requires q.den > 0
    ensures |r| == |ts|
    ensures forall i | 0 <= i < |ts| :: r[i] == SetActLenRatio(ts[i], q.num, q.den)
  {
    seq(|ts|, i requires 0 <= i < |ts| => SetActLenRatio(ts[i], q.num, q.den))
  }

  /** TaskManager::calcActLen(hasWarnings): the freeze loop, the rigid and
      flexible totals, then `setActLen(ratio)` on every task. The freeze
      loop runs for `i < tasks.size() - 1`, which wraps around for an empty
      list, so the list must be non-empty. What the result holds is stated
      by the CalcActLen lemmas below. */
  function CalcActLen(ts: seq<Act>, dayLength: int): (r: Recalc)
    requires |ts| > 0
    ensures |r.tasks| == |ts|
  {
    var p := FreezeLoop(ts, 0, []);
    var q := ShareRatio(p.0, dayLength);
    Recalc(Assign(p.0, q), p.1, |p.1| > 0)
  }

  /** The freeze loop of `calcActLen` is the pointwise freeze and reports
      exactly the conflicts of the list it was given. */
  lemma FreezeLoopResult(ts: seq<Act>)
    ensures FreezeLoop(ts, 0, []).0 == FreezeAll(ts)
    ensures ListsConflicts(FreezeLoop(ts, 0, []).1, ts)
  {
    var p := FreezeLoop(ts, 0, []);
    FreezeLoopSpec(ts, 0, []);
    assert FrozenFrom(ts, 0, p.0);
  }

  /** `calcActLen` is `Assign` after the pointwise freeze. */
  lemma CalcActLenUnfolds(ts: seq<Act>, dayLength: int)
    requires |ts| > 0
    ensures var f := FreezeAll(ts);
      CalcActLen(ts, dayLength).tasks == Assign(f, ShareRatio(f, dayLength))
  {
    FreezeLoopResult(ts);
  }

  /** The recalculation leaves name, start, length, rigid and fixed alone. */
  lemma CalcActLenIdentity(ts: seq<Act>, dayLength: int)
    requires |ts| > 0
    ensures var r := CalcActLen(ts, dayLength).tasks;
      forall i | 0 <= i < |ts| :: SameIdentity(r[i], ts[i])
  {
    CalcActLenUnfolds(ts, dayLength);
  }

  /** The freeze pass: wherever the successor is fixed, `frozen` flips and
      the frozen length becomes the gap to the successor's start, cut at 0;
      everywhere else both stay as they were. */
  lemma CalcActLenFreeze(ts: seq<Act>, dayLength: int)
    requires |ts| > 0
    ensures var r := CalcActLen(ts, dayLength).tasks;
      && (forall i | 0 <= i < |ts| :: r[i].frozen == (ts[i].frozen != FixedSuccessor(ts, i)))
      && (forall i | 0 <= i < |ts| ::
            r[i].frozenLength
              == if !FixedSuccessor(ts, i) then ts[i].frozenLength
                 else if ts[i + 1].startInt < ts[i].startInt then 0
                 else ts[i + 1].startInt - ts[i].startInt)
  {
    CalcActLenUnfolds(ts, dayLength);
  }

  /** The assignment: a rigid task gets its length (frozen or not), a
      frozen one its frozen length, any other one its length times
      (dayLength - rigid total) / flexible total, cut toward zero, with
      the totals taken after the freeze pass. */
  lemma CalcActLenShares(ts: seq<Act>, dayLength: int)
    requires |ts| > 0
    ensures var r := CalcActLen(ts, dayLength).tasks;
      var q := ShareRatio(FreezeAll(ts), dayLength);
      && (forall i | 0 <= i < |ts| && ts[i].rigid :: r[i].actual == ts[i].length)
      && (forall i | 0 <= i < |ts| && !ts[i].rigid && r[i].frozen :: r[i].actual == r[i].frozenLength)
      && (forall i | 0 <= i < |ts| && !ts[i].rigid && !r[i].frozen ::
            r[i].actual == TruncDiv(ts[i].length * q.num, q.den))
  {
    CalcActLenUnfolds(ts, dayLength);
  }

  /** One warning per task whose fixed successor starts earlier, in list
      order, and `hasWarnings` exactly when there is one. */
  lemma CalcActLenWarnings(ts: seq<Act>, dayLength: int)
    requires |ts| > 0
    ensures var r := CalcActLen(ts, dayLength);
      ListsConflicts(r.warnings, ts) && (r.hasWarnings <==> |r.warnings| > 0)
  {
    FreezeLoopResult(ts);
  }

  /** `frozen` is flipped, never reset: a second `calcActLen` undoes the
      flip of the first wherever the successor is fixed, so the pass is not
      idempotent. */
  lemma CalcActLenNotIdempotent(ts: seq<Act>, dayLength: int, i: nat)
    requires FixedSuccessor(ts, i)
    ensures var once := CalcActLen(ts, dayLength).tasks;
      once[i].frozen != ts[i].frozen
      && CalcActLen(once, dayLength).tasks[i].frozen == ts[i].frozen
      && CalcActLen(once, dayLength).tasks != once
  {
    var once := CalcActLen(ts, dayLength).tasks;
    CalcActLenIdentity(ts, dayLength);
    CalcActLenFreeze(ts, dayLength);
    assert FixedSuccessor(once, i) by {
      assert SameIdentity(once[i + 1], ts[i + 1]);
    }
    var twice := CalcActLen(once, dayLength).tasks;
    CalcActLenFreeze(once, dayLength);
    assert twice[i].frozen != once[i].frozen;
  }

  /** The freeze step of `calcActLen` as evidently intended: a task followed
      by a fixed one is marked frozen rather than flipped. */
  function FrozenAtIntended(ts: seq<Act>, i: nat): (r: Act)
    requires i < |ts|
    ensures r.frozen == (ts[i].frozen || FixedSuccessor(ts, i))
    ensures FixedSuccessor(ts, i) ==> r == FrozenAt(ts, i).(frozen := true)
    ensures !FixedSuccessor(ts, i) ==> r == ts[i]
  {
    if FixedSuccessor(ts, i) then Freeze(ts[i], ts[i + 1].startInt).(frozen := true) else ts[i]
  }

  /** calcActLen with the intended freeze step. It needs no non-empty
      list, since its freeze pass is stated position by position. */
  function CalcActLenIntended(ts: seq<Act>, dayLength: int): (r: seq<Act>)
    ensures |r| == |ts|
  {
    var f := seq(|ts|, i requires 0 <= i < |ts| => FrozenAtIntended(ts, i));
    Assign(f, ShareRatio(f, dayLength))
  }

  /** After the intended pass a task is frozen exactly when it was or is
      followed by a fixed task, and its frozen length is the gap to that
      task's start, cut at 0; the fields no recalculation touches stay. */
  lemma CalcActLenIntendedFreezes(ts: seq<Act>, dayLength: int, i: nat)
    requires i < |ts|
    ensures var r := CalcActLenIntended(ts, dayLength);
      && SameIdentity(r[i], ts[i])
      && r[i].frozen == (ts[i].frozen || FixedSuccessor(ts, i))
      && r[i].frozenLength
         == if !FixedSuccessor(ts, i) then ts[i].frozenLength
            else if ts[i + 1].startInt < ts[i].startInt then 0
            else ts[i + 1].startInt - ts[i].startInt
  {
    var f := seq(|ts|, i requires 0 <= i < |ts| => FrozenAtIntended(ts, i));
    assert CalcActLenIntended(ts, dayLength)[i] == SetActLenRatio(f[i], ShareRatio(f, dayLength).num, ShareRatio(f, dayLength).den);
  }

  /** A second intended pass changes no frozen flag and no frozen length:
      the flip-back of CalcActLenNotIdempotent is gone. */
  lemma CalcActLenIntendedStable(ts: seq<Act>, dayLength: int, i: nat)
    requires i < |ts|
    ensures var once := CalcActLenIntended(ts, dayLength);
      var twice := CalcActLenIntended(once, dayLength);
      twice[i].frozen == once[i].frozen && twice[i].frozenLength == once[i].frozenLength
  {
    var once := CalcActLenIntended(ts, dayLength);
    CalcActLenIntendedFreezes(ts, dayLength, i);
    CalcActLenIntendedFreezes(once, dayLength, i);
    if i + 1 < |ts| {
      CalcActLenIntendedFreezes(ts, dayLength, i + 1);
      assert FixedSuccessor(once, i) == FixedSuccessor(ts, i);
    }
  }

  /** On a list where nothing is frozen yet, the written pass and the
      intended one agree. */
  lemma CalcActLenIntendedAgrees(ts: seq<Act>, dayLength: int)
    requires |ts| > 0 && forall i | 0 <= i < |ts| :: !ts[i].frozen
    ensures CalcActLenIntended(ts, dayLength) == CalcActLen(ts, dayLength).tasks
  {
    var f := seq(|ts|, i requires 0 <= i < |ts| => FrozenAtIntended(ts, i));
    CalcActLenUnfolds(ts, dayLength);
    assert f == FreezeAll(ts);
  }

  /** `setStartTime("09:00")`, which cannot throw (AtNineParses). */
  function AtNine(a: Act): Act
  {
    a.(startInt := 540, startStr := DEFAULT_START)
  }

  lemma AtNineParses(a: Act)
    ensures SetStartTimeStr(a, DEFAULT_START) == Ok(AtNine(a))
  {
    DefaultStartIsNine();
  }

  /** What `calcStartTimes` writes at position `i`: nothing for a fixed
      task, 09:00 for a flexible first task, and the end of the (already
      updated) predecessor for any other flexible task. */
  function NewStart(ts: seq<Act>, i: nat): Act
    requires i < |ts|
  {
    if ts[i].fixed then ts[i]
    else if i == 0 then AtNine(ts[0])
    else SetStartTimeInt(ts[i], ts[i - 1].startInt + ts[i - 1].actual)
  }

  /** The loop of `calcStartTimes`, in place. */
  function StartLoop(ts: seq<Act>, i: nat): (r: seq<Act>)
    requires i <= |ts|
    ensures |r| == |ts|
    decreases |ts| - i
  {
    if i == |ts| then ts else StartLoop(ts[i := NewStart(ts, i)], i + 1)
  }

  /** `r` keeps the positions below `i` and meets the chained description
      from `i` on. */
  predicate ChainedFrom(ts: seq<Act>, i: nat, r: seq<Act>)
  {
    |r| == |ts|
    && (forall j | 0 <= j < |ts| && j < i :: r[j] == ts[j])
    && (forall j | i <= j < |ts| :: ChainedStart(ts, r, j))
  }

  /** The in-place loop meets the chained description of its result. */
  lemma {:induction false} StartLoopSpec(ts: seq<Act>, i: nat)
    requires i <= |ts|
    ensures ChainedFrom(ts, i, StartLoop(ts, i))
    decreases |ts| - i
  {
    if i < |ts| {
      var x := NewStart(ts, i);
      StartLoopSpec(ts[i := x], i + 1);
      StartStep(ts, i, x, StartLoop(ts[i := x], i + 1));
    }
  }

  lemma StartStep(ts: seq<Act>, i: nat, x: Act, r: seq<Act>)
    requires i < |ts| && x == NewStart(ts, i)
    requires ChainedFrom(ts[i := x], i + 1, r)
    ensures ChainedFrom(ts, i, r)
  {
    var ts' := ts[i := x];
    assert r[i] == x;
    if i > 0 {
      assert r[i - 1] == ts[i - 1];
    }
    assert ChainedStart(ts, r, i);
    forall j | i + 1 <= j < |ts|
      ensures ChainedStart(ts, r, j)
    {
      assert ts'[j] == ts[j];
      assert ChainedStart(ts', r, j);
    }
  }

  /** What `calcStartTimes` promises about position `j` of its result `r`. */
  predicate ChainedStart(ts: seq<Act>, r: seq<Act>, j: nat)
    requires j < |ts| == |r|
  {
    if ts[j].fixed then r[j] == ts[j]
    else if j == 0 then r[j] == ts[j].(startInt := 540, startStr := DEFAULT_START)
    else r[j] == SetStartTimeInt(ts[j], r[j - 1].startInt + r[j - 1].actual)
  }

  /** TaskManager::calcStartTimes. The source returns early on an empty
      list; the loop does nothing there either. */
  function CalcStartTimes(ts: seq<Act>): (r: seq<Act>)
    ensures |r| == |ts|
  {
    StartLoop(ts, 0)
  }

  /** Every position of the result of `calcStartTimes` is chained: fixed
      tasks are kept, a flexible first task starts at 09:00 and any other
      flexible task starts at its predecessor's new start plus actual, with
      no wrap of `startInt`. */
  lemma CalcStartTimesChained(ts: seq<Act>)
    ensures var r := CalcStartTimes(ts);
      forall j | 0 <= j < |ts| :: ChainedStart(ts, r, j)
  {
    StartLoopSpec(ts, 0);
  }

  /** calcActLen followed by calcStartTimes, as every edit path runs them.
      On an empty list the first pass is undefined, so nothing is done. */
  function Recompute(ts: seq<Act>, dayLength: int): (r: seq<Act>)
    ensures |r| == |ts|
  {
    if |ts| == 0 then ts else CalcStartTimes(CalcActLen(ts, dayLength).tasks)
  }

  // ---------------------------------------------------------------------
  // List primitives

  /** What the primitives that report success leave behind. */
  datatype Change = Change(done: bool, tasks: seq<Act>)

  /** addTask (both overloads, once the activity exists): append. */
  function AddTask(ts: seq<Act>, t: Act): (r: seq<Act>)
    ensures |r| == |ts| + 1 && r[..|ts|] == ts && r[|ts|] == t
  {
    ts + [t]
  }

  /** insertTaskAt(index, task). The index is a `size_t`: a negative `int`
      handed to `insertTask` turns into a huge index and is refused like
      any index past the end. */
  function InsertTaskAt(ts: seq<Act>, i: int, t: Act): (r: seq<Act>)
    ensures !(0 <= i <= |ts|) ==> r == ts
    ensures 0 <= i <= |ts| ==>
      |r| == |ts| + 1 && r[i] == t
      && (forall j | 0 <= j < i :: r[j] == ts[j])
      && (forall j | i < j < |r| :: r[j] == ts[j - 1])
  {
    if i < 0 || i > |ts| then ts else ts[..i] + [t] + ts[i..]
  }

  /** insertTask(index, name, start, length, rigid): the fixed activity is
      built first, so a bad start throws before the list changes. */
  function InsertFixedTask(ts: seq<Act>, i: int, name: string, start: string, length: int, rigid: bool): (r: Result<seq<Act>>)
    ensures r.Ok? <==> ParseTime(start).Ok?
    ensures r.Ok? ==> r.value == InsertTaskAt(ts, i, NewFixed(name, start, length, rigid).value)
  {
    match NewFixed(name, start, length, rigid)
    case Ok(a) => Ok(InsertTaskAt(ts, i, a))
    case Err(e) => Err(e)
  }

  /** deleteTask(index) */
  function DeleteTask(ts: seq<Act>, i: int): (r: Change)
    ensures r.done <==> 0 <= i < |ts|
    ensures !r.done ==> r.tasks == ts
    ensures r.done ==>
      |r.tasks| == |ts| - 1
      && (forall j | 0 <= j < i :: r.tasks[j] == ts[j])
      && (forall j | i <= j < |r.tasks| :: r.tasks[j] == ts[j + 1])
  {
    if i < 0 || i >= |ts| then Change(false, ts) else Change(true, ts[..i] + ts[i + 1..])
  }

  /** Deleting what was just inserted gives the list back. */
  lemma DeleteUndoesInsert(ts: seq<Act>, i: int, t: Act)
    requires 0 <= i <= |ts|
    ensures DeleteTask(InsertTaskAt(ts, i, t), i) == Change(true, ts)
  {
    var r := DeleteTask(InsertTaskAt(ts, i, t), i).tasks;
    assert r == ts;
  }

  /** Re-inserting the deleted element where it was gives the list back. */
  lemma InsertUndoesDelete(ts: seq<Act>, i: int)
    requires 0 <= i < |ts|
    ensures InsertTaskAt(DeleteTask(ts, i).tasks, i, ts[i]) == ts
  {
  }

  /** The two positions `moveTask` swaps instead of re-inserting. */
  predicate Adjacent(from: int, to: int) { from - to == 1 || to - from == 1 }

  /** Where `moveTask(from, to)` puts the moved element: at `to` for an
      adjacent move, but one place earlier for a longer move downwards,
      because the index is decremented after the removal. */
  function MoveDest(from: int, to: int): int
  {
    if !Adjacent(from, to) && to > from then to - 1 else to
  }

  /** moveTask(from, to): refused for an index out of range or a move onto
      itself; an adjacent move swaps the two; any other move takes the
      element out and puts it back at `MoveDest`. */
  function MoveTask(ts: seq<Act>, from: int, to: int): (r: Change)
    ensures r.done <==> 0 <= from < |ts| && 0 <= to < |ts| && from != to
    ensures !r.done ==> r.tasks == ts
    ensures r.done ==>
      |r.tasks| == |ts| && multiset(r.tasks) == multiset(ts)
      && r.tasks[MoveDest(from, to)] == ts[from]
    ensures r.done && Adjacent(from, to) ==> r.tasks == Swap(ts, from, to)
    ensures r.done && !Adjacent(from, to) ==>
      Without(r.tasks, MoveDest(from, to)) == Without(ts, from)
  {
    if from < 0 || from >= |ts| || to < 0 || to >= |ts| || from == to then Change(false, ts)
    else if Adjacent(from, to) then
      SwapMultiset(ts, from, to);
      Change(true, Swap(ts, from, to))
    else
      var rest := Without(ts, from);
      var d := MoveDest(from, to);
      WithoutMultiset(ts, from);
      WithinMultiset(rest, d, ts[from]);
      WithoutWithin(rest, d, ts[from]);
      Change(true, Within(rest, d, ts[from]))
  }

  /** moveTaskUp(index) */
  function MoveTaskUp(ts: seq<Act>, i: int): (r: Change)
    ensures r.done <==> 0 < i < |ts|
    ensures r.done ==> r.tasks == Swap(ts, i, i - 1)
    ensures !r.done ==> r.tasks == ts
  {
    if i <= 0 || i >= |ts| then Change(false, ts) else MoveTask(ts, i, i - 1)
  }

  /** moveTaskDown(index). On an empty list `size() - 1` wraps to the
      largest `size_t`, the guard lets 0 through and `moveTask` refuses it,
      so the outcome is the same refusal as here. */
  function MoveTaskDown(ts: seq<Act>, i: int): (r: Change)
    ensures r.done <==> 0 <= i < |ts| - 1
    ensures r.done ==> r.tasks == Swap(ts, i, i + 1)
    ensures !r.done ==> r.tasks == ts
  {
    if i < 0 || i >= |ts| - 1 then Change(false, ts) else MoveTask(ts, i, i + 1)
  }

  /** Moving up and then back down restores the list, and vice versa. */
  lemma MoveUpThenDown(ts: seq<Act>, i: int)
    requires 0 < i < |ts|
    ensures MoveTaskDown(MoveTaskUp(ts, i).tasks, i - 1) == Change(true, ts)
  {
    var up := MoveTaskUp(ts, i).tasks;
    assert Swap(up, i - 1, i) == ts;
  }

  lemma MoveDownThenUp(ts: seq<Act>, i: int)
    requires 0 <= i < |ts| - 1
    ensures MoveTaskUp(MoveTaskDown(ts, i).tasks, i + 1) == Change(true, ts)
  {
    var down := MoveTaskDown(ts, i).tasks;
    assert Swap(down, i + 1, i) == ts;
  }

  /** A move downwards is undone by moving the element back from where it
      landed. */
  lemma MoveDownUndo(ts: seq<Act>, from: int, to: int)
    requires 0 <= from < to < |ts|
    ensures MoveTask(MoveTask(ts, from, to).tasks, MoveDest(from, to), from) == Change(true, ts)
  {
    var d := MoveDest(from, to);
    if Adjacent(from, to) {
      AdjacentMoveUndo(ts, from, to);
    } else if Adjacent(d, from) {
      ShortMoveUndo(ts, from, to);
    } else {
      LongMoveUndo(ts, from, to);
    }
  }

  /** A longer move upwards is undone by a move to one past the old place,
      which exists unless the element came from the last position. */
  lemma MoveUpUndo(ts: seq<Act>, from: int, to: int)
    requires 0 <= to < from && from + 1 < |ts| && !Adjacent(from, to)
    ensures MoveTask(MoveTask(ts, from, to).tasks, to, from + 1) == Change(true, ts)
  {
    var once := MoveTask(ts, from, to).tasks;
    assert once == Within(Without(ts, from), to, ts[from]);
    WithoutWithin(Without(ts, from), to, ts[from]);
    assert MoveDest(to, from + 1) == from;
    assert MoveTask(once, to, from + 1).tasks == Within(Without(ts, from), from, ts[from]);
    WithinWithout(ts, from);
  }

  lemma AdjacentMoveUndo(ts: seq<Act>, from: int, to: int)
    requires 0 <= from < |ts| && 0 <= to < |ts| && Adjacent(from, to)
    ensures MoveTask(MoveTask(ts, from, to).tasks, MoveDest(from, to), from) == Change(true, ts)
  {
    var once := MoveTask(ts, from, to).tasks;
    assert once == Swap(ts, from, to);
    assert Swap(once, to, from) == ts;
  }

  /** A move two places down lands next to where it started, so it is a
      swap and the way back is a swap too. */
  lemma ShortMoveUndo(ts: seq<Act>, from: int, to: int)
    requires 0 <= from < to < |ts|
    requires !Adjacent(from, to) && Adjacent(MoveDest(from, to), from)
    ensures MoveTask(MoveTask(ts, from, to).tasks, MoveDest(from, to), from) == Change(true, ts)
  {
    var d := MoveDest(from, to);
    var once := MoveTask(ts, from, to).tasks;
    assert d == from + 1;
    assert Without(once, d) == Without(Swap(ts, from, d), d) by {
      assert Without(once, d) == Without(ts, from);
      assert Without(Swap(ts, from, d), d) == Without(ts, from);
    }
    WithoutDetermines(once, Swap(ts, from, d), d);
    assert Swap(once, d, from) == ts;
  }

  lemma LongMoveUndo(ts: seq<Act>, from: int, to: int)
    requires 0 <= from < to < |ts|
    requires !Adjacent(from, to) && !Adjacent(MoveDest(from, to), from)
    ensures MoveTask(MoveTask(ts, from, to).tasks, MoveDest(from, to), from) == Change(true, ts)
  {
    var d := MoveDest(from, to);
    var once := MoveTask(ts, from, to).tasks;
    assert once == Within(Without(ts, from), d, ts[from]);
    WithoutWithin(Without(ts, from), d, ts[from]);
    assert MoveDest(d, from) == from;
    assert MoveTask(once, d, from).tasks == Within(Without(ts, from), from, ts[from]);
    WithinWithout(ts, from);
  }

  /** Moving from `from` to `to` and then from `to` to `from` is not an
      inverse: on three activities, moving the first to the last position
      and back yields the reversed list. */
  lemma MoveThereAndBackReverses(a: Act, b: Act, c: Act)
    requires a != c
    ensures MoveTask([a, b, c], 0, 2).tasks == [b, a, c]
    ensures MoveTask([b, a, c], 2, 0).tasks == [c, b, a]
    ensures [c, b, a] != [a, b, c]
  {
    FirstToLast(a, b, c);
    LastToFirst(b, a, c);
  }

  lemma FirstToLast(a: Act, b: Act, c: Act)
    ensures MoveTask([a, b, c], 0, 2).tasks == [b, a, c]
  {
    var w := Without([a, b, c], 0);
    assert w == [b, c];
    assert Within(w, 1, a) == [b, a, c];
  }

  lemma LastToFirst(a: Act, b: Act, c: Act)
    ensures MoveTask([a, b, c], 2, 0).tasks == [c, a, b]
  {
    var w := Without([a, b, c], 2);
    assert w == [a, b];
    assert Within(w, 0, c) == [c, a, b];
  }

  /** moveTask as evidently intended: the element always lands at `to`, as
      it does for an adjacent move. */
  function MoveTaskIntended(ts: seq<Act>, from: int, to: int): (r: Change)
    ensures r.done <==> 0 <= from < |ts| && 0 <= to < |ts| && from != to
    ensures !r.done ==> r.tasks == ts
    ensures r.done ==>
      |r.tasks| == |ts| && r.tasks[to] == ts[from] && Without(r.tasks, to) == Without(ts, from)
  {
    if from < 0 || from >= |ts| || to < 0 || to >= |ts| || from == to then Change(false, ts)
    else
      WithoutWithin(Without(ts, from), to, ts[from]);
      Change(true, Within(Without(ts, from), to, ts[from]))
  }

  /** Moving there and back is the identity for the intended move. */
  lemma MoveIntendedThereAndBack(ts: seq<Act>, from: int, to: int)
    requires 0 <= from < |ts| && 0 <= to < |ts| && from != to
    ensures MoveTaskIntended(MoveTaskIntended(ts, from, to).tasks, to, from) == Change(true, ts)
  {
    var mid := MoveTaskIntended(ts, from, to).tasks;
    WithinWithout(ts, from);
    assert Within(Without(mid, to), from, mid[to]) == ts;
  }

  /** The intended move is the written one wherever the element lands at
      `to` anyway: adjacent moves and moves upwards. */
  lemma MoveIntendedAgrees(ts: seq<Act>, from: int, to: int)
    requires Adjacent(from, to) || to < from
    ensures MoveTaskIntended(ts, from, to) == MoveTask(ts, from, to)
  {
    if 0 <= from < |ts| && 0 <= to < |ts| && from != to {
      var a, b := MoveTaskIntended(ts, from, to).tasks, MoveTask(ts, from, to).tasks;
      assert MoveDest(from, to) == to;
      if Adjacent(from, to) {
        assert forall k | 0 <= k < |ts| :: a[k] == b[k] by {
          forall k | 0 <= k < |ts| ensures a[k] == b[k] {
            if k < to {
              assert Without(a, to)[k] == a[k] && Without(b, to)[k] == b[k];
            } else if k > to {
              assert Without(a, to)[k - 1] == a[k] && Without(b, to)[k - 1] == b[k];
            }
          }
        }
      }
      assert a == b;
    }
  }

  /** updateTask(index, name, startTime, length, rigid): name, length and
      rigid are written first; an empty start then makes the task flexible,
      any other start is parsed (and may throw, leaving the first three
      writes in place) and makes the task fixed. Out of range: nothing. */
  function UpdateTask(ts: seq<Act>, i: int, name: string, start: string, length: int, rigid: bool): (r: Attempt<seq<Act>, seq<Act>>)
    ensures !(0 <= i < |ts|) ==> r == Completed(ts)
    ensures 0 <= i < |ts| ==>
      var base := ts[i].(name := name, length := length, rigid := rigid);
      (start == "" ==> r == Completed(ts[i := base.(fixed := false)]))
      && (start != "" && ParseTime(start).Err? ==> r == Raised(ts[i := base]))
      && (start != "" && ParseTime(start).Ok? ==>
            r == Completed(ts[i := base.(startInt := ParseTime(start).value, startStr := start, fixed := true)]))
  {
    if i < 0 || i >= |ts| then Completed(ts)
    else
      var a := SetRigid(SetLength(SetName(ts[i], name), length), rigid);
      if start == "" then
        var b := ToggleFixed(a);
        Completed(ts[i := if b.fixed then ToggleFixed(b) else b])
      else
        match SetStartTimeStr(a, start)
        case Err(_) => Raised(ts[i := a])
        case Ok(b) => Completed(ts[i := if !b.fixed then ToggleFixed(b) else b])
  }

  /** beginAt(index) as written, with the wall clock passed in: an index
      past the end (a negative one wraps to a huge `size_t`) prints a
      message and changes nothing, but the guard `index > size()` lets
      `index == size()` through to a write one past the end, which is
      undefined behaviour (`None`). */
  function BeginAtAsWritten(ts: seq<Act>, i: int, now: int): (r: Option<seq<Act>>)
    requires 0 <= now < 1440
    ensures r.None? <==> i == |ts|
  {
    if i < 0 || i > |ts| then Some(ts)
    else if i == |ts| then None
    else Some(ts[i := SetCurrentTime(ts[i], now)])
  }

  /** beginAt as evidently intended: a position of the list is anchored at
      the current minute, any other index changes nothing. */
  function BeginAt(ts: seq<Act>, i: int, now: int): (r: seq<Act>)
    requires 0 <= now < 1440
    ensures |r| == |ts|
    ensures 0 <= i < |ts| ==> r[i].startInt == now && r[i].fixed && Canonical(r[i])
    ensures 0 <= i < |ts| ==> r[i].(startInt := ts[i].startInt, startStr := ts[i].startStr, fixed := ts[i].fixed) == ts[i]
    ensures forall j | 0 <= j < |ts| && j != i :: r[j] == ts[j]
  {
    if 0 <= i < |ts| then ts[i := SetCurrentTime(ts[i], now)] else ts
  }

  /** The two agree on every index but `size()`, where the written guard
      lets an out-of-range write through. */
  lemma BeginAtGuard(ts: seq<Act>, i: int, now: int)
    requires 0 <= now < 1440
    ensures i != |ts| ==> BeginAtAsWritten(ts, i, now) == Some(BeginAt(ts, i, now))
    ensures BeginAtAsWritten(ts, |ts|, now).None? && BeginAt(ts, |ts|, now) == ts
  {
  }

  /** Starting the timer twice at the same minute is starting it once. */
  lemma BeginAtIdempotent(ts: seq<Act>, i: int, now: int)
    requires 0 <= now < 1440
    ensures BeginAt(BeginAt(ts, i, now), i, now) == BeginAt(ts, i, now)
  {
  }
}
