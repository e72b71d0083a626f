/** The timer cascade of StartTaskTimerCommand (src/UndoManager.cpp).

    Starting the timer on activity `k` anchors it at the wall clock and
    pushes every later activity that would now begin before its
    predecessor ends. The command reads and writes clock texts through
    its own lenient helpers, which differ from the ones of `Act`: a text
    without a colon or with an unreadable part reads as minute 0 instead
    of throwing, and printing wraps any minute into the day. */
module TimerCascade {
  import opened Outcomes
  import opened CppArith
  import opened Text
  import opened Activity

  /** What the command remembers about one activity it touches. */
  datatype TaskState = TaskState(index: int, oldStart: string, newStart: string, oldFixed: bool, newFixed: bool)

  /** StartTaskTimerCommand::timeStringToMinutes: no range check, and every
      failure reads as 0. */
  function LenientMinutes(s: string): int
  {
    if s == "" then 0
    else
      var c := IndexOf(s, ':');
      if c < 0 then 0
      else
        match (Stoi(s[..c]), Stoi(s[c + 1..]))
        case (Some(h), Some(m)) => h * 60 + m
        case _ => 0
  }

  /** A number below 100 as `std::setw(2)` with fill '0' prints it
      (Setw2). */
  function TwoDigits(n: int): string
    requires 0 <= n < 100
  {
    [DigitChar(n / 10), DigitChar(n % 10)]
  }

  /** A clock minute printed as two '0'-padded fields. */
  function Padded(t: int): string
    requires 0 <= t < 1440
  {
    TwoDigits(t / 60) + ":" + TwoDigits(t % 60)
  }

  /** The fields are what `std::setw(2)` prints. */
  lemma PaddedIsSetw2(t: int)
    requires 0 <= t < 1440
    ensures Padded(t) == Setw2(t / 60) + ":" + Setw2(t % 60)
    ensures 0 <= t / 60 < 24 && 0 <= t % 60 < 60 && (t / 60) * 60 + t % 60 == t
  {
  }

  /** StartTaskTimerCommand::minutesToTimeString: adding whole days until
      the minute is non-negative and then taking the C++ remainder is the
      Euclidean remainder. */
  function ClockText(minutes: int): string
  {
    Padded(minutes % 1440)
  }

  /** The end time folded back into one day the way
      calculateNextAvailableTime does it. */
  function WrapDay(e: int): (w: int)
    ensures w % 1440 == e % 1440
    ensures 0 <= e ==> 0 <= w < 1440
  {
    if e >= 1440 then WrapAgrees(e); TruncMod(e, 1440) else e
  }

  /** calculateNextAvailableTime: the clock text `duration` minutes after
      `start`; an empty start stays empty. */
  function NextAvailable(start: string, duration: int): string
  {
    if start == "" then ""
    else ClockText(WrapDay(LenientMinutes(start) + duration))
  }

  lemma WrapAgrees(e: int)
    ensures (if e >= 1440 then TruncMod(e, 1440) else e) % 1440 == e % 1440
  {
    if e >= 1440 {
      TruncAgreesOnNatural(e, 1440);
      var r := e % 1440;
      assert r % 1440 == r;
    }
  }

  /** On a text the strict parser accepts, the lenient one agrees. */
  lemma LenientAgrees(s: string)
    requires ParseTime(s).Ok?
    ensures LenientMinutes(s) == ParseTime(s).value
  {
    var c := IndexOf(s, ':');
    assert 0 < c < |s| - 1;
    assert ParseTime(s) == ClockParts(Stoi(s[..c]), Stoi(s[c + 1..]));
  }

  lemma PaddedReadsBack(n: int)
    requires 0 <= n < 100
    ensures Stoi(Setw2(n)) == Some(n) && |Setw2(n)| == 2 && ':' !in Setw2(n)
  {
    TwoDigitValue(n);
    var z := Setw2(n);
    StoiOfDigits(z);
    assert IsDigit(z[0]) && IsDigit(z[1]);
  }

  lemma LenientJoined(a: string, b: string, x: int, y: int)
    requires ':' !in a && a != ""
    requires Stoi(a) == Some(x) && Stoi(b) == Some(y)
    ensures LenientMinutes(a + ":" + b) == x * 60 + y
  {
    SplitAtColon(a, b);
  }

  lemma ClockTextParts(m: int)
    ensures var t := m % 1440;
      ClockText(m) == Setw2(t / 60) + ":" + Setw2(t % 60)
      && 0 <= t / 60 < 24 && 0 <= t % 60 < 60 && (t / 60) * 60 + t % 60 == t
  {
    PaddedIsSetw2(m % 1440);
  }

  lemma PaddedClockReads(h: int, mm: int)
    requires 0 <= h < 24 && 0 <= mm < 60
    ensures LenientMinutes(Setw2(h) + ":" + Setw2(mm)) == h * 60 + mm
  {
    PaddedReadsBack(h);
    PaddedReadsBack(mm);
    LenientJoined(Setw2(h), Setw2(mm), h, mm);
  }

  /** Reading back a printed minute gives its position in the day. */
  lemma ClockTextReadsBack(m: int)
    ensures LenientMinutes(ClockText(m)) == m % 1440
  {
    var t := m % 1440;
    ClockTextParts(m);
    PaddedClockReads(t / 60, t % 60);
  }

  /** What the command prints, `Act::setStartTime` accepts: a printed
      minute is the same text `Act` prints for its clock minute. */
  lemma ClockTextParses(m: int)
    ensures ParseTime(ClockText(m)) == Ok(m % 1440)
  {
    var t := m % 1440;
    MinutesToTimeIsPadded(t);
    TimeRoundTrip(t);
  }

  /** Every printed minute matches the clock pattern. */
  lemma ClockTextParsesWithin(m: int)
    requires 0 <= m < 1440
    ensures ParseTime(ClockText(m)) == Ok(m)
  {
    assert m % 1440 == m;
    ClockTextParses(m);
  }

  lemma ClockTextFormat(m: int)
    ensures ClockFormat(ClockText(m))
  {
    var t := m % 1440;
    ClockTextParts(m);
    PaddedFormat(t / 60, t % 60);
  }

  lemma SameRemainderSameText(x: int, y: int)
    requires x % 1440 == y % 1440
    ensures ClockText(x) == ClockText(y)
  {
  }

  /** Folding at 1440 with the C++ remainder and printing with wrap-around
      land on the same clock text. */
  lemma NextAvailableWraps(s: string, d: int)
    requires s != ""
    ensures NextAvailable(s, d) == ClockText(LenientMinutes(s) + d)
  {
    var e := LenientMinutes(s) + d;
    SameRemainderSameText(WrapDay(e), e);
  }

  /** How the loop reads each start text: leniently, on the fly. */
  function StartMinutes(ts: seq<Act>): (r: seq<int>)
    ensures |r| == |ts|
    ensures forall i :: 0 <= i < |ts| ==> r[i] == LenientMinutes(ts[i].startStr)
  {
    seq(|ts|, i requires 0 <= i < |ts| => LenientMinutes(ts[i].startStr))
  }

  /** An activity the cascade moves, and the minute whose clock text
      becomes its start. */
  datatype Shift = Shift(index: nat, at: int)

  /** The walk over activities `i..` while the previous one ends at minute
      `end`; the command holds that minute as the text `ClockText(end)`,
      which reads back as `end % 1440` (ClockTextReadsBack). A start before
      the cursor is moved to it and the cursor runs on from there, a start
      at or after the cursor becomes the new baseline, and an activity
      without a start text ends the walk. The activities moved are inside
      the list, in order, and each one strictly after its old start. */
  function Walk(ts: seq<Act>, starts: seq<int>, i: nat, end: int): (r: seq<Shift>)
    requires |starts| == |ts|
    ensures forall j :: 0 <= j < |r| ==> i <= r[j].index < |ts|
    ensures forall j, j' :: 0 <= j < j' < |r| ==> r[j].index < r[j'].index
    ensures forall j :: 0 <= j < |r| ==> ts[r[j].index].startStr != "" && starts[r[j].index] < r[j].at % 1440
    decreases |ts| - i
  {
    if i >= |ts| then []
    else
      var t := ts[i];
      var cursor := end % 1440;
      if t.startStr != "" && starts[i] < cursor then
        [Shift(i, end)] + Walk(ts, starts, i + 1, WrapDay(cursor + t.length))
      else if t.startStr != "" then
        Walk(ts, starts, i + 1, WrapDay(starts[i] + t.length))
      else
        []
  }

  /** The record the command keeps for one moved activity: its old start
      and fixed flag, the printed cursor, and pinned. */
  function Record(ts: seq<Act>, s: Shift): TaskState
    requires s.index < |ts|
  {
    TaskState(s.index, ts[s.index].startStr, ClockText(s.at), ts[s.index].fixed, true)
  }

  function Records(ts: seq<Act>, shifts: seq<Shift>): (r: seq<TaskState>)
    requires forall j :: 0 <= j < |shifts| ==> shifts[j].index < |ts|
    ensures |r| == |shifts|
    ensures forall j :: 0 <= j < |r| ==>
      && r[j].index == shifts[j].index && r[j].newStart == ClockText(shifts[j].at)
      && r[j].oldStart == ts[r[j].index].startStr && r[j].oldFixed == ts[r[j].index].fixed && r[j].newFixed
  {
    seq(|shifts|, j requires 0 <= j < |shifts| => Record(ts, shifts[j]))
  }

  /** calculateCascadingUpdates with the clock passed in as `now`, the
      local hour * 60 + minute: the activity itself is anchored at `now`
      and made fixed, then the walk runs from the next activity with the
      cursor at the end of this one. An index out of range records
      nothing. */
  function Cascade(ts: seq<Act>, k: int, now: int): (r: seq<TaskState>)
    requires 0 <= now < 1440
  {
    if 0 <= k < |ts| then
      [Record(ts, Shift(k, now))] + Records(ts, Walk(ts, StartMinutes(ts), k + 1, WrapDay(now + ts[k].length)))
    else []
  }

  /** The walk as it runs when no start text is empty: it visits every
      later activity and pushes each one that starts before the cursor. */
  function WalkAll(ts: seq<Act>, starts: seq<int>, i: nat, end: int): (r: seq<Shift>)
    requires |starts| == |ts|
    ensures forall j :: 0 <= j < |r| ==> i <= r[j].index < |ts|
    decreases |ts| - i
  {
    if i >= |ts| then []
    else
      var cursor := end % 1440;
      if starts[i] < cursor then [Shift(i, end)] + WalkAll(ts, starts, i + 1, WrapDay(cursor + ts[i].length))
      else WalkAll(ts, starts, i + 1, WrapDay(starts[i] + ts[i].length))
  }

  /** An activity whose start `timeStringToMinutes` reads has a start
      text: the empty text has no colon. */
  lemma WellFormedHasStart(a: Act)
    requires WellFormed(a)
    ensures a.startStr != ""
  {
  }

  /** Both constructors give an activity a readable, hence non-empty,
      start text; MutatorsKeepWellFormed carries it through the setters. */
  lemma ConstructorsHaveStart(name: string, timeStr: string, length: int, rigid: bool)
    ensures NewFixed(name, timeStr, length, rigid).Ok? ==>
      WellFormed(NewFixed(name, timeStr, length, rigid).value)
      && NewFixed(name, timeStr, length, rigid).value.startStr != ""
    ensures WellFormed(NewFlexible(name, length, rigid)) && NewFlexible(name, length, rigid).startStr != ""
  {
    var f := NewFlexible(name, length, rigid);
    WellFormedHasStart(f);
    if NewFixed(name, timeStr, length, rigid).Ok? {
      WellFormedHasStart(NewFixed(name, timeStr, length, rigid).value);
    }
  }

  /** When no start text is empty the `startStr.empty()` test never
      holds, so the walk never stops early. */
  lemma {:induction false} WalkVisitsAll(ts: seq<Act>, starts: seq<int>, i: nat, end: int)
    requires |starts| == |ts|
    requires forall j | i <= j < |ts| :: ts[j].startStr != ""
    ensures Walk(ts, starts, i, end) == WalkAll(ts, starts, i, end)
    decreases |ts| - i
  {
    if i < |ts| {
      var cursor := end % 1440;
      if starts[i] < cursor {
        WalkVisitsAll(ts, starts, i + 1, WrapDay(cursor + ts[i].length));
      } else {
        WalkVisitsAll(ts, starts, i + 1, WrapDay(starts[i] + ts[i].length));
      }
    }
  }

  /** On a list of well-formed activities the cascade walks to the end of
      the list. */
  lemma CascadeVisitsAll(ts: seq<Act>, k: int, now: int)
    requires 0 <= now < 1440 && 0 <= k < |ts|
    requires forall j | 0 <= j < |ts| :: WellFormed(ts[j])
    ensures Cascade(ts, k, now)
      == [Record(ts, Shift(k, now))] + Records(ts, WalkAll(ts, StartMinutes(ts), k + 1, WrapDay(now + ts[k].length)))
  {
    forall j | 0 <= j < |ts|
      ensures ts[j].startStr != ""
    {
      WellFormedHasStart(ts[j]);
    }
    WalkVisitsAll(ts, StartMinutes(ts), k + 1, WrapDay(now + ts[k].length));
  }

  /** A successor that starts before the timed activity ends is recorded
      right after it and pinned at that end, whether it was fixed or
      flexible before. */
  lemma ConflictingSuccessorPinned(ts: seq<Act>, k: int, now: int)
    requires 0 <= now < 1440 && 0 <= k && k + 1 < |ts|
    requires WellFormed(ts[k + 1])
    requires LenientMinutes(ts[k + 1].startStr) < WrapDay(now + ts[k].length) % 1440
    ensures var r := Cascade(ts, k, now);
      |r| >= 2
      && r[1] == TaskState(k + 1, ts[k + 1].startStr, ClockText(WrapDay(now + ts[k].length)), ts[k + 1].fixed, true)
  {
    WellFormedHasStart(ts[k + 1]);
    var starts := StartMinutes(ts);
    var w := Walk(ts, starts, k + 1, WrapDay(now + ts[k].length));
    assert w[0] == Shift(k + 1, WrapDay(now + ts[k].length));
    assert Cascade(ts, k, now)[1] == Records(ts, w)[0];
  }

  /** The records of a timer start: the activity itself first, pinned at
      `now`; none when the index is out of range. */
  lemma CascadeFirst(ts: seq<Act>, k: int, now: int)
    requires 0 <= now < 1440
    ensures var r := Cascade(ts, k, now);
      && (0 <= k < |ts| <==> |r| > 0)
      && (0 <= k < |ts| ==> r[0] == TaskState(k, ts[k].startStr, ClockText(now), ts[k].fixed, true))
  {
  }

  /** After the first record come only later activities, each once and in
      order, each keeping its old start and fixed flag for undo, and
      pinned. */
  lemma CascadeShape(ts: seq<Act>, k: int, now: int)
    requires 0 <= now < 1440
    ensures var r := Cascade(ts, k, now);
      && (forall j :: 0 <= j < |r| ==> k <= r[j].index < |ts|)
      && (forall j, j' :: 0 <= j < j' < |r| ==> r[j].index < r[j'].index)
      && (forall j :: 0 <= j < |r| ==>
            r[j].oldStart == ts[r[j].index].startStr && r[j].oldFixed == ts[r[j].index].fixed && r[j].newFixed)
  {
    if 0 <= k < |ts| {
      var w := Walk(ts, StartMinutes(ts), k + 1, WrapDay(now + ts[k].length));
      var x := Record(ts, Shift(k, now));
      var rest := Records(ts, w);
      PrependShape(ts, x, rest, k);
      assert Cascade(ts, k, now) == [x] + rest;
    }
  }

  /** The shape facts of CascadeShape carry over to a record for `k` put in
      front of records for later activities. */
  lemma PrependShape(ts: seq<Act>, x: TaskState, rest: seq<TaskState>, k: int)
    requires 0 <= k < |ts| && x.index == k
    requires x.oldStart == ts[k].startStr && x.oldFixed == ts[k].fixed && x.newFixed
    requires forall j :: 0 <= j < |rest| ==> k < rest[j].index < |ts|
    requires forall j, j' :: 0 <= j < j' < |rest| ==> rest[j].index < rest[j'].index
    requires forall j :: 0 <= j < |rest| ==>
      rest[j].oldStart == ts[rest[j].index].startStr && rest[j].oldFixed == ts[rest[j].index].fixed && rest[j].newFixed
    ensures var r := [x] + rest;
      && (forall j :: 0 <= j < |r| ==> k <= r[j].index < |ts|)
      && (forall j, j' :: 0 <= j < j' < |r| ==> r[j].index < r[j'].index)
      && (forall j :: 0 <= j < |r| ==>
            r[j].oldStart == ts[r[j].index].startStr && r[j].oldFixed == ts[r[j].index].fixed && r[j].newFixed)
  {
    var r := [x] + rest;
    forall j | 0 < j < |r|
      ensures r[j] == rest[j - 1]
    {
    }
  }

  /** Every new start is a text `Act::setStartTime` accepts, and every
      activity after the first is moved strictly later than it was, both
      texts read the command's way. */
  lemma CascadeTexts(ts: seq<Act>, k: int, now: int)
    requires 0 <= now < 1440
    ensures var r := Cascade(ts, k, now);
      && (forall j :: 0 <= j < |r| ==> ClockFormat(r[j].newStart))
      && (forall j :: 0 < j < |r| ==> LenientMinutes(r[j].oldStart) < LenientMinutes(r[j].newStart))
  {
    if 0 <= k < |ts| {
      var starts := StartMinutes(ts);
      var w := Walk(ts, starts, k + 1, WrapDay(now + ts[k].length));
      var r := Cascade(ts, k, now);
      assert r[1..] == Records(ts, w);
      forall j | 0 <= j < |r|
        ensures ClockFormat(r[j].newStart)
        ensures j > 0 ==> LenientMinutes(r[j].oldStart) < LenientMinutes(r[j].newStart)
      {
        if j == 0 {
          ClockTextFormat(now);
        } else {
          var sh := w[j - 1];
          assert r[j] == Records(ts, w)[j - 1];
          ClockTextFormat(sh.at);
          ClockTextReadsBack(sh.at);
        }
      }
    }
  }

  /** The description the command shows in the history. */
  function TimerDescription(name: string, clock: string, records: nat): (d: string)
  {
    var head := "Started timer for task '" + name + "' at " + clock;
    if records <= 1 then head
    else head + " (updated " + NatToString(records - 1) + " subsequent tasks)"
  }

  /** Puts one activity into a recorded state: a start text is parsed by
      `Act::setStartTime` (which throws on a bad text), an empty one makes
      the activity flexible, and `fixed` is then flipped until it matches. */
  function SetState(a: Act, start: string, fixed: bool): (r: Result<Act>)
    ensures r.Ok? <==> start == "" || ParseTime(start).Ok?
    ensures r.Ok? ==> r.value.fixed == fixed
    ensures r.Ok? && start != "" ==> r.value.startStr == start && r.value.startInt == ParseTime(start).value
    ensures r.Ok? && start == "" ==> r.value.startStr == a.startStr && r.value.startInt == a.startInt
    ensures r.Ok? ==> r.value.(startInt := a.startInt, startStr := a.startStr, fixed := a.fixed) == a
  {
    var moved :=
      if start == "" then Ok(if a.fixed then ToggleFixed(a) else a)
      else SetStartTimeStr(a, start);
    match moved
    case Err(e) => Err(e)
    case Ok(b) => Ok(if b.fixed != fixed then ToggleFixed(b) else b)
  }

  function Target(q: TaskState, forward: bool): (string, bool)
  {
    if forward then (q.newStart, q.newFixed) else (q.oldStart, q.oldFixed)
  }

  /** The loops of execute (`forward`) and undo: the records in order,
      skipping indices outside the list. A start text that does not parse
      throws out of the loop with the earlier records already applied. */
  function ApplyStates(ts: seq<Act>, rs: seq<TaskState>, j: nat, forward: bool): (r: Attempt<seq<Act>, seq<Act>>)
    requires j <= |rs|
    ensures r.Completed? ==> |r.value| == |ts|
    ensures r.Raised? ==> |r.partial| == |ts|
    decreases |rs| - j
  {
    if j == |rs| then Completed(ts)
    else
      var q := rs[j];
      if 0 <= q.index < |ts| then
        var (start, fixed) := Target(q, forward);
        match SetState(ts[q.index], start, fixed)
        case Err(_) => Raised(ts)
        case Ok(a) => ApplyStates(ts[q.index := a], rs, j + 1, forward)
      else ApplyStates(ts, rs, j + 1, forward)
  }

  /** Record indices are inside the list and strictly increasing. */
  predicate Ordered(rs: seq<TaskState>, n: int)
  {
    && (forall j :: 0 <= j < |rs| ==> 0 <= rs[j].index < n)
    && (forall j, j' :: 0 <= j < j' < |rs| ==> rs[j].index < rs[j'].index)
  }

  /** The position of the record for activity `i` among `rs[j..]`, if
      any. */
  function RecordFor(rs: seq<TaskState>, j: nat, i: int): (r: Option<nat>)
    requires j <= |rs|
    ensures r.Some? ==> j <= r.value < |rs| && rs[r.value].index == i
    ensures r.None? ==> forall j' :: j <= j' < |rs| ==> rs[j'].index != i
    decreases |rs| - j
  {
    if j == |rs| then None
    else if rs[j].index == i then Some(j)
    else RecordFor(rs, j + 1, i)
  }

  /** When the loop runs through, a recorded activity is in its target
      state and any other one is untouched. */
  lemma {:induction false} ApplyStatesAt(ts: seq<Act>, rs: seq<TaskState>, j: nat, forward: bool, i: int)
    requires j <= |rs| && Ordered(rs, |ts|) && 0 <= i < |ts|
    requires ApplyStates(ts, rs, j, forward).Completed?
    ensures var out := ApplyStates(ts, rs, j, forward).value;
      match RecordFor(rs, j, i)
      case None => out[i] == ts[i]
      case Some(p) => SetState(ts[i], Target(rs[p], forward).0, Target(rs[p], forward).1) == Ok(out[i])
    decreases |rs| - j
  {
    if j < |rs| {
      var q := rs[j];
      var (start, fixed) := Target(q, forward);
      var a := SetState(ts[q.index], start, fixed).value;
      ApplyStatesAt(ts[q.index := a], rs, j + 1, forward, i);
      if i == q.index {
        LaterRecordsMiss(rs, j, i);
      }
    }
  }

  lemma LaterRecordsMiss(rs: seq<TaskState>, j: nat, i: int)
    requires j < |rs| && rs[j].index == i
    requires forall x, y :: 0 <= x < y < |rs| ==> rs[x].index < rs[y].index
    ensures RecordFor(rs, j + 1, i).None?
  {
  }

  /** Every record from `j` on has a target start that is empty or that
      `Act::setStartTime` accepts. */
  predicate TargetsParse(rs: seq<TaskState>, j: nat, forward: bool)
    requires j <= |rs|
  {
    forall x :: j <= x < |rs| ==> Target(rs[x], forward).0 == "" || ParseTime(Target(rs[x], forward).0).Ok?
  }

  /** With every target start acceptable the loop runs through. */
  lemma {:induction false} ApplyCompletes(ts: seq<Act>, rs: seq<TaskState>, j: nat, forward: bool)
    requires j <= |rs| && TargetsParse(rs, j, forward)
    ensures ApplyStates(ts, rs, j, forward).Completed?
    decreases |rs| - j
  {
    if j < |rs| {
      var q := rs[j];
      if 0 <= q.index < |ts| {
        var (start, fixed) := Target(q, forward);
        assert SetState(ts[q.index], start, fixed).Ok?;
        ApplyCompletes(ts[q.index := SetState(ts[q.index], start, fixed).value], rs, j + 1, forward);
      } else {
        ApplyCompletes(ts, rs, j + 1, forward);
      }
    }
  }

  /** Putting an activity into a state and then back into the start and
      fixed flag it had gives the activity back, provided its start minute
      was the reading of its start text. */
  lemma SetStateUndo(a: Act, start: string, fixed: bool)
    requires Canonical(a) && SetState(a, start, fixed).Ok?
    ensures SetState(SetState(a, start, fixed).value, a.startStr, a.fixed) == Ok(a)
  {
  }

  /** The records of a command describe the list they were taken from:
      in order, inside the list, with the old start and fixed flag of the
      activity they name, and that activity's start minute is the reading
      of its start text. */
  predicate Describes(rs: seq<TaskState>, ts: seq<Act>)
  {
    && Ordered(rs, |ts|)
    && (forall x :: 0 <= x < |rs| ==>
          rs[x].oldStart == ts[rs[x].index].startStr && rs[x].oldFixed == ts[rs[x].index].fixed)
    && (forall x :: 0 <= x < |rs| ==> Canonical(ts[rs[x].index]))
  }

  lemma OldStartsParse(rs: seq<TaskState>, ts: seq<Act>)
    requires Describes(rs, ts)
    ensures TargetsParse(rs, 0, false)
  {
    forall x | 0 <= x < |rs|
      ensures Target(rs[x], false).0 == "" || ParseTime(Target(rs[x], false).0).Ok?
    {
      assert Canonical(ts[rs[x].index]);
    }
  }

  /** The undo loop restores exactly what the execute loop changed. */
  lemma RestoreUndoesApply(ts: seq<Act>, rs: seq<TaskState>)
    requires Describes(rs, ts)
    requires ApplyStates(ts, rs, 0, true).Completed?
    ensures ApplyStates(ApplyStates(ts, rs, 0, true).value, rs, 0, false) == Completed(ts)
  {
    var out := ApplyStates(ts, rs, 0, true).value;
    OldStartsParse(rs, ts);
    ApplyCompletes(out, rs, 0, false);
    var back := ApplyStates(out, rs, 0, false).value;
    forall i | 0 <= i < |ts|
      ensures back[i] == ts[i]
    {
      RestoredAt(ts, rs, i);
    }
    assert back == ts;
  }

  lemma RestoredAt(ts: seq<Act>, rs: seq<TaskState>, i: int)
    requires Describes(rs, ts) && 0 <= i < |ts|
    requires ApplyStates(ts, rs, 0, true).Completed?
    requires ApplyStates(ApplyStates(ts, rs, 0, true).value, rs, 0, false).Completed?
    ensures ApplyStates(ApplyStates(ts, rs, 0, true).value, rs, 0, false).value[i] == ts[i]
  {
    var out := ApplyStates(ts, rs, 0, true).value;
    ApplyStatesAt(ts, rs, 0, true, i);
    ApplyStatesAt(out, rs, 0, false, i);
    match RecordFor(rs, 0, i)
    case None =>
    case Some(p) =>
      SetStateUndo(ts[i], rs[p].newStart, rs[p].newFixed);
  }

  /** Executing a timer start never throws: every new start it records is
      a printed clock time. */
  lemma CascadeExecutes(ts: seq<Act>, k: int, now: int)
    requires 0 <= now < 1440
    ensures ApplyStates(ts, Cascade(ts, k, now), 0, true).Completed?
  {
    var rs := Cascade(ts, k, now);
    CascadeTexts(ts, k, now);
    forall x | 0 <= x < |rs|
      ensures Target(rs[x], true).0 == "" || ParseTime(Target(rs[x], true).0).Ok?
    {
      ClockFormatParses(rs[x].newStart);
    }
    ApplyCompletes(ts, rs, 0, true);
  }

  /** Undoing a timer start restores the list the records were taken from,
      when every start minute there is the reading of its start text. */
  lemma CascadeUndo(ts: seq<Act>, k: int, now: int, rs: seq<TaskState>)
    requires 0 <= now < 1440 && rs == Cascade(ts, k, now)
    requires forall i :: 0 <= i < |ts| ==> Canonical(ts[i])
    ensures ApplyStates(ts, rs, 0, true).Completed?
    ensures ApplyStates(ApplyStates(ts, rs, 0, true).value, rs, 0, false) == Completed(ts)
  {
    CascadeExecutes(ts, k, now);
    CascadeDescribes(ts, k, now);
    RestoreUndoesApply(ts, rs);
  }

  lemma CascadeDescribes(ts: seq<Act>, k: int, now: int)
    requires 0 <= now < 1440
    requires forall i :: 0 <= i < |ts| ==> Canonical(ts[i])
    ensures Describes(Cascade(ts, k, now), ts)
  {
    var rs := Cascade(ts, k, now);
    CascadeShape(ts, k, now);
    forall x | 0 <= x < |rs|
      ensures Canonical(ts[rs[x].index])
    {
      var i := rs[x].index;
      assert Canonical(ts[i]);
    }
  }
}
