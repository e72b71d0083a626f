/** The helpers of the command-line front end (src/main.cpp) that work on
    plain data: trimming and checking what the user typed, the clock text
    the reports print, the "current" and "next" task lookups, and applying
    one table-cell edit to the task list.

    The wall clock (`getCurrentTimeInMinutes`) is the parameter `now`. */
module Frontend {
  import opened Outcomes
  import opened CppArith
  import opened Text
  import opened Activity
  import opened TaskManager

  // ---------------------------------------------------------------------
  // Input text

  /** The characters `trim` drops at either end: " \t\n\r". */
  const SPACES: set<char> := {' ', '\t', '\n', '\r'}

  /** trim: from the first character outside SPACES to the last one, or
      "" when there is none. */
  function TrimInput(s: string): (r: string)
    ensures |r| <= |s|
    ensures |r| == 0 || (r[0] !in SPACES && r[|r| - 1] !in SPACES)
  {
    TrimEnds(s, SPACES);
    Trim(s, SPACES)
  }

  /** The trimmed text is one stretch of the input with only SPACES around
      it; it is empty exactly when the input is all SPACES; and trimming
      again changes nothing. */
  lemma TrimInputSpec(s: string) returns (k: nat)
    ensures var r := TrimInput(s);
      k + |r| <= |s| && r == s[k..k + |r|]
      && (forall i | 0 <= i < k :: s[i] in SPACES)
      && (forall i | k + |r| <= i < |s| :: s[i] in SPACES)
    ensures TrimInput(s) == [] <==> forall i | 0 <= i < |s| :: s[i] in SPACES
    ensures TrimInput(TrimInput(s)) == TrimInput(s)
  {
    k := TrimInputSlice(s);
    TrimInputEmpty(s);
    TrimIdempotent(s, SPACES);
  }

  lemma TrimInputSlice(s: string) returns (k: nat)
    ensures var r := TrimInput(s);
      k + |r| <= |s| && r == s[k..k + |r|]
      && (forall i | 0 <= i < k :: s[i] in SPACES)
      && (forall i | k + |r| <= i < |s| :: s[i] in SPACES)
  {
    TrimSlice(s, SPACES);
    k := |s| - |TrimLeft(s, SPACES)|;
  }

  lemma TrimInputEmpty(s: string)
    ensures TrimInput(s) == [] <==> forall i | 0 <= i < |s| :: s[i] in SPACES
  {
    var k := TrimInputSlice(s);
    if forall i | 0 <= i < |s| :: s[i] in SPACES {
      TrimAllSpace(s, SPACES);
    }
  }

  /** A text that neither starts nor ends with a trimmed character is its
      own trim. */
  lemma TrimInputKeeps(s: string)
    requires |s| == 0 || (s[0] !in SPACES && s[|s| - 1] !in SPACES)
    ensures TrimInput(s) == s
  {
  }

  /** isValidNumber: after trimming, at least one character and nothing
      but decimal digits. */
  predicate IsValidNumber(s: string)
  {
    var t := TrimInput(s);
    t != "" && AllDigits(t)
  }

  /** `std::stoi` of a run of digits: its value, or `out_of_range` once
      the value does not fit an `int`. */
  lemma StoiOfDigitRun(t: string)
    requires t != "" && AllDigits(t)
    ensures Stoi(t) == if DigitsValue(t) <= INT_MAX then Some(DigitsValue(t)) else None
  {
    assert SkipSpaces(t) == t;
    var d := DigitPrefix(t);
    assert d == t;
  }

  /** What `std::stoi` makes of a valid number: the value its digits
      spell, or `out_of_range` above INT_MAX. A valid number is never
      negative. */
  lemma ValidNumberValue(s: string)
    requires IsValidNumber(s)
    ensures var t := TrimInput(s);
      Stoi(t) == if DigitsValue(t) <= INT_MAX then Some(DigitsValue(t)) else None
  {
    StoiOfDigitRun(TrimInput(s));
  }

  /** Every non-negative `int` printed by `std::to_string` is a valid
      number and reads back as itself; a negative one is not valid. */
  lemma NumberRoundTrip(n: int)
    requires INT_MIN <= n <= INT_MAX
    ensures IsValidNumber(IntToString(n)) <==> n >= 0
    ensures n >= 0 ==> Stoi(TrimInput(IntToString(n))) == Some(n)
  {
    var s := IntToString(n);
    if n >= 0 {
      NatToStringDigits(n);
      TrimInputKeeps(s);
      StoiIntToString(n);
    } else {
      assert s[0] == '-';
      TrimInputKeeps(s);
      assert !IsDigit(s[0]);
    }
  }

  /** isValidTimeFormat: an empty (or all-blank) text is accepted, for a
      flexible task; anything else must match
      `^([0-1]?[0-9]|2[0-3]):[0-5][0-9]$` once trimmed. */
  predicate IsValidTimeFormat(s: string)
  {
    var t := TrimInput(s);
    t == "" || ClockFormat(t)
  }

  /** Every non-empty accepted time is one `Act` can parse, into a minute
      of the day. */
  lemma ValidTimeParses(s: string)
    requires IsValidTimeFormat(s) && TrimInput(s) != ""
    ensures ParseTime(TrimInput(s)).Ok?
    ensures 0 <= ParseTime(TrimInput(s)).value < 1440
  {
    ClockFormatParses(TrimInput(s));
  }

  /** Conversely every clock time is accepted, written with two-digit
      fields and blanks around the text, or with a one-digit hour. */
  lemma ClockTimesValid(h: int, mm: int, pad: string)
    requires 0 <= h < 24 && 0 <= mm < 60
    requires forall i | 0 <= i < |pad| :: pad[i] in SPACES
    ensures IsValidTimeFormat(pad + (Setw2(h) + ":" + Setw2(mm)) + pad)
    ensures h < 10 ==> IsValidTimeFormat(IntToString(h) + ":" + Setw2(mm))
  {
    PaddedClockValid(h, mm, pad);
    if h < 10 {
      ShortHourValid(h, mm);
    }
  }

  lemma PaddedClockValid(h: int, mm: int, pad: string)
    requires 0 <= h < 24 && 0 <= mm < 60
    requires forall i | 0 <= i < |pad| :: pad[i] in SPACES
    ensures IsValidTimeFormat(pad + (Setw2(h) + ":" + Setw2(mm)) + pad)
  {
    var c := Setw2(h) + ":" + Setw2(mm);
    PaddedFormat(h, mm);
    PaddedShape(h, mm);
    PaddedInput(pad, c);
  }

  lemma ShortHourValid(h: int, mm: int)
    requires 0 <= h < 10 && 0 <= mm < 60
    ensures IsValidTimeFormat(IntToString(h) + ":" + Setw2(mm))
  {
    var x, y := IntToString(h), Setw2(mm);
    var u := x + ":" + y;
    assert x == [DigitChar(h)];
    assert u[..|u| - 3] == x && u[|u| - 3] == ':' && u[|u| - 2..] == y;
    assert IsDigit(u[0]) && IsDigit(u[|u| - 1]);
    DigitEnds(u);
  }

  /** Blanks around a text whose ends are not blank are trimmed off. */
  lemma PaddedInput(pad: string, c: string)
    requires forall i | 0 <= i < |pad| :: pad[i] in SPACES
    requires |c| > 0 && c[0] !in SPACES && c[|c| - 1] !in SPACES
    ensures TrimInput(pad + c + pad) == c
  {
    var s := pad + c + pad;
    var k := TrimInputSlice(s);
    var r := TrimInput(s);
    assert r == s[|pad|..|pad| + |c|];
  }

  // ---------------------------------------------------------------------
  // Clock text

  /** minutesToTimeString: hours and minutes by C++ `/` and `%`, each
      printed with `std::setw(2)` and fill '0'. Unlike `Act::minutesToTime`
      it does not wrap at midnight. */
  function MinutesToTimeString(minutes: int): (r: string)
    ensures 0 <= minutes < 1440 ==> r == MinutesToTime(minutes)
  {
    if 0 <= minutes then
      TruncAgreesOnNatural(minutes, 60);
      if minutes < 1440 then
        MinutesToTimeIsPadded(minutes);
        Setw2(TruncDiv(minutes, 60)) + ":" + Setw2(TruncMod(minutes, 60))
      else
        Setw2(TruncDiv(minutes, 60)) + ":" + Setw2(TruncMod(minutes, 60))
    else
      Setw2(TruncDiv(minutes, 60)) + ":" + Setw2(TruncMod(minutes, 60))
  }

  /** On a minute of the day the text reads back as that minute and is
      one the time check accepts. */
  lemma ClockTextRoundTrip(m: int)
    requires 0 <= m < 1440
    ensures ParseTime(MinutesToTimeString(m)) == Ok(m)
    ensures IsValidTimeFormat(MinutesToTimeString(m))
  {
    TimeRoundTrip(m);
    MinutesToTimeFormat(m);
    MinutesToTimeShape(m);
    DigitEnds(MinutesToTime(m));
  }

  /** A text that starts and ends with a digit is its own trim. */
  lemma DigitEnds(s: string)
    requires |s| > 0 && IsDigit(s[0]) && IsDigit(s[|s| - 1])
    ensures TrimInput(s) == s
  {
    TrimInputKeeps(s);
  }

  /** Past the end of the day the hour goes on counting ("24:10"), and
      the text is no longer a time `Act` accepts. */
  lemma ClockTextPastMidnight(m: int)
    requires 1440 <= m
    ensures ParseTime(MinutesToTimeString(m)).Err?
  {
    TruncAgreesOnNatural(m, 60);
    var h, mm := m / 60, m % 60;
    var x, y := Setw2(h), Setw2(mm);
    var s := x + ":" + y;
    NatToStringDigits(h);
    assert x == IntToString(h) && ':' !in x;
    assert s[..|x|] == x && s[|x|] == ':' && s[|x| + 1..] == y;
    assert IndexOf(s, ':') == |x| by {
      assert ':' !in s[..|x|];
    }
    if h <= INT_MAX {
      StoiIntToString(h);
    } else {
      StoiOfDigitRun(x);
    }
  }

  // ---------------------------------------------------------------------
  // The "now" and "next" reports

  /** A task is running at `now` from its start up to, not including, its
      end. */
  predicate Covers(a: Act, now: int)
  {
    a.startInt <= now < a.startInt + a.actual
  }

  /** The loop of getCurrentTask, from position `from`: the first task in
      list order that is running at `now`. */
  function CurrentIndex(ts: seq<Act>, now: int, from: nat): (r: Option<nat>)
    requires from <= |ts|
    decreases |ts| - from
    ensures r.Some? ==> from <= r.value < |ts| && Covers(ts[r.value], now)
    ensures r.Some? ==> forall j | from <= j < r.value :: !Covers(ts[j], now)
    ensures r.None? <==> forall j | from <= j < |ts| :: !Covers(ts[j], now)
  {
    if from == |ts| then None
    else if Covers(ts[from], now) then Some(from)
    else CurrentIndex(ts, now, from + 1)
  }

  /** The loop of getNextTask, from position `from`: the first task in
      list order that starts after `now` (not the earliest such start). */
  function NextIndex(ts: seq<Act>, now: int, from: nat): (r: Option<nat>)
    requires from <= |ts|
    decreases |ts| - from
    ensures r.Some? ==> from <= r.value < |ts| && ts[r.value].startInt > now
    ensures r.Some? ==> forall j | from <= j < r.value :: ts[j].startInt <= now
    ensures r.None? <==> forall j | from <= j < |ts| :: ts[j].startInt <= now
  {
    if from == |ts| then None
    else if ts[from].startInt > now then Some(from)
    else NextIndex(ts, now, from + 1)
  }

  /** What the two reports say, before it is put into words. */
  datatype Report =
    | Running(name: string, end: int, remaining: int)
    | Upcoming(name: string, start: int, until: int)
    | Idle(now: int)
    | NothingAhead

  /** getCurrentTask: the running task with its end and the minutes left,
      or the current time when nothing runs. */
  function CurrentTask(ts: seq<Act>, now: int): (r: Report)
    ensures r.Running? || r == Idle(now)
    ensures r.Running? <==> exists j | 0 <= j < |ts| :: Covers(ts[j], now)
    ensures r.Running? ==> 0 < r.remaining && r.end == now + r.remaining
  {
    match CurrentIndex(ts, now, 0)
    case Some(i) =>
      var end := ts[i].startInt + ts[i].actual;
      Running(ts[i].name, end, end - now)
    case None => Idle(now)
  }

  /** The running task reported is the first one in the list that runs,
      and the minutes left never exceed its actual length. */
  lemma CurrentTaskIsFirst(ts: seq<Act>, now: int, i: nat)
    requires i < |ts| && Covers(ts[i], now)
    requires forall j | 0 <= j < i :: !Covers(ts[j], now)
    ensures CurrentTask(ts, now) == Running(ts[i].name, ts[i].startInt + ts[i].actual, ts[i].startInt + ts[i].actual - now)
    ensures CurrentTask(ts, now).remaining <= ts[i].actual
  {
  }

  /** getNextTask: the first task in the list that starts later, with the
      minutes until then, or "no upcoming tasks". */
  function NextTask(ts: seq<Act>, now: int): (r: Report)
    ensures r.Upcoming? || r == NothingAhead
    ensures r.Upcoming? <==> exists j | 0 <= j < |ts| :: ts[j].startInt > now
    ensures r.Upcoming? ==> 0 < r.until && r.start == now + r.until
  {
    match NextIndex(ts, now, 0)
    case Some(i) => Upcoming(ts[i].name, ts[i].startInt, ts[i].startInt - now)
    case None => NothingAhead
  }

  /** The report of a later task is the first one in list order. */
  lemma NextTaskIsFirst(ts: seq<Act>, now: int, i: nat)
    requires i < |ts| && ts[i].startInt > now
    requires forall j | 0 <= j < i :: ts[j].startInt <= now
    ensures NextTask(ts, now) == Upcoming(ts[i].name, ts[i].startInt, ts[i].startInt - now)
  {
  }

  /** The sentence printed for a report. */
  function ReportText(r: Report): (text: string)
    ensures r.Running? || r.Upcoming? ==> |r.name| <= |text| && text[..|r.name|] == r.name
  {
    match r
    case Running(name, end, remaining) =>
      name + " (ends at " + MinutesToTimeString(end) + ", " + IntToString(remaining) + " min remaining)"
    case Upcoming(name, start, until) =>
      name + " (starts at " + MinutesToTimeString(start) + ", in " + IntToString(until) + " minutes)"
    case Idle(now) =>
      "No active task at current time (" + MinutesToTimeString(now) + ")"
    case NothingAhead =>
      "No upcoming tasks today"
  }

  // ---------------------------------------------------------------------
  // Editing one cell of the table

  /** isColumnEditable: Fixed (0), Rigid (1), Name (2), Start (3) and
      Length (4); the actual length (5) is computed. */
  predicate IsColumnEditable(col: int)
  {
    0 <= col <= 4
  }

  /** The words a yes/no cell accepts. */
  const YES_WORDS: set<string> := {"Yes", "yes", "Y", "y", "1", "true"}
  const NO_WORDS: set<string> := {"No", "no", "N", "n", "0", "false"}

  lemma YesNoDisjoint()
    ensures YES_WORDS !! NO_WORDS
  {
  }

  /** Why `applyEdit` reports failure. `Thrown` is a `std::exception`
      caught around the edit (`std::stoi` out of range); `Warned` is the
      first conflict warning of the recalculation, which comes after the
      edit has been made. */
  datatype EditError =
    | BadIndex
    | BadFixed
    | BadRigid
    | EmptyName
    | BadTime
    | BadLength
    | NotEditable
    | Thrown
    | Warned(conflict: Conflict)

  /** The change one cell edit makes to its task, or why it is refused. */
  datatype CellEdit = Changed(task: Act) | Rejected(error: EditError)

  /** The `switch` of applyEdit on an already trimmed value `t`. */
  function EditCell(a: Act, col: int, t: string): (r: CellEdit)
    ensures r.Rejected? ==> !r.error.Warned? && r.error != BadIndex
    ensures r.Rejected? && r.error == NotEditable <==> !IsColumnEditable(col)
  {
    if col == 0 then EditFixed(a, t)
    else if col == 1 then EditRigid(a, t)
    else if col == 2 then EditName(a, t)
    else if col == 3 then EditStart(a, t)
    else if col == 4 then EditLength(a, t)
    else Rejected(NotEditable)
  }

  /** Column 0: a yes-word makes the task fixed and a no-word flexible,
      by flipping the flag only when it differs. */
  function EditFixed(a: Act, t: string): (r: CellEdit)
    ensures r.Changed? <==> t in YES_WORDS || t in NO_WORDS
    ensures r.Changed? ==> r.task == a.(fixed := t in YES_WORDS)
    ensures r.Rejected? ==> r.error == BadFixed
  {
    YesNoDisjoint();
    if t in YES_WORDS then Changed(if !a.fixed then ToggleFixed(a) else a)
    else if t in NO_WORDS then Changed(if a.fixed then ToggleFixed(a) else a)
    else Rejected(BadFixed)
  }

  /** Column 1: the same words set the rigid flag. */
  function EditRigid(a: Act, t: string): (r: CellEdit)
    ensures r.Changed? <==> t in YES_WORDS || t in NO_WORDS
    ensures r.Changed? ==> r.task == a.(rigid := t in YES_WORDS)
    ensures r.Rejected? ==> r.error == BadRigid
  {
    YesNoDisjoint();
    if t in YES_WORDS then Changed(SetRigid(a, true))
    else if t in NO_WORDS then Changed(SetRigid(a, false))
    else Rejected(BadRigid)
  }

  /** Column 2: any non-empty text becomes the name. */
  function EditName(a: Act, t: string): (r: CellEdit)
    ensures r.Changed? <==> t != ""
    ensures r.Changed? ==> r.task == a.(name := t)
    ensures r.Rejected? ==> r.error == EmptyName
  {
    if t == "" then Rejected(EmptyName) else Changed(SetName(a, t))
  }

  /** Column 3: an empty value makes the task flexible and keeps its
      start; a value the time check accepts is parsed (which would throw
      on a bad time) and makes the task fixed. */
  function EditStart(a: Act, t: string): (r: CellEdit)
    ensures r.Rejected? ==> r.error == BadTime || r.error == Thrown
  {
    if t != "" && !IsValidTimeFormat(t) then Rejected(BadTime)
    else if t == "" then Changed(if a.fixed then ToggleFixed(a) else a)
    else
      match SetStartTimeStr(a, t)
      case Ok(b) => Changed(if !b.fixed then ToggleFixed(b) else b)
      case Err(_) => Rejected(Thrown)
  }

  /** Column 4: a valid number whose `std::stoi` value is positive becomes
      the length. */
  function EditLength(a: Act, t: string): (r: CellEdit)
    ensures r.Rejected? ==> r.error == BadLength || r.error == Thrown
  {
    if !IsValidNumber(t) then Rejected(BadLength)
    else
      match Stoi(t)
      case None => Rejected(Thrown)
      case Some(n) => if n <= 0 then Rejected(BadLength) else Changed(SetLength(a, n))
  }

  /** The start column on a trimmed value: refused exactly when it is
      neither empty nor a clock time; an empty value makes the task
      flexible and keeps its start; a clock time anchors the task there
      and makes it fixed; the edit never throws. */
  lemma EditStartSpec(a: Act, t: string)
    requires TrimInput(t) == t
    ensures var r := EditStart(a, t);
      && (r.Rejected? <==> t != "" && !ClockFormat(t))
      && (r.Rejected? ==> r.error == BadTime)
      && (t == "" ==> r == Changed(a.(fixed := false)))
      && (t != "" && ClockFormat(t) ==>
            r == Changed(a.(startInt := ParseTime(t).value, startStr := t, fixed := true)))
  {
    assert IsValidTimeFormat(t) <==> t == "" || ClockFormat(t);
    if t != "" && ClockFormat(t) {
      ClockFormatParses(t);
      var b := SetStartTimeStr(a, t).value;
      assert b == a.(startInt := ParseTime(t).value, startStr := t);
    }
  }

  /** The length column on a trimmed value: accepted exactly when it is a
      run of digits spelling a positive `int`, which becomes the length;
      digits beyond INT_MAX make `std::stoi` throw. */
  lemma EditLengthSpec(a: Act, t: string)
    requires TrimInput(t) == t
    ensures var r := EditLength(a, t);
      var digits := t != "" && AllDigits(t);
      && (r.Changed? <==> digits && 0 < DigitsValue(t) <= INT_MAX)
      && (r.Changed? ==> r.task == a.(length := DigitsValue(t)))
      && (r == Rejected(Thrown) <==> digits && DigitsValue(t) > INT_MAX)
  {
    if t != "" && AllDigits(t) {
      StoiOfDigitRun(t);
    }
  }

  /** What `applyEdit` leaves behind: success, or failure with the list as
      it then is. */
  datatype Edited = Applied(tasks: seq<Act>) | Refused(tasks: seq<Act>, error: EditError)

  /** applyEdit(manager, task_idx, col_idx, value, error_msg): check the
      index, trim the value and edit the cell in place (no undo entry is
      made), then run calcActLen and calcStartTimes; the first conflict
      warning turns the result into a failure, but the edit stays. */
  function ApplyEdit(ts: seq<Act>, dayLength: int, i: int, col: int, value: string): (r: Edited)
    ensures |r.tasks| == |ts|
    ensures !(0 <= i < |ts|) ==> r == Refused(ts, BadIndex)
    ensures r.Refused? && !r.error.Warned? ==> r.tasks == ts
    ensures 0 <= i < |ts| ==> (r == Refused(ts, NotEditable) <==> !IsColumnEditable(col))
  {
    if i < 0 || i >= |ts| then Refused(ts, BadIndex)
    else
      var cell := EditCell(ts[i], col, TrimInput(value));
      if cell.Rejected? then Refused(ts, cell.error)
      else
        var recalc := CalcActLen(ts[i := cell.task], dayLength);
        var after := CalcStartTimes(recalc.tasks);
        if recalc.hasWarnings && |recalc.warnings| > 0 then Refused(after, Warned(recalc.warnings[0]))
        else Applied(after)
  }

  /** After an accepted cell edit, the recalculated list carries the edited
      task's name, length, rigid and fixed flags at `i` and every other
      task's own at its place; a fixed task keeps its start text. The edit
      is refused with a warning exactly when the edited list has a
      conflict. */
  lemma ApplyEditLands(ts: seq<Act>, dayLength: int, i: int, col: int, value: string)
    requires 0 <= i < |ts|
    requires EditCell(ts[i], col, TrimInput(value)).Changed?
    ensures var e := ts[i := EditCell(ts[i], col, TrimInput(value)).task];
      var r := ApplyEdit(ts, dayLength, i, col, value);
      && (forall j | 0 <= j < |ts| :: Kept(r.tasks[j], e[j]))
      && (forall j | 0 <= j < |ts| && e[j].fixed :: r.tasks[j].startStr == e[j].startStr)
      && (r.Refused? <==> exists j | 0 <= j < |ts| :: ConflictAt(e, j))
  {
    var e := ts[i := EditCell(ts[i], col, TrimInput(value)).task];
    var recalc := CalcActLen(e, dayLength);
    CalcActLenIdentity(e, dayLength);
    CalcActLenWarnings(e, dayLength);
    CalcStartTimesChained(recalc.tasks);
    var after := CalcStartTimes(recalc.tasks);
    forall j | 0 <= j < |ts|
      ensures Kept(after[j], e[j])
      ensures e[j].fixed ==> after[j].startStr == e[j].startStr
    {
      assert ChainedStart(recalc.tasks, after, j);
      assert SameIdentity(recalc.tasks[j], e[j]);
    }
    WarningsMeanConflict(recalc.warnings, e);
  }

  /** The fields a recalculation never changes. */
  predicate Kept(b: Act, a: Act)
  {
    b.name == a.name && b.length == a.length && b.rigid == a.rigid && b.fixed == a.fixed
  }

  /** A list of all the conflicts of `ts` is empty exactly when `ts` has
      none. */
  lemma WarningsMeanConflict(ws: seq<Conflict>, ts: seq<Act>)
    requires ListsConflicts(ws, ts)
    ensures |ws| > 0 <==> exists j | 0 <= j < |ts| :: ConflictAt(ts, j)
  {
    if |ws| > 0 {
      assert ConflictAt(ts, ws[0].index);
    }
  }
}
