/** The sample day of src/main_demo.cpp, worked through the model: a
    7-hour day (420 minutes) with two fixed activities, "A" at 10:00 for
    60 minutes and "B" at 13:30 for 10, then two flexible ones, "C" for 60
    and "D" for 15, followed by `calcActLen` and `calcStartTimes`. */
module Demo {
  import opened Outcomes
  import opened CppArith
  import opened Text
  import opened Activity
  import opened TaskManager

  const DAY_LENGTH: int := 7 * 60

  /** A clock text "H:MM" made of digit fields reads as its minute. */
  lemma ReadsAs(s: string, h: string, m: string, x: int, y: int)
    requires s == h + ":" + m && ':' !in h && 0 < |h| && 0 < |m| && AllDigits(h) && AllDigits(m)
    requires DigitsValue(h) == x <= 23 && DigitsValue(m) == y <= 59
    ensures ParseTime(s) == Ok(x * 60 + y)
  {
    StoiOfDigits(h);
    StoiOfDigits(m);
    ParseJoined(h, m, x, y);
  }

  /** The list after the four `addTask` calls, written out. */
  function DemoTasks(): (ts: seq<Act>)
  {
    [ Act("A", 600, "10:00", 60, 0, 0, false, true, false),
      Act("B", 810, "13:30", 10, 0, 0, false, true, false),
      Act("C", 540, DEFAULT_START, 60, 0, 0, false, false, false),
      Act("D", 540, DEFAULT_START, 15, 0, 0, false, false, false) ]
  }

  /** `addTask("A", "10:00", 60, false)`, `addTask("B", "13:30", 10, false)`,
      `addTask("C", 60, false)` and `addTask("D", 15, false)` on an empty
      list build exactly that list. The two clock texts come in as
      parameters pinned by `requires`, so that the verifier unfolds
      `ParseTime` on a literal only inside the small lemmas below. */
  lemma DemoTasksAdded(ta: string, tb: string)
    requires ta == "10:00" && tb == "13:30"
    ensures NewFixed("A", ta, 60, false).Ok? && NewFixed("B", tb, 10, false).Ok?
    ensures AddTask(AddTask(AddTask(AddTask([], NewFixed("A", ta, 60, false).value),
              NewFixed("B", tb, 10, false).value), NewFlexible("C", 60, false)),
              NewFlexible("D", 15, false)) == DemoTasks()
  {
    TenOClock(ta);
    HalfPastOne(tb);
    FixedIs("A", ta, 600, 60, false);
    FixedIs("B", tb, 810, 10, false);
    FlexibleIs("C", 60, false);
    FlexibleIs("D", 15, false);
    FourAdded(NewFixed("A", ta, 60, false).value, NewFixed("B", tb, 10, false).value,
      NewFlexible("C", 60, false), NewFlexible("D", 15, false));
  }

  lemma FourAdded(a: Act, b: Act, c: Act, d: Act)
    ensures AddTask(AddTask(AddTask(AddTask([], a), b), c), d) == [a, b, c, d]
  {
  }

  // These two take their text as a parameter pinned to its literal, for the same reason.
  lemma TenOClock(t: string)
    requires t == "10:00"
    ensures ParseTime(t) == Ok(600)
  {
    ReadsAs(t, "10", "00", 10, 0);
  }

  lemma HalfPastOne(t: string)
    requires t == "13:30"
    ensures ParseTime(t) == Ok(810)
  {
    ReadsAs(t, "13", "30", 13, 30);
  }

  /** What the fixed constructor builds, field by field. */
  lemma FixedIs(name: string, s: string, m: int, length: int, rigid: bool)
    requires ParseTime(s) == Ok(m)
    ensures NewFixed(name, s, length, rigid) == Ok(Act(name, m, s, length, 0, 0, rigid, true, false))
  {
  }

  /** What the flexible constructor builds, field by field. */
  lemma FlexibleIs(name: string, length: int, rigid: bool)
    ensures NewFlexible(name, length, rigid) == Act(name, 540, DEFAULT_START, length, 0, 0, rigid, false, false)
  {
  }

  /** The totals of a four-task list, term by term. */
  lemma Totals4(f: seq<Act>)
    requires |f| == 4
    ensures RigidTotal(f) == RigidShare(f[0]) + RigidShare(f[1]) + RigidShare(f[2]) + RigidShare(f[3])
    ensures FlexTotal(f) == FlexShare(f[0]) + FlexShare(f[1]) + FlexShare(f[2]) + FlexShare(f[3])
  {
    var f1 := f[1..];
    var f2 := f1[1..];
    var f3 := f2[1..];
    assert f3[1..] == [];
    assert RigidTotal(f3) == RigidShare(f[3]) && FlexTotal(f3) == FlexShare(f[3]);
    assert RigidTotal(f2) == RigidShare(f[2]) + RigidTotal(f3) && FlexTotal(f2) == FlexShare(f[2]) + FlexTotal(f3);
    assert RigidTotal(f1) == RigidShare(f[1]) + RigidTotal(f2) && FlexTotal(f1) == FlexShare(f[1]) + FlexTotal(f2);
  }

  /** After the freeze pass only "A" is frozen, to the 210 minutes up to
      "B"; the ratio is then (420 - 210) / (10 + 60 + 15). */
  lemma DemoFreeze()
    ensures var f := FreezeAll(DemoTasks());
      f[0].frozen && f[0].actual == 210 && f[0].frozenLength == 210
      && !f[1].frozen && !f[2].frozen && !f[3].frozen
      && ShareRatio(f, DAY_LENGTH) == Ratio(210, 85)
  {
    var ts := DemoTasks();
    var f := FreezeAll(ts);
    assert f[0] == Freeze(ts[0], 810);
    assert f[1] == ts[1] && f[2] == ts[2] && f[3] == ts[3];
    Totals4(f);
  }

  /** The actual lengths come out as 210, 24, 148 and 37 minutes (each
      share cut toward zero) and the starts as 10:00, 13:30, 13:54 and
      16:22; "A" is left frozen. */
  lemma DemoSchedule()
    ensures var r := CalcStartTimes(CalcActLen(DemoTasks(), DAY_LENGTH).tasks);
      && r[0].actual == 210 && r[1].actual == 24 && r[2].actual == 148 && r[3].actual == 37
      && r[0].startInt == 600 && r[1].startInt == 810 && r[2].startInt == 834 && r[3].startInt == 982
      && r[0].frozen && !r[1].frozen && !r[2].frozen && !r[3].frozen
  {
    var ts := DemoTasks();
    var c := CalcActLen(ts, DAY_LENGTH).tasks;
    DemoFreeze();
    CalcActLenUnfolds(ts, DAY_LENGTH);
    var f := FreezeAll(ts);
    assert c[0] == SetActLenRatio(f[0], 210, 85);
    assert c[1] == SetActLenRatio(f[1], 210, 85);
    assert c[2] == SetActLenRatio(f[2], 210, 85);
    assert c[3] == SetActLenRatio(f[3], 210, 85);
    assert c[1].actual == 24 && c[2].actual == 148 && c[3].actual == 37;
    var r := CalcStartTimes(c);
    CalcStartTimesChained(c);
    assert ChainedStart(c, r, 0) && ChainedStart(c, r, 1);
    assert ChainedStart(c, r, 2) && ChainedStart(c, r, 3);
  }
}
