/** One activity of the day plan (src/Act.cpp).

    An `Act` keeps its start twice: `startInt`, minutes since midnight as
    last assigned (never wrapped), and `startStr`, the clock text shown to
    the user. `actual`, `frozen` and `frozenLength` are derived by the
    schedule engine. */
module Activity {
  import opened Outcomes
  import opened CppArith
  import opened Text

  /** The start a flexible activity is created with, and the start the
      engine gives a flexible first activity. */
  const DEFAULT_START: string := "09:00"

  datatype Act = Act(
    name: string,
    startInt: int,
    startStr: string,
    length: int,
    actual: int,
    frozenLength: int,
    rigid: bool,
    fixed: bool,
    frozen: bool)

  /** `std::string::find(c)`: the first position of `c`, or -1 for `npos`. */
  function IndexOf(s: string, c: char): (r: int)
    ensures -1 <= r < |s|
    ensures r == -1 <==> c !in s
    ensures r >= 0 ==> s[r] == c && c !in s[..r]
  {
    if |s| == 0 then -1
    else if s[0] == c then 0
    else
      var k := IndexOf(s[1..], c);
      assert s == [s[0]] + s[1..];
      if k < 0 then -1
      else
        assert s[..k + 1] == [s[0]] + s[1..][..k];
        k + 1
  }

  /** Act::timeStringToMinutes: "H:MM" to minutes since midnight. A missing
      colon, a colon first or last, an unreadable number or a value out of
      range throws, which is `Err` here. */
  function ParseTime(s: string): (r: Result<int>)
    ensures r.Ok? ==> 0 <= r.value < 1440
    ensures ':' !in s ==> r.Err?
    ensures |s| > 0 && s[0] == ':' ==> r.Err?
    ensures |s| > 0 && s[|s| - 1] == ':' && ':' !in s[..|s| - 1] ==> r.Err?
  {
    var colon := IndexOf(s, ':');
    if colon < 0 || colon == 0 || colon == |s| - 1 then
      Err("Invalid time format. Expected 'HH:MM'.")
    else
      ClockParts(Stoi(s[..colon]), Stoi(s[colon + 1..]))
  }

  /** The second half of `timeStringToMinutes`: what `std::stoi` made of
      the hour and minute texts, then the range check. */
  function ClockParts(h: Option<int>, m: Option<int>): (r: Result<int>)
    ensures r.Ok? <==> (h.Some? && m.Some? && 0 <= h.value <= 23 && 0 <= m.value <= 59)
    ensures r.Ok? ==> r.value == h.value * 60 + m.value && 0 <= r.value < 1440
  {
    if h.None? || m.None? then Err("stoi")
    else if h.value < 0 || h.value > 23 || m.value < 0 || m.value > 59 then
      Err("Invalid time. Hours must be 0-23 and minutes 0-59.")
    else
      Ok(h.value * 60 + m.value)
  }

  /** `(n < 10 ? "0" : "") + std::to_string(n)`. */
  function ZeroLed(n: int): string
  {
    (if n < 10 then "0" else "") + IntToString(n)
  }

  /** Act::minutesToTime: reduce with C++ `%` (so a negative input stays
      negative), then print hours and minutes with a '0' in front of any
      value below ten. */
  function MinutesToTime(total: int): string
  {
    var t := TruncMod(total, 1440);
    ZeroLed(TruncDiv(t, 60)) + ":" + ZeroLed(TruncMod(t, 60))
  }

  /** A clock component prints without a colon, in at least two characters,
      and reads back as itself, or as 0 when it is negative ("0-5" reads as
      the leading "0"). */
  lemma ZeroLedReadsBack(n: int)
    requires -99 <= n <= 99
    ensures ':' !in ZeroLed(n) && |ZeroLed(n)| >= 2
    ensures Stoi(ZeroLed(n)) == Some(if n >= 0 then n else 0)
    ensures 0 <= n ==> ZeroLed(n) == Setw2(n)
  {
    if n >= 10 {
      ZeroLedLarge(n);
    } else if n >= 0 {
      ZeroLedSmall(n);
    } else {
      ZeroLedNegative(n);
    }
  }

  lemma ZeroLedLarge(n: int)
    requires 10 <= n <= 99
    ensures ':' !in ZeroLed(n) && |ZeroLed(n)| >= 2
    ensures Stoi(ZeroLed(n)) == Some(n)
    ensures ZeroLed(n) == Setw2(n)
  {
    var z := ZeroLed(n);
    assert z == IntToString(n) && |z| == 2;
    StoiIntToString(n);
    NoColonInNumber(n);
  }

  lemma NoColonInNumber(n: nat)
    ensures ':' !in NatToString(n)
  {
    NatToStringDigits(n);
    var z := NatToString(n);
    assert forall i | 0 <= i < |z| :: IsDigit(z[i]);
  }

  lemma ZeroLedSmall(n: int)
    requires 0 <= n < 10
    ensures ':' !in ZeroLed(n) && |ZeroLed(n)| >= 2
    ensures Stoi(ZeroLed(n)) == Some(n)
    ensures ZeroLed(n) == Setw2(n)
  {
    var d := DigitChar(n);
    var z := ['0', d];
    assert ZeroLed(n) == z by {
      assert IntToString(n) == [d];
    }
    assert Setw2(n) == z by {
      assert IntToString(n) == [d];
    }
    assert AllDigits(z) && DigitsValue(z) == n by {
      assert z[..1] == ['0'];
      assert ['0'][..0] == [];
    }
    StoiOfDigits(z);
  }

  lemma ZeroLedNegative(n: int)
    requires -99 <= n < 0
    ensures ':' !in ZeroLed(n) && |ZeroLed(n)| >= 2
    ensures Stoi(ZeroLed(n)) == Some(0)
  {
    NatToStringDigits(-n);
    var d := NatToString(-n);
    var tail := "-" + d;
    assert ZeroLed(n) == "0" + tail;
    assert ':' !in "0" + tail by {
      assert forall i | 0 <= i < |d| :: IsDigit(d[i]);
    }
    assert AllDigits("0") && DigitsValue("0") == 0 by {
      assert "0"[..0] == [];
    }
    StoiReadsDigitRun("0", tail);
  }


  /** Where the first colon of `a + ":" + b` is, when `a` has none. */
  lemma SplitAtColon(a: string, b: string)
    requires ':' !in a
    ensures var s := a + ":" + b;
      IndexOf(s, ':') == |a| && s[..|a|] == a && s[|a| + 1..] == b
  {
    var s := a + ":" + b;
    assert s[..|a|] == a;
    assert s[|a| + 1..] == b;
    assert s[|a|] == ':';
  }

  /** `timeStringToMinutes` on two readable parts around the first colon. */
  lemma ParseJoined(a: string, b: string, x: int, y: int)
    requires ':' !in a && 0 < |a| && 0 < |b|
    requires Stoi(a) == Some(x) && Stoi(b) == Some(y)
    requires 0 <= x <= 23 && 0 <= y <= 59
    ensures ParseTime(a + ":" + b) == Ok(x * 60 + y)
  {
    var s := a + ":" + b;
    SplitAtColon(a, b);
    var c := IndexOf(s, ':');
    assert c == |a| && c != 0 && c != |s| - 1;
    assert ParseTime(s) == ClockParts(Some(x), Some(y));
    ClockPartsInRange(x, y);
  }

  lemma ClockPartsInRange(x: int, y: int)
    requires 0 <= x <= 23 && 0 <= y <= 59
    ensures ClockParts(Some(x), Some(y)) == Ok(x * 60 + y)
  {
  }

  /** Whatever `minutesToTime` prints, `timeStringToMinutes` accepts; it
      reads back the clock minute for a non-negative input and 0 for a
      negative one. */
  lemma ParseMinutesToTime(m: int)
    ensures ParseTime(MinutesToTime(m)) == Ok(if m >= 0 then m % 1440 else 0)
  {
    if m >= 0 {
      ParseMinutesToTimeNatural(m);
    } else {
      ParseMinutesToTimeNegative(m);
    }
  }

  lemma ParseMinutesToTimeNatural(m: int)
    requires m >= 0
    ensures ParseTime(MinutesToTime(m)) == Ok(m % 1440)
  {
    var h, mm := NaturalFields(m);
    ParseZeroLedClock(h, mm);
  }

  lemma ParseMinutesToTimeNegative(m: int)
    requires m < 0
    ensures ParseTime(MinutesToTime(m)) == Ok(0)
  {
    var t := TruncMod(m, 1440);
    var h, mm := TruncDiv(t, 60), TruncMod(t, 60);
    MinutesToTimeNegative(m);
    ParseZeroLedNegative(h, mm);
  }

  /** The hour and minute `minutesToTime` prints for a non-negative input. */
  lemma NaturalFields(m: int) returns (h: int, mm: int)
    requires m >= 0
    ensures MinutesToTime(m) == ZeroLed(h) + ":" + ZeroLed(mm)
    ensures 0 <= h < 24 && 0 <= mm < 60 && h * 60 + mm == m % 1440
  {
    var t := m % 1440;
    MinutesToTimeNatural(m);
    HoursAndMinutes(t);
    h, mm := t / 60, t % 60;
  }

  /** For a non-negative input C++ `%` and `/` are the ordinary ones. */
  lemma MinutesToTimeNatural(m: int)
    requires m >= 0
    ensures var t := m % 1440;
      MinutesToTime(m) == ZeroLed(t / 60) + ":" + ZeroLed(t % 60)
      && 0 <= t / 60 < 24 && 0 <= t % 60 < 60
  {
    var t := m % 1440;
    assert TruncMod(m, 1440) == t by {
      TruncAgreesOnNatural(m, 1440);
    }
    assert TruncDiv(t, 60) == t / 60 && TruncMod(t, 60) == t % 60 by {
      TruncAgreesOnNatural(t, 60);
    }
  }

  /** For a negative input both printed components are negative or zero. */
  lemma MinutesToTimeNegative(m: int)
    requires m < 0
    ensures var t := TruncMod(m, 1440);
      var h, mm := TruncDiv(t, 60), TruncMod(t, 60);
      MinutesToTime(m) == ZeroLed(h) + ":" + ZeroLed(mm)
      && -24 < h <= 0 && -60 < mm <= 0
  {
    var t := TruncMod(m, 1440);
    assert -1440 < t <= 0;
    var h := TruncDiv(t, 60);
    assert Abs(h) == Abs(t) / 60;
  }

  lemma HoursAndMinutes(t: int)
    requires t >= 0
    ensures t / 60 * 60 + t % 60 == t
  {
  }

  lemma ClockMinuteIsItsOwnRemainder(m: int)
    requires 0 <= m < 1440
    ensures m % 1440 == m
  {
  }

  /** A clock reading printed with `ZeroLed` reads back as itself. */
  lemma ParseZeroLedClock(h: int, mm: int)
    requires 0 <= h < 24 && 0 <= mm < 60
    ensures ParseTime(ZeroLed(h) + ":" + ZeroLed(mm)) == Ok(h * 60 + mm)
  {
    ZeroLedReadsBack(h);
    ZeroLedReadsBack(mm);
    ParseJoined(ZeroLed(h), ZeroLed(mm), h, mm);
  }

  /** Negative components print as "0-H" and "0-M", which read back as 0. */
  lemma ParseZeroLedNegative(h: int, mm: int)
    requires -24 < h <= 0 && -60 < mm <= 0
    ensures ParseTime(ZeroLed(h) + ":" + ZeroLed(mm)) == Ok(0)
  {
    ZeroLedReadsBack(h);
    ZeroLedReadsBack(mm);
    ParseJoined(ZeroLed(h), ZeroLed(mm), 0, 0);
  }

  /** On a clock minute the C++ remainders are the ordinary ones. */
  lemma MinutesToTimeOfClock(m: int)
    requires 0 <= m < 1440
    ensures MinutesToTime(m) == ZeroLed(m / 60) + ":" + ZeroLed(m % 60)
  {
    assert TruncMod(m, 1440) == m by {
      TruncAgreesOnNatural(m, 1440);
    }
    TruncAgreesOnNatural(m, 60);
  }

  /** For a clock minute the text is "HH:MM": five characters, a colon in
      the middle, the two-digit hour and minute around it. */
  lemma MinutesToTimeShape(m: int)
    requires 0 <= m < 1440
    ensures var r := MinutesToTime(m);
      |r| == 5 && r[2] == ':' && r == Setw2(m / 60) + ":" + Setw2(m % 60)
      && IsDigit(r[0]) && IsDigit(r[1]) && IsDigit(r[3]) && IsDigit(r[4])
  {
    MinutesToTimeIsPadded(m);
    PaddedShape(m / 60, m % 60);
  }

  lemma MinutesToTimeIsPadded(m: int)
    requires 0 <= m < 1440
    ensures MinutesToTime(m) == Setw2(m / 60) + ":" + Setw2(m % 60)
  {
    MinutesToTimeOfClock(m);
    ZeroLedReadsBack(m / 60);
    ZeroLedReadsBack(m % 60);
  }

  lemma PaddedShape(h: int, mm: int)
    requires 0 <= h < 100 && 0 <= mm < 100
    ensures var r := Setw2(h) + ":" + Setw2(mm);
      |r| == 5 && r[2] == ':'
      && IsDigit(r[0]) && IsDigit(r[1]) && IsDigit(r[3]) && IsDigit(r[4])
  {
    var x, y := Setw2(h), Setw2(mm);
    var r := x + ":" + y;
    assert r[0] == x[0] && r[1] == x[1] && r[2] == ':' && r[3] == y[0] && r[4] == y[1];
  }

  /** `timeStringToMinutes(minutesToTime(m)) == m` on a clock minute. */
  lemma TimeRoundTrip(m: int)
    requires 0 <= m < 1440
    ensures ParseTime(MinutesToTime(m)) == Ok(m)
  {
    ParseMinutesToTimeNatural(m);
    ClockMinuteIsItsOwnRemainder(m);
  }

  /** `minutesToTime` forgets whole days of a non-negative input. */
  lemma MinutesToTimeWraps(m: int)
    requires m >= 0
    ensures MinutesToTime(m + 1440) == MinutesToTime(m)
  {
    assert TruncMod(m + 1440, 1440) == TruncMod(m, 1440) by {
      TruncAgreesOnNatural(m, 1440);
      TruncAgreesOnNatural(m + 1440, 1440);
      assert (m + 1440) % 1440 == m % 1440;
    }
  }

  lemma DefaultStartIsNine()
    ensures MinutesToTime(540) == DEFAULT_START
    ensures ParseTime(DEFAULT_START) == Ok(540)
  {
    NineOClock();
    TimeRoundTrip(540);
  }

  lemma NineOClock()
    ensures MinutesToTime(540) == DEFAULT_START
  {
    NineOClockPadded();
    PaddedNine();
    PaddedZero();
    assert "09" + ":" + "00" == DEFAULT_START;
  }

  lemma NineOClockPadded()
    ensures MinutesToTime(540) == Setw2(9) + ":" + Setw2(0)
  {
    assert 540 / 60 == 9 && 540 % 60 == 0;
    MinutesToTimeIsPadded(540);
  }

  lemma PaddedNine()
    ensures Setw2(9) == "09"
  {
    assert DigitChar(0) == '0' && DigitChar(9) == '9';
  }

  lemma PaddedZero()
    ensures Setw2(0) == "00"
  {
    assert DigitChar(0) == '0';
  }

  /** The invariant every constructor and mutator keeps: the clock text can
      be read back by `timeStringToMinutes`. */
  predicate WellFormed(a: Act)
  {
    ParseTime(a.startStr).Ok?
  }

  /** The start text and the start minute agree. Fails once `startInt` has
      run past midnight, because only the text is wrapped. */
  predicate Canonical(a: Act)
  {
    ParseTime(a.startStr) == Ok(a.startInt)
  }

  /** Act(name, timeStr, length, isRigid): a fixed activity anchored at the
      parsed time; throws when the time does not parse. */
  function NewFixed(name: string, timeStr: string, length: int, rigid: bool): (r: Result<Act>)
    ensures r.Ok? <==> ParseTime(timeStr).Ok?
    ensures r.Ok? ==> var a := r.value;
      a.name == name && a.length == length && a.rigid == rigid
      && a.fixed && !a.frozen && a.actual == 0 && a.frozenLength == 0
      && a.startStr == timeStr && a.startInt == ParseTime(timeStr).value
      && Canonical(a)
  {
    SetStartTimeStr(Act(name, 0, timeStr, length, 0, 0, rigid, true, false), timeStr)
  }

  /** Act(name, length, isRigid): a flexible activity starting at 09:00. */
  function NewFlexible(name: string, length: int, rigid: bool): (a: Act)
    ensures a.name == name && a.length == length && a.rigid == rigid
    ensures !a.fixed && !a.frozen && a.actual == 0 && a.frozenLength == 0
    ensures a.startInt == 540 && a.startStr == DEFAULT_START && Canonical(a)
  {
    DefaultStartIsNine();
    SetStartTimeStr(Act(name, 0, DEFAULT_START, length, 0, 0, rigid, false, false), DEFAULT_START).value
  }

  /** setStartTime(std::string): parse first, so a bad time throws before
      anything changes; `fixed` is left alone. */
  function SetStartTimeStr(a: Act, s: string): (r: Result<Act>)
    ensures r.Ok? <==> ParseTime(s).Ok?
    ensures r.Ok? ==> r.value.startStr == s && r.value.startInt == ParseTime(s).value
    ensures r.Ok? ==> Canonical(r.value)
    ensures r.Ok? ==> r.value.(startInt := a.startInt, startStr := a.startStr) == a
  {
    match ParseTime(s)
    case Ok(m) => Ok(a.(startInt := m, startStr := s))
    case Err(e) => Err(e)
  }

  /** setStartTime(int): the minute is stored as given, only the text is
      wrapped; `fixed` is left alone. */
  function SetStartTimeInt(a: Act, m: int): (r: Act)
    ensures r.startInt == m && r.startStr == MinutesToTime(m)
    ensures r.(startInt := a.startInt, startStr := a.startStr) == a
  {
    a.(startInt := m, startStr := MinutesToTime(m))
  }

  /** The text `setStartTime(int)` stores is always readable, and agrees
      with the stored minute when that minute is a clock minute. */
  lemma SetStartTimeIntReadable(a: Act, m: int)
    ensures WellFormed(SetStartTimeInt(a, m))
    ensures 0 <= m < 1440 ==> Canonical(SetStartTimeInt(a, m))
  {
    ParseMinutesToTime(m);
    if 0 <= m < 1440 {
      ClockMinuteIsItsOwnRemainder(m);
    }
  }

  /** setCurrentTime with the wall clock passed in: `now` is the local
      hour * 60 + minute. Anchors the activity there. */
  function SetCurrentTime(a: Act, now: int): (r: Act)
    requires 0 <= now < 1440
    ensures r.startInt == now && r.fixed && Canonical(r)
    ensures r.startStr == MinutesToTime(now)
    ensures r.(startInt := a.startInt, startStr := a.startStr, fixed := a.fixed) == a
  {
    TimeRoundTrip(now);
    SetStartTimeInt(a, now).(fixed := true)
  }

  /** setActLen(double ratio) with the ratio kept exact as `num / den`:
      rigid wins over frozen, frozen over the proportional share, and the
      share `length * ratio` is cut toward zero as `static_cast<int>`
      does. */
  function SetActLenRatio(a: Act, num: int, den: int): (r: Act)
    requires den > 0
    ensures a.rigid ==> r.actual == a.length
    ensures !a.rigid && a.frozen ==> r.actual == a.frozenLength
    ensures !a.rigid && !a.frozen ==> r.actual == TruncDiv(a.length * num, den)
    ensures r.(actual := a.actual) == a
  {
    if a.rigid then a.(actual := a.length)
    else if a.frozen then a.(actual := a.frozenLength)
    else a.(actual := TruncDiv(a.length * num, den))
  }

  /** setActLen(int) */
  function SetActLen(a: Act, n: int): Act { a.(actual := n) }

  /** setFrozenLen(int) */
  function SetFrozenLen(a: Act, n: int): Act { a.(frozenLength := n) }

  /** setRigid(): a flip. */
  function ToggleRigid(a: Act): Act { a.(rigid := !a.rigid) }

  /** setRigid(bool) */
  function SetRigid(a: Act, b: bool): Act { a.(rigid := b) }

  /** setFixed(): a flip, despite its name. */
  function ToggleFixed(a: Act): Act { a.(fixed := !a.fixed) }

  /** toggleFrozen() */
  function ToggleFrozen(a: Act): Act { a.(frozen := !a.frozen) }

  function SetName(a: Act, n: string): Act { a.(name := n) }

  function SetLength(a: Act, n: int): Act { a.(length := n) }

  /** The flips undo themselves, `setRigid(b)` lands on `b`, and each
      mutator changes its own field only. */
  lemma FlagMutators(a: Act, b: bool)
    ensures ToggleFixed(ToggleFixed(a)) == a && ToggleFixed(a).fixed != a.fixed
    ensures ToggleFrozen(ToggleFrozen(a)) == a && ToggleFrozen(a).frozen != a.frozen
    ensures ToggleRigid(ToggleRigid(a)) == a && ToggleRigid(a).rigid != a.rigid
    ensures SetRigid(a, b).rigid == b && SetRigid(a, b).(rigid := a.rigid) == a
    ensures ToggleFixed(a).(fixed := a.fixed) == a
    ensures ToggleFrozen(a).(frozen := a.frozen) == a
  {
  }

  /** Every mutator keeps the start text readable. */
  lemma MutatorsKeepWellFormed(a: Act, s: string, m: int, now: int, num: int, den: int, n: int, b: bool)
    requires WellFormed(a)
    requires 0 <= now < 1440 && den > 0
    ensures SetStartTimeStr(a, s).Ok? ==> WellFormed(SetStartTimeStr(a, s).value)
    ensures WellFormed(SetStartTimeInt(a, m)) && WellFormed(SetCurrentTime(a, now))
    ensures WellFormed(SetActLenRatio(a, num, den)) && WellFormed(SetActLen(a, n))
    ensures WellFormed(SetFrozenLen(a, n)) && WellFormed(ToggleRigid(a))
    ensures WellFormed(SetRigid(a, b)) && WellFormed(ToggleFixed(a))
    ensures WellFormed(ToggleFrozen(a)) && WellFormed(SetName(a, s))
    ensures WellFormed(SetLength(a, n))
  {
    SetStartTimeIntReadable(a, m);
    SetStartTimeIntReadable(a, now);
  }

  /** The hour of `^([0-1]?[0-9]|2[0-3]):[0-5][0-9]$`: one digit, or two
      digits from 00 to 23. */
  predicate HourField(h: string)
  {
    || (|h| == 1 && IsDigit(h[0]))
    || (|h| == 2 && '0' <= h[0] <= '1' && IsDigit(h[1]))
    || (|h| == 2 && h[0] == '2' && '0' <= h[1] <= '3')
  }

  /** The minute of the same pattern: two digits from 00 to 59. */
  predicate MinuteField(m: string)
  {
    |m| == 2 && '0' <= m[0] <= '5' && IsDigit(m[1])
  }

  /** The clock pattern `^([0-1]?[0-9]|2[0-3]):[0-5][0-9]$`: the colon
      sits three characters before the end, after a one- or two-digit
      hour. */
  predicate ClockFormat(s: string)
  {
    && 4 <= |s| <= 5
    && s[|s| - 3] == ':'
    && HourField(s[..|s| - 3])
    && MinuteField(s[|s| - 2..])
  }

  lemma HourFieldValue(h: string)
    requires HourField(h)
    ensures AllDigits(h) && 0 < |h| && DigitsValue(h) <= 23 && ':' !in h
  {
    assert h[..|h| - 1][..|h| - 1] == h[..|h| - 1];
    if |h| == 2 {
      assert h[..1][..0] == [];
      assert DigitsValue(h[..1]) == DigitValue(h[0]);
    }
  }

  lemma MinuteFieldValue(m: string)
    requires MinuteField(m)
    ensures AllDigits(m) && 0 < |m| && DigitsValue(m) <= 59
  {
    assert m[..1][..0] == [];
    assert DigitsValue(m[..1]) == DigitValue(m[0]);
  }

  lemma HourFieldRead(h: string) returns (x: int)
    requires HourField(h)
    ensures Stoi(h) == Some(x) && 0 <= x <= 23 && ':' !in h && 0 < |h|
  {
    HourFieldValue(h);
    StoiOfDigits(h);
    x := DigitsValue(h);
  }

  lemma MinuteFieldRead(m: string) returns (y: int)
    requires MinuteField(m)
    ensures Stoi(m) == Some(y) && 0 <= y <= 59 && 0 < |m|
  {
    MinuteFieldValue(m);
    StoiOfDigits(m);
    y := DigitsValue(m);
  }

  /** Every text of the clock pattern is a time `timeStringToMinutes`
      accepts. */
  lemma ClockFormatParses(s: string)
    requires ClockFormat(s)
    ensures ParseTime(s).Ok?
  {
    var c := |s| - 3;
    ClockFormatSplit(s);
    FieldsParse(s[..c], s[c + 1..]);
  }

  lemma ClockFormatSplit(s: string)
    requires ClockFormat(s)
    ensures var c := |s| - 3;
      s == s[..c] + ":" + s[c + 1..] && HourField(s[..c]) && MinuteField(s[c + 1..])
  {
    var c := |s| - 3;
    assert s[c + 1..] == s[|s| - 2..];
  }

  lemma FieldsParse(h: string, m: string)
    requires HourField(h) && MinuteField(m)
    ensures ParseTime(h + ":" + m).Ok?
  {
    var x := HourFieldRead(h);
    var y := MinuteFieldRead(m);
    ParseJoined(h, m, x, y);
  }

  /** Two '0'-padded clock fields make a text of the clock pattern. */
  lemma PaddedFormat(h: int, mm: int)
    requires 0 <= h < 24 && 0 <= mm < 60
    ensures ClockFormat(Setw2(h) + ":" + Setw2(mm))
  {
    var x, y := Setw2(h), Setw2(mm);
    var s := x + ":" + y;
    assert s[..2] == x && s[3..] == y && s[2] == ':';
  }

  /** `minutesToTime` of a clock minute matches the clock pattern. */
  lemma MinutesToTimeFormat(m: int)
    requires 0 <= m < 1440
    ensures ClockFormat(MinutesToTime(m))
  {
    MinutesToTimeIsPadded(m);
    PaddedFormat(m / 60, m % 60);
  }
}
