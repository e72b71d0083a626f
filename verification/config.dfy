/** The planner's settings (src/Config.cpp): a map from key to text,
    filled with defaults, then overridden line by line from a `key: value`
    file, read back through typed getters. Opening and writing files is
    outside the model: here a file is the sequence of its lines, and
    module ConfigFile relates it to the text on disk. */
module Config {
  import opened Outcomes
  import opened CppArith
  import opened Text

  type Settings = map<string, string>

  /** The characters the parser trims off keys and values: blanks and tabs
      only. */
  const BLANKS: set<char> := {' ', '\t'}

  /** setDefaults. */
  function Defaults(): Settings
  {
    map[
      "data-dir" := "data",
      "default-day-length" := "7.0",
      "date-format" := "YYYY-MM-DD",
      "auto-save" := "true",
      "show-warnings" := "true",
      "default-start-time" := "09:00",
      "time-format" := "24h",
      "file-extension" := ".json",
      "backup-enabled" := "false",
      "max-backup-files" := "5",
      "table-width" := "full",
      "status-messages" := "true",
      "last-opened-file" := ""]
  }

  /** The keys saveToFile writes, in the order it writes them, each read
      with `settings.at`. */
  const SAVED_KEYS: seq<string> := [
    "data-dir", "default-day-length", "date-format",
    "auto-save", "show-warnings", "default-start-time", "time-format",
    "file-extension", "backup-enabled", "max-backup-files",
    "table-width", "status-messages"]

  /** Every key saveToFile reads is there, so none of its `at` calls throws. */
  predicate Saveable(s: Settings)
  {
    forall i | 0 <= i < |SAVED_KEYS| :: SAVED_KEYS[i] in s
  }

  // ---------------------------------------------------------------------
  // One line of the file

  /** What loadFromFile makes of one line. */
  datatype Line =
    | Skipped              // empty, or a '#' or ';' comment
    | Invalid              // no ':' anywhere: a warning, then the next line
    | EmptyKey             // nothing but blanks before the ':'
    | Setting(key: string, value: string)

  /** `find(':')`: the first position of `c`, or `|s|` for `npos`. */
  function Find(s: string, c: char): (r: nat)
    ensures r <= |s| && c !in s[..r]
    ensures r < |s| ==> s[r] == c
  {
    if |s| == 0 then 0
    else if s[0] == c then 0
    else
      var r := 1 + Find(s[1..], c);
      assert s[..r] == [s[0]] + s[1..][..r - 1];
      r
  }

  /** The per-line parse inside loadFromFile: the key is the text before
      the first ':', the value everything after it, both trimmed of blanks
      and tabs. */
  function ReadLine(line: string): (r: Line)
    ensures r.Skipped? <==> |line| == 0 || line[0] == '#' || line[0] == ';'
    ensures r.Invalid? <==> !r.Skipped? && ':' !in line
    ensures r.Setting? ==> r.key != "" && ':' !in r.key
  {
    if |line| == 0 || line[0] == '#' || line[0] == ';' then Skipped
    else
      var colon := Find(line, ':');
      if colon == |line| then
        assert line[..colon] == line;
        Invalid
      else
        var key := Trim(line[..colon], BLANKS);
        var value := Trim(line[colon + 1..], BLANKS);
        TrimSlice(line[..colon], BLANKS);
        if key == "" then EmptyKey else Setting(key, value)
  }

  /** A line updates the settings only when it names a key. */
  function Apply(s: Settings, line: string): (r: Settings)
  {
    match ReadLine(line)
    case Setting(k, v) => s[k := v]
    case _ => s
  }

  /** loadFromFile over the lines of a file that opened: each line in turn. */
  function Load(s: Settings, lines: seq<string>): Settings
    decreases |lines|
  {
    if |lines| == 0 then s else Load(Apply(s, lines[0]), lines[1..])
  }

  /** The value the last line naming `k` gives it, if any line does. */
  function LastSetting(lines: seq<string>, k: string): Option<string>
    decreases |lines|
  {
    if |lines| == 0 then None
    else
      var n := |lines| - 1;
      match ReadLine(lines[n])
      case Setting(key, v) => if key == k then Some(v) else LastSetting(lines[..n], k)
      case _ => LastSetting(lines[..n], k)
  }

  lemma {:induction false} LoadAppend(s: Settings, a: seq<string>, b: seq<string>)
    ensures Load(s, a + b) == Load(Load(s, a), b)
    decreases |a|
  {
    if |a| > 0 {
      assert (a + b)[1..] == a[1..] + b;
      LoadAppend(Apply(s, a[0]), a[1..], b);
    } else {
      assert a + b == b;
    }
  }

  /** A later line for the same key overrides earlier lines and the
      settings loaded before: after loading, a key has the value of the
      last line that names it, or else the value it had. */
  lemma {:induction false} LoadLookup(s: Settings, lines: seq<string>, k: string)
    ensures var r := Load(s, lines);
      && (k in r <==> LastSetting(lines, k).Some? || k in s)
      && (LastSetting(lines, k).Some? ==> r[k] == LastSetting(lines, k).value)
      && (LastSetting(lines, k).None? && k in s ==> r[k] == s[k])
    decreases |lines|
  {
    if |lines| > 0 {
      var n := |lines| - 1;
      assert lines == lines[..n] + [lines[n]];
      LoadAppend(s, lines[..n], [lines[n]]);
      LoadLookup(s, lines[..n], k);
      assert [lines[n]][1..] == [];
    }
  }

  /** Loading never loses a key, so a settings map that starts out
      saveable stays saveable. */
  lemma LoadSaveable(s: Settings, lines: seq<string>)
    requires Saveable(s)
    ensures Saveable(Load(s, lines))
  {
    forall i | 0 <= i < |SAVED_KEYS|
      ensures SAVED_KEYS[i] in Load(s, lines)
    {
      LoadLookup(s, lines, SAVED_KEYS[i]);
    }
  }

  // ---------------------------------------------------------------------
  // Getters and setters

  /** getString: the value, or the default for a missing key. */
  function GetString(s: Settings, k: string, default: string): (r: string)
    ensures k !in s ==> r == default
  {
    if k in s then s[k] else default
  }

  /** getInt: `std::stoi` of the value; a value it rejects, like a missing
      key, gives the default. */
  function GetInt(s: Settings, k: string, default: int): (r: int)
    ensures k !in s ==> r == default
    ensures k in s && Stoi(s[k]).None? ==> r == default
  {
    if k in s then
      match Stoi(s[k])
      case Some(n) => n
      case None => default
    else default
  }

  /** The values getBool reads as true, after lowering the case. */
  predicate Truthy(v: string)
  {
    v == "true" || v == "yes" || v == "1" || v == "on"
  }

  /** getBool: a present key is true exactly when its value, lowered, is
      one of true, yes, 1, on; anything else is false, not the default. */
  function GetBool(s: Settings, k: string, default: bool): (r: bool)
    ensures k !in s ==> r == default
    ensures k in s ==> (r <==> Truthy(ToLower(s[k])))
  {
    if k in s then Truthy(ToLower(s[k])) else default
  }

  function Has(s: Settings, k: string): bool
  {
    k in s
  }

  /** set(key, string). Every other key keeps its value. */
  function Set(s: Settings, k: string, v: string): (r: Settings)
    ensures Has(r, k) && GetString(r, k, "") == v
    ensures forall j | j != k :: Has(r, j) == Has(s, j) && (Has(s, j) ==> r[j] == s[j])
  {
    s[k := v]
  }

  /** set(key, int): the value is written with `std::to_string`. */
  function SetInt(s: Settings, k: string, n: int): (r: Settings)
    ensures Has(r, k) && |r[k]| > 0
  {
    Set(s, k, IntToString(n))
  }

  /** set(key, bool): "true" or "false". */
  function SetBool(s: Settings, k: string, b: bool): (r: Settings)
    ensures Has(r, k) && (r[k] == "true" || r[k] == "false")
  {
    Set(s, k, if b then "true" else "false")
  }

  /** setLastOpenedFile. */
  function SetLastOpenedFile(s: Settings, file: string): (r: Settings)
    ensures GetString(r, "last-opened-file", "") == file
  {
    Set(s, "last-opened-file", file)
  }

  /** A string set is read back as is, whatever the default. */
  lemma SetThenGetString(s: Settings, k: string, v: string, default: string)
    ensures GetString(Set(s, k, v), k, default) == v
  {
  }

  /** An int set is read back as is: `std::stoi` inverts `std::to_string`. */
  lemma SetThenGetInt(s: Settings, k: string, n: int, default: int)
    requires INT_MIN <= n <= INT_MAX
    ensures GetInt(SetInt(s, k, n), k, default) == n
  {
    StoiIntToString(n);
  }

  /** A bool set is read back as is, whatever the default. */
  lemma SetThenGetBool(s: Settings, k: string, b: bool, default: bool)
    ensures GetBool(SetBool(s, k, b), k, default) == b
  {
    var r := SetBool(s, k, b);
    if b {
      assert ToLower("true") == "true";
    } else {
      assert ToLower("false") == "false";
      assert ToLower("false") != "1" by {
        assert |ToLower("false")| == 5;
      }
    }
  }

  /** getBool ignores case: "TRUE", "Yes" and "ON" count as true. */
  lemma GetBoolIgnoresCase(s: Settings, k: string, default: bool)
    ensures GetBool(s["k" := "TRUE"], "k", default)
    ensures GetBool(s["k" := "Yes"], "k", default)
    ensures GetBool(s["k" := "ON"], "k", default)
    ensures !GetBool(s["k" := "enabled"], "k", true)
  {
    assert ToLower("TRUE") == "true";
    assert ToLower("Yes") == "yes";
    assert ToLower("ON") == "on";
    assert |ToLower("enabled")| == 7;
  }

  // ---------------------------------------------------------------------
  // Lines the parser reads

  /** A value may hold ':' itself: only the first one splits, so a start
      time keeps its minutes. */
  lemma ColonInValue(hours: string, minutes: string)
    requires |hours| > 0 && hours[0] !in BLANKS && |minutes| > 0 && minutes[|minutes| - 1] !in BLANKS
    ensures ReadLine(SaveLine("default-start-time", hours + ":" + minutes)) == Setting("default-start-time", hours + ":" + minutes)
  {
    SaveLineReadsBack("default-start-time", hours + ":" + minutes);
  }

  /** No blank or tab at either end. */
  predicate Unpadded(v: string)
  {
    |v| == 0 || (v[0] !in BLANKS && v[|v| - 1] !in BLANKS)
  }

  /** The strings trimming leaves alone are exactly the unpadded ones. */
  lemma UnpaddedTrim(v: string)
    ensures Trim(v, BLANKS) == v <==> Unpadded(v)
  {
    TrimEnds(v, BLANKS);
    if Unpadded(v) {
      assert TrimLeft(v, BLANKS) == v;
      assert TrimRight(v, BLANKS) == v;
    }
  }

  /** Blank and comment lines change nothing. */
  lemma CommentLinesIgnored(s: Settings)
    ensures Apply(s, "") == s
    ensures Apply(s, "# data-dir: elsewhere") == s
    ensures Apply(s, "; data-dir: elsewhere") == s
  {
  }

  /** A line without a colon changes nothing. */
  lemma ColonlessLineIgnored(s: Settings)
    ensures Apply(s, "data-dir elsewhere") == s
  {
    var bad := "data-dir elsewhere";
    assert ':' !in bad by {
      forall i | 0 <= i < |bad|
        ensures bad[i] != ':'
      {
      }
    }
  }

  /** A line whose key is only blanks changes nothing. */
  lemma KeylessLineIgnored(s: Settings)
    ensures Apply(s, "  : elsewhere") == s
  {
    var keyless := "  : elsewhere";
    assert Find(keyless, ':') == 2;
    assert keyless[..2] == "  ";
    assert TrimLeft("  ", BLANKS) == "";
  }

  /** The line saveToFile writes for a key: `key: value`. */
  function SaveLine(k: string, v: string): (line: string)
  {
    k + ": " + v
  }

  /** A key line saveToFile writes reads back as the same setting, when the
      key is a proper one and the value has no blanks or tabs at its ends
      (the parser trims those away). */
  lemma SaveLineReadsBack(k: string, v: string)
    requires ProperKey(k) && Unpadded(v)
    ensures ReadLine(SaveLine(k, v)) == Setting(k, v)
  {
    var line := SaveLine(k, v);
    SaveLineParts(k, v);
    assert Trim(k, BLANKS) == k by { UnpaddedTrim(k); }
    assert Trim(" " + v, BLANKS) == v by { TrimBlankThen(v); }
    ReadLineAt(line, |k|, k, v);
  }

  /** Where the key, the ':' and the value sit in a written line. */
  lemma SaveLineParts(k: string, v: string)
    requires ProperKey(k)
    ensures var line := SaveLine(k, v);
      |k| < |line| && line[0] == k[0] && Find(line, ':') == |k|
      && line[..|k|] == k && line[|k| + 1..] == " " + v
  {
    var rest := ": " + v;
    var line := k + rest;
    assert SaveLine(k, v) == line;
    FindPrefix(k, rest);
    assert line[..|k|] == k;
    assert line[|k| + 1..] == rest[1..] == " " + v;
  }

  /** The blank saveToFile writes after the ':' is trimmed away again. */
  lemma TrimBlankThen(v: string)
    requires Unpadded(v)
    ensures Trim(" " + v, BLANKS) == v
  {
    assert (" " + v)[1..] == v;
    assert TrimLeft(" " + v, BLANKS) == TrimLeft(v, BLANKS);
    UnpaddedTrim(v);
    assert TrimLeft(v, BLANKS) == v;
  }

  /** ReadLine on a line that is not a comment, has its first ':' at
      `colon`, and trims to a non-empty key. */
  lemma ReadLineAt(line: string, colon: nat, key: string, value: string)
    requires |line| > 0 && line[0] != '#' && line[0] != ';'
    requires colon < |line| && Find(line, ':') == colon
    requires Trim(line[..colon], BLANKS) == key != "" && Trim(line[colon + 1..], BLANKS) == value
    ensures ReadLine(line) == Setting(key, value)
  {
  }

  /** `Find` skips a prefix without the character. */
  lemma {:induction false} FindPrefix(p: string, rest: string)
    requires ':' !in p && |rest| > 0 && rest[0] == ':'
    ensures Find(p + rest, ':') == |p|
  {
    FindAt(p, ':', rest);
  }

  /** `Find` skips a prefix without the character, whatever it is. */
  lemma {:induction false} FindAt(p: string, c: char, rest: string)
    requires c !in p && |rest| > 0 && rest[0] == c
    ensures Find(p + rest, c) == |p|
    decreases |p|
  {
    if |p| == 0 {
      assert p + rest == rest;
    } else {
      assert (p + rest)[1..] == p[1..] + rest;
      FindAt(p[1..], c, rest);
    }
  }

  /** A key saveToFile can write and the parser reads back as itself. */
  predicate ProperKey(k: string)
  {
    k != "" && ':' !in k && k[0] != '#' && k[0] != ';' && Unpadded(k)
  }

  /** The keys `ks` are proper and present in `s` with values that have no
      blanks or tabs at their ends. */
  predicate Writable(s: Settings, ks: seq<string>)
  {
    forall i | 0 <= i < |ks| :: ks[i] in s && ProperKey(ks[i]) && Unpadded(s[ks[i]])
  }

  /** The key lines saveToFile writes for `ks`, in order. */
  function KeyLines(s: Settings, ks: seq<string>): (lines: seq<string>)
    requires forall i | 0 <= i < |ks| :: ks[i] in s
    ensures |lines| == |ks|
    ensures forall i | 0 <= i < |ks| :: lines[i] == SaveLine(ks[i], s[ks[i]])
  {
    if |ks| == 0 then [] else [SaveLine(ks[0], s[ks[0]])] + KeyLines(s, ks[1..])
  }

  /** One section of the file: an empty line, its title as a comment, and
      its key lines. */
  function Section(s: Settings, title: string, ks: seq<string>): (lines: seq<string>)
    requires forall i | 0 <= i < |ks| :: ks[i] in s
  {
    ["", "# " + title] + KeyLines(s, ks)
  }

  const HEADER: seq<string> := [
    "# Task Manager Configuration File",
    "# Format: key: value",
    "# Lines starting with # or ; are comments"]

  /** saveToFile: the header, then the four sections. */
  function SavedLines(s: Settings): (lines: seq<string>)
    requires Saveable(s)
  {
    HEADER +
    (Section(s, "Core Settings", SAVED_KEYS[..3])
    + Section(s, "UI and Behavior", SAVED_KEYS[3..7])
    + Section(s, "File Settings", SAVED_KEYS[7..10])
    + Section(s, "Display Settings", SAVED_KEYS[10..]))
  }

  lemma SavedKeysProper()
    ensures forall i | 0 <= i < |SAVED_KEYS| :: ProperKey(SAVED_KEYS[i])
  {
  }

  /** `r` is `base` with the keys `ks` set to their values in `s`. */
  ghost predicate Overlaid(r: Settings, base: Settings, s: Settings, ks: seq<string>)
  {
    forall k ::
      && (k in r <==> k in base || k in ks)
      && (k in ks ==> k in s && r[k] == s[k])
      && (k !in ks && k in base ==> r[k] == base[k])
  }

  lemma OverlaidAppend(r1: Settings, r2: Settings, base: Settings, s: Settings, ks1: seq<string>, ks2: seq<string>)
    requires Overlaid(r1, base, s, ks1) && Overlaid(r2, r1, s, ks2)
    ensures Overlaid(r2, base, s, ks1 + ks2)
  {
    forall k
      ensures k in ks1 + ks2 <==> k in ks1 || k in ks2
    {
    }
  }

  /** Loading the key lines sets exactly their keys to their values. */
  lemma {:induction false} LoadKeyLines(base: Settings, s: Settings, ks: seq<string>)
    requires Writable(s, ks)
    ensures Overlaid(Load(base, KeyLines(s, ks)), base, s, ks)
    decreases |ks|
  {
    if |ks| == 0 {
      assert KeyLines(s, ks) == [];
    } else {
      var rest := KeyLines(s, ks[1..]);
      assert KeyLines(s, ks) == [SaveLine(ks[0], s[ks[0]])] + rest;
      LoadKeyLine(base, ks[0], s[ks[0]], rest);
      var next := base[ks[0] := s[ks[0]]];
      WritableSlice(s, ks, 1, |ks|);
      assert ks[1..|ks|] == ks[1..];
      LoadKeyLines(next, s, ks[1..]);
      OverlaidOne(base, s, ks[0]);
      OverlaidAppend(next, Load(next, rest), base, s, [ks[0]], ks[1..]);
      assert [ks[0]] + ks[1..] == ks;
    }
  }

  /** Setting one key from `s` overlays just that key. */
  lemma OverlaidOne(base: Settings, s: Settings, k: string)
    requires k in s
    ensures Overlaid(base[k := s[k]], base, s, [k])
  {
    forall j
      ensures j in [k] <==> j == k
    {
    }
  }

  /** A stretch of writable keys is writable. */
  lemma WritableSlice(s: Settings, ks: seq<string>, a: nat, b: nat)
    requires Writable(s, ks) && a <= b <= |ks|
    ensures Writable(s, ks[a..b])
  {
    forall i | 0 <= i < b - a
      ensures ks[a..b][i] == ks[a + i]
    {
    }
  }

  /** One key line, then the rest. */
  lemma LoadKeyLine(base: Settings, k: string, v: string, rest: seq<string>)
    requires ProperKey(k) && Unpadded(v)
    ensures Load(base, [SaveLine(k, v)] + rest) == Load(base[k := v], rest)
  {
    SaveLineReadsBack(k, v);
    assert ([SaveLine(k, v)] + rest)[1..] == rest;
  }

  /** A line the parser skips, then the rest. */
  lemma LoadSkipLine(base: Settings, line: string, rest: seq<string>)
    requires |line| == 0 || line[0] == '#' || line[0] == ';'
    ensures Load(base, [line] + rest) == Load(base, rest)
  {
    assert ([line] + rest)[1..] == rest;
  }

  /** Lines the parser skips change nothing. */
  lemma {:induction false} LoadSkips(base: Settings, lines: seq<string>)
    requires forall i | 0 <= i < |lines| :: |lines[i]| == 0 || lines[i][0] == '#' || lines[i][0] == ';'
    ensures Load(base, lines) == base
    decreases |lines|
  {
    if |lines| > 0 {
      assert lines == [lines[0]] + lines[1..];
      LoadSkipLine(base, lines[0], lines[1..]);
      LoadSkips(base, lines[1..]);
    }
  }

  /** A section's empty line and title change nothing. */
  lemma LoadSection(base: Settings, s: Settings, title: string, ks: seq<string>)
    requires Writable(s, ks)
    ensures Overlaid(Load(base, Section(s, title, ks)), base, s, ks)
  {
    var intro := ["", "# " + title];
    assert Section(s, title, ks) == intro + KeyLines(s, ks);
    LoadAppend(base, intro, KeyLines(s, ks));
    assert ("# " + title)[0] == '#';
    LoadSkips(base, intro);
    LoadKeyLines(base, s, ks);
  }

  /** What saveToFile writes, loadFromFile reads back: every saved key gets
      its value again, when the values have no blanks or tabs at their
      ends, and every other key keeps what it had before the load. This is
      stated over the lines saveToFile writes; ConfigFile.SaveThenLoadText
      states it over the text of the file. */
  lemma SaveThenLoad(base: Settings, s: Settings)
    requires Saveable(s) && forall i | 0 <= i < |SAVED_KEYS| :: Unpadded(s[SAVED_KEYS[i]])
    ensures Overlaid(Load(base, SavedLines(s)), base, s, SAVED_KEYS)
  {
    SavedKeysProper();
    SectionsWritable(s);
    var k1, k2, k3, k4 := SAVED_KEYS[..3], SAVED_KEYS[3..7], SAVED_KEYS[7..10], SAVED_KEYS[10..];
    var body := Section(s, "Core Settings", k1) + Section(s, "UI and Behavior", k2)
      + Section(s, "File Settings", k3) + Section(s, "Display Settings", k4);
    assert SavedLines(s) == HEADER + body;
    LoadHeader(base);
    LoadAppend(base, HEADER, body);
    LoadSections(base, s, "Core Settings", "UI and Behavior", "File Settings", "Display Settings", k1, k2, k3, k4);
    Rejoin(SAVED_KEYS, 3, 7, 10);
  }

  /** Four consecutive slices put back together give the whole sequence. */
  lemma Rejoin<T>(xs: seq<T>, a: nat, b: nat, c: nat)
    requires a <= b <= c <= |xs|
    ensures xs[..a] + xs[a..b] + xs[b..c] + xs[c..] == xs
  {
    assert xs[..a] + xs[a..b] == xs[..b];
    assert xs[..b] + xs[b..c] == xs[..c];
  }

  /** The four sections one after the other set the keys of all four. */
  lemma LoadSections(base: Settings, s: Settings, t1: string, t2: string, t3: string, t4: string,
                     k1: seq<string>, k2: seq<string>, k3: seq<string>, k4: seq<string>)
    requires Writable(s, k1) && Writable(s, k2) && Writable(s, k3) && Writable(s, k4)
    ensures Overlaid(Load(base, Section(s, t1, k1) + Section(s, t2, k2) + Section(s, t3, k3) + Section(s, t4, k4)),
                     base, s, k1 + k2 + k3 + k4)
  {
    var p1, p2, p3, p4 := Section(s, t1, k1), Section(s, t2, k2), Section(s, t3, k3), Section(s, t4, k4);
    var r1 := Load(base, p1);
    var r2 := Load(r1, p2);
    var r3 := Load(r2, p3);
    var r4 := Load(r3, p4);
    LoadSection(base, s, t1, k1);
    LoadSection(r1, s, t2, k2);
    LoadSection(r2, s, t3, k3);
    LoadSection(r3, s, t4, k4);
    OverlaidAppend(r1, r2, base, s, k1, k2);
    OverlaidAppend(r2, r3, base, s, k1 + k2, k3);
    OverlaidAppend(r3, r4, base, s, k1 + k2 + k3, k4);
    LoadAppend(base, p1, p2);
    LoadAppend(base, p1 + p2, p3);
    LoadAppend(base, p1 + p2 + p3, p4);
  }

  lemma LoadHeader(base: Settings)
    ensures Load(base, HEADER) == base
  {
    LoadSkips(base, HEADER);
  }

  lemma SectionsWritable(s: Settings)
    requires Saveable(s) && forall i | 0 <= i < |SAVED_KEYS| :: Unpadded(s[SAVED_KEYS[i]])
    requires forall i | 0 <= i < |SAVED_KEYS| :: ProperKey(SAVED_KEYS[i])
    ensures Writable(s, SAVED_KEYS[..3]) && Writable(s, SAVED_KEYS[3..7])
    ensures Writable(s, SAVED_KEYS[7..10]) && Writable(s, SAVED_KEYS[10..])
  {
    assert Writable(s, SAVED_KEYS);
    WritableSlice(s, SAVED_KEYS, 0, 3);
    WritableSlice(s, SAVED_KEYS, 3, 7);
    WritableSlice(s, SAVED_KEYS, 7, 10);
    WritableSlice(s, SAVED_KEYS, 10, |SAVED_KEYS|);
    assert SAVED_KEYS[..3] == SAVED_KEYS[0..3] && SAVED_KEYS[10..] == SAVED_KEYS[10..|SAVED_KEYS|];
  }
}
