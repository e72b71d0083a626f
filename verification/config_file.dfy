/** The config file as text (src/Config.cpp:38-115): saveToFile writes
    each line followed by '\n', and loadFromFile reads it back with a
    `std::getline` loop, which splits at every '\n'. A value that holds a
    line break therefore comes back as more than one line. */
module ConfigFile {
  import opened Config

  /** A line with no line break in it. */
  predicate NoBreak(l: string)
  {
    '\n' !in l
  }

  /** Lines none of which holds a line break. */
  predicate NoBreaks(ls: seq<string>)
  {
    forall i | 0 <= i < |ls| :: NoBreak(ls[i])
  }

  /** The text `file << line << "\n"` writes for each line in turn. */
  function JoinLines(ls: seq<string>): string
  {
    if |ls| == 0 then "" else ls[0] + "\n" + JoinLines(ls[1..])
  }

  /** The lines the `std::getline` loop reads from a text: each ends at the
      next '\n', which is dropped; text after the last '\n' is a line of
      its own, and nothing follows a final '\n'. */
  function FileLines(t: string): (ls: seq<string>)
    ensures NoBreaks(ls)
    ensures |ls| == 0 <==> |t| == 0
    decreases |t|
  {
    if |t| == 0 then []
    else
      var k := Find(t, '\n');
      if k == |t| then
        assert t[..k] == t;
        [t]
      else
        var rest := FileLines(t[k + 1..]);
        assert NoBreak(t[..k]);
        assert forall i | 1 <= i <= |rest| :: ([t[..k]] + rest)[i] == rest[i - 1];
        [t[..k]] + rest
  }

  /** saveToFile: the text of the file. */
  function SavedText(s: Settings): string
    requires Saveable(s)
  {
    JoinLines(SavedLines(s))
  }

  /** No saved value holds a line break. */
  predicate Unbroken(s: Settings)
    requires Saveable(s)
  {
    forall i | 0 <= i < |SAVED_KEYS| :: NoBreak(s[SAVED_KEYS[i]])
  }

  /** getline gives back the lines written, when none holds a line break. */
  lemma {:induction false} FileLinesOfJoin(ls: seq<string>)
    requires NoBreaks(ls)
    ensures FileLines(JoinLines(ls)) == ls
    decreases |ls|
  {
    if |ls| > 0 {
      var rest := "\n" + JoinLines(ls[1..]);
      assert JoinLines(ls) == ls[0] + rest;
      assert NoBreak(ls[0]);
      FindAt(ls[0], '\n', rest);
      assert (ls[0] + rest)[..|ls[0]|] == ls[0];
      assert (ls[0] + rest)[|ls[0]| + 1..] == JoinLines(ls[1..]);
      assert NoBreaks(ls[1..]) by {
        forall i | 0 <= i < |ls[1..]|
          ensures ls[1..][i] == ls[i + 1]
        {
        }
      }
      FileLinesOfJoin(ls[1..]);
      assert [ls[0]] + ls[1..] == ls;
    }
  }

  /** Joining what getline reads gives the text back, when it is empty or
      ends with a line break. */
  lemma {:induction false} JoinFileLines(t: string)
    requires |t| == 0 || t[|t| - 1] == '\n'
    ensures JoinLines(FileLines(t)) == t
    decreases |t|
  {
    if |t| > 0 {
      var k := FileLinesStep(t);
      JoinFileLines(t[k + 1..]);
    }
  }

  /** The first step of getline on a text that ends with a line break. */
  lemma FileLinesStep(t: string) returns (k: nat)
    requires |t| > 0 && t[|t| - 1] == '\n'
    ensures k < |t| && t[k] == '\n'
    ensures FileLines(t) == [t[..k]] + FileLines(t[k + 1..])
    ensures |t[k + 1..]| == 0 || t[|t| - 1] == '\n'
    ensures JoinLines(FileLines(t)) == t[..k] + "\n" + JoinLines(FileLines(t[k + 1..]))
    ensures t == t[..k] + "\n" + t[k + 1..]
  {
    k := Find(t, '\n');
    assert t[..k] + [t[k]] == t[..k + 1];
    assert t[..k + 1] + t[k + 1..] == t;
    var ls := FileLines(t);
    assert ls[1..] == FileLines(t[k + 1..]);
  }

  /** A value with a line break is written across two lines, and the
      second is read as a line of its own, which can set another key. */
  lemma LineBreakInValue(base: Settings, k: string, x: string, k2: string, y: string)
    requires ProperKey(k) && ProperKey(k2) && Unpadded(x) && Unpadded(y)
    requires NoBreak(k) && NoBreak(x) && NoBreak(k2) && NoBreak(y)
    ensures FileLines(JoinLines([SaveLine(k, x + "\n" + SaveLine(k2, y))])) == [SaveLine(k, x), SaveLine(k2, y)]
    ensures Load(base, FileLines(JoinLines([SaveLine(k, x + "\n" + SaveLine(k2, y))]))) == base[k := x][k2 := y]
  {
    var l1, l2 := SaveLine(k, x), SaveLine(k2, y);
    WrittenAcross(k, x, l2);
    assert NoBreaks([l1, l2]) by {
      SaveLineUnbroken(k, x);
      SaveLineUnbroken(k2, y);
    }
    FileLinesOfJoin([l1, l2]);
    LoadTwo(base, k, x, k2, y);
  }

  /** The case in point: saving "%Y\ndata-dir: /x" as the date format
      makes the next load of that line set the date format to "%Y" and
      data-dir to "/x". */
  lemma DateFormatSetsDataDir(base: Settings, v: string)
    requires v == "%Y\ndata-dir: /x"
    ensures Load(base, FileLines(JoinLines([SaveLine("date-format", v)])))
      == base["date-format" := "%Y"]["data-dir" := "/x"]
  {
    SavedKeysProper();
    assert SAVED_KEYS[0] == "data-dir" && SAVED_KEYS[2] == "date-format";
    assert v == "%Y" + "\n" + SaveLine("data-dir", "/x");
    assert NoBreak("date-format") && NoBreak("data-dir") && NoBreak("%Y") && NoBreak("/x");
    LineBreakInValue(base, "date-format", "%Y", "data-dir", "/x");
  }

  /** The line written for a value `x + "\n" + l2` is the text of two lines. */
  lemma WrittenAcross(k: string, x: string, l2: string)
    ensures JoinLines([SaveLine(k, x + "\n" + l2)]) == JoinLines([SaveLine(k, x), l2])
  {
    var l1 := SaveLine(k, x);
    assert [l1, l2][1..] == [l2] && [l2][1..] == [];
    assert JoinLines([l2]) == l2 + "\n" + JoinLines([]);
    assert JoinLines([l1, l2]) == l1 + "\n" + JoinLines([l2]);
    assert JoinLines([SaveLine(k, x + "\n" + l2)]) == SaveLine(k, x + "\n" + l2) + "\n" + "";
  }

  /** Two written key lines set their two keys in turn. */
  lemma LoadTwo(base: Settings, k: string, x: string, k2: string, y: string)
    requires ProperKey(k) && ProperKey(k2) && Unpadded(x) && Unpadded(y)
    ensures Load(base, [SaveLine(k, x), SaveLine(k2, y)]) == base[k := x][k2 := y]
  {
    var l1, l2 := SaveLine(k, x), SaveLine(k2, y);
    LoadKeyLine(base, k, x, [l2]);
    LoadKeyLine(base[k := x], k2, y, []);
    assert [l1] + [l2] == [l1, l2] && [l2] + [] == [l2];
  }

  lemma SaveLineUnbroken(k: string, v: string)
    requires NoBreak(k) && NoBreak(v)
    ensures NoBreak(SaveLine(k, v))
  {
    assert SaveLine(k, v) == k + ": " + v;
    assert NoBreak(": ");
  }

  /** No line saveToFile writes holds a line break, when no value does. */
  lemma SavedLinesUnbroken(s: Settings)
    requires Saveable(s) && Unbroken(s)
    ensures NoBreaks(SavedLines(s))
  {
    var c1, c2, c3, c4 := Section(s, "Core Settings", SAVED_KEYS[..3]), Section(s, "UI and Behavior", SAVED_KEYS[3..7]),
      Section(s, "File Settings", SAVED_KEYS[7..10]), Section(s, "Display Settings", SAVED_KEYS[10..]);
    assert NoBreaks(c1) && NoBreaks(c2) && NoBreaks(c3) && NoBreaks(c4) by {
      TitlesUnbroken();
      SectionSliceUnbroken(s, "Core Settings", 0, 3);
      SectionSliceUnbroken(s, "UI and Behavior", 3, 7);
      SectionSliceUnbroken(s, "File Settings", 7, 10);
      SectionSliceUnbroken(s, "Display Settings", 10, |SAVED_KEYS|);
      assert SAVED_KEYS[..3] == SAVED_KEYS[0..3] && SAVED_KEYS[10..] == SAVED_KEYS[10..|SAVED_KEYS|];
    }
    HeaderUnbroken();
    NoBreaksJoin(c1, c2);
    NoBreaksJoin(c1 + c2, c3);
    NoBreaksJoin(c1 + c2 + c3, c4);
    NoBreaksJoin(HEADER, c1 + c2 + c3 + c4);
    assert SavedLines(s) == HEADER + (c1 + c2 + c3 + c4);
  }

  lemma HeaderUnbroken()
    ensures NoBreaks(HEADER)
  {
    Header0Unbroken(HEADER[0]);
    Header1Unbroken(HEADER[1]);
    Header2Unbroken(HEADER[2]);
  }

  lemma Header0Unbroken(l: string)
    requires l == "# Task Manager Configuration File"
    ensures NoBreak(l)
  {
  }

  lemma Header1Unbroken(l: string)
    requires l == "# Format: key: value"
    ensures NoBreak(l)
  {
  }

  lemma Header2Unbroken(l: string)
    requires l == "# Lines starting with # or ; are comments"
    ensures NoBreak(l)
  {
  }

  lemma TitlesUnbroken()
    ensures NoBreak("Core Settings") && NoBreak("UI and Behavior")
    ensures NoBreak("File Settings") && NoBreak("Display Settings")
  {
  }

  /** The section for the saved keys `a` up to `b`. */
  lemma SectionSliceUnbroken(s: Settings, title: string, a: nat, b: nat)
    requires Saveable(s) && Unbroken(s) && NoBreak(title) && a <= b <= |SAVED_KEYS|
    ensures NoBreaks(Section(s, title, SAVED_KEYS[a..b]))
  {
    SavedKeysUnbroken();
    var ks := SAVED_KEYS[a..b];
    forall i | 0 <= i < |ks|
      ensures ks[i] in s && NoBreak(ks[i]) && NoBreak(s[ks[i]])
    {
      assert ks[i] == SAVED_KEYS[a + i];
    }
    SectionUnbroken(s, title, ks);
  }

  lemma NoBreaksJoin(a: seq<string>, b: seq<string>)
    requires NoBreaks(a) && NoBreaks(b)
    ensures NoBreaks(a + b)
  {
    forall i | 0 <= i < |a + b|
      ensures NoBreak((a + b)[i])
    {
      if i >= |a| {
        assert (a + b)[i] == b[i - |a|];
      }
    }
  }

  lemma SavedKeysUnbroken()
    ensures forall i | 0 <= i < |SAVED_KEYS| :: NoBreak(SAVED_KEYS[i])
  {
  }

  lemma SectionUnbroken(s: Settings, title: string, ks: seq<string>)
    requires forall i | 0 <= i < |ks| :: ks[i] in s && NoBreak(ks[i]) && NoBreak(s[ks[i]])
    requires NoBreak(title)
    ensures NoBreaks(Section(s, title, ks))
  {
    KeyLinesUnbroken(s, ks);
    assert NoBreak("# " + title);
    assert NoBreaks(["", "# " + title]);
    NoBreaksJoin(["", "# " + title], KeyLines(s, ks));
  }

  lemma KeyLinesUnbroken(s: Settings, ks: seq<string>)
    requires forall i | 0 <= i < |ks| :: ks[i] in s && NoBreak(ks[i]) && NoBreak(s[ks[i]])
    ensures NoBreaks(KeyLines(s, ks))
  {
    forall i | 0 <= i < |ks|
      ensures NoBreak(KeyLines(s, ks)[i])
    {
      SaveLineUnbroken(ks[i], s[ks[i]]);
    }
  }

  /** What saveToFile writes, loadFromFile reads back from the text of the
      file, when no saved value holds a line break or has blanks or tabs
      at its ends: every saved key gets its value again and every other key
      keeps what it had. */
  lemma SaveThenLoadText(base: Settings, s: Settings)
    requires Saveable(s) && forall i | 0 <= i < |SAVED_KEYS| :: Unpadded(s[SAVED_KEYS[i]])
    requires Unbroken(s)
    ensures Overlaid(Load(base, FileLines(SavedText(s))), base, s, SAVED_KEYS)
  {
    SavedLinesUnbroken(s);
    FileLinesOfJoin(SavedLines(s));
    SaveThenLoad(base, s);
  }
}
