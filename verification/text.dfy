/** Character-level helpers from the C++ standard library that the planner
    leans on: `std::isdigit`, `std::isspace`, `std::to_string`, `std::stoi`,
    `std::setw(2)` with a '0' fill, `::tolower`, and the two-sided trims
    written with `find_first_not_of` / `find_last_not_of`. */
module Text {
  import opened Outcomes
  import opened CppArith

  predicate IsDigit(c: char) { '0' <= c <= '9' }

  predicate AllDigits(s: string) { forall i | 0 <= i < |s| :: IsDigit(s[i]) }

  function DigitValue(c: char): nat
    requires IsDigit(c)
  {
    c as int - '0' as int
  }

  function DigitChar(d: nat): (c: char)
    requires d < 10
    ensures IsDigit(c) && DigitValue(c) == d
  {
    ('0' as int + d) as char
  }

  /** The decimal value of a string of digits, most significant first. */
  function DigitsValue(s: string): nat
    requires AllDigits(s)
    decreases |s|
  {
    if |s| == 0 then 0 else DigitsValue(s[..|s| - 1]) * 10 + DigitValue(s[|s| - 1])
  }

  /** `std::to_string` of a non-negative value: shortest decimal spelling. */
  function NatToString(n: nat): (r: string)
    ensures 0 < |r|
    ensures |r| == 1 <==> n < 10
    ensures |r| == 2 <==> 10 <= n < 100
    decreases n
  {
    if n < 10 then [DigitChar(n)]
    else
      var p := NatToString(n / 10);
      var r := p + [DigitChar(n % 10)];
      assert r[..|r| - 1] == p;
      r
  }

  /** The spelling is all digits and reads back as the number. */
  lemma {:induction false} NatToStringDigits(n: nat)
    ensures AllDigits(NatToString(n)) && DigitsValue(NatToString(n)) == n
    decreases n
  {
    if n >= 10 {
      NatToStringDigits(n / 10);
      var p := NatToString(n / 10);
      var r := NatToString(n);
      assert r == p + [DigitChar(n % 10)];
      assert r[..|r| - 1] == p;
    }
  }

  /** `std::to_string` of an `int`: a leading '-' for negative values. */
  function IntToString(n: int): (r: string)
    ensures 0 < |r|
    ensures n >= 0 ==> r == NatToString(n)
    ensures n < 0 ==> r[0] == '-' && r[1..] == NatToString(-n)
  {
    if n < 0 then "-" + NatToString(-n) else NatToString(n)
  }

  /** `std::isspace` in the "C" locale. */
  predicate IsSpace(c: char)
  {
    c == ' ' || c == '\t' || c == '\n' || c == '\U{B}' || c == '\U{C}' || c == '\r'
  }

  /** What `strtol` skips before the number: the leading white space. */
  function SkipSpaces(s: string): (r: string)
    ensures |r| <= |s| && r == s[|s| - |r|..]
    ensures |r| == 0 || !IsSpace(r[0])
    ensures forall i | 0 <= i < |s| - |r| :: IsSpace(s[i])
  {
    if |s| > 0 && IsSpace(s[0]) then SkipSpaces(s[1..]) else s
  }

  /** The longest prefix made only of digits. */
  function DigitPrefix(s: string): (r: string)
    ensures AllDigits(r) && r <= s
    ensures |r| == |s| || !IsDigit(s[|r|])
  {
    if |s| > 0 && IsDigit(s[0]) then [s[0]] + DigitPrefix(s[1..]) else []
  }

  /** `std::stoi(s)` in base 10: skip white space, read an optional sign and
      the longest run of digits after it, and ignore the rest. No digits
      there means `std::invalid_argument`, a value outside `int` means
      `std::out_of_range`; both are `None`. */
  function Stoi(s: string): (r: Option<int>)
    ensures r.Some? ==> INT_MIN <= r.value <= INT_MAX
  {
    var t := SkipSpaces(s);
    var negative := |t| > 0 && t[0] == '-';
    var body := if |t| > 0 && (t[0] == '-' || t[0] == '+') then t[1..] else t;
    var digits := DigitPrefix(body);
    if |digits| == 0 then None
    else
      var n: int := DigitsValue(digits);
      var v := if negative then -n else n;
      if v < INT_MIN || v > INT_MAX then None else Some(v)
  }

  lemma {:induction false} DigitPrefixStops(p: string, rest: string)
    requires AllDigits(p)
    requires |rest| == 0 || !IsDigit(rest[0])
    ensures DigitPrefix(p + rest) == p
    decreases |p|
  {
    if |p| == 0 {
      assert p + rest == rest;
    } else {
      assert (p + rest)[1..] == p[1..] + rest;
      DigitPrefixStops(p[1..], rest);
    }
  }

  /** `std::stoi` on digits followed by something that is not a digit reads
      exactly the digits. */
  lemma StoiReadsDigitRun(p: string, rest: string)
    requires AllDigits(p) && 0 < |p| && DigitsValue(p) <= INT_MAX
    requires |rest| == 0 || !IsDigit(rest[0])
    ensures Stoi(p + rest) == Some(DigitsValue(p))
  {
    var s := p + rest;
    assert s[0] == p[0] && IsDigit(s[0]) && !IsSpace(s[0]);
    assert SkipSpaces(s) == s;
    assert s[0] != '-' && s[0] != '+';
    DigitPrefixStops(p, rest);
    assert DigitPrefix(s) == p;
  }

  lemma StoiOfDigits(p: string)
    requires AllDigits(p) && 0 < |p| && DigitsValue(p) <= INT_MAX
    ensures Stoi(p) == Some(DigitsValue(p))
  {
    assert p + [] == p;
    StoiReadsDigitRun(p, []);
  }

  /** `std::stoi(std::to_string(n)) == n` for every `int`. */
  lemma StoiIntToString(n: int)
    requires INT_MIN <= n <= INT_MAX
    ensures Stoi(IntToString(n)) == Some(n)
  {
    var s := IntToString(n);
    if n >= 0 {
      NatToStringDigits(n);
      StoiOfDigits(s);
    } else {
      NatToStringDigits(-n);
      var d := NatToString(-n);
      assert SkipSpaces(s) == s;
      assert s[1..] == d;
      DigitPrefixStops(d, []);
      assert d + [] == d;
    }
  }

  lemma StoiEmpty()
    ensures Stoi("") == None
  {
  }

  /** `std::setw(2)` with fill '0' in front of `std::to_string`: short
      spellings are padded on the left, longer ones are left as they are. */
  function Setw2(n: int): (r: string)
    ensures |r| >= 2
    ensures 0 <= n < 100 ==> r == [DigitChar(n / 10), DigitChar(n % 10)]
  {
    var t := IntToString(n);
    assert 10 <= n < 100 ==> NatToString(n / 10) == [DigitChar(n / 10)];
    if |t| < 2 then "0" + t else t
  }

  /** The '0'-padded spelling of two-digit numbers reads back as the number. */
  lemma TwoDigitValue(n: int)
    requires 0 <= n < 100
    ensures AllDigits(Setw2(n)) && DigitsValue(Setw2(n)) == n
  {
    var s := Setw2(n);
    assert s[..1] == [DigitChar(n / 10)];
    assert DigitsValue(s[..1]) == n / 10;
  }

  /** Drop the characters of `ws` at the front. */
  function TrimLeft(s: string, ws: set<char>): (r: string)
    ensures |r| <= |s| && r == s[|s| - |r|..]
    ensures |r| == 0 || r[0] !in ws
    ensures forall i | 0 <= i < |s| - |r| :: s[i] in ws
  {
    if |s| > 0 && s[0] in ws then TrimLeft(s[1..], ws) else s
  }

  /** Drop the characters of `ws` at the back. */
  function TrimRight(s: string, ws: set<char>): (r: string)
    ensures r <= s
    ensures |r| == 0 || r[|r| - 1] !in ws
    ensures forall i | |r| <= i < |s| :: s[i] in ws
  {
    if |s| > 0 && s[|s| - 1] in ws then TrimRight(s[..|s| - 1], ws) else s
  }

  /** Both trims. */
  function Trim(s: string, ws: set<char>): (r: string)
    ensures |r| <= |s|
  {
    TrimRight(TrimLeft(s, ws), ws)
  }

  /** The trimmed string starts and ends outside `ws`. */
  lemma TrimEnds(s: string, ws: set<char>)
    ensures var r := Trim(s, ws);
      |r| == 0 || (r[0] !in ws && r[|r| - 1] !in ws)
  {
    var l := TrimLeft(s, ws);
    var r := TrimRight(l, ws);
    assert r <= l;
    assert |r| > 0 ==> r[0] == l[0];
  }

  /** The trimmed string is the stretch of `s` between a run of `ws`
      characters at the front and one at the back. */
  lemma TrimSlice(s: string, ws: set<char>)
    ensures var r, k := Trim(s, ws), |s| - |TrimLeft(s, ws)|;
      k + |r| <= |s| && r == s[k..k + |r|]
      && (forall i | 0 <= i < k :: s[i] in ws)
      && (forall i | k + |r| <= i < |s| :: s[i] in ws)
  {
    var l := TrimLeft(s, ws);
    var k := |s| - |l|;
    var r := TrimRight(l, ws);
    SliceOfSuffix(s, k, |r|);
    assert r == l[..|r|];
    forall i | k + |r| <= i < |s|
      ensures s[i] in ws
    {
      assert s[i] == l[i - k];
    }
  }

  lemma SliceOfSuffix(s: string, k: nat, n: nat)
    requires k + n <= |s|
    ensures s[k..][..n] == s[k..k + n]
  {
  }

  /** Trimming twice changes nothing more. */
  lemma TrimIdempotent(s: string, ws: set<char>)
    ensures Trim(Trim(s, ws), ws) == Trim(s, ws)
  {
    var r := Trim(s, ws);
    TrimEnds(s, ws);
    assert TrimLeft(r, ws) == r;
    assert TrimRight(r, ws) == r;
  }

  /** A string made only of trimmed characters trims to nothing. */
  lemma TrimAllSpace(s: string, ws: set<char>)
    requires forall i | 0 <= i < |s| :: s[i] in ws
    ensures Trim(s, ws) == []
  {
  }

  /** `::tolower` in the "C" locale: only 'A'..'Z' change. */
  function LowerChar(c: char): (r: char)
    ensures 'A' <= c <= 'Z' ==> 'a' <= r <= 'z' && r as int - c as int == 32
    ensures !('A' <= c <= 'Z') ==> r == c
  {
    if 'A' <= c <= 'Z' then (c as int + 32) as char else c
  }

  function ToLower(s: string): (r: string)
    ensures |r| == |s| && forall i | 0 <= i < |s| :: r[i] == LowerChar(s[i])
  {
    seq(|s|, i requires 0 <= i < |s| => LowerChar(s[i]))
  }
}
