/** What the texts of recurrence rules stand for, in any letter case. */
module KnownRules {
  import opened Wrappers
  import opened Text
  import opened Calendar
  import opened RuleText
  import R = Recurrence

  // ---- Texts without white space ----

  predicate Quiet(s: string) {
    s != "" && forall c | c in s :: c != ';' && c != ':' && !IsSpace(c)
  }

  lemma TightIsTrimmed(s: string)
    requires forall c | c in s :: !IsSpace(c)
    ensures TrimSpace(s) == s
  {
    if s != "" { assert s[0] in s && s[|s| - 1] in s; }
  }

  lemma {:induction false} JoinIsQuiet(parts: seq<string>)
    requires |parts| > 0 && forall p | p in parts :: Quiet(p)
    ensures var s := Join(parts, ';'); s != "" && forall c | c in s :: c != ':' && !IsSpace(c)
  {
    assert parts[0] in parts;
    if |parts| > 1 { JoinIsQuiet(parts[1..]); }
  }

  /** What is left once all segments are read. */
  function Finished(r: Option<Rule>): Option<Rule> {
    if r.Some? && r.value.freq.Some? && (r.value.count == 0 || r.value.until == Stamp(Date(1, 1, 1), 0, 0, 0, 0)) then r else None
  }

  lemma {:induction false} CountStays(r: Rule, parts: seq<string>)
    requires r.count >= 0
    ensures ApplyParts(r, parts).Some? ==> ApplyParts(r, parts).value.count >= 0
    decreases |parts|
  {
    hide ParseUntil, ParseDays, Split, TrimSpace, Atoi;
    if parts != [] {
      var next := ApplyPart(r, parts[0]);
      if next.Some? { CountStays(next.value, parts[1..]); }
    }
  }

  /** A text is read segment by segment, with or without its prefix. */
  lemma SegmentsAreRead(parts: seq<string>)
    requires |parts| > 0 && forall p | p in parts :: Quiet(p)
    ensures Parsed(Join(parts, ';')) == Finished(ApplyParts(START, parts)) == Parsed("RRULE:" + Join(parts, ';'))
  {
    hide Join, Split, ApplyParts, TrimSpace;
    var s := Join(parts, ';');
    JoinIsQuiet(parts);
    TightIsTrimmed(s);
    TightIsTrimmed("RRULE:" + s);
    assert |s| > 5 ==> s[5] in s;
    assert ("RRULE:" + s)[|"RRULE:"|..] == s && "RRULE:" <= "RRULE:" + s;
    SplitJoin(parts, ';');
    CountStays(START, parts);
  }

  lemma SegmentIs(r: Rule, key: string, val: string)
    requires Quiet(key) && Quiet(val) && '=' !in key
    ensures ApplyPart(r, key + "=" + val) == ApplyKey(r, ToUpper(key), val)
    ensures Quiet(key + "=" + val)
  {
    hide ApplyKey, IndexOf, TrimSpace;
    IndexOfFirst(key, '=', val);
    var part := key + "=" + val;
    assert part == key + ['='] + val;
    assert part[..|key|] == key && part[|key| + 1..] == val;
    TightIsTrimmed(key);
    TightIsTrimmed(val);
  }

  lemma OneSegment(key: string, val: string)
    requires Quiet(key) && Quiet(val) && '=' !in key
    ensures Parsed(key + "=" + val) == Finished(ApplyKey(START, ToUpper(key), val))
  {
    hide *;
    var part := key + "=" + val;
    SegmentIs(START, key, val);
    SegmentsAreRead([part]);
    JoinedOne(part);
    ApplyOne(START, part);
  }

  lemma JoinedOne(a: string)
    ensures Join([a], ';') == a
  {
  }

  lemma JoinedTwo(a: string, b: string)
    ensures Join([a, b], ';') == a + ";" + b
  {
    assert [a, b][1..] == [b];
  }

  lemma TwoSegments(k1: string, v1: string, k2: string, v2: string)
    requires Quiet(k1) && Quiet(v1) && '=' !in k1 && Quiet(k2) && Quiet(v2) && '=' !in k2
    requires ApplyKey(START, ToUpper(k1), v1).Some?
    ensures Parsed(k1 + "=" + v1 + ";" + k2 + "=" + v2)
      == Finished(ApplyKey(ApplyKey(START, ToUpper(k1), v1).value, ToUpper(k2), v2))
  {
    hide *;
    var a, b := k1 + "=" + v1, k2 + "=" + v2;
    SegmentIs(START, k1, v1);
    var r := ApplyKey(START, ToUpper(k1), v1).value;
    SegmentIs(r, k2, v2);
    SegmentsAreRead([a, b]);
    JoinedTwo(a, b);
    assert [a, b] == [a] + [b];
    ApplyOne(START, a);
    ApplyAppend(START, [a], [b]);
    ApplyOne(r, b);
    assert a + ";" + b == k1 + "=" + v1 + ";" + k2 + "=" + v2;
  }

  // ---- Frequencies and days ----

  lemma LettersAreQuiet(s: string)
    requires s != "" && UpperCase(ToUpper(s))
    ensures Quiet(s) && '=' !in s
  {
    forall c | c in s ensures c != ';' && c != ':' && c != '=' && !IsSpace(c) {
      var i :| 0 <= i < |s| && s[i] == c;
      assert ToUpper(s)[i] in ToUpper(s);
    }
  }

  /** FREQ in any case with DAILY, WEEKLY, MONTHLY or YEARLY in any case. */
  lemma FrequencyIsRead(key: string, s: string, k: nat)
    requires ToUpper(key) == "FREQ" && k < 4 && ToUpper(s) == ["DAILY", "WEEKLY", "MONTHLY", "YEARLY"][k]
    ensures Parsed(key + "=" + s)
      == Some(Rule(Some([R.Daily, R.Weekly, R.Monthly, R.Yearly][k]), 1, 0, Stamp(Date(1, 1, 1), 0, 0, 0, 0), [], 0))
  {
    hide Parsed;
    LettersAreQuiet(key);
    LettersAreQuiet(s);
    OneSegment(key, s);
  }

  const WEEKLY: Rule := Rule(Some(R.Weekly), 1, 0, Stamp(Date(1, 1, 1), 0, 0, 0, 0), [], 0)

  lemma WeeklyKey()
    ensures Quiet("FREQ") && Quiet("WEEKLY") && '=' !in "FREQ"
    ensures ApplyKey(START, ToUpper("FREQ"), "WEEKLY") == Some(WEEKLY)
  {
    ToUpperKeeps("FREQ");
    ToUpperKeeps("WEEKLY");
    LettersAreQuiet("FREQ");
    LettersAreQuiet("WEEKLY");
  }

  lemma OneDay(s: string)
    requires Quiet(s) && ',' !in s
    ensures ParseDays(Split(s, ',')) == match DayOf(ToUpper(s)) case Some(d) => Some([d]) case None => None
  {
    SplitOne(s, ',');
    TightIsTrimmed(s);
    assert [s][1..] == [];
    assert forall d: R.Weekday :: [d] + [] == [d];
  }

  lemma NoComma(s: string)
    requires UpperCase(ToUpper(s))
    ensures ',' !in s
  {
    forall i | 0 <= i < |s| ensures s[i] != ',' { assert ToUpper(s)[i] in ToUpper(s); }
  }

  // ---- The other keys ----

  lemma DigitsAreQuiet(n: nat)
    requires n <= MAX_INT
    ensures Quiet(Itoa(n))
  {
    RangedItoa(n, 0, MAX_INT);
    NotNothing(n);
  }

  lemma NotNothing(n: nat)
    requires n <= MAX_INT
    ensures Itoa(n) != ""
  {
    AtoiItoa(n);
  }

  lemma WeeklyThen(key: string, val: string)
    requires UpperCase(key) && key != "" && Quiet(val)
    ensures Parsed("FREQ=WEEKLY;" + key + "=" + val) == Finished(ApplyKey(WEEKLY, key, val))
  {
    hide Parsed, Quiet, ApplyKey, Finished;
    WeeklyKey();
    ToUpperKeeps(key);
    LettersAreQuiet(key);
    TwoSegments("FREQ", "WEEKLY", key, val);
    assert "FREQ" + "=" + "WEEKLY" + ";" + key + "=" + val == "FREQ=WEEKLY;" + key + "=" + val;
  }

  /** INTERVAL, COUNT and BYMONTHDAY fill their own fields. */
  lemma IntervalIsRead(n: nat)
    requires 1 <= n <= MAX_INT
    ensures Parsed("FREQ=WEEKLY;INTERVAL=" + Itoa(n)) == Some(WEEKLY.(interval := n))
  {
    hide Parsed, Quiet, Itoa, Atoi;
    DigitsAreQuiet(n);
    AtoiItoa(n);
    WeeklyThen("INTERVAL", Itoa(n));
    assert "FREQ=WEEKLY;" + "INTERVAL" + "=" + Itoa(n) == "FREQ=WEEKLY;INTERVAL=" + Itoa(n);
  }

  lemma CountIsRead(n: nat)
    requires 1 <= n <= MAX_INT
    ensures Parsed("FREQ=WEEKLY;COUNT=" + Itoa(n)) == Some(WEEKLY.(count := n))
  {
    hide Parsed, Quiet, Itoa, Atoi;
    DigitsAreQuiet(n);
    AtoiItoa(n);
    WeeklyThen("COUNT", Itoa(n));
    assert "FREQ=WEEKLY;" + "COUNT" + "=" + Itoa(n) == "FREQ=WEEKLY;COUNT=" + Itoa(n);
  }

  lemma MonthDayIsRead(n: nat)
    requires 1 <= n <= MAX_INT
    ensures Parsed("FREQ=WEEKLY;BYMONTHDAY=" + Itoa(n)) == if n <= 31 then Some(WEEKLY.(byMonthDay := n)) else None
  {
    hide Parsed, Quiet, Itoa, Atoi;
    DigitsAreQuiet(n);
    AtoiItoa(n);
    WeeklyThen("BYMONTHDAY", Itoa(n));
    assert "FREQ=WEEKLY;" + "BYMONTHDAY" + "=" + Itoa(n) == "FREQ=WEEKLY;BYMONTHDAY=" + Itoa(n);
  }

  // ---- Days ----

  lemma DayKeyIs(s: string, d: R.Weekday)
    requires Quiet(s) && ',' !in s && DayOf(ToUpper(s)) == Some(d)
    ensures ApplyKey(WEEKLY, "BYDAY", s) == Some(WEEKLY.(byDay := [d]))
  {
    hide Split, ParseDays, DayOf, Quiet;
    OneDay(s);
    assert WEEKLY.byDay + [d] == [d];
  }

  lemma DayNamed(s: string, k: nat)
    requires k < 7 && ToUpper(s) == ["SU", "MO", "TU", "WE", "TH", "FR", "SA"][k]
    ensures Quiet(s) && ',' !in s && DayOf(ToUpper(s)) == Some([R.SU, R.MO, R.TU, R.WE, R.TH, R.FR, R.SA][k])
  {
    hide Quiet;
    LettersAreQuiet(s);
    NoComma(s);
  }

  /** BYDAY with the name of a day in any case. */
  lemma DayIsRead(s: string, k: nat)
    requires k < 7 && ToUpper(s) == ["SU", "MO", "TU", "WE", "TH", "FR", "SA"][k]
    ensures Parsed("FREQ=WEEKLY;BYDAY=" + s)
      == Some(WEEKLY.(byDay := [[R.SU, R.MO, R.TU, R.WE, R.TH, R.FR, R.SA][k]]))
  {
    hide *;
    DayNamed(s, k);
    var d := [R.SU, R.MO, R.TU, R.WE, R.TH, R.FR, R.SA][k];
    DayKeyIs(s, d);
    ByDayIsKey();
    WeeklyThen("BYDAY", s);
    WeeklyIsFinished([d]);
    assert "FREQ=WEEKLY;" + "BYDAY" + "=" + s == "FREQ=WEEKLY;BYDAY=" + s;
  }

  lemma ByDayIsKey()
    ensures UpperCase("BYDAY")
  {
  }

  lemma WeeklyIsFinished(days: seq<R.Weekday>)
    ensures Finished(Some(WEEKLY.(byDay := days))) == Some(WEEKLY.(byDay := days))
  {
  }

  // ---- UNTIL ----

  /** Half past nine and 15 seconds on 31 January 2024, UTC. */
  lemma KnownUntil()
    ensures ParseUntil("20240131T093015Z") == Some(Stamp(Date(2024, 1, 31), 9, 30, 15, 0))
  {
    hide DateDigits, DateOf, FractionLength, NanosOf;
    var s := "20240131T093015Z";
    KnownDigits(s);
    KnownClock(s);
    assert s[15..] == "Z";
  }

  lemma KnownClock(s: string)
    requires |s| >= 15 && s[8..15] == "T093015" && (|s| == 15 || s[15] == 'Z')
    ensures ClockDigits(s) && Num(s, 9) == 9 && Num(s, 11) == 30 && Num(s, 13) == 15
    ensures FractionLength(s) == 0 && NanosOf(s) == 0
  {
    assert s[8..15][0] == s[8] && s[8..15][1] == s[9] && s[8..15][2] == s[10] && s[8..15][3] == s[11];
    assert s[8..15][4] == s[12] && s[8..15][5] == s[13] && s[8..15][6] == s[14];
  }

  lemma KnownDigits(s: string)
    requires |s| >= 8 && s[..8] == "20240131"
    ensures DateDigits(s) && DateOf(s) == Date(2024, 1, 31)
  {
    assert s[..8][0] == s[0] && s[..8][1] == s[1] && s[..8][2] == s[2] && s[..8][3] == s[3];
    assert s[..8][4] == s[4] && s[..8][5] == s[5] && s[..8][6] == s[6] && s[..8][7] == s[7];
  }

  /** Without the letter, and the date alone. */
  lemma KnownLayouts()
    ensures ParseUntil("20240131T093015") == Some(Stamp(Date(2024, 1, 31), 9, 30, 15, 0))
    ensures ParseUntil("20240131") == Some(Stamp(Date(2024, 1, 31), 0, 0, 0, 0))
  {
    hide DateDigits, DateOf, FractionLength, NanosOf;
    var s := "20240131T093015";
    KnownDigits(s);
    KnownClock(s);
    assert s[15..] == "";
    KnownDigits("20240131");
  }

  lemma UntilKey()
    ensures UpperCase("UNTIL") && Quiet("20240131T093015Z")
    ensures Finished(ApplyKey(WEEKLY, "UNTIL", "20240131T093015Z")) == Some(WEEKLY.(until := Stamp(Date(2024, 1, 31), 9, 30, 15, 0)))
  {
    hide ParseUntil;
    KnownUntil();
  }

  /** UNTIL fills its field. */
  lemma UntilIsRead()
    ensures Parsed("FREQ=WEEKLY;UNTIL=20240131T093015Z") == Some(WEEKLY.(until := Stamp(Date(2024, 1, 31), 9, 30, 15, 0)))
  {
    hide *;
    UntilKey();
    WeeklyThen("UNTIL", "20240131T093015Z");
    assert "FREQ=WEEKLY;" + "UNTIL" + "=" + "20240131T093015Z" == "FREQ=WEEKLY;UNTIL=20240131T093015Z";
  }
}
