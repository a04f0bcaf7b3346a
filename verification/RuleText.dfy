/** Recurrence rules as text: the parser and the printer of the RRULE subset, and their round trip. */
module RuleText {
  import opened Wrappers
  import opened Text
  import opened Calendar
  import R = Recurrence

  /** A UTC time of day on a date; the years that four digits can write. */
  datatype Stamp = Stamp(date: YearMonthDay, hour: int, minute: int, second: int, nanos: int)

  predicate ValidStamp(t: Stamp) {
    && 0 <= t.date.year <= 9999 && ValidDate(t.date)
    && 0 <= t.hour < 24 && 0 <= t.minute < 60 && 0 <= t.second < 60 && 0 <= t.nanos < 1_000_000_000
  }

  /** Go's zero time, which stands for "no UNTIL". */
  const ZERO: Stamp := Stamp(Date(1, 1, 1), 0, 0, 0, 0)

  datatype Rule = Rule(freq: Option<R.Freq>, interval: int, count: int, until: Stamp,
                       byDay: seq<R.Weekday>, byMonthDay: int)

  /** What a parsed rule satisfies. */
  predicate ValidRule(r: Rule) {
    && r.freq.Some?
    && 1 <= r.interval <= MAX_INT && 0 <= r.count <= MAX_INT && 0 <= r.byMonthDay <= 31
    && ValidStamp(r.until)
    && (r.count > 0 ==> r.until == ZERO)
  }

  // ---- UNTIL ----

  /** Two digits at position `i`. */
  predicate TwoDigits(s: string, i: nat) {
    i + 2 <= |s| && IsDigit(s[i]) && IsDigit(s[i + 1])
  }

  function Num(s: string, i: nat): int
    requires TwoDigits(s, i)
  {
    Num2(s[i..i + 2])
  }

  predicate DateDigits(s: string) {
    TwoDigits(s, 0) && TwoDigits(s, 2) && TwoDigits(s, 4) && TwoDigits(s, 6)
  }

  function DateOf(s: string): YearMonthDay
    requires DateDigits(s)
  {
    Date(100 * Num(s, 0) + Num(s, 2), Num(s, 4), Num(s, 6))
  }

  predicate ClockDigits(s: string) {
    |s| >= 15 && s[8] == 'T' && TwoDigits(s, 9) && TwoDigits(s, 11) && TwoDigits(s, 13)
  }

  /** How many characters from `i` on are digits. */
  function DigitRun(s: string, i: nat): (n: nat)
    requires i <= |s|
    ensures i + n <= |s| && forall k | i <= k < i + n :: IsDigit(s[k])
    decreases |s| - i
  {
    if i < |s| && IsDigit(s[i]) then 1 + DigitRun(s, i + 1) else 0
  }

  /** A fraction the layout does not mention is still read after the seconds. */
  function FractionLength(s: string): (n: nat)
    ensures |s| >= 15 ==> 15 + n <= |s|
    ensures n > 0 ==> |s| >= 15 + n && n >= 2 && forall k | 16 <= k < 15 + n :: IsDigit(s[k])
  {
    if |s| >= 17 && (s[15] == '.' || s[15] == ',') && IsDigit(s[16]) then 1 + DigitRun(s, 16) else 0
  }

  /** The nanoseconds of a run of fraction digits: nine of them count, missing ones are zero. */
  function Nanos(digits: string, places: nat): (n: int)
    requires AllDigits(digits)
    decreases places
  {
    if places == 0 then 0
    else if digits == "" then 10 * Nanos("", places - 1)
    else if |digits| >= places then 10 * Nanos(digits[..places - 1], places - 1) + (assert digits[places - 1] in digits; DigitValue(digits[places - 1]))
    else 10 * Nanos(digits, places - 1)
  }

  lemma {:induction false} NanosBounded(digits: string, places: nat, bound: int)
    requires AllDigits(digits) && bound == PowerOfTen(places)
    ensures 0 <= Nanos(digits, places) < bound
    decreases places
  {
    if places > 0 {
      if digits == "" { NanosBounded("", places - 1, PowerOfTen(places - 1)); }
      else if |digits| >= places {
        NanosBounded(digits[..places - 1], places - 1, PowerOfTen(places - 1));
        assert digits[places - 1] in digits;
      } else { NanosBounded(digits, places - 1, PowerOfTen(places - 1)); }
    }
  }

  function PowerOfTen(n: nat): int {
    if n == 0 then 1 else 10 * PowerOfTen(n - 1)
  }

  function NanosOf(s: string): (n: int)
    ensures 0 <= n < 1_000_000_000
    ensures FractionLength(s) == 0 ==> n == 0
  {
    var k := FractionLength(s);
    if k == 0 then 0
    else
      var digits := s[16..15 + k];
      assert AllDigits(digits);
      NanosBounded(digits, 9, PowerOfTen(9));
      assert PowerOfTen(4) == 10_000 && PowerOfTen(8) == 100_000_000;
      Nanos(digits, 9)
  }

  function Checked(t: Stamp): Option<Stamp> {
    if ValidStamp(t) then Some(t) else None
  }

  /** The three layouts, in the order they are tried. */
  function ParseUntil(s: string): (r: Option<Stamp>)
    ensures r.Some? ==> ValidStamp(r.value)
  {
    if !DateDigits(s) then None
    else if |s| == 8 then Checked(Stamp(DateOf(s), 0, 0, 0, 0))
    else if !ClockDigits(s) then None
    else
      var end := 15 + FractionLength(s);
      if s[end..] == "Z" || s[end..] == "" then
        Checked(Stamp(DateOf(s), Num(s, 9), Num(s, 11), Num(s, 13), NanosOf(s)))
      else None
  }

  /** `20060102T150405Z`: whole seconds. */
  function FormatUntil(t: Stamp): (s: string)
    requires ValidStamp(t)
    ensures |s| == 16
  {
    Pad2(t.date.year / 100) + Pad2(t.date.year % 100) + Pad2(t.date.month) + Pad2(t.date.day)
      + "T" + Pad2(t.hour) + Pad2(t.minute) + Pad2(t.second) + "Z"
  }

  lemma UntilRoundTrip(t: Stamp)
    requires ValidStamp(t)
    ensures ParseUntil(FormatUntil(t)) == Some(t.(nanos := 0))
  {
    var s := FormatUntil(t);
    assert s[0..2] == Pad2(t.date.year / 100);
    assert s[2..4] == Pad2(t.date.year % 100);
    assert s[4..6] == Pad2(t.date.month);
    assert s[6..8] == Pad2(t.date.day);
    assert s[9..11] == Pad2(t.hour);
    assert s[11..13] == Pad2(t.minute);
    assert s[13..15] == Pad2(t.second);
    DigitsAt(s, 0);
    DigitsAt(s, 2);
    DigitsAt(s, 4);
    DigitsAt(s, 6);
    DigitsAt(s, 9);
    DigitsAt(s, 11);
    DigitsAt(s, 13);
    assert s[15..] == "Z";
  }

  lemma DigitsAt(s: string, i: nat)
    requires i + 2 <= |s| && AllDigits(s[i..i + 2])
    ensures TwoDigits(s, i)
  {
    assert s[i..i + 2][0] in s[i..i + 2] && s[i..i + 2][1] in s[i..i + 2];
  }

  // ---- The parser ----

  function FreqOf(s: string): Option<R.Freq> {
    if s == "DAILY" then Some(R.Daily) else if s == "WEEKLY" then Some(R.Weekly)
    else if s == "MONTHLY" then Some(R.Monthly) else if s == "YEARLY" then Some(R.Yearly) else None
  }

  function FreqName(f: R.Freq): (s: string)
    ensures FreqOf(s) == Some(f) && UpperCase(s) && s != ""
  {
    match f case Daily => "DAILY" case Weekly => "WEEKLY" case Monthly => "MONTHLY" case Yearly => "YEARLY"
  }

  function DayOf(s: string): Option<R.Weekday> {
    if s == "SU" then Some(R.SU) else if s == "MO" then Some(R.MO) else if s == "TU" then Some(R.TU)
    else if s == "WE" then Some(R.WE) else if s == "TH" then Some(R.TH) else if s == "FR" then Some(R.FR)
    else if s == "SA" then Some(R.SA) else None
  }

  function DayName(d: R.Weekday): (s: string)
    ensures DayOf(s) == Some(d) && UpperCase(s) && |s| == 2
  {
    match d
    case SU => "SU" case MO => "MO" case TU => "TU" case WE => "WE" case TH => "TH" case FR => "FR" case SA => "SA"
  }

  function ParseDays(parts: seq<string>): Option<seq<R.Weekday>> {
    if parts == [] then Some([])
    else
      match (DayOf(ToUpper(TrimSpace(parts[0]))), ParseDays(parts[1..]))
      case (Some(d), Some(ds)) => Some([d] + ds)
      case _ => None
  }

  /** An integer in the given range, or nothing. */
  function Ranged(val: string, lo: int, hi: int): Option<int> {
    match Atoi(val)
    case Some(n) => if lo <= n <= hi then Some(n) else None
    case None => None
  }

  /** One `KEY=value` segment. */
  function ApplyKey(r: Rule, key: string, val: string): Option<Rule> {
    if key == "FREQ" then
      (match FreqOf(ToUpper(val)) case Some(f) => Some(r.(freq := Some(f))) case None => None)
    else if key == "INTERVAL" then
      (match Ranged(val, 1, MAX_INT) case Some(n) => Some(r.(interval := n)) case None => None)
    else if key == "COUNT" then
      (match Ranged(val, 1, MAX_INT) case Some(n) => Some(r.(count := n)) case None => None)
    else if key == "UNTIL" then
      (match ParseUntil(val) case Some(t) => Some(r.(until := t)) case None => None)
    else if key == "BYDAY" then
      (match ParseDays(Split(val, ',')) case Some(ds) => Some(r.(byDay := r.byDay + ds)) case None => None)
    else if key == "BYMONTHDAY" then
      (match Ranged(val, 1, 31) case Some(n) => Some(r.(byMonthDay := n)) case None => None)
    else if key == "WKST" then Some(r)
    else None
  }

  function ApplyPart(r: Rule, part: string): Option<Rule> {
    var i := IndexOf(part, '=');
    if i == |part| then None else ApplyKey(r, ToUpper(TrimSpace(part[..i])), TrimSpace(part[i + 1..]))
  }

  function ApplyParts(r: Rule, parts: seq<string>): Option<Rule>
    decreases |parts|
  {
    if parts == [] then Some(r)
    else
      match ApplyPart(r, parts[0])
      case None => None
      case Some(r') => ApplyParts(r', parts[1..])
  }

  const START: Rule := Rule(None, 1, 0, ZERO, [], 0)

  function Parsed(s: string): Option<Rule> {
    var body := TrimPrefix(TrimSpace(s), "RRULE:");
    if body == "" then None
    else
      match ApplyParts(START, Split(body, ';'))
      case None => None
      case Some(r) => if r.freq == None || (r.count > 0 && r.until != ZERO) then None else Some(r)
  }

  /** The parser: a loop over the segments that fills a rule in. */
  method Parse(s: string) returns (result: Option<Rule>)
    ensures result == Parsed(s)
  {
    var body := TrimPrefix(TrimSpace(s), "RRULE:");
    if body == "" { return None; }
    var r := START;
    var parts := Split(body, ';');
    var i := 0;
    while i < |parts|
      invariant 0 <= i <= |parts|
      invariant ApplyParts(START, parts) == ApplyParts(r, parts[i..])
    {
      assert parts[i..][1..] == parts[i + 1..];
      var next := ApplyPart(r, parts[i]);
      if next == None { return None; }
      r := next.value;
      i := i + 1;
    }
    if r.freq == None { return None; }
    if r.count > 0 && r.until != ZERO { return None; }
    return Some(r);
  }

  // ---- The printer ----

  function DayNames(days: seq<R.Weekday>): (names: seq<string>)
    ensures |names| == |days| && forall i | 0 <= i < |days| :: names[i] == DayName(days[i])
  {
    seq(|days|, i requires 0 <= i < |days| => DayName(days[i]))
  }

  function FreqPart(r: Rule): seq<string>
    requires ValidRule(r)
  { ["FREQ=" + FreqName(r.freq.value)] }

  function IntervalPart(r: Rule): seq<string>
    requires ValidRule(r)
  { if r.interval > 1 then ["INTERVAL=" + Itoa(r.interval)] else [] }

  function CountPart(r: Rule): seq<string>
    requires ValidRule(r)
  { if r.count > 0 then ["COUNT=" + Itoa(r.count)] else [] }

  function UntilPart(r: Rule): seq<string>
    requires ValidRule(r)
  { if r.until != ZERO then ["UNTIL=" + FormatUntil(r.until)] else [] }

  function DayPart(r: Rule): seq<string>
    requires ValidRule(r)
  { if r.byDay != [] then ["BYDAY=" + Join(DayNames(r.byDay), ',')] else [] }

  function MonthDayPart(r: Rule): seq<string>
    requires ValidRule(r)
  { if r.byMonthDay > 0 then ["BYMONTHDAY=" + Itoa(r.byMonthDay)] else [] }

  function Parts(r: Rule): (ps: seq<string>)
    requires ValidRule(r)
  {
    FreqPart(r) + IntervalPart(r) + CountPart(r) + UntilPart(r) + DayPart(r) + MonthDayPart(r)
  }

  function Printed(r: Rule): string
    requires ValidRule(r)
  {
    Join(Parts(r), ';')
  }

  /** The printer: parts appended one by one and joined. */
  method Print(r: Rule) returns (s: string)
    requires ValidRule(r)
    ensures s == Printed(r)
  {
    hide FormatUntil, FreqName, Itoa, Join, DayName;
    var parts := ["FREQ=" + FreqName(r.freq.value)];
    if r.interval > 1 { parts := parts + ["INTERVAL=" + Itoa(r.interval)]; }
    if r.count > 0 { parts := parts + ["COUNT=" + Itoa(r.count)]; }
    if r.until != ZERO { parts := parts + ["UNTIL=" + FormatUntil(r.until)]; }
    assert parts == FreqPart(r) + IntervalPart(r) + CountPart(r) + UntilPart(r);
    if |r.byDay| > 0 {
      var days := NameDays(r.byDay);
      parts := parts + ["BYDAY=" + Join(days, ',')];
    }
    assert parts == FreqPart(r) + IntervalPart(r) + CountPart(r) + UntilPart(r) + DayPart(r);
    if r.byMonthDay > 0 { parts := parts + ["BYMONTHDAY=" + Itoa(r.byMonthDay)]; }
    assert parts == Parts(r);
    s := Join(parts, ';');
  }

  method NameDays(days: seq<R.Weekday>) returns (names: seq<string>)
    ensures names == DayNames(days)
  {
    names := [];
    for i := 0 to |days|
      invariant |names| == i && forall k | 0 <= k < i :: names[k] == DayName(days[k])
    {
      names := names + [DayName(days[i])];
    }
  }

  // ---- Parse after print ----

  /** Letters, digits and commas: what keys and values are printed with. */
  predicate Plain(s: string) {
    forall c | c in s :: 'A' <= c <= 'Z' || IsDigit(c) || c == ','
  }

  lemma PlainIsTrimmed(s: string)
    requires Plain(s)
    ensures TrimSpace(s) == s
  {
    if s != "" {
      assert s[0] in s && s[|s| - 1] in s;
    }
  }

  /** A printed segment reaches its key with its value intact. */
  lemma PartReachesKey(r: Rule, key: string, val: string, part: string)
    requires UpperCase(key) && TrimSpace(val) == val && part == key + "=" + val
    ensures ApplyPart(r, part) == ApplyKey(r, key, val)
  {
    IndexOfFirst(key, '=', val);
    assert part == key + ['='] + val;
    assert part[..|key|] == key && part[|key| + 1..] == val;
    PlainIsTrimmed(key);
    ToUpperKeeps(key);
  }

  /** A list of one keyed part does what its key does. */
  lemma OnePart(r: Rule, key: string, val: string, part: string)
    requires UpperCase(key) && Plain(val) && part == key + "=" + val
    ensures ApplyParts(r, [part]) == ApplyKey(r, key, val)
  {
    hide ApplyKey, ApplyPart, ApplyParts;
    PlainIsTrimmed(val);
    PartReachesKey(r, key, val, part);
    ApplyOne(r, part);
  }

  lemma ApplyNone(r: Rule)
    ensures ApplyParts(r, []) == Some(r)
  {
  }

  lemma ApplyOne(r: Rule, part: string)
    ensures ApplyParts(r, [part]) == ApplyPart(r, part)
  {
  }

  lemma {:induction false} ApplyAppend(r: Rule, one: seq<string>, two: seq<string>)
    requires ApplyParts(r, one).Some?
    ensures ApplyParts(r, one + two) == ApplyParts(ApplyParts(r, one).value, two)
    decreases |one|
  {
    if one == [] {
      assert one + two == two;
    } else {
      assert (one + two)[1..] == one[1..] + two;
      ApplyAppend(ApplyPart(r, one[0]).value, one[1..], two);
    }
  }

  lemma RangedItoa(n: nat, lo: int, hi: int)
    requires lo <= n <= hi && n <= MAX_INT
    ensures Ranged(Itoa(n), lo, hi) == Some(n) && Plain(Itoa(n))
  {
    AtoiItoa(n);
  }

  lemma {:induction false} ParseDayNames(days: seq<R.Weekday>)
    ensures ParseDays(DayNames(days)) == Some(days)
    decreases |days|
  {
    if days != [] {
      var names := DayNames(days);
      assert names[1..] == DayNames(days[1..]);
      ParseDayNames(days[1..]);
      var d := DayName(days[0]);
      assert Plain(d);
      PlainIsTrimmed(d);
      ToUpperKeeps(d);
      assert [days[0]] + days[1..] == days;
    }
  }

  lemma {:induction false} JoinIsPlain(names: seq<string>)
    requires forall n | n in names :: Plain(n)
    ensures Plain(Join(names, ','))
  {
    if |names| == 1 {
      assert names[0] in names;
    } else if |names| > 1 {
      assert names[0] in names;
      JoinIsPlain(names[1..]);
    }
  }

  lemma NamesArePlain(days: seq<R.Weekday>)
    ensures forall n | n in DayNames(days) :: Plain(n) && ',' !in n
  {
  }

  lemma FreqPartApplies(r: Rule, d: Rule)
    requires ValidRule(r)
    ensures ApplyParts(d, FreqPart(r)) == Some(d.(freq := r.freq))
  {
    hide ApplyPart, ApplyParts;
    var val := FreqName(r.freq.value);
    ToUpperKeeps(val);
    OnePart(d, "FREQ", val, "FREQ=" + val);
  }

  lemma IntervalPartApplies(r: Rule, d: Rule)
    requires ValidRule(r) && d.interval == 1
    ensures ApplyParts(d, IntervalPart(r)) == Some(d.(interval := r.interval))
  {
    hide ApplyPart, ApplyParts, Itoa;
    ApplyNone(d);
    if r.interval > 1 {
      RangedItoa(r.interval, 1, MAX_INT);
      OnePart(d, "INTERVAL", Itoa(r.interval), "INTERVAL=" + Itoa(r.interval));
    }
  }

  lemma CountPartApplies(r: Rule, d: Rule)
    requires ValidRule(r) && d.count == 0
    ensures ApplyParts(d, CountPart(r)) == Some(d.(count := r.count))
  {
    hide ApplyPart, ApplyParts, Itoa;
    ApplyNone(d);
    if r.count > 0 {
      RangedItoa(r.count, 1, MAX_INT);
      OnePart(d, "COUNT", Itoa(r.count), "COUNT=" + Itoa(r.count));
    }
  }

  lemma UntilPartApplies(r: Rule, d: Rule)
    requires ValidRule(r) && d.until == ZERO
    ensures ApplyParts(d, UntilPart(r)) == Some(d.(until := r.until.(nanos := 0)))
  {
    hide ApplyPart, ApplyParts, FormatUntil, ParseUntil;
    ApplyNone(d);
    if r.until != ZERO {
      UntilRoundTrip(r.until);
      StampIsPlain(r.until);
      OnePart(d, "UNTIL", FormatUntil(r.until), "UNTIL=" + FormatUntil(r.until));
    }
  }

  lemma DayKeyApplies(d: Rule, days: seq<R.Weekday>)
    requires days != [] && d.byDay == []
    ensures Plain(Join(DayNames(days), ','))
    ensures ApplyKey(d, "BYDAY", Join(DayNames(days), ',')) == Some(d.(byDay := days))
  {
    hide DayName, Split, Join, ParseDays;
    NamesArePlain(days);
    SplitJoin(DayNames(days), ',');
    ParseDayNames(days);
    JoinIsPlain(DayNames(days));
    assert d.byDay + days == days;
  }

  lemma DayPartApplies(r: Rule, d: Rule)
    requires ValidRule(r) && d.byDay == []
    ensures ApplyParts(d, DayPart(r)) == Some(d.(byDay := r.byDay))
  {
    hide DayNames, Join, ApplyPart, ApplyKey, ApplyParts, ValidRule, Plain;
    ApplyNone(d);
    if r.byDay != [] {
      assert UpperCase("BYDAY");
      var val := Join(DayNames(r.byDay), ',');
      DayKeyApplies(d, r.byDay);
      OnePart(d, "BYDAY", val, "BYDAY=" + val);
    }
  }

  lemma MonthDayPartApplies(r: Rule, d: Rule)
    requires ValidRule(r) && d.byMonthDay == 0
    ensures ApplyParts(d, MonthDayPart(r)) == Some(d.(byMonthDay := r.byMonthDay))
  {
    hide ApplyPart, ApplyParts, Itoa;
    ApplyNone(d);
    if r.byMonthDay > 0 {
      RangedItoa(r.byMonthDay, 1, 31);
      OnePart(d, "BYMONTHDAY", Itoa(r.byMonthDay), "BYMONTHDAY=" + Itoa(r.byMonthDay));
    }
  }

  lemma PartsApply(r: Rule)
    requires ValidRule(r)
    ensures ApplyParts(START, Parts(r)) == Some(r.(until := r.until.(nanos := 0)))
  {
    hide FreqPart, IntervalPart, CountPart, UntilPart, DayPart, MonthDayPart, ApplyPart;
    var p1 := FreqPart(r);
    var p2 := p1 + IntervalPart(r);
    var p3 := p2 + CountPart(r);
    var p4 := p3 + UntilPart(r);
    var p5 := p4 + DayPart(r);
    var d1 := START.(freq := r.freq);
    FreqPartApplies(r, START);
    var d2 := d1.(interval := r.interval);
    IntervalPartApplies(r, d1);
    ApplyAppend(START, p1, IntervalPart(r));
    var d3 := d2.(count := r.count);
    CountPartApplies(r, d2);
    ApplyAppend(START, p2, CountPart(r));
    var d4 := d3.(until := r.until.(nanos := 0));
    UntilPartApplies(r, d3);
    ApplyAppend(START, p3, UntilPart(r));
    var d5 := d4.(byDay := r.byDay);
    DayPartApplies(r, d4);
    ApplyAppend(START, p4, DayPart(r));
    MonthDayPartApplies(r, d5);
    ApplyAppend(START, p5, MonthDayPart(r));
  }

  /** Letters, digits, commas and equals signs: what segments are printed with. */
  predicate Clean(p: string) {
    p != "" && forall c | c in p :: 'A' <= c <= 'Z' || IsDigit(c) || c == ',' || c == '='
  }

  lemma KeyedIsClean(key: string, val: string)
    requires Clean(key) && Plain(val)
    ensures Clean(key + val)
  {
  }

  lemma PartsAreClean(r: Rule)
    requires ValidRule(r)
    ensures forall p | p in Parts(r) :: Clean(p)
  {
    hide FormatUntil, FreqName, Join, DayName, Itoa, DayNames;
    NamesArePlain(r.byDay);
    JoinIsPlain(DayNames(r.byDay));
    StampIsPlain(r.until);
    KeyedIsClean("FREQ=", FreqName(r.freq.value));
    KeyedIsClean("INTERVAL=", Itoa(r.interval));
    KeyedIsClean("COUNT=", Itoa(r.count));
    KeyedIsClean("UNTIL=", FormatUntil(r.until));
    KeyedIsClean("BYDAY=", Join(DayNames(r.byDay), ','));
    KeyedIsClean("BYMONTHDAY=", Itoa(r.byMonthDay));
  }

  lemma StampIsPlain(t: Stamp)
    requires ValidStamp(t)
    ensures Plain(FormatUntil(t))
  {
  }

  lemma {:induction false} JoinEndsClean(parts: seq<string>)
    requires |parts| > 0 && Clean(parts[0]) && forall p | p in parts :: Clean(p)
    ensures var s := Join(parts, ';'); s != "" && s[0] == parts[0][0] && !IsSpace(s[0]) && !IsSpace(s[|s| - 1])
    decreases |parts|
  {
    assert parts[0][0] in parts[0] && parts[0][|parts[0]| - 1] in parts[0];
    if |parts| > 1 {
      assert parts[1] in parts;
      JoinEndsClean(parts[1..]);
      var rest := Join(parts[1..], ';');
      var s := Join(parts, ';');
      assert s[|s| - 1] == rest[|rest| - 1];
    }
  }

  /** Parsing a printed rule gives the rule back, its UNTIL cut to whole seconds. */
  lemma ParseAfterPrint(r: Rule)
    requires ValidRule(r)
    ensures Parsed(Printed(r)) == Some(r.(until := r.until.(nanos := 0)))
  {
    var parts, s := Parts(r), Printed(r);
    PartsAreClean(r);
    assert parts[0] == FreqPart(r)[0] && parts[0] in parts;
    forall p | p in parts ensures ';' !in p { assert Clean(p); }
    JoinEndsClean(parts);
    assert s[0] == 'F';
    assert TrimSpace(s) == s;
    assert TrimPrefix(s, "RRULE:") == s;
    SplitJoin(parts, ';');
    PartsApply(r);
  }

  // ---- What parsing yields ----

  predicate DraftOk(r: Rule) {
    && 1 <= r.interval <= MAX_INT && 0 <= r.count <= MAX_INT && 0 <= r.byMonthDay <= 31 && ValidStamp(r.until)
  }

  lemma ApplyPartKeepsOk(r: Rule, part: string)
    requires DraftOk(r) && ApplyPart(r, part).Some?
    ensures DraftOk(ApplyPart(r, part).value)
  {
  }

  lemma {:induction false} ApplyPartsKeepsOk(r: Rule, parts: seq<string>)
    requires DraftOk(r) && ApplyParts(r, parts).Some?
    ensures DraftOk(ApplyParts(r, parts).value)
    decreases |parts|
  {
    hide ApplyPart, DraftOk;
    if parts != [] {
      ApplyPartKeepsOk(r, parts[0]);
      ApplyPartsKeepsOk(ApplyPart(r, parts[0]).value, parts[1..]);
    }
  }

  /** Whatever text parses, the rule it gives can be printed, and the printed text parses to the same rule
      exactly when the UNTIL it named was a whole second. */
  lemma ReparseIff(s: string)
    requires Parsed(s).Some?
    ensures ValidRule(Parsed(s).value)
    ensures Parsed(Printed(Parsed(s).value)) == Parsed(s) <==> Parsed(s).value.until.nanos == 0
  {
    ApplyPartsKeepsOk(START, Split(TrimPrefix(TrimSpace(s), "RRULE:"), ';'));
    ParseAfterPrint(Parsed(s).value);
  }

  const HalfSecond: string := "20240101T000000.5Z"
  const HalfStamp: Stamp := Stamp(Date(2024, 1, 1), 0, 0, 0, 500_000_000)

  lemma HalfSecondDate()
    ensures DateDigits(HalfSecond) && DateOf(HalfSecond) == HalfStamp.date
  {
    var s := HalfSecond;
    assert s[0..2] == "20" && s[2..4] == "24" && s[4..6] == "01" && s[6..8] == "01";
  }

  lemma HalfSecondClock()
    ensures ClockDigits(HalfSecond) && Num(HalfSecond, 9) == 0 && Num(HalfSecond, 11) == 0 && Num(HalfSecond, 13) == 0
  {
    var s := HalfSecond;
    assert s[9..11] == "00" && s[11..13] == "00" && s[13..15] == "00";
  }

  lemma HalfSecondFraction()
    ensures FractionLength(HalfSecond) == 2 && HalfSecond[17..] == "Z" && NanosOf(HalfSecond) == 500_000_000
  {
    var s := HalfSecond;
    assert DigitRun(s, 17) == 0 && DigitRun(s, 16) == 1;
    assert s[16..17] == "5";
    HalfIsNanos();
  }

  lemma HalfSecondParses()
    ensures ParseUntil(HalfSecond) == Some(HalfStamp)
  {
    hide DateDigits, DateOf, ClockDigits, Num, FractionLength, NanosOf;
    HalfSecondDate();
    HalfSecondClock();
    HalfSecondFraction();
  }

  lemma HalfIsNanos()
    ensures AllDigits("5") && Nanos("5", 9) == 500_000_000
  {
    assert "5"[..0] == "";
    assert Nanos("", 0) == 0 && Nanos("5", 1) == 5;
    assert Nanos("5", 2) == 50 && Nanos("5", 3) == 500;
    assert Nanos("5", 4) == 5_000 && Nanos("5", 5) == 50_000;
    assert Nanos("5", 6) == 500_000 && Nanos("5", 7) == 5_000_000;
  }

  /** A rule until half a second past midnight parses, and its printed form names the full second. */
  lemma HalfSecondIsLost()
    ensures
      var s := Join(["FREQ=DAILY", "UNTIL=" + HalfSecond], ';');
      && Parsed(s) == Some(START.(freq := Some(R.Daily), until := HalfStamp))
      && Parsed(Printed(Parsed(s).value)) != Parsed(s)
  {
    hide ApplyParts, Printed, Split, TrimSpace, TrimPrefix;
    var parts := ["FREQ=DAILY", "UNTIL=" + HalfSecond];
    var s := Join(parts, ';');
    assert parts[1..] == [parts[1]] && Join([parts[1]], ';') == parts[1];
    assert s == "FREQ=DAILY" + [';'] + ("UNTIL=" + HalfSecond);
    BothEndsInk(s);
    SplitJoin(parts, ';');
    TwoPartsApply();
    ReparseIff(s);
  }

  lemma BothEndsInk(s: string)
    requires |s| > 1 && s[0] == 'F' && s[|s| - 1] == 'Z'
    ensures TrimPrefix(TrimSpace(s), "RRULE:") == s
  {
    assert !IsSpace('F') && !IsSpace('Z');
    assert TrimLeft(s) == s && TrimRight(s) == s;
    assert "RRULE:"[0] == 'R';
  }

  lemma DigitsAreTrimmed(s: string)
    requires |s| > 0 && IsDigit(s[0]) && s[|s| - 1] == 'Z'
    ensures TrimSpace(s) == s
  {
    assert TrimLeft(s) == s && TrimRight(s) == s;
  }

  lemma TwoPartsApply()
    ensures ApplyParts(START, ["FREQ=DAILY", "UNTIL=" + HalfSecond]) == Some(START.(freq := Some(R.Daily), until := HalfStamp))
  {
    hide ParseUntil, ApplyPart, TrimSpace, ToUpper;
    var parts := ["FREQ=DAILY", "UNTIL=" + HalfSecond];
    HalfSecondParses();
    ToUpperKeeps("DAILY");
    assert UpperCase("FREQ") && UpperCase("UNTIL") && UpperCase("DAILY");
    PlainIsTrimmed("DAILY");
    DigitsAreTrimmed(HalfSecond);
    PartReachesKey(START, "FREQ", "DAILY", parts[0]);
    PartReachesKey(START.(freq := Some(R.Daily)), "UNTIL", HalfSecond, parts[1]);
    ApplyOne(START.(freq := Some(R.Daily)), parts[1]);
    assert parts[1..] == [parts[1]];
  }
}
