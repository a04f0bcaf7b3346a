/** The older occurrence generator, which steps from each window to the next, and its agreement with
    rule expansion, which steps from DTSTART. */
module LegacyRecurrence {
  import opened Calendar
  import R = Recurrence
  import M = MonthlyRule

  datatype Pattern = Daily | Weekly | BiWeekly | Monthly | Unknown

  function NextDay(d: Date): Date {
    if d.day < DaysIn(d.year, d.month) then Date(d.year, d.month, d.day + 1)
    else if d.month < 12 then Date(d.year, d.month + 1, 1)
    else Date(d.year + 1, 1, 1)
  }

  function AddDays(d: Date, n: nat): Date
    decreases n
  {
    if n == 0 then d else AddDays(NextDay(d), n - 1)
  }

  /** How far one step of the pattern goes, in days; monthly steps are not a number of days. */
  function StepDays(p: Pattern): nat {
    match p case Daily => 1 case Weekly => 7 case BiWeekly => 14 case _ => 0
  }

  function Later(w: Wall, days: nat): Wall { w.(date := AddDays(w.date, days)) }

  function NextMonth(w: Wall): Wall { w.(date := AddMonths(w.date, 0, 1)) }

  function Next(p: Pattern, w: Wall): Wall {
    if p == Monthly then NextMonth(w) else Later(w, StepDays(p))
  }

  function Iterate(p: Pattern, w: Wall, i: nat): Wall {
    if i == 0 then w else Next(p, Iterate(p, w, i - 1))
  }

  datatype Window = Window(start: Wall, end: Wall)

  /** The generator: an unknown pattern yields the first window only. */
  method GenerateOccurrences(p: Pattern, first: Window, count: nat) returns (out: seq<Window>)
    requires count >= 1
    ensures |out| == if p == Unknown then 1 else count
    ensures forall i | 0 <= i < |out| :: out[i] == Window(Iterate(p, first.start, i), Iterate(p, first.end, i))
  {
    hide AddMonths, AddDays;
    out := [first];
    var i := 1;
    while i < count
      invariant 1 <= i <= count && |out| == (if p == Unknown then 1 else i)
      invariant forall k | 0 <= k < |out| :: out[k] == Window(Iterate(p, first.start, k), Iterate(p, first.end, k))
    {
      var prev := out[if p == Unknown then 0 else i - 1];
      match p {
        case Daily => out := out + [Window(Later(prev.start, 1), Later(prev.end, 1))];
        case Weekly => out := out + [Window(Later(prev.start, 7), Later(prev.end, 7))];
        case BiWeekly => out := out + [Window(Later(prev.start, 14), Later(prev.end, 14))];
        case Monthly => out := out + [Window(NextMonth(prev.start), NextMonth(prev.end))];
        case Unknown => return;
      }
      i := i + 1;
    }
  }

  // ---- Agreement with rule expansion ----

  function Generated(p: Pattern, first: Window, offset: int, count: nat): (ws: seq<R.Occurrence>)
    ensures |ws| == count
  {
    seq(count, i requires 0 <= i < count =>
      R.Occurrence(InstantOf(Iterate(p, first.start, i), offset), InstantOf(Iterate(p, first.end, i), offset)))
  }

  /** The rule a client would send for the pattern. */
  function RuleFor(p: Pattern, count: nat): R.Rule {
    var freq := match p case Daily => R.Daily case Monthly => R.Monthly case _ => R.Weekly;
    R.Rule(freq, if p == BiWeekly then 2 else 1, count, R.Forever, [], 0, [])
  }

  lemma NextDayCounts(d: Date)
    ensures DayNumber(NextDay(d)) == DayNumber(d) + 1
  {
    MonthsAreContiguous(d.year, d.month);
  }

  lemma {:induction false} AddDaysCounts(d: Date, n: nat)
    ensures DayNumber(AddDays(d, n)) == DayNumber(d) + n
    decreases n
  {
    if n > 0 {
      NextDayCounts(d);
      AddDaysCounts(NextDay(d), n - 1);
    }
  }

  lemma {:induction false} IterateDays(p: Pattern, w: Wall, i: nat)
    requires p != Monthly
    ensures Iterate(p, w, i).clock == w.clock
    ensures DayNumber(Iterate(p, w, i).date) == DayNumber(w.date) + i * StepDays(p)
  {
    if i > 0 {
      IterateDays(p, w, i - 1);
      AddDaysCounts(Iterate(p, w, i - 1).date, StepDays(p));
      assert (i - 1) * StepDays(p) + StepDays(p) == i * StepDays(p);
    }
  }

  lemma ExpansionWithoutUntil(r: R.Rule, dt: R.DtStart, duration: int)
    requires r.until == R.Forever && r.exDates == [] && 1 <= r.count <= R.MAX_OCCURRENCES
    ensures |R.Expansion(r, dt, duration)| == r.count
    ensures forall i | 0 <= i < r.count ::
      R.Expansion(r, dt, duration)[i] == R.Occurrence(R.Candidate(r, dt, i), R.Candidate(r, dt, i) + duration)
  {
    assert R.CutOf(r, dt) == r.count;
  }

  lemma DayCandidate(p: Pattern, w: Wall, offset: int, count: nat, i: nat)
    requires p == Daily || p == Weekly || p == BiWeekly
    ensures R.Candidate(RuleFor(p, count), R.DtStart(w, offset), i) == InstantOf(w, offset) + (i * StepDays(p)) * DAY
  {
    var r, dt := RuleFor(p, count), R.DtStart(w, offset);
    if p != Daily {
      var w0 := R.WeekdayOfStart(dt);
      R.PassAndPlace(1, i, 0);
      assert R.DaysOf(r, w0) == [R.FromNumber(w0)];
      assert R.Distance(R.FromNumber(w0), w0) == 0;
      assert R.WeeklyOffset(r, w0, i) == 7 * (i * R.StepOf(r));
      assert 7 * (i * R.StepOf(r)) == i * StepDays(p);
    }
  }

  lemma InstantAfterDays(w: Wall, v: Wall, offset: int, n: int)
    requires v.clock == w.clock && DayNumber(v.date) == DayNumber(w.date) + n
    ensures InstantOf(v, offset) == InstantOf(w, offset) + n * DAY
  {
  }

  lemma IterateInstant(p: Pattern, w: Wall, offset: int, i: nat)
    requires p != Monthly
    ensures InstantOf(Iterate(p, w, i), offset) == InstantOf(w, offset) + (i * StepDays(p)) * DAY
  {
    IterateDays(p, w, i);
    InstantAfterDays(w, Iterate(p, w, i), offset, i * StepDays(p));
  }

  /** Daily, weekly and bi-weekly series of any length have the same windows either way. */
  lemma DayPatternsAgree(p: Pattern, first: Window, offset: int, count: nat)
    requires p == Daily || p == Weekly || p == BiWeekly
    requires 1 <= count <= R.MAX_OCCURRENCES
    ensures Generated(p, first, offset, count)
      == R.Expansion(RuleFor(p, count), R.DtStart(first.start, offset),
                     InstantOf(first.end, offset) - InstantOf(first.start, offset))
  {
    hide InstantOf, R.Candidate;
    var r, dt := RuleFor(p, count), R.DtStart(first.start, offset);
    var duration := InstantOf(first.end, offset) - InstantOf(first.start, offset);
    ExpansionWithoutUntil(r, dt, duration);
    forall i: nat | i < count ensures Generated(p, first, offset, count)[i] == R.Expansion(r, dt, duration)[i] {
      DayCandidate(p, first.start, offset, count, i);
      IterateInstant(p, first.start, offset, i);
      IterateInstant(p, first.end, offset, i);
    }
  }

  // ---- Months ----

  /** The i-th month from that of `d` on, and its length. */
  function LengthOn(d: Date, i: int): int { M.IndexLength(M.MonthIndex(d) + i) }

  /** Some step up to the i-th lands in a month too short for the day. */
  predicate Rolled(d: Date, i: int) { exists k | 1 <= k <= i :: d.day > LengthOn(d, k) }

  /** How many months on the generator's i-th date lies: one more once it has rolled over. */
  function MonthsOn(d: Date, i: nat): nat { if Rolled(d, i) then i + 1 else i }

  lemma StepReaches(d: Date)
    ensures M.MonthIndex(AddMonths(d, 0, 1)) == M.MonthIndex(d) + (if d.day <= LengthOn(d, 1) then 1 else 2)
    ensures AddMonths(d, 0, 1).day == if d.day <= LengthOn(d, 1) then d.day else d.day - LengthOn(d, 1)
    ensures DayNumber(AddMonths(d, 0, 1)) == DayNumber(d) + LengthOn(d, 0)
    ensures LengthOn(d, 1) >= 28 && d.day <= 31
  {
    hide DayNumber, M.IndexStart, Leap;
    M.ReachedIndex(d, 1);
    M.MonthsOn(d, 1);
    M.OwnMonth(d);
    M.NextMonthStarts(M.MonthIndex(d));
    var n := M.MonthIndex(d) + 1;
    assert n / 12 == d.year + d.month / 12 && n % 12 == d.month % 12;
  }

  lemma RolledOnce(d: Date, i: nat)
    ensures Rolled(d, i + 1) <==> Rolled(d, i) || d.day > LengthOn(d, i + 1)
    ensures !Rolled(d, 0)
  {
    hide LengthOn;
  }

  /** The generator's i-th date. */
  lemma {:induction false} IterateMonths(w: Wall, i: nat)
    ensures Iterate(Monthly, w, i).clock == w.clock
    ensures M.MonthIndex(Iterate(Monthly, w, i).date) == M.MonthIndex(w.date) + MonthsOn(w.date, i)
    ensures if Rolled(w.date, i) then Iterate(Monthly, w, i).date.day <= 3 else Iterate(Monthly, w, i).date.day == w.date.day
  {
    hide Rolled, AddMonths, M.MonthIndex, M.IndexLength;
    if i == 0 {
      RolledOnce(w.date, 0);
    } else {
      IterateMonths(w, i - 1);
      StepReaches(Iterate(Monthly, w, i - 1).date);
      RolledOnce(w.date, i - 1);
    }
  }

  /** It moves on by the length of the month it stands in. */
  lemma IterateStep(w: Wall, i: nat)
    ensures DayNumber(Iterate(Monthly, w, i + 1).date)
      == DayNumber(Iterate(Monthly, w, i).date) + LengthOn(w.date, MonthsOn(w.date, i))
  {
    hide AddMonths, DayNumber, M.MonthIndex, M.IndexLength;
    IterateMonths(w, i);
    StepReaches(Iterate(Monthly, w, i).date);
  }

  /** The day on which the i-th occurrence of the rule starts. */
  function RuleDay(d: Date, i: nat): int { M.IndexStart(M.MonthIndex(d) + i) + d.day - 1 }

  lemma RuleStep(d: Date, i: nat)
    ensures RuleDay(d, i + 1) == RuleDay(d, i) + LengthOn(d, i) && RuleDay(d, 0) == DayNumber(d)
  {
    hide M.IndexStart, M.IndexLength;
    M.NextMonthStarts(M.MonthIndex(d) + i);
    M.OwnMonth(d);
  }

  lemma MonthlyCandidate(w: Wall, offset: int, count: nat, i: nat)
    ensures R.Candidate(RuleFor(Monthly, count), R.DtStart(w, offset), i) == RuleDay(w.date, i) * DAY + w.clock - offset
  {
    hide R.Candidate, M.IndexStart, M.MonthIndex;
    var r := RuleFor(Monthly, count);
    assert i * R.StepOf(r) == i;
    M.MonthlyStart(r, R.DtStart(w, offset), i);
  }

  /** The generator's start and end of the i-th window fall on the days the rule gives them. */
  ghost predicate SameDays(first: Window, i: nat) {
    var drift := RuleDay(first.start.date, i) - DayNumber(first.start.date);
    && DayNumber(Iterate(Monthly, first.start, i).date) == DayNumber(first.start.date) + drift
    && DayNumber(Iterate(Monthly, first.end, i).date) == DayNumber(first.end.date) + drift
  }

  lemma SameWindowIff(first: Window, offset: int, count: nat, i: nat)
    ensures
      var t := R.Candidate(RuleFor(Monthly, count), R.DtStart(first.start, offset), i);
      (InstantOf(Iterate(Monthly, first.start, i), offset) == t
       && InstantOf(Iterate(Monthly, first.end, i), offset) == t + InstantOf(first.end, offset) - InstantOf(first.start, offset))
      <==> SameDays(first, i)
  {
    hide R.Candidate, DayNumber, RuleDay;
    IterateMonths(first.start, i);
    IterateMonths(first.end, i);
    MonthlyCandidate(first.start, offset, count, i);
  }

  /** Until the last step the start does not roll over, and the month the end stands in is as long as the month
      the start stands in. */
  predicate StepsMatch(first: Window, count: nat) {
    var d, e := first.start.date, first.end.date;
    forall i: nat | i < count - 1 :: !Rolled(d, i) && LengthOn(e, MonthsOn(e, i)) == LengthOn(d, i)
  }

  lemma RolledStepDiffers(d: Date, k: nat)
    requires k >= 1 && d.day > LengthOn(d, k)
    ensures LengthOn(d, k + 1) > LengthOn(d, k)
  {
    hide M.IndexLength;
    M.DayFits(d);
    M.LongAfterShort(M.MonthIndex(d) + k, d.day);
  }

  /** The first step that rolls over. */
  lemma {:induction false} FirstRoll(d: Date, i: nat) returns (k: nat)
    requires Rolled(d, i)
    ensures 1 <= k <= i && d.day > LengthOn(d, k) && !Rolled(d, k - 1)
  {
    hide LengthOn;
    RolledOnce(d, i - 1);
    if Rolled(d, i - 1) { k := FirstRoll(d, i - 1); } else { k := i; }
  }

  lemma {:induction false} MatchingStepsGiveSameDays(first: Window, count: nat, i: nat)
    requires StepsMatch(first, count) && i < count
    ensures SameDays(first, i)
    decreases i
  {
    hide LengthOn, RuleDay, DayNumber, Rolled;
    RuleStep(first.start.date, 0);
    if i > 0 {
      MatchingStepsGiveSameDays(first, count, i - 1);
      IterateStep(first.start, i - 1);
      IterateStep(first.end, i - 1);
      RuleStep(first.start.date, i - 1);
    }
  }

  lemma SameDaysGiveMatchingSteps(first: Window, count: nat, i: nat)
    requires (forall j: nat | j < count :: SameDays(first, j)) && i < count - 1
    ensures !Rolled(first.start.date, i)
    ensures LengthOn(first.end.date, MonthsOn(first.end.date, i)) == LengthOn(first.start.date, i)
  {
    hide LengthOn, RuleDay, DayNumber, Iterate;
    var d := first.start.date;
    if Rolled(d, i) {
      var k := FirstRoll(d, i);
      RolledStepDiffers(d, k);
      StartStepIs(first, k);
      RolledOnce(d, k - 1);
    }
    StartStepIs(first, i);
    IterateStep(first.end, i);
  }

  lemma StartStepIs(first: Window, i: nat)
    requires SameDays(first, i) && SameDays(first, i + 1)
    ensures LengthOn(first.start.date, MonthsOn(first.start.date, i)) == LengthOn(first.start.date, i)
    ensures DayNumber(Iterate(Monthly, first.end, i + 1).date) == DayNumber(Iterate(Monthly, first.end, i).date) + LengthOn(first.start.date, i)
  {
    hide LengthOn, RuleDay, DayNumber, Iterate, MonthsOn;
    IterateStep(first.start, i);
    RuleStep(first.start.date, i);
  }

  ghost predicate MonthlyAgree(first: Window, offset: int, count: nat) {
    Generated(Monthly, first, offset, count)
      == R.Expansion(RuleFor(Monthly, count), R.DtStart(first.start, offset), InstantOf(first.end, offset) - InstantOf(first.start, offset))
  }

  /** A monthly series of any length, from any day and of any duration, has the same windows either way exactly when
      its steps match. */
  lemma MonthlyAgreesIff(first: Window, offset: int, count: nat)
    requires 1 <= count <= R.MAX_OCCURRENCES
    ensures MonthlyAgree(first, offset, count) <==> StepsMatch(first, count)
  {
    hide MonthlyAgree, SameDays, StepsMatch;
    WindowsAgreeIff(first, offset, count);
    AllDaysIff(first, count);
  }

  lemma WindowsAgreeIff(first: Window, offset: int, count: nat)
    requires 1 <= count <= R.MAX_OCCURRENCES
    ensures MonthlyAgree(first, offset, count) <==> forall i: nat | i < count :: SameDays(first, i)
  {
    hide InstantOf, R.Candidate, SameDays, R.Expansion, Iterate;
    var r, dt := RuleFor(Monthly, count), R.DtStart(first.start, offset);
    var duration := InstantOf(first.end, offset) - InstantOf(first.start, offset);
    ExpansionWithoutUntil(r, dt, duration);
    var a, b := Generated(Monthly, first, offset, count), R.Expansion(r, dt, duration);
    forall i: nat | i < count ensures a[i] == b[i] <==> SameDays(first, i) {
      SameWindowIff(first, offset, count, i);
    }
  }

  lemma AllDaysIff(first: Window, count: nat)
    ensures (forall i: nat | i < count :: SameDays(first, i)) <==> StepsMatch(first, count)
  {
    hide SameDays, LengthOn, Rolled, MonthsOn;
    if StepsMatch(first, count) {
      forall i: nat | i < count ensures SameDays(first, i) { MatchingStepsGiveSameDays(first, count, i); }
    }
    if forall i: nat | i < count :: SameDays(first, i) {
      forall i: nat | i < count - 1
        ensures !Rolled(first.start.date, i)
        ensures LengthOn(first.end.date, MonthsOn(first.end.date, i)) == LengthOn(first.start.date, i)
      {
        SameDaysGiveMatchingSteps(first, count, i);
      }
    }
  }

  /** For windows within one month that is so exactly when both days fit every month between the first and the last. */
  lemma MonthlyAgreesWithinMonthIff(first: Window, offset: int, count: nat)
    requires 1 <= count <= R.MAX_OCCURRENCES
    requires first.start.date.year == first.end.date.year && first.start.date.month == first.end.date.month
    ensures MonthlyAgree(first, offset, count)
      <==> forall k | 1 <= k < count - 1 :: first.start.date.day <= LengthOn(first.start.date, k) && first.end.date.day <= LengthOn(first.start.date, k)
  {
    hide MonthlyAgree, M.IndexLength;
    var d, e := first.start.date, first.end.date;
    MonthlyAgreesIff(first, offset, count);
    assert forall k :: LengthOn(e, k) == LengthOn(d, k);
    if StepsMatch(first, count) {
      forall k: nat | 1 <= k < count - 1 ensures d.day <= LengthOn(d, k) && e.day <= LengthOn(d, k) {
        if Rolled(e, k) {
          var j := FirstRoll(e, k);
          assert LengthOn(e, MonthsOn(e, j)) == LengthOn(d, j);
          RolledOnce(e, j - 1);
          RolledStepDiffers(e, j);
        }
        RolledOnce(d, k - 1);
        RolledOnce(e, k - 1);
      }
    }
  }

  /** So monthly series on days every month has agree. */
  lemma MonthlyAgrees(first: Window, offset: int, count: nat)
    requires 1 <= count <= R.MAX_OCCURRENCES
    requires first.start.date.year == first.end.date.year && first.start.date.month == first.end.date.month
    requires first.start.date.day <= 28 && first.end.date.day <= 28
    ensures MonthlyAgree(first, offset, count)
  {
    hide MonthlyAgree;
    MonthlyAgreesWithinMonthIff(first, offset, count);
  }

  const LateJanuary := Wall(Date(2025, 1, 31), 0)
  const OneHour: Window := Window(LateJanuary, LateJanuary.(clock := 3_600_000_000_000))

  /** From 31 January the generator goes to 3 March and 3 April, the rule to 3 March and 31 March. */
  lemma JanuaryStaysRolledOver(offset: int)
    ensures InstantOf(OneHour.start, offset) < InstantOf(OneHour.end, offset)
    ensures Iterate(Monthly, LateJanuary, 1).date == Date(2025, 3, 3) && Iterate(Monthly, LateJanuary, 2).date == Date(2025, 4, 3)
    ensures AddMonths(LateJanuary.date, 0, 1) == Date(2025, 3, 3) && AddMonths(LateJanuary.date, 0, 2) == Date(2025, 3, 31)
    ensures MonthlyAgree(OneHour, offset, 2) && !MonthlyAgree(OneHour, offset, 3)
  {
    hide MonthlyAgree;
    assert Iterate(Monthly, LateJanuary, 1) == NextMonth(LateJanuary);
    assert LengthOn(LateJanuary.date, 1) == 28;
    MonthlyAgreesWithinMonthIff(OneHour, offset, 2);
    MonthlyAgreesWithinMonthIff(OneHour, offset, 3);
  }
}
