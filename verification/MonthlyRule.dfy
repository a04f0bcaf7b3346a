/** What monthly and yearly rules expand to. */
module MonthlyRule {
  import opened Calendar
  import opened Recurrence
  import opened Occurrences

  // ---- Months by number ----

  /** Months since the year 0. */
  function MonthIndex(d: Date): int { 12 * d.year + d.month - 1 }

  function IndexStart(n: int): int { FirstOfMonth(n / 12, n % 12 + 1) }

  function IndexLength(n: int): int { DaysIn(n / 12, n % 12 + 1) }

  lemma NominalIsIndex(y: int, m: int)
    ensures NominalStart(y, m) == IndexStart(12 * y + m - 1)
  {
    hide FirstOfMonth;
    TwelveApart(y, m - 1);
    assert 12 * y + (m - 1) == 12 * y + m - 1;
  }

  lemma TwelveApart(y: int, k: int)
    ensures (12 * y + k) / 12 == y + k / 12 && (12 * y + k) % 12 == k % 12
  {
  }

  /** The day number of a date some months on: its day counted from the first of the later month. */
  lemma MonthsOn(d: Date, k: int)
    ensures DayNumber(AddMonths(d, 0, k)) == IndexStart(MonthIndex(d) + k) + d.day - 1
  {
    hide *;
    AddMonthsCountsDays(d, k);
    NominalIsIndex(d.year, d.month + k);
    IndexOf(d);
  }

  lemma IndexOf(d: Date)
    ensures MonthIndex(d) == 12 * d.year + d.month - 1
  {
  }

  lemma NextMonthStarts(n: int)
    ensures IndexStart(n + 1) == IndexStart(n) + IndexLength(n)
  {
    hide FirstOfMonth, DaysIn;
    MonthsAreContiguous(n / 12, n % 12 + 1);
    assert (n + 1) / 12 == if n % 12 == 11 then n / 12 + 1 else n / 12;
  }

  lemma {:induction false} MonthsAscend(n: int, k: nat)
    requires k > 0
    ensures IndexStart(n) + 28 * k <= IndexStart(n + k)
  {
    hide IndexStart;
    NextMonthStarts(n + k - 1);
    if k > 1 { MonthsAscend(n, k - 1); }
  }

  // ---- Without BYMONTHDAY ----

  lemma MonthlyStart(r: Rule, dt: DtStart, i: nat)
    requires r.freq == Monthly && r.byMonthDay == 0
    ensures Candidate(r, dt, i)
      == (IndexStart(MonthIndex(dt.wall.date) + i * StepOf(r)) + dt.wall.date.day - 1) * DAY + dt.wall.clock - dt.offset
  {
    hide AddMonths, DayNumber, IndexStart, MonthIndex;
    MonthsOn(dt.wall.date, i * StepOf(r));
  }

  /** Whatever the day of month, a monthly rule moves forward from one occurrence to the next. */
  lemma MonthlyAscends(r: Rule, dt: DtStart, i: nat, j: nat)
    requires r.freq == Monthly && r.byMonthDay == 0 && i < j
    ensures Candidate(r, dt, i) < Candidate(r, dt, j)
  {
    hide *;
    MonthlyStart(r, dt, i);
    MonthlyStart(r, dt, j);
    StepsApart(i, j, StepOf(r));
    var n := MonthIndex(dt.wall.date) + i * StepOf(r);
    MonthsAscend(n, j * StepOf(r) - i * StepOf(r));
    Scaled(IndexStart(n) + dt.wall.date.day - 1, IndexStart(MonthIndex(dt.wall.date) + j * StepOf(r)) + dt.wall.date.day - 1);
  }

  /** So does its expansion, whatever EXDATEs drop. */
  lemma MonthlyExpansionAscends(r: Rule, dt: DtStart, duration: int)
    requires r.freq == Monthly && r.byMonthDay == 0
    ensures Ascending(Starts(Expansion(r, dt, duration)))
  {
    hide *;
    ExpansionAscendsIff(r, dt, duration);
    forall i: nat, j: nat | i < j ensures Candidate(r, dt, i) < Candidate(r, dt, j) { MonthlyAscends(r, dt, i, j); }
  }

  lemma StepsApart(i: nat, j: nat, s: int)
    requires i < j && s > 0
    ensures i * s < j * s
  {
  }

  lemma Scaled(a: int, b: int)
    requires a < b
    ensures a * DAY < b * DAY
  {
  }

  predicate Twelvefold(yearly: Rule, monthly: Rule) {
    && yearly.freq == Yearly && monthly.freq == Monthly && monthly.byMonthDay == 0
    && StepOf(monthly) == 12 * StepOf(yearly) && LimitOf(monthly) == LimitOf(yearly)
    && monthly.until == yearly.until && monthly.exDates == yearly.exDates
  }

  lemma YearIsTwelveMonths(d: Date, k: int)
    ensures AddMonths(d, k, 0) == AddMonths(d, 0, 12 * k)
  {
    assert (d.month + 12 * k - 1) / 12 == (d.month - 1) / 12 + k && (d.month + 12 * k - 1) % 12 == (d.month - 1) % 12;
  }

  /** A yearly rule expands like a monthly one of twelve times the interval. */
  lemma YearlyIsEveryTwelfthMonth(yearly: Rule, monthly: Rule, dt: DtStart, duration: int)
    requires Twelvefold(yearly, monthly)
    ensures Expansion(yearly, dt, duration) == Expansion(monthly, dt, duration)
  {
    hide AddMonths, InstantOf, Windows, Cut, DropExcepted;
    forall i: nat ensures Candidate(yearly, dt, i) == Candidate(monthly, dt, i) {
      YearIsTwelveMonths(dt.wall.date, i * StepOf(yearly));
      assert i * StepOf(monthly) == 12 * (i * StepOf(yearly));
    }
    SameCut(Candidates(yearly, dt), Candidates(monthly, dt), yearly.until, LimitOf(yearly), 0);
    SameWindows(Candidates(yearly, dt), Candidates(monthly, dt), duration, CutOf(yearly, dt));
  }

  lemma {:induction false} SameCut(c: nat -> int, d: nat -> int, until: Until, limit: nat, i: nat)
    requires i <= limit && forall j: nat :: c(j) == d(j)
    ensures Cut(c, until, limit, i) == Cut(d, until, limit, i)
    decreases limit - i
  {
    if i < limit && !Past(until, c(i)) { SameCut(c, d, until, limit, i + 1); }
  }

  lemma SameWindows(c: nat -> int, d: nat -> int, duration: int, k: nat)
    requires forall j: nat :: c(j) == d(j)
    ensures Windows(c, duration, k) == Windows(d, duration, k)
  {
  }

  // ---- With BYMONTHDAY ----

  /** The month the i-th step falls in: one later when DTSTART's day does not fit. */
  function MonthReached(r: Rule, dt: DtStart, i: nat): int {
    var n := MonthIndex(dt.wall.date) + i * StepOf(r);
    if dt.wall.date.day <= IndexLength(n) then n else n + 1
  }

  lemma ReachedIndex(d: Date, k: int)
    ensures var n := MonthIndex(d) + k;
      MonthIndex(AddMonths(d, 0, k)) == if d.day <= IndexLength(n) then n else n + 1
  {
    var n := MonthIndex(d) + k;
    assert n / 12 == d.year + (d.month + k - 1) / 12 && n % 12 == (d.month + k - 1) % 12;
  }

  lemma DatedStart(r: Rule, dt: DtStart, i: nat)
    requires r.freq == Monthly && r.byMonthDay > 0
    ensures Candidate(r, dt, i) == (IndexStart(MonthReached(r, dt, i)) + r.byMonthDay - 1) * DAY + dt.wall.clock - dt.offset
  {
    hide Normalize, DayNumber, IndexStart, IndexLength, NominalStart, AddMonths;
    var d := AddMonths(dt.wall.date, 0, i * StepOf(r));
    NormalizeCountsDays(d.year, d.month, r.byMonthDay);
    NominalIsIndex(d.year, d.month);
    ReachedIndex(dt.wall.date, i * StepOf(r));
  }

  /** The named day in DTSTART's own month. */
  function FirstNamed(r: Rule, dt: DtStart): int { StartOf(dt) + (r.byMonthDay - dt.wall.date.day) * DAY }

  lemma FirstIsNamed(r: Rule, dt: DtStart)
    requires r.freq == Monthly && r.byMonthDay > 0
    ensures Candidate(r, dt, 0) == FirstNamed(r, dt)
  {
    hide IndexStart, Candidate, DayNumber;
    DatedStart(r, dt, 0);
    OwnMonth(dt.wall.date);
    assert 0 * StepOf(r) == 0;
  }

  lemma OwnMonth(d: Date)
    ensures d.day <= IndexLength(MonthIndex(d)) && DayNumber(d) == IndexStart(MonthIndex(d)) + d.day - 1
  {
    assert MonthIndex(d) / 12 == d.year && MonthIndex(d) % 12 == d.month - 1;
  }

  /** No two months in a row are short. */
  lemma LongAfterShort(n: int, day: int)
    requires IndexLength(n) < day <= 31
    ensures day <= IndexLength(n + 1)
  {
    assert (n + 1) % 12 == if n % 12 == 11 then 0 else n % 12 + 1;
  }

  lemma NextReached(r: Rule, dt: DtStart, i: nat)
    ensures MonthReached(r, dt, i + 1) >= MonthReached(r, dt, i)
    ensures MonthReached(r, dt, i + 1) == MonthReached(r, dt, i)
      <==> StepOf(r) == 1 && dt.wall.date.day > IndexLength(MonthIndex(dt.wall.date) + i)
  {
    hide IndexLength, MonthIndex;
    var n := MonthIndex(dt.wall.date) + i * StepOf(r);
    assert (i + 1) * StepOf(r) == i * StepOf(r) + StepOf(r);
    if dt.wall.date.day > IndexLength(n) {
      DayFits(dt.wall.date);
      LongAfterShort(n, dt.wall.date.day);
    }
    if StepOf(r) == 1 { assert i * StepOf(r) == i; }
  }

  /** With BYMONTHDAY the rule never moves back from one candidate to the next, and names one instant twice exactly
      when it is for every month and DTSTART's day does not fit the i-th. */
  lemma SameMonthAgainIff(r: Rule, dt: DtStart, i: nat)
    requires r.freq == Monthly && r.byMonthDay > 0
    ensures Candidate(r, dt, i) <= Candidate(r, dt, i + 1)
    ensures Candidate(r, dt, i + 1) == Candidate(r, dt, i)
      <==> StepOf(r) == 1 && dt.wall.date.day > IndexLength(MonthIndex(dt.wall.date) + i)
  {
    hide Candidate, IndexStart, IndexLength, MonthIndex, MonthReached, StepOf;
    DatedStart(r, dt, i);
    DatedStart(r, dt, i + 1);
    NextReached(r, dt, i);
    var a, b := MonthReached(r, dt, i), MonthReached(r, dt, i + 1);
    if a < b {
      MonthsAscend(a, b - a);
      Scaled(IndexStart(a) + r.byMonthDay - 1, IndexStart(b) + r.byMonthDay - 1);
    }
  }

  lemma {:induction false} NeverMovesBack(r: Rule, dt: DtStart, i: nat, j: nat)
    requires r.freq == Monthly && r.byMonthDay > 0 && i <= j
    ensures Candidate(r, dt, i) <= Candidate(r, dt, j)
    decreases j
  {
    hide Candidate, IndexLength;
    if i < j {
      NeverMovesBack(r, dt, i, j - 1);
      SameMonthAgainIff(r, dt, j - 1);
    }
  }

  /** So a candidate is emitted exactly when it is below the limit and not past UNTIL. */
  lemma DatedEmittedIff(r: Rule, dt: DtStart, i: nat)
    requires r.freq == Monthly && r.byMonthDay > 0
    ensures i < CutOf(r, dt) <==> i < LimitOf(r) && !Past(r.until, Candidate(r, dt, i))
  {
    hide Candidate;
    var k := CutOf(r, dt);
    assert Candidates(r, dt)(i) == Candidate(r, dt, i) && Candidates(r, dt)(k) == Candidate(r, dt, k);
    if k <= i { NeverMovesBack(r, dt, k, i); }
  }

  lemma DatedKeptIff(r: Rule, dt: DtStart, i: nat)
    requires r.freq == Monthly && r.byMonthDay > 0
    ensures Kept(r, dt, i) <==> i < LimitOf(r) && !Past(r.until, Candidate(r, dt, i)) && !Excepted(r.exDates, Candidate(r, dt, i))
  {
    hide Candidate, Excepted;
    DatedEmittedIff(r, dt, i);
  }

  /** Only the first candidate can lie before DTSTART. */
  lemma SecondIsLater(r: Rule, dt: DtStart, i: nat)
    requires r.freq == Monthly && r.byMonthDay > 0 && i > 0
    ensures Candidate(r, dt, i) > StartOf(dt)
  {
    hide Candidate, IndexStart, IndexLength, MonthIndex, StepOf, DayNumber;
    NeverMovesBack(r, dt, 1, i);
    DatedStart(r, dt, 1);
    OwnMonth(dt.wall.date);
    var n := MonthIndex(dt.wall.date);
    assert 1 * StepOf(r) == StepOf(r);
    NextMonthStarts(n);
    var k := MonthReached(r, dt, 1) - n;
    MonthsAscendFrom(n, k);
    Scaled(IndexStart(n) + dt.wall.date.day - 1, IndexStart(n + k) + r.byMonthDay - 1);
  }

  lemma MonthsAscendFrom(n: int, k: nat)
    requires k > 0
    ensures IndexStart(n + 1) <= IndexStart(n + k)
  {
    hide IndexStart;
    if k > 1 { MonthsAscend(n + 1, k - 1); }
  }

  /** With BYMONTHDAY something occurs before DTSTART exactly when it names an earlier day, and that day of DTSTART's
      month is not past UNTIL and no EXDATE. */
  lemma StartsEarlyIff(r: Rule, dt: DtStart, duration: int)
    requires r.freq == Monthly && r.byMonthDay > 0
    ensures (exists o :: o in Expansion(r, dt, duration) && o.start < StartOf(dt)) <==> (
      && r.byMonthDay < dt.wall.date.day
      && !Past(r.until, FirstNamed(r, dt)) && !Excepted(r.exDates, FirstNamed(r, dt)))
  {
    hide Candidate, Excepted, Expansion, Kept, StartOf;
    FirstIsNamed(r, dt);
    DatedKeptIff(r, dt, 0);
    assert FirstNamed(r, dt) < StartOf(dt) <==> r.byMonthDay < dt.wall.date.day;
    if o :| o in Expansion(r, dt, duration) && o.start < StartOf(dt) {
      OccursIff(r, dt, duration, o);
      var i: nat :| Kept(r, dt, i) && o == Occurrence(Candidate(r, dt, i), Candidate(r, dt, i) + duration);
      if i > 0 { SecondIsLater(r, dt, i); }
    }
    if Kept(r, dt, 0) {
      OccursIff(r, dt, duration, Occurrence(Candidate(r, dt, 0), Candidate(r, dt, 0) + duration));
    }
  }

  /** DTSTART's day does not fit the i-th month, and the day named in the next one occurs. */
  ghost predicate ShortMonth(r: Rule, dt: DtStart, i: nat) {
    && i + 1 < LimitOf(r) && dt.wall.date.day > IndexLength(MonthIndex(dt.wall.date) + i)
    && !Past(r.until, Candidate(r, dt, i)) && !Excepted(r.exDates, Candidate(r, dt, i))
  }

  /** With BYMONTHDAY something occurs twice exactly when the rule is for every month and there is a short one. */
  lemma MonthTwiceIff(r: Rule, dt: DtStart, duration: int)
    requires r.freq == Monthly && r.byMonthDay > 0
    ensures Repeats(Starts(Expansion(r, dt, duration))) <==> StepOf(r) == 1 && exists i: nat :: ShortMonth(r, dt, i)
  {
    hide Candidate, Excepted, Expansion, Kept, StepOf, IndexLength, Repeats, Starts, CutOf;
    ExpansionRepeatsIff(r, dt, duration);
    if i: nat, j: nat :| i < j < CutOf(r, dt) && Kept(r, dt, i) && Candidate(r, dt, i) == Candidate(r, dt, j) {
      NeverMovesBack(r, dt, i + 1, j);
      SameMonthAgainIff(r, dt, i);
      DatedKeptIff(r, dt, i);
      DatedEmittedIff(r, dt, j);
      assert ShortMonth(r, dt, i);
    }
    if StepOf(r) == 1 {
      if i: nat :| ShortMonth(r, dt, i) {
        SameMonthAgainIff(r, dt, i);
        DatedKeptIff(r, dt, i);
        DatedEmittedIff(r, dt, i + 1);
      }
    }
  }

  /** The month itself is left out: no candidate falls in it. */
  lemma ShortMonthIsLeftOut(r: Rule, dt: DtStart, i: nat, j: nat)
    requires StepOf(r) == 1 && dt.wall.date.day > IndexLength(MonthIndex(dt.wall.date) + i)
    ensures MonthReached(r, dt, j) != MonthIndex(dt.wall.date) + i
  {
    hide IndexLength, MonthIndex, StepOf;
    var n := MonthIndex(dt.wall.date);
    assert j * StepOf(r) == j;
    DayFits(dt.wall.date);
    if j + 1 == i && dt.wall.date.day > IndexLength(n + j) { LongAfterShort(n + j, dt.wall.date.day); }
  }

  lemma PlainExpansion(r: Rule, dt: DtStart, duration: int)
    requires r.until == Forever && r.exDates == [] && r.count == 3
    ensures Expansion(r, dt, duration) == Windows(Candidates(r, dt), duration, 3)
  {
    assert CutOf(r, dt) == 3;
  }

  /** From 31 January, the 15th of every month: 15 January, and 15 March twice. */
  lemma MarchComesTwice(offset: int, clock: Clock, duration: int)
    ensures
      var r, dt := Rule(Monthly, 1, 3, Forever, [], 15, []), DtStart(Wall(Date(2025, 1, 31), clock), offset);
      var march := InstantOf(Wall(Date(2025, 3, 15), clock), offset);
      && |Expansion(r, dt, duration)| == 3
      && Expansion(r, dt, duration)[1] == Expansion(r, dt, duration)[2] == Occurrence(march, march + duration)
  {
    var r, dt := Rule(Monthly, 1, 3, Forever, [], 15, []), DtStart(Wall(Date(2025, 1, 31), clock), offset);
    assert AddMonths(dt.wall.date, 0, 1) == Date(2025, 3, 3) && AddMonths(dt.wall.date, 0, 2) == Date(2025, 3, 31);
    assert Normalize(2025, 3, 15) == Date(2025, 3, 15);
    assert 1 * StepOf(r) == 1 && 2 * StepOf(r) == 2;
    PlainExpansion(r, dt, duration);
  }

  /** From 20 January, the 10th of every month: the first occurrence is on 10 January. */
  lemma StartsTenDaysEarly(offset: int, clock: Clock, duration: int)
    ensures
      var r, dt := Rule(Monthly, 1, 3, Forever, [], 10, []), DtStart(Wall(Date(2025, 1, 20), clock), offset);
      var early := InstantOf(Wall(Date(2025, 1, 10), clock), offset);
      |Expansion(r, dt, duration)| == 3 && Expansion(r, dt, duration)[0] == Occurrence(early, early + duration) && early < StartOf(dt)
  {
    var r, dt := Rule(Monthly, 1, 3, Forever, [], 10, []), DtStart(Wall(Date(2025, 1, 20), clock), offset);
    assert 0 * StepOf(r) == 0;
    assert AddMonths(dt.wall.date, 0, 0) == Date(2025, 1, 20) && Normalize(2025, 1, 10) == Date(2025, 1, 10);
    PlainExpansion(r, dt, duration);
    DayNumberOf(Date(2025, 1, 10), Date(2025, 1, 20));
  }

  lemma DayNumberOf(a: Date, b: Date)
    requires a.year == b.year && a.month == b.month
    ensures DayNumber(b) - DayNumber(a) == b.day - a.day
  {
  }

  lemma DayFits(d: Date)
    ensures d.day <= 31
  {
  }
}
