/** Proleptic Gregorian dates in a fixed-offset zone, with Go's normalisation: a day past the end of
    its month rolls forward into the next one. */
module Calendar {
  const SECOND: int := 1_000_000_000
  const DAY: int := 86_400_000_000_000
  /** The day number of 1 January 1970 in the count of `DaysBeforeYear`. */
  const EPOCH: int := 719_527

  datatype YearMonthDay = Date(year: int, month: int, day: int)
  /** A day that exists. */
  type Date = d: YearMonthDay | ValidDate(d) witness Date(1970, 1, 1)

  predicate Leap(y: int) { y % 4 == 0 && (y % 100 != 0 || y % 400 == 0) }

  function DaysIn(y: int, m: int): (n: int)
    requires 1 <= m <= 12
    ensures 28 <= n <= 31
  {
    if m == 2 then (if Leap(y) then 29 else 28)
    else if m == 4 || m == 6 || m == 9 || m == 11 then 30 else 31
  }

  predicate ValidDate(d: YearMonthDay) {
    1 <= d.month <= 12 && 1 <= d.day <= DaysIn(d.year, d.month)
  }

  function DaysBeforeYear(y: int): int {
    365 * y + (y - 1) / 4 - (y - 1) / 100 + (y - 1) / 400
  }

  function DaysBeforeMonth(y: int, m: int): int
    requires 1 <= m <= 12
    decreases m
  {
    if m == 1 then 0 else DaysBeforeMonth(y, m - 1) + DaysIn(y, m - 1)
  }

  /** Days since 1 January 1970 of the first of a month. */
  function FirstOfMonth(y: int, m: int): int
    requires 1 <= m <= 12
  {
    DaysBeforeYear(y) + DaysBeforeMonth(y, m) - EPOCH
  }

  function DayNumber(d: Date): int {
    FirstOfMonth(d.year, d.month) + d.day - 1
  }

  /** `time.Date` for a month outside 1..12 and a day of at most 31. */
  function Normalize(y: int, m: int, d: int): (r: Date)
    requires 1 <= d <= 31
  {
    var y', m' := y + (m - 1) / 12, (m - 1) % 12 + 1;
    if d <= DaysIn(y', m') then Date(y', m', d)
    else Date(y', m' + 1, d - DaysIn(y', m'))
  }

  /** `AddDate(years, months, 0)`. */
  function AddMonths(d: Date, years: int, months: int): Date {
    Normalize(d.year + years, d.month + months, d.day)
  }

  lemma FloorStep(y: int, k: int)
    requires k == 4 || k == 100 || k == 400
    ensures y / k == (y - 1) / k + (if y % k == 0 then 1 else 0)
  {
  }

  lemma MonthsFillTheYear(y: int)
    ensures DaysBeforeMonth(y, 12) + DaysIn(y, 12) == if Leap(y) then 366 else 365
  {
    assert DaysBeforeMonth(y, 4) == DaysIn(y, 1) + DaysIn(y, 2) + DaysIn(y, 3);
    assert DaysBeforeMonth(y, 7) == DaysBeforeMonth(y, 4) + DaysIn(y, 4) + DaysIn(y, 5) + DaysIn(y, 6);
    assert DaysBeforeMonth(y, 10) == DaysBeforeMonth(y, 7) + DaysIn(y, 7) + DaysIn(y, 8) + DaysIn(y, 9);
    assert DaysBeforeMonth(y, 12) == DaysBeforeMonth(y, 10) + DaysIn(y, 10) + DaysIn(y, 11);
  }

  /** The day count is the calendar: each month starts where the one before it ends. */
  lemma MonthsAreContiguous(y: int, m: int)
    requires 1 <= m <= 12
    ensures FirstOfMonth(1970, 1) == 0
    ensures FirstOfMonth(y, m) + DaysIn(y, m) == if m == 12 then FirstOfMonth(y + 1, 1) else FirstOfMonth(y, m + 1)
  {
    if m == 12 {
      MonthsFillTheYear(y);
      FloorStep(y, 4);
      FloorStep(y, 100);
      FloorStep(y, 400);
    }
  }

  /** The first of a month whose number may lie outside 1..12. */
  function NominalStart(y: int, m: int): int {
    FirstOfMonth(y + (m - 1) / 12, (m - 1) % 12 + 1)
  }

  /** Rolling a date forward keeps its distance from the first of the nominal month. */
  lemma NormalizeCountsDays(y: int, m: int, d: int)
    requires 1 <= d <= 31
    ensures DayNumber(Normalize(y, m, d)) == NominalStart(y, m) + d - 1
  {
    MonthsAreContiguous(y + (m - 1) / 12, (m - 1) % 12 + 1);
  }

  lemma AddMonthsCountsDays(d: Date, months: int)
    ensures DayNumber(AddMonths(d, 0, months)) == NominalStart(d.year, d.month + months) + d.day - 1
  {
    hide Normalize, NominalStart, DayNumber;
    NormalizeCountsDays(d.year, d.month + months, d.day);
  }

  type Clock = c: int | 0 <= c < DAY
  /** A wall-clock reading; `clock` counts nanoseconds from midnight. */
  datatype Wall = Wall(date: Date, clock: Clock)

  /** The UTC instant, in nanoseconds since the epoch, of a reading `offset` ahead of UTC. */
  function InstantOf(w: Wall, offset: int): int {
    DayNumber(w.date) * DAY + w.clock - offset
  }

  /** Sunday is 0; 1 January 1970 was a Thursday. */
  function WeekdayOf(t: int, offset: int): (w: int)
    ensures 0 <= w < 7
  {
    ((t + offset) / DAY + 4) % 7
  }

  lemma WeekdayAfterDays(t: int, offset: int, n: int)
    ensures WeekdayOf(t + n * DAY, offset) == (WeekdayOf(t, offset) + n) % 7
  {
    assert t + n * DAY + offset == (t + offset) + n * DAY;
    assert ((t + offset) + n * DAY) / DAY == (t + offset) / DAY + n;
    ModAdd((t + offset) / DAY + 4, n);
  }

  lemma ModAdd(a: int, n: int)
    ensures (a + n) % 7 == (a % 7 + n) % 7
  {
  }

  lemma WeekdayAfterWeeks(t: int, offset: int, week: int)
    ensures WeekdayOf(t + (7 * week) * DAY, offset) == WeekdayOf(t, offset)
  {
    WeekdayAfterDays(t, offset, 7 * week);
    assert (WeekdayOf(t, offset) + 7 * week) % 7 == WeekdayOf(t, offset);
  }
}
