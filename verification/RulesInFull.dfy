/** What daily, monthly and yearly rules mean with every number written out, and rules on known dates. */
module RulesInFull {
  import opened Calendar
  import opened Recurrence
  import opened Occurrences
  import Monthly = MonthlyRule

  /** The rule keeps the occurrence that starts at `start` and has `rank` candidates before it: those come to less than
      COUNT or to less than 100, it is not past UNTIL, and no EXDATE falls within its second. */
  ghost predicate Chosen(r: Rule, start: int, rank: int) {
    && rank < (if 1 <= r.count <= 100 then r.count else 100)
    && (r.until.Through? ==> start <= r.until.instant)
    && (forall x | x in r.exDates :: x / 1_000_000_000 != start / 1_000_000_000)
  }

  ghost predicate Rises(r: Rule, dt: DtStart) {
    forall i: nat, j: nat | i < j :: Candidate(r, dt, i) < Candidate(r, dt, j)
  }

  lemma KeptIsChosen(r: Rule, dt: DtStart, i: nat)
    requires r.freq != Weekly && Rises(r, dt)
    ensures Kept(r, dt, i) <==> Chosen(r, Candidate(r, dt, i), i)
  {
    hide Candidate, CutOf, Rises;
    EmittedIff(r, dt, i);
    SparedIff(r.exDates, Candidate(r, dt, i));
  }

  lemma EmittedIff(r: Rule, dt: DtStart, i: nat)
    requires Rises(r, dt)
    ensures i < CutOf(r, dt)
      <==> i < (if 1 <= r.count <= 100 then r.count else 100) && (r.until.Through? ==> Candidate(r, dt, i) <= r.until.instant)
  {
    hide Candidate;
    var k := CutOf(r, dt);
    assert Candidates(r, dt)(k) == Candidate(r, dt, k) && Candidates(r, dt)(i) == Candidate(r, dt, i);
    if k < i { assert Candidate(r, dt, k) < Candidate(r, dt, i); }
  }

  lemma SparedIff(ex: seq<int>, t: int)
    ensures !Excepted(ex, t) <==> forall x | x in ex :: x / 1_000_000_000 != t / 1_000_000_000
  {
  }

  // ---- Daily ----

  /** A multiple of INTERVAL; an INTERVAL that is not positive counts as one. */
  predicate OnStep(r: Rule, d: int) {
    d >= 0 && d % (if r.interval > 0 then r.interval else 1) == 0
  }

  /** The rule has an occurrence `d` days after `start`. */
  ghost predicate OnDay(r: Rule, start: int, d: int) {
    OnStep(r, d) && Chosen(r, start + d * 86_400_000_000_000, |set e | 0 <= e < d && OnStep(r, e)|)
  }

  lemma DailyStart(r: Rule, dt: DtStart, i: nat)
    requires r.freq == Daily
    ensures Candidate(r, dt, i) == StartOf(dt) + (i * StepOf(r)) * 86_400_000_000_000
  {
  }

  lemma DailyRises(r: Rule, dt: DtStart)
    requires r.freq == Daily
    ensures Rises(r, dt)
  {
    hide StartOf;
    forall i: nat, j: nat | i < j ensures Candidate(r, dt, i) < Candidate(r, dt, j) {
      Monthly.StepsApart(i, j, StepOf(r));
    }
  }

  lemma {:induction false} StepsBefore(r: Rule, i: nat)
    ensures |set e | 0 <= e < i * StepOf(r) && OnStep(r, e)| == i
  {
    var s := StepOf(r);
    var here := set e | 0 <= e < i * s && OnStep(r, e);
    if i == 0 {
      assert here == {};
    } else {
      StepsBefore(r, i - 1);
      var last := (i - 1) * s;
      assert i * s == last + s;
      OnStepIff(r, last, i - 1);
      forall e | e in here && e > last ensures false { NoneBetween(r, e, i - 1); }
      assert here == (set e | 0 <= e < last && OnStep(r, e)) + {last};
    }
  }

  lemma OnStepIff(r: Rule, d: int, i: nat)
    requires d == i * StepOf(r)
    ensures OnStep(r, d)
  {
    PassAndPlace(StepOf(r), i, 0);
  }

  lemma NoneBetween(r: Rule, e: int, i: nat)
    requires i * StepOf(r) < e < i * StepOf(r) + StepOf(r)
    ensures !OnStep(r, e)
  {
    PassAndPlace(StepOf(r), i, e - i * StepOf(r));
  }

  lemma StepIndex(r: Rule, d: int) returns (i: nat)
    requires OnStep(r, d)
    ensures d == i * StepOf(r)
  {
    i := d / StepOf(r);
    assert d == StepOf(r) * (d / StepOf(r)) + d % StepOf(r);
  }

  lemma DayIsKept(r: Rule, dt: DtStart, i: nat)
    requires r.freq == Daily
    ensures Kept(r, dt, i) <==> OnDay(r, StartOf(dt), i * StepOf(r))
  {
    hide Kept, Chosen, StartOf;
    DailyRises(r, dt);
    KeptIsChosen(r, dt, i);
    DailyStart(r, dt, i);
    StepsBefore(r, i);
    OnStepIff(r, i * StepOf(r), i);
  }

  /** A daily rule occurs on the first days after DTSTART that are multiples of INTERVAL, as many as COUNT says and at
      most 100, through UNTIL and without the EXDATEs, in ascending order. */
  lemma DailyExpandsToFirstDays(r: Rule, dt: DtStart, duration: int)
    requires r.freq == Daily
    ensures forall o :: o in Expansion(r, dt, duration) <==> exists d ::
      OnDay(r, StartOf(dt), d)
      && o == Occurrence(StartOf(dt) + d * 86_400_000_000_000, StartOf(dt) + d * 86_400_000_000_000 + duration)
    ensures forall i, j | 0 <= i < j < |Expansion(r, dt, duration)| ::
      Expansion(r, dt, duration)[i].start < Expansion(r, dt, duration)[j].start
  {
    hide Kept, Expansion, OnDay, OnStep, Candidate, StartOf;
    forall o
      ensures o in Expansion(r, dt, duration) <==> exists d ::
        OnDay(r, StartOf(dt), d)
        && o == Occurrence(StartOf(dt) + d * 86_400_000_000_000, StartOf(dt) + d * 86_400_000_000_000 + duration)
    {
      OccursIff(r, dt, duration, o);
      if i: nat :| Kept(r, dt, i) && o == Occurrence(Candidate(r, dt, i), Candidate(r, dt, i) + duration) {
        DayIsKept(r, dt, i);
        DailyStart(r, dt, i);
      }
      if d :| (
        && OnDay(r, StartOf(dt), d)
        && o == Occurrence(StartOf(dt) + d * 86_400_000_000_000, StartOf(dt) + d * 86_400_000_000_000 + duration)) {
        var i := DayOfStep(r, dt, d);
        DailyStart(r, dt, i);
      }
    }
    DailyRises(r, dt);
    StartsAscend(r, dt, duration);
  }

  lemma DayOfStep(r: Rule, dt: DtStart, d: int) returns (i: nat)
    requires r.freq == Daily && OnDay(r, StartOf(dt), d)
    ensures d == i * StepOf(r) && Kept(r, dt, i)
  {
    hide Kept, StartOf;
    i := StepIndex(r, d);
    DayIsKept(r, dt, i);
  }

  lemma StartsAscend(r: Rule, dt: DtStart, duration: int)
    requires Rises(r, dt)
    ensures forall i, j | 0 <= i < j < |Expansion(r, dt, duration)| ::
      Expansion(r, dt, duration)[i].start < Expansion(r, dt, duration)[j].start
  {
    hide Kept, Expansion, Candidate;
    ExpansionAscendsIff(r, dt, duration);
    var ws := Expansion(r, dt, duration);
    forall i, j | 0 <= i < j < |ws| ensures ws[i].start < ws[j].start {
      assert Starts(ws)[i] < Starts(ws)[j];
    }
  }

  // ---- Monthly and yearly ----

  /** DTSTART's reading of the clock, in a zone `offset` ahead of UTC, `months` months after its own month and on its own
      day: a day that month does not have runs on into the next. */
  function MonthsLater(dt: DtStart, months: int): int {
    var n := 12 * dt.wall.date.year + dt.wall.date.month - 1 + months;
    (FirstOfMonth(n / 12, n % 12 + 1) + dt.wall.date.day - 1) * 86_400_000_000_000 + dt.wall.clock - dt.offset
  }

  /** The rule has an occurrence in its i-th month. */
  ghost predicate InMonth(r: Rule, dt: DtStart, unit: int, i: nat) {
    Chosen(r, MonthsLater(dt, i * (if r.interval > 0 then r.interval else 1) * unit), i)
  }

  ghost predicate Months(r: Rule, unit: int) {
    (r.freq == Freq.Monthly && r.byMonthDay == 0 && unit == 1) || (r.freq == Yearly && unit == 12)
  }

  lemma MonthlyIsLater(r: Rule, dt: DtStart, i: nat)
    requires r.freq == Freq.Monthly && r.byMonthDay == 0
    ensures Candidate(r, dt, i) == MonthsLater(dt, i * StepOf(r) * 1)
  {
    hide Candidate;
    Monthly.MonthlyStart(r, dt, i);
  }

  lemma YearlyIsLater(r: Rule, dt: DtStart, i: nat)
    requires r.freq == Yearly
    ensures Candidate(r, dt, i) == MonthsLater(dt, i * StepOf(r) * 12)
  {
    hide AddMonths, Monthly.IndexStart, FirstOfMonth, DayNumber;
    var k := i * StepOf(r);
    Monthly.YearIsTwelveMonths(dt.wall.date, k);
    Monthly.MonthsOn(dt.wall.date, 12 * k);
    LaterIs(dt, k * 12);
  }

  lemma LaterIs(dt: DtStart, months: int)
    ensures MonthsLater(dt, months)
      == (Monthly.IndexStart(Monthly.MonthIndex(dt.wall.date) + months) + dt.wall.date.day - 1) * DAY + dt.wall.clock - dt.offset
  {
    hide FirstOfMonth;
  }

  lemma LaterRises(dt: DtStart, a: int, b: int)
    requires a < b
    ensures MonthsLater(dt, a) < MonthsLater(dt, b)
  {
    hide Monthly.IndexStart, MonthsLater;
    LaterIs(dt, a);
    LaterIs(dt, b);
    Monthly.MonthsAscend(Monthly.MonthIndex(dt.wall.date) + a, b - a);
  }

  lemma MonthIsLater(r: Rule, dt: DtStart, unit: int, i: nat)
    requires Months(r, unit)
    ensures Candidate(r, dt, i) == MonthsLater(dt, i * StepOf(r) * unit)
  {
    hide Candidate, MonthsLater;
    if r.freq == Yearly { YearlyIsLater(r, dt, i); } else { MonthlyIsLater(r, dt, i); }
  }

  lemma MonthsRise(r: Rule, dt: DtStart, unit: int)
    requires Months(r, unit)
    ensures Rises(r, dt)
  {
    hide Candidate, MonthsLater;
    forall i: nat, j: nat | i < j ensures Candidate(r, dt, i) < Candidate(r, dt, j) {
      MonthIsLater(r, dt, unit, i);
      MonthIsLater(r, dt, unit, j);
      Monthly.StepsApart(i, j, StepOf(r));
      LaterRises(dt, i * StepOf(r) * unit, j * StepOf(r) * unit);
    }
  }

  /** A monthly rule without BYMONTHDAY, and a yearly rule, occurs every INTERVAL months or years after DTSTART, as many
      times as COUNT says and at most 100, through UNTIL and without the EXDATEs, in ascending order. */
  lemma MonthsExpandToFirst(r: Rule, dt: DtStart, duration: int, unit: int)
    requires Months(r, unit)
    ensures forall o :: o in Expansion(r, dt, duration) <==> exists i: nat ::
      InMonth(r, dt, unit, i)
      && o.start == MonthsLater(dt, i * (if r.interval > 0 then r.interval else 1) * unit) && o.end == o.start + duration
    ensures forall i, j | 0 <= i < j < |Expansion(r, dt, duration)| ::
      Expansion(r, dt, duration)[i].start < Expansion(r, dt, duration)[j].start
  {
    hide Kept, Expansion, Chosen, Candidate, MonthsLater;
    MonthsRise(r, dt, unit);
    forall i: nat ensures Kept(r, dt, i) <==> InMonth(r, dt, unit, i) {
      KeptIsChosen(r, dt, i);
      MonthIsLater(r, dt, unit, i);
    }
    forall o
      ensures o in Expansion(r, dt, duration) <==> exists i: nat ::
        InMonth(r, dt, unit, i)
        && o.start == MonthsLater(dt, i * (if r.interval > 0 then r.interval else 1) * unit) && o.end == o.start + duration
    {
      OccursIff(r, dt, duration, o);
      if i: nat :| Kept(r, dt, i) && o == Occurrence(Candidate(r, dt, i), Candidate(r, dt, i) + duration) {
        MonthIsLater(r, dt, unit, i);
      }
      if i: nat :| (
        && InMonth(r, dt, unit, i)
        && o.start == MonthsLater(dt, i * (if r.interval > 0 then r.interval else 1) * unit) && o.end == o.start + duration) {
        MonthIsLater(r, dt, unit, i);
      }
    }
    StartsAscend(r, dt, duration);
  }

  // ---- Known dates ----

  const NINE: Clock := 32_400_000_000_000
  const HOUR: int := 3_600_000_000_000

  /** A start at nine o'clock UTC. */
  function Nine(d: Date): DtStart { DtStart(Wall(d, NINE), 0) }

  /** Seconds since the epoch, and the day of the week. */
  lemma KnownInstants()
    ensures InstantOf(Wall(Date(1970, 1, 1), 0), 0) == 0
    ensures InstantOf(Wall(Date(1900, 3, 1), 0), 0) == -2_203_891_200 * 1_000_000_000
    ensures InstantOf(Wall(Date(2000, 2, 29), 0), 0) == 951_782_400 * 1_000_000_000
    ensures InstantOf(Wall(Date(2024, 1, 3), NINE), 0) == 1_704_272_400 * 1_000_000_000
    ensures InstantOf(Wall(Date(2024, 1, 3), NINE), HOUR) == 1_704_268_800 * 1_000_000_000
  {
    YearStarts();
  }

  lemma YearStarts()
    ensures DaysBeforeMonth(1900, 3) == 59 && DaysBeforeMonth(2000, 2) == 31
  {
  }

  /** 7 January 2024 was a Sunday. */
  lemma KnownWeek(k: nat)
    requires k < 7
    ensures WeekdayOf(InstantOf(Wall(Date(2024, 1, 7 + k), NINE), 0), 0) == k == Number([SU, MO, TU, WE, TH, FR, SA][k])
  {
    hide FirstOfMonth;
    KnownFirsts();
    assert InstantOf(Wall(Date(2024, 1, 7 + k), NINE), 0) == (19_729 + k) * DAY + NINE;
  }

  const LAST_OF_JANUARY: DtStart := Nine(Date(2024, 1, 31))
  const LEAP_DAY: DtStart := Nine(Date(2024, 2, 29))

  lemma Whole(r: Rule, dt: DtStart, duration: int, ts: seq<int>)
    requires r.until == Forever && r.exDates == [] && r.count == |ts| && 0 < |ts| <= 100
    requires forall i: nat | i < |ts| :: Candidate(r, dt, i) == ts[i]
    ensures Starts(Expansion(r, dt, duration)) == ts
  {
    hide Candidate;
    assert CutOf(r, dt) == |ts|;
    assert forall i: nat | i < |ts| :: Candidates(r, dt)(i) == ts[i];
  }

  const THURSDAYS_AND_MONDAYS: Rule := Rule(Weekly, 2, 4, Forever, [TH, MO], 0, [])

  lemma WeeklyCandidate(i: nat)
    requires i < 4
    ensures Candidate(THURSDAYS_AND_MONDAYS, Nine(Date(2024, 1, 3)), i)
      == 1_704_272_400 * 1_000_000_000 + [1, 5, 15, 19][i] * 86_400_000_000_000
  {
    hide InstantOf, WeekdayOf;
    KnownInstants();
    KnownWednesday();
    assert WeeklyOffset(THURSDAYS_AND_MONDAYS, 3, i) == 7 * (2 * (i / 2)) + [1, 5][i % 2];
  }

  lemma KnownWednesday()
    ensures WeekdayOf(InstantOf(Wall(Date(2024, 1, 3), NINE), 0), 0) == 3
  {
    hide InstantOf;
    KnownInstants();
  }

  /** From Wednesday 3 January 2024, Thursdays and Mondays of every second week: the 4th, 8th, 18th and 22nd. */
  lemma KnownWeekly()
    ensures Starts(Expansion(Rule(Weekly, 2, 4, Forever, [TH, MO], 0, []), Nine(Date(2024, 1, 3)), HOUR))
      == [1_704_358_800 * 1_000_000_000, 1_704_704_400 * 1_000_000_000, 1_705_568_400 * 1_000_000_000, 1_705_914_000 * 1_000_000_000]
  {
    hide Candidate, Expansion, Starts;
    WeeklyCandidate(0);
    WeeklyCandidate(1);
    WeeklyCandidate(2);
    WeeklyCandidate(3);
    Whole(THURSDAYS_AND_MONDAYS, Nine(Date(2024, 1, 3)), HOUR,
          [1_704_358_800 * 1_000_000_000, 1_704_704_400 * 1_000_000_000, 1_705_568_400 * 1_000_000_000, 1_705_914_000 * 1_000_000_000]);
  }

  const EVERY_OTHER_DAY: Rule :=
    Rule(Daily, 2, 0, Through(1_704_618_000 * 1_000_000_000), [], 0, [1_704_445_200 * 1_000_000_000 + 5])

  /** From the same day, every second day until the 7th, without the 5th: the 3rd and the 7th. */
  lemma KnownDaily()
    ensures
      var r := Rule(Daily, 2, 0, Through(1_704_618_000 * 1_000_000_000), [], 0, [1_704_445_200 * 1_000_000_000 + 5]);
      Starts(Expansion(r, Nine(Date(2024, 1, 3)), HOUR)) == [1_704_272_400 * 1_000_000_000, 1_704_618_000 * 1_000_000_000]
  {
    hide Candidate, StartOf, DropExcepted, Expansion, CutOf, Starts;
    var dt, first := Nine(Date(2024, 1, 3)), 1_704_272_400 * 1_000_000_000;
    assert StartOf(dt) == first by { EveryOtherStart(); }
    forall i: nat ensures Candidate(EVERY_OTHER_DAY, dt, i) == first + (i * 2) * 86_400_000_000_000 {
      DailyStart(EVERY_OTHER_DAY, dt, i);
    }
    EveryOtherDay(dt, first);
  }

  lemma EveryOtherStart()
    ensures StartOf(Nine(Date(2024, 1, 3))) == 1_704_272_400 * 1_000_000_000
  {
    hide InstantOf;
    KnownInstants();
  }

  lemma EveryOtherDay(dt: DtStart, first: int)
    requires first == 1_704_272_400 * 1_000_000_000
    requires forall i: nat :: Candidate(EVERY_OTHER_DAY, dt, i) == first + (i * 2) * 86_400_000_000_000
    ensures Starts(Expansion(EVERY_OTHER_DAY, dt, HOUR)) == [first, 1_704_618_000 * 1_000_000_000]
  {
    hide Candidate;
    var r, c := EVERY_OTHER_DAY, Candidates(EVERY_OTHER_DAY, dt);
    assert c(0) == first && c(1) == 1_704_445_200 * 1_000_000_000 && c(2) == 1_704_618_000 * 1_000_000_000;
    assert CutOf(r, dt) == 3 by { ThirdIsLast(dt, first); }
    hide Excepted, Cut;
    var ws := Windows(c, HOUR, 3);
    var a, b, d := Occurrence(c(0), c(0) + HOUR), Occurrence(c(1), c(1) + HOUR), Occurrence(c(2), c(2) + HOUR);
    assert ws == [a] + [b] + [d];
    FifthIsExcepted();
    Three(a, b, d);
  }

  lemma ThirdIsLast(dt: DtStart, first: int)
    requires first == 1_704_272_400 * 1_000_000_000
    requires forall i: nat :: Candidate(EVERY_OTHER_DAY, dt, i) == first + (i * 2) * 86_400_000_000_000
    ensures CutOf(EVERY_OTHER_DAY, dt) == 3
  {
    hide Candidate;
    var c := Candidates(EVERY_OTHER_DAY, dt);
    assert c(0) == first && c(1) == 1_704_445_200 * 1_000_000_000 && c(2) == 1_704_618_000 * 1_000_000_000;
    assert c(3) == 1_704_790_800 * 1_000_000_000;
  }

  lemma FifthIsExcepted()
    ensures !Excepted(EVERY_OTHER_DAY.exDates, 1_704_272_400 * 1_000_000_000)
    ensures Excepted(EVERY_OTHER_DAY.exDates, 1_704_445_200 * 1_000_000_000)
    ensures !Excepted(EVERY_OTHER_DAY.exDates, 1_704_618_000 * 1_000_000_000)
  {
    var e := 1_704_445_200 * 1_000_000_000 + 5;
    assert e in EVERY_OTHER_DAY.exDates && Unix(e) == Unix(1_704_445_200 * 1_000_000_000);
  }

  lemma Three(a: Occurrence, b: Occurrence, d: Occurrence)
    requires !Excepted(EVERY_OTHER_DAY.exDates, a.start) && Excepted(EVERY_OTHER_DAY.exDates, b.start) && !Excepted(EVERY_OTHER_DAY.exDates, d.start)
    ensures DropExcepted([a] + [b] + [d], EVERY_OTHER_DAY.exDates) == [a, d]
  {
    hide Excepted, DropExcepted;
    var ex := EVERY_OTHER_DAY.exDates;
    DropLast([a] + [b] + [d], ex);
    DropLast([a] + [b], ex);
    DropLast([a], ex);
    assert DropExcepted([], ex) == [] by { NothingDropped(ex); }
    assert ([a] + [b] + [d])[..2] == [a] + [b] && ([a] + [b])[..1] == [a] && [a][..0] == [];
  }

  /** The 31st of every month from January 2024 runs on to 2 March before 31 March. */
  lemma KnownMonthly()
    ensures Starts(Expansion(Rule(Freq.Monthly, 1, 3, Forever, [], 0, []), LAST_OF_JANUARY, HOUR))
      == [1_706_691_600 * 1_000_000_000, 1_709_370_000 * 1_000_000_000, 1_711_875_600 * 1_000_000_000]
  {
    hide Candidate, Expansion, Starts, MonthsLater;
    var r, dt := Rule(Freq.Monthly, 1, 3, Forever, [], 0, []), LAST_OF_JANUARY;
    forall i: nat ensures Candidate(r, dt, i) == MonthsLater(dt, i) { MonthIsLater(r, dt, 1, i); }
    KnownMonths();
    Whole(r, dt, HOUR, [1_706_691_600 * 1_000_000_000, 1_709_370_000 * 1_000_000_000, 1_711_875_600 * 1_000_000_000]);
  }

  lemma KnownFirsts()
    ensures FirstOfMonth(2024, 1) == 19_723 && FirstOfMonth(2024, 2) == 19_754 && FirstOfMonth(2024, 3) == 19_783
    ensures FirstOfMonth(2025, 2) == 20_120
  {
    assert DaysBeforeMonth(2024, 3) == 60 && DaysBeforeMonth(2025, 2) == 31;
  }

  lemma KnownMonths()
    ensures MonthsLater(LAST_OF_JANUARY, 0) == 1_706_691_600 * 1_000_000_000
    ensures MonthsLater(LAST_OF_JANUARY, 1) == 1_709_370_000 * 1_000_000_000
    ensures MonthsLater(LAST_OF_JANUARY, 2) == 1_711_875_600 * 1_000_000_000
    ensures MonthsLater(LEAP_DAY, 0) == 1_709_197_200 * 1_000_000_000
    ensures MonthsLater(LEAP_DAY, 12) == 1_740_819_600 * 1_000_000_000
  {
    hide FirstOfMonth;
    KnownFirsts();
  }

  /** 29 February of every year runs on to 1 March in the next. */
  lemma KnownYearly()
    ensures Starts(Expansion(Rule(Yearly, 1, 2, Forever, [], 0, []), LEAP_DAY, HOUR))
      == [1_709_197_200 * 1_000_000_000, 1_740_819_600 * 1_000_000_000]
  {
    hide Candidate, Expansion, Starts, MonthsLater;
    var r, dt := Rule(Yearly, 1, 2, Forever, [], 0, []), LEAP_DAY;
    forall i: nat ensures Candidate(r, dt, i) == MonthsLater(dt, i * 12) { MonthIsLater(r, dt, 12, i); }
    KnownMonths();
    Whole(r, dt, HOUR, [1_709_197_200 * 1_000_000_000, 1_740_819_600 * 1_000_000_000]);
  }
}
