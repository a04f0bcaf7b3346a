/** What a weekly rule means, said without the expander: the days on which it is due, and the expansion
    as the first of them in calendar order. */
module WeeklyRule {
  import opened Calendar
  import opened Recurrence
  import opened Occurrences

  /** The days are distinct and listed by their distance from DTSTART's weekday. */
  predicate InOrder(days: seq<Weekday>, w0: int)
    requires 0 <= w0 < 7
  {
    forall i, j | 0 <= i < j < |days| :: Distance(days[i], w0) < Distance(days[j], w0)
  }

  /** The rule is due `d` days after DTSTART: in a 7-day block whose index is a multiple of INTERVAL, on
      a listed weekday. */
  predicate Due(r: Rule, w0: int, d: int)
    requires 0 <= w0 < 7
  {
    d >= 0 && (d / 7) % StepOf(r) == 0 && FromNumber((w0 + d) % 7) in DaysOf(r, w0)
  }

  lemma NextIndex(n: int, i: int)
    requires n > 0 && i >= 0
    ensures i % n + 1 < n ==> (i + 1) / n == i / n && (i + 1) % n == i % n + 1
    ensures i % n + 1 == n ==> (i + 1) / n == i / n + 1 && (i + 1) % n == 0
  {
    var p, j := i / n, i % n;
    assert i == p * n + j;
    if j + 1 < n {
      PassAndPlace(n, p, j + 1);
    } else {
      assert (p + 1) * n == p * n + n;
      PassAndPlace(n, p + 1, 0);
    }
  }

  lemma OffsetsStepUp(r: Rule, w0: int, i: nat)
    requires 0 <= w0 < 7 && InOrder(DaysOf(r, w0), w0)
    ensures WeeklyOffset(r, w0, i) < WeeklyOffset(r, w0, i + 1)
  {
    var n, step := |DaysOf(r, w0)|, StepOf(r);
    NextIndex(n, i);
    var p := i / n;
    assert (p + 1) * step == p * step + step;
  }

  lemma {:induction false} OffsetsAscend(r: Rule, w0: int, i: nat, j: nat)
    requires 0 <= w0 < 7 && InOrder(DaysOf(r, w0), w0) && i < j
    ensures WeeklyOffset(r, w0, i) < WeeklyOffset(r, w0, j)
    decreases j - i
  {
    OffsetsStepUp(r, w0, i);
    if i + 1 < j { OffsetsAscend(r, w0, i + 1, j); }
  }

  lemma MultipleOfStep(p: int, step: int)
    requires step > 0
    ensures (p * step) / step == p && (p * step) % step == 0
  {
    var x := p * step;
    assert x == step * (x / step) + x % step;
    assert (x / step - p) * step == - (x % step);
    SmallMultiple(step, x / step - p);
  }

  lemma OffsetIsDue(r: Rule, w0: int, i: nat)
    requires 0 <= w0 < 7
    ensures Due(r, w0, WeeklyOffset(r, w0, i))
  {
    var days, step := DaysOf(r, w0), StepOf(r);
    var q, e := (i / |days|) * step, Distance(days[i % |days|], w0);
    var d := WeeklyOffset(r, w0, i);
    assert d == 7 * q + e && d / 7 == q;
    MultipleOfStep(i / |days|, step);
    assert (w0 + d) % 7 == (w0 + e) % 7;
    assert FromNumber((w0 + d) % 7) == days[i % |days|];
  }

  lemma DueIsOffset(r: Rule, w0: int, d: int) returns (i: nat)
    requires 0 <= w0 < 7 && Due(r, w0, d)
    ensures WeeklyOffset(r, w0, i) == d
  {
    var days, step := DaysOf(r, w0), StepOf(r);
    var q := d / 7;
    var p := q / step;
    assert q == p * step;
    assert p >= 0;
    var j :| 0 <= j < |days| && days[j] == FromNumber((w0 + d) % 7);
    PassAndPlace(|days|, p, j);
    i := p * |days| + j;
    assert (w0 + Distance(days[j], w0)) % 7 == (w0 + d) % 7;
    assert Distance(days[j], w0) == d % 7;
  }

  /** The due days before `d`. */
  function DueBefore(r: Rule, w0: int, d: int): set<int>
    requires 0 <= w0 < 7
  {
    set e | 0 <= e < d && Due(r, w0, e)
  }

  /** A due day is the offset of some candidate, so it lies on the same side of the i-th as its index. */
  lemma DueAgainstOffset(r: Rule, w0: int, d: int, i: nat) returns (k: nat)
    requires 0 <= w0 < 7 && InOrder(DaysOf(r, w0), w0) && Due(r, w0, d)
    ensures WeeklyOffset(r, w0, k) == d
    ensures d < WeeklyOffset(r, w0, i) <==> k < i
  {
    k := DueIsOffset(r, w0, d);
    if k < i { OffsetsAscend(r, w0, k, i); }
    else if k > i { OffsetsAscend(r, w0, i, k); }
  }

  lemma NoneDueBeforeFirst(r: Rule, w0: int)
    requires 0 <= w0 < 7 && InOrder(DaysOf(r, w0), w0)
    ensures DueBefore(r, w0, WeeklyOffset(r, w0, 0)) == {}
  {
    if e :| e in DueBefore(r, w0, WeeklyOffset(r, w0, 0)) {
      var k := DueAgainstOffset(r, w0, e, 0);
    }
  }

  lemma OneMoreDue(r: Rule, w0: int, i: nat)
    requires 0 <= w0 < 7 && InOrder(DaysOf(r, w0), w0)
    ensures DueBefore(r, w0, WeeklyOffset(r, w0, i + 1))
      == DueBefore(r, w0, WeeklyOffset(r, w0, i)) + {WeeklyOffset(r, w0, i)}
  {
    var lo, hi := WeeklyOffset(r, w0, i), WeeklyOffset(r, w0, i + 1);
    OffsetIsDue(r, w0, i);
    OffsetsStepUp(r, w0, i);
    forall e | e in DueBefore(r, w0, hi) && e != lo ensures e in DueBefore(r, w0, lo) {
      var k := DueAgainstOffset(r, w0, e, i + 1);
      if k < i { OffsetsAscend(r, w0, k, i); }
    }
  }

  /** The i-th candidate is the i-th due day, counting from zero. */
  lemma {:induction false} OffsetRank(r: Rule, w0: int, i: nat)
    requires 0 <= w0 < 7 && InOrder(DaysOf(r, w0), w0)
    ensures |DueBefore(r, w0, WeeklyOffset(r, w0, i))| == i
  {
    hide WeeklyOffset, Due, InOrder;
    if i == 0 {
      NoneDueBeforeFirst(r, w0);
    } else {
      OffsetRank(r, w0, i - 1);
      OneMoreDue(r, w0, i - 1);
    }
  }

  /** The start that falls `d` days after DTSTART. */
  function DayStart(dt: DtStart, d: int): int {
    StartOf(dt) + d * DAY
  }

  lemma WeeklyIs(r: Rule, dt: DtStart, i: nat)
    requires r.freq == Weekly
    ensures Candidate(r, dt, i) == DayStart(dt, WeeklyOffset(r, WeekdayOfStart(dt), i))
    ensures Candidates(r, dt)(i) == Candidate(r, dt, i)
  {
  }

  lemma DaysAscend(dt: DtStart, d: int, e: int)
    ensures DayStart(dt, d) < DayStart(dt, e) <==> d < e
  {
  }

  // ---- Calendar order ----

  /** Candidates of a later week lie later; those of one week by the distance of their days. */
  lemma OffsetOrder(r: Rule, w0: int, i: nat, j: nat)
    requires 0 <= w0 < 7 && i < j
    ensures var days := DaysOf(r, w0);
      WeeklyOffset(r, w0, i) < WeeklyOffset(r, w0, j)
      <==> (i / |days| == j / |days| ==> Distance(days[i % |days|], w0) < Distance(days[j % |days|], w0))
  {
    var n := |DaysOf(r, w0)|;
    PassesGrow(n, i, j);
    if i / n < j / n { StepApart(i / n, j / n, StepOf(r)); }
  }

  lemma PassesGrow(n: int, i: nat, j: nat)
    requires n > 0 && i <= j
    ensures i / n <= j / n
  {
    WholePasses(n, i);
    WholePasses(n, j);
    if i / n > j / n { TimesKeepsOrder(j / n + 1, i / n, n); }
  }

  /** Within each week the occurrences come by the distance of their days. */
  ghost predicate KeptInOrder(r: Rule, dt: DtStart) {
    var w0 := WeekdayOfStart(dt);
    var days := DaysOf(r, w0);
    forall i: nat, j: nat | i < j && i / |days| == j / |days| && Kept(r, dt, i) && Kept(r, dt, j) ::
      Distance(days[i % |days|], w0) < Distance(days[j % |days|], w0)
  }

  /** The output is in calendar order exactly when within each week the days that occur are listed by distance. */
  lemma ChronologicalIff(r: Rule, dt: DtStart, duration: int)
    requires r.freq == Weekly
    ensures Ascending(Starts(Expansion(r, dt, duration))) <==> KeptInOrder(r, dt)
  {
    hide Kept, Candidate, StartOf, WeekdayOfStart, WeeklyOffset, Distance, DayStart, Expansion, Starts, Ascending;
    var w0 := WeekdayOfStart(dt);
    ExpansionAscendsIff(r, dt, duration);
    forall i: nat, j: nat | i < j
      ensures Candidate(r, dt, i) < Candidate(r, dt, j)
        <==> (i / |DaysOf(r, w0)| == j / |DaysOf(r, w0)|
              ==> Distance(DaysOf(r, w0)[i % |DaysOf(r, w0)|], w0) < Distance(DaysOf(r, w0)[j % |DaysOf(r, w0)|], w0))
    {
      OffsetOrder(r, w0, i, j);
      WeeklyIs(r, dt, i);
      WeeklyIs(r, dt, j);
      DaysAscend(dt, WeeklyOffset(r, w0, i), WeeklyOffset(r, w0, j));
    }
  }

  lemma WeeklyIsAscending(r: Rule, dt: DtStart, duration: int)
    requires r.freq == Weekly && InOrder(DaysOf(r, WeekdayOfStart(dt)), WeekdayOfStart(dt))
    ensures Ascending(Starts(Expansion(r, dt, duration)))
  {
    hide Kept, Expansion, Starts, Ascending, StartOf, WeekdayOfStart, Distance;
    ChronologicalIff(r, dt, duration);
    var days := DaysOf(r, WeekdayOfStart(dt));
    forall i: nat, j: nat | i < j && i / |days| == j / |days| ensures i % |days| < j % |days| {
      WholePasses(|days|, i);
      WholePasses(|days|, j);
    }
  }

  /** The listed days the expander gets to in the first week. */
  function DaysReached(r: Rule, dt: DtStart): seq<Weekday> {
    var days := DaysOf(r, WeekdayOfStart(dt));
    days[..if |days| <= CutOf(r, dt) then |days| else CutOf(r, dt)]
  }

  lemma KeptWithoutExDates(r: Rule, dt: DtStart, i: nat)
    requires r.exDates == []
    ensures Kept(r, dt, i) <==> i < CutOf(r, dt)
  {
    NoExDates(r);
  }

  /** A place in the first week. */
  lemma FirstWeek(r: Rule, dt: DtStart, i: nat)
    requires r.exDates == [] && i < |DaysReached(r, dt)|
    ensures var days := DaysOf(r, WeekdayOfStart(dt));
      i < |days| && i / |days| == 0 && i % |days| == i && Kept(r, dt, i) && DaysReached(r, dt)[i] == days[i]
  {
    hide Kept, CutOf, WeekdayOfStart;
    KeptWithoutExDates(r, dt, i);
    PassAndPlace(|DaysOf(r, WeekdayOfStart(dt))|, 0, i);
  }

  /** Two places of one week. */
  lemma OneWeek(r: Rule, dt: DtStart, i: nat, j: nat)
    requires r.exDates == [] && i < j && Kept(r, dt, j)
    requires var n := |DaysOf(r, WeekdayOfStart(dt))|; i / n == j / n
    ensures var days := DaysOf(r, WeekdayOfStart(dt));
      var n := |days|;
      i % n < j % n < |DaysReached(r, dt)| && DaysReached(r, dt)[i % n] == days[i % n] && DaysReached(r, dt)[j % n] == days[j % n]
  {
    hide Kept, CutOf, WeekdayOfStart, DaysOf;
    var n := |DaysOf(r, WeekdayOfStart(dt))|;
    KeptWithoutExDates(r, dt, j);
    PlacesInPass(n, i, j);
  }

  lemma PlacesInPass(n: int, i: nat, j: nat)
    requires n > 0 && i < j && i / n == j / n
    ensures 0 <= i % n < j % n < n && j % n <= j
  {
    WholePasses(n, i);
    WholePasses(n, j);
    TimesKeepsOrder(0, j / n, n);
  }

  /** Without EXDATEs that is so exactly when the days it gets to are listed by distance. */
  lemma ChronologicalIffInOrder(r: Rule, dt: DtStart, duration: int)
    requires r.freq == Weekly && r.exDates == []
    ensures Ascending(Starts(Expansion(r, dt, duration))) <==> InOrder(DaysReached(r, dt), WeekdayOfStart(dt))
  {
    hide Expansion, Starts, Ascending, WeekdayOfStart, Distance, Kept, DaysReached, DaysOf;
    ChronologicalIff(r, dt, duration);
    var w0, reached := WeekdayOfStart(dt), DaysReached(r, dt);
    if KeptInOrder(r, dt) {
      forall i, j | 0 <= i < j < |reached| ensures Distance(reached[i], w0) < Distance(reached[j], w0) {
        FirstWeek(r, dt, i);
        FirstWeek(r, dt, j);
      }
    }
    if InOrder(reached, w0) {
      var days := DaysOf(r, w0);
      forall i: nat, j: nat | i < j && i / |days| == j / |days| && Kept(r, dt, i) && Kept(r, dt, j)
        ensures Distance(days[i % |days|], w0) < Distance(days[j % |days|], w0)
      {
        OneWeek(r, dt, i, j);
      }
    }
  }

  /** Friday listed before Monday: from a Monday on the second occurrence comes before the first. */
  lemma FridayBeforeMonday(dt: DtStart, duration: int)
    requires WeekdayOfStart(dt) == 1
    ensures
      var r := Rule(Weekly, 1, 2, Forever, [FR, MO], 0, []);
      !Ascending(Starts(Expansion(r, dt, duration)))
  {
    var r := Rule(Weekly, 1, 2, Forever, [FR, MO], 0, []);
    assert CutOf(r, dt) == 2;
    var days := DaysReached(r, dt);
    assert days == [FR, MO];
    assert !(Distance(days[0], 1) < Distance(days[1], 1));
    ChronologicalIffInOrder(r, dt, duration);
  }

  /** With that Friday excepted the Monday alone is left, in order. */
  lemma ExceptedFridayLeavesOrder(dt: DtStart, duration: int)
    requires WeekdayOfStart(dt) == 1
    ensures
      var r := Rule(Weekly, 1, 2, Forever, [FR, MO], 0, [DayStart(dt, 4)]);
      Ascending(Starts(Expansion(r, dt, duration))) && !InOrder(DaysReached(r, dt), 1)
  {
    hide StartOf, WeekdayOfStart, Expansion, Starts, Ascending;
    var r := Rule(Weekly, 1, 2, Forever, [FR, MO], 0, [DayStart(dt, 4)]);
    assert CutOf(r, dt) == 2;
    assert DaysReached(r, dt) == [FR, MO] && !(Distance([FR, MO][0], 1) < Distance([FR, MO][1], 1));
    WeeklyIs(r, dt, 0);
    assert WeeklyOffset(r, 1, 0) == 4;
    assert DayStart(dt, 4) in r.exDates;
    assert !Kept(r, dt, 0);
    ChronologicalIff(r, dt, duration);
  }

  // ---- The due days ----

  /** The due days that start at or before the instant `t`. */
  function DueThrough(r: Rule, dt: DtStart, t: int): set<int> {
    DueBefore(r, WeekdayOfStart(dt), (t - StartOf(dt)) / DAY + 1)
  }

  lemma PastIff(dt: DtStart, t: int, d: int)
    ensures DayStart(dt, d) > t <==> d > (t - StartOf(dt)) / DAY
  {
    var q := (t - StartOf(dt)) / DAY;
    assert q * DAY <= t - StartOf(dt) < (q + 1) * DAY;
    if d > q { assert d * DAY >= (q + 1) * DAY; } else { assert d * DAY <= q * DAY; }
  }

  /** With the days listed by distance, what is emitted before an early return are the due days through UNTIL, and
      the expander returns early exactly when these are fewer than the limit. */
  lemma EarlyReturnIff(r: Rule, dt: DtStart, t: int)
    requires r.freq == Weekly && r.until == Through(t) && InOrder(DaysOf(r, WeekdayOfStart(dt)), WeekdayOfStart(dt))
    ensures ReturnsEarly(r, dt) <==> |DueThrough(r, dt, t)| < LimitOf(r)
    ensures ReturnsEarly(r, dt) ==> DueThrough(r, dt, t) == DueBefore(r, WeekdayOfStart(dt), WeeklyOffset(r, WeekdayOfStart(dt), CutOf(r, dt)))
  {
    hide WeeklyOffset, Due, Candidates, StartOf, WeekdayOfStart, DayStart, InOrder;
    var w0, k := WeekdayOfStart(dt), CutOf(r, dt);
    var due := DueThrough(r, dt, t);
    if k < LimitOf(r) {
      WeeklyIs(r, dt, k);
      PastIff(dt, t, WeeklyOffset(r, w0, k));
      OffsetRank(r, w0, k);
      forall d | d in DueBefore(r, w0, WeeklyOffset(r, w0, k)) ensures d in due {
        var i := DueAgainstOffset(r, w0, d, k);
        WeeklyIs(r, dt, i);
        PastIff(dt, t, d);
      }
      assert due == DueBefore(r, w0, WeeklyOffset(r, w0, k));
    } else {
      WeeklyIs(r, dt, k - 1);
      PastIff(dt, t, WeeklyOffset(r, w0, k - 1));
      OffsetRank(r, w0, k);
      OneMoreDue(r, w0, k - 1);
      OffsetIsDue(r, w0, k - 1);
      SubsetCard(DueBefore(r, w0, WeeklyOffset(r, w0, k)), due);
    }
  }

  lemma SubsetCard(a: set<int>, b: set<int>)
    requires a <= b
    ensures |a| <= |b|
  {
    assert b == a + (b - a);
  }

  /** UNTIL comes before the limit is reached. */
  predicate EndsEarly(r: Rule, dt: DtStart) {
    r.until.Through? && |DueThrough(r, dt, r.until.instant)| < LimitOf(r)
  }

  lemma EndsEarlyIff(r: Rule, dt: DtStart)
    requires r.freq == Weekly && InOrder(DaysOf(r, WeekdayOfStart(dt)), WeekdayOfStart(dt))
    ensures ReturnsEarly(r, dt) <==> EndsEarly(r, dt)
  {
    hide DueThrough, InOrder, WeekdayOfStart;
    if r.until.Through? { EarlyReturnIff(r, dt, r.until.instant); }
  }

  /** The i-th candidate is emitted exactly when it is below the limit and not past UNTIL. */
  lemma IndexEmittedIff(r: Rule, dt: DtStart, i: nat)
    requires r.freq == Weekly && InOrder(DaysOf(r, WeekdayOfStart(dt)), WeekdayOfStart(dt))
    ensures i < CutOf(r, dt) <==> i < LimitOf(r) && !Past(r.until, Candidate(r, dt, i))
  {
    hide StartOf, WeekdayOfStart, WeeklyOffset, InOrder;
    var w0, k := WeekdayOfStart(dt), CutOf(r, dt);
    WeeklyIs(r, dt, i);
    if k < i && k < LimitOf(r) {
      WeeklyIs(r, dt, k);
      OffsetsAscend(r, w0, k, i);
      DaysAscend(dt, WeeklyOffset(r, w0, k), WeeklyOffset(r, w0, i));
    } else if k == i && k < LimitOf(r) {
      WeeklyIs(r, dt, k);
    }
  }

  /** `d` is one of the first min(COUNT, 100) due days and not past UNTIL. */
  predicate Selected(r: Rule, dt: DtStart, d: int) {
    && Due(r, WeekdayOfStart(dt), d)
    && |DueBefore(r, WeekdayOfStart(dt), d)| < LimitOf(r)
    && !Past(r.until, DayStart(dt, d))
  }

  /** EXDATE drops the day, unless the rule ends early. */
  predicate Spared(r: Rule, dt: DtStart, d: int) {
    EndsEarly(r, dt) || !Excepted(r.exDates, DayStart(dt, d))
  }

  /** A due day occurs exactly when it is among the first `LimitOf`, not past UNTIL and spared by EXDATE. */
  lemma DueOccursIff(r: Rule, dt: DtStart, duration: int, d: int)
    requires r.freq == Weekly && Due(r, WeekdayOfStart(dt), d)
    requires InOrder(DaysOf(r, WeekdayOfStart(dt)), WeekdayOfStart(dt))
    ensures Occurrence(DayStart(dt, d), DayStart(dt, d) + duration) in Expansion(r, dt, duration)
      <==> Selected(r, dt, d) && Spared(r, dt, d)
  {
    hide StartOf, WeekdayOfStart, WeeklyOffset, InOrder, Due, DayStart, Expansion, Excepted, EndsEarly, ReturnsEarly, Candidate, CutOf;
    var w0 := WeekdayOfStart(dt);
    var o := Occurrence(DayStart(dt, d), DayStart(dt, d) + duration);
    var i := DueIsOffset(r, w0, d);
    OffsetRank(r, w0, i);
    WeeklyIs(r, dt, i);
    IndexEmittedIff(r, dt, i);
    EndsEarlyIff(r, dt);
    OccursIff(r, dt, duration, o);
    assert Kept(r, dt, i) <==> Selected(r, dt, d) && Spared(r, dt, d);
    if j: nat :| Kept(r, dt, j) && o == Occurrence(Candidate(r, dt, j), Candidate(r, dt, j) + duration) {
      WeeklyIs(r, dt, j);
      if j < i { OffsetsAscend(r, w0, j, i); } else if i < j { OffsetsAscend(r, w0, i, j); }
      DaysAscend(dt, WeeklyOffset(r, w0, i), WeeklyOffset(r, w0, j));
      DaysAscend(dt, WeeklyOffset(r, w0, j), WeeklyOffset(r, w0, i));
    }
  }

  /** Every occurrence is that of a due day. */
  lemma OccurrenceIsDue(r: Rule, dt: DtStart, duration: int, o: Occurrence) returns (d: int)
    requires r.freq == Weekly && o in Expansion(r, dt, duration)
    ensures Due(r, WeekdayOfStart(dt), d) && o == Occurrence(DayStart(dt, d), DayStart(dt, d) + duration)
  {
    hide StartOf, WeekdayOfStart, WeeklyOffset, Due, DayStart, Expansion, Candidate, Kept;
    OccursIff(r, dt, duration, o);
    var i: nat :| Kept(r, dt, i) && o == Occurrence(Candidate(r, dt, i), Candidate(r, dt, i) + duration);
    d := WeeklyOffset(r, WeekdayOfStart(dt), i);
    WeeklyIs(r, dt, i);
    OffsetIsDue(r, WeekdayOfStart(dt), i);
  }

  /** With distinct days listed by distance from DTSTART's weekday, the expansion is the first min(COUNT, 100) due
      days in ascending order, cut at UNTIL, less those EXDATE drops; each lasts `duration`. */
  lemma WeeklyExpandsToFirstDueDays(r: Rule, dt: DtStart, duration: int)
    requires r.freq == Weekly && InOrder(DaysOf(r, WeekdayOfStart(dt)), WeekdayOfStart(dt))
    ensures Ascending(Starts(Expansion(r, dt, duration)))
    ensures forall o :: o in Expansion(r, dt, duration) <==> exists d ::
      Selected(r, dt, d) && Spared(r, dt, d) && o == Occurrence(DayStart(dt, d), DayStart(dt, d) + duration)
  {
    hide StartOf, WeekdayOfStart, InOrder, Due, DayStart, Expansion, Spared, Past, Ascending, Starts;
    WeeklyIsAscending(r, dt, duration);
    forall o ensures o in Expansion(r, dt, duration) <==> exists d ::
      Selected(r, dt, d) && Spared(r, dt, d) && o == Occurrence(DayStart(dt, d), DayStart(dt, d) + duration)
    {
      if o in Expansion(r, dt, duration) {
        var d := OccurrenceIsDue(r, dt, duration, o);
        DueOccursIff(r, dt, duration, d);
      }
      if d :| Selected(r, dt, d) && Spared(r, dt, d) && o == Occurrence(DayStart(dt, d), DayStart(dt, d) + duration) {
        DueOccursIff(r, dt, duration, d);
      }
    }
  }

  // ---- EXDATEs ----

  ghost predicate ExDatesHonoured(r: Rule, dt: DtStart, duration: int) {
    forall o | o in Expansion(r, dt, duration) :: !Excepted(r.exDates, o.start)
  }

  /** Only a weekly rule returns early, so the others drop every EXDATE. */
  lemma OtherFrequenciesHonourExDates(r: Rule, dt: DtStart, duration: int)
    requires r.freq != Weekly
    ensures ExDatesHonoured(r, dt, duration)
  {
  }

  lemma EmittedAndExcepted(r: Rule, dt: DtStart, duration: int)
    ensures ExDatesHonoured(r, dt, duration)
      <==> (!ReturnsEarly(r, dt) || forall i: nat | i < CutOf(r, dt) :: !Excepted(r.exDates, Candidate(r, dt, i)))
  {
    var ws := Windows(Candidates(r, dt), duration, CutOf(r, dt));
    if ReturnsEarly(r, dt) {
      if i: nat :| i < CutOf(r, dt) && Excepted(r.exDates, Candidate(r, dt, i)) {
        assert ws[i] in Expansion(r, dt, duration);
      }
    }
  }

  /** With the days listed by distance, a weekly rule honours its EXDATEs exactly when it has no UNTIL, or at least as
      many due days through UNTIL as its limit, or no EXDATE in the second of one of these days. */
  lemma ExDatesHonouredIff(r: Rule, dt: DtStart, duration: int)
    requires r.freq == Weekly && InOrder(DaysOf(r, WeekdayOfStart(dt)), WeekdayOfStart(dt))
    ensures ExDatesHonoured(r, dt, duration) <==> (
      || r.until == Forever
      || |DueThrough(r, dt, r.until.instant)| >= LimitOf(r)
      || forall d | d in DueThrough(r, dt, r.until.instant) :: !Excepted(r.exDates, DayStart(dt, d)))
  {
    hide ExDatesHonoured, WeeklyOffset, Due, Excepted, InOrder, DueThrough, StartOf, WeekdayOfStart, Candidates;
    EmittedAndExcepted(r, dt, duration);
    var w0, k := WeekdayOfStart(dt), CutOf(r, dt);
    if r.until == Forever {
      assert !ReturnsEarly(r, dt);
    } else {
      EarlyReturnIff(r, dt, r.until.instant);
      if ReturnsEarly(r, dt) {
        var due := DueThrough(r, dt, r.until.instant);
        forall i: nat | i < k ensures WeeklyOffset(r, w0, i) in due && Candidate(r, dt, i) == DayStart(dt, WeeklyOffset(r, w0, i)) {
          WeeklyIs(r, dt, i);
          OffsetsAscend(r, w0, i, k);
          OffsetIsDue(r, w0, i);
        }
        forall d | d in due ensures exists i: nat :: i < k && WeeklyOffset(r, w0, i) == d {
          var i := DueAgainstOffset(r, w0, d, k);
        }
      }
    }
  }

  lemma CandidateIs(r: Rule, dt: DtStart, i: nat)
    ensures Candidates(r, dt)(i) == Candidate(r, dt, i)
  {
  }

  /** Candidate `i` and those listed before it in its week are not past UNTIL. */
  predicate WeekReaches(r: Rule, dt: DtStart, i: nat) {
    forall j: nat | i - i % |DaysOf(r, WeekdayOfStart(dt))| <= j <= i :: !Past(r.until, Candidate(r, dt, j))
  }

  lemma EarlierWeek(r: Rule, w0: int, j: nat, i: nat)
    requires 0 <= w0 < 7 && j < i - i % |DaysOf(r, w0)|
    ensures WeeklyOffset(r, w0, j) < WeeklyOffset(r, w0, i - i % |DaysOf(r, w0)|)
  {
    var n := |DaysOf(r, w0)|;
    WholePasses(n, i);
    PassAndPlace(n, i / n, 0);
    PassBelow(n, j, i / n);
    StepApart(j / n, i / n, StepOf(r));
  }

  lemma WholePasses(n: int, i: nat)
    requires n > 0
    ensures i - i % n == (i / n) * n
  {
  }

  lemma TimesKeepsOrder(a: int, b: int, n: int)
    requires a <= b && n > 0
    ensures a * n <= b * n
  {
  }

  lemma PassBelow(n: int, j: nat, q: int)
    requires n > 0 && j < q * n
    ensures j / n < q
  {
    WholePasses(n, j);
    if j / n >= q { TimesKeepsOrder(q, j / n, n); }
  }

  lemma StepApart(p: int, q: int, step: int)
    requires p < q && step > 0
    ensures p * step + 1 <= q * step
  {
  }

  /** A candidate below the limit is emitted exactly when its week reaches it. */
  lemma EmittedIff(r: Rule, dt: DtStart, i: nat)
    requires r.freq == Weekly && i < LimitOf(r)
    ensures i < CutOf(r, dt) <==> WeekReaches(r, dt, i)
  {
    var w0, n, k := WeekdayOfStart(dt), |DaysOf(r, WeekdayOfStart(dt))|, CutOf(r, dt);
    if i < k {
      forall j: nat | i - i % n <= j <= i ensures !Past(r.until, Candidate(r, dt, j)) { CandidateIs(r, dt, j); }
    } else {
      CandidateIs(r, dt, k);
      var first := i - i % n;
      if k < first {
        EarlierWeek(r, w0, k, i);
        assert Past(r.until, Candidate(r, dt, first));
      }
    }
  }

  /** In whatever order the days are listed: EXDATEs are honoured exactly when no candidate below the limit is past
      UNTIL, or none that its week reaches is excepted. */
  lemma ExDatesHonouredInAnyOrderIff(r: Rule, dt: DtStart, duration: int)
    requires r.freq == Weekly
    ensures ExDatesHonoured(r, dt, duration) <==> (
      || (forall i: nat | i < LimitOf(r) :: !Past(r.until, Candidate(r, dt, i)))
      || (forall i: nat | i < LimitOf(r) && WeekReaches(r, dt, i) :: !Excepted(r.exDates, Candidate(r, dt, i))))
  {
    hide ExDatesHonoured, Excepted, WeekReaches, Candidate;
    EmittedAndExcepted(r, dt, duration);
    forall i: nat | i < LimitOf(r) ensures i < CutOf(r, dt) <==> WeekReaches(r, dt, i) { EmittedIff(r, dt, i); }
    forall i: nat ensures Candidates(r, dt)(i) == Candidate(r, dt, i) { CandidateIs(r, dt, i); }
  }

  lemma CutIsOne(c: nat -> int, until: Until, limit: nat)
    requires limit > 1 && !Past(until, c(0)) && Past(until, c(1))
    ensures Cut(c, until, limit, 0) == 1
  {
  }

  lemma OwnWeekday(r: Rule, dt: DtStart)
    requires r.freq == Weekly && r.byDay == [] && r.interval == 1
    ensures Candidate(r, dt, 0) == StartOf(dt) && Candidate(r, dt, 1) == StartOf(dt) + 7 * DAY
  {
    var w0 := WeekdayOfStart(dt);
    assert DaysOf(r, w0) == [FromNumber(w0)] && Distance(FromNumber(w0), w0) == 0;
    assert WeeklyOffset(r, w0, 0) == 0 && WeeklyOffset(r, w0, 1) == 7;
  }

  /** A weekly rule that ends on DTSTART and excepts DTSTART still emits it. */
  lemma ExDateSurvivesEarlyReturn(dt: DtStart, duration: int)
    ensures
      var r := Rule(Weekly, 1, 0, Through(StartOf(dt)), [], 0, [StartOf(dt)]);
      Excepted(r.exDates, StartOf(dt)) && Occurrence(StartOf(dt), StartOf(dt) + duration) in Expansion(r, dt, duration)
  {
    var r := Rule(Weekly, 1, 0, Through(StartOf(dt)), [], 0, [StartOf(dt)]);
    OwnWeekday(r, dt);
    CutIsOne(Candidates(r, dt), r.until, LimitOf(r));
    assert StartOf(dt) in r.exDates;
    assert Windows(Candidates(r, dt), duration, 1)[0] == Occurrence(StartOf(dt), StartOf(dt) + duration);
  }
}
