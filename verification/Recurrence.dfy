/** Bounded expansion of a recurrence rule into occurrence windows. */
module Recurrence {
  import opened Calendar

  const MAX_OCCURRENCES: nat := 100

  datatype Freq = Daily | Weekly | Monthly | Yearly
  datatype Weekday = SU | MO | TU | WE | TH | FR | SA

  /** Zero stands for DTSTART's own day. */
  type MonthDay = d: int | 0 <= d <= 31

  datatype Until = Forever | Through(instant: int)

  /** The fields of a rule that expansion reads; instants are nanoseconds. */
  datatype Rule = Rule(freq: Freq, interval: int, count: int, until: Until, byDay: seq<Weekday>,
                       byMonthDay: MonthDay, exDates: seq<int>)

  datatype Occurrence = Occurrence(start: int, end: int)

  /** DTSTART: a wall-clock reading and the zone's fixed offset. */
  datatype DtStart = DtStart(wall: Wall, offset: int)

  function StartOf(dt: DtStart): int {
    InstantOf(dt.wall, dt.offset)
  }

  function WeekdayOfStart(dt: DtStart): (w: int)
    ensures 0 <= w < 7
  {
    WeekdayOf(StartOf(dt), dt.offset)
  }

  function Number(w: Weekday): (n: int)
    ensures 0 <= n < 7
  {
    match w case SU => 0 case MO => 1 case TU => 2 case WE => 3 case TH => 4 case FR => 5 case SA => 6
  }

  function FromNumber(n: int): (w: Weekday)
    requires 0 <= n < 7
    ensures Number(w) == n
  {
    match n case 0 => SU case 1 => MO case 2 => TU case 3 => WE case 4 => TH case 5 => FR case _ => SA
  }

  function StepOf(r: Rule): (s: int)
    ensures s > 0
  {
    if r.interval <= 0 then 1 else r.interval
  }

  function LimitOf(r: Rule): (n: nat)
    ensures 0 < n <= MAX_OCCURRENCES
  {
    if r.count <= 0 || r.count > MAX_OCCURRENCES then MAX_OCCURRENCES else r.count
  }

  function DaysOf(r: Rule, w0: int): (days: seq<Weekday>)
    requires 0 <= w0 < 7
    ensures |days| > 0
  {
    if r.byDay == [] then [FromNumber(w0)] else r.byDay
  }

  /** How many days after a `w0` the next `w` falls. */
  function Distance(w: Weekday, w0: int): (d: int)
    requires 0 <= w0 < 7
    ensures 0 <= d < 7 && (w0 + d) % 7 == Number(w)
  {
    if Number(w) - w0 < 0 then Number(w) - w0 + 7 else Number(w) - w0
  }

  /** Days from DTSTART to the i-th weekly candidate: pass `i / |days|` over the list of days. */
  function WeeklyOffset(r: Rule, w0: int, i: nat): (d: int)
    requires 0 <= w0 < 7
    ensures d >= 0
  {
    var days := DaysOf(r, w0);
    7 * ((i / |days|) * StepOf(r)) + Distance(days[i % |days|], w0)
  }

  /** The start of the i-th candidate, in the order the expander visits them. */
  function Candidate(r: Rule, dt: DtStart, i: nat): int {
    match r.freq
    case Daily => StartOf(dt) + (i * StepOf(r)) * DAY
    case Weekly => StartOf(dt) + WeeklyOffset(r, WeekdayOfStart(dt), i) * DAY
    case Monthly =>
      var d := AddMonths(dt.wall.date, 0, i * StepOf(r));
      var d' := if r.byMonthDay > 0 then Normalize(d.year, d.month, r.byMonthDay) else d;
      InstantOf(dt.wall.(date := d'), dt.offset)
    case Yearly => InstantOf(dt.wall.(date := AddMonths(dt.wall.date, i * StepOf(r), 0)), dt.offset)
  }

  function Candidates(r: Rule, dt: DtStart): nat -> int {
    (i: nat) => Candidate(r, dt, i)
  }

  predicate Past(until: Until, t: int) {
    until.Through? && t > until.instant
  }

  /** Where emission stops, counted from the i-th candidate on: at the limit, or at the first candidate
      past UNTIL. */
  function Cut(c: nat -> int, until: Until, limit: nat, i: nat): (k: nat)
    requires i <= limit
    ensures i <= k <= limit
    ensures forall j | i <= j < k :: !Past(until, c(j))
    ensures k < limit ==> Past(until, c(k))
    decreases limit - i
  {
    if i == limit || Past(until, c(i)) then i else Cut(c, until, limit, i + 1)
  }

  function Windows(c: nat -> int, duration: int, k: nat): (ws: seq<Occurrence>)
    ensures |ws| == k && forall i | 0 <= i < k :: ws[i] == Occurrence(c(i), c(i) + duration)
  {
    seq(k, i requires 0 <= i < k => Occurrence(c(i), c(i) + duration))
  }

  function CutOf(r: Rule, dt: DtStart): (k: nat)
    ensures k <= LimitOf(r)
  {
    Cut(Candidates(r, dt), r.until, LimitOf(r), 0)
  }

  /** `Unix()`: EXDATEs are compared to the second. */
  function Unix(t: int): int { t / SECOND }

  predicate Excepted(ex: seq<int>, t: int) {
    exists e | e in ex :: Unix(e) == Unix(t)
  }

  function DropExcepted(ws: seq<Occurrence>, ex: seq<int>): (out: seq<Occurrence>)
    ensures forall o :: o in out <==> o in ws && !Excepted(ex, o.start)
  {
    if ws == [] then []
    else
      var rest := DropExcepted(ws[..|ws| - 1], ex);
      var o := ws[|ws| - 1];
      assert ws == ws[..|ws| - 1] + [o];
      if Excepted(ex, o.start) then rest else rest + [o]
  }

  /** A weekly rule that runs into UNTIL returns before the EXDATEs are looked at. */
  predicate ReturnsEarly(r: Rule, dt: DtStart) {
    r.freq == Weekly && CutOf(r, dt) < LimitOf(r)
  }

  function Expansion(r: Rule, dt: DtStart, duration: int): seq<Occurrence> {
    var ws := Windows(Candidates(r, dt), duration, CutOf(r, dt));
    if r.exDates == [] || ReturnsEarly(r, dt) then ws else DropExcepted(ws, r.exDates)
  }

  datatype Result = Expanded(occurrences: seq<Occurrence>) | EndNotAfterStart

  // ---- The expander ----

  lemma SmallMultiple(n: int, q: int)
    requires n > 0 && -n < q * n < n
    ensures q == 0
  {
  }

  lemma PassAndPlace(n: int, p: int, j: int)
    requires n > 0 && p >= 0 && 0 <= j < n
    ensures 0 <= p * n + j && (p * n + j) / n == p && (p * n + j) % n == j
  {
    var x := p * n + j;
    assert x == n * (x / n) + x % n;
    assert (x / n - p) * n == j - x % n;
    SmallMultiple(n, x / n - p);
  }

  lemma NothingDropped(ex: seq<int>)
    ensures DropExcepted([], ex) == []
  {
  }

  lemma DropExceptedStep(ws: seq<Occurrence>, i: nat, ex: seq<int>)
    requires i < |ws|
    ensures DropExcepted(ws[..i + 1], ex)
      == DropExcepted(ws[..i], ex) + if Excepted(ex, ws[i].start) then [] else [ws[i]]
  {
    assert ws[..i + 1][..i] == ws[..i];
  }

  /** Compacts the buffer in place and returns how much of it is kept. */
  method FilterExDates(a: array<Occurrence>, ex: seq<int>) returns (n: nat)
    modifies a
    ensures n <= a.Length && a[..n] == DropExcepted(old(a[..]), ex)
  {
    hide DropExcepted, Excepted;
    ghost var before := a[..];
    n := 0;
    var i := 0;
    NothingDropped(ex);
    while i < a.Length
      invariant 0 <= n <= i <= a.Length
      invariant a[i..] == before[i..]
      invariant a[..n] == DropExcepted(before[..i], ex)
    {
      DropExceptedStep(before, i, ex);
      assert a[i] == before[i] by { assert a[i..][0] == before[i..][0]; }
      var o := a[i];
      if !Excepted(ex, o.start) {
        a[n] := o;
        n := n + 1;
        assert a[..n] == DropExcepted(before[..i], ex) + [o];
      }
      assert a[i + 1..] == before[i + 1..] by {
        forall k | i + 1 <= k < a.Length ensures a[k] == before[k] {}
      }
      i := i + 1;
    }
    assert before[..a.Length] == before;
  }

  /** `out` holds the windows of the first candidates, and nothing before its end is past UNTIL. */
  ghost predicate Emitted(c: nat -> int, until: Until, limit: nat, duration: int, out: seq<Occurrence>) {
    && |out| <= limit
    && out == Windows(c, duration, |out|)
    && Cut(c, until, limit, 0) == Cut(c, until, limit, |out|)
  }

  lemma EmitOne(c: nat -> int, until: Until, limit: nat, duration: int, out: seq<Occurrence>)
    requires Emitted(c, until, limit, duration, out) && |out| < limit && !Past(until, c(|out|))
    ensures Emitted(c, until, limit, duration, out + [Occurrence(c(|out|), c(|out|) + duration)])
  {
  }

  /** The daily, monthly and yearly loops: one candidate a turn. */
  method ExpandSimple(r: Rule, dt: DtStart, duration: int) returns (out: seq<Occurrence>)
    requires r.freq != Weekly
    ensures out == Windows(Candidates(r, dt), duration, CutOf(r, dt))
  {
    hide Candidate, LimitOf;
    ghost var c := Candidates(r, dt);
    var limit := LimitOf(r);
    out := [];
    while |out| < limit
      invariant Emitted(c, r.until, limit, duration, out)
      decreases limit - |out|
    {
      var cur := Candidate(r, dt, |out|);
      if r.until.Through? && cur > r.until.instant { break; }
      EmitOne(c, r.until, limit, duration, out);
      out := out + [Occurrence(cur, cur + duration)];
    }
  }

  /** One week of the weekly loop, the one that starts at `anchor`: emits the listed days until the limit
      or UNTIL stops it. */
  method ExpandWeek(ghost c: nat -> int, until: Until, limit: nat, days: seq<Weekday>, start: int, anchor: int,
                    anchorDay: int, duration: int, sofar: seq<Occurrence>) returns (out: seq<Occurrence>, early: bool)
    requires 0 <= anchorDay < 7 && |days| > 0 && |sofar| < limit && Emitted(c, until, limit, duration, sofar)
    requires WeekFrom(c, |sofar|, days, start, anchor, anchorDay)
    ensures Emitted(c, until, limit, duration, out)
    ensures early ==> Cut(c, until, limit, 0) == |out| < limit
    ensures !early ==> |out| > |sofar|
    ensures !early && |out| < limit ==> |out| == |sofar| + |days|
  {
    hide Windows;
    out, early := sofar, false;
    var j := 0;
    while j < |days| && |out| < limit
      invariant 0 <= j <= |days| && |out| == |sofar| + j
      invariant Emitted(c, until, limit, duration, out)
      decreases |days| - j
    {
      var offset := Number(days[j]) - anchorDay;
      if offset < 0 { offset := offset + 7; }
      var candidate := anchor + offset * DAY;
      if candidate >= start {
        if until.Through? && candidate > until.instant { return out, true; }
        EmitOne(c, until, limit, duration, out);
        out := out + [Occurrence(candidate, candidate + duration)];
      }
      j := j + 1;
    }
  }

  /** The candidate of the j-th listed day in pass `p`, as the weekly loop computes it. */
  lemma WeeklyCandidate(r: Rule, dt: DtStart, p: nat, j: nat)
    requires r.freq == Weekly && j < |DaysOf(r, WeekdayOfStart(dt))|
    ensures
      var w0 := WeekdayOfStart(dt);
      var days := DaysOf(r, w0);
      && 0 <= p * |days| + j
      && Candidate(r, dt, p * |days| + j) == StartOf(dt) + (7 * (p * StepOf(r))) * DAY + Distance(days[j], w0) * DAY
      && Candidate(r, dt, p * |days| + j) >= StartOf(dt)
  {
    PassAndPlace(|DaysOf(r, WeekdayOfStart(dt))|, p, j);
  }

  /** The candidates from the n-th on are the listed days of the week that starts at `anchor`. */
  ghost predicate WeekFrom(c: nat -> int, n: nat, days: seq<Weekday>, start: int, anchor: int, anchorDay: int)
    requires 0 <= anchorDay < 7
  {
    forall j | 0 <= j < |days| :: start <= c(n + j) == anchor + Distance(days[j], anchorDay) * DAY
  }

  function AnchorOf(start: int, step: int, p: int): int {
    start + (7 * (p * step)) * DAY
  }

  function PassStart(p: nat, n: nat): nat { p * n }

  ghost predicate AllWeeks(c: nat -> int, days: seq<Weekday>, start: int, step: int, w0: int)
    requires 0 <= w0 < 7
  {
    forall p: nat :: WeekFrom(c, PassStart(p, |days|), days, start, AnchorOf(start, step, p), w0)
  }

  lemma CandidatesAreWeeks(r: Rule, dt: DtStart)
    requires r.freq == Weekly
    ensures AllWeeks(Candidates(r, dt), DaysOf(r, WeekdayOfStart(dt)), StartOf(dt), StepOf(r), WeekdayOfStart(dt))
  {
    var days := DaysOf(r, WeekdayOfStart(dt));
    forall p: nat
      ensures WeekFrom(Candidates(r, dt), PassStart(p, |days|), days, StartOf(dt), AnchorOf(StartOf(dt), StepOf(r), p), WeekdayOfStart(dt))
    {
      forall j | 0 <= j < |days|
        ensures StartOf(dt) <= Candidates(r, dt)(PassStart(p, |days|) + j)
          == AnchorOf(StartOf(dt), StepOf(r), p) + Distance(days[j], WeekdayOfStart(dt)) * DAY
      {
        WeeklyCandidate(r, dt, p, j);
      }
    }
  }

  lemma NextPass(p: nat, n: int)
    ensures (p + 1) * n == p * n + n
  {
  }

  /** The weekly loop, week by week. The second result says whether it returned from inside, past UNTIL. */
  method ExpandWeeks(ghost c: nat -> int, until: Until, limit: nat, days: seq<Weekday>, start: int, zone: int,
                     step: int, duration: int) returns (out: seq<Occurrence>, early: bool)
    requires |days| > 0 && AllWeeks(c, days, start, step, WeekdayOf(start, zone))
    ensures out == Windows(c, duration, Cut(c, until, limit, 0))
    ensures early <==> Cut(c, until, limit, 0) < limit
  {
    out, early := [], false;
    var week := 0;
    ghost var p := 0;
    while |out| < limit
      invariant 0 <= p && week == p * step
      invariant |out| < limit ==> |out| == PassStart(p, |days|)
      invariant Emitted(c, until, limit, duration, out)
      decreases limit - |out|
    {
      var anchor := start + (7 * week) * DAY;
      assert WeekFrom(c, PassStart(p, |days|), days, start, AnchorOf(start, step, p), WeekdayOf(start, zone));
      WeekdayAfterWeeks(start, zone, week);
      out, early := ExpandWeek(c, until, limit, days, start, anchor, WeekdayOf(anchor, zone), duration, out);
      if early { return; }
      NextPass(p, step);
      NextPass(p, |days|);
      week := week + step;
      p := p + 1;
    }
    early := false;
  }

  method Expand(r: Rule, dt: DtStart, dtEnd: int) returns (result: Result)
    ensures result.EndNotAfterStart? <==> dtEnd <= StartOf(dt)
    ensures result.Expanded? ==> result.occurrences == Expansion(r, dt, dtEnd - StartOf(dt))
  {
    hide StartOf, Candidates, WeekdayOf, LimitOf, DaysOf, StepOf;
    if dtEnd <= StartOf(dt) { return EndNotAfterStart; }
    var duration := dtEnd - StartOf(dt);
    var out: seq<Occurrence>;
    if r.freq == Weekly {
      var early;
      CandidatesAreWeeks(r, dt);
      out, early := ExpandWeeks(Candidates(r, dt), r.until, LimitOf(r), DaysOf(r, WeekdayOfStart(dt)), StartOf(dt),
                                dt.offset, StepOf(r), duration);
      if early { return Expanded(out); }
    } else {
      out := ExpandSimple(r, dt, duration);
    }
    if |r.exDates| > 0 {
      var buffer := new Occurrence[|out|](i requires 0 <= i < |out| => out[i]);
      assert buffer[..] == out;
      var n := FilterExDates(buffer, r.exDates);
      out := buffer[..n];
    }
    result := Expanded(out);
  }
}
