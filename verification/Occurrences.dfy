/** The occurrences an expansion keeps: those of its candidates that no EXDATE drops, in their order. */
module Occurrences {
  import opened Recurrence

  function Starts(ws: seq<Occurrence>): (ts: seq<int>)
    ensures |ts| == |ws| && forall i | 0 <= i < |ws| :: ts[i] == ws[i].start
  {
    seq(|ws|, i requires 0 <= i < |ws| => ws[i].start)
  }

  predicate Ascending(ts: seq<int>) {
    forall i, j | 0 <= i < j < |ts| :: ts[i] < ts[j]
  }

  predicate Repeats(ts: seq<int>) {
    exists i, j | 0 <= i < j < |ts| :: ts[i] == ts[j]
  }

  // ---- Dropping ----

  ghost predicate KeptAscend(ws: seq<Occurrence>, ex: seq<int>) {
    forall i, j | 0 <= i < j < |ws| && !Excepted(ex, ws[i].start) && !Excepted(ex, ws[j].start) :: ws[i].start < ws[j].start
  }

  ghost predicate KeptRepeat(ws: seq<Occurrence>, ex: seq<int>) {
    exists i, j | 0 <= i < j < |ws| && !Excepted(ex, ws[i].start) :: ws[i].start == ws[j].start
  }

  lemma DropLast(ws: seq<Occurrence>, ex: seq<int>)
    requires ws != []
    ensures var front, o := ws[..|ws| - 1], ws[|ws| - 1];
      DropExcepted(ws, ex) == DropExcepted(front, ex) + if Excepted(ex, o.start) then [] else [o]
  {
  }

  lemma AscendingMore(ws: seq<Occurrence>, o: Occurrence)
    ensures Ascending(Starts(ws + [o])) <==> Ascending(Starts(ws)) && forall x | x in ws :: x.start < o.start
  {
    var ts := Starts(ws + [o]);
    if Ascending(ts) {
      forall x | x in ws ensures x.start < o.start {
        var i :| 0 <= i < |ws| && ws[i] == x;
        assert ts[i] < ts[|ws|];
      }
      assert forall i | 0 <= i < |ws| :: Starts(ws)[i] == ts[i];
    }
  }

  lemma RepeatsMore(ws: seq<Occurrence>, o: Occurrence)
    ensures Repeats(Starts(ws + [o])) <==> Repeats(Starts(ws)) || exists x :: x in ws && x.start == o.start
  {
    var ts, us := Starts(ws + [o]), Starts(ws);
    assert forall i | 0 <= i < |ws| :: us[i] == ts[i];
    if x :| x in ws && x.start == o.start {
      var i :| 0 <= i < |ws| && ws[i] == x;
      assert ts[i] == ts[|ws|];
    }
    if Repeats(us) {
      var i, j :| 0 <= i < j < |us| && us[i] == us[j];
      assert ts[i] == ts[j];
    }
    if Repeats(ts) {
      var i, j :| 0 <= i < j < |ts| && ts[i] == ts[j];
      assert ws[i] in ws;
      assert j < |ws| ==> us[i] == us[j];
    }
  }

  /** What is left ascends exactly when the kept ones do. */
  lemma {:induction false} DroppedAscendsIff(ws: seq<Occurrence>, ex: seq<int>)
    ensures Ascending(Starts(DropExcepted(ws, ex))) <==> KeptAscend(ws, ex)
  {
    hide Ascending, Starts, Excepted, DropExcepted;
    if ws == [] {
      NothingLeft(ex);
    } else {
      var front, o := ws[..|ws| - 1], ws[|ws| - 1];
      DroppedAscendsIff(front, ex);
      DropLast(ws, ex);
      var rest := DropExcepted(front, ex);
      AscendingMore(rest, o);
      assert rest + [] == rest;
      assert forall i | 0 <= i < |front| :: ws[i] == front[i] && front[i] in front;
    }
  }

  lemma {:induction false} DroppedRepeatsIff(ws: seq<Occurrence>, ex: seq<int>)
    ensures Repeats(Starts(DropExcepted(ws, ex))) <==> KeptRepeat(ws, ex)
  {
    hide Repeats, Starts, Excepted, DropExcepted;
    if ws == [] {
      NothingLeft(ex);
    } else {
      var front, o := ws[..|ws| - 1], ws[|ws| - 1];
      DroppedRepeatsIff(front, ex);
      DropLast(ws, ex);
      var rest := DropExcepted(front, ex);
      RepeatsMore(rest, o);
      assert rest + [] == rest;
      assert forall i | 0 <= i < |front| :: ws[i] == front[i] && front[i] in front;
      if x :| x in rest && x.start == o.start {
        var i :| 0 <= i < |front| && front[i] == x;
        assert ws[i].start == ws[|front|].start;
      }
    }
  }

  lemma NothingLeft(ex: seq<int>)
    ensures Ascending(Starts(DropExcepted([], ex))) && !Repeats(Starts(DropExcepted([], ex)))
  {
  }

  // ---- Expansions ----

  /** The candidate is emitted and not dropped. */
  ghost predicate Kept(r: Rule, dt: DtStart, i: nat) {
    i < CutOf(r, dt) && (ReturnsEarly(r, dt) || !Excepted(r.exDates, Candidate(r, dt, i)))
  }

  /** The kept candidates are the occurrences. */
  lemma OccursIff(r: Rule, dt: DtStart, duration: int, o: Occurrence)
    ensures o in Expansion(r, dt, duration)
      <==> exists i: nat :: Kept(r, dt, i) && o == Occurrence(Candidate(r, dt, i), Candidate(r, dt, i) + duration)
  {
    var ws := Windows(Candidates(r, dt), duration, CutOf(r, dt));
    assert r.exDates == [] ==> forall t :: !Excepted(r.exDates, t);
    if o in Expansion(r, dt, duration) {
      var i :| 0 <= i < |ws| && ws[i] == o;
      assert Kept(r, dt, i);
    }
    if i: nat :| Kept(r, dt, i) && o == Occurrence(Candidate(r, dt, i), Candidate(r, dt, i) + duration) {
      assert ws[i] == o && o in ws;
    }
  }

  /** The expansion ascends exactly when its kept candidates do. */
  lemma ExpansionAscendsIff(r: Rule, dt: DtStart, duration: int)
    ensures Ascending(Starts(Expansion(r, dt, duration)))
      <==> forall i: nat, j: nat | i < j && Kept(r, dt, i) && Kept(r, dt, j) :: Candidate(r, dt, i) < Candidate(r, dt, j)
  {
    hide Excepted, Candidate, CutOf;
    var ws := Windows(Candidates(r, dt), duration, CutOf(r, dt));
    assert forall i | 0 <= i < |ws| :: ws[i].start == Candidate(r, dt, i);
    NoExDates(r);
    DroppedAscendsIff(ws, r.exDates);
    if r.exDates == [] || ReturnsEarly(r, dt) {
      assert Expansion(r, dt, duration) == ws;
      assert forall i: nat | i < |ws| :: Kept(r, dt, i) && Starts(ws)[i] == Candidate(r, dt, i);
    } else {
      assert forall i: nat | i < |ws| :: Kept(r, dt, i) <==> !Excepted(r.exDates, ws[i].start);
    }
  }

  lemma NoExDates(r: Rule)
    ensures r.exDates == [] ==> forall t :: !Excepted(r.exDates, t)
  {
  }

  /** Some start occurs twice exactly when two kept candidates are the same instant. */
  lemma ExpansionRepeatsIff(r: Rule, dt: DtStart, duration: int)
    ensures Repeats(Starts(Expansion(r, dt, duration)))
      <==> exists i: nat, j: nat :: i < j < CutOf(r, dt) && Kept(r, dt, i) && Candidate(r, dt, i) == Candidate(r, dt, j)
  {
    hide Excepted, Candidate, CutOf;
    var ws := Windows(Candidates(r, dt), duration, CutOf(r, dt));
    assert forall i | 0 <= i < |ws| :: ws[i].start == Candidate(r, dt, i);
    NoExDates(r);
    DroppedRepeatsIff(ws, r.exDates);
    assert forall i: nat | i < |ws| :: Kept(r, dt, i) <==> ReturnsEarly(r, dt) || !Excepted(r.exDates, ws[i].start);
    if r.exDates == [] || ReturnsEarly(r, dt) {
      assert Expansion(r, dt, duration) == ws;
      assert forall i: nat | i < |ws| :: Kept(r, dt, i) && Starts(ws)[i] == Candidate(r, dt, i);
    }
  }
}
