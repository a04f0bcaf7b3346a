/** Creates on exclusive resources whose check and save interleave with other writes. Nothing is locked between
    the two, so only the EXCLUDE constraint stands behind the check. */
module BookingRaces {
  import opened BookingStore
  import U = BookingUseCases

  type Tx = nat

  /** A booking whose conflict check has passed. */
  datatype Checked = Checked(id: Id, booking: Booking)

  datatype State = State(rows: Table, checked: map<Tx, Checked>)

  /** A save that fails leaves the table alone, whoever sends it. */
  datatype Step =
    | Check(tx: Tx, id: Id, booking: Booking)
    | Write(tx: Tx)
    | Resave(id: Id, booking: Booking)
    | SetStatus(id: Id, status: Status)

  function Apply(s: State, forest: Forest, step: Step): State {
    match step
    case Check(tx, id, b) =>
      if id in s.rows || HasConflict(s.rows, forest, b.resource, b.start, b.end) then s
      else s.(checked := s.checked[tx := Checked(id, b)])
    case Write(tx) =>
      if tx !in s.checked then s
      else State(U.SavedOr(s.rows, s.checked[tx].id, s.checked[tx].booking), s.checked - {tx})
    case Resave(id, b) => s.(rows := U.SavedOr(s.rows, id, b))
    case SetStatus(id, status) => s.(rows := UpdateStatus(s.rows, id, status))
  }

  function Run(s: State, forest: Forest, steps: seq<Step>): State
    decreases |steps|
  {
    if steps == [] then s else Run(Apply(s, forest, steps[0]), forest, steps[1..])
  }

  // ---- The constraint ----

  /** No two guarded rows of one resource hold a common instant. */
  predicate ConstraintHolds(rows: Table) {
    forall i, j | i in rows && j in rows && i != j && Guarded(rows[i]) && Guarded(rows[j]) ::
      rows[i].resource == rows[j].resource ==> !RangesMeet(rows[i], rows[j])
  }

  /** A row is written only when it is not excluded. */
  lemma WrittenRowKeepsConstraint(rows: Table, id: Id, row: Booking)
    requires ConstraintHolds(rows) && !Excluded(rows, id, row)
    ensures ConstraintHolds(rows[id := row])
  {
    var rows' := rows[id := row];
    forall i, j | i in rows' && j in rows' && i != j && Guarded(rows'[i]) && Guarded(rows'[j]) && rows'[i].resource == rows'[j].resource
      ensures !RangesMeet(rows'[i], rows'[j])
    {
      assert RangesMeet(rows'[i], rows'[j]) <==> RangesMeet(rows'[j], rows'[i]);
    }
  }

  lemma SaveKeepsConstraint(rows: Table, id: Id, b: Booking)
    requires ConstraintHolds(rows)
    ensures ConstraintHolds(U.SavedOr(rows, id, b))
  {
    hide ConstraintHolds, Excluded;
    if Save(rows, id, b).Saved? { WrittenRowKeepsConstraint(rows, id, RowToWrite(rows, id, b)); }
  }

  /** In every interleaving of checks, writes and status changes, the rows of one resource stay apart. */
  lemma {:induction false} OneResourceStaysApart(s: State, forest: Forest, steps: seq<Step>)
    requires ConstraintHolds(s.rows)
    ensures ConstraintHolds(Run(s, forest, steps).rows)
    decreases |steps|
  {
    hide ConstraintHolds, Excluded;
    if steps != [] {
      match steps[0] {
        case Check(_, _, _) =>
        case Write(tx) =>
          if tx in s.checked { SaveKeepsConstraint(s.rows, s.checked[tx].id, s.checked[tx].booking); }
        case Resave(id, b) => SaveKeepsConstraint(s.rows, id, b);
        case SetStatus(id, status) =>
          if id in s.rows && !Excluded(s.rows, id, s.rows[id].(status := status)) {
            WrittenRowKeepsConstraint(s.rows, id, s.rows[id].(status := status));
          }
      }
      OneResourceStaysApart(Apply(s, forest, steps[0]), forest, steps[1..]);
    }
  }

  // ---- The check ----

  /** The exclusive rows a repeated check would find at the time of the write. */
  function LateConflicts(rows: Table, forest: Forest, b: Booking): set<Id> {
    set i | i in Conflicts(rows, forest, b.resource, b.start, b.end) && !IsShared(forest, rows[i].resource)
  }

  /** A write behind a passed check keeps bookings apart exactly when the check would still pass. */
  lemma WriteKeepsIff(rows: Table, forest: Forest, id: Id, b: Booking)
    requires U.NoDoubleBooking(rows, forest) && id !in rows && Active(b) && !IsShared(forest, b.resource)
    requires Save(rows, id, b).Saved?
    ensures U.NoDoubleBooking(U.SavedOr(rows, id, b), forest) <==> LateConflicts(rows, forest, b) == {}
  {
    hide Excluded;
    var rows' := U.SavedOr(rows, id, b);
    var late := LateConflicts(rows, forest, b);
    if late != {} {
      var i :| i in late;
      assert Clash(rows'[i], rows'[id]);
    } else {
      forall i | i in rows && Active(rows[i]) && !IsShared(forest, rows[i].resource) && Related(forest, b.resource, rows[i].resource)
        ensures !Overlaps(rows[i], b.start, b.end)
      {
        assert i !in late;
      }
    }
  }

  const OnCourt := Booking("court", 0, 10, Confirmed, false, Exclusive, "", 1)
  const OnLeft := Booking("left", 5, 15, Confirmed, false, Exclusive, "", 1)

  /** Both checks before either write: a parent and its child are booked for the same time. */
  lemma RaceCanDoubleBook()
    ensures var s := Run(State(map[], map[]), U.ParentAndChild, [Check(1, "a", OnCourt), Check(2, "b", OnLeft), Write(1), Write(2)]);
      s.rows == map["a" := OnCourt, "b" := OnLeft] && !U.NoDoubleBooking(s.rows, U.ParentAndChild)
  {
    hide U.NoDoubleBooking;
    var f := U.ParentAndChild;
    var s1 := State(map[], map[1 := Checked("a", OnCourt)]);
    var s2 := State(map[], map[1 := Checked("a", OnCourt), 2 := Checked("b", OnLeft)]);
    var s3 := State(map["a" := OnCourt], map[2 := Checked("b", OnLeft)]);
    assert Apply(State(map[], map[]), f, Check(1, "a", OnCourt)) == s1;
    assert Apply(s1, f, Check(2, "b", OnLeft)) == s2;
    FirstWrites(s2, f);
    assert s2.checked - {1} == s3.checked;
    SecondWrites(s3, f);
    FourSteps(State(map[], map[]), f, Check(1, "a", OnCourt), Check(2, "b", OnLeft), Write(1), Write(2));
  }

  lemma FourSteps(s: State, f: Forest, a: Step, b: Step, c: Step, d: Step)
    ensures Run(s, f, [a, b, c, d]) == Apply(Apply(Apply(Apply(s, f, a), f, b), f, c), f, d)
  {
    assert [a, b, c, d][1..] == [b, c, d] && [b, c, d][1..] == [c, d] && [c, d][1..] == [d] && [d][1..] == [];
    hide Apply;
    var s1 := Apply(s, f, a);
    var s2 := Apply(s1, f, b);
    var s3 := Apply(s2, f, c);
    assert Run(s3, f, [d]) == Apply(s3, f, d);
    assert Run(s2, f, [c, d]) == Run(s3, f, [d]);
    assert Run(s1, f, [b, c, d]) == Run(s2, f, [c, d]);
  }

  lemma FirstWrites(s: State, f: Forest)
    requires s.rows == map[] && 1 in s.checked && s.checked[1] == Checked("a", OnCourt)
    ensures Apply(s, f, Write(1)) == State(map["a" := OnCourt], s.checked - {1})
  {
    assert !Excluded(s.rows, "a", OnCourt);
  }

  lemma SecondWrites(s: State, f: Forest)
    requires f == U.ParentAndChild && s == State(map["a" := OnCourt], map[2 := Checked("b", OnLeft)])
    ensures Apply(s, f, Write(2)).rows == map["a" := OnCourt, "b" := OnLeft]
    ensures !U.NoDoubleBooking(map["a" := OnCourt, "b" := OnLeft], f)
  {
    assert OnCourt.resource != OnLeft.resource;
    assert !Excluded(s.rows, "b", OnLeft);
    var rows: Table := map["a" := OnCourt, "b" := OnLeft];
    assert "a" in rows && "b" in rows && Clash(rows["a"], rows["b"]);
  }
}
