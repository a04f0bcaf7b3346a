/** Read-modify-write sessions on one booking: `FindByID` remembers a version, `Save` writes only when
    the stored version is still that one, and `UpdateStatus` writes without looking. */
module OptimisticLock {
  import opened BookingStore

  type Session = nat

  /** The stored row, the copy each open session has read, and the rows left by the writes so far. */
  datatype State = State(row: Booking, copies: map<Session, Booking>, history: seq<Booking>)

  datatype Step =
    | Find(session: Session)
    /** Saves the session's copy after the changes that are the session's own. */
    | SaveCopy(session: Session, start: Instant, end: Instant, status: Status, title: string)
    | SetStatus(status: Status)

  function Changed(b: Booking, start: Instant, end: Instant, status: Status, title: string): Booking {
    b.(start := start, end := end, status := status, title := title)
  }

  /** The row is the only row of its resource, so the EXCLUDE constraint never fires. */
  function Apply(s: State, id: Id, step: Step): State {
    match step
    case Find(session) => s.(copies := s.copies[session := s.row])
    case SaveCopy(session, start, end, status, title) =>
      if session !in s.copies then s
      else
        (match Save(map[id := s.row], id, Changed(s.copies[session], start, end, status, title))
         case Saved(rows) => if id in rows then State(rows[id], s.copies - {session}, s.history + [rows[id]]) else s
         case _ => s.(copies := s.copies - {session}))
    case SetStatus(status) => s.(row := s.row.(status := status))
  }

  function Run(s: State, id: Id, steps: seq<Step>): State
    decreases |steps|
  {
    if steps == [] then s else Run(Apply(s, id, steps[0]), id, steps[1..])
  }

  predicate Succeeds(s: State, id: Id, step: Step) {
    step.SaveCopy? && step.session in s.copies
      && Save(map[id := s.row], id, Changed(s.copies[step.session], step.start, step.end, step.status, step.title)).Saved?
  }

  /** Equal but for the status, the one field written without a version. */
  predicate SameButStatus(x: Booking, y: Booking) {
    x.(status := y.status) == y
  }

  /** The k-th write left version k + 1; the row is the last write and every copy is some write, each up
      to the status. */
  predicate Inv(s: State) {
    && |s.history| > 0
    && (forall k | 0 <= k < |s.history| :: s.history[k].version == k + 1)
    && SameButStatus(s.history[|s.history| - 1], s.row)
    && (forall c | c in s.copies ::
          && 1 <= s.copies[c].version <= |s.history|
          && SameButStatus(s.history[s.copies[c].version - 1], s.copies[c]))
  }

  /** The same with nothing written behind the version's back. */
  predicate Strict(s: State) {
    && Inv(s)
    && s.row == s.history[|s.history| - 1]
    && (forall c | c in s.copies :: s.copies[c] == s.history[s.copies[c].version - 1])
  }

  lemma StepKeeps(s: State, id: Id, step: Step)
    requires Inv(s)
    ensures Inv(Apply(s, id, step))
  {
  }

  lemma {:induction false} RunKeeps(s: State, id: Id, steps: seq<Step>)
    requires Inv(s)
    ensures Inv(Run(s, id, steps))
    decreases |steps|
  {
    if steps != [] {
      StepKeeps(s, id, steps[0]);
      RunKeeps(Apply(s, id, steps[0]), id, steps[1..]);
    }
  }

  predicate NoSetStatus(steps: seq<Step>) {
    forall k | 0 <= k < |steps| :: !steps[k].SetStatus?
  }

  lemma StepKeepsStrict(s: State, id: Id, step: Step)
    requires Strict(s) && !step.SetStatus?
    ensures Strict(Apply(s, id, step))
  {
    StepKeeps(s, id, step);
  }

  lemma {:induction false} RunKeepsStrict(s: State, id: Id, steps: seq<Step>)
    requires Strict(s) && NoSetStatus(steps)
    ensures Strict(Run(s, id, steps))
    decreases |steps|
  {
    hide Strict, Apply;
    if steps != [] {
      StepKeepsStrict(s, id, steps[0]);
      RunKeepsStrict(Apply(s, id, steps[0]), id, steps[1..]);
    }
  }

  /** A freshly inserted row that nobody has read. */
  predicate Fresh(s: State) {
    s.row.version == 1 && s.copies == map[] && s.history == [s.row]
  }

  /** In every interleaving of sessions a successful save was computed from the row the previous
      successful write left, and the version counts the writes: no update is lost. */
  lemma NoUpdateIsLost(s0: State, id: Id, before: seq<Step>, save: Step)
    requires Fresh(s0) && NoSetStatus(before) && Succeeds(Run(s0, id, before), id, save)
    ensures
      var s := Run(s0, id, before);
      var s' := Apply(s, id, save);
      && s.history != [] && s.row == s.history[|s.history| - 1]
      && s.copies[save.session] == s.row
      && s'.row == Changed(s.row, save.start, save.end, save.status, save.title).(version := s.row.version + 1)
      && s'.history == s.history + [s'.row]
      && s'.row.version == |s'.history|
  {
    RunKeepsStrict(s0, id, before);
  }

  /** With status writes in the mix a successful save still starts from the current row up to the
      status: it starts from the very row exactly when the copy's status is still the current one. */
  lemma SaveIgnoresOnlyTheStatus(s0: State, id: Id, before: seq<Step>, save: Step)
    requires Fresh(s0) && Succeeds(Run(s0, id, before), id, save)
    ensures
      var s := Run(s0, id, before);
      && SameButStatus(s.copies[save.session], s.row)
      && (s.copies[save.session] == s.row <==> s.copies[save.session].status == s.row.status)
      && Apply(s, id, save).row.version == |s.history| + 1
  {
    RunKeeps(s0, id, before);
    var s := Run(s0, id, before);
    var copy := s.copies[save.session];
    assert copy.version == s.row.version == |s.history|;
  }

  /** A cancellation between the read and the save is undone by the save. */
  lemma CancellationCanBeLost(id: Id, row: Booking)
    requires row.version == 1 && row.status == Confirmed && row.mode == Shared && row.start <= row.end
    ensures
      var s0 := State(row, map[], [row]);
      var s := Run(s0, id, [Find(0), SetStatus(Cancelled)]);
      var save := SaveCopy(0, row.start, row.end, Confirmed, row.title);
      Fresh(s0) && s.row.status == Cancelled && Succeeds(s, id, save) && Apply(s, id, save).row.status == Confirmed
  {
    var s0 := State(row, map[], [row]);
    var steps := [Find(0), SetStatus(Cancelled)];
    assert steps[1..] == [SetStatus(Cancelled)];
    assert Run(Apply(s0, id, steps[0]), id, steps[1..]) == Apply(Apply(s0, id, steps[0]), id, SetStatus(Cancelled));
  }

  /** A save straight after its read writes the four fields and counts the version up; a save from a copy of another version
      writes nothing. */
  lemma SaveInFull(s: State, id: Id, c: Session, start: Instant, end: Instant, status: Status, title: string)
    ensures start <= end ==>
      var row := Booking(s.row.resource, start, end, status, s.row.checkedIn, s.row.mode, title, s.row.version + 1);
      Apply(Apply(s, id, Find(c)), id, SaveCopy(c, start, end, status, title)) == State(row, s.copies - {c}, s.history + [row])
    ensures c in s.copies && s.copies[c].version != s.row.version ==>
      Apply(s, id, SaveCopy(c, start, end, status, title)) == State(s.row, s.copies - {c}, s.history)
  {
    assert s.copies[c := s.row] - {c} == s.copies - {c};
  }
}
