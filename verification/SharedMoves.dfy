/** When an uninterrupted create or reschedule on a shared resource goes through, with the rows that stand in its way
    written out. */
module SharedMoves {
  import opened Wrappers
  import opened BookingStore
  import opened SharedCapacity

  /** The other bookings of the resource that hold a place at some instant of the window. */
  function Others(rows: Table, r: Id, id: Id, start: Instant, end: Instant): set<Id> {
    set i | i in rows && i != id && rows[i].resource == r
      && (rows[i].status == Confirmed || rows[i].status == PendingApproval || rows[i].status == CheckedIn)
      && rows[i].start < end && start < rows[i].end
  }

  lemma OthersAre(rows: Table, r: Id, id: Id, start: Instant, end: Instant)
    ensures Concurrent(rows, r, start, end, Some(id)) == Others(rows, r, id, start, end)
    ensures id !in rows ==> Concurrent(rows, r, start, end, None) == Others(rows, r, id, start, end)
  {
  }

  function MoveSteps(tx: Tx, id: Id, start: Instant, end: Instant, approval: bool): seq<Step> {
    [BeginMove(tx, id, start, end, approval), TakeLock(tx)] + [CountRows(tx)]
  }

  function Ending(tx: Tx): seq<Step> { [WriteRow(tx), Commit(tx)] }

  /** Nobody else holds a lock the transaction needs. */
  ghost predicate Undisturbed(s: State, tx: Tx, id: Id) {
    s.lock == None && tx !in s.txs && RowFree(s, id)
  }

  function Moved(b: Booking, start: Instant, end: Instant, approval: bool): Booking {
    Booking(b.resource, start, end, if approval && b.status == Confirmed then PendingApproval else b.status,
            b.checkedIn, b.mode, b.title, b.version + 1)
  }

  /** The booking can be moved at all: it is neither cancelled nor expired, its window is proper, and as a booking of a
      shared resource it is not under the EXCLUDE constraint. */
  predicate Movable(s: State, r: Id, id: Id, start: Instant, end: Instant) {
    && id in s.rows && s.rows[id].resource == r && s.rows[id].mode == Shared && start < end
    && s.rows[id].status != Cancelled && s.rows[id].status != NoShow
  }

  lemma Counted(s: State, r: Id, cap: int, tx: Tx, i: Intent, steps: seq<Step>)
    requires s.lock == None && tx !in s.txs && |steps| == 3 && steps[1] == TakeLock(tx) && steps[2] == CountRows(tx)
    requires Apply(s, r, cap, steps[0]) == Some(s.(txs := s.txs[tx := Ready(i)]))
    ensures Run(s, r, cap, steps) == Some(
      if |Concurrent(s.rows, r, i.row.start, i.row.end, if i.Move? then Some(i.id) else None)| >= cap then s
      else State(s.rows, Some(tx), s.txs[tx := Admitted(i)]))
  {
    hide Run;
    var s1, s2 := s.(txs := s.txs[tx := Ready(i)]), State(s.rows, Some(tx), s.txs[tx := Locked(i)]);
    assert s.txs[tx := Ready(i)][tx := Locked(i)] == s.txs[tx := Locked(i)];
    assert Apply(s1, r, cap, TakeLock(tx)) == Some(s2);
    assert s.txs[tx := Locked(i)][tx := Admitted(i)] == s.txs[tx := Admitted(i)];
    assert s.txs[tx := Locked(i)] - {tx} == s.txs;
    TwoSteps(s, r, cap, steps[0], steps[1]);
    OneStep(s2, r, cap, steps[2]);
    RunAppend(s, r, cap, [steps[0], steps[1]], [steps[2]]);
    assert steps == [steps[0], steps[1]] + [steps[2]];
  }

  /** A transaction that has counted writes its row and commits it. */
  lemma Committed(s: State, r: Id, cap: int, tx: Tx, i: Intent)
    requires s.lock == None && tx !in s.txs && RowFree(s, i.id)
    requires i.NewBooking? ==> i.id !in s.rows
    requires i.Move? ==> i.id in s.rows && Save(s.rows, i.id, i.row).Saved?
    ensures Run(State(s.rows, Some(tx), s.txs[tx := Admitted(i)]), r, cap, Ending(tx))
      == Some(s.(rows := s.rows[i.id := RowToWrite(s.rows, i.id, i.row)]))
  {
    hide Run, RowToWrite, Excluded;
    var row := RowToWrite(s.rows, i.id, i.row);
    var s1, s2 := State(s.rows, Some(tx), s.txs[tx := Admitted(i)]), State(s.rows, Some(tx), s.txs[tx := Written(i.id, row)]);
    assert s.txs[tx := Admitted(i)][tx := Written(i.id, row)] == s.txs[tx := Written(i.id, row)];
    assert RowFree(s1, i.id);
    assert Apply(s1, r, cap, WriteRow(tx)) == Some(s2);
    assert s.txs[tx := Written(i.id, row)] - {tx} == s.txs;
    TwoSteps(s1, r, cap, WriteRow(tx), Commit(tx));
  }

  /** Without its entry a transaction can do nothing more. */
  lemma Ended(s: State, r: Id, cap: int, tx: Tx)
    requires tx !in s.txs
    ensures Run(s, r, cap, Ending(tx)) == None
  {
  }

  /** An uninterrupted reschedule commits exactly its moved row, one version on, if fewer than `cap` other bookings are in
      the way, and otherwise changes nothing: once it has counted it is over, and cannot commit. */
  lemma MoveGoesThroughIff(s: State, r: Id, cap: int, tx: Tx, id: Id, start: Instant, end: Instant, approval: bool)
    requires Undisturbed(s, tx, id) && Movable(s, r, id, start, end)
    ensures Run(s, r, cap, MoveSteps(tx, id, start, end, approval) + Ending(tx))
      == if |Others(s.rows, r, id, start, end)| < cap then Some(s.(rows := s.rows[id := Moved(s.rows[id], start, end, approval)])) else None
    ensures |Others(s.rows, r, id, start, end)| >= cap ==> Run(s, r, cap, MoveSteps(tx, id, start, end, approval)) == Some(s)
  {
    hide Run;
    var b := s.rows[id];
    var status := if approval && b.status == Confirmed then PendingApproval else b.status;
    var i := Move(id, b, b.(start := start, end := end, status := status));
    OthersAre(s.rows, r, id, start, end);
    Counted(s, r, cap, tx, i, MoveSteps(tx, id, start, end, approval));
    RunAppend(s, r, cap, MoveSteps(tx, id, start, end, approval), Ending(tx));
    if |Others(s.rows, r, id, start, end)| < cap {
      assert Save(s.rows, id, i.row).Saved?;
      Committed(s, r, cap, tx, i);
    } else {
      Ended(s, r, cap, tx);
    }
  }

  function FirstSteps(tx: Tx, id: Id, start: Instant, end: Instant, status: Status): seq<Step> {
    [BeginCreate(tx, id, start, end, status), TakeLock(tx)] + [CountRows(tx)]
  }

  /** An uninterrupted create likewise. */
  lemma CreateGoesThroughIff(s: State, r: Id, cap: int, tx: Tx, id: Id, start: Instant, end: Instant, status: Status)
    requires Undisturbed(s, tx, id) && id !in s.rows && start < end && (status == Confirmed || status == PendingApproval)
    ensures Run(s, r, cap, FirstSteps(tx, id, start, end, status) + Ending(tx))
      == if |Others(s.rows, r, id, start, end)| < cap then Some(s.(rows := s.rows[id := Booking(r, start, end, status, false, Shared, "", 1)])) else None
    ensures |Others(s.rows, r, id, start, end)| >= cap ==> Run(s, r, cap, FirstSteps(tx, id, start, end, status)) == Some(s)
  {
    hide Run;
    var i := NewBooking(id, Booking(r, start, end, status, false, Shared, "", 1));
    OthersAre(s.rows, r, id, start, end);
    Counted(s, r, cap, tx, i, FirstSteps(tx, id, start, end, status));
    RunAppend(s, r, cap, FirstSteps(tx, id, start, end, status), Ending(tx));
    if |Others(s.rows, r, id, start, end)| < cap {
      Committed(s, r, cap, tx, i);
    } else {
      Ended(s, r, cap, tx);
    }
  }

  /** One place and one booking: it can be moved onto a window that meets its own. */
  lemma AloneCanMove()
    ensures Run(State(map["a" := Place(Confirmed)], None, map[]), "gym", 1, MoveSteps(1, "a", 5, 15, false) + Ending(1))
      == Some(State(map["a" := Booking("gym", 5, 15, Confirmed, false, Shared, "", 2)], None, map[]))
  {
    hide Run;
    var s := State(map["a" := Place(Confirmed)], None, map[]);
    assert Others(s.rows, "gym", "a", 5, 15) == {};
    MoveGoesThroughIff(s, "gym", 1, 1, "a", 5, 15, false);
    assert s.rows["a" := Moved(s.rows["a"], 5, 15, false)] == map["a" := Booking("gym", 5, 15, Confirmed, false, Shared, "", 2)];
  }

  /** Without other writers a cancel ends in a cancelled booking, an approval of a pending one in a confirmed booking, and a new
      title is saved one version on. */
  lemma OtherWritesGoThrough(s: State, r: Id, cap: int, tx: Tx, id: Id, title: string)
    requires Undisturbed(s, tx, id) && id in s.rows
    ensures Run(s, r, cap, [BeginCancel(tx, id), Commit(tx)]) == Some(s.(rows := s.rows[id := s.rows[id].(status := Cancelled)]))
    ensures s.rows[id].status == PendingApproval ==>
      Run(s, r, cap, [BeginApprove(tx, id), WriteApproval(tx)] + [Commit(tx)]) == Some(s.(rows := s.rows[id := s.rows[id].(status := Confirmed)]))
    ensures s.rows[id].status != Cancelled && s.rows[id].status != NoShow && s.rows[id].mode == Shared && s.rows[id].start <= s.rows[id].end ==>
      Run(s, r, cap, [BeginEdit(tx, id), WriteEdit(tx, title)] + [Commit(tx)])
      == Some(s.(rows := s.rows[id := s.rows[id].(title := title, version := s.rows[id].version + 1)]))
  {
    hide Run;
    CancelGoesThrough(s, r, cap, tx, id);
    if s.rows[id].status == PendingApproval { ApprovalGoesThrough(s, r, cap, tx, id); }
    if s.rows[id].status != Cancelled && s.rows[id].status != NoShow && s.rows[id].mode == Shared && s.rows[id].start <= s.rows[id].end {
      EditGoesThrough(s, r, cap, tx, id, title);
    }
  }

  lemma CancelGoesThrough(s: State, r: Id, cap: int, tx: Tx, id: Id)
    requires Undisturbed(s, tx, id) && id in s.rows
    ensures Run(s, r, cap, [BeginCancel(tx, id), Commit(tx)]) == Some(s.(rows := s.rows[id := s.rows[id].(status := Cancelled)]))
  {
    hide Run;
    var s1 := s.(txs := s.txs[tx := Cancelling(id)]);
    assert Apply(s, r, cap, BeginCancel(tx, id)) == Some(s1);
    assert s1.txs - {tx} == s.txs;
    TwoSteps(s, r, cap, BeginCancel(tx, id), Commit(tx));
  }

  lemma ThreeSteps(s: State, r: Id, cap: int, x: Step, y: Step, z: Step, s1: State, s2: State)
    requires Apply(s, r, cap, x) == Some(s1) && Apply(s1, r, cap, y) == Some(s2)
    ensures Run(s, r, cap, [x, y] + [z]) == Apply(s2, r, cap, z)
  {
    hide Run, Apply;
    TwoSteps(s, r, cap, x, y);
    RunAppend(s, r, cap, [x, y], [z]);
    OneStep(s2, r, cap, z);
  }

  lemma ApprovalGoesThrough(s: State, r: Id, cap: int, tx: Tx, id: Id)
    requires Undisturbed(s, tx, id) && id in s.rows && s.rows[id].status == PendingApproval
    ensures Run(s, r, cap, [BeginApprove(tx, id), WriteApproval(tx)] + [Commit(tx)])
      == Some(s.(rows := s.rows[id := s.rows[id].(status := Confirmed)]))
  {
    hide Run;
    var s1, s2 := s.(txs := s.txs[tx := Approving(id)]), s.(txs := s.txs[tx := Approved(id)]);
    assert s.txs[tx := Approving(id)][tx := Approved(id)] == s.txs[tx := Approved(id)];
    assert RowFree(s1, id);
    assert s2.txs - {tx} == s.txs;
    ThreeSteps(s, r, cap, BeginApprove(tx, id), WriteApproval(tx), Commit(tx), s1, s2);
  }

  lemma EditGoesThrough(s: State, r: Id, cap: int, tx: Tx, id: Id, title: string)
    requires Undisturbed(s, tx, id) && id in s.rows && s.rows[id].status != Cancelled && s.rows[id].status != NoShow
    requires s.rows[id].mode == Shared && s.rows[id].start <= s.rows[id].end
    ensures Run(s, r, cap, [BeginEdit(tx, id), WriteEdit(tx, title)] + [Commit(tx)])
      == Some(s.(rows := s.rows[id := s.rows[id].(title := title, version := s.rows[id].version + 1)]))
  {
    hide Run;
    var b := s.rows[id];
    var row := b.(title := title, version := b.version + 1);
    var s1, s2 := s.(txs := s.txs[tx := Editing(id, b)]), s.(txs := s.txs[tx := Edited(id, row)]);
    assert s.txs[tx := Editing(id, b)][tx := Edited(id, row)] == s.txs[tx := Edited(id, row)];
    assert RowFree(s1, id);
    assert RowToWrite(s.rows, id, b.(title := title)) == row;
    assert s2.txs - {tx} == s.txs;
    ThreeSteps(s, r, cap, BeginEdit(tx, id), WriteEdit(tx, title), Commit(tx), s1, s2);
  }

  /** What the capacity bound says, told in statuses and instants. */
  lemma CapacityInFull(r: Id, cap: nat, steps: seq<Step>, t: Instant)
    requires NoEditSteps(steps) && Run(IDLE, r, cap, steps).Some?
    ensures var rows := Run(IDLE, r, cap, steps).value.rows;
      |set i | i in rows && rows[i].resource == r && rows[i].start <= t < rows[i].end
         && (rows[i].status == Confirmed || rows[i].status == PendingApproval || rows[i].status == CheckedIn)| <= cap
  {
    hide Run;
    CapacityHoldsInEveryInterleaving(r, cap, steps);
    var rows := Run(IDLE, r, cap, steps).value.rows;
    assert |Holding(rows, r, t)| <= cap;
    assert Holding(rows, r, t) == set i | i in rows && rows[i].resource == r && rows[i].start <= t < rows[i].end
         && (rows[i].status == Confirmed || rows[i].status == PendingApproval || rows[i].status == CheckedIn);
  }
}
