/** Concurrent transactions on one shared resource of fixed capacity: creates and time-changing
    reschedules take the resource row's FOR UPDATE lock, count, write and commit; cancels, title edits
    and approvals do not take it. Isolation is READ COMMITTED, with a row lock on every uncommitted write. */
module SharedCapacity {
  import opened Wrappers
  import opened BookingStore

  type Tx = nat

  /** What a transaction is about to write: a new booking, or a booking it read earlier. */
  datatype Intent =
    | NewBooking(id: Id, row: Booking)
    | Move(id: Id, read: Booking, row: Booking)

  datatype Phase =
    | Ready(intent: Intent)              // before LockResourceForUpdate
    | Locked(intent: Intent)             // holds the resource lock
    | Admitted(intent: Intent)           // counted, below capacity
    | Written(id: Id, row: Booking)      // holds the resource lock and the row lock
    | Cancelling(id: Id)                 // UpdateStatus issued, holds the row lock
    | Editing(id: Id, read: Booking)     // title-only update that has read the row
    | Edited(id: Id, row: Booking)       // title-only update, written, holds the row lock
    | Approving(id: Id)                  // has read a pending booking
    | Approved(id: Id)                   // UpdateStatus issued, holds the row lock

  datatype State = State(rows: Table, lock: Option<Tx>, txs: map<Tx, Phase>)

  datatype Step =
    | BeginCreate(tx: Tx, id: Id, start: Instant, end: Instant, status: Status)
    | BeginMove(tx: Tx, id: Id, start: Instant, end: Instant, requiresApproval: bool)
    | TakeLock(tx: Tx)
    | CountRows(tx: Tx)
    | WriteRow(tx: Tx)
    | Commit(tx: Tx)
    | BeginCancel(tx: Tx, id: Id)
    | BeginEdit(tx: Tx, id: Id)
    | WriteEdit(tx: Tx, title: string)
    | BeginApprove(tx: Tx, id: Id)
    | WriteApproval(tx: Tx)
    | Abort(tx: Tx)

  /** The row an uncommitted transaction has locked by writing it. */
  function RowHeld(p: Phase): Option<Id> {
    match p
    case Written(id, _) => Some(id)
    case Cancelling(id) => Some(id)
    case Edited(id, _) => Some(id)
    case Approved(id) => Some(id)
    case _ => None
  }

  ghost predicate RowFree(s: State, id: Id) {
    forall t | t in s.txs :: RowHeld(s.txs[t]) != Some(id)
  }

  function Finish(s: State, tx: Tx): State {
    State(s.rows, if s.lock == Some(tx) then None else s.lock, s.txs - {tx})
  }

  /** One step of one transaction on resource `r`; `None` when the step is not enabled. */
  ghost function Apply(s: State, r: Id, cap: int, step: Step): Option<State> {
    match step
    case BeginCreate(tx, id, start, end, status) =>
      if tx in s.txs || end <= start || (status != Confirmed && status != PendingApproval) then None
      else Some(s.(txs := s.txs[tx := Ready(NewBooking(id, Booking(r, start, end, status, false, Shared, "", 1)))]))
    case BeginMove(tx, id, start, end, approval) =>
      if tx in s.txs || id !in s.rows || end <= start || s.rows[id].status == Cancelled || s.rows[id].status == NoShow then None
      else
        var b := s.rows[id];
        var status := if approval && b.status == Confirmed then PendingApproval else b.status;
        Some(s.(txs := s.txs[tx := Ready(Move(id, b, b.(start := start, end := end, status := status)))]))
    case TakeLock(tx) =>
      if tx !in s.txs || !s.txs[tx].Ready? || s.lock != None then None
      else Some(s.(lock := Some(tx), txs := s.txs[tx := Locked(s.txs[tx].intent)]))
    case CountRows(tx) =>
      if tx !in s.txs || !s.txs[tx].Locked? then None
      else
        var i := s.txs[tx].intent;
        var exclude := if i.Move? then Some(i.id) else None;
        if |Concurrent(s.rows, r, i.row.start, i.row.end, exclude)| >= cap then Some(Finish(s, tx))
        else Some(s.(txs := s.txs[tx := Admitted(i)]))
    case WriteRow(tx) =>
      if tx !in s.txs || !s.txs[tx].Admitted? || !RowFree(s, s.txs[tx].intent.id) then None
      else
        var i := s.txs[tx].intent;
        if i.NewBooking? then
          // a new UUID is in no committed row
          if i.id in s.rows then None else Some(s.(txs := s.txs[tx := Written(i.id, RowToWrite(s.rows, i.id, i.row))]))
        else
          (match Save(s.rows, i.id, i.row)
           case Saved(_) => Some(s.(txs := s.txs[tx := Written(i.id, RowToWrite(s.rows, i.id, i.row))]))
           case _ => Some(Finish(s, tx)))
    case Commit(tx) =>
      if tx !in s.txs then None
      else
        (match s.txs[tx]
         case Written(id, row) => Some(Finish(s, tx).(rows := s.rows[id := row]))
         case Cancelling(id) =>
           Some(Finish(s, tx).(rows := if id in s.rows then s.rows[id := s.rows[id].(status := Cancelled)] else s.rows))
         case Edited(id, row) => Some(Finish(s, tx).(rows := s.rows[id := row]))
         case Approved(id) =>
           Some(Finish(s, tx).(rows := if id in s.rows then s.rows[id := s.rows[id].(status := Confirmed)] else s.rows))
         case _ => None)
    case BeginCancel(tx, id) =>
      if tx in s.txs || !RowFree(s, id) then None else Some(s.(txs := s.txs[tx := Cancelling(id)]))
    case BeginEdit(tx, id) =>
      if tx in s.txs || id !in s.rows || s.rows[id].status == Cancelled || s.rows[id].status == NoShow then None
      else Some(s.(txs := s.txs[tx := Editing(id, s.rows[id])]))
    case WriteEdit(tx, title) =>
      if tx !in s.txs || !s.txs[tx].Editing? || !RowFree(s, s.txs[tx].id) then None
      else
        var id, b := s.txs[tx].id, s.txs[tx].read.(title := title);
        (match Save(s.rows, id, b)
         case Saved(_) => Some(s.(txs := s.txs[tx := Edited(id, RowToWrite(s.rows, id, b))]))
         case _ => Some(Finish(s, tx)))
    case BeginApprove(tx, id) =>
      if tx in s.txs || id !in s.rows || s.rows[id].status != PendingApproval then None
      else Some(s.(txs := s.txs[tx := Approving(id)]))
    case WriteApproval(tx) =>
      if tx !in s.txs || !s.txs[tx].Approving? || !RowFree(s, s.txs[tx].id) then None
      else Some(s.(txs := s.txs[tx := Approved(s.txs[tx].id)]))
    case Abort(tx) =>
      if tx in s.txs then Some(Finish(s, tx)) else None
  }

  ghost function Run(s: State, r: Id, cap: int, steps: seq<Step>): Option<State>
    decreases |steps|
  {
    if steps == [] then Some(s)
    else
      match Apply(s, r, cap, steps[0])
      case None => None
      case Some(s') => Run(s', r, cap, steps[1..])
  }

  /** The active committed bookings of `r` that hold instant `t`. */
  function Holding(rows: Table, r: Id, t: Instant): set<Id> {
    set i | i in rows && rows[i].resource == r && Active(rows[i]) && rows[i].start <= t < rows[i].end
  }

  ghost predicate WithinCapacity(rows: Table, r: Id, cap: int) {
    forall t: Instant :: |Holding(rows, r, t)| <= cap
  }

  // ---- The invariant ----

  /** A set of ids below capacity stays below capacity when the table only loses active rows. */
  lemma SubsetCard(a: set<Id>, b: set<Id>)
    requires a <= b
    ensures |a| <= |b|
  {
    assert b == a + (b - a);
  }

  /** Room for `row` under key `id` whatever the row now stored there. */
  ghost predicate HasRoom(rows: Table, r: Id, cap: int, id: Id, row: Booking) {
    |Concurrent(rows, r, row.start, row.end, Some(id))| < cap
  }

  predicate SamePlace(x: Booking, y: Booking) {
    x.resource == y.resource && x.start == y.start && x.end == y.end
  }

  /** What the invariant says of one transaction: from the lock on it owns the resource row, and from
      the count on there is room for what it will write. */
  ghost predicate PhaseOk(rows: Table, lock: Option<Tx>, r: Id, cap: int, t: Tx, p: Phase) {
    match p
    case Ready(i) => i.row.resource == r
    case Locked(i) => lock == Some(t) && i.row.resource == r
    case Admitted(i) => lock == Some(t) && i.row.resource == r && HasRoom(rows, r, cap, i.id, i.row)
    case Written(id, row) =>
      && lock == Some(t) && row.resource == r && HasRoom(rows, r, cap, id, row)
      && (id in rows ==> row.version > rows[id].version)
    case Editing(id, read) =>
      && id in rows && read.version <= rows[id].version
      && (read.version == rows[id].version ==> SamePlace(read, rows[id]))
    case Edited(id, row) => id in rows && SamePlace(row, rows[id]) && row.version > rows[id].version
    case Cancelling(_) => true
    case Approving(_) => true
    case Approved(_) => true
  }

  /** A row lock has one holder. */
  ghost predicate RowLocksExclusive(s: State) {
    forall t, u | t in s.txs && u in s.txs && t != u && RowHeld(s.txs[t]) != None :: RowHeld(s.txs[t]) != RowHeld(s.txs[u])
  }

  ghost predicate Inv(s: State, r: Id, cap: int) {
    && WithinCapacity(s.rows, r, cap)
    && (forall t | t in s.txs :: PhaseOk(s.rows, s.lock, r, cap, t, s.txs[t]))
    && (forall i | i in s.rows :: s.rows[i].resource == r)
    && RowLocksExclusive(s)
  }

  /** The row an edit or an approval commits, if it is one. */
  function PutBack(s: State, tx: Tx): Option<Booking> {
    if tx !in s.txs then None
    else
      match s.txs[tx]
      case Edited(_, row) => Some(row)
      case Approved(id) => if id in s.rows then Some(s.rows[id].(status := Confirmed)) else None
      case _ => None
  }

  /** Every instant of the row's window has a place left. */
  ghost predicate FreeThroughout(rows: Table, r: Id, cap: int, row: Booking) {
    forall t: Instant | row.start <= t < row.end :: |Holding(rows, r, t)| < cap
  }

  /** Whoever has counted still has room once the row is there. */
  ghost predicate LeavesClaims(s: State, r: Id, cap: int, tx: Tx, id: Id, row: Booking) {
    forall t | t in s.txs && t != tx ::
      match s.txs[t]
      case Admitted(i) => HasRoom(s.rows[id := row], r, cap, i.id, i.row)
      case Written(other, w) => HasRoom(s.rows[id := row], r, cap, other, w)
      case _ => true
  }

  /** The step does not let an edit or an approval put back a booking freed after it was read, unless there is room for
      it and it takes nobody's. */
  ghost predicate SafeStep(s: State, r: Id, cap: int, step: Step) {
    step.Commit? && PutBack(s, step.tx).Some? && Active(PutBack(s, step.tx).value) ==>
      var id, row := s.txs[step.tx].id, PutBack(s, step.tx).value;
      id in s.rows && (Active(s.rows[id]) || (FreeThroughout(s.rows, r, cap, row) && LeavesClaims(s, r, cap, step.tx, id, row)))
  }

  /** Committing a row that has room keeps every instant within capacity. */
  lemma CommitKeepsCapacity(rows: Table, r: Id, cap: int, id: Id, row: Booking)
    requires WithinCapacity(rows, r, cap) && HasRoom(rows, r, cap, id, row)
    ensures WithinCapacity(rows[id := row], r, cap)
  {
    var rows' := rows[id := row];
    forall t: Instant ensures |Holding(rows', r, t)| <= cap {
      if id in Holding(rows', r, t) {
        var others := Concurrent(rows, r, row.start, row.end, Some(id));
        SubsetCard(Holding(rows', r, t) - {id}, others);
      } else {
        SubsetCard(Holding(rows', r, t), Holding(rows, r, t));
      }
    }
  }

  /** Losing an active row, or changing nothing, keeps capacity and every other transaction's room. */
  lemma ShrinkKeeps(rows: Table, to: Table, r: Id, cap: int)
    requires WithinCapacity(rows, r, cap)
    requires forall i | i in to && Active(to[i]) :: i in rows && Active(rows[i]) && SamePlace(rows[i], to[i])
    ensures WithinCapacity(to, r, cap)
    ensures forall id, row {:trigger HasRoom(to, r, cap, id, row)} :: HasRoom(rows, r, cap, id, row) ==> HasRoom(to, r, cap, id, row)
  {
    forall t: Instant ensures |Holding(to, r, t)| <= cap {
      SubsetCard(Holding(to, r, t), Holding(rows, r, t));
    }
    forall id, row | HasRoom(rows, r, cap, id, row) ensures HasRoom(to, r, cap, id, row) {
      SubsetCard(Concurrent(to, r, row.start, row.end, Some(id)), Concurrent(rows, r, row.start, row.end, Some(id)));
    }
  }

  /** Ending a transaction, or moving it to a phase that is fine, leaves the others as they were. */
  lemma PhaseChangeKeeps(s: State, r: Id, cap: int, tx: Tx, p: Phase)
    requires Inv(s, r, cap) && PhaseOk(s.rows, s.lock, r, cap, tx, p)
    requires RowHeld(p) != None ==> RowFree(s, RowHeld(p).value)
    ensures Inv(s.(txs := s.txs[tx := p]), r, cap)
  {
  }

  lemma FinishKeeps(s: State, r: Id, cap: int, tx: Tx)
    requires Inv(s, r, cap)
    ensures Inv(Finish(s, tx), r, cap)
  {
    var s' := Finish(s, tx);
    forall t | t in s'.txs ensures PhaseOk(s'.rows, s'.lock, r, cap, t, s'.txs[t]) {
      assert PhaseOk(s.rows, s.lock, r, cap, t, s.txs[t]);
    }
  }

  lemma LockKeeps(s: State, r: Id, cap: int, tx: Tx)
    requires Inv(s, r, cap) && tx in s.txs && s.txs[tx].Ready? && s.lock == None
    ensures Inv(Apply(s, r, cap, TakeLock(tx)).value, r, cap)
  {
    var s' := Apply(s, r, cap, TakeLock(tx)).value;
    forall t | t in s'.txs ensures PhaseOk(s'.rows, s'.lock, r, cap, t, s'.txs[t]) {
      assert PhaseOk(s.rows, s.lock, r, cap, t, s.txs[t]);
    }
  }

  lemma CountKeeps(s: State, r: Id, cap: int, tx: Tx)
    requires Inv(s, r, cap) && tx in s.txs && s.txs[tx].Locked?
    ensures Inv(Apply(s, r, cap, CountRows(tx)).value, r, cap)
  {
    var i := s.txs[tx].intent;
    assert PhaseOk(s.rows, s.lock, r, cap, tx, s.txs[tx]);
    var exclude := if i.Move? then Some(i.id) else None;
    SubsetCard(Concurrent(s.rows, r, i.row.start, i.row.end, Some(i.id)), Concurrent(s.rows, r, i.row.start, i.row.end, exclude));
    FinishKeeps(s, r, cap, tx);
    if HasRoom(s.rows, r, cap, i.id, i.row) { PhaseChangeKeeps(s, r, cap, tx, Admitted(i)); }
  }

  lemma WriteKeeps(s: State, r: Id, cap: int, tx: Tx)
    requires Inv(s, r, cap) && Apply(s, r, cap, WriteRow(tx)).Some?
    ensures Inv(Apply(s, r, cap, WriteRow(tx)).value, r, cap)
  {
    var i := s.txs[tx].intent;
    assert PhaseOk(s.rows, s.lock, r, cap, tx, s.txs[tx]);
    var row := RowToWrite(s.rows, i.id, i.row);
    assert row.start == i.row.start && row.end == i.row.end && row.resource == r;
    FinishKeeps(s, r, cap, tx);
    PhaseChangeKeeps(s, r, cap, tx, Written(i.id, row));
  }

  /** A commit that adds no active row keeps capacity and everybody's room. */
  lemma ShrinkingCommitKeeps(s: State, r: Id, cap: int, tx: Tx, id: Id, row: Booking)
    requires Inv(s, r, cap) && tx in s.txs && RowHeld(s.txs[tx]) == Some(id)
    requires id in s.rows && SamePlace(row, s.rows[id]) && row.version >= s.rows[id].version
    requires Active(row) ==> Active(s.rows[id])
    ensures Inv(Finish(s, tx).(rows := s.rows[id := row]), r, cap)
  {
    var s' := Finish(s, tx).(rows := s.rows[id := row]);
    ShrinkKeeps(s.rows, s'.rows, r, cap);
    FinishKeeps(s, r, cap, tx);
    forall t | t in s'.txs ensures PhaseOk(s'.rows, s'.lock, r, cap, t, s'.txs[t]) {
      assert PhaseOk(s.rows, s'.lock, r, cap, t, s'.txs[t]);
      assert RowHeld(s.txs[tx]) != RowHeld(s.txs[t]);
    }
  }

  /** Only the holder of the resource lock can add an active row. */
  lemma LockedCommitKeeps(s: State, r: Id, cap: int, tx: Tx, id: Id, row: Booking)
    requires Inv(s, r, cap) && tx in s.txs && s.txs[tx] == Written(id, row)
    ensures Inv(Finish(s, tx).(rows := s.rows[id := row]), r, cap)
  {
    var s' := Finish(s, tx).(rows := s.rows[id := row]);
    assert PhaseOk(s.rows, s.lock, r, cap, tx, s.txs[tx]);
    CommitKeepsCapacity(s.rows, r, cap, id, row);
    forall t | t in s'.txs ensures PhaseOk(s'.rows, s'.lock, r, cap, t, s'.txs[t]) {
      assert PhaseOk(s.rows, s.lock, r, cap, t, s.txs[t]);
      assert RowHeld(s.txs[tx]) != RowHeld(s.txs[t]);
    }
  }

  /** A commit keeps every instant within capacity, given that it was, exactly when it frees or keeps a place or finds
      one left throughout its window. */
  lemma PutBackKeepsCapacityIff(rows: Table, r: Id, cap: int, id: Id, row: Booking)
    requires WithinCapacity(rows, r, cap) && id in rows && rows[id].resource == r && SamePlace(row, rows[id])
    ensures WithinCapacity(rows[id := row], r, cap)
      <==> (Active(row) && !Active(rows[id]) ==> FreeThroughout(rows, r, cap, row))
  {
    var rows' := rows[id := row];
    if Active(row) && !Active(rows[id]) {
      forall t: Instant ensures Holding(rows', r, t) == Holding(rows, r, t) + if row.start <= t < row.end then {id} else {} {}
      forall t: Instant ensures |Holding(rows', r, t)| == |Holding(rows, r, t)| + if row.start <= t < row.end then 1 else 0 {
        assert id !in Holding(rows, r, t);
      }
    } else {
      forall t: Instant ensures |Holding(rows', r, t)| <= cap { SubsetCard(Holding(rows', r, t), Holding(rows, r, t)); }
    }
  }

  lemma PutBackCommitKeeps(s: State, r: Id, cap: int, tx: Tx, id: Id, row: Booking)
    requires Inv(s, r, cap) && tx in s.txs && RowHeld(s.txs[tx]) == Some(id)
    requires id in s.rows && SamePlace(row, s.rows[id]) && row.version >= s.rows[id].version
    requires FreeThroughout(s.rows, r, cap, row) && LeavesClaims(s, r, cap, tx, id, row)
    ensures Inv(Finish(s, tx).(rows := s.rows[id := row]), r, cap)
  {
    hide WithinCapacity, FreeThroughout, HasRoom;
    var s' := Finish(s, tx).(rows := s.rows[id := row]);
    PutBackKeepsCapacityIff(s.rows, r, cap, id, row);
    FinishKeeps(s, r, cap, tx);
    forall t | t in s'.txs ensures PhaseOk(s'.rows, s'.lock, r, cap, t, s'.txs[t]) {
      assert PhaseOk(s.rows, s'.lock, r, cap, t, s'.txs[t]);
      assert RowHeld(s.txs[tx]) != RowHeld(s.txs[t]);
    }
  }

  lemma PuttingBackKeeps(s: State, r: Id, cap: int, tx: Tx, id: Id, row: Booking)
    requires Inv(s, r, cap) && SafeStep(s, r, cap, Commit(tx)) && PutBack(s, tx) == Some(row) && id == s.txs[tx].id && id in s.rows
    requires RowHeld(s.txs[tx]) == Some(id) && SamePlace(row, s.rows[id]) && row.version >= s.rows[id].version
    ensures Inv(Finish(s, tx).(rows := s.rows[id := row]), r, cap)
  {
    hide Inv, FreeThroughout, LeavesClaims;
    if Active(row) && !Active(s.rows[id]) {
      PutBackCommitKeeps(s, r, cap, tx, id, row);
    } else {
      ShrinkingCommitKeeps(s, r, cap, tx, id, row);
    }
  }

  lemma CommitKeeps(s: State, r: Id, cap: int, tx: Tx)
    requires Inv(s, r, cap) && Apply(s, r, cap, Commit(tx)).Some? && SafeStep(s, r, cap, Commit(tx))
    ensures Inv(Apply(s, r, cap, Commit(tx)).value, r, cap)
  {
    hide WithinCapacity, HasRoom, FreeThroughout, LeavesClaims, SafeStep;
    assert PhaseOk(s.rows, s.lock, r, cap, tx, s.txs[tx]);
    match s.txs[tx]
    case Written(id, row) => LockedCommitKeeps(s, r, cap, tx, id, row);
    case Cancelling(id) =>
      FinishKeeps(s, r, cap, tx);
      if id in s.rows { ShrinkingCommitKeeps(s, r, cap, tx, id, s.rows[id].(status := Cancelled)); }
    case Edited(id, row) => PuttingBackKeeps(s, r, cap, tx, id, row);
    case Approved(id) =>
      FinishKeeps(s, r, cap, tx);
      if id in s.rows { PuttingBackKeeps(s, r, cap, tx, id, s.rows[id].(status := Confirmed)); }
    case _ =>
  }

  lemma EditWriteKeeps(s: State, r: Id, cap: int, tx: Tx, title: string)
    requires Inv(s, r, cap) && Apply(s, r, cap, WriteEdit(tx, title)).Some?
    ensures Inv(Apply(s, r, cap, WriteEdit(tx, title)).value, r, cap)
  {
    assert PhaseOk(s.rows, s.lock, r, cap, tx, s.txs[tx]);
    var id, b := s.txs[tx].id, s.txs[tx].read.(title := title);
    FinishKeeps(s, r, cap, tx);
    if Save(s.rows, id, b).Saved? { PhaseChangeKeeps(s, r, cap, tx, Edited(id, RowToWrite(s.rows, id, b))); }
  }

  lemma StepKeeps(s: State, r: Id, cap: int, step: Step)
    requires Inv(s, r, cap) && Apply(s, r, cap, step).Some? && SafeStep(s, r, cap, step)
    ensures Inv(Apply(s, r, cap, step).value, r, cap)
  {
    match step
    case BeginCreate(tx, id, start, end, status) =>
      PhaseChangeKeeps(s, r, cap, tx, Apply(s, r, cap, step).value.txs[tx]);
    case BeginMove(tx, id, start, end, approval) =>
      PhaseChangeKeeps(s, r, cap, tx, Apply(s, r, cap, step).value.txs[tx]);
    case TakeLock(tx) => LockKeeps(s, r, cap, tx);
    case CountRows(tx) => CountKeeps(s, r, cap, tx);
    case WriteRow(tx) => WriteKeeps(s, r, cap, tx);
    case Commit(tx) => CommitKeeps(s, r, cap, tx);
    case BeginCancel(tx, id) => PhaseChangeKeeps(s, r, cap, tx, Cancelling(id));
    case BeginEdit(tx, id) => PhaseChangeKeeps(s, r, cap, tx, Editing(id, s.rows[id]));
    case WriteEdit(tx, title) => EditWriteKeeps(s, r, cap, tx, title);
    case BeginApprove(tx, id) => PhaseChangeKeeps(s, r, cap, tx, Approving(id));
    case WriteApproval(tx) => PhaseChangeKeeps(s, r, cap, tx, Approved(s.txs[tx].id));
    case Abort(tx) => FinishKeeps(s, r, cap, tx);
  }

  /** No commit of the run puts back a freed booking where there is no room for it. */
  ghost predicate SafeRun(s: State, r: Id, cap: int, steps: seq<Step>)
    decreases |steps|
  {
    steps != [] && Apply(s, r, cap, steps[0]).Some? ==>
      SafeStep(s, r, cap, steps[0]) && SafeRun(Apply(s, r, cap, steps[0]).value, r, cap, steps[1..])
  }

  /** Every interleaving, edits and approvals included, in which none puts back a freed booking without room. */
  lemma {:induction false} CapacityHoldsInSafeRuns(s: State, r: Id, cap: int, steps: seq<Step>)
    requires Inv(s, r, cap) && SafeRun(s, r, cap, steps) && Run(s, r, cap, steps).Some?
    ensures Inv(Run(s, r, cap, steps).value, r, cap)
    decreases |steps|
  {
    if steps != [] {
      StepKeeps(s, r, cap, steps[0]);
      CapacityHoldsInSafeRuns(Apply(s, r, cap, steps[0]).value, r, cap, steps[1..]);
    }
  }

  predicate NoEdits(s: State) {
    forall t | t in s.txs :: !s.txs[t].Editing? && !s.txs[t].Edited? && !s.txs[t].Approving? && !s.txs[t].Approved?
  }

  predicate NoEditSteps(steps: seq<Step>) {
    forall k | 0 <= k < |steps| :: !steps[k].BeginEdit? && !steps[k].BeginApprove?
  }

  lemma {:induction false} WithoutEditsRunsAreSafe(s: State, r: Id, cap: int, steps: seq<Step>)
    requires NoEdits(s) && NoEditSteps(steps)
    ensures SafeRun(s, r, cap, steps)
    decreases |steps|
  {
    if steps != [] && Apply(s, r, cap, steps[0]).Some? {
      WithoutEditsRunsAreSafe(Apply(s, r, cap, steps[0]).value, r, cap, steps[1..]);
    }
  }

  const IDLE: State := State(map[], None, map[])

  /** In every interleaving of creates, reschedules and cancels that starts from an empty calendar, at
      every instant at most `cap` active committed bookings hold the resource. */
  lemma CapacityHoldsInEveryInterleaving(r: Id, cap: nat, steps: seq<Step>)
    requires NoEditSteps(steps) && Run(IDLE, r, cap, steps).Some?
    ensures WithinCapacity(Run(IDLE, r, cap, steps).value.rows, r, cap)
  {
    forall t: Instant ensures |Holding(IDLE.rows, r, t)| <= cap {
      assert Holding(IDLE.rows, r, t) == {};
    }
    WithoutEditsRunsAreSafe(IDLE, r, cap, steps);
    CapacityHoldsInSafeRuns(IDLE, r, cap, steps);
  }

  /** Committing an edit raises the load of some instant exactly when the row was freed in between. */
  lemma EditRaisesLoadIff(rows: Table, r: Id, id: Id, row: Booking)
    requires id in rows && rows[id].resource == r && SamePlace(row, rows[id]) && row.start < row.end
    ensures (exists t: Instant :: |Holding(rows[id := row], r, t)| > |Holding(rows, r, t)|)
      <==> Active(row) && !Active(rows[id])
  {
    var rows' := rows[id := row];
    if Active(row) && !Active(rows[id]) {
      assert Holding(rows', r, row.start) == Holding(rows, r, row.start) + {id};
      assert |Holding(rows', r, row.start)| > |Holding(rows, r, row.start)|;
    } else {
      forall t: Instant ensures |Holding(rows', r, t)| <= |Holding(rows, r, t)| {
        SubsetCard(Holding(rows', r, t), Holding(rows, r, t));
      }
    }
  }

  lemma {:induction false} RunAppend(s: State, r: Id, cap: int, one: seq<Step>, two: seq<Step>)
    requires Run(s, r, cap, one).Some?
    ensures Run(s, r, cap, one + two) == Run(Run(s, r, cap, one).value, r, cap, two)
    decreases |one|
  {
    if one == [] {
      assert one + two == two;
    } else {
      assert (one + two)[1..] == one[1..] + two;
      RunAppend(Apply(s, r, cap, one[0]).value, r, cap, one[1..], two);
    }
  }

  lemma OneStep(s: State, r: Id, cap: int, step: Step)
    ensures Run(s, r, cap, [step]) == Apply(s, r, cap, step)
  {
  }

  lemma TwoSteps(s: State, r: Id, cap: int, x: Step, y: Step)
    requires Apply(s, r, cap, x).Some?
    ensures Run(s, r, cap, [x, y]) == Apply(Apply(s, r, cap, x).value, r, cap, y)
  {
    assert [x, y][1..] == [y];
    OneStep(Apply(s, r, cap, x).value, r, cap, y);
  }

  function CreateSteps(tx: Tx, id: Id, start: Instant, end: Instant, status: Status): seq<Step> {
    [BeginCreate(tx, id, start, end, status), TakeLock(tx)] + [CountRows(tx), WriteRow(tx)] + [Commit(tx)]
  }

  /** An uninterrupted create on a window with a free place commits its row and nothing else. */
  lemma CreateOnFreePlaceCommits(s: State, r: Id, cap: int, tx: Tx, id: Id, start: Instant, end: Instant, status: Status)
    requires s.lock == None && tx !in s.txs && id !in s.rows && RowFree(s, id) && start < end
    requires |Concurrent(s.rows, r, start, end, None)| < cap && (status == Confirmed || status == PendingApproval)
    ensures Run(s, r, cap, CreateSteps(tx, id, start, end, status))
      == Some(s.(rows := s.rows[id := Booking(r, start, end, status, false, Shared, "", 1)]))
  {
    hide Run;
    var row := Booking(r, start, end, status, false, Shared, "", 1);
    var i := NewBooking(id, row);
    var one, two, three := [BeginCreate(tx, id, start, end, status), TakeLock(tx)], [CountRows(tx), WriteRow(tx)], [Commit(tx)];
    var s1 := State(s.rows, Some(tx), s.txs[tx := Locked(i)]);
    var s2 := State(s.rows, Some(tx), s.txs[tx := Written(id, row)]);
    TwoSteps(s, r, cap, one[0], one[1]);
    assert s.txs[tx := Ready(i)][tx := Locked(i)] == s.txs[tx := Locked(i)];
    assert Run(s, r, cap, one) == Some(s1);
    var s1' := State(s.rows, Some(tx), s.txs[tx := Admitted(i)]);
    assert s.txs[tx := Locked(i)][tx := Admitted(i)] == s.txs[tx := Admitted(i)];
    assert Apply(s1, r, cap, CountRows(tx)) == Some(s1');
    TwoSteps(s1, r, cap, two[0], two[1]);
    assert s.txs[tx := Admitted(i)][tx := Written(id, row)] == s.txs[tx := Written(id, row)];
    assert Run(s1, r, cap, two) == Some(s2);
    OneStep(s2, r, cap, three[0]);
    assert s.txs[tx := Written(id, row)] - {tx} == s.txs;
    RunAppend(s, r, cap, one, two);
    RunAppend(s, r, cap, one + two, three);
  }

  /** A cancel frees its row whatever the version a pending edit has read. */
  lemma CancelCommits(s: State, r: Id, cap: int, tx: Tx, id: Id)
    requires s.lock != Some(tx) && tx !in s.txs && id in s.rows && RowFree(s, id)
    ensures Run(s, r, cap, [BeginCancel(tx, id), Commit(tx)])
      == Some(s.(rows := s.rows[id := s.rows[id].(status := Cancelled)]))
  {
    TwoSteps(s, r, cap, BeginCancel(tx, id), Commit(tx));
    assert s.txs[tx := Cancelling(id)] - {tx} == s.txs;
  }

  /** An edit whose version still matches writes back all it read, the status included. */
  lemma MatchingEditCommits(s: State, r: Id, cap: int, tx: Tx, id: Id, read: Booking, title: string)
    requires tx in s.txs && s.txs[tx] == Editing(id, read) && s.lock != Some(tx) && RowFree(s, id)
    requires id in s.rows && s.rows[id].version == read.version && s.rows[id].mode == Shared && read.start <= read.end
    ensures Run(s, r, cap, [WriteEdit(tx, title), Commit(tx)])
      == Some(s.(rows := s.rows[id := RowToWrite(s.rows, id, read.(title := title))], txs := s.txs - {tx}))
  {
    var row := RowToWrite(s.rows, id, read.(title := title));
    assert !Excluded(s.rows, id, row);
    TwoSteps(s, r, cap, WriteEdit(tx, title), Commit(tx));
    assert s.txs[tx := Edited(id, row)] - {tx} == s.txs - {tx};
  }

  // ---- One place, taken twice ----

  function Place(status: Status): Booking { Booking("gym", 0, 10, status, false, Shared, "", 1) }

  /** Transaction 2 begins with `begin` on a booking; the booking is cancelled and its place is taken again before
      transaction 2 ends with `write`. */
  function PuttingBackRun(status: Status, begin: Step, write: Step): seq<Step> {
    CreateSteps(1, "a", 0, 10, status)
    + ([begin]
       + ([BeginCancel(3, "a"), Commit(3)]
          + (CreateSteps(4, "b", 0, 10, Confirmed) + [write, Commit(2)])))
  }

  function Under(rows: Table, p: Phase): State { State(rows, None, map[2 := p]) }

  lemma Overtaken(status: Status, begin: Step, p: Phase, rest: seq<Step>)
    requires status == Confirmed || status == PendingApproval
    requires Apply(State(map["a" := Place(status)], None, map[]), "gym", 1, begin) == Some(Under(map["a" := Place(status)], p))
    requires RowHeld(p) == None
    ensures Run(IDLE, "gym", 1, CreateSteps(1, "a", 0, 10, status) + ([begin] + ([BeginCancel(3, "a"), Commit(3)] + rest)))
      == Run(Under(map["a" := Place(Cancelled)], p), "gym", 1, rest)
  {
    hide Run, Apply;
    var partC := [BeginCancel(3, "a"), Commit(3)] + rest;
    assert Concurrent(IDLE.rows, "gym", 0, 10, None) == {};
    CreateOnFreePlaceCommits(IDLE, "gym", 1, 1, "a", 0, 10, status);
    RunAppend(IDLE, "gym", 1, CreateSteps(1, "a", 0, 10, status), [begin] + partC);
    var s1 := State(map["a" := Place(status)], None, map[]);
    OneStep(s1, "gym", 1, begin);
    RunAppend(s1, "gym", 1, [begin], partC);
    var s2 := Under(map["a" := Place(status)], p);
    CancelCommits(s2, "gym", 1, 3, "a");
    RunAppend(s2, "gym", 1, [BeginCancel(3, "a"), Commit(3)], rest);
    assert s2.rows["a" := Place(Cancelled)] == map["a" := Place(Cancelled)];
  }

  lemma PlaceTakenAgain(p: Phase, rest: seq<Step>)
    requires RowHeld(p) == None
    ensures Run(Under(map["a" := Place(Cancelled)], p), "gym", 1, CreateSteps(4, "b", 0, 10, Confirmed) + rest)
      == Run(Under(map["a" := Place(Cancelled), "b" := Place(Confirmed)], p), "gym", 1, rest)
  {
    hide Run;
    var s := Under(map["a" := Place(Cancelled)], p);
    assert Concurrent(s.rows, "gym", 0, 10, None) == {};
    CreateOnFreePlaceCommits(s, "gym", 1, 4, "b", 0, 10, Confirmed);
    RunAppend(s, "gym", 1, CreateSteps(4, "b", 0, 10, Confirmed), rest);
    assert s.rows["b" := Place(Confirmed)] == map["a" := Place(Cancelled), "b" := Place(Confirmed)];
  }

  lemma TwoOnOnePlace(rows: Table)
    requires rows.Keys == {"a", "b"} && forall i | i in rows :: Active(rows[i]) && SamePlace(rows[i], Place(Confirmed))
    ensures !WithinCapacity(rows, "gym", 1)
  {
    assert Holding(rows, "gym", 0) == {"a", "b"};
  }

  /** A title edit whose version still matches puts the cancelled booking back. */
  lemma EditsCanExceedCapacity()
    ensures var end := Run(IDLE, "gym", 1, PuttingBackRun(Confirmed, BeginEdit(2, "a"), WriteEdit(2, "x")));
      end.Some? && !WithinCapacity(end.value.rows, "gym", 1)
  {
    hide Run, WithinCapacity;
    var p, last := Editing("a", Place(Confirmed)), [WriteEdit(2, "x"), Commit(2)];
    Overtaken(Confirmed, BeginEdit(2, "a"), p, CreateSteps(4, "b", 0, 10, Confirmed) + last);
    PlaceTakenAgain(p, last);
    var s := Under(map["a" := Place(Cancelled), "b" := Place(Confirmed)], p);
    MatchingEditCommits(s, "gym", 1, 2, "a", Place(Confirmed), "x");
    TwoOnOnePlace(Run(s, "gym", 1, last).value.rows);
  }

  /** An approval that read the booking as pending confirms it after it was cancelled. */
  lemma ApprovalsCanExceedCapacity()
    ensures var end := Run(IDLE, "gym", 1, PuttingBackRun(PendingApproval, BeginApprove(2, "a"), WriteApproval(2)));
      end.Some? && !WithinCapacity(end.value.rows, "gym", 1)
  {
    hide Run, WithinCapacity;
    var p, last := Approving("a"), [WriteApproval(2), Commit(2)];
    Overtaken(PendingApproval, BeginApprove(2, "a"), p, CreateSteps(4, "b", 0, 10, Confirmed) + last);
    PlaceTakenAgain(p, last);
    var s := Under(map["a" := Place(Cancelled), "b" := Place(Confirmed)], p);
    TwoSteps(s, "gym", 1, WriteApproval(2), Commit(2));
    TwoOnOnePlace(Run(s, "gym", 1, last).value.rows);
  }
}
