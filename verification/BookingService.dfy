/** The use cases in the form of the source: an object over the table whose methods write rows. */
module BookingService {
  import opened Wrappers
  import opened BookingStore
  import U = BookingUseCases

  /** A row of the approvals table. */
  datatype Decision = Decision(booking: Id, approver: Id, approved: bool, reason: string)

  /** The rows that became no-shows. */
  function Expired(before: Table, after: Table): set<Id> {
    set i | i in after && i in before && after[i].status == NoShow && before[i].status != NoShow
  }

  lemma NoneExpired(rows: Table)
    ensures Expired(rows, rows) == {}
  {
  }

  lemma OneMoreExpired(before: Table, rows: Table, id: Id, row: Booking)
    requires id in before && id in rows && rows[id] == before[id] && before[id].status != NoShow && row.status == NoShow
    ensures |Expired(before, rows[id := row])| == |Expired(before, rows)| + 1
  {
    assert Expired(before, rows[id := row]) == Expired(before, rows) + {id} && id !in Expired(before, rows);
  }

  lemma TickStep(rows: Table, candidates: seq<(Id, Booking)>, k: nat)
    requires k < |candidates|
    ensures U.Tick(rows, candidates[k..]) == U.Tick(U.Release(rows, candidates[k].0, candidates[k].1), candidates[k + 1..])
  {
    assert candidates[k..][1..] == candidates[k + 1..];
  }

  lemma TickEnds(rows: Table)
    ensures U.Tick(rows, []) == rows
  {
  }

  class Service {
    var rows: Table
    var decisions: seq<Decision>
    const forest: Forest

    constructor (forest: Forest)
      ensures this.forest == forest && rows == map[] && decisions == []
      ensures U.NoDoubleBooking(rows, forest)
    {
      this.forest := forest;
      rows, decisions := map[], [];
    }

    /** Holiday, resource, capacity or conflict, and privilege checks, in that order. */
    method Validate(r: Id, start: Instant, end: Instant, exclude: Option<Id>, env: U.Env)
      returns (ok: bool, requiresApproval: bool)
      ensures ok <==> U.Validate(rows, forest, r, start, end, exclude, env).Some?
      ensures ok ==> U.Validate(rows, forest, r, start, end, exclude, env) == Some(requiresApproval)
    {
      ok, requiresApproval := false, false;
      if env.holiday { return; }
      if r in forest {
        if !forest[r].isActive { return; }
        requiresApproval := forest[r].requiresApproval;
      }
      if r in forest && forest[r].mode == Shared {
        var cap := forest[r].sharedCapacity;
        if cap <= 0 { cap := forest[r].capacity; }
        if cap <= 0 { cap := 1; }
        var count := |Concurrent(rows, r, start, end, exclude)|;
        if count >= cap { return; }
      } else if exclude == None {
        if HasConflict(rows, forest, r, start, end) { return; }
      }
      if env.deny { return; }
      if env.forceApproval { requiresApproval := true; }
      ok := true;
    }

    method Create(id: Id, r: Id, start: Instant, end: Instant, title: string, env: U.Env) returns (created: bool)
      requires id !in rows
      requires U.NoDoubleBooking(rows, forest)
      modifies this`rows
      ensures rows == U.Create(old(rows), forest, id, r, start, end, title, env)
      ensures created <==> id in rows
      ensures !created ==> rows == old(rows)
      ensures U.NoDoubleBooking(rows, forest)
    {
      U.CreateKeeps(rows, forest, id, r, start, end, title, env);
      created := false;
      if end <= start || start < env.now - U.ONE_MINUTE || !env.servicesValid || !env.withinLimit { return; }
      var ok, approval := Validate(r, start, end, None, env);
      if !ok { return; }
      var status := Confirmed;
      if approval { status := PendingApproval; }
      var mode := Exclusive;
      if r in forest && forest[r].mode == Shared { mode := Shared; }
      var saved := Save(rows, id, Booking(r, start, end, status, false, mode, title, 1));
      if !saved.Saved? { return; }
      rows := saved.rows;
      if r in forest && env.chainLevels > 0 && status != PendingApproval {
        rows := UpdateStatus(rows, id, PendingApproval);
      }
      created := true;
    }

    /** A new window is validated and may send the booking back to approval; what changes is saved. */
    method Reschedule(id: Id, start: Instant, end: Instant, title: Option<string>, env: U.Env) returns (ok: bool)
      modifies this`rows
      ensures rows == U.Reschedule(old(rows), forest, id, start, end, title, env)
      ensures ok <==> U.UpdateAdmitted(old(rows), forest, id, start, end, env)
      ensures ok ==> id in old(rows) && id in rows && rows[id].version == old(rows)[id].version + 1
      ensures ok ==> rows[id].start == start && rows[id].end == end && (title.Some? ==> rows[id].title == title.value)
      ensures !ok ==> rows == old(rows)
    {
      hide U.UpdateAdmitted, Excluded;
      U.RescheduleAdmitsIff(rows, forest, id, start, end, title, env);
      ok := false;
      if id !in rows { return; }
      var b := rows[id];
      if b.status == Cancelled || b.status == NoShow { return; }
      if start != b.start || end != b.end {
        if end <= start { return; }
        var valid, approval := Validate(b.resource, start, end, Some(id), env);
        if !valid { return; }
        if approval && b.status == Confirmed { b := b.(status := PendingApproval); }
        b := b.(start := start, end := end);
      }
      if title.Some? { b := b.(title := title.value); }
      var saved := Save(rows, id, b);
      if !saved.Saved? { return; }
      rows := saved.rows;
      ok := true;
    }

    method Cancel(id: Id) returns (ok: bool)
      requires U.NoDoubleBooking(rows, forest)
      modifies this`rows
      ensures rows == U.Cancel(old(rows), id) && U.NoDoubleBooking(rows, forest)
      ensures ok <==> id in rows && rows[id].status == Cancelled
    {
      U.StepKeeps(rows, forest, U.OpCancel(id));
      if id !in rows { return false; }
      if rows[id].status != Cancelled { rows := UpdateStatus(rows, id, Cancelled); }
      ok := true;
    }

    /** Confirms a pending booking; a confirmed one only gets another approval row. */
    method Approve(id: Id, approver: Id, reason: string) returns (ok: bool)
      requires U.NoDoubleBooking(rows, forest)
      modifies this
      ensures rows == U.Approve(old(rows), id) && U.NoDoubleBooking(rows, forest)
      ensures ok <==> id in rows && rows[id].status == Confirmed
      ensures decisions == if ok then old(decisions) + [Decision(id, approver, true, reason)] else old(decisions)
    {
      U.StepKeeps(rows, forest, U.OpApprove(id));
      ok := false;
      if id !in rows { return; }
      if rows[id].status == PendingApproval {
        rows := UpdateStatus(rows, id, Confirmed);
        if rows[id].status != Confirmed { return; }
      } else if rows[id].status != Confirmed {
        return;
      }
      decisions := decisions + [Decision(id, approver, true, reason)];
      ok := true;
    }

    method Reject(id: Id, approver: Id, reason: string) returns (ok: bool)
      requires U.NoDoubleBooking(rows, forest)
      modifies this
      ensures rows == U.Reject(old(rows), id, reason) && U.NoDoubleBooking(rows, forest)
      ensures ok <==> reason != "" && id in old(rows) && old(rows)[id].status in {PendingApproval, Confirmed}
      ensures ok ==> rows[id].status == Cancelled
      ensures decisions == if ok then old(decisions) + [Decision(id, approver, false, reason)] else old(decisions)
    {
      U.StepKeeps(rows, forest, U.OpReject(id, reason));
      ok := false;
      if reason == "" || id !in rows { return; }
      if rows[id].status != PendingApproval && rows[id].status != Confirmed { return; }
      rows := UpdateStatus(rows, id, Cancelled);
      decisions := decisions + [Decision(id, approver, false, reason)];
      ok := true;
    }

    /** Saves every candidate the lister returned and counts the rows that became no-shows. */
    method Tick(candidates: seq<(Id, Booking)>) returns (released: nat)
      requires U.Listed(rows, candidates) && U.NoDoubleBooking(rows, forest)
      modifies this`rows
      ensures rows == U.Tick(old(rows), candidates)
      ensures U.NoDoubleBooking(rows, forest)
      ensures released == |Expired(old(rows), rows)|
    {
      hide U.NoDoubleBooking, U.Tick, Expired;
      U.TickKeeps(rows, forest, candidates);
      NoneExpired(rows);
      assert candidates[0..] == candidates;
      released := 0;
      var k := 0;
      while k < |candidates|
        invariant 0 <= k <= |candidates| && released == |Expired(old(rows), rows)|
        invariant U.Tick(old(rows), candidates) == U.Tick(rows, candidates[k..])
        invariant forall l | k <= l < |candidates| :: candidates[l].0 in rows && rows[candidates[l].0] == old(rows)[candidates[l].0]
      {
        var (id, b) := candidates[k];
        TickStep(rows, candidates, k);
        if b.status == Confirmed && !b.checkedIn {
          var saved := Save(rows, id, b.(status := NoShow));
          if saved.Saved? {
            OneMoreExpired(old(rows), rows, id, saved.rows[id]);
            rows := saved.rows;
            released := released + 1;
          }
        }
        k := k + 1;
      }
      TickEnds(rows);
      assert candidates[k..] == [];
    }

    /** Books the occurrences of a series one by one; a conflict only skips its own occurrence. */
    method ExpandSeries(r: Id, occurrences: seq<U.Occurrence>) returns (booked: seq<Id>, skipped: seq<Instant>)
      requires U.NoDoubleBooking(rows, forest)
      requires forall k | 0 <= k < |occurrences| :: occurrences[k].id !in rows
      requires forall k, l | 0 <= k < l < |occurrences| :: occurrences[k].id != occurrences[l].id
      modifies this`rows
      ensures rows == U.Series(old(rows), forest, r, occurrences)
      ensures U.NoDoubleBooking(rows, forest)
      ensures |booked| + |skipped| == |occurrences|
      ensures rows.Keys == old(rows).Keys + set id | id in booked
    {
      hide U.NoDoubleBooking, HasConflict, Excluded, RowToWrite;
      U.SeriesKeeps(rows, forest, r, occurrences);
      booked, skipped := [], [];
      var k := 0;
      while k < |occurrences|
        invariant 0 <= k <= |occurrences| && |booked| + |skipped| == k
        invariant rows.Keys == old(rows).Keys + set id | id in booked
        invariant forall l | k <= l < |occurrences| :: occurrences[l].id !in rows
        invariant U.Series(old(rows), forest, r, occurrences) == U.Series(rows, forest, r, occurrences[k..])
      {
        var o := occurrences[k];
        assert occurrences[k..][1..] == occurrences[k + 1..];
        if HasConflict(rows, forest, r, o.start, o.end) {
          skipped := skipped + [o.start];
        } else {
          var saved := Save(rows, o.id, Booking(r, o.start, o.end, Confirmed, false, Exclusive, "", 1));
          if saved.Saved? {
            rows := saved.rows;
            booked := booked + [o.id];
          } else {
            skipped := skipped + [o.start];
          }
        }
        k := k + 1;
      }
    }
  }
}
