/** The booking use cases with statuses, relations, windows and rows written out. */
module BookingsInFull {
  import opened Wrappers
  import opened BookingStore
  import opened BookingUseCases
  import R = BookingRaces

  // ---- Rows in the way ----

  /** Confirmed, pending or checked in. */
  predicate Holds(b: Booking) {
    b.status == Confirmed || b.status == PendingApproval || b.status == CheckedIn
  }

  /** One resource, or parent and child. */
  predicate SameOrKin(forest: Forest, r: Id, q: Id) {
    r == q || (r in forest && forest[r].parent == Some(q)) || (q in forest && forest[q].parent == Some(r))
  }

  /** The row holds its place on the resource, its parent or a child at some time of the window. */
  predicate InTheWay(rows: Table, forest: Forest, r: Id, start: Instant, end: Instant, i: Id)
    requires i in rows
  {
    SameOrKin(forest, r, rows[i].resource) && Holds(rows[i]) && rows[i].start < end && start < rows[i].end
  }

  predicate Free(rows: Table, forest: Forest, r: Id, start: Instant, end: Instant) {
    forall i | i in rows :: !InTheWay(rows, forest, r, start, end, i)
  }

  lemma FreeIff(rows: Table, forest: Forest, r: Id, start: Instant, end: Instant)
    ensures Free(rows, forest, r, start, end) <==> !HasConflict(rows, forest, r, start, end)
  {
    forall i | i in rows ensures i in Conflicts(rows, forest, r, start, end) <==> InTheWay(rows, forest, r, start, end, i) {}
    if Free(rows, forest, r, start, end) { assert Conflicts(rows, forest, r, start, end) == {}; }
  }

  /** Another row under the EXCLUDE constraint holds the resource at some time of the window. */
  predicate Barred(rows: Table, id: Id, r: Id, start: Instant, end: Instant) {
    start < end && exists j | j in rows && j != id ::
      rows[j].resource == r && rows[j].mode == Exclusive && Holds(rows[j])
      && rows[j].start < rows[j].end && rows[j].start < end && start < rows[j].end
  }

  lemma BarredIff(rows: Table, id: Id, b: Booking)
    ensures Excluded(rows, id, b) <==> Holds(b) && b.mode == Exclusive && Barred(rows, id, b.resource, b.start, b.end)
  {
  }

  lemma FreeIsNotBarred(rows: Table, forest: Forest, id: Id, r: Id, start: Instant, end: Instant)
    requires Free(rows, forest, r, start, end)
    ensures !Barred(rows, id, r, start, end)
  {
    forall j | j in rows ensures !InTheWay(rows, forest, r, start, end, j) {}
  }

  // ---- The invariant ----

  predicate NotShared(forest: Forest, r: Id) { r in forest ==> forest[r].mode == Exclusive }

  /** Two different rows that hold places on exclusive resources, the same or akin, at one instant. */
  predicate Both(rows: Table, forest: Forest, i: Id, j: Id, t: Instant) {
    && i in rows && j in rows && i != j && Holds(rows[i]) && Holds(rows[j])
    && NotShared(forest, rows[i].resource) && NotShared(forest, rows[j].resource)
    && SameOrKin(forest, rows[i].resource, rows[j].resource)
    && rows[i].start <= t < rows[i].end && rows[j].start <= t < rows[j].end
  }

  lemma NeverBoth(rows: Table, forest: Forest, i: Id, j: Id, t: Instant)
    requires NoDoubleBooking(rows, forest)
    ensures !Both(rows, forest, i, j, t)
  {
    if Both(rows, forest, i, j, t) {
      assert Clash(rows[i], rows[j]);
    }
  }

  /** From the empty table, no serial run of creates, series, cancels, approvals, rejections and ticks ever leaves two such rows,
      nor does any run whose updates and chain approvals are safe. */
  lemma NoRunHasBoth(forest: Forest, ops: seq<Op>, i: Id, j: Id, t: Instant)
    requires (forall op | op in ops :: !op.OpReschedule? && !(op.OpDecide? && op.confirmed)) || SafeRun(map[], forest, ops)
    ensures !Both(Run(map[], forest, ops), forest, i, j, t)
  {
    hide Run, SafeRun, NoDoubleBooking;
    NothingIsBooked(forest);
    if SafeRun(map[], forest, ops) { SafeRunsNeverDoubleBook(map[], forest, ops); }
    else { SerialRunsNeverDoubleBook(map[], forest, ops); }
    NeverBoth(Run(map[], forest, ops), forest, i, j, t);
  }

  lemma NothingIsBooked(forest: Forest)
    ensures NoDoubleBooking(map[], forest)
  {
  }

  // ---- Create ----

  /** Fewer rows hold places at some time of the window than the resource has: as many as its shared capacity says, or else its
      capacity, or else one. */
  predicate HasPlace(rows: Table, forest: Forest, r: Id, exclude: Option<Id>, start: Instant, end: Instant)
    requires r in forest
  {
    |set i | i in rows && exclude != Some(i) && rows[i].resource == r && Holds(rows[i]) && rows[i].start < end && start < rows[i].end|
    < (if forest[r].sharedCapacity > 0 then forest[r].sharedCapacity else if forest[r].capacity > 0 then forest[r].capacity else 1)
  }

  lemma HasPlaceIff(rows: Table, forest: Forest, r: Id, exclude: Option<Id>, start: Instant, end: Instant)
    requires r in forest
    ensures HasPlace(rows, forest, r, exclude, start, end) <==> |Concurrent(rows, r, start, end, exclude)| < EffectiveCapacity(forest[r])
  {
    assert Concurrent(rows, r, start, end, exclude)
      == set i | i in rows && exclude != Some(i) && rows[i].resource == r && Holds(rows[i]) && rows[i].start < end && start < rows[i].end;
  }

  /** The resource can take another booking in the window. */
  predicate Takes(rows: Table, forest: Forest, r: Id, start: Instant, end: Instant) {
    if r in forest && forest[r].mode == Shared then HasPlace(rows, forest, r, None, start, end)
    else Free(rows, forest, r, start, end)
  }

  predicate Admits(rows: Table, forest: Forest, r: Id, start: Instant, end: Instant, env: Env) {
    && start < end && env.now - 60_000_000_000 <= start
    && env.servicesValid && env.withinLimit && !env.holiday && !env.deny
    && (r in forest ==> forest[r].isActive)
    && Takes(rows, forest, r, start, end)
  }

  lemma ValidatesIff(rows: Table, forest: Forest, r: Id, start: Instant, end: Instant, env: Env)
    ensures Validate(rows, forest, r, start, end, None, env)
      == if !env.holiday && !env.deny && (r in forest ==> forest[r].isActive) && Takes(rows, forest, r, start, end)
         then Some((r in forest && forest[r].requiresApproval) || env.forceApproval) else None
  {
    hide HasConflict, Free, Concurrent, EffectiveCapacity, HasPlace;
    FreeIff(rows, forest, r, start, end);
    if r in forest { HasPlaceIff(rows, forest, r, None, start, end); }
  }

  /** A create writes its one row if it is admitted, and nothing otherwise; it waits for approval if the resource, the privilege
      rules or a chain ask for it. */
  lemma CreateInFull(rows: Table, forest: Forest, id: Id, r: Id, start: Instant, end: Instant, title: string, env: Env)
    requires id !in rows
    ensures Create(rows, forest, id, r, start, end, title, env)
      == if !Admits(rows, forest, r, start, end, env) then rows
         else rows[id := Booking(r, start, end,
           if env.forceApproval || (r in forest && (forest[r].requiresApproval || env.chainLevels > 0)) then PendingApproval else Confirmed,
           false, if r in forest && forest[r].mode == Shared then Shared else Exclusive, title, 1)]
  {
    hide Excluded, Validate, Takes, Barred;
    ValidatesIff(rows, forest, r, start, end, env);
    if Admits(rows, forest, r, start, end, env) {
      var b := Booking(r, start, end, if (r in forest && forest[r].requiresApproval) || env.forceApproval then PendingApproval else Confirmed,
                       false, ModeOf(forest, r), title, 1);
      assert rows - {id} == rows && rows[id := b] - {id} == rows;
      NewRowIsNotExcluded(rows, forest, id, b);
      NewRowIsNotExcluded(rows[id := b], forest, id, b.(status := PendingApproval));
      assert rows[id := b][id := b.(status := PendingApproval)] == rows[id := b.(status := PendingApproval)];
    }
  }

  lemma NewRowIsNotExcluded(rows: Table, forest: Forest, id: Id, b: Booking)
    requires Takes(rows - {id}, forest, b.resource, b.start, b.end)
    requires b.mode == if b.resource in forest && forest[b.resource].mode == Shared then Shared else Exclusive
    ensures !Excluded(rows, id, b)
  {
    hide HasPlace;
    BarredIff(rows, id, b);
    if b.mode == Exclusive {
      var others := rows - {id};
      forall j | j in others ensures rows[j] == others[j] && !InTheWay(others, forest, b.resource, b.start, b.end, j) {}
    }
  }

  // ---- Update ----

  /** The booking may be moved: to a proper window, which the resource or, if it is shared, another place on it has. */
  predicate MayMove(rows: Table, forest: Forest, id: Id, start: Instant, end: Instant, env: Env)
    requires id in rows
  {
    var r := rows[id].resource;
    && start < end && !env.holiday && !env.deny
    && (r in forest ==> forest[r].isActive && (forest[r].mode == Shared ==> HasPlace(rows, forest, r, Some(id), start, end)))
  }

  /** An update writes the window and the title it is given, one version on. It is refused for a cancelled booking or a no-show,
      for a window that ends before it starts, one that changes and may not be moved to, and where the EXCLUDE constraint bars the row. */
  lemma RescheduleInFull(rows: Table, forest: Forest, id: Id, start: Instant, end: Instant, title: Option<string>, env: Env)
    requires id in rows
    ensures var b := rows[id];
      Reschedule(rows, forest, id, start, end, title, env)
      == if end < start || b.status == Cancelled || b.status == NoShow
           || ((start != b.start || end != b.end) && !MayMove(rows, forest, id, start, end, env))
           || (Holds(b) && b.mode == Exclusive && Barred(rows, id, b.resource, start, end)) then rows
         else rows[id := Booking(b.resource, start, end,
           if (start != b.start || end != b.end) && b.status == Confirmed
              && (env.forceApproval || (b.resource in forest && forest[b.resource].requiresApproval)) then PendingApproval else b.status,
           b.checkedIn, b.mode, if title.Some? then title.value else b.title, b.version + 1)]
  {
    hide Excluded, Barred, HasConflict, Concurrent, EffectiveCapacity, HasPlace;
    var b := rows[id];
    if b.resource in forest { HasPlaceIff(rows, forest, b.resource, Some(id), start, end); }
    forall x: Booking ensures Excluded(rows, id, x) <==> Holds(x) && x.mode == Exclusive && Barred(rows, id, x.resource, x.start, x.end) {
      BarredIff(rows, id, x);
    }
  }

  // ---- Approve, reject, cancel ----

  /** Approving confirms a pending booking unless the EXCLUDE constraint bars it; anything else is left as it is. */
  lemma ApproveInFull(rows: Table, id: Id)
    ensures Approve(rows, id)
      == if id in rows && rows[id].status == PendingApproval
            && !(rows[id].mode == Exclusive && Barred(rows, id, rows[id].resource, rows[id].start, rows[id].end))
         then rows[id := rows[id].(status := Confirmed)] else rows
  {
    hide Excluded, Barred;
    if id in rows { BarredIff(rows, id, rows[id].(status := Confirmed)); }
  }

  /** Where the constraint holds, as it does along every run, nothing bars it: a pending booking is confirmed. */
  lemma ApproveConfirms(rows: Table, id: Id)
    requires R.ConstraintHolds(rows) && id in rows && rows[id].status == PendingApproval
    ensures Approve(rows, id) == rows[id := rows[id].(status := Confirmed)]
  {
    hide Excluded;
    ApproveInFull(rows, id);
  }

  /** The other two always write. */
  lemma CancelAndRejectInFull(rows: Table, id: Id, reason: string)
    ensures Cancel(rows, id)
      == if id in rows && rows[id].status != Cancelled then rows[id := rows[id].(status := Cancelled)] else rows
    ensures Reject(rows, id, reason)
      == if reason != "" && id in rows && (rows[id].status == PendingApproval || rows[id].status == Confirmed)
         then rows[id := rows[id].(status := Cancelled)] else rows
  {
    hide Excluded;
    if id in rows { BarredIff(rows, id, rows[id].(status := Cancelled)); }
  }

  // ---- Series and ticks ----

  /** An occurrence is booked, confirmed and exclusive, exactly when nothing is in its way. */
  lemma OccurInFull(rows: Table, forest: Forest, r: Id, o: Occurrence)
    ensures Occur(rows, forest, r, o)
      == if o.id !in rows && o.start <= o.end && Free(rows, forest, r, o.start, o.end)
         then rows[o.id := Booking(r, o.start, o.end, Confirmed, false, Exclusive, "", 1)] else rows
  {
    hide Excluded, HasConflict, Free;
    FreeIff(rows, forest, r, o.start, o.end);
    if Free(rows, forest, r, o.start, o.end) {
      FreeIsNotBarred(rows, forest, o.id, r, o.start, o.end);
      BarredIff(rows, o.id, Booking(r, o.start, o.end, Confirmed, false, Exclusive, "", 1));
    }
  }

  /** The occurrences are new, last some time and do not meet each other. */
  predicate Spread(rows: Table, os: seq<Occurrence>) {
    && (forall k | 0 <= k < |os| :: os[k].id !in rows && os[k].start < os[k].end)
    && (forall k, l | 0 <= k < l < |os| :: os[k].id != os[l].id && (os[k].end <= os[l].start || os[l].end <= os[k].start))
  }

  /** The table with a row for each occurrence that has nothing in its way. */
  predicate BooksTheFree(rows: Table, to: Table, forest: Forest, r: Id, os: seq<Occurrence>) {
    && (forall i | i in rows :: i in to && to[i] == rows[i])
    && (forall k | 0 <= k < |os| ::
         if Free(rows, forest, r, os[k].start, os[k].end)
         then os[k].id in to && to[os[k].id] == Booking(r, os[k].start, os[k].end, Confirmed, false, Exclusive, "", 1)
         else os[k].id !in to)
    && (forall i | i in to :: i in rows || exists k | 0 <= k < |os| :: os[k].id == i)
  }

  lemma FreeAfterOther(rows: Table, forest: Forest, r: Id, o: Occurrence, p: Occurrence)
    requires o.id !in rows && o.start < o.end && p.start < p.end && (o.end <= p.start || p.end <= o.start)
    ensures Free(rows[o.id := Booking(r, o.start, o.end, Confirmed, false, Exclusive, "", 1)], forest, r, p.start, p.end)
      <==> Free(rows, forest, r, p.start, p.end)
  {
    var rows' := rows[o.id := Booking(r, o.start, o.end, Confirmed, false, Exclusive, "", 1)];
    assert !InTheWay(rows', forest, r, p.start, p.end, o.id);
    forall i | i in rows ensures InTheWay(rows', forest, r, p.start, p.end, i) <==> InTheWay(rows, forest, r, p.start, p.end, i) {}
  }

  lemma LaterAreFreeAlike(rows: Table, forest: Forest, r: Id, os: seq<Occurrence>, k: nat)
    requires Spread(rows, os) && 0 < k < |os|
    ensures Free(Occur(rows, forest, r, os[0]), forest, r, os[k].start, os[k].end) <==> Free(rows, forest, r, os[k].start, os[k].end)
  {
    hide Free, Occur;
    OccurInFull(rows, forest, r, os[0]);
    FreeAfterOther(rows, forest, r, os[0], os[k]);
  }

  lemma RestIsSpread(rows: Table, forest: Forest, r: Id, os: seq<Occurrence>)
    requires Spread(rows, os) && os != []
    ensures Spread(Occur(rows, forest, r, os[0]), os[1..])
  {
    hide Free, Occur;
    OccurInFull(rows, forest, r, os[0]);
  }

  lemma RowsStay(rows: Table, forest: Forest, r: Id, os: seq<Occurrence>, to: Table)
    requires os != [] && BooksTheFree(Occur(rows, forest, r, os[0]), to, forest, r, os[1..])
    ensures forall i | i in rows :: i in to && to[i] == rows[i]
    ensures forall i | i in to :: i in rows || exists k | 0 <= k < |os| :: os[k].id == i
  {
    hide Free, Occur;
    OccurInFull(rows, forest, r, os[0]);
    forall i | i in to ensures i in rows || exists k | 0 <= k < |os| :: os[k].id == i {
      if i !in rows && i != os[0].id {
        var k :| 0 <= k < |os| - 1 && os[1..][k].id == i;
        assert os[k + 1].id == i;
      }
    }
  }

  lemma OccurrenceAt(rows: Table, forest: Forest, r: Id, os: seq<Occurrence>, to: Table, k: nat)
    requires Spread(rows, os) && k < |os| && BooksTheFree(Occur(rows, forest, r, os[0]), to, forest, r, os[1..])
    ensures if Free(rows, forest, r, os[k].start, os[k].end)
            then os[k].id in to && to[os[k].id] == Booking(r, os[k].start, os[k].end, Confirmed, false, Exclusive, "", 1)
            else os[k].id !in to
  {
    hide Free, Occur;
    OccurInFull(rows, forest, r, os[0]);
    if k > 0 {
      LaterAreFreeAlike(rows, forest, r, os, k);
      assert os[1..][k - 1] == os[k];
    }
  }

  /** A series whose occurrences do not meet each other is booked exactly as far as the table is free. */
  lemma {:induction false} SeriesInFull(rows: Table, forest: Forest, r: Id, os: seq<Occurrence>)
    requires Spread(rows, os)
    ensures BooksTheFree(rows, Series(rows, forest, r, os), forest, r, os)
    decreases |os|
  {
    hide Free, Occur, Spread;
    if os != [] {
      var to := Series(rows, forest, r, os);
      RestIsSpread(rows, forest, r, os);
      SeriesInFull(Occur(rows, forest, r, os[0]), forest, r, os[1..]);
      RowsStay(rows, forest, r, os, to);
      forall k: nat | k < |os|
        ensures if Free(rows, forest, r, os[k].start, os[k].end)
                then os[k].id in to && to[os[k].id] == Booking(r, os[k].start, os[k].end, Confirmed, false, Exclusive, "", 1)
                else os[k].id !in to
      {
        OccurrenceAt(rows, forest, r, os, to, k);
      }
    } else {
      NothingToBook(rows, forest, r, os);
    }
  }

  lemma NothingToBook(rows: Table, forest: Forest, r: Id, os: seq<Occurrence>)
    requires os == []
    ensures BooksTheFree(rows, Series(rows, forest, r, os), forest, r, os)
  {
  }

  /** A tick turns the listed bookings that are confirmed and not checked in into no-shows, one version on. */
  lemma TickInFull(rows: Table, candidates: seq<(Id, Booking)>)
    requires Listed(rows, candidates) && forall i | i in rows :: rows[i].start <= rows[i].end
    ensures Tick(rows, candidates).Keys == rows.Keys
    ensures forall i | i in rows ::
      Tick(rows, candidates)[i]
      == if (exists k | 0 <= k < |candidates| :: candidates[k].0 == i) && rows[i].status == Confirmed && !rows[i].checkedIn
         then Booking(rows[i].resource, rows[i].start, rows[i].end, NoShow, false, rows[i].mode, rows[i].title, rows[i].version + 1)
         else rows[i]
  {
    TickReleasesExactly(rows, candidates);
  }
}
