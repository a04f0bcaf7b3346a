/** The booking use cases as steps on the table: create, reschedule, cancel, approve, reject,
    auto-release and recurrence expansion, and what every serial run of them keeps. */
module BookingUseCases {
  import opened Wrappers
  import opened BookingStore

  /** What the step reads from outside the table: the clock, the holiday calendar, the per-user
      limit, the service lines, the privilege matrix and the approval chain. */
  datatype Env = Env(now: Instant, holiday: bool, withinLimit: bool, servicesValid: bool,
                     deny: bool, forceApproval: bool, chainLevels: nat)

  const ONE_MINUTE: int := 60_000_000_000

  /** The shared validator: `None` is a rejection, `Some(a)` says whether approval is required. */
  function Validate(rows: Table, forest: Forest, r: Id, start: Instant, end: Instant,
                    exclude: Option<Id>, env: Env): Option<bool>
  {
    if env.holiday then None
    else if r in forest && !forest[r].isActive then None
    else if IsShared(forest, r) && |Concurrent(rows, r, start, end, exclude)| >= EffectiveCapacity(forest[r]) then None
    else if !IsShared(forest, r) && exclude == None && HasConflict(rows, forest, r, start, end) then None
    else if env.deny then None
    else Some((r in forest && forest[r].requiresApproval) || env.forceApproval)
  }

  function ModeOf(forest: Forest, r: Id): Mode {
    if IsShared(forest, r) then Shared else Exclusive
  }

  /** `id` is a new UUID, so an id already in the table is not a step. */
  function Create(rows: Table, forest: Forest, id: Id, r: Id, start: Instant, end: Instant,
                  title: string, env: Env): Table
  {
    if id in rows || end <= start || start < env.now - ONE_MINUTE || !env.servicesValid || !env.withinLimit then rows
    else
      match Validate(rows, forest, r, start, end, None, env)
      case None => rows
      case Some(approval) =>
        var status := if approval then PendingApproval else Confirmed;
        match Save(rows, id, Booking(r, start, end, status, false, ModeOf(forest, r), title, 1))
        case Saved(rows') =>
          if r in forest && env.chainLevels > 0 && status != PendingApproval
          then UpdateStatus(rows', id, PendingApproval) else rows'
        case _ => rows
  }

  /** An update. A window that is left out is the booking's own; only a changed one is validated. */
  function Reschedule(rows: Table, forest: Forest, id: Id, start: Instant, end: Instant, title: Option<string>, env: Env): Table
  {
    if id !in rows || rows[id].status == Cancelled || rows[id].status == NoShow then rows
    else
      var b := if title.Some? then rows[id].(title := title.value) else rows[id];
      if start == b.start && end == b.end then SavedOr(rows, id, b)
      else if end <= start then rows
      else
        match Validate(rows, forest, b.resource, start, end, Some(id), env)
        case None => rows
        case Some(approval) =>
          var status := if approval && b.status == Confirmed then PendingApproval else b.status;
          SavedOr(rows, id, b.(start := start, end := end, status := status))
  }

  /** The table after the save, or unchanged if the save fails. */
  function SavedOr(rows: Table, id: Id, b: Booking): Table {
    var saved := Save(rows, id, b);
    if saved.Saved? then saved.rows else rows
  }

  function Cancel(rows: Table, id: Id): Table {
    if id in rows && rows[id].status != Cancelled then UpdateStatus(rows, id, Cancelled) else rows
  }

  function Approve(rows: Table, id: Id): Table {
    if id in rows && rows[id].status == PendingApproval then UpdateStatus(rows, id, Confirmed) else rows
  }

  function Reject(rows: Table, id: Id, reason: string): Table {
    if reason != "" && id in rows && (rows[id].status == PendingApproval || rows[id].status == Confirmed)
    then UpdateStatus(rows, id, Cancelled) else rows
  }

  /** What a decision on an approval chain writes: the last approval confirms, a rejection cancels, and neither reads the
      booking's status. */
  function Decide(rows: Table, id: Id, confirmed: bool): Table {
    UpdateStatus(rows, id, if confirmed then Confirmed else Cancelled)
  }

  /** One candidate of an auto-release tick, as the lister read it. */
  function Release(rows: Table, id: Id, b: Booking): Table {
    if b.status != Confirmed || b.checkedIn then rows
    else
      match Save(rows, id, b.(status := NoShow))
      case Saved(rows') => rows'
      case _ => rows
  }

  function Tick(rows: Table, candidates: seq<(Id, Booking)>): Table
    decreases |candidates|
  {
    if candidates == [] then rows
    else Tick(Release(rows, candidates[0].0, candidates[0].1), candidates[1..])
  }

  /** The candidates a lister can return: rows of the table at the time of the tick. */
  predicate Listed(rows: Table, candidates: seq<(Id, Booking)>) {
    && (forall k | 0 <= k < |candidates| :: candidates[k].0 in rows && candidates[k].1 == rows[candidates[k].0])
    && (forall k, l | 0 <= k < l < |candidates| :: candidates[k].0 != candidates[l].0)
  }

  datatype Occurrence = Occurrence(id: Id, start: Instant, end: Instant)

  /** One occurrence of a series; it is saved with the default, exclusive mode. */
  function Occur(rows: Table, forest: Forest, r: Id, o: Occurrence): Table {
    if o.id in rows || HasConflict(rows, forest, r, o.start, o.end) then rows
    else
      match Save(rows, o.id, Booking(r, o.start, o.end, Confirmed, false, Exclusive, "", 1))
      case Saved(rows') => rows'
      case _ => rows
  }

  function Series(rows: Table, forest: Forest, r: Id, os: seq<Occurrence>): Table
    decreases |os|
  {
    if os == [] then rows else Series(Occur(rows, forest, r, os[0]), forest, r, os[1..])
  }

  /** No two active rows clash on one exclusive resource or across an exclusive parent and child. */
  ghost predicate NoDoubleBooking(rows: Table, forest: Forest) {
    forall i, j | i in rows && j in rows && i != j && Active(rows[i]) && Active(rows[j])
      && !IsShared(forest, rows[i].resource) && !IsShared(forest, rows[j].resource)
      && Related(forest, rows[i].resource, rows[j].resource) :: !Clash(rows[i], rows[j])
  }

  /** One step of the serial history. */
  datatype Op =
    | OpCreate(id: Id, r: Id, start: Instant, end: Instant, title: string, env: Env)
    | OpSeries(r: Id, occurrences: seq<Occurrence>)
    | OpCancel(id: Id)
    | OpApprove(id: Id)
    | OpReject(id: Id, reason: string)
    | OpTick(listed: set<Id>)
    | OpReschedule(id: Id, start: Instant, end: Instant, newTitle: Option<string>, env: Env)
    | OpDecide(id: Id, confirmed: bool)

  /** The listed rows in some fixed order; the order does not matter to what is kept. */
  ghost function Candidates(rows: Table, ids: set<Id>): (c: seq<(Id, Booking)>)
    ensures forall k | 0 <= k < |c| :: c[k].0 in ids && c[k].0 in rows && c[k].1 == rows[c[k].0]
    ensures forall k, l | 0 <= k < l < |c| :: c[k].0 != c[l].0
  {
    if ids == {} then []
    else
      var i :| i in ids;
      var rest := Candidates(rows, ids - {i});
      if i in rows then [(i, rows[i])] + rest else rest
  }

  ghost function Step(rows: Table, forest: Forest, op: Op): Table {
    match op
    case OpCreate(id, r, start, end, title, env) => Create(rows, forest, id, r, start, end, title, env)
    case OpSeries(r, os) => Series(rows, forest, r, os)
    case OpCancel(id) => Cancel(rows, id)
    case OpApprove(id) => Approve(rows, id)
    case OpReject(id, reason) => Reject(rows, id, reason)
    case OpTick(ids) => Tick(rows, Candidates(rows, ids))
    case OpReschedule(id, start, end, title, env) => Reschedule(rows, forest, id, start, end, title, env)
    case OpDecide(id, confirmed) => Decide(rows, id, confirmed)
  }

  ghost function Run(rows: Table, forest: Forest, ops: seq<Op>): Table
    decreases |ops|
  {
    if ops == [] then rows else Run(Step(rows, forest, ops[0]), forest, ops[1..])
  }

  // ---- What each write keeps ----

  /** `to` comes from `rows` by changing rows only so that no row becomes active or moves while active. */
  ghost predicate Shrinks(rows: Table, to: Table) {
    to.Keys == rows.Keys && forall i | i in to && Active(to[i]) ::
      Active(rows[i]) && to[i].resource == rows[i].resource && to[i].start == rows[i].start && to[i].end == rows[i].end
  }

  lemma ShrinkingKeeps(rows: Table, to: Table, forest: Forest)
    requires NoDoubleBooking(rows, forest) && Shrinks(rows, to)
    ensures NoDoubleBooking(to, forest)
  {
  }

  /** A fresh row keeps the invariant when the conflict query was empty or its resource is shared. */
  lemma InsertKeeps(rows: Table, forest: Forest, id: Id, b: Booking)
    requires NoDoubleBooking(rows, forest) && id !in rows
    requires IsShared(forest, b.resource) || !HasConflict(rows, forest, b.resource, b.start, b.end)
    ensures NoDoubleBooking(rows[id := b], forest)
  {
    var rows' := rows[id := b];
    forall i, j | i in rows' && j in rows' && i != j && Active(rows'[i]) && Active(rows'[j])
      && !IsShared(forest, rows'[i].resource) && !IsShared(forest, rows'[j].resource)
      && Related(forest, rows'[i].resource, rows'[j].resource)
      ensures !Clash(rows'[i], rows'[j])
    {
      if i == id {
        assert j !in Conflicts(rows, forest, b.resource, b.start, b.end);
      } else if j == id {
        assert i !in Conflicts(rows, forest, b.resource, b.start, b.end);
      }
    }
  }

  lemma StatusKeeps(rows: Table, forest: Forest, id: Id, status: Status)
    requires NoDoubleBooking(rows, forest)
    requires id in rows ==> Active(rows[id]) || !Active(rows[id].(status := status))
    ensures NoDoubleBooking(UpdateStatus(rows, id, status), forest)
  {
    if id in rows {
      ShrinkingKeeps(rows, UpdateStatus(rows, id, status), forest);
    }
  }

  lemma CreateKeeps(rows: Table, forest: Forest, id: Id, r: Id, start: Instant, end: Instant, title: string, env: Env)
    requires NoDoubleBooking(rows, forest)
    ensures NoDoubleBooking(Create(rows, forest, id, r, start, end, title, env), forest)
  {
    var v := Validate(rows, forest, r, start, end, None, env);
    if id !in rows && v.Some? {
      var status := if v.value then PendingApproval else Confirmed;
      var b := Booking(r, start, end, status, false, ModeOf(forest, r), title, 1);
      InsertKeeps(rows, forest, id, b);
      StatusKeeps(rows[id := b], forest, id, PendingApproval);
    }
  }

  lemma {:induction false} SeriesKeeps(rows: Table, forest: Forest, r: Id, os: seq<Occurrence>)
    requires NoDoubleBooking(rows, forest)
    ensures NoDoubleBooking(Series(rows, forest, r, os), forest)
    decreases |os|
  {
    if os != [] {
      var o := os[0];
      if o.id !in rows && !HasConflict(rows, forest, r, o.start, o.end) {
        InsertKeeps(rows, forest, o.id, Booking(r, o.start, o.end, Confirmed, false, Exclusive, "", 1));
      }
      SeriesKeeps(Occur(rows, forest, r, o), forest, r, os[1..]);
    }
  }

  lemma ReleaseShrinks(rows: Table, id: Id, b: Booking)
    requires id in rows
    ensures Shrinks(rows, Release(rows, id, b))
    ensures forall j | j in rows && j != id :: Release(rows, id, b)[j] == rows[j]
  {
  }

  ghost predicate Named(candidates: seq<(Id, Booking)>, id: Id) {
    exists k | 0 <= k < |candidates| :: candidates[k].0 == id
  }

  predicate Releasable(b: Booking) { b.status == Confirmed && !b.checkedIn }

  function NoShowOf(b: Booking): Booking { b.(status := NoShow, version := b.version + 1) }

  /** The table with the named rows that nobody checked in to as no-shows. */
  ghost function Released(rows: Table, candidates: seq<(Id, Booking)>): Table {
    map i | i in rows :: if Named(candidates, i) && Releasable(rows[i]) then NoShowOf(rows[i]) else rows[i]
  }

  lemma NamedFirst(candidates: seq<(Id, Booking)>, id: Id)
    requires candidates != []
    ensures Named(candidates, id) <==> candidates[0].0 == id || Named(candidates[1..], id)
  {
    if Named(candidates[1..], id) {
      var k :| 0 <= k < |candidates| - 1 && candidates[1..][k].0 == id;
      assert candidates[k + 1].0 == id;
    }
  }

  lemma ReleaseWrites(rows: Table, id: Id)
    requires id in rows && rows[id].start <= rows[id].end
    ensures Release(rows, id, rows[id]) == if Releasable(rows[id]) then rows[id := NoShowOf(rows[id])] else rows
  {
  }

  /** A tick over rows as they were listed turns exactly the confirmed ones that nobody checked in to into no-shows. */
  lemma {:induction false} TickReleasesExactly(rows: Table, candidates: seq<(Id, Booking)>)
    requires Listed(rows, candidates) && forall i | i in rows :: rows[i].start <= rows[i].end
    ensures Tick(rows, candidates) == Released(rows, candidates)
    decreases |candidates|
  {
    hide Release, Named;
    if candidates == [] {
      assert forall i :: !Named([], i) by { NoneNamed(); }
      assert Released(rows, candidates) == rows;
    } else {
      var (id, b) := candidates[0];
      var rows', rest := Release(rows, id, b), candidates[1..];
      ReleaseWrites(rows, id);
      TickReleasesExactly(rows', rest);
      assert !Named(rest, id) by { OthersNamed(rows, candidates); }
      forall i | i in rows ensures Released(rows', rest)[i] == Released(rows, candidates)[i] {
        NamedFirst(candidates, i);
      }
    }
  }

  lemma NoneNamed()
    ensures forall i :: !Named([], i)
  {
  }

  lemma OthersNamed(rows: Table, candidates: seq<(Id, Booking)>)
    requires Listed(rows, candidates) && candidates != []
    ensures !Named(candidates[1..], candidates[0].0)
  {
  }

  lemma {:induction false} TickKeeps(rows: Table, forest: Forest, candidates: seq<(Id, Booking)>)
    requires NoDoubleBooking(rows, forest) && Listed(rows, candidates)
    ensures NoDoubleBooking(Tick(rows, candidates), forest)
    decreases |candidates|
  {
    if candidates != [] {
      var rows' := Release(rows, candidates[0].0, candidates[0].1);
      ReleaseShrinks(rows, candidates[0].0, candidates[0].1);
      ShrinkingKeeps(rows, rows', forest);
      TickKeeps(rows', forest, candidates[1..]);
    }
  }

  /** Everything the step reads from outside lets the booking through. */
  predicate Permissive(env: Env, start: Instant) {
    !env.holiday && env.withinLimit && env.servicesValid && !env.deny && start >= env.now - ONE_MINUTE
  }

  /** No active row on the resource, its parent or its children meets the window; siblings do not matter. */
  predicate FreeOfRelatives(rows: Table, forest: Forest, r: Id, start: Instant, end: Instant) {
    forall i | i in rows && Active(rows[i]) && Related(forest, r, rows[i].resource) :: !Overlaps(rows[i], start, end)
  }

  /** A create goes through exactly when its window is proper, everything outside the table lets it through, the
      resource is not inactive and has room: a place left if it is shared, otherwise no active relative. */
  lemma CreateAdmitsIff(rows: Table, forest: Forest, id: Id, r: Id, start: Instant, end: Instant, title: string, env: Env)
    requires id !in rows
    ensures id in Create(rows, forest, id, r, start, end, title, env) <==> (
      && start < end && Permissive(env, start) && (r in forest ==> forest[r].isActive)
      && (if IsShared(forest, r) then |Concurrent(rows, r, start, end, None)| < EffectiveCapacity(forest[r])
          else FreeOfRelatives(rows, forest, r, start, end)))
  {
    hide EffectiveCapacity, Concurrent;
    FreeIffNoConflict(rows, forest, r, start, end);
    if !IsShared(forest, r) && FreeOfRelatives(rows, forest, r, start, end) {
      forall status, version ensures !Excluded(rows, id, Booking(r, start, end, status, false, Exclusive, title, version)) {}
    }
  }

  lemma FreeIffNoConflict(rows: Table, forest: Forest, r: Id, start: Instant, end: Instant)
    ensures FreeOfRelatives(rows, forest, r, start, end) <==> !HasConflict(rows, forest, r, start, end)
  {
    if FreeOfRelatives(rows, forest, r, start, end) {
      assert forall i :: i !in Conflicts(rows, forest, r, start, end);
    } else {
      var i :| i in rows && Active(rows[i]) && Related(forest, r, rows[i].resource) && Overlaps(rows[i], start, end);
      assert i in Conflicts(rows, forest, r, start, end);
    }
  }

  const TwoChildren: Forest := map["court" := Resource(None, Exclusive, 1, 1, true, false),
                                   "left" := Resource(Some("court"), Exclusive, 1, 1, true, false),
                                   "right" := Resource(Some("court"), Exclusive, 1, 1, true, false)]

  /** Two children of one parent can hold the same window after a run. */
  lemma SiblingsMayOverlap(env: Env)
    requires Permissive(env, 0)
    ensures
      var end := Run(map[], TwoChildren, [OpCreate("a", "left", 0, 10, "", env), OpCreate("b", "right", 0, 10, "", env)]);
      && "a" in end && "b" in end && Active(end["a"]) && Active(end["b"])
      && end["a"].resource == "left" && end["b"].resource == "right" && Clash(end["a"], end["b"])
  {
    hide Create;
    var opA := OpCreate("a", "left", 0, 10, "", env);
    var opB := OpCreate("b", "right", 0, 10, "", env);
    var one := Step(map[], TwoChildren, opA);
    CreateAdmitsIff(map[], TwoChildren, "a", "left", 0, 10, "", env);
    CreateWrites(map[], TwoChildren, "a", "left", 0, 10, "", env);
    CreateAdmitsIff(one, TwoChildren, "b", "right", 0, 10, "", env);
    CreateWrites(one, TwoChildren, "b", "right", 0, 10, "", env);
    assert [opA, opB][1..] == [opB] && [opB][1..] == [];
    assert Run(map[], TwoChildren, [opA, opB]) == Run(one, TwoChildren, [opB]);
    assert Run(one, TwoChildren, [opB]) == Step(one, TwoChildren, opB);
  }

  predicate NeedsApproval(forest: Forest, r: Id, env: Env) {
    r in forest && (forest[r].requiresApproval || env.chainLevels > 0)
  }

  /** A create adds its own row with the window asked for, or nothing. The row waits for approval exactly when the
      resource, its chain or the privilege policy asks for it. */
  lemma CreateWrites(rows: Table, forest: Forest, id: Id, r: Id, start: Instant, end: Instant, title: string, env: Env)
    requires id !in rows
    ensures var rows' := Create(rows, forest, id, r, start, end, title, env);
      && (id !in rows' ==> rows' == rows)
      && (id in rows' ==> rows' == rows[id := Booking(r, start, end,
            if NeedsApproval(forest, r, env) || env.forceApproval then PendingApproval else Confirmed,
            false, ModeOf(forest, r), title, 1)])
  {
    var v := Validate(rows, forest, r, start, end, None, env);
    if v.Some? {
      var status := if v.value then PendingApproval else Confirmed;
      var b := Booking(r, start, end, status, false, ModeOf(forest, r), title, 1);
      assert Excluded(rows[id := b], id, b.(status := PendingApproval)) ==> Excluded(rows, id, b);
    }
  }

  // ---- Rescheduling an exclusive booking skips the composite check ----

  /** The rows the skipped check would have found on exclusive relatives, the moved row left out. */
  function MissedConflicts(rows: Table, forest: Forest, id: Id, start: Instant, end: Instant): set<Id>
    requires id in rows
  {
    set i | i in Conflicts(rows, forest, rows[id].resource, start, end) && i != id && !IsShared(forest, rows[i].resource)
  }

  /** What a changed window must meet: it is proper, the day is no holiday, the resource is not inactive, a shared one has
      a place left beside the booking itself, and the privilege policy does not refuse. Relatives are not looked at. */
  predicate WindowAdmitted(rows: Table, forest: Forest, id: Id, start: Instant, end: Instant, env: Env)
    requires id in rows
  {
    var r := rows[id].resource;
    && start < end && !env.holiday && !env.deny && (r in forest ==> forest[r].isActive)
    && (IsShared(forest, r) ==> |Concurrent(rows, r, start, end, Some(id))| < EffectiveCapacity(forest[r]))
  }

  /** No other guarded booking of the resource holds an instant of the window. */
  predicate KeepsClear(rows: Table, id: Id, start: Instant, end: Instant)
    requires id in rows
  {
    Guarded(rows[id]) && start < end ==>
      forall j | j in rows && j != id && Guarded(rows[j]) && rows[j].resource == rows[id].resource ::
        rows[j].start < rows[j].end ==> !Overlaps(rows[j], start, end)
  }

  /** The booking is neither cancelled nor expired, a changed window is admitted, and no other exclusive booking of the
      same resource is in the way. */
  predicate UpdateAdmitted(rows: Table, forest: Forest, id: Id, start: Instant, end: Instant, env: Env) {
    && id in rows && rows[id].status != Cancelled && rows[id].status != NoShow && start <= end
    && (start != rows[id].start || end != rows[id].end ==> WindowAdmitted(rows, forest, id, start, end, env))
    && KeepsClear(rows, id, start, end)
  }

  /** An update goes through exactly when it is admitted. */
  lemma RescheduleAdmitsIff(rows: Table, forest: Forest, id: Id, start: Instant, end: Instant, title: Option<string>, env: Env)
    ensures Reschedule(rows, forest, id, start, end, title, env) != rows <==> UpdateAdmitted(rows, forest, id, start, end, env)
  {
    hide Concurrent, EffectiveCapacity, Conflicts;
    if id in rows && rows[id].status != Cancelled && rows[id].status != NoShow {
      var b := if title.Some? then rows[id].(title := title.value) else rows[id];
      forall status | Active(b.(status := status)) <==> Active(b) {
        SavesIff(rows, id, b.(start := start, end := end, status := status));
      }
      SavesIff(rows, id, b);
    }
  }

  /** A save of a row's own resource and version goes through exactly when nothing is in the way. */
  lemma SavesIff(rows: Table, id: Id, b: Booking)
    requires id in rows && b.resource == rows[id].resource && b.version == rows[id].version && b.mode == rows[id].mode
    requires Active(b) <==> Active(rows[id])
    ensures SavedOr(rows, id, b) != rows <==> b.start <= b.end && KeepsClear(rows, id, b.start, b.end)
  {
    if Save(rows, id, b).Saved? { assert SavedOr(rows, id, b)[id].version == rows[id].version + 1; }
  }

  /** An update that goes through moves its own active row and leaves the rest. */
  lemma RescheduleWrites(rows: Table, forest: Forest, id: Id, start: Instant, end: Instant, title: Option<string>, env: Env)
    requires id in rows && Active(rows[id]) && Reschedule(rows, forest, id, start, end, title, env) != rows
    ensures var rows' := Reschedule(rows, forest, id, start, end, title, env);
      && id in rows' && rows' == rows[id := rows'[id]] && Active(rows'[id]) && rows'[id].resource == rows[id].resource
      && rows'[id].start == start && rows'[id].end == end && !Excluded(rows, id, rows'[id])
      && rows'[id].mode == rows[id].mode && rows'[id].version == rows[id].version + 1
      && rows'[id].title == (if title.Some? then title.value else rows[id].title)
      && rows'[id].status == (
        if (start != rows[id].start || end != rows[id].end) && rows[id].status == Confirmed
          && (env.forceApproval || (rows[id].resource in forest && forest[rows[id].resource].requiresApproval))
        then PendingApproval else rows[id].status)
  {
    hide Excluded, Conflicts, Concurrent;
  }

  /** A successful reschedule keeps the invariant exactly when the check it skips would have passed. */
  lemma RescheduleKeepsIff(rows: Table, forest: Forest, id: Id, start: Instant, end: Instant, title: Option<string>, env: Env)
    requires NoDoubleBooking(rows, forest)
    requires id in rows && Active(rows[id]) && !IsShared(forest, rows[id].resource)
    requires Reschedule(rows, forest, id, start, end, title, env) != rows
    ensures NoDoubleBooking(Reschedule(rows, forest, id, start, end, title, env), forest)
      <==> MissedConflicts(rows, forest, id, start, end) == {}
  {
    hide Reschedule, IsShared;
    var rows' := Reschedule(rows, forest, id, start, end, title, env);
    var missed := MissedConflicts(rows, forest, id, start, end);
    RescheduleWrites(rows, forest, id, start, end, title, env);
    assert Related(forest, rows[id].resource, rows[id].resource);
    if missed != {} {
      var i :| i in missed;
      assert Clash(rows'[i], rows'[id]);
    } else {
      forall i | i in rows && i != id && Active(rows[i]) && !IsShared(forest, rows[i].resource)
        && Related(forest, rows[id].resource, rows[i].resource)
        ensures !Overlaps(rows[i], start, end)
      {
        assert i !in missed;
      }
    }
  }

  /** Where there is no parent and no child the EXCLUDE constraint alone is enough. */
  lemma StandaloneRescheduleKeeps(rows: Table, forest: Forest, id: Id, start: Instant, end: Instant, title: Option<string>, env: Env)
    requires NoDoubleBooking(rows, forest)
    requires id in rows && Active(rows[id]) && !IsShared(forest, rows[id].resource)
    requires forall i | i in rows && Related(forest, rows[id].resource, rows[i].resource) :: rows[i].resource == rows[id].resource
    requires forall i | i in rows && rows[i].resource == rows[id].resource :: rows[i].mode == Exclusive && rows[i].start < rows[i].end
    ensures NoDoubleBooking(Reschedule(rows, forest, id, start, end, title, env), forest)
  {
    var rows' := Reschedule(rows, forest, id, start, end, title, env);
    if rows' != rows {
      RescheduleKeepsIff(rows, forest, id, start, end, title, env);
      if i :| i in MissedConflicts(rows, forest, id, start, end) {
        RescheduleWrites(rows, forest, id, start, end, title, env);
        assert RangesMeet(rows[i], rows'[id]);
      }
    }
  }

  /** Moving a row that is not active, or is on a shared resource, cannot double book. */
  lemma IdleRescheduleKeeps(rows: Table, forest: Forest, id: Id, start: Instant, end: Instant, title: Option<string>, env: Env)
    requires NoDoubleBooking(rows, forest)
    requires id in rows ==> !Active(rows[id]) || IsShared(forest, rows[id].resource)
    ensures NoDoubleBooking(Reschedule(rows, forest, id, start, end, title, env), forest)
  {
    hide IsShared, Excluded, Conflicts, Concurrent;
  }

  // ---- Confirming by decision does not look at the table either ----

  /** A confirmation that goes through keeps the invariant exactly when no exclusive relative is in the booking's own
      window; that is always so while the booking is active, and may fail once it was cancelled. */
  lemma DecideKeepsIff(rows: Table, forest: Forest, id: Id)
    requires NoDoubleBooking(rows, forest) && id in rows && !IsShared(forest, rows[id].resource)
    requires Decide(rows, id, true)[id].status == Confirmed
    ensures NoDoubleBooking(Decide(rows, id, true), forest) <==> MissedConflicts(rows, forest, id, rows[id].start, rows[id].end) == {}
    ensures Active(rows[id]) ==> NoDoubleBooking(Decide(rows, id, true), forest)
  {
    hide IsShared, Excluded;
    var rows', missed := Decide(rows, id, true), MissedConflicts(rows, forest, id, rows[id].start, rows[id].end);
    assert rows' == rows[id := rows[id].(status := Confirmed)] || rows' == rows;
    if missed != {} {
      var i :| i in missed;
      assert Clash(rows'[i], rows'[id]);
    } else {
      forall i | i in rows && i != id && Active(rows[i]) && !IsShared(forest, rows[i].resource)
        && Related(forest, rows[id].resource, rows[i].resource)
        ensures !Clash(rows[i], rows[id])
      {
        assert i !in missed;
      }
    }
    if Active(rows[id]) { ActiveMissesNone(rows, forest, id); }
  }

  lemma ActiveMissesNone(rows: Table, forest: Forest, id: Id)
    requires NoDoubleBooking(rows, forest) && id in rows && Active(rows[id]) && !IsShared(forest, rows[id].resource)
    ensures MissedConflicts(rows, forest, id, rows[id].start, rows[id].end) == {}
  {
    hide IsShared;
    assert forall i | i in rows && i != id && Active(rows[i]) && !IsShared(forest, rows[i].resource)
      && Related(forest, rows[id].resource, rows[i].resource) :: !Clash(rows[i], rows[id]);
  }

  lemma DecideKeeps(rows: Table, forest: Forest, id: Id, confirmed: bool)
    requires NoDoubleBooking(rows, forest) && SafeStep(rows, forest, OpDecide(id, confirmed))
    ensures NoDoubleBooking(Decide(rows, id, confirmed), forest)
  {
    hide NoDoubleBooking, MissedConflicts, IsShared, Excluded;
    if !confirmed {
      StatusKeeps(rows, forest, id, Cancelled);
    } else if id in rows && Decide(rows, id, true) != rows {
      if IsShared(forest, rows[id].resource) {
        SharedStatusKeeps(rows, forest, id);
      } else {
        DecideKeepsIff(rows, forest, id);
      }
    }
  }

  lemma SharedStatusKeeps(rows: Table, forest: Forest, id: Id)
    requires NoDoubleBooking(rows, forest) && id in rows && IsShared(forest, rows[id].resource)
    ensures NoDoubleBooking(UpdateStatus(rows, id, Confirmed), forest)
  {
    hide Excluded;
  }

  // ---- Whole runs ----

  /** The step neither moves nor revives a booking into an exclusive relative's window. */
  ghost predicate SafeStep(rows: Table, forest: Forest, op: Op) {
    && (op.OpReschedule? && op.id in rows && Active(rows[op.id]) && !IsShared(forest, rows[op.id].resource)
        ==> MissedConflicts(rows, forest, op.id, op.start, op.end) == {})
    && (op.OpDecide? && op.confirmed && op.id in rows && !IsShared(forest, rows[op.id].resource)
        ==> MissedConflicts(rows, forest, op.id, rows[op.id].start, rows[op.id].end) == {})
  }

  ghost predicate SafeRun(rows: Table, forest: Forest, ops: seq<Op>)
    decreases |ops|
  {
    ops == [] || (SafeStep(rows, forest, ops[0]) && SafeRun(Step(rows, forest, ops[0]), forest, ops[1..]))
  }

  lemma StepKeeps(rows: Table, forest: Forest, op: Op)
    requires NoDoubleBooking(rows, forest) && SafeStep(rows, forest, op)
    ensures NoDoubleBooking(Step(rows, forest, op), forest)
  {
    match op
    case OpCreate(id, r, start, end, title, env) => CreateKeeps(rows, forest, id, r, start, end, title, env);
    case OpSeries(r, os) => SeriesKeeps(rows, forest, r, os);
    case OpCancel(id) => StatusKeeps(rows, forest, id, Cancelled);
    case OpApprove(id) =>
      if id in rows && rows[id].status == PendingApproval { StatusKeeps(rows, forest, id, Confirmed); }
    case OpReject(id, reason) => StatusKeeps(rows, forest, id, Cancelled);
    case OpTick(ids) => TickKeeps(rows, forest, Candidates(rows, ids));
    case OpReschedule(id, start, end, title, env) => RescheduleKeeps(rows, forest, id, start, end, title, env);
    case OpDecide(id, confirmed) => DecideKeeps(rows, forest, id, confirmed);
  }

  lemma RescheduleKeeps(rows: Table, forest: Forest, id: Id, start: Instant, end: Instant, title: Option<string>, env: Env)
    requires NoDoubleBooking(rows, forest) && SafeStep(rows, forest, OpReschedule(id, start, end, title, env))
    ensures NoDoubleBooking(Reschedule(rows, forest, id, start, end, title, env), forest)
  {
    hide NoDoubleBooking, Reschedule, MissedConflicts, IsShared;
    if id in rows && Active(rows[id]) && !IsShared(forest, rows[id].resource) {
      if Reschedule(rows, forest, id, start, end, title, env) != rows {
        RescheduleKeepsIff(rows, forest, id, start, end, title, env);
      }
    } else {
      IdleRescheduleKeeps(rows, forest, id, start, end, title, env);
    }
  }

  /** Every serial run whose reschedules and chain decisions are safe ends without a double booking. */
  lemma {:induction false} SafeRunsNeverDoubleBook(rows: Table, forest: Forest, ops: seq<Op>)
    requires NoDoubleBooking(rows, forest) && SafeRun(rows, forest, ops)
    ensures NoDoubleBooking(Run(rows, forest, ops), forest)
    decreases |ops|
  {
    hide NoDoubleBooking, Step, SafeStep;
    if ops != [] {
      StepKeeps(rows, forest, ops[0]);
      SafeRunsNeverDoubleBook(Step(rows, forest, ops[0]), forest, ops[1..]);
    }
  }

  /** In particular every serial run of the other operations does. */
  lemma {:induction false} SerialRunsNeverDoubleBook(rows: Table, forest: Forest, ops: seq<Op>)
    requires NoDoubleBooking(rows, forest) && forall op | op in ops :: !op.OpReschedule? && !(op.OpDecide? && op.confirmed)
    ensures NoDoubleBooking(Run(rows, forest, ops), forest)
  {
    RunWithoutMovesIsSafe(rows, forest, ops);
    SafeRunsNeverDoubleBook(rows, forest, ops);
  }

  lemma {:induction false} RunWithoutMovesIsSafe(rows: Table, forest: Forest, ops: seq<Op>)
    requires forall op | op in ops :: !op.OpReschedule? && !(op.OpDecide? && op.confirmed)
    ensures SafeRun(rows, forest, ops)
    decreases |ops|
  {
    if ops != [] {
      assert ops[0] in ops;
      RunWithoutMovesIsSafe(Step(rows, forest, ops[0]), forest, ops[1..]);
    }
  }

  const ParentAndChild: Forest := map["court" := Resource(None, Exclusive, 1, 1, true, false),
                                      "left" := Resource(Some("court"), Exclusive, 1, 1, true, false)]
  const BothBooked: Table := map["a" := Booking("court", 0, 10, Confirmed, false, Exclusive, "", 1),
                                 "b" := Booking("left", 20, 30, Confirmed, false, Exclusive, "", 1)]

  lemma ChildMoves(env: Env)
    requires !env.holiday && !env.deny
    ensures Reschedule(BothBooked, ParentAndChild, "b", 5, 15, None, env) != BothBooked
  {
    hide NoDoubleBooking, Conflicts, Concurrent;
    var rows := BothBooked;
    assert Validate(rows, ParentAndChild, "left", 5, 15, Some("b"), env).Some?;
    assert rows["b"].resource == "left" && rows["a"].resource == "court";
    forall b | RowToWrite(rows, "b", b).resource == "left" ensures !Excluded(rows, "b", RowToWrite(rows, "b", b)) {}
    assert Reschedule(rows, ParentAndChild, "b", 5, 15, None, env)["b"].start == 5;
  }

  /** A child's booking moved onto its parent's window: the update succeeds and double books. */
  lemma RescheduleCanDoubleBook(env: Env)
    requires !env.holiday && !env.deny
    ensures NoDoubleBooking(BothBooked, ParentAndChild)
    ensures !NoDoubleBooking(Reschedule(BothBooked, ParentAndChild, "b", 5, 15, None, env), ParentAndChild)
  {
    hide Reschedule;
    assert NoDoubleBooking(BothBooked, ParentAndChild);
    ChildMoves(env);
    assert "a" in MissedConflicts(BothBooked, ParentAndChild, "b", 5, 15);
    RescheduleKeepsIff(BothBooked, ParentAndChild, "b", 5, 15, None, env);
  }

  const LeftCancelled: Table := map["a" := Booking("court", 0, 10, Confirmed, false, Exclusive, "", 1),
                                    "b" := Booking("left", 5, 15, Cancelled, false, Exclusive, "", 1)]

  /** The last approval of a booking cancelled meanwhile revives it beside its parent's booking. */
  lemma DecideCanDoubleBook()
    ensures NoDoubleBooking(LeftCancelled, ParentAndChild)
    ensures !NoDoubleBooking(Decide(LeftCancelled, "b", true), ParentAndChild)
  {
    assert LeftCancelled["a"].resource != LeftCancelled["b"].resource;
    assert !Excluded(LeftCancelled, "b", LeftCancelled["b"].(status := Confirmed));
    assert "a" in MissedConflicts(LeftCancelled, ParentAndChild, "b", 5, 15);
    DecideKeepsIff(LeftCancelled, ParentAndChild, "b");
  }
}
