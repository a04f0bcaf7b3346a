/** The bookings table and the resource forest: the queries and row writes of
    the PostgreSQL repository, as functions of the table. */
module BookingStore {
  import opened Wrappers

  type Id = string
  /** A UTC instant. */
  type Instant = int

  datatype Status = PendingApproval | Confirmed | Cancelled | CheckedIn | NoShow | Exception
  datatype Mode = Exclusive | Shared

  datatype Booking = Booking(resource: Id, start: Instant, end: Instant, status: Status,
                             checkedIn: bool, mode: Mode, title: string, version: nat)

  datatype Resource = Resource(parent: Option<Id>, mode: Mode, sharedCapacity: int, capacity: int,
                               isActive: bool, requiresApproval: bool)

  type Table = map<Id, Booking>
  type Forest = map<Id, Resource>

  /** The three statuses that every overlap query filters on. */
  predicate Active(b: Booking) {
    b.status == Confirmed || b.status == PendingApproval || b.status == CheckedIn
  }

  /** `start_time < end AND end_time > start`. */
  predicate Overlaps(b: Booking, start: Instant, end: Instant) {
    b.start < end && b.end > start
  }

  /** Two rows hold a common instant of the half-open windows. */
  predicate Clash(x: Booking, y: Booking) {
    Overlaps(x, y.start, y.end)
  }

  function ParentOf(forest: Forest, r: Id): Option<Id> {
    if r in forest then forest[r].parent else None
  }

  /** A row counts against `r` when its resource is `r`, the parent of `r` or a child of `r`. */
  predicate Related(forest: Forest, r: Id, other: Id) {
    r == other || ParentOf(forest, r) == Some(other) || ParentOf(forest, other) == Some(r)
  }

  predicate IsShared(forest: Forest, r: Id) {
    r in forest && forest[r].mode == Shared
  }

  /** The ids of the active rows on `r` or its parent or children that meet the window. */
  function Conflicts(rows: Table, forest: Forest, r: Id, start: Instant, end: Instant): set<Id> {
    set i | i in rows && Related(forest, r, rows[i].resource) && Active(rows[i]) && Overlaps(rows[i], start, end)
  }

  predicate HasConflict(rows: Table, forest: Forest, r: Id, start: Instant, end: Instant) {
    Conflicts(rows, forest, r, start, end) != {}
  }

  /** The ids counted by the shared-capacity query; `exclude` is the row being moved, if any. */
  function Concurrent(rows: Table, r: Id, start: Instant, end: Instant, exclude: Option<Id>): set<Id> {
    set i | i in rows && rows[i].resource == r && Active(rows[i]) && Overlaps(rows[i], start, end) && exclude != Some(i)
  }

  /** The number of places the validator grants on a shared resource. */
  function EffectiveCapacity(r: Resource): int {
    if r.sharedCapacity > 0 then r.sharedCapacity else if r.capacity > 0 then r.capacity else 1
  }

  /** Whether the row falls under the bookings_no_overlap EXCLUDE constraint. */
  predicate Guarded(b: Booking) {
    Active(b) && b.mode == Exclusive
  }

  /** `&&` on two `[)` ranges: an empty range meets nothing. */
  predicate RangesMeet(x: Booking, y: Booking) {
    x.start < x.end && y.start < y.end && x.start < y.end && y.start < x.end
  }

  predicate Excluded(rows: Table, id: Id, b: Booking) {
    Guarded(b) && exists j | j in rows && j != id :: Guarded(rows[j]) && rows[j].resource == b.resource && RangesMeet(rows[j], b)
  }

  datatype SaveResult = Saved(rows: Table) | ConcurrencyConflict | BadRange

  /** The row `Save` would leave: an insert starts at version 1; an update keeps the columns the
      ON CONFLICT clause does not set and counts the version up. */
  function RowToWrite(rows: Table, id: Id, b: Booking): Booking {
    if id in rows then b.(resource := rows[id].resource, mode := rows[id].mode, version := rows[id].version + 1)
    else b.(version := 1)
  }

  function Save(rows: Table, id: Id, b: Booking): SaveResult {
    var row := RowToWrite(rows, id, b);
    if b.end < b.start then BadRange
    else if id in rows && rows[id].version != b.version then ConcurrencyConflict
    else if Excluded(rows, id, row) then ConcurrencyConflict
    else Saved(rows[id := row])
  }

  /** Writes the status alone: no version check and no version bump. The EXCLUDE constraint still
      applies, and a refused write leaves the table as it was. */
  function UpdateStatus(rows: Table, id: Id, status: Status): Table {
    if id !in rows then rows
    else
      var row := rows[id].(status := status);
      if Excluded(rows, id, row) then rows else rows[id := row]
  }
}
