/** The busy filter of the resource search, and its agreement with the checks made at booking time. */
module AvailabilitySearch {
  import opened Wrappers
  import opened BookingStore

  /** `overlap_counts`: the active rows of one resource that meet the window. */
  function OverlapIds(rows: Table, r: Id, start: Instant, end: Instant): set<Id> {
    set i | i in rows && rows[i].resource == r && Active(rows[i]) && rows[i].start < end && rows[i].end > start
  }

  function Counted(rows: Table, start: Instant, end: Instant): set<Id> {
    set i | i in rows && Active(rows[i]) && rows[i].start < end && rows[i].end > start :: rows[i].resource
  }

  function BusyExclusive(rows: Table, forest: Forest, start: Instant, end: Instant): set<Id> {
    set r | r in Counted(rows, start, end) && r in forest && forest[r].mode == Exclusive
  }

  function Greatest(x: int, y: int): int { if x >= y then x else y }

  function BusyShared(rows: Table, forest: Forest, start: Instant, end: Instant): set<Id> {
    set r | r in Counted(rows, start, end) && r in forest && forest[r].mode == Shared
      && |OverlapIds(rows, r, start, end)| >= Greatest(forest[r].sharedCapacity, 1)
  }

  /** The ids the NOT IN subquery selects. */
  function Busy(rows: Table, forest: Forest, start: Instant, end: Instant): set<Id> {
    var excl := BusyExclusive(rows, forest, start, end);
    set r | r in forest
      && (|| r in excl
          || (forest[r].parent.Some? && forest[r].parent.value in excl)
          || (exists c | c in excl :: c in forest && forest[c].parent == Some(r))
          || r in BusyShared(rows, forest, start, end))
  }

  predicate PassesFilter(rows: Table, forest: Forest, r: Id, start: Instant, end: Instant)
    requires r in forest
  {
    r !in Busy(rows, forest, start, end)
  }

  /** What the filter decides, resource by resource: no exclusive relative is taken, and a shared
      resource itself has a place left. */
  lemma FilterMeaning(rows: Table, forest: Forest, r: Id, start: Instant, end: Instant)
    requires r in forest
    ensures PassesFilter(rows, forest, r, start, end) <==>
      && (forall i | i in Conflicts(rows, forest, r, start, end) && rows[i].resource in forest ::
            forest[rows[i].resource].mode == Shared)
      && (forest[r].mode == Shared ==> |OverlapIds(rows, r, start, end)| < Greatest(forest[r].sharedCapacity, 1))
  {
    var excl := BusyExclusive(rows, forest, start, end);
    if i :| i in Conflicts(rows, forest, r, start, end) && rows[i].resource in forest && forest[rows[i].resource].mode == Exclusive {
      assert rows[i].resource in excl;
    }
    if forest[r].mode == Shared && |OverlapIds(rows, r, start, end)| >= Greatest(forest[r].sharedCapacity, 1) {
      var i :| i in OverlapIds(rows, r, start, end);
      assert rows[i].resource in Counted(rows, start, end);
      assert r in BusyShared(rows, forest, start, end);
    }
    if x :| x in excl && Related(forest, r, x) {
      var i :| i in rows && Active(rows[i]) && rows[i].start < end && rows[i].end > start && rows[i].resource == x;
      assert i in Conflicts(rows, forest, r, start, end);
    }
  }

  /** The booked resources are rows of the resource table. */
  predicate ForeignKeys(rows: Table, forest: Forest) {
    forall i | i in rows :: rows[i].resource in forest
  }

  /** With only exclusive relatives the search offers a resource exactly when a booking would find no
      conflict. */
  lemma SearchAgreesOnExclusive(rows: Table, forest: Forest, r: Id, start: Instant, end: Instant)
    requires ForeignKeys(rows, forest) && r in forest
    requires forall x | x in forest && Related(forest, r, x) :: forest[x].mode == Exclusive
    ensures PassesFilter(rows, forest, r, start, end) <==> !HasConflict(rows, forest, r, start, end)
  {
    FilterMeaning(rows, forest, r, start, end);
    if i :| i in Conflicts(rows, forest, r, start, end) {
      assert forest[rows[i].resource].mode == Exclusive;
    }
  }

  /** On a standalone shared resource the search offers a place exactly when the two readings of the
      capacity column fall on the same side of the current load. */
  lemma SearchAgreesOnShared(rows: Table, forest: Forest, r: Id, start: Instant, end: Instant)
    requires r in forest && forest[r].mode == Shared
    requires forall x | x in forest && Related(forest, r, x) :: x == r
    ensures PassesFilter(rows, forest, r, start, end)
      <==> |Concurrent(rows, r, start, end, None)| < Greatest(forest[r].sharedCapacity, 1)
    ensures forest[r].sharedCapacity >= 1 ==>
      (PassesFilter(rows, forest, r, start, end)
       <==> |Concurrent(rows, r, start, end, None)| < EffectiveCapacity(forest[r]))
  {
    FilterMeaning(rows, forest, r, start, end);
    assert OverlapIds(rows, r, start, end) == Concurrent(rows, r, start, end, None);
    forall i | i in Conflicts(rows, forest, r, start, end) && rows[i].resource in forest
      ensures forest[rows[i].resource].mode == Shared
    {
      assert Related(forest, r, rows[i].resource);
    }
  }

  /** The load `n` leaves a place, as the search reads the capacity columns and as the validator does. */
  predicate Offered(res: Resource, n: nat) { n < Greatest(res.sharedCapacity, 1) }
  predicate Bookable(res: Resource, n: nat) { n < EffectiveCapacity(res) }

  /** The two readings agree on every load exactly when the stored shared capacity is positive or the
      fallback grants a single place. */
  lemma CapacityReadingsAgreeIff(res: Resource)
    ensures (forall n: nat :: Offered(res, n) <==> Bookable(res, n)) <==> (res.sharedCapacity >= 1 || res.capacity <= 1)
  {
    if res.sharedCapacity <= 0 && res.capacity > 1 {
      assert !Offered(res, 1) && Bookable(res, 1);
    }
  }

  /** For an exclusive resource in any family, search and booking check agree exactly when nothing conflicts or some
      conflict is on an exclusive relative: bookings on shared relatives count for the check alone. */
  lemma SearchAgreesIff(rows: Table, forest: Forest, r: Id, start: Instant, end: Instant)
    requires ForeignKeys(rows, forest) && r in forest && forest[r].mode == Exclusive
    ensures (PassesFilter(rows, forest, r, start, end) <==> !HasConflict(rows, forest, r, start, end))
      <==> (Conflicts(rows, forest, r, start, end) == {}
            || exists i :: i in Conflicts(rows, forest, r, start, end) && forest[rows[i].resource].mode == Exclusive)
  {
    hide PassesFilter;
    FilterMeaning(rows, forest, r, start, end);
  }

  /** A room of a hall that is shared and booked once: the search offers it, the booking check refuses. */
  lemma RoomOfSharedHall()
    ensures
      var forest: Forest := map["hall" := Resource(None, Shared, 5, 5, true, false),
                                "room" := Resource(Some("hall"), Exclusive, 1, 1, true, false)];
      var rows: Table := map["a" := Booking("hall", 0, 10, Confirmed, false, Shared, "", 1)];
      PassesFilter(rows, forest, "room", 0, 10) && HasConflict(rows, forest, "room", 0, 10)
  {
    var forest: Forest := map["hall" := Resource(None, Shared, 5, 5, true, false),
                              "room" := Resource(Some("hall"), Exclusive, 1, 1, true, false)];
    var rows: Table := map["a" := Booking("hall", 0, 10, Confirmed, false, Shared, "", 1)];
    assert "a" in Conflicts(rows, forest, "room", 0, 10);
    SearchAgreesIff(rows, forest, "room", 0, 10);
  }

  // ---- Stored resources ----

  /** The resource repository's save never stores a shared capacity below 1. */
  function SaveResource(forest: Forest, r: Id, res: Resource): Forest {
    forest[r := res.(sharedCapacity := if res.sharedCapacity < 1 then 1 else res.sharedCapacity)]
  }

  function SaveResources(saves: seq<(Id, Resource)>): Forest {
    if saves == [] then map[]
    else SaveResource(SaveResources(saves[..|saves| - 1]), saves[|saves| - 1].0, saves[|saves| - 1].1)
  }

  lemma {:induction false} StoredCapacityIsPositive(saves: seq<(Id, Resource)>, r: Id)
    requires r in SaveResources(saves)
    ensures SaveResources(saves)[r].sharedCapacity >= 1
  {
    if saves[|saves| - 1].0 != r { StoredCapacityIsPositive(saves[..|saves| - 1], r); }
  }

  /** So on whatever resources were ever saved, search and validator read a capacity the same way, and the search offers
      a standalone shared resource exactly when a booking would find a place. */
  lemma SearchAgreesOnStored(saves: seq<(Id, Resource)>, rows: Table, r: Id, start: Instant, end: Instant)
    requires var forest := SaveResources(saves);
      r in forest && forest[r].mode == Shared && forall x | x in forest && Related(forest, r, x) :: x == r
    ensures var forest := SaveResources(saves);
      && (PassesFilter(rows, forest, r, start, end) <==> |Concurrent(rows, r, start, end, None)| < EffectiveCapacity(forest[r]))
      && forall n: nat :: Offered(forest[r], n) <==> Bookable(forest[r], n)
  {
    hide PassesFilter, SaveResources, Concurrent;
    StoredCapacityIsPositive(saves, r);
    SearchAgreesOnShared(rows, SaveResources(saves), r, start, end);
  }
}
