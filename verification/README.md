# Meeting-room booking: verified model

A Dafny model of the cores of the booking platform's Go service, with proofs of what they promise. Each module
follows one part of the program; code that changes things step by step is a method or a class proved against
functions of its state, and the laws are lemmas about those functions.

- **Booking store** (`BookingStore`, `BookingUseCases`, `BookingsInFull`, `BookingService`, `BookingRaces`, `SharedCapacity`,
  `SharedMoves`, `OptimisticLock`, `AvailabilitySearch`): the bookings table, the parent/child resource forest, the use
  cases as steps, the races between them, and the search filter.
- **Recurrence** (`Calendar`, `Recurrence`, `Occurrences`, `WeeklyRule`, `MonthlyRule`, `RulesInFull`, `LegacyRecurrence`,
  `Text`, `RuleText`, `KnownRules`): the calendar with Go's date normalisation, the RRULE expander, parser and printer
  (a subset of section 3.3.10 of RFC 5545), and the older iterating generator.
- **Approval chain** (`ApprovalChain`, `ApprovalRights`): the dependency graph of steps driven by `Decide`, and who may.
- **Exclusive XML canonicalisation** (`Sorting`, `XmlCanon`, `XmlMeaning`, `XmlExclusive`, `XmlLaws`, `XmlWriter`,
  `XmlText`): the tree transformation of section 3 of W3C Exclusive XML Canonicalization 1.0, a reader for its output,
  and the token writer with its two stacks.
- **CBOR and authenticator data** (`Cbor`, `CborLaws`, `AuthData`, `KnownBytes`): the decoder (section 3 of RFC 8949) on bytes,
  its grammar, and the layout of section 6.1 of Web Authentication.
- **Realtime hub** (`RealtimeHub`, `HubClients`): broadcasts, registrations and queues as interleaved steps, and the hub
  class over them.
- **Audit chain** (`AuditChain`, `AuditOrder`), **iCalendar text** (`IcsText`), **visibility** (`Visibility`).
- `Wrappers` holds the option type.

The laws speak through the names of the model's functions. `BookingsInFull`, `SharedMoves`, `RulesInFull`, `KnownRules`,
`ApprovalRights`, `XmlExclusive`, `KnownBytes`, `HubClients` and `AuditOrder` say what those functions mean with statuses,
numbers, bytes and orders written out, and show them at known inputs.

## What the proofs found

Properties the code meets only under a condition are stated as "if and only if", with a lemma at an input on the
failing side.

- Moving an exclusive booking skips the check of parent and children, which the comment in the update use case
  calls re-validated: it keeps bookings apart exactly when that check would have passed
  (`BookingUseCases.RescheduleKeepsIff`, `BookingUseCases.RescheduleCanDoubleBook`).
- A decision on an approval chain writes the booking's status without reading it: the last approval of a booking that
  was cancelled meanwhile revives it, and can double book (`BookingUseCases.DecideKeepsIff`,
  `BookingUseCases.DecideCanDoubleBook`).
- The check and the save of two creates can interleave. The EXCLUDE constraint keeps rows of one resource apart in
  every interleaving, but a parent and its child can both be booked (`BookingRaces.OneResourceStaysApart`,
  `BookingRaces.WriteKeepsIff`, `BookingRaces.RaceCanDoubleBook`).
- `UpdateStatus` does not count the version up and does not look at the status. A title edit or an approval that read a
  booking before it was cancelled puts it back and can pass a shared resource's capacity
  (`SharedCapacity.PutBackKeepsCapacityIff`, `SharedCapacity.EditsCanExceedCapacity`,
  `SharedCapacity.ApprovalsCanExceedCapacity`, `OptimisticLock.CancellationCanBeLost`).
- The search reads a shared capacity below 1 as 1, the validator falls back to the seat count
  (`AvailabilitySearch.CapacityReadingsAgreeIff`). The save stores no capacity below 1, so on stored resources the two
  always agree (`AvailabilitySearch.SearchAgreesOnStored`). The comment over the filter says siblings make a resource
  busy; the query, like the booking check, looks at parent and children only.
- Bookings on shared relatives count for the booking check and not for the search (`AvailabilitySearch.SearchAgreesIff`,
  `AvailabilitySearch.RoomOfSharedHall`).
- Weekly output is chronological exactly when within each week the listed days that occur come by distance from
  DTSTART's weekday (`WeeklyRule.ChronologicalIff`, `WeeklyRule.FridayBeforeMonday`), and the early return at UNTIL
  bypasses EXDATE (`WeeklyRule.ExDatesHonouredIff`, `WeeklyRule.ExDateSurvivesEarlyReturn`).
- A monthly rule with BYMONTHDAY takes the month from DTSTART's own day, rolled over: it can start before DTSTART, skip
  a short month and emit the next one twice (`MonthlyRule.StartsEarlyIff`, `MonthlyRule.StartsTenDaysEarly`,
  `MonthlyRule.MonthTwiceIff`, `MonthlyRule.MarchComesTwice`).
- The printed form of a rule drops fractions of a second of UNTIL (`RuleText.ReparseIff`,
  `RuleText.HalfSecondIsLost`).
- The older generator steps from the previous date, so a rolled-over month stays rolled over
  (`LegacyRecurrence.MonthlyAgreesIff`, `LegacyRecurrence.JanuaryStaysRolledOver`).
- An approval rule with a cyclic or dangling dependency can never finish unless it is edited
  (`ApprovalChain.CanFinishIffRanked`, `ApprovalChain.CycleNeverConfirms`).
- A minimum grade that is not on the ladder lets everyone pass; the comments in the grade table say that an unknown
  grade and a typo fail the check (`ApprovalRights.EveryoneIsHighEnoughIff`).
- `prefixFor` walks a Go map. With two prefixes for one URI its answers can differ from call to call and a name can be
  lost (`XmlWriter.AnswersAgreeIff`, `XmlWriter.NameSurelyResolvesIff`, `XmlWriter.AmbiguousNameCanBeLost`).
- A name in a namespace that no declared prefix is bound to, such as that of `xml:lang`, is written with its URI for a
  prefix, and an attribute in the default namespace with a colon and no prefix; neither can be read back. An element
  whose prefix was taken back falls into the default namespace (`XmlMeaning.TakenBackPrefixIsLost`,
  `XmlMeaning.ReadableIff`, `XmlMeaning.ReadsBackIff`, `XmlMeaning.AttrNameResolvesIff`, `XmlMeaning.XmlLangIsLost`,
  `XmlMeaning.DefaultAttributeIsLost`).
- A CBOR string whose length puts its end at 2^63 or beyond is a slice out of range (`CborLaws.StringPanicsIff`,
  `CborLaws.DecoderPanicsIff`, `CborLaws.NineBytesPanic`). Maps
  inside the attestation object must have integer keys, so the statement of a packed attestation is refused, although
  the package comment accepts it (`AuthData.NestedTextKeyIsRefused`). The decoder's comment names a recursion limit of
  4; there is none.
- An audit entry saved with a time before the tenant's latest one forks the chain, and the nightly verifier then
  reports a break (`AuditChain.LinkedIffSavedInOrder`, `AuditChain.LateEntryForks`, `AuditChain.VerifierHealthyIff`),
  and a separator inside a field can move a field border unseen (`AuditChain.PayloadUnmistakableIff`,
  `AuditChain.SeparatorsInFieldsCollide`).
- Continuation lines of a folded line have 76 octets with their space, one more than section 3.1 of RFC 5545 allows,
  as soon as the line has 150 (`IcsText.PieceLengths`, `IcsText.LongContinuation`).

## Model

| member | source | states |
|---|---|---|
| BookingUseCases.SafeRunsNeverDoubleBook | src/infrastructure/postgres/booking_repo.go:43-61 | over every serial run of create, series expansion, cancel, approve, reject, auto-release, chain decisions and reschedules in which no decision or reschedule runs into a conflict it does not look for, no two active bookings on one exclusive resource or on an exclusive parent and its child overlap |
| BookingUseCases.SerialRunsNeverDoubleBook | src/application/usecase/booking_validator.go:123-131 | every serial run without reschedules and confirming chain decisions meets that condition |
| BookingUseCases.InsertKeeps | src/infrastructure/postgres/booking_repo.go:43-61 | a row inserted when the overlap query is empty clashes with no exclusive relative, whichever of the two is asked about first |
| BookingUseCases.CreateKeeps | src/application/usecase/create_booking.go:172-309 | a create, its chain status included, never introduces a double booking |
| BookingUseCases.CreateWrites | src/application/usecase/create_booking.go:172-309 | a create adds exactly its own row, with the window, title and booking mode asked for at version 1, pending approval exactly when the resource, its chain or the privilege policy asks for it; or it changes nothing |
| BookingUseCases.CreateAdmitsIff | src/application/usecase/booking_validator.go:69-152 | a create goes through exactly when its window is proper, the outside rules let it through, the resource is not inactive and has a place left if shared, or no active booking on it, its parent or its children in the window if exclusive |
| BookingUseCases.SiblingsMayOverlap | src/infrastructure/postgres/booking_repo.go:43-61 | a run after which two children of one parent hold the same window |
| BookingUseCases.SeriesKeeps | src/application/usecase/expand_recurrence.go:110-137 | expanding a series, skipping what conflicts, never introduces a double booking |
| BookingUseCases.TickKeeps | src/application/usecase/auto_release.go:37-54 | an auto-release tick never introduces a double booking |
| BookingUseCases.TickReleasesExactly | src/application/usecase/auto_release.go:37-54 | a tick over rows as listed turns exactly the confirmed ones nobody checked in to into no-shows, one version on, and changes nothing else |
| BookingUseCases.ReleaseShrinks | src/application/usecase/auto_release.go:37-54 | releasing a candidate makes no row active, moves none and touches no other row |
| BookingUseCases.StatusKeeps | src/infrastructure/postgres/booking_repo.go:133-138 | a status write that does not make a row active keeps bookings apart |
| BookingUseCases.RescheduleWrites | src/application/usecase/update_booking.go:46-105 | an update that goes through moves its own active row to the window and title asked for, one version on, back to pending exactly when a changed window needs approval, keeps resource and mode and leaves every other row |
| BookingUseCases.RescheduleAdmitsIff | src/application/usecase/update_booking.go:46-105 | an update goes through exactly when the booking is neither cancelled nor expired, a changed window is proper, on no holiday, not refused, on a resource that is not inactive and, if shared, has a place beside the booking itself, and no other exclusive booking of the same resource holds an instant of it |
| BookingUseCases.RescheduleKeepsIff | src/application/usecase/booking_validator.go:123-131 | a successful reschedule on an exclusive resource keeps bookings apart exactly when the overlap check it skips would have passed |
| BookingUseCases.StandaloneRescheduleKeeps | src/application/usecase/booking_validator.go:101-104 | with no booked parent or child the EXCLUDE constraint alone is enough |
| BookingUseCases.IdleRescheduleKeeps | src/application/usecase/update_booking.go:46-105 | moving an inactive or shared booking cannot double book |
| BookingUseCases.RescheduleCanDoubleBook | src/application/usecase/update_booking.go:65-80 | a table without double bookings on which moving a child's booking onto its parent's window succeeds and double books |
| BookingUseCases.DecideKeepsIff | src/application/usecase/approval_chain.go:182-200 | a confirming decision on an exclusive booking keeps bookings apart exactly when no active booking of the resource or an exclusive relative is in its window, as is so while the booking is active |
| BookingUseCases.DecideCanDoubleBook | src/application/usecase/approval_chain.go:198-200 | the last approval of a booking cancelled meanwhile revives it beside its parent's booking |
| BookingsInFull.NoRunHasBoth | src/infrastructure/postgres/booking_repo.go:43-61 | after a serial run from the empty table without reschedules and confirming chain decisions, or with safe ones, there are never two different confirmed, pending or checked-in bookings on one exclusive resource, or on an exclusive parent and its child, that hold a common instant |
| BookingsInFull.FreeIff | src/infrastructure/postgres/booking_repo.go:43-61 | the overlap query is empty exactly when no confirmed, pending or checked-in row of the resource, its parent or a child starts before the end and ends after the start |
| BookingsInFull.CreateInFull | src/application/usecase/create_booking.go:172-309 | a create writes its row, field by field, if its window is proper and not over a minute past, the outside rules let it through, the resource is not inactive and, if shared, has fewer such rows in the window than its shared capacity, else its capacity, else one, or otherwise none on it or its relatives; and nothing if not |
| BookingsInFull.RescheduleInFull | src/application/usecase/update_booking.go:46-105 | an update writes window and title one version on and may send the booking back to approval, unless it is cancelled or a no-show, a changed window may not be moved to, or another exclusive row of the resource is in the way; then it writes nothing |
| BookingsInFull.ApproveInFull | src/application/usecase/approval.go:34-59 | approving confirms a pending booking that the EXCLUDE constraint does not bar and changes nothing else |
| BookingsInFull.ApproveConfirms | src/application/usecase/approval.go:34-59 | where the constraint holds, as along every interleaving, approving a pending booking confirms it |
| BookingsInFull.CancelAndRejectInFull | src/application/usecase/approval.go:63-87 | cancelling any booking, and rejecting a pending or confirmed one with a reason, writes the cancelled status and nothing else |
| BookingsInFull.OccurInFull | src/application/usecase/expand_recurrence.go:110-137 | an occurrence is booked, confirmed, exclusive and with its own window, exactly when nothing is in its way |
| BookingsInFull.SeriesInFull | src/application/usecase/expand_recurrence.go:110-137 | a series of occurrences that do not meet each other books exactly those the table was free for before it, with those rows, and leaves all other rows |
| BookingsInFull.TickInFull | src/application/usecase/auto_release.go:37-54 | after a tick every listed row that was confirmed and not checked in is a no-show one version on, and every other row is as it was |
| BookingService.Service.Validate | src/application/usecase/booking_validator.go:69-152 | accepts, and says whether approval is needed, exactly as the rules over holiday, resource, capacity or conflict and privileges decide |
| BookingService.Service.Create | src/application/usecase/create_booking.go:172-309 | leaves the table of the create step, reports whether the row is there, changes nothing on refusal and keeps bookings apart |
| BookingService.Service.Reschedule | src/application/usecase/update_booking.go:46-105 | succeeds exactly when the update is admitted; then window and title are those asked for and the version is one higher, otherwise nothing changed |
| BookingService.Service.Cancel | src/application/usecase/update_booking.go:109-123 | leaves the row cancelled exactly when it exists, and keeps bookings apart |
| BookingService.Service.Approve | src/application/usecase/approval.go:34-59 | succeeds exactly when the row ends confirmed, and then appends one decision |
| BookingService.Service.Reject | src/application/usecase/approval.go:63-87 | succeeds exactly with a reason and a pending or confirmed row, which it cancels, appending one decision |
| BookingService.Service.Tick | src/application/usecase/auto_release.go:37-54 | leaves the table of releasing every candidate in turn, returns the number of rows that became no-shows, and keeps bookings apart |
| BookingService.Service.ExpandSeries | src/application/usecase/expand_recurrence.go:58-139 | every occurrence is booked or skipped, the new rows are exactly those booked, and bookings stay apart |
| BookingRaces.OneResourceStaysApart | src/infrastructure/postgres/migrations/010_resource_types_capacity_perms.up.sql:126-135 | in every interleaving of checks, saves and status writes no two guarded rows of one resource hold a common instant |
| BookingRaces.SaveKeepsConstraint | src/infrastructure/postgres/booking_repo.go:87-128 | any save, insert or update, keeps the constraint |
| BookingRaces.WriteKeepsIff | src/infrastructure/postgres/booking_repo.go:43-61 | a save behind an earlier check keeps bookings apart exactly when the check would still pass at the time of the save |
| BookingRaces.RaceCanDoubleBook | src/application/usecase/booking_validator.go:123-131 | two checks before two saves book a parent and its child for the same time |
| SharedCapacity.CapacityHoldsInEveryInterleaving | src/application/usecase/booking_validator.go:105-122 | in every interleaving of creates, time-changing reschedules and cancels from an empty calendar, at every instant at most the capacity of active committed bookings hold it |
| SharedCapacity.CapacityHoldsInSafeRuns | src/infrastructure/postgres/booking_repo.go:284-307 | the same with title edits and approvals, as long as each that puts back a booking freed since it was read finds room throughout the window and takes none that was counted on |
| SharedCapacity.CommitKeepsCapacity | src/infrastructure/postgres/booking_repo.go:284-294 | committing a row whose window counts fewer than the capacity of other rows keeps every instant within capacity |
| SharedCapacity.LockedCommitKeeps | src/infrastructure/postgres/booking_repo.go:303-307 | while one transaction holds the resource lock its commit leaves every other transaction's claim intact |
| SharedCapacity.ShrinkingCommitKeeps | src/infrastructure/postgres/booking_repo.go:133-138 | a commit that frees a place keeps capacity and everybody's room |
| SharedCapacity.PutBackKeepsCapacityIff | src/application/usecase/update_booking.go:92-102 | committing a row that was read earlier keeps every instant within capacity exactly when it puts nothing back or every instant of its window has a place left |
| SharedCapacity.EditRaisesLoadIff | src/application/usecase/update_booking.go:92-102 | committing a title edit raises the load of some instant exactly when the row was freed in between |
| SharedCapacity.EditsCanExceedCapacity | src/infrastructure/postgres/booking_repo.go:133-138 | a run of create, edit, cancel and create that ends with two active bookings on one place |
| SharedCapacity.ApprovalsCanExceedCapacity | src/application/usecase/approval.go:34-43 | the same with an approval that read the booking as pending before it was cancelled |
| SharedCapacity.CreateOnFreePlaceCommits | src/application/usecase/booking_validator.go:105-122 | an uninterrupted create on a window with a free place commits its row and nothing else |
| SharedMoves.MoveGoesThroughIff | src/infrastructure/postgres/booking_repo.go:279-307 | an uninterrupted reschedule of a shared booking commits exactly its moved row, one version on and back to pending where approval asks for it, if fewer than the capacity of other active bookings of the resource meet the window; otherwise it is over once it has counted and nothing changed |
| SharedMoves.CreateGoesThroughIff | src/application/usecase/booking_validator.go:105-122 | an uninterrupted create commits exactly its row under the same condition, and otherwise ends with nothing changed |
| SharedMoves.AloneCanMove | src/infrastructure/postgres/booking_repo.go:279-294 | the only booking of a resource with one place can be moved onto a window that meets its own |
| SharedMoves.OtherWritesGoThrough | src/application/usecase/update_booking.go:46-123 | uninterrupted, a cancel cancels, an approval confirms a pending booking and a title edit is saved one version on |
| SharedMoves.CapacityInFull | src/application/usecase/booking_validator.go:105-122 | in every such interleaving at most the capacity of confirmed, pending and checked-in bookings hold any instant |
| OptimisticLock.NoUpdateIsLost | src/infrastructure/postgres/booking_repo.go:87-128 | over any interleaving of read and save sessions, each successful save started from the very row the previous one left, and the version counts the successful writes |
| OptimisticLock.SaveIgnoresOnlyTheStatus | src/infrastructure/postgres/booking_repo.go:133-138 | with status writes in between, a successful save still agrees with the current row in all but the status |
| OptimisticLock.CancellationCanBeLost | src/infrastructure/postgres/booking_repo.go:133-157 | a cancellation between a read and its save is undone by the save |
| OptimisticLock.SaveInFull | src/infrastructure/postgres/booking_repo.go:87-128 | a save straight after its read writes its four fields one version on; a save from a copy of another version writes nothing |
| AvailabilitySearch.FilterMeaning | src/infrastructure/postgres/resource_repo.go:173-198 | a resource passes the filter exactly when no exclusive relative is taken and, if it is shared, it has a place left |
| AvailabilitySearch.SearchAgreesOnExclusive | src/infrastructure/postgres/resource_repo.go:173-198 | with only exclusive relatives the filter passes exactly when a booking would find no conflict |
| AvailabilitySearch.SearchAgreesIff | src/infrastructure/postgres/resource_repo.go:173-198 | for an exclusive resource in any family the two agree exactly when nothing conflicts or some conflict is on an exclusive relative |
| AvailabilitySearch.RoomOfSharedHall | src/infrastructure/postgres/resource_repo.go:173-198 | a room of a booked shared hall is offered by the search and refused by the booking check |
| AvailabilitySearch.SearchAgreesOnShared | src/infrastructure/postgres/resource_repo.go:184-197 | a standalone shared resource with stored capacity at least 1 passes exactly when the concurrent count is below the capacity |
| AvailabilitySearch.StoredCapacityIsPositive | src/infrastructure/postgres/resource_repo.go:243-246 | whatever resources are saved in whatever order, a stored shared capacity is at least 1 |
| AvailabilitySearch.SearchAgreesOnStored | src/infrastructure/postgres/resource_repo.go:184-197 | on every stored resource search and validator read the capacity alike, and a standalone shared one passes the filter exactly when a booking would find a place |
| AvailabilitySearch.CapacityReadingsAgreeIff | src/application/usecase/booking_validator.go:106-112 | for any columns at all the two readings agree on every load exactly when the shared capacity is positive or the seat count is at most 1 |
| Calendar.NormalizeCountsDays | src/domain/rrule/rrule.go:237-250 | a day past the end of its month lies as many days after the first as it says |
| Calendar.MonthsAreContiguous | src/domain/rrule/rrule.go:237-250 | the first of a month is the first of the month before plus its length |
| Calendar.AddMonthsCountsDays | src/domain/rrule/rrule.go:237-250 | adding months keeps the day of month, overflow counted on into the next month |
| Calendar.WeekdayAfterWeeks | src/domain/rrule/rrule.go:214-220 | a whole number of weeks later the weekday is the same |
| RulesInFull.KnownInstants | src/domain/rrule/rrule.go:183-264 | instants of five readings of the calendar and clock, in seconds since the epoch, before and after it and in another zone |
| RulesInFull.KnownWeek | src/domain/rrule/rrule.go:60-63 | the days of the week that began on Sunday, 7 January 2024, have the numbers 0 to 6 |
| Recurrence.Expand | src/domain/rrule/rrule.go:183-264 | for every rule of the four frequencies the loops give the candidates in order, cut at UNTIL and at min(COUNT, 100), EXDATEs dropped unless the weekly loop returned early; an end that is not after the start is an error |
| Recurrence.ExpandSimple | src/domain/rrule/rrule.go:200-257 | the daily, monthly and yearly loops emit the candidates up to the limit or UNTIL |
| Recurrence.ExpandWeeks | src/domain/rrule/rrule.go:207-233 | the nested weekly loop emits the same candidates and says whether it returned from inside |
| Recurrence.FilterExDates | src/domain/rrule/rrule.go:272-285 | compacting in place keeps, in order, exactly the occurrences whose start second is not excepted |
| Occurrences.OccursIff | src/domain/rrule/rrule.go:183-264 | the occurrences are exactly the candidates before the cut that are not excepted, or all of them if the loop returned early |
| Occurrences.ExpansionAscendsIff | src/domain/rrule/rrule.go:183-264 | an expansion of any frequency ascends exactly when its kept candidates do |
| Occurrences.ExpansionRepeatsIff | src/domain/rrule/rrule.go:183-264 | a start occurs twice exactly when two kept candidates are the same instant |
| RulesInFull.DailyExpandsToFirstDays | src/domain/rrule/rrule.go:200-208 | a daily rule occurs exactly on the first days after DTSTART that INTERVAL divides (1 if not positive), as many as COUNT says and at most 100, ascending, through UNTIL, less those an EXDATE names to the second |
| RulesInFull.MonthsExpandToFirst | src/domain/rrule/rrule.go:236-255 | monthly rules without BYMONTHDAY and yearly rules likewise, every INTERVAL months or years on DTSTART's day, counted on into the next month where there is no such day |
| RulesInFull.KnownDaily | src/domain/rrule/rrule.go:200-208 | every second day from 3 until 7 January 2024 without the 5th: the 3rd and the 7th |
| RulesInFull.KnownWeekly | src/domain/rrule/rrule.go:209-235 | Thursdays and Mondays of every second week from Wednesday, 3 January 2024: the 4th, 8th, 18th and 22nd |
| RulesInFull.KnownMonthly | src/domain/rrule/rrule.go:236-247 | monthly from 31 January 2024: 31 January, 2 March, 31 March |
| RulesInFull.KnownYearly | src/domain/rrule/rrule.go:248-255 | yearly from 29 February 2024: that day and 1 March 2025 |
| WeeklyRule.WeeklyExpandsToFirstDueDays | src/domain/rrule/rrule.go:183-264 | with distinct days by distance, the expansion is exactly the first min(COUNT, 100) due days, ascending, cut at UNTIL, less those EXDATE drops, which it does unless the rule ends early |
| WeeklyRule.DueOccursIff | src/domain/rrule/rrule.go:207-264 | a due day occurs exactly when fewer than the limit are due before it, it is not past UNTIL, and EXDATE does not name it or the rule ends early |
| WeeklyRule.OffsetIsDue | src/domain/rrule/rrule.go:214-220 | every candidate is on or after DTSTART, on a listed weekday, in a 7-day block whose index INTERVAL divides |
| WeeklyRule.DueIsOffset | src/domain/rrule/rrule.go:214-220 | every such day is a candidate |
| WeeklyRule.OffsetRank | src/domain/rrule/rrule.go:211-233 | the i-th candidate is the i-th due day |
| WeeklyRule.ChronologicalIff | src/domain/rrule/rrule.go:211-264 | with any COUNT, UNTIL and EXDATEs, the output ascends exactly when within each week the days that occur are listed by distance |
| WeeklyRule.ChronologicalIffInOrder | src/domain/rrule/rrule.go:211-235 | without EXDATEs, exactly when the days the first week gets to are listed by distance |
| WeeklyRule.ExceptedFridayLeavesOrder | src/domain/rrule/rrule.go:211-264 | BYDAY=FR,MO from a Monday with that Friday excepted ascends although the days are out of order |
| WeeklyRule.FridayBeforeMonday | src/domain/rrule/rrule.go:211-235 | BYDAY=FR,MO from a Monday comes out of order |
| WeeklyRule.ExDatesHonouredIff | src/domain/rrule/rrule.go:227-264 | for days listed by distance, EXDATEs are honoured exactly when there is no UNTIL, or at least the limit of due days through UNTIL, or no EXDATE in the second of one of these days |
| WeeklyRule.ExDatesHonouredInAnyOrderIff | src/domain/rrule/rrule.go:227-264 | for days in any order, exactly when no candidate below the limit is past UNTIL, or none that its own week reaches before UNTIL is excepted |
| WeeklyRule.EarlyReturnIff | src/domain/rrule/rrule.go:227-229 | the loop returns early exactly when the due days through UNTIL are fewer than the limit, and then it has emitted these |
| WeeklyRule.OtherFrequenciesHonourExDates | src/domain/rrule/rrule.go:261-264 | every other frequency drops all its EXDATEs |
| WeeklyRule.ExDateSurvivesEarlyReturn | src/domain/rrule/rrule.go:227-229 | a rule that ends on DTSTART and excepts DTSTART still emits it |
| MonthlyRule.MonthlyExpansionAscends | src/domain/rrule/rrule.go:236-264 | without BYMONTHDAY a monthly expansion ascends, whatever the day of month and EXDATEs |
| MonthlyRule.MonthlyAscends | src/domain/rrule/rrule.go:236-249 | without BYMONTHDAY a monthly rule moves forward from one candidate to the next, whatever the day of month |
| MonthlyRule.YearlyIsEveryTwelfthMonth | src/domain/rrule/rrule.go:236-257 | a yearly rule expands exactly like a monthly one of twelve times the interval |
| MonthlyRule.StartsEarlyIff | src/domain/rrule/rrule.go:236-264 | with BYMONTHDAY something occurs before DTSTART exactly when it names an earlier day and that day of DTSTART's month is not past UNTIL and no EXDATE |
| MonthlyRule.StartsTenDaysEarly | src/domain/rrule/rrule.go:236-249 | from 20 January the first occurrence of the 10th of every month is on 10 January |
| MonthlyRule.MonthTwiceIff | src/domain/rrule/rrule.go:236-264 | with BYMONTHDAY something occurs twice exactly when INTERVAL is 1 and DTSTART's day does not fit some month below the limit whose successor's named day is not past UNTIL and no EXDATE |
| MonthlyRule.ShortMonthIsLeftOut | src/domain/rrule/rrule.go:237-242 | no candidate falls in such a month itself |
| MonthlyRule.MarchComesTwice | src/domain/rrule/rrule.go:236-249 | from 31 January three occurrences of the 15th of every month are 15 January and 15 March twice |
| LegacyRecurrence.GenerateOccurrences | src/application/usecase/expand_recurrence.go:147-169 | the loop from the previous element gives the iterates of the pattern's step |
| LegacyRecurrence.DayPatternsAgree | src/application/usecase/expand_recurrence.go:147-169 | daily, weekly and bi-weekly series of any length up to the cap equal the expansion of the matching rule |
| LegacyRecurrence.MonthlyAgreesIff | src/application/usecase/expand_recurrence.go:147-169 | a monthly series of any length up to the cap, from any day and of any duration, has the rule's windows exactly when its start does not roll over before the last step and at every step the month of the end is as long as the month of the start |
| LegacyRecurrence.MonthlyAgreesWithinMonthIff | src/application/usecase/expand_recurrence.go:147-169 | for windows within one month, exactly when both days fit every month between the first and the last |
| LegacyRecurrence.MonthlyAgrees | src/application/usecase/expand_recurrence.go:147-169 | in particular when start and end fall in one month on days of at most 28 |
| LegacyRecurrence.JanuaryStaysRolledOver | src/application/usecase/expand_recurrence.go:147-169 | for one hour from 31 January 2025 the generator gives 3 March and 3 April, the rule 3 March and 31 March; two occurrences agree and three do not |
| Text.SplitJoin | src/domain/rrule/rrule.go:82-176 | splitting undoes joining when no part holds the separator |
| Text.AtoiItoa | src/domain/rrule/rrule.go:82-176 | reading a printed number gives it back |
| RuleText.Parse | src/domain/rrule/rrule.go:82-149 | the segment loop gives the rule the segments describe one after another, or an error at the first bad one |
| RuleText.Print | src/domain/rrule/rrule.go:153-176 | the parts appended one by one and joined are the printed rule |
| RuleText.UntilRoundTrip | src/domain/rrule/rrule.go:287-294 | a formatted UNTIL parses to itself cut to whole seconds |
| RuleText.ParseAfterPrint | src/domain/rrule/rrule.go:82-176 | every valid rule without EXDATEs parses back from its printed form, UNTIL cut to whole seconds |
| RuleText.ReparseIff | src/domain/rrule/rrule.go:82-176 | whatever text parses gives a valid rule, which reparses to itself exactly when its UNTIL is a whole second |
| RuleText.HalfSecondIsLost | src/domain/rrule/rrule.go:82-176 | FREQ=DAILY;UNTIL=20240101T000000.5Z parses with half a second and reparses without |
| Text.TrimSpaceMeaning | src/domain/rrule/rrule.go:82-95 | trimming takes away white space only and leaves none at either end |
| KnownRules.SegmentsAreRead | src/domain/rrule/rrule.go:82-149 | a text free of white space is read segment by segment, with or without its prefix |
| KnownRules.FrequencyIsRead | src/domain/rrule/rrule.go:97-103 | FREQ with DAILY, WEEKLY, MONTHLY or YEARLY, all in any letter case, gives that frequency and otherwise the defaults |
| KnownRules.DayIsRead | src/domain/rrule/rrule.go:122-129 | BYDAY with SU, MO, TU, WE, TH, FR or SA in any letter case gives that day |
| KnownRules.IntervalIsRead | src/domain/rrule/rrule.go:104-109 | INTERVAL fills the interval with any positive number |
| KnownRules.CountIsRead | src/domain/rrule/rrule.go:110-115 | COUNT fills the count |
| KnownRules.MonthDayIsRead | src/domain/rrule/rrule.go:130-135 | BYMONTHDAY fills the day of the month up to 31 and is refused above |
| KnownRules.KnownUntil | src/domain/rrule/rrule.go:287-294 | 20240131T093015Z is 31 January 2024, 9:30:15 |
| KnownRules.UntilIsRead | src/domain/rrule/rrule.go:116-121 | UNTIL fills the end with it |
| ApprovalChain.ChainRows.Materialize | src/application/usecase/approval_chain.go:51-91 | one pending step for each level of the rule, nothing decided |
| ApprovalChain.ChainRows.Decide | src/application/usecase/approval_chain.go:98-202 | decides the first pending step whose dependencies are satisfied and whose level admits the decider, sets the booking status, or changes nothing |
| ApprovalChain.EachStepDecidedOnce | src/application/usecase/approval_chain.go:98-202 | over any calls, deciders and rule edits, a decided step never changes again |
| ApprovalChain.StatusFollowsSteps | src/application/usecase/approval_chain.go:165-201 | over every run of decisions, with no other writer of the status, the booking is Confirmed exactly when every step is approved or skipped, and Cancelled exactly when one is rejected |
| ApprovalChain.RejectionIsFinal | src/application/usecase/approval_chain.go:165-201 | after one rejection no later decision confirms |
| ApprovalChain.RunRespectsOrder | src/application/usecase/approval_chain.go:125-163 | with a fixed rule every decided step has all its dependencies done, in every run |
| ApprovalChain.ConfirmedAtNthApproval | src/application/usecase/approval_chain.go:125-201 | a chain of n levels is Confirmed exactly when n calls approved |
| ApprovalChain.SomeStepIsActionable | src/application/usecase/approval_chain.go:125-163 | until a rejection some pending step of a ranked rule has its dependencies satisfied |
| ApprovalChain.ApprovingFinishes | src/application/usecase/approval_chain.go:98-202 | approving over and over confirms a ranked chain in as many calls as steps are left |
| ApprovalChain.CanFinishIffRanked | src/application/usecase/approval_chain.go:125-163 | as long as the rule stays as it is, whoever decides, some run confirms exactly when its dependencies stay in range and have no cycle |
| ApprovalChain.EditedRuleCanFinish | src/application/usecase/approval_chain.go:110-163 | every chain can be finished once its rule is edited |
| ApprovalChain.ConfirmedRunIsRanked | src/application/usecase/approval_chain.go:125-163 | a confirming run ranks the steps by the time of their approval |
| ApprovalChain.CycleNeverConfirms | src/application/usecase/approval_chain.go:125-163 | two levels that wait for each other are never confirmed while the rule stays as it is, whoever decides |
| ApprovalChain.EarlierDependenciesAreRanked | src/application/usecase/approval_chain.go:125-163 | dependencies on earlier levels only, the linear default among them, are without cycles |
| ApprovalRights.EveryVerdictIsEntitled | src/application/usecase/approval_chain.go:93-202 | over every run from a fresh chain, each step that is decided has the verdict of a call by a known user who is a listed approver or has the role of its level and is of sufficient grade, or is a System Admin where the level names neither, made when what the step waits for was done |
| ApprovalRights.EntitledIff | src/application/usecase/approval_chain.go:247-263 | those are exactly the users who may decide |
| ApprovalRights.FirstStepIsDecided | src/application/usecase/approval_chain.go:149-201 | a call decides the first pending step its caller may decide; a rejection cancels the booking, an approval that leaves no other step open confirms it |
| ApprovalRights.OtherCallsChangeNothing | src/application/usecase/approval_chain.go:149-165 | any other call leaves the chain as it is |
| ApprovalRights.GradesRise | src/domain/user/grade.go:14-51 | SO, SSO, ADO, DO, SDO, ADD, DDGFS, DGFS strictly rise, and any other grade is below all of them |
| ApprovalRights.GradeAtLeastIff | src/domain/user/grade.go:43-51 | a grade suffices exactly when none is asked for or it stands no lower on that ladder, in any letter case |
| ApprovalRights.EveryoneIsHighEnoughIff | src/domain/user/grade.go:26-51 | a minimum grade lets everyone pass exactly when it is blank or not on the ladder |
| ApprovalRights.OnlyTheBossDecides | src/application/usecase/approval_chain.go:247-263 | a step for the approver "boss" of grade DO refuses a stranger, a System Admin, a boss of grade ADO and nobody at all, and takes a boss of grade SDO |
| Sorting.SortedIsUnique | src/infrastructure/auth/xmlc14n.go:143-178 | any ascending listing of a set is the sorted one, so the order in which a map is walked does not matter |
| Sorting.LessIsBefore | src/infrastructure/auth/xmlc14n.go:154-178 | one string sorts before another exactly when they agree up to a place where the first ends or has the lower character |
| XmlExclusive.CanonIsExclusive | src/infrastructure/auth/xmlc14n.go:92-188 | every element of the output declares exactly the prefixes in scope that it, one of its attributes or the inclusive list calls for and that the nearest declarations above do not already give that URI, in ascending order; its attributes are the source's by namespace and local name, and names are written by the default namespace, a prefix bound to theirs, or else the URI |
| XmlExclusive.NothingIsDeclaredTwice | src/infrastructure/auth/xmlc14n.go:134-153 | over the output tree, no declaration repeats what the nearest emitted ones give, and each is for its element, one of its attributes or the inclusive list |
| XmlExclusive.ChildInherits | src/infrastructure/auth/xmlc14n.go:147-150 | a prefix bound on an element is not declared again on its child |
| XmlMeaning.ReadsBackIff | src/infrastructure/auth/xmlc14n.go:92-224 | a document as the decoder yields it, without repeated attributes, reads back with the same names, attributes and text if and only if every element is in no namespace where none is the default, or a declared one, and every attribute in no namespace or one that has a declared prefix and is not the default |
| XmlMeaning.ReadableIff | src/infrastructure/auth/xmlc14n.go:92-224 | its output can be read at all if and only if every element is in no namespace or a declared one and every attribute can keep its name |
| XmlMeaning.TakenBackPrefixIsLost | src/infrastructure/auth/xmlc14n.go:203-224 | an element whose prefix was taken back by xmlns:p="" is written into the default namespace |
| XmlMeaning.CanonKeepsMeaning | src/infrastructure/auth/xmlc14n.go:92-224 | where the names can be written, every name of the output, resolved by the nearest emitted declaration, is the name in the input; attributes and text are kept |
| XmlMeaning.LostNameIsRefused | src/infrastructure/auth/xmlc14n.go:203-213 | a decoded name that cannot be written comes out with a prefix nobody declares, and a reader refuses it; an element in no namespace falls into the default one |
| XmlMeaning.XmlLangIsLost | src/infrastructure/auth/xmlc14n.go:179-185 | an xml:lang attribute is written with its URI for a prefix |
| XmlMeaning.DefaultAttributeIsLost | src/infrastructure/auth/xmlc14n.go:179-185 | an attribute in the default namespace is written with a colon and no prefix |
| XmlMeaning.ElementNameResolvesIff | src/infrastructure/auth/xmlc14n.go:92-150 | an element keeps its name exactly when it is in no namespace where none is the default, or in a declared one |
| XmlMeaning.AttrNameResolvesIff | src/infrastructure/auth/xmlc14n.go:179-185 | an attribute keeps its name exactly when it is in no namespace, or in one that a declared prefix is bound to and that is not the default |
| XmlMeaning.InsideIsRendered | src/infrastructure/auth/xmlc14n.go:134-170 | a reader inside the output tag has exactly the rendered namespaces |
| XmlMeaning.LayerMeaning | src/infrastructure/auth/xmlc14n.go:96-110 | an element's scope has each of its declarations and otherwise its parent's |
| XmlLaws.IdempotentIff | src/infrastructure/auth/xmlc14n.go:92-188 | of a decoded document with prefixes and URIs one to one, the canonical form can be read and canonicalised to itself if and only if every element is in no namespace or a declared one and every attribute can keep its name |
| XmlLaws.CanonIsIdempotent | src/infrastructure/auth/xmlc14n.go:92-188 | canonicalising the canonical form again gives it back when prefixes and URIs are one to one and the names can be read |
| XmlLaws.AttributeOrderDoesNotShow | src/infrastructure/auth/xmlc14n.go:92-188 | permuting attributes anywhere does not change the canonical form, which takes one answer for each lookup; it is what the code writes wherever no lookup has a choice |
| XmlLaws.ExtraDeclarationsDoNotShow | src/infrastructure/auth/xmlc14n.go:92-188 | with prefixes and URIs one to one, adding declarations, none for an inclusive prefix or a name left undeclared, does not change the canonical form; names need not be writable |
| XmlWriter.Writer.FindPrefix | src/infrastructure/auth/xmlc14n.go:203-213 | the default namespace gives no prefix, another bound URI some prefix bound to it, an unbound one itself |
| XmlWriter.Writer.SortDecls | src/infrastructure/auth/xmlc14n.go:134-169 | the declarations come out by prefix, the default first, whatever the order of the map |
| XmlWriter.Writer.SortAttrs | src/infrastructure/auth/xmlc14n.go:172-178 | the attributes come out by namespace and local name |
| XmlWriter.Writer.StartTag | src/infrastructure/auth/xmlc14n.go:112-188 | gives the canonical tag and what is rendered inside it, whenever no prefix is ambiguous |
| XmlWriter.Writer.WriteStart | src/infrastructure/auth/xmlc14n.go:92-188 | pushes the element's scope and rendered namespaces and writes the canonical tag, whenever no prefix is ambiguous |
| XmlWriter.Writer.WriteEnd | src/infrastructure/auth/xmlc14n.go:190-198 | writes the end tag and pops both stacks |
| XmlWriter.Writer.WriteAll | src/infrastructure/auth/xmlc14n.go:48-59 | the token loop takes the state through the tokens one by one |
| XmlWriter.RunIsCanon | src/infrastructure/auth/xmlc14n.go:75-198 | running over a document's tokens appends the tokens of its canonical tree and leaves both stacks as they were |
| XmlWriter.DocumentIsCanonical | src/infrastructure/auth/xmlc14n.go:34-59 | from the initial state the whole document ends at the initial depth with its canonical form written |
| XmlWriter.CanonicalizeExclusive | src/infrastructure/auth/xmlc14n.go:34-59 | the writer's output for a document with prefixes and URIs one to one and any inclusive list is its canonical form, which declares on each element exactly what is called for there and not yet given |
| XmlWriter.SetOf | src/infrastructure/auth/xmlc14n.go:276-284 | the inclusive prefixes are the trimmed entries of the list, the empty ones left out |
| XmlWriter.OneToOneIsClear | src/infrastructure/auth/xmlc14n.go:203-213 | in such a document no lookup has a choice |
| XmlWriter.AnswersAgreeIff | src/infrastructure/auth/xmlc14n.go:203-213 | two lookups of one URI are sure to agree exactly when it is the default namespace or has at most one prefix |
| XmlWriter.NameSurelyResolvesIff | src/infrastructure/auth/xmlc14n.go:113-150 | an element's name is sure to resolve exactly when the answers agree or every prefix of the URI is inclusive or resolves already |
| XmlWriter.AmbiguousNameCanBeLost | src/infrastructure/auth/xmlc14n.go:203-213 | with two prefixes for one URI the written name may not resolve |
| XmlText.EscapeString | src/infrastructure/auth/xmlc14n.go:226-266 | the loop over the characters writes the escaped text |
| XmlText.EscapeRoundTrip | src/infrastructure/auth/xmlc14n.go:226-266 | reading the references of an escaped text or attribute value gives it back |
| XmlText.EscapeIsSafe | src/infrastructure/auth/xmlc14n.go:226-266 | nothing that would end the text or value, or be normalised, is left |
| XmlText.KnownEscapes | src/infrastructure/auth/xmlc14n.go:226-266 | the references written in text and in attribute values, and what is left as it is |
| Cbor.ParseLen | src/domain/webauthn/webauthn.go:309-339 | a header takes 1 to 9 of the bytes there are, its number fits 64 bits, and it never panics |
| Cbor.ParseValue | src/domain/webauthn/webauthn.go:269-307 | decoding ends, and on success takes at least one byte and none past the input |
| Cbor.ReadCborValue | src/domain/webauthn/webauthn.go:269-307 | the recursive reader gives the parsed value, error or panic |
| Cbor.ReadCborMap | src/domain/webauthn/webauthn.go:235-267 | the loop that fills a map gives the map of all its pairs, later keys overwriting earlier ones |
| Cbor.ReadAttestationMap | src/domain/webauthn/webauthn.go:194-226 | the same for text keys |
| CborLaws.DecodesIff | src/domain/webauthn/webauthn.go:235-339 | the decoder yields a value from the first k bytes exactly when they encode, in any header width, an item with that meaning |
| CborLaws.RoundTrip | src/domain/webauthn/webauthn.go:235-339 | decoding the encoding of any value of ints, strings and int-keyed maps, whatever follows, gives the value and the encoding's length |
| CborLaws.ReadsBack | src/domain/webauthn/webauthn.go:269-307 | every encoding in any widths is read with its meaning and exactly its bytes |
| CborLaws.ItemRead | src/domain/webauthn/webauthn.go:269-307 | whatever is read is an encoding |
| CborLaws.LooksNoFurther | src/domain/webauthn/webauthn.go:235-339 | the result does not depend on the bytes behind the item |
| CborLaws.CutOffIsRefused | src/domain/webauthn/webauthn.go:235-339 | no proper prefix of an accepted item is accepted |
| CborLaws.StringPanicsIff | src/domain/webauthn/webauthn.go:286-300 | a string panics exactly when its end is at 2^63 or beyond, and is read exactly when it fits |
| CborLaws.DecoderPanicsIff | src/domain/webauthn/webauthn.go:235-339 | decoding a value panics exactly when a string whose end is at 2^63 or beyond stands where the decoder gets to, behind complete entries and keys of the maps it is in |
| CborLaws.AttestationPanicsIff | src/domain/webauthn/webauthn.go:194-226 | the same for the attestation object with its text keys |
| CborLaws.NineBytesPanic | src/domain/webauthn/webauthn.go:286-300 | the nine bytes of a byte string of announced length 2^64 - 1 |
| KnownBytes.KnownNumbers | src/domain/webauthn/webauthn.go:269-339 | nine numbers in all header widths, as Appendix A of RFC 8949 lists them |
| KnownBytes.KnownItems | src/domain/webauthn/webauthn.go:235-307 | byte strings, texts and a map from the same list |
| AuthData.ParsesIff | src/domain/webauthn/webauthn.go:65-87 | parsing succeeds exactly on the layout of the fields returned; bytes may follow only without an attested credential |
| AuthData.AttestationDecodesIff | src/domain/webauthn/webauthn.go:194-226 | the attestation object is accepted exactly when it begins with a map of text keys and decodable values |
| AuthData.NestedTextKeyIsRefused | src/domain/webauthn/webauthn.go:235-267 | a nested map that begins with a text key is refused |
| AuthData.ReadExponent | src/domain/webauthn/webauthn.go:124-127 | the exponent of an RSA key is its big-endian value in 64 bits |
| AuthData.RegistersIff | src/application/api/handlers/webauthn_handler.go:131-153 | an attestation object is accepted with a credential exactly when it begins with an attestation map whose authenticator data is the layout of that id and key, the id not empty and the key an encoded map of a supported algorithm |
| AuthData.RegisterStoresIff | src/application/api/handlers/webauthn_handler.go:159-165 | its key and counter end up stored exactly when the id was free or held just these |
| AuthData.FirstRegistrationStays | src/application/api/handlers/webauthn_handler.go:159-165 | no later registration changes the key and counter under an id |
| AuthData.RegistrationKeepsCredential | src/application/api/handlers/webauthn_handler.go:131-153 | whatever else the object holds and however it is encoded, it is accepted with the id, key and counter it was given |
| KnownBytes.FlagIff | src/domain/webauthn/webauthn.go:74 | attested credential data is announced by the flag values 64 to 127 and 192 to 255 |
| KnownBytes.LayoutInFull | src/domain/webauthn/webauthn.go:65-87 | where each field of authenticator data lies, numbers most significant byte first |
| KnownBytes.KeyInFull | src/domain/webauthn/webauthn.go:96-133 | accepted are exactly the maps with key type 2 and algorithm -7, x under -2 and y under -3, or key type 3 and algorithm -257, the modulus under -1 and the exponent under -2 |
| KnownBytes.KnownObjectRegisters | src/application/api/handlers/webauthn_handler.go:131-153 | one attestation object, byte by byte, registers its id, its ES256 key with x = 5 and y = 6, and its counter |
| RealtimeHub.NeverSendsOnClosed | src/infrastructure/realtime/hub.go:50-64 | in every interleaving no event is sent on a closed queue, no queue is closed twice, none exceeds 32 events |
| RealtimeHub.ReceivesExactlyItsEvents | src/infrastructure/realtime/hub.go:50-134 | in every interleaving a client has, each once, only its own tenant's events begun while it was registered, and all of them but those on their way unless stale or about to be marked |
| RealtimeHub.QuietHubHasDelivered | src/infrastructure/realtime/hub.go:50-64 | with no broadcast under way a client not stale has exactly those events |
| RealtimeHub.EventsKeepTheirOrder | src/infrastructure/realtime/hub.go:50-64 | no event overtakes one whose broadcast was over before its own began |
| RealtimeHub.BroadcastFinishes | src/infrastructure/realtime/hub.go:50-64 | from every reachable state a broadcast under way is over, and gives the lock back, after at most two steps for each client it has yet to visit and two more |
| RealtimeHub.BroadcastsCanFinish | src/infrastructure/realtime/hub.go:50-64 | every broadcast under way has a next step |
| HubClients.BroadcastInFull | src/infrastructure/realtime/hub.go:50-64 | a broadcast queues its event for the registered clients of the tenant with fewer than 32 waiting, marks the others of the tenant stale and leaves all other clients alone |
| HubClients.VisitedReceives | src/infrastructure/realtime/hub.go:57-58 | in every interleaving a client of the tenant with fewer than 32 waiting that a broadcast visits has the event for good, behind all it had before |
| HubClients.FullIsMarked | src/infrastructure/realtime/hub.go:59-62 | one with 32 waiting gets nothing and is marked stale by the broadcast's next step |
| HubClients.PumpEndsIff | src/infrastructure/realtime/hub.go:163-175 | after an event the pump ends exactly when the write failed or the client is stale |
| HubClients.StaleGetsAtMostOneMore | src/infrastructure/realtime/hub.go:155-183 | in every interleaving a stale client stays stale and is sent at most one more event, none if its pump is not waiting for one |
| HubClients.StoppedForGood | src/infrastructure/realtime/hub.go:155-183 | a pump that has ended stays ended and sends nothing |
| RealtimeHub.Hub.AddClient | src/infrastructure/realtime/hub.go:106-127 | registers a client with an empty queue |
| RealtimeHub.Hub.RemoveClient | src/infrastructure/realtime/hub.go:129-134 | takes the client out and closes its queue |
| RealtimeHub.Hub.Broadcast | src/infrastructure/realtime/hub.go:50-64 | every registered client of the tenant is offered the event once, queued or marked stale, and no other client changes, whatever the order of the map |
| AuditChain.HashedText | src/infrastructure/postgres/audit_repo.go:130-157 | the loop writes the sixteen parts joined by the separator |
| AuditChain.PayloadUnmistakableIff | src/infrastructure/postgres/audit_repo.go:130-157 | no other entry or previous hash has the same payload exactly when neither a field nor the previous hash holds the separator |
| AuditChain.PayloadTellsApart | src/infrastructure/postgres/audit_repo.go:130-157 | an entry whose fields are free of the separator shares its payload with no other entry or previous hash |
| AuditChain.SeparatorsInFieldsCollide | src/infrastructure/postgres/audit_repo.go:130-157 | two entries with a separator in the free-text session and request share a payload |
| AuditChain.Repo.Save | src/infrastructure/postgres/audit_repo.go:84-120 | appends the entry with the hash of the tenant's latest row and its own |
| AuditOrder.LaterIff | src/infrastructure/postgres/audit_repo.go:86-92 | the order of the trail is that of time and, at equal times, of the id, character by character |
| AuditOrder.LatestIsNewest | src/infrastructure/postgres/audit_repo.go:86-92 | the row whose hash is taken is one of the tenant, with a time not below that of any other and, among equal times, the greatest id |
| AuditOrder.EveryRowTakesTheNewest | src/infrastructure/postgres/audit_repo.go:84-120 | over every history each row keeps its entry and the hash of its text and takes over the hash of such a row saved before it, or nothing if it is the tenant's first |
| AuditOrder.RisingIsLinked | src/infrastructure/postgres/audit_repo.go:84-120 | where a tenant's entries are saved by rising time, and rising id at equal times, each row takes over the hash of the tenant's row just before it |
| AuditOrder.ThreeAreLinked | src/infrastructure/postgres/audit_repo.go:84-120 | three entries of one tenant, two at the same time, with another tenant's between, form one chain |
| AuditOrder.PayloadText | src/infrastructure/postgres/audit_repo.go:130-157 | the hashed text, part by part in order with the unit separator between |
| AuditChain.TenantsAreIndependent | src/infrastructure/postgres/audit_repo.go:84-95 | a tenant's rows are those its own entries alone would give |
| AuditChain.EachTenantIsLinked | src/infrastructure/postgres/audit_repo.go:84-120 | for any interleaving of tenants, a tenant whose entries come in (time, id) order has one linked chain |
| AuditChain.LinkedIffSavedInOrder | src/infrastructure/postgres/audit_repo.go:84-97 | with different hashes a trail is one linked chain exactly when all entries but possibly the last were saved in order |
| AuditChain.LateEntryForks | src/infrastructure/postgres/audit_repo.go:84-97 | an entry saved late and the next one are both linked to the entry before |
| AuditChain.VerifyChain | src/infrastructure/postgres/migrations/028_audit_chain_verifier.up.sql:59-119 | the walk reports the first row whose previous hash or own hash does not fit, and none exactly when all fit |
| AuditChain.VerifierHealthyIff | src/infrastructure/postgres/migrations/028_audit_chain_verifier.up.sql:59-119 | on the rows that saving left, in the order of the trail, it reports none exactly when all entries, the last included, were saved in order and each hashes back from its columns |
| AuditChain.HashesBackIff | src/infrastructure/postgres/migrations/028_audit_chain_verifier.up.sql:88-115 | with a collision-free hash clean entries hash back exactly when each reads back as it was |
| AuditChain.LastHashFixesChain | src/infrastructure/postgres/audit_repo.go:84-157 | a clean chain and any other chain with the same last hash are equal in every field of every entry, or a hash collision is at hand |
| AuditChain.SameLastHashSameTrail | src/infrastructure/postgres/audit_repo.go:84-157 | with a collision-free hash, trails saved in order with the same last hash are the same |
| IcsText.UnescapeEscape | src/infrastructure/external/govhk_holidays.go:125-128 | unescaping an escaped value gives it back without carriage returns |
| IcsText.EscapeIsOneLine | src/domain/ics/encoder.go:163-172 | an escaped value holds no line break |
| IcsText.EscapeIsTidy | src/domain/ics/encoder.go:163-172 | no bare semicolon, comma, backslash or line break is left in an escaped value |
| IcsText.Fold | src/domain/ics/encoder.go:187-204 | the loop gives the folded line |
| IcsText.Writer.Line | src/domain/ics/encoder.go:176-179 | adds exactly one line to the file |
| IcsText.Writer.KeyValue | src/domain/ics/encoder.go:181-183 | adds exactly one property line |
| IcsText.ReadsBackIff | src/domain/ics/encoder.go:176-204 | lines free of breaks are read back by unfolding exactly when none but the first begins with white space |
| IcsText.SwallowedLine | src/domain/ics/encoder.go:176-204 | a second line that begins with a space is read as part of the first |
| IcsText.PropertiesReadBack | src/domain/ics/encoder.go:163-204 | a file of properties with any values is read back property by property, only carriage returns gone |
| IcsText.PieceLengths | src/domain/ics/encoder.go:187-204 | the first piece has at most 75 octets, continuations at most 76; one passes 75 exactly when the line has 150 or more |
| IcsText.LongContinuation | src/domain/ics/encoder.go:187-204 | a line of 150 octets takes a continuation of 76 |
| Visibility.ProjectMany | src/domain/booking/visibility.go:218-228 | the loop projects each booking with its own resource, in order |
| Visibility.ProjectsAlikeIff | src/domain/booking/visibility.go:185-211 | two bookings project to the same exactly when their public fields agree and their details are both shown and equal, both withheld, or shown but blank |
| Visibility.HiddenDetailsDoNotShow | src/domain/booking/visibility.go:185-228 | lists that agree on the rows a viewer may see and on the public fields of the others project to the same list |
| Visibility.WithheldCanBeAnything | src/domain/booking/visibility.go:127-156 | the details of a withheld booking can be replaced by any others that leave it withheld without the viewer noticing |
| Visibility.ProjectingTwiceIsOnce | src/domain/booking/visibility.go:185-228 | projection is idempotent |
| Visibility.MoreRolesSeeMore | src/domain/booking/visibility.go:144-149 | adding roles to a resource takes details from no viewer |
| Visibility.OneMoreRoleIff | src/domain/booking/visibility.go:127-156 | adding one role lets in exactly its holders, and only to bookings with a status that are not private |
| Visibility.PrivateIsPrivate | src/domain/booking/visibility.go:139-143 | a private booking's details reach only its owner and the System Admin |
| Visibility.AudienceInFull | src/domain/booking/visibility.go:127-211 | who gets a booking whole, by role, ownership, privacy, status and the resource's roles; everybody else gets the public fields and blank details |
| Visibility.StrangersWithoutResource | src/domain/booking/visibility.go:213-228 | without a resource in the map a stranger sees the details of a public booking exactly as a System Admin, Security Admin, Room Admin or Secretary |

## Left out

- HTTP handlers, login, mail, message brokers and calendar clients: input and output around the cores.
- Cryptography and signature checks: the audit hash is a parameter; nothing is assumed of it but its text form, and
  collisions are exhibited or excluded by hypothesis.
- Time zones: bookings and windows are UTC instants; recurrence uses a fixed offset from UTC.
- Rounding of stored time stamps to microseconds, which the database does and the hash does not see.
- BookingRaces.OneResourceStaysApart: takes each save as one atomic write; that the database makes an insert wait for an
  uncommitted row it would exclude is not modelled.
- SharedCapacity.CapacityHoldsInEveryInterleaving: covers one shared resource of fixed capacity under READ COMMITTED
  with row locks; changes of the capacity while transactions run are not modelled.
- The operating-hours, location, role and zone predicates of the search: easy filters around the busy set.
- Status writes by check-in, exception marking and weather suspension: they have few or no guards.
- Services, meeting links and privilege policies of a create: their outcomes are parameters of the step.
- ApprovalChain.ChainRows.Decide: one call is atomic; two calls on one booking at the same time are not modelled, and
  letter case is folded for ASCII letters only.
- The choice of the approval rule for a resource; its comment orders rules by how specific they are, the code by
  priority alone.
- LegacyRecurrence.DayPatternsAgree: up to the expander's cap of 100 occurrences; the older generator has none.
- Recurrence.Expand: a frequency outside the four is an error in the code and no value of the model. INTERVAL is
  unbounded; the code counts weeks, months and days in 64 bits, which an INTERVAL far past any calendar overflows.
- BookingService.Service.Validate: the lock it takes on a shared resource is part of the steps of `SharedCapacity`.
- RuleText.ParseAfterPrint: EXDATEs are not part of the printed form; upper-casing outside ASCII matters only where it
  yields an ASCII letter.
- XmlWriter.CanonicalizeExclusive: starts from the decoder's tokens; the tokenizer of the XML library and processing
  instructions are not modelled. Output tags are values, their text form only through its escapes.
- XmlLaws.AttributeOrderDoesNotShow: for a URI with two prefixes it compares forms with the same answers; the code's own
  answers can vary from run to run.
- Cbor.ReadCborMap: the memory a map is given in advance for its announced size is not modelled.
- AuditChain.VerifierHealthyIff: how the columns read back (JSON, addresses, time stamps) is a parameter.
- XmlMeaning.ReadsBackIff: repeated attributes, which are not well-formed XML but which the decoder lets through, are
  not modelled; the order in which they come out is not fixed.
- Nicknames and the tenant of a credential, and the counter's update at sign-in.
- Whether the coordinates of a decoded key lie on the curve, and base64.
- RealtimeHub.Hub.Broadcast: the class is the hub between calls; concurrency is in the step machine its states are runs
  of. Writing to the socket, pings and deadlines appear only as pumps that may stop.
- The reaper a comment in the hub speaks of: a stale client is only told apart by its pump after the next event.
- IcsText.Writer.KeyValue: the fixed lines of an event, its attendees and the fingerprint are not modelled; the holiday
  parser, which skips continuation lines, only through its unescaping.
- Which resources a viewer may see at all: a filter without deep properties.
