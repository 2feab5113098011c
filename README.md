# Ticket service: a verified model

A model of a single-venue seat-booking service. The venue is a grid of
`rows x columns` seats. Each seat has the id `"row-column"` and is AVAILABLE,
HOLD or RESERVED.

A customer asks for a number of seats. The service holds the best AVAILABLE
ones, in row-then-column order, under a new hold id. The customer can then
reserve the hold, using the same email in any letter case, and gets a
reservation code: the decimal form of a second counter. A periodic expiry
task releases holds older than the hold time, and their seats become
AVAILABLE again.

The model has one module per part of the program:

- `Seats` (`seat.dfy`): the seat class, the status datatype and the seat id.
- `Holds` (`seat_hold.dfy`): the immutable hold record, as a datatype.
- `Tracker` (`seat_tracker.dfy`): the seat registry.
  - Its grid initialisation is a nested loop.
  - `UpdateSeatStatus` is the guarded status update.
  - It answers availability queries.
- `SeatOrder` (`seat_order.dfy`): sorting seats by row and column.
  - `BestAvailable` is the reference order: the grid in row-major order, filtered to the AVAILABLE seats.
- `IdGenerators` (`id_generators.dfy`): the two 32-bit counters.
- `Assignment` (`seat_assignment_manager.dfy`): the manager, with hold, reserve and expire.
  - Its invariant `Consistent` says:
    - each hold is stored under its own id, below the next id;
    - no seat appears twice in a hold, or in two holds, or in two reservations;
    - every held seat is HOLD and every reserved seat is RESERVED;
    - the reservation codes are exactly the codes issued so far.
  - Its invariant `Accounted` says that every HOLD seat is in exactly one live
    hold and every RESERVED seat in exactly one reservation. The exception is
    the seats that already had those statuses when the manager was built, its
    two orphan sets. On a new venue both orphan sets are empty, so the
    AVAILABLE, held and reserved seats add up to the venue size.
- `Service` (`ticket_service.dfy`): the validating facade, plus end-to-end scenarios on a new venue.
- `Options` (`options.dfy`) models null results. `Text` (`text.dfy`) holds the decimal conversion and the ignore-case comparison.

Seats are objects whose status is updated in place through the tracker. A
hold holds defensive copies of its seats. The abstract state of the tracker
is `Statuses()`, a map from seat id to status. Each operation states its
effect on that map. The lemmas on `IdsWith` and `SetAll` turn those effects
into counts of AVAILABLE seats.

Where the code and its documentation differ, the model follows the code:

- The status guard at `SeatTracker.java:58-59` reads the status of the seat
  object passed in, not the requested status. `Tracker.Transition` states
  this exactly.
- The counters use `getAndIncrement`, so they wrap to negative values after
  2,147,483,647. Their comments promise a limit instead.
  `IdGenerators.WrapsAfterMax` shows the wrap-around.

## Model

| member | source | states |
|---|---|---|
| Seats.Seat.constructor | src/main/java/com/walmart/exercise/ticketservice/domain/Seat.java:14-21 | a new seat keeps its row and column, has id `SeatId(row, column)`, and is AVAILABLE |
| Seats.Seat.Copy | src/main/java/com/walmart/exercise/ticketservice/domain/Seat.java:23-28 | the copy has the same id, row, column and status |
| Seats.Seat.SetStatus | src/main/java/com/walmart/exercise/ticketservice/domain/Seat.java:44-46 | the status becomes the argument; id, row and column are constants |
| Seats.SeatIdRoundTrip | src/main/java/com/walmart/exercise/ticketservice/domain/Seat.java:18 | splitting an id at the first dash after its leading character gives back the decimal row and the decimal column, also for a negative row |
| Seats.SeatIdInjective | src/main/java/com/walmart/exercise/ticketservice/domain/Seat.java:17-18 | equal ids imply equal row and column, so the `row-column` id identifies a seat |
| Text.IntToString | src/main/java/com/walmart/exercise/ticketservice/adapter/service/SeatAssignmentManager.java:100 | the decimal form is non-empty, starts with `-` exactly for negative numbers, and has no other dash |
| Text.IntToStringInjective | src/main/java/com/walmart/exercise/ticketservice/adapter/service/SeatAssignmentManager.java:100-101 | distinct numbers have distinct decimal forms, so distinct reservation ids give distinct codes |
| Text.EqualsIgnoreCase | src/main/java/com/walmart/exercise/ticketservice/adapter/service/SeatAssignmentManager.java:93 | every email matches itself ignoring case, and emails of different lengths never match |
| Text.EqualsIgnoreCaseIffSameUpper | src/main/java/com/walmart/exercise/ticketservice/adapter/service/SeatAssignmentManager.java:93 | two emails are equal ignoring case exactly when their upper-cased forms are equal |
| Holds.SeatHold | src/main/java/com/walmart/exercise/ticketservice/domain/SeatHold.java:25-46 | a hold is fixed at construction: its id, email, seat copies in the order chosen and creation clock, read back by the field selectors |
| Holds.DistinctIdsCount | src/main/java/com/walmart/exercise/ticketservice/adapter/service/SeatAssignmentManager.java:123-131 | a hold of n seats with distinct ids covers exactly n seat ids |
| IdGenerators.SeatHoldIdGenerator.constructor | src/main/java/com/walmart/exercise/ticketservice/adapter/service/SeatHoldIdGenerator.java:10 | the hold counter starts at 1 |
| IdGenerators.SeatHoldIdGenerator.Generate | src/main/java/com/walmart/exercise/ticketservice/adapter/service/SeatHoldIdGenerator.java:19-21 | returns the counter and advances it by one, with 32-bit wrap-around |
| IdGenerators.ReservationIdGenerator.constructor | src/main/java/com/walmart/exercise/ticketservice/adapter/service/ReservationIdGenerator.java:10 | the reservation counter starts at 1 |
| IdGenerators.ReservationIdGenerator.Generate | src/main/java/com/walmart/exercise/ticketservice/adapter/service/ReservationIdGenerator.java:19-21 | returns the counter and advances it by one, with 32-bit wrap-around |
| IdGenerators.Succ32 | src/main/java/com/walmart/exercise/ticketservice/adapter/service/SeatHoldIdGenerator.java:20 | the 32-bit successor: plus one below the largest int, the smallest int after it |
| IdGenerators.NoWrapBeforeMax | src/main/java/com/walmart/exercise/ticketservice/adapter/service/SeatHoldIdGenerator.java:15-20 | n draws from a counter at x that stay within the bound advance it to x + n |
| IdGenerators.IdsNeverRepeat | src/main/java/com/walmart/exercise/ticketservice/adapter/service/SeatHoldIdGenerator.java:14-20 | below the bound, two different draws never return the same id |
| IdGenerators.WrapsAfterMax | src/main/java/com/walmart/exercise/ticketservice/adapter/service/SeatHoldIdGenerator.java:15-20 | the (2^31 - 1)-th increment from 1, so the 2^31-th id drawn, yields the smallest int, not the promised limit |
| Tracker.SeatTracker.constructor | src/main/java/com/walmart/exercise/ticketservice/domain/SeatTracker.java:22-28 | the tracker has exactly the ids of the rows x columns grid, one seat per position, all AVAILABLE |
| Tracker.SeatTracker.Init | src/main/java/com/walmart/exercise/ticketservice/domain/SeatTracker.java:33-40 | the nested loop stores a new AVAILABLE seat under `SeatId(i, j)` for every grid position and nothing else |
| Tracker.SeatTracker.KeysAreGrid | src/main/java/com/walmart/exercise/ticketservice/domain/SeatTracker.java:33-40 | the keys of a valid tracker are exactly the grid ids |
| Tracker.GridSize | src/main/java/com/walmart/exercise/ticketservice/domain/SeatTracker.java:33-40 | the grid has rows * columns distinct ids |
| Tracker.Transition | src/main/java/com/walmart/exercise/ticketservice/domain/SeatTracker.java:58-64 | the status guard: no change to the same status; RESERVED is final; an AVAILABLE seat stays AVAILABLE when the seat passed in is RESERVED; otherwise the requested status; the status changes iff one of the two change conditions holds |
| Tracker.SeatTracker.UpdateSeatStatus | src/main/java/com/walmart/exercise/ticketservice/domain/SeatTracker.java:56-65 | only the named seat's status can change, and it becomes `Transition(stored, passed, requested)` |
| Tracker.SeatTracker.AvailableSeats | src/main/java/com/walmart/exercise/ticketservice/domain/SeatTracker.java:71-83 | exactly the live seats whose status is AVAILABLE; their ids are the AVAILABLE ids |
| Tracker.SeatTracker.NumAvailableSeat | src/main/java/com/walmart/exercise/ticketservice/domain/SeatTracker.java:85-87 | the number of AVAILABLE ids, at most the number of seats |
| Tracker.SeatTracker.AvailableCount | src/main/java/com/walmart/exercise/ticketservice/domain/SeatTracker.java:85-87 | counting AVAILABLE seat objects gives the number of AVAILABLE ids, no more than the number of seats |
| Tracker.SeatTracker.NumTotalSeats | src/main/java/com/walmart/exercise/ticketservice/domain/SeatTracker.java:88-90 | rows * columns equals the number of stored seats |
| Tracker.StatusCountsPartition | src/main/java/com/walmart/exercise/ticketservice/domain/SeatStatus.java:9-11 | AVAILABLE + HOLD + RESERVED counts add up to the number of seats |
| Tracker.TakeAvailable | src/main/java/com/walmart/exercise/ticketservice/adapter/service/SeatAssignmentManager.java:126-131 | marking k AVAILABLE seats with another status removes exactly them from the AVAILABLE ids and lowers the count by k |
| Tracker.GiveAvailable | src/main/java/com/walmart/exercise/ticketservice/adapter/service/SeatAssignmentManager.java:53-56 | making k non-AVAILABLE seats AVAILABLE adds exactly them and raises the count by k |
| Tracker.KeepAvailable | src/main/java/com/walmart/exercise/ticketservice/adapter/service/SeatAssignmentManager.java:99 | turning HOLD seats RESERVED leaves the AVAILABLE seats as they were |
| SeatOrder.SortByRowAndColumn | src/main/java/com/walmart/exercise/ticketservice/adapter/service/SeatAssignmentManager.java:142-146 | the result lists every seat of the set exactly once, in strictly ascending (row, column) order |
| SeatOrder.LeastUnique | src/main/java/com/walmart/exercise/ticketservice/adapter/service/SeatAssignmentManager.java:144 | with distinct positions the comparator has a single least seat, so the sort is deterministic |
| SeatOrder.AscendingUnique | src/main/java/com/walmart/exercise/ticketservice/adapter/service/SeatAssignmentManager.java:142-146 | two strictly ascending sequences with the same elements are equal |
| SeatOrder.SortedAvailableIsBestAvailable | src/main/java/com/walmart/exercise/ticketservice/adapter/service/SeatAssignmentManager.java:117-124 | the positions of the sorted AVAILABLE seats are the row-major grid filtered to AVAILABLE seats |
| SeatOrder.RowMajorAscending | src/main/java/com/walmart/exercise/ticketservice/adapter/service/SeatAssignmentManager.java:139-146 | the row-major enumeration of the grid is strictly ascending |
| SeatOrder.RowMajorMembers | src/main/java/com/walmart/exercise/ticketservice/domain/SeatTracker.java:33-40 | the row-major enumeration holds exactly the grid positions |
| SeatOrder.RowMajorSize | src/main/java/com/walmart/exercise/ticketservice/domain/SeatTracker.java:88-90 | the row-major enumeration has rows * columns positions |
| SeatOrder.RowMajorStartsWithRowZero | src/test/java/com/walmart/exercise/ticketservice/adapter/service/TicketServiceImplTest.java:84-91 | the enumeration starts with row 0, column 0, 1, 2, ... |
| SeatOrder.IdsArePositionIds | src/main/java/com/walmart/exercise/ticketservice/domain/Seat.java:18 | seats whose ids match their positions carry exactly the ids of those positions |
| SeatOrder.AllAvailableIsRowMajor | src/test/java/com/walmart/exercise/ticketservice/adapter/service/TicketServiceImplTest.java:74-92 | when every grid seat is AVAILABLE, the best-available order is the whole grid in row-major order |
| Assignment.ExpiredHolds | src/main/java/com/walmart/exercise/ticketservice/adapter/service/SeatAssignmentManager.java:40-43 | the entries of the hold map created strictly before now - holdTime, with their values |
| Assignment.SeatAssignmentManager.constructor | src/main/java/com/walmart/exercise/ticketservice/adapter/service/SeatAssignmentManager.java:66-78 | a negative hold time becomes 120; both maps start empty and both counters at 1; the orphan sets are the seats already HOLD and already RESERVED, so every seat is accounted for |
| Assignment.SeatAssignmentManager.FindAndHold | src/main/java/com/walmart/exercise/ticketservice/adapter/service/SeatAssignmentManager.java:115-136 | fails iff numSeats exceeds the AVAILABLE count, changing nothing; otherwise the hold gets the next id, the email and the clock, max(numSeats, 0) distinct AVAILABLE seats forming a prefix of the best-available order, each copy carrying the id of its own position, so its ids are those of the first positions of that order; the returned seats are HOLD copies taken after the update, none of them a tracker seat; it is stored under its id, and exactly its seats turn HOLD, lowering the count by their number |
| Assignment.SeatAssignmentManager.FileHold | src/main/java/com/walmart/exercise/ticketservice/adapter/service/SeatAssignmentManager.java:133-134 | filing a new hold of seats that were AVAILABLE and are now HOLD keeps the full invariant, including the accounting of every HOLD seat; only seatHoldMap changes, gaining the hold under its id |
| Assignment.HoldBest | src/main/java/com/walmart/exercise/ticketservice/adapter/service/SeatAssignmentManager.java:117-135 | the body of findAndHold on the tracker and the counter, with the same outcome: the seats are AVAILABLE ones, at the first positions of the best-available order, with the ids of those positions |
| Assignment.HoldSorted | src/main/java/com/walmart/exercise/ticketservice/adapter/service/SeatAssignmentManager.java:123-131 | the first n of the sorted AVAILABLE seats turn HOLD; the copies are a prefix of the best-available order, each with the id of its own position, so the ids turned HOLD are those of the first n best-available positions; the count drops by n |
| Assignment.HoldEach | src/main/java/com/walmart/exercise/ticketservice/adapter/service/SeatAssignmentManager.java:126-131 | the loop marks exactly the first n sorted seats HOLD and returns a HOLD copy of each, in order, that is not a tracker seat |
| Assignment.HoldSeat | src/main/java/com/walmart/exercise/ticketservice/adapter/service/SeatAssignmentManager.java:127-130 | one seat turns HOLD and is copied after the update |
| Assignment.NextHoldId | src/main/java/com/walmart/exercise/ticketservice/adapter/service/SeatAssignmentManager.java:133 | the hold id is the counter, which then advances; the seats are untouched |
| Assignment.AddHoldConsistent | src/main/java/com/walmart/exercise/ticketservice/adapter/service/SeatAssignmentManager.java:126-134 | holding AVAILABLE distinct seats under the next id keeps the invariant |
| Assignment.SeatAssignmentManager.ReserveSeat | src/main/java/com/walmart/exercise/ticketservice/adapter/service/SeatAssignmentManager.java:89-103 | fails iff the hold is missing or its email differs ignoring case, changing nothing; otherwise the code is the decimal reservation counter, new; the hold moves to the reservation map under it; its seats turn RESERVED; the AVAILABLE count is unchanged |
| Assignment.SeatAssignmentManager.RemoveHold | src/main/java/com/walmart/exercise/ticketservice/adapter/service/SeatAssignmentManager.java:96 | the removed hold, if present, is returned and dropped from the hold map; statuses are unchanged |
| Assignment.SeatAssignmentManager.SetHeldSeats | src/main/java/com/walmart/exercise/ticketservice/adapter/service/SeatAssignmentManager.java:99 | the seats of a removed hold turn to the given status; the invariant holds |
| Assignment.UpdateEach | src/main/java/com/walmart/exercise/ticketservice/adapter/service/SeatAssignmentManager.java:54-55 | the guarded update of every HOLD seat of a list sets exactly those seats to the new status |
| Assignment.SeatAssignmentManager.RecordReservation | src/main/java/com/walmart/exercise/ticketservice/adapter/service/SeatAssignmentManager.java:100-101 | the code is the decimal form of the counter, not yet used, and the hold is filed under it |
| Assignment.NextReservationId | src/main/java/com/walmart/exercise/ticketservice/adapter/service/SeatAssignmentManager.java:100 | the reservation id is the counter, which then advances |
| Assignment.ReservationKeysNext | src/main/java/com/walmart/exercise/ticketservice/adapter/service/SeatAssignmentManager.java:100-101 | the next code was never handed out, so reservation codes never repeat |
| Assignment.AddReservationConsistent | src/main/java/com/walmart/exercise/ticketservice/adapter/service/SeatAssignmentManager.java:99-101 | filing RESERVED seats under the next code keeps the invariant |
| Assignment.RemoveConsistent | src/main/java/com/walmart/exercise/ticketservice/adapter/service/SeatAssignmentManager.java:96 | dropping a hold keeps the invariant; its seats are HOLD and no other hold or reservation owns them |
| Assignment.FreeConsistent | src/main/java/com/walmart/exercise/ticketservice/adapter/service/SeatAssignmentManager.java:53-56 | giving unowned HOLD seats another status keeps the invariant |
| Assignment.EmptyAccounted | src/main/java/com/walmart/exercise/ticketservice/adapter/service/SeatAssignmentManager.java:66-78 | with no holds and no reservations the invariant holds, the orphans being every HOLD and every RESERVED seat |
| Assignment.AccountedAfterHold | src/main/java/com/walmart/exercise/ticketservice/adapter/service/SeatAssignmentManager.java:126-134 | holding AVAILABLE seats under a new id keeps every HOLD and RESERVED seat accounted for |
| Assignment.AccountedAfterReserve | src/main/java/com/walmart/exercise/ticketservice/adapter/service/SeatAssignmentManager.java:93-101 | moving a hold to the reservations under a new code, its seats RESERVED, keeps every seat accounted for |
| Assignment.AccountedAfterRelease | src/main/java/com/walmart/exercise/ticketservice/adapter/service/SeatAssignmentManager.java:50-56 | dropping a hold whose seats turn AVAILABLE keeps every seat accounted for |
| Assignment.AccountedCounts | src/main/java/com/walmart/exercise/ticketservice/domain/SeatTracker.java:85-90 | the AVAILABLE seats, the seats of the holds, the seats of the reservations and the two orphan sets add up to the number of seats |
| Assignment.OwningHold | src/main/java/com/walmart/exercise/ticketservice/adapter/service/SeatAssignmentManager.java:126-134 | with no orphan HOLD seats, every HOLD seat belongs to exactly one live hold |
| Assignment.HeldIdsAdd | src/main/java/com/walmart/exercise/ticketservice/adapter/service/SeatAssignmentManager.java:134 | adding a hold adds exactly its seats to the held seats |
| Assignment.HeldIdsRemove | src/main/java/com/walmart/exercise/ticketservice/adapter/service/SeatAssignmentManager.java:50 | removing a hold removes exactly its seats from the held seats |
| Assignment.SeatAssignmentManager.ExpireHolds | src/main/java/com/walmart/exercise/ticketservice/adapter/service/SeatAssignmentManager.java:39-58 | exactly the expired holds leave the hold map and exactly their seats turn AVAILABLE, raising the count by their number; reservations and counters are unchanged |
| Assignment.SeatAssignmentManager.ReleaseAll | src/main/java/com/walmart/exercise/ticketservice/adapter/service/SeatAssignmentManager.java:45-57 | each expired entry, in any order, is removed and its seats turn AVAILABLE |
| Assignment.SeatAssignmentManager.ReleaseExpired | src/main/java/com/walmart/exercise/ticketservice/adapter/service/SeatAssignmentManager.java:46-56 | an entry already gone changes nothing; otherwise it is removed and its seats turn AVAILABLE |
| Assignment.ExpiryStep | src/main/java/com/walmart/exercise/ticketservice/adapter/service/SeatAssignmentManager.java:45-57 | releasing one more expired hold extends the released map and the released seats accordingly |
| Assignment.ExpiryDone | src/main/java/com/walmart/exercise/ticketservice/adapter/service/SeatAssignmentManager.java:39-58 | once every expired hold is released, the AVAILABLE count has grown by the number of their seats |
| Service.TicketServiceImpl.constructor | src/main/java/com/walmart/exercise/ticketservice/adapter/service/TicketServiceImpl.java:16-22 | the service uses the given venue and a new manager with its hold time rule, empty maps and counters at 1 |
| Service.NewTicketService | src/main/java/com/walmart/exercise/ticketservice/adapter/service/TicketServiceImpl.java:16-19 | no service iff the venue is null |
| Service.TicketServiceImpl.NumSeatsAvailable | src/main/java/com/walmart/exercise/ticketservice/adapter/service/TicketServiceImpl.java:24-28 | the number of AVAILABLE seats, at most the number of seats |
| Service.TicketServiceImpl.FindAndHoldSeats | src/main/java/com/walmart/exercise/ticketservice/adapter/service/TicketServiceImpl.java:30-36 | no hold iff the email is missing, numSeats <= 0, or numSeats exceeds the AVAILABLE count (the venue-size guard is implied), changing nothing; otherwise findAndHold's result with exactly numSeats AVAILABLE seats at the first best-available positions, carrying those positions' ids, returned as HOLD copies that are not the tracker's seats |
| Service.TicketServiceImpl.ReserveSeats | src/main/java/com/walmart/exercise/ticketservice/adapter/service/TicketServiceImpl.java:38-44 | no code iff the email is missing or reserveSeat fails; otherwise reserveSeat's result |
| Service.NewVenueService | src/main/java/com/walmart/exercise/ticketservice/domain/SeatTracker.java:22-40 | a service over a new venue has rows * columns AVAILABLE seats, best-available order the whole grid, no holds, no orphan seats, and counters at 1 |
| Service.FirstHoldOnNewVenue | src/test/java/com/walmart/exercise/ticketservice/adapter/service/TicketServiceImplTest.java:74-92 | the first hold on a new venue has id 1 and the first numSeats seats in row-major order, with the ids of those positions |
| Service.HoldsOnNewVenue | src/test/java/com/walmart/exercise/ticketservice/adapter/service/TicketServiceImplTest.java:52-63 | two fitting requests get ids 1 and 2; a third is refused iff it no longer fits, and gets id 3 otherwise; the AVAILABLE count drops by each granted hold |
| Service.ExpireAll | src/main/java/com/walmart/exercise/ticketservice/adapter/service/SeatAssignmentManager.java:39-58 | when every live hold has expired, the expiry task empties the hold map and every held seat is AVAILABLE again |
| Service.HoldThenExpire | src/test/java/com/walmart/exercise/ticketservice/adapter/service/TicketServiceImplTest.java:97-106 | a hold that the expiry task finds older than the hold time is gone afterwards, and the AVAILABLE count is back where it started |
| Service.HoldExpiresOnNewVenue | src/test/java/com/walmart/exercise/ticketservice/adapter/service/TicketServiceImplTest.java:94-114 | after the first hold expires the whole venue is AVAILABLE; the next hold gets id 2 and again the first seats in row-major order |
| Service.EverySeatAccountedFor | src/test/java/com/walmart/exercise/ticketservice/adapter/service/TicketServiceImplTest.java:131 | on a service over a new venue, the AVAILABLE count plus the seats in live holds plus the reserved seats is the venue size |
| Service.ReserveThenExpireOnNewVenue | src/test/java/com/walmart/exercise/ticketservice/adapter/service/TicketServiceImplTest.java:116-133 | with two holds on a new venue, reserving the second under a wrong email fails and under its own gives "1"; after expiry the first cannot be reserved; the venue size minus the reserved seats are AVAILABLE; a third request gets id 3 iff it fits |
| Service.ReserveOnNewVenue | src/test/java/com/walmart/exercise/ticketservice/adapter/service/TicketServiceImplTest.java:116-124 | reserving a hold under another email fails; under its own email it gives code "1"; a second reservation of the same hold fails; the held seats stay out of the AVAILABLE count |

## Left out

- Concurrency: the locks, `synchronized`, the concurrent maps and atomic counters are left out. Each operation is one sequential, atomic method call.
- The scheduler that runs the expiry task every 10 ms is left out. `ExpireHolds(now)` is the body of the expiry runnable, and a caller runs it at a clock value of its choice.
- The multithreaded test (`TicketServiceImplTest.java:143-168`) is left out. The no-duplicate-seat property it probes is the invariant `Consistent`: no seat is in two holds or two reservations.
- `LocalDateTime.now()` is an integer clock `now`, passed to `FindAndHold` and `ExpireHolds`. Holds store it as their creation time.
- Iteration order: `availableSeats` is an unordered `set<Seat>`, since the parallel stream's order does not matter once the seats are sorted. `ExpireHolds` handles the expired entries in an arbitrary order.
- The `System.err` message of the status guard is left out; only the no-op is modelled.
- Null arguments: a null email and a null venue are `Option` values at the service level. The manager's own email parameter is never null in the model, because the service never passes one.
- The exception thrown for a null venue is modelled as `None` by `Service.NewTicketService`.
- The `TicketService` interface, `TicketServiceException` and `UniqueIdGenerator` are not part of this model. The two generator classes carry their own `Generate`.
- Getters are the constant fields of `Seat` and the fields of the `SeatHold` datatype. `Seat` and `SeatHold` have no other logic.
- Email comparison ignoring case is ASCII-only: `A`-`Z` versus `a`-`z`. Java's full Unicode case mapping is not modelled.
- Assignment.SeatAssignmentManager.FindAndHold: requires the hold counter below 2,147,483,647, so the wrap-around proved by `IdGenerators.WrapsAfterMax` never reaches a hold id. The same bound applies to `Service.TicketServiceImpl.FindAndHoldSeats` and the scenario helpers.
- Assignment.SeatAssignmentManager.ReserveSeat: requires the reservation counter below 2,147,483,647 for the same reason. The same bound applies to `Service.TicketServiceImpl.ReserveSeats`.
- Tracker.SeatTracker.UpdateSeatStatus: requires the seat's id to be a key of the tracker, so the `NullPointerException` Java throws for an unknown id (`SeatTracker.java:57-58`) is not modelled. No call in the model reaches that case: every caller passes a tracker seat or a copy of one.
- Tracker.SeatTracker.constructor: rows and columns are natural numbers and `rows * columns` is unbounded. Negative dimensions and 32-bit overflow of the product are not modelled.
- Assignment.SeatAssignmentManager.constructor: a venue handed to the manager with HOLD or RESERVED seats keeps them as orphan seats, owned by no hold or reservation of this manager. A tracker shared by two managers is not modelled.
- Service.ReserveThenExpireOnNewVenue: the positions of the third request's seats (`TicketServiceImplTest.java:134-139`) are not derived; the scenario states the third hold's id and size only.
