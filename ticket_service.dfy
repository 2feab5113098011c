/**
 * The ticket service facade: validates its arguments and delegates to the
 * seat assignment manager. A null venue or a null email is modelled with
 * Option; a null result is None.
 */
module Service {

  import opened Options
  import opened Text
  import opened Seats
  import opened Holds
  import opened Tracker
  import opened SeatOrder
  import opened IdGenerators
  import opened Assignment

  class TicketServiceImpl {
    const seatTracker: SeatTracker
    const seatAssignmentManager: SeatAssignmentManager

    /** The service and its manager share one venue, and the manager's invariant holds. */
    ghost predicate Valid()
      reads this, seatAssignmentManager, seatTracker, seatTracker.seats.Values,
            seatAssignmentManager.seatHoldIdGenerator, seatAssignmentManager.reservationIdGenerator
    {
      && seatAssignmentManager.seatTracker == seatTracker
      && seatAssignmentManager.Valid()
    }

    /** A service over a venue, with a new manager using holdTime (a negative one means 120). */
    constructor (seatTracker: SeatTracker, holdTime: int)
      requires seatTracker.Valid()
      ensures Valid() && this.seatTracker == seatTracker
      ensures seatAssignmentManager.holdTime == if holdTime >= 0 then holdTime else 120
      ensures seatAssignmentManager.seatHoldMap == map[] && seatAssignmentManager.reservedSeatMap == map[]
      ensures seatAssignmentManager.seatHoldIdGenerator.seatHoldCounter == 1
      ensures seatAssignmentManager.reservationIdGenerator.reservationId == 1
      ensures fresh(seatAssignmentManager)
      ensures fresh(seatAssignmentManager.seatHoldIdGenerator) && fresh(seatAssignmentManager.reservationIdGenerator)
      ensures seatAssignmentManager.orphanHold == IdsWith(seatTracker.Statuses(), Hold)
      ensures seatAssignmentManager.orphanReserved == IdsWith(seatTracker.Statuses(), Reserved)
    {
      this.seatTracker := seatTracker;
      seatAssignmentManager := new SeatAssignmentManager(seatTracker, holdTime);
    }

    /** numSeatsAvailable: the number of seats whose status is AVAILABLE. */
    function NumSeatsAvailable(): (n: nat)
      reads this, seatAssignmentManager, seatTracker, seatTracker.seats.Values,
            seatAssignmentManager.seatHoldIdGenerator, seatAssignmentManager.reservationIdGenerator
      requires Valid()
      ensures n == |IdsWith(seatTracker.Statuses(), Available)|
      ensures n <= |seatTracker.seats|
    {
      seatTracker.NumAvailableSeat()
    }

    /**
     * findAndHoldSeats: nothing for a missing email, a count that is not
     * positive or exceeds the venue; otherwise the manager's findAndHold.
     * The venue-size guard is subsumed by the AVAILABLE count, so a result
     * exists exactly when the email is present and 0 < numSeats <= the
     * number of AVAILABLE seats.
     */
    method FindAndHoldSeats(numSeats: int, customerEmail: Option<string>, now: int) returns (r: Option<SeatHold>)
      requires Valid() && seatAssignmentManager.seatHoldIdGenerator.seatHoldCounter < MaxInt
      modifies seatAssignmentManager, seatTracker.seats.Values, seatAssignmentManager.seatHoldIdGenerator
      ensures Valid() && unchanged(seatTracker)
      ensures seatAssignmentManager.reservedSeatMap == old(seatAssignmentManager.reservedSeatMap)
      ensures seatAssignmentManager.reservationIdGenerator.reservationId == old(seatAssignmentManager.reservationIdGenerator.reservationId)
      ensures r.None? <==> customerEmail.None? || numSeats <= 0 || numSeats > old(NumSeatsAvailable())
      ensures r.None? ==>
                && seatAssignmentManager.seatHoldMap == old(seatAssignmentManager.seatHoldMap)
                && seatTracker.Statuses() == old(seatTracker.Statuses())
                && seatAssignmentManager.seatHoldIdGenerator.seatHoldCounter == old(seatAssignmentManager.seatHoldIdGenerator.seatHoldCounter)
      ensures r.Some? ==>
                var h := r.value;
                && customerEmail == Some(h.customerEmail) && h.createdDateTime == now
                && h.seatHoldId == old(seatAssignmentManager.seatHoldIdGenerator.seatHoldCounter)
                && seatAssignmentManager.seatHoldIdGenerator.seatHoldCounter == h.seatHoldId + 1
                && |h.holdSeats| == numSeats && DistinctIds(h.holdSeats)
                && SeatIds(h) <= IdsWith(old(seatTracker.Statuses()), Available)
                && Positions(h.holdSeats) <= old(BestAvailable(seatTracker.Statuses(), seatTracker.rows, seatTracker.columns))
                && IdsMatchPositions(h.holdSeats)
                && SeatIds(h) == PositionIds(old(BestAvailable(seatTracker.Statuses(), seatTracker.rows, seatTracker.columns))[..|h.holdSeats|])
                && HeldCopies(seatTracker, h.holdSeats)
                && seatAssignmentManager.seatHoldMap == old(seatAssignmentManager.seatHoldMap)[h.seatHoldId := h]
                && seatTracker.Statuses() == SetAll(old(seatTracker.Statuses()), SeatIds(h), Hold)
                && NumSeatsAvailable() == old(NumSeatsAvailable()) - numSeats
    {
      if numSeats > seatTracker.NumTotalSeats() || numSeats <= 0 || customerEmail.None? {
        return None;
      }
      r := seatAssignmentManager.FindAndHold(numSeats, customerEmail.value, now);
    }

    /**
     * reserveSeats: nothing for a missing email; otherwise the manager's
     * reserveSeat, which needs a live hold whose email matches ignoring case.
     */
    method ReserveSeats(seatHoldId: int, customerEmail: Option<string>) returns (r: Option<string>)
      requires Valid() && seatAssignmentManager.reservationIdGenerator.reservationId < MaxInt
      modifies seatAssignmentManager, seatTracker.seats.Values, seatAssignmentManager.reservationIdGenerator
      ensures Valid() && unchanged(seatTracker)
      ensures r.None? <==>
                || customerEmail.None?
                || seatHoldId !in old(seatAssignmentManager.seatHoldMap)
                || !EqualsIgnoreCase(old(seatAssignmentManager.seatHoldMap)[seatHoldId].customerEmail, customerEmail.value)
      ensures r.None? ==>
                && seatAssignmentManager.seatHoldMap == old(seatAssignmentManager.seatHoldMap)
                && seatAssignmentManager.reservedSeatMap == old(seatAssignmentManager.reservedSeatMap)
                && seatTracker.Statuses() == old(seatTracker.Statuses())
                && seatAssignmentManager.reservationIdGenerator.reservationId == old(seatAssignmentManager.reservationIdGenerator.reservationId)
      ensures r.Some? ==>
                var h := old(seatAssignmentManager.seatHoldMap)[seatHoldId];
                && r.value == IntToString(old(seatAssignmentManager.reservationIdGenerator.reservationId))
                && r.value !in old(seatAssignmentManager.reservedSeatMap)
                && seatAssignmentManager.reservationIdGenerator.reservationId == old(seatAssignmentManager.reservationIdGenerator.reservationId) + 1
                && seatAssignmentManager.seatHoldMap == old(seatAssignmentManager.seatHoldMap) - {seatHoldId}
                && seatAssignmentManager.reservedSeatMap == old(seatAssignmentManager.reservedSeatMap)[r.value := h]
                && seatTracker.Statuses() == SetAll(old(seatTracker.Statuses()), SeatIds(h), Reserved)
                && NumSeatsAvailable() == old(NumSeatsAvailable())
    {
      if customerEmail.None? {
        return None;
      }
      r := seatAssignmentManager.ReserveSeat(seatHoldId, customerEmail.value);
    }
  }

  /** The constructor's null check: a missing venue gives no service (the Java code throws TicketServiceException). */
  method NewTicketService(seatTracker: SeatTracker?, holdTime: int) returns (r: Option<TicketServiceImpl>)
    requires seatTracker != null ==> seatTracker.Valid()
    ensures r.None? <==> seatTracker == null
    ensures r.Some? ==> fresh(r.value) && r.value.Valid() && r.value.seatTracker == seatTracker
  {
    if seatTracker == null {
      return None;
    }
    var service := new TicketServiceImpl(seatTracker, holdTime);
    r := Some(service);
  }


  // ---- Scenarios on a new venue ----

  /**
   * A service over a new rows x columns venue, as the scenarios below
   * start: every seat AVAILABLE, so the best seats are the whole grid in
   * row-major order; no holds, no reservations, both counters at 1.
   */
  method NewVenueService(rows: nat, columns: nat, holdTime: int) returns (service: TicketServiceImpl)
    ensures service.Valid()
    ensures service.seatTracker.rows == rows && service.seatTracker.columns == columns
    ensures service.NumSeatsAvailable() == rows * columns
    ensures BestAvailable(service.seatTracker.Statuses(), rows, columns) == RowMajor(rows, columns)
    ensures |RowMajor(rows, columns)| == rows * columns
    ensures service.seatAssignmentManager.holdTime == if holdTime >= 0 then holdTime else 120
    ensures service.seatAssignmentManager.seatHoldMap == map[] && service.seatAssignmentManager.reservedSeatMap == map[]
    ensures service.seatAssignmentManager.seatHoldIdGenerator.seatHoldCounter == 1
    ensures service.seatAssignmentManager.reservationIdGenerator.reservationId == 1
    ensures fresh(service.seatAssignmentManager) && fresh(service.seatTracker.seats.Values)
    ensures fresh(service.seatAssignmentManager.seatHoldIdGenerator) && fresh(service.seatAssignmentManager.reservationIdGenerator)
    ensures service.seatAssignmentManager.orphanHold == {} && service.seatAssignmentManager.orphanReserved == {}
  {
    var tracker := NewVenue(rows, columns);
    ghost var st := tracker.Statuses();
    service := new TicketServiceImpl(tracker, holdTime);
    assert tracker.Statuses() == st;
  }

  /** A new rows x columns venue: every seat AVAILABLE, and the best of them the whole grid in row-major order. */
  method NewVenue(rows: nat, columns: nat) returns (tracker: SeatTracker)
    ensures tracker.Valid() && tracker.rows == rows && tracker.columns == columns
    ensures |IdsWith(tracker.Statuses(), Available)| == rows * columns
    ensures IdsWith(tracker.Statuses(), Hold) == {} && IdsWith(tracker.Statuses(), Reserved) == {}
    ensures BestAvailable(tracker.Statuses(), rows, columns) == RowMajor(rows, columns)
    ensures |RowMajor(rows, columns)| == rows * columns
    ensures fresh(tracker) && fresh(tracker.seats.Values)
  {
    tracker := new SeatTracker(rows, columns);
    GridSize(rows, columns);
    AllAvailableIsRowMajor(tracker.Statuses(), rows, columns);
    RowMajorSize(rows, columns);
  }

  /**
   * The first request on a new venue, for 0 < numSeats seats no more than
   * the venue has: hold id 1 and the first numSeats seats in row-major order,
   * each carrying the id of its own position.
   */
  method FirstHoldOnNewVenue(rows: nat, columns: nat, numSeats: int, email: string, now: int)
    returns (first: Option<SeatHold>)
    requires 0 < numSeats <= rows * columns
    ensures first.Some? && first.value.seatHoldId == 1
    ensures numSeats <= |RowMajor(rows, columns)|
    ensures Positions(first.value.holdSeats) == RowMajor(rows, columns)[..numSeats]
    ensures IdsMatchPositions(first.value.holdSeats)
    ensures SeatIds(first.value) == PositionIds(RowMajor(rows, columns)[..numSeats])
  {
    var service := NewVenueService(rows, columns, 100);
    ghost var best := BestAvailable(service.seatTracker.Statuses(), rows, columns);
    first := service.FindAndHoldSeats(numSeats, Some(email), now);
    PrefixIsSlice(Positions(first.value.holdSeats), best);
  }

  /**
   * Three requests in a row on a new venue, the first two fitting together:
   * they get hold ids 1 and 2; the third is refused exactly when it no
   * longer fits and gets id 3 otherwise; each hold granted lowers the
   * AVAILABLE count by its size.
   */
  method HoldsOnNewVenue(rows: nat, columns: nat, a: int, b: int, c: int, email: string, now: int)
    returns (first: Option<SeatHold>, second: Option<SeatHold>, third: Option<SeatHold>, available: nat)
    requires 0 < a && 0 < b && 0 < c && a + b <= rows * columns
    ensures first.Some? && first.value.seatHoldId == 1
    ensures second.Some? && second.value.seatHoldId == 2
    ensures third.Some? <==> a + b + c <= rows * columns
    ensures third.Some? ==> third.value.seatHoldId == 3
    ensures available == rows * columns - a - b - (if third.Some? then c else 0)
  {
    var service := NewVenueService(rows, columns, 100);
    first := Request(service, a, email, now);
    ghost var n1 := service.NumSeatsAvailable();
    second := Request(service, b, email, now);
    ghost var n2 := service.NumSeatsAvailable();
    third := Request(service, c, email, now);
    available := service.NumSeatsAvailable();
  }

  /** A findAndHoldSeats request for a positive count, seen through its hold id and the AVAILABLE count. */
  method Request(service: TicketServiceImpl, numSeats: int, email: string, now: int) returns (r: Option<SeatHold>)
    requires service.Valid() && service.seatAssignmentManager.seatHoldIdGenerator.seatHoldCounter < MaxInt
    requires numSeats > 0
    modifies service.seatAssignmentManager, service.seatTracker.seats.Values, service.seatAssignmentManager.seatHoldIdGenerator
    ensures service.Valid() && service.seatTracker.seats == old(service.seatTracker.seats)
    ensures r.None? <==> numSeats > old(service.NumSeatsAvailable())
    ensures r.None? ==>
              && service.NumSeatsAvailable() == old(service.NumSeatsAvailable())
              && service.seatAssignmentManager.seatHoldIdGenerator.seatHoldCounter == old(service.seatAssignmentManager.seatHoldIdGenerator.seatHoldCounter)
    ensures r.Some? ==>
              && r.value.seatHoldId == old(service.seatAssignmentManager.seatHoldIdGenerator.seatHoldCounter)
              && service.seatAssignmentManager.seatHoldIdGenerator.seatHoldCounter == r.value.seatHoldId + 1
              && service.NumSeatsAvailable() == old(service.NumSeatsAvailable()) - numSeats
  {
    r := service.FindAndHoldSeats(numSeats, Some(email), now);
  }

  /** A reserveSeats call, seen through the live holds, the reservation counter and the AVAILABLE count. */
  method Reserve(service: TicketServiceImpl, seatHoldId: int, email: string) returns (r: Option<string>)
    requires service.Valid() && service.seatAssignmentManager.reservationIdGenerator.reservationId < MaxInt
    modifies service.seatAssignmentManager, service.seatTracker.seats.Values, service.seatAssignmentManager.reservationIdGenerator
    ensures service.Valid() && unchanged(service.seatTracker)
    ensures r.None? <==>
              || seatHoldId !in old(service.seatAssignmentManager.seatHoldMap)
              || !EqualsIgnoreCase(old(service.seatAssignmentManager.seatHoldMap)[seatHoldId].customerEmail, email)
    ensures r.None? ==>
              && service.seatAssignmentManager.seatHoldMap == old(service.seatAssignmentManager.seatHoldMap)
              && service.seatAssignmentManager.reservedSeatMap == old(service.seatAssignmentManager.reservedSeatMap)
              && service.seatAssignmentManager.reservationIdGenerator.reservationId == old(service.seatAssignmentManager.reservationIdGenerator.reservationId)
    ensures r.Some? ==>
              && r.value == IntToString(old(service.seatAssignmentManager.reservationIdGenerator.reservationId))
              && service.seatAssignmentManager.reservationIdGenerator.reservationId == old(service.seatAssignmentManager.reservationIdGenerator.reservationId) + 1
              && service.seatAssignmentManager.seatHoldMap == old(service.seatAssignmentManager.seatHoldMap) - {seatHoldId}
              && service.seatAssignmentManager.reservedSeatMap ==
                   old(service.seatAssignmentManager.reservedSeatMap)[r.value := old(service.seatAssignmentManager.seatHoldMap)[seatHoldId]]
    ensures service.NumSeatsAvailable() == old(service.NumSeatsAvailable())
  {
    r := service.ReserveSeats(seatHoldId, Some(email));
  }

  /**
   * On a new venue, a hold of n seats for email: reserving it under another
   * address is refused, reserving it under the same address (in any letter
   * case) gives reservation code "1", and a second reservation of the same
   * hold is refused because the hold is gone. The n seats stay out of the
   * AVAILABLE count.
   */
  method ReserveOnNewVenue(rows: nat, columns: nat, n: int, email: string, otherEmail: string, now: int)
    returns (hold: Option<SeatHold>, denied: Option<string>, code: Option<string>, again: Option<string>, available: nat)
    requires 0 < n <= rows * columns
    requires !EqualsIgnoreCase(email, otherEmail)
    ensures hold.Some? && hold.value.seatHoldId == 1
    ensures denied.None? && code == Some("1") && again.None?
    ensures available == rows * columns - n
  {
    var service := NewVenueService(rows, columns, 0);
    hold := HoldOne(service, n, email, now);
    denied, code, again := ReserveTwice(service, hold.value.seatHoldId, email, otherEmail);
    available := service.NumSeatsAvailable();
  }

  /**
   * The reservations of ReserveOnNewVenue, on a live hold for email: another
   * address is refused, the hold's own address gets the next code, and the
   * hold cannot be reserved a second time.
   */
  method ReserveTwice(service: TicketServiceImpl, id: int, email: string, otherEmail: string)
    returns (denied: Option<string>, code: Option<string>, again: Option<string>)
    requires service.Valid() && service.seatAssignmentManager.reservationIdGenerator.reservationId == 1
    requires id in service.seatAssignmentManager.seatHoldMap
    requires service.seatAssignmentManager.seatHoldMap[id].customerEmail == email
    requires !EqualsIgnoreCase(email, otherEmail)
    modifies service.seatAssignmentManager, service.seatTracker.seats.Values, service.seatAssignmentManager.reservationIdGenerator
    ensures service.Valid() && unchanged(service.seatTracker)
    ensures denied.None? && code == Some("1") && again.None?
    ensures service.NumSeatsAvailable() == old(service.NumSeatsAvailable())
  {
    denied := Reserve(service, id, otherEmail);
    assert IntToString(1) == "1";
    code := Reserve(service, id, email);
    again := Reserve(service, id, email);
  }

  /**
   * With no live holds: a request created at created, then the expiry task
   * at later, more than the hold time after it. The hold, if granted, takes
   * id 1 more than nothing and is released again, so the AVAILABLE count
   * ends where it started.
   */
  method HoldThenExpire(service: TicketServiceImpl, numSeats: int, email: string, created: int, later: int)
    returns (r: Option<SeatHold>)
    requires service.Valid() && service.seatAssignmentManager.seatHoldIdGenerator.seatHoldCounter < MaxInt
    requires service.seatAssignmentManager.seatHoldMap == map[]
    requires created < later - service.seatAssignmentManager.holdTime
    modifies service.seatAssignmentManager, service.seatTracker.seats.Values, service.seatAssignmentManager.seatHoldIdGenerator
    ensures service.Valid() && unchanged(service.seatTracker)
    ensures r.None? <==> numSeats <= 0 || numSeats > old(service.NumSeatsAvailable())
    ensures service.seatAssignmentManager.seatHoldIdGenerator.seatHoldCounter ==
              old(service.seatAssignmentManager.seatHoldIdGenerator.seatHoldCounter) + if r.Some? then 1 else 0
    ensures r.Some? ==> r.value.seatHoldId == old(service.seatAssignmentManager.seatHoldIdGenerator.seatHoldCounter)
    ensures service.seatAssignmentManager.seatHoldMap == map[]
    ensures service.NumSeatsAvailable() == old(service.NumSeatsAvailable())
  {
    ghost var n0 := service.NumSeatsAvailable();
    r := HoldOne(service, numSeats, email, created);
    ghost var held := service.seatAssignmentManager.seatHoldMap;
    ghost var n1 := service.NumSeatsAvailable();
    OnlyHoldExpired(held, r, created, later, service.seatAssignmentManager.holdTime);
    assert n1 + |HeldIds(held)| == n0;
    ExpireAll(service, later);
  }

  /**
   * A request at clock value now on a service with no live holds: afterwards
   * the only live hold is the one granted, if any, and it covers as many
   * seats as the AVAILABLE count lost.
   */
  method HoldOne(service: TicketServiceImpl, numSeats: int, email: string, now: int) returns (r: Option<SeatHold>)
    requires service.Valid() && service.seatAssignmentManager.seatHoldIdGenerator.seatHoldCounter < MaxInt
    requires service.seatAssignmentManager.seatHoldMap == map[]
    modifies service.seatAssignmentManager, service.seatTracker.seats.Values, service.seatAssignmentManager.seatHoldIdGenerator
    ensures service.Valid() && unchanged(service.seatTracker) && unchanged(service.seatAssignmentManager.reservationIdGenerator)
    ensures service.seatAssignmentManager.reservedSeatMap == old(service.seatAssignmentManager.reservedSeatMap)
    ensures r.None? <==> numSeats <= 0 || numSeats > old(service.NumSeatsAvailable())
    ensures service.seatAssignmentManager.seatHoldIdGenerator.seatHoldCounter ==
              old(service.seatAssignmentManager.seatHoldIdGenerator.seatHoldCounter) + if r.Some? then 1 else 0
    ensures service.seatAssignmentManager.seatHoldMap == if r.Some? then map[r.value.seatHoldId := r.value] else map[]
    ensures r.Some? ==>
              && r.value.seatHoldId == old(service.seatAssignmentManager.seatHoldIdGenerator.seatHoldCounter)
              && r.value.customerEmail == email && r.value.createdDateTime == now
              && |SeatIds(r.value)| == numSeats
              && service.NumSeatsAvailable() == old(service.NumSeatsAvailable()) - numSeats
    ensures r.None? ==> service.NumSeatsAvailable() == old(service.NumSeatsAvailable())
  {
    r := service.FindAndHoldSeats(numSeats, Some(email), now);
    if r.Some? {
      DistinctIdsCount(r.value.holdSeats);
    }
  }

  /** The hold map HoldOne leaves, when the expiry task runs at later: all of it expires. */
  lemma OnlyHoldExpired(holds: map<int, SeatHold>, r: Option<SeatHold>, created: int, later: int, holdTime: int)
    requires holds == if r.Some? then map[r.value.seatHoldId := r.value] else map[]
    requires r.Some? ==> r.value.createdDateTime == created
    requires created < later - holdTime
    ensures AllExpired(holds, later, holdTime)
    ensures |HeldIds(holds)| == if r.Some? then |SeatIds(r.value)| else 0
  {
    if r.Some? {
      HeldIdsAdd(map[], r.value.seatHoldId, r.value);
    } else {
      assert HeldIds(holds) == {};
    }
  }

  /** Every hold of holds was created more than holdTime before now. */
  ghost predicate AllExpired(holds: map<int, SeatHold>, now: int, holdTime: int) {
    forall k :: k in holds ==> holds[k].createdDateTime < now - holdTime
  }

  /** The expiry task at a time when every live hold is older than the hold time: all of them are released. */
  method ExpireAll(service: TicketServiceImpl, now: int)
    requires service.Valid()
    requires AllExpired(service.seatAssignmentManager.seatHoldMap, now, service.seatAssignmentManager.holdTime)
    modifies service.seatAssignmentManager, service.seatTracker.seats.Values
    ensures service.Valid() && unchanged(service.seatTracker)
    ensures service.seatAssignmentManager.seatHoldMap == map[]
    ensures service.seatAssignmentManager.reservedSeatMap == old(service.seatAssignmentManager.reservedSeatMap)
    ensures service.NumSeatsAvailable() == old(service.NumSeatsAvailable()) + |HeldIds(old(service.seatAssignmentManager.seatHoldMap))|
    ensures service.seatAssignmentManager.seatHoldIdGenerator.seatHoldCounter == old(service.seatAssignmentManager.seatHoldIdGenerator.seatHoldCounter)
    ensures service.seatAssignmentManager.reservationIdGenerator.reservationId == old(service.seatAssignmentManager.reservationIdGenerator.reservationId)
  {
    var manager := service.seatAssignmentManager;
    ghost var holds := manager.seatHoldMap;
    assert ExpiredHolds(holds, now, manager.holdTime) == holds by {
      var e := ExpiredHolds(holds, now, manager.holdTime);
      assert forall k :: k in e <==> k in holds;
      assert forall k :: k in e ==> e[k] == holds[k];
    }
    manager.ExpireHolds(now);
    assert manager.seatHoldMap == map[] by {
      assert forall k :: k !in manager.seatHoldMap;
    }
  }

  /** When every seat is AVAILABLE by count, every seat is AVAILABLE. */
  lemma FullCountAllAvailable(st: map<string, SeatStatus>)
    requires |IdsWith(st, Available)| == |st|
    ensures IdsWith(st, Available) == st.Keys
  {
    var a := IdsWith(st, Available);
    var rest := st.Keys - a;
    assert st.Keys == a + rest && a !! rest;
    assert |st.Keys| == |st|;
    assert rest == {};
    forall k | k in st.Keys ensures k in a {
      assert k !in rest;
    }
  }

  /**
   * A hold that is older than the hold time when the expiry task runs is
   * released: every seat of the new venue is AVAILABLE again, and the next
   * request gets hold id 2 and once more the first seats in row-major order.
   */
  method HoldExpiresOnNewVenue(rows: nat, columns: nat, n: int, m: int, holdTime: nat, created: int, later: int, email: string)
    returns (first: Option<SeatHold>, availableAfterExpiry: nat, second: Option<SeatHold>)
    requires 0 < n <= rows * columns && 0 < m <= rows * columns
    requires created < later - holdTime
    ensures first.Some? && first.value.seatHoldId == 1
    ensures availableAfterExpiry == rows * columns
    ensures second.Some? && second.value.seatHoldId == 2
    ensures m <= |RowMajor(rows, columns)|
    ensures Positions(second.value.holdSeats) == RowMajor(rows, columns)[..m]
  {
    var service := NewVenueService(rows, columns, holdTime);
    first := HoldThenExpire(service, n, email, created, later);
    availableAfterExpiry := service.NumSeatsAvailable();
    AllAvailableByCount(service.seatTracker);
    ghost var best := BestAvailable(service.seatTracker.Statuses(), rows, columns);
    second := service.FindAndHoldSeats(m, Some(email), later);
    PrefixIsSlice(Positions(second.value.holdSeats), best);
  }

  /**
   * On a service whose venue had no HOLD or RESERVED seat when the service
   * was built (a new venue, say), every seat is AVAILABLE, in one live hold
   * or in one reservation: the three counts add up to the venue size.
   */
  lemma EverySeatAccountedFor(service: TicketServiceImpl)
    requires service.Valid()
    requires service.seatAssignmentManager.orphanHold == {} && service.seatAssignmentManager.orphanReserved == {}
    ensures service.NumSeatsAvailable()
              + |HeldIds(service.seatAssignmentManager.seatHoldMap)|
              + |HeldIds(service.seatAssignmentManager.reservedSeatMap)| == service.seatTracker.NumTotalSeats()
  {
    var manager := service.seatAssignmentManager;
    var st := service.seatTracker.Statuses();
    AccountedCounts(st, manager.seatHoldMap, manager.reservedSeatMap, {}, {});
    assert |st| == |st.Keys| == |service.seatTracker.seats|;
  }

  /**
   * Two requests at clock value created on a new venue, a seats for email
   * and then b for otherEmail; the second hold is reserved, first under a
   * wrong address (refused) and then under its own (code "1"); the expiry
   * task runs at later, more than the hold time after created, and only
   * then is the first hold reserved: refused, because it has expired. The
   * reserved seats stay taken, so b fewer than the venue size are AVAILABLE,
   * and a third request for c seats is granted, under id 3, iff c fits.
   */
  method ReserveThenExpireOnNewVenue(rows: nat, columns: nat, a: int, b: int, c: int, holdTime: nat, created: int, later: int,
                                     email: string, otherEmail: string, wrongEmail: string)
    returns (first: Option<SeatHold>, second: Option<SeatHold>, denied: Option<string>, code: Option<string>,
             late: Option<string>, available: nat, third: Option<SeatHold>)
    requires 0 < a && 0 < b && 0 < c && a + b <= rows * columns
    requires created < later - holdTime
    requires !EqualsIgnoreCase(otherEmail, wrongEmail)
    ensures first.Some? && first.value.seatHoldId == 1 && second.Some? && second.value.seatHoldId == 2
    ensures denied.None? && code == Some("1") && late.None?
    ensures available == rows * columns - b
    ensures third.Some? <==> c <= available
    ensures third.Some? ==> third.value.seatHoldId == 3 && |third.value.holdSeats| == c
  {
    var service := NewVenueService(rows, columns, holdTime);
    first, second := HoldTwo(service, a, b, email, otherEmail, created);
    denied, code, late := ReserveThenExpire(service, first.value, second.value, wrongEmail, email, later);
    available, third := HoldAfterReservation(service, second.value, c, email, later);
  }

  /**
   * The last request of ReserveThenExpireOnNewVenue, on a new venue's
   * service where the only trace left is the reservation of h: the seats
   * of h are the only ones not AVAILABLE, and a request for c seats gets
   * id 3 iff they fit.
   */
  method HoldAfterReservation(service: TicketServiceImpl, h: SeatHold, c: int, email: string, now: int)
    returns (available: nat, third: Option<SeatHold>)
    requires service.Valid() && service.seatAssignmentManager.seatHoldIdGenerator.seatHoldCounter == 3
    requires service.seatAssignmentManager.orphanHold == {} && service.seatAssignmentManager.orphanReserved == {}
    requires service.seatAssignmentManager.seatHoldMap == map[]
    requires service.seatAssignmentManager.reservedSeatMap == map["1" := h]
    requires 0 < c
    modifies service.seatAssignmentManager, service.seatTracker.seats.Values, service.seatAssignmentManager.seatHoldIdGenerator
    ensures available == service.seatTracker.rows * service.seatTracker.columns - |SeatIds(h)|
    ensures third.Some? <==> c <= available
    ensures third.Some? ==> third.value.seatHoldId == 3 && |third.value.holdSeats| == c
  {
    ReservedOne(service.seatAssignmentManager.reservedSeatMap, "1", h);
    EverySeatAccountedFor(service);
    available := service.NumSeatsAvailable();
    third := service.FindAndHoldSeats(c, Some(email), now);
  }

  /**
   * The middle of ReserveThenExpireOnNewVenue, with holds first and second
   * live under 1 and 2: second is reserved, the expiry task runs at later,
   * and first is reserved too late. Only the reservation of second is left.
   */
  method ReserveThenExpire(service: TicketServiceImpl, first: SeatHold, second: SeatHold, wrongEmail: string, email: string, later: int)
    returns (denied: Option<string>, code: Option<string>, late: Option<string>)
    requires service.Valid() && service.seatAssignmentManager.reservationIdGenerator.reservationId == 1
    requires service.seatAssignmentManager.seatHoldMap == map[1 := first, 2 := second]
    requires service.seatAssignmentManager.reservedSeatMap == map[]
    requires !EqualsIgnoreCase(second.customerEmail, wrongEmail)
    requires first.seatHoldId == 1 && first.createdDateTime < later - service.seatAssignmentManager.holdTime
    modifies service.seatAssignmentManager, service.seatTracker.seats.Values, service.seatAssignmentManager.reservationIdGenerator
    ensures service.Valid() && unchanged(service.seatTracker)
    ensures denied.None? && code == Some("1") && late.None?
    ensures service.seatAssignmentManager.seatHoldMap == map[]
    ensures service.seatAssignmentManager.reservedSeatMap == map["1" := second]
    ensures service.seatAssignmentManager.seatHoldIdGenerator.seatHoldCounter == old(service.seatAssignmentManager.seatHoldIdGenerator.seatHoldCounter)
  {
    denied, code := ReserveSecond(service, first, second, wrongEmail);
    late := ExpireThenReserve(service, first, email, later);
  }

  /**
   * The reservations of the hold under 2 in ReserveThenExpireOnNewVenue:
   * under a wrong address, refused; under its own, the first code.
   */
  method ReserveSecond(service: TicketServiceImpl, first: SeatHold, second: SeatHold, wrongEmail: string)
    returns (denied: Option<string>, code: Option<string>)
    requires service.Valid() && service.seatAssignmentManager.reservationIdGenerator.reservationId == 1
    requires service.seatAssignmentManager.seatHoldMap == map[1 := first, 2 := second]
    requires service.seatAssignmentManager.reservedSeatMap == map[]
    requires !EqualsIgnoreCase(second.customerEmail, wrongEmail)
    modifies service.seatAssignmentManager, service.seatTracker.seats.Values, service.seatAssignmentManager.reservationIdGenerator
    ensures service.Valid() && unchanged(service.seatTracker)
    ensures denied.None? && code == Some("1")
    ensures service.seatAssignmentManager.seatHoldMap == map[1 := first]
    ensures service.seatAssignmentManager.reservedSeatMap == map["1" := second]
    ensures service.seatAssignmentManager.reservationIdGenerator.reservationId == 2
  {
    denied := Reserve(service, 2, wrongEmail);
    assert IntToString(1) == "1";
    DropLast(1, first, 2, second);
    code := Reserve(service, 2, second.customerEmail);
  }

  /** Removing the later of two keys leaves the map of the earlier one. */
  lemma DropLast(k1: int, h1: SeatHold, k2: int, h2: SeatHold)
    requires k1 != k2
    ensures map[k1 := h1, k2 := h2] - {k2} == map[k1 := h1]
  {
  }

  /** The expiry task at later, when the only live hold is first and older than the hold time; then first is reserved, too late. */
  method ExpireThenReserve(service: TicketServiceImpl, first: SeatHold, email: string, later: int) returns (late: Option<string>)
    requires service.Valid() && service.seatAssignmentManager.reservationIdGenerator.reservationId < MaxInt
    requires service.seatAssignmentManager.seatHoldMap == map[first.seatHoldId := first]
    requires first.createdDateTime < later - service.seatAssignmentManager.holdTime
    modifies service.seatAssignmentManager, service.seatTracker.seats.Values, service.seatAssignmentManager.reservationIdGenerator
    ensures service.Valid() && unchanged(service.seatTracker)
    ensures late.None?
    ensures service.seatAssignmentManager.seatHoldMap == map[]
    ensures service.seatAssignmentManager.reservedSeatMap == old(service.seatAssignmentManager.reservedSeatMap)
  {
    ExpireAll(service, later);
    late := Reserve(service, first.seatHoldId, email);
  }

  /**
   * Two requests at clock value now on a service with no live holds and the
   * hold counter at 1, both fitting: ids 1 and 2, and the live holds are
   * exactly these two.
   */
  method HoldTwo(service: TicketServiceImpl, a: int, b: int, email: string, otherEmail: string, now: int)
    returns (first: Option<SeatHold>, second: Option<SeatHold>)
    requires service.Valid() && service.seatAssignmentManager.seatHoldIdGenerator.seatHoldCounter == 1
    requires service.seatAssignmentManager.seatHoldMap == map[]
    requires 0 < a && 0 < b && a + b <= service.NumSeatsAvailable()
    modifies service.seatAssignmentManager, service.seatTracker.seats.Values, service.seatAssignmentManager.seatHoldIdGenerator
    ensures service.Valid() && unchanged(service.seatTracker)
    ensures service.seatAssignmentManager.reservationIdGenerator.reservationId == old(service.seatAssignmentManager.reservationIdGenerator.reservationId)
    ensures service.seatAssignmentManager.reservedSeatMap == old(service.seatAssignmentManager.reservedSeatMap)
    ensures first.Some? && first.value.seatHoldId == 1 && first.value.createdDateTime == now
    ensures second.Some? && second.value.seatHoldId == 2 && second.value.createdDateTime == now
    ensures second.value.customerEmail == otherEmail && |SeatIds(second.value)| == b
    ensures service.seatAssignmentManager.seatHoldMap == map[1 := first.value, 2 := second.value]
    ensures service.seatAssignmentManager.seatHoldIdGenerator.seatHoldCounter == 3
  {
    first := HoldOne(service, a, email, now);
    second := service.FindAndHoldSeats(b, Some(otherEmail), now);
    DistinctIdsCount(second.value.holdSeats);
  }

  /** A single reservation covers exactly the seats of its hold. */
  lemma ReservedOne(res: map<string, SeatHold>, code: string, h: SeatHold)
    requires res == map[code := h]
    ensures HeldIds(res) == SeatIds(h)
  {
    HeldIdsAdd(map[], code, h);
  }

  /** A venue whose AVAILABLE count is its size has its best seats in row-major order. */
  lemma AllAvailableByCount(t: SeatTracker)
    requires t.Valid() && t.NumAvailableSeat() == t.rows * t.columns
    ensures BestAvailable(t.Statuses(), t.rows, t.columns) == RowMajor(t.rows, t.columns)
  {
    var st := t.Statuses();
    var total := t.NumTotalSeats();
    assert |st| == |st.Keys| == |t.seats|;
    FullCountAllAvailable(st);
    t.KeysAreGrid();
    AllAvailableIsRowMajor(st, t.rows, t.columns);
  }

}
