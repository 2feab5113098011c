/**
 * The seat assignment manager: holds the best available seats for a customer,
 * turns a hold into a reservation, and expires holds older than the hold time.
 */
module Assignment {

  import opened Options
  import opened Text
  import opened Seats
  import opened Holds
  import opened Tracker
  import opened SeatOrder
  import opened IdGenerators

  // ---- Sets of seat ids held by a map of holds ----

  /** Every seat id covered by some hold of holds (a map of holds or of reservations). */
  ghost function HeldIds<K>(holds: map<K, SeatHold>): set<string> {
    set k, id | k in holds && id in SeatIds(holds[k]) :: id
  }

  lemma HeldIdsMember<K>(holds: map<K, SeatHold>, k: K)
    requires k in holds
    ensures SeatIds(holds[k]) <= HeldIds(holds)
  {
  }

  /** A held seat id has a key whose hold covers it. */
  lemma HeldIdsOwner<K>(holds: map<K, SeatHold>, id: string) returns (k: K)
    requires id in HeldIds(holds)
    ensures k in holds && id in SeatIds(holds[k])
  {
    k :| k in holds && id in SeatIds(holds[k]);
  }

  lemma HeldIdsAdd<K>(holds: map<K, SeatHold>, k: K, h: SeatHold)
    requires k !in holds
    ensures HeldIds(holds[k := h]) == HeldIds(holds) + SeatIds(h)
  {
    var m := holds[k := h];
    forall id | id in HeldIds(m) ensures id in HeldIds(holds) + SeatIds(h) {
      var k' :| k' in m && id in SeatIds(m[k']);
      if k' != k { HeldIdsMember(holds, k'); }
    }
    forall id | id in HeldIds(holds) ensures id in HeldIds(m) {
      var k' :| k' in holds && id in SeatIds(holds[k']);
      HeldIdsMember(m, k');
    }
    HeldIdsMember(m, k);
  }

  /** Holds never share a seat. */
  ghost predicate PairwiseDisjoint<K>(holds: map<K, SeatHold>) {
    forall k1, k2 :: k1 in holds && k2 in holds && k1 != k2 ==> SeatIds(holds[k1]) !! SeatIds(holds[k2])
  }

  lemma HeldIdsRemove<K>(holds: map<K, SeatHold>, k: K)
    requires k in holds && PairwiseDisjoint(holds)
    ensures HeldIds(holds - {k}) == HeldIds(holds) - SeatIds(holds[k])
  {
    var m := holds - {k};
    forall id | id in HeldIds(m) ensures id in HeldIds(holds) - SeatIds(holds[k]) {
      var k' :| k' in m && id in SeatIds(m[k']);
      HeldIdsMember(holds, k');
    }
    forall id | id in HeldIds(holds) - SeatIds(holds[k]) ensures id in HeldIds(m) {
      var k' :| k' in holds && id in SeatIds(holds[k']);
      HeldIdsMember(m, k');
    }
  }

  /** A sub-map holds a subset of the seats. */
  lemma HeldIdsSubMap<K>(a: map<K, SeatHold>, b: map<K, SeatHold>)
    requires forall k :: k in a ==> k in b && a[k] == b[k]
    ensures HeldIds(a) <= HeldIds(b)
  {
    forall id | id in HeldIds(a) ensures id in HeldIds(b) {
      var k :| k in a && id in SeatIds(a[k]);
      HeldIdsMember(b, k);
    }
  }

  // ---- Status maps under bulk updates ----

  /** Setting ids to s adds them to the s ids and removes them from every other status. */
  lemma SetAllIds(st: map<string, SeatStatus>, ids: set<string>, s: SeatStatus, t: SeatStatus)
    ensures t == s ==> IdsWith(SetAll(st, ids, s), t) == IdsWith(st, t) + (ids * st.Keys)
    ensures t != s ==> IdsWith(SetAll(st, ids, s), t) == IdsWith(st, t) - ids
  {
  }

  lemma SetAllTwice(st: map<string, SeatStatus>, a: set<string>, b: set<string>, s: SeatStatus)
    ensures SetAll(SetAll(st, a, s), b, s) == SetAll(st, a + b, s)
  {
  }

  /** One more id set to s. */
  lemma SetAllStep(st: map<string, SeatStatus>, ids: set<string>, id: string, s: SeatStatus)
    requires id in st
    ensures SetAll(st, ids, s)[id := s] == SetAll(st, ids + {id}, s)
  {
  }

  // ---- Seat sequences ----

  lemma IdsOfPrefix(seats: seq<Seat>, i: nat)
    requires i <= |seats|
    ensures IdsOf(seats[..i]) <= IdsOf(seats)
  {
    forall x | x in IdsOf(seats[..i]) ensures x in IdsOf(seats) {
      var j :| 0 <= j < i && seats[..i][j].id == x;
      assert seats[j].id == x;
    }
  }

  /** Sequences with the same id at every index have the same ids. */
  lemma SameIds(a: seq<Seat>, b: seq<Seat>)
    requires |a| == |b| && forall j :: 0 <= j < |a| ==> a[j].id == b[j].id
    ensures IdsOf(a) == IdsOf(b)
    ensures DistinctIds(a) <==> DistinctIds(b)
  {
    forall x | x in IdsOf(a) ensures x in IdsOf(b) {
      var j :| 0 <= j < |a| && a[j].id == x;
      assert b[j].id == x;
    }
    forall x | x in IdsOf(b) ensures x in IdsOf(a) {
      var j :| 0 <= j < |b| && b[j].id == x;
      assert a[j].id == x;
    }
  }

  /** Tracker seats in strictly ascending position order have distinct ids. */
  lemma SortedDistinctIds(t: SeatTracker, sorted: seq<Seat>)
    requires t.Valid()
    requires forall i :: 0 <= i < |sorted| ==> sorted[i].id in t.seats && t.seats[sorted[i].id] == sorted[i]
    requires Ascending(Positions(sorted))
    ensures DistinctIds(sorted)
  {
    var ps := Positions(sorted);
    forall i, j | 0 <= i < j < |sorted| ensures sorted[i].id != sorted[j].id {
      assert Before(ps[i], ps[j]);
    }
  }

  // ---- Reservation confirmation codes ----

  /** The codes handed out while the reservation counter went from 1 to n. */
  ghost function ReservationKeys(n: int): set<string> {
    set x | 1 <= x < n :: IntToString(x)
  }

  /** The next code is new, so no confirmation code is ever handed out twice. */
  lemma ReservationKeysNext(n: int)
    requires n >= 1
    ensures IntToString(n) !in ReservationKeys(n)
    ensures ReservationKeys(n + 1) == ReservationKeys(n) + {IntToString(n)}
  {
    forall x | 1 <= x < n ensures IntToString(x) != IntToString(n) {
      if IntToString(x) == IntToString(n) { IntToStringInjective(x, n); }
    }
    assert IntToString(n) in ReservationKeys(n + 1);
  }

  // ---- Expiry ----

  /** The holds created strictly more than holdTime before now. */
  function ExpiredHolds(holds: map<int, SeatHold>, now: int, holdTime: int): (r: map<int, SeatHold>)
    ensures forall k :: k in r ==> k in holds && r[k] == holds[k]
    ensures forall k :: k in holds ==> (k in r <==> holds[k].createdDateTime < now - holdTime)
  {
    map k | k in holds && holds[k].createdDateTime < now - holdTime :: holds[k]
  }

  // ---- The manager's invariant ----

  /**
   * The hold map: each hold stored under its own id, an id already issued
   * (below next), no seat twice in a hold or in two holds, every held seat HOLD.
   */
  ghost predicate HoldsConsistent(st: map<string, SeatStatus>, holds: map<int, SeatHold>, next: int) {
    && (forall k :: k in holds ==> holds[k].seatHoldId == k && 1 <= k < next && DistinctIds(holds[k].holdSeats))
    && PairwiseDisjoint(holds)
    && HeldIds(holds) <= IdsWith(st, Hold)
  }

  /** The reservation map: no seat in two reservations, every reserved seat RESERVED. */
  ghost predicate ReservationsConsistent(st: map<string, SeatStatus>, res: map<string, SeatHold>) {
    && PairwiseDisjoint(res)
    && HeldIds(res) <= IdsWith(st, Reserved)
  }

  /**
   * The manager's state as values: st the seat statuses, holds and res the two
   * maps, holdNext and resNext the two id counters. Reservation codes are
   * exactly the decimal forms of the ids issued so far.
   */
  ghost predicate Consistent(st: map<string, SeatStatus>, holds: map<int, SeatHold>, res: map<string, SeatHold>, holdNext: int, resNext: int) {
    && 1 <= holdNext && 1 <= resNext
    && HoldsConsistent(st, holds, holdNext)
    && ReservationsConsistent(st, res)
    && res.Keys == ReservationKeys(resNext)
  }

  /** Holding AVAILABLE seats under the next id keeps both maps consistent. */
  lemma AddHoldConsistent(st: map<string, SeatStatus>, holds: map<int, SeatHold>, res: map<string, SeatHold>, h: SeatHold, next: int, resNext: int)
    requires Consistent(st, holds, res, next, resNext)
    requires h.seatHoldId == next && DistinctIds(h.holdSeats) && SeatIds(h) <= IdsWith(st, Available)
    ensures Consistent(SetAll(st, SeatIds(h), Hold), holds[next := h], res, next + 1, resNext)
  {
    forall k | k in holds ensures SeatIds(holds[k]) !! SeatIds(h) {
      HeldIdsMember(holds, k);
    }
    HeldIdsAdd(holds, next, h);
    SetAllIds(st, SeatIds(h), Hold, Hold);
    SetAllIds(st, SeatIds(h), Hold, Reserved);
  }

  /** Dropping a hold keeps both maps consistent; its seats are HOLD and belong to no other hold or reservation. */
  lemma RemoveConsistent(st: map<string, SeatStatus>, holds: map<int, SeatHold>, res: map<string, SeatHold>, k: int, next: int, resNext: int)
    requires Consistent(st, holds, res, next, resNext)
    requires k in holds
    ensures Consistent(st, holds - {k}, res, next, resNext)
    ensures SeatIds(holds[k]) <= IdsWith(st, Hold)
    ensures SeatIds(holds[k]) !! HeldIds(holds - {k}) && SeatIds(holds[k]) !! HeldIds(res)
  {
    HeldIdsMember(holds, k);
    HeldIdsRemove(holds, k);
    HeldIdsSubMap(holds - {k}, holds);
  }

  /** Giving HOLD seats that no hold owns any other status keeps both maps consistent. */
  lemma FreeConsistent(st: map<string, SeatStatus>, holds: map<int, SeatHold>, res: map<string, SeatHold>, ids: set<string>, s: SeatStatus, next: int, resNext: int)
    requires Consistent(st, holds, res, next, resNext)
    requires s != Hold && ids <= IdsWith(st, Hold) && ids !! HeldIds(holds)
    ensures Consistent(SetAll(st, ids, s), holds, res, next, resNext)
  {
    SetAllIds(st, ids, s, Hold);
    SetAllIds(st, ids, s, Reserved);
  }

  /** Filing RESERVED seats that no reservation owns under the next code keeps both maps consistent. */
  lemma AddReservationConsistent(st: map<string, SeatStatus>, holds: map<int, SeatHold>, res: map<string, SeatHold>, h: SeatHold, next: int, resNext: int)
    requires Consistent(st, holds, res, next, resNext)
    requires SeatIds(h) <= IdsWith(st, Reserved) && SeatIds(h) !! HeldIds(res)
    ensures IntToString(resNext) !in res
    ensures Consistent(st, holds, res[IntToString(resNext) := h], next, resNext + 1)
  {
    var code := IntToString(resNext);
    ReservationKeysNext(resNext);
    forall c | c in res ensures SeatIds(res[c]) !! SeatIds(h) {
      HeldIdsMember(res, c);
    }
    HeldIdsAdd(res, code, h);
  }

  // ---- Accounting for every HOLD and RESERVED seat ----

  /**
   * Every HOLD seat belongs to a hold of holds or to orphanHold, and every
   * RESERVED seat to a reservation of res or to orphanReserved, never to
   * both: the orphans are the seats that already had those statuses when
   * the manager was built, which no hold or reservation of its own covers.
   */
  ghost predicate Accounted(st: map<string, SeatStatus>, holds: map<int, SeatHold>, res: map<string, SeatHold>,
                            orphanHold: set<string>, orphanReserved: set<string>) {
    && IdsWith(st, Hold) == HeldIds(holds) + orphanHold && HeldIds(holds) !! orphanHold
    && IdsWith(st, Reserved) == HeldIds(res) + orphanReserved && HeldIds(res) !! orphanReserved
  }

  /** With no holds and no reservations, both maps are consistent and the orphans are all the HOLD and RESERVED seats. */
  lemma EmptyAccounted(st: map<string, SeatStatus>)
    ensures Consistent(st, map[], map[], 1, 1)
    ensures Accounted(st, map[], map[], IdsWith(st, Hold), IdsWith(st, Reserved))
  {
    assert ReservationKeys(1) == {};
    var holds: map<int, SeatHold>, res: map<string, SeatHold> := map[], map[];
    assert HeldIds(holds) == {} && HeldIds(res) == {};
  }

  /** Holding AVAILABLE seats under a new key keeps every seat accounted for. */
  lemma AccountedAfterHold(st: map<string, SeatStatus>, holds: map<int, SeatHold>, res: map<string, SeatHold>,
                           orphanHold: set<string>, orphanReserved: set<string>, k: int, h: SeatHold)
    requires Accounted(st, holds, res, orphanHold, orphanReserved)
    requires k !in holds && SeatIds(h) <= IdsWith(st, Available)
    ensures Accounted(SetAll(st, SeatIds(h), Hold), holds[k := h], res, orphanHold, orphanReserved)
  {
    var ids := SeatIds(h);
    HeldIdsAdd(holds, k, h);
    SetAllIds(st, ids, Hold, Hold);
    SetAllIds(st, ids, Hold, Reserved);
    assert ids * st.Keys == ids;
    assert ids !! IdsWith(st, Reserved);
  }

  /** Turning the hold under k into a reservation under a new code keeps every seat accounted for. */
  lemma AccountedAfterReserve(st: map<string, SeatStatus>, holds: map<int, SeatHold>, res: map<string, SeatHold>,
                              orphanHold: set<string>, orphanReserved: set<string>, k: int, code: string)
    requires Accounted(st, holds, res, orphanHold, orphanReserved)
    requires k in holds && PairwiseDisjoint(holds) && code !in res
    ensures Accounted(SetAll(st, SeatIds(holds[k]), Reserved), holds - {k}, res[code := holds[k]], orphanHold, orphanReserved)
  {
    var h := holds[k];
    var ids := SeatIds(h);
    HeldIdsMember(holds, k);
    HeldIdsRemove(holds, k);
    HeldIdsAdd(res, code, h);
    SetAllIds(st, ids, Reserved, Hold);
    SetAllIds(st, ids, Reserved, Reserved);
    assert ids * st.Keys == ids;
    assert ids !! IdsWith(st, Reserved);
  }

  /** Releasing the hold under k, its seats AVAILABLE again, keeps every seat accounted for. */
  lemma AccountedAfterRelease(st: map<string, SeatStatus>, holds: map<int, SeatHold>, res: map<string, SeatHold>,
                              orphanHold: set<string>, orphanReserved: set<string>, k: int)
    requires Accounted(st, holds, res, orphanHold, orphanReserved)
    requires k in holds && PairwiseDisjoint(holds)
    ensures Accounted(SetAll(st, SeatIds(holds[k]), Available), holds - {k}, res, orphanHold, orphanReserved)
  {
    var ids := SeatIds(holds[k]);
    HeldIdsMember(holds, k);
    HeldIdsRemove(holds, k);
    SetAllIds(st, ids, Available, Hold);
    SetAllIds(st, ids, Available, Reserved);
    assert ids !! IdsWith(st, Reserved);
  }

  /**
   * With every seat accounted for, the AVAILABLE seats, the seats of the
   * holds, the seats of the reservations and the two orphan sets add up to
   * the number of seats.
   */
  lemma AccountedCounts(st: map<string, SeatStatus>, holds: map<int, SeatHold>, res: map<string, SeatHold>,
                        orphanHold: set<string>, orphanReserved: set<string>)
    requires Accounted(st, holds, res, orphanHold, orphanReserved)
    ensures |IdsWith(st, Available)| + |HeldIds(holds)| + |HeldIds(res)| + |orphanHold| + |orphanReserved| == |st|
  {
    StatusCountsPartition(st);
  }

  /** With no orphan HOLD seats, each HOLD seat belongs to exactly one hold. */
  lemma OwningHold(st: map<string, SeatStatus>, holds: map<int, SeatHold>, res: map<string, SeatHold>,
                   orphanReserved: set<string>, id: string) returns (k: int)
    requires Accounted(st, holds, res, {}, orphanReserved) && PairwiseDisjoint(holds)
    requires id in st && st[id] == Hold
    ensures k in holds && id in SeatIds(holds[k])
    ensures forall k' :: k' in holds && id in SeatIds(holds[k']) ==> k' == k
  {
    assert id in IdsWith(st, Hold);
    k := HeldIdsOwner(holds, id);
  }

  // ---- The per-seat loops ----

  /** Every copy is a HOLD seat of its own, not one of the tracker's seats. */
  ghost predicate HeldCopies(tracker: SeatTracker, copies: seq<Seat>)
    reads tracker, copies
  {
    forall i :: 0 <= i < |copies| ==> copies[i].status == Hold && copies[i] !in tracker.seats.Values
  }

  /**
   * The loop of findAndHold: marks the first n seats of sorted HOLD in the
   * tracker and returns a defensive copy of each, taken after the update.
   */
  method HoldEach(tracker: SeatTracker, sorted: seq<Seat>, n: nat) returns (copies: seq<Seat>)
    requires tracker.KeyedById() && n <= |sorted|
    requires forall i :: 0 <= i < |sorted| ==> sorted[i].id in tracker.seats && tracker.seats[sorted[i].id] == sorted[i]
    requires DistinctIds(sorted)
    requires IdsOf(sorted) <= IdsWith(tracker.Statuses(), Available)
    modifies tracker.seats.Values
    ensures unchanged(tracker)
    ensures tracker.Statuses() == SetAll(old(tracker.Statuses()), IdsOf(sorted[..n]), Hold)
    ensures |copies| == n && HeldCopies(tracker, copies)
    ensures forall j :: 0 <= j < n ==> copies[j].id == sorted[j].id && PositionOf(copies[j]) == PositionOf(sorted[j])
  {
    ghost var st0 := tracker.Statuses();
    forall j | 0 <= j < |sorted| ensures sorted[j].status == Available {
      assert sorted[j].id in IdsOf(sorted);
    }
    copies := [];
    var i := 0;
    ghost var st := st0;
    while i < n
      invariant 0 <= i <= n && |copies| == i
      invariant tracker.Statuses() == st
      invariant st == SetAll(st0, IdsOf(sorted[..i]), Hold)
      invariant forall j :: 0 <= j < i ==> copies[j] !in tracker.seats.Values
      invariant forall j :: 0 <= j < i ==> copies[j].id == sorted[j].id && PositionOf(copies[j]) == PositionOf(sorted[j])
      invariant forall j :: 0 <= j < i ==> copies[j].status == Hold
      invariant forall j :: i <= j < |sorted| ==> sorted[j].status == Available
    {
      var seat := sorted[i];
      assert forall j :: i < j < |sorted| ==> sorted[j] != seat;
      assert seat in tracker.seats.Values;
      var copy := HoldSeat(tracker, seat);
      SetAllStep(st0, IdsOf(sorted[..i]), seat.id, Hold);
      IdsOfSnoc(sorted, i);
      st := st[seat.id := Hold];
      copies := copies + [copy];
      i := i + 1;
    }
  }

  /** One step of the findAndHold loop: mark a live AVAILABLE seat HOLD, then copy it. */
  method HoldSeat(tracker: SeatTracker, seat: Seat) returns (copy: Seat)
    requires tracker.KeyedById() && seat.id in tracker.seats && tracker.seats[seat.id] == seat
    requires seat.status == Available
    modifies seat
    ensures tracker.Statuses() == old(tracker.Statuses())[seat.id := Hold]
    ensures copy !in tracker.seats.Values
    ensures fresh(copy) && copy.id == seat.id && PositionOf(copy) == PositionOf(seat) && copy.status == Hold
  {
    tracker.UpdateSeatStatus(seat, Hold);
    copy := new Seat.Copy(seat);
  }

  /**
   * Sets every seat of seats, all of them HOLD, to status through the
   * tracker's guarded update: the release loop of the expiry task (status
   * AVAILABLE) and the reservation loop of reserveSeat (status RESERVED).
   */
  method UpdateEach(tracker: SeatTracker, seats: seq<Seat>, status: SeatStatus)
    requires tracker.KeyedById() && status != Hold
    requires IdsOf(seats) <= IdsWith(tracker.Statuses(), Hold)
    modifies tracker.seats.Values
    ensures unchanged(tracker)
    ensures tracker.Statuses() == SetAll(old(tracker.Statuses()), IdsOf(seats), status)
  {
    ghost var st0 := tracker.Statuses();
    var i := 0;
    while i < |seats|
      invariant 0 <= i <= |seats|
      invariant tracker.Statuses() == SetAll(st0, IdsOf(seats[..i]), status)
    {
      assert seats[i].id in IdsOf(seats);
      assert tracker.Statuses()[seats[i].id] in {Hold, status};
      tracker.UpdateSeatStatus(seats[i], status);
      SetAllStep(st0, IdsOf(seats[..i]), seats[i].id, status);
      IdsOfSnoc(seats, i);
      i := i + 1;
    }
    assert seats[..i] == seats;
  }

  function Max0(n: int): nat {
    if n > 0 then n else 0
  }

  /**
   * The body of findAndHold: nothing when numSeats exceeds the AVAILABLE
   * count; otherwise the AVAILABLE seats sorted by row and column, the first
   * numSeats of them (none when numSeats is not positive) marked HOLD, and a
   * hold of their copies, in that order, under the next hold id.
   */
  method HoldBest(tracker: SeatTracker, ids: SeatHoldIdGenerator, numSeats: int, customerEmail: string, now: int)
    returns (r: Option<SeatHold>)
    requires tracker.Valid() && ids.Valid() && ids.seatHoldCounter < MaxInt
    modifies tracker.seats.Values, ids
    ensures ids.Valid() && unchanged(tracker)
    ensures r.None? <==> numSeats > old(tracker.NumAvailableSeat())
    ensures r.None? ==> tracker.Statuses() == old(tracker.Statuses()) && ids.seatHoldCounter == old(ids.seatHoldCounter)
    ensures r.Some? ==>
              var h := r.value;
              && h.seatHoldId == old(ids.seatHoldCounter) && ids.seatHoldCounter == h.seatHoldId + 1
              && h.customerEmail == customerEmail && h.createdDateTime == now
              && |h.holdSeats| == Max0(numSeats)
              && DistinctIds(h.holdSeats)
              && SeatIds(h) <= IdsWith(old(tracker.Statuses()), Available)
              && Positions(h.holdSeats) <= old(BestAvailable(tracker.Statuses(), tracker.rows, tracker.columns))
              && IdsMatchPositions(h.holdSeats)
              && SeatIds(h) == PositionIds(old(BestAvailable(tracker.Statuses(), tracker.rows, tracker.columns))[..|h.holdSeats|])
              && HeldCopies(tracker, h.holdSeats)
              && tracker.Statuses() == SetAll(old(tracker.Statuses()), SeatIds(h), Hold)
              && tracker.NumAvailableSeat() == old(tracker.NumAvailableSeat()) - |h.holdSeats|
  {
    var availableSeats := tracker.AvailableSeats();
    tracker.AvailableCount();
    if numSeats > |availableSeats| {
      return None;
    }
    var seats := HoldSorted(tracker, Max0(numSeats));
    var id := NextHoldId(tracker, seats, ids);
    r := Some(SeatHold(id, customerEmail, seats, now));
  }

  /** The hold path of findAndHold: the best n AVAILABLE seats marked HOLD, and their copies. */
  method HoldSorted(tracker: SeatTracker, n: nat) returns (seats: seq<Seat>)
    requires tracker.Valid() && n <= tracker.NumAvailableSeat()
    modifies tracker.seats.Values
    ensures tracker.Valid() && unchanged(tracker)
    ensures |seats| == n && DistinctIds(seats)
    ensures IdsOf(seats) <= IdsWith(old(tracker.Statuses()), Available)
    ensures Positions(seats) <= old(BestAvailable(tracker.Statuses(), tracker.rows, tracker.columns))
    ensures IdsMatchPositions(seats)
    ensures IdsOf(seats) == PositionIds(old(BestAvailable(tracker.Statuses(), tracker.rows, tracker.columns))[..n])
    ensures HeldCopies(tracker, seats)
    ensures tracker.Statuses() == SetAll(old(tracker.Statuses()), IdsOf(seats), Hold)
    ensures tracker.NumAvailableSeat() == old(tracker.NumAvailableSeat()) - n
  {
    ghost var best := BestAvailable(tracker.Statuses(), tracker.rows, tracker.columns);
    var sorted := SortByRowAndColumn(tracker.AvailableSeats());
    SortedAvailableFacts(tracker);
    seats := HoldEach(tracker, sorted, n);
    ChosenPrefixFacts(sorted, seats, old(tracker.Statuses()));
    TakeAvailable(old(tracker.Statuses()), IdsOf(seats), Hold);
    PrefixIsSlice(Positions(seats), best);
    IdsArePositionIds(seats);
  }

  /** Draws the next hold id; the tracker's seats and the copies just made are untouched. */
  method NextHoldId(tracker: SeatTracker, copies: seq<Seat>, ids: SeatHoldIdGenerator) returns (id: int)
    requires tracker.Valid() && ids.Valid()
    modifies ids
    ensures ids.Valid() && id == old(ids.seatHoldCounter) && ids.seatHoldCounter == Succ32(id)
    ensures tracker.Valid() && tracker.Statuses() == old(tracker.Statuses())
    ensures tracker.NumAvailableSeat() == old(tracker.NumAvailableSeat())
    ensures HeldCopies(tracker, copies) == old(HeldCopies(tracker, copies))
  {
    id := ids.Generate();
  }

  /** Draws the next reservation id; the tracker's seats are untouched. */
  method NextReservationId(tracker: SeatTracker, ids: ReservationIdGenerator) returns (id: int)
    requires tracker.Valid() && ids.Valid()
    modifies ids
    ensures ids.Valid() && id == old(ids.reservationId) && ids.reservationId == Succ32(id)
    ensures tracker.Valid() && tracker.Statuses() == old(tracker.Statuses())
  {
    id := ids.Generate();
  }

  /** What findAndHold relies on about the sorted AVAILABLE seats of a valid tracker. */
  lemma SortedAvailableFacts(t: SeatTracker)
    requires t.Valid()
    ensures DistinctPositions(t.AvailableSeats())
    ensures var sorted := SortByRowAndColumn(t.AvailableSeats());
            && |sorted| == |IdsWith(t.Statuses(), Available)|
            && Positions(sorted) == BestAvailable(t.Statuses(), t.rows, t.columns)
            && (forall i :: 0 <= i < |sorted| ==> sorted[i].id in t.seats && t.seats[sorted[i].id] == sorted[i])
            && DistinctIds(sorted)
            && IdsOf(sorted) <= IdsWith(t.Statuses(), Available)
            && IdsMatchPositions(sorted)
  {
    var available := t.AvailableSeats();
    t.AvailableCount();
    SortedAvailableIsBestAvailable(t);
    var sorted := SortByRowAndColumn(available);
    AvailableIds(t, sorted);
    SortedDistinctIds(t, sorted);
  }

  /** Seats drawn from the AVAILABLE set are live seats with AVAILABLE ids. */
  lemma AvailableIds(t: SeatTracker, seats: seq<Seat>)
    requires t.Valid()
    requires forall i :: 0 <= i < |seats| ==> seats[i] in t.AvailableSeats()
    ensures forall i :: 0 <= i < |seats| ==> seats[i].id in t.seats && t.seats[seats[i].id] == seats[i]
    ensures IdsOf(seats) <= IdsWith(t.Statuses(), Available)
  {
    forall x | x in IdsOf(seats) ensures x in IdsWith(t.Statuses(), Available) {
      var j :| 0 <= j < |seats| && seats[j].id == x;
      assert seats[j] in t.AvailableSeats();
    }
  }

  /** Copies of the first |seats| sorted seats: same ids, same order, as many ids as seats. */
  lemma ChosenPrefixFacts(sorted: seq<Seat>, seats: seq<Seat>, st: map<string, SeatStatus>)
    requires |seats| <= |sorted|
    requires forall j :: 0 <= j < |seats| ==> seats[j].id == sorted[j].id && PositionOf(seats[j]) == PositionOf(sorted[j])
    requires DistinctIds(sorted) && IdsOf(sorted) <= IdsWith(st, Available)
    requires IdsMatchPositions(sorted)
    ensures IdsOf(seats) == IdsOf(sorted[..|seats|])
    ensures IdsMatchPositions(seats)
    ensures DistinctIds(seats) && IdsOf(seats) <= IdsWith(st, Available) && |IdsOf(seats)| == |seats|
    ensures Positions(seats) <= Positions(sorted)
  {
    var n := |seats|;
    SameIds(seats, sorted[..n]);
    IdsOfPrefix(sorted, n);
    DistinctIdsCount(seats);
    assert Positions(seats) == Positions(sorted)[..n];
  }

  /**
   * One expired hold released: with holds and st the state after releasing
   * the holds of released, releasing h under k too gives the state after
   * releasing released[k := h].
   */
  lemma ExpiryStep(st0: map<string, SeatStatus>, holds0: map<int, SeatHold>, released: map<int, SeatHold>, k: int, h: SeatHold,
                   st: map<string, SeatStatus>, holds: map<int, SeatHold>)
    requires k !in released && k in holds0 && holds0[k] == h
    requires holds == holds0 - released.Keys && st == SetAll(st0, HeldIds(released), Available)
    ensures k in holds && holds[k] == h
    ensures holds - {k} == holds0 - released[k := h].Keys
    ensures SetAll(st, SeatIds(h), Available) == SetAll(st0, HeldIds(released[k := h]), Available)
  {
    SetAllTwice(st0, HeldIds(released), SeatIds(h), Available);
    HeldIdsAdd(released, k, h);
  }

  /**
   * Once every expired hold is released: the released holds are the expired
   * ones, and the AVAILABLE count grew by the number of their seats.
   */
  lemma ExpiryDone(st0: map<string, SeatStatus>, holds0: map<int, SeatHold>, expired: map<int, SeatHold>, released: map<int, SeatHold>, next: int)
    requires HoldsConsistent(st0, holds0, next)
    requires forall k :: k in expired ==> k in holds0 && expired[k] == holds0[k]
    requires forall k :: k in released <==> k in expired
    requires forall k :: k in released ==> released[k] == expired[k]
    ensures released == expired
    ensures |IdsWith(SetAll(st0, HeldIds(expired), Available), Available)| == |IdsWith(st0, Available)| + |HeldIds(expired)|
  {
    assert released == expired by {
      assert forall k :: k in released <==> k in expired;
      assert forall k :: k in released ==> released[k] == expired[k];
    }
    assert forall k :: k in expired ==> k in holds0 && expired[k] == holds0[k];
    HeldIdsSubMap(expired, holds0);
    GiveAvailable(st0, HeldIds(expired));
  }

  /** A non-empty set has a member to pick. */
  lemma NonEmptyHasMember<T>(s: set<T>)
    ensures s != {} ==> exists x :: x in s
  {
    if forall x :: x !in s {
      forall x ensures x in s <==> x in {} {}
      assert s == {};
    }
  }

  /** A member of a non-empty set. */
  lemma Member<T>(s: set<T>) returns (x: T)
    requires s != {}
    ensures x in s
  {
    NonEmptyHasMember(s);
    x :| x in s;
  }

  /** Moving k from the pending keys to the released ones keeps the two a partition of all keys. */
  lemma PendingStep(pending: set<int>, released: map<int, SeatHold>, k: int, h: SeatHold, all: set<int>)
    requires k in pending && pending !! released.Keys && pending + released.Keys == all
    ensures (pending - {k}) !! released[k := h].Keys && (pending - {k}) + released[k := h].Keys == all
  {
  }

  class SeatAssignmentManager {
    const holdTime: int
    const seatTracker: SeatTracker
    /** Live holds by hold id. */
    var seatHoldMap: map<int, SeatHold>
    /** Reservations by confirmation code. */
    var reservedSeatMap: map<string, SeatHold>
    const seatHoldIdGenerator: SeatHoldIdGenerator
    const reservationIdGenerator: ReservationIdGenerator
    /** The seats already HOLD, and those already RESERVED, in the tracker the manager was built on. */
    ghost const orphanHold: set<string>
    ghost const orphanReserved: set<string>

    /**
     * The invariant between public operations: the maps and counters are
     * consistent with the seat statuses, and every HOLD or RESERVED seat is
     * accounted for.
     */
    ghost predicate Valid()
      reads this, seatTracker, seatTracker.seats.Values, seatHoldIdGenerator, reservationIdGenerator
    {
      && Coherent()
      && Accounted(seatTracker.Statuses(), seatHoldMap, reservedSeatMap, orphanHold, orphanReserved)
    }

    /** The invariant without the accounting, which holds between the steps of reserveSeat and of the expiry task too. */
    ghost predicate Coherent()
      reads this, seatTracker, seatTracker.seats.Values, seatHoldIdGenerator, reservationIdGenerator
    {
      && seatTracker.Valid()
      && holdTime >= 0
      && seatHoldIdGenerator.Valid() && reservationIdGenerator.Valid()
      && Consistent(seatTracker.Statuses(), seatHoldMap, reservedSeatMap,
                    seatHoldIdGenerator.seatHoldCounter, reservationIdGenerator.reservationId)
    }

    /** A negative hold time falls back to 120 seconds; both maps start empty and both counters at 1. */
    constructor (seatTracker: SeatTracker, holdTime: int)
      requires seatTracker.Valid()
      ensures Valid()
      ensures this.seatTracker == seatTracker
      ensures this.holdTime == if holdTime >= 0 then holdTime else 120
      ensures seatHoldMap == map[] && reservedSeatMap == map[]
      ensures seatHoldIdGenerator.seatHoldCounter == 1 && reservationIdGenerator.reservationId == 1
      ensures fresh(seatHoldIdGenerator) && fresh(reservationIdGenerator)
      ensures orphanHold == IdsWith(seatTracker.Statuses(), Hold)
      ensures orphanReserved == IdsWith(seatTracker.Statuses(), Reserved)
    {
      ghost var st := seatTracker.Statuses();
      this.seatTracker := seatTracker;
      orphanHold := IdsWith(st, Hold);
      orphanReserved := IdsWith(st, Reserved);
      this.holdTime := if holdTime >= 0 then holdTime else 120;
      seatHoldMap := map[];
      reservedSeatMap := map[];
      seatHoldIdGenerator := new SeatHoldIdGenerator();
      reservationIdGenerator := new ReservationIdGenerator();
      new;
      EmptyAccounted(st);
      assert seatTracker.Statuses() == st;
    }

    /**
     * findAndHold: fails when fewer than numSeats seats are AVAILABLE;
     * otherwise marks the best numSeats of them HOLD (none when numSeats is
     * not positive) and records a new hold of their copies under the next id.
     */
    method FindAndHold(numSeats: int, customerEmail: string, now: int) returns (r: Option<SeatHold>)
      requires Valid() && seatHoldIdGenerator.seatHoldCounter < MaxInt
      modifies this, seatTracker.seats.Values, seatHoldIdGenerator
      ensures Valid() && unchanged(seatTracker)
      ensures reservedSeatMap == old(reservedSeatMap)
      ensures r.None? <==> numSeats > old(seatTracker.NumAvailableSeat())
      ensures r.None? ==>
                && seatHoldMap == old(seatHoldMap)
                && seatTracker.Statuses() == old(seatTracker.Statuses())
                && seatHoldIdGenerator.seatHoldCounter == old(seatHoldIdGenerator.seatHoldCounter)
      ensures r.Some? ==>
                var h := r.value;
                && h.seatHoldId == old(seatHoldIdGenerator.seatHoldCounter) && h.seatHoldId !in old(seatHoldMap)
                && seatHoldIdGenerator.seatHoldCounter == h.seatHoldId + 1
                && h.customerEmail == customerEmail && h.createdDateTime == now
                && |h.holdSeats| == Max0(numSeats) && DistinctIds(h.holdSeats)
                && SeatIds(h) <= IdsWith(old(seatTracker.Statuses()), Available)
                && Positions(h.holdSeats) <= old(BestAvailable(seatTracker.Statuses(), seatTracker.rows, seatTracker.columns))
                && IdsMatchPositions(h.holdSeats)
                && SeatIds(h) == PositionIds(old(BestAvailable(seatTracker.Statuses(), seatTracker.rows, seatTracker.columns))[..|h.holdSeats|])
                && HeldCopies(seatTracker, h.holdSeats)
                && seatHoldMap == old(seatHoldMap)[h.seatHoldId := h]
                && seatTracker.Statuses() == SetAll(old(seatTracker.Statuses()), SeatIds(h), Hold)
                && seatTracker.NumAvailableSeat() == old(seatTracker.NumAvailableSeat()) - |h.holdSeats|
    {
      ghost var st0 := seatTracker.Statuses();
      r := HoldBest(seatTracker, seatHoldIdGenerator, numSeats, customerEmail, now);
      if r.Some? {
        FileHold(st0, r.value);
      }
    }

    /**
     * The last step of findAndHold: files the new hold, whose seats were
     * AVAILABLE in st0 and are HOLD now, under its id. The seats, the
     * copies and the counters are untouched.
     */
    method FileHold(ghost st0: map<string, SeatStatus>, h: SeatHold)
      requires seatTracker.Valid() && holdTime >= 0 && seatHoldIdGenerator.Valid() && reservationIdGenerator.Valid()
      requires Consistent(st0, seatHoldMap, reservedSeatMap, h.seatHoldId, reservationIdGenerator.reservationId)
      requires Accounted(st0, seatHoldMap, reservedSeatMap, orphanHold, orphanReserved)
      requires seatHoldIdGenerator.seatHoldCounter == h.seatHoldId + 1
      requires DistinctIds(h.holdSeats) && SeatIds(h) <= IdsWith(st0, Available)
      requires seatTracker.Statuses() == SetAll(st0, SeatIds(h), Hold)
      modifies this`seatHoldMap
      ensures Valid() && seatHoldMap == old(seatHoldMap)[h.seatHoldId := h] && reservedSeatMap == old(reservedSeatMap)
      ensures seatTracker.Statuses() == old(seatTracker.Statuses())
      ensures seatTracker.NumAvailableSeat() == old(seatTracker.NumAvailableSeat())
      ensures seatHoldIdGenerator.seatHoldCounter == old(seatHoldIdGenerator.seatHoldCounter)
      ensures HeldCopies(seatTracker, h.holdSeats) == old(HeldCopies(seatTracker, h.holdSeats))
    {
      AddHoldConsistent(st0, seatHoldMap, reservedSeatMap, h, h.seatHoldId, reservationIdGenerator.reservationId);
      AccountedAfterHold(st0, seatHoldMap, reservedSeatMap, orphanHold, orphanReserved, h.seatHoldId, h);
      SetHoldMap(seatHoldMap[h.seatHoldId := h]);
    }

    /** Replaces seatHoldMap by holds, already known consistent with the rest of the state, which is untouched. */
    method SetHoldMap(holds: map<int, SeatHold>)
      requires seatTracker.Valid() && holdTime >= 0 && seatHoldIdGenerator.Valid() && reservationIdGenerator.Valid()
      requires Consistent(seatTracker.Statuses(), holds, reservedSeatMap,
                          seatHoldIdGenerator.seatHoldCounter, reservationIdGenerator.reservationId)
      modifies this`seatHoldMap
      ensures Coherent() && seatHoldMap == holds && reservedSeatMap == old(reservedSeatMap)
      ensures seatTracker.Statuses() == old(seatTracker.Statuses())
      ensures seatTracker.NumAvailableSeat() == old(seatTracker.NumAvailableSeat())
      ensures seatHoldIdGenerator.seatHoldCounter == old(seatHoldIdGenerator.seatHoldCounter)
      ensures reservationIdGenerator.reservationId == old(reservationIdGenerator.reservationId)
    {
      seatHoldMap := holds;
    }

    /**
     * reserveSeat: fails when there is no hold under seatHoldId or its email
     * differs from customerEmail ignoring case. Otherwise the hold leaves
     * seatHoldMap, its seats become RESERVED, and it is filed in
     * reservedSeatMap under the decimal form of the next reservation id,
     * which is returned.
     */
    method ReserveSeat(seatHoldId: int, customerEmail: string) returns (r: Option<string>)
      requires Valid() && reservationIdGenerator.reservationId < MaxInt
      modifies this, seatTracker.seats.Values, reservationIdGenerator
      ensures Valid() && unchanged(seatTracker)
      ensures r.None? <==>
                seatHoldId !in old(seatHoldMap) || !EqualsIgnoreCase(old(seatHoldMap)[seatHoldId].customerEmail, customerEmail)
      ensures r.None? ==>
                && seatHoldMap == old(seatHoldMap) && reservedSeatMap == old(reservedSeatMap)
                && seatTracker.Statuses() == old(seatTracker.Statuses())
                && reservationIdGenerator.reservationId == old(reservationIdGenerator.reservationId)
      ensures r.Some? ==>
                var h := old(seatHoldMap)[seatHoldId];
                && r.value == IntToString(old(reservationIdGenerator.reservationId)) && r.value !in old(reservedSeatMap)
                && reservationIdGenerator.reservationId == old(reservationIdGenerator.reservationId) + 1
                && seatHoldMap == old(seatHoldMap) - {seatHoldId}
                && reservedSeatMap == old(reservedSeatMap)[r.value := h]
                && seatTracker.Statuses() == SetAll(old(seatTracker.Statuses()), SeatIds(h), Reserved)
                && seatTracker.NumAvailableSeat() == old(seatTracker.NumAvailableSeat())
    {
      if seatHoldId !in seatHoldMap || !EqualsIgnoreCase(seatHoldMap[seatHoldId].customerEmail, customerEmail) {
        return None;
      }
      var seatHold := seatHoldMap[seatHoldId];
      ghost var st0, holds0, res0 := seatTracker.Statuses(), seatHoldMap, reservedSeatMap;
      RemoveConsistent(st0, seatHoldMap, reservedSeatMap, seatHoldId,
                       seatHoldIdGenerator.seatHoldCounter, reservationIdGenerator.reservationId);
      var _ := RemoveHold(seatHoldId);
      SetHeldSeats(seatHold.holdSeats, Reserved);
      SetAllIds(st0, SeatIds(seatHold), Reserved, Reserved);
      KeepAvailable(st0, SeatIds(seatHold), Reserved);
      var code := RecordReservation(seatHold);
      AccountedAfterReserve(st0, holds0, res0, orphanHold, orphanReserved, seatHoldId, code);
      r := Some(code);
    }

    /**
     * The expiry task, run at clock value now: every hold created strictly
     * more than holdTime before now leaves seatHoldMap and its seats become
     * AVAILABLE again; reservations and younger holds are untouched.
     */
    method ExpireHolds(now: int)
      requires Valid()
      modifies this, seatTracker.seats.Values
      ensures Valid() && unchanged(seatTracker)
      ensures var expired := ExpiredHolds(old(seatHoldMap), now, holdTime);
              && seatHoldMap == old(seatHoldMap) - expired.Keys
              && seatTracker.Statuses() == SetAll(old(seatTracker.Statuses()), HeldIds(expired), Available)
              && seatTracker.NumAvailableSeat() == old(seatTracker.NumAvailableSeat()) + |HeldIds(expired)|
      ensures reservedSeatMap == old(reservedSeatMap)
      ensures seatHoldIdGenerator.seatHoldCounter == old(seatHoldIdGenerator.seatHoldCounter)
      ensures reservationIdGenerator.reservationId == old(reservationIdGenerator.reservationId)
    {
      var expired := ExpiredHolds(seatHoldMap, now, holdTime);
      ghost var holds0, st0, next0 := seatHoldMap, seatTracker.Statuses(), seatHoldIdGenerator.seatHoldCounter;
      ghost var released := ReleaseAll(expired);
      ExpiryDone(st0, holds0, expired, released, next0);
    }

    /**
     * The loop of the expiry task: each entry of expired, taken in no
     * particular order, is released; released is what was released under
     * which key.
     */
    method ReleaseAll(expired: map<int, SeatHold>) returns (ghost released: map<int, SeatHold>)
      requires Valid()
      requires forall k :: k in expired ==> k in seatHoldMap && expired[k] == seatHoldMap[k]
      modifies this, seatTracker.seats.Values
      ensures Valid() && unchanged(seatTracker)
      ensures forall k :: k in released <==> k in expired
      ensures forall k :: k in released ==> released[k] == expired[k]
      ensures seatHoldMap == old(seatHoldMap) - released.Keys
      ensures seatTracker.Statuses() == SetAll(old(seatTracker.Statuses()), HeldIds(released), Available)
      ensures reservedSeatMap == old(reservedSeatMap)
      ensures seatHoldIdGenerator.seatHoldCounter == old(seatHoldIdGenerator.seatHoldCounter)
      ensures reservationIdGenerator.reservationId == old(reservationIdGenerator.reservationId)
    {
      ghost var holds0, st0 := seatHoldMap, seatTracker.Statuses();
      var pending := expired.Keys;
      released := map[];
      while pending != {}
        invariant Valid()
        invariant pending !! released.Keys && pending + released.Keys == expired.Keys
        invariant unchanged(seatTracker)
        invariant forall k :: k in released ==> released[k] == expired[k]
        invariant seatHoldMap == holds0 - released.Keys
        invariant seatTracker.Statuses() == SetAll(st0, HeldIds(released), Available)
        invariant reservedSeatMap == old(reservedSeatMap)
        invariant seatHoldIdGenerator.seatHoldCounter == old(seatHoldIdGenerator.seatHoldCounter)
        invariant reservationIdGenerator.reservationId == old(reservationIdGenerator.reservationId)
        decreases pending
      {
        ghost var someKey := Member(pending);
        var k :| k in pending;
        ExpiryStep(st0, holds0, released, k, expired[k], seatTracker.Statuses(), seatHoldMap);
        PendingStep(pending, released, k, expired[k], expired.Keys);
        ReleaseExpired(k, expired[k]);
        released := released[k := expired[k]];
        pending := pending - {k};
      }
    }

    /**
     * One entry of the expiry task: the hold under k is removed and, when it
     * was still there, the seats of h (the hold as the expiry snapshot saw it)
     * become AVAILABLE.
     */
    method ReleaseExpired(k: int, h: SeatHold)
      requires Valid() && (k in seatHoldMap ==> seatHoldMap[k] == h)
      modifies this, seatTracker.seats.Values
      ensures Valid()
      ensures unchanged(seatTracker)
      ensures seatHoldMap == old(seatHoldMap) - {k} && reservedSeatMap == old(reservedSeatMap)
      ensures seatTracker.Statuses() ==
                if k in old(seatHoldMap) then SetAll(old(seatTracker.Statuses()), SeatIds(h), Available)
                else old(seatTracker.Statuses())
      ensures seatHoldIdGenerator.seatHoldCounter == old(seatHoldIdGenerator.seatHoldCounter)
      ensures reservationIdGenerator.reservationId == old(reservationIdGenerator.reservationId)
    {
      ghost var st0, holds0 := seatTracker.Statuses(), seatHoldMap;
      if k in seatHoldMap {
        RemoveConsistent(st0, holds0, reservedSeatMap, k,
                         seatHoldIdGenerator.seatHoldCounter, reservationIdGenerator.reservationId);
        AccountedAfterRelease(st0, holds0, reservedSeatMap, orphanHold, orphanReserved, k);
      } else {
        assert holds0 - {k} == holds0;
      }
      var removed := RemoveHold(k);
      if removed.Some? {
        SetHeldSeats(h.holdSeats, Available);
      }
    }

    /** seatHoldMap.remove: drops the hold under seatHoldId, if any, and returns it; its seats stay HOLD. */
    method RemoveHold(seatHoldId: int) returns (removed: Option<SeatHold>)
      requires Coherent()
      modifies this
      ensures Coherent()
      ensures removed == if seatHoldId in old(seatHoldMap) then Some(old(seatHoldMap)[seatHoldId]) else None
      ensures seatHoldMap == old(seatHoldMap) - {seatHoldId} && reservedSeatMap == old(reservedSeatMap)
      ensures seatTracker.Statuses() == old(seatTracker.Statuses())
      ensures seatHoldIdGenerator.seatHoldCounter == old(seatHoldIdGenerator.seatHoldCounter)
      ensures reservationIdGenerator.reservationId == old(reservationIdGenerator.reservationId)
    {
      if seatHoldId in seatHoldMap {
        removed := Some(seatHoldMap[seatHoldId]);
        RemoveConsistent(seatTracker.Statuses(), seatHoldMap, reservedSeatMap, seatHoldId,
                         seatHoldIdGenerator.seatHoldCounter, reservationIdGenerator.reservationId);
      } else {
        removed := None;
        assert seatHoldMap - {seatHoldId} == seatHoldMap;
      }
      SetHoldMap(seatHoldMap - {seatHoldId});
    }

    /** Sets each seat of a removed hold to status through the tracker's guarded update. */
    method SetHeldSeats(seats: seq<Seat>, status: SeatStatus)
      requires Coherent() && status != Hold
      requires IdsOf(seats) <= IdsWith(seatTracker.Statuses(), Hold) && IdsOf(seats) !! HeldIds(seatHoldMap)
      modifies seatTracker.seats.Values
      ensures Coherent()
      ensures seatTracker.Statuses() == SetAll(old(seatTracker.Statuses()), IdsOf(seats), status)
      ensures unchanged(seatTracker)
      ensures seatHoldMap == old(seatHoldMap) && reservedSeatMap == old(reservedSeatMap)
      ensures seatHoldIdGenerator.seatHoldCounter == old(seatHoldIdGenerator.seatHoldCounter)
      ensures reservationIdGenerator.reservationId == old(reservationIdGenerator.reservationId)
    {
      FreeConsistent(seatTracker.Statuses(), seatHoldMap, reservedSeatMap, IdsOf(seats), status,
                     seatHoldIdGenerator.seatHoldCounter, reservationIdGenerator.reservationId);
      UpdateEach(seatTracker, seats, status);
    }

    /** Draws the next reservation id and files h under its decimal form. */
    method RecordReservation(h: SeatHold) returns (code: string)
      requires Coherent() && reservationIdGenerator.reservationId < MaxInt
      requires SeatIds(h) <= IdsWith(seatTracker.Statuses(), Reserved) && SeatIds(h) !! HeldIds(reservedSeatMap)
      modifies this, reservationIdGenerator
      ensures Coherent()
      ensures code == IntToString(old(reservationIdGenerator.reservationId)) && code !in old(reservedSeatMap)
      ensures reservationIdGenerator.reservationId == old(reservationIdGenerator.reservationId) + 1
      ensures reservedSeatMap == old(reservedSeatMap)[code := h] && seatHoldMap == old(seatHoldMap)
      ensures seatTracker.Statuses() == old(seatTracker.Statuses())
    {
      AddReservationConsistent(seatTracker.Statuses(), seatHoldMap, reservedSeatMap, h,
                               seatHoldIdGenerator.seatHoldCounter, reservationIdGenerator.reservationId);
      var id := NextReservationId(seatTracker, reservationIdGenerator);
      code := IntToString(id);
      SetReservedMap(reservedSeatMap[code := h]);
    }

    /** Replaces reservedSeatMap by res, already known consistent with the rest of the state, which is untouched. */
    method SetReservedMap(res: map<string, SeatHold>)
      requires seatTracker.Valid() && holdTime >= 0 && seatHoldIdGenerator.Valid() && reservationIdGenerator.Valid()
      requires Consistent(seatTracker.Statuses(), seatHoldMap, res,
                          seatHoldIdGenerator.seatHoldCounter, reservationIdGenerator.reservationId)
      modifies this`reservedSeatMap
      ensures Coherent() && reservedSeatMap == res && seatHoldMap == old(seatHoldMap)
      ensures seatTracker.Statuses() == old(seatTracker.Statuses())
      ensures reservationIdGenerator.reservationId == old(reservationIdGenerator.reservationId)
    {
      ghost var st := seatTracker.Statuses();
      reservedSeatMap := res;
      assert seatTracker.Statuses() == st;
    }
  }

}
