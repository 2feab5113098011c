/** The registry of every seat of the venue and its status. */
module Tracker {

  import opened Seats

  /** The ids of a rows x columns grid. */
  ghost function GridIds(rows: nat, columns: nat): set<string> {
    set i, j | 0 <= i < rows && 0 <= j < columns :: SeatId(i, j)
  }

  ghost function RowIds(i: int, columns: nat): set<string> {
    set j | 0 <= j < columns :: SeatId(i, j)
  }

  lemma {:induction false} RowSize(i: int, columns: nat)
    ensures |RowIds(i, columns)| == columns
    decreases columns
  {
    if columns > 0 {
      var c := columns - 1;
      assert RowIds(i, columns) == RowIds(i, c) + {SeatId(i, c)};
      assert SeatId(i, c) !in RowIds(i, c) by {
        forall j | 0 <= j < c ensures SeatId(i, j) != SeatId(i, c) {
          if SeatId(i, j) == SeatId(i, c) { SeatIdInjective(i, j, i, c); }
        }
      }
      RowSize(i, c);
    }
  }

  lemma GridSplit(r: nat, columns: nat)
    ensures GridIds(r + 1, columns) == GridIds(r, columns) + RowIds(r, columns)
  {
    forall x | x in GridIds(r + 1, columns) ensures x in GridIds(r, columns) + RowIds(r, columns) {
      var i, j :| 0 <= i < r + 1 && 0 <= j < columns && x == SeatId(i, j);
      if i < r { assert x in GridIds(r, columns); } else { assert x in RowIds(r, columns); }
    }
  }

  lemma GridRowDisjoint(r: nat, columns: nat)
    ensures GridIds(r, columns) !! RowIds(r, columns)
  {
    forall x | x in GridIds(r, columns) && x in RowIds(r, columns) ensures false {
      var i, j :| 0 <= i < r && 0 <= j < columns && x == SeatId(i, j);
      var j' :| 0 <= j' < columns && x == SeatId(r, j');
      SeatIdInjective(i, j, r, j');
    }
  }

  /** A rows x columns grid has rows * columns distinct ids. */
  lemma {:induction false} GridSize(rows: nat, columns: nat)
    ensures |GridIds(rows, columns)| == rows * columns
    decreases rows
  {
    if rows > 0 {
      var r := rows - 1;
      GridSplit(r, columns);
      GridRowDisjoint(r, columns);
      GridSize(r, columns);
      RowSize(r, columns);
      assert |GridIds(rows, columns)| == r * columns + columns;
      assert rows * columns == r * columns + columns;
    }
  }

  /**
   * The guard of updateSeatStatus: the stored status, the status of the seat
   * object passed in, and the requested status give the new stored status.
   * The third clause reads the passed seat's own status, not the requested one.
   */
  function Transition(stored: SeatStatus, passed: SeatStatus, requested: SeatStatus): (r: SeatStatus)
    ensures requested == stored ==> r == stored
    ensures stored == Reserved ==> r == Reserved
    ensures stored == Available && passed == Reserved ==> r == Available
    ensures r == stored || r == requested
    ensures r != stored <==>
              (stored == Available && requested != Available && passed != Reserved) ||
              (stored == Hold && requested != Hold)
  {
    assert stored.Available? || stored.Hold? || stored.Reserved?;
    if requested == stored || stored == Reserved || (stored == Available && passed == Reserved) then stored
    else requested
  }

  /** The ids whose status is s. */
  ghost function IdsWith(st: map<string, SeatStatus>, s: SeatStatus): set<string> {
    set k | k in st && st[k] == s
  }

  /** st with every id of ids (that it has) set to s. */
  ghost function SetAll(st: map<string, SeatStatus>, ids: set<string>, s: SeatStatus): map<string, SeatStatus> {
    map k | k in st :: if k in ids then s else st[k]
  }

  /** Every seat is AVAILABLE, HOLD or RESERVED: the three counts add up to the number of seats. */
  lemma StatusCountsPartition(st: map<string, SeatStatus>)
    ensures |IdsWith(st, Available)| + |IdsWith(st, Hold)| + |IdsWith(st, Reserved)| == |st|
  {
    var a, h, r := IdsWith(st, Available), IdsWith(st, Hold), IdsWith(st, Reserved);
    assert st.Keys == a + h + r;
    assert a !! h && (a + h) !! r;
  }

  /** Setting available ids to a status s lowers the available count by their number. */
  lemma TakeAvailable(st: map<string, SeatStatus>, ids: set<string>, s: SeatStatus)
    requires ids <= IdsWith(st, Available) && s != Available
    ensures IdsWith(SetAll(st, ids, s), Available) == IdsWith(st, Available) - ids
    ensures |IdsWith(SetAll(st, ids, s), Available)| == |IdsWith(st, Available)| - |ids|
  {
    var a := IdsWith(st, Available);
    assert IdsWith(SetAll(st, ids, s), Available) == a - ids;
    assert a == (a - ids) + ids;
  }

  /** Setting non-available ids to AVAILABLE raises the available count by their number. */
  lemma GiveAvailable(st: map<string, SeatStatus>, ids: set<string>)
    requires ids <= st.Keys && ids !! IdsWith(st, Available)
    ensures IdsWith(SetAll(st, ids, Available), Available) == IdsWith(st, Available) + ids
    ensures |IdsWith(SetAll(st, ids, Available), Available)| == |IdsWith(st, Available)| + |ids|
  {
    assert IdsWith(SetAll(st, ids, Available), Available) == IdsWith(st, Available) + ids;
  }

  /** Setting HOLD ids to a status other than AVAILABLE leaves the AVAILABLE ids, and their count, as they were. */
  lemma KeepAvailable(st: map<string, SeatStatus>, ids: set<string>, s: SeatStatus)
    requires ids <= IdsWith(st, Hold) && s != Available
    ensures IdsWith(SetAll(st, ids, s), Available) == IdsWith(st, Available)
  {
  }

  lemma SubsetSize<T>(a: set<T>, b: set<T>)
    requires a <= b
    ensures |a| <= |b|
  {
    assert b == a + (b - a);
  }

  /** The ids of a set of seats. */
  ghost function IdsOfSet(seats: set<Seat>): set<string> {
    set s | s in seats :: s.id
  }

  /** Seats with distinct ids are as many as their ids. */
  lemma {:induction false} CountById(seats: set<Seat>)
    requires forall a, b :: a in seats && b in seats && a.id == b.id ==> a == b
    ensures |seats| == |IdsOfSet(seats)|
    decreases seats
  {
    if seats != {} {
      var x :| x in seats;
      var rest := seats - {x};
      assert IdsOfSet(seats) == IdsOfSet(rest) + {x.id};
      assert x.id !in IdsOfSet(rest) by {
        forall s | s in rest ensures s.id != x.id {
          assert s != x;
        }
      }
      CountById(rest);
    }
  }

  class SeatTracker {
    /** The seats, keyed by id; the map is filled once by Init and then only its seats change. */
    var seats: map<string, Seat>
    const rows: nat
    const columns: nat

    /** Every seat is stored under its own id, so no two keys share a seat. */
    ghost predicate KeyedById()
      reads this
    {
      forall k :: k in seats ==> seats[k].id == k
    }

    /** Exactly one seat per grid position, stored under its own id. */
    ghost predicate Valid()
      reads this
    {
      && KeyedById()
      && (forall k :: k in seats ==>
            && k == SeatId(seats[k].rowNum, seats[k].columnNum)
            && 0 <= seats[k].rowNum < rows && 0 <= seats[k].columnNum < columns)
      && (forall i, j :: 0 <= i < rows && 0 <= j < columns ==> SeatId(i, j) in seats)
    }

    /** The status of every seat, by id. */
    ghost function Statuses(): (st: map<string, SeatStatus>)
      reads this, seats.Values
      ensures st.Keys == seats.Keys
    {
      map k | k in seats :: seats[k].status
    }

    lemma KeysAreGrid()
      requires Valid()
      ensures seats.Keys == GridIds(rows, columns)
    {
      forall k | k in seats ensures k in GridIds(rows, columns) {
        assert k == SeatId(seats[k].rowNum, seats[k].columnNum);
      }
    }

    /** A rows x columns venue whose seats are all AVAILABLE. */
    constructor (rows: nat, columns: nat)
      ensures Valid() && this.rows == rows && this.columns == columns
      ensures seats.Keys == GridIds(rows, columns)
      ensures IdsWith(Statuses(), Available) == seats.Keys
      ensures fresh(seats.Values)
    {
      this.rows := rows;
      this.columns := columns;
      seats := map[];
      new;
      Init();
      KeysAreGrid();
    }

    /** Puts a new AVAILABLE seat under SeatId(i, j) for every grid position, row by row. */
    method Init()
      requires seats == map[]
      modifies this
      ensures Valid()
      ensures forall k :: k in seats ==> seats[k].status == Available
      ensures fresh(seats.Values)
    {
      var m: map<string, Seat> := map[];
      var i := 0;
      while i < rows
        invariant 0 <= i <= rows
        invariant forall k :: k in m ==>
                    && m[k].id == k && m[k].status == Available && fresh(m[k])
                    && k == SeatId(m[k].rowNum, m[k].columnNum)
                    && 0 <= m[k].rowNum < i && 0 <= m[k].columnNum < columns
        invariant forall r, c :: 0 <= r < i && 0 <= c < columns ==> SeatId(r, c) in m
      {
        var j := 0;
        while j < columns
          invariant 0 <= j <= columns
          invariant forall k :: k in m ==>
                      && m[k].id == k && m[k].status == Available && fresh(m[k])
                      && k == SeatId(m[k].rowNum, m[k].columnNum)
                      && 0 <= m[k].columnNum < columns
                      && (0 <= m[k].rowNum < i || (m[k].rowNum == i && m[k].columnNum < j))
          invariant forall r, c :: ((0 <= r < i && 0 <= c < columns) || (r == i && 0 <= c < j)) ==> SeatId(r, c) in m
        {
          var seat := new Seat(i, j);
          m := m[seat.id := seat];
          j := j + 1;
        }
        i := i + 1;
      }
      seats := m;
    }

    /**
     * Sets the stored seat with seat's id to status, unless the guard rejects
     * the change (see Transition); nothing else changes.
     */
    method UpdateSeatStatus(seat: Seat, status: SeatStatus)
      requires KeyedById() && seat.id in seats
      modifies seats[seat.id]
      ensures Statuses() == old(Statuses())[seat.id := Transition(old(seats[seat.id].status), old(seat.status), status)]
    {
      var seatTrackerSeat := seats[seat.id];
      if status == seatTrackerSeat.status || seatTrackerSeat.status == Reserved
         || (seatTrackerSeat.status == Available && seat.status == Reserved) {
        return;
      }
      seatTrackerSeat.SetStatus(status);
    }

    /** The live seats whose status is AVAILABLE, in no particular order. */
    function AvailableSeats(): (r: set<Seat>)
      reads this, seats.Values
      requires Valid()
      ensures forall s :: s in r ==> s.id in seats && seats[s.id] == s
      ensures forall k :: k in seats ==> (seats[k] in r <==> Statuses()[k] == Available)
      ensures IdsOfSet(r) == IdsWith(Statuses(), Available)
    {
      set s | s in seats.Values && s.status == Available
    }

    function NumTotalSeats(): (n: nat)
      reads this
      requires Valid()
      ensures n == |seats|
    {
      KeysAreGrid();
      GridSize(rows, columns);
      rows * columns
    }

    function NumAvailableSeat(): (n: nat)
      reads this, seats.Values
      requires Valid()
      ensures n == |IdsWith(Statuses(), Available)|
      ensures n <= NumTotalSeats()
    {
      AvailableCount();
      |AvailableSeats()|
    }

    lemma AvailableCount()
      requires Valid()
      ensures |AvailableSeats()| == |IdsWith(Statuses(), Available)| <= |seats|
    {
      var available := AvailableSeats();
      forall a, b | a in available && b in available && a.id == b.id ensures a == b {
        assert seats[a.id] == a && seats[b.id] == b;
      }
      CountById(available);
      SubsetSize(IdsWith(Statuses(), Available), seats.Keys);
    }
  }

}
