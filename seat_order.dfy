/**
 * Best-available selection: available seats sorted by row, then by column.
 * The sort is checked against an independent reference, the row-major
 * enumeration of the grid filtered by availability.
 */
module SeatOrder {

  import opened Seats
  import opened Holds
  import opened Tracker

  type Position = (int, int)

  function PositionOf(s: Seat): Position {
    (s.rowNum, s.columnNum)
  }

  /** Row-then-column order. */
  predicate Before(p: Position, q: Position) {
    p.0 < q.0 || (p.0 == q.0 && p.1 < q.1)
  }

  predicate AtOrBefore(p: Position, q: Position) {
    p == q || Before(p, q)
  }

  predicate Ascending(ps: seq<Position>) {
    forall i, j :: 0 <= i < j < |ps| ==> Before(ps[i], ps[j])
  }

  function Positions(seats: seq<Seat>): (ps: seq<Position>)
    ensures |ps| == |seats|
    ensures forall i :: 0 <= i < |seats| ==> ps[i] == PositionOf(seats[i])
  {
    seq(|seats|, i requires 0 <= i < |seats| => PositionOf(seats[i]))
  }

  /** Every seat carries the id of its own grid position. */
  predicate IdsMatchPositions(seats: seq<Seat>) {
    forall i :: 0 <= i < |seats| ==> seats[i].id == SeatId(seats[i].rowNum, seats[i].columnNum)
  }

  /** The seat ids of a sequence of grid positions. */
  ghost function PositionIds(ps: seq<Position>): set<string> {
    set i | 0 <= i < |ps| :: SeatId(ps[i].0, ps[i].1)
  }

  /** Seats whose ids match their positions have exactly the ids of those positions. */
  lemma IdsArePositionIds(seats: seq<Seat>)
    requires IdsMatchPositions(seats)
    ensures IdsOf(seats) == PositionIds(Positions(seats))
  {
    var ps := Positions(seats);
    forall k | k in IdsOf(seats) ensures k in PositionIds(ps) {
      var i :| 0 <= i < |seats| && seats[i].id == k;
      assert SeatId(ps[i].0, ps[i].1) == k;
    }
    forall k | k in PositionIds(ps) ensures k in IdsOf(seats) {
      var i :| 0 <= i < |ps| && SeatId(ps[i].0, ps[i].1) == k;
      assert seats[i].id == k;
    }
  }

  /** A prefix of q is q cut at its length. */
  lemma PrefixIsSlice<T>(p: seq<T>, q: seq<T>)
    requires p <= q
    ensures p == q[..|p|]
  {
  }

  /** No two seats share a position. */
  predicate DistinctPositions(seats: set<Seat>) {
    forall a, b :: a in seats && b in seats && PositionOf(a) == PositionOf(b) ==> a == b
  }

  /** m is a seat of seats at or before every other one. */
  predicate IsLeast(seats: set<Seat>, m: Seat) {
    m in seats && forall x :: x in seats ==> AtOrBefore(PositionOf(m), PositionOf(x))
  }

  lemma {:induction false} LeastExists(seats: set<Seat>)
    requires seats != {}
    ensures exists m :: IsLeast(seats, m)
    decreases seats
  {
    var y :| y in seats;
    var rest := seats - {y};
    if rest == {} {
      assert seats == {y};
      assert IsLeast(seats, y);
    } else {
      LeastExists(rest);
      var m :| IsLeast(rest, m);
      if AtOrBefore(PositionOf(m), PositionOf(y)) {
        assert IsLeast(seats, m);
      } else {
        assert IsLeast(seats, y);
      }
    }
  }

  /** With distinct positions there is only one least seat. */
  lemma LeastUnique(seats: set<Seat>)
    requires DistinctPositions(seats)
    ensures forall a, b :: IsLeast(seats, a) && IsLeast(seats, b) ==> a == b
  {
    forall a, b | IsLeast(seats, a) && IsLeast(seats, b) ensures a == b {
      assert AtOrBefore(PositionOf(a), PositionOf(b)) && AtOrBefore(PositionOf(b), PositionOf(a));
    }
  }

  /**
   * sortByRowAndColumn: the seats ordered from the best (lowest row, then
   * lowest column) to the worst. Each step takes the least remaining seat.
   */
  function SortByRowAndColumn(seats: set<Seat>): (r: seq<Seat>)
    requires DistinctPositions(seats)
    ensures |r| == |seats|
    ensures forall i :: 0 <= i < |r| ==> r[i] in seats
    ensures forall s :: s in seats ==> s in r
    ensures Ascending(Positions(r))
    decreases seats
  {
    if seats == {} then []
    else
      LeastExists(seats);
      LeastUnique(seats);
      var m :| IsLeast(seats, m);
      var rest := SortByRowAndColumn(seats - {m});
      assert forall i :: 0 <= i < |rest| ==> Before(PositionOf(m), PositionOf(rest[i]));
      AscendingCons(m, rest);
      ConsMembers(m, rest, seats);
      [m] + rest
  }

  /** Putting m in front of an enumeration of seats - {m} enumerates seats. */
  lemma ConsMembers(m: Seat, rest: seq<Seat>, seats: set<Seat>)
    requires m in seats && |rest| == |seats - {m}|
    requires forall i :: 0 <= i < |rest| ==> rest[i] in seats - {m}
    requires forall s :: s in seats - {m} ==> s in rest
    ensures |[m] + rest| == |seats|
    ensures forall i :: 0 <= i < |[m] + rest| ==> ([m] + rest)[i] in seats
    ensures forall s :: s in seats ==> s in [m] + rest
  {
    var r := [m] + rest;
    forall i | 0 <= i < |r| ensures r[i] in seats {
      if i > 0 { assert r[i] == rest[i - 1]; }
    }
    forall s | s in seats ensures s in r {
      if s != m { assert s in rest; }
    }
  }

  /** A seat before every seat of an ascending sequence can be put in front of it. */
  lemma AscendingCons(m: Seat, rest: seq<Seat>)
    requires Ascending(Positions(rest))
    requires forall i :: 0 <= i < |rest| ==> Before(PositionOf(m), PositionOf(rest[i]))
    ensures Ascending(Positions([m] + rest))
  {
    var ps := Positions([m] + rest);
    forall i, j | 0 <= i < j < |ps| ensures Before(ps[i], ps[j]) {
      assert ps[j] == PositionOf(rest[j - 1]);
      if i > 0 {
        assert ps[i] == PositionOf(rest[i - 1]);
        assert Positions(rest)[i - 1] == ps[i] && Positions(rest)[j - 1] == ps[j];
      }
    }
  }

  /** An ascending sequence starts with its least element. */
  lemma AscendingHead(ps: seq<Position>, p: Position)
    requires Ascending(ps) && p in ps
    ensures AtOrBefore(ps[0], p)
  {
    var i :| 0 <= i < |ps| && ps[i] == p;
    if i > 0 { assert Before(ps[0], ps[i]); }
  }

  /** Two ascending sequences with the same elements are equal. */
  lemma {:induction false} AscendingUnique(a: seq<Position>, b: seq<Position>)
    requires Ascending(a) && Ascending(b)
    requires forall p :: p in a <==> p in b
    ensures a == b
    decreases |a|
  {
    if a != [] && b != [] {
      AscendingHead(a, b[0]);
      AscendingHead(b, a[0]);
      assert a[0] == b[0];
      forall p ensures p in a[1..] <==> p in b[1..] {
        AscendingTail(a, p);
        AscendingTail(b, p);
      }
      AscendingUnique(a[1..], b[1..]);
      assert a == [a[0]] + a[1..];
      assert b == [b[0]] + b[1..];
    } else {
      EmptyIffNoMembers(a);
      EmptyIffNoMembers(b);
    }
  }

  lemma EmptyIffNoMembers(s: seq<Position>)
    ensures s == [] <==> forall p :: p !in s
  {
    if s != [] { assert s[0] in s; }
  }

  lemma AscendingTail(a: seq<Position>, p: Position)
    requires Ascending(a) && a != []
    ensures p in a[1..] <==> p in a && p != a[0]
  {
    if p in a[1..] {
      var i :| 0 <= i < |a[1..]| && a[1..][i] == p;
      assert Before(a[0], a[i + 1]);
    }
    if p in a && p != a[0] {
      var i :| 0 <= i < |a| && a[i] == p;
      assert a[1..][i - 1] == p;
    }
  }

  // The reference order: the grid enumerated row by row.

  function Row(i: int, columns: nat): (ps: seq<Position>)
    ensures |ps| == columns
    ensures forall j :: 0 <= j < columns ==> ps[j] == (i, j)
  {
    seq(columns, j requires 0 <= j < columns => (i, j))
  }

  function RowMajor(rows: nat, columns: nat): seq<Position> {
    if rows == 0 then [] else RowMajor(rows - 1, columns) + Row(rows - 1, columns)
  }

  lemma {:induction false} RowMajorMembers(rows: nat, columns: nat, p: Position)
    ensures p in RowMajor(rows, columns) <==> 0 <= p.0 < rows && 0 <= p.1 < columns
    decreases rows
  {
    if rows > 0 {
      RowMajorMembers(rows - 1, columns, p);
      if p.0 == rows - 1 && 0 <= p.1 < columns {
        assert Row(rows - 1, columns)[p.1] == p;
      }
    }
  }

  lemma {:induction false} RowMajorAscending(rows: nat, columns: nat)
    ensures Ascending(RowMajor(rows, columns))
    decreases rows
  {
    if rows > 0 {
      var a, b := RowMajor(rows - 1, columns), Row(rows - 1, columns);
      RowMajorAscending(rows - 1, columns);
      forall i | 0 <= i < |a| ensures a[i].0 < rows - 1 {
        RowMajorMembers(rows - 1, columns, a[i]);
      }
      var ab := a + b;
      forall i, j | 0 <= i < j < |ab| ensures Before(ab[i], ab[j]) {
        if j < |a| {
          assert ab[i] == a[i] && ab[j] == a[j];
        } else if i < |a| {
          assert ab[i] == a[i] && ab[j] == b[j - |a|];
        } else {
          assert ab[i] == b[i - |a|] && ab[j] == b[j - |a|];
        }
      }
    }
  }

  lemma {:induction false} RowMajorSize(rows: nat, columns: nat)
    ensures |RowMajor(rows, columns)| == rows * columns
    decreases rows
  {
    if rows > 0 { RowMajorSize(rows - 1, columns); }
  }

  lemma {:induction false} RowMajorLength(rows: nat, columns: nat)
    requires rows >= 1
    ensures |RowMajor(rows, columns)| >= columns
    decreases rows
  {
    if rows > 1 { RowMajorLength(rows - 1, columns); }
  }

  /** The row-major enumeration starts with row 0, column by column. */
  lemma {:induction false} RowMajorStartsWithRowZero(rows: nat, columns: nat, j: nat)
    requires rows >= 1 && j < columns
    ensures j < |RowMajor(rows, columns)| && RowMajor(rows, columns)[j] == (0, j)
    decreases rows
  {
    RowMajorLength(rows, columns);
    if rows > 1 {
      RowMajorLength(rows - 1, columns);
      RowMajorStartsWithRowZero(rows - 1, columns, j);
    }
  }

  /** The positions of ps whose seat is AVAILABLE in st, in order. */
  ghost function FilterAvailable(ps: seq<Position>, st: map<string, SeatStatus>): seq<Position> {
    if ps == [] then []
    else
      var rest := FilterAvailable(ps[1..], st);
      var id := SeatId(ps[0].0, ps[0].1);
      if id in st && st[id] == Available then [ps[0]] + rest else rest
  }

  lemma {:induction false} FilterAvailableMembers(ps: seq<Position>, st: map<string, SeatStatus>, p: Position)
    ensures p in FilterAvailable(ps, st) <==>
              p in ps && SeatId(p.0, p.1) in st && st[SeatId(p.0, p.1)] == Available
    decreases |ps|
  {
    if ps != [] {
      FilterAvailableMembers(ps[1..], st, p);
      assert ps == [ps[0]] + ps[1..];
    }
  }

  lemma {:induction false} FilterAvailableAscending(ps: seq<Position>, st: map<string, SeatStatus>)
    requires Ascending(ps)
    ensures Ascending(FilterAvailable(ps, st))
    decreases |ps|
  {
    if ps != [] {
      var rest := FilterAvailable(ps[1..], st);
      FilterAvailableAscending(ps[1..], st);
      forall i | 0 <= i < |rest| ensures Before(ps[0], rest[i]) {
        FilterAvailableMembers(ps[1..], st, rest[i]);
        var k :| 0 <= k < |ps[1..]| && ps[1..][k] == rest[i];
        assert ps[k + 1] == rest[i];
      }
      var f := [ps[0]] + rest;
      forall i, j | 0 <= i < j < |f| ensures Before(f[i], f[j]) {
        if i == 0 { assert f[j] == rest[j - 1]; } else { assert f[i] == rest[i - 1] && f[j] == rest[j - 1]; }
      }
    }
  }

  /** The reference: available positions of the grid in row-major order. */
  ghost function BestAvailable(st: map<string, SeatStatus>, rows: nat, columns: nat): seq<Position> {
    FilterAvailable(RowMajor(rows, columns), st)
  }

  /** Sorting the available seats yields exactly the row-major order of the available positions. */
  lemma SortedAvailableIsBestAvailable(t: SeatTracker)
    requires t.Valid()
    ensures DistinctPositions(t.AvailableSeats())
    ensures Positions(SortByRowAndColumn(t.AvailableSeats())) == BestAvailable(t.Statuses(), t.rows, t.columns)
  {
    var available := t.AvailableSeats();
    var st := t.Statuses();
    forall a, b | a in available && b in available && PositionOf(a) == PositionOf(b) ensures a == b {
      assert t.seats[a.id] == a && t.seats[b.id] == b;
    }
    var ps := Positions(SortByRowAndColumn(available));
    var qs := BestAvailable(st, t.rows, t.columns);
    RowMajorAscending(t.rows, t.columns);
    FilterAvailableAscending(RowMajor(t.rows, t.columns), st);
    forall p ensures p in ps <==> p in qs {
      FilterAvailableMembers(RowMajor(t.rows, t.columns), st, p);
      RowMajorMembers(t.rows, t.columns, p);
      var id := SeatId(p.0, p.1);
      if p in ps {
        var i :| 0 <= i < |ps| && ps[i] == p;
        var s := SortByRowAndColumn(available)[i];
        assert s in available && t.seats[s.id] == s;
      }
      if p in qs {
        var s := t.seats[id];
        assert s in available;
        SeatIdInjective(p.0, p.1, s.rowNum, s.columnNum);
        var sorted := SortByRowAndColumn(available);
        var i :| 0 <= i < |sorted| && sorted[i] == s;
        assert ps[i] == p;
      }
    }
    AscendingUnique(ps, qs);
  }

  /** When every seat is AVAILABLE the best-available order is the whole grid, row by row. */
  lemma AllAvailableIsRowMajor(st: map<string, SeatStatus>, rows: nat, columns: nat)
    requires GridIds(rows, columns) <= IdsWith(st, Available)
    ensures BestAvailable(st, rows, columns) == RowMajor(rows, columns)
  {
    var ps := RowMajor(rows, columns);
    forall i | 0 <= i < |ps| ensures 0 <= ps[i].0 < rows && 0 <= ps[i].1 < columns {
      RowMajorMembers(rows, columns, ps[i]);
    }
    AllAvailableFilter(ps, st, rows, columns);
  }

  lemma {:induction false} AllAvailableFilter(ps: seq<Position>, st: map<string, SeatStatus>, rows: nat, columns: nat)
    requires GridIds(rows, columns) <= IdsWith(st, Available)
    requires forall i :: 0 <= i < |ps| ==> 0 <= ps[i].0 < rows && 0 <= ps[i].1 < columns
    ensures FilterAvailable(ps, st) == ps
    decreases |ps|
  {
    if ps != [] {
      assert SeatId(ps[0].0, ps[0].1) in GridIds(rows, columns);
      AllAvailableFilter(ps[1..], st, rows, columns);
      assert ps == [ps[0]] + ps[1..];
    }
  }

}
